/** The grades screen's state and its transitions: mounting (from the cache
    or by waiting for a delivery), the delivery handler `loadInfo`, and the
    accordion's expand/collapse handler. */
module GradesScreen {
  import opened Wrappers
  import opened Payload
  import opened Aggregator

  datatype ViewState = ViewState(
    loaded: bool,
    failed: bool,
    gpa: Value,
    activeSections: seq<int>,
    grades: seq<Section>)

  /** Nothing loaded, nothing failed, an empty overall GPA, the first
      section expanded, no sections. */
  const Initial: ViewState := ViewState(false, false, Str(""), [0], [])

  /** The delivery handler.  `None` stands for a falsy argument (no payload).
      A payload replaces the sections and the overall GPA; a missing one only
      raises `failed`.  Either way the screen counts as loaded afterwards. */
  function LoadInfo(s: ViewState, data: Option<seq<Entry>>, translateTerm: string -> string)
    : (r: ViewState)
    ensures r.loaded
    ensures r.activeSections == s.activeSections
    ensures s.failed ==> r.failed
    ensures data.Some? ==> && r.grades == BuildSections(data.value, translateTerm)
                           && r.gpa == Get(data.value, GpaKey)
                           && r.failed == s.failed
    ensures data.None? ==> r.failed && r.grades == s.grades && r.gpa == s.gpa
  {
    var s' := match data
      case Some(d) => s.(grades := BuildSections(d, translateTerm), gpa := Get(d, GpaKey))
      case None => s.(failed := true);
    s'.(loaded := true)
  }

  /** The accordion's change handler: the expanded indices are replaced
      wholesale. */
  function UpdateSections(s: ViewState, activeSections: seq<int>): (r: ViewState)
    ensures r.activeSections == activeSections
    ensures r.loaded == s.loaded && r.failed == s.failed
    ensures r.gpa == s.gpa && r.grades == s.grades
  {
    s.(activeSections := activeSections)
  }

  /** A mounted screen: its state, and whether it subscribed to deliveries. */
  datatype Screen = Screen(state: ViewState, listening: bool)

  /** Mounting: with the cache flagged as loaded, the cache is loaded at once
      and no subscription is made; otherwise the screen subscribes and waits
      in the initial state. */
  function Mount(cache: seq<Entry>, translateTerm: string -> string): (m: Screen)
    ensures m.listening <==> !Truthy(Get(cache, LoadedKey))
    ensures m.listening ==> m.state == Initial
    ensures !m.listening ==> && m.state.loaded && !m.state.failed
                             && m.state.grades == BuildSections(cache, translateTerm)
                             && m.state.gpa == Get(cache, GpaKey)
                             && m.state.activeSections == [0]
  {
    if Truthy(Get(cache, LoadedKey)) then Screen(LoadInfo(Initial, Some(cache), translateTerm), false)
    else Screen(Initial, true)
  }

  /** A delivery reaches a subscribed screen and runs the handler again every
      time; a screen that never subscribed does not see it. */
  function Deliver(m: Screen, data: Option<seq<Entry>>, translateTerm: string -> string): (m': Screen)
    ensures m'.listening == m.listening
    ensures !m.listening ==> m' == m
    ensures m.listening ==> m'.state == LoadInfo(m.state, data, translateTerm)
  {
    if m.listening then Screen(LoadInfo(m.state, data, translateTerm), true) else m
  }

  /** A series of deliveries, in order. */
  function DeliverAll(m: Screen, ds: seq<Option<seq<Entry>>>, translateTerm: string -> string): Screen
    decreases |ds|
  {
    if |ds| == 0 then m else DeliverAll(Deliver(m, ds[0], translateTerm), ds[1..], translateTerm)
  }

  /** Delivering the same argument twice is the same as delivering it once. */
  lemma LoadInfoIdempotent(s: ViewState, data: Option<seq<Entry>>, translateTerm: string -> string)
    ensures LoadInfo(LoadInfo(s, data, translateTerm), data, translateTerm) == LoadInfo(s, data, translateTerm)
  {
  }

  /** The delivery handler and the accordion handler touch disjoint fields, so
      their order does not matter. */
  lemma LoadInfoCommutesWithUpdate(s: ViewState, data: Option<seq<Entry>>, active: seq<int>,
                                   translateTerm: string -> string)
    ensures UpdateSections(LoadInfo(s, data, translateTerm), active)
         == LoadInfo(UpdateSections(s, active), data, translateTerm)
  {
  }

  /** The last expand/collapse wins. */
  lemma UpdateSectionsLastWins(s: ViewState, a: seq<int>, b: seq<int>)
    ensures UpdateSections(UpdateSections(s, a), b) == UpdateSections(s, b)
  {
  }

  /** Waiting for the first delivery: a payload gives a loaded, not failed
      screen with one section per term key and the first section expanded;
      no payload gives a failed, loaded screen without sections and with the
      overall GPA still empty. */
  lemma MountThenDeliver(cache: seq<Entry>, data: Option<seq<Entry>>, translateTerm: string -> string)
    requires !Truthy(Get(cache, LoadedKey))
    requires data.Some? ==> DistinctKeys(data.value)
    ensures var s := Deliver(Mount(cache, translateTerm), data, translateTerm).state;
      && s.loaded
      && s.activeSections == [0]
      && (data.Some? ==> !s.failed && |s.grades| == |TermEntries(data.value)|
                         && s.gpa == Get(data.value, GpaKey))
      && (data.None? ==> s.failed && s.grades == [] && s.gpa == Str(""))
  {
    if data.Some? {
      BuildSectionsReversesTerms(data.value, translateTerm);
    }
  }

  /** Deliveries keep arriving at a subscribed screen, and each one re-runs
      the handler: after a non-empty series the screen is loaded, it has
      failed exactly when it had failed before or some delivery carried no
      payload, and the expanded sections are untouched. */
  lemma {:induction false} DeliverAllFailedIffSomeAbsent(m: Screen, ds: seq<Option<seq<Entry>>>,
                                                         translateTerm: string -> string)
    requires m.listening
    ensures DeliverAll(m, ds, translateTerm).listening
    ensures |ds| > 0 ==> DeliverAll(m, ds, translateTerm).state.loaded
    ensures DeliverAll(m, ds, translateTerm).state.failed
        <==> m.state.failed || exists i :: 0 <= i < |ds| && ds[i].None?
    ensures DeliverAll(m, ds, translateTerm).state.activeSections == m.state.activeSections
    decreases |ds|
  {
    if |ds| > 0 {
      var m1 := Deliver(m, ds[0], translateTerm);
      DeliverAllFailedIffSomeAbsent(m1, ds[1..], translateTerm);
      if |ds| > 1 {
        assert DeliverAll(m1, ds[1..], translateTerm).state.loaded;
      } else {
        assert DeliverAll(m1, ds[1..], translateTerm) == m1;
      }
      assert forall i :: 1 <= i < |ds| ==> ds[i] == ds[1..][i - 1];
      if exists i :: 0 <= i < |ds[1..]| && ds[1..][i].None? {
        var i :| 0 <= i < |ds[1..]| && ds[1..][i].None?;
        assert ds[i + 1].None?;
      }
    }
  }

  /** Without a one-shot guard, the sections and overall GPA on screen are
      those of the last delivery that carried a payload. */
  lemma {:induction false} DeliverAllLastPayloadWins(m: Screen, ds: seq<Option<seq<Entry>>>, k: int,
                                                     translateTerm: string -> string)
    requires m.listening
    requires 0 <= k < |ds| && ds[k].Some?
    requires forall i :: k < i < |ds| ==> ds[i].None?
    ensures DeliverAll(m, ds, translateTerm).state.grades == BuildSections(ds[k].value, translateTerm)
    ensures DeliverAll(m, ds, translateTerm).state.gpa == Get(ds[k].value, GpaKey)
    decreases |ds|
  {
    var m1 := Deliver(m, ds[0], translateTerm);
    if k > 0 {
      assert ds[1..][k - 1] == ds[k];
      DeliverAllLastPayloadWins(m1, ds[1..], k - 1, translateTerm);
    } else {
      NoPayloadKeepsContent(m1, ds[1..], translateTerm);
    }
  }

  /** Deliveries without a payload leave the sections and overall GPA alone. */
  lemma {:induction false} NoPayloadKeepsContent(m: Screen, ds: seq<Option<seq<Entry>>>,
                                                 translateTerm: string -> string)
    requires forall i :: 0 <= i < |ds| ==> ds[i].None?
    ensures DeliverAll(m, ds, translateTerm).state.grades == m.state.grades
    ensures DeliverAll(m, ds, translateTerm).state.gpa == m.state.gpa
    decreases |ds|
  {
    if |ds| > 0 {
      assert ds[0].None?;
      NoPayloadKeepsContent(Deliver(m, ds[0], translateTerm), ds[1..], translateTerm);
    }
  }
}
