/** The term-keyed grade payload as the grades screen receives it: an object
    whose own keys are term codes (each holding that term's course records)
    plus the two reserved keys `loaded` and `gpa`. */
module Payload {

  /** One course record of a term.  The numeric fields (ATTEMPTED, GPA_HRS,
      POINTS upstream) are taken as already parsed numbers. */
  datatype Course = Course(
    subject: string,
    number: string,
    titleCode: string,
    attempted: real,
    gpaHours: real,
    points: real,
    grade: string,
    crn: string)

  /** A JavaScript value as it can sit under a payload key. */
  datatype Value =
    | Courses(courses: seq<Course>)
    | Bool(b: bool)
    | Num(x: real)
    | Str(s: string)
    | Undefined

  /** One own property of the payload object. */
  datatype Entry = Entry(key: string, value: Value)

  const LoadedKey: string := "loaded"
  const GpaKey: string := "gpa"

  /** The keys that carry metadata rather than a term. */
  predicate IsReserved(key: string) {
    key == LoadedKey || key == GpaKey
  }

  /** JavaScript truthiness of a value (NaN is not modelled). */
  predicate Truthy(v: Value) {
    match v
    case Courses(_) => true
    case Bool(b) => b
    case Num(x) => x != 0.0
    case Str(s) => s != ""
    case Undefined => false
  }

  /** A JavaScript object never holds the same key twice. */
  predicate DistinctKeys(data: seq<Entry>) {
    forall i, j :: 0 <= i < j < |data| ==> data[i].key != data[j].key
  }

  /** Property access `data[key]`: the value stored under `key`, or
      `undefined` when the object has no such key. */
  function Get(data: seq<Entry>, key: string): (v: Value)
    ensures (exists i :: 0 <= i < |data| && data[i].key == key && data[i].value == v)
         || (v == Undefined && forall i :: 0 <= i < |data| ==> data[i].key != key)
  {
    if |data| == 0 then Undefined
    else if data[0].key == key then data[0].value
    else
      var v := Get(data[1..], key);
      assert forall i :: 1 <= i < |data| ==> data[i] == data[1..][i - 1];
      v
  }

  /** In an object with distinct keys, looking up an enumerated key yields
      the value enumerated with it. */
  lemma GetEnumerated(data: seq<Entry>, i: int)
    requires DistinctKeys(data)
    requires 0 <= i < |data|
    ensures Get(data, data[i].key) == data[i].value
  {
  }

  /** The enumerated entries that name a term (every key except the two
      reserved ones), in enumeration order. */
  function TermEntries(data: seq<Entry>): (t: seq<Entry>)
    ensures |t| <= |data|
    ensures forall i :: 0 <= i < |t| ==> !IsReserved(t[i].key)
  {
    if |data| == 0 then []
    else
      var last := data[|data| - 1];
      assert data == data[..|data| - 1] + [last];
      TermEntries(data[..|data| - 1]) + (if IsReserved(last.key) then [] else [last])
  }

  /** The term entries are exactly the enumerated entries whose key is not
      reserved. */
  lemma {:induction false} TermEntriesMembers(data: seq<Entry>)
    ensures forall e :: e in TermEntries(data) <==> e in data && !IsReserved(e.key)
  {
    if |data| > 0 {
      var init := data[..|data| - 1];
      TermEntriesMembers(init);
      assert data == init + [data[|data| - 1]];
    }
  }

  /** The term entries keep their enumeration order: two term entries of the
      payload appear among them in the order they were enumerated. */
  lemma {:induction false} TermEntriesKeepOrder(data: seq<Entry>, i: int, j: int)
    returns (a: int, b: int)
    requires 0 <= i < j < |data|
    requires !IsReserved(data[i].key) && !IsReserved(data[j].key)
    ensures 0 <= a < b < |TermEntries(data)|
    ensures TermEntries(data)[a] == data[i] && TermEntries(data)[b] == data[j]
  {
    var init := data[..|data| - 1];
    var t := TermEntries(data);
    var t0 := TermEntries(init);
    var last := data[|data| - 1];
    assert t == t0 + (if IsReserved(last.key) then [] else [last]);
    if j < |data| - 1 {
      assert init[i] == data[i] && init[j] == data[j];
      a, b := TermEntriesKeepOrder(init, i, j);
      assert t[a] == data[i] && t[b] == data[j];
    } else {
      TermEntriesMembers(init);
      assert data[i] == init[i];
      assert data[i] in t0;
      a :| 0 <= a < |t0| && t0[a] == data[i];
      b := |t| - 1;
      assert t[a] == data[i] && t[b] == data[j];
    }
  }

  /** Filtering out the reserved keys keeps the keys distinct. */
  lemma {:induction false} TermEntriesDistinct(data: seq<Entry>)
    requires DistinctKeys(data)
    ensures DistinctKeys(TermEntries(data))
  {
    if |data| > 0 {
      var init := data[..|data| - 1];
      var last := data[|data| - 1];
      assert DistinctKeys(init);
      TermEntriesDistinct(init);
      TermEntriesMembers(init);
      forall e | e in TermEntries(init)
        ensures e.key != last.key
      {
        var k :| 0 <= k < |init| && init[k] == e;
      }
    }
  }
}
