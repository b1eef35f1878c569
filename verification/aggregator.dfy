/** Building the accordion's sections from a delivered payload: one section
    per term key, pushed in enumeration order, then sorted with the default
    comparator and reversed in place. */
module Aggregator {
  import opened Payload
  import StableSort

  /** One accordion section: the translated term label and the value stored
      under that term's key. */
  datatype Section = Section(term: string, content: Value)

  /** The string a section object converts to; the default comparator of
      `sort()` compares these. */
  function ObjectString(s: Section): string {
    "[object Object]"
  }

  /** The section the loop pushes for one term entry. */
  function SectionOf(data: seq<Entry>, e: Entry, translateTerm: string -> string): Section {
    Section(translateTerm(e.key), Get(data, e.key))
  }

  /** The array after the for-in loop: one section per term entry, in
      enumeration order. */
  function Pushed(data: seq<Entry>, translateTerm: string -> string): seq<Section> {
    var t := TermEntries(data);
    seq(|t|, i requires 0 <= i < |t| => SectionOf(data, t[i], translateTerm))
  }

  /** The for-in loop itself: walks the enumerated keys, skips the reserved
      ones and pushes a section for every other key. */
  method CollectSections(data: seq<Entry>, translateTerm: string -> string)
    returns (grades: seq<Section>)
    ensures grades == Pushed(data, translateTerm)
  {
    grades := [];
    ghost var terms: seq<Entry> := [];
    var n := 0;
    while n < |data|
      invariant 0 <= n <= |data|
      invariant terms == TermEntries(data[..n])
      invariant |grades| == |terms|
      invariant forall i :: 0 <= i < |grades| ==> grades[i] == SectionOf(data, terms[i], translateTerm)
    {
      var entry := data[n];
      TermEntriesStep(data, n);
      if entry.key != LoadedKey && entry.key != GpaKey {
        grades := grades + [Section(translateTerm(entry.key), Get(data, entry.key))];
        terms := terms + [entry];
      } else {
        assert IsReserved(entry.key);
      }
      n := n + 1;
    }
    assert data[..n] == data;
  }

  /** Enumerating one more key extends the term entries by that key's entry
      unless it is reserved. */
  lemma TermEntriesStep(data: seq<Entry>, n: int)
    requires 0 <= n < |data|
    ensures TermEntries(data[..n + 1])
         == TermEntries(data[..n]) + (if IsReserved(data[n].key) then [] else [data[n]])
  {
    assert data[..n + 1][..n] == data[..n];
  }

  /** `Array.prototype.reverse`. */
  function Reverse<T>(s: seq<T>): (r: seq<T>)
    ensures |r| == |s|
    ensures forall i :: 0 <= i < |s| ==> r[i] == s[|s| - 1 - i]
  {
    if |s| == 0 then [] else [s[|s| - 1]] + Reverse(s[..|s| - 1])
  }

  /** The `grades` array after `grades.sort().reverse()`. */
  function BuildSections(data: seq<Entry>, translateTerm: string -> string): seq<Section> {
    Reverse(StableSort.SortBy(Pushed(data, translateTerm), ObjectString))
  }

  /** The default-comparator sort leaves the pushed sections in place, since
      they all convert to the same string. */
  lemma SortLeavesSectionsInPlace(gs: seq<Section>)
    ensures StableSort.SortBy(gs, ObjectString) == gs
  {
    StableSort.SortByConstantKey(gs, ObjectString);
  }

  /** The sections are the term entries in reverse enumeration order: one per
      key other than `loaded` and `gpa`, labelled by the translated key and
      holding that key's value unmodified. */
  lemma BuildSectionsReversesTerms(data: seq<Entry>, translateTerm: string -> string)
    requires DistinctKeys(data)
    ensures var t := TermEntries(data);
      && |BuildSections(data, translateTerm)| == |t|
      && forall i :: 0 <= i < |t| ==>
           BuildSections(data, translateTerm)[i]
             == Section(translateTerm(t[|t| - 1 - i].key), t[|t| - 1 - i].value)
  {
    var t := TermEntries(data);
    SortLeavesSectionsInPlace(Pushed(data, translateTerm));
    forall i | 0 <= i < |t|
      ensures Get(data, t[i].key) == t[i].value
    {
      TermEntriesMembers(data);
      assert t[i] in t;
      var k :| 0 <= k < |data| && data[k] == t[i];
      GetEnumerated(data, k);
    }
  }

  /** Of two term keys, the one enumerated later has its section first. */
  lemma BuildSectionsReverseOrder(data: seq<Entry>, i: int, j: int, translateTerm: string -> string)
    returns (a: int, b: int)
    requires DistinctKeys(data)
    requires 0 <= i < j < |data|
    requires !IsReserved(data[i].key) && !IsReserved(data[j].key)
    ensures 0 <= a < b < |BuildSections(data, translateTerm)|
    ensures BuildSections(data, translateTerm)[a] == Section(translateTerm(data[j].key), data[j].value)
    ensures BuildSections(data, translateTerm)[b] == Section(translateTerm(data[i].key), data[i].value)
  {
    var x, y := TermEntriesKeepOrder(data, i, j);
    a, b := SectionsOfOrderedTerms(data, x, y, translateTerm);
  }

  /** The sections of the term entries at positions `x < y` appear at
      mirrored positions, `y`'s first. */
  lemma SectionsOfOrderedTerms(data: seq<Entry>, x: int, y: int, translateTerm: string -> string)
    returns (a: int, b: int)
    requires DistinctKeys(data)
    requires 0 <= x < y < |TermEntries(data)|
    ensures 0 <= a < b < |BuildSections(data, translateTerm)|
    ensures BuildSections(data, translateTerm)[a]
         == Section(translateTerm(TermEntries(data)[y].key), TermEntries(data)[y].value)
    ensures BuildSections(data, translateTerm)[b]
         == Section(translateTerm(TermEntries(data)[x].key), TermEntries(data)[x].value)
  {
    a := SectionOfTerm(data, y, translateTerm);
    b := SectionOfTerm(data, x, translateTerm);
  }

  /** One instance of the reversal: where the section of the `k`-th term
      entry sits. */
  lemma SectionOfTerm(data: seq<Entry>, k: int, translateTerm: string -> string) returns (p: int)
    requires DistinctKeys(data)
    requires 0 <= k < |TermEntries(data)|
    ensures p == |TermEntries(data)| - 1 - k
    ensures 0 <= p < |BuildSections(data, translateTerm)|
    ensures BuildSections(data, translateTerm)[p]
         == Section(translateTerm(TermEntries(data)[k].key), TermEntries(data)[k].value)
  {
    BuildSectionsReversesTerms(data, translateTerm);
    p := |TermEntries(data)| - 1 - k;
  }


  /** Every term entry of the payload has its section, and every section
      comes from a term entry. */
  lemma BuildSectionsCoversTerms(data: seq<Entry>, translateTerm: string -> string)
    requires DistinctKeys(data)
    ensures forall e :: e in data && !IsReserved(e.key) ==>
              Section(translateTerm(e.key), e.value) in BuildSections(data, translateTerm)
    ensures forall s :: s in BuildSections(data, translateTerm) ==>
              exists e :: e in data && !IsReserved(e.key)
                          && s == Section(translateTerm(e.key), e.value)
  {
    BuildSectionsReversesTerms(data, translateTerm);
    TermEntriesMembers(data);
    ReversedSectionsCover(TermEntries(data), BuildSections(data, translateTerm), translateTerm);
  }

  /** Sections listed as the reverse of some entries cover exactly those
      entries. */
  lemma ReversedSectionsCover(t: seq<Entry>, g: seq<Section>, translateTerm: string -> string)
    requires |g| == |t|
    requires forall i :: 0 <= i < |t| ==>
               g[i] == Section(translateTerm(t[|t| - 1 - i].key), t[|t| - 1 - i].value)
    ensures forall e :: e in t ==> Section(translateTerm(e.key), e.value) in g
    ensures forall s :: s in g ==> exists e :: e in t && s == Section(translateTerm(e.key), e.value)
  {
    forall e | e in t
      ensures Section(translateTerm(e.key), e.value) in g
    {
      var k :| 0 <= k < |t| && t[k] == e;
      assert g[|t| - 1 - k] == Section(translateTerm(e.key), e.value);
    }
    forall s | s in g
      ensures exists e :: e in t && s == Section(translateTerm(e.key), e.value)
    {
      var k :| 0 <= k < |g| && g[k] == s;
      assert t[|t| - 1 - k] in t;
    }
  }
}
