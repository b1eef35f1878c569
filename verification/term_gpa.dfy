/** The term GPA shown in each expanded section's content: quality points over GPA
    hours, summed across the term's courses. */
module TermGpa {
  import opened Payload
  import opened Wrappers
  import Aggregator

  function GpaHours(c: Course): real { c.gpaHours }
  function Points(c: Course): real { c.points }

  /** The sum of one numeric field over a sequence of courses. */
  function Total(cs: seq<Course>, field: Course -> real): real {
    if |cs| == 0 then 0.0 else Total(cs[..|cs| - 1], field) + field(cs[|cs| - 1])
  }

  /** Points over hours; there is no finite GPA when the hours sum to zero. */
  function TermGpa(cs: seq<Course>): (r: Option<real>)
    ensures r.None? <==> Total(cs, GpaHours) == 0.0
    ensures r.Some? ==> r.value * Total(cs, GpaHours) == Total(cs, Points)
  {
    var hours := Total(cs, GpaHours);
    if hours == 0.0 then None else Some(Total(cs, Points) / hours)
  }

  /** The accumulation loop of the section renderer. */
  method RenderedGpa(content: seq<Course>) returns (gpa: Option<real>)
    ensures gpa == TermGpa(content)
  {
    var total := 0.0;
    var earned := 0.0;
    var i := 0;
    while i < |content|
      invariant 0 <= i <= |content|
      invariant total == Total(content[..i], GpaHours)
      invariant earned == Total(content[..i], Points)
    {
      assert content[..i + 1][..i] == content[..i];
      total := total + content[i].gpaHours;
      earned := earned + content[i].points;
      i := i + 1;
    }
    assert content[..i] == content;
    if total == 0.0 {
      gpa := None;
    } else {
      gpa := Some(earned / total);
    }
  }

  /** The GPA of a section.  A section whose value is not a course list has
      no finite GPA: a boolean, number or `undefined` has no indices to sum
      over (0/0), and a string's characters have no numeric fields (NaN). */
  function SectionGpa(s: Aggregator.Section): (r: Option<real>)
    ensures !s.content.Courses? ==> r.None?
    ensures s.content.Courses? ==> r == TermGpa(s.content.courses)
  {
    match s.content
    case Courses(cs) => TermGpa(cs)
    case _ => None
  }

  lemma {:induction false} TotalAppend(a: seq<Course>, b: seq<Course>, field: Course -> real)
    ensures Total(a + b, field) == Total(a, field) + Total(b, field)
    decreases |b|
  {
    if |b| == 0 {
      assert a + b == a;
    } else {
      assert (a + b)[..|a + b| - 1] == a + b[..|b| - 1];
      assert (a + b)[|a + b| - 1] == b[|b| - 1];
      TotalAppend(a, b[..|b| - 1], field);
    }
  }

  /** Sums do not depend on the order of the courses. */
  lemma {:induction false} TotalPermutation(a: seq<Course>, b: seq<Course>, field: Course -> real)
    requires multiset(a) == multiset(b)
    ensures Total(a, field) == Total(b, field)
    decreases |a|
  {
    if |a| > 0 {
      var x := a[|a| - 1];
      var a' := a[..|a| - 1];
      assert a == a' + [x];
      assert multiset(a') == multiset(a) - multiset{x};
      assert x in multiset(b);
      var j :| 0 <= j < |b| && b[j] == x;
      var b' := b[..j] + b[j + 1..];
      MultisetRemoveAt(b, j);
      TotalRemoveAt(b, j, field);
      TotalPermutation(a', b', field);
    }
  }

  /** Taking the course at `j` out of a sequence removes one copy of it
      from the multiset of courses... */
  lemma MultisetRemoveAt(b: seq<Course>, j: int)
    requires 0 <= j < |b|
    ensures multiset(b[..j] + b[j + 1..]) == multiset(b) - multiset{b[j]}
  {
    assert b == b[..j] + b[j..];
    assert b[j..] == [b[j]] + b[j + 1..];
  }

  /** ...and its share of the sum. */
  lemma TotalRemoveAt(b: seq<Course>, j: int, field: Course -> real)
    requires 0 <= j < |b|
    ensures Total(b, field) == Total(b[..j] + b[j + 1..], field) + field(b[j])
  {
    var x, pre, post := b[j], b[..j], b[j + 1..];
    var mid := b[j..];
    assert b == pre + mid;
    assert mid == [x] + post;
    assert Total([x], field) == field(x) by {
      assert [x][..0] == [];
    }
    TotalAppend(pre, mid, field);
    TotalAppend([x], post, field);
    TotalAppend(pre, post, field);
  }

  /** Reordering a term's courses does not change its GPA. */
  lemma TermGpaPermutationInvariant(a: seq<Course>, b: seq<Course>)
    requires multiset(a) == multiset(b)
    ensures TermGpa(a) == TermGpa(b)
  {
    TotalPermutation(a, b, GpaHours);
    TotalPermutation(a, b, Points);
  }

  /** A course is graded on the 4.0 scale when its points lie between zero
      and four per GPA hour. */
  predicate OnFourPointScale(c: Course) {
    0.0 <= c.points <= 4.0 * c.gpaHours
  }

  lemma {:induction false} TotalsOnScale(cs: seq<Course>)
    requires forall i :: 0 <= i < |cs| ==> OnFourPointScale(cs[i])
    ensures 0.0 <= Total(cs, Points) <= 4.0 * Total(cs, GpaHours)
  {
    if |cs| > 0 {
      TotalsOnScale(cs[..|cs| - 1]);
      assert OnFourPointScale(cs[|cs| - 1]);
    }
  }

  /** With every course on the 4.0 scale and some GPA hours, the term GPA
      exists and lies in [0, 4]. */
  lemma TermGpaWithinScale(cs: seq<Course>)
    requires forall i :: 0 <= i < |cs| ==> OnFourPointScale(cs[i])
    requires Total(cs, GpaHours) > 0.0
    ensures TermGpa(cs).Some?
    ensures 0.0 <= TermGpa(cs).value <= 4.0
  {
    TotalsOnScale(cs);
    var h := Total(cs, GpaHours);
    var p := Total(cs, Points);
    assert p / h <= 4.0 by {
      assert p <= 4.0 * h;
    }
  }
}
