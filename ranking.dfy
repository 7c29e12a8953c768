/**
 * Ranking and search (getCourses and searchCourses): the stable descending
 * sort by a numeric field, the top-K distinct titles taken from it, and the
 * three-condition filter.
 */
module Ranking {
  import opened Text
  import opened Records

  /** The field getCourses ranks by. */
  datatype Field = Hours | Participants

  /** `sortBy` selects a sort only when it names a field exactly. */
  function FieldOf(sortBy: string): (f: Option<Field>)
    ensures f == Some(Hours) <==> sortBy == "hours"
    ensures f == Some(Participants) <==> sortBy == "participants"
  {
    if sortBy == "hours" then Some(Hours)
    else if sortBy == "participants" then Some(Participants)
    else None
  }

  datatype Option<T> = None | Some(value: T)

  /** The value compared (as a double in Java). */
  function SortKey(c: Course, f: Field): real
  {
    match f
    case Hours => c.totalHours
    case Participants => c.participants as real
  }

  predicate SortedDesc(cs: seq<Course>, f: Field)
  {
    forall i, j :: 0 <= i < j < |cs| ==> SortKey(cs[i], f) >= SortKey(cs[j], f)
  }

  /** A key no smaller than the head of a sorted list can go in front of it. */
  lemma SortedDescCons(x: Course, t: seq<Course>, f: Field)
    requires SortedDesc(t, f)
    requires t != [] ==> SortKey(x, f) >= SortKey(t[0], f)
    ensures SortedDesc([x] + t, f)
  {
    var r := [x] + t;
    forall i, j | 0 <= i < j < |r|
      ensures SortKey(r[i], f) >= SortKey(r[j], f)
    {
      if i == 0 && j > 1 {
        assert r[j] == t[j - 1];
      }
    }
  }

  /**
   * Inserts `c` in front of the first element whose key is not larger, so
   * that `c` stays ahead of every element with the same key.
   */
  function InsertDesc(c: Course, cs: seq<Course>, f: Field): (r: seq<Course>)
    requires SortedDesc(cs, f)
    ensures SortedDesc(r, f)
    ensures multiset(r) == multiset(cs) + multiset{c}
    ensures |r| == |cs| + 1 && (r[0] == c || (|cs| > 0 && r[0] == cs[0]))
  {
    if cs == [] || SortKey(cs[0], f) <= SortKey(c, f) then
      SortedDescCons(c, cs, f);
      [c] + cs
    else
      var t := InsertDesc(c, cs[1..], f);
      assert cs == [cs[0]] + cs[1..];
      SortedDescCons(cs[0], t, f);
      [cs[0]] + t
  }

  /**
   * The stable sort in descending order of the field: the model of
   * `stream().sorted(comparingDouble(key).reversed())`.
   */
  function SortDesc(cs: seq<Course>, f: Field): (r: seq<Course>)
    ensures SortedDesc(r, f)
    ensures multiset(r) == multiset(cs)
  {
    if cs == [] then []
    else
      assert cs == [cs[0]] + cs[1..];
      InsertDesc(cs[0], SortDesc(cs[1..], f), f)
  }

  /** The subsequence of the courses whose key is `v`. */
  function WithKey(cs: seq<Course>, f: Field, v: real): seq<Course>
  {
    if cs == [] then []
    else (if SortKey(cs[0], f) == v then [cs[0]] else []) + WithKey(cs[1..], f, v)
  }

  lemma WithKeyCons(x: Course, s: seq<Course>, f: Field, v: real)
    ensures WithKey([x] + s, f, v) == (if SortKey(x, f) == v then [x] else []) + WithKey(s, f, v)
  {
    assert ([x] + s)[1..] == s;
  }

  lemma {:induction false} InsertDescWithKey(c: Course, cs: seq<Course>, f: Field, v: real)
    requires SortedDesc(cs, f)
    ensures WithKey(InsertDesc(c, cs, f), f, v) ==
      (if SortKey(c, f) == v then [c] else []) + WithKey(cs, f, v)
  {
    if cs == [] || SortKey(cs[0], f) <= SortKey(c, f) {
      WithKeyCons(c, cs, f, v);
    } else {
      var t := InsertDesc(c, cs[1..], f);
      assert InsertDesc(c, cs, f) == [cs[0]] + t;
      InsertDescWithKey(c, cs[1..], f, v);
      WithKeyCons(cs[0], t, f, v);
      WithKeyCons(cs[0], cs[1..], f, v);
      assert [cs[0]] + cs[1..] == cs;
      var rest := WithKey(cs[1..], f, v);
      if SortKey(c, f) == v {
        assert WithKey(t, f, v) == [c] + rest;
        assert WithKey([cs[0]] + t, f, v) == [c] + rest;
      } else {
        assert WithKey(t, f, v) == rest;
      }
    }
  }

  /** The sort is stable: courses with equal keys keep their relative order. */
  lemma {:induction false} SortDescStable(cs: seq<Course>, f: Field, v: real)
    ensures WithKey(SortDesc(cs, f), f, v) == WithKey(cs, f, v)
  {
    if cs != [] {
      SortDescStable(cs[1..], f, v);
      InsertDescWithKey(cs[0], SortDesc(cs[1..], f), f, v);
    }
  }

  /** The titles of the courses, in order. */
  function Titles(cs: seq<Course>): (ts: seq<string>)
    ensures |ts| == |cs|
    ensures forall i :: 0 <= i < |cs| ==> ts[i] == cs[i].title
  {
    seq(|cs|, i requires 0 <= i < |cs| => cs[i].title)
  }

  lemma TitlesSnoc(cs: seq<Course>, i: nat)
    requires i < |cs|
    ensures Titles(cs[..i + 1]) == Titles(cs[..i]) + [cs[i].title]
  {
  }

  /** A result, or the index at which getCourses ran past the end. */
  datatype Outcome<T> = Ok(value: T) | IndexOutOfBounds(index: int)

  /**
   * The first `topK` distinct titles of `cs` in scan order, or the error
   * that the scan raises when fewer distinct titles exist.
   */
  function TopK(cs: seq<Course>, topK: int): (r: Outcome<seq<string>>)
    ensures r.IndexOutOfBounds? <==> topK > |Elems(Titles(cs))|
    ensures r.IndexOutOfBounds? ==> r.index == |cs|
    ensures r.Ok? ==> |r.value| == (if topK < 0 then 0 else topK)
    ensures r.Ok? ==> NoDuplicates(r.value)
    ensures r.Ok? ==> forall t :: t in r.value ==> exists i :: 0 <= i < |cs| && cs[i].title == t
  {
    var d := Distinct(Titles(cs));
    NoDuplicatesCard(d);
    if topK > |d| then IndexOutOfBounds(|cs|)
    else
      var v := d[..if topK < 0 then 0 else topK];
      assert forall t :: t in v ==> t in Elems(Titles(cs)) by {
        forall t | t in v ensures t in Elems(Titles(cs)) {
          assert t in Elems(d);
        }
      }
      Ok(v)
  }

  /** A scan that found `topK` distinct titles among the first `i` courses has the result. */
  lemma TopKOfScan(cs: seq<Course>, topK: int, i: nat)
    requires i <= |cs|
    requires |Distinct(Titles(cs)[..i])| == (if topK < 0 then 0 else topK)
    ensures TopK(cs, topK) == Ok(Distinct(Titles(cs)[..i]))
  {
    DistinctPrefix(Titles(cs), i);
  }

  /** A scan that ran out with fewer than `topK` distinct titles fails. */
  lemma TopKOfExhausted(cs: seq<Course>, topK: int)
    requires |Distinct(Titles(cs))| < topK
    ensures TopK(cs, topK) == IndexOutOfBounds(|cs|)
  {
    NoDuplicatesCard(Distinct(Titles(cs)));
  }

  /** The returned titles come out in the order they are first seen. */
  lemma TopKFirstOrder(cs: seq<Course>, topK: int, a: nat, b: nat)
    requires TopK(cs, topK).Ok? && a < b < |TopK(cs, topK).value|
    ensures var r := TopK(cs, topK).value;
            && r[a] in Titles(cs) && r[b] in Titles(cs)
            && FirstIndex(Titles(cs), r[a]) < FirstIndex(Titles(cs), r[b])
  {
    DistinctFirstOrder(Titles(cs), a, b);
  }

  /**
   * Every returned title is first seen before every title that is not
   * returned: with TopKFirstOrder, the result is the first `topK` distinct
   * titles of the scan.
   */
  lemma TopKBeatsRest(cs: seq<Course>, topK: int, a: nat, t: string)
    requires TopK(cs, topK).Ok? && a < |TopK(cs, topK).value|
    requires t in Titles(cs) && t !in TopK(cs, topK).value
    ensures TopK(cs, topK).value[a] in Titles(cs)
    ensures FirstIndex(Titles(cs), TopK(cs, topK).value[a]) < FirstIndex(Titles(cs), t)
  {
    var ts := Titles(cs);
    var d := Distinct(ts);
    var r := TopK(cs, topK).value;
    assert r == d[..|r|];
    assert t in Elems(d);
    var b :| 0 <= b < |d| && d[b] == t;
    DistinctFirstOrder(ts, a, b);
  }

  /**
   * After the sort, the course where a returned title is first seen ranks
   * at least as high as the one where any unreturned title is first seen.
   */
  lemma TopKRankBeatsRest(cs: seq<Course>, f: Field, topK: int, a: nat, t: string)
    requires TopK(SortDesc(cs, f), topK).Ok? && a < |TopK(SortDesc(cs, f), topK).value|
    requires t in Titles(cs) && t !in TopK(SortDesc(cs, f), topK).value
    ensures var s := SortDesc(cs, f);
            var r := TopK(s, topK).value;
            && r[a] in Titles(s) && t in Titles(s)
            && SortKey(s[FirstIndex(Titles(s), r[a])], f) >= SortKey(s[FirstIndex(Titles(s), t)], f)
  {
    var s := SortDesc(cs, f);
    var i :| 0 <= i < |cs| && cs[i].title == t;
    assert cs[i] in multiset(s);
    var j :| 0 <= j < |s| && s[j] == cs[i];
    assert Titles(s)[j] == t;
    TopKBeatsRest(s, topK, a, t);
  }

  /**
   * Ranking by `f`: the titles come out in descending order of the field
   * value of the course where each title first occurs.
   */
  lemma TopKOrder(cs: seq<Course>, f: Field, topK: int, a: nat, b: nat)
    requires TopK(SortDesc(cs, f), topK).Ok?
    requires a < b < |TopK(SortDesc(cs, f), topK).value|
    ensures var s := SortDesc(cs, f);
            var r := TopK(s, topK).value;
            && r[a] in Titles(s) && r[b] in Titles(s)
            && SortKey(s[FirstIndex(Titles(s), r[a])], f) >= SortKey(s[FirstIndex(Titles(s), r[b])], f)
  {
    var s := SortDesc(cs, f);
    var d := Distinct(Titles(s));
    DistinctFirstOrder(Titles(s), a, b);
  }

  // ---------------------------------------------------------------------
  // searchCourses
  // ---------------------------------------------------------------------

  /** The three conditions of searchCourses, all of them. */
  predicate Matches(c: Course, subject: string, minAudited: real, maxHours: real)
  {
    && Contains(Lower(c.subject), Lower(subject))
    && c.percentAudited >= minAudited
    && c.totalHours <= maxHours
  }

  /** The titles of the courses that satisfy the filter. */
  function MatchingTitles(cs: seq<Course>, subject: string, minAudited: real, maxHours: real): set<string>
  {
    set c | c in cs && Matches(c, subject, minAudited, maxHours) :: c.title
  }

  lemma MatchingTitlesSnoc(cs: seq<Course>, c: Course, subject: string, minAudited: real, maxHours: real)
    ensures MatchingTitles(cs + [c], subject, minAudited, maxHours) ==
      MatchingTitles(cs, subject, minAudited, maxHours) +
      (if Matches(c, subject, minAudited, maxHours) then {c.title} else {})
  {
    assert forall x :: x in cs + [c] <==> x in cs || x == c;
  }
}
