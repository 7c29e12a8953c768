/**
 * The instructor index (getCourseListOfInstructor): which titles an
 * instructor taught alone and which with others.
 */
module Instructors {
  import opened Text
  import opened Records

  /** The literal the instructors field is split on. */
  const Separator: string := ", "

  /** The distinct names listed on one offering. */
  function Names(c: Course): set<string>
  {
    Elems(Split(c.instructors, Separator))
  }

  /**
   * The distinct names of one offering as a list, the list the original
   * iterates (its order is immaterial: each name is filed once).
   */
  function NameList(c: Course): (ns: seq<string>)
    ensures NoDuplicates(ns)
    ensures Elems(ns) == Names(c)
    ensures |ns| == |Names(c)|
  {
    var ns := Distinct(Split(c.instructors, Separator));
    NoDuplicatesCard(ns);
    ns
  }

  /** An instructor's two title lists: taught alone, taught with others. */
  datatype TitleLists = TitleLists(solo: seq<string>, coTaught: seq<string>)

  /** Every name listed on some offering of `cs`. */
  function AllInstructors(cs: seq<Course>): set<string>
  {
    set c, n | c in cs && n in Names(c) :: n
  }

  /** Titles of the offerings on which `n` is the only listed instructor. */
  function SoloTitles(cs: seq<Course>, n: string): set<string>
  {
    set c | c in cs && Names(c) == {n} :: c.title
  }

  /** Titles of the offerings that list `n` among two or more instructors. */
  function CoTaughtTitles(cs: seq<Course>, n: string): set<string>
  {
    set c | c in cs && n in Names(c) && |Names(c)| != 1 :: c.title
  }

  lemma SingletonNames(c: Course, n: string)
    requires n in Names(c)
    ensures |Names(c)| == 1 <==> Names(c) == {n}
  {
    if |Names(c)| == 1 {
      assert |Names(c) - {n}| == 0;
    }
  }

  /** Every indexed instructor has at least one title in one of the two lists. */
  lemma IndexedInstructorHasTitle(cs: seq<Course>, n: string)
    requires n in AllInstructors(cs)
    ensures SoloTitles(cs, n) + CoTaughtTitles(cs, n) != {}
  {
    var c :| c in cs && n in Names(c);
    SingletonNames(c, n);
    if |Names(c)| == 1 {
      assert c.title in SoloTitles(cs, n);
    } else {
      assert c.title in CoTaughtTitles(cs, n);
    }
  }

  /**
   * A title is in both of an instructor's lists only when two different
   * offerings carry it: one taught alone, one taught with others.
   */
  lemma BothListsNeedTwoOfferings(cs: seq<Course>, n: string, t: string)
    requires t in SoloTitles(cs, n) && t in CoTaughtTitles(cs, n)
    ensures exists i, j ::
              && 0 <= i < |cs| && 0 <= j < |cs| && i != j
              && cs[i].title == t && cs[j].title == t
              && Names(cs[i]) == {n} && |Names(cs[j])| > 1
  {
    var c1 :| c1 in cs && Names(c1) == {n} && c1.title == t;
    var c2 :| c2 in cs && n in Names(c2) && |Names(c2)| != 1 && c2.title == t;
    var i :| 0 <= i < |cs| && cs[i] == c1;
    var j :| 0 <= j < |cs| && cs[j] == c2;
    assert |Names(c2)| > 1 by {
      assert n in Names(c2);
      assert |Names(c2)| >= 1 by {
        assert Names(c2) >= {n};
      }
    }
  }

  /** A name no offering lists has no titles in either list. */
  lemma UnlistedHasNoTitles(cs: seq<Course>, n: string)
    requires n !in AllInstructors(cs)
    ensures SoloTitles(cs, n) == {} && CoTaughtTitles(cs, n) == {}
  {
    forall c | c in cs
      ensures n !in Names(c)
    {
      if n in Names(c) {
        assert false;
      }
    }
  }

  lemma AllInstructorsSnoc(cs: seq<Course>, c: Course)
    ensures AllInstructors(cs + [c]) == AllInstructors(cs) + Names(c)
  {
    assert forall x :: x in cs + [c] <==> x in cs || x == c;
  }

  lemma SoloTitlesSnoc(cs: seq<Course>, c: Course, n: string)
    ensures SoloTitles(cs + [c], n) ==
      SoloTitles(cs, n) + (if Names(c) == {n} then {c.title} else {})
  {
    assert forall x :: x in cs + [c] <==> x in cs || x == c;
  }

  lemma CoTaughtTitlesSnoc(cs: seq<Course>, c: Course, n: string)
    ensures CoTaughtTitles(cs + [c], n) ==
      CoTaughtTitles(cs, n) + (if n in Names(c) && |Names(c)| != 1 then {c.title} else {})
  {
    assert forall x :: x in cs + [c] <==> x in cs || x == c;
  }
}
