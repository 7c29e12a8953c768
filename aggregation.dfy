/**
 * Grouped participant totals (getPtcpCountByInst and
 * getPtcpCountByInstAndSubject): the grouping keys, the totals they stand
 * for, and the two orders the entries are emitted in.
 */
module Aggregation {
  import opened Text
  import opened Records

  datatype Grouping = ByInstitution | ByInstitutionAndSubject

  /** The map key a course contributes to. */
  function Key(c: Course, g: Grouping): string
  {
    match g
    case ByInstitution => c.institution
    case ByInstitutionAndSubject => c.institution + "-" + c.subject
  }

  /** Every key some course of `cs` has. */
  function GroupKeys(cs: seq<Course>, g: Grouping): set<string>
  {
    set c | c in cs :: Key(c, g)
  }

  /** The participants of the courses of `cs` whose key is `k`, added up. */
  function GroupSum(cs: seq<Course>, g: Grouping, k: string): int
  {
    if cs == [] then 0
    else
      var c := cs[|cs| - 1];
      GroupSum(cs[..|cs| - 1], g, k) + (if Key(c, g) == k then c.participants else 0)
  }

  /** The entries the result must hold: one per key, with its total. */
  function Totals(cs: seq<Course>, g: Grouping): set<Entry>
  {
    set k | k in GroupKeys(cs, g) :: (k, GroupSum(cs, g, k))
  }

  type Entry = (string, int)

  /**
   * The emission order: by ascending key for institutions; by descending
   * total and then ascending key for institution-subject pairs.
   */
  predicate Precedes(a: Entry, b: Entry, g: Grouping)
  {
    match g
    case ByInstitution => Less(a.0, b.0)
    case ByInstitutionAndSubject => a.1 > b.1 || (a.1 == b.1 && Less(a.0, b.0))
  }

  predicate Ordered(es: seq<Entry>, g: Grouping)
  {
    forall i, j :: 0 <= i < j < |es| ==> Precedes(es[i], es[j], g)
  }

  function KeysOf(es: seq<Entry>): set<string>
  {
    set e | e in es :: e.0
  }

  lemma PrecedesTransitive(a: Entry, b: Entry, c: Entry, g: Grouping)
    requires Precedes(a, b, g) && Precedes(b, c, g)
    ensures Precedes(a, c, g)
  {
    if Less(a.0, b.0) && Less(b.0, c.0) {
      LessTransitive(a.0, b.0, c.0);
    }
  }

  lemma PrecedesTotal(a: Entry, b: Entry, g: Grouping)
    requires a.0 != b.0
    ensures Precedes(a, b, g) || Precedes(b, a, g)
  {
    LessTotal(a.0, b.0);
  }

  lemma PrecedesAsymmetric(a: Entry, b: Entry, g: Grouping)
    requires Precedes(a, b, g)
    ensures !Precedes(b, a, g)
  {
    if Less(a.0, b.0) {
      LessAsymmetric(a.0, b.0);
    }
  }

  lemma PrecedesIrreflexive(a: Entry, g: Grouping)
    ensures !Precedes(a, a, g)
  {
    LessIrreflexive(a.0);
  }

  /** An entry that precedes every entry of an ordered list can go in front of it. */
  lemma OrderedCons(e: Entry, es: seq<Entry>, g: Grouping)
    requires Ordered(es, g)
    requires forall j :: 0 <= j < |es| ==> Precedes(e, es[j], g)
    ensures Ordered([e] + es, g)
    ensures Elems([e] + es) == {e} + Elems(es)
    ensures KeysOf([e] + es) == {e.0} + KeysOf(es)
  {
    var r := [e] + es;
    forall i, j | 0 <= i < j < |r|
      ensures Precedes(r[i], r[j], g)
    {
      assert r[j] == es[j - 1];
      if i > 0 {
        assert r[i] == es[i - 1];
      }
    }
    assert forall x :: x in r <==> x == e || x in es;
  }

  /** The head and the tail of an ordered list. */
  lemma OrderedUncons(es: seq<Entry>, g: Grouping)
    requires Ordered(es, g) && es != []
    ensures Ordered(es[1..], g)
    ensures forall j :: 0 <= j < |es[1..]| ==> Precedes(es[0], es[1..][j], g)
    ensures Elems(es) == {es[0]} + Elems(es[1..])
    ensures KeysOf(es) == {es[0].0} + KeysOf(es[1..])
  {
    assert es == [es[0]] + es[1..];
    assert forall x :: x in es <==> x == es[0] || x in es[1..];
  }

  /** Places an entry with a new key at its position in an ordered list. */
  function InsertEntry(e: Entry, es: seq<Entry>, g: Grouping): (r: seq<Entry>)
    requires Ordered(es, g) && e.0 !in KeysOf(es)
    ensures Ordered(r, g)
    ensures Elems(r) == Elems(es) + {e}
    ensures KeysOf(r) == KeysOf(es) + {e.0}
  {
    if es == [] then [e]
    else
      OrderedUncons(es, g);
      if Precedes(e, es[0], g) then
        assert forall j :: 0 <= j < |es| ==> Precedes(e, es[j], g) by {
          forall j | 0 < j < |es| ensures Precedes(e, es[j], g) {
            PrecedesTransitive(e, es[0], es[j], g);
          }
        }
        OrderedCons(e, es, g);
        [e] + es
      else
        PrecedesTotal(e, es[0], g);
        var t := InsertEntry(e, es[1..], g);
        assert forall j :: 0 <= j < |t| ==> Precedes(es[0], t[j], g) by {
          forall j | 0 <= j < |t| ensures Precedes(es[0], t[j], g) {
            assert t[j] in Elems(t);
          }
        }
        OrderedCons(es[0], t, g);
        [es[0]] + t
  }

  lemma OrderedTail(es: seq<Entry>, g: Grouping)
    requires Ordered(es, g) && es != []
    ensures Elems(es[1..]) == Elems(es) - {es[0]}
  {
    forall j | 0 < j < |es| ensures es[j] != es[0] {
      PrecedesIrreflexive(es[0], g);
    }
    assert es == [es[0]] + es[1..];
  }

  /** An ordered entry list is determined by its set of entries. */
  lemma {:induction false} OrderedUnique(a: seq<Entry>, b: seq<Entry>, g: Grouping)
    requires Ordered(a, g) && Ordered(b, g)
    requires Elems(a) == Elems(b)
    ensures a == b
  {
    if a != [] {
      assert a[0] in Elems(b);
    }
    if b != [] {
      assert b[0] in Elems(a);
    }
    if a != [] && b != [] {
      if a[0] != b[0] {
        assert a[0] in Elems(b);
        var j :| 0 <= j < |b| && b[j] == a[0];
        assert b[0] in Elems(a);
        var i :| 0 <= i < |a| && a[i] == b[0];
        PrecedesAsymmetric(a[0], b[0], g);
      }
      OrderedTail(a, g);
      OrderedTail(b, g);
      OrderedUnique(a[1..], b[1..], g);
      assert a == [a[0]] + a[1..] && b == [b[0]] + b[1..];
    }
  }

  lemma GroupKeysSnoc(cs: seq<Course>, c: Course, g: Grouping)
    ensures GroupKeys(cs + [c], g) == GroupKeys(cs, g) + {Key(c, g)}
  {
    assert forall x :: x in cs + [c] <==> x in cs || x == c;
  }

  lemma GroupSumSnoc(cs: seq<Course>, c: Course, g: Grouping, k: string)
    ensures GroupSum(cs + [c], g, k) == GroupSum(cs, g, k) + (if Key(c, g) == k then c.participants else 0)
  {
    assert (cs + [c])[..|cs|] == cs;
  }

  /** A key no course has totals zero, so the key set loses nothing. */
  lemma {:induction false} GroupSumOutsideKeys(cs: seq<Course>, g: Grouping, k: string)
    requires k !in GroupKeys(cs, g)
    ensures GroupSum(cs, g, k) == 0
  {
    if cs != [] {
      var p := cs[..|cs| - 1];
      assert cs == p + [cs[|cs| - 1]];
      GroupKeysSnoc(p, cs[|cs| - 1], g);
      GroupSumOutsideKeys(p, g, k);
    }
  }

  /** With non-negative participant counts no total is negative. */
  lemma {:induction false} GroupSumNonNegative(cs: seq<Course>, g: Grouping, k: string)
    requires forall i :: 0 <= i < |cs| ==> cs[i].participants >= 0
    ensures GroupSum(cs, g, k) >= 0
  {
    if cs != [] {
      GroupSumNonNegative(cs[..|cs| - 1], g, k);
    }
  }
}
