/**
 * String and sequence utilities used by the analyzer: Java's string order,
 * `String.split` on a literal separator, `contains`, ASCII lower-casing,
 * the "collect first-seen values" scan and the set-to-sorted-list step.
 */
module Text {

  /** The set of values occurring in a sequence. */
  function Elems<T>(s: seq<T>): set<T>
  {
    set x | x in s
  }

  lemma ElemsSnoc<T>(s: seq<T>, x: T)
    ensures Elems(s + [x]) == Elems(s) + {x}
  {
    assert forall y :: y in s + [x] <==> y in s || y == x;
  }

  predicate NoDuplicates<T(==)>(s: seq<T>)
  {
    forall i, j :: 0 <= i < j < |s| ==> s[i] != s[j]
  }

  predicate IsPrefix<T(==)>(p: seq<T>, s: seq<T>)
  {
    |p| <= |s| && p == s[..|p|]
  }

  // ---------------------------------------------------------------------
  // Java's String.compareTo: lexicographic on characters, a proper prefix
  // sorting before any of its extensions.
  // ---------------------------------------------------------------------

  predicate Less(a: string, b: string)
  {
    if |a| == 0 then |b| > 0
    else if |b| == 0 then false
    else a[0] < b[0] || (a[0] == b[0] && Less(a[1..], b[1..]))
  }

  /**
   * `Less` is the order of `compareTo`: `a` is a proper prefix of `b`, or at
   * the first position where they differ `a` has the smaller character.
   */
  lemma {:induction false} LessIsLexicographic(a: string, b: string)
    ensures Less(a, b) <==>
      || (|a| < |b| && a == b[..|a|])
      || (exists k :: 0 <= k < |a| && k < |b| && a[..k] == b[..k] && a[k] < b[k])
  {
    if |a| > 0 && |b| > 0 {
      LessIsLexicographic(a[1..], b[1..]);
      if Less(a, b) && a[0] == b[0] {
        if |a| - 1 < |b| - 1 && a[1..] == b[1..][..|a| - 1] {
          assert a == [a[0]] + a[1..] && b[..|a|] == [b[0]] + b[1..][..|a| - 1];
        } else {
          var k :| 0 <= k < |a| - 1 && k < |b| - 1 && a[1..][..k] == b[1..][..k] && a[1..][k] < b[1..][k];
          assert a[..k + 1] == [a[0]] + a[1..][..k] && b[..k + 1] == [b[0]] + b[1..][..k];
        }
      }
      if |a| < |b| && a == b[..|a|] {
        assert a[0] == b[0] && a[1..] == b[1..][..|a| - 1];
      }
      if exists k :: 0 <= k < |a| && k < |b| && a[..k] == b[..k] && a[k] < b[k] {
        var k :| 0 <= k < |a| && k < |b| && a[..k] == b[..k] && a[k] < b[k];
        if k > 0 {
          assert a[0] == a[..k][0] && b[0] == b[..k][0];
          assert a[1..][..k - 1] == a[1..k] == b[1..k] == b[1..][..k - 1];
          assert a[1..][k - 1] < b[1..][k - 1];
        }
      }
    }
  }

  lemma {:induction false} LessIrreflexive(a: string)
    ensures !Less(a, a)
  {
    if |a| > 0 {
      LessIrreflexive(a[1..]);
    }
  }

  lemma {:induction false} LessAsymmetric(a: string, b: string)
    requires Less(a, b)
    ensures !Less(b, a)
  {
    if |a| > 0 && |b| > 0 && a[0] == b[0] {
      LessAsymmetric(a[1..], b[1..]);
    }
  }

  lemma {:induction false} LessTransitive(a: string, b: string, c: string)
    requires Less(a, b) && Less(b, c)
    ensures Less(a, c)
  {
    if |a| > 0 && |b| > 0 && |c| > 0 && a[0] == b[0] && b[0] == c[0] {
      LessTransitive(a[1..], b[1..], c[1..]);
    }
  }

  lemma {:induction false} LessTotal(a: string, b: string)
    requires a != b
    ensures Less(a, b) || Less(b, a)
  {
    if |a| > 0 && |b| > 0 && a[0] == b[0] {
      assert a == [a[0]] + a[1..] && b == [b[0]] + b[1..];
      LessTotal(a[1..], b[1..]);
    }
  }

  /** Ascending under `Less` with no repeated value. */
  predicate StrictlySorted(s: seq<string>)
  {
    forall i, j :: 0 <= i < j < |s| ==> Less(s[i], s[j])
  }

  lemma StrictlySortedNoDuplicates(s: seq<string>)
    requires StrictlySorted(s)
    ensures NoDuplicates(s)
  {
    forall i, j | 0 <= i < j < |s| ensures s[i] != s[j] {
      LessIrreflexive(s[i]);
    }
  }

  lemma StrictlySortedTail(s: seq<string>)
    requires StrictlySorted(s) && s != []
    ensures Elems(s[1..]) == Elems(s) - {s[0]}
  {
    StrictlySortedNoDuplicates(s);
    assert s == [s[0]] + s[1..];
  }

  /** Adds `x` to a strictly sorted list unless it is already there. */
  function InsertUnique(x: string, s: seq<string>): (r: seq<string>)
    requires StrictlySorted(s)
    ensures StrictlySorted(r)
    ensures Elems(r) == Elems(s) + {x}
  {
    if s == [] then [x]
    else if x == s[0] then s
    else if Less(x, s[0]) then
      assert forall j :: 0 < j < |s| ==> Less(x, s[j]) by {
        forall j | 0 < j < |s| ensures Less(x, s[j]) {
          LessTransitive(x, s[0], s[j]);
        }
      }
      assert s == [s[0]] + s[1..];
      [x] + s
    else
      LessTotal(x, s[0]);
      var t := InsertUnique(x, s[1..]);
      assert s == [s[0]] + s[1..];
      assert forall j :: 0 <= j < |t| ==> Less(s[0], t[j]) by {
        forall j | 0 <= j < |t| ensures Less(s[0], t[j]) {
          assert t[j] in Elems(t);
        }
      }
      assert Elems([s[0]] + t) == {s[0]} + Elems(t);
      assert Elems(s) == {s[0]} + Elems(s[1..]);
      [s[0]] + t
  }

  /** A strictly sorted list is determined by its set of values. */
  lemma {:induction false} StrictlySortedUnique(a: seq<string>, b: seq<string>)
    requires StrictlySorted(a) && StrictlySorted(b)
    requires Elems(a) == Elems(b)
    ensures a == b
  {
    if a != [] {
      assert a[0] in Elems(b);
    }
    if b != [] {
      assert b[0] in Elems(a);
    }
    if a != [] && b != [] {
      if a[0] != b[0] {
        assert a[0] in Elems(b);
        var j :| 0 <= j < |b| && b[j] == a[0];
        assert b[0] in Elems(a);
        var i :| 0 <= i < |a| && a[i] == b[0];
        assert Less(b[0], a[0]) && Less(a[0], b[0]);
        LessAsymmetric(a[0], b[0]);
      }
      StrictlySortedTail(a);
      StrictlySortedTail(b);
      StrictlySortedUnique(a[1..], b[1..]);
      assert a == [a[0]] + a[1..] && b == [b[0]] + b[1..];
    }
  }

  /**
   * The ascending, duplicate-free list of a set of strings: what
   * `set.stream().sorted().toList()` and `new ArrayList<>(new HashSet<>(l))`
   * followed by `sort(String::compareTo)` produce. The set's iteration order
   * is left open: each step may take any remaining value.
   */
  method SortedFromSet(s: set<string>) returns (r: seq<string>)
    ensures StrictlySorted(r) && Elems(r) == s
  {
    r := [];
    var rest := s;
    while rest != {}
      invariant rest <= s
      invariant StrictlySorted(r)
      invariant Elems(r) == s - rest
      decreases |rest|
    {
      var x :| x in rest;
      r := InsertUnique(x, r);
      rest := rest - {x};
    }
  }

  // ---------------------------------------------------------------------
  // Collecting first-seen values in order: the loops of getCourses and
  // recommendCourses that skip a title already in their HashSet.
  // ---------------------------------------------------------------------

  /** The values of `s` in order of first occurrence, each once. */
  function Distinct<T(==)>(s: seq<T>): (r: seq<T>)
    ensures NoDuplicates(r)
    ensures Elems(r) == Elems(s)
    ensures |r| <= |s|
  {
    if s == [] then []
    else
      var d := Distinct(s[..|s| - 1]);
      var x := s[|s| - 1];
      assert s == s[..|s| - 1] + [x];
      assert Elems(s) == Elems(s[..|s| - 1]) + {x};
      if x in d then d
      else
        assert Elems(d + [x]) == Elems(d) + {x};
        d + [x]
  }

  /** The position of the first occurrence of `x`. */
  function FirstIndex<T(==)>(s: seq<T>, x: T): (i: nat)
    requires x in s
    ensures i < |s| && s[i] == x
    ensures forall j :: 0 <= j < i ==> s[j] != x
  {
    if s[0] == x then 0 else 1 + FirstIndex(s[1..], x)
  }

  lemma FirstIndexInPrefix<T>(s: seq<T>, k: nat, x: T)
    requires k <= |s| && x in s[..k]
    ensures FirstIndex(s, x) == FirstIndex(s[..k], x)
  {
    var i1, i2 := FirstIndex(s[..k], x), FirstIndex(s, x);
    assert s[i1] == x;
    assert i2 <= i1;
    assert s[..k][i2] == x;
  }

  /** Scanning a longer sequence only extends the collected list. */
  lemma {:induction false} DistinctPrefix<T>(s: seq<T>, i: nat)
    requires i <= |s|
    ensures IsPrefix(Distinct(s[..i]), Distinct(s))
  {
    if i < |s| {
      var p := s[..|s| - 1];
      assert p[..i] == s[..i];
      DistinctPrefix(p, i);
    } else {
      assert s[..i] == s;
    }
  }

  /** One more step of the scan. */
  lemma DistinctSnoc<T>(s: seq<T>, x: T)
    ensures Distinct(s + [x]) == if x in Distinct(s) then Distinct(s) else Distinct(s) + [x]
  {
    assert (s + [x])[..|s|] == s;
  }

  /** The collected values come out in the order of their first occurrences. */
  lemma {:induction false} DistinctFirstOrder<T>(s: seq<T>, a: nat, b: nat)
    requires a < b < |Distinct(s)|
    ensures Distinct(s)[a] in s && Distinct(s)[b] in s
    ensures FirstIndex(s, Distinct(s)[a]) < FirstIndex(s, Distinct(s)[b])
  {
    var r := Distinct(s);
    assert r[a] in Elems(r) && r[b] in Elems(r);
    var n := |s|;
    var p := s[..n - 1];
    var d := Distinct(p);
    assert s == p + [s[n - 1]];
    if b < |d| {
      assert r[a] == d[a] && r[b] == d[b];
      DistinctFirstOrder(p, a, b);
      FirstIndexInPrefix(s, n - 1, d[a]);
      FirstIndexInPrefix(s, n - 1, d[b]);
    } else {
      assert r != d;
      assert s[n - 1] !in Elems(d);
      assert r[a] == d[a] && r[b] == s[n - 1] && s[n - 1] !in p;
      assert d[a] in Elems(d);
      FirstIndexInPrefix(s, n - 1, d[a]);
    }
  }

  lemma {:induction false} NoDuplicatesCard<T>(s: seq<T>)
    requires NoDuplicates(s)
    ensures |Elems(s)| == |s|
  {
    if s != [] {
      var t := s[..|s| - 1];
      assert s == t + [s[|s| - 1]];
      assert Elems(s) == Elems(t) + {s[|s| - 1]};
      assert s[|s| - 1] !in Elems(t);
      NoDuplicatesCard(t);
    }
  }

  // ---------------------------------------------------------------------
  // String.contains and ASCII String.toLowerCase.
  // ---------------------------------------------------------------------

  predicate StartsWith(s: string, p: string)
  {
    |p| <= |s| && s[..|p|] == p
  }

  predicate Contains(s: string, t: string)
  {
    StartsWith(s, t) || (|s| > 0 && Contains(s[1..], t))
  }

  predicate OccursAt(s: string, t: string, i: int)
  {
    0 <= i && i + |t| <= |s| && s[i..i + |t|] == t
  }

  lemma {:induction false} ContainsOccurrence(s: string, t: string)
    requires Contains(s, t)
    ensures exists i :: OccursAt(s, t, i)
  {
    if StartsWith(s, t) {
      assert OccursAt(s, t, 0);
    } else {
      ContainsOccurrence(s[1..], t);
      var i :| OccursAt(s[1..], t, i);
      assert s[i + 1..i + 1 + |t|] == s[1..][i..i + |t|];
      assert OccursAt(s, t, i + 1);
    }
  }

  lemma {:induction false} OccurrenceContains(s: string, t: string, i: int)
    requires OccursAt(s, t, i)
    ensures Contains(s, t)
  {
    if i > 0 {
      assert s[1..][i - 1..i - 1 + |t|] == s[i..i + |t|];
      OccurrenceContains(s[1..], t, i - 1);
    }
  }

  /** `Contains` holds exactly when `t` occurs somewhere in `s`. */
  lemma ContainsIff(s: string, t: string)
    ensures Contains(s, t) <==> exists i :: OccursAt(s, t, i)
  {
    if Contains(s, t) {
      ContainsOccurrence(s, t);
    }
    if exists i :: OccursAt(s, t, i) {
      var i :| OccursAt(s, t, i);
      OccurrenceContains(s, t, i);
    }
  }

  predicate IsUpperAscii(c: char)
  {
    'A' <= c <= 'Z'
  }

  function LowerChar(c: char): char
  {
    if IsUpperAscii(c) then (c as int - 'A' as int + 'a' as int) as char else c
  }

  /** Lower-cases the ASCII letters A to Z and leaves every other character. */
  function Lower(s: string): (r: string)
    ensures |r| == |s|
    ensures forall i :: 0 <= i < |r| ==> !IsUpperAscii(r[i])
    ensures forall i :: 0 <= i < |r| && !IsUpperAscii(s[i]) ==> r[i] == s[i]
    ensures forall i :: 0 <= i < |r| && IsUpperAscii(s[i]) ==> r[i] == (s[i] as int - 'A' as int + 'a' as int) as char
  {
    seq(|s|, i requires 0 <= i < |s| => LowerChar(s[i]))
  }

  // ---------------------------------------------------------------------
  // Java's String.split on a literal separator that is not a regular
  // expression metacharacter sequence (the analyzer splits on ", ").
  // ---------------------------------------------------------------------

  /** Every piece between left-to-right, non-overlapping occurrences of `sep`. */
  function Pieces(s: string, sep: string): (r: seq<string>)
    requires |sep| > 0
    ensures |r| >= 1
  {
    if |s| < |sep| then [s]
    else if s[..|sep|] == sep then [""] + Pieces(s[|sep|..], sep)
    else
      var rest := Pieces(s[1..], sep);
      [[s[0]] + rest[0]] + rest[1..]
  }

  /** Puts the pieces back together with `sep` between neighbours. */
  function Join(ps: seq<string>, sep: string): string
    requires |ps| >= 1
  {
    if |ps| == 1 then ps[0] else ps[0] + sep + Join(ps[1..], sep)
  }

  /** Joining the pieces gives back the string that was split. */
  lemma {:induction false} JoinPieces(s: string, sep: string)
    requires |sep| > 0
    ensures Join(Pieces(s, sep), sep) == s
  {
    if |s| < |sep| {
    } else if s[..|sep|] == sep {
      JoinPieces(s[|sep|..], sep);
      var rest := Pieces(s[|sep|..], sep);
      assert Pieces(s, sep)[1..] == rest;
      assert s == s[..|sep|] + s[|sep|..];
    } else {
      JoinPieces(s[1..], sep);
      var rest := Pieces(s[1..], sep);
      var ps := Pieces(s, sep);
      assert ps == [[s[0]] + rest[0]] + rest[1..];
      if |rest| == 1 {
        assert Join(ps, sep) == [s[0]] + rest[0];
      } else {
        assert ps[1..] == rest[1..];
        assert Join(ps, sep) == ([s[0]] + rest[0]) + sep + Join(rest[1..], sep);
        assert Join(rest, sep) == rest[0] + sep + Join(rest[1..], sep);
      }
      assert s == [s[0]] + s[1..];
    }
  }

  /** A string shorter than `t` cannot contain it. */
  lemma {:induction false} ShortNotContains(s: string, t: string)
    requires |s| < |t|
    ensures !Contains(s, t)
  {
    if |s| > 0 {
      ShortNotContains(s[1..], t);
    }
  }

  /** A string without the separator is a single piece. */
  lemma {:induction false} PiecesWithoutSeparator(s: string, sep: string)
    requires |sep| > 0 && !Contains(s, sep)
    ensures Pieces(s, sep) == [s]
  {
    if |s| >= |sep| {
      assert s[..|sep|] != sep;
      PiecesWithoutSeparator(s[1..], sep);
      assert [s[0]] + s[1..] == s;
    }
  }

  /** The first piece is a prefix of the string. */
  lemma {:induction false} PiecesHead(s: string, sep: string)
    requires |sep| > 0
    ensures IsPrefix(Pieces(s, sep)[0], s)
  {
    if |s| >= |sep| && s[..|sep|] != sep {
      PiecesHead(s[1..], sep);
      var rest := Pieces(s[1..], sep);
      assert [s[0]] + rest[0] == s[..1 + |rest[0]|];
    }
  }

  /** No piece contains the separator: every occurrence was cut out. */
  lemma {:induction false} PiecesAvoidSeparator(s: string, sep: string)
    requires |sep| > 0
    ensures forall i :: 0 <= i < |Pieces(s, sep)| ==> !Contains(Pieces(s, sep)[i], sep)
  {
    var ps := Pieces(s, sep);
    if |s| < |sep| {
      ShortNotContains(s, sep);
    } else if s[..|sep|] == sep {
      var rest := Pieces(s[|sep|..], sep);
      PiecesAvoidSeparator(s[|sep|..], sep);
      ShortNotContains("", sep);
      assert ps == [""] + rest;
    } else {
      var rest := Pieces(s[1..], sep);
      PiecesAvoidSeparator(s[1..], sep);
      PiecesHead(s[1..], sep);
      var x := [s[0]] + rest[0];
      assert x == s[..|x|];
      assert !StartsWith(x, sep) by {
        assert |sep| <= |x| ==> x[..|sep|] == s[..|sep|];
      }
      assert x[1..] == rest[0];
      assert ps == [x] + rest[1..];
    }
  }

  /** Removes the empty strings at the end of a list. */
  function DropTrailingEmpty(ps: seq<string>): (r: seq<string>)
    ensures IsPrefix(r, ps)
    ensures forall i :: |r| <= i < |ps| ==> ps[i] == ""
    ensures |r| > 0 ==> r[|r| - 1] != ""
  {
    if |ps| > 0 && ps[|ps| - 1] == "" then DropTrailingEmpty(ps[..|ps| - 1]) else ps
  }

  /**
   * `s.split(sep)` with Java's default limit: when `sep` does not occur the
   * result is `[s]` (even for the empty string); otherwise the pieces with
   * the trailing empty ones removed.
   */
  function Split(s: string, sep: string): (r: seq<string>)
    requires |sep| > 0
    ensures forall i :: 0 <= i < |r| ==> !Contains(r[i], sep)
  {
    var ps := Pieces(s, sep);
    PiecesAvoidSeparator(s, sep);
    if |ps| == 1 then ps else DropTrailingEmpty(ps)
  }

  /** When the separator never occurs, Java's split returns the whole string. */
  lemma SplitWithoutSeparator(s: string, sep: string)
    requires |sep| > 0 && !Contains(s, sep)
    ensures Split(s, sep) == [s]
  {
    PiecesWithoutSeparator(s, sep);
  }

  /** Split keeps a prefix of the pieces and drops only empty ones. */
  lemma SplitKeepsPieces(s: string, sep: string)
    requires |sep| > 0
    ensures IsPrefix(Split(s, sep), Pieces(s, sep))
    ensures forall i :: |Split(s, sep)| <= i < |Pieces(s, sep)| ==> Pieces(s, sep)[i] == ""
    ensures |Pieces(s, sep)| > 1 && |Split(s, sep)| > 0 ==> Split(s, sep)[|Split(s, sep)| - 1] != ""
  {
  }
}
