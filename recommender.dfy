/**
 * The recommender (recommendCourses and class RecommendCourse): per
 * course-number running profiles, their squared distance to a query, and
 * the choice of the nearest distinct titles.
 */
module Recommender {
  import opened Text
  import opened Records

  // ---------------------------------------------------------------------
  // Scoring
  // ---------------------------------------------------------------------

  lemma ProductPositive(a: real, b: real)
    requires a > 0.0 && b > 0.0
    ensures a * b > 0.0
  {
  }

  /**
   * `Math.pow(x, 2)`: computed on the magnitude of `x`, so that its sign
   * facts follow from ProductPositive; SquareIsProduct ties it to `x * x`.
   */
  function Square(x: real): (r: real)
    ensures r >= 0.0
    ensures r == 0.0 <==> x == 0.0
  {
    var a := if x < 0.0 then -x else x;
    var b := a;
    if a > 0.0 then ProductPositive(a, b); a * b else 0.0
  }

  lemma SquareIsProduct(x: real)
    ensures Square(x) == x * x
  {
    if x < 0.0 {
      assert (-x) * (-x) == x * x;
    }
  }

  /**
   * The distance of calcSimilarityValue: the sum of the squared
   * differences between the query (age, gender times 100, degree flag times
   * 100) and the profile's three means.
   */
  function Distance(age: int, gender: int, bachelor: int,
                    avgAge: real, avgMale: real, avgBachelor: real): (d: real)
    ensures d >= 0.0
    ensures d == 0.0 <==>
      avgAge == age as real && avgMale == (gender * 100) as real &&
      avgBachelor == (bachelor * 100) as real
  {
    Square(age as real - avgAge) + Square((gender * 100) as real - avgMale) +
      Square((bachelor * 100) as real - avgBachelor)
  }

  // ---------------------------------------------------------------------
  // The running profile of one course number
  // ---------------------------------------------------------------------

  /** The three demographics a profile averages. */
  datatype Metric = MedianAge | PercentMale | PercentDegree

  function Value(c: Course, m: Metric): real
  {
    match m
    case MedianAge => c.medianAge
    case PercentMale => c.percentMale
    case PercentDegree => c.percentDegree
  }

  /** The sum of one demographic over some offerings. */
  function Total(os: seq<Course>, m: Metric): real
  {
    if os == [] then 0.0 else Total(os[..|os| - 1], m) + Value(os[|os| - 1], m)
  }

  function Mean(os: seq<Course>, m: Metric): real
    requires |os| > 0
  {
    Total(os, m) / |os| as real
  }

  /**
   * The offering whose title a profile keeps: one with the latest launch
   * date, and of those the first, since only a strictly later date replaces
   * the stored one.
   */
  function LatestIndex(os: seq<Course>): (j: nat)
    requires |os| > 0
    ensures j < |os|
    ensures forall i :: 0 <= i < |os| ==> os[i].launchDate <= os[j].launchDate
    ensures forall i :: 0 <= i < j ==> os[i].launchDate < os[j].launchDate
  {
    if |os| == 1 then 0
    else
      var k := LatestIndex(os[..|os| - 1]);
      if os[|os| - 1].launchDate > os[k].launchDate then |os| - 1 else k
  }

  lemma LatestIndexSnoc(os: seq<Course>, c: Course)
    requires |os| > 0
    ensures (os + [c])[LatestIndex(os + [c])] ==
      if c.launchDate > os[LatestIndex(os)].launchDate then c else os[LatestIndex(os)]
  {
    assert (os + [c])[..|os|] == os;
  }

  lemma TotalSnoc(os: seq<Course>, c: Course, m: Metric)
    ensures Total(os + [c], m) == Total(os, m) + Value(c, m)
  {
    assert (os + [c])[..|os|] == os;
  }

  /** `a` added up `n` times: the product `a * n`, written without a multiplication. */
  function Times(a: real, n: nat): real
  {
    if n == 0 then 0.0 else Times(a, n - 1) + a
  }

  lemma {:induction false} TimesIsProduct(a: real, n: nat)
    ensures Times(a, n) == a * n as real
  {
    if n > 0 {
      TimesIsProduct(a, n - 1);
    }
  }

  /** The incremental mean update of `add`: `(avg * n + x) / (n + 1)`. */
  function RunningMean(avg: real, n: nat, x: real): (r: real)
    ensures r * (n as real + 1.0) == avg * n as real + x
  {
    (avg * n as real + x) / (n as real + 1.0)
  }

  /** The update keeps "average times count is the sum" true. */
  lemma RunningMeanTimes(avg: real, n: nat, x: real)
    ensures Times(RunningMean(avg, n, x), n + 1) == Times(avg, n) + x
  {
    TimesIsProduct(avg, n);
    TimesIsProduct(RunningMean(avg, n, x), n + 1);
  }

  /** An average that, times the count, gives the sum is the mean. */
  lemma MeanOfRunningAverage(avg: real, n: nat, sum: real)
    requires n > 0 && Times(avg, n) == sum
    ensures avg == sum / n as real
  {
    TimesIsProduct(avg, n);
  }

  /**
   * One course number's profile. The ghost sums are the values folded in
   * so far; the averages are kept as Java keeps them, by the incremental
   * formula.
   */
  class RecommendCourse {
    var title: string
    var launchDate: int
    var count: int
    var averageMedianAge: real
    var averageMale: real
    var averageBachelor: real
    var similarityValue: real

    /** The course number the profile is kept under (the map key). */
    ghost const key: string
    ghost var sumMedianAge: real
    ghost var sumMale: real
    ghost var sumBachelor: real

    /** Each average times the count is the sum of the values folded in. */
    ghost predicate Valid()
      reads this`count, this`averageMedianAge, this`averageMale, this`averageBachelor
      reads this`sumMedianAge, this`sumMale, this`sumBachelor
    {
      && count >= 0
      && Times(averageMedianAge, count) == sumMedianAge
      && Times(averageMale, count) == sumMale
      && Times(averageBachelor, count) == sumBachelor
    }

    /** The profile holds exactly the offerings `os`, folded in order. */
    ghost predicate Summarizes(os: seq<Course>)
      reads this`title, this`launchDate, this`count
      reads this`sumMedianAge, this`sumMale, this`sumBachelor
    {
      && |os| > 0
      && count == |os|
      && title == os[LatestIndex(os)].title
      && launchDate == os[LatestIndex(os)].launchDate
      && sumMedianAge == Total(os, MedianAge)
      && sumMale == Total(os, PercentMale)
      && sumBachelor == Total(os, PercentDegree)
    }

    constructor (ghost key: string, title: string, launchDate: int)
      ensures this.key == key
      ensures Valid()
      ensures this.title == title && this.launchDate == launchDate && count == 0
      ensures averageMedianAge == 0.0 && averageMale == 0.0 && averageBachelor == 0.0
      ensures sumMedianAge == 0.0 && sumMale == 0.0 && sumBachelor == 0.0
      ensures similarityValue == 0.0
    {
      this.launchDate := launchDate;
      this.title := title;
      count := 0;
      averageMedianAge, averageMale, averageBachelor := 0.0, 0.0, 0.0;
      similarityValue := 0.0;
      sumMedianAge, sumMale, sumBachelor := 0.0, 0.0, 0.0;
      this.key := key;
    }

    /**
     * Folds one offering in: its title and date replace the stored ones
     * only when its date is strictly later; the means absorb its values.
     */
    method Add(title: string, launchDate: int, medianAge: real, percentMale: real, percentDegree: real)
      requires Valid()
      modifies this`title, this`launchDate, this`count
      modifies this`averageMedianAge, this`averageMale, this`averageBachelor
      modifies this`sumMedianAge, this`sumMale, this`sumBachelor
      ensures Valid()
      ensures launchDate > old(this.launchDate) ==> this.title == title && this.launchDate == launchDate
      ensures launchDate <= old(this.launchDate) ==>
        this.title == old(this.title) && this.launchDate == old(this.launchDate)
      ensures count == old(count) + 1
      ensures averageMedianAge == RunningMean(old(averageMedianAge), old(count), medianAge)
      ensures averageMale == RunningMean(old(averageMale), old(count), percentMale)
      ensures averageBachelor == RunningMean(old(averageBachelor), old(count), percentDegree)
      ensures sumMedianAge == old(sumMedianAge) + medianAge
      ensures sumMale == old(sumMale) + percentMale
      ensures sumBachelor == old(sumBachelor) + percentDegree
    {
      if launchDate > this.launchDate {
        this.launchDate := launchDate;
        this.title := title;
      }
      RunningMeanTimes(averageMedianAge, count, medianAge);
      RunningMeanTimes(averageMale, count, percentMale);
      RunningMeanTimes(averageBachelor, count, percentDegree);
      averageMedianAge := RunningMean(averageMedianAge, count, medianAge);
      averageMale := RunningMean(averageMale, count, percentMale);
      averageBachelor := RunningMean(averageBachelor, count, percentDegree);
      count := count + 1;
      sumMedianAge := sumMedianAge + medianAge;
      sumMale := sumMale + percentMale;
      sumBachelor := sumBachelor + percentDegree;
    }

    method CalcSimilarityValue(age: int, gender: int, bachelor: int)
      modifies this`similarityValue
      ensures similarityValue ==
        Distance(age, gender, bachelor, averageMedianAge, averageMale, averageBachelor)
    {
      similarityValue := Distance(age, gender, bachelor, averageMedianAge, averageMale, averageBachelor);
    }
  }

  // ---------------------------------------------------------------------
  // The profiles of a dataset, as values
  // ---------------------------------------------------------------------

  /** Every course number of the dataset. */
  function Numbers(cs: seq<Course>): set<string>
  {
    set c | c in cs :: c.number
  }

  /** The offerings with course number `k`, in dataset order. */
  function Offerings(cs: seq<Course>, k: string): (os: seq<Course>)
    ensures |os| > 0 <==> k in Numbers(cs)
  {
    if cs == [] then []
    else
      var p := cs[..|cs| - 1];
      var c := cs[|cs| - 1];
      assert cs == p + [c];
      assert Numbers(cs) == Numbers(p) + {c.number} by {
        assert forall x :: x in cs <==> x in p || x == c;
      }
      Offerings(p, k) + (if c.number == k then [c] else [])
  }

  lemma OfferingsSnoc(cs: seq<Course>, c: Course, k: string)
    ensures Offerings(cs + [c], k) == Offerings(cs, k) + (if c.number == k then [c] else [])
  {
    assert (cs + [c])[..|cs|] == cs;
  }

  lemma NumbersSnoc(cs: seq<Course>, c: Course)
    ensures Numbers(cs + [c]) == Numbers(cs) + {c.number}
  {
    assert forall x :: x in cs + [c] <==> x in cs || x == c;
  }

  lemma NumbersPrefix(cs: seq<Course>, i: nat)
    requires i < |cs|
    ensures Numbers(cs[..i + 1]) == Numbers(cs[..i]) + {cs[i].number}
  {
    assert cs[..i + 1] == cs[..i] + [cs[i]];
    NumbersSnoc(cs[..i], cs[i]);
  }

  lemma NumbersOfSeen(cs: seq<Course>, i: nat)
    requires i < |cs| && cs[i].number in Numbers(cs[..i])
    ensures Numbers(cs[..i + 1]) == Numbers(cs[..i])
  {
    NumbersPrefix(cs, i);
  }

  lemma OfferingsPrefix(cs: seq<Course>, i: nat, k: string)
    requires i < |cs|
    ensures Offerings(cs[..i + 1], k) == Offerings(cs[..i], k) + (if cs[i].number == k then [cs[i]] else [])
  {
    assert cs[..i + 1] == cs[..i] + [cs[i]];
    OfferingsSnoc(cs[..i], cs[i], k);
  }

  lemma OfferingsOfSeen(cs: seq<Course>, i: nat)
    requires i < |cs|
    ensures Offerings(cs[..i + 1], cs[i].number) == Offerings(cs[..i], cs[i].number) + [cs[i]]
  {
    OfferingsPrefix(cs, i, cs[i].number);
  }

  /** The first offering of a course number is the only one so far. */
  lemma OfferingsOfNew(cs: seq<Course>, i: nat)
    requires i < |cs| && cs[i].number !in Numbers(cs[..i])
    ensures Offerings(cs[..i + 1], cs[i].number) == [cs[i]]
  {
    OfferingsPrefix(cs, i, cs[i].number);
    assert Offerings(cs[..i], cs[i].number) == [];
  }

  /** A scored profile: its distance and its title. */
  type Scored = (real, string)

  /** The score of the profile that folds in the offerings `os`. */
  function ProfileScore(os: seq<Course>, age: int, gender: int, bachelor: int): Scored
    requires |os| > 0
  {
    (Distance(age, gender, bachelor, Mean(os, MedianAge), Mean(os, PercentMale), Mean(os, PercentDegree)),
     os[LatestIndex(os)].title)
  }

  /** The scores of all profiles of the dataset. */
  function Scores(cs: seq<Course>, age: int, gender: int, bachelor: int): set<Scored>
  {
    set k | k in Numbers(cs) :: ProfileScore(Offerings(cs, k), age, gender, bachelor)
  }

  // ---------------------------------------------------------------------
  // Ordering by (distance, title) and choosing the nearest titles
  // ---------------------------------------------------------------------

  predicate ScoreLess(a: Scored, b: Scored)
  {
    a.0 < b.0 || (a.0 == b.0 && Less(a.1, b.1))
  }

  predicate ScoreLeq(a: Scored, b: Scored)
  {
    ScoreLess(a, b) || a == b
  }

  lemma ScoreLeqTransitive(a: Scored, b: Scored, c: Scored)
    requires ScoreLeq(a, b) && ScoreLeq(b, c)
    ensures ScoreLeq(a, c)
  {
    if a.0 == b.0 && b.0 == c.0 && Less(a.1, b.1) && Less(b.1, c.1) {
      LessTransitive(a.1, b.1, c.1);
    }
  }

  lemma ScoreLeqTotal(a: Scored, b: Scored)
    ensures ScoreLeq(a, b) || ScoreLess(b, a)
  {
    if a.0 == b.0 && a.1 != b.1 {
      LessTotal(a.1, b.1);
    }
  }

  predicate SortedScores(ps: seq<Scored>)
  {
    forall i, j :: 0 <= i < j < |ps| ==> ScoreLeq(ps[i], ps[j])
  }

  function InsertScore(p: Scored, ps: seq<Scored>): (r: seq<Scored>)
    requires SortedScores(ps)
    ensures SortedScores(r)
    ensures multiset(r) == multiset(ps) + multiset{p}
    ensures |r| == |ps| + 1 && (r[0] == p || (|ps| > 0 && r[0] == ps[0]))
  {
    if ps == [] || ScoreLeq(p, ps[0]) then
      assert forall j :: 0 < j < |ps| ==> ScoreLeq(p, ps[j]) by {
        forall j | 0 < j < |ps| ensures ScoreLeq(p, ps[j]) {
          ScoreLeqTransitive(p, ps[0], ps[j]);
        }
      }
      [p] + ps
    else
      ScoreLeqTotal(p, ps[0]);
      var t := InsertScore(p, ps[1..]);
      assert ps == [ps[0]] + ps[1..];
      assert ScoreLeq(ps[0], t[0]);
      assert forall j :: 0 <= j < |t| ==> ScoreLeq(ps[0], t[j]) by {
        forall j | 0 < j < |t| ensures ScoreLeq(ps[0], t[j]) {
          ScoreLeqTransitive(ps[0], t[0], t[j]);
        }
      }
      [ps[0]] + t
  }

  /**
   * The ascending sort by distance and then title, the model of
   * `sorted(comparingDouble(getSimilarityValue).thenComparing(getTitle))`.
   */
  function SortScores(ps: seq<Scored>): (r: seq<Scored>)
    ensures SortedScores(r)
    ensures multiset(r) == multiset(ps)
  {
    if ps == [] then []
    else
      assert ps == [ps[0]] + ps[1..];
      InsertScore(ps[0], SortScores(ps[1..]))
  }

  function ScoreTitles(ps: seq<Scored>): (ts: seq<string>)
    ensures |ts| == |ps|
    ensures forall i :: 0 <= i < |ps| ==> ts[i] == ps[i].1
  {
    seq(|ps|, i requires 0 <= i < |ps| => ps[i].1)
  }

  /** The first `limit` distinct titles of a list of scores, or all of them. */
  function Pick(ps: seq<Scored>, limit: nat): (r: seq<string>)
    ensures |r| <= limit
    ensures NoDuplicates(r)
    ensures forall i :: 0 <= i < |r| ==> r[i] in ScoreTitles(ps)
  {
    var d := Distinct(ScoreTitles(ps));
    var r := d[..if |d| < limit then |d| else limit];
    assert forall i :: 0 <= i < |r| ==> r[i] in Elems(d);
    r
  }

  /** For each chosen title, the distance of its first (so best) score. */
  function BestScores(ps: seq<Scored>, r: seq<string>): (b: seq<real>)
    requires forall i :: 0 <= i < |r| ==> r[i] in ScoreTitles(ps)
    ensures |b| == |r|
    ensures forall i :: 0 <= i < |r| ==> (b[i], r[i]) in multiset(ps)
  {
    var ts := ScoreTitles(ps);
    seq(|r|, i requires 0 <= i < |r| => ps[FirstIndex(ts, r[i])].0)
  }

  lemma PickAt(ps: seq<Scored>, limit: nat, i: nat)
    requires i < |Pick(ps, limit)|
    ensures Pick(ps, limit)[i] == Distinct(ScoreTitles(ps))[i]
  {
  }

  /** Each chosen title comes with the smallest distance any of its scores has. */
  lemma PickBest(ps: seq<Scored>, limit: nat, i: nat, p: Scored)
    requires SortedScores(ps)
    requires i < |Pick(ps, limit)| && p in ps && p.1 == Pick(ps, limit)[i]
    ensures BestScores(ps, Pick(ps, limit))[i] <= p.0
  {
    var ts := ScoreTitles(ps);
    var j :| 0 <= j < |ps| && ps[j] == p;
    var f := FirstIndex(ts, p.1);
    assert f <= j;
    if f < j {
      assert ScoreLeq(ps[f], ps[j]);
    }
  }

  /** The chosen titles come out in ascending (best distance, title) order. */
  lemma PickOrdered(ps: seq<Scored>, limit: nat, i: nat, j: nat)
    requires SortedScores(ps)
    requires i < j < |Pick(ps, limit)|
    ensures var r := Pick(ps, limit);
            var b := BestScores(ps, r);
            ScoreLess((b[i], r[i]), (b[j], r[j]))
  {
    var ts := ScoreTitles(ps);
    var r := Pick(ps, limit);
    PickAt(ps, limit, i);
    PickAt(ps, limit, j);
    DistinctFirstOrder(ts, i, j);
    var fi, fj := FirstIndex(ts, r[i]), FirstIndex(ts, r[j]);
    assert ScoreLeq(ps[fi], ps[fj]);
    assert ps[fi].1 == r[i] && ps[fj].1 == r[j] && r[i] != r[j];
  }

  /** Fewer titles than the limit are chosen only when no other title exists. */
  lemma PickExhausted(ps: seq<Scored>, limit: nat, p: Scored)
    requires |Pick(ps, limit)| < limit && p in ps
    ensures p.1 in Pick(ps, limit)
  {
    var ts := ScoreTitles(ps);
    var j :| 0 <= j < |ps| && ps[j] == p;
    assert ts[j] in Elems(ts);
    assert Pick(ps, limit) == Distinct(ts);
  }

  /** Every score of a title that was not chosen is behind every chosen one. */
  lemma PickBeatsRest(ps: seq<Scored>, limit: nat, i: nat, p: Scored)
    requires SortedScores(ps)
    requires i < |Pick(ps, limit)| && p in ps && p.1 !in Pick(ps, limit)
    ensures var r := Pick(ps, limit);
            ScoreLess((BestScores(ps, r)[i], r[i]), p)
  {
    var ts := ScoreTitles(ps);
    var r := Pick(ps, limit);
    var d := Distinct(ts);
    var j :| 0 <= j < |ps| && ps[j] == p;
    assert ts[j] in Elems(ts);
    assert p.1 in Elems(d);
    var m :| 0 <= m < |d| && d[m] == p.1;
    assert forall k :: 0 <= k < |r| ==> d[k] in r;
    assert i < m;
    PickAt(ps, limit, i);
    DistinctFirstOrder(ts, i, m);
    var fi, fm := FirstIndex(ts, r[i]), FirstIndex(ts, d[m]);
    assert fm <= j;
    ScoreLeqTransitive(ps[fi], ps[fm], ps[j]);
    assert ps[fi].1 == r[i] != p.1;
  }
}
