/**
 * The analyzer object: it holds the parsed dataset and answers the six
 * queries over it. Each query is a method with the loops of the original,
 * proved against the value-level definitions of the other modules.
 */
module Analyzer {
  import opened Text
  import opened Records
  import opened Aggregation
  import opened Instructors
  import opened Ranking
  import opened Recommender

  lemma PrefixSnoc<T>(s: seq<T>, i: nat)
    requires i < |s|
    ensures s[..i + 1] == s[..i] + [s[i]]
  {
  }

  /** The first pass: every key of the dataset mapped to zero. */
  method ZeroTotals(cs: seq<Course>, g: Grouping) returns (m: map<string, int>)
    ensures m.Keys == GroupKeys(cs, g)
    ensures forall k :: k in m ==> m[k] == 0
  {
    m := map[];
    for i := 0 to |cs|
      invariant m.Keys == GroupKeys(cs[..i], g)
      invariant forall k :: k in m ==> m[k] == 0
    {
      PrefixSnoc(cs, i);
      GroupKeysSnoc(cs[..i], cs[i], g);
      m := m[Key(cs[i], g) := 0];
    }
    assert cs[..|cs|] == cs;
  }

  /** The second pass: every course's participants added to its key. */
  method AddParticipants(cs: seq<Course>, g: Grouping, m0: map<string, int>) returns (m: map<string, int>)
    requires m0.Keys == GroupKeys(cs, g)
    requires forall k :: k in m0 ==> m0[k] == 0
    ensures m.Keys == GroupKeys(cs, g)
    ensures forall k :: k in m ==> m[k] == GroupSum(cs, g, k)
  {
    m := m0;
    for i := 0 to |cs|
      invariant m.Keys == GroupKeys(cs, g)
      invariant forall k :: k in m ==> m[k] == GroupSum(cs[..i], g, k)
    {
      var c := cs[i];
      var k := Key(c, g);
      assert c in cs;
      PrefixSnoc(cs, i);
      forall k' | k' in m
        ensures GroupSum(cs[..i + 1], g, k') ==
          GroupSum(cs[..i], g, k') + (if k == k' then c.participants else 0)
      {
        GroupSumSnoc(cs[..i], c, g, k');
      }
      m := m[k := m[k] + c.participants];
    }
    assert cs[..|cs|] == cs;
  }

  /** The entries of `m` whose keys are in `ks`. */
  function EntriesOf(m: map<string, int>, ks: set<string>): set<Entry>
  {
    set k | k in ks && k in m :: (k, m[k])
  }

  lemma EntriesOfAdd(m: map<string, int>, ks: set<string>, k: string)
    requires k in m
    ensures EntriesOf(m, ks + {k}) == EntriesOf(m, ks) + {(k, m[k])}
  {
  }

  /** The entries of a map, in the order of the grouping. */
  method EmitEntries(m: map<string, int>, g: Grouping) returns (r: seq<Entry>)
    ensures Ordered(r, g)
    ensures KeysOf(r) == m.Keys
    ensures Elems(r) == EntriesOf(m, m.Keys)
  {
    r := [];
    var rest := m.Keys;
    assert EntriesOf(m, {}) == {};
    while rest != {}
      invariant rest <= m.Keys
      invariant Ordered(r, g)
      invariant KeysOf(r) == m.Keys - rest
      invariant Elems(r) == EntriesOf(m, m.Keys - rest)
      decreases |rest|
    {
      var k :| k in rest;
      EntriesOfAdd(m, m.Keys - rest, k);
      r := InsertEntry((k, m[k]), r, g);
      assert m.Keys - (rest - {k}) == (m.Keys - rest) + {k};
      rest := rest - {k};
    }
  }

  /**
   * The lists of `n` once the title `t` has been filed under every name of
   * `filed`: in the first list when `single`, in the second otherwise.
   */
  function Filing(raw: map<string, TitleLists>, n: string, filed: set<string>, t: string, single: bool): TitleLists
  {
    var l := if n in raw then raw[n] else TitleLists([], []);
    if n !in filed then l
    else if single then l.(solo := l.solo + [t])
    else l.(coTaught := l.coTaught + [t])
  }

  /** Files the title `t` under every name of `names`. */
  method FileUnder(raw0: map<string, TitleLists>, names: seq<string>, t: string, single: bool)
    returns (raw: map<string, TitleLists>)
    requires NoDuplicates(names)
    ensures raw.Keys == raw0.Keys + Elems(names)
    ensures forall n :: n in raw ==> raw[n] == Filing(raw0, n, Elems(names), t, single)
  {
    raw := raw0;
    for i := 0 to |names|
      invariant raw.Keys == raw0.Keys + Elems(names[..i])
      invariant forall n :: n in raw ==> raw[n] == Filing(raw0, n, Elems(names[..i]), t, single)
    {
      var n := names[i];
      var lists := if n in raw then raw[n] else TitleLists([], []);
      if single {
        raw := raw[n := lists.(solo := lists.solo + [t])];
      } else {
        raw := raw[n := lists.(coTaught := lists.coTaught + [t])];
      }
      PrefixSnoc(names, i);
      ElemsSnoc(names[..i], n);
    }
    assert names[..|names|] == names;
  }

  /**
   * Files one offering under each of its distinct instructors: in the first
   * list when it names one instructor, in the second otherwise.
   */
  method AddOffering(cs: seq<Course>, c: Course, raw0: map<string, TitleLists>)
    returns (raw: map<string, TitleLists>)
    requires raw0.Keys == AllInstructors(cs)
    requires forall n :: n in raw0 ==>
      && Elems(raw0[n].solo) == SoloTitles(cs, n)
      && Elems(raw0[n].coTaught) == CoTaughtTitles(cs, n)
    ensures raw.Keys == AllInstructors(cs + [c])
    ensures forall n :: n in raw ==>
      && Elems(raw[n].solo) == SoloTitles(cs + [c], n)
      && Elems(raw[n].coTaught) == CoTaughtTitles(cs + [c], n)
  {
    var names := NameList(c);
    raw := FileUnder(raw0, names, c.title, |names| == 1);
    AllInstructorsSnoc(cs, c);
    forall n | n in raw
      ensures Elems(raw[n].solo) == SoloTitles(cs + [c], n)
      ensures Elems(raw[n].coTaught) == CoTaughtTitles(cs + [c], n)
    {
      FilingTitles(cs, c, raw0, n);
    }
  }

  lemma FilingTitles(cs: seq<Course>, c: Course, raw0: map<string, TitleLists>, n: string)
    requires raw0.Keys == AllInstructors(cs)
    requires forall n :: n in raw0 ==>
      && Elems(raw0[n].solo) == SoloTitles(cs, n)
      && Elems(raw0[n].coTaught) == CoTaughtTitles(cs, n)
    ensures var l := Filing(raw0, n, Names(c), c.title, |Names(c)| == 1);
      && Elems(l.solo) == SoloTitles(cs + [c], n)
      && Elems(l.coTaught) == CoTaughtTitles(cs + [c], n)
  {
    var l := if n in raw0 then raw0[n] else TitleLists([], []);
    if n !in raw0 {
      UnlistedHasNoTitles(cs, n);
      assert Elems(l.solo) == {} && Elems(l.coTaught) == {};
    }
    ElemsSnoc(l.solo, c.title);
    ElemsSnoc(l.coTaught, c.title);
    SoloTitlesSnoc(cs, c, n);
    CoTaughtTitlesSnoc(cs, c, n);
    if n in Names(c) {
      SingletonNames(c, n);
    }
  }

  /** Each of an instructor's lists, without duplicates and in ascending order. */
  method SortTitleLists(raw: map<string, TitleLists>) returns (r: map<string, TitleLists>)
    ensures r.Keys == raw.Keys
    ensures forall n :: n in r ==>
      && StrictlySorted(r[n].solo) && Elems(r[n].solo) == Elems(raw[n].solo)
      && StrictlySorted(r[n].coTaught) && Elems(r[n].coTaught) == Elems(raw[n].coTaught)
  {
    r := map[];
    var rest := raw.Keys;
    while rest != {}
      invariant rest <= raw.Keys
      invariant r.Keys == raw.Keys - rest
      invariant forall n :: n in r ==>
        && StrictlySorted(r[n].solo) && Elems(r[n].solo) == Elems(raw[n].solo)
        && StrictlySorted(r[n].coTaught) && Elems(r[n].coTaught) == Elems(raw[n].coTaught)
      decreases |rest|
    {
      var n :| n in rest;
      var solo := SortedFromSet(Elems(raw[n].solo));
      var coTaught := SortedFromSet(Elems(raw[n].coTaught));
      r := r[n := TitleLists(solo, coTaught)];
      rest := rest - {n};
    }
  }

  class OnlineCoursesAnalyzer {
    /** The dataset: reassigned (re-sorted) by GetCourses, read by the rest. */
    var courses: seq<Course>

    constructor (courses: seq<Course>)
      ensures this.courses == courses
    {
      this.courses := courses;
    }

    /**
     * A zero for every key, then every course's participants added to its
     * key, then the entries emitted in the order of the grouping.
     */
    method ParticipantTotals(g: Grouping) returns (r: seq<Entry>)
      ensures Ordered(r, g)
      ensures Elems(r) == Totals(courses, g)
      ensures KeysOf(r) == GroupKeys(courses, g)
    {
      var cs := courses;
      var m := ZeroTotals(cs, g);
      m := AddParticipants(cs, g, m);
      r := EmitEntries(m, g);
      assert EntriesOf(m, m.Keys) == Totals(cs, g);
    }

    /** Participants per institution, in ascending order of institution. */
    method PtcpCountByInst() returns (r: seq<Entry>)
      ensures Ordered(r, ByInstitution)
      ensures Elems(r) == Totals(courses, ByInstitution)
    {
      r := ParticipantTotals(ByInstitution);
    }

    /**
     * Participants per "institution-subject", by descending total and then
     * ascending key.
     */
    method PtcpCountByInstAndSubject() returns (r: seq<Entry>)
      ensures Ordered(r, ByInstitutionAndSubject)
      ensures Elems(r) == Totals(courses, ByInstitutionAndSubject)
    {
      r := ParticipantTotals(ByInstitutionAndSubject);
    }

    /**
     * For every instructor, the sorted distinct titles taught alone and the
     * sorted distinct titles taught with others.
     */
    method CourseListOfInstructor() returns (r: map<string, TitleLists>)
      ensures r.Keys == AllInstructors(courses)
      ensures forall n :: n in r ==>
        && StrictlySorted(r[n].solo) && Elems(r[n].solo) == SoloTitles(courses, n)
        && StrictlySorted(r[n].coTaught) && Elems(r[n].coTaught) == CoTaughtTitles(courses, n)
    {
      var cs := courses;
      var raw: map<string, TitleLists> := map[];
      for i := 0 to |cs|
        invariant raw.Keys == AllInstructors(cs[..i])
        invariant forall n :: n in raw ==>
          && Elems(raw[n].solo) == SoloTitles(cs[..i], n)
          && Elems(raw[n].coTaught) == CoTaughtTitles(cs[..i], n)
      {
        PrefixSnoc(cs, i);
        raw := AddOffering(cs[..i], cs[i], raw);
      }
      assert cs[..|cs|] == cs;
      r := SortTitleLists(raw);
    }

    /**
     * Re-sorts the dataset by the named field (stably, descending; any other
     * name leaves it as it is) and returns its first `topK` distinct titles,
     * or runs past the end of the dataset when there are fewer.
     */
    method GetCourses(topK: int, sortBy: string) returns (r: Outcome<seq<string>>)
      modifies this
      ensures courses == match FieldOf(sortBy)
                         case Some(f) => SortDesc(old(courses), f)
                         case None => old(courses)
      ensures r == TopK(courses, topK)
    {
      var field := FieldOf(sortBy);
      if field.Some? {
        courses := SortDesc(courses, field.value);
      }
      r := FirstDistinctTitles(courses, topK);
    }

    /**
     * The sorted distinct titles of the courses whose subject contains the
     * query (both lower-cased), with at least the given audited share and at
     * most the given hours.
     */
    method SearchCourses(subject: string, minAudited: real, maxHours: real) returns (r: seq<string>)
      ensures StrictlySorted(r)
      ensures Elems(r) == MatchingTitles(courses, subject, minAudited, maxHours)
    {
      var cs := courses;
      var query := Lower(subject);
      var seen: set<string> := {};
      for i := 0 to |cs|
        invariant seen == MatchingTitles(cs[..i], subject, minAudited, maxHours)
      {
        var c := cs[i];
        PrefixSnoc(cs, i);
        MatchingTitlesSnoc(cs[..i], c, subject, minAudited, maxHours);
        if Contains(Lower(c.subject), query) && c.percentAudited >= minAudited && c.totalHours <= maxHours {
          if c.title !in seen {
            seen := seen + {c.title};
          }
        }
      }
      assert cs[..|cs|] == cs;
      r := SortedFromSet(seen);
    }

    /**
     * Folds every offering into the profile of its course number, scores
     * every profile against the query, sorts the scores ascending by
     * (distance, title) and returns the first ten distinct titles. The
     * ghost `best` holds the distance each returned title was chosen with.
     */
    method RecommendCourses(age: int, gender: int, bachelor: int)
      returns (r: seq<string>, ghost best: seq<real>)
      ensures var s := Scores(courses, age, gender, bachelor);
        && |r| <= 10 && |best| == |r| && NoDuplicates(r)
        && (forall i :: 0 <= i < |r| ==> (best[i], r[i]) in s)
        && (forall i, p :: 0 <= i < |r| && p in s && p.1 == r[i] ==> best[i] <= p.0)
        && (forall i, j :: 0 <= i < j < |r| ==> ScoreLess((best[i], r[i]), (best[j], r[j])))
        && (|r| < 10 ==> forall p :: p in s ==> p.1 in r)
        && (forall i, p :: 0 <= i < |r| && p in s && p.1 !in r ==> ScoreLess((best[i], r[i]), p))
    {
      var cs := courses;
      var profiles := BuildProfiles(cs);
      var L0 := ScoreProfiles(cs, profiles, age, gender, bachelor);
      var L := SortScores(L0);
      r := Nearest(L);
      best := BestScores(L, r);
      NearestMeetsScores(L0, L, r, best, Scores(cs, age, gender, bachelor));
    }
  }

  /**
   * The scan of getCourses: the first `topK` distinct titles, or the index
   * one past the end when the dataset runs out first.
   */
  method FirstDistinctTitles(cs: seq<Course>, topK: int) returns (r: Outcome<seq<string>>)
    ensures r == TopK(cs, topK)
  {
    var ts := Titles(cs);
    var result: seq<string> := [];
    var seen: set<string> := {};
    var i, count := 0, 0;
    while count < topK
      invariant 0 <= i <= |ts|
      invariant result == Distinct(ts[..i])
      invariant seen == Elems(result) && count == |result|
      invariant count <= topK || count == 0
      decreases |ts| - i
    {
      if i == |ts| {
        assert ts[..i] == ts;
        TopKOfExhausted(cs, topK);
        return IndexOutOfBounds(i);
      }
      var t := ts[i];
      PrefixSnoc(ts, i);
      DistinctSnoc(ts[..i], t);
      i := i + 1;
      if t in seen {
        continue;
      }
      seen := seen + {t};
      result := result + [t];
      count := count + 1;
    }
    TopKOfScan(cs, topK, i);
    r := Ok(result);
  }

  /**
   * One step of the first pass of recommendCourses: the offering `c` folded
   * into the profile that so far holds the offerings `os` (a new profile,
   * made from `c` itself, when `os` is empty).
   */
  method FoldOffering(profile: RecommendCourse, os: seq<Course>, c: Course)
    requires profile.Valid()
    requires os == [] ==>
      && profile.count == 0 && profile.title == c.title && profile.launchDate == c.launchDate
      && profile.sumMedianAge == 0.0 && profile.sumMale == 0.0 && profile.sumBachelor == 0.0
    requires os != [] ==> profile.Summarizes(os)
    modifies profile`title, profile`launchDate, profile`count
    modifies profile`averageMedianAge, profile`averageMale, profile`averageBachelor
    modifies profile`sumMedianAge, profile`sumMale, profile`sumBachelor
    ensures profile.Valid() && profile.Summarizes(os + [c])
  {
    profile.Add(c.title, c.launchDate, c.medianAge, c.percentMale, c.percentDegree);
    if os == [] {
      assert [c][..0] == [];
      TotalSnoc([], c, MedianAge);
      TotalSnoc([], c, PercentMale);
      TotalSnoc([], c, PercentDegree);
    } else {
      LatestIndexSnoc(os, c);
      TotalSnoc(os, c, MedianAge);
      TotalSnoc(os, c, PercentMale);
      TotalSnoc(os, c, PercentDegree);
    }
  }

  /** An offering of a number outside `m` leaves the summaries of `m` as they are. */
  lemma AllSummarizePrefix(cs: seq<Course>, i: nat, m: map<string, RecommendCourse>)
    requires i < |cs| && cs[i].number !in m && AllSummarize(cs[..i], m)
    ensures AllSummarize(cs[..i + 1], m)
  {
    forall k | k in m
      ensures Offerings(cs[..i + 1], k) == Offerings(cs[..i], k)
    {
      OfferingsPrefix(cs, i, k);
    }
  }

  /** Storing a profile that summarizes the offerings of its key keeps every summary. */
  lemma AllSummarizeStore(cs: seq<Course>, m: map<string, RecommendCourse>, k: string, p: RecommendCourse)
    requires AllSummarize(cs, m)
    requires p.Valid() && p.Summarizes(Offerings(cs, k))
    ensures AllSummarize(cs, m[k := p])
  {
  }

  /** The profile of a course number at its first offering `c`. */
  method NewProfile(c: Course) returns (profile: RecommendCourse)
    ensures fresh(profile) && profile.key == c.number
    ensures profile.Valid() && profile.Summarizes([c])
  {
    profile := new RecommendCourse(c.number, c.title, c.launchDate);
    FoldOffering(profile, [], c);
    assert [] + [c] == [c];
  }

  lemma AllSummarizeRemove(cs: seq<Course>, m: map<string, RecommendCourse>, k: string)
    requires AllSummarize(cs, m)
    ensures AllSummarize(cs, m - {k})
  {
  }

  /** Profiles kept under their own keys are distinct objects. */
  lemma KeyedApart(m: map<string, RecommendCourse>, k: string)
    requires k in m && forall j :: j in m ==> m[j].key == j
    ensures m[k] !in (m - {k}).Values
  {
  }

  lemma RemoveStore<K, V>(m: map<K, V>, k: K)
    requires k in m
    ensures (m - {k})[k := m[k]] == m
  {
  }

  /** A step of BuildProfiles for a course number not seen before: a fresh profile holding `cs[i]`. */
  method FirstOffering(cs: seq<Course>, i: nat, m: map<string, RecommendCourse>) returns (m': map<string, RecommendCourse>)
    requires i < |cs| && cs[i].number !in m
    requires m.Keys == Numbers(cs[..i])
    requires AllSummarize(cs[..i], m)
    ensures m'.Keys == Numbers(cs[..i + 1])
    ensures forall k :: k in m ==> m'[k] == m[k]
    ensures fresh(m'[cs[i].number]) && m'[cs[i].number].key == cs[i].number
    ensures AllSummarize(cs[..i + 1], m')
  {
    var c := cs[i];
    NumbersPrefix(cs, i);
    OfferingsOfNew(cs, i);
    AllSummarizePrefix(cs, i, m);
    var profile := NewProfile(c);
    AllSummarizeStore(cs[..i + 1], m, c.number, profile);
    m' := m[c.number := profile];
  }

  /** A step of BuildProfiles for a course number seen before: `cs[i]` is added to its profile. */
  method LaterOffering(cs: seq<Course>, i: nat, m: map<string, RecommendCourse>)
    requires i < |cs| && cs[i].number in m
    requires m.Keys == Numbers(cs[..i])
    requires forall k :: k in m ==> m[k].key == k
    requires AllSummarize(cs[..i], m)
    modifies m.Values`title, m.Values`launchDate, m.Values`count
    modifies m.Values`averageMedianAge, m.Values`averageMale, m.Values`averageBachelor
    modifies m.Values`sumMedianAge, m.Values`sumMale, m.Values`sumBachelor
    ensures m.Keys == Numbers(cs[..i + 1])
    ensures AllSummarize(cs[..i + 1], m)
  {
    var c := cs[i];
    NumbersOfSeen(cs, i);
    OfferingsOfSeen(cs, i);
    var profile := m[c.number];
    var rest := m - {c.number};
    AllSummarizeRemove(cs[..i], m, c.number);
    KeyedApart(m, c.number);
    FoldOffering(profile, Offerings(cs[..i], c.number), c);
    AllSummarizePrefix(cs, i, rest);
    AllSummarizeStore(cs[..i + 1], rest, c.number, profile);
    RemoveStore(m, c.number);
  }

  /** The profile of every course number, one fresh object per number. */
  method BuildProfiles(cs: seq<Course>) returns (m: map<string, RecommendCourse>)
    ensures m.Keys == Numbers(cs)
    ensures forall k :: k in m ==> fresh(m[k])
    ensures AllSummarize(cs, m)
  {
    m := map[];
    for i := 0 to |cs|
      invariant m.Keys == Numbers(cs[..i])
      invariant forall k :: k in m ==> fresh(m[k])
      invariant forall k :: k in m ==> m[k].key == k
      invariant AllSummarize(cs[..i], m)
    {
      if cs[i].number in m {
        LaterOffering(cs, i, m);
      } else {
        m := FirstOffering(cs, i, m);
      }
    }
    assert cs[..|cs|] == cs;
  }

  /** The score of one profile, which is also stored in it. */
  method ScoreProfile(profile: RecommendCourse, os: seq<Course>, age: int, gender: int, bachelor: int)
    returns (p: Scored)
    requires profile.Valid() && profile.Summarizes(os)
    modifies profile`similarityValue
    ensures p == ProfileScore(os, age, gender, bachelor)
  {
    profile.CalcSimilarityValue(age, gender, bachelor);
    MeanOfRunningAverage(profile.averageMedianAge, profile.count, profile.sumMedianAge);
    MeanOfRunningAverage(profile.averageMale, profile.count, profile.sumMale);
    MeanOfRunningAverage(profile.averageBachelor, profile.count, profile.sumBachelor);
    p := (profile.similarityValue, profile.title);
  }

  /** The scores of the profiles of the course numbers in `ks`. */
  function ScoresOver(cs: seq<Course>, ks: set<string>, age: int, gender: int, bachelor: int): set<Scored>
  {
    set k | k in ks && k in Numbers(cs) :: ProfileScore(Offerings(cs, k), age, gender, bachelor)
  }

  lemma ScoresOverAdd(cs: seq<Course>, ks: set<string>, k: string, age: int, gender: int, bachelor: int)
    requires k in Numbers(cs)
    ensures ScoresOver(cs, ks + {k}, age, gender, bachelor) ==
      ScoresOver(cs, ks, age, gender, bachelor) + {ProfileScore(Offerings(cs, k), age, gender, bachelor)}
  {
  }

  /** Every profile of `m` is consistent and holds the offerings of its course number. */
  ghost predicate AllSummarize(cs: seq<Course>, m: map<string, RecommendCourse>)
    reads m.Values`title, m.Values`launchDate, m.Values`count
    reads m.Values`averageMedianAge, m.Values`averageMale, m.Values`averageBachelor
    reads m.Values`sumMedianAge, m.Values`sumMale, m.Values`sumBachelor
  {
    forall k :: k in m ==> m[k].Valid() && m[k].Summarizes(Offerings(cs, k))
  }

  /** One step of ScoreProfiles: scores the profile of `k` and appends the score. */
  method ScoreNext(cs: seq<Course>, m: map<string, RecommendCourse>, k: string, profile: RecommendCourse, L: seq<Scored>,
                   done: set<string>, age: int, gender: int, bachelor: int)
    returns (L': seq<Scored>)
    requires k in m && m[k] == profile && m.Keys == Numbers(cs)
    requires AllSummarize(cs, m)
    requires Elems(L) == ScoresOver(cs, done, age, gender, bachelor)
    modifies profile`similarityValue
    ensures AllSummarize(cs, m)
    ensures Elems(L') == ScoresOver(cs, done + {k}, age, gender, bachelor)
  {
    var p := ScoreProfile(profile, Offerings(cs, k), age, gender, bachelor);
    ScoresOverAdd(cs, done, k, age, gender, bachelor);
    ElemsSnoc(L, p);
    L' := L + [p];
  }

  /** Scores every profile, in the (arbitrary) order of the map's keys. */
  method ScoreProfiles(cs: seq<Course>, m: map<string, RecommendCourse>, age: int, gender: int, bachelor: int)
    returns (L: seq<Scored>)
    requires m.Keys == Numbers(cs)
    requires AllSummarize(cs, m)
    modifies m.Values`similarityValue
    ensures Elems(L) == Scores(cs, age, gender, bachelor)
  {
    var ks := SortedFromSet(m.Keys);
    L := [];
    assert ScoresOver(cs, {}, age, gender, bachelor) == {};
    for i := 0 to |ks|
      invariant AllSummarize(cs, m)
      invariant Elems(L) == ScoresOver(cs, Elems(ks[..i]), age, gender, bachelor)
    {
      assert m[ks[i]] in m.Values;
      L := ScoreNext(cs, m, ks[i], m[ks[i]], L, Elems(ks[..i]), age, gender, bachelor);
      PrefixSnoc(ks, i);
      ElemsSnoc(ks[..i], ks[i]);
    }
    assert ks[..|ks|] == ks;
    assert ScoresOver(cs, m.Keys, age, gender, bachelor) == Scores(cs, age, gender, bachelor);
  }

  /** The first ten distinct titles of the sorted scores. */
  method Nearest(L: seq<Scored>) returns (r: seq<string>)
    ensures r == Pick(L, 10)
  {
    var ts := ScoreTitles(L);
    var seen: set<string> := {};
    r := [];
    var i, count := 0, 0;
    while count < 10 && i < |L|
      invariant 0 <= i <= |L|
      invariant r == Distinct(ts[..i])
      invariant seen == Elems(r) && count == |r| <= 10
    {
      var t := L[i].1;
      PrefixSnoc(ts, i);
      DistinctSnoc(ts[..i], t);
      if t !in seen {
        count := count + 1;
        r := r + [t];
        seen := seen + {t};
      }
      i := i + 1;
    }
    DistinctPrefix(ts, i);
    assert ts[..|ts|] == ts;
  }

  /**
   * What the nearest titles of the sorted scores of a dataset are, stated
   * against the set of the dataset's scores.
   */
  lemma NearestMeetsScores(L0: seq<Scored>, L: seq<Scored>, r: seq<string>, best: seq<real>, s: set<Scored>)
    requires Elems(L0) == s && multiset(L) == multiset(L0) && SortedScores(L)
    requires r == Pick(L, 10)
    requires forall i :: 0 <= i < |r| ==> r[i] in ScoreTitles(L)
    requires best == BestScores(L, r)
    ensures |r| <= 10 && |best| == |r| && NoDuplicates(r)
    ensures forall i :: 0 <= i < |r| ==> (best[i], r[i]) in s
    ensures forall i, p :: 0 <= i < |r| && p in s && p.1 == r[i] ==> best[i] <= p.0
    ensures forall i, j :: 0 <= i < j < |r| ==> ScoreLess((best[i], r[i]), (best[j], r[j]))
    ensures |r| < 10 ==> forall p :: p in s ==> p.1 in r
    ensures forall i, p :: 0 <= i < |r| && p in s && p.1 !in r ==> ScoreLess((best[i], r[i]), p)
  {
    assert Elems(L) == s by {
      forall p ensures p in L <==> p in L0 {
        assert p in L <==> p in multiset(L);
        assert p in L0 <==> p in multiset(L0);
      }
    }
    forall i | 0 <= i < |r|
      ensures (best[i], r[i]) in s
    {
      assert (best[i], r[i]) in multiset(L);
    }
    forall i, p | 0 <= i < |r| && p in s && p.1 == r[i]
      ensures best[i] <= p.0
    {
      PickBest(L, 10, i, p);
    }
    forall i, j | 0 <= i < j < |r|
      ensures ScoreLess((best[i], r[i]), (best[j], r[j]))
    {
      PickOrdered(L, 10, i, j);
    }
    if |r| < 10 {
      forall p | p in s
        ensures p.1 in r
      {
        PickExhausted(L, 10, p);
      }
    }
    forall i, p | 0 <= i < |r| && p in s && p.1 !in r
      ensures ScoreLess((best[i], r[i]), p)
    {
      PickBeatsRest(L, 10, i, p);
    }
  }
}
