# Online courses analyzer, modelled in Dafny

The model covers an in-memory analyzer of online-course offerings. The dataset
is a list of parsed `Course` records. Over that list the analyzer answers six
queries:

- participant totals per institution;
- participant totals per institution-subject pair;
- each instructor's solo and co-taught titles;
- the top-K distinct titles by hours or by participants;
- a filtered title search;
- a nearest-profile recommendation.

The model also covers the record constructor's quote stripping and the
`RecommendCourse` running profile that the recommender keeps for each course
number.

Modules, each in its own file:

- `Text` (`text.dfy`) holds the string and sequence vocabulary:
  - `String.compareTo` as the strict order `Less`;
  - `split(", ")`, `contains` and ASCII `toLowerCase`;
  - first-occurrence deduplication, and the sorted list of a set.
- `Records` (`records.dfy`) holds the `Course` datatype and the constructor's quote stripping.
- `Aggregation` (`aggregation.dfy`) holds the grouping keys, the group sums and the two output orders.
- `Instructors` (`instructors.dfy`) holds the deduplicated names of an offering and an instructor's two title sets.
- `Ranking` (`ranking.dfy`) holds the stable descending sort, the top-K scan result and the search filter.
- `Recommender` (`recommender.dfy`) holds:
  - the distance and the running means;
  - class `RecommendCourse`, with `Add` and `CalcSimilarityValue` updating its fields;
  - the value-level profile of a course number;
  - the (distance, title) order and the choice of the nearest distinct titles.
- `Analyzer` (`analyzer.dfy`) holds class `OnlineCoursesAnalyzer`:
  - its `courses` field, which `GetCourses` reassigns;
  - one method per query, with the loops of the original;
  - each method proved against the value-level definitions above.

Models of the Java types:

- Dates are day numbers (`int`). The `after` test is `>`.
- The floating-point metrics are `real`.
- Participant counts are unbounded `int`.
- The returned `LinkedHashMap`s are sequences of `(key, total)` entries.
- The instructor index is a `map` from name to a pair of title lists.
- `getCourses` returns either `Ok(titles)` or `IndexOutOfBounds(i)` for the `courses.get(i)` that runs past the end.

Three details of the code that the model keeps:

- Quote stripping also applies to the subject, not only to the title and the instructors.
- `getCourses` sorts only when the field name is exactly `"hours"` or `"participants"`. Any other name scans the dataset in its current order.
- `getCourses` reassigns the stored list, rather than sorting a copy.

## Model

All source cells refer to `Assignment1/src/OnlineCoursesAnalyzer.java`.

| member | source | states |
|---|---|---|
| Records.StripQuotes | Assignment1/src/OnlineCoursesAnalyzer.java:260-268 | The result is the input with at most one `"` removed at each end. It is the contiguous substring that starts after the leading quote, or at 0, and it is either all of the rest or the rest minus its last character. It is one shorter than the rest exactly when the rest ends in a quote. |
| Records.StripQuotesOfQuoted | Assignment1/src/OnlineCoursesAnalyzer.java:260-261 | A string wrapped in one pair of quotes comes back unwrapped. |
| Records.StripQuotesOfUnquoted | Assignment1/src/OnlineCoursesAnalyzer.java:260-261 | A string with no quote at either end is unchanged. |
| Records.NewCourse | Assignment1/src/OnlineCoursesAnalyzer.java:248-286 | Title, instructors and subject are stored quote-stripped. Every other field is stored exactly as given. |
| Text.Less | Assignment1/src/OnlineCoursesAnalyzer.java:147 | The order of `compareTo`. Its definition compares the first characters and then the rests, and LessIsLexicographic states what it means. |
| Text.LessIsLexicographic | Assignment1/src/OnlineCoursesAnalyzer.java:147 | `Less(a, b)` holds exactly when `a` is a proper prefix of `b`, or `a` has the smaller character at the first position where the two differ. |
| Text.LessIrreflexive | Assignment1/src/OnlineCoursesAnalyzer.java:62 | The string order used for keys and titles is irreflexive. |
| Text.LessAsymmetric | Assignment1/src/OnlineCoursesAnalyzer.java:62 | The string order is asymmetric. |
| Text.LessTransitive | Assignment1/src/OnlineCoursesAnalyzer.java:104 | The string order is transitive. |
| Text.LessTotal | Assignment1/src/OnlineCoursesAnalyzer.java:147 | Any two distinct strings are ordered one way or the other. |
| Text.StrictlySortedUnique | Assignment1/src/OnlineCoursesAnalyzer.java:147 | Two strictly ascending lists with the same elements are equal, so a sorted title list is determined by its set. |
| Text.SortedFromSet | Assignment1/src/OnlineCoursesAnalyzer.java:147 | Sorting a set of strings gives a strictly ascending list with exactly that set's elements. |
| Text.Distinct | Assignment1/src/OnlineCoursesAnalyzer.java:124-129 | The first-occurrence deduplication has no duplicates, keeps exactly the input's elements and is no longer than the input. |
| Text.DistinctPrefix | Assignment1/src/OnlineCoursesAnalyzer.java:125-130 | Deduplicating a prefix gives a prefix of the deduplicated whole, so stopping the scan early yields a prefix. |
| Text.DistinctFirstOrder | Assignment1/src/OnlineCoursesAnalyzer.java:125-130 | Deduplicated elements keep the order of their first occurrences. |
| Text.Contains | Assignment1/src/OnlineCoursesAnalyzer.java:141 | `contains`: `t` is a prefix of `s` or of some suffix of `s`. ContainsIff states what this means. |
| Text.ContainsIff | Assignment1/src/OnlineCoursesAnalyzer.java:141 | `Contains(s, t)` holds exactly when `t` occurs at some index of `s`, in both directions. |
| Text.Lower | Assignment1/src/OnlineCoursesAnalyzer.java:136-141 | Lower-casing keeps the length. Each upper-case ASCII letter becomes its lower-case counterpart, and every other character is unchanged. |
| Text.Split | Assignment1/src/OnlineCoursesAnalyzer.java:82 | No element of the result contains the separator. |
| Text.Pieces | Assignment1/src/OnlineCoursesAnalyzer.java:82 | The pieces between the leftmost non-overlapping occurrences of the separator, scanned left to right. There is always at least one piece. |
| Text.DropTrailingEmpty | Assignment1/src/OnlineCoursesAnalyzer.java:82 | The result is a prefix of the list, every dropped element is `""`, and the last kept element is not `""`. |
| Text.PiecesAvoidSeparator | Assignment1/src/OnlineCoursesAnalyzer.java:82 | No piece between separator occurrences contains the separator. |
| Text.PiecesWithoutSeparator | Assignment1/src/OnlineCoursesAnalyzer.java:82 | A string without the separator is a single piece. |
| Text.JoinPieces | Assignment1/src/OnlineCoursesAnalyzer.java:82 | The separator-delimited pieces of a string join back to that string. |
| Text.SplitWithoutSeparator | Assignment1/src/OnlineCoursesAnalyzer.java:82 | When the separator does not occur in the string, `split` returns the whole string as its only element. |
| Text.SplitKeepsPieces | Assignment1/src/OnlineCoursesAnalyzer.java:82 | `split` keeps a prefix of the pieces and drops only trailing empty ones. When there was a cut, it drops all of them: the last element kept is not empty. |
| Aggregation.Key | Assignment1/src/OnlineCoursesAnalyzer.java:59-71 | The map key: the institution, or the institution, `-` and the subject. |
| Aggregation.Precedes | Assignment1/src/OnlineCoursesAnalyzer.java:62-73 | The emission order. For institutions it is strict ascending key order (`comparingByKey`, line 62). For institution-subject pairs it is descending total, then ascending key (line 73). |
| Aggregation.PrecedesTransitive | Assignment1/src/OnlineCoursesAnalyzer.java:62-73 | Both emission orders are transitive. |
| Aggregation.PrecedesTotal | Assignment1/src/OnlineCoursesAnalyzer.java:62-73 | Both emission orders are total on entries with distinct keys. |
| Aggregation.PrecedesAsymmetric | Assignment1/src/OnlineCoursesAnalyzer.java:62-73 | Both emission orders are asymmetric. |
| Aggregation.InsertEntry | Assignment1/src/OnlineCoursesAnalyzer.java:61-63 | Inserting an entry with a new key into an ordered list keeps the list ordered. It adds exactly that entry and that key. |
| Aggregation.OrderedUnique | Assignment1/src/OnlineCoursesAnalyzer.java:72-74 | Two ordered entry lists with the same entries are equal, so the emitted order is fully determined. |
| Aggregation.GroupSumOutsideKeys | Assignment1/src/OnlineCoursesAnalyzer.java:59-60 | A key that no course has totals zero. |
| Aggregation.GroupSumNonNegative | Assignment1/src/OnlineCoursesAnalyzer.java:60 | With non-negative participant counts, no total is negative. |
| Instructors.NameList | Assignment1/src/OnlineCoursesAnalyzer.java:82-83 | An offering's deduplicated instructor list has no duplicates. Its elements are exactly the split names, and its length is their number. |
| Instructors.SingletonNames | Assignment1/src/OnlineCoursesAnalyzer.java:91 | For a listed instructor, "the list has size 1" is the same as "the list is just that instructor". |
| Instructors.IndexedInstructorHasTitle | Assignment1/src/OnlineCoursesAnalyzer.java:84-96 | Every indexed instructor has at least one title in one of the two lists. |
| Instructors.BothListsNeedTwoOfferings | Assignment1/src/OnlineCoursesAnalyzer.java:91-96 | A title appears in both of an instructor's lists only when two different offerings carry it, one taught alone and one taught with others. |
| Instructors.UnlistedHasNoTitles | Assignment1/src/OnlineCoursesAnalyzer.java:85-96 | A name that no offering lists has no titles. |
| Ranking.FieldOf | Assignment1/src/OnlineCoursesAnalyzer.java:117-121 | The sort field is hours exactly when the name is `"hours"`, and participants exactly when it is `"participants"`. |
| Ranking.SortKey | Assignment1/src/OnlineCoursesAnalyzer.java:118-121 | The value compared: total hours, or participants as a real. |
| Ranking.InsertDesc | Assignment1/src/OnlineCoursesAnalyzer.java:118-121 | Inserting into a descending list keeps it descending. It adds exactly the new element to the multiset. |
| Ranking.SortDesc | Assignment1/src/OnlineCoursesAnalyzer.java:118-121 | The sort is descending by the field and is a permutation of its input. |
| Ranking.SortDescStable | Assignment1/src/OnlineCoursesAnalyzer.java:118-121 | The sort is stable: for every key value, the courses with that key keep their relative order. |
| Ranking.TopK | Assignment1/src/OnlineCoursesAnalyzer.java:123-130 | The scan fails exactly when `topK` exceeds the number of distinct titles, and it fails at index `\|courses\|`. Otherwise it returns exactly `max(topK, 0)` pairwise-distinct titles of the dataset. |
| Ranking.TopKOfScan | Assignment1/src/OnlineCoursesAnalyzer.java:125-130 | A scan that stops after collecting `topK` distinct titles from a prefix has exactly TopK's result. |
| Ranking.TopKOfExhausted | Assignment1/src/OnlineCoursesAnalyzer.java:125-126 | A scan that runs out with too few distinct titles has TopK's error. |
| Ranking.TopKFirstOrder | Assignment1/src/OnlineCoursesAnalyzer.java:123-130 | The returned titles are in the order in which the scan first sees them. |
| Ranking.TopKBeatsRest | Assignment1/src/OnlineCoursesAnalyzer.java:123-130 | Every returned title is first seen before every title of the dataset that is not returned. With TopKFirstOrder, the result is the first `topK` distinct titles of the scan. |
| Ranking.TopKRankBeatsRest | Assignment1/src/OnlineCoursesAnalyzer.java:116-130 | After the sort, the course where a returned title is first seen ranks at least as high as the course where any unreturned title is first seen. |
| Ranking.TopKOrder | Assignment1/src/OnlineCoursesAnalyzer.java:116-130 | After sorting, the returned titles are in descending order of the field value at each title's first occurrence. |
| Ranking.Matches | Assignment1/src/OnlineCoursesAnalyzer.java:141 | The three conditions of the search, all required: the lower-cased subject contains the lower-cased query, the audited percentage is at least the minimum, and the total hours are at most the maximum. |
| Recommender.Square | Assignment1/src/OnlineCoursesAnalyzer.java:208-210 | A square is non-negative, and it is zero exactly when its base is zero. |
| Recommender.SquareIsProduct | Assignment1/src/OnlineCoursesAnalyzer.java:208-210 | `Square(x)` equals `x * x`. |
| Recommender.Distance | Assignment1/src/OnlineCoursesAnalyzer.java:207-211 | The distance is non-negative. It is zero exactly when all three means equal the query (age, gender·100, degree·100). |
| Recommender.LatestIndex | Assignment1/src/OnlineCoursesAnalyzer.java:198-201 | The kept offering has the latest launch date, and every earlier offering has a strictly earlier date, so equal dates keep the first. |
| Recommender.TimesIsProduct | Assignment1/src/OnlineCoursesAnalyzer.java:202-204 | Adding `a` up `n` times gives `a * n`. |
| Recommender.RunningMean | Assignment1/src/OnlineCoursesAnalyzer.java:202-204 | The new average times the new count is the old average times the old count, plus the new value. |
| Recommender.RunningMeanTimes | Assignment1/src/OnlineCoursesAnalyzer.java:202-204 | The incremental mean update turns "average times count equals sum" into the same relation with one more value. |
| Recommender.MeanOfRunningAverage | Assignment1/src/OnlineCoursesAnalyzer.java:202-205 | An average whose product with a positive count is the sum is the arithmetic mean. |
| Recommender.RecommendCourse.constructor | Assignment1/src/OnlineCoursesAnalyzer.java:188-196 | A new profile has the given title and date, a count of 0, zero averages and a zero distance. |
| Recommender.RecommendCourse.Add | Assignment1/src/OnlineCoursesAnalyzer.java:197-206 | Title and date are replaced only when the new date is strictly later. The count grows by exactly 1. Each average is updated by the running-mean formula. Average times count stays equal to the sum that was folded in. |
| Recommender.RecommendCourse.CalcSimilarityValue | Assignment1/src/OnlineCoursesAnalyzer.java:207-211 | Only the distance field changes. It becomes the squared distance of the three averages to the query. |
| Recommender.Offerings | Assignment1/src/OnlineCoursesAnalyzer.java:154-158 | A course number has offerings exactly when it occurs in the dataset. |
| Recommender.ScoreLess | Assignment1/src/OnlineCoursesAnalyzer.java:167-168 | The sort order of the profiles: smaller distance first, and on equal distance the title in ascending `compareTo` order. |
| Recommender.InsertScore | Assignment1/src/OnlineCoursesAnalyzer.java:167-168 | Inserting into a list sorted by (distance, title) keeps it sorted and adds exactly the new score. |
| Recommender.SortScores | Assignment1/src/OnlineCoursesAnalyzer.java:167-168 | The scores are sorted ascending by (distance, title), as a permutation of the input. |
| Recommender.Pick | Assignment1/src/OnlineCoursesAnalyzer.java:169-177 | At most `limit` titles are chosen, pairwise distinct, each the title of some score. |
| Recommender.BestScores | Assignment1/src/OnlineCoursesAnalyzer.java:169-177 | Each chosen title is paired with a distance that one of its own scores has. |
| Recommender.PickBest | Assignment1/src/OnlineCoursesAnalyzer.java:167-177 | Each chosen title comes with the smallest distance among that title's scores. |
| Recommender.PickOrdered | Assignment1/src/OnlineCoursesAnalyzer.java:167-177 | The chosen titles are in strictly ascending (best distance, title) order. |
| Recommender.PickExhausted | Assignment1/src/OnlineCoursesAnalyzer.java:171 | Fewer titles than the limit are chosen only when every title was chosen. |
| Recommender.PickBeatsRest | Assignment1/src/OnlineCoursesAnalyzer.java:167-177 | Every score of an unchosen title comes after every chosen one. |
| Analyzer.ZeroTotals | Assignment1/src/OnlineCoursesAnalyzer.java:59 | The first pass maps exactly the dataset's keys, each to 0. |
| Analyzer.AddParticipants | Assignment1/src/OnlineCoursesAnalyzer.java:60 | The second pass maps each key to the sum of its courses' participants. |
| Analyzer.EmitEntries | Assignment1/src/OnlineCoursesAnalyzer.java:61-63 | Every map entry is emitted once, in the grouping's order. |
| Analyzer.FileUnder | Assignment1/src/OnlineCoursesAnalyzer.java:84-96 | The title is appended to the solo or the co-taught list of each given name, and every other list is unchanged. |
| Analyzer.AddOffering | Assignment1/src/OnlineCoursesAnalyzer.java:81-97 | Filing one offering keeps the index equal to the instructors so far. Each instructor's lists hold exactly their solo and co-taught titles. |
| Analyzer.FilingTitles | Assignment1/src/OnlineCoursesAnalyzer.java:91-96 | Filing a title under an offering's names extends each name's solo and co-taught title sets as the routing rule says. |
| Analyzer.SortTitleLists | Assignment1/src/OnlineCoursesAnalyzer.java:100-111 | Every list is replaced by its distinct elements, in strictly ascending order. |
| Analyzer.OnlineCoursesAnalyzer.constructor | Assignment1/src/OnlineCoursesAnalyzer.java:19 | The analyzer holds exactly the given records. |
| Analyzer.OnlineCoursesAnalyzer.ParticipantTotals | Assignment1/src/OnlineCoursesAnalyzer.java:57-75 | The entries are exactly (key, total of participants) for the keys that occur. They are in the grouping's order, and their keys are exactly the keys that occur. |
| Analyzer.OnlineCoursesAnalyzer.PtcpCountByInst | Assignment1/src/OnlineCoursesAnalyzer.java:57-65 | The entries are exactly (institution, participant total) for the institutions that occur, in strictly ascending order of institution. |
| Analyzer.OnlineCoursesAnalyzer.PtcpCountByInstAndSubject | Assignment1/src/OnlineCoursesAnalyzer.java:68-76 | The entries are exactly ("institution-subject", participant total), by descending total and then ascending key. |
| Analyzer.OnlineCoursesAnalyzer.CourseListOfInstructor | Assignment1/src/OnlineCoursesAnalyzer.java:79-113 | The keys are exactly the listed instructors. Each instructor's first list is strictly ascending and holds exactly the titles they taught alone. The second list is strictly ascending and holds exactly the titles they taught with others. |
| Analyzer.OnlineCoursesAnalyzer.GetCourses | Assignment1/src/OnlineCoursesAnalyzer.java:116-132 | With a recognised field, `courses` becomes its stable descending sort, and otherwise it is unchanged. The result is TopK of the new `courses`. |
| Analyzer.FirstDistinctTitles | Assignment1/src/OnlineCoursesAnalyzer.java:123-131 | The `i`/`count` scan returns exactly TopK: the first `topK` distinct titles, or the out-of-bounds error. |
| Analyzer.OnlineCoursesAnalyzer.SearchCourses | Assignment1/src/OnlineCoursesAnalyzer.java:135-149 | The result is strictly ascending and holds exactly the titles of the courses that meet all three conditions. |
| Analyzer.FoldOffering | Assignment1/src/OnlineCoursesAnalyzer.java:158 | Folding an offering into a profile that summarises `os` makes it summarise `os + [c]`. |
| Analyzer.NewProfile | Assignment1/src/OnlineCoursesAnalyzer.java:155-158 | A number's first offering, created and then added, gives a profile that summarises exactly that offering. |
| Analyzer.FirstOffering | Assignment1/src/OnlineCoursesAnalyzer.java:155-158 | The first offering of a course number adds a fresh profile for it and leaves every other profile as it was. |
| Analyzer.LaterOffering | Assignment1/src/OnlineCoursesAnalyzer.java:158 | A later offering of a known number is folded into that number's profile, and every profile still summarises its number's offerings. |
| Analyzer.BuildProfiles | Assignment1/src/OnlineCoursesAnalyzer.java:153-159 | There is one fresh profile per course number, and each summarises exactly that number's offerings, in dataset order. |
| Analyzer.ScoreProfile | Assignment1/src/OnlineCoursesAnalyzer.java:163-164 | Scoring a profile yields its distance and its latest title, the value-level score of its offerings. |
| Analyzer.ScoreNext | Assignment1/src/OnlineCoursesAnalyzer.java:162-164 | Scoring one more profile adds its score and keeps every summary. |
| Analyzer.ScoreProfiles | Assignment1/src/OnlineCoursesAnalyzer.java:160-166 | The collected scores are exactly the scores of all course numbers. |
| Analyzer.Nearest | Assignment1/src/OnlineCoursesAnalyzer.java:169-177 | The capped scan returns the first ten distinct titles of the sorted scores, or all of them. |
| Analyzer.NearestMeetsScores | Assignment1/src/OnlineCoursesAnalyzer.java:167-177 | The six output properties of recommendCourses follow from the sorted scores. |
| Analyzer.OnlineCoursesAnalyzer.RecommendCourses | Assignment1/src/OnlineCoursesAnalyzer.java:152-179 | At most ten titles, with no duplicates, each given with the distance it was chosen by. That distance is the best score of the title. The titles are in strictly ascending (distance, title) order. Fewer than ten means every title was returned. Every unreturned title scores worse than every returned one. |

## Left out

- The `OnlineCoursesAnalyzer(String)` constructor reads a file. It is I/O, so the model's constructor takes the parsed records.
- Also left out: the CSV regular-expression split, `new Date(String)`, and `Integer.parseInt`/`Double.parseDouble` when a row is read. These are library parsing.
- The exceptions when a row is malformed are left out for the same reason.
- The `System.out.println` inside `recommendCourses` is output only.
- The generic `forEach` helper is modelled as the loops it runs.
- Doubles are reals. Rounding in the running means, in `Math.pow` and in the comparison of distances is not modelled.
- Participant sums use unbounded integers, so Java `int` overflow is not modelled. The same holds for the profile count.
- The model's `Lower` changes only ASCII `A`-`Z`. Java's Unicode and locale case mapping is not modelled.
- `String.compareTo` compares UTF-16 code units. `Less` compares Dafny characters, which orders strings differently only when supplementary characters are involved.
- Dates are day numbers. Date parsing and time-of-day are not modelled.
- Analyzer.EmitEntries: picks the keys in an unspecified order, like HashMap iteration. Only the resulting ordered list is stated.
- Analyzer.SortTitleLists: visits the instructors in an unspecified order. The resulting map does not depend on it.
- Analyzer.ScoreProfiles: scores the profiles in ascending course-number order, not HashMap order. The scores are sorted right after, so the result does not depend on the visiting order.
- Instructors.NameList: deduplicates in first-occurrence order, not in HashSet order. Each name is filed once either way, and the final lists are sorted.
- Recommender.RecommendCourse.constructor: takes a ghost `key` that the original does not have. The class also carries ghost running sums. These exist only to state the invariants.
- Analyzer.OnlineCoursesAnalyzer.RecommendCourses: returns a ghost `best` list. It only names the distance each title was chosen by.
- Analyzer.OnlineCoursesAnalyzer.GetCourses: declares `modifies this`, although only `courses` changes.
- The getters (`getTotalHours`, `getParticipants`, `getSimilarityValue`, `getTitle`) are field reads. The participant count is compared after conversion to a real, as `comparingDouble` converts it to a double.
