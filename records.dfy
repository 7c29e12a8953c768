/**
 * The course-offering record: one row of the dataset, already split into
 * its 23 fields and parsed. Launch dates are day numbers; the floating-point
 * metrics are reals.
 */
module Records {

  datatype Course = Course(
    institution: string,
    number: string,
    launchDate: int,
    title: string,
    instructors: string,
    subject: string,
    year: int,
    honorCode: int,
    participants: int,
    audited: int,
    certified: int,
    percentAudited: real,
    percentCertified: real,
    percentCertified50: real,
    percentVideo: real,
    percentForum: real,
    gradeHigherZero: real,
    totalHours: real,
    medianHoursCertification: real,
    medianAge: real,
    percentMale: real,
    percentFemale: real,
    percentDegree: real)

  const Quote: char := '"'

  /** 1 when `s` starts with a double quote, else 0. */
  function Lead(s: string): nat
  {
    if |s| > 0 && s[0] == Quote then 1 else 0
  }

  /**
   * Removes one leading double quote, if there is one, and then one trailing
   * double quote from what is left, if there is one.
   */
  function StripQuotes(s: string): (r: string)
    ensures |s| - Lead(s) - 1 <= |r| <= |s| - Lead(s)
    ensures Lead(s) + |r| <= |s| && r == s[Lead(s)..Lead(s) + |r|]
    ensures |r| == |s| - Lead(s) - 1 <==> |s| > Lead(s) && s[|s| - 1] == Quote
  {
    var t := if |s| > 0 && s[0] == Quote then s[1..] else s;
    if |t| > 0 && t[|t| - 1] == Quote then t[..|t| - 1] else t
  }

  /** A string wrapped in one pair of quotes comes back unwrapped. */
  lemma StripQuotesOfQuoted(x: string)
    ensures StripQuotes([Quote] + x + [Quote]) == x
  {
    var s := [Quote] + x + [Quote];
    assert s[1..] == x + [Quote];
    assert (x + [Quote])[..|x|] == x;
  }

  /** A string with no quote at either end is left as it is. */
  lemma StripQuotesOfUnquoted(x: string)
    requires |x| > 0 ==> x[0] != Quote && x[|x| - 1] != Quote
    ensures StripQuotes(x) == x
  {
  }

  /**
   * The record constructor: every field is stored as given except the
   * title, the instructors and the subject, which lose their quotes.
   */
  function NewCourse(
    institution: string, number: string, launchDate: int,
    title: string, instructors: string, subject: string,
    year: int, honorCode: int, participants: int,
    audited: int, certified: int, percentAudited: real,
    percentCertified: real, percentCertified50: real,
    percentVideo: real, percentForum: real, gradeHigherZero: real,
    totalHours: real, medianHoursCertification: real,
    medianAge: real, percentMale: real, percentFemale: real,
    percentDegree: real): (c: Course)
    ensures c.title == StripQuotes(title)
    ensures c.instructors == StripQuotes(instructors)
    ensures c.subject == StripQuotes(subject)
    ensures c.(title := title, instructors := instructors, subject := subject) ==
      Course(institution, number, launchDate, title, instructors, subject,
        year, honorCode, participants, audited, certified, percentAudited,
        percentCertified, percentCertified50, percentVideo, percentForum,
        gradeHigherZero, totalHours, medianHoursCertification, medianAge,
        percentMale, percentFemale, percentDegree)
  {
    Course(institution, number, launchDate, StripQuotes(title),
      StripQuotes(instructors), StripQuotes(subject),
      year, honorCode, participants, audited, certified, percentAudited,
      percentCertified, percentCertified50, percentVideo, percentForum,
      gradeHigherZero, totalHours, medianHoursCertification, medianAge,
      percentMale, percentFemale, percentDegree)
  }
}
