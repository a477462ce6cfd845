/**
 * The checks on course, class and project fields (middleware/course.go).
 * Each returns Go's pair of a verdict and an error: the verdict is true
 * exactly when there is no error.
 */
module CourseRules {
  import opened Wrappers
  import opened Times
  import opened Errors
  import DateLayout

  /** unicode.IsSpace: the Unicode White_Space characters. */
  predicate IsSpace(c: char) {
    var n := c as int;
    || 0x09 <= n <= 0x0D || n == 0x20 || n == 0x85 || n == 0xA0 || n == 0x1680
    || 0x2000 <= n <= 0x200A || n == 0x2028 || n == 0x2029 || n == 0x202F || n == 0x205F || n == 0x3000
  }

  predicate AllSpace(s: string) {
    forall i :: 0 <= i < |s| ==> IsSpace(s[i])
  }

  /** Drops leading white space: a suffix of s, preceded only by white space, that starts with a non-space. */
  function TrimLeft(s: string): (r: string)
    ensures |r| <= |s| && r == s[|s| - |r|..]
    ensures AllSpace(s[..|s| - |r|])
    ensures r != [] ==> !IsSpace(r[0])
  {
    if |s| > 0 && IsSpace(s[0]) then TrimLeft(s[1..]) else s
  }

  /** Drops trailing white space: a prefix of s, followed only by white space, that ends with a non-space. */
  function TrimRight(s: string): (r: string)
    ensures |r| <= |s| && r == s[..|r|]
    ensures AllSpace(s[|r|..])
    ensures r != [] ==> !IsSpace(r[|r| - 1])
  {
    if |s| > 0 && IsSpace(s[|s| - 1]) then TrimRight(s[..|s| - 1]) else s
  }

  /** strings.TrimSpace. */
  function TrimSpace(s: string): string {
    TrimRight(TrimLeft(s))
  }

  /** Trimming leaves nothing exactly when the text is all white space. */
  lemma TrimSpaceEmpty(s: string)
    ensures TrimSpace(s) == [] <==> AllSpace(s)
  {
    var l := TrimLeft(s);
    if TrimSpace(s) == [] {
      assert AllSpace(l[0..]);
      assert s == s[..|s| - |l|] + l;
    } else if AllSpace(s) {
      assert false;
    }
  }

  /** A name with some character that is not white space. */
  predicate NameAccepted(name: string) {
    exists i :: 0 <= i < |name| && !IsSpace(name[i])
  }

  /** ValidateCourseName: a name must hold some character that is not white space. */
  function ValidateCourseName(name: string): (r: (bool, Option<CourseRuleError>))
    ensures r.0 <==> r.1.None?
    ensures r.0 <==> NameAccepted(name)
    ensures !r.0 ==> r.1 == Some(EmptyCourseName)
  {
    TrimSpaceEmpty(name);
    if TrimSpace(name) == "" then (false, Some(EmptyCourseName)) else (true, None)
  }

  /**
   * ValidateCourseDate: both texts must be in the layout "02-01-2006 15:04",
   * checked start first, and the start must come strictly before the end.
   */
  function ValidateCourseDate(startText: string, endText: string): (r: (bool, Option<CourseRuleError>))
    ensures r.0 <==> r.1.None?
    ensures r.1 == Some(BadStartDate) <==> DateLayout.ParseLayout(startText).None?
    ensures r.1 == Some(BadEndDate) <==> DateLayout.ParseLayout(startText).Some? && DateLayout.ParseLayout(endText).None?
    ensures r.0 <==> && DateLayout.ParseLayout(startText).Some? && DateLayout.ParseLayout(endText).Some?
                     && Before(DateLayout.ParseLayout(startText).value, DateLayout.ParseLayout(endText).value)
    ensures !r.0 ==> r.1 in {Some(BadStartDate), Some(BadEndDate), Some(StartNotBeforeEnd)}
  {
    var startDate := DateLayout.ParseLayout(startText);
    if startDate.None? then (false, Some(BadStartDate))
    else
      var endDate := DateLayout.ParseLayout(endText);
      if endDate.None? then (false, Some(BadEndDate))
      else if !Before(startDate.value, endDate.value) then (false, Some(StartNotBeforeEnd))
      else (true, None)
  }

  /** The services format two times and check them; this is what that check decides. */
  predicate DatesAccepted(a: Instant, b: Instant) {
    InLayoutRange(a) && InLayoutRange(b) && Before(Truncate(a), Truncate(b))
  }

  /** The error the date check reports on two formatted times it refuses: the start's year, the end's year, then the order. */
  function DatesError(a: Instant, b: Instant): CourseRuleError {
    if !InLayoutRange(a) then BadStartDate
    else if !InLayoutRange(b) then BadEndDate
    else StartNotBeforeEnd
  }

  /** Checking two formatted times: layout years, then strict order at minute precision. */
  lemma FormattedDatesCheck(a: Instant, b: Instant)
    ensures ValidateCourseDate(Format(a), Format(b)) ==
      if !InLayoutRange(a) then (false, Some(BadStartDate))
      else if !InLayoutRange(b) then (false, Some(BadEndDate))
      else if Before(Truncate(a), Truncate(b)) then (true, None)
      else (false, Some(StartNotBeforeEnd))
    ensures ValidateCourseDate(Format(a), Format(b)).0 <==> DatesAccepted(a, b)
    ensures !DatesAccepted(a, b) ==> ValidateCourseDate(Format(a), Format(b)).1 == Some(DatesError(a, b))
  {
    DateLayout.FormatParses(a);
    DateLayout.FormatParses(b);
  }

  /** Two times in the same minute never pass, whatever their seconds. */
  lemma SameMinuteRejected(a: Instant, b: Instant)
    requires Truncate(a) == Truncate(b)
    ensures !ValidateCourseDate(Format(a), Format(b)).0
  {
    FormattedDatesCheck(a, b);
    BeforeIsStrictTotalOrder(Truncate(a), Truncate(b), Truncate(b));
  }
}
