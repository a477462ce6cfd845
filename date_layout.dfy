/**
 * Reading text in the layout "02-01-2006 15:04" (middleware/date.go and
 * middleware/course.go), following the steps Go's time.Parse takes for that
 * layout: two-digit day, '-', two-digit month, '-', four-digit year, a space
 * (which matches a run of spaces), an hour of one or two digits, ':', and a
 * two-digit minute. CustomTime decodes the same layout inside JSON quotes.
 */
module DateLayout {
  import opened Wrappers
  import opened Times

  const LayoutError := "date time format input invalid. expected format: 02-01-2006 15:04"

  predicate IsDigit(c: char) {
    '0' <= c <= '9'
  }

  function DigitValue(c: char): (v: int)
    requires IsDigit(c)
    ensures 0 <= v <= 9
  {
    c as int - '0' as int
  }

  /** The fields read so far, as separate numbers. */
  datatype Stamp = Stamp(day: int, month: int, year: int, hour: int, minute: int)

  /**
   * Go's getnum on the text from position p: a leading digit is required; a
   * second digit is taken when present; when fixed, the second is required.
   * Returns the number and the position after it.
   */
  function GetNum(s: string, p: nat, fixed: bool): (r: Option<(int, nat)>)
    requires p <= |s|
    ensures r.Some? ==> p < r.value.1 <= |s| && 0 <= r.value.0 <= 99
    ensures r.Some? && fixed ==> r.value.1 == p + 2
  {
    if p == |s| || !IsDigit(s[p]) then None
    else if p + 1 == |s| || !IsDigit(s[p + 1]) then
      (if fixed then None else Some((DigitValue(s[p]), p + 1)))
    else Some((DigitValue(s[p]) * 10 + DigitValue(s[p + 1]), p + 2))
  }

  /** The four-digit year: four characters that must all be digits. */
  function LongYear(s: string, p: nat): (r: Option<(int, nat)>)
    requires p <= |s|
    ensures r.Some? ==> r.value.1 == p + 4 <= |s| && 0 <= r.value.0 <= 9999
  {
    if p + 4 > |s| || !IsDigit(s[p]) || !IsDigit(s[p + 1]) || !IsDigit(s[p + 2]) || !IsDigit(s[p + 3]) then None
    else Some((((DigitValue(s[p]) * 10 + DigitValue(s[p + 1])) * 10 + DigitValue(s[p + 2])) * 10 + DigitValue(s[p + 3]), p + 4))
  }

  /** A literal layout character other than a space must appear as is. */
  function Literal(s: string, p: nat, c: char): (r: Option<nat>)
    requires p <= |s|
    ensures r.Some? ==> r.value == p + 1 <= |s|
  {
    if p < |s| && s[p] == c then Some(p + 1) else None
  }

  /** Position after the spaces starting at p. */
  function SpacesEnd(s: string, p: nat): (e: nat)
    requires p <= |s|
    ensures p <= e <= |s|
    ensures forall k :: p <= k < e ==> s[k] == ' '
    ensures e < |s| ==> s[e] != ' '
    decreases |s| - p
  {
    if p < |s| && s[p] == ' ' then SpacesEnd(s, p + 1) else p
  }

  /** A space in the layout: the text must end or continue with a space, and all leading spaces are skipped. */
  function SpaceRun(s: string, p: nat): (r: Option<nat>)
    requires p <= |s|
    ensures r.Some? ==> p <= r.value <= |s|
  {
    if p < |s| && s[p] != ' ' then None else Some(SpacesEnd(s, p))
  }

  /** Ranges Go checks while reading: month 1..12, hour below 24, minute below 60. */
  predicate InRanges(st: Stamp) {
    && 0 <= st.day <= 99
    && 1 <= st.month <= 12
    && 0 <= st.year <= 9999
    && 0 <= st.hour < 24
    && 0 <= st.minute < 60
  }

  /** All fields of the layout read from position p; the position after the minute. */
  function FieldsAt(s: string, p: nat): (r: Option<(Stamp, nat)>)
    requires p <= |s|
    ensures r.Some? ==> p < r.value.1 <= |s| && InRanges(r.value.0)
  {
    var day :- GetNum(s, p, true);
    var p2 :- Literal(s, day.1, '-');
    var month :- GetNum(s, p2, true);
    if month.0 < 1 || 12 < month.0 then None
    else
      var p4 :- Literal(s, month.1, '-');
      var year :- LongYear(s, p4);
      var p6 :- SpaceRun(s, year.1);
      var hour :- GetNum(s, p6, false);
      if 24 <= hour.0 then None
      else
        var p8 :- Literal(s, hour.1, ':');
        var minute :- GetNum(s, p8, true);
        if 60 <= minute.0 then None
        else Some((Stamp(day.0, month.0, year.0, hour.0, minute.0), minute.1))
  }

  /** The stamp names a day that exists in its month. */
  predicate DayExists(st: Stamp) {
    1 <= st.day <= DaysIn(st.month, st.year)
  }

  function StampTime(st: Stamp): (t: Instant)
    requires InRanges(st) && DayExists(st)
    ensures t.nanos == 0 && InLayoutRange(t)
  {
    Time(st.year, st.month, st.day, st.hour, st.minute, 0)
  }

  /** time.Parse("02-01-2006 15:04", s): the fields must cover the whole text. */
  function ParseLayout(s: string): (r: Option<Instant>)
    ensures r.Some? ==> r.value.nanos == 0 && InLayoutRange(r.value)
  {
    var f :- FieldsAt(s, 0);
    if f.1 == |s| && DayExists(f.0) then Some(StampTime(f.0)) else None
  }

  /** time.Parse with the layout written between double quotes, as UnmarshalJSON uses it. */
  function ParseQuoted(s: string): (r: Option<Instant>)
    ensures r.Some? ==> r.value.nanos == 0 && InLayoutRange(r.value)
    ensures r.Some? ==> 2 <= |s| && s[0] == '"' && s[|s| - 1] == '"'
  {
    if |s| == 0 || s[0] != '"' then None
    else
      var f :- FieldsAt(s, 1);
      if f.1 < |s| && s[f.1] == '"' && f.1 + 1 == |s| && DayExists(f.0) then Some(StampTime(f.0)) else None
  }

  /** A JSON date field (middleware.CustomTime). */
  class CustomTime {
    var time: Instant

    constructor()
      ensures time == Zero
    {
      time := Zero;
    }

    /** Decodes the raw JSON text b; on failure the held time is left as it was. */
    method UnmarshalJSON(b: string) returns (err: Option<string>)
      modifies this
      ensures ParseQuoted(b).Some? ==> err.None? && time == ParseQuoted(b).value
      ensures ParseQuoted(b).None? ==> err == Some(LayoutError) && time == old(time)
    {
      var parsed := ParseQuoted(b);
      if parsed.None? {
        return Some(LayoutError);
      }
      time := parsed.value;
      return None;
    }
  }

  // ---------------------------------------------------------------------------
  // Reading depends only on the characters it consumes.

  /** Positions lo..hi of s hold the same characters as positions lo+d..hi+d of t. */
  predicate Agree(s: string, t: string, d: int, lo: nat, hi: nat) {
    lo <= hi <= |s| && 0 <= lo + d && hi + d <= |t| && s[lo..hi] == t[lo + d..hi + d]
  }

  lemma AgreeAt(s: string, t: string, d: int, lo: nat, hi: nat, k: int)
    requires Agree(s, t, d, lo, hi) && lo <= k < hi
    ensures s[k] == t[k + d]
  {
    assert s[lo..hi][k - lo] == t[lo + d..hi + d][k - lo];
  }

  lemma GetNumAgrees(s: string, t: string, d: int, lo: nat, hi: nat, p: nat, fixed: bool)
    requires Agree(s, t, d, lo, hi) && lo <= p <= hi
    requires GetNum(s, p, fixed).Some?
    requires GetNum(s, p, fixed).value.1 == p + 2 || GetNum(s, p, fixed).value.1 < hi
    requires GetNum(s, p, fixed).value.1 <= hi
    ensures GetNum(t, p + d, fixed) == Some((GetNum(s, p, fixed).value.0, GetNum(s, p, fixed).value.1 + d))
  {
    AgreeAt(s, t, d, lo, hi, p);
    AgreeAt(s, t, d, lo, hi, p + 1);
  }

  lemma LongYearAgrees(s: string, t: string, d: int, lo: nat, hi: nat, p: nat)
    requires Agree(s, t, d, lo, hi) && lo <= p <= hi
    requires LongYear(s, p).Some? && LongYear(s, p).value.1 <= hi
    ensures LongYear(t, p + d) == Some((LongYear(s, p).value.0, p + 4 + d))
  {
    AgreeAt(s, t, d, lo, hi, p);
    AgreeAt(s, t, d, lo, hi, p + 1);
    AgreeAt(s, t, d, lo, hi, p + 2);
    AgreeAt(s, t, d, lo, hi, p + 3);
  }

  lemma LiteralAgrees(s: string, t: string, d: int, lo: nat, hi: nat, p: nat, c: char)
    requires Agree(s, t, d, lo, hi) && lo <= p <= hi
    requires Literal(s, p, c).Some? && p + 1 <= hi
    ensures Literal(t, p + d, c) == Some(p + 1 + d)
  {
    AgreeAt(s, t, d, lo, hi, p);
  }

  lemma {:induction false} SpacesEndAgrees(s: string, t: string, d: int, lo: nat, hi: nat, p: nat)
    requires Agree(s, t, d, lo, hi) && lo <= p <= hi
    requires SpacesEnd(s, p) < hi
    ensures SpacesEnd(t, p + d) == SpacesEnd(s, p) + d
    decreases |s| - p
  {
    AgreeAt(s, t, d, lo, hi, p);
    if p < |s| && s[p] == ' ' {
      SpacesEndAgrees(s, t, d, lo, hi, p + 1);
    }
  }

  lemma SpaceRunAgrees(s: string, t: string, d: int, lo: nat, hi: nat, p: nat)
    requires Agree(s, t, d, lo, hi) && lo <= p <= hi
    requires SpaceRun(s, p).Some? && SpaceRun(s, p).value < hi
    ensures SpaceRun(t, p + d) == Some(SpaceRun(s, p).value + d)
  {
    AgreeAt(s, t, d, lo, hi, p);
    SpacesEndAgrees(s, t, d, lo, hi, p);
  }

  /**
   * Reading the fields looks at no character beyond the ones it consumes:
   * any text holding the same characters, at any offset, reads the same way.
   */
  lemma FieldsAgree(s: string, t: string, d: int, p: nat)
    requires p <= |s| && FieldsAt(s, p).Some?
    requires Agree(s, t, d, p, FieldsAt(s, p).value.1)
    ensures FieldsAt(t, p + d) == Some((FieldsAt(s, p).value.0, FieldsAt(s, p).value.1 + d))
  {
    var e := FieldsAt(s, p).value.1;
    var day := GetNum(s, p, true).value;
    GetNumAgrees(s, t, d, p, e, p, true);
    var p2 := Literal(s, day.1, '-').value;
    LiteralAgrees(s, t, d, p, e, day.1, '-');
    var month := GetNum(s, p2, true).value;
    GetNumAgrees(s, t, d, p, e, p2, true);
    var p4 := Literal(s, month.1, '-').value;
    LiteralAgrees(s, t, d, p, e, month.1, '-');
    var year := LongYear(s, p4).value;
    LongYearAgrees(s, t, d, p, e, p4);
    var p6 := SpaceRun(s, year.1).value;
    var hour := GetNum(s, p6, false).value;
    SpaceRunAgrees(s, t, d, p, e, year.1);
    var p8 := Literal(s, hour.1, ':').value;
    GetNumAgrees(s, t, d, p, e, p6, false);
    LiteralAgrees(s, t, d, p, e, hour.1, ':');
    GetNumAgrees(s, t, d, p, e, p8, true);
  }

  /** The quoted layout accepts exactly the plain layout wrapped in double quotes, with the same result. */
  lemma QuotedIsWrappedLayout(s: string)
    ensures ParseQuoted(s) == if 2 <= |s| && s[0] == '"' && s[|s| - 1] == '"' then ParseLayout(s[1..|s| - 1]) else None
  {
    if 2 <= |s| && s[0] == '"' && s[|s| - 1] == '"' {
      var inner := s[1..|s| - 1];
      if FieldsAt(s, 1).Some? && FieldsAt(s, 1).value.1 + 1 == |s| {
        var e := FieldsAt(s, 1).value.1;
        assert inner[0..e - 1] == inner;
        FieldsAgree(s, inner, -1, 1);
      }
      if FieldsAt(inner, 0).Some? && FieldsAt(inner, 0).value.1 == |inner| {
        assert inner[0..|inner|] == s[1..|inner| + 1];
        FieldsAgree(inner, s, 1, 0);
      }
    }
  }

  // ---------------------------------------------------------------------------
  // Formatting and reading back.

  lemma DigitRoundTrip(n: int)
    requires 0 <= n <= 9
    ensures IsDigit(DigitChar(n)) && DigitValue(DigitChar(n)) == n
  {
  }

  lemma {:induction false} DecimalDigits(n: nat)
    ensures forall k :: 0 <= k < |Decimal(n)| ==> IsDigit(Decimal(n)[k])
    ensures 1 <= |Decimal(n)|
    ensures 10 <= n ==> 2 <= |Decimal(n)|
    ensures 100 <= n ==> 3 <= |Decimal(n)|
    ensures 1000 <= n ==> 4 <= |Decimal(n)|
    ensures 10000 <= n ==> 5 <= |Decimal(n)|
  {
    if n >= 10 {
      DecimalDigits(n / 10);
      DigitRoundTrip(n % 10);
    } else {
      DigitRoundTrip(n);
    }
  }

  lemma GetNumOfPad2(s: string, p: nat, n: int, fixed: bool)
    requires 0 <= n <= 99 && p + 2 <= |s| && s[p..p + 2] == Pad2(n)
    ensures GetNum(s, p, fixed) == Some((n, p + 2))
  {
    assert s[p] == s[p..p + 2][0] && s[p + 1] == s[p..p + 2][1];
    DigitRoundTrip(n / 10);
    DigitRoundTrip(n % 10);
  }

  lemma LongYearOfPad4(s: string, p: nat, n: int)
    requires 0 <= n <= 9999 && p + 4 <= |s| && s[p..p + 4] == Pad4(n)
    ensures LongYear(s, p) == Some((n, p + 4))
  {
    assert s[p] == s[p..p + 4][0] && s[p + 1] == s[p..p + 4][1];
    assert s[p + 2] == s[p..p + 4][2] && s[p + 3] == s[p..p + 4][3];
    DigitRoundTrip(n / 1000);
    DigitRoundTrip(n / 100 % 10);
    DigitRoundTrip(n / 10 % 10);
    DigitRoundTrip(n % 10);
    FourDigits(n);
  }

  /** The four digits Pad4 writes for n < 10000 spell n. */
  lemma FourDigits(n: int)
    requires 0 <= n <= 9999
    ensures ((n / 1000 * 10 + n / 100 % 10) * 10 + n / 10 % 10) * 10 + n % 10 == n
  {
    var q1 := n / 10;
    var q2 := q1 / 10;
    var q3 := q2 / 10;
    assert n == q1 * 10 + n % 10;
    assert q1 == q2 * 10 + q1 % 10;
    assert q2 == q3 * 10 + q2 % 10;
    assert n / 100 == q2;
    assert n / 1000 == q3;
  }

  /** Where each part of the formatted text sits; the year takes |YearText(year)| characters from position 6. */
  lemma FormatShape(t: Instant)
    ensures var f, y := Format(t), YearText(t.year);
      && |f| == 12 + |y|
      && f[..2] == Pad2(t.day) && f[2] == '-' && f[3..5] == Pad2(t.month) && f[5] == '-'
      && f[6..6 + |y|] == y
      && f[6 + |y|] == ' ' && f[7 + |y|..9 + |y|] == Pad2(t.hour)
      && f[9 + |y|] == ':' && f[10 + |y|..] == Pad2(t.minute)
  {
    var y := YearText(t.year);
    var a := Pad2(t.day) + "-" + Pad2(t.month) + "-";
    var b := " " + Pad2(t.hour) + ":" + Pad2(t.minute);
    assert Format(t) == a + y + b;
  }

  lemma FormatParsesInRange(t: Instant)
    requires InLayoutRange(t)
    ensures FieldsAt(Format(t), 0) == Some((Stamp(t.day, t.month, t.year, t.hour, t.minute), 16))
  {
    var f := Format(t);
    FormatShape(t);
    GetNumOfPad2(f, 0, t.day, true);
    GetNumOfPad2(f, 3, t.month, true);
    LongYearOfPad4(f, 6, t.year);
    GetNumOfPad2(f, 11, t.hour, false);
    GetNumOfPad2(f, 14, t.minute, true);
    assert f[11] == Pad2(t.hour)[0];
    assert SpacesEnd(f, 11) == 11;
    assert SpaceRun(f, 10) == Some(11);
  }

  lemma FormatFailsOutOfRange(t: Instant)
    requires !InLayoutRange(t)
    ensures FieldsAt(Format(t), 0).None?
  {
    var f := Format(t);
    var y := YearText(t.year);
    FormatShape(t);
    GetNumOfPad2(f, 0, t.day, true);
    GetNumOfPad2(f, 3, t.month, true);
    if t.year < 0 {
      assert y[0] == '-';
      assert f[6] == f[6..6 + |y|][0];
    } else {
      DecimalDigits(t.year);
      assert y == Decimal(t.year);
      assert f[6] == y[0] && f[7] == y[1] && f[8] == y[2] && f[9] == y[3] && f[10] == y[4] by {
        assert f[6..6 + |y|] == y;
      }
    }
  }

  /** Every accepted text is the canonical spelling of its time, up to spacing and a one-digit hour. */
  lemma ParsedTimeFormatsBack(s: string)
    requires ParseLayout(s).Some?
    ensures ParseLayout(Format(ParseLayout(s).value)) == ParseLayout(s)
  {
    FormatParses(ParseLayout(s).value);
  }

  /**
   * Formatting a time and reading it back gives the time at the start of its
   * minute, exactly for the years 0..9999 that the layout can spell.
   */
  lemma FormatParses(t: Instant)
    ensures ParseLayout(Format(t)) == if InLayoutRange(t) then Some(Truncate(t)) else None
  {
    if InLayoutRange(t) {
      FormatParsesInRange(t);
    } else {
      FormatFailsOutOfRange(t);
    }
  }
}
