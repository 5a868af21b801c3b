/**
 * The round-entry form: the date picker's value rendered as `YYYY-MM-DD`,
 * the submit handler's guard and reset, and the condition that enables the
 * submit button.
 */
module GolfRoundForm {
  import opened Wrappers
  import opened Strings

  /** The date picker's value, with its numbers as the picker reports them. */
  datatype DateValue = DateValue(year: int, month: int, date: int)

  /**
   * `convertDateToString`: year, then month and day each left-padded with "0"
   * to two characters. For a non-negative year and a month and day below 100
   * the string reads back as the picked date, and the year has no leading zero.
   */
  function ConvertDateToString(d: DateValue): (s: string)
    ensures d.year >= 0 && 0 <= d.month < 100 && 0 <= d.date < 100 ==> ParseDateString(s) == Some(d)
    ensures d.year >= 0 && 0 <= d.month < 100 && 0 <= d.date < 100 ==>
              |s| >= 7 && var year := s[..|s| - 6]; |year| == 1 || year[0] != '0'
  {
    var y := IntToDecimal(d.year);
    var m := PadStart(IntToDecimal(d.month), 2, '0');
    var dd := PadStart(IntToDecimal(d.date), 2, '0');
    if d.year >= 0 && 0 <= d.month < 100 && 0 <= d.date < 100 then
      JoinedDateReadsBack(d, y, m, dd);
      y + "-" + m + "-" + dd
    else
      y + "-" + m + "-" + dd
  }

  /** The joined pieces of a date read back as that date, and the year slot has no leading zero. */
  lemma JoinedDateReadsBack(d: DateValue, y: string, m: string, dd: string)
    requires d.year >= 0 && 0 <= d.month < 100 && 0 <= d.date < 100
    requires y == IntToDecimal(d.year)
    requires m == PadStart(IntToDecimal(d.month), 2, '0') && dd == PadStart(IntToDecimal(d.date), 2, '0')
    ensures ParseDateString(y + "-" + m + "-" + dd) == Some(d)
    ensures var s := y + "-" + m + "-" + dd;
            |s| >= 7 && var year := s[..|s| - 6]; |year| == 1 || year[0] != '0'
  {
    TwoDigits(d.month);
    TwoDigits(d.date);
    DecimalRoundTrip(d.year);
    ParseJoined(y, m, dd);
    JoinedYearSlot(y, m, dd);
  }

  /** The year slot of the joined string is the year text, so it keeps that text's lack of a leading zero. */
  lemma JoinedYearSlot(y: string, m: string, dd: string)
    requires |m| == 2 && |dd| == 2 && |y| > 0 && (|y| == 1 || y[0] != '0')
    ensures var s := y + "-" + m + "-" + dd;
            |s| >= 7 && var year := s[..|s| - 6]; |year| == 1 || year[0] != '0'
  {
    JoinedPieces(y, m, dd);
  }

  /** Two decimal digits with their value, for 0 <= n < 100. */
  lemma TwoDigits(n: int)
    requires 0 <= n < 100
    ensures var t := PadStart(IntToDecimal(n), 2, '0');
            |t| == 2 && IsDigits(t) && DecimalValue(t) == n
  {
    var d := NatToDecimal(n);
    var t := PadStart(d, 2, '0');
    DecimalRoundTrip(n);
    if n < 10 {
      assert t == "0" + d;
      LeadingZeros("0", d);
    } else {
      assert n / 10 < 10;
      assert |d| == 2;
    }
  }

  /**
   * Reads a `YYYY-MM-DD` string back: the last two characters are the day,
   * the two before the second-to-last `-` the month, everything before that
   * the year. None for anything else.
   */
  function ParseDateString(s: string): Option<DateValue> {
    if |s| >= 7 && s[|s| - 3] == '-' && s[|s| - 6] == '-' then
      var year := s[..|s| - 6];
      var month := s[|s| - 5..|s| - 3];
      var day := s[|s| - 2..];
      if IsDigits(year) && IsDigits(month) && IsDigits(day) then
        Some(DateValue(DecimalValue(year), DecimalValue(month), DecimalValue(day)))
      else None
    else None
  }

  /** The pieces of a joined `year-mm-dd` string sit where the parser looks for them. */
  lemma JoinedPieces(y: string, m: string, dd: string)
    requires |m| == 2 && |dd| == 2
    ensures var s := y + "-" + m + "-" + dd;
            && |s| == |y| + 6 && s[|s| - 3] == '-' && s[|s| - 6] == '-'
            && s[..|s| - 6] == y && s[|s| - 5..|s| - 3] == m && s[|s| - 2..] == dd
  {
  }

  /** Parsing a joined string of digit groups reads each group's value. */
  lemma ParseJoined(y: string, m: string, dd: string)
    requires |y| > 0 && |m| == 2 && |dd| == 2 && IsDigits(y) && IsDigits(m) && IsDigits(dd)
    ensures ParseDateString(y + "-" + m + "-" + dd)
         == Some(DateValue(DecimalValue(y), DecimalValue(m), DecimalValue(dd)))
  {
    JoinedPieces(y, m, dd);
    ParseParts(y + "-" + m + "-" + dd);
  }

  /** A string with `-` in both places and digits between them parses to the groups' values. */
  lemma ParseParts(s: string)
    requires |s| >= 7 && s[|s| - 3] == '-' && s[|s| - 6] == '-'
    requires IsDigits(s[..|s| - 6]) && IsDigits(s[|s| - 5..|s| - 3]) && IsDigits(s[|s| - 2..])
    ensures ParseDateString(s)
         == Some(DateValue(DecimalValue(s[..|s| - 6]), DecimalValue(s[|s| - 5..|s| - 3]), DecimalValue(s[|s| - 2..])))
  {
  }

  /** The string always has the year, a `-`, the month, a `-` and the day, in that order. */
  lemma DateStringShape(d: DateValue)
    requires d.year >= 0 && 0 <= d.month < 100 && 0 <= d.date < 100
    ensures var s := ConvertDateToString(d);
            |s| >= 7 && s[|s| - 3] == '-' && s[|s| - 6] == '-' && IsDigits(s[..|s| - 6])
  {
  }

  /** The record the form hands to its `onSubmit` callback. */
  datatype SubmittedRound = SubmittedRound(
    course: string,
    score: real,
    date: string,
    holes: string,
    slope: Option<real>,
    courseRating: Option<real>)

  /** The form's fields; None is a field left undefined. */
  datatype FormState = FormState(
    course: string,
    score: Option<real>,
    date: Option<DateValue>,
    holes: string,
    slope: Option<real>,
    courseRating: Option<real>)

  /** A fresh form: everything empty except the holes selector, which starts at "18". */
  const InitialForm: FormState := FormState("", None, None, "18", None, None)

  /** The submit handler's guard: course, score, date and holes all given. */
  predicate SubmitAllowed(f: FormState) {
    f.course != "" && f.score.Some? && f.date.Some? && f.holes != ""
  }

  /**
   * `handleSubmit`: when the guard holds, hands the round to `onSubmit` (the
   * first component) and resets the form; otherwise does nothing.
   */
  function HandleSubmit(f: FormState): (r: (Option<SubmittedRound>, FormState))
    ensures r.0.None? <==> !SubmitAllowed(f)
    ensures r.0.None? ==> r.1 == f
    ensures r.0.Some? ==> r.1 == InitialForm
    ensures r.0.Some? ==>
              r.0.value == SubmittedRound(f.course, f.score.value, ConvertDateToString(f.date.value),
                                          f.holes, f.slope, f.courseRating)
  {
    if !SubmitAllowed(f) then (None, f)
    else
      (Some(SubmittedRound(f.course, f.score.value, ConvertDateToString(f.date.value), f.holes, f.slope, f.courseRating)),
       InitialForm)
  }

  /** `isValid`, which enables the submit button: a non-blank course, a positive score and a date. */
  predicate IsValid(f: FormState): (ok: bool)
    ensures ok && f.holes != "" ==> SubmitAllowed(f)
  {
    assert Trim("") == "";
    Trim(f.course) != "" && f.score.Some? && f.score.value > 0.0 && f.date.Some?
  }

  /** A valid form with a holes choice always submits: the button is never enabled for a form the handler drops. */
  lemma ValidFormSubmits(f: FormState)
    requires IsValid(f) && f.holes in {"9", "18"}
    ensures HandleSubmit(f).0.Some?
  {
    assert Trim("") == "";
  }

  /** After a submission the form is empty again, so a second submit does nothing. */
  lemma SubmitThenResubmit(f: FormState)
    requires SubmitAllowed(f)
    ensures !SubmitAllowed(HandleSubmit(f).1)
    ensures !IsValid(HandleSubmit(f).1)
  {
  }

  /** The handler alone is weaker than `isValid`: it accepts a blank course and a score of zero. */
  lemma HandlerAcceptsWhatButtonRefuses(d: DateValue)
    ensures var f := FormState(" ", Some(0.0), Some(d), "18", None, None);
            !IsValid(f) && HandleSubmit(f).0.Some?
  {
    var f := FormState(" ", Some(0.0), Some(d), "18", None, None);
    assert !IsValid(f);
  }
}
