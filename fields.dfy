/** The two validated fields of a contact: a phone number (`Phone`) and a
    birthday (`Birthday`), and the day.month.year date text that the
    birthday and the greeting dates are written in. */
module Fields {
  import opened Outcomes
  import opened Text
  import opened Calendar
  import Seqs

  // ---------- phone numbers ----------

  /** What `Phone` accepts: exactly ten characters, all digits. */
  predicate IsPhoneText(s: string) {
    |s| == 10 && AllDigits(s)
  }

  /** A phone number as stored in a record: its digit string. */
  type PhoneNumber = s: string | IsPhoneText(s) witness "0000000000"

  /** `Phone(raw)`: the phone number `raw` itself when it is ten digits,
      otherwise the validation error. */
  function NewPhone(raw: string): (r: Result<PhoneNumber>)
    ensures r.Ok? <==> |raw| == 10 && forall i :: 0 <= i < |raw| ==> IsDigit(raw[i])
    ensures r.Ok? ==> r.value == raw
    ensures r.Err? ==> r.error == ValueError(PhoneFormatMsg)
  {
    if IsPhoneText(raw) then Ok(raw) else Err(ValueError(PhoneFormatMsg))
  }

  // ---------- day.month.year dates ----------

  /** The `%d` directive: "1".."9", " 1".." 9" (a space, then one digit) or
      two digits worth 1..31. */
  function DayField(t: string): (r: Option<int>)
    ensures r.Some? ==> 1 <= r.value <= 31
  {
    if |t| == 1 && IsDigit(t[0]) && t[0] != '0' then Some(DigitValue(t[0]))
    else if |t| == 2 && t[0] == ' ' && IsDigit(t[1]) && t[1] != '0' then Some(DigitValue(t[1]))
    else if |t| == 2 && IsDigit(t[0]) && IsDigit(t[1]) && 1 <= NumeralValue(t) <= 31 then Some(NumeralValue(t))
    else None
  }

  /** The `%m` directive: "1".."9" or two digits worth 1..12. */
  function MonthField(t: string): (r: Option<int>)
    ensures r.Some? ==> 1 <= r.value <= 12
  {
    if |t| == 1 && IsDigit(t[0]) && t[0] != '0' then Some(DigitValue(t[0]))
    else if |t| == 2 && IsDigit(t[0]) && IsDigit(t[1]) && 1 <= NumeralValue(t) <= 12 then Some(NumeralValue(t))
    else None
  }

  /** The `%Y` directive: exactly four digits. */
  function YearField(t: string): (r: Option<int>)
    ensures r.Some? <==> |t| == 4 && AllDigits(t)
    ensures r.Some? ==> 0 <= r.value <= 9999 && r.value == NumeralValue(t)
  {
    if |t| == 4 && AllDigits(t) then
      NumeralBound(t);
      Some(NumeralValue(t))
    else None
  }

  /** `datetime.strptime(s, "%d.%m.%Y")` as a date: a day field, a dot, a
      month field, a dot and a year field that together make up all of `s`
      and name a real date.  No field can hold a dot, so the fields are the
      text around the first two dots. */
  function ParseDate(s: string): (r: Option<Date>)
    ensures r.Some? ==> ValidDate(r.value)
  {
    match Seqs.IndexOf(s, '.')
    case None => None
    case Some(i) =>
      var rest := s[i + 1..];
      match Seqs.IndexOf(rest, '.')
      case None => None
      case Some(j) =>
        var day, month, year := DayField(s[..i]), MonthField(rest[..j]), YearField(rest[j + 1..]);
        if day.Some? && month.Some? && year.Some? && ValidDate(Date(year.value, month.value, day.value))
        then Some(Date(year.value, month.value, day.value))
        else None
  }

  /** `date.strftime("%d.%m.%Y")`: two-digit day, two-digit month, four-digit
      year. */
  function FormatDate(d: Date): (s: string)
    requires ValidDate(d)
    ensures |s| == 10 && s[2] == '.' && s[5] == '.'
  {
    Padded(d.day, 2) + "." + Padded(d.month, 2) + "." + Padded(d.year, 4)
  }

  /** Formatting a date and parsing the text back gives the same date. */
  lemma ParseFormatted(d: Date)
    requires ValidDate(d)
    ensures ParseDate(FormatDate(d)) == Some(d)
  {
    var s := FormatDate(d);
    var dd, mm, yy := Padded(d.day, 2), Padded(d.month, 2), Padded(d.year, 4);
    assert s == dd + "." + mm + "." + yy;
    assert s[..2] == dd;
    assert Seqs.IndexOf(s, '.') == Some(2) by {
      assert s[0] == dd[0] && s[1] == dd[1];
    }
    var rest := s[3..];
    assert rest == mm + "." + yy;
    assert rest[..2] == mm && rest[3..] == yy;
    assert Seqs.IndexOf(rest, '.') == Some(2) by {
      assert rest[0] == mm[0] && rest[1] == mm[1];
    }
    assert DayField(dd) == Some(d.day);
    assert MonthField(mm) == Some(d.month);
    assert YearField(yy) == Some(d.year);
  }

  /** A ten-character text without a leading space that parses as a date is
      exactly that date's formatted text: the canonical day.month.year text
      and the formatted date are one and the same. */
  lemma FormattedIsCanonical(s: string)
    requires ParseDate(s).Some? && |s| == 10 && s[0] != ' '
    ensures FormatDate(ParseDate(s).value) == s
  {
    var d := ParseDate(s).value;
    var i := Seqs.IndexOf(s, '.').value;
    var rest := s[i + 1..];
    var j := Seqs.IndexOf(rest, '.').value;
    assert i == 2 && j == 2;
    var dd, mm, yy := s[..2], rest[..2], rest[3..];
    assert s == dd + "." + mm + "." + yy;
    DayFieldCanonical(dd);
    MonthFieldCanonical(mm);
    YearFieldCanonical(yy);
  }

  /** A two-character day field without a leading space is the day, padded. */
  lemma DayFieldCanonical(t: string)
    requires |t| == 2 && t[0] != ' ' && DayField(t).Some?
    ensures DayField(t).value < Power10(2) && Padded(DayField(t).value, 2) == t
  {
    PaddedNumeral(t);
  }

  /** A two-character month field is the month, padded. */
  lemma MonthFieldCanonical(t: string)
    requires |t| == 2 && MonthField(t).Some?
    ensures MonthField(t).value < Power10(2) && Padded(MonthField(t).value, 2) == t
  {
    PaddedNumeral(t);
  }

  /** A year field is the year, padded to four digits. */
  lemma YearFieldCanonical(t: string)
    requires YearField(t).Some?
    ensures YearField(t).value < Power10(4) && Padded(YearField(t).value, 4) == t
  {
    PaddedNumeral(t);
  }

  /** A birthday as stored in a record: the text the user typed, which
      parses as a date. */
  type BirthdayText = s: string | ParseDate(s).Some?
    witness (ParseFormatted(Date(2000, 1, 1)); FormatDate(Date(2000, 1, 1)))

  /** `Birthday(raw)`: `raw` itself, verbatim, when it parses as a date,
      otherwise the validation error. */
  function NewBirthday(raw: string): (r: Result<BirthdayText>)
    ensures r.Ok? <==> ParseDate(raw).Some?
    ensures r.Ok? ==> r.value == raw
    ensures r.Err? ==> r.error == ValueError(DateFormatMsg)
  {
    if ParseDate(raw).Some? then Ok(raw) else Err(ValueError(DateFormatMsg))
  }

  /** Every real date, written as day.month.year, is a birthday the program
      accepts, and it keeps the text as typed. */
  lemma EveryDateIsABirthday(d: Date)
    requires ValidDate(d)
    ensures NewBirthday(FormatDate(d)) == Ok(FormatDate(d))
  {
    ParseFormatted(d);
  }
}
