/** The upcoming-birthdays query, on values: for each contact with a
    birthday, its next occurrence (this year, or next year once this year's
    has passed), kept when it falls within `days` days of today, moved off a
    weekend to the Monday after, and reported in the order of the contacts. */
module Birthdays {
  import opened Outcomes
  import opened Calendar
  import opened Fields
  import Text

  /** A contact as the query sees it: its name and its birthday, if any. */
  datatype Entry = Entry(name: string, birthday: Option<BirthdayText>)

  /** One line of the answer: whom to greet, and on which day (as
      day.month.year text). */
  datatype Greeting = Greeting(name: string, birthday: string)

  /** The date a stored birthday text denotes. */
  function BirthdayDate(text: BirthdayText): (d: Date)
    ensures ValidDate(d)
  {
    ParseDate(text).value
  }

  /** The birthday moved into today's year, or into the next year when that
      is already past.  Each move is `date.replace`, which fails on 29
      February outside a leap year and beyond year 9999. */
  function NextOccurrence(b: Date, today: Date): (r: Result<Date>)
    requires ValidDate(b) && ValidDate(today)
    ensures r.Ok? ==> ValidDate(r.value) && r.value.month == b.month && r.value.day == b.day
    ensures r.Ok? ==> r.value.year == today.year || r.value.year == today.year + 1
    ensures r.Ok? ==> !Before(r.value, today)
    ensures r.Ok? && r.value.year == today.year + 1 ==> Before(b.(year := today.year), today)
    ensures r.Err? ==> r.error.ValueError?
  {
    match ReplaceYear(b, today.year)
    case Err(e) => Err(e)
    case Ok(thisYear) =>
      if Before(thisYear, today) then ReplaceYear(thisYear, today.year + 1) else Ok(thisYear)
  }

  /** The occurrence fails exactly for 29 February when this year is not a
      leap year, or when this year's date has passed and next year either
      is not a leap year or lies beyond 9999. */
  lemma NextOccurrenceFails(b: Date, today: Date)
    requires ValidDate(b) && ValidDate(today)
    ensures NextOccurrence(b, today).Err? <==>
      var leapDay := b.month == 2 && b.day == 29;
      (leapDay && !IsLeap(today.year))
      || (Before(b.(year := today.year), today)
          && (today.year + 1 > MaxYear || (leapDay && !IsLeap(today.year + 1))))
  {
  }

  /** The day the greeting is sent: a Saturday moves on two days, a Sunday
      one day, so that the greeting always falls on Monday..Friday. */
  function GreetingDate(d: Date): (g: Date)
    requires ValidDate(d)
    ensures ValidDate(g)
    ensures Weekday(g) <= 4
    ensures 0 <= Ordinal(g) - Ordinal(d) <= 2
    ensures Weekday(d) <= 4 <==> g == d
    ensures Weekday(d) > 4 ==> Weekday(g) == 0
  {
    var w := Weekday(d);
    if w == 5 then
      SaturdayMovesToMonday(d);
      NextDay(NextDay(d))
    else if w == 6 then
      SundayMovesToMonday(d);
      NextDay(d)
    else d
  }

  /** A Saturday is followed by a Sunday and then a Monday, both of them
      dates. */
  lemma SaturdayMovesToMonday(d: Date)
    requires ValidDate(d) && Weekday(d) == 5
    ensures d != LastDate && NextDay(d) != LastDate
    ensures Weekday(NextDay(NextDay(d))) == 0
  {
    LastDateIsFriday();
    WeekdayOfNextDay(d);
    WeekdayOfNextDay(NextDay(d));
  }

  /** A Sunday is followed by a Monday that is a date. */
  lemma SundayMovesToMonday(d: Date)
    requires ValidDate(d) && Weekday(d) == 6
    ensures d != LastDate
    ensures Weekday(NextDay(d)) == 0
  {
    LastDateIsFriday();
    WeekdayOfNextDay(d);
  }

  /** `bday_this_year` of the loop, with its distance from today. */
  predicate InWindow(e: Entry, today: Date, days: int)
    requires ValidDate(today)
  {
    e.birthday.Some?
    && var next := NextOccurrence(BirthdayDate(e.birthday.value), today);
    next.Ok? && 0 <= Ordinal(next.value) - Ordinal(today) <= days
  }

  /** One turn of the loop: no greeting without a birthday or outside the
      window, the greeting otherwise, or the error `replace` raised. */
  function Greet(e: Entry, today: Date, days: int): Result<Option<Greeting>>
    requires ValidDate(today)
  {
    match e.birthday
    case None => Ok(None)
    case Some(text) =>
      match NextOccurrence(BirthdayDate(text), today)
      case Err(err) => Err(err)
      case Ok(next) =>
        var delta := Ordinal(next) - Ordinal(today);
        if 0 <= delta <= days then Ok(Some(Greeting(e.name, FormatDate(GreetingDate(next)))))
        else Ok(None)
  }

  /** An entry is greeted exactly when its birthday falls in the window,
      fails exactly when moving its birthday fails, and a greeting carries
      the entry's name. */
  lemma GreetCases(e: Entry, today: Date, days: int)
    requires ValidDate(today)
    ensures var r := Greet(e, today, days);
      (r.Ok? && r.value.Some? <==> InWindow(e, today, days))
      && (r.Err? <==> e.birthday.Some? && NextOccurrence(BirthdayDate(e.birthday.value), today).Err?)
      && (r.Ok? && r.value.Some? ==> r.value.value.name == e.name)
  {
  }

  /** What a greeting promises: it names the contact; its date text parses
      back to a weekday (Monday..Friday) that is 0 to 2 days after the
      birthday's next occurrence, which itself is 0..`days` days after
      today. */
  lemma GreetingIsOnAWeekdayInWindow(e: Entry, today: Date, days: int)
    requires ValidDate(today)
    requires Greet(e, today, days).Ok? && Greet(e, today, days).value.Some?
    ensures var g := Greet(e, today, days).value.value;
      var next := NextOccurrence(BirthdayDate(e.birthday.value), today).value;
      g.name == e.name
      && 0 <= Ordinal(next) - Ordinal(today) <= days
      && ParseDate(g.birthday).Some?
      && Weekday(ParseDate(g.birthday).value) <= 4
      && 0 <= Ordinal(ParseDate(g.birthday).value) - Ordinal(next) <= 2
  {
    GreetCases(e, today, days);
    var next := NextOccurrence(BirthdayDate(e.birthday.value), today).value;
    ParseFormatted(GreetingDate(next));
  }

  /** What each entry gives, in the order of the entries. */
  function PerEntry(es: seq<Entry>, today: Date, days: int): (rs: seq<Result<Option<Greeting>>>)
    requires ValidDate(today)
    ensures |rs| == |es|
    ensures forall i :: 0 <= i < |es| ==> rs[i] == Greet(es[i], today, days)
  {
    seq(|es|, i requires 0 <= i < |es| => Greet(es[i], today, days))
  }

  /** `get_upcoming_birthdays`: the greetings of the entries in order, or
      the first error raised. */
  function Upcoming(es: seq<Entry>, today: Date, days: int): Result<seq<Greeting>>
    requires ValidDate(today)
  {
    Seqs.Collect(PerEntry(es, today, days))
  }

  /** The positions of the entries that are greeted. */
  function Greeted(es: seq<Entry>, today: Date, days: int): seq<nat>
    requires ValidDate(today)
  {
    Seqs.Kept(PerEntry(es, today, days))
  }

  /** The query fails exactly when one of the entries fails, and with the
      error of the first entry that fails. */
  lemma UpcomingFailsAtFirstFailingEntry(es: seq<Entry>, today: Date, days: int)
    requires ValidDate(today)
    ensures Upcoming(es, today, days).Err? <==> exists i :: 0 <= i < |es| && Greet(es[i], today, days).Err?
    ensures Upcoming(es, today, days).Err? ==>
      exists i :: 0 <= i < |es| && Greet(es[i], today, days) == Err(Upcoming(es, today, days).error)
                 && forall k :: 0 <= k < i ==> Greet(es[k], today, days).Ok?
  {
    var rs := PerEntry(es, today, days);
    Seqs.CollectFailsAtFirstError(rs);
  }

  /** The greeted positions increase and are exactly the entries whose
      birthday falls in the window; a successful answer holds one greeting
      per greeted entry, in the same order. */
  lemma UpcomingInEntryOrder(es: seq<Entry>, today: Date, days: int)
    requires ValidDate(today)
    ensures var ix := Greeted(es, today, days);
      (forall j, k :: 0 <= j < k < |ix| ==> ix[j] < ix[k])
      && (forall j :: 0 <= j < |ix| ==> ix[j] < |es| && InWindow(es[ix[j]], today, days))
      && (forall i :: 0 <= i < |es| && InWindow(es[i], today, days) ==> i in ix)
    ensures Upcoming(es, today, days).Ok? ==>
      var gs, ix := Upcoming(es, today, days).value, Greeted(es, today, days);
      |ix| == |gs| && forall j :: 0 <= j < |ix| ==> Greet(es[ix[j]], today, days) == Ok(Some(gs[j]))
  {
    var rs := PerEntry(es, today, days);
    Seqs.KeptAreTheValues(rs);
    if Seqs.Collect(rs).Ok? {
      Seqs.CollectIsKeptValues(rs);
    }
    forall i | 0 <= i < |es|
      ensures rs[i].Ok? && rs[i].value.Some? <==> InWindow(es[i], today, days)
    {
      GreetCases(es[i], today, days);
    }
  }

  /** The stored text of a birthday typed in the canonical form. */
  function BirthdayOf(d: Date): (text: BirthdayText)
    requires ValidDate(d)
    ensures BirthdayDate(text) == d && text == FormatDate(d)
  {
    ParseFormatted(d);
    FormatDate(d)
  }

  /** The worked example: today is Monday 10 June 2024, Bob was born on
      15.06.2020; his birthday this year is Saturday 15 June, five days
      ahead, so he is greeted on Monday 17 June. */
  lemma BobIsGreetedOnMonday(es: seq<Entry>, today: Date)
    requires today == Date(2024, 6, 10)
    requires es == [Entry("Bob", Some(BirthdayOf(Date(2020, 6, 15))))]
    ensures Upcoming(es, today, 7) == Ok([Greeting("Bob", "17.06.2024")])
  {
    BobsOutcome();
    Seqs.CollectOne(Greeting("Bob", "17.06.2024"));
  }

  lemma BobsOutcome()
    ensures PerEntry([Entry("Bob", Some(BirthdayOf(Date(2020, 6, 15))))], Date(2024, 6, 10), 7)
         == [Ok(Some(Greeting("Bob", "17.06.2024")))]
  {
    BobsGreeting();
  }

  /** Bob's stored birthday is the text "15.06.2020". */
  lemma BobsBirthdayText()
    ensures BirthdayOf(Date(2020, 6, 15)) == "15.06.2020"
  {
    BobsBirthdayFormatted();
  }

  lemma BobsBirthdayFormatted()
    ensures FormatDate(Date(2020, 6, 15)) == "15.06.2020"
  {
    assert Text.Padded(15, 2) == "15";
    assert Text.Padded(6, 2) == "06";
    assert Text.Padded(2020, 4) == "2020" by {
      Text.PaddedYear(2020);
    }
  }

  lemma BobsGreeting()
    ensures Greet(Entry("Bob", Some(BirthdayOf(Date(2020, 6, 15)))), Date(2024, 6, 10), 7)
         == Ok(Some(Greeting("Bob", "17.06.2024")))
  {
    assert NextOccurrence(Date(2020, 6, 15), Date(2024, 6, 10)) == Ok(Date(2024, 6, 15));
    BobsBirthdayWeekday();
    assert GreetingDate(Date(2024, 6, 15)) == Date(2024, 6, 17);
    BobsGreetingText();
  }

  lemma BobsBirthdayWeekday()
    ensures Ordinal(Date(2024, 6, 15)) - Ordinal(Date(2024, 6, 10)) == 5
    ensures Weekday(Date(2024, 6, 15)) == 5
  {
    assert DaysBeforeYear(2024) == 738885;
  }

  lemma BobsGreetingText()
    ensures FormatDate(Date(2024, 6, 17)) == "17.06.2024"
  {
    assert Text.Padded(17, 2) == "17";
    assert Text.Padded(6, 2) == "06";
    assert Text.Padded(2024, 4) == "2024" by {
      Text.PaddedYear(2024);
    }
  }

  /** A birthday on 29 February makes the whole query fail in a year that is
      not a leap year, whoever else is in the book. */
  lemma LeapDayBirthdayFailsInCommonYear(es: seq<Entry>, i: nat, today: Date, days: int)
    requires ValidDate(today) && !IsLeap(today.year)
    requires i < |es| && es[i].birthday.Some?
    requires BirthdayDate(es[i].birthday.value).month == 2 && BirthdayDate(es[i].birthday.value).day == 29
    ensures Upcoming(es, today, days).Err?
  {
    GreetCases(es[i], today, days);
    UpcomingFailsAtFirstFailingEntry(es, today, days);
  }
}
