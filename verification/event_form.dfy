/**
 The add/edit event form: its fields, how they are seeded from an event or
 from today's date, the `YYYY-MM-DD` and `HH:MM` texts the date and time
 inputs hold, and the partial event it emits on submit.
 */
module EventForm {
  import opened Common
  import opened Text
  import opened Dates
  import opened Events

  const Daily: string := "daily"
  const Weekly: string := "weekly"
  const Monthly: string := "monthly"
  const Yearly: string := "yearly"

  /** The component's input event and its bound fields. */
  datatype Form = Form(
    event: Option<CalendarEvent>,
    title: string,
    description: string,
    startDate: string,
    startTime: string,
    endDate: string,
    endTime: string,
    category: string,
    location: string,
    isRecurring: bool,
    recurrenceFrequency: string,
    recurrenceInterval: int)

  /** The field initialisers, for a given input event. */
  function FreshForm(event: Option<CalendarEvent>): (f: Form)
    ensures f.event == event && f.category == Personal && f.recurrenceFrequency == Weekly
    ensures f.recurrenceInterval == 1 && !f.isRecurring && f.startDate == "" && f.startTime == ""
    ensures f.title == "" && f.description == "" && f.location == "" && f.endDate == "" && f.endTime == ""
  {
    Form(event, "", "", "", "", "", "", Personal, "", false, Weekly, 1)
  }

  // ---------------------------------------------------------------------------
  // Date and time text
  // ---------------------------------------------------------------------------

  /** `String(n).padStart(2, '0')` for 0..99 is two digits that read back as `n`. */
  lemma PaddedReadsBack(n: nat)
    requires n < 100
    ensures var s := PadStart2(IntToString(n)); |s| == 2 && AllDigits(s) && ParseDigits(s) == n
  {
    PadTwoDigits(n);
    var s := PadStart2(IntToString(n));
    assert s[..1] == [DigitChar(n / 10)];
  }

  /** `String(y)` for a four-digit year is four digits that read back as `y`. */
  lemma YearReadsBack(y: int)
    requires 1000 <= y <= 9999
    ensures var s := IntToString(y); |s| == 4 && AllDigits(s) && ParseDigits(s) == y
  {
    FourDigits(y);
    ParseNatToString(y);
  }

  /** `${year}-${month}-${day}`: where each part lands in the joined text. */
  function JoinDate(year: string, month: string, day: string): (s: string)
    ensures |s| == |year| + |month| + |day| + 2
    ensures s[..|year|] == year && s[|year|] == '-' && s[|year| + 1..|year| + 1 + |month|] == month
    ensures s[|year| + 1 + |month|] == '-' && s[|year| + 2 + |month|..] == day
  {
    var s := year + "-" + month + "-" + day;
    assert s[..|year|] == year;
    assert s[|year| + 1..|year| + 1 + |month|] == month;
    assert s[|year| + 2 + |month|..] == day;
    s
  }

  /**
   formatDate: `YYYY-MM-DD` from the local year, month + 1 and day; `NaN-NaN-NaN`
   for an invalid date. The year is `String(year)`, unpadded, so only a
   four-digit year gives the ten-character ISO shape; every valid date ends in
   `-MM-DD` after the year's text.
   */
  function FormatDate(i: Instant): (s: string)
    ensures i.InvalidDate? ==> s == "NaN-NaN-NaN"
    ensures i.At? && Valid(i.t) ==>
      && |s| >= 7 && s[..|s| - 6] == IntToString(i.t.year) && s[|s| - 6] == '-' && s[|s| - 3] == '-'
      && AllDigits(s[|s| - 5..|s| - 3]) && ParseDigits(s[|s| - 5..|s| - 3]) == i.t.month + 1
      && AllDigits(s[|s| - 2..]) && ParseDigits(s[|s| - 2..]) == i.t.day
    ensures i.At? && Valid(i.t) && 1000 <= i.t.year <= 9999 ==>
      && |s| == 10 && s[4] == '-' && s[7] == '-'
      && AllDigits(s[..4]) && AllDigits(s[5..7]) && AllDigits(s[8..])
      && ParseDigits(s[..4]) == i.t.year
      && ParseDigits(s[5..7]) == i.t.month + 1
      && ParseDigits(s[8..]) == i.t.day
  {
    match i
    case InvalidDate => "NaN-NaN-NaN"
    case At(t) =>
      var year := IntToString(t.year);
      var month := PadStart2(IntToString(t.month + 1));
      var day := PadStart2(IntToString(t.day));
      assert Valid(t) ==>
        && |month| == 2 && AllDigits(month) && ParseDigits(month) == t.month + 1
        && |day| == 2 && AllDigits(day) && ParseDigits(day) == t.day
      by {
        if Valid(t) {
          PaddedReadsBack(t.month + 1);
          PaddedReadsBack(t.day);
        }
      }
      assert 1000 <= t.year <= 9999 ==> |year| == 4 && AllDigits(year) && ParseDigits(year) == t.year by {
        if 1000 <= t.year <= 9999 {
          YearReadsBack(t.year);
        }
      }
      JoinDate(year, month, day)
  }

  /** formatTime: `HH:MM` from the local hours and minutes; `NaN:NaN` for an invalid date. */
  function FormatTime(i: Instant): (s: string)
    ensures i.InvalidDate? ==> s == "NaN:NaN"
    ensures i.At? && 0 <= i.t.hour < 24 && 0 <= i.t.minute < 60 ==>
      && |s| == 5 && s[2] == ':' && AllDigits(s[..2]) && AllDigits(s[3..])
      && ParseDigits(s[..2]) == i.t.hour && ParseDigits(s[3..]) == i.t.minute
  {
    match i
    case InvalidDate => "NaN:NaN"
    case At(t) =>
      var hours := PadStart2(IntToString(t.hour));
      var minutes := PadStart2(IntToString(t.minute));
      var s := hours + ":" + minutes;
      assert 0 <= t.hour < 24 && 0 <= t.minute < 60 ==>
        s[..2] == hours && s[3..] == minutes
        && |hours| == 2 && AllDigits(hours) && ParseDigits(hours) == t.hour
        && |minutes| == 2 && AllDigits(minutes) && ParseDigits(minutes) == t.minute
      by {
        if 0 <= t.hour < 24 && 0 <= t.minute < 60 {
          PaddedReadsBack(t.hour);
          PaddedReadsBack(t.minute);
        }
      }
      s
  }

  /** The date text depends on the calendar day only. */
  lemma FormatDateReadsDayOnly(a: DateTime, b: DateTime)
    requires SameDay(a, b)
    ensures FormatDate(At(a)) == FormatDate(At(b))
  {
  }

  /** The positions of `YYYY-MM-DDTHH:MM` that hold digits do, and the separators are in place. */
  predicate LocalShape(s: string)
  {
    && |s| == 16 && s[4] == '-' && s[7] == '-' && s[10] == 'T' && s[13] == ':'
    && AllDigits(s[..4]) && AllDigits(s[5..7]) && AllDigits(s[8..10]) && AllDigits(s[11..13]) && AllDigits(s[14..])
  }

  /**
   `new Date("YYYY-MM-DDTHH:MM")`: a local date-time at second 0, or an
   invalid date when the text does not have that shape or names no such
   day or time.
   */
  function ParseLocal(s: string): (r: Instant)
    ensures r.At? ==> LocalShape(s) && Valid(r.t) && r.t.second == 0 && r.t.ms == 0
    ensures r.At? ==> r.t.year == ParseDigits(s[..4]) && r.t.month + 1 == ParseDigits(s[5..7])
                      && r.t.day == ParseDigits(s[8..10])
                      && r.t.hour == ParseDigits(s[11..13]) && r.t.minute == ParseDigits(s[14..])
    ensures LocalShape(s)
            && Valid(DateTime(ParseDigits(s[..4]), ParseDigits(s[5..7]) - 1, ParseDigits(s[8..10]),
                              ParseDigits(s[11..13]), ParseDigits(s[14..]), 0, 0))
            ==> r.At?
  {
    if !LocalShape(s) then InvalidDate
    else
      var y, mo, d := ParseDigits(s[..4]), ParseDigits(s[5..7]), ParseDigits(s[8..10]);
      var h, mi := ParseDigits(s[11..13]), ParseDigits(s[14..]);
      if 1 <= mo <= 12 && 1 <= d <= DaysInMonth(y, mo - 1) && h < 24 && mi < 60 then
        At(DateTime(y, mo - 1, d, h, mi, 0, 0))
      else InvalidDate
  }

  /**
   For a four-digit year, the date and time texts the form shows, joined by
   `T` as onSubmit joins them, read back as the same minute.
   */
  lemma DateTimeTextRoundTrip(t: DateTime)
    requires Valid(t) && 1000 <= t.year <= 9999
    ensures ParseLocal(FormatDate(At(t)) + "T" + FormatTime(At(t))) == At(t.(second := 0, ms := 0))
  {
    JoinedFields(FormatDate(At(t)), FormatTime(At(t)));
  }

  /** Joining a date text and a time text with `T` puts their fields at the positions ParseLocal reads. */
  lemma JoinedFields(date: string, time: string)
    requires |date| == 10 && date[4] == '-' && date[7] == '-'
    requires AllDigits(date[..4]) && AllDigits(date[5..7]) && AllDigits(date[8..])
    requires |time| == 5 && time[2] == ':' && AllDigits(time[..2]) && AllDigits(time[3..])
    ensures var s := date + "T" + time;
      && LocalShape(s)
      && s[..4] == date[..4] && s[5..7] == date[5..7] && s[8..10] == date[8..]
      && s[11..13] == time[..2] && s[14..] == time[3..]
  {
    var s := date + "T" + time;
    assert s[..4] == date[..4] && s[5..7] == date[5..7] && s[8..10] == date[8..];
    assert s[11..13] == time[..2] && s[14..] == time[3..];
  }

  // ---------------------------------------------------------------------------
  // Lifecycle and submit
  // ---------------------------------------------------------------------------

  /** populateForm: every field from the event; frequency and interval only when it has a rule. */
  function PopulateForm(f: Form, e: CalendarEvent): (r: Form)
    ensures r.event == f.event && r.title == e.title && r.category == e.category && r.isRecurring == e.isRecurring
    ensures r.description == (if e.description.Some? then e.description.value else "")
    ensures r.location == (if e.location.Some? then e.location.value else "")
    ensures r.startDate == FormatDate(e.startDate) && r.startTime == FormatTime(e.startDate)
    ensures r.endDate == FormatDate(e.endDate) && r.endTime == FormatTime(e.endDate)
    ensures e.recurrenceRule.Some? ==> r.recurrenceFrequency == e.recurrenceRule.value.frequency
                                       && r.recurrenceInterval == e.recurrenceRule.value.interval
    ensures e.recurrenceRule.None? ==> r.recurrenceFrequency == f.recurrenceFrequency
                                       && r.recurrenceInterval == f.recurrenceInterval
  {
    var g := f.(
      title := e.title,
      description := if e.description.Some? then e.description.value else "",
      startDate := FormatDate(e.startDate),
      startTime := FormatTime(e.startDate),
      endDate := FormatDate(e.endDate),
      endTime := FormatTime(e.endDate),
      category := e.category,
      location := if e.location.Some? then e.location.value else "",
      isRecurring := e.isRecurring);
    match e.recurrenceRule
    case Some(rule) => g.(recurrenceFrequency := rule.frequency, recurrenceInterval := rule.interval)
    case None => g
  }

  /** ngOnInit: the event's fields when editing; otherwise today, 09:00 to 10:00. */
  function NgOnInit(f: Form, today: DateTime): (r: Form)
    ensures f.event.Some? ==> r == PopulateForm(f, f.event.value)
    ensures f.event.None? ==>
      r == f.(startDate := FormatDate(At(today)), endDate := FormatDate(At(today)),
              startTime := "09:00", endTime := "10:00")
  {
    match f.event
    case Some(e) => PopulateForm(f, e)
    case None =>
      var d := FormatDate(At(today));
      f.(startDate := d, endDate := d, startTime := "09:00", endTime := "10:00")
  }

  /** ngOnChanges: repopulate only when an event is given. */
  function NgOnChanges(f: Form): (r: Form)
    ensures f.event.None? ==> r == f
    ensures f.event.Some? ==> r.title == f.event.value.title && r.startDate == FormatDate(f.event.value.startDate)
    ensures f.event.Some? ==> forall today :: NgOnInit(f, today) == r
  {
    if f.event.Some? then PopulateForm(f, f.event.value) else f
  }

  /** onSubmit: the emitted `Partial<CalendarEvent>`. */
  function OnSubmit(f: Form): (p: Patch)
    ensures p.id.Present? <==> f.event.Some?
    ensures f.event.Some? ==> p.id.value == f.event.value.id
    ensures p.recurrenceRule.Present?
    ensures p.recurrenceRule.value.Some? <==> f.isRecurring
    ensures f.isRecurring ==> p.recurrenceRule.value.value == RecurrenceRule(f.recurrenceFrequency, f.recurrenceInterval, None, None, None)
    ensures p.startDate == Present(ParseLocal(f.startDate + "T" + f.startTime))
    ensures p.endDate == Present(ParseLocal(f.endDate + "T" + f.endTime))
    ensures p.title == Present(f.title) && p.category == Present(f.category) && p.isRecurring == Present(f.isRecurring)
    ensures p.description == Present(Some(f.description)) && p.location == Present(Some(f.location))
    ensures p.color.Absent? && p.createdBy.Absent? && p.attendees.Absent?
  {
    Patch(
      if f.event.Some? then Present(f.event.value.id) else Absent,
      Present(f.title),
      Present(Some(f.description)),
      Present(ParseLocal(f.startDate + "T" + f.startTime)),
      Present(ParseLocal(f.endDate + "T" + f.endTime)),
      Present(f.category),
      Present(f.isRecurring),
      Present(if f.isRecurring then Some(RecurrenceRule(f.recurrenceFrequency, f.recurrenceInterval, None, None, None)) else None),
      Absent,
      Present(Some(f.location)),
      Absent,
      Absent)
  }

  lemma NineOClockText(t: DateTime)
    requires t.hour == 9 && t.minute == 0
    ensures FormatTime(At(t)) == "09:00"
  {
    assert IntToString(9) == "9" && IntToString(0) == "0";
  }

  lemma TenOClockText(t: DateTime)
    requires t.hour == 10 && t.minute == 0
    ensures FormatTime(At(t)) == "10:00"
  {
    var h := IntToString(10);
    assert h == NatToString(1) + [DigitChar(0)];
    assert NatToString(1) == [DigitChar(1)];
    assert h == "10";
    assert PadStart2(IntToString(0)) == "00";
  }

  /** A time text the form shows for `t`, joined to today's date text, reads back as `t` on today's day. */
  lemma DefaultTimeText(today: DateTime, t: DateTime, time: string)
    requires Valid(today) && 1000 <= today.year <= 9999
    requires t == today.(hour := t.hour, minute := t.minute, second := 0, ms := 0)
    requires 0 <= t.hour < 24 && 0 <= t.minute < 60 && FormatTime(At(t)) == time
    ensures ParseLocal(FormatDate(At(today)) + "T" + time) == At(t)
  {
    FormatDateReadsDayOnly(today, t);
    DateTimeTextRoundTrip(t);
  }

  /** A new event submitted untouched runs from 09:00 to 10:00 today and carries no id. */
  lemma NewEventDefaultsToNineToTen(f: Form, today: DateTime)
    requires f.event.None? && Valid(today) && 1000 <= today.year <= 9999
    ensures var p := OnSubmit(NgOnInit(f, today));
      && p.id.Absent?
      && p.startDate == Present(At(today.(hour := 9, minute := 0, second := 0, ms := 0)))
      && p.endDate == Present(At(today.(hour := 10, minute := 0, second := 0, ms := 0)))
  {
    var d := FormatDate(At(today));
    assert NgOnInit(f, today) == f.(startDate := d, endDate := d, startTime := "09:00", endTime := "10:00");
    var nine := today.(hour := 9, minute := 0, second := 0, ms := 0);
    var ten := today.(hour := 10, minute := 0, second := 0, ms := 0);
    NineOClockText(nine);
    TenOClockText(ten);
    DefaultTimeText(today, nine, "09:00");
    DefaultTimeText(today, ten, "10:00");
  }

  /**
   Opening an event for editing and submitting without changes gives a patch
   that leaves the event as it was, when the event holds only what the form
   can show: minute-precision four-digit-year dates, a description and a
   location, and a plain rule exactly when it recurs.
   */
  lemma UnchangedEditKeepsEvent(f: Form, e: CalendarEvent)
    requires e.startDate.At? && Valid(e.startDate.t) && 1000 <= e.startDate.t.year <= 9999
    requires e.startDate.t.second == 0 && e.startDate.t.ms == 0
    requires e.endDate.At? && Valid(e.endDate.t) && 1000 <= e.endDate.t.year <= 9999
    requires e.endDate.t.second == 0 && e.endDate.t.ms == 0
    requires e.description.Some? && e.location.Some?
    requires e.recurrenceRule.Some? <==> e.isRecurring
    requires e.recurrenceRule.Some? ==> e.recurrenceRule.value.endDate.None? && e.recurrenceRule.value.daysOfWeek.None?
                                        && e.recurrenceRule.value.count.None?
    ensures ApplyPatch(e, OnSubmit(PopulateForm(f.(event := Some(e)), e))) == e
  {
    var p := OnSubmit(PopulateForm(f.(event := Some(e)), e));
    EditSubmitsShownDates(f, e);
    EditSubmitsShownFields(f, e);
    OwnFieldsPatchNothing(e, p);
  }

  /** A patch that carries only the event's own values, and leaves out the rest, changes nothing. */
  lemma OwnFieldsPatchNothing(e: CalendarEvent, p: Patch)
    requires p.id == Present(e.id) && p.title == Present(e.title)
    requires p.description == Present(e.description) && p.location == Present(e.location)
    requires p.startDate == Present(e.startDate) && p.endDate == Present(e.endDate)
    requires p.category == Present(e.category) && p.isRecurring == Present(e.isRecurring)
    requires p.recurrenceRule == Present(e.recurrenceRule)
    requires p.color.Absent? && p.createdBy.Absent? && p.attendees.Absent?
    ensures ApplyPatch(e, p) == e
  {
  }

  /** An unchanged edit submits the event's own dates. */
  lemma EditSubmitsShownDates(f: Form, e: CalendarEvent)
    requires e.startDate.At? && Valid(e.startDate.t) && 1000 <= e.startDate.t.year <= 9999
    requires e.startDate.t.second == 0 && e.startDate.t.ms == 0
    requires e.endDate.At? && Valid(e.endDate.t) && 1000 <= e.endDate.t.year <= 9999
    requires e.endDate.t.second == 0 && e.endDate.t.ms == 0
    ensures var p := OnSubmit(PopulateForm(f.(event := Some(e)), e));
      p.startDate == Present(e.startDate) && p.endDate == Present(e.endDate)
  {
    ShownDateReadsBack(e.startDate);
    ShownDateReadsBack(e.endDate);
  }

  /** An unchanged edit submits the event's own id, texts, category, flag and rule, and leaves the rest out. */
  lemma EditSubmitsShownFields(f: Form, e: CalendarEvent)
    requires e.description.Some? && e.location.Some?
    requires e.recurrenceRule.Some? <==> e.isRecurring
    requires e.recurrenceRule.Some? ==> e.recurrenceRule.value.endDate.None? && e.recurrenceRule.value.daysOfWeek.None?
                                        && e.recurrenceRule.value.count.None?
    ensures var p := OnSubmit(PopulateForm(f.(event := Some(e)), e));
      && p.id == Present(e.id) && p.title == Present(e.title)
      && p.description == Present(e.description) && p.location == Present(e.location)
      && p.category == Present(e.category) && p.isRecurring == Present(e.isRecurring)
      && p.recurrenceRule == Present(e.recurrenceRule)
      && p.color.Absent? && p.createdBy.Absent? && p.attendees.Absent?
  {
  }

  /** The date and time texts the form shows for a minute-precise instant submit back as that instant. */
  lemma ShownDateReadsBack(i: Instant)
    requires i.At? && Valid(i.t) && 1000 <= i.t.year <= 9999 && i.t.second == 0 && i.t.ms == 0
    ensures ParseLocal(FormatDate(i) + "T" + FormatTime(i)) == i
  {
    DateTimeTextRoundTrip(i.t);
  }
}
