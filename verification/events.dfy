/**
 The family calendar's event list: the in-memory list operations of the event
 service (its local-storage branch), and the mapping between a stored row
 and an event.

 A `Date` that failed to parse is `InvalidDate`: every comparison with it is
 false and `toISOString` throws on it. A stored timestamp is the instant
 itself; its ISO text form is not modelled.
 */
module Events {
  import opened Common
  import opened Dates

  datatype Instant = At(t: DateTime) | InvalidDate

  /** `a <= b` on two `Date`s: false as soon as either is invalid. */
  predicate AtOrBefore(a: Instant, b: Instant)
  {
    a.At? && b.At? && 0 <= a.t.month < 12 && 0 <= b.t.month < 12 && Ticks(a.t) <= Ticks(b.t)
  }

  /** The values of `EventCategory`. */
  const Work: string := "work"
  const Kids: string := "kids"
  const Personal: string := "personal"
  const Family: string := "family"
  const Sports: string := "sports"
  const School: string := "school"
  const Appointment: string := "appointment"
  const Other: string := "other"

  /** `CATEGORY_COLORS`; `None` for a string that is not a category. */
  function CategoryColor(category: string): (c: Option<string>)
    ensures c.Some? <==> category in [Work, Kids, Personal, Family, Sports, School, Appointment, Other]
  {
    if category == Work then Some("#3b82f6")
    else if category == Kids then Some("#f59e0b")
    else if category == Personal then Some("#8b5cf6")
    else if category == Family then Some("#10b981")
    else if category == Sports then Some("#ef4444")
    else if category == School then Some("#06b6d4")
    else if category == Appointment then Some("#ec4899")
    else if category == Other then Some("#6b7280")
    else None
  }

  datatype RecurrenceRule = RecurrenceRule(
    frequency: string,
    interval: int,
    endDate: Option<Instant>,
    daysOfWeek: Option<seq<int>>,
    count: Option<int>)

  /** An event; `None` is an optional field left undefined. */
  datatype CalendarEvent = CalendarEvent(
    id: string,
    title: string,
    description: Option<string>,
    startDate: Instant,
    endDate: Instant,
    category: string,
    isRecurring: bool,
    recurrenceRule: Option<RecurrenceRule>,
    color: Option<string>,
    location: Option<string>,
    createdBy: Option<string>,
    attendees: Option<seq<string>>)

  // ---------------------------------------------------------------------------
  // Queries
  // ---------------------------------------------------------------------------

  /** The event overlaps `[start, end]`, both ends included. */
  predicate Overlaps(e: CalendarEvent, start: Instant, end: Instant)
  {
    AtOrBefore(e.startDate, end) && AtOrBefore(start, e.endDate)
  }

  /** getEventsByDateRange: the events overlapping `[start, end]`, in list order. */
  function GetEventsByDateRange(events: seq<CalendarEvent>, start: Instant, end: Instant): (r: seq<CalendarEvent>)
    ensures forall i :: 0 <= i < |r| ==> r[i] in events && Overlaps(r[i], start, end)
    ensures forall i :: 0 <= i < |events| && Overlaps(events[i], start, end) ==> events[i] in r
    ensures |r| <= |events|
  {
    Filter(events, (e: CalendarEvent) => Overlaps(e, start, end))
  }

  /** Filtering a list in two parts keeps the parts' order: the range query preserves list order. */
  lemma DateRangeKeepsOrder(a: seq<CalendarEvent>, b: seq<CalendarEvent>, start: Instant, end: Instant)
    ensures GetEventsByDateRange(a + b, start, end) == GetEventsByDateRange(a, start, end) + GetEventsByDateRange(b, start, end)
  {
    FilterAppend(a, b, (e: CalendarEvent) => Overlaps(e, start, end));
  }

  /** An event with an invalid start or end never overlaps any range. */
  lemma InvalidDatesNeverListed(events: seq<CalendarEvent>, start: Instant, end: Instant, e: CalendarEvent)
    requires e.startDate.InvalidDate? || e.endDate.InvalidDate?
    ensures e !in GetEventsByDateRange(events, start, end)
  {
  }

  /** getEventsByCategory: the events of that category, in list order. */
  function GetEventsByCategory(events: seq<CalendarEvent>, category: string): (r: seq<CalendarEvent>)
    ensures forall i :: 0 <= i < |r| ==> r[i] in events && r[i].category == category
    ensures forall i :: 0 <= i < |events| && events[i].category == category ==> events[i] in r
    ensures |r| <= |events|
  {
    Filter(events, (e: CalendarEvent) => e.category == category)
  }

  lemma CategoryKeepsOrder(a: seq<CalendarEvent>, b: seq<CalendarEvent>, category: string)
    ensures GetEventsByCategory(a + b, category) == GetEventsByCategory(a, category) + GetEventsByCategory(b, category)
  {
    FilterAppend(a, b, (e: CalendarEvent) => e.category == category);
  }

  // ---------------------------------------------------------------------------
  // Local list updates
  // ---------------------------------------------------------------------------

  ghost predicate HasId(events: seq<CalendarEvent>, id: string)
  {
    exists i :: 0 <= i < |events| && events[i].id == id
  }

  /** addEvent, local branch: the event with a fresh id (from the id generator) goes at the end. */
  function AddEvent(events: seq<CalendarEvent>, e: CalendarEvent, freshId: string): (r: seq<CalendarEvent>)
    ensures |r| == |events| + 1
    ensures r[..|events|] == events
    ensures r[|events|] == e.(id := freshId)
  {
    events + [e.(id := freshId)]
  }

  /** deleteEvent, local branch: every event with that id goes, the rest keep their order. */
  function DeleteEvent(events: seq<CalendarEvent>, id: string): (r: seq<CalendarEvent>)
    ensures !HasId(r, id)
    ensures forall i :: 0 <= i < |r| ==> r[i] in events
    ensures forall i :: 0 <= i < |events| && events[i].id != id ==> events[i] in r
    ensures !HasId(events, id) ==> r == events
  {
    Filter(events, (e: CalendarEvent) => e.id != id)
  }

  /** Deleting from a list in two parts deletes from each part: the kept events stay in order, duplicates included. */
  lemma DeleteKeepsOrder(a: seq<CalendarEvent>, b: seq<CalendarEvent>, id: string)
    ensures DeleteEvent(a + b, id) == DeleteEvent(a, id) + DeleteEvent(b, id)
  {
    FilterAppend(a, b, (e: CalendarEvent) => e.id != id);
  }

  /** An event without the id is kept in place: deleting from a list that starts with it keeps it at the front. */
  lemma DeleteKeepsOthersFirst(e: CalendarEvent, rest: seq<CalendarEvent>, id: string)
    requires e.id != id
    ensures DeleteEvent([e] + rest, id) == [e] + DeleteEvent(rest, id)
  {
    DeleteKeepsOrder([e], rest, id);
    assert DeleteEvent([e], id) == [e];
  }

  /** Deleting twice is deleting once. */
  lemma DeleteIdempotent(events: seq<CalendarEvent>, id: string)
    ensures DeleteEvent(DeleteEvent(events, id), id) == DeleteEvent(events, id)
  {
  }

  /** Deleting a freshly added event gives back the list before the add. */
  lemma DeleteUndoesAdd(events: seq<CalendarEvent>, e: CalendarEvent, freshId: string)
    requires !HasId(events, freshId)
    ensures DeleteEvent(AddEvent(events, e, freshId), freshId) == events
  {
    FilterAppend(events, [e.(id := freshId)], (x: CalendarEvent) => x.id != freshId);
  }

  /** A key of a `Partial<CalendarEvent>`: left out, or given a value (`None` is an explicit `undefined`). */
  datatype Field<T> = Absent | Present(value: T)

  function Override<T>(current: T, f: Field<T>): T
  {
    if f.Present? then f.value else current
  }

  /** A `Partial<CalendarEvent>`. */
  datatype Patch = Patch(
    id: Field<string>,
    title: Field<string>,
    description: Field<Option<string>>,
    startDate: Field<Instant>,
    endDate: Field<Instant>,
    category: Field<string>,
    isRecurring: Field<bool>,
    recurrenceRule: Field<Option<RecurrenceRule>>,
    color: Field<Option<string>>,
    location: Field<Option<string>>,
    createdBy: Field<Option<string>>,
    attendees: Field<Option<seq<string>>>)

  /** The patch that sets nothing. */
  const EmptyPatch: Patch := Patch(Absent, Absent, Absent, Absent, Absent, Absent, Absent, Absent, Absent, Absent, Absent, Absent)

  /** `{ ...event, ...patch }`: every key the patch carries wins, the others are kept. */
  function ApplyPatch(e: CalendarEvent, p: Patch): (r: CalendarEvent)
    ensures p == EmptyPatch ==> r == e
    ensures p.id.Present? ==> r.id == p.id.value
    ensures p.id.Absent? ==> r.id == e.id
    ensures p.startDate.Present? ==> r.startDate == p.startDate.value
    ensures p.startDate.Absent? ==> r.startDate == e.startDate
    ensures p.endDate.Present? ==> r.endDate == p.endDate.value
    ensures p.endDate.Absent? ==> r.endDate == e.endDate
    ensures p.title.Present? ==> r.title == p.title.value
    ensures p.title.Absent? ==> r.title == e.title
    ensures p.recurrenceRule.Present? ==> r.recurrenceRule == p.recurrenceRule.value
    ensures p.recurrenceRule.Absent? ==> r.recurrenceRule == e.recurrenceRule
    ensures p.description.Present? ==> r.description == p.description.value
    ensures p.description.Absent? ==> r.description == e.description
    ensures p.category.Present? ==> r.category == p.category.value
    ensures p.category.Absent? ==> r.category == e.category
    ensures p.isRecurring.Present? ==> r.isRecurring == p.isRecurring.value
    ensures p.isRecurring.Absent? ==> r.isRecurring == e.isRecurring
    ensures p.color.Present? ==> r.color == p.color.value
    ensures p.color.Absent? ==> r.color == e.color
    ensures p.location.Present? ==> r.location == p.location.value
    ensures p.location.Absent? ==> r.location == e.location
    ensures p.createdBy.Present? ==> r.createdBy == p.createdBy.value
    ensures p.createdBy.Absent? ==> r.createdBy == e.createdBy
    ensures p.attendees.Present? ==> r.attendees == p.attendees.value
    ensures p.attendees.Absent? ==> r.attendees == e.attendees
  {
    CalendarEvent(
      Override(e.id, p.id),
      Override(e.title, p.title),
      Override(e.description, p.description),
      Override(e.startDate, p.startDate),
      Override(e.endDate, p.endDate),
      Override(e.category, p.category),
      Override(e.isRecurring, p.isRecurring),
      Override(e.recurrenceRule, p.recurrenceRule),
      Override(e.color, p.color),
      Override(e.location, p.location),
      Override(e.createdBy, p.createdBy),
      Override(e.attendees, p.attendees))
  }

  /** Applying a patch a second time changes nothing more. */
  lemma ApplyPatchIdempotent(e: CalendarEvent, p: Patch)
    ensures ApplyPatch(ApplyPatch(e, p), p) == ApplyPatch(e, p)
  {
  }

  /** updateEvent, local branch: events with the id are patched, all others kept, in place. */
  function UpdateEvent(events: seq<CalendarEvent>, id: string, p: Patch): (r: seq<CalendarEvent>)
    ensures |r| == |events|
    ensures forall i :: 0 <= i < |events| && events[i].id == id ==> r[i] == ApplyPatch(events[i], p)
    ensures forall i :: 0 <= i < |events| && events[i].id != id ==> r[i] == events[i]
    ensures !HasId(events, id) ==> r == events
  {
    seq(|events|, i requires 0 <= i < |events| => if events[i].id == id then ApplyPatch(events[i], p) else events[i])
  }

  /** Repeating an update changes nothing more, even when the patch renames the event. */
  lemma UpdateIdempotent(events: seq<CalendarEvent>, id: string, p: Patch)
    ensures UpdateEvent(UpdateEvent(events, id, p), id, p) == UpdateEvent(events, id, p)
  {
    var once := UpdateEvent(events, id, p);
    forall i | 0 <= i < |events|
      ensures UpdateEvent(once, id, p)[i] == once[i]
    {
      if events[i].id == id {
        ApplyPatchIdempotent(events[i], p);
      }
    }
  }

  // ---------------------------------------------------------------------------
  // Stored rows
  // ---------------------------------------------------------------------------

  /** The columns of an `events` row other than `id`; `None` is SQL `null`. */
  datatype DbFields = DbFields(
    title: string,
    description: Option<string>,
    startDate: DateTime,
    endDate: DateTime,
    category: string,
    isRecurring: bool,
    recurrenceFrequency: Option<string>,
    recurrenceInterval: Option<int>,
    recurrenceEndDate: Option<DateTime>,
    recurrenceDaysOfWeek: Option<seq<int>>,
    recurrenceCount: Option<int>,
    color: Option<string>,
    location: Option<string>,
    createdBy: Option<string>,
    attendees: Option<seq<string>>)

  /** A row read from the store. */
  datatype DbEvent = DbEvent(id: string, fields: DbFields)

  /** The object written to the store: `id` is set only when it was included. */
  datatype DbWrite = DbWrite(id: Option<string>, fields: DbFields)

  /** `x || undefined` / `x || null` on an optional string: the empty string counts as absent. */
  function NonEmpty(s: Option<string>): (r: Option<string>)
    ensures r.Some? <==> s.Some? && s.value != ""
    ensures r.Some? ==> r == s
  {
    if s.Some? && s.value != "" then s else None
  }

  /** `x || undefined` / `x || null` on an optional number: zero counts as absent. */
  function NonZero(n: Option<int>): (r: Option<int>)
    ensures r.Some? <==> n.Some? && n.value != 0
    ensures r.Some? ==> r == n
  {
    if n.Some? && n.value != 0 then n else None
  }

  /** The recurrence rule a row describes, if any. */
  function RuleOfRow(f: DbFields): (r: Option<RecurrenceRule>)
    ensures r.Some? <==> f.isRecurring && NonEmpty(f.recurrenceFrequency).Some?
    ensures r.Some? ==> r.value.frequency == f.recurrenceFrequency.value
    ensures r.Some? ==> r.value.interval == if NonZero(f.recurrenceInterval).Some? then f.recurrenceInterval.value else 1
    ensures r.Some? ==> r.value.count == NonZero(f.recurrenceCount)
    ensures r.Some? ==> (r.value.endDate.Some? <==> f.recurrenceEndDate.Some?)
    ensures r.Some? && f.recurrenceEndDate.Some? ==> r.value.endDate == Some(At(f.recurrenceEndDate.value))
    ensures r.Some? ==> r.value.daysOfWeek == f.recurrenceDaysOfWeek
  {
    if f.isRecurring && NonEmpty(f.recurrenceFrequency).Some? then
      Some(RecurrenceRule(
        f.recurrenceFrequency.value,
        if NonZero(f.recurrenceInterval).Some? then f.recurrenceInterval.value else 1,
        if f.recurrenceEndDate.Some? then Some(At(f.recurrenceEndDate.value)) else None,
        f.recurrenceDaysOfWeek,
        NonZero(f.recurrenceCount)))
    else None
  }

  /** dbEventToCalendarEvent */
  function DbEventToCalendarEvent(row: DbEvent): (e: CalendarEvent)
    ensures e.id == row.id && e.title == row.fields.title && e.category == row.fields.category
    ensures e.isRecurring == row.fields.isRecurring
    ensures e.startDate == At(row.fields.startDate) && e.endDate == At(row.fields.endDate)
    ensures e.recurrenceRule.Some? <==> row.fields.isRecurring && NonEmpty(row.fields.recurrenceFrequency).Some?
    ensures e.recurrenceRule == RuleOfRow(row.fields)
    ensures e.recurrenceRule.Some? ==> e.recurrenceRule.value.interval != 0
    ensures e.description == NonEmpty(row.fields.description)
    ensures e.color == NonEmpty(row.fields.color)
    ensures e.location == NonEmpty(row.fields.location)
    ensures e.createdBy == NonEmpty(row.fields.createdBy)
    ensures e.attendees == row.fields.attendees
  {
    var f := row.fields;
    CalendarEvent(
      row.id, f.title, NonEmpty(f.description), At(f.startDate), At(f.endDate), f.category,
      f.isRecurring, RuleOfRow(f), NonEmpty(f.color), NonEmpty(f.location), NonEmpty(f.createdBy), f.attendees)
  }

  /** What `toISOString` throws on an invalid date. */
  datatype ConversionError = RangeError

  /** `date.toISOString()` */
  function ToIso(i: Instant): (r: Result<DateTime, ConversionError>)
    ensures r.Ok? <==> i.At?
    ensures r.Ok? ==> r.value == i.t
  {
    match i
    case At(t) => Ok(t)
    case InvalidDate => Err(RangeError)
  }

  /** `recurrenceRule?.endDate?.toISOString() || null` */
  function RuleEndOfEvent(rule: Option<RecurrenceRule>): (r: Result<Option<DateTime>, ConversionError>)
    ensures r.Err? <==> rule.Some? && rule.value.endDate.Some? && rule.value.endDate.value.InvalidDate?
  {
    if rule.Some? && rule.value.endDate.Some? then
      match ToIso(rule.value.endDate.value)
      case Ok(t) => Ok(Some(t))
      case Err(e) => Err(e)
    else Ok(None)
  }

  /** calendarEventToDbEvent: `null` for every absent, empty or zero optional field. */
  function CalendarEventToDbEvent(e: CalendarEvent, includeId: bool): (r: Result<DbWrite, ConversionError>)
    ensures r.Err? <==> e.startDate.InvalidDate? || e.endDate.InvalidDate? || RuleEndOfEvent(e.recurrenceRule).Err?
    ensures r.Ok? ==> (r.value.id.Some? <==> includeId && e.id != "")
    ensures r.Ok? && r.value.id.Some? ==> r.value.id.value == e.id
    ensures r.Ok? ==> r.value.fields.title == e.title && r.value.fields.category == e.category
    ensures r.Ok? ==> r.value.fields.isRecurring == e.isRecurring
    ensures r.Ok? ==> r.value.fields.startDate == e.startDate.t && r.value.fields.endDate == e.endDate.t
    ensures r.Ok? ==> r.value.fields.description == NonEmpty(e.description)
    ensures r.Ok? ==> r.value.fields.color == NonEmpty(e.color)
    ensures r.Ok? ==> r.value.fields.location == NonEmpty(e.location)
    ensures r.Ok? ==> r.value.fields.createdBy == NonEmpty(e.createdBy)
    ensures r.Ok? ==> r.value.fields.attendees == e.attendees
    ensures r.Ok? && e.recurrenceRule.None? ==>
              && r.value.fields.recurrenceEndDate.None? && r.value.fields.recurrenceDaysOfWeek.None?
              && r.value.fields.recurrenceCount.None?
    ensures r.Ok? && e.recurrenceRule.Some? ==>
              && r.value.fields.recurrenceFrequency == NonEmpty(Some(e.recurrenceRule.value.frequency))
              && r.value.fields.recurrenceInterval == NonZero(Some(e.recurrenceRule.value.interval))
              && r.value.fields.recurrenceDaysOfWeek == e.recurrenceRule.value.daysOfWeek
              && r.value.fields.recurrenceCount == NonZero(e.recurrenceRule.value.count)
              && (r.value.fields.recurrenceEndDate.Some? <==> e.recurrenceRule.value.endDate.Some?)
              && (e.recurrenceRule.value.endDate.Some? ==>
                    r.value.fields.recurrenceEndDate == Some(e.recurrenceRule.value.endDate.value.t))
    ensures r.Ok? ==> (r.value.fields.recurrenceFrequency.Some? <==> e.recurrenceRule.Some? && e.recurrenceRule.value.frequency != "")
    ensures r.Ok? ==> (r.value.fields.recurrenceInterval.Some? <==> e.recurrenceRule.Some? && e.recurrenceRule.value.interval != 0)
  {
    match (ToIso(e.startDate), ToIso(e.endDate), RuleEndOfEvent(e.recurrenceRule))
    case (Ok(start), Ok(end), Ok(ruleEnd)) =>
      var rule := e.recurrenceRule;
      var fields := DbFields(
        e.title, NonEmpty(e.description), start, end, e.category, e.isRecurring,
        if rule.Some? then NonEmpty(Some(rule.value.frequency)) else None,
        if rule.Some? then NonZero(Some(rule.value.interval)) else None,
        ruleEnd,
        if rule.Some? then rule.value.daysOfWeek else None,
        if rule.Some? then NonZero(rule.value.count) else None,
        NonEmpty(e.color), NonEmpty(e.location), NonEmpty(e.createdBy), e.attendees);
      Ok(DbWrite(if includeId && e.id != "" then Some(e.id) else None, fields))
    case _ => Err(RangeError)
  }

  /** A recurring row with a frequency and a positive interval keeps both through row -> event -> row. */
  lemma RecurrenceSurvivesRoundTrip(row: DbEvent)
    requires row.fields.isRecurring
    requires row.fields.recurrenceFrequency.Some? && row.fields.recurrenceFrequency.value != ""
    requires row.fields.recurrenceInterval.Some? && row.fields.recurrenceInterval.value > 0
    ensures var w := CalendarEventToDbEvent(DbEventToCalendarEvent(row), true);
      && w.Ok?
      && w.value.fields.recurrenceFrequency == row.fields.recurrenceFrequency
      && w.value.fields.recurrenceInterval == row.fields.recurrenceInterval
  {
  }

  /** A null or zero interval on a recurring row reads as every 1, and is written back as 1. */
  lemma MissingIntervalDefaultsToOne(row: DbEvent)
    requires row.fields.isRecurring
    requires row.fields.recurrenceFrequency.Some? && row.fields.recurrenceFrequency.value != ""
    requires row.fields.recurrenceInterval.None? || row.fields.recurrenceInterval == Some(0)
    ensures DbEventToCalendarEvent(row).recurrenceRule.value.interval == 1
    ensures CalendarEventToDbEvent(DbEventToCalendarEvent(row), true).value.fields.recurrenceInterval == Some(1)
  {
  }

  /**
   A normal row: no empty strings or zeros where `null` is meant; a recurring
   row with a frequency has a non-zero interval; any other row has no
   recurrence columns. The service can write rows outside this set: a rule
   with interval 0 is stored with a `null` interval, which reads back as 1.
   */
  ghost predicate NormalRow(f: DbFields)
  {
    && NonEmpty(f.description) == f.description
    && NonEmpty(f.color) == f.color
    && NonEmpty(f.location) == f.location
    && NonEmpty(f.createdBy) == f.createdBy
    && NonZero(f.recurrenceCount) == f.recurrenceCount
    && if f.isRecurring && NonEmpty(f.recurrenceFrequency).Some? then
         f.recurrenceInterval.Some? && f.recurrenceInterval.value != 0
       else
         && f.recurrenceFrequency.None? && f.recurrenceInterval.None? && f.recurrenceEndDate.None?
         && f.recurrenceDaysOfWeek.None? && f.recurrenceCount.None?
  }

  /** Reading a normal row and writing it back reproduces every column. */
  lemma RowRoundTrip(row: DbEvent)
    requires NormalRow(row.fields)
    ensures CalendarEventToDbEvent(DbEventToCalendarEvent(row), true)
            == Ok(DbWrite(if row.id != "" then Some(row.id) else None, row.fields))
  {
  }

  /**
   An event in the form the service reads: valid dates, no empty strings or
   zeros, and a rule only on a recurring event and only with a frequency.
   */
  ghost predicate NormalEvent(e: CalendarEvent)
  {
    && e.startDate.At? && e.endDate.At?
    && NonEmpty(e.description) == e.description
    && NonEmpty(e.color) == e.color
    && NonEmpty(e.location) == e.location
    && NonEmpty(e.createdBy) == e.createdBy
    && (e.recurrenceRule.Some? ==>
          var rule := e.recurrenceRule.value;
          && e.isRecurring && rule.frequency != ""
          && rule.interval != 0
          && NonZero(rule.count) == rule.count
          && (rule.endDate.Some? ==> rule.endDate.value.At?))
  }

  /** Writing a normal event and reading the row back reproduces the event. */
  lemma EventRoundTrip(e: CalendarEvent)
    requires NormalEvent(e)
    ensures CalendarEventToDbEvent(e, true).Ok?
    ensures DbEventToCalendarEvent(DbEvent(e.id, CalendarEventToDbEvent(e, true).value.fields)) == e
  {
  }
}
