/**
 * app/Http/Controllers/AgentController.php: the agent's dashboard lists and
 * monthly figures, the appointment listing with its date filter, and the
 * wholesale replacement of the agent's weekly availability.
 */
module AgentController {
  import opened Wrappers
  import opened Decimal
  import opened Calendar
  import opened Seqs
  import opened Forms
  import opened AppointmentModel
  import opened AgentSchedule
  import opened Persistence
  import BookingController

  // ---------------------------------------------------------------------
  // index(): upcoming and today lists, monthly stats
  // ---------------------------------------------------------------------

  const UpcomingLimit: int := 5

  predicate UpcomingFor(agentId: int, now: int, a: Appointment)
  {
    a.agentId == agentId && a.scheduledAt > now
  }

  /** The agent's rows scheduled after now, earliest first, at most five (take(5)). */
  function Upcoming(agentId: int, appointments: seq<Appointment>, now: int): (r: seq<Appointment>)
    ensures |r| <= UpcomingLimit
    ensures forall a :: a in r ==> a in appointments && a.agentId == agentId && a.scheduledAt > now
    ensures SortedBy(r, EarlierFirst())
  {
    FirstInOrder(Filter(appointments, (a: Appointment) => UpcomingFor(agentId, now, a)), EarlierFirst(), UpcomingLimit)
  }

  /**
   * The list holds min(5, n) of the n candidates, earliest first, and every
   * candidate left out is scheduled no earlier than every one listed.
   */
  lemma UpcomingAreTheEarliest(agentId: int, appointments: seq<Appointment>, now: int)
    ensures var candidates := Filter(appointments, (a: Appointment) => UpcomingFor(agentId, now, a));
            var r := Upcoming(agentId, appointments, now);
            && |r| == (if |candidates| < UpcomingLimit then |candidates| else UpcomingLimit)
            && multiset(r) <= multiset(candidates)
            && (forall i, j :: 0 <= i < j < |r| ==> r[i].scheduledAt <= r[j].scheduledAt)
            && forall x, y :: x in r && y in multiset(candidates) - multiset(r) ==> x.scheduledAt <= y.scheduledAt
  {
    var candidates := Filter(appointments, (a: Appointment) => UpcomingFor(agentId, now, a));
    var r := Upcoming(agentId, appointments, now);
    forall i, j | 0 <= i < j < |r| ensures r[i].scheduledAt <= r[j].scheduledAt {
      assert EarlierFirst()(r[i], r[j]);
    }
    forall x, y | x in r && y in multiset(candidates) - multiset(r) ensures x.scheduledAt <= y.scheduledAt {
      assert EarlierFirst()(x, y);
    }
  }

  predicate OnDay(agentId: int, date: int, a: Appointment)
  {
    a.agentId == agentId && DateOf(a.scheduledAt) == date
  }

  /** whereDate('scheduled_at', today()): every row of the agent on that day, earliest first. */
  function TodayList(agentId: int, appointments: seq<Appointment>, today: int): (r: seq<Appointment>)
    ensures forall a :: a in r <==> a in appointments && a.agentId == agentId && DateOf(a.scheduledAt) == today
    ensures SortedBy(r, EarlierFirst())
    ensures multiset(r) == multiset(Filter(appointments, (a: Appointment) => OnDay(agentId, today, a)))
  {
    var r := SortBy(Filter(appointments, (a: Appointment) => OnDay(agentId, today, a)), EarlierFirst());
    assert forall a :: a in r <==> a in multiset(r);
    r
  }

  datatype MonthlyStats = MonthlyStats(totalAppointments: int, completedAppointments: int, totalRevenue: int)

  /** Booked in the month (whereMonth('created_at', ...): the month number only, any year). */
  predicate BookedInMonth(agentId: int, month: int, monthOf: int -> int, a: Appointment)
  {
    a.agentId == agentId && monthOf(a.createdAt) == month
  }

  predicate CompletedInMonth(agentId: int, month: int, monthOf: int -> int, a: Appointment)
  {
    BookedInMonth(agentId, month, monthOf, a) && a.status == Completed
  }

  /**
   * monthly_stats for the month number month; monthOf gives the month
   * number (1-12) of an instant.
   */
  function Stats(agentId: int, appointments: seq<Appointment>, month: int, monthOf: int -> int): (s: MonthlyStats)
    ensures 0 <= s.completedAppointments <= s.totalAppointments <= |appointments|
    ensures s.totalAppointments == |Filter(appointments, (a: Appointment) => BookedInMonth(agentId, month, monthOf, a))|
    ensures s.completedAppointments == |Filter(appointments, (a: Appointment) => CompletedInMonth(agentId, month, monthOf, a))|
  {
    var booked := Filter(appointments, (a: Appointment) => BookedInMonth(agentId, month, monthOf, a));
    var completed := Filter(appointments, (a: Appointment) => CompletedInMonth(agentId, month, monthOf, a));
    FilterCountMonotone(appointments, (a: Appointment) => CompletedInMonth(agentId, month, monthOf, a),
                        (a: Appointment) => BookedInMonth(agentId, month, monthOf, a));
    MonthlyStats(|booked|, |completed|, Sum(completed, AmountOf))
  }

  /**
   * The revenue counts completed rows of the agent booked in the month and
   * no others; with non-negative amounts it is at most the agent's revenue
   * over all months.
   */
  lemma StatsRevenue(agentId: int, appointments: seq<Appointment>, month: int, monthOf: int -> int)
    ensures Stats(agentId, appointments, month, monthOf).totalRevenue
            == Sum(Filter(appointments, (a: Appointment) => CompletedInMonth(agentId, month, monthOf, a)), AmountOf)
    ensures forall a :: a in Filter(appointments, (a: Appointment) => CompletedInMonth(agentId, month, monthOf, a)) <==>
              a in appointments && a.agentId == agentId && a.status == Completed && monthOf(a.createdAt) == month
    ensures (forall a :: a in appointments ==> a.amount >= 0) ==>
              0 <= Stats(agentId, appointments, month, monthOf).totalRevenue
                <= Sum(Filter(appointments, (a: Appointment) => a.agentId == agentId && a.status == Completed), AmountOf)
  {
    if forall a :: a in appointments ==> a.amount >= 0 {
      SumFilterMonotone(appointments, (a: Appointment) => CompletedInMonth(agentId, month, monthOf, a),
                        (a: Appointment) => a.agentId == agentId && a.status == Completed, AmountOf);
    }
  }

  // ---------------------------------------------------------------------
  // show(): the optional date filter
  // ---------------------------------------------------------------------

  /**
   * Whether a row passes the date filter: a falsy date applies no filter; a
   * date keeps the rows on that day; any other value matches no row.
   */
  predicate PassesDateFilter(date: Input, a: Appointment)
  {
    !Truthy(date) || (date.Moment? && DateOf(a.scheduledAt) == DateOf(date.t))
  }

  predicate ListedFor(agentId: int, date: Input, a: Appointment)
  {
    a.agentId == agentId && PassesDateFilter(date, a)
  }

  /** The rows show() lists (before pagination), earliest first. */
  function Show(agentId: int, appointments: seq<Appointment>, date: Input): (r: seq<Appointment>)
    ensures SortedBy(r, EarlierFirst())
    ensures multiset(r) == multiset(Filter(appointments, (a: Appointment) => ListedFor(agentId, date, a)))
  {
    SortBy(Filter(appointments, (a: Appointment) => ListedFor(agentId, date, a)), EarlierFirst())
  }

  lemma ShowByDate(agentId: int, appointments: seq<Appointment>, date: Input)
    ensures date.Moment? ==> forall a :: a in Show(agentId, appointments, date) <==>
              a in appointments && a.agentId == agentId && DateOf(a.scheduledAt) == DateOf(date.t)
    ensures !Truthy(date) ==> forall a :: a in Show(agentId, appointments, date) <==>
              a in appointments && a.agentId == agentId
    ensures forall i, j :: 0 <= i < j < |Show(agentId, appointments, date)| ==>
              Show(agentId, appointments, date)[i].scheduledAt <= Show(agentId, appointments, date)[j].scheduledAt
  {
    var r := Show(agentId, appointments, date);
    forall i, j | 0 <= i < j < |r| ensures r[i].scheduledAt <= r[j].scheduledAt {
      assert EarlierFirst()(r[i], r[j]);
    }
  }

  // ---------------------------------------------------------------------
  // update(): replace the agent's weekly availability
  // ---------------------------------------------------------------------

  /** One submitted entry of availabilities.*. */
  datatype Entry = Entry(dayOfWeek: Input, startTime: Input, endTime: Input, isAvailable: Input)

  /**
   * The availabilities field: absent, a value that is not a list (null, a
   * blank or non-blank string, a number, ...), or a list of entries.
   */
  datatype EntryList = Absent | NotAList(value: Input) | Entries(entries: seq<Entry>)

  function ClockOf(v: Input): Option<int>
  {
    if v.Text? then ParseClock(v.s) else None
  }

  /** The rules of one entry; prefix is "availabilities.<index>.". */
  function EntryRules(prefix: string, e: Entry): seq<(string, seq<(string, bool)>)>
  {
    [(prefix + "day_of_week", DayRules(e.dayOfWeek)),
     (prefix + "start_time", StartRules(e.startTime)),
     (prefix + "end_time", EndRules(e.startTime, e.endTime)),
     (prefix + "is_available", AvailableRules(e.isAvailable))]
  }

  /** day_of_week: required|in:monday,...,sunday. */
  function DayRules(v: Input): seq<(string, bool)>
  {
    [("required", Filled(v)), ("in", v.Text? && IsWeekday(v.s))]
  }

  /** start_time: required|date_format:H:i. */
  function StartRules(v: Input): seq<(string, bool)>
  {
    [("required", Filled(v)), ("date_format", ClockOf(v).Some?)]
  }

  /**
   * end_time: required|date_format:H:i|after:start_time. With date_format
   * set, the comparison looks up start_time's value: it passes when that is
   * missing or null, and fails when start_time holds a text that is not H:i.
   */
  function EndRules(start: Input, end: Input): seq<(string, bool)>
  {
    [("required", Filled(end)), ("date_format", ClockOf(end).Some?),
     ("after", ClockOf(end).Some? && (StartUnset(start) || (ClockOf(start).Some? && ClockOf(end).value > ClockOf(start).value)))]
  }

  /** No start_time value to compare with: the field is left out or null. */
  predicate StartUnset(start: Input)
  {
    start.Missing? || start.Null?
  }

  /** is_available: boolean, unchecked when left out. */
  function AvailableRules(v: Input): seq<(string, bool)>
  {
    if v.Missing? then [] else [("boolean", BooleanLike(v))]
  }

  function EntriesRules(es: seq<Entry>, index: nat): seq<(string, seq<(string, bool)>)>
    decreases |es|
  {
    if es == [] then []
    else EntryRules("availabilities." + NatToString(index) + ".", es[0]) + EntriesRules(es[1..], index + 1)
  }

  /**
   * update()'s rules: a non-empty list (required|array), then each entry's
   * rules. required refuses a null or blank value and an empty list, and
   * accepts any other value, which array then refuses unless it is a list.
   */
  function UpdateRules(form: EntryList): seq<(string, seq<(string, bool)>)>
  {
    [("availabilities", [("required", (form.NotAList? && Filled(form.value)) || (form.Entries? && |form.entries| > 0)), ("array", form.Entries?)])]
    + (if form.Entries? then EntriesRules(form.entries, 0) else [])
  }

  /** An entry the rules accept: a weekday name and two H:i times, the end after the start. */
  predicate EntryAcceptable(e: Entry)
  {
    && e.dayOfWeek.Text? && IsWeekday(e.dayOfWeek.s)
    && ClockOf(e.startTime).Some? && ClockOf(e.endTime).Some?
    && ClockOf(e.endTime).value > ClockOf(e.startTime).value
    && (e.isAvailable.Missing? || BooleanLike(e.isAvailable))
  }

  predicate UpdateAcceptable(form: EntryList)
  {
    form.Entries? && |form.entries| > 0 && forall i :: 0 <= i < |form.entries| ==> EntryAcceptable(form.entries[i])
  }

  lemma ParsedClockIsFilled(v: Input)
    requires ClockOf(v).Some?
    ensures Filled(v)
  {
    assert IsDigit(v.s[0]);
  }

  lemma DayRulesMeaning(v: Input)
    ensures Passes(DayRules(v)) <==> v.Text? && IsWeekday(v.s)
  {
    assert DayRules(v)[0].1 == Filled(v) && DayRules(v)[1].1 == (v.Text? && IsWeekday(v.s));
    if v.Text? && IsWeekday(v.s) {
      assert !IsTrimmable(v.s[0]);
    }
  }

  lemma StartRulesMeaning(v: Input)
    ensures Passes(StartRules(v)) <==> ClockOf(v).Some?
  {
    assert StartRules(v)[0].1 == Filled(v) && StartRules(v)[1].1 == ClockOf(v).Some?;
    if ClockOf(v).Some? { ParsedClockIsFilled(v); }
  }

  lemma EndRulesMeaning(start: Input, end: Input)
    ensures Passes(EndRules(start, end)) <==>
      ClockOf(end).Some? && (start.Missing? || start.Null? || (ClockOf(start).Some? && ClockOf(end).value > ClockOf(start).value))
  {
    var rules := EndRules(start, end);
    assert rules[0].1 == Filled(end) && rules[1].1 == ClockOf(end).Some?;
    assert rules[2].1 == (ClockOf(end).Some? && (StartUnset(start) || (ClockOf(start).Some? && ClockOf(end).value > ClockOf(start).value)));
    if ClockOf(end).Some? { ParsedClockIsFilled(end); }
  }

  /**
   * A non-blank start_time that is not H:i (such as "abc") makes both fields
   * fail: start_time on date_format and end_time on after, however good
   * end_time is.
   */
  lemma UnreadableStartFailsBoth(start: Input, end: Input)
    requires Filled(start) && ClockOf(start).None? && ClockOf(end).Some?
    ensures FirstFailed(StartRules(start)) == Some("date_format")
    ensures FirstFailed(EndRules(start, end)) == Some("after")
  {
    var sr, er := StartRules(start), EndRules(start, end);
    FirstFailedAt(sr, 1);
    ParsedClockIsFilled(end);
    FirstFailedAt(er, 2);
  }

  /** A null or blank availabilities value fails required, not array. */
  lemma BlankListFailsRequired(v: Input)
    requires !Filled(v)
    ensures Violations(UpdateRules(NotAList(v))) == [Violation("availabilities", "required")]
  {
    var rules := UpdateRules(NotAList(v));
    FirstFailedAt(rules[0].1, 0);
    assert |rules| == 1;
  }

  lemma AvailableRulesMeaning(v: Input)
    ensures Passes(AvailableRules(v)) <==> v.Missing? || BooleanLike(v)
  {
    if !v.Missing? { assert AvailableRules(v)[0].1 == BooleanLike(v); }
  }

  lemma EntryRulesMeaning(prefix: string, e: Entry)
    ensures PassesAll(EntryRules(prefix, e)) <==> EntryAcceptable(e)
  {
    DayRulesMeaning(e.dayOfWeek);
    StartRulesMeaning(e.startTime);
    EndRulesMeaning(e.startTime, e.endTime);
    AvailableRulesMeaning(e.isAvailable);
    var rules := EntryRules(prefix, e);
    assert PassesAll(rules) <==> Passes(rules[0].1) && Passes(rules[1].1) && Passes(rules[2].1) && Passes(rules[3].1);
  }

  lemma {:induction false} EntriesRulesMeaning(es: seq<Entry>, index: nat)
    ensures PassesAll(EntriesRules(es, index)) <==> forall i :: 0 <= i < |es| ==> EntryAcceptable(es[i])
    decreases |es|
  {
    if es != [] {
      var prefix := "availabilities." + NatToString(index) + ".";
      PassesAllAppend(EntryRules(prefix, es[0]), EntriesRules(es[1..], index + 1));
      EntryRulesMeaning(prefix, es[0]);
      EntriesRulesMeaning(es[1..], index + 1);
      assert forall i :: 1 <= i < |es| ==> es[i] == es[1..][i - 1];
    }
  }

  lemma UpdateRulesMeaning(form: EntryList)
    ensures Violations(UpdateRules(form)) == [] <==> UpdateAcceptable(form)
  {
    var head: seq<(string, seq<(string, bool)>)> := [("availabilities", [("required", (form.NotAList? && Filled(form.value)) || (form.Entries? && |form.entries| > 0)),
                                     ("array", form.Entries?)])];
    var tail: seq<(string, seq<(string, bool)>)> := if form.Entries? then EntriesRules(form.entries, 0) else [];
    assert UpdateRules(form) == head + tail;
    PassesAllAppend(head, tail);
    assert PassesAll(head) <==> form.Entries? && |form.entries| > 0 by {
      assert head[0].1[0].1 == ((form.NotAList? && Filled(form.value)) || (form.Entries? && |form.entries| > 0));
      assert head[0].1[1].1 == form.Entries?;
    }
    if form.Entries? {
      EntriesRulesMeaning(form.entries, 0);
    }
  }

  /** The row create() stores for an entry; is_available defaults to true. */
  function Row(id: int, agentId: int, e: Entry): (a: Availability)
    requires EntryAcceptable(e)
    ensures WellFormedRule(a)
  {
    Availability(id, agentId, e.dayOfWeek.s, ClockOf(e.startTime).value, ClockOf(e.endTime).value,
                 if e.isAvailable.Missing? then true else AsBool(e.isAvailable))
  }

  /** The rows the loop creates for es, with consecutive ids from firstId. */
  function Rows(firstId: int, agentId: int, es: seq<Entry>): (r: seq<Availability>)
    requires forall i :: 0 <= i < |es| ==> EntryAcceptable(es[i])
    ensures |r| == |es|
  {
    if es == [] then []
    else Rows(firstId, agentId, es[..|es| - 1]) + [Row(firstId + |es| - 1, agentId, es[|es| - 1])]
  }

  /** The i-th row is the row of the i-th entry, with id firstId + i. */
  lemma {:induction false} RowsAt(firstId: int, agentId: int, es: seq<Entry>)
    requires forall i :: 0 <= i < |es| ==> EntryAcceptable(es[i])
    ensures forall i :: 0 <= i < |es| ==> Rows(firstId, agentId, es)[i] == Row(firstId + i, agentId, es[i])
  {
    if es != [] {
      var init := es[..|es| - 1];
      RowsAt(firstId, agentId, init);
      assert forall i :: 0 <= i < |init| ==> init[i] == es[i];
    }
  }

  lemma RowAt(firstId: int, agentId: int, es: seq<Entry>, i: int)
    requires forall i :: 0 <= i < |es| ==> EntryAcceptable(es[i])
    requires 0 <= i < |es|
    ensures Rows(firstId, agentId, es)[i] == Row(firstId + i, agentId, es[i])
  {
    RowsAt(firstId, agentId, es);
  }

  /**
   * update(): validates the list; deletes all of the agent's rows, then
   * creates one row per entry, in the submitted order. The rows of other
   * agents stay as they were.
   */
  method Update(db: Database, agentId: int, form: EntryList) returns (r: Result<(), seq<Violation>>)
    requires db.Valid()
    modifies db
    ensures db.Valid()
    ensures db.users == old(db.users) && db.services == old(db.services)
    ensures db.appointments == old(db.appointments) && db.blockedTimes == old(db.blockedTimes)
    ensures db.nextAppointmentId == old(db.nextAppointmentId) && db.nextBlockedTimeId == old(db.nextBlockedTimeId)
    ensures r.Failure? <==> !UpdateAcceptable(form)
    ensures r.Failure? ==> r.error == Violations(UpdateRules(form))
                           && db.availabilities == old(db.availabilities)
                           && db.nextAvailabilityId == old(db.nextAvailabilityId)
    ensures r.Success? ==>
      && db.availabilities == Filter(old(db.availabilities), (a: Availability) => OtherAgent(agentId, a))
                              + Rows(old(db.nextAvailabilityId), agentId, form.entries)
      && db.nextAvailabilityId == old(db.nextAvailabilityId) + |form.entries|
  {
    UpdateRulesMeaning(form);
    var errors := Violations(UpdateRules(form));
    if errors != [] {
      return Failure(errors);
    }
    var firstId := db.nextAvailabilityId;
    db.DeleteAvailabilitiesOf(agentId);
    CreateRows(db, agentId, form.entries);
    r := Success(());
  }

  /** The foreach over the entries: one create() per entry, in order. */
  method CreateRows(db: Database, agentId: int, entries: seq<Entry>)
    requires db.Valid()
    requires forall i :: 0 <= i < |entries| ==> EntryAcceptable(entries[i])
    modifies db
    ensures db.Valid()
    ensures db.availabilities == old(db.availabilities) + Rows(old(db.nextAvailabilityId), agentId, entries)
    ensures db.nextAvailabilityId == old(db.nextAvailabilityId) + |entries|
    ensures db.users == old(db.users) && db.services == old(db.services)
    ensures db.appointments == old(db.appointments) && db.blockedTimes == old(db.blockedTimes)
    ensures db.nextAppointmentId == old(db.nextAppointmentId) && db.nextBlockedTimeId == old(db.nextBlockedTimeId)
  {
    var firstId := db.nextAvailabilityId;
    ghost var kept := db.availabilities;
    ghost var all := Rows(firstId, agentId, entries);
    for i := 0 to |entries|
      invariant db.availabilities == kept + all[..i]
      invariant db.nextAvailabilityId == firstId + i
      invariant db.users == old(db.users) && db.services == old(db.services)
      invariant db.appointments == old(db.appointments) && db.blockedTimes == old(db.blockedTimes)
      invariant db.nextAppointmentId == old(db.nextAppointmentId) && db.nextBlockedTimeId == old(db.nextBlockedTimeId)
      invariant db.Valid()
    {
      var row := Row(db.nextAvailabilityId, agentId, entries[i]);
      RowAt(firstId, agentId, entries, i);
      TakeSnoc(all, i);
      db.InsertAvailability(row);
    }
    assert all[..|entries|] == all;
  }

  /** Every created row belongs to the agent. */
  lemma RowsOfAgent(firstId: int, agentId: int, es: seq<Entry>)
    requires forall i :: 0 <= i < |es| ==> EntryAcceptable(es[i])
    ensures forall x :: x in Rows(firstId, agentId, es) ==> x.agentId == agentId
  {
    RowsAt(firstId, agentId, es);
  }

  /**
   * After an update the agent's rows are exactly the submitted entries, in
   * order, each with its day, its times and is_available (true when left
   * out); the other agents' rows are those they had before.
   */
  lemma UpdateReplacesOnlyTheAgentsRows(before: seq<Availability>, firstId: int, agentId: int, entries: seq<Entry>)
    requires forall i :: 0 <= i < |entries| ==> EntryAcceptable(entries[i])
    ensures var table := Filter(before, (a: Availability) => OtherAgent(agentId, a)) + Rows(firstId, agentId, entries);
      && Filter(table, (a: Availability) => a.agentId == agentId) == Rows(firstId, agentId, entries)
      && Filter(table, (a: Availability) => OtherAgent(agentId, a)) == Filter(before, (a: Availability) => OtherAgent(agentId, a))
  {
    var kept := Filter(before, (a: Availability) => OtherAgent(agentId, a));
    var rows := Rows(firstId, agentId, entries);
    RowsOfAgent(firstId, agentId, entries);
    FilterAppend(kept, rows, (a: Availability) => a.agentId == agentId);
    FilterAppend(kept, rows, (a: Availability) => OtherAgent(agentId, a));
    FilterNone(kept, (a: Availability) => a.agentId == agentId);
    FilterAll(rows, (a: Availability) => a.agentId == agentId);
    FilterAll(kept, (a: Availability) => OtherAgent(agentId, a));
    FilterNone(rows, (a: Availability) => OtherAgent(agentId, a));
  }

  /** Each created row carries its entry's day, times and is_available, true when the entry leaves it out. */
  lemma RowsFollowEntries(firstId: int, agentId: int, entries: seq<Entry>)
    requires forall i :: 0 <= i < |entries| ==> EntryAcceptable(entries[i])
    ensures forall i :: 0 <= i < |entries| ==>
      var row := Rows(firstId, agentId, entries)[i];
      && row.id == firstId + i && row.agentId == agentId
      && row.dayOfWeek == entries[i].dayOfWeek.s
      && row.startTime == ClockOf(entries[i].startTime).value
      && row.endTime == ClockOf(entries[i].endTime).value
      && row.isAvailable == (entries[i].isAvailable.Missing? || AsBool(entries[i].isAvailable))
  {
    RowsAt(firstId, agentId, entries);
  }

  /**
   * The slot listing then uses the first submitted available entry for the
   * weekday: the other agents' rows cannot be picked.
   */
  lemma UpdateDecidesTheRule(before: seq<Availability>, firstId: int, agentId: int, entries: seq<Entry>, weekday: string)
    requires forall i :: 0 <= i < |entries| ==> EntryAcceptable(entries[i])
    ensures BookingController.SelectRule(Filter(before, (a: Availability) => OtherAgent(agentId, a)) + Rows(firstId, agentId, entries),
                                         agentId, weekday)
         == BookingController.SelectRule(Rows(firstId, agentId, entries), agentId, weekday)
  {
    var kept := Filter(before, (a: Availability) => OtherAgent(agentId, a));
    assert forall i :: 0 <= i < |kept| ==> kept[i].agentId != agentId;
    RowsOfAgent(firstId, agentId, entries);
    FirstSkips(kept, Rows(firstId, agentId, entries), (a: Availability) => BookingController.RuleFor(agentId, weekday, a));
  }
}
