/**
 * app/Http/Controllers/BookingController.php: the slot listing for one
 * agent, one service and one date.
 *
 * generateAvailableSlots walks a 30-minute grid from the start of the
 * agent's working window and keeps each candidate [t, t + duration) that
 * ends inside the window and overlaps no pending or confirmed appointment
 * and no blocked interval. show() picks the rule, the appointments and the
 * blocked intervals it is given.
 */
module BookingController {
  import opened Wrappers
  import opened Decimal
  import opened Calendar
  import opened Seqs
  import opened Forms
  import opened UserModel
  import opened ServiceModel
  import opened AppointmentModel
  import opened AgentSchedule

  /** Candidate starts are 1800 seconds (30 minutes) apart. */
  const Stride: int := 1800

  /** One entry of available_slots; start and end are instants in seconds. */
  datatype Slot = Slot(start: int, end: int, displayTime: string)

  // ---------------------------------------------------------------------
  // display_time: date('g:i A', $time)
  // ---------------------------------------------------------------------

  /** The 12-hour clock label "g:i A" of an instant: hour 1..12 without a leading zero, two-digit minutes, AM or PM. */
  function DisplayTime(t: int): string
  {
    var s := TimeOfDay(t);
    var hour := s / 3600;
    var minute := (s % 3600) / 60;
    var hour12 := if hour % 12 == 0 then 12 else hour % 12;
    NatToString(hour12) + ":" + TwoDigits(minute) + (if hour < 12 then " AM" else " PM")
  }

  /** Reads a "g:i A" label back into minutes since midnight. */
  function ParseDisplayTime(text: string): Option<int>
  {
    if |text| < 7 then None
    else
      var suffix, clock := text[|text| - 3..], text[..|text| - 3];
      if (suffix != " AM" && suffix != " PM") || clock[|clock| - 3] != ':' then None
      else
        match (ParseNat(clock[..|clock| - 3]), ParseNat(clock[|clock| - 2..]))
        case (Some(h), Some(m)) =>
          if 1 <= h <= 12 && m < 60 then Some((h % 12 + (if suffix == " PM" then 12 else 0)) * 60 + m) else None
        case _ => None
  }

  /** A label built from an hour 1..12, minutes under 60 and a suffix reads back as that minute of the day. */
  lemma ParseLabel(hour12: nat, minute: nat, pm: bool)
    requires 1 <= hour12 <= 12 && minute < 60
    ensures ParseDisplayTime(NatToString(hour12) + ":" + TwoDigits(minute) + (if pm then " PM" else " AM"))
         == Some((hour12 % 12 + (if pm then 12 else 0)) * 60 + minute)
  {
    var hs, ms := NatToString(hour12), TwoDigits(minute);
    var suffix := if pm then " PM" else " AM";
    var text := hs + ":" + ms + suffix;
    assert 1 <= |hs| <= 2 by {
      if hour12 >= 10 { assert NatToString(hour12) == NatToString(hour12 / 10) + [DigitChar(hour12 % 10)]; }
    }
    var clock := hs + ":" + ms;
    assert text[|text| - 3..] == suffix && text[..|text| - 3] == clock;
    assert clock[|clock| - 3] == ':';
    assert clock[..|clock| - 3] == hs && clock[|clock| - 2..] == ms;
    ParseNatOfNatToString(hour12);
  }

  /** The hour, its 12-hour form and the minute that DisplayTime derives name the minute of the day. */
  lemma ClockParts(s: int)
    requires 0 <= s < 86400
    ensures var hour := s / 3600;
            var hour12 := if hour % 12 == 0 then 12 else hour % 12;
            && 0 <= hour < 24 && 1 <= hour12 <= 12 && (s % 3600) / 60 < 60
            && (hour12 % 12 + (if hour < 12 then 0 else 12)) * 60 + (s % 3600) / 60 == s / 60
  {
  }

  /** The label names the minute of the day in which t falls. */
  lemma DisplayTimeRoundTrip(t: int)
    ensures ParseDisplayTime(DisplayTime(t)) == Some(TimeOfDay(t) / 60)
  {
    var s := TimeOfDay(t);
    var hour := s / 3600;
    var hour12 := if hour % 12 == 0 then 12 else hour % 12;
    var minute := (s % 3600) / 60;
    var text := NatToString(hour12) + ":" + TwoDigits(minute) + (if hour < 12 then " AM" else " PM");
    assert ParseDisplayTime(text) == Some(s / 60) by {
      ClockParts(s);
      ParseLabel(hour12, minute, hour >= 12);
    }
  }



  // ---------------------------------------------------------------------
  // The specification of generateAvailableSlots
  // ---------------------------------------------------------------------

  /** The overlap test of both conflict loops: [t, t + d) against [s, e). */
  predicate Overlaps(t: int, d: int, s: int, e: int)
  {
    t < e && t + d > s
  }

  predicate HitsAppointment(t: int, d: int, appointments: seq<Appointment>)
  {
    exists i :: 0 <= i < |appointments| && Overlaps(t, d, appointments[i].scheduledAt, appointments[i].endsAt)
  }

  predicate HitsBlocked(t: int, d: int, blocked: seq<BlockedTime>)
  {
    exists i :: 0 <= i < |blocked| && Overlaps(t, d, blocked[i].startTime, blocked[i].endTime)
  }

  predicate IsFree(t: int, d: int, appointments: seq<Appointment>, blocked: seq<BlockedTime>)
  {
    !HitsAppointment(t, d, appointments) && !HitsBlocked(t, d, blocked)
  }

  function MakeSlot(t: int, d: int): Slot
  {
    Slot(t, t + d, DisplayTime(t))
  }

  /** The free slots of the grid t, t + 1800, ... whose end does not pass windowEnd. */
  function SlotsFrom(t: int, windowEnd: int, d: int, appointments: seq<Appointment>, blocked: seq<BlockedTime>): seq<Slot>
    decreases windowEnd - d - t
  {
    if t + d > windowEnd then []
    else (if IsFree(t, d, appointments, blocked) then [MakeSlot(t, d)] else [])
         + SlotsFrom(t + Stride, windowEnd, d, appointments, blocked)
  }

  function WindowStart(date: int, rule: Availability): int { StartOfDay(date) + rule.startTime }

  function WindowEnd(date: int, rule: Availability): int { StartOfDay(date) + rule.endTime }

  /** What generateAvailableSlots returns for a date (a day number) and a rule. */
  function AvailableSlots(date: int, rule: Availability, serviceDuration: int,
                          appointments: seq<Appointment>, blocked: seq<BlockedTime>): seq<Slot>
  {
    SlotsFrom(WindowStart(date, rule), WindowEnd(date, rule), serviceDuration * 60, appointments, blocked)
  }

  /** t is the start of one of the slots. */
  predicate Offered(x: int, slots: seq<Slot>)
  {
    exists i :: 0 <= i < |slots| && slots[i].start == x
  }

  /** A grid point from t that fits before windowEnd and overlaps nothing. */
  predicate Candidate(x: int, t: int, windowEnd: int, d: int, appointments: seq<Appointment>, blocked: seq<BlockedTime>)
  {
    t <= x && (x - t) % Stride == 0 && x + d <= windowEnd && IsFree(x, d, appointments, blocked)
  }

  // ---------------------------------------------------------------------
  // generateAvailableSlots
  // ---------------------------------------------------------------------

  method GenerateAvailableSlots(date: int, availability: Availability, serviceDuration: int,
                                existingAppointments: seq<Appointment>, blockedTimes: seq<BlockedTime>)
    returns (slots: seq<Slot>)
    ensures slots == AvailableSlots(date, availability, serviceDuration, existingAppointments, blockedTimes)
  {
    slots := [];
    var startTime := StartOfDay(date) + availability.startTime;
    var endTime := StartOfDay(date) + availability.endTime;
    var slotDuration := serviceDuration * 60;
    ghost var all := SlotsFrom(startTime, endTime, slotDuration, existingAppointments, blockedTimes);
    var time := startTime;
    while time + slotDuration <= endTime
      invariant slots + SlotsFrom(time, endTime, slotDuration, existingAppointments, blockedTimes) == all
      decreases endTime - slotDuration - time
    {
      var hasConflict := false;
      var i := 0;
      while i < |existingAppointments|
        invariant 0 <= i <= |existingAppointments|
        invariant forall j :: 0 <= j < i ==>
          !Overlaps(time, slotDuration, existingAppointments[j].scheduledAt, existingAppointments[j].endsAt)
      {
        var appointment := existingAppointments[i];
        if time < appointment.endsAt && time + slotDuration > appointment.scheduledAt {
          hasConflict := true;
          break;
        }
        i := i + 1;
      }
      assert hasConflict == HitsAppointment(time, slotDuration, existingAppointments);

      if !hasConflict {
        var k := 0;
        while k < |blockedTimes|
          invariant 0 <= k <= |blockedTimes|
          invariant forall j :: 0 <= j < k ==>
            !Overlaps(time, slotDuration, blockedTimes[j].startTime, blockedTimes[j].endTime)
        {
          var blocked := blockedTimes[k];
          if time < blocked.endTime && time + slotDuration > blocked.startTime {
            hasConflict := true;
            break;
          }
          k := k + 1;
        }
        assert hasConflict == HitsBlocked(time, slotDuration, blockedTimes);
      }

      if !hasConflict {
        slots := slots + [Slot(time, time + slotDuration, DisplayTime(time))];
      }
      time := time + Stride;
    }
  }

  // ---------------------------------------------------------------------
  // Properties of the slot list
  // ---------------------------------------------------------------------

  /** A slot that a walk of the grid from t may list. */
  predicate SoundSlot(s: Slot, t: int, windowEnd: int, d: int, appointments: seq<Appointment>, blocked: seq<BlockedTime>)
  {
    && Candidate(s.start, t, windowEnd, d, appointments, blocked)
    && s.end == s.start + d
    && s.displayTime == DisplayTime(s.start)
  }

  /** A slot the walk from the next grid point may list, the walk from t may list too. */
  lemma SoundSlotStep(s: Slot, t: int, windowEnd: int, d: int, appointments: seq<Appointment>, blocked: seq<BlockedTime>)
    requires SoundSlot(s, t + Stride, windowEnd, d, appointments, blocked)
    ensures SoundSlot(s, t, windowEnd, d, appointments, blocked)
  {
    assert s.start - t == (s.start - (t + Stride)) + Stride;
  }

  lemma {:induction false} SlotsFromSound(t: int, windowEnd: int, d: int, appointments: seq<Appointment>, blocked: seq<BlockedTime>)
    ensures forall i :: 0 <= i < |SlotsFrom(t, windowEnd, d, appointments, blocked)| ==>
      SoundSlot(SlotsFrom(t, windowEnd, d, appointments, blocked)[i], t, windowEnd, d, appointments, blocked)
    decreases windowEnd - d - t
  {
    if t + d <= windowEnd {
      SlotsFromSound(t + Stride, windowEnd, d, appointments, blocked);
      var all := SlotsFrom(t, windowEnd, d, appointments, blocked);
      var head := if IsFree(t, d, appointments, blocked) then [MakeSlot(t, d)] else [];
      var rest := SlotsFrom(t + Stride, windowEnd, d, appointments, blocked);
      assert all == head + rest;
      forall i | 0 <= i < |all|
        ensures SoundSlot(all[i], t, windowEnd, d, appointments, blocked)
      {
        if i >= |head| {
          assert all[i] == rest[i - |head|];
          SoundSlotStep(rest[i - |head|], t, windowEnd, d, appointments, blocked);
        }
      }
    }
  }

  lemma {:induction false} SlotsFromIncreasing(t: int, windowEnd: int, d: int, appointments: seq<Appointment>, blocked: seq<BlockedTime>)
    ensures forall i, j :: 0 <= i < j < |SlotsFrom(t, windowEnd, d, appointments, blocked)| ==>
      SlotsFrom(t, windowEnd, d, appointments, blocked)[i].start < SlotsFrom(t, windowEnd, d, appointments, blocked)[j].start
    decreases windowEnd - d - t
  {
    if t + d <= windowEnd {
      SlotsFromIncreasing(t + Stride, windowEnd, d, appointments, blocked);
      SlotsFromSound(t + Stride, windowEnd, d, appointments, blocked);
    }
  }

  /** Nothing extra: every offered start is a candidate. */
  lemma OfferedIsCandidate(x: int, t: int, windowEnd: int, d: int, appointments: seq<Appointment>, blocked: seq<BlockedTime>)
    requires Offered(x, SlotsFrom(t, windowEnd, d, appointments, blocked))
    ensures Candidate(x, t, windowEnd, d, appointments, blocked)
  {
    SlotsFromSound(t, windowEnd, d, appointments, blocked);
    var all := SlotsFrom(t, windowEnd, d, appointments, blocked);
    var i :| 0 <= i < |all| && all[i].start == x;
  }

  /** Nothing missing: every candidate start is offered. */
  lemma {:induction false} CandidateIsOffered(x: int, t: int, windowEnd: int, d: int, appointments: seq<Appointment>, blocked: seq<BlockedTime>)
    requires Candidate(x, t, windowEnd, d, appointments, blocked)
    ensures Offered(x, SlotsFrom(t, windowEnd, d, appointments, blocked))
    decreases windowEnd - d - t
  {
    var all := SlotsFrom(t, windowEnd, d, appointments, blocked);
    var head := if IsFree(t, d, appointments, blocked) then [MakeSlot(t, d)] else [];
    var rest := SlotsFrom(t + Stride, windowEnd, d, appointments, blocked);
    assert all == head + rest;
    if x == t {
      assert all[0].start == x;
    } else {
      assert (x - (t + Stride)) % Stride == 0 && t + Stride <= x by {
        assert x - (t + Stride) == (x - t) - Stride;
      }
      CandidateIsOffered(x, t + Stride, windowEnd, d, appointments, blocked);
      var i :| 0 <= i < |rest| && rest[i].start == x;
      assert all[|head| + i].start == x;
    }
  }

  /** A start is offered exactly when it is a candidate: nothing missing, nothing extra. */
  lemma SlotsFromExact(x: int, t: int, windowEnd: int, d: int, appointments: seq<Appointment>, blocked: seq<BlockedTime>)
    ensures Offered(x, SlotsFrom(t, windowEnd, d, appointments, blocked)) <==> Candidate(x, t, windowEnd, d, appointments, blocked)
  {
    if Offered(x, SlotsFrom(t, windowEnd, d, appointments, blocked)) {
      OfferedIsCandidate(x, t, windowEnd, d, appointments, blocked);
    }
    if Candidate(x, t, windowEnd, d, appointments, blocked) {
      CandidateIsOffered(x, t, windowEnd, d, appointments, blocked);
    }
  }

  /**
   * Every slot of generateAvailableSlots has the service's length, lies in
   * the working window, starts on the 30-minute grid from the window start,
   * overlaps no given appointment and no given blocked interval, and carries
   * the label of its start; the starts are strictly increasing.
   */
  lemma AvailableSlotsSound(date: int, rule: Availability, serviceDuration: int,
                            appointments: seq<Appointment>, blocked: seq<BlockedTime>)
    ensures var slots := AvailableSlots(date, rule, serviceDuration, appointments, blocked);
      && (forall i :: 0 <= i < |slots| ==>
            && slots[i].end - slots[i].start == serviceDuration * 60
            && WindowStart(date, rule) <= slots[i].start
            && slots[i].end <= WindowEnd(date, rule)
            && (slots[i].start - WindowStart(date, rule)) % 1800 == 0
            && slots[i].displayTime == DisplayTime(slots[i].start)
            && (forall a :: a in appointments ==> !(slots[i].start < a.endsAt && slots[i].end > a.scheduledAt))
            && (forall b :: b in blocked ==> !(slots[i].start < b.endTime && slots[i].end > b.startTime)))
      && (forall i, j :: 0 <= i < j < |slots| ==> slots[i].start < slots[j].start)
  {
    var slots := AvailableSlots(date, rule, serviceDuration, appointments, blocked);
    SlotsFromSound(WindowStart(date, rule), WindowEnd(date, rule), serviceDuration * 60, appointments, blocked);
    SlotsFromIncreasing(WindowStart(date, rule), WindowEnd(date, rule), serviceDuration * 60, appointments, blocked);
    forall i, a | 0 <= i < |slots| && a in appointments
      ensures !(slots[i].start < a.endsAt && slots[i].end > a.scheduledAt)
    {
      var k :| 0 <= k < |appointments| && appointments[k] == a;
    }
    forall i, b | 0 <= i < |slots| && b in blocked
      ensures !(slots[i].start < b.endTime && slots[i].end > b.startTime)
    {
      var k :| 0 <= k < |blocked| && blocked[k] == b;
    }
  }

  /** Completeness: a grid start that fits the window and overlaps nothing is offered, and only those are. */
  lemma AvailableSlotsComplete(x: int, date: int, rule: Availability, serviceDuration: int,
                               appointments: seq<Appointment>, blocked: seq<BlockedTime>)
    ensures Offered(x, AvailableSlots(date, rule, serviceDuration, appointments, blocked))
      <==> && WindowStart(date, rule) <= x
           && (x - WindowStart(date, rule)) % 1800 == 0
           && x + serviceDuration * 60 <= WindowEnd(date, rule)
           && (forall a :: a in appointments ==> !(x < a.endsAt && x + serviceDuration * 60 > a.scheduledAt))
           && (forall b :: b in blocked ==> !(x < b.endTime && x + serviceDuration * 60 > b.startTime))
  {
    SlotsFromExact(x, WindowStart(date, rule), WindowEnd(date, rule), serviceDuration * 60, appointments, blocked);
    var d := serviceDuration * 60;
    if HitsAppointment(x, d, appointments) {
      var k :| 0 <= k < |appointments| && Overlaps(x, d, appointments[k].scheduledAt, appointments[k].endsAt);
      assert appointments[k] in appointments;
    }
    if HitsBlocked(x, d, blocked) {
      var k :| 0 <= k < |blocked| && Overlaps(x, d, blocked[k].startTime, blocked[k].endTime);
      assert blocked[k] in blocked;
    }
  }

  /** A service longer than the working window has no slot. */
  lemma TooLongServiceHasNoSlots(date: int, rule: Availability, serviceDuration: int,
                                 appointments: seq<Appointment>, blocked: seq<BlockedTime>)
    requires serviceDuration * 60 > rule.endTime - rule.startTime
    ensures AvailableSlots(date, rule, serviceDuration, appointments, blocked) == []
  {
  }

  /** A service exactly as long as the working window still gets the one slot at the window start. */
  lemma ExactFitKeepsOneSlot(date: int, rule: Availability, serviceDuration: int)
    requires serviceDuration * 60 == rule.endTime - rule.startTime
    ensures AvailableSlots(date, rule, serviceDuration, [], []) == [MakeSlot(WindowStart(date, rule), serviceDuration * 60)]
  {
    var ws, we, d := WindowStart(date, rule), WindowEnd(date, rule), serviceDuration * 60;
    assert SlotsFrom(ws + Stride, we, d, [], []) == [];
    assert IsFree(ws, d, [], []);
  }

  /**
   * Adding one more busy appointment removes exactly the grid starts that
   * overlap it; in particular booking an offered slot for the service's
   * duration withdraws that slot.
   */
  lemma {:induction false} BookingWithdrawsOverlappingSlots(x: int, date: int, rule: Availability, serviceDuration: int,
                                                          appointments: seq<Appointment>, blocked: seq<BlockedTime>, booked: Appointment)
    ensures Offered(x, AvailableSlots(date, rule, serviceDuration, appointments + [booked], blocked))
      <==> Offered(x, AvailableSlots(date, rule, serviceDuration, appointments, blocked))
           && !Overlaps(x, serviceDuration * 60, booked.scheduledAt, booked.endsAt)
  {
    var d := serviceDuration * 60;
    var ws, we := WindowStart(date, rule), WindowEnd(date, rule);
    var more := appointments + [booked];
    SlotsFromExact(x, ws, we, d, appointments, blocked);
    SlotsFromExact(x, ws, we, d, more, blocked);
    if HitsAppointment(x, d, more) && !Overlaps(x, d, booked.scheduledAt, booked.endsAt) {
      var k :| 0 <= k < |more| && Overlaps(x, d, more[k].scheduledAt, more[k].endsAt);
      assert k < |appointments| && more[k] == appointments[k];
    }
    if HitsAppointment(x, d, appointments) {
      var k :| 0 <= k < |appointments| && Overlaps(x, d, appointments[k].scheduledAt, appointments[k].endsAt);
      assert more[k] == appointments[k];
    }
    if Overlaps(x, d, booked.scheduledAt, booked.endsAt) {
      assert more[|appointments|] == booked;
    }
  }

  /** The same for a newly blocked interval. */
  lemma {:induction false} BlockingWithdrawsOverlappingSlots(x: int, date: int, rule: Availability, serviceDuration: int,
                                                           appointments: seq<Appointment>, blocked: seq<BlockedTime>, added: BlockedTime)
    ensures Offered(x, AvailableSlots(date, rule, serviceDuration, appointments, blocked + [added]))
      <==> Offered(x, AvailableSlots(date, rule, serviceDuration, appointments, blocked))
           && !Overlaps(x, serviceDuration * 60, added.startTime, added.endTime)
  {
    var d := serviceDuration * 60;
    var ws, we := WindowStart(date, rule), WindowEnd(date, rule);
    var more := blocked + [added];
    SlotsFromExact(x, ws, we, d, appointments, blocked);
    SlotsFromExact(x, ws, we, d, appointments, more);
    if HitsBlocked(x, d, more) && !Overlaps(x, d, added.startTime, added.endTime) {
      var k :| 0 <= k < |more| && Overlaps(x, d, more[k].startTime, more[k].endTime);
      assert k < |blocked| && more[k] == blocked[k];
    }
    if HitsBlocked(x, d, blocked) {
      var k :| 0 <= k < |blocked| && Overlaps(x, d, blocked[k].startTime, blocked[k].endTime);
      assert more[k] == blocked[k];
    }
    if Overlaps(x, d, added.startTime, added.endTime) {
      assert more[|blocked|] == added;
    }
  }

  /**
   * The worked example of a 09:00-17:00 rule, a 60-minute service and one
   * appointment from 10:00 to 11:00: 09:00 ends exactly when the appointment
   * starts and is kept, 09:30 to 10:30 are rejected, 11:00 and 16:00 are
   * offered and 16:30 would end after 17:00.
   */
  lemma ExampleAroundOneAppointment(date: int, rule: Availability, booked: Appointment)
    requires rule.startTime == 9 * 3600 && rule.endTime == 17 * 3600
    requires booked.scheduledAt == StartOfDay(date) + 10 * 3600 && booked.endsAt == StartOfDay(date) + 11 * 3600
    ensures var slots := AvailableSlots(date, rule, 60, [booked], []);
      && Offered(StartOfDay(date) + 9 * 3600, slots)
      && !Offered(StartOfDay(date) + 9 * 3600 + 1800, slots)
      && !Offered(StartOfDay(date) + 10 * 3600, slots)
      && !Offered(StartOfDay(date) + 10 * 3600 + 1800, slots)
      && Offered(StartOfDay(date) + 11 * 3600, slots)
      && Offered(StartOfDay(date) + 16 * 3600, slots)
      && !Offered(StartOfDay(date) + 16 * 3600 + 1800, slots)
  {
    ExampleSlot(date, rule, booked, 9 * 3600);
    ExampleSlot(date, rule, booked, 9 * 3600 + 1800);
    ExampleSlot(date, rule, booked, 10 * 3600);
    ExampleSlot(date, rule, booked, 10 * 3600 + 1800);
    ExampleSlot(date, rule, booked, 11 * 3600);
    ExampleSlot(date, rule, booked, 16 * 3600);
    ExampleSlot(date, rule, booked, 16 * 3600 + 1800);
  }

  /** One grid point of the example: offered exactly when the hour from it ends by 17:00 and misses 10:00-11:00. */
  lemma ExampleSlot(date: int, rule: Availability, booked: Appointment, offset: int)
    requires rule.startTime == 9 * 3600 && rule.endTime == 17 * 3600
    requires booked.scheduledAt == StartOfDay(date) + 10 * 3600 && booked.endsAt == StartOfDay(date) + 11 * 3600
    requires 9 * 3600 <= offset && offset % 1800 == 0
    ensures Offered(StartOfDay(date) + offset, AvailableSlots(date, rule, 60, [booked], []))
        <==> offset + 3600 <= 17 * 3600 && (offset + 3600 <= 10 * 3600 || offset >= 11 * 3600)
  {
    var x := StartOfDay(date) + offset;
    AvailableSlotsComplete(x, date, rule, 60, [booked], []);
    assert (x - WindowStart(date, rule)) % 1800 == 0 by {
      assert x - WindowStart(date, rule) == (offset / 1800 - 18) * 1800;
    }
    assert (forall a :: a in [booked] ==> !(x < a.endsAt && x + 60 * 60 > a.scheduledAt))
        <==> !(x < booked.endsAt && x + 3600 > booked.scheduledAt);
  }

  // ---------------------------------------------------------------------
  // show(): choosing the rule, the appointments and the blocked times
  // ---------------------------------------------------------------------

  predicate RuleFor(agentId: int, weekday: string, a: Availability)
  {
    a.agentId == agentId && a.dayOfWeek == weekday && a.isAvailable
  }

  /** ->where('day_of_week', ...)->where('is_available', true)->first() on the agent's rows. */
  function SelectRule(availabilities: seq<Availability>, agentId: int, weekday: string): (r: Option<Availability>)
    ensures r.None? <==> forall i :: 0 <= i < |availabilities| ==> !RuleFor(agentId, weekday, availabilities[i])
    ensures r.Some? ==> exists k :: 0 <= k < |availabilities| && availabilities[k] == r.value
                                    && RuleFor(agentId, weekday, r.value)
                                    && forall i :: 0 <= i < k ==> !RuleFor(agentId, weekday, availabilities[i])
  {
    First(availabilities, (a: Availability) => RuleFor(agentId, weekday, a))
  }

  /** The appointments that occupy time on the agent's day: pending or confirmed, scheduled on that date. */
  predicate BusyOn(agentId: int, date: int, a: Appointment)
  {
    a.agentId == agentId && DateOf(a.scheduledAt) == date && (a.status == Confirmed || a.status == Pending)
  }

  function DayAppointments(appointments: seq<Appointment>, agentId: int, date: int): (r: seq<Appointment>)
    ensures forall a :: a in r <==> a in appointments && a.agentId == agentId && DateOf(a.scheduledAt) == date
                                     && (a.status == "confirmed" || a.status == "pending")
  {
    Filter(appointments, (a: Appointment) => BusyOn(agentId, date, a))
  }

  /** The agent's blocked intervals that start on the date. */
  function DayBlocked(blocked: seq<BlockedTime>, agentId: int, date: int): (r: seq<BlockedTime>)
    ensures forall b :: b in r <==> b in blocked && b.agentId == agentId && DateOf(b.startTime) == date
  {
    Filter(blocked, (b: BlockedTime) => b.agentId == agentId && DateOf(b.startTime) == date)
  }

  /** available_slots of show() once the request is valid. */
  function ListedSlots(availabilities: seq<Availability>, appointments: seq<Appointment>, blocked: seq<BlockedTime>,
                       agentId: int, date: int, weekday: string, serviceDuration: int): seq<Slot>
  {
    match SelectRule(availabilities, agentId, weekday)
    case None => []
    case Some(rule) =>
      AvailableSlots(date, rule, serviceDuration, DayAppointments(appointments, agentId, date), DayBlocked(blocked, agentId, date))
  }

  /** Without an available rule for the weekday the list is empty; with several, the first one decides. */
  lemma ListedSlotsUseFirstRule(availabilities: seq<Availability>, appointments: seq<Appointment>, blocked: seq<BlockedTime>,
                                agentId: int, date: int, weekday: string, serviceDuration: int)
    ensures (forall i :: 0 <= i < |availabilities| ==> !RuleFor(agentId, weekday, availabilities[i])) ==>
              ListedSlots(availabilities, appointments, blocked, agentId, date, weekday, serviceDuration) == []
    ensures forall k :: 0 <= k < |availabilities| && RuleFor(agentId, weekday, availabilities[k])
                        && (forall i :: 0 <= i < k ==> !RuleFor(agentId, weekday, availabilities[i])) ==>
              ListedSlots(availabilities, appointments, blocked, agentId, date, weekday, serviceDuration)
              == AvailableSlots(date, availabilities[k], serviceDuration,
                                DayAppointments(appointments, agentId, date), DayBlocked(blocked, agentId, date))
  {
    forall k | 0 <= k < |availabilities| && RuleFor(agentId, weekday, availabilities[k])
               && (forall i :: 0 <= i < k ==> !RuleFor(agentId, weekday, availabilities[i]))
      ensures SelectRule(availabilities, agentId, weekday) == Some(availabilities[k])
    {
      var r := SelectRule(availabilities, agentId, weekday);
      var j :| 0 <= j < |availabilities| && availabilities[j] == r.value && RuleFor(agentId, weekday, r.value)
               && forall i :: 0 <= i < j ==> !RuleFor(agentId, weekday, availabilities[i]);
      assert !(j < k) && !(k < j);
    }
  }

  /**
   * Only appointments that are pending or confirmed, for this agent and on
   * this date, can change the list: adding any other row leaves it as it is.
   */
  lemma OtherAppointmentsIgnored(availabilities: seq<Availability>, appointments: seq<Appointment>, blocked: seq<BlockedTime>,
                                 agentId: int, date: int, weekday: string, serviceDuration: int, extra: Appointment)
    requires extra.agentId != agentId || DateOf(extra.scheduledAt) != date || (extra.status != Confirmed && extra.status != Pending)
    ensures ListedSlots(availabilities, appointments + [extra], blocked, agentId, date, weekday, serviceDuration)
         == ListedSlots(availabilities, appointments, blocked, agentId, date, weekday, serviceDuration)
  {
    DayAppointmentsSkip(appointments, agentId, date, extra);
  }

  lemma DayAppointmentsSkip(appointments: seq<Appointment>, agentId: int, date: int, extra: Appointment)
    requires !BusyOn(agentId, date, extra)
    ensures DayAppointments(appointments + [extra], agentId, date) == DayAppointments(appointments, agentId, date)
  {
    FilterAppend(appointments, [extra], (a: Appointment) => BusyOn(agentId, date, a));
    assert Filter([extra], (a: Appointment) => BusyOn(agentId, date, a)) == [];
  }

  /** Blocked intervals of other agents, or starting on another date, are ignored likewise. */
  lemma OtherBlockedTimesIgnored(availabilities: seq<Availability>, appointments: seq<Appointment>, blocked: seq<BlockedTime>,
                                 agentId: int, date: int, weekday: string, serviceDuration: int, extra: BlockedTime)
    requires extra.agentId != agentId || DateOf(extra.startTime) != date
    ensures ListedSlots(availabilities, appointments, blocked + [extra], agentId, date, weekday, serviceDuration)
         == ListedSlots(availabilities, appointments, blocked, agentId, date, weekday, serviceDuration)
  {
    DayBlockedSkip(blocked, agentId, date, extra);
  }

  lemma DayBlockedSkip(blocked: seq<BlockedTime>, agentId: int, date: int, extra: BlockedTime)
    requires extra.agentId != agentId || DateOf(extra.startTime) != date
    ensures DayBlocked(blocked + [extra], agentId, date) == DayBlocked(blocked, agentId, date)
  {
    FilterAppend(blocked, [extra], (b: BlockedTime) => b.agentId == agentId && DateOf(b.startTime) == date);
    assert Filter([extra], (b: BlockedTime) => b.agentId == agentId && DateOf(b.startTime) == date) == [];
  }

  /** The query parameters of show(). */
  datatype ShowRequest = ShowRequest(serviceId: Input, agentId: Input, date: Input)

  /** The JSON body: the service, the agent and available_slots. */
  datatype ShowResponse = ShowResponse(service: Service, agent: User, availableSlots: seq<Slot>)

  /** The rules show() validates, field by field. */
  function ShowRules(request: ShowRequest, services: seq<Service>, users: seq<User>, today: int): seq<(string, seq<(string, bool)>)>
  {
    [("service_id", [("required", Filled(request.serviceId)), ("exists", request.serviceId.Integer? && HasService(services, request.serviceId.i))]),
     ("agent_id", [("required", Filled(request.agentId)), ("exists", request.agentId.Integer? && HasUser(users, request.agentId.i))]),
     ("date", [("required", Filled(request.date)), ("date", request.date.Moment?),
               ("after_or_equal", request.date.Moment? && DateOf(request.date.t) >= today)])]
  }

  /** The request is accepted exactly when both ids exist and the date is today or later. */
  lemma ShowRulesMeaning(request: ShowRequest, services: seq<Service>, users: seq<User>, today: int)
    ensures Violations(ShowRules(request, services, users, today)) == [] <==>
      (request.serviceId.Integer? && HasService(services, request.serviceId.i) && request.agentId.Integer? && HasUser(users, request.agentId.i)
       && request.date.Moment? && request.date.t >= StartOfDay(today))
  {
    var rules := ShowRules(request, services, users, today);
    assert Passes(rules[0].1) <==> (request.serviceId.Integer? && HasService(services, request.serviceId.i)) by {
      assert rules[0].1[1].1 == (request.serviceId.Integer? && HasService(services, request.serviceId.i));
    }
    assert Passes(rules[1].1) <==> (request.agentId.Integer? && HasUser(users, request.agentId.i)) by {
      assert rules[1].1[1].1 == (request.agentId.Integer? && HasUser(users, request.agentId.i));
    }
    assert Passes(rules[2].1) <==> request.date.Moment? && DateOf(request.date.t) >= today by {
      assert rules[2].1[2].1 == (request.date.Moment? && DateOf(request.date.t) >= today);
    }
    if request.date.Moment? {
      var t := request.date.t;
      assert DateOf(t) >= today <==> t >= StartOfDay(today) by {
        if DateOf(t) >= today {
          assert DateOf(t) * SecondsPerDay >= today * SecondsPerDay;
        } else {
          assert (DateOf(t) + 1) * SecondsPerDay <= today * SecondsPerDay;
        }
      }
    }
  }

  /**
   * show(): validates the request, finds the service and the agent, and
   * lists the slots of the requested date. weekday is the lower-case day
   * name of that date; today is the current day number.
   */
  method Show(services: seq<Service>, users: seq<User>, availabilities: seq<Availability>,
              appointments: seq<Appointment>, blocked: seq<BlockedTime>,
              request: ShowRequest, weekday: string, today: int)
    returns (r: Result<ShowResponse, seq<Violation>>)
    ensures r.Failure? <==> Violations(ShowRules(request, services, users, today)) != []
    ensures r.Failure? ==> r.error == Violations(ShowRules(request, services, users, today))
    ensures r.Success? ==>
      && request.serviceId.Integer? && HasService(services, request.serviceId.i) && request.agentId.Integer? && HasUser(users, request.agentId.i)
      && request.date.Moment? && request.date.t >= StartOfDay(today)
      && r.value.service in services && r.value.service.id == request.serviceId.i
      && r.value.agent in users && r.value.agent.id == request.agentId.i
      && r.value.availableSlots == ListedSlots(availabilities, appointments, blocked, request.agentId.i,
                                               DateOf(request.date.t), weekday, r.value.service.durationMinutes)
  {
    var errors := Violations(ShowRules(request, services, users, today));
    if errors != [] {
      return Failure(errors);
    }
    ShowRulesMeaning(request, services, users, today);
    var service := FindService(services, request.serviceId.i).value;
    var agent := FindUser(users, request.agentId.i).value;
    var date := DateOf(request.date.t);

    var availableSlots := [];
    var availability := SelectRule(availabilities, agent.id, weekday);
    if availability.Some? {
      var existingAppointments := DayAppointments(appointments, agent.id, date);
      var blockedTimes := DayBlocked(blocked, agent.id, date);
      availableSlots := GenerateAvailableSlots(date, availability.value, service.durationMinutes,
                                               existingAppointments, blockedTimes);
    }
    r := Success(ShowResponse(service, agent, availableSlots));
  }
}
