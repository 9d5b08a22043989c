/**
 * The tables the controllers read and write, held in memory. Each table is
 * a sequence of rows in insertion order; the next* counters play the part
 * of the auto-increment ids.
 */
module Persistence {
  import opened Seqs
  import opened UserModel
  import opened ServiceModel
  import opened AppointmentModel
  import opened AgentSchedule

  /** Every row's id (as id gives it) is below next, and no two rows share one. */
  ghost predicate IdsBelow<T>(xs: seq<T>, id: T -> int, next: int)
  {
    && (forall i :: 0 <= i < |xs| ==> id(xs[i]) < next)
    && (forall i, j :: 0 <= i < j < |xs| ==> id(xs[i]) != id(xs[j]))
  }

  lemma AppendKeepsIds<T>(xs: seq<T>, id: T -> int, x: T, next: int)
    requires IdsBelow(xs, id, next) && id(x) == next
    ensures IdsBelow(xs + [x], id, next + 1)
  {
    var ys := xs + [x];
    assert forall i :: 0 <= i < |xs| ==> ys[i] == xs[i];
  }

  lemma ReplaceKeepsIds<T>(xs: seq<T>, id: T -> int, k: int, x: T, next: int)
    requires IdsBelow(xs, id, next) && 0 <= k < |xs| && id(x) == id(xs[k])
    ensures IdsBelow(xs[k := x], id, next)
  {
  }

  /** Removing the row at k keeps the ids unique and drops exactly the rows with its id. */
  lemma RemoveKeepsIds<T>(xs: seq<T>, id: T -> int, k: int, next: int)
    requires IdsBelow(xs, id, next) && 0 <= k < |xs|
    ensures IdsBelow(xs[..k] + xs[k + 1..], id, next)
    ensures forall x :: x in xs[..k] + xs[k + 1..] <==> x in xs && id(x) != id(xs[k])
  {
    var ys := xs[..k] + xs[k + 1..];
    assert forall i :: 0 <= i < |ys| ==> ys[i] == xs[if i < k then i else i + 1];
    forall x | x in xs && id(x) != id(xs[k]) ensures x in ys {
      var j :| 0 <= j < |xs| && xs[j] == x;
      if j < k { assert ys[j] == x; } else { assert ys[j - 1] == x; }
    }
    forall x | x in ys ensures x in xs && id(x) != id(xs[k]) {
      var j :| 0 <= j < |ys| && ys[j] == x;
      var o := if j < k then j else j + 1;
      assert ys[j] == xs[o] && o != k;
    }
  }

  lemma TailKeepsIds<T>(xs: seq<T>, id: T -> int, next: int)
    requires IdsBelow(xs, id, next) && xs != []
    ensures IdsBelow(xs[1..], id, next)
    ensures forall y :: y in xs[1..] ==> id(y) != id(xs[0])
  {
    assert forall i :: 0 <= i < |xs| - 1 ==> xs[1..][i] == xs[i + 1];
  }

  lemma ConsKeepsIds<T>(x: T, rest: seq<T>, id: T -> int, next: int)
    requires IdsBelow(rest, id, next) && id(x) < next
    requires forall y :: y in rest ==> id(y) != id(x)
    ensures IdsBelow([x] + rest, id, next)
  {
    var r := [x] + rest;
    assert forall i :: 1 <= i < |r| ==> r[i] == rest[i - 1] && r[i] in rest;
  }

  lemma {:induction false} FilterKeepsIds<T(!new)>(xs: seq<T>, id: T -> int, p: T -> bool, next: int)
    requires IdsBelow(xs, id, next)
    ensures IdsBelow(Filter(xs, p), id, next)
  {
    if xs != [] {
      TailKeepsIds(xs, id, next);
      FilterKeepsIds(xs[1..], id, p, next);
      if p(xs[0]) {
        ConsKeepsIds(xs[0], Filter(xs[1..], p), id, next);
      }
    }
  }

  function AppointmentId(a: Appointment): int { a.id }
  function AvailabilityId(a: Availability): int { a.id }
  function BlockedTimeId(b: BlockedTime): int { b.id }

  /** A weekly rule the agent form accepts: a weekday and a window inside the day. */
  predicate WellFormedRule(a: Availability)
  {
    IsWeekday(a.dayOfWeek) && 0 <= a.startTime < a.endTime < 86400
  }

  /** A weekly rule that belongs to another agent than agentId. */
  predicate OtherAgent(agentId: int, a: Availability) { a.agentId != agentId }

  class Database {
    var users: seq<User>
    var services: seq<Service>
    var appointments: seq<Appointment>
    var availabilities: seq<Availability>
    var blockedTimes: seq<BlockedTime>
    var nextAppointmentId: int
    var nextAvailabilityId: int
    var nextBlockedTimeId: int

    /**
     * What the controllers keep true: unique ids, appointment statuses from
     * the enumeration, well-formed weekly rules and non-empty blocked intervals.
     */
    ghost predicate Valid()
      reads this
    {
      && IdsBelow(appointments, AppointmentId, nextAppointmentId)
      && IdsBelow(availabilities, AvailabilityId, nextAvailabilityId)
      && IdsBelow(blockedTimes, BlockedTimeId, nextBlockedTimeId)
      && (forall i :: 0 <= i < |appointments| ==> ValidStatus(appointments[i].status))
      && (forall i :: 0 <= i < |availabilities| ==> WellFormedRule(availabilities[i]))
      && (forall i :: 0 <= i < |blockedTimes| ==> blockedTimes[i].startTime < blockedTimes[i].endTime)
    }

    /** ->availabilities()->create(...): appends a rule with the next id. */
    method InsertAvailability(row: Availability)
      requires Valid() && row.id == nextAvailabilityId && WellFormedRule(row)
      modifies this
      ensures Valid()
      ensures availabilities == old(availabilities) + [row] && nextAvailabilityId == old(nextAvailabilityId) + 1
      ensures users == old(users) && services == old(services)
      ensures appointments == old(appointments) && blockedTimes == old(blockedTimes)
      ensures nextAppointmentId == old(nextAppointmentId) && nextBlockedTimeId == old(nextBlockedTimeId)
    {
      AppendKeepsIds(availabilities, AvailabilityId, row, nextAvailabilityId);
      availabilities := availabilities + [row];
      nextAvailabilityId := nextAvailabilityId + 1;
    }

    /** $agent->availabilities()->delete(): removes every rule of the agent. */
    method DeleteAvailabilitiesOf(agentId: int)
      requires Valid()
      modifies this
      ensures Valid()
      ensures availabilities == Filter(old(availabilities), (a: Availability) => OtherAgent(agentId, a))
      ensures nextAvailabilityId == old(nextAvailabilityId)
      ensures users == old(users) && services == old(services)
      ensures appointments == old(appointments) && blockedTimes == old(blockedTimes)
      ensures nextAppointmentId == old(nextAppointmentId) && nextBlockedTimeId == old(nextBlockedTimeId)
    {
      FilterKeepsIds(availabilities, AvailabilityId, (a: Availability) => OtherAgent(agentId, a), nextAvailabilityId);
      availabilities := Filter(availabilities, (a: Availability) => OtherAgent(agentId, a));
    }

    /** ->blockedTimes()->create(...): appends an interval with the next id. */
    method InsertBlockedTime(row: BlockedTime)
      requires Valid() && row.id == nextBlockedTimeId && row.startTime < row.endTime
      modifies this
      ensures Valid()
      ensures blockedTimes == old(blockedTimes) + [row] && nextBlockedTimeId == old(nextBlockedTimeId) + 1
      ensures users == old(users) && services == old(services)
      ensures appointments == old(appointments) && availabilities == old(availabilities)
      ensures nextAppointmentId == old(nextAppointmentId) && nextAvailabilityId == old(nextAvailabilityId)
    {
      AppendKeepsIds(blockedTimes, BlockedTimeId, row, nextBlockedTimeId);
      blockedTimes := blockedTimes + [row];
      nextBlockedTimeId := nextBlockedTimeId + 1;
    }

    /** Appointment::create(...): appends a booking with the next id. */
    method InsertAppointment(row: Appointment)
      requires Valid() && row.id == nextAppointmentId && ValidStatus(row.status)
      modifies this
      ensures Valid()
      ensures appointments == old(appointments) + [row] && nextAppointmentId == old(nextAppointmentId) + 1
      ensures users == old(users) && services == old(services)
      ensures availabilities == old(availabilities) && blockedTimes == old(blockedTimes)
      ensures nextAvailabilityId == old(nextAvailabilityId) && nextBlockedTimeId == old(nextBlockedTimeId)
    {
      AppendKeepsIds(appointments, AppointmentId, row, nextAppointmentId);
      appointments := appointments + [row];
      nextAppointmentId := nextAppointmentId + 1;
    }

    /** $appointment->update(...): the row at k is replaced by one with the same id. */
    method ReplaceAppointment(k: int, row: Appointment)
      requires Valid() && 0 <= k < |appointments| && row.id == appointments[k].id && ValidStatus(row.status)
      modifies this
      ensures Valid()
      ensures appointments == old(appointments)[k := row]
      ensures forall i :: 0 <= i < |appointments| && i != k ==> appointments[i].id != row.id
      ensures users == old(users) && services == old(services)
      ensures availabilities == old(availabilities) && blockedTimes == old(blockedTimes)
      ensures nextAppointmentId == old(nextAppointmentId)
      ensures nextAvailabilityId == old(nextAvailabilityId) && nextBlockedTimeId == old(nextBlockedTimeId)
    {
      ReplaceKeepsIds(appointments, AppointmentId, k, row, nextAppointmentId);
      assert forall i :: 0 <= i < |appointments| && i != k ==> AppointmentId(appointments[i]) != AppointmentId(appointments[k]);
      appointments := appointments[k := row];
    }

    /** $appointment->delete(): the row at k is removed; the others keep their order. */
    method RemoveAppointment(k: int)
      requires Valid() && 0 <= k < |appointments|
      modifies this
      ensures Valid()
      ensures appointments == old(appointments)[..k] + old(appointments)[k + 1..]
      ensures forall a :: a in appointments <==> a in old(appointments) && a.id != old(appointments)[k].id
      ensures users == old(users) && services == old(services)
      ensures availabilities == old(availabilities) && blockedTimes == old(blockedTimes)
      ensures nextAppointmentId == old(nextAppointmentId)
      ensures nextAvailabilityId == old(nextAvailabilityId) && nextBlockedTimeId == old(nextBlockedTimeId)
    {
      RemoveKeepsIds(appointments, AppointmentId, k, nextAppointmentId);
      appointments := appointments[..k] + appointments[k + 1..];
    }

    /** A database with the given users and services and no bookings or schedules. */
    constructor(users: seq<User>, services: seq<Service>)
      ensures Valid()
      ensures this.users == users && this.services == services
      ensures appointments == [] && availabilities == [] && blockedTimes == []
      ensures nextAppointmentId == 1 && nextAvailabilityId == 1 && nextBlockedTimeId == 1
    {
      this.users := users;
      this.services := services;
      appointments := [];
      availabilities := [];
      blockedTimes := [];
      nextAppointmentId := 1;
      nextAvailabilityId := 1;
      nextBlockedTimeId := 1;
    }
  }
}
