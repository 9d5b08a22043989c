/**
 * app/Http/Controllers/AppointmentController.php: listing appointments by
 * role, booking one, changing its status, notes or payment id, and
 * deleting it.
 */
module AppointmentController {
  import opened Wrappers
  import opened Seqs
  import opened Forms
  import opened UserModel
  import opened ServiceModel
  import opened AppointmentModel
  import opened StoreAppointmentRequest
  import opened Persistence

  // ---------------------------------------------------------------------
  // index()
  // ---------------------------------------------------------------------

  /** A client sees their own bookings, an agent the bookings with them, any other role every booking. */
  predicate VisibleTo(user: User, a: Appointment)
  {
    if IsClient(user) then a.clientId == user.id
    else if IsAgent(user) then a.agentId == user.id
    else true
  }

  /** The rows index() lists (before pagination): the visible ones, latest scheduled first. */
  function Index(user: User, appointments: seq<Appointment>): (r: seq<Appointment>)
    ensures SortedBy(r, LaterFirst())
    ensures multiset(r) == multiset(Filter(appointments, (a: Appointment) => VisibleTo(user, a)))
  {
    SortBy(Filter(appointments, (a: Appointment) => VisibleTo(user, a)), LaterFirst())
  }

  /** The role filter of index(), by role, and the order of what it lists. */
  lemma IndexByRole(user: User, appointments: seq<Appointment>)
    ensures IsClient(user) ==> forall a :: a in Index(user, appointments) <==> a in appointments && a.clientId == user.id
    ensures IsAgent(user) ==> forall a :: a in Index(user, appointments) <==> a in appointments && a.agentId == user.id
    ensures !IsClient(user) && !IsAgent(user) ==> multiset(Index(user, appointments)) == multiset(appointments)
    ensures forall i, j :: 0 <= i < j < |Index(user, appointments)| ==>
              Index(user, appointments)[i].scheduledAt >= Index(user, appointments)[j].scheduledAt
  {
    var r := Index(user, appointments);
    var visible := Filter(appointments, (a: Appointment) => VisibleTo(user, a));
    forall a ensures a in r <==> a in visible {
      assert a in r <==> a in multiset(r);
      assert a in visible <==> a in multiset(visible);
    }
    if !IsClient(user) && !IsAgent(user) {
      FilterAll(appointments, (a: Appointment) => VisibleTo(user, a));
    }
    forall i, j | 0 <= i < j < |r| ensures r[i].scheduledAt >= r[j].scheduledAt {
      assert LaterFirst()(r[i], r[j]);
    }
  }

  // ---------------------------------------------------------------------
  // store()
  // ---------------------------------------------------------------------

  /**
   * store(): validates the form and books the slot as a pending appointment
   * of clientId that ends the service's duration after it starts and costs
   * the service's price. It does not look at the other appointments, so it
   * can book over an existing one. Returns the new row's id.
   */
  method Store(db: Database, clientId: int, now: int, form: AppointmentForm) returns (r: Result<int, seq<Violation>>)
    requires db.Valid()
    modifies db
    ensures db.Valid()
    ensures db.users == old(db.users) && db.services == old(db.services)
    ensures db.availabilities == old(db.availabilities) && db.blockedTimes == old(db.blockedTimes)
    ensures db.nextAvailabilityId == old(db.nextAvailabilityId) && db.nextBlockedTimeId == old(db.nextBlockedTimeId)
    ensures r.Failure? <==> !Acceptable(form, old(db.users), old(db.services), now)
    ensures r.Failure? ==> r.error == Validate(form, old(db.users), old(db.services), now).error
                           && db.appointments == old(db.appointments) && db.nextAppointmentId == old(db.nextAppointmentId)
    ensures r.Success? ==>
      var service := FindService(old(db.services), form.serviceId.i).value;
      && r.value == old(db.nextAppointmentId) && db.nextAppointmentId == r.value + 1
      && |db.appointments| == |old(db.appointments)| + 1
      && db.appointments[..|old(db.appointments)|] == old(db.appointments)
      && var a := db.appointments[|old(db.appointments)|];
         && a.id == r.value && a.clientId == clientId
         && a.agentId == form.agentId.i && a.serviceId == form.serviceId.i && a.serviceId == service.id
         && a.scheduledAt == form.scheduledAt.t && a.scheduledAt > now
         && a.endsAt == a.scheduledAt + service.durationMinutes * 60
         && a.status == Pending && a.amount == service.price
         && a.paymentIntentId == None && a.notes == NullableValue(form.notes) && a.createdAt == now
  {
    var validated := Validate(form, db.users, db.services, now);
    if validated.Failure? {
      return Failure(validated.error);
    }
    var fields := validated.value;
    var service := FindService(db.services, fields.serviceId).value;
    var scheduledAt := fields.scheduledAt;
    var endsAt := scheduledAt + service.durationMinutes * 60;
    var appointment := Appointment(db.nextAppointmentId, clientId, fields.agentId, fields.serviceId,
                                   scheduledAt, endsAt, Pending, service.price, None, fields.notes, now);
    db.InsertAppointment(appointment);
    r := Success(appointment.id);
  }

  // ---------------------------------------------------------------------
  // update()
  // ---------------------------------------------------------------------

  /** The fields update() validates; any other field of the request is ignored. */
  datatype UpdateForm = UpdateForm(status: Input, notes: Input, paymentIntentId: Input)

  /** status: sometimes|in:...; notes and stripe_payment_intent_id: nullable|string. */
  function UpdateRules(f: UpdateForm): seq<(string, seq<(string, bool)>)>
  {
    [("status", if f.status.Missing? then [] else [("in", f.status.Text? && ValidStatus(f.status.s))]),
     ("notes", if f.notes.Missing? || f.notes.Null? then [] else [("string", f.notes.Text?)]),
     ("stripe_payment_intent_id",
      if f.paymentIntentId.Missing? || f.paymentIntentId.Null? then [] else [("string", f.paymentIntentId.Text?)])]
  }

  predicate UpdateAcceptable(f: UpdateForm)
  {
    && (f.status.Missing? || (f.status.Text? && ValidStatus(f.status.s)))
    && NullableString(f.notes, -1)
    && NullableString(f.paymentIntentId, -1)
  }

  lemma UpdateRulesMeaning(f: UpdateForm)
    ensures Violations(UpdateRules(f)) == [] <==> UpdateAcceptable(f)
  {
    var rules := UpdateRules(f);
    assert Passes(rules[0].1) <==> f.status.Missing? || (f.status.Text? && ValidStatus(f.status.s)) by {
      if !f.status.Missing? {
        assert rules[0].1[0].1 == (f.status.Text? && ValidStatus(f.status.s));
      }
    }
    assert Passes(rules[1].1) <==> NullableString(f.notes, -1) by {
      if !(f.notes.Missing? || f.notes.Null?) {
        assert rules[1].1[0].1 == f.notes.Text?;
      }
    }
    assert Passes(rules[2].1) <==> NullableString(f.paymentIntentId, -1) by {
      if !(f.paymentIntentId.Missing? || f.paymentIntentId.Null?) {
        assert rules[2].1[0].1 == f.paymentIntentId.Text?;
      }
    }
  }

  /** $appointment->update($validated): a field the request carries is written (null clears it); the rest stay. */
  function ApplyUpdate(a: Appointment, f: UpdateForm): (b: Appointment)
    requires UpdateAcceptable(f)
    ensures b.(status := a.status, notes := a.notes, paymentIntentId := a.paymentIntentId) == a
    ensures ValidStatus(a.status) ==> ValidStatus(b.status)
    ensures b.status == a.status || (f.status.Text? && b.status == f.status.s)
    ensures f.notes.Missing? ==> b.notes == a.notes
    ensures f.notes.Null? ==> b.notes == None
    ensures f.notes.Text? ==> b.notes == Some(f.notes.s)
    ensures f.paymentIntentId.Missing? ==> b.paymentIntentId == a.paymentIntentId
    ensures f.paymentIntentId.Null? ==> b.paymentIntentId == None
    ensures f.paymentIntentId.Text? ==> b.paymentIntentId == Some(f.paymentIntentId.s)
  {
    a.(status := if f.status.Missing? then a.status else f.status.s,
       notes := if f.notes.Missing? then a.notes else NullableValue(f.notes),
       paymentIntentId := if f.paymentIntentId.Missing? then a.paymentIntentId else NullableValue(f.paymentIntentId))
  }

  /** Sending the same update twice changes nothing the second time. */
  lemma ApplyUpdateIdempotent(a: Appointment, f: UpdateForm)
    requires UpdateAcceptable(f)
    ensures ApplyUpdate(ApplyUpdate(a, f), f) == ApplyUpdate(a, f)
  {
  }

  /** Route-model binding: the position of the row with the id, or -1 (a 404). */
  function IndexOfId(xs: seq<Appointment>, id: int): (k: int)
    ensures -1 <= k < |xs|
    ensures k == -1 <==> forall i :: 0 <= i < |xs| ==> xs[i].id != id
    ensures k >= 0 ==> xs[k].id == id && forall i :: 0 <= i < k ==> xs[i].id != id
  {
    if xs == [] then -1
    else if xs[0].id == id then 0
    else
      var k := IndexOfId(xs[1..], id);
      assert forall i :: 1 <= i < |xs| ==> xs[i] == xs[1..][i - 1];
      if k == -1 then -1 else k + 1
  }

  datatype UpdateOutcome = Updated | NotFound | Rejected(errors: seq<Violation>)

  /**
   * update(): 404 for an unknown id; otherwise the request is validated and,
   * if it passes, that row alone is changed by ApplyUpdate.
   */
  method Update(db: Database, id: int, f: UpdateForm) returns (r: UpdateOutcome)
    requires db.Valid()
    modifies db
    ensures db.Valid()
    ensures db.users == old(db.users) && db.services == old(db.services)
    ensures db.availabilities == old(db.availabilities) && db.blockedTimes == old(db.blockedTimes)
    ensures db.nextAppointmentId == old(db.nextAppointmentId)
    ensures db.nextAvailabilityId == old(db.nextAvailabilityId) && db.nextBlockedTimeId == old(db.nextBlockedTimeId)
    ensures r == NotFound <==> forall i :: 0 <= i < |old(db.appointments)| ==> old(db.appointments)[i].id != id
    ensures r.Rejected? <==> r != NotFound && !UpdateAcceptable(f)
    ensures r.Rejected? ==> r.errors == Violations(UpdateRules(f))
    ensures r != Updated ==> db.appointments == old(db.appointments)
    ensures r == Updated ==>
      && |db.appointments| == |old(db.appointments)|
      && forall i :: 0 <= i < |db.appointments| ==>
           db.appointments[i] == if old(db.appointments)[i].id == id then ApplyUpdate(old(db.appointments)[i], f)
                                 else old(db.appointments)[i]
  {
    var k := IndexOfId(db.appointments, id);
    if k == -1 {
      return NotFound;
    }
    UpdateRulesMeaning(f);
    var errors := Violations(UpdateRules(f));
    if errors != [] {
      return Rejected(errors);
    }
    var updated := ApplyUpdate(db.appointments[k], f);
    db.ReplaceAppointment(k, updated);
    r := Updated;
  }

  // ---------------------------------------------------------------------
  // destroy()
  // ---------------------------------------------------------------------

  /**
   * destroy(): deletes the row with the id (it is not marked cancelled);
   * every other row stays, in order. Returns false for an unknown id (a 404).
   */
  method Destroy(db: Database, id: int) returns (found: bool)
    requires db.Valid()
    modifies db
    ensures db.Valid()
    ensures db.users == old(db.users) && db.services == old(db.services)
    ensures db.availabilities == old(db.availabilities) && db.blockedTimes == old(db.blockedTimes)
    ensures db.nextAppointmentId == old(db.nextAppointmentId)
    ensures db.nextAvailabilityId == old(db.nextAvailabilityId) && db.nextBlockedTimeId == old(db.nextBlockedTimeId)
    ensures found <==> exists i :: 0 <= i < |old(db.appointments)| && old(db.appointments)[i].id == id
    ensures !found ==> db.appointments == old(db.appointments)
    ensures found ==> |db.appointments| == |old(db.appointments)| - 1
                      && exists k :: 0 <= k < |old(db.appointments)| && old(db.appointments)[k].id == id
                                     && db.appointments == old(db.appointments)[..k] + old(db.appointments)[k + 1..]
    ensures forall a :: a in db.appointments <==> a in old(db.appointments) && a.id != id
  {
    var k := IndexOfId(db.appointments, id);
    if k == -1 {
      return false;
    }
    db.RemoveAppointment(k);
    found := true;
  }
}
