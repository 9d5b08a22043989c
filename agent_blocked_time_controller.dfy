/** app/Http/Controllers/AgentBlockedTimeController.php: an agent blocks out an interval. */
module AgentBlockedTimeController {
  import opened Wrappers
  import opened Forms
  import opened AgentSchedule
  import opened Persistence

  /** The submitted fields; start_time and end_time are date values. */
  datatype BlockForm = BlockForm(startTime: Input, endTime: Input, reason: Input)

  const MaxReason: int := 255
  const DefaultReason: string := "Unavailable"

  /**
   * start_time: required|date|after:now; end_time: required|date|after:start_time;
   * reason: nullable|string|max:255. after:start_time compares with the other
   * field only when that field holds a date: when start_time is missing or not
   * a date the comparison is skipped, and start_time's own rules refuse the form.
   */
  function Rules(f: BlockForm, now: int): seq<(string, seq<(string, bool)>)>
  {
    [("start_time", [("required", Filled(f.startTime)), ("date", f.startTime.Moment?),
                     ("after", f.startTime.Moment? && f.startTime.t > now)]),
     ("end_time", [("required", Filled(f.endTime)), ("date", f.endTime.Moment?),
                   ("after", f.endTime.Moment? && (!f.startTime.Moment? || f.endTime.t > f.startTime.t))]),
     ("reason", if f.reason.Missing? || f.reason.Null? then []
                else [("string", f.reason.Text?), ("max", f.reason.Text? && |f.reason.s| <= MaxReason)])]
  }

  predicate Acceptable(f: BlockForm, now: int)
  {
    && f.startTime.Moment? && f.startTime.t > now
    && f.endTime.Moment? && f.endTime.t > f.startTime.t
    && NullableString(f.reason, MaxReason)
  }

  lemma RulesMeaning(f: BlockForm, now: int)
    ensures Violations(Rules(f, now)) == [] <==> Acceptable(f, now)
  {
    var rules := Rules(f, now);
    assert Passes(rules[0].1) <==> f.startTime.Moment? && f.startTime.t > now by {
      assert rules[0].1[2].1 == (f.startTime.Moment? && f.startTime.t > now);
    }
    assert Passes(rules[1].1) <==> f.endTime.Moment? && (!f.startTime.Moment? || f.endTime.t > f.startTime.t) by {
      assert rules[1].1[1].1 == f.endTime.Moment?;
      assert rules[1].1[2].1 == (f.endTime.Moment? && (!f.startTime.Moment? || f.endTime.t > f.startTime.t));
    }
    assert Passes(rules[2].1) <==> NullableString(f.reason, MaxReason) by {
      if !(f.reason.Missing? || f.reason.Null?) {
        assert rules[2].1[0].1 == f.reason.Text?;
        assert rules[2].1[1].1 == (f.reason.Text? && |f.reason.s| <= MaxReason);
      }
    }
  }

  /** $validated['reason'] ?? 'Unavailable' */
  function StoredReason(reason: Input): (r: string)
    ensures reason.Text? ==> r == reason.s
    ensures !reason.Text? ==> r == DefaultReason
  {
    match NullableValue(reason)
    case Some(s) => s
    case None => DefaultReason
  }

  /**
   * store(): validates the form, then adds one blocked interval owned by
   * agentId; nothing else changes. Returns the new row's id.
   */
  method Store(db: Database, agentId: int, now: int, f: BlockForm) returns (r: Result<int, seq<Violation>>)
    requires db.Valid()
    modifies db
    ensures db.Valid()
    ensures db.users == old(db.users) && db.services == old(db.services)
    ensures db.appointments == old(db.appointments) && db.availabilities == old(db.availabilities)
    ensures db.nextAppointmentId == old(db.nextAppointmentId) && db.nextAvailabilityId == old(db.nextAvailabilityId)
    ensures r.Failure? <==> !Acceptable(f, now)
    ensures r.Failure? ==> r.error == Violations(Rules(f, now))
                           && db.blockedTimes == old(db.blockedTimes) && db.nextBlockedTimeId == old(db.nextBlockedTimeId)
    ensures r.Success? ==>
      && r.value == old(db.nextBlockedTimeId) && db.nextBlockedTimeId == r.value + 1
      && db.blockedTimes == old(db.blockedTimes) + [BlockedTime(r.value, agentId, f.startTime.t, f.endTime.t, Some(StoredReason(f.reason)))]
      && now < f.startTime.t < f.endTime.t
      && (f.reason.Text? ==> |f.reason.s| <= MaxReason)
  {
    RulesMeaning(f, now);
    var errors := Violations(Rules(f, now));
    if errors != [] {
      return Failure(errors);
    }
    var row := BlockedTime(db.nextBlockedTimeId, agentId, f.startTime.t, f.endTime.t, Some(StoredReason(f.reason)));
    db.InsertBlockedTime(row);
    r := Success(row.id);
  }

  /** An interval that ends at or before its start is refused on end_time, whatever else the form says. */
  lemma EmptyIntervalRejected(f: BlockForm, now: int)
    requires f.startTime.Moment? && f.endTime.Moment? && f.endTime.t <= f.startTime.t
    ensures Violation("end_time", "after") in Violations(Rules(f, now))
  {
    var rules := Rules(f, now);
    FirstFailedAt(rules[1].1, 2);
    assert rules[1].0 == "end_time";
  }

  /** A start that is not after now is refused on start_time. */
  lemma PastStartRejected(f: BlockForm, now: int)
    requires f.startTime.Moment? && f.startTime.t <= now
    ensures Violation("start_time", "after") in Violations(Rules(f, now))
  {
    var rules := Rules(f, now);
    FirstFailedAt(rules[0].1, 2);
    assert rules[0].0 == "start_time";
  }
}
