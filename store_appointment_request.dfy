/**
 * app/Http/Requests/StoreAppointmentRequest.php: the rules a booking form
 * must meet, given the users and services tables and the current instant.
 */
module StoreAppointmentRequest {
  import opened Wrappers
  import opened Forms
  import opened UserModel
  import opened ServiceModel

  /** The submitted fields; scheduled_at is a date value. */
  datatype AppointmentForm = AppointmentForm(agentId: Input, serviceId: Input, scheduledAt: Input, notes: Input)

  /** The validated values; notes is None when absent or null. */
  datatype AppointmentFields = AppointmentFields(agentId: int, serviceId: int, scheduledAt: int, notes: Option<string>)

  const MaxNotes: int := 1000

  /** authorize(): anyone may send the form. */
  predicate Authorize() { true }

  /** rules(), field by field. A null or absent notes is not checked further (nullable). */
  function Rules(f: AppointmentForm, users: seq<User>, services: seq<Service>, now: int): seq<(string, seq<(string, bool)>)>
  {
    [("agent_id", [("required", Filled(f.agentId)), ("exists", f.agentId.Integer? && HasUser(users, f.agentId.i))]),
     ("service_id", [("required", Filled(f.serviceId)), ("exists", f.serviceId.Integer? && HasService(services, f.serviceId.i))]),
     ("scheduled_at", [("required", Filled(f.scheduledAt)), ("date", f.scheduledAt.Moment?),
                       ("after", f.scheduledAt.Moment? && f.scheduledAt.t > now)]),
     ("notes", if f.notes.Missing? || f.notes.Null? then []
               else [("string", f.notes.Text?), ("max", f.notes.Text? && |f.notes.s| <= MaxNotes)])]
  }

  /** The rules, stated directly on the fields. */
  predicate Acceptable(f: AppointmentForm, users: seq<User>, services: seq<Service>, now: int)
  {
    && f.agentId.Integer? && HasUser(users, f.agentId.i)
    && f.serviceId.Integer? && HasService(services, f.serviceId.i)
    && f.scheduledAt.Moment? && f.scheduledAt.t > now
    && NullableString(f.notes, MaxNotes)
  }

  lemma RulesMeaning(f: AppointmentForm, users: seq<User>, services: seq<Service>, now: int)
    ensures Violations(Rules(f, users, services, now)) == [] <==> Acceptable(f, users, services, now)
  {
    var rules := Rules(f, users, services, now);
    assert Passes(rules[0].1) <==> f.agentId.Integer? && HasUser(users, f.agentId.i) by {
      assert rules[0].1[1].1 == (f.agentId.Integer? && HasUser(users, f.agentId.i));
    }
    assert Passes(rules[1].1) <==> f.serviceId.Integer? && HasService(services, f.serviceId.i) by {
      assert rules[1].1[1].1 == (f.serviceId.Integer? && HasService(services, f.serviceId.i));
    }
    assert Passes(rules[2].1) <==> f.scheduledAt.Moment? && f.scheduledAt.t > now by {
      assert rules[2].1[2].1 == (f.scheduledAt.Moment? && f.scheduledAt.t > now);
    }
    assert Passes(rules[3].1) <==> NullableString(f.notes, MaxNotes) by {
      if !(f.notes.Missing? || f.notes.Null?) {
        assert rules[3].1[0].1 == f.notes.Text?;
        assert rules[3].1[1].1 == (f.notes.Text? && |f.notes.s| <= MaxNotes);
      }
    }
  }

  /** The validated request: the typed values, or one violation per failing field. */
  function Validate(f: AppointmentForm, users: seq<User>, services: seq<Service>, now: int): (r: Result<AppointmentFields, seq<Violation>>)
    ensures r.Success? <==> Acceptable(f, users, services, now)
    ensures r.Failure? ==> r.error == Violations(Rules(f, users, services, now)) && r.error != []
    ensures r.Success? ==>
      && r.value.agentId == f.agentId.i && HasUser(users, r.value.agentId)
      && r.value.serviceId == f.serviceId.i && HasService(services, r.value.serviceId)
      && r.value.scheduledAt == f.scheduledAt.t && r.value.scheduledAt > now
      && r.value.notes == NullableValue(f.notes)
      && (r.value.notes.Some? ==> |r.value.notes.value| <= MaxNotes)
  {
    RulesMeaning(f, users, services, now);
    var errors := Violations(Rules(f, users, services, now));
    if errors != [] then Failure(errors)
    else Success(AppointmentFields(f.agentId.i, f.serviceId.i, f.scheduledAt.t, NullableValue(f.notes)))
  }

  /** The request goes through exactly when it is authorized and its rules pass; authorization never refuses. */
  lemma AcceptedIffRulesHold(f: AppointmentForm, users: seq<User>, services: seq<Service>, now: int)
    ensures (Authorize() && Validate(f, users, services, now).Success?) <==> Acceptable(f, users, services, now)
  {
  }

  /** messages(): the custom texts, by field.rule. */
  const Messages: map<string, string> := map[
    "agent_id.required" := "Please select an agent.",
    "agent_id.exists" := "The selected agent is not available.",
    "service_id.required" := "Please select a service.",
    "service_id.exists" := "The selected service is not available.",
    "scheduled_at.required" := "Please select an appointment time.",
    "scheduled_at.after" := "Appointment time must be in the future."
  ]

  /** The custom message of a violation, or None where the framework's default text applies. */
  function Message(v: Violation): Option<string>
  {
    if Key(v) in Messages then Some(Messages[Key(v)]) else None
  }

  /** A time that is not strictly after now is reported with "Appointment time must be in the future.". */
  lemma PastTimeReported(f: AppointmentForm, users: seq<User>, services: seq<Service>, now: int)
    requires f.scheduledAt.Moment? && f.scheduledAt.t <= now
    ensures Violation("scheduled_at", "after") in Validate(f, users, services, now).error
    ensures Message(Violation("scheduled_at", "after")) == Some("Appointment time must be in the future.")
  {
    assert Message(Violation("scheduled_at", "after")) == Some("Appointment time must be in the future.") by {
      assert Key(Violation("scheduled_at", "after")) == "scheduled_at.after";
    }
    assert Violation("scheduled_at", "after") in Validate(f, users, services, now).error by {
      var rules := Rules(f, users, services, now);
      FirstFailedAt(rules[2].1, 2);
      ReportedAt(rules, 2, "after");
    }
  }

  /** An agent id that no user has is reported with "The selected agent is not available.". */
  lemma UnknownAgentReported(f: AppointmentForm, users: seq<User>, services: seq<Service>, now: int)
    requires f.agentId.Integer? && !HasUser(users, f.agentId.i)
    ensures Violation("agent_id", "exists") in Validate(f, users, services, now).error
    ensures Message(Violation("agent_id", "exists")) == Some("The selected agent is not available.")
  {
    assert Message(Violation("agent_id", "exists")) == Some("The selected agent is not available.") by {
      assert Key(Violation("agent_id", "exists")) == "agent_id.exists";
    }
    assert Violation("agent_id", "exists") in Validate(f, users, services, now).error by {
      var rules := Rules(f, users, services, now);
      FirstFailedAt(rules[0].1, 1);
      ReportedAt(rules, 0, "exists");
    }
  }
}
