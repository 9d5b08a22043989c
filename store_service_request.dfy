/**
 * app/Http/Requests/StoreServiceRequest.php: the rules a service form must
 * meet and the messages for the rules that fail.
 */
module StoreServiceRequest {
  import opened Wrappers
  import opened Forms
  import opened ServiceModel

  /** The submitted fields. price is numeric; duration_minutes an integer. */
  datatype ServiceForm = ServiceForm(name: Input, description: Input, price: Input, durationMinutes: Input, isActive: Input)

  /** The validated values; isActive is None when the form left it out. */
  datatype ServiceFields = ServiceFields(name: string, description: string, price: int, durationMinutes: int, isActive: Option<bool>)

  /** max:999999.99, in cents. */
  const MaxPrice: int := 99999999
  const MinDuration: int := 15
  const MaxDuration: int := 480

  /** authorize(): anyone may send the form. */
  predicate Authorize() { true }

  /** name: required|string|max:255. */
  function NameRules(v: Input): seq<(string, bool)>
  {
    [("required", Filled(v)), ("string", v.Text?), ("max", v.Text? && |v.s| <= 255)]
  }

  /** description: required|string. */
  function DescriptionRules(v: Input): seq<(string, bool)>
  {
    [("required", Filled(v)), ("string", v.Text?)]
  }

  /** price: required|numeric|min:0|max:999999.99. */
  function PriceRules(v: Input): seq<(string, bool)>
  {
    [("required", Filled(v)), ("numeric", Numeric(v)),
     ("min", Numeric(v) && Hundredths(v) >= 0), ("max", Numeric(v) && Hundredths(v) <= MaxPrice)]
  }

  /** duration_minutes: required|integer|min:15|max:480. */
  function DurationRules(v: Input): seq<(string, bool)>
  {
    [("required", Filled(v)), ("integer", v.Integer?),
     ("min", v.Integer? && v.i >= MinDuration), ("max", v.Integer? && v.i <= MaxDuration)]
  }

  /** is_active: boolean; a field left out is not checked. */
  function ActiveRules(v: Input): seq<(string, bool)>
  {
    if v.Missing? then [] else [("boolean", BooleanLike(v))]
  }

  /** rules(), field by field, each rule with whether the form meets it. */
  function Rules(f: ServiceForm): seq<(string, seq<(string, bool)>)>
  {
    [("name", NameRules(f.name)), ("description", DescriptionRules(f.description)), ("price", PriceRules(f.price)),
     ("duration_minutes", DurationRules(f.durationMinutes)), ("is_active", ActiveRules(f.isActive))]
  }

  /** The rules, stated directly on the fields. */
  predicate Acceptable(f: ServiceForm)
  {
    && f.name.Text? && !Blank(f.name.s) && |f.name.s| <= 255
    && f.description.Text? && !Blank(f.description.s)
    && Numeric(f.price) && 0 <= Hundredths(f.price) <= MaxPrice
    && f.durationMinutes.Integer? && MinDuration <= f.durationMinutes.i <= MaxDuration
    && (f.isActive.Missing? || BooleanLike(f.isActive))
  }

  lemma NameRulesMeaning(v: Input)
    ensures Passes(NameRules(v)) <==> v.Text? && !Blank(v.s) && |v.s| <= 255
  {
    assert NameRules(v)[0].1 == Filled(v) && NameRules(v)[1].1 == v.Text?;
    assert NameRules(v)[2].1 == (v.Text? && |v.s| <= 255);
  }

  lemma DescriptionRulesMeaning(v: Input)
    ensures Passes(DescriptionRules(v)) <==> v.Text? && !Blank(v.s)
  {
    assert DescriptionRules(v)[0].1 == Filled(v) && DescriptionRules(v)[1].1 == v.Text?;
  }

  lemma PriceRulesMeaning(v: Input)
    ensures Passes(PriceRules(v)) <==> Numeric(v) && 0 <= Hundredths(v) <= MaxPrice
  {
    assert PriceRules(v)[0].1 == Filled(v) && PriceRules(v)[1].1 == Numeric(v);
    assert PriceRules(v)[2].1 == (Numeric(v) && Hundredths(v) >= 0);
    assert PriceRules(v)[3].1 == (Numeric(v) && Hundredths(v) <= MaxPrice);
  }

  lemma DurationRulesMeaning(v: Input)
    ensures Passes(DurationRules(v)) <==> v.Integer? && MinDuration <= v.i <= MaxDuration
  {
    assert DurationRules(v)[0].1 == Filled(v) && DurationRules(v)[1].1 == v.Integer?;
    assert DurationRules(v)[2].1 == (v.Integer? && v.i >= MinDuration);
    assert DurationRules(v)[3].1 == (v.Integer? && v.i <= MaxDuration);
  }

  lemma ActiveRulesMeaning(v: Input)
    ensures Passes(ActiveRules(v)) <==> v.Missing? || BooleanLike(v)
  {
    if !v.Missing? {
      assert ActiveRules(v)[0].1 == BooleanLike(v);
    }
  }

  lemma RulesMeaning(f: ServiceForm)
    ensures Violations(Rules(f)) == [] <==> Acceptable(f)
  {
    NameRulesMeaning(f.name);
    DescriptionRulesMeaning(f.description);
    PriceRulesMeaning(f.price);
    DurationRulesMeaning(f.durationMinutes);
    ActiveRulesMeaning(f.isActive);
    var rules := Rules(f);
    assert PassesAll(rules) <==> Passes(rules[0].1) && Passes(rules[1].1) && Passes(rules[2].1)
                                 && Passes(rules[3].1) && Passes(rules[4].1);
  }

  /** The validated request: the typed values, or one violation per failing field. */
  function Validate(f: ServiceForm): (r: Result<ServiceFields, seq<Violation>>)
    ensures r.Success? <==> Acceptable(f)
    ensures r.Failure? ==> r.error == Violations(Rules(f)) && r.error != []
    ensures r.Success? ==>
      && r.value.name == f.name.s && 1 <= |r.value.name| <= 255
      && r.value.description == f.description.s
      && r.value.price == Hundredths(f.price) && 0 <= r.value.price <= MaxPrice
      && r.value.durationMinutes == f.durationMinutes.i && MinDuration <= r.value.durationMinutes <= MaxDuration
      && r.value.isActive == (if f.isActive.Missing? then None else Some(AsBool(f.isActive)))
  {
    RulesMeaning(f);
    var errors := Violations(Rules(f));
    if errors != [] then Failure(errors)
    else
      assert !Blank(f.name.s) ==> |f.name.s| >= 1;
      Success(ServiceFields(f.name.s, f.description.s, Hundredths(f.price), f.durationMinutes.i,
                            if f.isActive.Missing? then None else Some(AsBool(f.isActive))))
  }

  const FieldNames: set<string> := {"name", "description", "price", "duration_minutes", "is_active"}

  /** messages(): the custom texts, by field.rule. */
  const Messages: map<string, string> := map[
    "name.required" := "Service name is required.",
    "description.required" := "Service description is required.",
    "price.required" := "Service price is required.",
    "price.numeric" := "Price must be a valid number.",
    "price.min" := "Price cannot be negative.",
    "duration_minutes.required" := "Service duration is required.",
    "duration_minutes.min" := "Service duration must be at least 15 minutes.",
    "duration_minutes.max" := "Service duration cannot exceed 8 hours."
  ]

  /** The custom message of a violation, or None where the framework's default text applies. */
  function Message(v: Violation): Option<string>
  {
    if Key(v) in Messages then Some(Messages[Key(v)]) else None
  }

  /** Every violation names one of the five fields of the form. */
  lemma ReportedFieldsAreKnown(f: ServiceForm)
    ensures forall v :: v in Violations(Rules(f)) ==> v.field in FieldNames
  {
    var rules := Rules(f);
    assert rules[0].0 == "name" && rules[1].0 == "description" && rules[2].0 == "price";
    assert rules[3].0 == "duration_minutes" && rules[4].0 == "is_active";
    assert forall i :: 0 <= i < |rules| ==> rules[i].0 in FieldNames;
  }

  /** A negative price is reported on price with "Price cannot be negative.". */
  lemma NegativePriceReported(f: ServiceForm)
    requires Numeric(f.price) && Hundredths(f.price) < 0
    ensures Violation("price", "min") in Validate(f).error
    ensures Message(Violation("price", "min")) == Some("Price cannot be negative.")
  {
    assert Message(Violation("price", "min")) == Some("Price cannot be negative.") by {
      assert Key(Violation("price", "min")) == "price.min";
    }
    assert Violation("price", "min") in Validate(f).error by {
      var rules := Rules(f);
      FirstFailedAt(rules[2].1, 2);
      ReportedAt(rules, 2, "min");
    }
  }

  /** A duration over 480 minutes is reported with "Service duration cannot exceed 8 hours.". */
  lemma LongDurationReported(f: ServiceForm)
    requires f.durationMinutes.Integer? && f.durationMinutes.i > MaxDuration
    ensures Violation("duration_minutes", "max") in Validate(f).error
    ensures Message(Violation("duration_minutes", "max")) == Some("Service duration cannot exceed 8 hours.")
  {
    assert Message(Violation("duration_minutes", "max")) == Some("Service duration cannot exceed 8 hours.") by {
      assert Key(Violation("duration_minutes", "max")) == "duration_minutes.max";
    }
    assert Violation("duration_minutes", "max") in Validate(f).error by {
      var rules := Rules(f);
      FirstFailedAt(rules[3].1, 3);
      ReportedAt(rules, 3, "max");
    }
  }

  /** An accepted duration is between 15 minutes and 8 hours; its label shows at most 8 hours. */
  lemma AcceptedDurationWithinEightHours(f: ServiceForm)
    requires Validate(f).Success?
    ensures var hm := DurationParts(Validate(f).value.durationMinutes);
      (hm.0 == 0 ==> hm.1 >= 15) && 0 <= hm.0 <= 8 && 0 <= hm.1 < 60 && (hm.0 == 8 ==> hm.1 == 0)
  {
  }
}
