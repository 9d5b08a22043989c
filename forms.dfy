/**
 * Request values as Laravel's validator sees them after decoding, and the
 * rules the core's validators use: required, string, max, integer,
 * numeric, boolean and date.
 */
module Forms {
  import opened Wrappers

  /**
   * One request field. Decimal holds a number with at most two decimals, in
   * hundredths; Moment holds a value that parses as a date, as an instant.
   */
  datatype Input =
    | Missing
    | Null
    | Text(s: string)
    | Integer(i: int)
    | Decimal(hundredths: int)
    | Flag(b: bool)
    | Moment(t: int)

  /** The characters PHP's trim() removes by default. */
  predicate IsTrimmable(c: char)
  {
    c == ' ' || c == '\t' || c == '\n' || c == '\r' || c as int == 0 || c as int == 11
  }

  predicate Blank(s: string) { forall i :: 0 <= i < |s| ==> IsTrimmable(s[i]) }

  /** The required rule: present, not null, and not a string that trims to "". */
  predicate Filled(v: Input)
  {
    match v
    case Missing => false
    case Null => false
    case Text(s) => !Blank(s)
    case _ => true
  }

  /** The boolean rule: true, false, 0, 1, "0" or "1". */
  predicate BooleanLike(v: Input)
  {
    v.Flag? || (v.Integer? && (v.i == 0 || v.i == 1)) || (v.Text? && (v.s == "0" || v.s == "1"))
  }

  /** The boolean cast of a value the boolean rule accepted. */
  function AsBool(v: Input): bool
    requires BooleanLike(v)
  {
    match v
    case Flag(b) => b
    case Integer(i) => i == 1
    case Text(s) => s == "1"
  }

  /** The numeric rule, and the value in hundredths it denotes. */
  predicate Numeric(v: Input) { v.Integer? || v.Decimal? }

  function Hundredths(v: Input): int
    requires Numeric(v)
  {
    if v.Integer? then v.i * 100 else v.hundredths
  }

  /** nullable|string|max:n (n < 0 for no maximum): absent, null, or a string of at most n characters. */
  predicate NullableString(v: Input, n: int)
  {
    v.Missing? || v.Null? || (v.Text? && (n < 0 || |v.s| <= n))
  }

  /** The stored value of a nullable string field. */
  function NullableValue(v: Input): Option<string>
  {
    if v.Text? then Some(v.s) else None
  }

  /** PHP truthiness of a request value, as `if ($request->x)` tests it. */
  predicate Truthy(v: Input)
  {
    match v
    case Missing => false
    case Null => false
    case Text(s) => s != "" && s != "0"
    case Integer(i) => i != 0
    case Decimal(h) => h != 0
    case Flag(b) => b
    case Moment(_) => true
  }

  /** One field's rules in order, each paired with whether it holds. */
  predicate Passes(rules: seq<(string, bool)>)
  {
    forall j :: 0 <= j < |rules| ==> rules[j].1
  }

  /** The first rule of a field that fails, if any. */
  function FirstFailed(rules: seq<(string, bool)>): (r: Option<string>)
    ensures r.None? <==> Passes(rules)
    ensures r.Some? ==> exists k :: 0 <= k < |rules| && rules[k].0 == r.value && !rules[k].1
                                    && forall j :: 0 <= j < k ==> rules[j].1
  {
    if rules == [] then None
    else if !rules[0].1 then Some(rules[0].0)
    else
      var r := FirstFailed(rules[1..]);
      assert forall j :: 1 <= j < |rules| ==> rules[j] == rules[1..][j - 1];
      assert r.Some? ==> exists k :: 1 <= k < |rules| && rules[k].0 == r.value && !rules[k].1
                                      && forall j :: 0 <= j < k ==> rules[j].1;
      r
  }

  /** The rule reported is the first one that fails. */
  lemma {:induction false} FirstFailedAt(rules: seq<(string, bool)>, k: int)
    requires 0 <= k < |rules| && !rules[k].1
    requires forall j :: 0 <= j < k ==> rules[j].1
    ensures FirstFailed(rules) == Some(rules[k].0)
  {
    if k > 0 {
      assert rules[1..][k - 1] == rules[k];
      FirstFailedAt(rules[1..], k - 1);
    }
  }

  /** A failed rule, named by the field and the rule as in a messages() key. */
  datatype Violation = Violation(field: string, rule: string)

  /** The messages() key of a violation, e.g. "price.min". */
  function Key(v: Violation): string { v.field + "." + v.rule }

  /** One violation per field whose rules do not all hold, in field order. */
  function Violations(fields: seq<(string, seq<(string, bool)>)>): (r: seq<Violation>)
    ensures r == [] <==> forall i :: 0 <= i < |fields| ==> Passes(fields[i].1)
    ensures forall v :: v in r <==> exists i :: 0 <= i < |fields| && fields[i].0 == v.field
                                                && FirstFailed(fields[i].1) == Some(v.rule)
  {
    if fields == [] then []
    else
      var rest := Violations(fields[1..]);
      assert forall i :: 1 <= i < |fields| ==> fields[i] == fields[1..][i - 1];
      match FirstFailed(fields[0].1)
      case None => rest
      case Some(rule) => [Violation(fields[0].0, rule)] + rest
  }

  /** A field whose first failing rule is rule is reported with it. */
  lemma ReportedAt(fields: seq<(string, seq<(string, bool)>)>, i: int, rule: string)
    requires 0 <= i < |fields| && FirstFailed(fields[i].1) == Some(rule)
    ensures Violation(fields[i].0, rule) in Violations(fields)
  {
  }

  predicate PassesAll(fields: seq<(string, seq<(string, bool)>)>)
  {
    forall i :: 0 <= i < |fields| ==> Passes(fields[i].1)
  }

  lemma PassesAllAppend(a: seq<(string, seq<(string, bool)>)>, b: seq<(string, seq<(string, bool)>)>)
    ensures PassesAll(a + b) <==> PassesAll(a) && PassesAll(b)
  {
    assert forall i :: 0 <= i < |a| ==> (a + b)[i] == a[i];
    assert forall i :: 0 <= i < |b| ==> (a + b)[|a| + i] == b[i];
  }
}
