/** app/Models/Appointment.php: status predicates, scopes, the badge colour and the amount label. */
module AppointmentModel {
  import opened Wrappers
  import opened Seqs
  import Money

  /**
   * An appointments row. Instants are seconds; amount is in cents (the
   * decimal:2 cast); status is the stored string.
   */
  datatype Appointment = Appointment(
    id: int,
    clientId: int,
    agentId: int,
    serviceId: int,
    scheduledAt: int,
    endsAt: int,
    status: string,
    amount: int,
    paymentIntentId: Option<string>,
    notes: Option<string>,
    createdAt: int)

  const Pending: string := "pending"
  const Confirmed: string := "confirmed"
  const Completed: string := "completed"
  const Cancelled: string := "cancelled"

  /** The status enumeration of the appointments table. */
  predicate ValidStatus(s: string)
  {
    s == Pending || s == Confirmed || s == Completed || s == Cancelled
  }

  predicate IsConfirmed(a: Appointment) { a.status == Confirmed }
  predicate IsPending(a: Appointment) { a.status == Pending }

  lemma ConfirmedExcludesPending(a: Appointment)
    ensures !(IsConfirmed(a) && IsPending(a))
  {
  }

  /** getStatusColorAttribute. */
  function StatusColor(status: string): (colour: string)
    ensures colour == "gray" <==> !ValidStatus(status)
    ensures colour in {"green", "yellow", "blue", "red", "gray"}
  {
    if status == Confirmed then "green"
    else if status == Pending then "yellow"
    else if status == Completed then "blue"
    else if status == Cancelled then "red"
    else "gray"
  }

  /** Distinct statuses of the enumeration get distinct colours. */
  lemma StatusColorInjective(s: string, t: string)
    requires ValidStatus(s) && ValidStatus(t) && StatusColor(s) == StatusColor(t)
    ensures s == t
  {
  }

  /** getFormattedAmountAttribute: '$' . number_format(amount, 2). */
  function FormattedAmount(a: Appointment): (text: string)
    ensures Money.ParseMoney(text) == Some(a.amount)
    ensures Money.MoneyLayout(text, a.amount)
  {
    Money.FormatMoneyRoundTrip(a.amount);
    Money.FormatMoneyLayout(a.amount);
    Money.FormatMoney(a.amount)
  }

  function ScopeConfirmed(xs: seq<Appointment>): (r: seq<Appointment>)
    ensures forall a :: a in r <==> a in xs && a.status == "confirmed"
  {
    Filter(xs, IsConfirmed)
  }

  function ScopePending(xs: seq<Appointment>): (r: seq<Appointment>)
    ensures forall a :: a in r <==> a in xs && a.status == "pending"
  {
    Filter(xs, IsPending)
  }

  /** scopeUpcoming: scheduled strictly after now. */
  function ScopeUpcoming(xs: seq<Appointment>, now: int): (r: seq<Appointment>)
    ensures forall a :: a in r <==> a in xs && a.scheduledAt > now
  {
    Filter(xs, (a: Appointment) => a.scheduledAt > now)
  }

  /** The amount column, for sum('amount'). */
  function AmountOf(a: Appointment): int { a.amount }

  // The orders the controllers list appointments in (ORDER BY on one column).

  /** orderBy('scheduled_at') */
  function EarlierFirst(): (le: (Appointment, Appointment) -> bool)
    ensures TotalPreorder(le)
    ensures forall a, b :: le(a, b) <==> a.scheduledAt <= b.scheduledAt
  {
    (a: Appointment, b: Appointment) => a.scheduledAt <= b.scheduledAt
  }

  /** orderBy('scheduled_at', 'desc') */
  function LaterFirst(): (le: (Appointment, Appointment) -> bool)
    ensures TotalPreorder(le)
    ensures forall a, b :: le(a, b) <==> a.scheduledAt >= b.scheduledAt
  {
    (a: Appointment, b: Appointment) => a.scheduledAt >= b.scheduledAt
  }

  /** latest(): orderBy('created_at', 'desc') */
  function NewestFirst(): (le: (Appointment, Appointment) -> bool)
    ensures TotalPreorder(le)
    ensures forall a, b :: le(a, b) <==> a.createdAt >= b.createdAt
  {
    (a: Appointment, b: Appointment) => a.createdAt >= b.createdAt
  }
}
