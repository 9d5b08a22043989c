/**
 * app/Http/Controllers/AdminController.php: the dashboard figures, the five
 * latest bookings, and the services, agents and appointments views that
 * show() dispatches to.
 */
module AdminController {
  import opened Wrappers
  import opened Calendar
  import opened Seqs
  import opened Forms
  import opened UserModel
  import opened ServiceModel
  import opened AppointmentModel

  // ---------------------------------------------------------------------
  // index()
  // ---------------------------------------------------------------------

  datatype AdminStats = AdminStats(totalAppointments: int, totalRevenue: int, totalAgents: int, totalClients: int,
                                   monthlyRevenue: int)

  datatype Dashboard = Dashboard(stats: AdminStats, recentAppointments: seq<Appointment>)

  const RecentLimit: int := 5

  predicate IsCompleted(a: Appointment) { a.status == Completed }

  /** Completed and created in the month number month (whereMonth: any year). */
  predicate CompletedInMonth(month: int, monthOf: int -> int, a: Appointment)
  {
    a.status == Completed && monthOf(a.createdAt) == month
  }

  /**
   * index() for the month number month; monthOf gives the month number of
   * an instant. recentAppointments is latest()->take(5).
   */
  function Index(appointments: seq<Appointment>, users: seq<User>, month: int, monthOf: int -> int): (d: Dashboard)
    ensures d.stats.totalAppointments == |appointments|
    ensures d.stats.totalAgents == |ScopeAgents(users)| && d.stats.totalClients == |ScopeClients(users)|
    ensures d.stats.totalAgents + d.stats.totalClients <= |users|
    ensures d.stats.totalRevenue == Sum(Filter(appointments, IsCompleted), AmountOf)
    ensures d.stats.monthlyRevenue == Sum(Filter(appointments, (a: Appointment) => CompletedInMonth(month, monthOf, a)), AmountOf)
    ensures |d.recentAppointments| == (if |appointments| < RecentLimit then |appointments| else RecentLimit)
    ensures forall i, j :: 0 <= i < j < |d.recentAppointments| ==>
              d.recentAppointments[i].createdAt >= d.recentAppointments[j].createdAt
    ensures multiset(d.recentAppointments) <= multiset(appointments)
  {
    ScopeCountsBounded(users);
    var recent := FirstInOrder(appointments, NewestFirst(), RecentLimit);
    assert forall i, j :: 0 <= i < j < |recent| ==> NewestFirst()(recent[i], recent[j]);
    Dashboard(
      AdminStats(|appointments|, Sum(Filter(appointments, IsCompleted), AmountOf), |ScopeAgents(users)|,
                 |ScopeClients(users)|, Sum(Filter(appointments, (a: Appointment) => CompletedInMonth(month, monthOf, a)), AmountOf)),
      recent)
  }

  /**
   * The revenues count the completed rows and no others; the monthly rows
   * are among them, so with non-negative amounts the monthly revenue is at
   * most the total.
   */
  lemma RevenueOverCompletedRows(appointments: seq<Appointment>, users: seq<User>, month: int, monthOf: int -> int)
    ensures forall a :: a in Filter(appointments, IsCompleted) <==> a in appointments && a.status == "completed"
    ensures forall a :: a in Filter(appointments, (a: Appointment) => CompletedInMonth(month, monthOf, a)) <==>
              a in appointments && a.status == "completed" && monthOf(a.createdAt) == month
    ensures (forall a :: a in appointments ==> a.amount >= 0) ==>
              0 <= Index(appointments, users, month, monthOf).stats.monthlyRevenue
                <= Index(appointments, users, month, monthOf).stats.totalRevenue
  {
    if forall a :: a in appointments ==> a.amount >= 0 {
      SumFilterMonotone(appointments, (a: Appointment) => CompletedInMonth(month, monthOf, a), IsCompleted, AmountOf);
    }
  }

  /** Every booking not among the recent ones was created no later than each recent one. */
  lemma RecentAreTheLatest(appointments: seq<Appointment>, users: seq<User>, month: int, monthOf: int -> int)
    ensures var recent := Index(appointments, users, month, monthOf).recentAppointments;
      forall x, y :: x in recent && y in multiset(appointments) - multiset(recent) ==> x.createdAt >= y.createdAt
  {
    var recent := FirstInOrder(appointments, NewestFirst(), RecentLimit);
    forall x, y | x in recent && y in multiset(appointments) - multiset(recent) ensures x.createdAt >= y.createdAt {
      assert NewestFirst()(x, y);
    }
  }

  // ---------------------------------------------------------------------
  // show(): the appointments view and its filters
  // ---------------------------------------------------------------------

  /** The query string of the appointments view. */
  datatype AppointmentFilters = AppointmentFilters(status: Input, agentId: Input, dateFrom: Input, dateTo: Input)

  /**
   * Each `if ($request->x)` filter: a falsy value imposes nothing; otherwise
   * the row must match it, and a value of the wrong kind matches no row.
   */
  predicate StatusMatches(v: Input, a: Appointment) { v.Text? && a.status == v.s }
  predicate AgentMatches(v: Input, a: Appointment) { v.Integer? && a.agentId == v.i }
  predicate FromMatches(v: Input, a: Appointment) { v.Moment? && DateOf(a.scheduledAt) >= DateOf(v.t) }
  predicate ToMatches(v: Input, a: Appointment) { v.Moment? && DateOf(a.scheduledAt) <= DateOf(v.t) }

  /** The conjunction the refined query stands for. */
  predicate MatchesAll(f: AppointmentFilters, a: Appointment)
  {
    && (Truthy(f.status) ==> StatusMatches(f.status, a))
    && (Truthy(f.agentId) ==> AgentMatches(f.agentId, a))
    && (Truthy(f.dateFrom) ==> FromMatches(f.dateFrom, a))
    && (Truthy(f.dateTo) ==> ToMatches(f.dateTo, a))
  }

  /** The query refined step by step, one guarded where per filter. */
  function Refine(f: AppointmentFilters, appointments: seq<Appointment>): (q: seq<Appointment>)
    ensures forall a :: a in q <==> a in appointments && MatchesAll(f, a)
    ensures multiset(q) <= multiset(appointments)
  {
    var q1 := RefineStatus(f.status, appointments);
    var q2 := RefineAgent(f.agentId, q1);
    var q3 := RefineFrom(f.dateFrom, q2);
    RefineTo(f.dateTo, q3)
  }

  function RefineStatus(v: Input, q: seq<Appointment>): (r: seq<Appointment>)
    ensures forall a :: a in r <==> a in q && (Truthy(v) ==> StatusMatches(v, a))
    ensures multiset(r) <= multiset(q)
  {
    if Truthy(v) then FilterSubMultiset(q, (a: Appointment) => StatusMatches(v, a)); Filter(q, (a: Appointment) => StatusMatches(v, a))
    else q
  }

  function RefineAgent(v: Input, q: seq<Appointment>): (r: seq<Appointment>)
    ensures forall a :: a in r <==> a in q && (Truthy(v) ==> AgentMatches(v, a))
    ensures multiset(r) <= multiset(q)
  {
    if Truthy(v) then FilterSubMultiset(q, (a: Appointment) => AgentMatches(v, a)); Filter(q, (a: Appointment) => AgentMatches(v, a))
    else q
  }

  function RefineFrom(v: Input, q: seq<Appointment>): (r: seq<Appointment>)
    ensures forall a :: a in r <==> a in q && (Truthy(v) ==> FromMatches(v, a))
    ensures multiset(r) <= multiset(q)
  {
    if Truthy(v) then FilterSubMultiset(q, (a: Appointment) => FromMatches(v, a)); Filter(q, (a: Appointment) => FromMatches(v, a))
    else q
  }

  function RefineTo(v: Input, q: seq<Appointment>): (r: seq<Appointment>)
    ensures forall a :: a in r <==> a in q && (Truthy(v) ==> ToMatches(v, a))
    ensures multiset(r) <= multiset(q)
  {
    if Truthy(v) then FilterSubMultiset(q, (a: Appointment) => ToMatches(v, a)); Filter(q, (a: Appointment) => ToMatches(v, a))
    else q
  }

  /** The appointments view: the refined query, orderBy('scheduled_at', 'desc'). */
  function AppointmentsListing(f: AppointmentFilters, appointments: seq<Appointment>): (r: seq<Appointment>)
    ensures forall a :: a in r <==> a in appointments && MatchesAll(f, a)
    ensures multiset(r) <= multiset(appointments)
    ensures forall i, j :: 0 <= i < j < |r| ==> r[i].scheduledAt >= r[j].scheduledAt
  {
    var q := Refine(f, appointments);
    var r := SortBy(q, LaterFirst());
    assert forall i, j :: 0 <= i < j < |r| ==> LaterFirst()(r[i], r[j]);
    r
  }

  /** With no filter the view lists every booking. */
  lemma NoFilterListsEverything(appointments: seq<Appointment>)
    ensures multiset(AppointmentsListing(AppointmentFilters(Missing, Missing, Missing, Missing), appointments))
            == multiset(appointments)
  {
  }

  // ---------------------------------------------------------------------
  // show(): dispatch on type
  // ---------------------------------------------------------------------

  /** withCount('agentAppointments'): each agent with the number of bookings with them. */
  function WithCounts(agents: seq<User>, appointments: seq<Appointment>): (r: seq<(User, int)>)
    ensures |r| == |agents|
    ensures forall i :: 0 <= i < |agents| ==>
              r[i].0 == agents[i] && r[i].1 == |Filter(appointments, (a: Appointment) => a.agentId == agents[i].id)|
  {
    if agents == [] then []
    else [(agents[0], |Filter(appointments, (a: Appointment) => a.agentId == agents[0].id)|)] + WithCounts(agents[1..], appointments)
  }

  datatype AdminView =
    | ServicesView(services: seq<Service>)
    | AgentsView(agents: seq<(User, int)>)
    | AppointmentsView(appointments: seq<Appointment>, agentChoices: seq<User>)
    | DashboardView(dashboard: Dashboard)

  const ServicesType: string := "services"
  const AgentsType: string := "agents"
  const AppointmentsType: string := "appointments"

  /** The services view: every service, by name. */
  function ServicesListing(services: seq<Service>): (r: seq<Service>)
    ensures multiset(r) == multiset(services)
    ensures forall i, j :: 0 <= i < j < |r| ==> LexLe(r[i].name, r[j].name)
  {
    var sorted := SortBy(services, ServiceModel.ByName());
    assert forall i, j :: 0 <= i < j < |sorted| ==> ServiceModel.ByName()(sorted[i], sorted[j]);
    sorted
  }

  /** The agents view: every agent by name, with the number of bookings with them. */
  function AgentsListing(users: seq<User>, appointments: seq<Appointment>): (r: seq<(User, int)>)
    ensures |r| == |ScopeAgents(users)|
    ensures forall i :: 0 <= i < |r| ==>
              && r[i].0 in users && r[i].0.role == "agent"
              && r[i].1 == |Filter(appointments, (a: Appointment) => a.agentId == r[i].0.id)|
    ensures forall i, j :: 0 <= i < j < |r| ==> LexLe(r[i].0.name, r[j].0.name)
    ensures multiset(UsersOf(r)) == multiset(ScopeAgents(users))
  {
    var agents := ScopeAgents(users);
    var sorted := AgentsByName(agents);
    var r := WithCounts(sorted, appointments);
    assert UsersOf(r) == sorted;
    r
  }

  /** The users of a listing, without their counts. */
  function UsersOf(r: seq<(User, int)>): seq<User>
  {
    seq(|r|, i requires 0 <= i < |r| => r[i].0)
  }

  /** The agents of the roster by name; a permutation of it. */
  function AgentsByName(agents: seq<User>): (r: seq<User>)
    ensures multiset(r) == multiset(agents)
    ensures |r| == |agents|
    ensures forall u :: u in r ==> u in agents
    ensures forall i, j :: 0 <= i < j < |r| ==> LexLe(r[i].name, r[j].name)
  {
    var sorted := SortBy(agents, UserModel.ByName());
    assert forall i, j :: 0 <= i < j < |sorted| ==> UserModel.ByName()(sorted[i], sorted[j]);
    sorted
  }

  /** The view show() renders for type (absent means 'dashboard'). */
  function Show(kind: Input, filters: AppointmentFilters, services: seq<Service>, users: seq<User>,
                appointments: seq<Appointment>, month: int, monthOf: int -> int): (v: AdminView)
    ensures !(kind.Text? && (kind.s == "services" || kind.s == "agents" || kind.s == "appointments")) ==>
              v == DashboardView(Index(appointments, users, month, monthOf))
    ensures kind == Text("services") ==> v == ServicesView(ServicesListing(services))
    ensures kind == Text("agents") ==> v == AgentsView(AgentsListing(users, appointments))
    ensures kind == Text("appointments") ==>
              v == AppointmentsView(AppointmentsListing(filters, appointments), AgentsByName(ScopeAgents(users)))
  {
    if kind == Text(ServicesType) then ServicesView(ServicesListing(services))
    else if kind == Text(AgentsType) then AgentsView(AgentsListing(users, appointments))
    else if kind == Text(AppointmentsType) then
      AppointmentsView(AppointmentsListing(filters, appointments), AgentsByName(ScopeAgents(users)))
    else DashboardView(Index(appointments, users, month, monthOf))
  }
}
