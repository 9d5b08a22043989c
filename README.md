# Appointment booking: a Dafny model

This project models the core of a Laravel appointment-booking application:

- **Slot listing.** `BookingController` computes the bookable time slots for one agent, one service and one date (`generateAvailableSlots` and `show`).
- **Models.** The `Service`, `Appointment` and `User` models: predicates, scopes and formatters.
- **Controllers.**
  - `AppointmentController`: store, update, destroy and the role-filtered index.
  - `AgentController`: the dashboard, the appointments listing and the replacement of all availability rows.
  - `AgentBlockedTimeController`: blocked-time creation.
  - `AdminController`: dashboard aggregates, the filtered appointments view and the type dispatch.
- **Validators.** The `StoreServiceRequest` and `StoreAppointmentRequest` form requests.

## How the model represents things

- **Times** are integer seconds. A date is a day number (`Calendar.DateOf(t) = t / 86400`), and a time of day is seconds since midnight.
- **Money** is integer cents. `Money.FormatMoney` is `'$' . number_format(x, 2)`.
- **Records.** Each table row is a datatype:
  - `UserModel.User`
  - `ServiceModel.Service`
  - `AppointmentModel.Appointment`
  - `AgentSchedule.Availability`
  - `AgentSchedule.BlockedTime`
- **The database** is the class `Persistence.Database`, one `seq` field per table plus each table's next id. Its invariant `Valid()` says that ids are unique and below the next id, that statuses are in the enumeration, that availability rules are well formed, and that blocked intervals are non-empty.
- **Controller methods that write** take the database and state the whole new state of every table.
- **Read-only controller code** (queries, counts, sums, sorts) is written as functions over the tables.
- **A request field** is a `Forms.Input`. It is missing, null, a string, an integer, a decimal, a boolean, or an instant that a date rule has already parsed.
- **A rule chain** is a list of `(rule, holds)` pairs per field. `Forms.Violations` reports the first failing rule of every field. A message map is keyed by `field.rule`.
- **`orderBy`** is an insertion sort, `Seqs.SortBy`, over a total preorder. Since SQL leaves ties unordered, each listing promises order plus a permutation (or sub-multiset) of the selected rows, never a particular tie order.
- **`take(n)`** is `Seqs.FirstInOrder`.
- **String order** is code-point order.

### Behaviour worth knowing

- **Exact fit.** The loop test `time + slotDuration <= endTime` is inclusive, so a service exactly as long as the working window keeps one slot, at the window start (`BookingController.ExactFitKeepsOneSlot`).
- **Blocked intervals.** `show` passes on only the blocked intervals whose `start_time` falls on the date. An interval that began the evening before and runs into the date is ignored (`BookingController.DayBlocked`).
- **Appointments.** `show` selects appointments by the date of `scheduled_at`. An appointment that starts the evening before and runs past midnight is ignored, so its tail does not block the early slots (`BookingController.DayAppointments`).
- **Choice of rule.** When the weekday has several available rows, `first()` takes the first one in table order (`BookingController.ListedSlotsUseFirstRule`).
- **Comparing with another field.** In `AgentBlockedTimeController`, `after:start_time` compares only when `start_time` holds a date. When `start_time` is missing or is not a date, the comparison is skipped, and `start_time`'s own rules refuse the form (`AgentBlockedTimeController.Rules`).
- **Comparing with another field under `date_format`.** In `AgentController`, `end_time` also carries `date_format:H:i`, so `after` looks up the entry's `start_time` value. The check passes when that value is missing or null. It fails when `start_time` holds text that is not H:i. So an entry with `start_time` "abc" and a good `end_time` is refused on both fields (`AgentController.EndRules`, `AgentController.UnreadableStartFailsBoth`).

## Model

| member | source | states |
|---|---|---|
| BookingController.GenerateAvailableSlots | app/Http/Controllers/BookingController.php:83-130 | The loop over the 30-minute grid, with its two conflict loops, returns exactly `AvailableSlots`, the filtered grid. |
| BookingController.AvailableSlotsSound | app/Http/Controllers/BookingController.php:86-126 | Each slot: lasts duration*60 seconds; lies inside the window; starts at windowStart + k*1800; carries the label of its start; overlaps no given appointment or blocked interval under the strict half-open test. Starts strictly increase. |
| BookingController.AvailableSlotsComplete | app/Http/Controllers/BookingController.php:90-127 | A start is offered iff it is on the grid, fits in the window and overlaps nothing, so no free candidate is missing. |
| BookingController.TooLongServiceHasNoSlots | app/Http/Controllers/BookingController.php:90 | A service longer than the window yields no slot. |
| BookingController.ExactFitKeepsOneSlot | app/Http/Controllers/BookingController.php:90 | A service exactly as long as the window yields one slot, at the window start. |
| BookingController.BookingWithdrawsOverlappingSlots | app/Http/Controllers/BookingController.php:97-105 | One more appointment removes exactly the starts that overlap it; a slot ending at its start survives. |
| BookingController.BlockingWithdrawsOverlappingSlots | app/Http/Controllers/BookingController.php:107-118 | The same for one more blocked interval. |
| BookingController.ExampleAroundOneAppointment | app/Http/Controllers/BookingController.php:90-118 | With a 09:00-17:00 window, 60 minutes and a booking 10:00-11:00: 09:00, 11:00 and 16:00 are offered; 09:30, 10:00, 10:30 and 16:30 are not. |
| BookingController.DisplayTimeRoundTrip | app/Http/Controllers/BookingController.php:124 | The `g:i A` label reads back to the minute of the day of the slot start. |
| BookingController.SlotsFromExact | app/Http/Controllers/BookingController.php:90-127 | From any grid point, a start is emitted iff it is a free candidate from there. |
| BookingController.OfferedIsCandidate | app/Http/Controllers/BookingController.php:90-127 | Nothing extra: an emitted start is a free grid candidate. |
| BookingController.CandidateIsOffered | app/Http/Controllers/BookingController.php:90-127 | Nothing missing: a free grid candidate is emitted. |
| BookingController.SlotsFromIncreasing | app/Http/Controllers/BookingController.php:90 | Emitted starts strictly increase. |
| BookingController.SlotsFromSound | app/Http/Controllers/BookingController.php:88-93 | Every emitted slot is a candidate, ends duration seconds later and carries its label. |
| BookingController.SelectRule | app/Http/Controllers/BookingController.php:44-47 | None iff the agent has no available row for the weekday; otherwise one of the rows. |
| BookingController.ListedSlotsUseFirstRule | app/Http/Controllers/BookingController.php:44-51 | No available rule gives an empty list; with several, the first in table order decides. |
| BookingController.DayAppointments | app/Http/Controllers/BookingController.php:53-56 | Exactly the agent's confirmed or pending appointments scheduled on the date. |
| BookingController.DayBlocked | app/Http/Controllers/BookingController.php:59-61 | Exactly the agent's blocked intervals that start on the date. |
| BookingController.OtherAppointmentsIgnored | app/Http/Controllers/BookingController.php:53-56 | An appointment of another agent, on another date, or completed/cancelled, does not change the list. |
| BookingController.DayAppointmentsSkip | app/Http/Controllers/BookingController.php:53-56 | Appending a row that is not busy on the date leaves the selection unchanged. |
| BookingController.OtherBlockedTimesIgnored | app/Http/Controllers/BookingController.php:59-61 | A blocked interval of another agent, or starting on another date, does not change the list. |
| BookingController.DayBlockedSkip | app/Http/Controllers/BookingController.php:59-61 | Appending a blocked row not starting on the date leaves the selection unchanged. |
| BookingController.ShowRulesMeaning | app/Http/Controllers/BookingController.php:33-37 | The request passes iff both ids exist and the date is today or later. |
| BookingController.Show | app/Http/Controllers/BookingController.php:31-78 | Fails iff validation fails, with those errors. On success: the found service and agent, and the slots of the first available rule for the weekday against the busy appointments and blocked intervals of the date. |
| ServiceModel.ScopeActive | app/Models/Service.php:68-71 | Keeps exactly the active services. |
| ServiceModel.FormattedPrice | app/Models/Service.php:84-87 | `$`, a `-` for a negative price, the whole dollars with a `,` before every group of three digits from the right, `.` and two cent digits; reads back to the price in cents. |
| ServiceModel.DurationParts | app/Models/Service.php:94-95 | h*60 + m == d with \|m\| < 60, signs following d (PHP truncation). |
| ServiceModel.FormattedDurationRoundTrip | app/Models/Service.php:92-104 | The `{h}h {m}m` / `{h}h` / `{m}m` label reads back to the duration. |
| ServiceModel.FormattedDurationWholeHours | app/Models/Service.php:97-103 | 0 gives `0m`; a whole number h > 0 of hours gives `{h}h`. |
| ServiceModel.FindService | app/Http/Controllers/AppointmentController.php:57 | findOrFail: a service with that id, or none iff no row has it. |
| ServiceModel.ByName | app/Http/Controllers/AdminController.php:54 | orderBy('name') is a total preorder on names. |
| AppointmentModel.ConfirmedExcludesPending | app/Models/Appointment.php:130-141 | isConfirmed and isPending never hold together. |
| AppointmentModel.StatusColor | app/Models/Appointment.php:154-162 | Gray iff the status is outside the enumeration; the colour is one of five. |
| AppointmentModel.StatusColorInjective | app/Models/Appointment.php:154-162 | The four statuses get four different colours. |
| AppointmentModel.FormattedAmount | app/Models/Appointment.php:146-149 | `$`, a `-` for a negative amount, the whole dollars grouped in threes by `,`, `.` and two cent digits; reads back to the amount. |
| AppointmentModel.ScopeConfirmed | app/Models/Appointment.php:106-109 | Exactly the confirmed rows. |
| AppointmentModel.ScopePending | app/Models/Appointment.php:114-117 | Exactly the pending rows. |
| AppointmentModel.ScopeUpcoming | app/Models/Appointment.php:122-125 | Exactly the rows scheduled strictly after now. |
| AppointmentModel.EarlierFirst | app/Http/Controllers/AgentController.php:24 | orderBy('scheduled_at') is a total preorder. |
| AppointmentModel.LaterFirst | app/Http/Controllers/AppointmentController.php:31 | orderBy('scheduled_at', 'desc') is a total preorder. |
| AppointmentModel.NewestFirst | app/Http/Controllers/AdminController.php:24-27 | latest() (created_at descending) is a total preorder. |
| UserModel.RoleOf | app/Models/User.php:96-115 | Admin/agent/client iff the role is that string; none for any other role. |
| UserModel.RolesExclusive | app/Models/User.php:96-115 | At most one role predicate holds; an unknown role satisfies none. |
| UserModel.ScopeAgents | app/Models/User.php:120-123 | Exactly the agents. |
| UserModel.ScopeClients | app/Models/User.php:128-131 | Exactly the clients. |
| UserModel.ScopeAdmins | app/Models/User.php:136-139 | Exactly the admins. |
| UserModel.ScopesDisjoint | app/Models/User.php:120-139 | The three scopes are pairwise disjoint. |
| UserModel.ScopeCountsBounded | app/Models/User.php:120-139 | Their sizes add up to at most the number of users. |
| UserModel.FindUser | app/Http/Controllers/AppointmentController.php:58 | findOrFail: a user with that id, or none iff no row has it. |
| UserModel.ByName | app/Http/Controllers/AdminController.php:60-63 | orderBy('name') is a total preorder on names. |
| Money.FormatMoneyRoundTrip | app/Models/Service.php:86 | number_format(x, 2) with `$` reads back to x cents. |
| Money.FormatMoneyInjective | app/Models/Appointment.php:148 | Distinct amounts are formatted differently. |
| Decimal.GroupThousands | app/Models/Service.php:86 | The thousands separator of number_format: removing the commas gives the digits back, the first digit stays first, and a `,` sits exactly at the positions a multiple of four from the end, so the length grows by (n-1)/3. |
| Money.FormatMoneyLayout | app/Models/Service.php:86 | `'$' . number_format(x, 2)` is `$`, an optional `-`, digits with a `,` exactly every three places from the right, `.` and two digits, spelling out x in cents without leading zeros. |
| Persistence.Database.InsertAvailability | app/Http/Controllers/AgentController.php:80-85 | create() appends one row with the next id and nothing else changes. |
| Persistence.Database.DeleteAvailabilitiesOf | app/Http/Controllers/AgentController.php:76 | The agent's rows are gone; the rest stay, in order. |
| Persistence.Database.InsertAppointment | app/Http/Controllers/AppointmentController.php:65-74 | Appointment::create appends one row with the next id and nothing else changes. |
| Persistence.Database.ReplaceAppointment | app/Http/Controllers/AppointmentController.php:119 | update() replaces one row by a row with the same id; no other row has that id and nothing else changes. |
| Persistence.Database.RemoveAppointment | app/Http/Controllers/AppointmentController.php:130 | delete() removes one row: the others stay in order, and exactly the rows with another id remain. |
| Persistence.Database.InsertBlockedTime | app/Http/Controllers/AgentBlockedTimeController.php:23-27 | create() appends one blocked row and nothing else changes. |
| StoreServiceRequest.RulesMeaning | app/Http/Requests/StoreServiceRequest.php:22-31 | The rules pass iff each field meets its constraints. name is required, a string, at most 255 characters. description is required. price is numeric, 0 to 999999.99. duration_minutes is an integer, 15 to 480. is_active is boolean when present. |
| StoreServiceRequest.Validate | app/Http/Requests/StoreServiceRequest.php:22-31 | Success iff acceptable, with the values inside their bounds. A failure carries at least one violation: the first failing rule of each failing field, in field order. |
| StoreServiceRequest.NameRulesMeaning | app/Http/Requests/StoreServiceRequest.php:25 | name passes iff it is a non-blank string of at most 255 characters. |
| StoreServiceRequest.DescriptionRulesMeaning | app/Http/Requests/StoreServiceRequest.php:26 | description passes iff it is a non-blank string. |
| StoreServiceRequest.PriceRulesMeaning | app/Http/Requests/StoreServiceRequest.php:27 | price passes iff it is numeric and between 0 and 999999.99. |
| StoreServiceRequest.DurationRulesMeaning | app/Http/Requests/StoreServiceRequest.php:28 | duration_minutes passes iff it is an integer from 15 to 480. |
| StoreServiceRequest.ActiveRulesMeaning | app/Http/Requests/StoreServiceRequest.php:29 | is_active passes iff it is absent or boolean. |
| StoreServiceRequest.ReportedFieldsAreKnown | app/Http/Requests/StoreServiceRequest.php:22-31 | Every violation names one of the five fields. |
| StoreServiceRequest.NegativePriceReported | app/Http/Requests/StoreServiceRequest.php:27 | A negative price fails `price.min`, with "Price cannot be negative.". |
| StoreServiceRequest.LongDurationReported | app/Http/Requests/StoreServiceRequest.php:28 | More than 480 minutes fails `duration_minutes.max`, with its message. |
| StoreServiceRequest.AcceptedDurationWithinEightHours | app/Http/Requests/StoreServiceRequest.php:28 | An accepted duration splits into 0..8 hours and 0..59 minutes. It is at least 15 minutes and at most 8h 0m. |
| StoreAppointmentRequest.RulesMeaning | app/Http/Requests/StoreAppointmentRequest.php:22-30 | The rules pass iff agent and service ids exist, scheduled_at is strictly after now, and notes are absent, null or a string of at most 1000 characters. |
| StoreAppointmentRequest.Validate | app/Http/Requests/StoreAppointmentRequest.php:22-30 | Success iff acceptable, with the validated values: existing agent and service, a time after now, notes of at most 1000 characters. A failure carries at least one violation: the first failing rule of each failing field. |
| StoreAppointmentRequest.AcceptedIffRulesHold | app/Http/Requests/StoreAppointmentRequest.php:12-15 | authorize() is always true, so acceptance is decided by the rules alone. |
| StoreAppointmentRequest.PastTimeReported | app/Http/Requests/StoreAppointmentRequest.php:27 | A time not after now fails `scheduled_at.after`, with its message. |
| StoreAppointmentRequest.UnknownAgentReported | app/Http/Requests/StoreAppointmentRequest.php:25 | An unknown agent id fails `agent_id.exists`, with its message. |
| AppointmentController.Index | app/Http/Controllers/AppointmentController.php:18-36 | The visible rows, a permutation of the role filter, latest scheduled first. |
| AppointmentController.IndexByRole | app/Http/Controllers/AppointmentController.php:24-31 | A client sees exactly their rows, an agent exactly theirs, any other role all of them; scheduled_at descends. |
| AppointmentController.Store | app/Http/Controllers/AppointmentController.php:55-78 | Rejected iff validation fails, and then nothing changes. Otherwise exactly one row is appended with the next id, the client, agent and service, and ends_at = scheduled_at + duration minutes. Status is pending, amount is the service price, notes are as sent. No other row changes and there is no overlap check. |
| AppointmentController.UpdateRulesMeaning | app/Http/Controllers/AppointmentController.php:113-117 | The rules pass iff status is absent or in the enumeration and notes and payment id are null or strings. |
| AppointmentController.ApplyUpdate | app/Http/Controllers/AppointmentController.php:119 | Only status, notes and stripe_payment_intent_id can change. Each is written as sent, cleared by null, or kept when absent. A valid status stays valid. |
| AppointmentController.ApplyUpdateIdempotent | app/Http/Controllers/AppointmentController.php:119 | Applying the same update twice equals applying it once. |
| AppointmentController.IndexOfId | app/Http/Controllers/AppointmentController.php:111 | Route binding: the position of the row with the id, or -1 iff there is none. |
| AppointmentController.Update | app/Http/Controllers/AppointmentController.php:111-123 | NotFound iff no row has the id. Rejected iff the rules fail. Otherwise only that row changes, to `ApplyUpdate`; no other table changes. |
| AppointmentController.Destroy | app/Http/Controllers/AppointmentController.php:128-134 | The row with the id is deleted, not marked cancelled; every other row stays, in order. |
| AgentController.Upcoming | app/Http/Controllers/AgentController.php:21-26 | At most 5 of the agent's rows, all scheduled after now, ascending. |
| AgentController.UpcomingAreTheEarliest | app/Http/Controllers/AgentController.php:21-26 | They are min(5, count) of the candidates, and no omitted candidate is earlier than a listed one. |
| AgentController.TodayList | app/Http/Controllers/AgentController.php:28-32 | Exactly the agent's rows on today's date, ascending. |
| AgentController.Stats | app/Http/Controllers/AgentController.php:34-38 | The counts over created_at's month number (year ignored), with completed <= total. |
| AgentController.StatsRevenue | app/Http/Controllers/AgentController.php:37 | Revenue sums the agent's completed rows of the month; it is at most the agent's completed revenue when amounts are non-negative. |
| AgentController.Show | app/Http/Controllers/AgentController.php:95-112 | The agent's rows passing the date filter, ascending. |
| AgentController.ShowByDate | app/Http/Controllers/AgentController.php:102-106 | With a date, exactly the agent's rows on that date; without one, all the agent's rows; ascending. |
| AgentController.EntryRulesMeaning | app/Http/Controllers/AgentController.php:67-70 | An entry passes iff its day is monday..sunday, both times are H:i, end is after start, and is_available is boolean when present. |
| AgentController.DayRulesMeaning | app/Http/Controllers/AgentController.php:67 | day_of_week passes iff it is monday..sunday. |
| AgentController.StartRulesMeaning | app/Http/Controllers/AgentController.php:68 | start_time passes iff it is an H:i time. |
| AgentController.EndRulesMeaning | app/Http/Controllers/AgentController.php:69 | end_time passes iff it is H:i and either start_time is missing or null, or start_time is H:i and end is later than start. |
| AgentController.UnreadableStartFailsBoth | app/Http/Controllers/AgentController.php:68-69 | A non-blank start_time that is not H:i fails `date_format` on start_time and `after` on end_time. |
| AgentController.AvailableRulesMeaning | app/Http/Controllers/AgentController.php:70 | is_available passes iff it is absent or boolean. |
| AgentController.EntriesRulesMeaning | app/Http/Controllers/AgentController.php:67-70 | Every entry's rules pass iff every entry is acceptable. |
| AgentController.UpdateRulesMeaning | app/Http/Controllers/AgentController.php:65-71 | The request passes iff availabilities is a non-empty array of acceptable entries. |
| AgentController.BlankListFailsRequired | app/Http/Controllers/AgentController.php:66 | A null or blank availabilities value is reported on `required` alone. |
| AgentController.Row | app/Http/Controllers/AgentController.php:80-85 | The row stored for an entry is a well-formed rule. |
| AgentController.Rows | app/Http/Controllers/AgentController.php:79-86 | One row per entry. |
| AgentController.Update | app/Http/Controllers/AgentController.php:63-90 | Rejected iff validation fails, and then nothing changes. Otherwise the table is the other agents' rows followed by the submitted entries' rows; no other table changes. |
| AgentController.RowsAt | app/Http/Controllers/AgentController.php:79-86 | Row i is the row of entry i, with id firstId + i. |
| AgentController.RowsOfAgent | app/Http/Controllers/AgentController.php:80 | Every created row belongs to the agent. |
| AgentController.CreateRows | app/Http/Controllers/AgentController.php:79-86 | The foreach appends the entries' rows in order. |
| AgentController.UpdateReplacesOnlyTheAgentsRows | app/Http/Controllers/AgentController.php:76-86 | Afterwards the agent's rows are exactly the submitted ones; other agents' rows are untouched. |
| AgentController.RowsFollowEntries | app/Http/Controllers/AgentController.php:81-84 | Each row carries its entry's day and times; is_available defaults to true. |
| AgentController.UpdateDecidesTheRule | app/Http/Controllers/AgentController.php:76-86 | After an update, the slot listing picks its weekday rule from the submitted entries alone. |
| AgentController.ParsedClockIsFilled | app/Http/Controllers/AgentController.php:68-69 | A value that parses as H:i passes `required`. |
| AgentBlockedTimeController.RulesMeaning | app/Http/Controllers/AgentBlockedTimeController.php:15-19 | The rules pass iff start is after now, end is after start, and reason is null, absent or a string of at most 255 characters. |
| AgentBlockedTimeController.StoredReason | app/Http/Controllers/AgentBlockedTimeController.php:26 | The reason as sent, or "Unavailable". |
| AgentBlockedTimeController.Store | app/Http/Controllers/AgentBlockedTimeController.php:13-31 | Rejected iff validation fails, and then nothing changes. Otherwise exactly one blocked row of the agent is appended, with those times and the stored reason. |
| AgentBlockedTimeController.EmptyIntervalRejected | app/Http/Controllers/AgentBlockedTimeController.php:17 | An end not after the start is reported as `end_time.after`. |
| AgentBlockedTimeController.PastStartRejected | app/Http/Controllers/AgentBlockedTimeController.php:16 | A start not after now is reported as `start_time.after`. |
| AdminController.Index | app/Http/Controllers/AdminController.php:17-43 | Total appointments; agent and client counts (summing to at most the users); total revenue over completed rows; monthly revenue over completed rows of the month; at most 5 recent rows, newest first. |
| AdminController.RevenueOverCompletedRows | app/Http/Controllers/AdminController.php:20-31 | The revenue rows are exactly the completed ones; the monthly revenue is at most the total when amounts are non-negative. |
| AdminController.RecentAreTheLatest | app/Http/Controllers/AdminController.php:24-27 | No omitted row was created later than a listed one. |
| AdminController.Refine | app/Http/Controllers/AdminController.php:72-86 | The refined query keeps exactly the rows matching every supplied filter. |
| AdminController.RefineStatus | app/Http/Controllers/AdminController.php:72-74 | A supplied status keeps only rows with it. |
| AdminController.RefineAgent | app/Http/Controllers/AdminController.php:76-78 | A supplied agent_id keeps only that agent's rows. |
| AdminController.RefineFrom | app/Http/Controllers/AdminController.php:80-82 | date_from keeps rows on or after that date. |
| AdminController.RefineTo | app/Http/Controllers/AdminController.php:84-86 | date_to keeps rows on or before that date. |
| AdminController.AppointmentsListing | app/Http/Controllers/AdminController.php:69-88 | Exactly the rows matching every supplied filter, scheduled_at descending. |
| AdminController.NoFilterListsEverything | app/Http/Controllers/AdminController.php:72-86 | With no filter, every row is listed. |
| AdminController.WithCounts | app/Http/Controllers/AdminController.php:61 | withCount: each agent with the number of their appointments. |
| AdminController.ServicesListing | app/Http/Controllers/AdminController.php:54 | All services, by name. |
| AdminController.AgentsByName | app/Http/Controllers/AdminController.php:89 | A permutation of the agents, sorted by name. |
| AdminController.AgentsListing | app/Http/Controllers/AdminController.php:60-63 | Every agent exactly once (a permutation), by name, with their appointment count. |
| AdminController.Show | app/Http/Controllers/AdminController.php:48-100 | `services`, `agents` and `appointments` pick their views; any other or absent type falls back to the dashboard. |
| Calendar.ParseFormatClock | app/Http/Controllers/AgentController.php:68-69 | An H:i time prints and reads back to itself. |
| Calendar.FormatParseClock | app/Http/Controllers/AgentController.php:68-69 | A string accepted by date_format:H:i is exactly the printed time. |
| Calendar.ParseClockInjective | app/Http/Controllers/AgentController.php:68-69 | Two different accepted strings denote different times. |
| Forms.Violations | app/Http/Requests/StoreServiceRequest.php:22-31 | No violation iff every field passes; a violation names a field and its first failing rule. |

## Left out

- The React/Inertia pages (`resources/js`): rendering only. The `canCancel`/`canMarkCompleted` flags are client-side display predicates.
- Factories, the seeder and migrations. The status enumeration of the appointments migration shapes `AppointmentModel.ValidStatus`.
- Routes and middleware, authentication, sessions, Inertia rendering, JSON responses, redirects and flash messages.
- Pagination (`paginate(10)`, `paginate(15)`): the listings are modelled before slicing into pages.
- Stripe payment identifiers are only a nullable string field.
- Date and time parsing (`strtotime`, `date`, `new DateTime`), timezones and DST. Instants are integer seconds in UTC.
- The weekday of the requested date is an input of `BookingController.Show`, not derived with `date('l')`.
- The calendar month of an instant (`whereMonth`) comes from a caller-supplied function `monthOf`. A civil calendar is not modelled.
- `BookingController.GenerateAvailableSlots` returns instants, not the `Y-m-d H:i:s` strings of `start_time` and `end_time`. Only `display_time` is modelled as text.
- Float money: amounts are integer cents, and `number_format` rounding of non-cent values is out of scope.
- String-to-number coercion and Laravel's empty-string-to-null middleware: request fields arrive already typed.
- For a wrong-kind filter value, the SQL comparison is modelled as matching no row.
- `after:start_time` next to `date_format:H:i`: PHP's general date parser is not modelled. A `start_time` that is not H:i but that the parser still reads counts as unreadable here, so `after` fails where PHP would compare the two times. `start_time`'s own `date_format` rule refuses the entry either way.
- Only the first failing rule of each field is reported. Without `bail`, Laravel may report several failures for a field.
- Laravel's default messages. Only the custom `messages()` maps are modelled.
- Database collation: names compare in code-point order.
- The listing/booking race. Two clients can both see a slot free and both book it. Store performs no overlap check, and the model does not claim one.
- `updated_at` timestamps, and `created_at` on every table but appointments. `AppointmentController.Store` sets an appointment's `created_at` to now.
- Eager loading of relations (`with`), the retrieval of `$request->user()`, and `findOrFail` of the agent in `store`: the model uses the ids directly.
- `BookingController::index`, `AppointmentController` `create`/`show`/`edit` and `AgentController::edit`: read-only screens that pass ordered lists to views.
- `ServiceModel.FormattedDurationRoundTrip` is stated for non-negative durations only. A negative duration prints with minus signs, and `DurationParts` models that, but the label is not read back.
