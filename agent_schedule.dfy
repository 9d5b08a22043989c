/** app/Models/AgentAvailability.php and app/Models/AgentBlockedTime.php: the two schedule records. */
module AgentSchedule {
  import opened Wrappers

  /**
   * A recurring weekly working window. startTime and endTime are seconds
   * since midnight; dayOfWeek is the stored lower-case day name.
   */
  datatype Availability = Availability(id: int, agentId: int, dayOfWeek: string, startTime: int, endTime: int, isAvailable: bool)

  /** An ad-hoc unavailable interval [startTime, endTime) in seconds. */
  datatype BlockedTime = BlockedTime(id: int, agentId: int, startTime: int, endTime: int, reason: Option<string>)

  const Weekdays: seq<string> := ["monday", "tuesday", "wednesday", "thursday", "friday", "saturday", "sunday"]

  predicate IsWeekday(s: string) { s in Weekdays }
}
