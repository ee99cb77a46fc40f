/** `CheckNeedEmailResponse`: whether a report email is due and, if so, the
    time window its database query covers. A value is immutable once built;
    the Java getters return `null` for the dates of a "no send" response. */
module CheckNeedEmail {
  import opened JavaSemantics

  datatype CheckNeedEmailResponse =
    | NoSend
    | Send(start: Time, end: Time)
  {
    function ShouldSend(): bool {
      Send?
    }

    /** `getStartDateQuery()`; `None` stands for Java's `null`. */
    function StartDateQuery(): Option<Time> {
      if Send? then Some(start) else None
    }

    /** `getEndDateQuery()`; `None` stands for Java's `null`. */
    function EndDateQuery(): Option<Time> {
      if Send? then Some(end) else None
    }
  }

  /** The no-argument constructor: nothing to send, no dates. */
  function NoEmailNeeded(): (r: CheckNeedEmailResponse)
    ensures !r.ShouldSend()
    ensures r.StartDateQuery() == None && r.EndDateQuery() == None
  {
    NoSend
  }

  /** The two-argument constructor: send, and query exactly the given window. */
  function EmailNeeded(startDate: Time, endDate: Time): (r: CheckNeedEmailResponse)
    ensures r.ShouldSend()
    ensures r.StartDateQuery() == Some(startDate)
    ensures r.EndDateQuery() == Some(endDate)
  {
    Send(startDate, endDate)
  }
}
