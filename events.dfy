/** The three domain events. Each carries the idempotency key `id` and its
    creation time `timestamp` (milliseconds, as the `Date` values of the
    built-in tests); the `type` tag is a function of the variant. */
module Events {

  datatype Event =
    | OpenSpaceNamed(spaceName: string, timestamp: int, id: string)
    | DateRangeSet(startDate: string, endDate: string, timestamp: int, id: string)
    | TopicSubmitted(name: string, category: string, topic: string, timestamp: int, id: string)

  const OpenSpaceNamedTag := "OpenSpaceNamedEvent"
  const DateRangeSetTag := "DateRangeSetEvent"
  const TopicSubmittedTag := "TopicSubmittedEvent"

  /** The `type` field of an event: one distinct tag per variant, each the
      name of an event class and so ending in "Event". */
  function Type(e: Event): (tag: string)
    ensures |tag| >= 5 && tag[|tag| - 5..] == "Event"
    ensures tag == OpenSpaceNamedTag <==> e.OpenSpaceNamed?
    ensures tag == DateRangeSetTag <==> e.DateRangeSet?
    ensures tag == TopicSubmittedTag <==> e.TopicSubmitted?
  {
    match e
    case OpenSpaceNamed(_, _, _) => OpenSpaceNamedTag
    case DateRangeSet(_, _, _, _) => DateRangeSetTag
    case TopicSubmitted(_, _, _, _, _) => TopicSubmittedTag
  }
}
