/** The data model of the call log: one record per phone call, the filter
    configuration of the dashboard, and the store state that holds both.
    Timestamps are integers (milliseconds since the epoch). */
module CallTypes {

  /** One hour in milliseconds. */
  const HourMs: int := 3_600_000

  datatype Option<+T> = None | Some(value: T)

  datatype Direction = Incoming | Outgoing | Missed

  datatype Status = New | InProgress | Scheduled | Completed

  datatype Priority = High | Medium | Low

  /** A filter field that is either the sentinel "all" or one concrete value. */
  datatype Choice<+T> = All | Only(value: T)

  /** One recorded or planned phone interaction. */
  datatype CallLog = CallLog(
    id: string,
    contactName: string,
    phoneNumber: string,
    direction: Direction,
    status: Status,
    createdAt: int,
    scheduledAt: Option<int>,
    durationMinutes: Option<nat>,
    tags: seq<string>,
    notes: string,
    followUpAction: Option<string>,
    priority: Priority
  )

  /** A call without its generated `id` and `createdAt`: what the form hands to the store. */
  datatype CallDraft = CallDraft(
    contactName: string,
    phoneNumber: string,
    direction: Direction,
    status: Status,
    scheduledAt: Option<int>,
    durationMinutes: Option<nat>,
    tags: seq<string>,
    notes: string,
    followUpAction: Option<string>,
    priority: Priority
  )

  /** The tag filter is a plain string whose value "all" is the sentinel. */
  const AllTags: string := "all"

  datatype CallFilters = CallFilters(
    search: string,
    status: Choice<Status>,
    direction: Choice<Direction>,
    tag: string,
    priority: Choice<Priority>
  )

  /** A partial filter record: `None` marks a field that is not supplied. */
  datatype FilterPatch = FilterPatch(
    search: Option<string>,
    status: Option<Choice<Status>>,
    direction: Option<Choice<Direction>>,
    tag: Option<string>,
    priority: Option<Choice<Priority>>
  )

  datatype State = State(calls: seq<CallLog>, filters: CallFilters)

  /** The ids of the calls, in collection order. */
  function Ids(calls: seq<CallLog>): (r: seq<string>)
    ensures |r| == |calls|
    ensures forall i :: 0 <= i < |calls| ==> r[i] == calls[i].id
  {
    if calls == [] then [] else [calls[0].id] + Ids(calls[1..])
  }

  /** No two calls of the collection share an id. */
  predicate UniqueIds(calls: seq<CallLog>)
  {
    forall i, j :: 0 <= i < j < |calls| ==> calls[i].id != calls[j].id
  }
}
