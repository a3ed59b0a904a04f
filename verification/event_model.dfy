/**
 The document shapes of the event store: an Event owns Sections, a Section
 owns Rows, and a Row owns the seat holds ("locked seats") placed on it.
 Time is an integer number of milliseconds since the epoch, as the
 `Date` values of the store compare.
 */
module EventModel {
  import opened Wrappers

  /** A hold on one seat of a row by one session, until `expiresAt` (ms). */
  datatype Lock = Lock(seatId: string, sessionId: string, expiresAt: int)

  /**
   A row of a section. `totalSeats` is the remaining, unsold capacity:
   purchases decrement it; nothing else writes it.
   */
  datatype Row = Row(name: string, totalSeats: int, lockedSeats: seq<Lock>)

  datatype Section = Section(name: string, rows: seq<Row>)

  /** `id` is the store's document identifier; `date` is in ms. */
  datatype Event = Event(id: string, name: string, date: int, sections: seq<Section>)

  /** A row as a client submits it when creating an event: holds may be omitted. */
  datatype RowInput = RowInput(name: string, totalSeats: int, lockedSeats: Option<seq<Lock>>)

  datatype SectionInput = SectionInput(name: string, rows: seq<RowInput>)

  /** The path segment a lookup failed to resolve. */
  datatype Entity = EventEntity | SectionEntity | RowEntity

  /** The handlers' distinguishable failure answers, in place of HTTP statuses. */
  datatype Error =
    | Validation             // a required body field is missing or falsy
    | NotFound(what: Entity) // the event, section or row does not exist
    | SeatLocked             // another session holds an active lock
    | InsufficientSeats      // fewer seats remain than were requested

  /**
   The store after an operation, and its reply. Every operation in this model
   returns one: the store is "what was saved".
   */
  datatype Step<+T> = Step(store: seq<Event>, reply: Result<T, Error>)

  /** A lock record meets the schema: both identifying strings are present. */
  predicate LockConforms(l: Lock) {
    l.seatId != "" && l.sessionId != ""
  }
}
