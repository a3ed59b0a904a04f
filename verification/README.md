# Seat holds and ticket purchases for one venue row

This project models the inventory-changing core of an event ticket booking
backend. An **event** owns **sections**, a section owns **rows**, and a row
carries its remaining capacity (`totalSeats`) and a list of **locked seats**:
time-bounded holds, each keyed by a `seatId`, owned by a `sessionId` and
inert once its `expiresAt` deadline is not in the future.

Two request handlers change that inventory:

- `lockSeat` validates its body and finds the event. It then finds the section
  and row, sweeps expired holds, and refuses if another session actively holds
  the same seat. Otherwise it appends a hold lasting five minutes.
- `purchaseTickets` validates its body, resolves event, section and row (first
  match by name), and sweeps expired holds. It refuses if any active hold on the
  row belongs to another session, on any seat, and then checks capacity. On
  success it releases the caller's holds, decrements `totalSeats` by the ticket
  count and reports a group discount for four tickets or more.

Everything is a pure function over immutable datatypes. The clock (`now`, in
milliseconds) and the hold duration are parameters. The store is a
`seq<Event>`. Each operation returns a `Step`: the store as saved and a
`Result` reply. On every error path the store is returned unchanged.

Layout:

- `wrappers.dfy`: `Option` and `Result`.
- `event_model.dfy`: `Lock`, `Row`, `Section`, `Event`, the creation inputs
  and the `Error` kinds (Validation, NotFound, SeatLocked, InsufficientSeats).
- `lock_manager.dfy`: the expiry sweep, per-seat exclusivity and `LockRow`.
- `reservation.dfy`: the row-level purchase, the capacity-only contrast
  variant, and a sequence of purchases: the net count sold never exceeds the
  capacity, and the tickets issued do not either when every count is positive
  (`PositiveCountsNoOversell`).
- `inventory.dfy`: first-match lookup, row replacement and event creation.
- `controller.dfy`: the two handlers over the store and the store-wide
  `Healthy` invariant that both of them keep.

Inputs that JavaScript treats as falsy are modelled by one value each. For a
string field, the empty string stands for both "missing" and "empty". For the
ticket count, 0 stands for both "missing" and "zero".

Three behaviours of the handlers are modelled as written, even where they look unintended, and one differs:

- A session that re-locks a seat it already holds gets a second hold record.
  The first record is not refreshed (`RelockAddsDuplicate`).
- The purchase gate is row-wide: another session's active hold on any seat
  blocks the purchase (`UnrelatedHoldBlocksPurchase`). The capacity-only
  reading is modelled separately as `CapacityOnlyPurchase`, and
  `RowWideGateIsStricter` relates the two.
- The ticket count is only checked for truthiness. A negative count passes
  validation and the capacity check, and it raises `totalSeats`
  (`NegativeCountRaisesCapacity`).
- A missing section or row in `lockSeat` makes the handler crash with a server
  error. Here it is reported as NotFound, the same as in `purchaseTickets`.

## Model

| member | source | states |
|---|---|---|
| LockManager.Sweep | src/controller/events.ts:73 | a lock survives the sweep exactly when its deadline is strictly after `now`; the sweep never grows the list |
| LockManager.SweepKeepsOrder | src/controller/events.ts:127 | the kept locks are a subsequence of the original list, in the original order |
| LockManager.SweepAppend | src/controller/events.ts:73 | the sweep filters lock by lock: sweeping a concatenation is the concatenation of the sweeps |
| LockManager.SweepKeepsActive | src/controller/events.ts:127 | a list whose locks are all active comes out of the sweep unchanged |
| LockManager.SweepThenLater | src/controller/events.ts:73 | sweeping at an earlier time and then at a later one equals sweeping once at the later time |
| LockManager.SweepIdempotent | src/controller/events.ts:127 | sweeping twice at the same time is the same as sweeping once |
| LockManager.LockRow | src/controller/events.ts:127-137 | locking fails with SeatLocked if and only if, after the sweep, another session holds the seat; on success the row is the swept list plus exactly one new hold, with capacity and name unchanged |
| LockManager.LockBlocksOtherSessions | src/controller/events.ts:129-131 | while a session actively holds a seat, any other session's lock request on it is refused |
| LockManager.ExpiredLocksNeverBlock | src/controller/events.ts:127-131 | holds of other sessions whose deadline has passed never block a lock request |
| LockManager.LockRowKeepsExclusive | src/controller/events.ts:129-137 | if every seat's active holds belong to one session before a lock, the same holds afterwards |
| LockManager.ExclusiveLater | src/controller/events.ts:127 | per-seat exclusivity at one time still holds at any later time |
| LockManager.RelockAddsDuplicate | src/controller/events.ts:133-137 | a same-session re-lock succeeds and adds one more hold record on that seat, leaving at least two; nothing is refreshed |
| LockManager.NewHoldActiveUntilTtl | src/controller/events.ts:117-137 | the new hold survives a sweep at time `t` exactly when `t < now + ttl`; with a positive duration it is active when it is taken |
| LockManager.LockScenario | src/controller/events.ts:117-137 | session 1 locks a seat; session 2 is refused while the hold is active and succeeds once five minutes have passed |
| Reservation.Release | src/controller/events.ts:83 | removes exactly the caller's locks, so a list holding only the caller's locks becomes empty |
| Reservation.ReleaseAppend | src/controller/events.ts:83 | releasing filters record by record: releasing a concatenation is the concatenation of the releases |
| Reservation.ReleaseSingle | src/controller/events.ts:83 | a single record is kept exactly when it belongs to another session |
| Reservation.ReleaseKeepsOrder | src/controller/events.ts:83 | the kept records are a subsequence of the input, in order and with repeats |
| Reservation.PurchaseRow | src/controller/events.ts:72-89 | refusal with SeatLocked if and only if some active hold belongs to another session; InsufficientSeats if and only if the gate is open and capacity is below the count; on success capacity drops by exactly the count and stays non-negative, no hold remains, and the discount is on if and only if the count is at least 4 |
| Reservation.CapacityOnlyPurchase | src/controller/events.ts:75-85 | the capacity-only variant fails if and only if capacity is below the count and keeps the other sessions' active holds |
| Reservation.RowWideGateIsStricter | src/controller/events.ts:75-77 | whenever the row-wide gate is open (no other session actively holds any seat), the capacity-only variant gives the same outcome, success or InsufficientSeats |
| Reservation.UnrelatedHoldBlocksPurchase | src/controller/events.ts:75-77 | another session's hold on an unrelated seat blocks the purchase, where the capacity-only variant would succeed |
| Reservation.NegativeCountRaisesCapacity | src/controller/events.ts:59-85 | a negative count with an open gate and non-negative capacity is accepted and increases `totalSeats` |
| Reservation.RunPurchases | src/controller/events.ts:79-87 | over any sequence of purchases on a row, remaining capacity plus the net count sold equals the initial capacity, and that net count never exceeds it; the tickets issued are at least the net count, and equal it when every count is positive |
| Reservation.PositiveCountsNoOversell | src/controller/events.ts:79-87 | when every requested count is positive, the tickets issued over any sequence of purchases never exceed the starting capacity |
| Reservation.NegativeCountEnablesOversell | src/controller/events.ts:59-85 | on a 10-seat row, a request for -100 followed by one for 110 both succeed: 110 tickets are issued while the net count sold is 10 |
| Reservation.TwoLargePurchasesOneSucceeds | src/controller/events.ts:79-85 | of two purchases of 6 from 10 seats the first leaves 4 and the second is refused |
| Reservation.FourTicketsEarnDiscount | src/controller/events.ts:85-89 | buying 4 of 10 leaves 6 and applies the group discount |
| Inventory.FirstMatch | src/controller/events.ts:66-69 | the result is the first index satisfying the predicate, or none if and only if no element does |
| Inventory.FindEvent | src/controller/events.ts:63-64 | the first event with the given id, or none if and only if no event has it |
| Inventory.FindSection | src/controller/events.ts:66-67 | the first section with the given name, or none if and only if no section has it |
| Inventory.FindRow | src/controller/events.ts:69-70 | the first row with the given name, or none if and only if no row has it |
| Inventory.Resolve | src/controller/events.ts:63-70 | resolves event, then section, then row by first match; reports NotFound for the first segment that has no match, naming that segment |
| Inventory.WithRow | src/controller/events.ts:87 | saving replaces exactly the addressed row; every other row, and every event and section name, id and date, is unchanged |
| Inventory.WithRowKeepsAddress | src/controller/events.ts:83-87 | after saving a row that keeps its name, the same lookup lands on the same row |
| Inventory.MaterializeRow | src/models/Event.ts:33-37 | a submitted row keeps its name and capacity, and its holds default to none when omitted |
| Inventory.MaterializeSection | src/models/Event.ts:39-42 | a submitted section keeps its name and all its rows, in order |
| Inventory.CreateEvent | src/controller/events.ts:25-45 | a validation error occurs if and only if `name` is empty or `sections` is absent, and then nothing is stored; otherwise creation succeeds and exactly one event with those fields is appended |
| Inventory.CreateThenFind | src/controller/events.ts:33-39 | an event created under a fresh id is exactly what a later lookup by that id finds |
| Controller.LockSeat | src/controller/events.ts:109-146 | validation error if and only if a body field is missing; NotFound if and only if the path does not resolve; SeatLocked if and only if another session actively holds the seat; success if and only if the fields are present, the path resolves and no other session actively holds the seat; on success only the resolved row changes, gaining a schema-conforming hold expiring 300000 ms after `now`; errors leave the store unchanged |
| Controller.CommitPurchase | src/controller/events.ts:72-98 | after resolution: the SeatLocked and InsufficientSeats conditions, and on success the row's exact decrement, empty hold list, a store that differs only in that row (every id, name, date and other row unchanged), the saved event returned, and the discount rule |
| Controller.PurchaseTickets | src/controller/events.ts:54-106 | validation error if and only if a field is missing or the count is 0; NotFound if and only if the path does not resolve; otherwise the outcome of the commit on the resolved row; errors leave the store unchanged |
| Controller.WithRowKeepsHealthy | src/controller/events.ts:87 | saving a healthy row into a healthy store keeps it healthy |
| Controller.LockSeatKeepsHealthy | src/controller/events.ts:127-139 | lockSeat keeps every row's capacity non-negative, each seat's active holds in one session, and every hold record schema-conforming |
| Controller.PurchaseKeepsHealthy | src/controller/events.ts:72-87 | purchaseTickets keeps the store healthy, whatever the count's sign |
| Controller.HealthyLater | src/controller/events.ts:73 | a store healthy at one time is healthy at every later time |
| Controller.CreateEventKeepsHealthy | src/controller/events.ts:33-39 | creating an event whose rows have non-negative capacity and omitted holds keeps the store healthy |

## Left out

- Persistence is not modelled: lookup by id, document saves, model registration, and identifier cast failures. The store is a sequence of events, and "saved" means "the returned store".
- Schema validation at save time is not modelled. A store-side refusal, such as an empty section name in a new event, would be a server error. `Healthy` shows that `lockSeat` and `purchaseTickets` never write a hold record that lacks a `seatId` or `sessionId`.
- HTTP status codes, response messages and error logging are not modelled. Each failure is an `Error` value. `lockSeat` replies with the hold it appended, where the handler replies with a message only.
- Request routing is left out: it is wiring only.
- `getAllEvents` and `getEventDetail` are left out: they only read the store.
- The wall-clock default for a missing event date in `createEvent` is left out. The date is a parameter.
- `Date` values are modelled as integer milliseconds.
- Concurrency is not modelled. A lost update between the read and the save of the same event is an unmodelled hazard, because every operation here runs alone on one store.
- Controller.LockSeat: a missing section or row is reported as NotFound. The handler instead throws on the failed lookup and answers with a server error, with nothing saved in either case.
- Seat and session identifiers are assumed to arrive as strings. The handlers compare them with strict equality, while the store keeps them as strings. A `seatId` sent as a JSON number never equals a stored one, so it passes `lockSeat`'s per-seat check; two sessions can then actively hold the same seat, and the exclusivity proved here does not hold. A `sessionId` sent as a number never equals a stored one either, so in both handlers the caller's own holds block it.
- Reservation.PurchaseRow: the ticket count is an integer. Fractional counts, and counts sent as numeric strings (which JavaScript coerces), are not modelled.
- A thrown exception inside a handler, which the handlers answer with a server error, is not modelled.
