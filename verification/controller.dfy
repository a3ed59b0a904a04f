/**
 The two request handlers of src/controller/events.ts that change inventory,
 `lockSeat` and `purchaseTickets`, over an in-memory store of events. Each
 validates its body, resolves event, section and row, delegates to the
 row-level logic, and either returns the store unchanged with an error or
 returns the store with that one row replaced ("saved").
 */
module Controller {
  import opened Wrappers
  import opened EventModel
  import opened LockManager
  import opened Reservation
  import opened Inventory

  /** A successful purchase's answer: the saved event and the discount flag. */
  datatype Receipt = Receipt(event: Event, groupDiscount: bool)

  /** The lock request's body fields are all present (non-empty, so truthy). */
  predicate LockFieldsPresent(eventId: string, sectionName: string, rowName: string, sessionId: string, seatId: string) {
    eventId != "" && sectionName != "" && rowName != "" && sessionId != "" && seatId != ""
  }

  /**
   The purchase request's body fields are truthy. A ticket count of 0 stands
   for a missing one too; both are falsy. A negative count is truthy and passes.
   */
  predicate PurchaseFieldsPresent(eventId: string, sectionName: string, rowName: string, count: int, sessionId: string) {
    eventId != "" && sectionName != "" && rowName != "" && count != 0 && sessionId != ""
  }

  /**
   lockSeat. A missing section or row is reported as NotFound here; the
   handler instead dereferences the failed lookup and answers with a server
   error. On success the reply is the hold that was appended.
   */
  function LockSeat(store: seq<Event>, eventId: string, sectionName: string, rowName: string,
                    sessionId: string, seatId: string, now: int): (r: Step<Lock>)
    ensures r.reply.Err? ==> r.store == store
    ensures r.reply == Err(Validation) <==> !LockFieldsPresent(eventId, sectionName, rowName, sessionId, seatId)
    ensures r.reply.Err? && r.reply.error.NotFound? <==>
      LockFieldsPresent(eventId, sectionName, rowName, sessionId, seatId)
      && Resolve(store, eventId, sectionName, rowName).Err?
    ensures r.reply.Err? && r.reply.error.NotFound? ==>
      r.reply.error == Resolve(store, eventId, sectionName, rowName).error
    ensures r.reply == Err(SeatLocked) <==>
      && LockFieldsPresent(eventId, sectionName, rowName, sessionId, seatId)
      && Resolve(store, eventId, sectionName, rowName).Ok?
      && var a := Resolve(store, eventId, sectionName, rowName).value;
         exists l :: l in RowAt(store, a).lockedSeats && Active(l, now) && l.seatId == seatId && l.sessionId != sessionId
    ensures r.reply.Ok? <==>
      && LockFieldsPresent(eventId, sectionName, rowName, sessionId, seatId)
      && Resolve(store, eventId, sectionName, rowName).Ok?
      && var a := Resolve(store, eventId, sectionName, rowName).value;
         forall l :: l in RowAt(store, a).lockedSeats && Active(l, now) && l.seatId == seatId ==> l.sessionId == sessionId
    ensures r.reply.Ok? ==>
      && Resolve(store, eventId, sectionName, rowName).Ok?
      && var a := Resolve(store, eventId, sectionName, rowName).value;
         && r.reply.value == Lock(seatId, sessionId, now + LockDurationMs)
         && LockConforms(r.reply.value)
         && r.store == WithRow(store, a, RowAt(store, a).(lockedSeats := Sweep(RowAt(store, a).lockedSeats, now) + [r.reply.value]))
  {
    if !LockFieldsPresent(eventId, sectionName, rowName, sessionId, seatId) then Step(store, Err(Validation))
    else match Resolve(store, eventId, sectionName, rowName)
      case Err(e) => Step(store, Err(e))
      case Ok(a) =>
        match LockRow(RowAt(store, a), seatId, sessionId, now, LockDurationMs)
        case Err(e) => Step(store, Err(e))
        case Ok(row) => Step(WithRow(store, a, row), Ok(Lock(seatId, sessionId, now + LockDurationMs)))
  }

  /**
   The part of purchaseTickets after the row is resolved: the row-level
   purchase, and on success the save of the edited row.
   */
  function CommitPurchase(store: seq<Event>, a: RowAddress, count: int, sessionId: string, now: int): (r: Step<Receipt>)
    requires ValidAddress(store, a)
    ensures r.reply.Err? ==> r.store == store
    ensures r.reply == Err(SeatLocked) <==>
      exists l :: l in RowAt(store, a).lockedSeats && Active(l, now) && l.sessionId != sessionId
    ensures r.reply == Err(InsufficientSeats) <==>
      && (forall l :: l in RowAt(store, a).lockedSeats && Active(l, now) ==> l.sessionId == sessionId)
      && RowAt(store, a).totalSeats < count
    ensures r.reply.Err? ==> r.reply.error in {SeatLocked, InsufficientSeats}
    ensures r.reply.Ok? ==>
      && |r.store| == |store|
      && (forall b :: ValidAddress(store, b) <==> ValidAddress(r.store, b))
      && ValidAddress(r.store, a)
      && RowAt(r.store, a).name == RowAt(store, a).name
      && RowAt(r.store, a).totalSeats == RowAt(store, a).totalSeats - count
      && RowAt(r.store, a).totalSeats >= 0
      && RowAt(r.store, a).lockedSeats == []
      && (forall b :: ValidAddress(store, b) && b != a ==> RowAt(r.store, b) == RowAt(store, b))
      && r.store == WithRow(store, a, RowAt(r.store, a))
      && r.reply.value.event == r.store[a.event]
      && (r.reply.value.groupDiscount <==> count >= GroupSize)
  {
    match PurchaseRow(RowAt(store, a), sessionId, count, now)
    case Err(e) => Step(store, Err(e))
    case Ok(sale) =>
      var store' := WithRow(store, a, sale.row);
      Step(store', Ok(Receipt(store'[a.event], sale.groupDiscount)))
  }

  /**
   purchaseTickets: validation, then lookup, then the row-level sweep, gate,
   capacity check and commit; the saved event is returned with the discount flag.
   */
  function PurchaseTickets(store: seq<Event>, eventId: string, sectionName: string, rowName: string,
                           count: int, sessionId: string, now: int): (r: Step<Receipt>)
    ensures r.reply.Err? ==> r.store == store
    ensures r.reply == Err(Validation) <==> !PurchaseFieldsPresent(eventId, sectionName, rowName, count, sessionId)
    ensures r.reply.Err? && r.reply.error.NotFound? <==>
      PurchaseFieldsPresent(eventId, sectionName, rowName, count, sessionId)
      && Resolve(store, eventId, sectionName, rowName).Err?
    ensures r.reply.Err? && r.reply.error.NotFound? ==>
      r.reply.error == Resolve(store, eventId, sectionName, rowName).error
    ensures r.reply.Ok? || r.reply.error in {SeatLocked, InsufficientSeats} ==>
      && PurchaseFieldsPresent(eventId, sectionName, rowName, count, sessionId)
      && Resolve(store, eventId, sectionName, rowName).Ok?
      && r == CommitPurchase(store, Resolve(store, eventId, sectionName, rowName).value, count, sessionId, now)
  {
    if !PurchaseFieldsPresent(eventId, sectionName, rowName, count, sessionId) then Step(store, Err(Validation))
    else match Resolve(store, eventId, sectionName, rowName)
      case Err(e) => Step(store, Err(e))
      case Ok(a) => CommitPurchase(store, a, count, sessionId, now)
  }

  /** The invariants a row keeps at time `now`. */
  ghost predicate RowHealthy(row: Row, now: int) {
    && row.totalSeats >= 0
    && SeatExclusive(Sweep(row.lockedSeats, now))
    && forall l :: l in row.lockedSeats ==> LockConforms(l)
  }

  /**
   Every row of the store has non-negative capacity, at most one session
   actively holding each seat, and only schema-conforming hold records.
   */
  ghost predicate Healthy(store: seq<Event>, now: int) {
    forall a :: ValidAddress(store, a) ==> RowHealthy(RowAt(store, a), now)
  }

  lemma WithRowKeepsHealthy(store: seq<Event>, a: RowAddress, row: Row, now: int)
    requires ValidAddress(store, a) && Healthy(store, now) && RowHealthy(row, now)
    ensures Healthy(WithRow(store, a, row), now)
  {
  }

  /** lockSeat keeps the store healthy. */
  lemma LockSeatKeepsHealthy(store: seq<Event>, eventId: string, sectionName: string, rowName: string,
                             sessionId: string, seatId: string, now: int)
    requires Healthy(store, now)
    ensures Healthy(LockSeat(store, eventId, sectionName, rowName, sessionId, seatId, now).store, now)
  {
  }

  /** purchaseTickets keeps the store healthy. */
  lemma PurchaseKeepsHealthy(store: seq<Event>, eventId: string, sectionName: string, rowName: string,
                             count: int, sessionId: string, now: int)
    requires Healthy(store, now)
    ensures Healthy(PurchaseTickets(store, eventId, sectionName, rowName, count, sessionId, now).store, now)
  {
  }

  /** Health survives the passage of time: expiry only removes holds. */
  lemma HealthyLater(store: seq<Event>, t1: int, t2: int)
    requires t1 <= t2 && Healthy(store, t1)
    ensures Healthy(store, t2)
  {
    forall a | ValidAddress(store, a) ensures RowHealthy(RowAt(store, a), t2) {
      ExclusiveLater(RowAt(store, a).lockedSeats, t1, t2);
    }
  }

  /**
   createEvent keeps the store healthy when every submitted row has
   non-negative capacity and omits its holds.
   */
  lemma CreateEventKeepsHealthy(store: seq<Event>, id: string, name: string, date: int,
                                sections: Option<seq<SectionInput>>, now: int)
    requires Healthy(store, now)
    requires sections.Some? ==> forall k, j :: 0 <= k < |sections.value| && 0 <= j < |sections.value[k].rows| ==>
      sections.value[k].rows[j].totalSeats >= 0 && sections.value[k].rows[j].lockedSeats.None?
    ensures Healthy(CreateEvent(store, id, name, date, sections).store, now)
  {
    var r := CreateEvent(store, id, name, date, sections);
    if r.reply.Ok? {
      forall a | ValidAddress(r.store, a) ensures RowHealthy(RowAt(r.store, a), now) {
        if a.event < |store| {
          assert RowAt(r.store, a) == RowAt(store, a);
          assert ValidAddress(store, a);
        } else {
          var s := sections.value[a.section];
          assert RowAt(r.store, a) == MaterializeRow(s.rows[a.row]);
        }
      }
    }
  }
}
