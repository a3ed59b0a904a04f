/**
 The row-level part of `purchaseTickets` (src/controller/events.ts): sweep,
 the row-wide conflict gate, the capacity check and the commit, plus the
 capacity-only variant of the gate for contrast.
 */
module Reservation {
  import opened Wrappers
  import opened EventModel
  import opened LockManager

  /** A committed purchase: the row as saved and whether the group discount applies. */
  datatype Sale = Sale(row: Row, groupDiscount: bool)

  /** The smallest ticket count that earns the group discount. */
  const GroupSize: int := 4

  /** The locks of `locks` that do not belong to `sessionId`, in order. */
  function Release(locks: seq<Lock>, sessionId: string): (r: seq<Lock>)
    ensures forall l :: l in r <==> l in locks && l.sessionId != sessionId
    ensures |r| <= |locks|
    ensures (forall l :: l in locks ==> l.sessionId == sessionId) ==> r == []
  {
    if locks == [] then []
    else if locks[0].sessionId != sessionId then [locks[0]] + Release(locks[1..], sessionId)
    else Release(locks[1..], sessionId)
  }

  /** Releasing works record by record: it distributes over concatenation. */
  lemma {:induction false} ReleaseAppend(a: seq<Lock>, b: seq<Lock>, sessionId: string)
    ensures Release(a + b, sessionId) == Release(a, sessionId) + Release(b, sessionId)
  {
    if a != [] {
      assert (a + b)[0] == a[0] && (a + b)[1..] == a[1..] + b;
      ReleaseAppend(a[1..], b, sessionId);
    } else {
      assert a + b == b;
    }
  }

  /** A single record is kept exactly when it belongs to another session. */
  lemma ReleaseSingle(l: Lock, sessionId: string)
    ensures Release([l], sessionId) == if l.sessionId != sessionId then [l] else []
  {
    assert [l][1..] == [];
  }

  /** The records kept are a subsequence of the input: order and repeats survive. */
  lemma {:induction false} ReleaseKeepsOrder(locks: seq<Lock>, sessionId: string)
    ensures IsSubsequence(Release(locks, sessionId), locks)
  {
    if locks != [] {
      ReleaseKeepsOrder(locks[1..], sessionId);
      if locks[0].sessionId != sessionId {
        assert Release(locks, sessionId)[1..] == Release(locks[1..], sessionId);
      }
    }
  }

  /** Some active lock in `locks` belongs to a session other than `sessionId`, on any seat. */
  predicate OtherSessionActive(locks: seq<Lock>, sessionId: string) {
    exists l :: l in locks && l.sessionId != sessionId
  }

  /**
   purchaseTickets on one row. After the sweep the purchase is refused if ANY
   active lock belongs to another session, whichever seat it is on (the gate is
   row-wide, not seat-specific). A `count` below zero is not refused: it passes
   the capacity check and raises `totalSeats`.
   */
  function PurchaseRow(row: Row, sessionId: string, count: int, now: int): (r: Result<Sale, Error>)
    ensures r == Err(SeatLocked) <==>
      exists l :: l in row.lockedSeats && Active(l, now) && l.sessionId != sessionId
    ensures r == Err(InsufficientSeats) <==>
      (forall l :: l in row.lockedSeats && Active(l, now) ==> l.sessionId == sessionId) && row.totalSeats < count
    ensures r.Err? ==> r.error in {SeatLocked, InsufficientSeats}
    ensures r.Ok? ==>
      && r.value.row.name == row.name
      && r.value.row.totalSeats == row.totalSeats - count
      && r.value.row.totalSeats >= 0
      && r.value.row.lockedSeats == []
      && (r.value.groupDiscount <==> count >= GroupSize)
  {
    var active := Sweep(row.lockedSeats, now);
    if OtherSessionActive(active, sessionId) then Err(SeatLocked)
    else if row.totalSeats < count then Err(InsufficientSeats)
    else
      var kept := Release(active, sessionId);
      Ok(Sale(row.(totalSeats := row.totalSeats - count, lockedSeats := kept), count >= GroupSize))
  }

  /**
   The capacity-only reading of the purchase: holds of other sessions never
   block; only the remaining capacity does. The caller's own holds are
   released and everyone else's stay. This is NOT what purchaseTickets does.
   */
  function CapacityOnlyPurchase(row: Row, sessionId: string, count: int, now: int): (r: Result<Sale, Error>)
    ensures r.Err? <==> row.totalSeats < count
    ensures r.Err? ==> r.error == InsufficientSeats
    ensures r.Ok? ==>
      && r.value.row.name == row.name
      && r.value.row.totalSeats == row.totalSeats - count
      && (forall l :: l in r.value.row.lockedSeats <==>
            l in row.lockedSeats && Active(l, now) && l.sessionId != sessionId)
      && (r.value.groupDiscount <==> count >= GroupSize)
  {
    if row.totalSeats < count then Err(InsufficientSeats)
    else
      var kept := Release(Sweep(row.lockedSeats, now), sessionId);
      Ok(Sale(row.(totalSeats := row.totalSeats - count, lockedSeats := kept), count >= GroupSize))
  }

  /** Whenever purchaseTickets' row-wide gate is open, the capacity-only gate gives the same outcome, success or refusal. */
  lemma RowWideGateIsStricter(row: Row, sessionId: string, count: int, now: int)
    requires forall l :: l in row.lockedSeats && Active(l, now) ==> l.sessionId == sessionId
    ensures CapacityOnlyPurchase(row, sessionId, count, now) == PurchaseRow(row, sessionId, count, now)
  {
  }

  /**
   A hold by another session on an unrelated seat blocks the purchase under
   purchaseTickets' gate but not under the capacity-only gate.
   */
  lemma UnrelatedHoldBlocksPurchase()
    ensures var row := Row("A", 10, [Lock("A7", "s2", 1000)]);
      && PurchaseRow(row, "s1", 2, 0) == Err(SeatLocked)
      && CapacityOnlyPurchase(row, "s1", 2, 0).Ok?
  {
    var row := Row("A", 10, [Lock("A7", "s2", 1000)]);
    assert Lock("A7", "s2", 1000) in row.lockedSeats;
  }

  /**
   A negative count passes every check whenever the gate is open and the row's
   capacity is not negative, and the "purchase" increases the remaining capacity.
   */
  lemma NegativeCountRaisesCapacity(row: Row, sessionId: string, count: int, now: int)
    requires count < 0 && row.totalSeats >= 0
    requires forall l :: l in row.lockedSeats && Active(l, now) ==> l.sessionId == sessionId
    ensures PurchaseRow(row, sessionId, count, now).Ok?
    ensures PurchaseRow(row, sessionId, count, now).value.row.totalSeats > row.totalSeats
  {
  }

  /** One purchase request against a row: the caller's session, the ticket count, and the clock. */
  datatype PurchaseRequest = PurchaseRequest(sessionId: string, count: int, now: int)

  /**
   The row after serving `requests` one after another. `sold` is the net sum
   of the counts of the successful requests, negative counts included;
   `issued` is the number of tickets handed out, the successful positive counts.
   */
  datatype Ledger = Ledger(row: Row, sold: int, issued: nat)

  /**
   Serve `requests` in order against one row. What remains is exactly the
   start minus the net count sold, and the net count never exceeds the
   starting capacity. The tickets issued bound the net count from above, and
   equal it when every count is positive; a negative count lets more tickets
   be issued than the row ever had (NegativeCountEnablesOversell).
   */
  function RunPurchases(row: Row, requests: seq<PurchaseRequest>): (r: Ledger)
    requires row.totalSeats >= 0
    ensures r.row.totalSeats + r.sold == row.totalSeats
    ensures r.row.totalSeats >= 0 && r.sold <= row.totalSeats
    ensures r.sold <= r.issued
    ensures (forall i :: 0 <= i < |requests| ==> requests[i].count > 0) ==> r.issued == r.sold
    decreases |requests|
  {
    if requests == [] then Ledger(row, 0, 0)
    else
      var q := requests[0];
      match PurchaseRow(row, q.sessionId, q.count, q.now)
      case Err(_) => RunPurchases(row, requests[1..])
      case Ok(sale) =>
        var rest := RunPurchases(sale.row, requests[1..]);
        Ledger(rest.row, q.count + rest.sold, (if q.count > 0 then q.count else 0) + rest.issued)
  }

  /** With positive counts only, the tickets issued never exceed the starting capacity: no oversell. */
  lemma PositiveCountsNoOversell(row: Row, requests: seq<PurchaseRequest>)
    requires row.totalSeats >= 0
    requires forall i :: 0 <= i < |requests| ==> requests[i].count > 0
    ensures 0 <= RunPurchases(row, requests).issued <= row.totalSeats
  {
  }

  /**
   A request for -100 tickets followed by one for 110 on a 10-seat row: both
   succeed, so 110 tickets are issued although the net count sold is 10.
   */
  lemma NegativeCountEnablesOversell()
    ensures var ledger := RunPurchases(Row("A", 10, []),
                                       [PurchaseRequest("s1", -100, 0), PurchaseRequest("s2", 110, 0)]);
      ledger.issued == 110 && ledger.sold == 10 && ledger.row.totalSeats == 0
  {
    var requests := [PurchaseRequest("s1", -100, 0), PurchaseRequest("s2", 110, 0)];
    var after := PurchaseRow(Row("A", 10, []), "s1", -100, 0).value.row;
    assert after == Row("A", 110, []);
    assert requests[1..] == [PurchaseRequest("s2", 110, 0)];
    assert PurchaseRow(after, "s2", 110, 0).value.row == Row("A", 0, []);
    assert requests[1..][1..] == [];
  }

  /** Two sessions each asking for 6 of 10 seats: the first gets them, the second is refused. */
  lemma TwoLargePurchasesOneSucceeds()
    ensures var row := Row("A", 10, []);
      var first := PurchaseRow(row, "sA", 6, 0);
      && first.Ok? && first.value.row.totalSeats == 4
      && PurchaseRow(first.value.row, "sB", 6, 0) == Err(InsufficientSeats)
  {
  }

  /** Four tickets out of ten: six remain and the group discount applies. */
  lemma FourTicketsEarnDiscount()
    ensures var sale := PurchaseRow(Row("A", 10, []), "s1", 4, 0);
      sale.Ok? && sale.value.row.totalSeats == 6 && sale.value.groupDiscount
  {
  }
}
