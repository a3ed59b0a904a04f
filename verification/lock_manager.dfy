/**
 The per-row lock manager of `lockSeat` (src/controller/events.ts): the lazy
 expiry sweep every access starts with, and the acquisition of a hold on one
 seat for one session.
 */
module LockManager {
  import opened Wrappers
  import opened EventModel

  /** A lock blocks only while its deadline is strictly in the future. */
  predicate Active(l: Lock, now: int) {
    l.expiresAt > now
  }

  /** The hold duration lockSeat uses: five minutes, in milliseconds. */
  const LockDurationMs: int := 5 * 60 * 1000

  /**
   The expiry sweep: the locks still active at `now`, in their original order.
   A lock whose deadline equals `now` is expired.
   */
  function Sweep(locks: seq<Lock>, now: int): (r: seq<Lock>)
    ensures forall l :: l in r <==> l in locks && Active(l, now)
    ensures |r| <= |locks|
  {
    if locks == [] then []
    else if Active(locks[0], now) then [locks[0]] + Sweep(locks[1..], now)
    else Sweep(locks[1..], now)
  }

  /** `a` is `b` with some elements dropped and the rest kept in order. */
  ghost predicate IsSubsequence<T>(a: seq<T>, b: seq<T>)
    decreases |b|
  {
    if b == [] then a == []
    else (a != [] && a[0] == b[0] && IsSubsequence(a[1..], b[1..])) || IsSubsequence(a, b[1..])
  }

  /** The sweep never reorders the locks it keeps. */
  lemma {:induction false} SweepKeepsOrder(locks: seq<Lock>, now: int)
    ensures IsSubsequence(Sweep(locks, now), locks)
  {
    if locks != [] {
      SweepKeepsOrder(locks[1..], now);
      if Active(locks[0], now) {
        assert Sweep(locks, now)[1..] == Sweep(locks[1..], now);
      }
    }
  }

  /** The sweep works lock by lock: it distributes over concatenation. */
  lemma {:induction false} SweepAppend(a: seq<Lock>, b: seq<Lock>, now: int)
    ensures Sweep(a + b, now) == Sweep(a, now) + Sweep(b, now)
  {
    if a != [] {
      assert (a + b)[0] == a[0] && (a + b)[1..] == a[1..] + b;
      SweepAppend(a[1..], b, now);
    } else {
      assert a + b == b;
    }
  }

  /** A list of active locks survives the sweep unchanged. */
  lemma {:induction false} SweepKeepsActive(locks: seq<Lock>, now: int)
    requires forall i :: 0 <= i < |locks| ==> Active(locks[i], now)
    ensures Sweep(locks, now) == locks
  {
    if locks != [] {
      SweepKeepsActive(locks[1..], now);
    }
  }

  /**
   Sweeping at `t1` and then at a later `t2` is the same as sweeping at `t2`
   alone; with `t1 == t2` this is idempotence.
   */
  lemma {:induction false} SweepThenLater(locks: seq<Lock>, t1: int, t2: int)
    requires t1 <= t2
    ensures Sweep(Sweep(locks, t1), t2) == Sweep(locks, t2)
  {
    if locks != [] {
      SweepThenLater(locks[1..], t1, t2);
    }
  }

  lemma SweepIdempotent(locks: seq<Lock>, now: int)
    ensures Sweep(Sweep(locks, now), now) == Sweep(locks, now)
  {
    SweepThenLater(locks, now, now);
  }

  /** Every seat's holds in `locks` belong to a single session. */
  ghost predicate SeatExclusive(locks: seq<Lock>) {
    forall a, b :: a in locks && b in locks && a.seatId == b.seatId ==> a.sessionId == b.sessionId
  }

  /** Some lock in `locks` is on `seatId` and belongs to a session other than `sessionId`. */
  predicate HeldByOther(locks: seq<Lock>, seatId: string, sessionId: string) {
    exists l :: l in locks && l.seatId == seatId && l.sessionId != sessionId
  }

  /**
   lockSeat on one row: sweep, refuse if another session actively holds the
   seat, otherwise append a new hold lasting `ttl` ms. As in the handler, a
   session that re-locks a seat it already holds gets a second record; the
   existing one is not refreshed.
   */
  function LockRow(row: Row, seatId: string, sessionId: string, now: int, ttl: int): (r: Result<Row, Error>)
    ensures r.Err? <==> HeldByOther(Sweep(row.lockedSeats, now), seatId, sessionId)
    ensures r.Err? ==> r.error == SeatLocked
    ensures r.Ok? ==>
      && r.value.name == row.name
      && r.value.totalSeats == row.totalSeats
      && r.value.lockedSeats == Sweep(row.lockedSeats, now) + [Lock(seatId, sessionId, now + ttl)]
  {
    var active := Sweep(row.lockedSeats, now);
    if HeldByOther(active, seatId, sessionId) then Err(SeatLocked)
    else Ok(row.(lockedSeats := active + [Lock(seatId, sessionId, now + ttl)]))
  }

  /** A seat actively held by one session cannot be locked by any other. */
  lemma LockBlocksOtherSessions(row: Row, l: Lock, sessionId: string, now: int, ttl: int)
    requires l in row.lockedSeats && Active(l, now) && l.sessionId != sessionId
    ensures LockRow(row, l.seatId, sessionId, now, ttl) == Err(SeatLocked)
  {
    assert l in Sweep(row.lockedSeats, now);
  }

  /** An expired hold never blocks: only active holds of other sessions matter. */
  lemma ExpiredLocksNeverBlock(row: Row, seatId: string, sessionId: string, now: int, ttl: int)
    requires forall l :: l in row.lockedSeats && l.seatId == seatId && l.sessionId != sessionId ==> !Active(l, now)
    ensures LockRow(row, seatId, sessionId, now, ttl).Ok?
  {
  }

  /** Locking keeps every seat's active holds within a single session. */
  lemma LockRowKeepsExclusive(row: Row, seatId: string, sessionId: string, now: int, ttl: int)
    requires SeatExclusive(Sweep(row.lockedSeats, now))
    requires LockRow(row, seatId, sessionId, now, ttl).Ok?
    ensures SeatExclusive(LockRow(row, seatId, sessionId, now, ttl).value.lockedSeats)
  {
  }

  /** Dropping locks cannot break exclusivity. */
  lemma ExclusiveSubset(a: seq<Lock>, b: seq<Lock>)
    requires SeatExclusive(b)
    requires forall l :: l in a ==> l in b
    ensures SeatExclusive(a)
  {
  }

  /** Exclusivity at `now` lasts: later sweeps keep fewer locks. */
  lemma ExclusiveLater(locks: seq<Lock>, t1: int, t2: int)
    requires t1 <= t2 && SeatExclusive(Sweep(locks, t1))
    ensures SeatExclusive(Sweep(locks, t2))
  {
    SweepThenLater(locks, t1, t2);
    ExclusiveSubset(Sweep(locks, t2), Sweep(locks, t1));
  }

  /** How many records in `locks` are holds of `sessionId` on `seatId`. */
  function CountHolds(locks: seq<Lock>, seatId: string, sessionId: string): nat {
    if locks == [] then 0
    else
      var here := if locks[0].seatId == seatId && locks[0].sessionId == sessionId then 1 else 0;
      here + CountHolds(locks[1..], seatId, sessionId)
  }

  lemma {:induction false} CountHoldsAppend(a: seq<Lock>, b: seq<Lock>, seatId: string, sessionId: string)
    ensures CountHolds(a + b, seatId, sessionId) == CountHolds(a, seatId, sessionId) + CountHolds(b, seatId, sessionId)
  {
    if a != [] {
      assert (a + b)[0] == a[0] && (a + b)[1..] == a[1..] + b;
      CountHoldsAppend(a[1..], b, seatId, sessionId);
    } else {
      assert a + b == b;
    }
  }

  /**
   A session re-locking a seat it already actively holds succeeds and ends up
   with one more hold record on that seat than before: the earlier record is
   kept, not refreshed.
   */
  lemma RelockAddsDuplicate(row: Row, seatId: string, sessionId: string, now: int, ttl: int)
    requires SeatExclusive(Sweep(row.lockedSeats, now))
    requires exists l :: l in row.lockedSeats && Active(l, now) && l.seatId == seatId && l.sessionId == sessionId
    ensures LockRow(row, seatId, sessionId, now, ttl).Ok?
    ensures var locks := LockRow(row, seatId, sessionId, now, ttl).value.lockedSeats;
      CountHolds(locks, seatId, sessionId) == CountHolds(Sweep(row.lockedSeats, now), seatId, sessionId) + 1
      && CountHolds(locks, seatId, sessionId) >= 2
  {
    var active := Sweep(row.lockedSeats, now);
    var l :| l in row.lockedSeats && Active(l, now) && l.seatId == seatId && l.sessionId == sessionId;
    assert l in active;
    CountHoldsAppend(active, [Lock(seatId, sessionId, now + ttl)], seatId, sessionId);
    CountHoldsPositive(active, l);
  }

  lemma {:induction false} CountHoldsPositive(locks: seq<Lock>, l: Lock)
    requires l in locks
    ensures CountHolds(locks, l.seatId, l.sessionId) >= 1
  {
    if locks[0] != l {
      CountHoldsPositive(locks[1..], l);
    }
  }

  /**
   The new hold survives a sweep exactly until `now + ttl`; with a positive
   duration it is active when it is taken.
   */
  lemma NewHoldActiveUntilTtl(row: Row, seatId: string, sessionId: string, now: int, ttl: int, t: int)
    requires LockRow(row, seatId, sessionId, now, ttl).Ok?
    ensures var locks := LockRow(row, seatId, sessionId, now, ttl).value.lockedSeats;
      && (Lock(seatId, sessionId, now + ttl) in Sweep(locks, t) <==> t < now + ttl)
      && (ttl > 0 ==> Lock(seatId, sessionId, now + ttl) in Sweep(locks, now))
  {
  }

  /**
   Seat A is locked by session 1; session 2 is refused while the hold is
   active and succeeds once its five minutes have passed.
   */
  lemma LockScenario()
    ensures var row := Row("A", 10, []);
      var first := LockRow(row, "seatA", "session1", 0, LockDurationMs);
      && first.Ok?
      && LockRow(first.value, "seatA", "session2", 1000, LockDurationMs) == Err(SeatLocked)
      && LockRow(first.value, "seatA", "session2", LockDurationMs, LockDurationMs).Ok?
  {
  }
}
