/**
 * The blocking master transactions, run against an abstract bus.  The
 * peripheral is given as the sequence of status words that successive polls
 * of its status register return (a quiet word once the sequence is
 * exhausted) and the sequence of bytes that successive reads of its receive
 * register return (0 once exhausted).  What the driver does to the
 * peripheral is recorded as a trace of bus operations.
 */
module WireMaster {
  import opened Bits
  import opened WireState

  /** A command the driver gives the peripheral. */
  datatype BusOp =
    | StartRead(address: Byte, iaddress: Word, isize: Byte)
    | StartWrite(address: Byte, iaddress: Word, isize: Byte, first: Byte)
    | WriteByte(value: Byte)
    | Stop
    | SendStop

  /** The status flag a wait helper waits for. */
  datatype Flag = TxComp | RxRdy | TxRdy

  predicate HasFlag(w: StatusWord, flag: Flag)
  {
    match flag
    case TxComp => w.txcomp
    case RxRdy => w.rxrdy
    case TxRdy => w.txrdy
  }

  /** The word the `i`-th poll of the status register returns. */
  function Poll(words: seq<StatusWord>, i: nat): StatusWord
  {
    if i < |words| then words[i] else QUIET_WORD
  }

  /** The byte the `i`-th read of the receive register returns. */
  function Incoming(bytes: seq<Byte>, i: nat): Byte
  {
    if i < |bytes| then bytes[i] else 0
  }

  /** Poll `i` shows the awaited flag and no NACK. */
  predicate Hit(words: seq<StatusWord>, i: nat, flag: Flag)
  {
    HasFlag(Poll(words, i), flag) && !Poll(words, i).nack
  }

  /** Poll `i` shows neither the awaited flag nor NACK. */
  predicate Quiet(words: seq<StatusWord>, i: nat, flag: Flag)
  {
    !HasFlag(Poll(words, i), flag) && !Poll(words, i).nack
  }

  /**
   * The number of polls a `uint32_t` countdown allows: `--timeout` reaches 0
   * after `timeout` polls, and after 2^32 when it starts at 0 and wraps.
   */
  function Budget(timeout: Word): (n: nat)
    ensures n >= 1
    ensures timeout != 0 ==> n == timeout
  {
    if timeout == 0 then 0x1_0000_0000 else timeout
  }

  /** Outcome of a wait: whether the flag came, and the index of the next poll. */
  datatype Waited = Waited(ok: bool, next: nat)

  /**
   * `TWI_WaitTransferComplete`, `TWI_WaitByteSent` and `TWI_WaitByteReceived`:
   * poll from `pos` with `budget` polls left.  Each poll that shows NACK
   * fails, a poll that uses up the budget fails even when it shows the flag,
   * and otherwise a poll that shows the flag succeeds.
   *
   * The wait succeeds exactly when the flag shows, without NACK, on a poll
   * before the last one allowed; `WaitQuiet` adds that every earlier poll
   * showed neither.
   */
  function Wait(words: seq<StatusWord>, pos: nat, flag: Flag, budget: nat): (r: Waited)
    requires budget >= 1
    ensures pos < r.next <= pos + budget
    ensures r.ok <==> Hit(words, r.next - 1, flag) && r.next < pos + budget
    ensures !r.ok ==> Poll(words, r.next - 1).nack || r.next == pos + budget
    decreases budget
  {
    var w := Poll(words, pos);
    if w.nack then Waited(false, pos + 1)
    else if budget == 1 then Waited(false, pos + 1)
    else if HasFlag(w, flag) then Waited(true, pos + 1)
    else Wait(words, pos + 1, flag, budget - 1)
  }

  /** Every poll a wait makes before its last shows neither the flag nor NACK. */
  lemma {:induction false} WaitQuiet(words: seq<StatusWord>, pos: nat, flag: Flag, budget: nat)
    requires budget >= 1
    ensures var r := Wait(words, pos, flag, budget);
      forall j :: pos <= j < r.next - 1 ==> Quiet(words, j, flag)
    decreases budget
  {
    var w := Poll(words, pos);
    if !w.nack && budget != 1 && !HasFlag(w, flag) {
      WaitQuiet(words, pos + 1, flag, budget - 1);
    }
  }

  /** One poll of a wait: its outcome, or the wait that goes on from the next poll. */
  lemma WaitStep(words: seq<StatusWord>, pos: nat, flag: Flag, budget: nat)
    requires budget >= 1
    ensures var w := Poll(words, pos);
      Wait(words, pos, flag, budget)
        == if w.nack || budget == 1 then Waited(false, pos + 1)
           else if HasFlag(w, flag) then Waited(true, pos + 1)
           else Wait(words, pos + 1, flag, budget - 1)
  {
  }

  /** The `uint32_t` countdown: one decrement leaves one poll fewer, and reaches 0 on the last. */
  lemma Countdown(remaining: Word)
    ensures U32(remaining - 1) == 0 <==> Budget(remaining) == 1
    ensures U32(remaining - 1) != 0 ==> Budget(U32(remaining - 1)) == Budget(remaining) - 1
  {
  }

  /** A wait whose first poll shows the flag, with budget to spare, succeeds at once. */
  lemma WaitImmediate(words: seq<StatusWord>, pos: nat, flag: Flag, budget: nat)
    requires budget >= 2 && Hit(words, pos, flag)
    ensures Wait(words, pos, flag, budget) == Waited(true, pos + 1)
  {
  }

  /** A wait whose first poll shows NACK fails at once. */
  lemma WaitRefused(words: seq<StatusWord>, pos: nat, flag: Flag, budget: nat)
    requires budget >= 1 && Poll(words, pos).nack
    ensures Wait(words, pos, flag, budget) == Waited(false, pos + 1)
  {
  }

  /** Stored bytes, trace so far and next poll of a reception. */
  datatype Reception = Reception(bytes: seq<Byte>, trace: seq<BusOp>, next: nat)

  /**
   * The do-while of `requestFrom` from the point where `acc` has been stored
   * and polling resumes at `pos`.  Before each wait, STOP is requested when
   * the byte about to arrive is the last one wanted.
   */
  function ReadLoop(words: seq<StatusWord>, bytes: seq<Byte>, pos: nat, quantity: nat,
                    acc: seq<Byte>, trace: seq<BusOp>): (r: Reception)
    requires |acc| == 0 || |acc| < quantity
    ensures |acc| <= |r.bytes| <= (if quantity == 0 then 1 else quantity)
    ensures r.trace == trace + (if 1 <= quantity <= |r.bytes| + 1 then [SendStop] else [])
    decreases quantity - |acc|
  {
    var trace' := if |acc| + 1 == quantity then trace + [SendStop] else trace;
    var w := Wait(words, pos, RxRdy, Budget(RECV_TIMEOUT));
    if !w.ok then Reception(acc, trace', w.next)
    else
      var acc' := acc + [Incoming(bytes, |acc|)];
      if |acc'| < quantity then ReadLoop(words, bytes, w.next, quantity, acc', trace')
      else Reception(acc', trace', w.next)
  }

  /** The first `n` bytes the receive register returns, in order. */
  function Arrivals(bytes: seq<Byte>, n: nat): (a: seq<Byte>)
    ensures |a| == n
    ensures forall i :: 0 <= i < n ==> a[i] == Incoming(bytes, i)
  {
    if n == 0 then [] else Arrivals(bytes, n - 1) + [Incoming(bytes, n - 1)]
  }

  /**
   * Started from the first bytes to arrive, `ReadLoop` ends with the first
   * bytes to arrive: each byte is stored at the index at which it arrived.
   */
  lemma {:induction false} ReadLoopArrival(words: seq<StatusWord>, bytes: seq<Byte>, pos: nat, quantity: nat,
                                           acc: seq<Byte>, trace: seq<BusOp>)
    requires |acc| == 0 || |acc| < quantity
    requires acc == Arrivals(bytes, |acc|)
    ensures var r := ReadLoop(words, bytes, pos, quantity, acc, trace);
      r.bytes == Arrivals(bytes, |r.bytes|)
    decreases quantity - |acc|
  {
    var trace' := if |acc| + 1 == quantity then trace + [SendStop] else trace;
    var w := Wait(words, pos, RxRdy, Budget(RECV_TIMEOUT));
    ReadLoopStep(words, bytes, pos, quantity, acc, trace, trace', w.ok, w.next);
    var acc' := acc + [Incoming(bytes, |acc|)];
    assert acc' == Arrivals(bytes, |acc'|);
    if w.ok && |acc'| < quantity {
      ReadLoopArrival(words, bytes, w.next, quantity, acc', trace');
    }
  }

  /** One pass of the do-while of `ReadLoop`, given the outcome of its wait. */
  lemma ReadLoopStep(words: seq<StatusWord>, bytes: seq<Byte>, pos: nat, quantity: nat,
                     acc: seq<Byte>, trace: seq<BusOp>, trace': seq<BusOp>, ok: bool, next: nat)
    requires |acc| == 0 || |acc| < quantity
    requires trace' == if |acc| + 1 == quantity then trace + [SendStop] else trace
    requires Waited(ok, next) == Wait(words, pos, RxRdy, Budget(RECV_TIMEOUT))
    ensures var r := ReadLoop(words, bytes, pos, quantity, acc, trace);
      var acc' := acc + [Incoming(bytes, |acc|)];
      && (!ok ==> r == Reception(acc, trace', next))
      && (ok && |acc'| < quantity ==> r == ReadLoop(words, bytes, next, quantity, acc', trace'))
      && (ok && |acc'| >= quantity ==> r == Reception(acc', trace', next))
  {
  }

  /** The quantity `requestFrom` asks for once clamped to the receive capacity. */
  function Clamp(quantity: Byte, capacity: nat): (q: nat)
    ensures q <= quantity && q <= capacity && (q == quantity || q == capacity)
  {
    if quantity > capacity then capacity else quantity
  }

  /** Result of `requestFrom`: the new state, the count returned, the trace. */
  datatype Requested = Requested(state: State, count: Byte, trace: seq<BusOp>)

  /**
   * `requestFrom(address, quantity, iaddress, isize, sendStop)`.  The quantity
   * is clamped to the receive capacity and bytes are stored in arrival order
   * until the clamped quantity is reached or a wait fails; the do-while makes
   * one attempt even for quantity 0.  The final transfer-complete wait's
   * outcome is dropped and `sendStop` is not used.  The capacity must be
   * positive, since the first attempt stores into the first slot.
   */
  function RequestFrom(s: State, words: seq<StatusWord>, bytes: seq<Byte>, address: Byte,
                       quantity: Byte, iaddress: Word, isize: Byte, sendStop: Byte): (r: Requested)
    requires Valid(s) && |s.rx| > 0
    ensures Valid(r.state)
    ensures r.state == s.(rx := r.state.rx, rxIndex := 0, rxLength := r.count)
    ensures var q := Clamp(quantity, |s.rx|); r.count <= (if q == 0 then 1 else q)
    ensures Unread(r.state) == r.state.rx[..r.count]
    ensures forall i :: 0 <= i < r.count ==> Unread(r.state)[i] == Incoming(bytes, i)
    ensures |r.state.rx| == |s.rx| && forall i :: r.count <= i < |s.rx| ==> r.state.rx[i] == s.rx[i]
    ensures var q := Clamp(quantity, |s.rx|);
      r.trace == [StartRead(address, iaddress, isize)] + (if 1 <= q <= r.count + 1 then [SendStop] else [])
  {
    var q := Clamp(quantity, |s.rx|);
    var loop := ReadLoop(words, bytes, 0, q, [], [StartRead(address, iaddress, isize)]);
    ReadLoopArrival(words, bytes, 0, q, [], [StartRead(address, iaddress, isize)]);
    assert loop.bytes == Arrivals(bytes, |loop.bytes|);
    var n := |loop.bytes|;
    var rx := loop.bytes + s.rx[n..];
    assert rx[..n] == loop.bytes;
    Requested(s.(rx := rx, rxIndex := 0, rxLength := n), n, loop.trace)
  }

  /**
   * The number of waits for a received byte that succeed one after another
   * from poll `pos`, at most `limit`: an independent account of when the
   * reception stops.
   */
  function Successes(words: seq<StatusWord>, pos: nat, limit: nat): (n: nat)
    ensures n <= limit
    decreases limit
  {
    if limit == 0 then 0
    else
      var w := Wait(words, pos, RxRdy, Budget(RECV_TIMEOUT));
      if w.ok then 1 + Successes(words, w.next, limit - 1) else 0
  }

  lemma {:induction false} ReadLoopStopsAtFirstFailure(words: seq<StatusWord>, bytes: seq<Byte>, pos: nat,
                                                        quantity: nat, acc: seq<Byte>, trace: seq<BusOp>)
    requires |acc| == 0 || |acc| < quantity
    ensures var limit := (if quantity == 0 then 1 else quantity) - |acc|;
      |ReadLoop(words, bytes, pos, quantity, acc, trace).bytes| == |acc| + Successes(words, pos, limit)
    decreases quantity - |acc|
  {
    var trace' := if |acc| + 1 == quantity then trace + [SendStop] else trace;
    var w := Wait(words, pos, RxRdy, Budget(RECV_TIMEOUT));
    ReadLoopStep(words, bytes, pos, quantity, acc, trace, trace', w.ok, w.next);
    var limit := (if quantity == 0 then 1 else quantity) - |acc|;
    var acc' := acc + [Incoming(bytes, |acc|)];
    var r := ReadLoop(words, bytes, pos, quantity, acc, trace);
    assert Successes(words, pos, limit) == if w.ok then 1 + Successes(words, w.next, limit - 1) else 0;
    if !w.ok {
      assert r.bytes == acc;
    } else if |acc'| < quantity {
      ReadLoopStopsAtFirstFailure(words, bytes, w.next, quantity, acc', trace');
      assert r == ReadLoop(words, bytes, w.next, quantity, acc', trace');
      assert (if quantity == 0 then 1 else quantity) - |acc'| == limit - 1;
    } else {
      assert r.bytes == acc' && limit == 1;
    }
  }

  /** `requestFrom` returns the number of byte waits that succeed in a row, up to the clamped quantity (at least 1). */
  lemma RequestFromCount(s: State, words: seq<StatusWord>, bytes: seq<Byte>, address: Byte,
                         quantity: Byte, iaddress: Word, isize: Byte, sendStop: Byte)
    requires Valid(s) && |s.rx| > 0
    ensures var q := Clamp(quantity, |s.rx|);
      RequestFrom(s, words, bytes, address, quantity, iaddress, isize, sendStop).count
        == Successes(words, 0, if q == 0 then 1 else q)
  {
    var q := Clamp(quantity, |s.rx|);
    ReadLoopStopsAtFirstFailure(words, bytes, 0, q, [], [StartRead(address, iaddress, isize)]);
    assert RequestFrom(s, words, bytes, address, quantity, iaddress, isize, sendStop).count
      == |ReadLoop(words, bytes, 0, q, [], [StartRead(address, iaddress, isize)]).bytes|;
  }

  /** A quantity above the receive capacity behaves as the capacity itself. */
  lemma RequestFromClamps(s: State, words: seq<StatusWord>, bytes: seq<Byte>, address: Byte,
                          quantity: Byte, iaddress: Word, isize: Byte, sendStop: Byte)
    requires Valid(s) && 0 < |s.rx| < quantity
    ensures RequestFrom(s, words, bytes, address, quantity, iaddress, isize, sendStop)
      == RequestFrom(s, words, bytes, address, |s.rx| as Byte, iaddress, isize, sendStop)
  {
  }

  /**
   * Quantity 0 still makes one attempt: with a byte on offer it is stored and
   * 1 is returned, and no STOP is requested.
   */
  lemma RequestFromZero(s: State, words: seq<StatusWord>, bytes: seq<Byte>, address: Byte)
    requires Valid(s) && |s.rx| > 0 && Hit(words, 0, RxRdy)
    ensures var r := RequestFrom(s, words, bytes, address, 0, 0, 0, 1);
      r.count == 1 && Unread(r.state) == [Incoming(bytes, 0)]
      && r.trace == [StartRead(address, 0, 0)]
  {
    var r := RequestFrom(s, words, bytes, address, 0, 0, 0, 1);
    WaitImmediate(words, 0, RxRdy, Budget(RECV_TIMEOUT));
    assert r.count == Successes(words, 0, 1) by {
      RequestFromCount(s, words, bytes, address, 0, 0, 0, 1);
    }
  }

  /**
   * A peer that supplies two bytes and then refuses: `requestFrom(0x42, 4)`
   * returns 2, leaves those two bytes to read, and never requested STOP.
   */
  lemma RequestFromShortPeer(s: State)
    requires Valid(s) && |s.rx| >= 4
    ensures var ready := QUIET_WORD.(rxrdy := true);
      var refused := QUIET_WORD.(nack := true);
      var r := RequestFrom(s, [ready, ready, refused], [0xA1, 0xB2], 0x42, 4, 0, 0, 1);
      r.count == 2 && r.state.rxLength == 2 && Unread(r.state) == [0xA1, 0xB2]
      && r.trace == [StartRead(0x42, 0, 0)]
  {
    var ready := QUIET_WORD.(rxrdy := true);
    var refused := QUIET_WORD.(nack := true);
    var words := [ready, ready, refused];
    WaitImmediate(words, 0, RxRdy, Budget(RECV_TIMEOUT));
    WaitImmediate(words, 1, RxRdy, Budget(RECV_TIMEOUT));
    WaitRefused(words, 2, RxRdy, Budget(RECV_TIMEOUT));
    RequestFromCount(s, words, [0xA1, 0xB2], 0x42, 4, 0, 0, 1);
    assert Successes(words, 2, 2) == 0;
    assert Successes(words, 1, 3) == 1;
    assert Successes(words, 0, 4) == 2;
  }

  /** Data bytes as the write-byte operations that put them on the bus. */
  function DataOps(data: seq<Byte>): (ops: seq<BusOp>)
    ensures |ops| == |data|
    ensures forall i :: 0 <= i < |data| ==> ops[i] == WriteByte(data[i])
    decreases |data|
  {
    if data == [] then [] else [WriteByte(data[0])] + DataOps(data[1..])
  }

  /** The bytes one bus operation carries. */
  function OpBytes(op: BusOp): seq<Byte>
  {
    match op
    case StartWrite(_, _, _, first) => [first]
    case WriteByte(b) => [b]
    case _ => []
  }

  /** The bytes a trace puts on the bus: the first byte of each start-write and every written byte. */
  function Payload(trace: seq<BusOp>): (bytes: seq<Byte>)
    decreases |trace|
  {
    if trace == [] then [] else OpBytes(trace[0]) + Payload(trace[1..])
  }

  lemma {:induction false} PayloadAppend(a: seq<BusOp>, b: seq<BusOp>)
    ensures Payload(a + b) == Payload(a) + Payload(b)
    decreases |a|
  {
    if a == [] {
      assert a + b == b;
    } else {
      assert (a + b)[0] == a[0] && (a + b)[1..] == a[1..] + b;
      PayloadAppend(a[1..], b);
    }
  }

  lemma {:induction false} PayloadDataOps(data: seq<Byte>)
    ensures Payload(DataOps(data)) == data
    decreases |data|
  {
    if data != [] {
      var ops := DataOps(data);
      assert ops[0] == WriteByte(data[0]) && ops[1..] == DataOps(data[1..]);
      PayloadDataOps(data[1..]);
    }
  }

  lemma DataOpsStep(tx: seq<Byte>, sent: nat, length: nat, trace: seq<BusOp>)
    requires sent < length <= |tx|
    ensures trace + DataOps(tx[sent..length])
      == (trace + [WriteByte(tx[sent])]) + (if sent + 1 < length then DataOps(tx[sent + 1..length]) else [])
  {
    var data := tx[sent..length];
    assert data[0] == tx[sent] && data[1..] == tx[sent + 1..length];
    assert DataOps(data) == [WriteByte(tx[sent])] + DataOps(data[1..]);
    if sent + 1 == length {
      assert data[1..] == [];
    }
  }

  /**
   * The successive byte-sent waits of `k` data bytes, each starting at the
   * poll where the one before it stopped, the first at `pos`.
   */
  function DataWaits(words: seq<StatusWord>, pos: nat, k: nat): (ws: seq<Waited>)
    ensures |ws| == k
    ensures k > 0 ==> ws[0] == Wait(words, pos, TxRdy, Budget(XMIT_TIMEOUT))
    ensures forall i :: 0 < i < k ==> ws[i] == Wait(words, ws[i - 1].next, TxRdy, Budget(XMIT_TIMEOUT))
    decreases k
  {
    if k == 0 then []
    else
      var w := Wait(words, pos, TxRdy, Budget(XMIT_TIMEOUT));
      var rest := DataWaits(words, w.next, k - 1);
      assert forall i :: 0 < i < k ==> ([w] + rest)[i] == rest[i - 1];
      [w] + rest
  }

  /** Some wait of `ws` failed. */
  predicate AnyFailed(ws: seq<Waited>)
  {
    exists i :: 0 <= i < |ws| && !ws[i].ok
  }

  /** The poll after the last wait of `ws`, or `pos` when there is none. */
  function AfterWaits(ws: seq<Waited>, pos: nat): nat
  {
    if ws == [] then pos else ws[|ws| - 1].next
  }

  /** Splitting off the first wait of a chain. */
  lemma WaitsCons(w: Waited, rest: seq<Waited>, pos: nat)
    ensures AnyFailed([w] + rest) <==> !w.ok || AnyFailed(rest)
    ensures AfterWaits([w] + rest, pos) == AfterWaits(rest, w.next)
  {
    var ws := [w] + rest;
    if !w.ok {
      assert !ws[0].ok;
    }
    if AnyFailed(rest) {
      var i :| 0 <= i < |rest| && !rest[i].ok;
      assert !ws[i + 1].ok;
    }
    if AnyFailed(ws) {
      var i :| 0 <= i < |ws| && !ws[i].ok;
      if i == 0 {
        assert ws[0] == w;
      } else {
        assert ws[i] == rest[i - 1];
        assert AnyFailed(rest);
      }
    }
  }

  /** Whether some wait failed, the trace so far and the next poll of a transmission. */
  datatype Sending = Sending(failed: bool, trace: seq<BusOp>, next: nat)

  /**
   * The data loop of `endTransmission` over the staged bytes: every
   * remaining byte is written and waited for, whether or not an earlier wait
   * failed.
   */
  function SendLoop(words: seq<StatusWord>, tx: seq<Byte>, length: nat, sent: nat, pos: nat,
                    failed: bool, trace: seq<BusOp>): (r: Sending)
    requires length <= |tx|
    ensures r.trace == trace + (if sent < length then DataOps(tx[sent..length]) else [])
    ensures failed ==> r.failed
    decreases length - sent
  {
    if sent < length then
      var w := Wait(words, pos, TxRdy, Budget(XMIT_TIMEOUT));
      var r := SendLoop(words, tx, length, sent + 1, w.next, failed || !w.ok, trace + [WriteByte(tx[sent])]);
      DataOpsStep(tx, sent, length, trace);
      r
    else Sending(failed, trace, pos)
  }

  /**
   * The data loop fails exactly when it started failed or one of the waits
   * of its remaining bytes fails, and it stops at the poll after the last.
   */
  lemma {:induction false} SendLoopWaits(words: seq<StatusWord>, tx: seq<Byte>, length: nat, sent: nat, pos: nat,
                                         failed: bool, trace: seq<BusOp>)
    requires length <= |tx|
    ensures var r := SendLoop(words, tx, length, sent, pos, failed, trace);
      var ws := DataWaits(words, pos, if sent < length then length - sent else 0);
      (r.failed <==> failed || AnyFailed(ws)) && r.next == AfterWaits(ws, pos)
    decreases length - sent
  {
    if sent < length {
      var w := Wait(words, pos, TxRdy, Budget(XMIT_TIMEOUT));
      SendLoopWaits(words, tx, length, sent + 1, w.next, failed || !w.ok, trace + [WriteByte(tx[sent])]);
      var rest := DataWaits(words, w.next, if sent + 1 < length then length - (sent + 1) else 0);
      assert DataWaits(words, pos, length - sent) == [w] + rest;
      WaitsCons(w, rest, pos);
    }
  }

  /** Result of `endTransmission`: the new state, the error code, the trace. */
  datatype Transmission = Transmission(state: State, error: Byte, trace: seq<BusOp>)

  /** The staged bytes after the first, which travel as write-byte operations. */
  function DataTail(s: State): (data: seq<Byte>)
    requires Valid(s)
    ensures s.txLength >= 1 ==> [s.tx[0]] + data == Staged(s)
    ensures s.txLength <= 1 ==> data == []
    ensures |data| == if s.txLength > 1 then s.txLength - 1 else 0
  {
    if s.txLength >= 1 then s.tx[1..s.txLength] else []
  }

  /**
   * `endTransmission(sendStop)`: start a write carrying `tx[0]`, then write
   * and wait for each further staged byte, then issue STOP and wait for the
   * transfer to complete.  Error 2: the first wait failed, and nothing more is
   * sent.  Error 3: a later wait failed; the remaining bytes still go out but
   * no STOP follows.  Error 4: only the completion wait failed.  Error 0:
   * every wait succeeded.  `sendStop` is not used.  The transmit capacity
   * must be positive, since `tx[0]` is read even when nothing is staged.
   */
  function EndTransmission(s: State, words: seq<StatusWord>, sendStop: Byte): (r: Transmission)
    requires Valid(s) && |s.tx| > 0
    ensures Valid(r.state)
    ensures r.state == s.(txLength := 0, status := MasterIdle)
    ensures r.error in {0, 2, 3, 4}
    ensures r.error == 2 <==> !Wait(words, 0, TxRdy, Budget(XMIT_TIMEOUT)).ok
    ensures var first := Wait(words, 0, TxRdy, Budget(XMIT_TIMEOUT));
      var ws := DataWaits(words, first.next, |DataTail(s)|);
      var done := Wait(words, AfterWaits(ws, first.next), TxComp, Budget(XMIT_TIMEOUT));
      && (r.error == 3 <==> first.ok && AnyFailed(ws))
      && (r.error == 4 <==> first.ok && !AnyFailed(ws) && !done.ok)
      && (r.error == 0 <==> first.ok && !AnyFailed(ws) && done.ok)
    ensures r.error == 2 ==> r.trace == [StartWrite(s.txAddress, 0, 0, s.tx[0])]
    ensures r.error != 2 ==>
      r.trace == [StartWrite(s.txAddress, 0, 0, s.tx[0])] + DataOps(DataTail(s))
        + (if r.error == 3 then [] else [Stop])
  {
    var start := [StartWrite(s.txAddress, 0, 0, s.tx[0])];
    var first := Wait(words, 0, TxRdy, Budget(XMIT_TIMEOUT));
    var t := s.(txLength := 0, status := MasterIdle);
    if !first.ok then Transmission(t, 2, start)
    else
      var loop := SendLoop(words, s.tx, s.txLength, 1, first.next, false, start);
      SendLoopWaits(words, s.tx, s.txLength, 1, first.next, false, start);
      assert loop.trace == start + DataOps(DataTail(s));
      if loop.failed then Transmission(t, 3, loop.trace)
      else
        var done := Wait(words, loop.next, TxComp, Budget(XMIT_TIMEOUT));
        Transmission(t, if done.ok then 0 else 4, loop.trace + [Stop])
  }

  /** STOP appears in the trace exactly when no error came before the completion wait. */
  lemma EndTransmissionStop(s: State, words: seq<StatusWord>, sendStop: Byte)
    requires Valid(s) && |s.tx| > 0
    ensures var r := EndTransmission(s, words, sendStop);
      (Stop in r.trace <==> r.error == 0 || r.error == 4)
  {
    var r := EndTransmission(s, words, sendStop);
    var data := DataOps(DataTail(s));
    assert Stop !in data;
    if r.error == 3 || r.error == 2 {
      assert Stop !in [StartWrite(s.txAddress, 0, 0, s.tx[0])] + data;
    }
  }

  /**
   * Unless the first wait fails, the bus carries every staged byte in order;
   * with nothing staged it still carries `tx[0]`.
   */
  lemma EndTransmissionPayload(s: State, words: seq<StatusWord>, sendStop: Byte)
    requires Valid(s) && |s.tx| > 0
    ensures var r := EndTransmission(s, words, sendStop);
      Payload(r.trace) == if r.error == 2 || s.txLength == 0 then [s.tx[0]] else Staged(s)
  {
    var r := EndTransmission(s, words, sendStop);
    var start := [StartWrite(s.txAddress, 0, 0, s.tx[0])];
    assert Payload(start) == [s.tx[0]] by {
      assert start[1..] == [];
    }
    if r.error != 2 {
      var tail: seq<BusOp> := if r.error == 3 then [] else [Stop];
      assert Payload(tail) == [] by {
        if tail != [] { assert tail[1..] == []; }
      }
      PayloadAppend(start + DataOps(DataTail(s)), tail);
      PayloadAppend(start, DataOps(DataTail(s)));
      PayloadDataOps(DataTail(s));
    }
  }

  /** The stop argument changes nothing: STOP is issued on the error rule alone. */
  lemma EndTransmissionIgnoresSendStop(s: State, words: seq<StatusWord>, a: Byte, b: Byte)
    requires Valid(s) && |s.tx| > 0
    ensures EndTransmission(s, words, a) == EndTransmission(s, words, b)
  {
  }

  /** Opening a write to `address` and writing bytes that fit stages exactly those bytes. */
  lemma StagedByWrites(s: State, address: Byte, data: seq<Byte>)
    requires Valid(s) && |data| <= |s.tx|
    ensures var t := WriteBytes(BeginTransmission(s, address), data).state;
      Staged(t) == data && t.txAddress == address
  {
    var u := BeginTransmission(s, address);
    WriteBytesFits(u, data);
    assert [] + data == data;
  }

  /** The transmission of three staged bytes against a peer that acknowledges everything. */
  lemma SendThreeAcked(t: State, words: seq<StatusWord>)
    requires Valid(t) && |t.tx| > 0 && Staged(t) == [0x10, 0x20, 0x30] && t.txAddress == 0x42
    requires Hit(words, 0, TxRdy) && Hit(words, 1, TxRdy) && Hit(words, 2, TxRdy) && Hit(words, 3, TxComp)
    ensures var r := EndTransmission(t, words, 1);
      r.error == 0
      && r.trace == [StartWrite(0x42, 0, 0, 0x10), WriteByte(0x20), WriteByte(0x30), Stop]
  {
    assert t.tx[0] == 0x10 && DataTail(t) == [0x20, 0x30];
    WaitImmediate(words, 0, TxRdy, Budget(XMIT_TIMEOUT));
    WaitImmediate(words, 1, TxRdy, Budget(XMIT_TIMEOUT));
    WaitImmediate(words, 2, TxRdy, Budget(XMIT_TIMEOUT));
    WaitImmediate(words, 3, TxComp, Budget(XMIT_TIMEOUT));
    var start := [StartWrite(0x42, 0, 0, 0x10)];
    var l2 := SendLoop(words, t.tx, 3, 2, 2, false, start + [WriteByte(0x20)]);
    assert l2.next == 3 && !l2.failed;
    var l1 := SendLoop(words, t.tx, 3, 1, 1, false, start);
    assert l1 == l2;
    assert DataOps([0x20, 0x30]) == [WriteByte(0x20), WriteByte(0x30)];
  }

  /**
   * Writing `[0x10, 0x20, 0x30]` to address 0x42 against a peer that
   * acknowledges every byte: the start-write carries 0x10, two bytes follow,
   * then STOP, and the result is 0.
   */
  lemma EndTransmissionScenario(s: State)
    requires Valid(s) && |s.tx| >= 3
    ensures var ready := QUIET_WORD.(txrdy := true);
      var done := QUIET_WORD.(txcomp := true);
      var t := WriteBytes(BeginTransmission(s, 0x42), [0x10, 0x20, 0x30]).state;
      var r := EndTransmission(t, [ready, ready, ready, done], 1);
      r.error == 0
      && r.trace == [StartWrite(0x42, 0, 0, 0x10), WriteByte(0x20), WriteByte(0x30), Stop]
  {
    var ready := QUIET_WORD.(txrdy := true);
    var done := QUIET_WORD.(txcomp := true);
    var words := [ready, ready, ready, done];
    var t := WriteBytes(BeginTransmission(s, 0x42), [0x10, 0x20, 0x30]).state;
    assert Valid(t) && Staged(t) == [0x10, 0x20, 0x30] && t.txAddress == 0x42 by {
      StagedByWrites(s, 0x42, [0x10, 0x20, 0x30]);
    }
    assert Hit(words, 0, TxRdy) && Hit(words, 1, TxRdy) && Hit(words, 2, TxRdy) && Hit(words, 3, TxComp);
    SendThreeAcked(t, words);
  }

  /** A refusal on the first data byte: error 3, the last byte still written, no STOP. */
  lemma SendThreeRefusedData(t: State, words: seq<StatusWord>)
    requires Valid(t) && |t.tx| > 0 && Staged(t) == [0x10, 0x20, 0x30] && t.txAddress == 0x42
    requires Hit(words, 0, TxRdy) && Poll(words, 1).nack && Hit(words, 2, TxRdy)
    ensures var r := EndTransmission(t, words, 1);
      r.error == 3 && r.trace == [StartWrite(0x42, 0, 0, 0x10), WriteByte(0x20), WriteByte(0x30)]
  {
    assert t.tx[0] == 0x10 && DataTail(t) == [0x20, 0x30];
    WaitImmediate(words, 0, TxRdy, Budget(XMIT_TIMEOUT));
    WaitRefused(words, 1, TxRdy, Budget(XMIT_TIMEOUT));
    var start := [StartWrite(0x42, 0, 0, 0x10)];
    var l2 := SendLoop(words, t.tx, 3, 2, 2, true, start + [WriteByte(0x20)]);
    assert l2.failed;
    var l1 := SendLoop(words, t.tx, 3, 1, 1, false, start);
    assert l1 == l2;
    assert DataOps([0x20, 0x30]) == [WriteByte(0x20), WriteByte(0x30)];
  }

  /** Every byte acknowledged but no completion: error 4, after STOP. */
  lemma SendThreeIncomplete(t: State, words: seq<StatusWord>)
    requires Valid(t) && |t.tx| > 0 && Staged(t) == [0x10, 0x20, 0x30] && t.txAddress == 0x42
    requires Hit(words, 0, TxRdy) && Hit(words, 1, TxRdy) && Hit(words, 2, TxRdy) && Poll(words, 3).nack
    ensures var r := EndTransmission(t, words, 1);
      r.error == 4
      && r.trace == [StartWrite(0x42, 0, 0, 0x10), WriteByte(0x20), WriteByte(0x30), Stop]
  {
    assert t.tx[0] == 0x10 && DataTail(t) == [0x20, 0x30];
    WaitImmediate(words, 0, TxRdy, Budget(XMIT_TIMEOUT));
    WaitImmediate(words, 1, TxRdy, Budget(XMIT_TIMEOUT));
    WaitImmediate(words, 2, TxRdy, Budget(XMIT_TIMEOUT));
    WaitRefused(words, 3, TxComp, Budget(XMIT_TIMEOUT));
    var start := [StartWrite(0x42, 0, 0, 0x10)];
    var l2 := SendLoop(words, t.tx, 3, 2, 2, false, start + [WriteByte(0x20)]);
    assert l2.next == 3 && !l2.failed;
    var l1 := SendLoop(words, t.tx, 3, 1, 1, false, start);
    assert l1 == l2;
    assert DataOps([0x20, 0x30]) == [WriteByte(0x20), WriteByte(0x30)];
  }

  /** A refusal of the address: error 2, and only the start-write went out. */
  lemma SendRefusedAddress(t: State, words: seq<StatusWord>)
    requires Valid(t) && |t.tx| > 0 && Poll(words, 0).nack
    ensures var r := EndTransmission(t, words, 1);
      r.error == 2 && r.trace == [StartWrite(t.txAddress, 0, 0, t.tx[0])]
  {
    WaitRefused(words, 0, TxRdy, Budget(XMIT_TIMEOUT));
  }
}
