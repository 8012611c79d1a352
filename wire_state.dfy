/**
 * The abstract state of one TwoWire controller and the foreground operations
 * of its `Stream` facade: staging bytes for a master write, or filling the
 * service buffer that answers a master's read, and consuming the bytes that a
 * `requestFrom` or a slave reception left in the receive buffer.
 *
 * Every operation is a function from a `State` to a new `State`; the class in
 * module `Wire` keeps the same state in fields and arrays and proves each of
 * its methods against these functions.
 */
module WireState {
  import opened Bits
  import opened TwoWireBuffers

  /** `TwoWireStatus`. */
  datatype Status =
    | Uninitialized
    | MasterIdle
    | MasterSend
    | MasterRecv
    | SlaveIdle
    | SlaveRecv
    | SlaveSend

  /** Default bus clock in Hz. */
  const TWI_CLOCK: Word := 100000

  /** Poll counts of the blocking receive and transmit waits. */
  const RECV_TIMEOUT: Word := 100000
  const XMIT_TIMEOUT: Word := 100000

  /**
   * The flags of one reading of the TWI status register that the driver
   * tests; their bit positions belong to the chip headers.
   */
  datatype StatusWord = StatusWord(
    txcomp: bool,
    rxrdy: bool,
    txrdy: bool,
    svread: bool,
    svacc: bool,
    nack: bool,
    eosacc: bool)

  /** A reading with no flag set. */
  const QUIET_WORD := StatusWord(false, false, false, false, false, false, false)

  /**
   * The controller's fields.  `rx`, `tx` and `srv` are the three buffers, whose
   * lengths are the capacities the buffer provider reports; everything the
   * source keeps in a `uint8_t` is a `Byte` here.
   */
  datatype State = State(
    status: Status,
    rx: seq<Byte>, rxIndex: Byte, rxLength: Byte,
    txAddress: Byte, tx: seq<Byte>, txLength: Byte,
    srv: seq<Byte>, srvIndex: Byte, srvLength: Byte,
    twiClock: Word)

  /**
   * The invariant every operation keeps: capacities fit a `uint8_t`, read
   * cursors never pass their lengths, lengths never pass their capacities,
   * and `MasterRecv`, though declared, is never entered.
   */
  predicate Valid(s: State)
  {
    && |s.rx| < 256 && |s.tx| < 256 && |s.srv| < 256
    && s.rxIndex <= s.rxLength <= |s.rx|
    && s.txLength <= |s.tx|
    && s.srvIndex <= s.srvLength <= |s.srv|
    && s.status != MasterRecv
  }

  /** Bytes received and not yet read. */
  function Unread(s: State): seq<Byte>
    requires Valid(s)
  {
    s.rx[s.rxIndex..s.rxLength]
  }

  /** Bytes staged for the next master write. */
  function Staged(s: State): seq<Byte>
    requires Valid(s)
  {
    s.tx[..s.txLength]
  }

  /** Bytes in the service buffer: a slave reply, or a slave reception. */
  function Pending(s: State): seq<Byte>
    requires Valid(s)
  {
    s.srv[..s.srvLength]
  }

  /** `write` fills `tx` while a master write is open, and `srv` otherwise. */
  function Selected(s: State): seq<Byte>
    requires Valid(s)
  {
    if s.status == MasterSend then Staged(s) else Pending(s)
  }

  /** Free bytes in the buffer `write` fills. */
  function Room(s: State): nat
    requires Valid(s)
  {
    if s.status == MasterSend then |s.tx| - s.txLength else |s.srv| - s.srvLength
  }

  function Min(a: nat, b: nat): (m: nat)
    ensures m <= a && m <= b && (m == a || m == b)
  {
    if a < b then a else b
  }

  /**
   * `t` differs from `s` only in the contents and length of the buffer that
   * `write` selects in `s`, that length has not shrunk, and the bytes past the
   * new length are those of `s`.
   */
  predicate Kept(s: State, t: State)
  {
    if s.status == MasterSend then
      && t == s.(tx := t.tx, txLength := t.txLength)
      && |t.tx| == |s.tx| && t.txLength >= s.txLength
      && forall i :: t.txLength <= i < |t.tx| ==> t.tx[i] == s.tx[i]
    else
      && t == s.(srv := t.srv, srvLength := t.srvLength)
      && |t.srv| == |s.srv| && t.srvLength >= s.srvLength
      && forall i :: t.srvLength <= i < |t.srv| ==> t.srv[i] == s.srv[i]
  }

  /** A state that keeps its selected buffer's contents is the same state. */
  lemma KeptSame(s: State, t: State)
    requires Valid(s) && Valid(t) && Kept(s, t) && Selected(t) == Selected(s)
    ensures t == s
  {
    if s.status == MasterSend {
      assert t.tx == Staged(t) + t.tx[t.txLength..];
      assert s.tx == Staged(s) + s.tx[s.txLength..];
    } else {
      assert t.srv == Pending(t) + t.srv[t.srvLength..];
      assert s.srv == Pending(s) + s.srv[s.srvLength..];
    }
  }

  /** `Kept` composes. */
  lemma KeptTrans(s: State, t: State, u: State)
    requires Kept(s, t) && Kept(t, u)
    ensures Kept(s, u)
  {
  }

  /** The constructor: status `Uninitialized`, default clock, empty buffers. */
  function Initial(buffers: Interface): (s: State)
    ensures Valid(s)
    ensures s.status == Uninitialized && s.twiClock == TWI_CLOCK
    ensures |s.rx| == buffers.rxCapacity && |s.tx| == buffers.txCapacity
    ensures |s.srv| == buffers.srvCapacity
    ensures Unread(s) == [] && Staged(s) == [] && Pending(s) == []
    ensures s.txAddress == 0 && s.rxIndex == 0 && s.srvIndex == 0
  {
    State(Uninitialized,
      seq(buffers.rxCapacity, _ => 0), 0, 0,
      0, seq(buffers.txCapacity, _ => 0), 0,
      seq(buffers.srvCapacity, _ => 0), 0, 0,
      TWI_CLOCK)
  }

  /** `begin()`: the peripheral becomes a bus master. */
  function Begin(s: State): (t: State)
    requires Valid(s)
    ensures Valid(t) && t.status == MasterIdle
    ensures t.(status := s.status) == s
  {
    s.(status := MasterIdle)
  }

  /** `begin(address)`: the peripheral listens as a slave; the address goes to the hardware. */
  function BeginSlave(s: State, address: Byte): (t: State)
    requires Valid(s)
    ensures Valid(t) && t.status == SlaveIdle
    ensures t.(status := s.status) == s
  {
    s.(status := SlaveIdle)
  }

  /** `end()`: disables the peripheral and leaves every field as it was. */
  function End(s: State): (t: State)
    requires Valid(s)
    ensures Valid(t) && t.status == s.status && Unread(t) == Unread(s)
    ensures t == s
  {
    s
  }

  /** `setClock(frequency)`: the only operation that changes `twiClock`. */
  function SetClock(s: State, frequency: Word): (t: State)
    requires Valid(s)
    ensures Valid(t) && t.twiClock == frequency
    ensures t.(twiClock := s.twiClock) == s
  {
    s.(twiClock := frequency)
  }

  /** Calling `begin()` or `end()` twice leaves the state of calling it once. */
  lemma BeginEndIdempotent(s: State, address: Byte)
    requires Valid(s)
    ensures Begin(Begin(s)) == Begin(s)
    ensures BeginSlave(BeginSlave(s, address), address) == BeginSlave(s, address)
    ensures End(End(s)) == End(s)
  {
  }

  /** `beginTransmission(address)`: opens a master write with an empty `tx`. */
  function BeginTransmission(s: State, address: Byte): (t: State)
    requires Valid(s)
    ensures Valid(t) && t.status == MasterSend && t.txAddress == address
    ensures Selected(t) == [] && Room(t) == |t.tx|
    ensures t.rx == s.rx && t.rxIndex == s.rxIndex && t.rxLength == s.rxLength
    ensures t.tx == s.tx && t.srv == s.srv && t.srvIndex == s.srvIndex
    ensures t.srvLength == s.srvLength && t.twiClock == s.twiClock
  {
    s.(status := MasterSend, txAddress := address, txLength := 0)
  }

  /** Result of a `write`: the new state and the `size_t` count returned. */
  datatype Written = Written(state: State, count: nat)

  /**
   * `write(b)`: appends `b` to the selected buffer and returns 1 when it has
   * room, and otherwise returns 0 and changes nothing.
   */
  function Write(s: State, b: Byte): (r: Written)
    requires Valid(s)
    ensures Valid(r.state) && Kept(s, r.state)
    ensures r.state.status == s.status && r.state.txAddress == s.txAddress
    ensures r.count == 1 <==> Room(s) > 0
    ensures r.count == 1 ==> Selected(r.state) == Selected(s) + [b]
    ensures r.count != 1 ==> r.count == 0 && r.state == s
    ensures Room(r.state) == Room(s) - r.count
  {
    if s.status == MasterSend then
      if s.txLength >= |s.tx| then Written(s, 0)
      else Written(s.(tx := s.tx[s.txLength := b], txLength := s.txLength + 1), 1)
    else
      if s.srvLength >= |s.srv| then Written(s, 0)
      else Written(s.(srv := s.srv[s.srvLength := b], srvLength := s.srvLength + 1), 1)
  }

  /**
   * `write(data, quantity)`: one `write` per byte, stopping at the first
   * that does not fit.  The closed form: the longest prefix of `data` that
   * fits is appended, its length is returned, and the bytes already in the
   * buffer stay as they were.
   */
  function WriteBytes(s: State, data: seq<Byte>): (r: Written)
    requires Valid(s)
    ensures Valid(r.state) && Kept(s, r.state)
    ensures r.state.status == s.status && r.state.txAddress == s.txAddress
    ensures r.count == Min(|data|, Room(s))
    ensures Selected(r.state) == Selected(s) + data[..r.count]
    ensures Room(r.state) == Room(s) - r.count
    decreases |data|
  {
    if data == [] then Written(s, 0)
    else
      var first := Write(s, data[0]);
      if first.count == 0 then Written(s, 0)
      else
        var rest := WriteBytes(first.state, data[1..]);
        WriteBytesStep(s, data, first, rest);
        Written(rest.state, rest.count + 1)
  }

  /** One step of `WriteBytes`: a byte that fits, followed by the rest. */
  lemma WriteBytesStep(s: State, data: seq<Byte>, first: Written, rest: Written)
    requires Valid(s) && data != [] && first == Write(s, data[0]) && first.count == 1
    requires Valid(rest.state) && Kept(first.state, rest.state)
    requires rest.count == Min(|data| - 1, Room(first.state))
    requires Selected(rest.state) == Selected(first.state) + data[1..][..rest.count]
    requires Room(rest.state) == Room(first.state) - rest.count
    ensures Kept(s, rest.state)
    ensures rest.count + 1 == Min(|data|, Room(s))
    ensures Selected(rest.state) == Selected(s) + data[..rest.count + 1]
    ensures Room(rest.state) == Room(s) - (rest.count + 1)
  {
    KeptTrans(s, first.state, rest.state);
    assert data[..rest.count + 1] == [data[0]] + data[1..][..rest.count];
  }

  /**
   * `t` is `s` with the first `n` bytes of `data` stored after the selected
   * buffer's contents, stated byte by byte.
   */
  predicate Appended(s: State, t: State, data: seq<Byte>, n: nat)
    requires n <= |data|
  {
    if s.status == MasterSend then
      && t == s.(tx := t.tx, txLength := t.txLength)
      && |t.tx| == |s.tx| && t.txLength == s.txLength + n <= |t.tx|
      && (forall k :: 0 <= k < s.txLength ==> t.tx[k] == s.tx[k])
      && (forall k :: 0 <= k < n ==> t.tx[s.txLength + k] == data[k])
      && (forall k :: t.txLength <= k < |t.tx| ==> t.tx[k] == s.tx[k])
    else
      && t == s.(srv := t.srv, srvLength := t.srvLength)
      && |t.srv| == |s.srv| && t.srvLength == s.srvLength + n <= |t.srv|
      && (forall k :: 0 <= k < s.srvLength ==> t.srv[k] == s.srv[k])
      && (forall k :: 0 <= k < n ==> t.srv[s.srvLength + k] == data[k])
      && (forall k :: t.srvLength <= k < |t.srv| ==> t.srv[k] == s.srv[k])
  }

  /** Storing the longest prefix of `data` that fits, byte by byte, is `WriteBytes`. */
  lemma WriteBytesExact(s: State, data: seq<Byte>, t: State, n: nat)
    requires Valid(s) && n == Min(|data|, Room(s)) && Appended(s, t, data, n)
    ensures WriteBytes(s, data) == Written(t, n)
  {
    var r := WriteBytes(s, data);
    AppendedKept(s, t, data, n);
    KeptUnique(s, r.state, t);
  }

  /** What `Appended` means in terms of the views. */
  lemma AppendedKept(s: State, t: State, data: seq<Byte>, n: nat)
    requires Valid(s) && n <= |data| && Appended(s, t, data, n)
    ensures Valid(t) && Kept(s, t) && Selected(t) == Selected(s) + data[..n]
  {
    if s.status == MasterSend {
      StoredAfter(t.tx, s.tx, data, s.txLength, n);
    } else {
      StoredAfter(t.srv, s.srv, data, s.srvLength, n);
    }
  }

  /** A buffer holding `b`'s first `len` bytes and then `n` bytes of `data`. */
  lemma StoredAfter(a: seq<Byte>, b: seq<Byte>, data: seq<Byte>, len: nat, n: nat)
    requires |a| == |b| && len + n <= |a| && n <= |data|
    requires forall k :: 0 <= k < len ==> a[k] == b[k]
    requires forall k :: 0 <= k < n ==> a[len + k] == data[k]
    ensures a[..len + n] == b[..len] + data[..n]
  {
    var c := b[..len] + data[..n];
    assert |c| == len + n;
    forall k | 0 <= k < len + n
      ensures a[k] == c[k]
    {
      if k >= len {
        assert a[len + (k - len)] == data[k - len];
      }
    }
  }

  /** Two states that keep `s` and hold the same selected contents are equal. */
  lemma KeptUnique(s: State, t: State, u: State)
    requires Valid(t) && Valid(u) && Kept(s, t) && Kept(s, u) && Selected(t) == Selected(u)
    ensures t == u
  {
    if s.status == MasterSend {
      assert t.tx == Staged(t) + s.tx[t.txLength..];
      assert u.tx == Staged(u) + s.tx[u.txLength..];
    } else {
      assert t.srv == Pending(t) + s.srv[t.srvLength..];
      assert u.srv == Pending(u) + s.srv[u.srvLength..];
    }
  }

  /** `WriteBytes` on a byte that fits: that byte's `write`, then the rest. */
  lemma WriteBytesUnfold(s: State, data: seq<Byte>)
    requires Valid(s) && data != [] && Room(s) > 0
    ensures var first := Write(s, data[0]); var rest := WriteBytes(first.state, data[1..]);
      WriteBytes(s, data) == Written(rest.state, rest.count + 1)
  {
  }

  /** `WriteBytes` with no room left writes nothing. */
  lemma WriteBytesFull(s: State, data: seq<Byte>)
    requires Valid(s) && Room(s) == 0
    ensures WriteBytes(s, data) == Written(s, 0)
  {
  }

  /** Bytes that fit are all taken: `WriteBytes` appends the whole of `data`. */
  lemma WriteBytesFits(s: State, data: seq<Byte>)
    requires Valid(s) && |data| <= Room(s)
    ensures var r := WriteBytes(s, data);
      r.count == |data| && Selected(r.state) == Selected(s) + data && r.state.status == s.status
      && r.state.txAddress == s.txAddress
  {
    var r := WriteBytes(s, data);
    assert data[..r.count] == data;
  }

  /** Writing `a` and then `b` is writing `a + b`: the same state, the counts added. */
  lemma {:induction false} WriteBytesAppend(s: State, a: seq<Byte>, b: seq<Byte>)
    requires Valid(s)
    ensures var ra := WriteBytes(s, a); var rb := WriteBytes(ra.state, b);
      WriteBytes(s, a + b) == Written(rb.state, ra.count + rb.count)
    decreases |a|
  {
    if a == [] {
      assert a + b == b;
    } else if Room(s) == 0 {
      WriteBytesFull(s, a);
      WriteBytesFull(s, b);
      WriteBytesFull(s, a + b);
    } else {
      var first := Write(s, a[0]);
      assert (a + b)[0] == a[0] && (a + b)[1..] == a[1..] + b;
      WriteBytesUnfold(s, a);
      WriteBytesUnfold(s, a + b);
      WriteBytesAppend(first.state, a[1..], b);
    }
  }

  /** Result of a `read`: the new state and the `int` returned. */
  datatype Received = Received(state: State, value: int)

  /**
   * `read()`: the oldest unread byte, consumed, or -1 with no change when
   * every received byte has been read.
   */
  function Read(s: State): (r: Received)
    requires Valid(s)
    ensures Valid(r.state)
    ensures Unread(s) != [] ==>
      r.value == Unread(s)[0] && Unread(r.state) == Unread(s)[1..]
      && r.state == s.(rxIndex := r.state.rxIndex)
    ensures Unread(s) == [] ==> r.value == -1 && r.state == s
  {
    if s.rxIndex < s.rxLength then Received(s.(rxIndex := s.rxIndex + 1), s.rx[s.rxIndex])
    else Received(s, -1)
  }

  /** `peek()`: what `read` would return, without consuming it. */
  function Peek(s: State): (v: int)
    requires Valid(s)
    ensures v == Read(s).value
    ensures v == -1 <==> Unread(s) == []
    ensures -1 <= v < 256
  {
    if s.rxIndex < s.rxLength then s.rx[s.rxIndex] else -1
  }

  /** `available()`: the number of unread bytes. */
  function Available(s: State): (n: int)
    requires Valid(s)
    ensures n == |Unread(s)|
  {
    s.rxLength - s.rxIndex
  }

  /** A successful `read` lowers `available()` by one; a failed one leaves it at 0. */
  lemma ReadLowersAvailable(s: State)
    requires Valid(s)
    ensures Read(s).value != -1 ==> Available(Read(s).state) == Available(s) - 1
    ensures Read(s).value == -1 ==> Available(s) == 0 && Available(Read(s).state) == 0
  {
  }

  /** The values `n` calls of `read` return, in order. */
  function ReadValues(s: State, n: nat): (vs: seq<int>)
    requires Valid(s)
    ensures |vs| == n
    decreases n
  {
    if n == 0 then [] else var r := Read(s); [r.value] + ReadValues(r.state, n - 1)
  }

  /** The state after `n` calls of `read`. */
  function ReadState(s: State, n: nat): (t: State)
    requires Valid(s)
    ensures Valid(t)
    decreases n
  {
    if n == 0 then s else ReadState(Read(s).state, n - 1)
  }

  /**
   * Reading `available() + 1` times returns the unread bytes in order and then
   * -1, and leaves nothing available.
   */
  lemma {:induction false} ReadDrains(s: State)
    requires Valid(s)
    ensures var vs := ReadValues(s, Available(s) + 1);
      (forall i :: 0 <= i < Available(s) ==> vs[i] == Unread(s)[i])
      && vs[Available(s)] == -1
      && Available(ReadState(s, Available(s) + 1)) == 0
    decreases Available(s)
  {
    var r := Read(s);
    if Available(s) == 0 {
      assert ReadState(s, 1) == ReadState(r.state, 0);
    } else {
      ReadDrains(r.state);
      assert Available(r.state) == Available(s) - 1;
      assert ReadState(s, Available(s) + 1) == ReadState(r.state, Available(r.state) + 1);
      var vs := ReadValues(s, Available(s) + 1);
      assert vs == [r.value] + ReadValues(r.state, Available(r.state) + 1);
      forall i | 0 <= i < Available(s)
        ensures vs[i] == Unread(s)[i]
      {
        if i > 0 {
          assert vs[i] == ReadValues(r.state, Available(r.state) + 1)[i - 1];
          assert Unread(r.state)[i - 1] == Unread(s)[i];
        }
      }
    }
  }
}
