/**
 * The TwoWire controller as an object: its `uint8_t` fields, its status and
 * clock, and the three buffers the buffer provider hands it, as arrays.  Each
 * method is proved to leave the object in the state the matching function
 * of `WireState`, `WireMaster` or `WireSlave` computes from the old state.
 */
module Wire {
  import opened Bits
  import opened TwoWireBuffers
  import opened WireState
  import opened WireMaster
  import opened WireSlave

  /**
   * `TWI_WaitTransferComplete`, `TWI_WaitByteSent`, `TWI_WaitByteReceived`:
   * the `uint32_t` countdown loop, polling the status words from `pos`.
   */
  method WaitFor(words: seq<StatusWord>, pos: nat, flag: Flag, timeout: Word) returns (ok: bool, next: nat)
    ensures Waited(ok, next) == Wait(words, pos, flag, Budget(timeout))
  {
    var remaining: Word := timeout;
    var statusReg := QUIET_WORD;
    next := pos;
    while !HasFlag(statusReg, flag)
      invariant Wait(words, pos, flag, Budget(timeout))
        == if HasFlag(statusReg, flag) then Waited(true, next) else Wait(words, next, flag, Budget(remaining))
      decreases Budget(remaining)
    {
      WaitStep(words, next, flag, Budget(remaining));
      Countdown(remaining);
      statusReg := Poll(words, next);
      next := next + 1;
      if statusReg.nack {
        return false, next;
      }
      remaining := U32(remaining - 1);
      if remaining == 0 {
        return false, next;
      }
    }
    return true, next;
  }

  /** Storing the next byte into a buffer that holds `acc` and then the rest of `before`. */
  lemma StoreNext(acc: seq<Byte>, before: seq<Byte>, v: Byte)
    requires |acc| < |before|
    ensures (acc + before[|acc|..])[|acc| := v] == (acc + [v]) + before[|acc| + 1..]
  {
  }

  class TwoWire {
    const rxBuffer: array<Byte>
    const txBuffer: array<Byte>
    const srvBuffer: array<Byte>

    var status: Status
    var rxBufferIndex: Byte
    var rxBufferLength: Byte
    var txAddress: Byte
    var txBufferLength: Byte
    var srvBufferIndex: Byte
    var srvBufferLength: Byte
    var twiClock: Word

    /** The fields and buffer contents as a `WireState.State`. */
    function Model(): State
      reads this, rxBuffer, txBuffer, srvBuffer
    {
      State(status,
        rxBuffer[..], rxBufferIndex, rxBufferLength,
        txAddress, txBuffer[..], txBufferLength,
        srvBuffer[..], srvBufferIndex, srvBufferLength,
        twiClock)
    }

    /** Three distinct buffers, and the model's invariant. */
    predicate Valid()
      reads this, rxBuffer, txBuffer, srvBuffer
    {
      && rxBuffer != txBuffer && rxBuffer != srvBuffer && txBuffer != srvBuffer
      && WireState.Valid(Model())
    }

    /** The constructor: fresh buffers of the provider's capacities. */
    constructor (buffers: Interface)
      ensures Valid() && Model() == Initial(buffers)
      ensures fresh(rxBuffer) && fresh(txBuffer) && fresh(srvBuffer)
    {
      rxBuffer := new Byte[buffers.rxCapacity](_ => 0);
      txBuffer := new Byte[buffers.txCapacity](_ => 0);
      srvBuffer := new Byte[buffers.srvCapacity](_ => 0);
      status := Uninitialized;
      rxBufferIndex, rxBufferLength := 0, 0;
      txAddress, txBufferLength := 0, 0;
      srvBufferIndex, srvBufferLength := 0, 0;
      twiClock := TWI_CLOCK;
      new;
      assert rxBuffer[..] == seq(buffers.rxCapacity, _ => 0);
      assert txBuffer[..] == seq(buffers.txCapacity, _ => 0);
      assert srvBuffer[..] == seq(buffers.srvCapacity, _ => 0);
    }

    /** `begin()`. */
    method Begin()
      requires Valid()
      modifies this
      ensures Valid() && Model() == WireState.Begin(old(Model()))
    {
      status := MasterIdle;
    }

    /** `begin(uint8_t address)`. */
    method BeginSlave(address: Byte)
      requires Valid()
      modifies this
      ensures Valid() && Model() == WireState.BeginSlave(old(Model()), address)
    {
      status := SlaveIdle;
    }

    /** `begin(int address)`: truncates the address. */
    method BeginSlaveInt(address: int)
      requires Valid()
      modifies this
      ensures Valid() && Model() == WireState.BeginSlave(old(Model()), U8(address))
    {
      BeginSlave(U8(address));
    }

    /** `end()`. */
    method End()
      requires Valid()
      ensures Valid() && Model() == WireState.End(Model())
    {
    }

    /** `setClock(frequency)`. */
    method SetClock(frequency: Word)
      requires Valid()
      modifies this
      ensures Valid() && Model() == WireState.SetClock(old(Model()), frequency)
    {
      twiClock := frequency;
    }

    /** `beginTransmission(uint8_t address)`. */
    method BeginTransmission(address: Byte)
      requires Valid()
      modifies this
      ensures Valid() && Model() == WireState.BeginTransmission(old(Model()), address)
    {
      status := MasterSend;
      txAddress := address;
      txBufferLength := 0;
    }

    /** `beginTransmission(int address)`: truncates the address. */
    method BeginTransmissionInt(address: int)
      requires Valid()
      modifies this
      ensures Valid() && Model() == WireState.BeginTransmission(old(Model()), U8(address))
    {
      BeginTransmission(U8(address));
    }

    /** `write(uint8_t data)`. */
    method Write(b: Byte) returns (n: nat)
      requires Valid()
      modifies this, txBuffer, srvBuffer
      ensures Valid()
      ensures var r := WireState.Write(old(Model()), b); Model() == r.state && n == r.count
    {
      if status == MasterSend {
        if txBufferLength as int >= txBuffer.Length {
          return 0;
        }
        txBuffer[txBufferLength] := b;
        txBufferLength := txBufferLength + 1;
        return 1;
      } else {
        if srvBufferLength as int >= srvBuffer.Length {
          return 0;
        }
        srvBuffer[srvBufferLength] := b;
        srvBufferLength := srvBufferLength + 1;
        return 1;
      }
    }

    /** `write(unsigned long / long / unsigned int / int n)`: truncates to a byte. */
    method WriteInt(value: int) returns (n: nat)
      requires Valid()
      modifies this, txBuffer, srvBuffer
      ensures Valid()
      ensures var r := WireState.Write(old(Model()), U8(value)); Model() == r.state && n == r.count
    {
      n := Write(U8(value));
    }

    /** `write(const uint8_t *data, size_t quantity)`, with `data` of length `quantity`. */
    method WriteBytes(data: seq<Byte>) returns (n: nat)
      requires Valid()
      modifies this, txBuffer, srvBuffer
      ensures Valid()
      ensures var r := WireState.WriteBytes(old(Model()), data); Model() == r.state && n == r.count
    {
      if status == MasterSend {
        n := WriteTx(data);
      } else {
        n := WriteSrv(data);
      }
    }

    /** The loop of `write(data, quantity)` while a master write is open. */
    method WriteTx(data: seq<Byte>) returns (n: nat)
      requires Valid() && status == MasterSend
      modifies this, txBuffer
      ensures Valid()
      ensures var r := WireState.WriteBytes(old(Model()), data); Model() == r.state && n == r.count
    {
      ghost var s0 := Model();
      ghost var len0 := txBufferLength as nat;
      var i := 0;
      while i < |data|
        modifies this, txBuffer
        invariant i <= |data| && txBufferLength as nat == len0 + i <= txBuffer.Length
        invariant status == s0.status && txAddress == s0.txAddress && twiClock == s0.twiClock
        invariant rxBufferIndex == s0.rxIndex && rxBufferLength == s0.rxLength
        invariant srvBufferIndex == s0.srvIndex && srvBufferLength == s0.srvLength
        invariant forall k :: 0 <= k < len0 ==> txBuffer[k] == s0.tx[k]
        invariant forall k :: 0 <= k < i ==> txBuffer[len0 + k] == data[k]
        invariant forall k :: len0 + i <= k < txBuffer.Length ==> txBuffer[k] == s0.tx[k]
      {
        if txBufferLength as int >= txBuffer.Length {
          WriteBytesExact(s0, data, Model(), i);
          return i;
        }
        txBuffer[txBufferLength] := data[i];
        txBufferLength := txBufferLength + 1;
        i := i + 1;
      }
      WriteBytesExact(s0, data, Model(), |data|);
      return |data|;
    }

    /** The loop of `write(data, quantity)` in every other state: the service buffer. */
    method WriteSrv(data: seq<Byte>) returns (n: nat)
      requires Valid() && status != MasterSend
      modifies this, srvBuffer
      ensures Valid()
      ensures var r := WireState.WriteBytes(old(Model()), data); Model() == r.state && n == r.count
    {
      ghost var s0 := Model();
      ghost var len0 := srvBufferLength as nat;
      var i := 0;
      while i < |data|
        modifies this, srvBuffer
        invariant i <= |data| && srvBufferLength as nat == len0 + i <= srvBuffer.Length
        invariant status == s0.status && txAddress == s0.txAddress && twiClock == s0.twiClock
        invariant rxBufferIndex == s0.rxIndex && rxBufferLength == s0.rxLength
        invariant srvBufferIndex == s0.srvIndex && txBufferLength == s0.txLength
        invariant forall k :: 0 <= k < len0 ==> srvBuffer[k] == s0.srv[k]
        invariant forall k :: 0 <= k < i ==> srvBuffer[len0 + k] == data[k]
        invariant forall k :: len0 + i <= k < srvBuffer.Length ==> srvBuffer[k] == s0.srv[k]
      {
        if srvBufferLength as int >= srvBuffer.Length {
          WriteBytesExact(s0, data, Model(), i);
          return i;
        }
        srvBuffer[srvBufferLength] := data[i];
        srvBufferLength := srvBufferLength + 1;
        i := i + 1;
      }
      WriteBytesExact(s0, data, Model(), |data|);
      return |data|;
    }

    /** `available()`. */
    method Available() returns (n: int)
      requires Valid()
      ensures n == WireState.Available(Model()) && n == |Unread(Model())|
    {
      return rxBufferLength as int - rxBufferIndex as int;
    }

    /** `read()`. */
    method Read() returns (v: int)
      requires Valid()
      modifies this
      ensures Valid()
      ensures var r := WireState.Read(old(Model())); Model() == r.state && v == r.value
    {
      if rxBufferIndex < rxBufferLength {
        v := rxBuffer[rxBufferIndex];
        rxBufferIndex := rxBufferIndex + 1;
        return v;
      }
      return -1;
    }

    /** `peek()`. */
    method Peek() returns (v: int)
      requires Valid()
      ensures v == WireState.Peek(Model()) && v == WireState.Read(Model()).value
    {
      if rxBufferIndex < rxBufferLength {
        return rxBuffer[rxBufferIndex];
      }
      return -1;
    }

    /**
     * `requestFrom(address, quantity, iaddress, isize, sendStop)` against a
     * peripheral whose status polls return `words` and whose receive register
     * returns `bytes`.
     */
    method RequestFrom(address: Byte, quantity: Byte, iaddress: Word, isize: Byte, sendStop: Byte,
                       words: seq<StatusWord>, bytes: seq<Byte>) returns (count: Byte, trace: seq<BusOp>)
      requires Valid() && rxBuffer.Length > 0
      modifies this, rxBuffer
      ensures Valid()
      ensures var r := WireMaster.RequestFrom(old(Model()), words, bytes, address, quantity, iaddress, isize, sendStop);
        Model() == r.state && count == r.count && trace == r.trace
    {
      var q := quantity as nat;
      if q > rxBuffer.Length {
        q := rxBuffer.Length;
      }
      trace := [StartRead(address, iaddress, isize)];
      var readed, pos;
      readed, trace, pos := ReceiveInto(q, words, bytes, trace);
      var _, _ := WaitFor(words, pos, TxComp, RECV_TIMEOUT);
      rxBufferIndex := 0;
      rxBufferLength := readed as Byte;
      count := readed as Byte;
    }

    /**
     * The do-while of `requestFrom`: store bytes from the first slot on until
     * `q` have arrived or a wait fails, starting from the trace `trace0`.
     */
    method ReceiveInto(q: nat, words: seq<StatusWord>, bytes: seq<Byte>, trace0: seq<BusOp>)
      returns (readed: nat, trace: seq<BusOp>, pos: nat)
      requires 0 < rxBuffer.Length && q <= rxBuffer.Length
      modifies rxBuffer
      ensures var goal := ReadLoop(words, bytes, 0, q, [], trace0);
        readed == |goal.bytes| && trace == goal.trace && pos == goal.next
        && rxBuffer[..] == goal.bytes + old(rxBuffer[..])[readed..]
    {
      readed := 0;
      trace := trace0;
      ghost var goal := ReadLoop(words, bytes, 0, q, [], trace0);
      ghost var acc: seq<Byte> := [];
      ghost var initial := rxBuffer[..];
      pos := 0;
      while true
        invariant readed == |acc| && (readed == 0 || readed < q) && readed <= |initial| == rxBuffer.Length
        invariant ReadLoop(words, bytes, pos, q, acc, trace) == goal
        invariant rxBuffer[..] == acc + initial[readed..]
        decreases q - readed
      {
        ghost var before := trace;
        if readed + 1 == q {
          trace := trace + [SendStop];
        }
        var ok, next := WaitFor(words, pos, RxRdy, RECV_TIMEOUT);
        ReadLoopStep(words, bytes, pos, q, acc, before, trace, ok, next);
        pos := next;
        if !ok {
          break;
        }
        ghost var held := rxBuffer[..];
        rxBuffer[readed] := Incoming(bytes, readed);
        assert rxBuffer[..] == held[readed := Incoming(bytes, readed)];
        StoreNext(acc, initial, Incoming(bytes, readed));
        acc := acc + [Incoming(bytes, readed)];
        readed := readed + 1;
        if readed >= q {
          break;
        }
      }
      assert Reception(acc, trace, pos) == goal;
    }

    /** `requestFrom(uint8_t address, uint8_t quantity, uint8_t sendStop)`. */
    method RequestFromStop(address: Byte, quantity: Byte, sendStop: Byte,
                           words: seq<StatusWord>, bytes: seq<Byte>) returns (count: Byte, trace: seq<BusOp>)
      requires Valid() && rxBuffer.Length > 0
      modifies this, rxBuffer
      ensures Valid()
      ensures var r := WireMaster.RequestFrom(old(Model()), words, bytes, address, quantity, 0, 0, sendStop);
        Model() == r.state && count == r.count && trace == r.trace
    {
      count, trace := RequestFrom(address, quantity, 0, 0, sendStop, words, bytes);
    }

    /** `requestFrom(uint8_t address, uint8_t quantity)`: STOP requested by default. */
    method RequestFromDefault(address: Byte, quantity: Byte,
                              words: seq<StatusWord>, bytes: seq<Byte>) returns (count: Byte, trace: seq<BusOp>)
      requires Valid() && rxBuffer.Length > 0
      modifies this, rxBuffer
      ensures Valid()
      ensures var r := WireMaster.RequestFrom(old(Model()), words, bytes, address, quantity, 0, 0, 1);
        Model() == r.state && count == r.count && trace == r.trace
    {
      count, trace := RequestFromStop(address, quantity, 1, words, bytes);
    }

    /** `requestFrom(int address, int quantity)`: arguments truncated to bytes. */
    method RequestFromInt(address: int, quantity: int,
                          words: seq<StatusWord>, bytes: seq<Byte>) returns (count: Byte, trace: seq<BusOp>)
      requires Valid() && rxBuffer.Length > 0
      modifies this, rxBuffer
      ensures Valid()
      ensures var r := WireMaster.RequestFrom(old(Model()), words, bytes, U8(address), U8(quantity), 0, 0, 1);
        Model() == r.state && count == r.count && trace == r.trace
    {
      count, trace := RequestFromStop(U8(address), U8(quantity), 1, words, bytes);
    }

    /** `requestFrom(int address, int quantity, int sendStop)`: arguments truncated to bytes. */
    method RequestFromIntStop(address: int, quantity: int, sendStop: int,
                              words: seq<StatusWord>, bytes: seq<Byte>) returns (count: Byte, trace: seq<BusOp>)
      requires Valid() && rxBuffer.Length > 0
      modifies this, rxBuffer
      ensures Valid()
      ensures var r := WireMaster.RequestFrom(old(Model()), words, bytes, U8(address), U8(quantity), 0, 0, U8(sendStop));
        Model() == r.state && count == r.count && trace == r.trace
    {
      count, trace := RequestFromStop(U8(address), U8(quantity), U8(sendStop), words, bytes);
    }

    /** `endTransmission(sendStop)` against a peripheral whose status polls return `words`. */
    method EndTransmission(sendStop: Byte, words: seq<StatusWord>) returns (error: Byte, trace: seq<BusOp>)
      requires Valid() && txBuffer.Length > 0
      modifies this
      ensures Valid()
      ensures var r := WireMaster.EndTransmission(old(Model()), words, sendStop);
        Model() == r.state && error == r.error && trace == r.trace
    {
      ghost var s0 := Model();
      error := 0;
      trace := [StartWrite(txAddress, 0, 0, txBuffer[0])];
      var ok, pos := WaitFor(words, 0, TxRdy, XMIT_TIMEOUT);
      if !ok {
        error := 2;
      }
      if error == 0 {
        var failed;
        failed, trace, pos := SendRest(words, pos, trace);
        if failed {
          error := 3;
        }
      }
      if error == 0 {
        trace := trace + [Stop];
        var done, _ := WaitFor(words, pos, TxComp, XMIT_TIMEOUT);
        if !done {
          error := 4;
        }
      }
      txBufferLength := 0;
      status := MasterIdle;
      assert Model() == s0.(txLength := 0, status := MasterIdle);
    }

    /**
     * The loop of `endTransmission` over the staged bytes after the first:
     * each is written and waited for, and a failed wait is remembered.
     */
    method SendRest(words: seq<StatusWord>, pos0: nat, trace0: seq<BusOp>)
      returns (failed: bool, trace: seq<BusOp>, pos: nat)
      requires Valid()
      ensures Sending(failed, trace, pos) == SendLoop(words, txBuffer[..], txBufferLength as nat, 1, pos0, false, trace0)
    {
      var sent := 1;
      failed, trace, pos := false, trace0, pos0;
      while sent < txBufferLength as int
        invariant 1 <= sent
        invariant SendLoop(words, txBuffer[..], txBufferLength as nat, sent, pos, failed, trace)
          == SendLoop(words, txBuffer[..], txBufferLength as nat, 1, pos0, false, trace0)
        decreases txBufferLength as int - sent
      {
        trace := trace + [WriteByte(txBuffer[sent])];
        sent := sent + 1;
        var sentOk, next := WaitFor(words, pos, TxRdy, XMIT_TIMEOUT);
        pos := next;
        if !sentOk {
          failed := true;
        }
      }
    }

    /** `endTransmission()`: STOP requested by default. */
    method EndTransmissionDefault(words: seq<StatusWord>) returns (error: Byte, trace: seq<BusOp>)
      requires Valid() && txBuffer.Length > 0
      modifies this
      ensures Valid()
      ensures var r := WireMaster.EndTransmission(old(Model()), words, 1);
        Model() == r.state && error == r.error && trace == r.trace
    {
      error, trace := EndTransmission(1, words);
    }

    /**
     * `onService()` over the status snapshot `sr`, with `rhr` the receive
     * register, `reply` what an `onRequest` handler writes (`None` without
     * one), and whether an `onReceive` handler is registered.  The hand-off
     * copy is clamped to the receive capacity.
     */
    method OnService(sr: StatusWord, rhr: Byte, reply: Option<seq<Byte>>, hasOnReceive: bool)
      returns (written: Option<Byte>, delivered: Option<nat>)
      requires Valid()
      modifies this, rxBuffer, txBuffer, srvBuffer
      ensures Valid()
      ensures var r := Service(old(Model()), sr, rhr, reply, hasOnReceive);
        Model() == r.state && written == r.written && delivered == r.delivered
    {
      MatchAddress(sr, reply);
      delivered := FinishAccess(sr, hasOnReceive);
      TakeByte(sr, rhr);
      written := GiveByte(sr);
    }

    /** The address-match check of `onService`. */
    method MatchAddress(sr: StatusWord, reply: Option<seq<Byte>>)
      requires Valid()
      modifies this, txBuffer, srvBuffer
      ensures Valid() && Model() == AddressMatch(old(Model()), sr, reply)
    {
      if status == SlaveIdle && sr.svacc {
        srvBufferLength := 0;
        srvBufferIndex := 0;
        if !sr.svread {
          status := SlaveRecv;
        } else {
          status := SlaveSend;
          if reply.None? {
            var _ := Write(0);
          } else {
            var _ := WriteBytes(reply.value);
          }
        }
      }
    }

    /** The end-of-access check of `onService`, with the hand-off clamped to the receive capacity. */
    method FinishAccess(sr: StatusWord, hasOnReceive: bool) returns (delivered: Option<nat>)
      requires Valid()
      modifies this, rxBuffer
      ensures Valid()
      ensures var r := EndOfAccess(old(Model()), sr, hasOnReceive); Model() == r.state && delivered == r.delivered
    {
      delivered := None;
      if status != SlaveIdle && sr.eosacc {
        if status == SlaveRecv && hasOnReceive {
          var n := srvBufferLength as int;
          if n > rxBuffer.Length {
            n := rxBuffer.Length;
          }
          var i := 0;
          while i < n
            modifies rxBuffer
            invariant i <= n
            invariant forall k :: 0 <= k < i ==> rxBuffer[k] == srvBuffer[k]
            invariant forall k :: i <= k < rxBuffer.Length ==> rxBuffer[k] == old(rxBuffer[k])
          {
            rxBuffer[i] := srvBuffer[i];
            i := i + 1;
          }
          rxBufferIndex := 0;
          rxBufferLength := n as Byte;
          assert rxBuffer[..] == srvBuffer[..n] + old(rxBuffer[..])[n..];
          delivered := Some(n);
        }
        status := SlaveIdle;
      }
    }

    /** The received-byte check of `onService`. */
    method TakeByte(sr: StatusWord, rhr: Byte)
      requires Valid()
      modifies this, srvBuffer
      ensures Valid() && Model() == ReceiveByte(old(Model()), sr, rhr)
    {
      if status == SlaveRecv && sr.rxrdy {
        if srvBufferLength as int < srvBuffer.Length {
          srvBuffer[srvBufferLength] := rhr;
          srvBufferLength := srvBufferLength + 1;
        }
      }
    }

    /** The byte-to-send check of `onService`. */
    method GiveByte(sr: StatusWord) returns (written: Option<Byte>)
      requires Valid()
      modifies this
      ensures Valid()
      ensures var r := SendByte(old(Model()), sr); Model() == r.state && written == r.written
    {
      written := None;
      if status == SlaveSend && sr.txrdy && !sr.nack {
        var c := FILLER;
        if srvBufferIndex < srvBufferLength {
          c := srvBuffer[srvBufferIndex];
          srvBufferIndex := srvBufferIndex + 1;
        }
        written := Some(c);
      }
    }
  }
}
