/**
 * The slave side of the controller: one run of the TWI interrupt handler over
 * one snapshot of the status register.  Its four checks run in order on that
 * snapshot: address match, end of access, a received byte, a byte to send.
 * Callbacks are given as what they contribute: the bytes an `onRequest`
 * handler writes (or `None` when none is registered) and whether an
 * `onReceive` handler is registered.
 */
module WireSlave {
  import opened Bits
  import opened TwoWireBuffers
  import opened WireState

  /** The filler byte `'x'` sent when the reply is exhausted. */
  const FILLER: Byte := 120

  /**
   * Result of a handler run: the new state, the byte written to the transmit
   * register if any, and the count passed to `onReceive` if it was called.
   */
  datatype Serviced = Serviced(state: State, written: Option<Byte>, delivered: Option<nat>)

  /**
   * Address match while idle: clear the service buffer, then receive when the
   * master writes, or send when it reads, in which case the reply is what
   * `onRequest` writes or, without a handler, the single byte 0.
   */
  function AddressMatch(s: State, sr: StatusWord, reply: Option<seq<Byte>>): (t: State)
    requires Valid(s)
    ensures Valid(t)
    ensures !(s.status == SlaveIdle && sr.svacc) ==> t == s
    ensures s.status == SlaveIdle && sr.svacc ==>
      && t.srvIndex == 0
      && t.status == (if sr.svread then SlaveSend else SlaveRecv)
      && t == s.(status := t.status, srv := t.srv, srvIndex := 0, srvLength := t.srvLength)
      && Pending(t) == (if !sr.svread then []
                        else if reply.None? then [0][..Min(1, |s.srv|)]
                        else reply.value[..Min(|reply.value|, |s.srv|)])
  {
    if s.status == SlaveIdle && sr.svacc then
      var cleared := s.(srvIndex := 0, srvLength := 0);
      if !sr.svread then cleared.(status := SlaveRecv)
      else
        var sending := cleared.(status := SlaveSend);
        if reply.None? then Write(sending, 0).state else WriteBytes(sending, reply.value).state
    else s
  }

  /**
   * The hand-off of a finished reception to the receive buffer, clamped to
   * the receive capacity: the first `min(srvLength, rxCapacity)` service bytes
   * become the unread bytes.
   */
  function HandOff(s: State): (t: State)
    requires Valid(s)
    ensures Valid(t)
    ensures Unread(t) == Pending(s)[..Min(s.srvLength, |s.rx|)]
    ensures t.rxIndex == 0 && t.rxLength == Min(s.srvLength, |s.rx|)
    ensures |t.rx| == |s.rx| && t == s.(rx := t.rx, rxIndex := 0, rxLength := t.rxLength)
    ensures forall i :: t.rxLength <= i < |s.rx| ==> t.rx[i] == s.rx[i]
  {
    var n := Min(s.srvLength, |s.rx|);
    var rx := s.srv[..n] + s.rx[n..];
    assert rx[..n] == s.srv[..n];
    s.(rx := rx, rxIndex := 0, rxLength := n)
  }

  /** What the hand-off loop as written does: the receive-buffer slots it stores to, and the new length. */
  datatype RawHandOff = RawHandOff(stores: seq<nat>, rxLength: nat)

  /**
   * The hand-off as written: slots `0 .. srvLength-1` of the receive buffer
   * are stored to and the receive length becomes `srvLength`, whatever the
   * receive capacity is.
   */
  function HandOffAsWritten(s: State): (r: RawHandOff)
    requires Valid(s)
    ensures |r.stores| == s.srvLength && r.rxLength == s.srvLength
    ensures forall i :: 0 <= i < |r.stores| ==> r.stores[i] == i
  {
    RawHandOff(seq(s.srvLength, i => i), s.srvLength)
  }

  /** Whenever the reception fits the receive buffer, the two hand-offs agree. */
  lemma HandOffAgrees(s: State)
    requires Valid(s)
    ensures s.srvLength <= |s.rx| ==> var raw := HandOffAsWritten(s);
      HandOff(s).rxLength == raw.rxLength
      && (forall i :: 0 <= i < |raw.stores| ==> raw.stores[i] < |s.rx|)
      && Unread(HandOff(s)) == Pending(s)
  {
  }

  /**
   * End of access in any status but idle: back to idle, after handing the
   * reception to `onReceive` when one was under way and a handler exists.
   */
  function EndOfAccess(s: State, sr: StatusWord, hasOnReceive: bool): (r: Serviced)
    requires Valid(s)
    ensures Valid(r.state) && r.written == None
    ensures !(s.status != SlaveIdle && sr.eosacc) ==> r.state == s && r.delivered == None
    ensures s.status != SlaveIdle && sr.eosacc ==> r.state.status == SlaveIdle
    ensures r.delivered != None <==> s.status == SlaveRecv && sr.eosacc && hasOnReceive
    ensures r.delivered != None ==>
      r.state == HandOff(s).(status := SlaveIdle) && r.delivered.value == r.state.rxLength
    ensures r.delivered != None && s.srvLength <= |s.rx| ==>
      r.delivered.value == HandOffAsWritten(s).rxLength && Unread(r.state) == Pending(s)
    ensures r.delivered == None && s.status != SlaveIdle && sr.eosacc ==>
      r.state == s.(status := SlaveIdle)
  {
    if s.status != SlaveIdle && sr.eosacc then
      if s.status == SlaveRecv && hasOnReceive then
        var t := HandOff(s);
        HandOffAgrees(s);
        Serviced(t.(status := SlaveIdle), None, Some(t.rxLength))
      else Serviced(s.(status := SlaveIdle), None, None)
    else Serviced(s, None, None)
  }

  /** A received byte is kept while the service buffer has room, and otherwise dropped. */
  function ReceiveByte(s: State, sr: StatusWord, rhr: Byte): (t: State)
    requires Valid(s)
    ensures Valid(t)
    ensures s.status == SlaveRecv && sr.rxrdy && s.srvLength < |s.srv| ==>
      Pending(t) == Pending(s) + [rhr] && t == s.(srv := t.srv, srvLength := s.srvLength + 1)
      && |t.srv| == |s.srv| && forall i :: t.srvLength <= i < |t.srv| ==> t.srv[i] == s.srv[i]
    ensures !(s.status == SlaveRecv && sr.rxrdy && s.srvLength < |s.srv|) ==> t == s
  {
    if s.status == SlaveRecv && sr.rxrdy && s.srvLength < |s.srv| then
      s.(srv := s.srv[s.srvLength := rhr], srvLength := s.srvLength + 1)
    else s
  }

  /**
   * A transmit-ready without NACK while sending is answered with the next
   * reply byte, or with the filler once the reply is exhausted.
   */
  function SendByte(s: State, sr: StatusWord): (r: Serviced)
    requires Valid(s)
    ensures Valid(r.state) && r.delivered == None
    ensures r.written != None <==> s.status == SlaveSend && sr.txrdy && !sr.nack
    ensures r.written != None && s.srvIndex < s.srvLength ==>
      r.written.value == Pending(s)[s.srvIndex] && r.state == s.(srvIndex := s.srvIndex + 1)
    ensures r.written != None && s.srvIndex >= s.srvLength ==> r.written.value == FILLER && r.state == s
    ensures r.written == None ==> r.state == s
  {
    if s.status == SlaveSend && sr.txrdy && !sr.nack then
      if s.srvIndex < s.srvLength then Serviced(s.(srvIndex := s.srvIndex + 1), Some(s.srv[s.srvIndex]), None)
      else Serviced(s, Some(FILLER), None)
    else Serviced(s, None, None)
  }

  /** `onService()`: the four checks in order, on one snapshot `sr`; `rhr` is the receive register. */
  function Service(s: State, sr: StatusWord, rhr: Byte, reply: Option<seq<Byte>>, hasOnReceive: bool): (r: Serviced)
    requires Valid(s)
    ensures Valid(r.state)
    ensures r.state.twiClock == s.twiClock && r.state.txAddress == s.txAddress
    ensures r.state.tx == s.tx && r.state.txLength == s.txLength
    ensures |r.state.rx| == |s.rx| && |r.state.srv| == |s.srv|
  {
    var a := AddressMatch(s, sr, reply);
    var e := EndOfAccess(a, sr, hasOnReceive);
    var b := ReceiveByte(e.state, sr, rhr);
    var c := SendByte(b, sr);
    Serviced(c.state, c.written, e.delivered)
  }

  /** Status words of the transactions below. */
  const RECV_MATCH := QUIET_WORD.(svacc := true)
  const SEND_MATCH := QUIET_WORD.(svacc := true, svread := true, txrdy := true)
  const BYTE_IN := QUIET_WORD.(rxrdy := true)
  const BYTE_OUT := QUIET_WORD.(txrdy := true)
  const END_OF_ACCESS := QUIET_WORD.(eosacc := true)

  /**
   * The handler never leaves the slave state machine's three states once in
   * it, and end of access in the snapshot always wins over the byte checks:
   * the run ends idle and writes nothing.
   */
  lemma ServiceEndsAccess(s: State, sr: StatusWord, rhr: Byte, reply: Option<seq<Byte>>, hasOnReceive: bool)
    requires Valid(s) && sr.eosacc && (s.status != SlaveIdle || sr.svacc)
    ensures var r := Service(s, sr, rhr, reply, hasOnReceive);
      r.state.status == SlaveIdle && r.written == None
  {
  }

  /** Only a reception under way with a handler registered reaches `onReceive`. */
  lemma ServiceDelivers(s: State, sr: StatusWord, rhr: Byte, reply: Option<seq<Byte>>, hasOnReceive: bool)
    requires Valid(s)
    ensures var r := Service(s, sr, rhr, reply, hasOnReceive);
      r.delivered != None <==>
        hasOnReceive && sr.eosacc
        && (s.status == SlaveRecv || (s.status == SlaveIdle && sr.svacc && !sr.svread))
  {
  }

  /**
   * While sending, every transmit-ready without NACK or end of access is
   * answered with a byte, so the master is never stalled.
   */
  lemma ServiceAlwaysAnswers(s: State, sr: StatusWord, rhr: Byte, reply: Option<seq<Byte>>, hasOnReceive: bool)
    requires Valid(s) && s.status == SlaveSend && sr.txrdy && !sr.nack && !sr.eosacc
    ensures var r := Service(s, sr, rhr, reply, hasOnReceive);
      r.written == Some(if s.srvIndex < s.srvLength then Pending(s)[s.srvIndex] else FILLER)
      && r.state.status == SlaveSend
  {
  }

  /**
   * A master read with no `onRequest` handler: the reply is the single byte
   * 0, sent at once from the same snapshot, after which only filler follows.
   */
  lemma DefaultReply(s: State, rhr: Byte)
    requires Valid(s) && s.status == SlaveIdle && |s.srv| > 0
    ensures var r := Service(s, SEND_MATCH, rhr, None, false);
      r.written == Some(0) && r.state.status == SlaveSend && Pending(r.state) == [0]
      && Service(r.state, BYTE_OUT, rhr, None, false).written == Some(FILLER)
  {
    var a := AddressMatch(s, SEND_MATCH, None);
    assert Pending(a) == [0] && a.srvIndex == 0 && a.status == SlaveSend;
  }

  /** The receiving state after each byte of `data` arrives in its own handler run. */
  function Receive(s: State, data: seq<Byte>): (t: State)
    requires Valid(s) && s.status == SlaveRecv
    ensures Valid(t) && t.status == SlaveRecv && |t.rx| == |s.rx| && |t.srv| == |s.srv|
    ensures t.rx == s.rx && t.rxIndex == s.rxIndex && t.rxLength == s.rxLength
    decreases |data|
  {
    if data == [] then s
    else Receive(Service(s, BYTE_IN, data[0], None, false).state, data[1..])
  }

  /**
   * A reception keeps the bytes that fit in the service buffer and drops the
   * rest, without any signal.
   */
  lemma {:induction false} ReceiveKeepsFirst(s: State, data: seq<Byte>)
    requires Valid(s) && s.status == SlaveRecv
    ensures Pending(Receive(s, data)) == Pending(s) + data[..Min(|data|, |s.srv| - s.srvLength)]
    decreases |data|
  {
    if data != [] {
      var t := Service(s, BYTE_IN, data[0], None, false).state;
      ByteArrives(s, data[0]);
      ReceiveKeepsFirst(t, data[1..]);
      assert Receive(s, data) == Receive(t, data[1..]);
      if s.srvLength < |s.srv| {
        var n := Min(|data| - 1, |s.srv| - t.srvLength);
        assert data[..n + 1] == [data[0]] + data[1..][..n];
      }
    }
  }

  /** One received byte: stored after the others while there is room, dropped otherwise. */
  lemma ByteArrives(s: State, b: Byte)
    requires Valid(s) && s.status == SlaveRecv
    ensures var t := Service(s, BYTE_IN, b, None, false).state;
      && Valid(t) && t.status == SlaveRecv && |t.srv| == |s.srv|
      && (s.srvLength < |s.srv| ==> t.srvLength == s.srvLength + 1 && Pending(t) == Pending(s) + [b])
      && (s.srvLength >= |s.srv| ==> t == s)
  {
    var t := Service(s, BYTE_IN, b, None, false).state;
    assert t == ReceiveByte(s, BYTE_IN, b);
    if s.srvLength < |s.srv| {
      assert Pending(t) == Pending(s) + [b];
    }
  }

  /** Address match of a master write, from idle. */
  lemma MatchForReception(s: State)
    requires Valid(s) && s.status == SlaveIdle
    ensures Service(s, RECV_MATCH, 0, None, true).state == s.(status := SlaveRecv, srvIndex := 0, srvLength := 0)
  {
    var a := AddressMatch(s, RECV_MATCH, None);
    assert a == s.(status := SlaveRecv, srvIndex := 0, srvLength := 0);
    assert EndOfAccess(a, RECV_MATCH, true) == Serviced(a, None, None);
  }

  /** End of access during a reception, with a handler registered. */
  lemma EndOfReception(s: State)
    requires Valid(s) && s.status == SlaveRecv
    ensures var t := HandOff(s).(status := SlaveIdle);
      Service(s, END_OF_ACCESS, 0, None, true) == Serviced(t, None, Some(t.rxLength))
  {
    var t := HandOff(s).(status := SlaveIdle);
    assert AddressMatch(s, END_OF_ACCESS, None) == s;
    assert EndOfAccess(s, END_OF_ACCESS, true) == Serviced(t, None, Some(t.rxLength));
    assert ReceiveByte(t, END_OF_ACCESS, 0) == t;
    assert SendByte(t, END_OF_ACCESS) == Serviced(t, None, None);
  }

  /**
   * Bytes arriving in a reception that started empty, then end of access:
   * `onReceive` is called with the number of bytes kept, at most both
   * capacities, and those bytes are the unread bytes.
   */
  lemma ReceptionDelivered(m: State, data: seq<Byte>)
    requires Valid(m) && m.status == SlaveRecv && m.srvLength == 0
    ensures var r := Service(Receive(m, data), END_OF_ACCESS, 0, None, true);
      var kept := Min(Min(|data|, |m.srv|), |m.rx|);
      r.delivered == Some(kept) && r.state.status == SlaveIdle && Unread(r.state) == data[..kept]
    ensures var full := Receive(m, data);
      Valid(full) && HandOffAsWritten(full).rxLength == Min(|data|, |m.srv|)
      && (Min(|data|, |m.srv|) <= |m.rx| ==>
            Service(full, END_OF_ACCESS, 0, None, true).delivered == Some(HandOffAsWritten(full).rxLength))
  {
    var full := Receive(m, data);
    ReceiveKeepsFirst(m, data);
    var k := Min(|data|, |m.srv|);
    assert Pending(m) == [];
    assert Pending(full) == data[..k];
    assert full.srvLength == k && |full.rx| == |m.rx|;
    EndOfReception(full);
    var kept := Min(k, |m.rx|);
    var t := HandOff(full).(status := SlaveIdle);
    assert t.rxLength == kept;
    assert Unread(t) == data[..kept] by {
      assert Unread(t) == Unread(HandOff(full));
      assert data[..k][..kept] == data[..kept];
    }
  }

  /**
   * A whole master write to this slave from idle: address match, one run per
   * byte, end of access.
   */
  lemma SlaveReception(s: State, data: seq<Byte>)
    requires Valid(s) && s.status == SlaveIdle
    ensures var matched := Service(s, RECV_MATCH, 0, None, true).state;
      matched.status == SlaveRecv && Pending(matched) == []
      && var r := Service(Receive(matched, data), END_OF_ACCESS, 0, None, true);
      var kept := Min(Min(|data|, |s.srv|), |s.rx|);
      r.delivered == Some(kept) && r.state.status == SlaveIdle && Unread(r.state) == data[..kept]
  {
    MatchForReception(s);
    var matched := Service(s, RECV_MATCH, 0, None, true).state;
    ReceptionDelivered(matched, data);
  }

  /**
   * The hand-off loop as written overruns the receive buffer: with a receive
   * capacity of 4 and transmit and service capacities of 8, which the buffer
   * provider gives for 4 and 8, a master writing five bytes makes it store
   * into slot 4 and set a receive length of 5.  The clamped hand-off
   * delivers 4.
   */
  lemma HandOffOverrun()
    ensures Impl(4, 8).AsInterface() == Interface(4, 8, 8)
    ensures var s := BeginSlave(Initial(Interface(4, 8, 8)), 0x30);
      var full := Receive(Service(s, RECV_MATCH, 0, None, true).state, [1, 2, 3, 4, 5]);
      var raw := HandOffAsWritten(full);
      4 in raw.stores && raw.rxLength == 5 && raw.rxLength > |full.rx|
      && Service(full, END_OF_ACCESS, 0, None, true).delivered == Some(4)
  {
    var s := BeginSlave(Initial(Interface(4, 8, 8)), 0x30);
    var matched := Service(s, RECV_MATCH, 0, None, true).state;
    assert matched == AddressMatch(s, RECV_MATCH, None);
    assert Pending(matched) == [] && matched.srvLength == 0;
    var data: seq<Byte> := [1, 2, 3, 4, 5];
    var full := Receive(matched, data);
    ReceiveKeepsFirst(matched, data);
    assert full.srvLength == 5;
    var raw := HandOffAsWritten(full);
    assert raw.stores[4] == 4;
    SlaveReception(s, data);
  }
}
