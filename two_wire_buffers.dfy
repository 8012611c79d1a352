/**
 * The buffer provider of the TwoWire driver: a compile-time sized byte array
 * (`StaticBuffer<N>`, with an empty specialisation for `N == 0`) and the
 * `Impl<RX, TX>` provider that owns three of them, the service buffer sized to
 * the larger of the two others.  The controller sees the provider only
 * through its interface: three buffers, each with a capacity.
 */
module TwoWireBuffers {
  import opened Bits

  datatype Option<T> = None | Some(value: T)

  /** `StaticBuffer<size>`: storage for `size` bytes. */
  datatype StaticBuffer = StaticBuffer(size: nat) {

    /**
     * `capacity()` returns the template argument as a `uint8_t`, so a buffer
     * of 256 bytes or more reports its size modulo 256; the zero-size
     * specialisation reports 0.
     */
    function Capacity(): (c: Byte)
      ensures size < 256 ==> c == size
      ensures (size - c) % 256 == 0
    {
      if size == 0 then 0 else U8(size)
    }

    /**
     * `storage()`: the byte region, given here by its length, or `None` for
     * the null storage that the zero-size specialisation returns.
     */
    function Storage(): (r: Option<nat>)
      ensures r == None <==> size == 0
      ensures r != None ==> r.value == size && r.value >= Capacity()
    {
      if size == 0 then None else Some(size)
    }
  }

  /** What the controller is given: three buffers and their capacities. */
  datatype Interface = Interface(rxCapacity: Byte, txCapacity: Byte, srvCapacity: Byte)

  /** Larger of two sizes, as `SRV_CAPACITY` is computed. */
  function Max(a: nat, b: nat): (m: nat)
    ensures m >= a && m >= b
    ensures m == a || m == b
  {
    if a > b then a else b
  }

  /** `Impl<rxSize, txSize>`: the provider with its three member buffers. */
  datatype Impl = Impl(rxSize: nat, txSize: nat) {

    function RxBuffer(): StaticBuffer { StaticBuffer(rxSize) }

    function TxBuffer(): StaticBuffer { StaticBuffer(txSize) }

    /** The service buffer is as large as the larger of the other two. */
    function SrvBuffer(): (b: StaticBuffer)
      ensures b.size >= rxSize && b.size >= txSize
      ensures b.size == rxSize || b.size == txSize
    {
      StaticBuffer(Max(rxSize, txSize))
    }

    /** The capacities the accessor pairs report, one per member buffer. */
    function AsInterface(): (i: Interface)
      ensures i.rxCapacity == RxBuffer().Capacity()
      ensures i.txCapacity == TxBuffer().Capacity()
      ensures i.srvCapacity == SrvBuffer().Capacity()
    {
      Interface(RxBuffer().Capacity(), TxBuffer().Capacity(), SrvBuffer().Capacity())
    }
  }

  /**
   * For sizes a `uint8_t` can report, the service buffer is at least as large
   * as either of the others, so it can hold any receive or transmit payload.
   */
  lemma SrvCoversBoth(rxSize: nat, txSize: nat)
    requires rxSize < 256 && txSize < 256
    ensures var i := Impl(rxSize, txSize).AsInterface();
      i.srvCapacity >= i.rxCapacity && i.srvCapacity >= i.txCapacity
      && (i.srvCapacity == i.rxCapacity || i.srvCapacity == i.txCapacity)
  {
  }

  /**
   * With a template size of 256 or more the reported capacities wrap: an
   * `Impl<100, 300>` reports a service capacity of 44, below its receive
   * capacity of 100.
   */
  lemma CapacityWraps()
    ensures Impl(100, 300).AsInterface() == Interface(100, 44, 44)
    ensures Impl(100, 300).SrvBuffer().Storage() == Some(300)
  {
  }

  /** A zero-size buffer has null storage and reports capacity 0. */
  lemma ZeroSizeBuffer()
    ensures StaticBuffer(0).Capacity() == 0 && StaticBuffer(0).Storage() == None
    ensures Impl(0, 0).AsInterface() == Interface(0, 0, 0)
  {
  }
}
