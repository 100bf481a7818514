/** The VHPI foreign functions the simulator calls once per scheduling step,
    with parameter passing through the simulator abstracted away. This is the
    older adapter built around four global byte queues (UART and AXI-Stream,
    each with a transmit and a receive queue) and a plain list of reported
    VVCs, not the registry of `CosimServer`. */
module Vhpi {
  import opened CosimTypes
  import VvcConfig

  /** Which pair of global queues a handler works on. */
  datatype Port = Uart | Axis

  datatype VhpiState = VhpiState(
    uartTransmit: seq<uint8>,
    uartReceive: seq<uint8>,
    axisTransmit: seq<uint8>,
    axisReceive: seq<uint8>,
    vvcList: seq<VvcInstance>)

  function TransmitQueue(st: VhpiState, port: Port): seq<uint8> {
    match port
    case Uart => st.uartTransmit
    case Axis => st.axisTransmit
  }

  function ReceiveQueue(st: VhpiState, port: Port): seq<uint8> {
    match port
    case Uart => st.uartReceive
    case Axis => st.axisReceive
  }

  /** The state with the transmit queue of `port` replaced. */
  function WithTransmitQueue(st: VhpiState, port: Port, q: seq<uint8>): (r: VhpiState)
    ensures TransmitQueue(r, port) == q
    ensures forall p :: p != port ==> TransmitQueue(r, p) == TransmitQueue(st, p)
    ensures forall p :: ReceiveQueue(r, p) == ReceiveQueue(st, p)
    ensures r.vvcList == st.vvcList
  {
    match port
    case Uart => st.(uartTransmit := q)
    case Axis => st.(axisTransmit := q)
  }

  /** The state with the receive queue of `port` replaced. */
  function WithReceiveQueue(st: VhpiState, port: Port, q: seq<uint8>): (r: VhpiState)
    ensures ReceiveQueue(r, port) == q
    ensures forall p :: p != port ==> ReceiveQueue(r, p) == ReceiveQueue(st, p)
    ensures forall p :: TransmitQueue(r, p) == TransmitQueue(st, p)
    ensures r.vvcList == st.vvcList
  {
    match port
    case Uart => st.(uartReceive := q)
    case Axis => st.(axisReceive := q)
  }

  /** `uart_transmit_queue_empty` / `axis_transmit_queue_empty`: 1 for empty,
      0 for not empty. Only VVC index 0 is served; any other index always
      reads as empty. */
  function TransmitQueueEmpty(st: VhpiState, port: Port, vvcIdx: int): (r: int)
    ensures r == 0 || r == 1
    ensures r == 1 <==> TransmitQueue(st, port) == [] || vvcIdx != 0
  {
    var empty := TransmitQueue(st, port) == [];
    var empty' := if vvcIdx != 0 then true else empty;
    if empty' then 1 else 0
  }

  /** `uart_transmit_queue_get` / `axis_transmit_queue_get`: removes and
      returns the oldest byte. The handler asserts that the queue is not empty
      (the simulation must ask `TransmitQueueEmpty` first). The index is read
      but not used. */
  function TransmitQueueGet(st: VhpiState, port: Port, vvcIdx: int): (r: (uint8, VhpiState))
    requires TransmitQueue(st, port) != []
    ensures [r.0] + TransmitQueue(r.1, port) == TransmitQueue(st, port)
    ensures forall p :: p != port ==> TransmitQueue(r.1, p) == TransmitQueue(st, p)
    ensures forall p :: ReceiveQueue(r.1, p) == ReceiveQueue(st, p)
    ensures r.1.vvcList == st.vvcList
  {
    var q := TransmitQueue(st, port);
    (q[0], WithTransmitQueue(st, port, q[1..]))
  }

  /** The conversion of the `int` parameter to `uint8_t`: reduction modulo 256. */
  function TruncateToByte(value: int): (b: uint8)
    ensures (value - b as int) % 0x100 == 0
    ensures 0 <= value < 0x100 ==> b as int == value
  {
    (value % 0x100) as uint8
  }

  /** `uart_receive_queue_put` / `axis_receive_queue_put`: appends the value,
      truncated to 8 bits, behind the bytes already queued. The index is read
      but not used. */
  function ReceiveQueuePut(st: VhpiState, port: Port, vvcIdx: int, value: int): (r: VhpiState)
    ensures ReceiveQueue(r, port) == ReceiveQueue(st, port) + [TruncateToByte(value)]
    ensures forall p :: p != port ==> ReceiveQueue(r, p) == ReceiveQueue(st, p)
    ensures forall p :: TransmitQueue(r, p) == TransmitQueue(st, p)
    ensures r.vvcList == st.vvcList
  {
    WithReceiveQueue(st, port, ReceiveQueue(st, port) + [TruncateToByte(value)])
  }

  /** `uvvm_cosim_vhpi_report_vvc_info`: appends the described VVC, with its
      parsed configuration, to the list. Nothing is checked: a VVC reported
      twice is listed twice. */
  function ReportVvcInfo(st: VhpiState, vvcType: string, channel: string, id: int, cfgStr: string): (r: VhpiState)
    ensures r.vvcList == st.vvcList + [VvcInstance(vvcType, channel, id, VvcConfig.ParseCfgStr(cfgStr))]
    ensures forall p :: TransmitQueue(r, p) == TransmitQueue(st, p) && ReceiveQueue(r, p) == ReceiveQueue(st, p)
  {
    st.(vvcList := st.vvcList + [VvcInstance(vvcType, channel, id, VvcConfig.ParseCfgStr(cfgStr))])
  }

  /** Unlike registration in the registry, reporting the same VVC twice keeps
      both entries. */
  lemma {:induction false} ReportKeepsDuplicates(st: VhpiState, vvcType: string, channel: string, id: int, cfg1: string, cfg2: string)
    ensures var r := ReportVvcInfo(ReportVvcInfo(st, vvcType, channel, id, cfg1), vvcType, channel, id, cfg2);
      && |r.vvcList| == |st.vvcList| + 2
      && KeyOf(r.vvcList[|st.vvcList|]) == KeyOf(r.vvcList[|st.vvcList| + 1])
  {
  }

  /** A 0 from `TransmitQueueEmpty` guarantees that the following
      `TransmitQueueGet` meets its precondition. */
  lemma {:induction false} EmptyCheckGuardsGet(st: VhpiState, port: Port, vvcIdx: int)
    requires TransmitQueueEmpty(st, port, vvcIdx) == 0
    ensures TransmitQueue(st, port) != []
    ensures var r := TransmitQueueGet(st, port, vvcIdx);
      r.0 == TransmitQueue(st, port)[0] && |TransmitQueue(r.1, port)| == |TransmitQueue(st, port)| - 1
  {
  }

  /** Popping as long as the emptiness check says 0, for VVC index 0, drains
      the transmit queue in order. */
  function DrainTransmit(st: VhpiState, port: Port): (r: (seq<uint8>, VhpiState))
    ensures r.0 == TransmitQueue(st, port)
    ensures TransmitQueueEmpty(r.1, port, 0) == 1
    ensures forall p :: ReceiveQueue(r.1, p) == ReceiveQueue(st, p)
    decreases |TransmitQueue(st, port)|
  {
    if TransmitQueueEmpty(st, port, 0) == 1 then ([], st)
    else
      var (b, st') := TransmitQueueGet(st, port, 0);
      var (rest, st'') := DrainTransmit(st', port);
      ([b] + rest, st'')
  }

  // ---------------------------------------------------------------------
  // convert_time_to_ns
  // ---------------------------------------------------------------------

  /** `uint32_t`, the type of the two halves of a `vhpiTimeT`. */
  newtype uint32 = x: int | 0 <= x < 0x1_0000_0000

  const TwoTo32: int := 0x1_0000_0000
  const TwoTo63: int := 0x8000_0000_0000_0000
  const TwoTo64: int := 0x1_0000_0000_0000_0000

  /** The 64-bit time value the two halves stand for. */
  function TimeValue(high: uint32, low: uint32): (t: nat)
    ensures t < TwoTo64
  {
    high as int * TwoTo32 + low as int
  }

  /** Division that rounds toward zero, as C++ `/` does. */
  function TruncatingDiv(a: int, b: nat): int
    requires b > 0
  {
    if a >= 0 then a / b else -((-a) / b)
  }

  /** The source expression `(((long)high << 32) | (long)low) / 1000000` on a
      64-bit `long`: the shift wraps into the sign bit once `high` reaches
      2^31, and the division rounds toward zero. */
  function ConvertTimeToNsAsWritten(high: uint32, low: uint32): (ns: int)
    ensures ns < 0 <==> high >= 0x8000_0000 && TimeValue(high, low) <= TwoTo64 - 1_000_000
    ensures -(TwoTo63 / 1_000_000) <= ns <= TwoTo63 / 1_000_000
  {
    var bits := TimeValue(high, low);
    var signed := if bits >= TwoTo63 then bits - TwoTo64 else bits;
    TruncatingDiv(signed, 1_000_000)
  }

  /** Time in femtoseconds converted to whole nanoseconds, rounding down,
      computed without the signed overflow. */
  function ConvertTimeToNs(high: uint32, low: uint32): (ns: nat)
    ensures ns * 1_000_000 <= TimeValue(high, low) < (ns + 1) * 1_000_000
  {
    TimeValue(high, low) / 1_000_000
  }

  /** The source's formula is right as long as the high half stays below 2^31. */
  lemma {:induction false} ConvertAgreesBelowSignBit(high: uint32, low: uint32)
    requires high < 0x8000_0000
    ensures ConvertTimeToNsAsWritten(high, low) == ConvertTimeToNs(high, low)
  {
  }

  /** From 2^63 femtoseconds on (high half 2^31), the source's formula yields a
      negative number of nanoseconds. */
  lemma {:induction false} ConvertAsWrittenGoesNegative()
    ensures ConvertTimeToNsAsWritten(0x8000_0000, 0) == -9_223_372_036_854
    ensures ConvertTimeToNs(0x8000_0000, 0) == 9_223_372_036_854
  {
  }
}
