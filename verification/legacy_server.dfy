/** `UVVMCosimServer`, the older single-VVC server: one UART transmit queue
    and one UART receive queue of plain bytes, with a best-effort read. */
module LegacyServer {
  import opened CosimTypes

  datatype UartQueues = UartQueues(transmit: seq<uint8>, receive: seq<uint8>)

  /** The value an operation returns together with the queues after it. */
  datatype Reply<T> = Reply(value: T, queues: UartQueues)

  /** `UartTransmit`: queues all of `data` behind what is already waiting and
      reports success; there is no capacity limit. */
  function UartTransmit(q: UartQueues, data: seq<uint8>): (r: Reply<bool>)
    ensures r.value
    ensures r.queues.transmit == q.transmit + data
    ensures r.queues.receive == q.receive
  {
    Reply(true, q.(transmit := q.transmit + data))
  }

  /** `UartReceive`: moves as much as is queued, up to `length` bytes, from the
      front of the receive queue to the caller. */
  function UartReceive(q: UartQueues, length: nat): (r: Reply<seq<uint8>>)
    ensures |r.value| == Min(length, |q.receive|)
    ensures r.value + r.queues.receive == q.receive
    ensures r.queues.transmit == q.transmit
  {
    if |q.receive| > length then
      Reply(q.receive[..length], q.(receive := q.receive[length..]))
    else
      assert q.receive + [] == q.receive;
      Reply(q.receive, q.(receive := []))
  }

  /** The two branches of `UartReceive`: more queued than asked for gives
      exactly `length` bytes and keeps the rest in order; otherwise everything
      is returned and the queue is left empty. */
  lemma {:induction false} UartReceiveCases(q: UartQueues, length: nat)
    ensures |q.receive| > length ==>
      && UartReceive(q, length).value == q.receive[..length]
      && UartReceive(q, length).queues.receive == q.receive[length..]
    ensures |q.receive| <= length ==>
      && UartReceive(q, length).value == q.receive
      && UartReceive(q, length).queues.receive == []
  {
    var r := UartReceive(q, length);
    if |q.receive| > length {
      assert r.value == (r.value + r.queues.receive)[..length];
    } else {
      assert |r.queues.receive| == 0;
      assert r.value == r.value + r.queues.receive;
    }
  }

  /** `UartReceive` as slices of the receive queue. */
  lemma {:induction false} UartReceiveSlices(q: UartQueues, length: nat)
    ensures var n := Min(length, |q.receive|);
      && UartReceive(q, length).value == q.receive[..n]
      && UartReceive(q, length).queues == q.(receive := q.receive[n..])
  {
    UartReceiveCases(q, length);
    assert q.receive[..|q.receive|] == q.receive;
  }

  /** Best-effort reads compose: reading `a` bytes and then `b` bytes returns
      the same bytes, and leaves the same queues, as one read of `a + b`. */
  lemma {:induction false} UartReceiveComposes(q: UartQueues, a: nat, b: nat)
    ensures var first := UartReceive(q, a);
      var second := UartReceive(first.queues, b);
      var both := UartReceive(q, a + b);
      && first.value + second.value == both.value
      && second.queues == both.queues
  {
    var rx := q.receive;
    var m1 := Min(a, |rx|);
    UartReceiveSlices(q, a);
    var q1 := q.(receive := rx[m1..]);
    var m2 := Min(b, |rx| - m1);
    UartReceiveSlices(q1, b);
    UartReceiveSlices(q, a + b);
    assert Min(a + b, |rx|) == m1 + m2;
    assert rx[m1..][..m2] == rx[m1..m1 + m2];
    assert rx[m1..][m2..] == rx[m1 + m2..];
    assert rx[..m1] + rx[m1..m1 + m2] == rx[..m1 + m2];
  }

  /** Transmitting twice is transmitting the concatenation once. */
  lemma {:induction false} UartTransmitComposes(q: UartQueues, d1: seq<uint8>, d2: seq<uint8>)
    ensures UartTransmit(UartTransmit(q, d1).queues, d2) == UartTransmit(q, d1 + d2)
  {
    assert q.transmit + d1 + d2 == q.transmit + (d1 + d2);
  }
}
