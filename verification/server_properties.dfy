/** Properties of the registry that relate several operations: FIFO order
    across pushes and pops, idempotent registration, and an invariant every
    operation keeps. */
module ServerProperties {
  import opened CosimTypes
  import opened CosimServer

  /** Registering the same (type, channel, id) twice is registering it once;
      the configuration of the first registration is the one kept. */
  lemma {:induction false} AddVvcIdempotent(reg: Registry, vvcType: string, channel: string, id: int, cfg1: string, cfg2: string)
    ensures AddVvc(AddVvc(reg, vvcType, channel, id, cfg1), vvcType, channel, id, cfg2)
         == AddVvc(reg, vvcType, channel, id, cfg1)
    ensures |AddVvc(AddVvc(reg, vvcType, channel, id, cfg1), vvcType, channel, id, cfg2).Keys|
         == |reg.Keys + {VvcKey(vvcType, channel, id)}|
  {
  }

  /** Frames whose bytes are read back give the bytes that were wrapped. */
  lemma {:induction false} BytesOfFrames(data: seq<uint8>)
    ensures Bytes(Frames(data)) == data
  {
  }

  /** `n` successive `TransmitQueueGet` calls, as the simulation makes them
      once per scheduling step. */
  function DrainTransmit(reg: Registry, vvcType: string, id: int, n: nat): Step<seq<ByteFrame>>
    decreases n
  {
    if n == 0 then Step([], reg)
    else
      var first := TransmitQueueGet(reg, vvcType, id);
      var rest := DrainTransmit(first.registry, vvcType, id, n - 1);
      Step([first.value.value] + rest.value, rest.registry)
  }

  /** Popping `n` frames one by one yields the first `n` frames of the
      transmit queue in order and leaves the rest. */
  lemma {:induction false} DrainTakesPrefix(reg: Registry, vvcType: string, id: int, n: nat)
    requires TransmitKey(vvcType, id) in reg
    requires n <= |reg[TransmitKey(vvcType, id)].queues.transmit|
    ensures var key := TransmitKey(vvcType, id);
      var r := DrainTransmit(reg, vvcType, id, n);
      && key in r.registry
      && r.value == reg[key].queues.transmit[..n]
      && r.registry[key].queues.transmit == reg[key].queues.transmit[n..]
      && r.registry[key].queues.receive == reg[key].queues.receive
    decreases n
  {
    var key := TransmitKey(vvcType, id);
    var q := reg[key].queues.transmit;
    if n > 0 {
      var first := TransmitQueueGet(reg, vvcType, id);
      assert !TransmitQueueEmpty(reg, vvcType, id);
      assert first.registry[key].queues.transmit == q[1..];
      DrainTakesPrefix(first.registry, vvcType, id, n - 1);
      assert q[1..][..n - 1] == q[1..n];
      assert q[1..][n - 1..] == q[n..];
      assert q[..n] == [q[0]] + q[1..n];
    }
  }

  /** Bytes sent by a remote client come out on the simulation side in the
      order sent, after what was already queued, and nothing else comes out:
      no loss, no duplication, no reordering. */
  lemma {:induction false} TransmitIsFifo(reg: Registry, vvcType: string, id: int, data: seq<uint8>)
    requires TransmitKey(vvcType, id) in reg
    ensures var key := TransmitKey(vvcType, id);
      var queued := reg[key].queues.transmit;
      var sent := TransmitBytes(reg, vvcType, id, data);
      var drained := DrainTransmit(sent.registry, vvcType, id, |queued| + |data|);
      && drained.value == queued + Frames(data)
      && key in drained.registry
      && drained.registry[key].queues.transmit == []
      && TransmitQueueEmpty(drained.registry, vvcType, id)
  {
    var key := TransmitKey(vvcType, id);
    var queued := reg[key].queues.transmit;
    var sent := TransmitBytes(reg, vvcType, id, data);
    var all := queued + Frames(data);
    DrainTakesPrefix(sent.registry, vvcType, id, |all|);
    assert all[..|all|] == all;
  }

  /** The simulation pushing `data` byte by byte, without end-of-packet marks. */
  function PutAll(reg: Registry, vvcType: string, id: int, data: seq<uint8>): Registry
    decreases |data|
  {
    if |data| == 0 then reg
    else PutAll(ReceiveQueuePut(reg, vvcType, id, data[0], false), vvcType, id, data[1..])
  }

  lemma {:induction false} PutAllAppends(reg: Registry, vvcType: string, id: int, data: seq<uint8>)
    requires ReceiveKey(vvcType, id) in reg
    ensures var key := ReceiveKey(vvcType, id);
      var r := PutAll(reg, vvcType, id, data);
      && r.Keys == reg.Keys
      && r[key].queues.receive == reg[key].queues.receive + Frames(data)
    decreases |data|
  {
    if |data| > 0 {
      var key := ReceiveKey(vvcType, id);
      var next := ReceiveQueuePut(reg, vvcType, id, data[0], false);
      PutAllAppends(next, vvcType, id, data[1..]);
      assert [ByteFrame(data[0], false)] + Frames(data[1..]) == Frames(data);
    }
  }

  /** An all-or-nothing read of at most the queued amount takes exactly that
      many frames from the front. */
  lemma {:induction false} ExactReadTakesPrefix(reg: Registry, vvcType: string, id: int, len: nat)
    requires ReceiveKey(vvcType, id) in reg
    requires len <= |reg[ReceiveKey(vvcType, id)].queues.receive|
    ensures var key := ReceiveKey(vvcType, id);
      var queued := reg[key].queues.receive;
      var r := ReceiveBytes(reg, vvcType, id, len, true);
      && r.value == JsonResponse(true, DataObject(Bytes(queued[..len])))
      && key in r.registry
      && r.registry[key].queues.receive == queued[len..]
  {
  }

  /** An all-or-nothing read from a receive queue holding the frames of
      `data` returns a prefix of `data` and leaves the frames of the rest. */
  lemma {:induction false} ReadFramesPrefix(reg: Registry, vvcType: string, id: int, data: seq<uint8>, len: nat)
    requires ReceiveKey(vvcType, id) in reg
    requires reg[ReceiveKey(vvcType, id)].queues.receive == Frames(data)
    requires len <= |data|
    ensures var r := ReceiveBytes(reg, vvcType, id, len, true);
      && r.value == JsonResponse(true, DataObject(data[..len]))
      && ReceiveKey(vvcType, id) in r.registry
      && r.registry[ReceiveKey(vvcType, id)].queues.receive == Frames(data[len..])
  {
    var frames := Frames(data);
    ExactReadTakesPrefix(reg, vvcType, id, len);
    assert Bytes(frames[..len]) == data[..len];
    assert frames[len..] == Frames(data[len..]);
  }

  /** Pushes into an empty receive queue followed by an all-or-nothing read of
      `len` bytes return the first `len` bytes pushed; a second such read
      returns the rest, still in order, and empties the queue. */
  lemma {:induction false} ReceiveIsFifo(reg: Registry, vvcType: string, id: int, data: seq<uint8>, len: nat)
    requires ReceiveKey(vvcType, id) in reg
    requires reg[ReceiveKey(vvcType, id)].queues.receive == []
    requires len <= |data|
    ensures var first := ReceiveBytes(PutAll(reg, vvcType, id, data), vvcType, id, len, true);
      var second := ReceiveBytes(first.registry, vvcType, id, |data| - len, true);
      && first.value == JsonResponse(true, DataObject(data[..len]))
      && second.value == JsonResponse(true, DataObject(data[len..]))
      && second.registry[ReceiveKey(vvcType, id)].queues.receive == []
  {
    var key := ReceiveKey(vvcType, id);
    var filled := PutAll(reg, vvcType, id, data);
    PutAllAppends(reg, vvcType, id, data);
    assert filled[key].queues.receive == Frames(data);
    ReadFramesPrefix(filled, vvcType, id, data, len);
    var first := ReceiveBytes(filled, vvcType, id, len, true);
    var rest := data[len..];
    ReadFramesPrefix(first.registry, vvcType, id, rest, |rest|);
    assert rest[..|rest|] == rest;
    assert Frames(rest[|rest|..]) == [];
  }

  /** The partial-read rule on a queue holding fewer bytes than asked for:
      all-or-nothing returns nothing and keeps the queue; best-effort returns
      everything and empties it. When exactly `length` bytes are queued both
      modes return them all. */
  lemma {:induction false} PartialReadModes(reg: Registry, vvcType: string, id: int, length: nat)
    requires ReceiveKey(vvcType, id) in reg
    ensures var key := ReceiveKey(vvcType, id);
      var queued := reg[key].queues.receive;
      var exact := ReceiveBytes(reg, vvcType, id, length, true);
      var best := ReceiveBytes(reg, vvcType, id, length, false);
      && (|queued| < length ==>
            && exact.value == JsonResponse(true, DataObject([]))
            && exact.registry == reg
            && best.value == JsonResponse(true, DataObject(Bytes(queued)))
            && best.registry[key].queues.receive == [])
      && (|queued| == length ==>
            && exact == best
            && exact.value == JsonResponse(true, DataObject(Bytes(queued)))
            && exact.registry[key].queues.receive == [])
  {
    var key := ReceiveKey(vvcType, id);
    var queued := reg[key].queues.receive;
    assert queued[..|queued|] == queued;
  }

  /** A negative length, seen as a `size_t`, exceeds any realistic queue
      size: a best-effort read then takes the whole queue and an
      all-or-nothing read takes nothing. */
  lemma {:induction false} NegativeLengthReads(reg: Registry, vvcType: string, id: int, length: int)
    requires ReceiveKey(vvcType, id) in reg
    requires -0x8000_0000 <= length < 0
    requires |reg[ReceiveKey(vvcType, id)].queues.receive| < 0x8000_0000_0000_0000
    ensures var key := ReceiveKey(vvcType, id);
      var queued := reg[key].queues.receive;
      var exact := ReceiveBytes(reg, vvcType, id, length, true);
      var best := ReceiveBytes(reg, vvcType, id, length, false);
      && exact.value == JsonResponse(true, DataObject([]))
      && exact.registry == reg
      && best.value == JsonResponse(true, DataObject(Bytes(queued)))
      && best.registry[key].queues.receive == []
  {
    var key := ReceiveKey(vvcType, id);
    var queued := reg[key].queues.receive;
    assert SizeOf(length) >= 0x8000_0000_0000_0000;
    assert queued[..|queued|] == queued;
  }

  /** Frames on transmit queues never carry the end-of-packet mark: only
      `TransmitBytes` fills them, and it never sets the mark. */
  ghost predicate TransmitUnmarked(reg: Registry) {
    forall k, i :: k in reg && 0 <= i < |reg[k].queues.transmit| ==>
      !reg[k].queues.transmit[i].endOfPacket
  }

  /** Registration adds only empty queues. */
  lemma {:induction false} AddVvcKeepsTransmitUnmarked(reg: Registry, vvcType: string, channel: string, id: int, cfgStr: string)
    requires TransmitUnmarked(reg)
    ensures TransmitUnmarked(AddVvc(reg, vvcType, channel, id, cfgStr))
  {
    var r := AddVvc(reg, vvcType, channel, id, cfgStr);
    forall k, i | k in r && 0 <= i < |r[k].queues.transmit|
      ensures !r[k].queues.transmit[i].endOfPacket
    {
      assert k in reg;
    }
  }

  /** A pop shortens one transmit queue and returns one of its frames. */
  lemma {:induction false} TransmitQueueGetKeepsTransmitUnmarked(reg: Registry, vvcType: string, id: int)
    requires TransmitUnmarked(reg)
    ensures TransmitUnmarked(TransmitQueueGet(reg, vvcType, id).registry)
    ensures !TransmitQueueGet(reg, vvcType, id).value.value.endOfPacket
  {
    var txKey := TransmitKey(vvcType, id);
    if txKey in reg && reg[txKey].queues.transmit != [] {
      var got := TransmitQueueGet(reg, vvcType, id);
      var q := reg[txKey].queues.transmit;
      assert got.value.value == q[0];
      forall k, i | k in got.registry && 0 <= i < |got.registry[k].queues.transmit|
        ensures !got.registry[k].queues.transmit[i].endOfPacket
      {
        if k == txKey {
          assert got.registry[k].queues.transmit[i] == q[i + 1];
        } else {
          assert got.registry[k] == reg[k];
        }
      }
    }
  }

  /** A push touches only a receive queue. */
  lemma {:induction false} ReceiveQueuePutKeepsTransmitUnmarked(reg: Registry, vvcType: string, id: int, byte: uint8, endOfPacket: bool)
    requires TransmitUnmarked(reg)
    ensures TransmitUnmarked(ReceiveQueuePut(reg, vvcType, id, byte, endOfPacket))
  {
    var r := ReceiveQueuePut(reg, vvcType, id, byte, endOfPacket);
    forall k, i | k in r && 0 <= i < |r[k].queues.transmit|
      ensures !r[k].queues.transmit[i].endOfPacket
    {
      assert r[k].queues.transmit == reg[k].queues.transmit;
    }
  }

  /** Transmitted bytes are queued without the mark. */
  lemma {:induction false} TransmitBytesKeepsTransmitUnmarked(reg: Registry, vvcType: string, id: int, data: seq<uint8>)
    requires TransmitUnmarked(reg)
    ensures TransmitUnmarked(TransmitBytes(reg, vvcType, id, data).registry)
  {
    var r := TransmitBytes(reg, vvcType, id, data).registry;
    var txKey := TransmitKey(vvcType, id);
    forall k, i | k in r && 0 <= i < |r[k].queues.transmit|
      ensures !r[k].queues.transmit[i].endOfPacket
    {
      if k == txKey {
        var before := reg[k].queues.transmit;
        assert r[k].queues.transmit == before + Frames(data);
        if i >= |before| {
          assert r[k].queues.transmit[i] == Frames(data)[i - |before|];
        } else {
          assert r[k].queues.transmit[i] == before[i];
        }
      } else {
        assert r[k] == reg[k];
      }
    }
  }

  /** A read touches only a receive queue. */
  lemma {:induction false} ReceiveBytesKeepsTransmitUnmarked(reg: Registry, vvcType: string, id: int, length: int, allOrNothing: bool)
    requires TransmitUnmarked(reg)
    ensures TransmitUnmarked(ReceiveBytes(reg, vvcType, id, length, allOrNothing).registry)
  {
    var r := ReceiveBytes(reg, vvcType, id, length, allOrNothing).registry;
    forall k, i | k in r && 0 <= i < |r[k].queues.transmit|
      ensures !r[k].queues.transmit[i].endOfPacket
    {
      assert r[k].queues.transmit == reg[k].queues.transmit;
    }
  }
}
