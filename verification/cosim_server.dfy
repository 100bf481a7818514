/** `UvvmCosimServer`: the registry of VVC queues and the operations the
    simulation side and the remote (JSON-RPC) side perform on it. Every
    operation is one critical section in the source, so each is modelled as
    one atomic step from a registry to a new registry. */
module CosimServer {
  import opened Wrappers
  import opened CosimTypes
  import VvcConfig
  import Decimal

  /** What the registry stores per key: the configuration given at the first
      registration, and the two queues. */
  datatype Entry = Entry(cfg: VvcConfig.Config, queues: VvcQueues)

  /** `vvcInstanceMap`. Keys are (type, channel, id) triples: by
      `CosimTypes.EquivalentIffSameKey` these are exactly the equivalence
      classes of `VvcCompare`, so a Dafny map behaves as the `std::map` does. */
  type Registry = map<VvcKey, Entry>

  /** The `result` part of a `JsonResponse`. */
  datatype Json =
    | EmptyObject                      // json{}
    | DataObject(data: seq<uint8>)      // json{{"data", data}}
    | InstanceArray(vvcs: seq<VvcInstance>)
    | ErrorObject(error: string)        // json{{"error", text}}

  datatype JsonResponse = JsonResponse(success: bool, result: Json)

  /** The value an operation returns together with the registry after it. */
  datatype Step<T> = Step(value: T, registry: Registry)

  /** The one VVC type whose channels have names of their own. */
  const UartVvcType: string := "UART_VVC"

  /** Channel inferred from the VVC type: the UART VVC names the channel of
      the direction (`uartChannel`), every other type uses `NA`. */
  function InferredChannel(vvcType: string, uartChannel: string): (channel: string)
    requires uartChannel != "NA"
    ensures channel == uartChannel <==> vvcType == UartVvcType
    ensures vvcType != UartVvcType ==> channel == "NA"
  {
    if vvcType == UartVvcType then uartChannel else "NA"
  }

  function TransmitKey(vvcType: string, id: int): VvcKey {
    VvcKey(vvcType, InferredChannel(vvcType, "TX"), id)
  }

  function ReceiveKey(vvcType: string, id: int): VvcKey {
    VvcKey(vvcType, InferredChannel(vvcType, "RX"), id)
  }

  /** The error text of the remote operations for an unknown identity. */
  const NotFoundHead: string := "VVC with type="
  const NotFoundTail: string := " does not exist."

  /** The error text for an unknown identity. It opens with the type and
      closes with the `to_string` text of the instance id. */
  function NotFoundMessage(key: VvcKey): (m: string)
    ensures |m| >= |NotFoundHead| + |key.vvcType| + |NotFoundTail|
    ensures m[..|NotFoundHead| + |key.vvcType|] == NotFoundHead + key.vvcType
    ensures var id := Decimal.IntToString(key.instanceId);
      |m| >= |id| + |NotFoundTail| && m[|m| - |id| - |NotFoundTail|..] == id + NotFoundTail
  {
    var id := Decimal.IntToString(key.instanceId);
    var m := NotFoundHead + key.vvcType + " channel=" + key.channel + " instance_id=" + id + NotFoundTail;
    assert m == (NotFoundHead + key.vvcType) + (" channel=" + key.channel + " instance_id=" + id + NotFoundTail);
    assert m == (NotFoundHead + key.vvcType + " channel=" + key.channel + " instance_id=") + (id + NotFoundTail);
    m
  }

  /** The instance id can be read back from the error text with `stoi`. */
  lemma {:induction false} NotFoundMessageNamesId(key: VvcKey)
    requires Decimal.InIntRange(key.instanceId)
    ensures var m := NotFoundMessage(key);
      var id := Decimal.IntToString(key.instanceId);
      Decimal.Stoi(m[|m| - |id| - |NotFoundTail|..]) == Some(key.instanceId)
  {
    var m := NotFoundMessage(key);
    var id := Decimal.IntToString(key.instanceId);
    assert m[|m| - |id| - |NotFoundTail|..] == id + NotFoundTail;
    assert NotFoundTail[0] == ' ';
    Decimal.StoiReadsToString(key.instanceId, NotFoundTail);
  }

  /** Bytes wrapped as frames without the end-of-packet mark. */
  function Frames(data: seq<uint8>): (frames: seq<ByteFrame>)
    ensures |frames| == |data|
    ensures forall i :: 0 <= i < |data| ==> frames[i] == ByteFrame(data[i], false)
  {
    seq(|data|, i requires 0 <= i < |data| => ByteFrame(data[i], false))
  }

  /** The bytes of a list of frames, end-of-packet marks dropped. */
  function Bytes(frames: seq<ByteFrame>): (data: seq<uint8>)
    ensures |data| == |frames|
    ensures forall i :: 0 <= i < |frames| ==> data[i] == frames[i].data
  {
    seq(|frames|, i requires 0 <= i < |frames| => frames[i].data)
  }

  /** The `int` length converted to `size_t` (64 bits) where it is compared
      with a queue size: a negative length becomes a huge one. */
  function SizeOf(length: int): (n: nat)
    ensures length >= 0 ==> n == length
    ensures length < 0 ==> (n - length) % 0x1_0000_0000_0000_0000 == 0 && n < 0x1_0000_0000_0000_0000
  {
    if length >= 0 then length else length % 0x1_0000_0000_0000_0000
  }

  /** The registry with the queues of `key` replaced. */
  function SetQueues(reg: Registry, key: VvcKey, queues: VvcQueues): (r: Registry)
    requires key in reg
    ensures r.Keys == reg.Keys
    ensures r[key] == Entry(reg[key].cfg, queues)
    ensures forall k :: k in reg && k != key ==> r[k] == reg[k]
  {
    reg[key := Entry(reg[key].cfg, queues)]
  }

  // ---------------------------------------------------------------------
  // Simulation side
  // ---------------------------------------------------------------------

  /** `AddVvc`: registers a VVC with two empty queues, unless one with the
      same (type, channel, id) exists; then nothing changes, not even the
      stored configuration. */
  function AddVvc(reg: Registry, vvcType: string, channel: string, id: int, cfgStr: string): (r: Registry)
    ensures r.Keys == reg.Keys + {VvcKey(vvcType, channel, id)}
    ensures forall k :: k in reg ==> r[k] == reg[k]
    ensures VvcKey(vvcType, channel, id) !in reg ==>
      r[VvcKey(vvcType, channel, id)] == Entry(VvcConfig.ParseCfgStr(cfgStr), VvcQueues([], []))
  {
    var key := VvcKey(vvcType, channel, id);
    var cfg := VvcConfig.ParseCfgStr(cfgStr);
    if key !in reg then reg[key := Entry(cfg, VvcQueues([], []))] else reg
  }

  /** `TransmitQueueEmpty`: an unknown VVC counts as having nothing to send. */
  function TransmitQueueEmpty(reg: Registry, vvcType: string, id: int): (empty: bool)
    ensures empty <==>
      (TransmitKey(vvcType, id) in reg ==> reg[TransmitKey(vvcType, id)].queues.transmit == [])
  {
    var key := TransmitKey(vvcType, id);
    if key in reg then reg[key].queues.transmit == [] else true
  }

  /** `TransmitQueueGet`: takes the oldest frame of the transmit queue. On an
      empty queue or an unknown VVC the answer is a present `(0, false)`,
      never an empty optional, and nothing changes. */
  function TransmitQueueGet(reg: Registry, vvcType: string, id: int): (r: Step<Option<ByteFrame>>)
    ensures r.value.Some?
    ensures r.registry.Keys == reg.Keys
    ensures TransmitQueueEmpty(reg, vvcType, id) ==>
      r.value.value == ByteFrame(0, false) && r.registry == reg
    ensures !TransmitQueueEmpty(reg, vvcType, id) ==>
      var key := TransmitKey(vvcType, id);
      && [r.value.value] + r.registry[key].queues.transmit == reg[key].queues.transmit
      && r.registry[key].queues.receive == reg[key].queues.receive
      && r.registry[key].cfg == reg[key].cfg
      && (forall k :: k in reg && k != key ==> r.registry[k] == reg[k])
  {
    var key := TransmitKey(vvcType, id);
    if key in reg && reg[key].queues.transmit != [] then
      var q := reg[key].queues;
      Step(Some(q.transmit[0]), SetQueues(reg, key, q.(transmit := q.transmit[1..])))
    else
      Step(Some(ByteFrame(0, false)), reg)
  }

  /** `ReceiveQueuePut`: appends one frame to the receive queue of a known
      VVC; an unknown VVC is ignored. */
  function ReceiveQueuePut(reg: Registry, vvcType: string, id: int, byte: uint8, endOfPacket: bool): (r: Registry)
    ensures r.Keys == reg.Keys
    ensures forall k :: k in reg && k != ReceiveKey(vvcType, id) ==> r[k] == reg[k]
    ensures ReceiveKey(vvcType, id) !in reg ==> r == reg
    ensures ReceiveKey(vvcType, id) in reg ==>
      var key := ReceiveKey(vvcType, id);
      && r[key].queues.receive == reg[key].queues.receive + [ByteFrame(byte, endOfPacket)]
      && r[key].queues.transmit == reg[key].queues.transmit
      && r[key].cfg == reg[key].cfg
  {
    var key := ReceiveKey(vvcType, id);
    if key in reg then
      var q := reg[key].queues;
      SetQueues(reg, key, q.(receive := q.receive + [ByteFrame(byte, endOfPacket)]))
    else
      reg
  }

  // ---------------------------------------------------------------------
  // Remote side
  // ---------------------------------------------------------------------

  /** `list` holds, sorted, exactly the registered VVCs whose keys are not
      in `remaining`, each with its stored configuration. */
  ghost predicate Listed(reg: Registry, remaining: set<VvcKey>, list: seq<VvcInstance>) {
    && remaining <= reg.Keys
    && StrictlySorted(list)
    && KeysOfList(list) == reg.Keys - remaining
    && |list| == |reg.Keys - remaining|
    && (forall v :: v in list ==> KeyOf(v) in reg && v.cfg == reg[KeyOf(v)].cfg)
  }

  /** Listing one more key keeps `Listed`. */
  lemma {:induction false} ListedStep(reg: Registry, remaining: set<VvcKey>, list: seq<VvcInstance>, k: VvcKey)
    requires Listed(reg, remaining, list) && k in remaining
    ensures var v := VvcInstance(k.vvcType, k.channel, k.instanceId, reg[k].cfg);
      && StrictlySorted(list) && KeyOf(v) !in KeysOfList(list)
      && Listed(reg, remaining - {k}, InsertSorted(list, v))
  {
    var v := VvcInstance(k.vvcType, k.channel, k.instanceId, reg[k].cfg);
    assert KeyOf(v) == k;
    var list' := InsertSorted(list, v);
    KeysOfListByElements(list, list', v);
    assert reg.Keys - (remaining - {k}) == (reg.Keys - remaining) + {k};
  }

  /** `GetVvcList`: every registered VVC once, with the configuration stored
      for it, in the key order in which `std::map` is iterated. */
  method GetVvcList(reg: Registry) returns (response: JsonResponse)
    ensures response.success && response.result.InstanceArray?
    ensures var list := response.result.vvcs;
      && |list| == |reg|
      && KeysOfList(list) == reg.Keys
      && StrictlySorted(list)
      && (forall i :: 0 <= i < |list| ==>
            KeyOf(list[i]) in reg && list[i].cfg == reg[KeyOf(list[i])].cfg)
  {
    var remaining := reg.Keys;
    var list: seq<VvcInstance> := [];
    while remaining != {}
      invariant Listed(reg, remaining, list)
      decreases |remaining|
    {
      var k :| k in remaining;
      ListedStep(reg, remaining, list, k);
      list := InsertSorted(list, VvcInstance(k.vvcType, k.channel, k.instanceId, reg[k].cfg));
      remaining := remaining - {k};
    }
    assert reg.Keys - remaining == reg.Keys;
    forall i | 0 <= i < |list|
      ensures KeyOf(list[i]) in reg && list[i].cfg == reg[KeyOf(list[i])].cfg
    {
      assert list[i] in list;
    }
    response := JsonResponse(true, InstanceArray(list));
  }

  /** `TransmitBytes`: appends `data` to the transmit queue of a known VVC,
      in order and without end-of-packet marks. An unknown VVC gets an error
      naming type, channel and id, and nothing changes. */
  function TransmitBytes(reg: Registry, vvcType: string, id: int, data: seq<uint8>): (r: Step<JsonResponse>)
    ensures r.registry.Keys == reg.Keys
    ensures r.value.success <==> TransmitKey(vvcType, id) in reg
    ensures TransmitKey(vvcType, id) !in reg ==>
      && r.value.result == ErrorObject(NotFoundMessage(TransmitKey(vvcType, id)))
      && r.registry == reg
    ensures TransmitKey(vvcType, id) in reg ==>
      var key := TransmitKey(vvcType, id);
      && r.value.result == EmptyObject
      && r.registry[key].queues.transmit == reg[key].queues.transmit + Frames(data)
      && r.registry[key].queues.receive == reg[key].queues.receive
      && r.registry[key].cfg == reg[key].cfg
      && (forall k :: k in reg && k != key ==> r.registry[k] == reg[k])
  {
    var key := TransmitKey(vvcType, id);
    if key in reg then
      var q := reg[key].queues;
      Step(JsonResponse(true, EmptyObject), SetQueues(reg, key, q.(transmit := q.transmit + Frames(data))))
    else
      Step(JsonResponse(false, ErrorObject(NotFoundMessage(key))), reg)
  }

  /** `TransmitPacket`: not implemented; always fails, changes nothing. */
  function TransmitPacket(reg: Registry, vvcType: string, id: int, data: seq<uint8>): (r: Step<JsonResponse>)
    ensures !r.value.success && r.registry == reg
    ensures r.value.result == ErrorObject("Not implemented")
  {
    Step(JsonResponse(false, ErrorObject("Not implemented")), reg)
  }

  /** `ReceiveBytes`: takes up to `length` bytes from the front of the
      receive queue. With `allOrNothing`, fewer than `length` queued bytes
      give an empty answer and leave the queue alone; otherwise as many as
      are there, up to `length`, are taken. An unknown VVC gets an error.
      The length is compared with the queue size as a `size_t`. */
  function ReceiveBytes(reg: Registry, vvcType: string, id: int, length: int, allOrNothing: bool): (r: Step<JsonResponse>)
    ensures r.registry.Keys == reg.Keys
    ensures r.value.success <==> ReceiveKey(vvcType, id) in reg
    ensures ReceiveKey(vvcType, id) !in reg ==>
      && r.value.result == ErrorObject(NotFoundMessage(ReceiveKey(vvcType, id)))
      && r.registry == reg
    ensures ReceiveKey(vvcType, id) in reg ==>
      var key := ReceiveKey(vvcType, id);
      var queued := reg[key].queues.receive;
      && r.value.result.DataObject?
      && var data := r.value.result.data;
      && |data| == (if allOrNothing && |queued| < SizeOf(length) then 0 else Min(|queued|, SizeOf(length)))
      && data == Bytes(queued[..|data|])
      && r.registry[key].queues.receive == queued[|data|..]
      && r.registry[key].queues.transmit == reg[key].queues.transmit
      && r.registry[key].cfg == reg[key].cfg
      && (forall k :: k in reg && k != key ==> r.registry[k] == reg[k])
  {
    var key := ReceiveKey(vvcType, id);
    if key in reg then
      var q := reg[key].queues;
      var size := SizeOf(length);
      if |q.receive| == 0 || (allOrNothing && |q.receive| < size) then
        Step(JsonResponse(true, DataObject([])), reg)
      else
        var n := if |q.receive| > size then size else |q.receive|;
        Step(JsonResponse(true, DataObject(Bytes(q.receive[..n]))),
             SetQueues(reg, key, q.(receive := q.receive[n..])))
    else
      Step(JsonResponse(false, ErrorObject(NotFoundMessage(key))), reg)
  }

  /** `ReceivePacket`: not implemented; always fails, changes nothing. */
  function ReceivePacket(reg: Registry, vvcType: string, id: int): (r: Step<JsonResponse>)
    ensures !r.value.success && r.registry == reg
    ensures r.value.result == ErrorObject("Not implemented")
  {
    Step(JsonResponse(false, ErrorObject("Not implemented")), reg)
  }
}
