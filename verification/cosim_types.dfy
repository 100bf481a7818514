/** The records the co-simulation bridge keeps per VVC, and the ordering
    `VvcCompare` that makes (type, channel, instance id) the identity of a VVC
    in the registry. */
module CosimTypes {
  import Lexical
  import VvcConfig

  /** `uint8_t`. */
  newtype uint8 = x: int | 0 <= x < 0x100

  /** One queued byte with its end-of-packet flag (`std::pair<uint8_t, bool>`). */
  datatype ByteFrame = ByteFrame(data: uint8, endOfPacket: bool)

  /** `VvcQueues`: the transmit and receive queues of one VVC. */
  datatype VvcQueues = VvcQueues(transmit: seq<ByteFrame>, receive: seq<ByteFrame>)

  /** `VvcInstance`: a VVC as the simulation describes it. */
  datatype VvcInstance = VvcInstance(
    vvcType: string,
    channel: string,
    instanceId: int,
    cfg: VvcConfig.Config)

  /** The part of a `VvcInstance` that identifies it. */
  datatype VvcKey = VvcKey(vvcType: string, channel: string, instanceId: int)

  /** The smaller of two sizes (`std::min`). */
  function Min(a: nat, b: nat): (m: nat)
    ensures m <= a && m <= b && (m == a || m == b)
  {
    if a <= b then a else b
  }

  function KeyOf(v: VvcInstance): VvcKey {
    VvcKey(v.vvcType, v.channel, v.instanceId)
  }

  /** `VvcCompare::operator()`: the strict "less than" `std::map` uses. The
      configuration is never looked at. */
  function VvcCompare(lhs: VvcInstance, rhs: VvcInstance): (less: bool)
    ensures less ==> KeyOf(lhs) != KeyOf(rhs)
    ensures lhs.vvcType == rhs.vvcType && lhs.channel == rhs.channel ==>
      (less <==> lhs.instanceId < rhs.instanceId)
  {
    if Lexical.Less(lhs.vvcType, rhs.vvcType) then true
    else if Lexical.Less(rhs.vvcType, lhs.vvcType) then false
    else if Lexical.Less(lhs.channel, rhs.channel) then true
    else if Lexical.Less(rhs.channel, lhs.channel) then false
    else lhs.instanceId < rhs.instanceId
  }

  /** Neither instance is less than the other: the same key for `std::map`. */
  predicate Equivalent(a: VvcInstance, b: VvcInstance) {
    !VvcCompare(a, b) && !VvcCompare(b, a)
  }

  lemma {:induction false} VvcCompareIrreflexive(a: VvcInstance)
    ensures !VvcCompare(a, a)
  {
    Lexical.LessIrreflexive(a.vvcType);
    Lexical.LessIrreflexive(a.channel);
  }

  /** `VvcCompare` is the lexicographic order on (type, channel, id). */
  lemma {:induction false} VvcCompareIsLexicographic(a: VvcInstance, b: VvcInstance)
    ensures VvcCompare(a, b) <==>
      || Lexical.Less(a.vvcType, b.vvcType)
      || (a.vvcType == b.vvcType && Lexical.Less(a.channel, b.channel))
      || (a.vvcType == b.vvcType && a.channel == b.channel && a.instanceId < b.instanceId)
  {
    Lexical.LessTrichotomous(a.vvcType, b.vvcType);
    Lexical.LessTrichotomous(a.channel, b.channel);
    Lexical.LessIrreflexive(a.vvcType);
    Lexical.LessIrreflexive(a.channel);
    Lexical.LessAsymmetric(a.vvcType, b.vvcType);
  }

  lemma {:induction false} VvcCompareAsymmetric(a: VvcInstance, b: VvcInstance)
    ensures VvcCompare(a, b) ==> !VvcCompare(b, a)
  {
    VvcCompareIsLexicographic(a, b);
    VvcCompareIsLexicographic(b, a);
    Lexical.LessAsymmetric(a.vvcType, b.vvcType);
    Lexical.LessAsymmetric(a.channel, b.channel);
    Lexical.LessIrreflexive(a.vvcType);
    Lexical.LessIrreflexive(a.channel);
  }

  lemma {:induction false} VvcCompareTransitive(a: VvcInstance, b: VvcInstance, c: VvcInstance)
    requires VvcCompare(a, b) && VvcCompare(b, c)
    ensures VvcCompare(a, c)
  {
    VvcCompareIsLexicographic(a, b);
    VvcCompareIsLexicographic(b, c);
    VvcCompareIsLexicographic(a, c);
    if Lexical.Less(a.vvcType, b.vvcType) && Lexical.Less(b.vvcType, c.vvcType) {
      Lexical.LessTransitive(a.vvcType, b.vvcType, c.vvcType);
    }
    if Lexical.Less(a.channel, b.channel) && Lexical.Less(b.channel, c.channel) {
      Lexical.LessTransitive(a.channel, b.channel, c.channel);
    }
  }

  /** Two instances are the same registry key exactly when their
      (type, channel, id) triples are equal. */
  lemma {:induction false} EquivalentIffSameKey(a: VvcInstance, b: VvcInstance)
    ensures Equivalent(a, b) <==> KeyOf(a) == KeyOf(b)
  {
    VvcCompareIsLexicographic(a, b);
    VvcCompareIsLexicographic(b, a);
    Lexical.LessTrichotomous(a.vvcType, b.vvcType);
    Lexical.LessTrichotomous(a.channel, b.channel);
    Lexical.LessIrreflexive(a.vvcType);
    Lexical.LessIrreflexive(a.channel);
  }

  /** Equivalence under `VvcCompare` is transitive, so `std::map` sees a
      strict weak ordering. */
  lemma {:induction false} EquivalenceTransitive(a: VvcInstance, b: VvcInstance, c: VvcInstance)
    requires Equivalent(a, b) && Equivalent(b, c)
    ensures Equivalent(a, c)
  {
    EquivalentIffSameKey(a, b);
    EquivalentIffSameKey(b, c);
    EquivalentIffSameKey(a, c);
  }

  /** The configuration plays no part in the ordering. */
  lemma {:induction false} VvcCompareIgnoresConfig(a: VvcInstance, b: VvcInstance, cfgA: VvcConfig.Config, cfgB: VvcConfig.Config)
    ensures VvcCompare(a, b) == VvcCompare(a.(cfg := cfgA), b.(cfg := cfgB))
    ensures Equivalent(a, a.(cfg := cfgA))
  {
    EquivalentIffSameKey(a, a.(cfg := cfgA));
  }

  /** Instances with different keys are ordered one way or the other. */
  lemma {:induction false} VvcCompareTotalOnKeys(a: VvcInstance, b: VvcInstance)
    requires KeyOf(a) != KeyOf(b)
    ensures VvcCompare(a, b) || VvcCompare(b, a)
  {
    EquivalentIffSameKey(a, b);
  }

  /** A list in strictly increasing `VvcCompare` order, as iterating a
      `std::map` yields its keys. */
  predicate StrictlySorted(list: seq<VvcInstance>) {
    forall i, j :: 0 <= i < j < |list| ==> VvcCompare(list[i], list[j])
  }

  function KeysOfList(list: seq<VvcInstance>): set<VvcKey> {
    set i | 0 <= i < |list| :: KeyOf(list[i])
  }

  /** In a strictly sorted list no key occurs twice. */
  lemma {:induction false} SortedHasDistinctKeys(list: seq<VvcInstance>)
    requires StrictlySorted(list)
    ensures forall i, j :: 0 <= i < j < |list| ==> KeyOf(list[i]) != KeyOf(list[j])
  {
    forall i, j | 0 <= i < j < |list|
      ensures KeyOf(list[i]) != KeyOf(list[j])
    {
      EquivalentIffSameKey(list[i], list[j]);
      VvcCompareAsymmetric(list[i], list[j]);
    }
  }

  lemma {:induction false} KeysOfListByElements(list: seq<VvcInstance>, other: seq<VvcInstance>, v: VvcInstance)
    requires forall x :: x in other <==> x in list || x == v
    ensures KeysOfList(other) == KeysOfList(list) + {KeyOf(v)}
  {
    forall k | k in KeysOfList(other) ensures k in KeysOfList(list) + {KeyOf(v)} {
      var i :| 0 <= i < |other| && KeyOf(other[i]) == k;
      assert other[i] in other;
      if other[i] != v {
        assert other[i] in list;
        var j :| 0 <= j < |list| && list[j] == other[i];
      }
    }
    forall k | k in KeysOfList(list) + {KeyOf(v)} ensures k in KeysOfList(other) {
      if k in KeysOfList(list) {
        var i :| 0 <= i < |list| && KeyOf(list[i]) == k;
        assert list[i] in list;
        assert list[i] in other;
        var j :| 0 <= j < |other| && other[j] == list[i];
      } else {
        assert v in other;
        var j :| 0 <= j < |other| && other[j] == v;
      }
    }
  }

  /** `v`, smaller than the head of a sorted list, can go in front of it. */
  lemma {:induction false} PrependSorted(v: VvcInstance, list: seq<VvcInstance>)
    requires StrictlySorted(list)
    requires |list| > 0 ==> VvcCompare(v, list[0])
    ensures StrictlySorted([v] + list)
  {
    var r := [v] + list;
    forall i, j | 0 <= i < j < |r| ensures VvcCompare(r[i], r[j]) {
      if i == 0 && j > 1 {
        VvcCompareTransitive(v, list[0], list[j - 1]);
      }
    }
  }

  /** Inserts `v` into a sorted list at its place. */
  function InsertSorted(list: seq<VvcInstance>, v: VvcInstance): (r: seq<VvcInstance>)
    requires StrictlySorted(list)
    requires KeyOf(v) !in KeysOfList(list)
    ensures StrictlySorted(r)
    ensures |r| == |list| + 1
    ensures forall x :: x in r <==> x in list || x == v
    decreases |list|
  {
    if |list| == 0 then [v]
    else if VvcCompare(v, list[0]) then
      PrependSorted(v, list);
      [v] + list
    else
      assert KeyOf(list[0]) in KeysOfList(list);
      VvcCompareTotalOnKeys(v, list[0]);
      var rest := list[1..];
      assert KeyOf(v) !in KeysOfList(rest) by {
        assert forall i :: 0 <= i < |rest| ==> rest[i] == list[i + 1];
      }
      var tail := InsertSorted(rest, v);
      assert tail[0] in rest || tail[0] == v;
      PrependSorted(list[0], tail);
      assert list == [list[0]] + rest;
      [list[0]] + tail
  }
}
