/** The map from packet numbers to channel messages of Connection.hs, and how a header resolves it. */
module AckMap {
  import opened Bits
  import opened AckProcess

  datatype ChannelAck = ChannelAck(channelId: u8, channelSeq: u16)

  type PacketMap = map<u16, ChannelAck>

  /** The right fold over the bits i to 31 of resolveChannelAcks: the pairs found, lowest bit first,
      and what is left of the map */
  function WalkBits(ackSeq: u16, bits: u32, m: PacketMap, i: nat): (seq<ChannelAck>, PacketMap)
    requires i <= 32
    decreases 32 - i, bits, ackSeq
  {
    if i == 32 then ([], m)
    else
      var (acc, rest) := WalkBits(ackSeq, bits, m, i + 1);
      var s := BitSeq(ackSeq, i);
      if Bit(bits, i) && s in rest then ([rest[s]] + acc, rest - {s}) else (acc, rest)
  }

  /** resolveChannelAcks */
  function ResolveChannelAcks(ackSeq: u16, bits: u32, m: PacketMap): (seq<ChannelAck>, PacketMap) {
    if ackSeq in m then
      var (found, rest) := WalkBits(ackSeq, bits, m - {ackSeq}, 0);
      ([m[ackSeq]] + found, rest)
    else
      WalkBits(ackSeq, bits, m, 0)
  }

  /** pruneAckMap */
  function PruneAckMap(ackSeq: u16, m: PacketMap): PacketMap {
    if |m| <= 256 then m
    else map k | k in m && (Behind(ackSeq, k) <= 128 || Behind(ackSeq, k) > 32768) :: m[k]
  }

  /** The numbers named by bits i to 31 */
  predicate NamedFrom(ackSeq: u16, bits: u32, i: nat, s: u16) {
    var d := Behind(ackSeq, s);
    i < d <= 32 && Bit(bits, d - 1)
  }

  lemma {:induction false} WalkBitsIs(ackSeq: u16, bits: u32, m: PacketMap, i: nat)
    requires i <= 32
    ensures var (found, rest) := WalkBits(ackSeq, bits, m, i);
      && rest == (map s | s in m && !NamedFrom(ackSeq, bits, i, s) :: m[s])
      && (forall p :: p in found <==> exists s :: s in m && NamedFrom(ackSeq, bits, i, s) && p == m[s])
    decreases 32 - i
  {
    if i != 32 {
      WalkBitsIs(ackSeq, bits, m, i + 1);
      BehindBitSeq(ackSeq, i);
      var (found, rest) := WalkBits(ackSeq, bits, m, i);
      var (found', rest') := WalkBits(ackSeq, bits, m, i + 1);
      var b := BitSeq(ackSeq, i);
      assert forall s ::
        NamedFrom(ackSeq, bits, i, s) <==> NamedFrom(ackSeq, bits, i + 1, s) || (Bit(bits, i) && s == b);
      assert !NamedFrom(ackSeq, bits, i + 1, b);
      forall p ensures p in found <==> exists s :: s in m && NamedFrom(ackSeq, bits, i, s) && p == m[s] {
        if p in found && p !in found' {
          assert b in m && NamedFrom(ackSeq, bits, i, b) && p == m[b];
        }
      }
    }
  }

  /** Exactly the mapped packets that the header names are resolved, and exactly they leave the map. */
  lemma ResolvedExactly(ackSeq: u16, bits: u32, m: PacketMap)
    ensures var (found, rest) := ResolveChannelAcks(ackSeq, bits, m);
      && rest == (map s | s in m && !Acked(ackSeq, bits, 32, s) :: m[s])
      && (forall p :: p in found <==> exists s :: s in m && Acked(ackSeq, bits, 32, s) && p == m[s])
  {
    BehindBitSeq(ackSeq, 0);
    WalkBitsIs(ackSeq, bits, m - {ackSeq}, 0);
    assert forall s :: Acked(ackSeq, bits, 32, s) <==> s == ackSeq || NamedFrom(ackSeq, bits, 0, s);
    if ackSeq !in m { assert m - {ackSeq} == m; }
    var (found, rest) := ResolveChannelAcks(ackSeq, bits, m);
    forall p ensures p in found <==> exists s :: s in m && Acked(ackSeq, bits, 32, s) && p == m[s] {
      if ackSeq in m && p == m[ackSeq] {
        assert Acked(ackSeq, bits, 32, ackSeq);
      } else if p in found {
        var s :| s in m - {ackSeq} && NamedFrom(ackSeq, bits, 0, s) && p == m[s];
      }
    }
  }

  // ---- The order in which messages are acknowledged ----

  /** The found messages are those mapped to the keys, the newest packet first. */
  ghost predicate InOrder(ackSeq: u16, m: PacketMap, found: seq<ChannelAck>, keys: seq<u16>) {
    && |keys| == |found|
    && (forall i :: 0 <= i < |keys| ==> keys[i] in m && found[i] == m[keys[i]])
    && forall i, j :: 0 <= i < j < |keys| ==> Behind(ackSeq, keys[i]) < Behind(ackSeq, keys[j])
  }

  lemma FrontInOrder(ackSeq: u16, m: PacketMap, found: seq<ChannelAck>, keys: seq<u16>, s: u16)
    requires InOrder(ackSeq, m, found, keys) && s in m
    requires forall i :: 0 <= i < |keys| ==> Behind(ackSeq, s) < Behind(ackSeq, keys[i])
    ensures InOrder(ackSeq, m, [m[s]] + found, [s] + keys)
  {
  }

  lemma {:induction false} WalkInOrder(ackSeq: u16, bits: u32, m: PacketMap, i: nat) returns (keys: seq<u16>)
    requires i <= 32
    ensures InOrder(ackSeq, m, WalkBits(ackSeq, bits, m, i).0, keys)
    ensures forall s :: s in keys <==> s in m && NamedFrom(ackSeq, bits, i, s)
    decreases 32 - i
  {
    if i == 32 {
      keys := [];
    } else {
      var rest := WalkInOrder(ackSeq, bits, m, i + 1);
      var b := BitSeq(ackSeq, i);
      BehindBitSeq(ackSeq, i);
      WalkBitsIs(ackSeq, bits, m, i + 1);
      if Bit(bits, i) && b in m {
        forall k | 0 <= k < |rest| ensures Behind(ackSeq, b) < Behind(ackSeq, rest[k]) {
          assert rest[k] in rest;
        }
        FrontInOrder(ackSeq, m, WalkBits(ackSeq, bits, m, i + 1).0, rest, b);
        keys := [b] + rest;
      } else {
        keys := rest;
      }
      NamedSteps(ackSeq, bits, i, b);
    }
  }

  lemma NamedSteps(ackSeq: u16, bits: u32, i: nat, b: u16)
    requires i < 32 && b == BitSeq(ackSeq, i)
    ensures forall s :: NamedFrom(ackSeq, bits, i, s) <==> NamedFrom(ackSeq, bits, i + 1, s) || (Bit(bits, i) && s == b)
  {
    BehindBitSeq(ackSeq, i);
  }

  /** Each named mapped packet yields its message once, the newest first. */
  lemma ResolvedInOrder(ackSeq: u16, bits: u32, m: PacketMap) returns (keys: seq<u16>)
    ensures InOrder(ackSeq, m, ResolveChannelAcks(ackSeq, bits, m).0, keys)
    ensures forall s :: s in keys <==> s in m && Acked(ackSeq, bits, 32, s)
  {
    BehindBitSeq(ackSeq, 0);
    assert forall s :: Acked(ackSeq, bits, 32, s) <==> s == ackSeq || NamedFrom(ackSeq, bits, 0, s);
    keys := WalkInOrder(ackSeq, bits, m - {ackSeq}, 0);
    if ackSeq in m {
      forall k | 0 <= k < |keys| ensures Behind(ackSeq, ackSeq) < Behind(ackSeq, keys[k]) {
        assert keys[k] in keys;
      }
      FrontInOrder(ackSeq, m, WalkBits(ackSeq, bits, m - {ackSeq}, 0).0, keys, ackSeq);
      keys := [ackSeq] + keys;
    } else {
      assert m - {ackSeq} == m;
    }
  }
}
