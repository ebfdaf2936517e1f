/** The 256-slot ring of sent packets of nn_seq.c, as a map from sequence numbers to records. */
module SentBuffer {
  import opened Bits

  /** nn_sent_record */
  datatype SentRecord = SentRecord(
    channelId: u8,
    channelSeq: u16,
    sendTimeNs: u64,
    size: u32,
    nackCount: u8,
    occupied: bool)

  datatype Option<T> = None | Some(value: T)

  /** The slot of a number: its low eight bits */
  function Slot(seq_: u16): (i: nat)
    ensures i == seq_ % 256
  {
    Pow2Values();
    AndLowMask(seq_, 8);
    DivModPow2(seq_, 8);
    And(seq_, 0xFF)
  }

  // ---- The map the ring stands for ----

  type Tracked = map<u16, SentRecord>

  /** No two tracked packets share a slot. */
  ghost predicate SlotsDistinct(m: Tracked) {
    forall s, t :: s in m && t in m && s % 256 == t % 256 ==> s == t
  }

  /** The tracked packet in the slot of seq_ other than seq_ itself, if there is one, is lost. */
  ghost function Inserted(m: Tracked, seq_: u16, record: SentRecord): Tracked {
    (map s | s in m && s % 256 != seq_ % 256 :: m[s])[seq_ := record.(occupied := true)]
  }

  ghost predicate Evicts(m: Tracked, seq_: u16) {
    exists s :: s in m && s % 256 == seq_ % 256 && s != seq_
  }

  /** One more nack, counted modulo 256 */
  function Bumped(r: SentRecord): SentRecord {
    r.(nackCount := ((r.nackCount as int) + 1) % 0x100)
  }

  /** A packet just inserted is found, any other is found as before unless it had the same slot. */
  lemma InsertedLookup(m: Tracked, seq_: u16, record: SentRecord, other: u16)
    ensures seq_ in Inserted(m, seq_, record) && Inserted(m, seq_, record)[seq_] == record.(occupied := true)
    ensures other != seq_ ==>
      (other in Inserted(m, seq_, record) <==> other in m && other % 256 != seq_ % 256)
      && (other in Inserted(m, seq_, record) ==> Inserted(m, seq_, record)[other] == m[other])
  {
  }

  lemma InsertedDistinct(m: Tracked, seq_: u16, record: SentRecord)
    requires SlotsDistinct(m)
    ensures SlotsDistinct(Inserted(m, seq_, record))
  {
  }

  lemma InsertedKeys(m: Tracked, seq_: u16, record: SentRecord, old_: u16)
    requires SlotsDistinct(m) && old_ in m && old_ % 256 == seq_ % 256
    ensures Inserted(m, seq_, record).Keys == m.Keys - {old_} + {seq_}
  {
    forall s ensures s in Inserted(m, seq_, record) <==> s in m.Keys - {old_} + {seq_} {
      if s in m && s % 256 == seq_ % 256 { assert s == old_; }
    }
  }

  /** Inserting adds one packet, and drops one exactly when it evicts or replaces one. */
  lemma InsertedSize(m: Tracked, seq_: u16, record: SentRecord)
    requires SlotsDistinct(m)
    ensures |Inserted(m, seq_, record)| == |m| + 1 - (if Evicts(m, seq_) || seq_ in m then 1 else 0)
  {
    if seq_ in m {
      ReplacedSize(m, seq_, record, seq_);
    } else if Evicts(m, seq_) {
      var s :| s in m && s % 256 == seq_ % 256 && s != seq_;
      ReplacedSize(m, seq_, record, s);
    } else {
      AddedSize(m, seq_, record);
    }
  }

  lemma ReplacedSize(m: Tracked, seq_: u16, record: SentRecord, old_: u16)
    requires SlotsDistinct(m) && old_ in m && old_ % 256 == seq_ % 256
    ensures |Inserted(m, seq_, record)| == |m|
  {
    var n := Inserted(m, seq_, record);
    InsertedKeys(m, seq_, record, old_);
    SwapSize(m.Keys, old_, seq_);
    assert |n| == |n.Keys| && |m| == |m.Keys|;
  }

  lemma AddedSize(m: Tracked, seq_: u16, record: SentRecord)
    requires forall s :: s in m ==> s % 256 != seq_ % 256
    ensures |Inserted(m, seq_, record)| == |m| + 1
  {
    var n := Inserted(m, seq_, record);
    assert n.Keys == m.Keys + {seq_};
    assert |n| == |n.Keys| && |m| == |m.Keys|;
  }

  lemma SwapSize(keys: set<u16>, s: u16, t: u16)
    requires s in keys && t !in keys - {s}
    ensures |keys - {s} + {t}| == |keys|
  {
  }

  class SentBuf {
    const entries: array<SentRecord>
    const seqNums: array<u16>
    var count: int
    ghost var tracked: Tracked

    /** The two arrays hold the map. */
    ghost predicate Stands()
      reads this, entries, seqNums
    {
      && entries.Length == 256 && seqNums.Length == 256
      && (forall i :: 0 <= i < 256 && entries[i].occupied ==> seqNums[i] % 256 == i)
      && (forall s: u16 :: s in tracked <==> Holds(s))
      && (forall s: u16 :: s in tracked ==> tracked[s] == entries[s % 256])
    }

    ghost predicate Valid()
      reads this, entries, seqNums
    {
      Stands() && count == |tracked|
    }

    ghost predicate Holds(s: u16)
      requires entries.Length == 256 && seqNums.Length == 256
      reads entries, seqNums
    {
      entries[s % 256].occupied && seqNums[s % 256] == s
    }

    /** nn_sent_buf_init */
    constructor ()
      ensures Valid() && fresh(entries) && fresh(seqNums) && tracked == map[]
    {
      entries := new SentRecord[256](i => SentRecord(0, 0, 0, 0, 0, false));
      seqNums := new u16[256](i => 0);
      count := 0;
      tracked := map[];
    }

    /** The slot of a number holds the only tracked packet that shares it, if there is one. */
    lemma SlotHolds(seq_: u16)
      requires Valid()
      ensures SlotsDistinct(tracked)
      ensures forall s :: s in tracked && s % 256 == seq_ % 256 ==>
                entries[seq_ % 256].occupied && s == seqNums[seq_ % 256]
      ensures Evicts(tracked, seq_) <==> entries[seq_ % 256].occupied && seqNums[seq_ % 256] != seq_
      ensures seq_ in tracked <==> entries[seq_ % 256].occupied && seqNums[seq_ % 256] == seq_
    {
      if entries[seq_ % 256].occupied {
        assert Holds(seqNums[seq_ % 256]);
      }
    }

    /** The record takes the slot of its number. */
    method Place(seq_: u16, record: SentRecord)
      requires Stands()
      modifies this`tracked, entries, seqNums
      ensures Stands() && tracked == Inserted(old(tracked), seq_, record)
    {
      var idx := Slot(seq_);
      tracked := Inserted(tracked, seq_, record);
      entries[idx] := record.(occupied := true);
      seqNums[idx] := seq_;
    }

    /** nn_sent_buf_insert: the number of packets evicted */
    method Insert(seq_: u16, record: SentRecord) returns (evicted: nat)
      requires Valid()
      modifies this, entries, seqNums
      ensures Valid() && tracked == Inserted(old(tracked), seq_, record)
      ensures evicted == if Evicts(old(tracked), seq_) then 1 else 0
    {
      var idx := Slot(seq_);
      var wasOccupied := entries[idx].occupied;
      var oldSeq := seqNums[idx];
      SlotHolds(seq_);
      InsertedSize(tracked, seq_, record);
      Place(seq_, record);
      if !wasOccupied {
        count := count + 1;
      }
      evicted := if wasOccupied && oldSeq != seq_ then 1 else 0;
    }

    /** nn_sent_buf_lookup */
    method Lookup(seq_: u16) returns (r: Option<SentRecord>)
      requires Valid()
      ensures r == if seq_ in tracked then Some(tracked[seq_]) else None
    {
      var idx := Slot(seq_);
      r := if entries[idx].occupied && seqNums[idx] == seq_ then Some(entries[idx]) else None;
      assert Holds(seq_) == r.Some?;
    }

    /** nn_sent_buf_delete */
    method Delete(seq_: u16) returns (deleted: bool)
      requires Valid()
      modifies this, entries
      ensures Valid() && tracked == old(tracked) - {seq_}
      ensures deleted <==> seq_ in old(tracked)
    {
      var idx := Slot(seq_);
      deleted := entries[idx].occupied && seqNums[idx] == seq_;
      assert Holds(seq_) == deleted;
      if deleted {
        entries[idx] := entries[idx].(occupied := false);
        count := count - 1;
        assert (tracked - {seq_}).Keys == tracked.Keys - {seq_};
        tracked := tracked - {seq_};
      } else {
        assert tracked - {seq_} == tracked;
      }
    }

    /** nn_sent_buf_lookup_mut, and one more nack for the record found */
    method BumpNack(seq_: u16) returns (nacks: u8)
      requires Valid() && seq_ in tracked
      modifies this, entries
      ensures Valid() && tracked == old(tracked)[seq_ := Bumped(old(tracked)[seq_])]
      ensures nacks == tracked[seq_].nackCount
    {
      var idx := Slot(seq_);
      entries[idx] := Bumped(entries[idx]);
      nacks := entries[idx].nackCount;
      tracked := tracked[seq_ := Bumped(tracked[seq_])];
      assert tracked.Keys == old(tracked).Keys;
    }
  }
}
