/** Splitting of large messages and bounded-memory reassembly, as in Fragment.hs. */
module Fragment {
  import opened Bits
  import opened Clock
  import opened IntMap
  import Wire

  type Bytes = seq<u8>

  const HEADER_SIZE: nat := 6
  const MAX_COUNT := 255

  // ---- Header ----

  datatype FragmentHeader = FragmentHeader(messageId: u32, index: u8, count: u8)

  function EncodeHeader(h: FragmentHeader): (b: Bytes)
    ensures |b| == HEADER_SIZE
  {
    Wire.LeBytes(h.messageId, 4) + [h.index, h.count]
  }

  function DecodeHeader(b: Bytes): Option<FragmentHeader> {
    if |b| < HEADER_SIZE then None
    else
      Wire.LeBound(b[..4]);
      Wire.Pow256Values();
      Some(FragmentHeader(Wire.Le(b[..4]), b[4], b[5]))
  }

  lemma DecodeEncode(h: FragmentHeader, data: Bytes)
    ensures DecodeHeader(EncodeHeader(h) + data) == Some(h)
  {
    var b := EncodeHeader(h) + data;
    assert b[..4] == Wire.LeBytes(h.messageId, 4);
    Wire.LeOfLeBytes(h.messageId, 4);
    Wire.Pow256Values();
  }

  /** A header is the message number in four bytes, the lowest first, then the index, then the count. */
  lemma HeaderLayout(h: FragmentHeader)
    ensures var b := EncodeHeader(h);
      |b| == 6 && Wire.Le(b[..4]) == h.messageId && b[4] == h.index && b[5] == h.count
  {
    var b := EncodeHeader(h);
    assert b[..4] == Wire.LeBytes(h.messageId, 4);
    Wire.LeOfLeBytes(h.messageId, 4);
    Wire.Pow256Values();
  }

  // ---- Splitting ----

  datatype SplitResult = TooManyFragments | Fragments(fragments: seq<Bytes>)

  /** BS.take and BS.drop */
  function Take(s: Bytes, n: nat): Bytes {
    if n <= |s| then s[..n] else s
  }

  function Skip(s: Bytes, n: nat): Bytes {
    if n <= |s| then s[n..] else []
  }

  function FragmentCount(length: nat, maxPayload: nat): nat
    requires maxPayload > 0
  {
    (length + maxPayload - 1) / maxPayload
  }

  function Chunk(payload: Bytes, maxPayload: nat, i: nat): Bytes {
    Take(Skip(payload, i * maxPayload), maxPayload)
  }

  /** splitMessage */
  function SplitMessage(messageId: u32, payload: Bytes, maxPayload: int): SplitResult {
    if maxPayload <= 0 then TooManyFragments
    else
      var count := FragmentCount(|payload|, maxPayload);
      if count > MAX_COUNT then TooManyFragments
      else if |payload| == 0 then Fragments([])
      else Fragments(seq(count, i requires 0 <= i < count =>
                       EncodeHeader(FragmentHeader(messageId, i, count)) + Chunk(payload, maxPayload, i)))
  }

  // ---- The assembler ----

  datatype FragmentBuffer = FragmentBuffer(fragments: IntMap<Bytes>, count: u8, createdAt: u64, totalSize: int)

  datatype Assembler = Assembler(
    buffers: IntMap<FragmentBuffer>,
    timeoutNs: u64,
    maxBufferSize: int,
    currentSize: int,
    completed: nat,
    timedOut: nat)

  /** newFragmentAssembler */
  function NewAssembler(timeoutNs: u64, maxBufferSize: int): Assembler {
    Assembler(map[], timeoutNs, maxBufferSize, 0, 0, 0)
  }

  function CreationTimes(buffers: IntMap<FragmentBuffer>): (t: IntMap<u64>)
    ensures t.Keys == buffers.Keys
  {
    map k | k in buffers :: buffers[k].createdAt
  }

  function Sizes(buffers: IntMap<FragmentBuffer>): (t: IntMap<int>)
    ensures t.Keys == buffers.Keys
  {
    map k | k in buffers :: buffers[k].totalSize
  }

  /** findOldestBuffer */
  function FindOldest(buffers: IntMap<FragmentBuffer>): (k: int)
    requires |buffers| > 0
    ensures IsOldest(CreationTimes(buffers), k)
  {
    assert |CreationTimes(buffers)| == |CreationTimes(buffers).Keys| == |buffers|;
    Oldest(CreationTimes(buffers))
  }

  function Evicted(asm: Assembler, k: int): Assembler
    requires k in asm.buffers
  {
    asm.(buffers := asm.buffers - {k}, currentSize := asm.currentSize - asm.buffers[k].totalSize,
      timedOut := asm.timedOut + 1)
  }

  /** evictIfNeeded: each step removes a buffer, so it ends. */
  function EvictIfNeeded(asm: Assembler): Assembler
    decreases |asm.buffers|
  {
    if asm.currentSize <= asm.maxBufferSize then asm
    else if |asm.buffers| == 0 then asm
    else
      var k := FindOldest(asm.buffers);
      RemovedSize(asm.buffers, k);
      EvictIfNeeded(Evicted(asm, k))
  }

  /** The fragments in index order, one after the other */
  function Join(fragments: IntMap<Bytes>, keys: seq<int>): Bytes
    requires forall i :: 0 <= i < |keys| ==> keys[i] in fragments
  {
    if keys == [] then [] else fragments[keys[0]] + Join(fragments, keys[1..])
  }

  function TryComplete(key: int, asm: Assembler): (Option<Bytes>, Assembler) {
    if key !in asm.buffers then (None, asm)
    else
      var buf := asm.buffers[key];
      if |buf.fragments| == buf.count as int then
        (Some(Join(buf.fragments, Ascending(buf.fragments.Keys))),
         asm.(buffers := asm.buffers - {key}, currentSize := asm.currentSize - buf.totalSize,
           completed := asm.completed + 1))
      else (None, asm)
  }

  function WithBuffer(key: int, buf: FragmentBuffer, added: nat, asm: Assembler): Assembler {
    asm.(buffers := asm.buffers[key := buf], currentSize := asm.currentSize + added)
  }

  function Extended(buf: FragmentBuffer, index: int, data: Bytes): FragmentBuffer {
    buf.(fragments := buf.fragments[index := data], totalSize := buf.totalSize + |data|)
  }

  /** insertFragment */
  function InsertFragment(key: int, index: int, count: u8, data: Bytes, now: u64,
      asm: Assembler): (Option<Bytes>, Assembler) {
    if key !in asm.buffers then
      var buf := FragmentBuffer(map[index := data], count, now, |data|);
      TryComplete(key, EvictIfNeeded(WithBuffer(key, buf, |data|, asm)))
    else
      var buf := asm.buffers[key];
      if buf.count != count then (None, asm)
      else if index in buf.fragments then (None, asm)
      else TryComplete(key, EvictIfNeeded(WithBuffer(key, Extended(buf, index, data), |data|, asm)))
  }

  /** onFragmentReceived */
  function OnFragment(raw: Bytes, now: u64, asm: Assembler): (Option<Bytes>, Assembler) {
    match DecodeHeader(raw)
    case None => (None, asm)
    case Some(h) =>
      if h.count == 0 || h.index >= h.count then (None, asm)
      else InsertFragment(h.messageId, h.index, h.count, Skip(raw, HEADER_SIZE), now, asm)
  }

  function Expired(now: u64, asm: Assembler): IntMap<FragmentBuffer> {
    map k | k in asm.buffers && Elapsed(asm.buffers[k].createdAt, now) >= asm.timeoutNs :: asm.buffers[k]
  }

  /** assemblerUpdate */
  function Update(now: u64, asm: Assembler): Assembler {
    var expired := Expired(now, asm);
    asm.(buffers := asm.buffers - expired.Keys,
         currentSize := asm.currentSize - Sum(Sizes(expired)),
         timedOut := asm.timedOut + |expired|)
  }

  /** A tick leaves exactly the buffers younger than the timeout. */
  lemma UpdateLeaves(now: u64, asm: Assembler, k: int)
    ensures k in Update(now, asm).buffers
       <==> k in asm.buffers && Elapsed(asm.buffers[k].createdAt, now) < asm.timeoutNs
    ensures k in Update(now, asm).buffers ==> Update(now, asm).buffers[k] == asm.buffers[k]
  {
  }

  // ---- What every step keeps ----

  function Lengths(fragments: IntMap<Bytes>): (t: IntMap<int>)
    ensures t.Keys == fragments.Keys
  {
    map k | k in fragments :: |fragments[k]|
  }

  /** The size of a buffer is the sum of its fragments, which are not all there yet. */
  ghost predicate BufferOk(buf: FragmentBuffer, missing: bool) {
    && buf.totalSize == Sum(Lengths(buf.fragments))
    && (forall i :: i in buf.fragments ==> 0 <= i < buf.count as int)
    && (missing ==> |buf.fragments| < buf.count as int)
  }

  /** Every buffer is as it should be, except that the one under `key` may be complete. */
  ghost predicate Stored(asm: Assembler, key: int) {
    && asm.currentSize == Sum(Sizes(asm.buffers))
    && forall k :: k in asm.buffers ==> BufferOk(asm.buffers[k], k != key)
  }

  /** The memory in use is the sum of what is stored, and within the limit. */
  ghost predicate Inv(asm: Assembler) {
    && asm.currentSize == Sum(Sizes(asm.buffers))
    && (forall k :: k in asm.buffers ==> BufferOk(asm.buffers[k], true))
    && asm.currentSize <= Limit(asm)
  }

  lemma BufferSize(buf: FragmentBuffer, missing: bool)
    requires BufferOk(buf, missing)
    ensures buf.totalSize >= 0
  {
    SumNonNegative(Lengths(buf.fragments));
  }

  lemma SizesWithout(buffers: IntMap<FragmentBuffer>, k: int)
    requires k in buffers
    ensures Sum(Sizes(buffers - {k})) == Sum(Sizes(buffers)) - buffers[k].totalSize
  {
    SumWithout(Sizes(buffers), k);
    assert Sizes(buffers - {k}) == Sizes(buffers) - {k};
  }

  lemma SizesWith(buffers: IntMap<FragmentBuffer>, k: int, buf: FragmentBuffer)
    ensures Sum(Sizes(buffers[k := buf]))
      == Sum(Sizes(buffers)) + buf.totalSize - (if k in buffers then buffers[k].totalSize else 0)
  {
    if k in buffers {
      SizesWithout(buffers, k);
    } else {
      assert buffers - {k} == buffers;
    }
    assert buffers[k := buf] - {k} == buffers - {k};
    SizesWithout(buffers[k := buf], k);
  }

  function Limit(asm: Assembler): nat {
    if asm.maxBufferSize < 0 then 0 else asm.maxBufferSize
  }

  /** From asm to r, only buffers were removed, each counted as timed out. */
  ghost predicate OnlyEvicted(asm: Assembler, r: Assembler) {
    && r.timeoutNs == asm.timeoutNs && r.maxBufferSize == asm.maxBufferSize && r.completed == asm.completed
    && r.timedOut - asm.timedOut == |asm.buffers| - |r.buffers| >= 0
  }

  lemma EvictedKeeps(asm: Assembler, k: int, key: int)
    requires Stored(asm, key) && k in asm.buffers
    ensures Stored(Evicted(asm, k), key) && OnlyEvicted(asm, Evicted(asm, k))
  {
    RemovedSize(asm.buffers, k);
    SizesWithout(asm.buffers, k);
  }

  /** Eviction keeps the sum, ends within the limit, and counts what it removes. */
  lemma {:induction false} EvictKeeps(asm: Assembler, key: int)
    requires Stored(asm, key)
    ensures var r := EvictIfNeeded(asm); Stored(r, key) && r.currentSize <= Limit(asm) && OnlyEvicted(asm, r)
    decreases |asm.buffers|
  {
    if asm.currentSize > asm.maxBufferSize {
      if |asm.buffers| == 0 {
        assert Sizes(asm.buffers).Keys == {};
      } else {
        var k := FindOldest(asm.buffers);
        RemovedSize(asm.buffers, k);
        EvictedKeeps(asm, k, key);
        EvictKeeps(Evicted(asm, k), key);
      }
    }
  }

  /** An eviction takes place exactly when the memory is over the limit, and then takes an oldest buffer,
      the one with the least key among those. */
  lemma EvictsOldest(asm: Assembler, k: int)
    requires |asm.buffers| > 0
    ensures asm.currentSize <= asm.maxBufferSize ==> EvictIfNeeded(asm) == asm
    ensures asm.currentSize > asm.maxBufferSize && IsOldest(CreationTimes(asm.buffers), k)
        ==> EvictIfNeeded(asm) == EvictIfNeeded(Evicted(asm, k))
  {
    var oldest := FindOldest(asm.buffers);
    if IsOldest(CreationTimes(asm.buffers), k) {
      OldestUnique(CreationTimes(asm.buffers), k, oldest);
    }
  }

  lemma CompleteKeeps(key: int, asm: Assembler)
    requires Stored(asm, key) && asm.currentSize <= Limit(asm)
    requires key in asm.buffers ==> |asm.buffers[key].fragments| <= asm.buffers[key].count as int
    ensures var r := TryComplete(key, asm).1;
      Inv(r) && r.timedOut == asm.timedOut && r.maxBufferSize == asm.maxBufferSize
      && r.completed - asm.completed == |asm.buffers| - |r.buffers|
  {
    if key in asm.buffers {
      RemovedSize(asm.buffers, key);
      SizesWithout(asm.buffers, key);
      BufferSize(asm.buffers[key], false);
    }
  }

  lemma FragmentsFit(fragments: IntMap<Bytes>, count: nat)
    requires forall i :: i in fragments ==> 0 <= i < count
    ensures |fragments| <= count
  {
    FirstKeysSize(count);
    SubsetSize(fragments.Keys, FirstKeys(count));
  }

  lemma {:induction false} SubsetSize(a: set<int>, b: set<int>)
    requires a <= b
    ensures |a| <= |b|
    ensures |a| == |b| ==> a == b
  {
    assert b == a + (b - a);
    assert |b| == |a| + |b - a|;
  }

  /** Buffers created are still pending, or completed, or timed out or evicted. */
  function Created(asm: Assembler): nat {
    asm.completed + asm.timedOut + |asm.buffers|
  }

  lemma WithKeeps(key: int, buf: FragmentBuffer, added: nat, asm: Assembler)
    requires Inv(asm) && BufferOk(buf, false)
    requires added == buf.totalSize - (if key in asm.buffers then asm.buffers[key].totalSize else 0)
    ensures var w := WithBuffer(key, buf, added, asm);
      Stored(w, key) && Created(w) == Created(asm) + (if key in asm.buffers then 0 else 1)
  {
    SizesWith(asm.buffers, key, buf);
    InsertedSize(asm.buffers, key, buf);
  }

  lemma EvictThenComplete(key: int, asm: Assembler)
    requires Stored(asm, key)
    ensures var r := TryComplete(key, EvictIfNeeded(asm)).1;
      Inv(r) && r.maxBufferSize == asm.maxBufferSize && Created(r) == Created(asm)
  {
    EvictKeeps(asm, key);
    var r := EvictIfNeeded(asm);
    if key in r.buffers {
      FragmentsFit(r.buffers[key].fragments, r.buffers[key].count);
    }
    CompleteKeeps(key, r);
  }

  lemma StoreKeeps(key: int, buf: FragmentBuffer, added: nat, asm: Assembler)
    requires Inv(asm) && BufferOk(buf, false)
    requires added == buf.totalSize - (if key in asm.buffers then asm.buffers[key].totalSize else 0)
    ensures var r := TryComplete(key, EvictIfNeeded(WithBuffer(key, buf, added, asm))).1;
      Inv(r) && r.maxBufferSize == asm.maxBufferSize
      && Created(r) == Created(asm) + (if key in asm.buffers then 0 else 1)
  {
    WithKeeps(key, buf, added, asm);
    EvictThenComplete(key, WithBuffer(key, buf, added, asm));
  }

  // ---- Whole steps and runs ----

  datatype Step = Arrives(raw: Bytes, now: u64) | Ticks(now: u64)

  function Next(asm: Assembler, s: Step): Assembler {
    match s
    case Arrives(raw, now) => OnFragment(raw, now, asm).1
    case Ticks(now) => Update(now, asm)
  }

  /** The step starts the reassembly of a message. */
  predicate Creates(asm: Assembler, s: Step) {
    match s
    case Ticks(_) => false
    case Arrives(raw, _) =>
      match DecodeHeader(raw)
      case None => false
      case Some(h) => h.index < h.count && h.messageId as int !in asm.buffers
  }

  lemma SingletonOk(index: int, count: u8, data: Bytes, now: u64)
    requires 0 <= index < count as int
    ensures BufferOk(FragmentBuffer(map[index := data], count, now, |data|), false)
  {
    var lengths := Lengths(map[index := data]);
    assert lengths == map[index := |data|];
    SumWithout(lengths, index);
    assert lengths - {index} == map[];
    assert Sum(map[]) == 0;
  }

  lemma ExtendedOk(buf: FragmentBuffer, index: int, data: Bytes)
    requires BufferOk(buf, true) && index !in buf.fragments && 0 <= index < buf.count as int
    ensures BufferOk(Extended(buf, index, data), false)
  {
    SumWith(Lengths(buf.fragments), index, |data|);
    assert Lengths(buf.fragments[index := data]) == Lengths(buf.fragments)[index := |data|];
  }

  lemma InsertKeeps(key: int, index: int, count: u8, data: Bytes, now: u64, asm: Assembler)
    requires Inv(asm) && 0 <= index < count as int
    ensures var r := InsertFragment(key, index, count, data, now, asm).1;
      Inv(r) && r.maxBufferSize == asm.maxBufferSize
      && Created(r) == Created(asm) + (if key in asm.buffers then 0 else 1)
  {
    if key !in asm.buffers {
      SingletonOk(index, count, data, now);
      StoreKeeps(key, FragmentBuffer(map[index := data], count, now, |data|), |data|, asm);
    } else {
      var buf := asm.buffers[key];
      if buf.count == count && index !in buf.fragments {
        ExtendedOk(buf, index, data);
        StoreKeeps(key, Extended(buf, index, data), |data|, asm);
      }
    }
  }

  lemma ExpiredSizes(asm: Assembler, expired: IntMap<FragmentBuffer>)
    requires Inv(asm) && expired.Keys <= asm.buffers.Keys && forall k :: k in expired ==> expired[k] == asm.buffers[k]
    ensures Sum(Sizes(asm.buffers)) == Sum(Sizes(expired)) + Sum(Sizes(asm.buffers - expired.Keys))
    ensures Sum(Sizes(expired)) >= 0
  {
    SumParts(Sizes(asm.buffers), Sizes(expired));
    assert Sizes(asm.buffers) - Sizes(expired).Keys == Sizes(asm.buffers - expired.Keys);
    forall k | k in expired ensures Sizes(expired)[k] >= 0 {
      BufferSize(asm.buffers[k], true);
    }
    SumNonNegative(Sizes(expired));
  }

  lemma UpdateKeeps(now: u64, asm: Assembler)
    requires Inv(asm)
    ensures Inv(Update(now, asm)) && Created(Update(now, asm)) == Created(asm)
  {
    ExpiredSizes(asm, Expired(now, asm));
    SplitSize(asm.buffers, Expired(now, asm).Keys);
  }

  /** Every step keeps the account of the memory, its bound, and the account of the buffers. */
  lemma NextKeeps(asm: Assembler, s: Step)
    requires Inv(asm)
    ensures Inv(Next(asm, s)) && Next(asm, s).maxBufferSize == asm.maxBufferSize
    ensures Created(Next(asm, s)) == Created(asm) + (if Creates(asm, s) then 1 else 0)
  {
    match s
    case Ticks(now) => UpdateKeeps(now, asm);
    case Arrives(raw, now) => ArrivalKeeps(asm, raw, now);
  }

  lemma ArrivalKeeps(asm: Assembler, raw: Bytes, now: u64)
    requires Inv(asm)
    ensures var r := OnFragment(raw, now, asm).1;
      Inv(r) && r.maxBufferSize == asm.maxBufferSize
      && Created(r) == Created(asm) + (if Creates(asm, Arrives(raw, now)) then 1 else 0)
  {
    if DecodeHeader(raw).Some? {
      var h := DecodeHeader(raw).value;
      if h.index < h.count {
        InsertKeeps(h.messageId, h.index, h.count, Skip(raw, HEADER_SIZE), now, asm);
      }
    }
  }

  function After(asm: Assembler, steps: seq<Step>): Assembler
    decreases |steps|
  {
    if steps == [] then asm else After(Next(asm, steps[0]), steps[1..])
  }

  function CreatedIn(asm: Assembler, steps: seq<Step>): nat
    decreases |steps|
  {
    if steps == [] then 0 else (if Creates(asm, steps[0]) then 1 else 0) + CreatedIn(Next(asm, steps[0]), steps[1..])
  }

  lemma {:induction false} RunKeeps(asm: Assembler, steps: seq<Step>)
    requires Inv(asm)
    ensures Inv(After(asm, steps)) && After(asm, steps).maxBufferSize == asm.maxBufferSize
    ensures Created(After(asm, steps)) == Created(asm) + CreatedIn(asm, steps)
    decreases |steps|
  {
    if steps != [] {
      NextKeeps(asm, steps[0]);
      RunKeeps(Next(asm, steps[0]), steps[1..]);
    }
  }

  /** Whatever arrives, the memory in use is the total length of the fragments stored and within the limit,
      and every reassembly begun is completed, timed out or evicted, or still pending. */
  lemma EveryRunAccounts(timeoutNs: u64, maxBufferSize: int, steps: seq<Step>)
    ensures var start := NewAssembler(timeoutNs, maxBufferSize); var asm := After(start, steps);
      && asm.currentSize == Sum(Sizes(asm.buffers)) <= (if maxBufferSize < 0 then 0 else maxBufferSize)
      && (forall k :: k in asm.buffers ==> asm.buffers[k].totalSize == Sum(Lengths(asm.buffers[k].fragments)))
      && CreatedIn(start, steps) == asm.completed + asm.timedOut + |asm.buffers|
  {
    var start := NewAssembler(timeoutNs, maxBufferSize);
    assert Sizes(start.buffers).Keys == {};
    RunKeeps(start, steps);
  }
}
