/** Reassembly inverts splitting: the fragments of a message, in any order, repeated and mixed with
    other traffic, give back its payload when the last missing one arrives, and only then. */
module Reassembly {
  import opened Bits
  import opened Clock
  import opened IntMap
  import opened Fragment

  /** A message to be split under the given number */
  datatype Message = Message(id: u32, payload: Bytes, maxPayload: nat)

  predicate Splittable(m: Message) {
    m.maxPayload > 0 && |m.payload| > 0 && FragmentCount(|m.payload|, m.maxPayload) <= MAX_COUNT
  }

  function Count(m: Message): (n: nat)
    requires Splittable(m)
    ensures 0 < n <= 255
  {
    CountFits(m);
    FragmentCount(|m.payload|, m.maxPayload)
  }

  function Piece(m: Message, i: nat): Bytes {
    Chunk(m.payload, m.maxPayload, i)
  }

  function FragmentOf(m: Message, i: nat): Bytes
    requires Splittable(m) && i < Count(m)
  {
    EncodeHeader(FragmentHeader(m.id, i, Count(m))) + Piece(m, i)
  }

  // ---- Splitting ----

  lemma CountFits(m: Message)
    requires m.maxPayload > 0 && |m.payload| > 0
    ensures var n := FragmentCount(|m.payload|, m.maxPayload);
      n > 0 && (n - 1) * m.maxPayload < |m.payload| <= n * m.maxPayload
  {
    CeilingIs(|m.payload|, m.maxPayload);
  }

  lemma CeilingIs(length: nat, size: nat)
    requires size > 0 && length > 0
    ensures var n := FragmentCount(length, size); n > 0 && (n - 1) * size < length <= n * size
  {
    var x := length + size - 1;
    var n := x / size;
    DivMod(x, size);
    Distribute(n, -1, size);
    if n <= 0 {
      Monotone(n, 0, size);
    }
  }

  lemma DivMod(x: int, m: int)
    requires m > 0
    ensures x == x / m * m + x % m
  {
  }

  lemma Monotone(a: int, b: int, m: int)
    requires a <= b && m >= 0
    ensures a * m <= b * m
  {
  }

  /** Splitting fails exactly for a size that is not positive, or too small for 255 fragments. */
  lemma SplitFailsIff(id: u32, payload: Bytes, maxPayload: int)
    ensures SplitMessage(id, payload, maxPayload) == TooManyFragments
      <==> maxPayload <= 0 || |payload| > 255 * maxPayload
  {
    if maxPayload > 0 {
      if |payload| > 0 {
        CeilingIs(|payload|, maxPayload);
        var n := FragmentCount(|payload|, maxPayload);
        if n <= 255 {
          Monotone(n, 255, maxPayload);
        } else {
          Monotone(255, n - 1, maxPayload);
        }
      } else {
        EmptyCount(maxPayload);
      }
    }
  }

  lemma EmptyCount(size: nat)
    requires size > 0
    ensures FragmentCount(0, size) == 0
  {
    RemainderIs(size - 1, size, 0, size - 1);
  }

  lemma SplitIs(m: Message)
    requires Splittable(m)
    ensures SplitMessage(m.id, m.payload, m.maxPayload)
         == Fragments(seq(Count(m), i requires 0 <= i < Count(m) => FragmentOf(m, i)))
  {
    var split := SplitMessage(m.id, m.payload, m.maxPayload);
    assert split.fragments == seq(Count(m), i requires 0 <= i < Count(m) => FragmentOf(m, i));
  }

  lemma ReadFragment(m: Message, i: nat)
    requires Splittable(m) && i < Count(m)
    ensures DecodeHeader(FragmentOf(m, i)) == Some(FragmentHeader(m.id, i, Count(m)))
    ensures Skip(FragmentOf(m, i), HEADER_SIZE) == Piece(m, i)
  {
    DecodeEncode(FragmentHeader(m.id, i, Count(m)), Piece(m, i));
  }

  // ---- Joining ----

  function Up(n: nat): (r: seq<int>)
    ensures |r| == n && forall i :: 0 <= i < n ==> r[i] == i
  {
    if n == 0 then [] else Up(n - 1) + [n - 1]
  }

  lemma MaxBelow(n: nat)
    requires n > 0
    ensures FirstKeys(n) != {} && MaxKey(FirstKeys(n)) == n - 1 && FirstKeys(n) - {n - 1} == FirstKeys(n - 1)
  {
    assert n - 1 in FirstKeys(n);
  }

  lemma {:induction false} AscendingIsUp(n: nat)
    ensures Ascending(FirstKeys(n)) == Up(n)
  {
    if n != 0 {
      MaxBelow(n);
      AscendingIsUp(n - 1);
    }
  }

  lemma {:induction false} JoinSnoc(fragments: IntMap<Bytes>, keys: seq<int>, k: int)
    requires k in fragments && forall i :: 0 <= i < |keys| ==> keys[i] in fragments
    ensures Join(fragments, keys + [k]) == Join(fragments, keys) + fragments[k]
  {
    if keys == [] {
      assert [] + [k] == [k] && Join(fragments, [k][1..]) == [];
    } else {
      JoinSnoc(fragments, keys[1..], k);
      assert (keys + [k])[1..] == keys[1..] + [k];
    }
  }

  function Pieces(m: Message, seen: set<int>): IntMap<Bytes>
    requires forall i :: i in seen ==> i >= 0
  {
    map i | i in seen :: Piece(m, i)
  }

  lemma TakeMore(s: Bytes, a: nat, n: nat)
    ensures Take(s, a) + Take(Skip(s, a), n) == Take(s, a + n)
  {
  }

  lemma {:induction false} JoinPieces(m: Message, pieces: IntMap<Bytes>, n: nat)
    requires forall i :: 0 <= i < n ==> i in pieces && pieces[i] == Piece(m, i)
    ensures Join(pieces, Up(n)) == Take(m.payload, n * m.maxPayload)
  {
    if n != 0 {
      var i: int := n - 1;
      assert i in pieces && pieces[i] == Piece(m, i);
      JoinPieces(m, pieces, n - 1);
      JoinSnoc(pieces, Up(n - 1), i);
      TakeMore(m.payload, (n - 1) * m.maxPayload, m.maxPayload);
      Distribute(n - 1, 1, m.maxPayload);
    }
  }

  /** All the pieces, joined in order, are the payload. */
  lemma JoinAll(m: Message)
    requires Splittable(m)
    ensures var all := Pieces(m, FirstKeys(Count(m)));
      Join(all, Ascending(all.Keys)) == m.payload
  {
    var n := Count(m);
    PiecesKeys(m, FirstKeys(n));
    AscendingIsUp(n);
    JoinUp(m, Pieces(m, FirstKeys(n)));
  }

  lemma JoinUp(m: Message, all: IntMap<Bytes>)
    requires Splittable(m) && all == Pieces(m, FirstKeys(Count(m)))
    ensures Join(all, Up(Count(m))) == m.payload
  {
    JoinPieces(m, all, Count(m));
    CountFits(m);
  }

  lemma PiecesKeys(m: Message, seen: set<int>)
    requires forall i :: i in seen ==> i >= 0
    ensures Pieces(m, seen).Keys == seen
  {
  }

  // ---- The assembler and one message ----

  /** The assembler holds exactly the pieces seen so far, and at least one is missing. */
  ghost predicate Holds(asm: Assembler, m: Message, seen: set<int>)
    requires Splittable(m)
  {
    && seen < FirstKeys(Count(m))
    && if seen == {} then m.id as int !in asm.buffers
       else m.id as int in asm.buffers && HasPieces(asm.buffers[m.id as int], m, seen)
  }

  ghost predicate HasPieces(buf: FragmentBuffer, m: Message, seen: set<int>)
    requires Splittable(m)
  {
    buf.count as int == Count(m) && seen <= FirstKeys(Count(m)) && buf.fragments == Pieces(m, seen)
  }

  /** Eviction removes buffers and leaves the others as they are. */
  lemma {:induction false} EvictKeepsRest(asm: Assembler)
    ensures forall k :: k in EvictIfNeeded(asm).buffers ==>
      k in asm.buffers && EvictIfNeeded(asm).buffers[k] == asm.buffers[k]
    decreases |asm.buffers|
  {
    if asm.currentSize > asm.maxBufferSize && |asm.buffers| > 0 {
      var k := FindOldest(asm.buffers);
      RemovedSize(asm.buffers, k);
      EvictKeepsRest(Evicted(asm, k));
    }
  }

  /** The pieces seen, after one more; a complete message starts over. */
  function NowSeen(m: Message, seen: set<int>, i: int): set<int>
    requires Splittable(m)
  {
    if seen + {i} == FirstKeys(Count(m)) then {} else seen + {i}
  }

  function Yield(m: Message, seen: set<int>, i: int): Option<Bytes>
    requires Splittable(m)
  {
    if seen + {i} == FirstKeys(Count(m)) then Some(m.payload) else None
  }

  lemma AllSeen(m: Message, seen: set<int>)
    requires Splittable(m) && seen <= FirstKeys(Count(m))
    ensures |Pieces(m, seen)| == Count(m) <==> seen == FirstKeys(Count(m))
  {
    assert Pieces(m, seen).Keys == seen;
    FirstKeysSize(Count(m));
    SubsetSize(seen, FirstKeys(Count(m)));
  }

  lemma CompletesWhenAll(asm: Assembler, m: Message, seen: set<int>, i: int)
    requires Splittable(m) && m.id as int in asm.buffers && HasPieces(asm.buffers[m.id as int], m, seen + {i})
    ensures TryComplete(m.id, asm).0 == Yield(m, seen, i)
    ensures Holds(TryComplete(m.id, asm).1, m, NowSeen(m, seen, i))
  {
    AllSeen(m, seen + {i});
    JoinAll(m);
  }

  lemma NewPieces(m: Message, i: nat, now: u64)
    requires Splittable(m) && i < Count(m)
    ensures HasPieces(FragmentBuffer(map[i as int := Piece(m, i)], Count(m), now, |Piece(m, i)|), m, {} + {i as int})
  {
    assert map[i as int := Piece(m, i)] == Pieces(m, {} + {i as int});
  }

  lemma IncreasedBy(old_: FragmentBuffer, m: Message, seen: set<int>, i: nat) returns (buf: FragmentBuffer)
    requires Splittable(m) && i < Count(m) && HasPieces(old_, m, seen)
    ensures buf == Extended(old_, i, Piece(m, i)) && HasPieces(buf, m, seen + {i as int})
  {
    buf := Extended(old_, i, Piece(m, i));
    assert buf.fragments == Pieces(m, seen + {i as int});
  }

  /** The buffer with the pieces is still there after eviction. */
  lemma WithPieces(with: Assembler, m: Message, seen: set<int>, i: nat)
    requires Splittable(m) && m.id as int in EvictIfNeeded(with).buffers
    requires m.id as int in with.buffers && HasPieces(with.buffers[m.id as int], m, seen + {i as int})
    ensures var r := TryComplete(m.id, EvictIfNeeded(with));
      r.0 == Yield(m, seen, i) && Holds(r.1, m, NowSeen(m, seen, i))
  {
    EvictKeepsRest(with);
    CompletesWhenAll(EvictIfNeeded(with), m, seen, i);
  }

  // ---- One step ----

  /** The step stores a fragment. */
  predicate Stores(asm: Assembler, s: Step) {
    && s.Arrives? && DecodeHeader(s.raw).Some?
    && var h := DecodeHeader(s.raw).value; var key := h.messageId as int;
      h.index < h.count
      && (key in asm.buffers ==> asm.buffers[key].count == h.count && h.index as int !in asm.buffers[key].fragments)
  }

  function KeyOf(s: Step): int
    requires s.Arrives? && DecodeHeader(s.raw).Some?
  {
    DecodeHeader(s.raw).value.messageId
  }

  /** The assembler with the fragment stored, before eviction */
  function Grown(asm: Assembler, s: Step): Assembler
    requires Stores(asm, s)
  {
    var h := DecodeHeader(s.raw).value;
    var data := Skip(s.raw, HEADER_SIZE);
    var key := KeyOf(s);
    WithBuffer(key, if key in asm.buffers then Extended(asm.buffers[key], h.index, data)
                    else FragmentBuffer(map[h.index as int := data], h.count, s.now, |data|), |data|, asm)
  }

  function Output(asm: Assembler, s: Step): Option<Bytes> {
    if s.Arrives? then OnFragment(s.raw, s.now, asm).0 else None
  }

  lemma StepIs(asm: Assembler, s: Step)
    ensures Stores(asm, s) ==> (Output(asm, s), Next(asm, s)) == TryComplete(KeyOf(s), EvictIfNeeded(Grown(asm, s)))
    ensures s.Arrives? && !Stores(asm, s) ==> Output(asm, s) == None && Next(asm, s) == asm
  {
  }

  /** The step neither evicts the buffer of the message nor lets it expire. */
  predicate Spares(m: Message, asm: Assembler, s: Step) {
    && (s.Ticks? ==> m.id as int !in Expired(s.now, asm))
    && (Stores(asm, s) && m.id as int in Grown(asm, s).buffers ==> m.id as int in EvictIfNeeded(Grown(asm, s)).buffers)
  }

  /** A fragment of the message: it yields the payload exactly when it is the last piece missing. */
  lemma OwnFragment(asm: Assembler, m: Message, seen: set<int>, i: nat, s: Step)
    requires Splittable(m) && i < Count(m) && Holds(asm, m, seen)
    requires s.Arrives? && s.raw == FragmentOf(m, i) && Spares(m, asm, s)
    ensures Output(asm, s) == Yield(m, seen, i)
    ensures Holds(Next(asm, s), m, NowSeen(m, seen, i))
  {
    ReadFragment(m, i);
    StepIs(asm, s);
    if i as int in seen {
      assert seen + {i as int} == seen;
    } else {
      PieceStored(asm, m, seen, i, s);
      WithPieces(Grown(asm, s), m, seen, i);
    }
  }

  lemma PieceStored(asm: Assembler, m: Message, seen: set<int>, i: nat, s: Step)
    requires Splittable(m) && i < Count(m) && Holds(asm, m, seen) && i !in seen
    requires s.Arrives? && s.raw == FragmentOf(m, i)
    ensures Stores(asm, s) && KeyOf(s) == m.id as int && m.id as int in Grown(asm, s).buffers
    ensures HasPieces(Grown(asm, s).buffers[m.id as int], m, seen + {i as int})
  {
    ReadFragment(m, i);
    if seen == {} {
      NewPieces(m, i, s.now);
    } else {
      var buf := IncreasedBy(asm.buffers[m.id as int], m, seen, i);
    }
  }

  /** Anything else leaves the pieces alone. */
  lemma ForeignStored(asm: Assembler, m: Message, seen: set<int>, s: Step)
    requires Splittable(m) && Holds(asm, m, seen) && Stores(asm, s) && KeyOf(s) != m.id as int && Spares(m, asm, s)
    ensures Holds(Next(asm, s), m, seen)
  {
    StepIs(asm, s);
    EvictKeepsRest(Grown(asm, s));
    ForeignComplete(EvictIfNeeded(Grown(asm, s)), m, seen, KeyOf(s));
  }

  lemma ForeignComplete(asm: Assembler, m: Message, seen: set<int>, key: int)
    requires Splittable(m) && Holds(asm, m, seen) && key != m.id as int
    ensures Holds(TryComplete(key, asm).1, m, seen)
  {
  }

  lemma TickSpares(asm: Assembler, m: Message, seen: set<int>, now: u64)
    requires Splittable(m) && Holds(asm, m, seen) && Spares(m, asm, Ticks(now))
    ensures Holds(Update(now, asm), m, seen)
  {
  }

  // ---- Runs ----

  /** The step brings a fragment that bears the number of the message. */
  predicate Belongs(m: Message, s: Step) {
    s.Arrives? && DecodeHeader(s.raw).Some? && DecodeHeader(s.raw).value.messageId == m.id
  }

  function IndexIn(s: Step): int
    requires s.Arrives? && DecodeHeader(s.raw).Some?
  {
    DecodeHeader(s.raw).value.index
  }

  /** What bears the number of the message is one of its fragments. */
  predicate Genuine(m: Message, s: Step)
    requires Splittable(m)
  {
    Belongs(m, s) ==> IndexIn(s) < Count(m) && s.raw == FragmentOf(m, IndexIn(s))
  }

  function SeenNext(m: Message, seen: set<int>, s: Step): set<int>
    requires Splittable(m)
  {
    if Belongs(m, s) then NowSeen(m, seen, IndexIn(s)) else seen
  }

  function SeenAfter(m: Message, seen: set<int>, steps: seq<Step>): set<int>
    requires Splittable(m)
    decreases |steps|
  {
    if steps == [] then seen else SeenAfter(m, SeenNext(m, seen, steps[0]), steps[1..])
  }

  /** No step evicts the buffer of the message or lets it expire. */
  predicate Undisturbed(m: Message, asm: Assembler, steps: seq<Step>)
    decreases |steps|
  {
    steps == [] || (Spares(m, asm, steps[0]) && Undisturbed(m, Next(asm, steps[0]), steps[1..]))
  }

  lemma StepHolds(asm: Assembler, m: Message, seen: set<int>, s: Step)
    requires Splittable(m) && Holds(asm, m, seen) && Genuine(m, s) && Spares(m, asm, s)
    ensures Holds(Next(asm, s), m, SeenNext(m, seen, s))
    ensures Belongs(m, s) ==> Output(asm, s) == Yield(m, seen, IndexIn(s))
  {
    StepIs(asm, s);
    if Belongs(m, s) {
      OwnFragment(asm, m, seen, IndexIn(s), s);
    } else if s.Ticks? {
      TickSpares(asm, m, seen, s.now);
    } else if Stores(asm, s) {
      ForeignStored(asm, m, seen, s);
    }
  }

  lemma {:induction false} RunHolds(asm: Assembler, m: Message, seen: set<int>, steps: seq<Step>)
    requires Splittable(m) && Holds(asm, m, seen) && forall i :: 0 <= i < |steps| ==> Genuine(m, steps[i])
    requires Undisturbed(m, asm, steps)
    ensures Holds(After(asm, steps), m, SeenAfter(m, seen, steps))
    decreases |steps|
  {
    if steps != [] {
      StepHolds(asm, m, seen, steps[0]);
      RunHolds(Next(asm, steps[0]), m, SeenNext(m, seen, steps[0]), steps[1..]);
    }
  }

  /** In every run that leaves the buffer of the message alone, and in which only its own fragments bear its
      number, a fragment yields the payload if it is the last one missing, and nothing otherwise. */
  lemma OutputIs(asm: Assembler, m: Message, steps: seq<Step>, s: Step)
    requires Splittable(m) && m.id as int !in asm.buffers && Belongs(m, s)
    requires Genuine(m, s) && forall i :: 0 <= i < |steps| ==> Genuine(m, steps[i])
    requires Undisturbed(m, asm, steps) && Spares(m, After(asm, steps), s)
    ensures Output(After(asm, steps), s) == Yield(m, SeenAfter(m, {}, steps), IndexIn(s))
  {
    StartHolds(asm, m);
    RunHolds(asm, m, {}, steps);
    StepHolds(After(asm, steps), m, SeenAfter(m, {}, steps), s);
  }

  /** The step brings fragment i of the message. */
  predicate Brings(m: Message, s: Step, i: int) {
    Belongs(m, s) && IndexIn(s) == i
  }

  lemma {:induction false} SeenWithout(m: Message, seen: set<int>, steps: seq<Step>, last: int, j: int)
    requires Splittable(m) && last in FirstKeys(Count(m)) && last !in seen
    requires forall i :: 0 <= i < |steps| ==> !Brings(m, steps[i], last)
    ensures last !in SeenAfter(m, seen, steps)
    ensures j in seen || (exists i :: 0 <= i < |steps| && Brings(m, steps[i], j)) ==> j in SeenAfter(m, seen, steps)
    decreases |steps|
  {
    if steps != [] {
      assert !Brings(m, steps[0], last);
      var next := SeenNext(m, seen, steps[0]);
      assert next == if Belongs(m, steps[0]) then seen + {IndexIn(steps[0])} else seen;
      forall i | 0 <= i < |steps[1..]| ensures !Brings(m, steps[1..][i], last) {
        assert steps[1..][i] == steps[i + 1];
      }
      SeenWithout(m, next, steps[1..], last, j);
      if i :| 0 < i < |steps| && Brings(m, steps[i], j) {
        assert steps[1..][i - 1] == steps[i];
      }
    }
  }

  /** No step brings fragment `last`, and every other fragment arrives at least once. */
  ghost predicate AllBut(m: Message, steps: seq<Step>, last: int)
    requires Splittable(m)
  {
    && (forall i :: 0 <= i < |steps| ==> !Brings(m, steps[i], last))
    && (forall j :: 0 <= j < Count(m) && j != last ==> Arrived(m, steps, j))
  }

  ghost predicate Arrived(m: Message, steps: seq<Step>, j: int) {
    exists i :: 0 <= i < |steps| && Brings(m, steps[i], j)
  }

  lemma OnlyLastMissing(m: Message, steps: seq<Step>, last: nat)
    requires Splittable(m) && last < Count(m) && AllBut(m, steps, last)
    ensures FirstKeys(Count(m)) <= SeenAfter(m, {}, steps) + {last as int}
  {
    forall j | j in FirstKeys(Count(m)) && j != last as int ensures j in SeenAfter(m, {}, steps) {
      assert Arrived(m, steps, j);
      SeenWithout(m, {}, steps, last, j);
    }
  }

  /** Reassembly inverts splitting.  Once every fragment but one has arrived, in any order, with any
      repetitions and any other traffic between them, the arrival of the last gives back the payload, as
      long as the buffer of this message was neither evicted nor left to expire. */
  lemma LastFragmentCompletes(asm: Assembler, m: Message, steps: seq<Step>, last: nat, now: u64)
    requires Splittable(m) && m.id as int !in asm.buffers && last < Count(m)
    requires (forall i :: 0 <= i < |steps| ==> Genuine(m, steps[i])) && AllBut(m, steps, last)
    requires Undisturbed(m, asm, steps) && Spares(m, After(asm, steps), Arrives(FragmentOf(m, last), now))
    ensures OnFragment(FragmentOf(m, last), now, After(asm, steps)).0 == Some(m.payload)
  {
    OnlyLastMissing(m, steps, last);
    StartHolds(asm, m);
    RunHolds(asm, m, {}, steps);
    OwnFragment(After(asm, steps), m, SeenAfter(m, {}, steps), last, Arrives(FragmentOf(m, last), now));
  }

  lemma StartHolds(asm: Assembler, m: Message)
    requires Splittable(m) && m.id as int !in asm.buffers
    ensures Holds(asm, m, {})
  {
    assert 0 in FirstKeys(Count(m));
  }

  // ---- When no buffer is lost ----

  /** The bytes a step can add to the memory in use */
  function Load(s: Step): nat {
    if s.Arrives? then |Skip(s.raw, HEADER_SIZE)| else 0
  }

  function TotalLoad(steps: seq<Step>): nat {
    if steps == [] then 0 else Load(steps[0]) + TotalLoad(steps[1..])
  }

  /** What is in flight, with each fragment that arrives, fits into memory. */
  predicate NeverFull(asm: Assembler, steps: seq<Step>)
    decreases |steps|
  {
    steps == []
    || (asm.currentSize + Load(steps[0]) <= asm.maxBufferSize && NeverFull(Next(asm, steps[0]), steps[1..]))
  }

  /** It does if everything that arrives fits together. */
  lemma {:induction false} LoadFits(asm: Assembler, steps: seq<Step>)
    requires Fragment.Inv(asm) && asm.currentSize + TotalLoad(steps) <= asm.maxBufferSize
    ensures NeverFull(asm, steps)
    decreases |steps|
  {
    if steps != [] {
      StepLoads(asm, steps[0]);
      NextKeeps(asm, steps[0]);
      LoadFits(Next(asm, steps[0]), steps[1..]);
    }
  }

  /** The message is not older than the timeout at any tick, counted from `createdAt`. */
  predicate TicksWithin(createdAt: u64, steps: seq<Step>, timeoutNs: u64) {
    forall j :: 0 <= j < |steps| && steps[j].Ticks? ==> Elapsed(createdAt, steps[j].now) < timeoutNs
  }

  /** Every tick comes less than the timeout after each fragment of the message that arrived before. */
  predicate InTime(m: Message, steps: seq<Step>, timeoutNs: u64) {
    forall i :: 0 <= i < |steps| && Belongs(m, steps[i]) ==> TicksWithin(steps[i].now, steps[i..], timeoutNs)
  }

  lemma {:induction false} EvictUnneeded(asm: Assembler)
    requires asm.currentSize <= asm.maxBufferSize
    ensures EvictIfNeeded(asm) == asm
  {
  }

  /** A step adds no more than its load, and changes no setting. */
  lemma StepLoads(asm: Assembler, s: Step)
    requires Fragment.Inv(asm) && asm.currentSize + Load(s) <= asm.maxBufferSize
    ensures Next(asm, s).currentSize <= asm.currentSize + Load(s)
    ensures Next(asm, s).maxBufferSize == asm.maxBufferSize && Next(asm, s).timeoutNs == asm.timeoutNs
    ensures Stores(asm, s) ==> EvictIfNeeded(Grown(asm, s)) == Grown(asm, s)
  {
    StepIs(asm, s);
    if s.Ticks? {
      ExpiredSizes(asm, Expired(s.now, asm));
    } else if Stores(asm, s) {
      EvictUnneeded(Grown(asm, s));
      CompletionFrees(asm, s);
    }
  }

  lemma CompletionFrees(asm: Assembler, s: Step)
    requires Fragment.Inv(asm) && Stores(asm, s)
    ensures var r := TryComplete(KeyOf(s), Grown(asm, s)).1;
      r.currentSize <= Grown(asm, s).currentSize && r.maxBufferSize == asm.maxBufferSize && r.timeoutNs == asm.timeoutNs
  {
    var key := KeyOf(s);
    if key in asm.buffers {
      BufferSize(asm.buffers[key], true);
    }
  }

  /** The buffer of the message is as old as the first of its fragments. */
  lemma StepCreates(asm: Assembler, m: Message, s: Step, steps: seq<Step>)
    requires Fragment.Inv(asm) && asm.currentSize + Load(s) <= asm.maxBufferSize
    requires m.id as int in asm.buffers ==> TicksWithin(asm.buffers[m.id as int].createdAt, steps, asm.timeoutNs)
    requires Belongs(m, s) ==> TicksWithin(s.now, steps, asm.timeoutNs)
    ensures var r := Next(asm, s);
      m.id as int in r.buffers ==> TicksWithin(r.buffers[m.id as int].createdAt, steps, asm.timeoutNs)
  {
    StepIs(asm, s);
    StepLoads(asm, s);
  }

  lemma TailInTime(m: Message, steps: seq<Step>, timeoutNs: u64)
    requires InTime(m, steps, timeoutNs) && steps != []
    ensures InTime(m, steps[1..], timeoutNs)
    ensures Belongs(m, steps[0]) ==> TicksWithin(steps[0].now, steps[1..], timeoutNs)
  {
    var rest := steps[1..];
    if Belongs(m, steps[0]) {
      LaterWithin(steps[0].now, steps[0..], timeoutNs, 1);
    }
    forall i | 0 <= i < |rest| && Belongs(m, rest[i]) ensures TicksWithin(rest[i].now, rest[i..], timeoutNs) {
      assert rest[i] == steps[i + 1] && rest[i..] == steps[i + 1..];
    }
  }

  lemma LaterWithin(createdAt: u64, steps: seq<Step>, timeoutNs: u64, n: nat)
    requires TicksWithin(createdAt, steps, timeoutNs) && n <= |steps|
    ensures TicksWithin(createdAt, steps[n..], timeoutNs)
  {
    forall j | 0 <= j < |steps[n..]| && steps[n..][j].Ticks? ensures Elapsed(createdAt, steps[n..][j].now) < timeoutNs {
      assert steps[n..][j] == steps[n + j];
    }
  }

  /** If what is in flight fits into memory, and the ticks come in time, the buffer of the message is neither
      evicted nor left to expire. */
  lemma {:induction false} FitsUndisturbed(m: Message, asm: Assembler, steps: seq<Step>)
    requires Fragment.Inv(asm) && NeverFull(asm, steps)
    requires m.id as int in asm.buffers ==> TicksWithin(asm.buffers[m.id as int].createdAt, steps, asm.timeoutNs)
    requires InTime(m, steps, asm.timeoutNs)
    ensures Undisturbed(m, asm, steps)
    decreases |steps|
  {
    if steps != [] {
      var s, rest := steps[0], steps[1..];
      StepLoads(asm, s);
      NextKeeps(asm, s);
      TailInTime(m, steps, asm.timeoutNs);
      if m.id as int in asm.buffers {
        LaterWithin(asm.buffers[m.id as int].createdAt, steps, asm.timeoutNs, 1);
      }
      StepCreates(asm, m, s, rest);
      FitsUndisturbed(m, Next(asm, s), rest);
    }
  }

  lemma {:induction false} UndisturbedSplit(m: Message, asm: Assembler, steps: seq<Step>, s: Step)
    requires Undisturbed(m, asm, steps + [s])
    ensures Undisturbed(m, asm, steps) && Spares(m, After(asm, steps), s)
    decreases |steps|
  {
    if steps != [] {
      assert (steps + [s])[1..] == steps[1..] + [s];
      UndisturbedSplit(m, Next(asm, steps[0]), steps[1..], s);
    }
  }

  /** With conditions that do not speak of evictions: the payload comes back if what is in flight, of all
      messages, fits into memory, and no tick comes a timeout after a fragment of this message. */
  lemma FittingMessageCompletes(asm: Assembler, m: Message, steps: seq<Step>, last: nat, now: u64)
    requires Splittable(m) && Fragment.Inv(asm) && m.id as int !in asm.buffers && last < Count(m)
    requires (forall i :: 0 <= i < |steps| ==> Genuine(m, steps[i])) && AllBut(m, steps, last)
    requires NeverFull(asm, steps + [Arrives(FragmentOf(m, last), now)])
    requires InTime(m, steps + [Arrives(FragmentOf(m, last), now)], asm.timeoutNs)
    ensures OnFragment(FragmentOf(m, last), now, After(asm, steps)).0 == Some(m.payload)
  {
    var s := Arrives(FragmentOf(m, last), now);
    FitsUndisturbed(m, asm, steps + [s]);
    UndisturbedSplit(m, asm, steps, s);
    LastFragmentCompletes(asm, m, steps, last, now);
  }
}
