/** Circular 16-bit sequence numbers of nn_seq.h, against unbounded indices. */
module SeqNum {
  import opened Bits

  /** nn_seq_gt */
  predicate SeqGt(s1: u16, s2: u16) {
    || (s1 > s2 && s1 - s2 <= 32768)
    || (s1 < s2 && s2 - s1 > 32768)
  }

  /** nn_seq_diff */
  function SeqDiff(s1: u16, s2: u16): int {
    var diff: int := (s1 as int) - s2;
    var up: int := if diff > 32768 then diff - 65536 else diff;
    if up < -32768 then up + 65536 else up
  }

  /** The sequence number of the packet or message with the given index */
  function SeqOf(index: int): u16 {
    index % 0x1_0000
  }

  /** nextSeq */
  function NextSeq(s: u16): u16 {
    ((s as int) + 1) % 0x1_0000
  }

  lemma NextSeqIs(index: int)
    ensures NextSeq(SeqOf(index)) == SeqOf(index + 1)
  {
  }

  /** Closer than half the space, the circular comparison is the comparison of indices. */
  lemma GtIsLater(a: int, b: int)
    requires -32768 < a - b < 32768
    ensures SeqGt(SeqOf(a), SeqOf(b)) <==> a > b
    ensures SeqDiff(SeqOf(a), SeqOf(b)) == a - b
  {
    SeqOfShift(a, b);
  }

  /** The distance of two sequence numbers, given that of their indices */
  lemma SeqOfShift(a: int, b: int)
    requires -65536 < a - b < 65536
    ensures var d: int := (SeqOf(a) as int) - SeqOf(b);
      d == a - b || d == a - b - 65536 || d == a - b + 65536
  {
    var qa, qb := a / 0x1_0000, b / 0x1_0000;
    assert a == 0x1_0000 * qa + SeqOf(a) && b == 0x1_0000 * qb + SeqOf(b);
  }

  /** Exactly half the space apart, the raw numbers decide: of two such packets the one with the
      larger number counts as newer, whichever was sent first. */
  lemma HalfwayIsRaw(a: int, b: int)
    requires a - b == 32768 || b - a == 32768
    ensures SeqGt(SeqOf(a), SeqOf(b)) <==> SeqOf(a) > SeqOf(b)
    ensures SeqDiff(SeqOf(a), SeqOf(b)) == if SeqOf(a) > SeqOf(b) then 32768 else -32768
  {
    SeqOfShift(a, b);
  }

  /** When the comparison is right: less than half the space apart always, exactly half the space apart if
      the raw numbers agree with the indices, and beyond that never. */
  lemma RightIff(a: int, b: int)
    requires a != b && -65536 < a - b < 65536
    ensures (SeqGt(SeqOf(a), SeqOf(b)) <==> a > b)
       <==> (-32768 < a - b < 32768
             || ((a - b == 32768 || b - a == 32768) && (SeqOf(a) > SeqOf(b) <==> a > b)))
  {
    SeqOfShift(a, b);
  }

  /** Two indices less than 2^16 apart share a sequence number only if they are equal. */
  lemma SeqOfInjective(a: int, b: int)
    requires -65536 < a - b < 65536 && SeqOf(a) == SeqOf(b)
    ensures a == b
  {
    SeqOfShift(a, b);
  }

  /** On any two different numbers exactly one is newer, and the signed distance says which. */
  lemma GtTotal(s1: u16, s2: u16)
    ensures s1 != s2 ==> (SeqGt(s1, s2) <==> !SeqGt(s2, s1))
    ensures SeqGt(s1, s2) <==> SeqDiff(s1, s2) > 0
    ensures SeqDiff(s1, s2) == -SeqDiff(s2, s1)
  {
  }
}
