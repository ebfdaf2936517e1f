/** The 256-bit loss window of nn_seq.c, as the list of all samples recorded. */
module LossWindow {
  import opened Bits
  import opened Popcount

  // ---- Counting ----

  function CountTrue(s: seq<bool>): nat {
    if s == [] then 0 else (if s[0] then 1 else 0) + CountTrue(s[1..])
  }

  lemma {:induction false} CountConcat(s: seq<bool>, t: seq<bool>)
    ensures CountTrue(s + t) == CountTrue(s) + CountTrue(t)
  {
    if s == [] {
      assert s + t == t;
    } else {
      assert (s + t)[1..] == s[1..] + t;
      CountConcat(s[1..], t);
    }
  }

  /** The low k bits of x, least significant first */
  function BitList(x: nat, k: nat): (s: seq<bool>)
    ensures |s| == k
  {
    if k == 0 then [] else [x % 2 == 1] + BitList(x / 2, k - 1)
  }

  lemma {:induction false} BitListAt(x: nat, k: nat, i: nat)
    requires i < k
    ensures BitList(x, k)[i] == Bit(x, i)
    decreases k
  {
    if i != 0 { BitListAt(x / 2, k - 1, i - 1); }
  }

  /** Counting the bits of a masked word is counting in the list of its low bits. */
  lemma {:induction false} PopCountLow(x: nat, k: nat)
    ensures PopCount(Low(x, k)) == CountTrue(BitList(x, k))
    decreases k
  {
    if k != 0 {
      PopCountLow(x / 2, k - 1);
      assert BitList(x, k)[1..] == BitList(x / 2, k - 1);
      assert Low(x, k) / 2 == Low(x / 2, k - 1) && Low(x, k) % 2 == x % 2;
    }
  }

  // ---- The window ----

  /** The samples the window still covers */
  function Recent(samples: seq<bool>): seq<bool> {
    if |samples| <= 256 then samples else samples[|samples| - 256..]
  }

  /** The sample whose number leaves remainder p by 256, among the recent ones */
  function SampleAt(samples: seq<bool>, p: nat): bool
    requires p < 256
  {
    var n := |samples|;
    var k := n - 1 - (n - 1 - p) % 256;
    0 <= k < n && samples[k]
  }

  /** The samples in the order of their places in the window: a rotation of the recent ones */
  function Places(samples: seq<bool>): seq<bool> {
    seq(if |samples| <= 256 then |samples| else 256, p requires 0 <= p < 256 => SampleAt(samples, p))
  }

  lemma PlacesAreRotated(samples: seq<bool>)
    requires |samples| > 256
    ensures var last, r := samples[|samples| - 256..], |samples| % 256;
      Places(samples) == last[256 - r..] + last[..256 - r]
  {
    var n := |samples|;
    var last, r := samples[n - 256..], n % 256;
    forall p | 0 <= p < 256
      ensures Places(samples)[p] == (last[256 - r..] + last[..256 - r])[p]
    {
      PlaceIndex(n, p);
    }
  }

  lemma PlaceIndex(n: nat, p: nat)
    requires n > 256 && p < 256
    ensures n - 1 - (n - 1 - p) % 256 == if p < n % 256 then n - n % 256 + p else n - n % 256 - 256 + p
  {
    var q, r := n / 256, n % 256;
    assert n == 256 * q + r;
    if p < r {
      assert (n - 1 - p) % 256 == r - 1 - p;
    } else {
      assert (n - 1 - p) % 256 == r + 255 - p;
    }
  }

  lemma CountPlaces(samples: seq<bool>)
    ensures CountTrue(Places(samples)) == CountTrue(Recent(samples))
  {
    if |samples| <= 256 {
      forall p | 0 <= p < |samples| ensures Places(samples)[p] == samples[p] {
        assert (|samples| - 1 - p) % 256 == |samples| - 1 - p;
      }
      assert Places(samples) == samples;
    } else {
      PlacesAreRotated(samples);
      var last, r := samples[|samples| - 256..], |samples| % 256;
      CountConcat(last[256 - r..], last[..256 - r]);
      CountConcat(last[..256 - r], last[256 - r..]);
      assert last == last[..256 - r] + last[256 - r..];
    }
  }

  class LossWindow {
    const bits: array<u64>
    var index: u32
    var count: nat
    ghost var samples: seq<bool>  // every sample ever recorded, oldest first

    ghost predicate Valid()
      reads this, bits
    {
      && bits.Length == 4
      && index == |samples| % 0x1_0000_0000
      && count == (if |samples| <= 256 then |samples| else 256)
      && (forall p: nat :: p < 256 ==> Bit(bits[p / 64], p % 64) == SampleAt(samples, p))
    }

    /** nn_loss_window_init */
    constructor ()
      ensures Valid() && fresh(bits) && samples == []
    {
      bits := new u64[4](i => 0);
      index, count, samples := 0, 0, [];
      new;
      forall p: nat | p < 256 ensures !Bit(bits[p / 64], p % 64) {
        BitOfZero(p % 64);
      }
    }

    /** nn_loss_window_record */
    method Record(lost: bool)
      requires Valid()
      modifies this, bits
      ensures Valid() && samples == old(samples) + [lost]
    {
      var idx: nat := index % 256;
      var word, bit := idx / 64, idx % 64;
      ghost var s := samples;
      RemainderOfRemainder(|s|);
      bits[word] := PutBit(bits[word], bit, lost);
      index := (index as int + 1) % 0x1_0000_0000;
      if count < 256 {
        count := count + 1;
      }
      samples := samples + [lost];
      forall p: nat | p < 256
        ensures Bit(bits[p / 64], p % 64) == SampleAt(samples, p)
      {
        NextSample(s, lost, p);
      }
    }

    /** nn_loss_window_percent: the losses among the last 256 samples, over their number */
    method Percent() returns (f: real)
      requires Valid()
      ensures samples == [] ==> f == 0.0
      ensures samples != [] ==> f == CountTrue(Recent(samples)) as real / |Recent(samples)| as real
    {
      if count == 0 {
        return 0.0;
      }
      var totalLost := CountLost();
      CountPlaces(samples);
      f := totalLost as real / count as real;
    }

    /** The loop over the four words, the last one masked */
    method CountLost() returns (totalLost: nat)
      requires Valid()
      ensures totalLost == CountTrue(Places(samples))
    {
      totalLost := 0;
      var remaining := count;
      ghost var places := Places(samples);
      for i := 0 to 4
        invariant remaining == if count <= 64 * i then 0 else count - 64 * i
        invariant totalLost == CountTrue(places[..count - remaining])
      {
        if remaining > 0 {
          var used := if remaining >= 64 then 64 else remaining;
          var n := WordLosses(i, used);
          JoinPlaces(places, count - remaining, used);
          totalLost := totalLost + n;
          remaining := remaining - used;
        }
      }
      assert places[..count] == places;
    }

    /** The losses in the places that word i covers, up to the given number of them */
    method WordLosses(i: nat, used: nat) returns (n: nat)
      requires Valid() && i < 4 && 0 < used <= 64 && 64 * i + used <= |Places(samples)|
      ensures n == CountTrue(Places(samples)[64 * i..64 * i + used])
    {
      forall j: nat | j < 64 ensures Bit(bits[i], j) == SampleAt(samples, 64 * i + j) {
        assert (64 * i + j) / 64 == i && (64 * i + j) % 64 == j;
      }
      WordPlaces(bits[i], samples, i, used);
      n := CountWord(bits[i], used);
    }
  }

  lemma JoinPlaces(places: seq<bool>, done: nat, used: nat)
    requires done + used <= |places|
    ensures CountTrue(places[..done + used]) == CountTrue(places[..done]) + CountTrue(places[done..done + used])
  {
    CountConcat(places[..done], places[done..done + used]);
    assert places[..done + used] == places[..done] + places[done..done + used];
  }

  /** The bits of word i that are in use, as places of the window */
  lemma WordPlaces(w: u64, samples: seq<bool>, i: nat, k: nat)
    requires i < 4 && k <= 64 && 64 * i + k <= |Places(samples)|
    requires forall j: nat :: j < 64 ==> Bit(w, j) == SampleAt(samples, 64 * i + j)
    ensures BitList(w, k) == Places(samples)[64 * i..64 * i + k]
  {
    forall j | 0 <= j < k ensures BitList(w, k)[j] == Places(samples)[64 * i..64 * i + k][j] {
      BitListAt(w, k, j);
    }
  }

  /** The ones among the low k bits of a word, which may be all of them */
  method CountWord(w: u64, k: nat) returns (n: nat)
    requires 0 < k <= 64
    ensures n == CountTrue(BitList(w, k))
  {
    PopCountLow(w, k);
    if k == 64 {
      LowOfWord(w);
      n := Popcount64(w);
    } else {
      AndLowMask(w, k);
      AndAtMost(w, Pow2(k) - 1);
      n := Popcount64(And(w, Pow2(k) - 1));
    }
  }

  lemma LowOfWord(w: u64)
    ensures Low(w, 64) == w
  {
    DivModPow2(w, 64);
    Pow2Values();
  }

  lemma RemainderOfRemainder(n: nat)
    ensures n % 0x1_0000_0000 % 256 == n % 256
    ensures (n % 0x1_0000_0000 + 1) % 0x1_0000_0000 == (n + 1) % 0x1_0000_0000
  {
  }

  lemma NextSample(s: seq<bool>, lost: bool, p: nat)
    requires p < 256
    ensures SampleAt(s + [lost], p) == if p == |s| % 256 then lost else SampleAt(s, p)
  {
    var n := |s|;
    NextModulo(n - p);
    assert p == n % 256 <==> (n - p) % 256 == 0;
  }

  lemma NextModulo(x: int)
    ensures x % 256 == 0 || x % 256 == (x - 1) % 256 + 1
  {
  }

  /** One bit of a word is set or cleared. */
  method PutBit(w: u64, k: nat, on: bool) returns (r: u64)
    requires k < 64
    ensures forall i: nat :: i < 64 ==> Bit(r, i) == if i == k then on else Bit(w, i)
  {
    Pow2Values();
    Pow2Grows(k, 64);
    if on {
      OrBound(w, Pow2(k), 64);
      r := Or(w, Pow2(k));
      forall i: nat | i < 64 ensures Bit(r, i) == (i == k || Bit(w, i)) {
        BitOfOr(w, Pow2(k), i);
        BitOfPow2(k, i);
      }
    } else {
      var mask: u64 := 0xFFFF_FFFF_FFFF_FFFF - Pow2(k);
      AndAtMost(w, mask);
      r := And(w, mask);
      forall i: nat | i < 64 ensures Bit(r, i) == (i != k && Bit(w, i)) {
        BitOfAnd(w, mask, i);
        BitOfComplement(k, 64, i);
      }
    }
  }

  /** All ones but one */
  lemma {:induction false} BitOfComplement(k: nat, n: nat, i: nat)
    requires k < n && i < n
    ensures Pow2(k) < Pow2(n) && Bit(Pow2(n) - 1 - Pow2(k), i) == (i != k)
    decreases n
  {
    Pow2Grows(k, n);
    var w := Pow2(n) - 1 - Pow2(k);
    if k == 0 {
      HalvesOf(w, Pow2(n - 1) - 1, 0, i);
      if i != 0 { BitOfOnes(n - 1, i - 1); }
    } else {
      HalvesOf(w, Pow2(n - 1) - 1 - Pow2(k - 1), 1, i);
      if i != 0 { BitOfComplement(k - 1, n - 1, i - 1); }
    }
  }

  lemma HalvesOf(w: nat, half: nat, low: nat, i: nat)
    requires w == 2 * half + low && low < 2
    ensures Bit(w, i) == if i == 0 then low == 1 else Bit(half, i - 1)
  {
  }

  lemma {:induction false} BitOfOnes(n: nat, i: nat)
    requires i < n
    ensures Bit(Pow2(n) - 1, i)
    decreases n
  {
    if i != 0 { BitOfOnes(n - 1, i - 1); }
  }
}
