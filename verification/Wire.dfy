/** Little-endian reads and writes of nn_wire.h, against the number a byte sequence denotes. */
module Wire {
  import opened Bits

  /** The number whose base-256 digits are s, least significant first. */
  function Le(s: seq<u8>): nat {
    if s == [] then 0 else s[0] + 0x100 * Le(s[1..])
  }

  /** The n low base-256 digits of v, least significant first. */
  function LeBytes(v: nat, n: nat): (s: seq<u8>)
    ensures |s| == n
  {
    if n == 0 then [] else [v % 0x100] + LeBytes(v / 0x100, n - 1)
  }

  function Pow256(n: nat): (p: nat)
    ensures p > 0
  {
    if n == 0 then 1 else 0x100 * Pow256(n - 1)
  }

  /** x moved up by n bytes. */
  function Raise(x: nat, n: nat): nat {
    if n == 0 then x else 0x100 * Raise(x, n - 1)
  }

  /** x without its n low bytes. */
  function Drop(x: nat, n: nat): nat {
    if n == 0 then x else Drop(x / 0x100, n - 1)
  }

  lemma Pow256Values()
    ensures Pow256(4) == 0x1_0000_0000 && Pow256(8) == 0x1_0000_0000_0000_0000
    ensures Pow256(16) == 0x1_0000_0000_0000_0000_0000_0000_0000_0000
  {
    assert Pow256(4) == 0x1_0000_0000;
    assert Pow256(8) == 0x1_0000_0000_0000_0000;
    assert Pow256(12) == 0x1_0000_0000_0000_0000_0000_0000;
  }

  lemma {:induction false} RaiseIsProduct(x: nat, n: nat)
    ensures Raise(x, n) == x * Pow256(n)
  {
    if n != 0 {
      RaiseIsProduct(x, n - 1);
      var p := Pow256(n - 1);
      assert x * (0x100 * p) == 0x100 * (x * p);
    }
  }

  lemma {:induction false} SplitBytes(v: nat, n: nat)
    ensures v == Le(LeBytes(v, n)) + Raise(Drop(v, n), n) && Le(LeBytes(v, n)) < Pow256(n)
  {
    if n != 0 {
      assert LeBytes(v, n)[1..] == LeBytes(v / 0x100, n - 1);
      SplitBytes(v / 0x100, n - 1);
    }
  }

  /** Writing n bytes keeps v modulo 256^n. */
  lemma LeOfLeBytes(v: nat, n: nat)
    ensures Le(LeBytes(v, n)) == v % Pow256(n) && Drop(v, n) == v / Pow256(n)
  {
    SplitBytes(v, n);
    RaiseIsProduct(Drop(v, n), n);
    RemainderIs(v, Pow256(n), Drop(v, n), Le(LeBytes(v, n)));
  }

  lemma {:induction false} LeBytesOfLe(s: seq<u8>)
    ensures LeBytes(Le(s), |s|) == s
  {
    if s != [] {
      LeBytesOfLe(s[1..]);
      assert s == [s[0]] + s[1..];
    }
  }

  lemma {:induction false} LeBound(s: seq<u8>)
    ensures Le(s) < Pow256(|s|)
  {
    if s != [] { LeBound(s[1..]); }
  }

  /** Reading a concatenation reads the parts. */
  lemma {:induction false} LeConcat(s: seq<u8>, t: seq<u8>)
    ensures Le(s + t) == Le(s) + Raise(Le(t), |s|)
  {
    if s == [] {
      assert s + t == t;
    } else {
      LeConcat(s[1..], t);
      assert (s + t)[1..] == s[1..] + t;
    }
  }

  function Word4(b0: nat, b1: nat, b2: nat, b3: nat): nat {
    b0 + 0x100 * b1 + 0x1_0000 * b2 + 0x100_0000 * b3
  }

  lemma LeOf4(s: seq<u8>)
    requires |s| == 4
    ensures Le(s) == Word4(s[0], s[1], s[2], s[3])
  {
    assert s[1..][1..] == s[2..] && s[2..][1..] == s[3..] && s[3..][1..] == [];
    assert Le(s[3..]) == s[3];
    assert Le(s[2..]) == s[2] + 0x100 * Le(s[3..]);
  }

  lemma LeBytes4(v: u32)
    ensures LeBytes(v, 4) == [v % 0x100, v / 0x100 % 0x100, v / 0x1_0000 % 0x100, v / 0x100_0000]
  {
    assert LeBytes(v / 0x100 / 0x100 / 0x100, 1) == [v / 0x100_0000];
    assert LeBytes(v / 0x100 / 0x100, 2) == [v / 0x1_0000 % 0x100, v / 0x100_0000];
  }

  /** nn_read_u32le */
  function ReadU32le(buf: array<u8>, off: nat): (v: u32)
    requires off + 4 <= buf.Length
    reads buf
    ensures v == Le(buf[off..off + 4])
  {
    LeOf4(buf[off..off + 4]);
    Word4(buf[off], buf[off + 1], buf[off + 2], buf[off + 3])
  }

  /** The buffer b with the bytes from off on replaced by s. */
  function Spliced(b: seq<u8>, off: nat, s: seq<u8>): (r: seq<u8>)
    requires off + |s| <= |b|
    ensures |r| == |b| && r[off..off + |s|] == s
    ensures r[..off] == b[..off] && r[off + |s|..] == b[off + |s|..]
  {
    b[..off] + s + b[off + |s|..]
  }

  /** Two adjacent writes are one. */
  lemma SplicedTwice(b: seq<u8>, off: nat, s: seq<u8>, t: seq<u8>)
    requires off + |s| + |t| <= |b|
    ensures Spliced(Spliced(b, off, s), off + |s|, t) == Spliced(b, off, s + t)
  {
  }

  /** nn_write_u32le */
  method WriteU32le(buf: array<u8>, off: nat, v: u32)
    requires off + 4 <= buf.Length
    modifies buf
    ensures buf[..] == Spliced(old(buf[..]), off, LeBytes(v, 4))
  {
    LeBytes4(v);
    buf[off] := v % 0x100;
    buf[off + 1] := v / 0x100 % 0x100;
    buf[off + 2] := v / 0x1_0000 % 0x100;
    buf[off + 3] := v / 0x100_0000;
  }

  /** Writing the low part and then the high part writes the whole. */
  lemma {:induction false} LeBytesSplit(v: nat, m: nat, n: nat)
    ensures LeBytes(v, m + n) == LeBytes(v, m) + LeBytes(Drop(v, m), n)
  {
    if m != 0 {
      LeBytesSplit(v / 0x100, m - 1, n);
      assert LeBytes(v, m + n) == [v % 0x100] + LeBytes(v / 0x100, (m - 1) + n);
    }
  }

  lemma HalvesOf8(v: u64)
    ensures LeBytes(v, 8) == LeBytes(v % 0x1_0000_0000, 4) + LeBytes(v / 0x1_0000_0000, 4)
  {
    LeBytesSplit(v, 4, 4);
    LeBytesLow(v, 4);
    LeOfLeBytes(v, 4);
    Pow256Values();
  }

  /** nn_write_u64le */
  method WriteU64le(buf: array<u8>, off: nat, v: u64)
    requires off + 8 <= buf.Length
    modifies buf
    ensures buf[..] == Spliced(old(buf[..]), off, LeBytes(v, 8))
  {
    HalvesOf8(v);
    ghost var b := buf[..];
    WriteU32le(buf, off, v % 0x1_0000_0000);
    WriteU32le(buf, off + 4, v / 0x1_0000_0000);
    SplicedTwice(b, off, LeBytes(v % 0x1_0000_0000, 4), LeBytes(v / 0x1_0000_0000, 4));
  }

  /** Only the low digits matter. */
  lemma LeBytesLow(v: nat, n: nat)
    ensures LeBytes(v % Pow256(n), n) == LeBytes(v, n)
  {
    LeOfLeBytes(v, n);
    LeBytesOfLe(LeBytes(v, n));
  }

  /** nn_read_u64le */
  function ReadU64le(buf: array<u8>, off: nat): (v: u64)
    requires off + 8 <= buf.Length
    reads buf
    ensures v == Le(buf[off..off + 8])
  {
    assert buf[off..off + 8] == buf[off..off + 4] + buf[off + 4..off + 8];
    LeConcat(buf[off..off + 4], buf[off + 4..off + 8]);
    RaiseIsProduct(Le(buf[off + 4..off + 8]), 4);
    Pow256Values();
    ReadU32le(buf, off) + 0x1_0000_0000 * ReadU32le(buf, off + 4)
  }

  /** Trailing zero bytes add nothing. */
  lemma {:induction false} LeZeros(s: seq<u8>, zeros: seq<u8>)
    requires forall i :: 0 <= i < |zeros| ==> zeros[i] == 0
    ensures Le(s + zeros) == Le(s)
  {
    if s != [] {
      assert (s + zeros)[1..] == s[1..] + zeros;
      LeZeros(s[1..], zeros);
    } else if zeros != [] {
      assert s + zeros == zeros;
      LeZeros([], zeros[1..]);
      assert [] + zeros[1..] == zeros[1..];
    }
  }

  /** memcpy between two buffers */
  method CopyBytes(src: array<u8>, from: nat, dst: array<u8>, to: nat, n: nat)
    requires src != dst && from + n <= src.Length && to + n <= dst.Length
    modifies dst
    ensures dst[..] == Spliced(old(dst[..]), to, src[from..from + n])
  {
    for i := 0 to n
      invariant dst[..] == Spliced(old(dst[..]), to, src[from..from + i])
    {
      assert src[from..from + i + 1] == src[from..from + i] + [src[from + i]];
      dst[to + i] := src[from + i];
    }
  }
}
