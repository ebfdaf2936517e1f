/** The ChaCha20-Poly1305 construction of nn_crypto.c: section 2.8 of RFC 8439 with empty
    additional data, in place, with the wire layout [counter:8][ciphertext][tag:16]. */
module Aead {
  import opened Bits
  import opened Wire
  import opened Poly1305Spec
  import opened Poly1305
  import ChaCha20

  const OVERHEAD: nat := 24

  // ---- What the construction computes ----

  /** build_nonce */
  function Nonce(counter: u64, protocolId: u32): (n: seq<u8>)
    ensures |n| == 12
  {
    LeBytes(counter, 8) + LeBytes(protocolId, 4)
  }

  lemma LeOf8(v: u64)
    ensures Le(LeBytes(v, 8)) == v
  {
    LeOfLeBytes(v, 8);
    Pow256Values();
  }

  /** The nonce of a message is its counter and then the protocol number. */
  lemma NonceFields(counter: u64, protocolId: u32)
    ensures var n := Nonce(counter, protocolId); Le(n[..8]) == counter && Le(n[8..]) == protocolId
  {
    var n := Nonce(counter, protocolId);
    assert n[..8] == LeBytes(counter, 8) && n[8..] == LeBytes(protocolId, 4);
    LeOf8(counter);
    LeOfLeBytes(protocolId, 4);
    Pow256Values();
  }

  /** Section 2.6: the first 32 bytes of block 0 */
  function OneTimeKey(key: seq<u8>, nonce: seq<u8>): (k: seq<u8>)
    requires |key| == 32 && |nonce| == 12
    ensures |k| == 32
  {
    ChaCha20.Keystream64(ChaCha20.KeyState(key, 0, nonce))[..32]
  }

  function Zeros(n: nat): (s: seq<u8>)
    ensures |s| == n && forall i :: 0 <= i < n ==> s[i] == 0
  {
    seq(n, i => 0)
  }

  /** Zero bytes up to the next multiple of sixteen */
  function Padding(len: nat): seq<u8> {
    Zeros((16 - len % 16) % 16)
  }

  lemma PaddedLength(s: seq<u8>)
    ensures |s + Padding(|s|)| % 16 == 0
  {
  }

  /** Section 2.8: ciphertext, padding, and the two lengths, the first of them zero */
  function MacInput(ciphertext: seq<u8>): seq<u8> {
    ciphertext + Padding(|ciphertext|) + (LeBytes(0, 8) + LeBytes(|ciphertext|, 8))
  }

  function Tag(key: seq<u8>, nonce: seq<u8>, ciphertext: seq<u8>): (t: seq<u8>)
    requires |key| == 32 && |nonce| == 12
    ensures |t| == 16
  {
    Mac(MacInput(ciphertext), OneTimeKey(key, nonce))
  }

  /** The whole wire message */
  function Sealed(key: seq<u8>, counter: u64, protocolId: u32, plain: seq<u8>): (s: seq<u8>)
    requires |key| == 32
    ensures |s| == |plain| + OVERHEAD
  {
    var nonce := Nonce(counter, protocolId);
    var ciphertext := ChaCha20.Crypted(key, nonce, 1, plain);
    LeBytes(counter, 8) + ciphertext + Tag(key, nonce, ciphertext)
  }

  datatype Opening = TooShort | Forged(counter: u64) | Plain(counter: u64, plain: seq<u8>)

  function CounterOf(bytes: seq<u8>): u64
    requires |bytes| >= 8
  {
    LeBound(bytes[..8]);
    Pow256Values();
    Le(bytes[..8])
  }

  /** What decryption makes of a wire message */
  function Opened(key: seq<u8>, protocolId: u32, bytes: seq<u8>): Opening
    requires |key| == 32
  {
    if |bytes| < OVERHEAD then TooShort
    else
      var counter := CounterOf(bytes);
      var nonce := Nonce(counter, protocolId);
      var ciphertext := bytes[8..|bytes| - 16];
      if Tag(key, nonce, ciphertext) != bytes[|bytes| - 16..] then Forged(counter)
      else Plain(counter, ChaCha20.Crypted(key, nonce, 1, ciphertext))
  }

  /** Decryption of an encryption gives the counter and the plaintext back. */
  lemma OpenedSealed(key: seq<u8>, counter: u64, protocolId: u32, plain: seq<u8>)
    requires |key| == 32
    ensures Opened(key, protocolId, Sealed(key, counter, protocolId, plain)) == Plain(counter, plain)
  {
    var nonce := Nonce(counter, protocolId);
    var ciphertext := ChaCha20.Crypted(key, nonce, 1, plain);
    var tag := Tag(key, nonce, ciphertext);
    var bytes := LeBytes(counter, 8) + ciphertext + tag;
    SealedParts(LeBytes(counter, 8), ciphertext, tag, bytes);
    CounterWritten(counter, bytes);
    OpenedParts(key, counter, protocolId, ciphertext, bytes);
    ChaCha20.CryptedTwice(key, nonce, 1, plain);
  }

  lemma CounterWritten(counter: u64, bytes: seq<u8>)
    requires |bytes| >= 8 && bytes[..8] == LeBytes(counter, 8)
    ensures CounterOf(bytes) == counter
  {
    LeOfLeBytes(counter, 8);
    Pow256Values();
  }

  lemma OpenedParts(key: seq<u8>, counter: u64, protocolId: u32, ciphertext: seq<u8>, bytes: seq<u8>)
    requires |key| == 32 && |bytes| >= OVERHEAD && CounterOf(bytes) == counter
    requires bytes[8..|bytes| - 16] == ciphertext
    requires bytes[|bytes| - 16..] == Tag(key, Nonce(counter, protocolId), ciphertext)
    ensures Opened(key, protocolId, bytes)
         == Plain(counter, ChaCha20.Crypted(key, Nonce(counter, protocolId), 1, ciphertext))
  {
  }

  lemma SealedParts(c: seq<u8>, t: seq<u8>, tag: seq<u8>, bytes: seq<u8>)
    requires |c| == 8 && |tag| == 16 && bytes == c + t + tag
    ensures bytes[..8] == c && bytes[8..|bytes| - 16] == t && bytes[|bytes| - 16..] == tag
  {
  }

  /** Conversely, whatever decryption accepts is exactly the encryption of what it returns. */
  lemma SealedOpened(key: seq<u8>, protocolId: u32, bytes: seq<u8>, counter: u64, plain: seq<u8>)
    requires |key| == 32 && Opened(key, protocolId, bytes) == Plain(counter, plain)
    ensures bytes == Sealed(key, counter, protocolId, plain)
  {
    var ciphertext, tag := OpenedGives(key, protocolId, bytes, counter, plain);
    SealedFromParts(key, counter, protocolId, ciphertext, tag);
  }

  lemma OpenedGives(key: seq<u8>, protocolId: u32, bytes: seq<u8>, counter: u64, plain: seq<u8>)
    returns (ciphertext: seq<u8>, tag: seq<u8>)
    requires |key| == 32 && Opened(key, protocolId, bytes) == Plain(counter, plain)
    ensures bytes == LeBytes(counter, 8) + ciphertext + tag
    ensures tag == Tag(key, Nonce(counter, protocolId), ciphertext)
    ensures plain == ChaCha20.Crypted(key, Nonce(counter, protocolId), 1, ciphertext)
  {
    ciphertext, tag := Parts(bytes, counter);
  }

  lemma Parts(bytes: seq<u8>, counter: u64) returns (ciphertext: seq<u8>, tag: seq<u8>)
    requires |bytes| >= OVERHEAD && CounterOf(bytes) == counter
    ensures ciphertext == bytes[8..|bytes| - 16] && tag == bytes[|bytes| - 16..]
    ensures bytes == LeBytes(counter, 8) + ciphertext + tag
  {
    ciphertext, tag := bytes[8..|bytes| - 16], bytes[|bytes| - 16..];
    LeBytesOfLe(bytes[..8]);
  }

  lemma SealedFromParts(key: seq<u8>, counter: u64, protocolId: u32, ciphertext: seq<u8>, tag: seq<u8>)
    requires |key| == 32 && tag == Tag(key, Nonce(counter, protocolId), ciphertext)
    ensures Sealed(key, counter, protocolId, ChaCha20.Crypted(key, Nonce(counter, protocolId), 1, ciphertext))
         == LeBytes(counter, 8) + ciphertext + tag
  {
    ChaCha20.CryptedTwice(key, Nonce(counter, protocolId), 1, ciphertext);
  }

  // ---- The C functions ----

  method BuildNonce(counter: u64, protocolId: u32) returns (nonce: array<u8>)
    ensures fresh(nonce) && nonce.Length == 12 && nonce[..] == Nonce(counter, protocolId)
    ensures Le(nonce[..8]) == counter && Le(nonce[8..]) == protocolId
  {
    NonceFields(counter, protocolId);
    nonce := new u8[12];
    WriteU64le(nonce, 0, counter);
    WriteU32le(nonce, 8, protocolId);
    assert nonce[..] == nonce[0..8] + nonce[8..12];
    assert nonce[..8] == nonce[..][..8] && nonce[8..] == nonce[..][8..];
  }

  /** Block 0, whose first half is the one-time key */
  method PolyKeyBlock(key: array<u8>, nonce: array<u8>) returns (block: array<u8>)
    requires key.Length == 32 && nonce.Length == 12
    ensures fresh(block) && block.Length == 64 && block[..32] == OneTimeKey(key[..], nonce[..])
  {
    var state := new u32[16];
    block := new u8[64];
    ChaCha20.Setup(state, key, 0, nonce);
    ChaCha20.Block(state, block);
    assert block[..32] == block[..][..32];
  }

  /** The last block of ciphertext, padded with zeros */
  method LastBlock(buf: array<u8>, off: nat, rem: nat) returns (block: array<u8>)
    requires off + rem <= buf.Length && rem < 16
    ensures fresh(block) && block.Length == 16 && block[..] == buf[off..off + rem] + Zeros(16 - rem)
  {
    block := new u8[16](i => 0);
    CopyBytes(buf, off, block, 0, rem);
  }

  /** le64(0) followed by le64(ciphertext length) */
  method LengthsBlock(len: u64) returns (block: array<u8>)
    ensures fresh(block) && block.Length == 16 && block[..] == LeBytes(0, 8) + LeBytes(len, 8)
  {
    block := new u8[16];
    WriteU64le(block, 0, 0);
    WriteU64le(block, 8, len);
    assert block[..] == block[0..8] + block[8..16];
  }

  /** Steps 3 and 4 of both functions: the tag of the ciphertext at off */
  method ComputeTag(keyBlock: array<u8>, buf: array<u8>, off: nat, len: u64, tag: array<u8>, tagOff: nat)
    requires keyBlock.Length >= 32 && off + len <= buf.Length && tagOff + 16 <= tag.Length
    modifies tag
    ensures tag[..] == Spliced(old(tag[..]), tagOff, Mac(MacInput(old(buf[off..off + len])), old(keyBlock[..32])))
  {
    var st := AbsorbAll(keyBlock, buf, off, len);
    ghost var input, kb := MacInput(buf[off..off + len]), keyBlock[..32];
    MacIs(input, kb, st.acc, st.keyR, st.keyS);
    FinishWhole(st, tag, tagOff, Mac(input, kb));
  }

  method AbsorbAll(keyBlock: array<u8>, buf: array<u8>, off: nat, len: u64) returns (st: Poly1305State)
    requires keyBlock.Length >= 32 && off + len <= buf.Length
    ensures fresh(st) && fresh(st.h) && st.Valid()
    ensures st.keyR == KeyR(keyBlock[..32]) && st.keyS == KeyS(keyBlock[..32])
    ensures st.acc == Absorb(0, MacInput(buf[off..off + len]), st.keyR)
  {
    st := new Poly1305State(keyBlock);
    AbsorbMessage(st, buf, off, len);
  }

  method AbsorbMessage(st: Poly1305State, buf: array<u8>, off: nat, len: u64)
    requires st.Valid() && st.acc == 0 && off + len <= buf.Length
    modifies st`acc, st.h
    ensures st.Valid() && st.acc == Absorb(0, MacInput(buf[off..off + len]), st.keyR)
  {
    ghost var padded := AbsorbCiphertext(st, buf, off, len);
    AbsorbLengths(st, len, padded);
    MacInputIs(buf[off..off + len], padded);
  }

  lemma MacInputIs(ct: seq<u8>, padded: seq<u8>)
    requires padded == ct + Padding(|ct|)
    ensures MacInput(ct) == padded + (LeBytes(0, 8) + LeBytes(|ct|, 8))
  {
  }

  lemma MacIs(input: seq<u8>, kb: seq<u8>, acc: nat, r: nat, s: nat)
    requires |kb| == 32 && r == KeyR(kb) && s == KeyS(kb) && acc == Absorb(0, input, r)
    ensures LeBytes(acc + s, 16) == Mac(input, kb)
  {
  }

  /** poly1305_finish with nothing left to absorb */
  method FinishWhole(st: Poly1305State, tag: array<u8>, tagOff: nat, ghost mac: seq<u8>)
    requires st.Valid() && tagOff + 16 <= tag.Length && mac == LeBytes(st.acc + st.keyS, 16)
    modifies st`acc, st.h, tag
    ensures tag[..] == Spliced(old(tag[..]), tagOff, mac)
  {
    var none := new u8[0];
    assert none[0..0] == [] && Absorb(st.acc, [], st.keyR) == st.acc;
    st.Finish(none, 0, 0, tag, tagOff);
  }

  lemma SliceOfSlice(s: seq<u8>, from: nat, to: nat, k: nat)
    requires from + k <= to <= |s|
    ensures s[from..to][..k] == s[from..from + k] && s[from..to][k..] == s[from + k..to]
  {
  }

  method AbsorbCiphertext(st: Poly1305State, buf: array<u8>, off: nat, len: u64) returns (ghost padded: seq<u8>)
    requires st.Valid() && st.acc == 0 && off + len <= buf.Length
    modifies st`acc, st.h
    ensures padded == buf[off..off + len] + Padding(len) && |padded| % 16 == 0
    ensures st.Valid() && st.acc == Absorb(0, padded, st.keyR)
  {
    ghost var ct := buf[off..off + len];
    PaddedLength(ct);
    padded := ct + Padding(len);
    var rem: nat := len % 16;
    var full: nat := len - rem;
    SliceOfSlice(buf[..], off, off + len, full);
    st.Blocks(buf, off, full);
    if rem > 0 {
      var last := LastBlock(buf, off + full, rem);
      PaddedSplit(ct, full, last[..]);
      AbsorbLast(st, ct[..full], last);
    } else {
      assert ct[..full] == ct && ct + Padding(len) == ct;
    }
  }

  method AbsorbLast(st: Poly1305State, ghost before: seq<u8>, last: array<u8>)
    requires st.Valid() && st.acc == Absorb(0, before, st.keyR) && |before| % 16 == 0 && last.Length == 16
    modifies st`acc, st.h
    ensures st.Valid() && st.acc == Absorb(0, before + last[..], st.keyR)
  {
    assert last[..] == last[0..16];
    AbsorbConcat(0, before, last[..], st.keyR);
    st.Blocks(last, 0, 16);
  }

  lemma PaddedSplit(ct: seq<u8>, full: nat, last: seq<u8>)
    requires full == |ct| - |ct| % 16 && |ct| % 16 > 0
    requires last == ct[full..] + Zeros(16 - |ct| % 16)
    ensures ct + Padding(|ct|) == ct[..full] + last
  {
  }

  method AbsorbLengths(st: Poly1305State, len: u64, ghost before: seq<u8>)
    requires st.Valid() && st.acc == Absorb(0, before, st.keyR) && |before| % 16 == 0
    modifies st`acc, st.h
    ensures st.Valid() && st.acc == Absorb(0, before + (LeBytes(0, 8) + LeBytes(len, 8)), st.keyR)
  {
    var lengths := LengthsBlock(len);
    AbsorbLast(st, before, lengths);
  }

  lemma SealedInPlace(b: seq<u8>, key: seq<u8>, counter: u64, protocolId: u32, plain: seq<u8>, ct: seq<u8>,
      tag: seq<u8>)
    requires |key| == 32 && |plain| + OVERHEAD <= |b|
    requires ct == ChaCha20.Crypted(key, Nonce(counter, protocolId), 1, plain)
    requires tag == Tag(key, Nonce(counter, protocolId), ct)
    ensures Spliced(Spliced(Spliced(b, 0, LeBytes(counter, 8)), 8, ct), 8 + |ct|, tag)
         == Spliced(b, 0, Sealed(key, counter, protocolId, plain))
  {
    var c := LeBytes(counter, 8);
    SplicedTwice(b, 0, c, ct);
    SplicedTwice(b, 0, c + ct, tag);
  }

  /** nn_crypto_encrypt: buf[8..8 + plainLen] is replaced by the sealed message, which takes
      buf[..plainLen + 24]. */
  method Encrypt(key: array<u8>, counter: u64, protocolId: u32, buf: array<u8>, plainLen: u64) returns (n: nat)
    requires key.Length == 32 && plainLen + OVERHEAD <= buf.Length && buf != key
    modifies buf
    ensures n == plainLen + OVERHEAD
    ensures buf[..] == Spliced(old(buf[..]), 0, Sealed(key[..], counter, protocolId, old(buf[8..8 + plainLen])))
  {
    ghost var b, k, plain := buf[..], key[..], buf[8..8 + plainLen];
    var nonce := BuildNonce(counter, protocolId);
    WriteU64le(buf, 0, counter);
    assert buf[8..8 + plainLen] == plain by { TailKept(b, LeBytes(counter, 8), 8 + plainLen); }
    ghost var ct := EncryptAndTag(key, nonce, buf, plainLen);
    SealedInPlace(b, k, counter, protocolId, plain, ct, Tag(k, Nonce(counter, protocolId), ct));
    n := OVERHEAD + plainLen;
  }

  lemma TailKept(b: seq<u8>, s: seq<u8>, end: nat)
    requires |s| <= end <= |b|
    ensures Spliced(b, 0, s)[|s|..end] == b[|s|..end]
  {
  }

  /** Encrypt the plaintext at byte 8 in place and put the tag behind it. */
  method EncryptAndTag(key: array<u8>, nonce: array<u8>, buf: array<u8>, len: u64) returns (ghost ct: seq<u8>)
    requires key.Length == 32 && nonce.Length == 12 && len + OVERHEAD <= buf.Length && buf != key && buf != nonce
    modifies buf
    ensures ct == ChaCha20.Crypted(key[..], nonce[..], 1, old(buf[8..8 + len]))
    ensures buf[..] == Spliced(Spliced(old(buf[..]), 8, ct), 8 + |ct|, Tag(key[..], nonce[..], ct))
  {
    ghost var b := buf[..];
    ct := ChaCha20.Crypted(key[..], nonce[..], 1, buf[8..8 + len]);
    var block := PolyKeyBlock(key, nonce);
    ChaCha20.Crypt(key, nonce, 1, buf, 8, len);
    assert buf[8..8 + len] == ct;
    ComputeTag(block, buf, 8, len, buf, 8 + len);
  }

  datatype DecryptResult = ErrShort | ErrAuth(counter: u64) | Ok(counter: u64, plainLen: nat)

  /** What nn_crypto_decrypt reports for an opening */
  function Report(o: Opening): DecryptResult {
    match o
    case TooShort => ErrShort
    case Forged(counter) => ErrAuth(counter)
    case Plain(counter, plain) => Ok(counter, |plain|)
  }

  /** The differences of all bytes, collected: nothing is left exactly when the tags agree. */
  method SameTag(computed: array<u8>, buf: array<u8>, off: nat) returns (same: bool)
    requires computed.Length == 16 && off + 16 <= buf.Length
    ensures same <==> computed[..] == buf[off..off + 16]
  {
    var diff: nat := 0;
    for i := 0 to 16
      invariant diff == 0 <==> computed[..i] == buf[off..off + i]
    {
      XorIsZero(computed[i], buf[off + i]);
      OrIsZero(diff, Xor(computed[i], buf[off + i]));
      assert computed[..i + 1] == computed[..i] + [computed[i]];
      assert buf[off..off + i + 1] == buf[off..off + i] + [buf[off + i]];
      diff := Or(diff, Xor(computed[i], buf[off + i]));
    }
    assert computed[..16] == computed[..];
    same := diff == 0;
  }

  lemma OrIsZero(x: nat, y: nat)
    ensures Or(x, y) == 0 <==> x == 0 && y == 0
  {
  }

  lemma OpenedBy(key: seq<u8>, protocolId: u32, bytes: seq<u8>, counter: u64, nonce: seq<u8>,
      ciphertext: seq<u8>, tag: seq<u8>)
    requires |key| == 32 && |bytes| >= OVERHEAD && counter == CounterOf(bytes) && nonce == Nonce(counter, protocolId)
    requires ciphertext == bytes[8..|bytes| - 16] && tag == bytes[|bytes| - 16..]
    ensures Opened(key, protocolId, bytes)
         == if Tag(key, nonce, ciphertext) != tag then Forged(counter)
           else Plain(counter, ChaCha20.Crypted(key, nonce, 1, ciphertext))
  {
  }

  lemma MessageParts(buf: array<u8>, totalLen: nat)
    requires OVERHEAD <= totalLen <= buf.Length
    ensures var bytes := buf[..totalLen]; var n := totalLen - 16;
      bytes[..8] == buf[0..8] && bytes[8..|bytes| - 16] == buf[8..n] && bytes[|bytes| - 16..] == buf[n..totalLen]
  {
  }

  /** nn_crypto_decrypt: the plaintext replaces the ciphertext if the tag is right, and the buffer
      keeps every byte otherwise. */
  method Decrypt(key: array<u8>, protocolId: u32, buf: array<u8>, totalLen: u64) returns (r: DecryptResult)
    requires key.Length == 32 && totalLen <= buf.Length && buf != key
    modifies buf
    ensures r == Report(Opened(key[..], protocolId, old(buf[..totalLen])))
    ensures !r.Ok? ==> buf[..] == old(buf[..])
    ensures r.Ok? ==> buf[..] == Spliced(old(buf[..]), 8, Opened(key[..], protocolId, old(buf[..totalLen])).plain)
  {
    if totalLen < OVERHEAD {
      return ErrShort;
    }
    var counter := ReadU64le(buf, 0);
    assert buf[..totalLen][..8] == buf[0..8];
    var nonce := BuildNonce(counter, protocolId);
    var len: u64 := totalLen - OVERHEAD;
    var same := Genuine(key, counter, protocolId, nonce, buf, totalLen);
    if !same {
      return ErrAuth(counter);
    }
    ChaCha20.Crypt(key, nonce, 1, buf, 8, len);
    r := Ok(counter, len);
  }

  /** Whether the tag is right, and what opening makes of the message then */
  method Genuine(key: array<u8>, counter: u64, protocolId: u32, nonce: array<u8>, buf: array<u8>, totalLen: u64)
    returns (same: bool)
    requires key.Length == 32 && nonce.Length == 12 && nonce[..] == Nonce(counter, protocolId)
    requires OVERHEAD <= totalLen <= buf.Length && counter == CounterOf(buf[..totalLen])
    ensures Opened(key[..], protocolId, buf[..totalLen])
         == if same then Plain(counter, ChaCha20.Crypted(key[..], nonce[..], 1, buf[8..totalLen - 16]))
           else Forged(counter)
  {
    var len: u64 := totalLen - OVERHEAD;
    MessageParts(buf, totalLen);
    OpenedBy(key[..], protocolId, buf[..totalLen], counter, nonce[..], buf[8..8 + len], buf[8 + len..8 + len + 16]);
    same := VerifyTag(key, nonce, buf, len);
  }

  /** Step 2: the tag over the ciphertext at byte 8, compared with the bytes behind it */
  method VerifyTag(key: array<u8>, nonce: array<u8>, buf: array<u8>, len: u64) returns (same: bool)
    requires key.Length == 32 && nonce.Length == 12 && len + OVERHEAD <= buf.Length
    ensures same <==> Tag(key[..], nonce[..], buf[8..8 + len]) == buf[8 + len..8 + len + 16]
  {
    var block := PolyKeyBlock(key, nonce);
    var computed := new u8[16];
    ComputeTag(block, buf, 8, len, computed, 0);
    assert computed[..] == computed[0..16];
    same := SameTag(computed, buf, 8 + len);
  }

  /** The plaintext stays where it was in the buffer. */
  lemma SealedThenOpened(b: seq<u8>, key: seq<u8>, counter: u64, protocolId: u32, plain: seq<u8>, total: nat)
    requires |key| == 32 && total == |plain| + OVERHEAD <= |b|
    ensures var e := Spliced(b, 0, Sealed(key, counter, protocolId, plain));
      && Opened(key, protocolId, e[..total]) == Plain(counter, plain)
      && Spliced(e, 8, plain)[8..8 + |plain|] == plain && Spliced(e, 8, plain)[total..] == b[total..]
  {
    OpenedSealed(key, counter, protocolId, plain);
    var e := Spliced(b, 0, Sealed(key, counter, protocolId, plain));
    assert e[..total] == Sealed(key, counter, protocolId, plain);
  }

  /** Both in the same buffer: decrypting what was encrypted succeeds, reports the counter, and leaves the
      plaintext where it was. */
  method RoundTrip(key: array<u8>, counter: u64, protocolId: u32, buf: array<u8>, plainLen: u64)
    returns (r: DecryptResult)
    requires key.Length == 32 && plainLen + OVERHEAD <= buf.Length && buf != key
    requires plainLen + OVERHEAD < 0x1_0000_0000_0000_0000
    modifies buf
    ensures r == Ok(counter, plainLen)
    ensures buf[8..8 + plainLen] == old(buf[8..8 + plainLen])
    ensures buf[plainLen + OVERHEAD..] == old(buf[plainLen + OVERHEAD..])
  {
    ghost var b, k, plain := buf[..], key[..], buf[8..8 + plainLen];
    var n := Encrypt(key, counter, protocolId, buf, plainLen);
    SealedThenOpened(b, k, counter, protocolId, plain, n);
    r := Decrypt(key, protocolId, buf, n);
  }
}
