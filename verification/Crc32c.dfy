/** CRC32C of nn_crc32c.c: the table-driven loop against the bit-serial register of section 12.1 of
    RFC 3720, and what the checksum detects. */
module Crc32c {
  import opened ShiftRegister

  // ---- The 32-bit register ----

  function Xor(a: bv32, b: bv32): bv32 {
    a ^ b
  }

  function Half(w: bv32): bv32 {
    w >> 1
  }

  predicate Low(w: bv32) {
    w & 1 == 1
  }

  function Word(b: bool): bv32 {
    if b then 1 else 0
  }

  /** The reflected Castagnoli polynomial */
  function Poly(): bv32 {
    0x82F6_3B78
  }

  function Words32(): Ops<bv32> {
    Ops(Xor, Half, Low, Word, Poly())
  }

  /** One shift of the generator */
  function Shift(crc: bv32): bv32 {
    (crc >> 1) ^ (if crc & 1 == 1 then 0x82F6_3B78 else 0)
  }

  /** A message bit is added to the low end before a shift. */
  function Feed(crc: bv32, b: bool): bv32 {
    Shift(Xor(crc, Word(b)))
  }

  lemma ShiftInjective(a: bv32, b: bv32)
    requires Shift(a) == Shift(b)
    ensures a == b
  {
  }

  /** The polynomial has its top bit set, so that bit tells whether the polynomial was added. */
  lemma ShiftOnto(y: bv32) returns (x: bv32)
    ensures Shift(x) == y
  {
    if y & 0x8000_0000 != 0 {
      x := ((y ^ 0x82F6_3B78) << 1) | 1;
    } else {
      x := y << 1;
    }
  }

  lemma XorInjective(a: bv32, b: bv32, w: bv32)
    requires Xor(a, w) == Xor(b, w)
    ensures a == b
  {
    assert (a ^ w) ^ w == a && (b ^ w) ^ w == b;
  }

  lemma FeedInjective(a: bv32, b: bv32, x: bool)
    requires Feed(a, x) == Feed(b, x)
    ensures a == b
  {
    ShiftInjective(Xor(a, Word(x)), Xor(b, Word(x)));
    XorInjective(a, b, Word(x));
  }

  // ---- It is a shift register ----

  lemma HalfOfXor(a: bv32, b: bv32)
    ensures Half(Xor(a, b)) == Xor(Half(a), Half(b))
  {
  }

  lemma LowOfXor(a: bv32, b: bv32)
    ensures Low(Xor(a, b)) == (Low(a) != Low(b))
  {
  }

  lemma HalfOfWord(x: bool)
    ensures Half(Word(x)) == Word(false) && Low(Word(x)) == x
  {
  }

  lemma XorZero(a: bv32)
    ensures Xor(a, Word(false)) == a
  {
  }

  lemma XorThree(a: bv32, b: bv32, c: bv32)
    ensures Xor(Xor(a, b), c) == (a ^ b) ^ c
  {
  }

  lemma Reorder(a: bv32, b: bv32, c: bv32)
    ensures (a ^ b) ^ c == (a ^ c) ^ b
  {
  }

  lemma XorSwap(a: bv32, b: bv32, c: bv32)
    ensures Xor(Xor(a, b), c) == Xor(Xor(a, c), b)
  {
    XorThree(a, b, c);
    Reorder(a, b, c);
    XorThree(a, c, b);
  }

  lemma ShiftIs(x: bv32)
    ensures Shift(x) == Xor(Half(x), Feedback(Words32(), x))
  {
  }

  lemma HalfTwice(w: bv32)
    ensures Half(Half(w)) == w >> 2
  {
  }

  lemma HalfFour(w: bv32)
    ensures Half(Half(Half(Half(w)))) == w >> 4
  {
    HalfTwice(w);
    HalfTwice(w >> 2);
  }

  lemma HalfEight(w: bv32)
    ensures Iterate(Half, w, 8) == w >> 8
  {
    Iterate8(Half, w);
    HalfFour(w);
    HalfFour(w >> 4);
  }

  lemma BitEightUp(w: bv32, i: nat)
    ensures Bit(Words32(), w, i + 8) == Bit(Words32(), w >> 8, i)
  {
    BitAfter8(Words32(), w, i);
    HalfEight(w);
  }

  lemma AllShiftedOut(w: bv32, w1: bv32, w2: bv32, w3: bv32, w4: bv32)
    requires w1 == w >> 8 && w2 == w1 >> 8 && w3 == w2 >> 8 && w4 == w3 >> 8
    ensures !Low(w4)
  {
  }

  lemma NoBit32(w: bv32)
    ensures !Bit(Words32(), w, 32)
  {
    var w1 := w >> 8;
    var w2 := w1 >> 8;
    var w3 := w2 >> 8;
    var w4 := w3 >> 8;
    HalfEight(w);
    HalfEight(w1);
    HalfEight(w2);
    HalfEight(w3);
    AllShiftedOut(w, w1, w2, w3, w4);
    NoBitAfter32(Words32(), w, w1, w2, w3, w4);
  }

  lemma PolyTop()
    ensures Bit(Words32(), Poly(), 31)
  {
    var o := Words32();
    BitEightUp(0x82F6_3B78, 23);
    BitEightUp(0x82_F63B, 15);
    BitEightUp(0x82F6, 7);
    assert Half(0x82) == 0x41 && Half(0x41) == 0x20 && Half(0x20) == 0x10 && Half(0x10) == 8;
    assert Half(8) == 4 && Half(4) == 2 && Half(2) == 1;
    assert Bit(o, 8, 3);
    assert Bit(o, 0x82, 7) == Bit(o, 0x20, 5) == Bit(o, 8, 3);
  }

  lemma Words32AreWords()
    ensures Words(Words32())
  {
    var o := Words32();
    forall a, b ensures XorLaw(o, a, b) { HalfOfXor(a, b); LowOfXor(a, b); }
    forall x ensures WordLaw(o, x) { HalfOfWord(x); }
    forall a ensures ZeroLaw(o, a) { XorZero(a); }
    forall a, b, c ensures SwapLaw(o, a, b, c) { XorSwap(a, b, c); }
    forall w ensures TopLaw(o, w) { NoBit32(w); }
    PolyTop();
  }

  lemma FeedSteps()
    ensures Steps(Words32(), Shift, Feed)
  {
    var o := Words32();
    forall x ensures ShiftLaw(o, Shift, x) { ShiftIs(x); }
    forall s, x ensures StepLaw(o, Shift, Feed, s, x) { }
    forall a, b, x ensures UndoLaw(Feed, a, b, x) {
      if Feed(a, x) == Feed(b, x) { FeedInjective(a, b, x); }
    }
  }

  // ---- The table ----

  /** crc32c_table, sixteen entries at a time */
  function Row0(k: bv8): bv32 {
    match k
    case 0 => 0x00000000 case 1 => 0xF26B8303 case 2 => 0xE13B70F7 case 3 => 0x1350F3F4
    case 4 => 0xC79A971F case 5 => 0x35F1141C case 6 => 0x26A1E7E8 case 7 => 0xD4CA64EB
    case 8 => 0x8AD958CF case 9 => 0x78B2DBCC case 10 => 0x6BE22838 case 11 => 0x9989AB3B
    case 12 => 0x4D43CFD0 case 13 => 0xBF284CD3 case 14 => 0xAC78BF27 case _ => 0x5E133C24
  }

  function Row1(k: bv8): bv32 {
    match k
    case 0 => 0x105EC76F case 1 => 0xE235446C case 2 => 0xF165B798 case 3 => 0x030E349B
    case 4 => 0xD7C45070 case 5 => 0x25AFD373 case 6 => 0x36FF2087 case 7 => 0xC494A384
    case 8 => 0x9A879FA0 case 9 => 0x68EC1CA3 case 10 => 0x7BBCEF57 case 11 => 0x89D76C54
    case 12 => 0x5D1D08BF case 13 => 0xAF768BBC case 14 => 0xBC267848 case _ => 0x4E4DFB4B
  }

  function Row2(k: bv8): bv32 {
    match k
    case 0 => 0x20BD8EDE case 1 => 0xD2D60DDD case 2 => 0xC186FE29 case 3 => 0x33ED7D2A
    case 4 => 0xE72719C1 case 5 => 0x154C9AC2 case 6 => 0x061C6936 case 7 => 0xF477EA35
    case 8 => 0xAA64D611 case 9 => 0x580F5512 case 10 => 0x4B5FA6E6 case 11 => 0xB93425E5
    case 12 => 0x6DFE410E case 13 => 0x9F95C20D case 14 => 0x8CC531F9 case _ => 0x7EAEB2FA
  }

  function Row3(k: bv8): bv32 {
    match k
    case 0 => 0x30E349B1 case 1 => 0xC288CAB2 case 2 => 0xD1D83946 case 3 => 0x23B3BA45
    case 4 => 0xF779DEAE case 5 => 0x05125DAD case 6 => 0x1642AE59 case 7 => 0xE4292D5A
    case 8 => 0xBA3A117E case 9 => 0x4851927D case 10 => 0x5B016189 case 11 => 0xA96AE28A
    case 12 => 0x7DA08661 case 13 => 0x8FCB0562 case 14 => 0x9C9BF696 case _ => 0x6EF07595
  }

  function Row4(k: bv8): bv32 {
    match k
    case 0 => 0x417B1DBC case 1 => 0xB3109EBF case 2 => 0xA0406D4B case 3 => 0x522BEE48
    case 4 => 0x86E18AA3 case 5 => 0x748A09A0 case 6 => 0x67DAFA54 case 7 => 0x95B17957
    case 8 => 0xCBA24573 case 9 => 0x39C9C670 case 10 => 0x2A993584 case 11 => 0xD8F2B687
    case 12 => 0x0C38D26C case 13 => 0xFE53516F case 14 => 0xED03A29B case _ => 0x1F682198
  }

  function Row5(k: bv8): bv32 {
    match k
    case 0 => 0x5125DAD3 case 1 => 0xA34E59D0 case 2 => 0xB01EAA24 case 3 => 0x42752927
    case 4 => 0x96BF4DCC case 5 => 0x64D4CECF case 6 => 0x77843D3B case 7 => 0x85EFBE38
    case 8 => 0xDBFC821C case 9 => 0x2997011F case 10 => 0x3AC7F2EB case 11 => 0xC8AC71E8
    case 12 => 0x1C661503 case 13 => 0xEE0D9600 case 14 => 0xFD5D65F4 case _ => 0x0F36E6F7
  }

  function Row6(k: bv8): bv32 {
    match k
    case 0 => 0x61C69362 case 1 => 0x93AD1061 case 2 => 0x80FDE395 case 3 => 0x72966096
    case 4 => 0xA65C047D case 5 => 0x5437877E case 6 => 0x4767748A case 7 => 0xB50CF789
    case 8 => 0xEB1FCBAD case 9 => 0x197448AE case 10 => 0x0A24BB5A case 11 => 0xF84F3859
    case 12 => 0x2C855CB2 case 13 => 0xDEEEDFB1 case 14 => 0xCDBE2C45 case _ => 0x3FD5AF46
  }

  function Row7(k: bv8): bv32 {
    match k
    case 0 => 0x7198540D case 1 => 0x83F3D70E case 2 => 0x90A324FA case 3 => 0x62C8A7F9
    case 4 => 0xB602C312 case 5 => 0x44694011 case 6 => 0x5739B3E5 case 7 => 0xA55230E6
    case 8 => 0xFB410CC2 case 9 => 0x092A8FC1 case 10 => 0x1A7A7C35 case 11 => 0xE811FF36
    case 12 => 0x3CDB9BDD case 13 => 0xCEB018DE case 14 => 0xDDE0EB2A case _ => 0x2F8B6829
  }

  function Row8(k: bv8): bv32 {
    match k
    case 0 => 0x82F63B78 case 1 => 0x709DB87B case 2 => 0x63CD4B8F case 3 => 0x91A6C88C
    case 4 => 0x456CAC67 case 5 => 0xB7072F64 case 6 => 0xA457DC90 case 7 => 0x563C5F93
    case 8 => 0x082F63B7 case 9 => 0xFA44E0B4 case 10 => 0xE9141340 case 11 => 0x1B7F9043
    case 12 => 0xCFB5F4A8 case 13 => 0x3DDE77AB case 14 => 0x2E8E845F case _ => 0xDCE5075C
  }

  function Row9(k: bv8): bv32 {
    match k
    case 0 => 0x92A8FC17 case 1 => 0x60C37F14 case 2 => 0x73938CE0 case 3 => 0x81F80FE3
    case 4 => 0x55326B08 case 5 => 0xA759E80B case 6 => 0xB4091BFF case 7 => 0x466298FC
    case 8 => 0x1871A4D8 case 9 => 0xEA1A27DB case 10 => 0xF94AD42F case 11 => 0x0B21572C
    case 12 => 0xDFEB33C7 case 13 => 0x2D80B0C4 case 14 => 0x3ED04330 case _ => 0xCCBBC033
  }

  function RowA(k: bv8): bv32 {
    match k
    case 0 => 0xA24BB5A6 case 1 => 0x502036A5 case 2 => 0x4370C551 case 3 => 0xB11B4652
    case 4 => 0x65D122B9 case 5 => 0x97BAA1BA case 6 => 0x84EA524E case 7 => 0x7681D14D
    case 8 => 0x2892ED69 case 9 => 0xDAF96E6A case 10 => 0xC9A99D9E case 11 => 0x3BC21E9D
    case 12 => 0xEF087A76 case 13 => 0x1D63F975 case 14 => 0x0E330A81 case _ => 0xFC588982
  }

  function RowB(k: bv8): bv32 {
    match k
    case 0 => 0xB21572C9 case 1 => 0x407EF1CA case 2 => 0x532E023E case 3 => 0xA145813D
    case 4 => 0x758FE5D6 case 5 => 0x87E466D5 case 6 => 0x94B49521 case 7 => 0x66DF1622
    case 8 => 0x38CC2A06 case 9 => 0xCAA7A905 case 10 => 0xD9F75AF1 case 11 => 0x2B9CD9F2
    case 12 => 0xFF56BD19 case 13 => 0x0D3D3E1A case 14 => 0x1E6DCDEE case _ => 0xEC064EED
  }

  function RowC(k: bv8): bv32 {
    match k
    case 0 => 0xC38D26C4 case 1 => 0x31E6A5C7 case 2 => 0x22B65633 case 3 => 0xD0DDD530
    case 4 => 0x0417B1DB case 5 => 0xF67C32D8 case 6 => 0xE52CC12C case 7 => 0x1747422F
    case 8 => 0x49547E0B case 9 => 0xBB3FFD08 case 10 => 0xA86F0EFC case 11 => 0x5A048DFF
    case 12 => 0x8ECEE914 case 13 => 0x7CA56A17 case 14 => 0x6FF599E3 case _ => 0x9D9E1AE0
  }

  function RowD(k: bv8): bv32 {
    match k
    case 0 => 0xD3D3E1AB case 1 => 0x21B862A8 case 2 => 0x32E8915C case 3 => 0xC083125F
    case 4 => 0x144976B4 case 5 => 0xE622F5B7 case 6 => 0xF5720643 case 7 => 0x07198540
    case 8 => 0x590AB964 case 9 => 0xAB613A67 case 10 => 0xB831C993 case 11 => 0x4A5A4A90
    case 12 => 0x9E902E7B case 13 => 0x6CFBAD78 case 14 => 0x7FAB5E8C case _ => 0x8DC0DD8F
  }

  function RowE(k: bv8): bv32 {
    match k
    case 0 => 0xE330A81A case 1 => 0x115B2B19 case 2 => 0x020BD8ED case 3 => 0xF0605BEE
    case 4 => 0x24AA3F05 case 5 => 0xD6C1BC06 case 6 => 0xC5914FF2 case 7 => 0x37FACCF1
    case 8 => 0x69E9F0D5 case 9 => 0x9B8273D6 case 10 => 0x88D28022 case 11 => 0x7AB90321
    case 12 => 0xAE7367CA case 13 => 0x5C18E4C9 case 14 => 0x4F48173D case _ => 0xBD23943E
  }

  function RowF(k: bv8): bv32 {
    match k
    case 0 => 0xF36E6F75 case 1 => 0x0105EC76 case 2 => 0x12551F82 case 3 => 0xE03E9C81
    case 4 => 0x34F4F86A case 5 => 0xC69F7B69 case 6 => 0xD5CF889D case 7 => 0x27A40B9E
    case 8 => 0x79B737BA case 9 => 0x8BDCB4B9 case 10 => 0x988C474D case 11 => 0x6AE7C44E
    case 12 => 0xBE2DA0A5 case 13 => 0x4C4623A6 case 14 => 0x5F16D052 case _ => 0xAD7D5351
  }

  function Table(i: bv8): bv32 {
    var k := i & 0x0F;
    match i & 0xF0
    case 0x00 => Row0(k)
    case 0x10 => Row1(k)
    case 0x20 => Row2(k)
    case 0x30 => Row3(k)
    case 0x40 => Row4(k)
    case 0x50 => Row5(k)
    case 0x60 => Row6(k)
    case 0x70 => Row7(k)
    case 0x80 => Row8(k)
    case 0x90 => Row9(k)
    case 0xA0 => RowA(k)
    case 0xB0 => RowB(k)
    case 0xC0 => RowC(k)
    case 0xD0 => RowD(k)
    case 0xE0 => RowE(k)
    case _ => RowF(k)
  }

  function Shifts8(x: bv32): bv32 {
    Shift(Shift(Shift(Shift(Shift(Shift(Shift(Shift(x))))))))
  }

  lemma Row0IsGenerated(k: bv8)
    requires k < 16
    ensures Row0(k) == Shifts8((k | 0x00) as bv32)
  {
  }

  lemma Row1IsGenerated(k: bv8)
    requires k < 16
    ensures Row1(k) == Shifts8((k | 0x10) as bv32)
  {
  }

  lemma Row2IsGenerated(k: bv8)
    requires k < 16
    ensures Row2(k) == Shifts8((k | 0x20) as bv32)
  {
  }

  lemma Row3IsGenerated(k: bv8)
    requires k < 16
    ensures Row3(k) == Shifts8((k | 0x30) as bv32)
  {
  }

  lemma Row4IsGenerated(k: bv8)
    requires k < 16
    ensures Row4(k) == Shifts8((k | 0x40) as bv32)
  {
  }

  lemma Row5IsGenerated(k: bv8)
    requires k < 16
    ensures Row5(k) == Shifts8((k | 0x50) as bv32)
  {
  }

  lemma Row6IsGenerated(k: bv8)
    requires k < 16
    ensures Row6(k) == Shifts8((k | 0x60) as bv32)
  {
  }

  lemma Row7IsGenerated(k: bv8)
    requires k < 16
    ensures Row7(k) == Shifts8((k | 0x70) as bv32)
  {
  }

  lemma Row8IsGenerated(k: bv8)
    requires k < 16
    ensures Row8(k) == Shifts8((k | 0x80) as bv32)
  {
  }

  lemma Row9IsGenerated(k: bv8)
    requires k < 16
    ensures Row9(k) == Shifts8((k | 0x90) as bv32)
  {
  }

  lemma RowAIsGenerated(k: bv8)
    requires k < 16
    ensures RowA(k) == Shifts8((k | 0xA0) as bv32)
  {
  }

  lemma RowBIsGenerated(k: bv8)
    requires k < 16
    ensures RowB(k) == Shifts8((k | 0xB0) as bv32)
  {
  }

  lemma RowCIsGenerated(k: bv8)
    requires k < 16
    ensures RowC(k) == Shifts8((k | 0xC0) as bv32)
  {
  }

  lemma RowDIsGenerated(k: bv8)
    requires k < 16
    ensures RowD(k) == Shifts8((k | 0xD0) as bv32)
  {
  }

  lemma RowEIsGenerated(k: bv8)
    requires k < 16
    ensures RowE(k) == Shifts8((k | 0xE0) as bv32)
  {
  }

  lemma RowFIsGenerated(k: bv8)
    requires k < 16
    ensures RowF(k) == Shifts8((k | 0xF0) as bv32)
  {
  }

  /** Every entry is what the generator makes of its index. */
  lemma TableIsGenerated(i: bv8)
    ensures Table(i) == Shifts8(i as bv32)
  {
    match i & 0xF0
    case 0x00 => Row0IsGenerated(i & 0x0F);
    case 0x10 => Row1IsGenerated(i & 0x0F);
    case 0x20 => Row2IsGenerated(i & 0x0F);
    case 0x30 => Row3IsGenerated(i & 0x0F);
    case 0x40 => Row4IsGenerated(i & 0x0F);
    case 0x50 => Row5IsGenerated(i & 0x0F);
    case 0x60 => Row6IsGenerated(i & 0x0F);
    case 0x70 => Row7IsGenerated(i & 0x0F);
    case 0x80 => Row8IsGenerated(i & 0x0F);
    case 0x90 => Row9IsGenerated(i & 0x0F);
    case 0xA0 => RowAIsGenerated(i & 0x0F);
    case 0xB0 => RowBIsGenerated(i & 0x0F);
    case 0xC0 => RowCIsGenerated(i & 0x0F);
    case 0xD0 => RowDIsGenerated(i & 0x0F);
    case 0xE0 => RowEIsGenerated(i & 0x0F);
    case _ => RowFIsGenerated(i & 0x0F);
  }

  // ---- Messages ----

  /** The bits of a byte, the lowest first */
  function BitsOfByte(b: bv8): seq<bool> {
    LowBits(Words32(), b as bv32, 8)
  }

  /** The register after a message, fed bit by bit */
  function Register(crc: bv32, s: seq<bv8>): bv32 {
    Fold(Feed, crc, Bits(BitsOfByte, s))
  }

  /** CRC32C of a message */
  function Crc(s: seq<bv8>): bv32 {
    !Register(0xFFFF_FFFF, s)
  }

  // ---- One byte by the table ----

  /** The value the loop body computes */
  function TableStep(crc: bv32, b: bv8): bv32 {
    Xor(Table(((crc ^ (b as bv32)) & 0xFF) as bv8), crc >> 8)
  }

  /** m covers the n low bits. */
  predicate Covers(m: bv32, n: nat)
    decreases n, m
  {
    n == 0 || (m & 1 == 1 && Covers(m >> 1, n - 1))
  }

  lemma ClearBelow(h: bv32, m: bv32)
    requires h & m == 0 && m & 1 == 1
    ensures !Low(h) && Half(h) & (m >> 1) == 0
  {
  }

  lemma {:induction false} LowBitsClear(h: bv32, m: bv32, n: nat, i: nat)
    requires h & m == 0 && Covers(m, n) && i < n
    ensures !LowBits(Words32(), h, n)[i]
    decreases n
  {
    ClearBelow(h, m);
    if i > 0 {
      LowBitsClear(Half(h), m >> 1, n - 1, i - 1);
    }
  }

  lemma ShiftsOfTable(low: bv32, i: bv8)
    requires low < 0x100 && i == low as bv8
    ensures Iterate(Shift, low, 8) == Table(i)
  {
    TableIsGenerated(i);
    Iterate8(Shift, low);
    assert i as bv32 == low;
  }

  lemma Parts(crc: bv32, t: bv32, low: bv32, high: bv32)
    requires t < 0x100 && low == (crc ^ t) & 0xFF && high == (crc ^ t) & 0xFFFF_FF00
    ensures (crc ^ t) ^ t == crc && low ^ high == crc ^ t && low < 0x100
    ensures high & 0xFF == 0 && high >> 8 == crc >> 8 && t >> 8 == 0
  {
  }

  lemma XorParts(crc: bv32, t: bv32, low: bv32, high: bv32)
    requires t < 0x100 && low == (crc ^ t) & 0xFF && high == (crc ^ t) & 0xFFFF_FF00
    ensures Xor(Xor(crc, t), t) == crc && Xor(low, high) == Xor(crc, t)
  {
    Parts(crc, t, low, high);
    XorThree(crc, t, t);
  }

  lemma HighParts(crc: bv32, t: bv32, low: bv32, high: bv32)
    requires t < 0x100 && low == (crc ^ t) & 0xFF && high == (crc ^ t) & 0xFFFF_FF00
    ensures Iterate(Half, t, 8) == Word(false) && Iterate(Half, high, 8) == crc >> 8
  {
    Parts(crc, t, low, high);
    HalfEight(t);
    HalfEight(high);
  }

  lemma CoversByte()
    ensures Covers(0xFF, 8)
  {
    assert 0xFF as bv32 >> 1 == 0x7F && 0x7F as bv32 >> 1 == 0x3F && 0x3F as bv32 >> 1 == 0x1F;
    assert 0x1F as bv32 >> 1 == 0xF && 0xF as bv32 >> 1 == 7 && 7 as bv32 >> 1 == 3 && 3 as bv32 >> 1 == 1;
    assert Covers(1, 1);
    assert Covers(7, 3);
    assert Covers(0x1F, 5);
    assert Covers(0x7F, 7);
  }

  lemma HighBitsClear(crc: bv32, t: bv32, low: bv32, high: bv32, i: nat)
    requires t < 0x100 && low == (crc ^ t) & 0xFF && high == (crc ^ t) & 0xFFFF_FF00 && i < 8
    ensures !LowBits(Words32(), high, 8)[i]
  {
    Parts(crc, t, low, high);
    CoversByte();
    LowBitsClear(high, 0xFF, 8, i);
  }

  lemma ByteByTable(crc: bv32, t: bv32, low: bv32, high: bv32)
    requires t < 0x100 && low == (crc ^ t) & 0xFF && high == (crc ^ t) & 0xFFFF_FF00
    ensures Fold(Feed, crc, LowBits(Words32(), t, 8)) == Xor(Iterate(Shift, low, 8), Iterate(Half, high, 8))
  {
    Words32AreWords();
    FeedSteps();
    XorParts(crc, t, low, high);
    HighParts(crc, t, low, high);
    forall i | 0 <= i < 8 ensures !LowBits(Words32(), high, 8)[i] {
      HighBitsClear(crc, t, low, high, i);
    }
    FeedByTable(Words32(), Shift, Feed, crc, t, low, high, 8);
  }

  lemma TableStepIs(crc: bv32, b: bv8, low: bv32)
    requires low == (crc ^ (b as bv32)) & 0xFF
    ensures low < 0x100 && TableStep(crc, b) == Xor(Table(low as bv8), crc >> 8)
  {
    LowByte(crc ^ (b as bv32), low);
  }

  lemma LowByte(x: bv32, low: bv32)
    requires low == x & 0xFF
    ensures low < 0x100
  {
  }

  /** The table step is the bit-serial register after the eight bits of the byte. */
  lemma TableStepIsSerial(crc: bv32, b: bv8)
    ensures Fold(Feed, crc, BitsOfByte(b)) == TableStep(crc, b)
  {
    var t := b as bv32;
    var low, high := (crc ^ t) & 0xFF, (crc ^ t) & 0xFFFF_FF00;
    TableStepIs(crc, b, low);
    ByteByTable(crc, t, low, high);
    HighParts(crc, t, low, high);
    ShiftsOfTable(low, low as bv8);
  }

  /** crc32c_software */
  method Software(crc0: bv32, buf: array<bv8>, len: nat) returns (r: bv32)
    requires len <= buf.Length
    ensures r == !Register(!crc0, buf[..len])
  {
    var crc := !crc0;
    for i := 0 to len
      invariant crc == Register(!crc0, buf[..i])
    {
      TableStepIsSerial(crc, buf[i]);
      FoldSnoc(Feed, !crc0, BitsOfByte, buf[..i], buf[i]);
      assert buf[..i + 1] == buf[..i] + [buf[i]];
      crc := TableStep(crc, buf[i]);
    }
    r := !crc;
  }

  lemma CrcIs(s: seq<bv8>)
    ensures Crc(s) == !Register(!0, s)
  {
  }

  /** nn_crc32c */
  method Checksum(buf: array<bv8>, len: nat) returns (r: bv32)
    requires len <= buf.Length
    ensures r == Crc(buf[..len])
  {
    r := Software(0, buf, len);
    CrcIs(buf[..len]);
  }

  // ---- Checksums at the end of a buffer ----

  /** The four bytes of a word, the lowest first */
  function LeBytes(w: bv32): (s: seq<bv8>)
    ensures |s| == 4
  {
    [(w & 0xFF) as bv8, ((w >> 8) & 0xFF) as bv8, ((w >> 16) & 0xFF) as bv8, ((w >> 24) & 0xFF) as bv8]
  }

  function Le(b0: bv8, b1: bv8, b2: bv8, b3: bv8): bv32 {
    (b0 as bv32) | ((b1 as bv32) << 8) | ((b2 as bv32) << 16) | ((b3 as bv32) << 24)
  }

  lemma LeOfBytes(w: bv32)
    ensures Le((w & 0xFF) as bv8, ((w >> 8) & 0xFF) as bv8, ((w >> 16) & 0xFF) as bv8, ((w >> 24) & 0xFF) as bv8) == w
  {
  }

  /** nn_write_u32le */
  method WriteWord(buf: array<bv8>, off: nat, w: bv32)
    requires off + 4 <= buf.Length
    modifies buf
    ensures buf[..off] == old(buf[..off]) && buf[off..off + 4] == LeBytes(w) && buf[off + 4..] == old(buf[off + 4..])
  {
    buf[off] := (w & 0xFF) as bv8;
    buf[off + 1] := ((w >> 8) & 0xFF) as bv8;
    buf[off + 2] := ((w >> 16) & 0xFF) as bv8;
    buf[off + 3] := ((w >> 24) & 0xFF) as bv8;
  }

  /** nn_read_u32le */
  function WordAt(b: seq<bv8>, off: nat): bv32
    requires off + 4 <= |b|
  {
    Le(b[off], b[off + 1], b[off + 2], b[off + 3])
  }

  /** The last four bytes are the checksum of the others. */
  predicate Valid(b: seq<bv8>) {
    |b| >= 4 && WordAt(b, |b| - 4) == Crc(b[..|b| - 4])
  }

  /** nn_crc32c_append */
  method Append(buf: array<bv8>, dataLen: nat) returns (total: nat)
    requires dataLen + 4 <= buf.Length
    modifies buf
    ensures total == dataLen + 4
    ensures buf[..dataLen] == old(buf[..dataLen]) && buf[dataLen..total] == LeBytes(Crc(old(buf[..dataLen])))
    ensures buf[total..] == old(buf[total..])
  {
    var crc := Checksum(buf, dataLen);
    WriteWord(buf, dataLen, crc);
    total := dataLen + 4;
  }

  method ReadWord(buf: array<bv8>, off: nat) returns (w: bv32)
    requires off + 4 <= buf.Length
    ensures w == WordAt(buf[..], off)
  {
    w := Le(buf[off], buf[off + 1], buf[off + 2], buf[off + 3]);
  }

  lemma SameWord(b: seq<bv8>, total: nat, off: nat)
    requires off + 4 <= total <= |b|
    ensures WordAt(b[..total], off) == WordAt(b, off)
  {
  }

  /** nn_crc32c_validate */
  method Validate(buf: array<bv8>, totalLen: nat) returns (payloadLen: nat)
    requires totalLen <= buf.Length
    ensures payloadLen == if Valid(buf[..totalLen]) then totalLen - 4 else 0
    ensures payloadLen > 0 <==> totalLen > 4 && Valid(buf[..totalLen])
  {
    if totalLen < 4 {
      return 0;
    }
    payloadLen := totalLen - 4;
    var expected := ReadWord(buf, payloadLen);
    var actual := Checksum(buf, payloadLen);
    SameWord(buf[..], totalLen, payloadLen);
    assert buf[..][..totalLen] == buf[..totalLen] && buf[..totalLen][..payloadLen] == buf[..payloadLen];
    if actual != expected {
      return 0;
    }
  }

  lemma TrailerIs(s: seq<bv8>, w: bv32)
    ensures |s + LeBytes(w)| == |s| + 4 && WordAt(s + LeBytes(w), |s|) == w && (s + LeBytes(w))[..|s|] == s
  {
    LeOfBytes(w);
  }

  /** What was appended validates. */
  lemma AppendedIsValid(s: seq<bv8>)
    ensures Valid(s + LeBytes(Crc(s)))
  {
    TrailerIs(s, Crc(s));
  }

  /** Any change of the payload that is confined to 32 consecutive bits is detected. */
  lemma BurstRejected(s: seq<bv8>, t: seq<bv8>, before: seq<bool>, u: seq<bool>, v: seq<bool>, after: seq<bool>)
    requires Bits(BitsOfByte, s) == before + u + after && Bits(BitsOfByte, t) == before + v + after
    requires |u| == |v| <= 32 && u != v
    ensures !Valid(t + LeBytes(Crc(s)))
  {
    Words32AreWords();
    FeedSteps();
    BurstSeen(Words32(), Shift, Feed, 0xFFFF_FFFF, before, u, v, after);
    TrailerIs(t, Crc(s));
    NotInjective(Register(0xFFFF_FFFF, s), Register(0xFFFF_FFFF, t));
  }

  lemma NotInjective(a: bv32, b: bv32)
    requires a != b
    ensures !a != !b
  {
  }

  // ---- Bursts that reach into the checksum ----

  lemma MaskLow(w: bv32, m: bv32)
    requires m & 1 == 1
    ensures Low(w & m) == Low(w) && Half(w & m) == Half(w) & (m >> 1)
  {
  }

  lemma {:induction false} LowBitsMasked(w: bv32, m: bv32, n: nat)
    requires Covers(m, n)
    ensures LowBits(Words32(), w & m, n) == LowBits(Words32(), w, n)
    decreases n
  {
    if n != 0 {
      MaskLow(w, m);
      LowBitsMasked(Half(w), m >> 1, n - 1);
    }
  }

  lemma ByteBits(w: bv32, b: bv8)
    requires b as bv32 == w & 0xFF
    ensures BitsOfByte(b) == LowBits(Words32(), w, 8)
  {
    CoversByte();
    LowBitsMasked(w, 0xFF, 8);
  }

  /** w with its three shifts by a byte, after which only the top byte is left */
  predicate Shifted(w: bv32, w1: bv32, w2: bv32, w3: bv32) {
    w1 == w >> 8 && w2 == w1 >> 8 && w3 == w2 >> 8
  }

  lemma BytesOfLe(b0: bv8, b1: bv8, b2: bv8, b3: bv8, w: bv32, w1: bv32, w2: bv32, w3: bv32)
    requires w == Le(b0, b1, b2, b3) && Shifted(w, w1, w2, w3)
    ensures b0 as bv32 == w & 0xFF && b1 as bv32 == w1 & 0xFF && b2 as bv32 == w2 & 0xFF && b3 as bv32 == w3 & 0xFF
  {
  }

  lemma HalvesOf(w: bv32, w1: bv32, w2: bv32, w3: bv32)
    requires Shifted(w, w1, w2, w3)
    ensures Iterate(Half, w, 8) == w1 && Iterate(Half, w1, 8) == w2 && Iterate(Half, w2, 8) == w3
    ensures Iterate(Half, w3, 8) == 0
  {
    HalfEight(w);
    HalfEight(w1);
    HalfEight(w2);
    HalfEight(w3);
    NothingLeft(w, w1, w2, w3);
  }

  lemma NothingLeft(w: bv32, w1: bv32, w2: bv32, w3: bv32)
    requires Shifted(w, w1, w2, w3)
    ensures w3 >> 8 == 0
  {
  }

  lemma FourBytes(b0: bv8, b1: bv8, b2: bv8, b3: bv8)
    ensures Bits(BitsOfByte, [b0, b1, b2, b3])
         == BitsOfByte(b0) + (BitsOfByte(b1) + (BitsOfByte(b2) + BitsOfByte(b3)))
  {
    assert [b3][1..] == [] && [b2, b3][1..] == [b3] && [b1, b2, b3][1..] == [b2, b3]
        && [b0, b1, b2, b3][1..] == [b1, b2, b3];
    assert Bits(BitsOfByte, [b3]) == BitsOfByte(b3) + [];
    assert Bits(BitsOfByte, [b2, b3]) == BitsOfByte(b2) + Bits(BitsOfByte, [b3]);
  }

  /** Four bytes, lowest first, have the bits of the word they make. */
  lemma WordBits(b0: bv8, b1: bv8, b2: bv8, b3: bv8, w: bv32, n: nat)
    requires w == Le(b0, b1, b2, b3) && n == 8
    ensures Bits(BitsOfByte, [b0, b1, b2, b3]) == LowBits(Words32(), w, n + (n + (n + n)))
    ensures Iterate(Half, w, n + (n + (n + n))) == 0
  {
    var w1 := w >> 8;
    var w2 := w1 >> 8;
    var w3 := w2 >> 8;
    BytesOfLe(b0, b1, b2, b3, w, w1, w2, w3);
    ByteBits(w, b0);
    ByteBits(w1, b1);
    ByteBits(w2, b2);
    ByteBits(w3, b3);
    FourBytes(b0, b1, b2, b3);
    HalvesOf(w, w1, w2, w3);
    LowBitsOfFour(Words32(), w, w1, w2, w3, n);
    NothingOfFour(Words32(), w, w1, w2, w3, n);
  }

  /** A register fed a word can as well be added to it and shifted through. */
  lemma FedWord(crc: bv32, b0: bv8, b1: bv8, b2: bv8, b3: bv8, w: bv32, n: nat)
    requires w == Le(b0, b1, b2, b3) && n == 8
    ensures Fold(Feed, crc, Bits(BitsOfByte, [b0, b1, b2, b3])) == Iterate(Shift, Xor(crc, w), n + (n + (n + n)))
  {
    WordBits(b0, b1, b2, b3, w, n);
    Words32AreWords();
    FeedSteps();
    XorBack(crc, w);
    FeedWord(Words32(), Shift, Feed, crc, w, n + (n + (n + n)));
  }

  lemma XorBack(a: bv32, w: bv32)
    ensures Xor(Xor(a, w), w) == a
  {
    assert (a ^ w) ^ w == a;
  }

  lemma SplitTail(b: seq<bv8>)
    requires |b| >= 4
    ensures var n := |b| - 4;
      Register(0xFFFF_FFFF, b)
      == Fold(Feed, Register(0xFFFF_FFFF, b[..n]), Bits(BitsOfByte, [b[n], b[n + 1], b[n + 2], b[n + 3]]))
  {
    var n := |b| - 4;
    var tail := [b[n], b[n + 1], b[n + 2], b[n + 3]];
    assert b == b[..n] + tail;
    BitsConcat(BitsOfByte, b[..n], tail);
    FoldConcat(Feed, 0xFFFF_FFFF, Bits(BitsOfByte, b[..n]), Bits(BitsOfByte, tail));
  }

  /** The register after a whole message is that of the register and the checksum added, shifted through. */
  lemma WholeRegister(b: seq<bv8>, crc: bv32, w: bv32, n: nat)
    requires |b| >= 4 && crc == Register(0xFFFF_FFFF, b[..|b| - 4]) && w == WordAt(b, |b| - 4) && n == 8
    ensures Register(0xFFFF_FFFF, b) == Iterate(Shift, Xor(crc, w), n + (n + (n + n)))
  {
    var k := |b| - 4;
    SplitTail(b);
    FedWord(crc, b[k], b[k + 1], b[k + 2], b[k + 3], w, n);
  }

  lemma ComplementAdded(crc: bv32)
    ensures crc ^ !crc == 0xFFFF_FFFF
  {
  }

  lemma OnlyComplement(crc: bv32, w: bv32)
    requires crc ^ w == 0xFFFF_FFFF
    ensures w == !crc
  {
  }

  lemma ComplementIff(crc: bv32, w: bv32)
    ensures Xor(crc, w) == 0xFFFF_FFFF <==> w == !crc
  {
    if w == !crc {
      ComplementAdded(crc);
    } else if crc ^ w == 0xFFFF_FFFF {
      OnlyComplement(crc, w);
    }
  }

  /** What the register holds after a valid message, whatever it is: n is the width of a byte. */
  function Residue(n: nat): bv32 {
    Iterate(Shift, 0xFFFF_FFFF, n + (n + (n + n)))
  }

  /** A message with its checksum is valid exactly if it leaves the residue in the register. */
  lemma ValidIff(b: seq<bv8>, n: nat)
    requires |b| >= 4 && n == 8
    ensures Valid(b) <==> Register(0xFFFF_FFFF, b) == Residue(n)
  {
    ValidParts(b, Register(0xFFFF_FFFF, b), Register(0xFFFF_FFFF, b[..|b| - 4]), WordAt(b, |b| - 4), n);
  }

  lemma ValidParts(b: seq<bv8>, whole: bv32, crc: bv32, w: bv32, n: nat)
    requires |b| >= 4 && n == 8 && whole == Register(0xFFFF_FFFF, b)
    requires crc == Register(0xFFFF_FFFF, b[..|b| - 4]) && w == WordAt(b, |b| - 4)
    ensures Valid(b) <==> whole == Residue(n)
  {
    WholeRegister(b, crc, w, n);
    ResidueIff(crc, w, n);
    ValidMeans(b, crc, w);
  }

  lemma ValidMeans(b: seq<bv8>, crc: bv32, w: bv32)
    requires |b| >= 4 && crc == Register(0xFFFF_FFFF, b[..|b| - 4]) && w == WordAt(b, |b| - 4)
    ensures Valid(b) <==> w == !crc
  {
    CrcOf(b[..|b| - 4], crc);
    ValidBy(b, w, !crc);
  }

  lemma CrcOf(s: seq<bv8>, crc: bv32)
    requires crc == Register(0xFFFF_FFFF, s)
    ensures Crc(s) == !crc
  {
  }

  lemma ValidBy(b: seq<bv8>, w: bv32, c: bv32)
    requires |b| >= 4 && w == WordAt(b, |b| - 4) && c == Crc(b[..|b| - 4])
    ensures Valid(b) <==> w == c
  {
  }

  lemma ResidueIff(crc: bv32, w: bv32, n: nat)
    ensures Iterate(Shift, Xor(crc, w), n + (n + (n + n))) == Residue(n) <==> w == !crc
  {
    ComplementIff(crc, w);
    Words32AreWords();
    FeedSteps();
    IterateInjective(Words32(), Shift, Feed, Xor(crc, w), 0xFFFF_FFFF, n + (n + (n + n)));
  }

  /** Any change of a valid message that is confined to 32 consecutive bits is detected, in the payload, in
      the checksum, or across the boundary between them. */
  lemma BurstAnywhereRejected(m: seq<bv8>, t: seq<bv8>, before: seq<bool>, u: seq<bool>, v: seq<bool>,
      after: seq<bool>)
    requires Valid(m) && Bits(BitsOfByte, m) == before + u + after && Bits(BitsOfByte, t) == before + v + after
    requires |u| == |v| <= 32 && u != v
    ensures !Valid(t)
  {
    Words32AreWords();
    FeedSteps();
    BurstSeen(Words32(), Shift, Feed, 0xFFFF_FFFF, before, u, v, after);
    assert Register(0xFFFF_FFFF, m) != Register(0xFFFF_FFFF, t);
    ValidIff(m, 8);
    if |t| >= 4 {
      ValidIff(t, 8);
    }
  }

  // ---- The check value ----

  /** One byte by the table, with all values given */
  lemma StepTo(start: bv32, s: seq<bv8>, b: bv8, from: bv32, to: bv32)
    requires Register(start, s) == from && TableStep(from, b) == to
    ensures Register(start, s + [b]) == to
  {
    TableStepIsSerial(from, b);
    FoldSnoc(Feed, start, BitsOfByte, s, b);
  }

  lemma FirstDigits(s: seq<bv8>)
    requires |s| >= 5 && s[..5] == [0x31, 0x32, 0x33, 0x34, 0x35]
    ensures Register(0xFFFF_FFFF, s[..5]) == 0xE72E_DCCA
  {
    var d: seq<bv8> := s[..5];
    assert Register(0xFFFF_FFFF, []) == 0xFFFF_FFFF;
    StepTo(0xFFFF_FFFF, [], 0x31, 0xFFFF_FFFF, 0x6F0A_661C);
    StepTo(0xFFFF_FFFF, d[..1], 0x32, 0x6F0A_661C, 0x8CAA_3B9F) by { assert d[..1] == [] + [0x31]; }
    StepTo(0xFFFF_FFFF, d[..2], 0x33, 0x8CAA_3B9F, 0xEF84_D04D) by { assert d[..2] == d[..1] + [0x32]; }
    StepTo(0xFFFF_FFFF, d[..3], 0x34, 0xEF84_D04D, 0x09C5_0B11) by { assert d[..3] == d[..2] + [0x33]; }
    StepTo(0xFFFF_FFFF, d[..4], 0x35, 0x09C5_0B11, 0xE72E_DCCA) by { assert d[..4] == d[..3] + [0x34]; }
    assert d == d[..4] + [0x35];
  }

  /** The check value of CRC-32C: the checksum of the nine ASCII digits 1 to 9 is E3069283. */
  lemma CheckValue(s: seq<bv8>)
    requires s == [0x31, 0x32, 0x33, 0x34, 0x35, 0x36, 0x37, 0x38, 0x39]
    ensures Crc(s) == 0xE306_9283
  {
    var start: bv32 := 0xFFFF_FFFF;
    FirstDigits(s);
    StepTo(start, s[..5], 0x36, 0xE72EDCCA, 0xBECA8E79);
    assert s[..6] == s[..5] + [s[5]];
    StepTo(start, s[..6], 0x37, 0xBECA8E79, 0xEDBD6815);
    assert s[..7] == s[..6] + [s[6]];
    StepTo(start, s[..7], 0x38, 0xEDBD6815, 0x9F787F65);
    assert s[..8] == s[..7] + [s[7]];
    StepTo(start, s[..8], 0x39, 0x9F787F65, 0x1CF96D7C);
    assert s[..9] == s[..8] + [s[8]];
    assert s[..9] == s;
  }
}
