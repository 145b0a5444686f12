/** The demonstration seed generator (32-bit Galois LFSR) and key check (CRC-8 against an XOR sum). */
module SeedKey {
  import opened Bytes

  const LFSR_DEFAULT: bv32 := 0xACE1ACE1
  const LFSR_TAPS: bv32 := 0x80200003

  // ---------------------------------------------------------------------------------------------
  // LFSR
  // ---------------------------------------------------------------------------------------------

  function Shift(s: bv32): bv32 {
    if s & 1 != 0 then (s >> 1) ^ LFSR_TAPS else s >> 1
  }

  function OutBit(s: bv32): (b: bv8)
    ensures b <= 1
  {
    if s & 1 != 0 then 1 else 0
  }

  /** The state before a shift, recovered from the state after it. */
  function Unshift(t: bv32): bv32 {
    if t & 0x8000_0000 != 0 then ((t ^ LFSR_TAPS) << 1) | 1 else t << 1
  }

  lemma UnshiftUndoes(s: bv32)
    ensures Unshift(Shift(s)) == s
  {
    if s & 1 != 0 {
      assert ((s >> 1) ^ LFSR_TAPS) & 0x8000_0000 != 0;
    } else {
      assert (s >> 1) & 0x8000_0000 == 0;
    }
  }

  lemma ShiftBack(u: bv32)
    requires u & 0x8000_0000 == 0
    ensures ((u << 1) | 1) >> 1 == u && ((u << 1) | 1) & 1 != 0
    ensures (u << 1) >> 1 == u && (u << 1) & 1 == 0
  {
  }

  lemma TapsCancel(t: bv32)
    ensures (t ^ LFSR_TAPS) ^ LFSR_TAPS == t
    ensures (t ^ LFSR_TAPS) & 0x8000_0000 == 0 <==> t & 0x8000_0000 != 0
  {
  }

  lemma ShiftUndoes(t: bv32)
    ensures Shift(Unshift(t)) == t
  {
    TapsCancel(t);
    ShiftBack(if t & 0x8000_0000 != 0 then t ^ LFSR_TAPS else t);
  }

  lemma ShiftFixesOnlyZero(s: bv32)
    ensures Shift(s) == s <==> s == 0
  {
  }

  /** The Galois step is a bijection on 32-bit states whose only fixed point is zero. */
  lemma ShiftBijective(s: bv32)
    ensures Unshift(Shift(s)) == s && Shift(Unshift(s)) == s
    ensures Shift(s) == s <==> s == 0
    ensures Shift(s) == 0 <==> s == 0
  {
    hide Shift, Unshift;
    UnshiftUndoes(s);
    ShiftUndoes(s);
    ShiftFixesOnlyZero(s);
    UnshiftUndoes(0);
    ShiftFixesOnlyZero(0);
  }

  /** State after k shifts. */
  function Shifted(s: bv32, k: nat): bv32
    decreases k
  {
    if k == 0 then s else Shifted(Shift(s), k - 1)
  }

  /** One bit more, most significant first. */
  function Push(acc: bv8, bit: bv8): bv8 {
    (acc << 1) | bit
  }

  /** The k low bits shifted out of s, first bit most significant, appended to acc. */
  function BitsOut(s: bv32, k: nat, acc: bv8): bv8
    decreases k
  {
    if k == 0 then acc else BitsOut(Shift(s), k - 1, Push(acc, OutBit(s)))
  }

  function NextByte(s: bv32): bv8 {
    BitsOut(s, 8, 0)
  }

  function AfterByte(s: bv32): bv32 {
    Shifted(s, 8)
  }

  lemma {:induction false} ShiftedNonZero(s: bv32, k: nat)
    ensures Shifted(s, k) == 0 <==> s == 0
    decreases k
  {
    if k > 0 {
      ShiftBijective(s);
      ShiftedNonZero(Shift(s), k - 1);
    }
  }

  function Diff(a: bv32, b: bv32): bv32 {
    a ^ b
  }

  function Down(d: bv32, k: bv8): bv32
    requires k <= 32
  {
    d >> k
  }

  predicate Even(d: bv32) {
    d & 1 == 0
  }

  predicate LowByteZero(d: bv32) {
    d & 0xFF == 0
  }

  /** Equal output bits leave the difference of two states simply shifted down. */
  lemma DifferenceShifts(a: bv32, b: bv32)
    requires OutBit(a) == OutBit(b)
    ensures Even(Diff(a, b)) && Diff(Shift(a), Shift(b)) == Down(Diff(a, b), 1)
  {
  }

  /** The output byte determines the low 8 bits of the difference. */
  lemma ByteReveals(a: bv32, b: bv32)
    requires NextByte(a) == NextByte(b)
    ensures LowByteZero(Diff(a, b)) && Diff(AfterByte(a), AfterByte(b)) == Down(Diff(a, b), 8)
  {
    hide Shift, OutBit, NextByte, AfterByte, Pack, Diff, Down, Even, LowByteZero;
    var a1, b1 := Shift(a), Shift(b);
    var a2, b2 := Shift(a1), Shift(b1);
    var a3, b3 := Shift(a2), Shift(b2);
    var a4, b4 := Shift(a3), Shift(b3);
    var a5, b5 := Shift(a4), Shift(b4);
    var a6, b6 := Shift(a5), Shift(b5);
    var a7, b7 := Shift(a6), Shift(b6);
    EightBits(a, a1, a2, a3, a4, a5, a6, a7);
    EightBits(b, b1, b2, b3, b4, b5, b6, b7);
    BitsOfByte(OutBit(a), OutBit(a1), OutBit(a2), OutBit(a3), OutBit(a4), OutBit(a5), OutBit(a6), OutBit(a7),
               OutBit(b), OutBit(b1), OutBit(b2), OutBit(b3), OutBit(b4), OutBit(b5), OutBit(b6), OutBit(b7));
    DifferenceShifts(a, b);
    DifferenceShifts(a1, b1);
    DifferenceShifts(a2, b2);
    DifferenceShifts(a3, b3);
    DifferenceShifts(a4, b4);
    DifferenceShifts(a5, b5);
    DifferenceShifts(a6, b6);
    DifferenceShifts(a7, b7);
    LowBits(Diff(a, b), Diff(a1, b1), Diff(a2, b2), Diff(a3, b3),
            Diff(a4, b4), Diff(a5, b5), Diff(a6, b6), Diff(a7, b7));
  }

  function Pack(b0: bv8, b1: bv8, b2: bv8, b3: bv8, b4: bv8, b5: bv8, b6: bv8, b7: bv8): bv8 {
    (b0 << 7) | (b1 << 6) | (b2 << 5) | (b3 << 4) | (b4 << 3) | (b5 << 2) | (b6 << 1) | b7
  }

  lemma BitsOfByte(a0: bv8, a1: bv8, a2: bv8, a3: bv8, a4: bv8, a5: bv8, a6: bv8, a7: bv8,
                   b0: bv8, b1: bv8, b2: bv8, b3: bv8, b4: bv8, b5: bv8, b6: bv8, b7: bv8)
    requires a0 <= 1 && a1 <= 1 && a2 <= 1 && a3 <= 1 && a4 <= 1 && a5 <= 1 && a6 <= 1 && a7 <= 1
    requires b0 <= 1 && b1 <= 1 && b2 <= 1 && b3 <= 1 && b4 <= 1 && b5 <= 1 && b6 <= 1 && b7 <= 1
    requires Pack(a0, a1, a2, a3, a4, a5, a6, a7) == Pack(b0, b1, b2, b3, b4, b5, b6, b7)
    ensures a0 == b0 && a1 == b1 && a2 == b2 && a3 == b3 && a4 == b4 && a5 == b5 && a6 == b6 && a7 == b7
  {
  }

  lemma EightBits(s0: bv32, s1: bv32, s2: bv32, s3: bv32, s4: bv32, s5: bv32, s6: bv32, s7: bv32)
    requires s1 == Shift(s0) && s2 == Shift(s1) && s3 == Shift(s2) && s4 == Shift(s3)
    requires s5 == Shift(s4) && s6 == Shift(s5) && s7 == Shift(s6)
    ensures NextByte(s0) == Pack(OutBit(s0), OutBit(s1), OutBit(s2), OutBit(s3),
                                 OutBit(s4), OutBit(s5), OutBit(s6), OutBit(s7))
    ensures AfterByte(s0) == Shift(s7)
  {
    hide Shift, OutBit, Push, Pack, BitsOut, Shifted;
    var c1 := Push(0, OutBit(s0));
    var c2 := Push(c1, OutBit(s1));
    var c3 := Push(c2, OutBit(s2));
    var c4 := Push(c3, OutBit(s3));
    var c5 := Push(c4, OutBit(s4));
    var c6 := Push(c5, OutBit(s5));
    var c7 := Push(c6, OutBit(s6));
    OneBit(s0, 8, 0);
    OneBit(s1, 7, c1);
    OneBit(s2, 6, c2);
    OneBit(s3, 5, c3);
    OneBit(s4, 4, c4);
    OneBit(s5, 3, c5);
    OneBit(s6, 2, c6);
    OneBit(s7, 1, c7);
    PushesPack(OutBit(s0), OutBit(s1), OutBit(s2), OutBit(s3), OutBit(s4), OutBit(s5), OutBit(s6), OutBit(s7));
  }

  lemma OneBit(s: bv32, k: nat, acc: bv8)
    requires k > 0
    ensures Shifted(s, k) == Shifted(Shift(s), k - 1)
    ensures BitsOut(s, k, acc) == BitsOut(Shift(s), k - 1, Push(acc, OutBit(s)))
    ensures k == 1 ==> Shifted(s, k) == Shift(s) && BitsOut(s, k, acc) == Push(acc, OutBit(s))
  {
    hide Shift, OutBit, Push;
  }

  lemma PushesPack(b0: bv8, b1: bv8, b2: bv8, b3: bv8, b4: bv8, b5: bv8, b6: bv8, b7: bv8)
    ensures Push(Push(Push(Push(Push(Push(Push(Push(0, b0), b1), b2), b3), b4), b5), b6), b7)
            == Pack(b0, b1, b2, b3, b4, b5, b6, b7)
  {
  }

  lemma LowBits(d: bv32, d1: bv32, d2: bv32, d3: bv32, d4: bv32, d5: bv32, d6: bv32, d7: bv32)
    requires d1 == Down(d, 1) && d2 == Down(d1, 1) && d3 == Down(d2, 1) && d4 == Down(d3, 1)
    requires d5 == Down(d4, 1) && d6 == Down(d5, 1) && d7 == Down(d6, 1)
    requires Even(d) && Even(d1) && Even(d2) && Even(d3) && Even(d4) && Even(d5) && Even(d6) && Even(d7)
    ensures LowByteZero(d) && Down(d7, 1) == Down(d, 8)
  {
  }

  /** Two different states never give the same first four output bytes. */
  lemma FourBytesIdentify(a: bv32, b: bv32)
    requires NextByte(a) == NextByte(b)
    requires NextByte(AfterByte(a)) == NextByte(AfterByte(b))
    requires NextByte(AfterByte(AfterByte(a))) == NextByte(AfterByte(AfterByte(b)))
    requires NextByte(AfterByte(AfterByte(AfterByte(a)))) == NextByte(AfterByte(AfterByte(AfterByte(b))))
    ensures a == b
  {
    hide NextByte, AfterByte, Diff, Down, LowByteZero;
    ByteReveals(a, b);
    ByteReveals(AfterByte(a), AfterByte(b));
    ByteReveals(AfterByte(AfterByte(a)), AfterByte(AfterByte(b)));
    ByteReveals(AfterByte(AfterByte(AfterByte(a))), AfterByte(AfterByte(AfterByte(b))));
    var d := Diff(a, b);
    FourZeroBytes(d, Down(d, 8), Down(Down(d, 8), 8), Down(Down(Down(d, 8), 8), 8));
    DiffZero(a, b);
  }

  lemma FourZeroBytes(d: bv32, d1: bv32, d2: bv32, d3: bv32)
    requires d1 == Down(d, 8) && d2 == Down(d1, 8) && d3 == Down(d2, 8)
    requires LowByteZero(d) && LowByteZero(d1) && LowByteZero(d2) && LowByteZero(d3)
    ensures d == 0
  {
  }

  lemma DiffZero(a: bv32, b: bv32)
    requires Diff(a, b) == 0
    ensures a == b
  {
  }

  // ---------------------------------------------------------------------------------------------
  // Seeds per security level
  // ---------------------------------------------------------------------------------------------

  /** The level byte widened to 32 bits. */
  function LevelWord(level: u8): bv32 {
    (level as bv8) as bv32
  }

  function InitialState(level: bv32): bv32 {
    var s := LFSR_DEFAULT ^ (level << 16) ^ level;
    if s == 0 then LFSR_DEFAULT else s
  }

  /** len bytes drawn from state s. */
  function Draw(s: bv32, len: nat): (r: seq<bv8>)
    ensures |r| == len
    decreases len
  {
    if len == 0 then [] else [NextByte(s)] + Draw(AfterByte(s), len - 1)
  }

  function SeedBits(level: u8, len: nat): seq<bv8> {
    Draw(InitialState(LevelWord(level)), len)
  }

  lemma InitialStatesDiffer(a: bv32, b: bv32)
    requires a != b && a <= 0xFF && b <= 0xFF
    ensures InitialState(a) != InitialState(b)
  {
  }

  lemma LevelsDiffer(a: u8, b: u8)
    requires a != b && 1 <= a <= 16 && 1 <= b <= 16
    ensures LevelWord(a) != LevelWord(b) && LevelWord(a) <= 0xFF && LevelWord(b) <= 0xFF
  {
    assert (a as bv8) as int != (b as bv8) as int;
    Widened(a as bv8, b as bv8);
  }

  lemma Widened(a: bv8, b: bv8)
    ensures a as bv32 == b as bv32 <==> a == b
    ensures a as bv32 <= 0xFF
  {
  }

  /** Different levels have seeds that differ already within their first four bytes. */
  lemma SeedsDiffer(a: u8, b: u8, len: nat)
    requires a != b && 1 <= a <= 16 && 1 <= b <= 16 && len >= 4
    ensures SeedBits(a, len)[..4] != SeedBits(b, len)[..4]
  {
    hide NextByte, AfterByte, InitialState;
    LevelsDiffer(a, b);
    InitialStatesDiffer(LevelWord(a), LevelWord(b));
    var s, t := InitialState(LevelWord(a)), InitialState(LevelWord(b));
    FirstFour(s, len);
    FirstFour(t, len);
    if Draw(s, len)[..4] == Draw(t, len)[..4] {
      assert Draw(s, len)[..4][0] == Draw(t, len)[..4][0] && Draw(s, len)[..4][1] == Draw(t, len)[..4][1];
      assert Draw(s, len)[..4][2] == Draw(t, len)[..4][2] && Draw(s, len)[..4][3] == Draw(t, len)[..4][3];
      FourBytesIdentify(s, t);
    }
  }

  lemma FirstFour(s: bv32, len: nat)
    requires len >= 4
    ensures Draw(s, len)[0] == NextByte(s) && Draw(s, len)[1] == NextByte(AfterByte(s))
    ensures Draw(s, len)[2] == NextByte(AfterByte(AfterByte(s)))
    ensures Draw(s, len)[3] == NextByte(AfterByte(AfterByte(AfterByte(s))))
  {
    hide NextByte, AfterByte, Draw;
    var s1 := AfterByte(s);
    var s2 := AfterByte(s1);
    var s3 := AfterByte(s2);
    DrawOne(s, len);
    DrawOne(s1, len - 1);
    DrawOne(s2, len - 2);
    DrawOne(s3, len - 3);
  }

  lemma DrawOne(s: bv32, len: nat)
    requires len > 0
    ensures Draw(s, len)[0] == NextByte(s) && Draw(s, len)[1..] == Draw(AfterByte(s), len - 1)
  {
  }

  // ---------------------------------------------------------------------------------------------
  // CRC-8 and the demonstration key check
  // ---------------------------------------------------------------------------------------------

  /** XOR, as a function so that proofs can treat it algebraically. */
  function Plus(a: bv8, b: bv8): bv8 {
    a ^ b
  }

  function CrcBit(c: bv8): bv8 {
    if c & 0x80 != 0 then (c << 1) ^ 0x07 else c << 1
  }

  function CrcBits(c: bv8, k: nat): bv8
    decreases k
  {
    if k == 0 then c else CrcBits(CrcBit(c), k - 1)
  }

  function CrcFrom(c: bv8, s: seq<bv8>): bv8
    decreases |s|
  {
    if s == [] then c else CrcFrom(CrcBits(Plus(c, s[0]), 8), s[1..])
  }

  function Crc8(s: seq<bv8>): bv8 {
    CrcFrom(0xFF, s)
  }

  function XorSum(s: seq<bv8>): bv8 {
    if s == [] then 0 else Plus(XorSum(s[..|s| - 1]), s[|s| - 1])
  }

  /** default_key_validate. */
  predicate KeyMatches(seed: seq<bv8>, key: seq<bv8>) {
    seed != [] && key != [] && XorSum(key) == Crc8(seed)
  }

  function Xor(s: seq<bv8>, t: seq<bv8>): (r: seq<bv8>)
    requires |s| == |t|
    ensures |r| == |s|
  {
    seq(|s|, i requires 0 <= i < |s| => Plus(s[i], t[i]))
  }

  lemma PlusZero(a: bv8, b: bv8)
    ensures Plus(a, b) == 0 <==> a == b
    ensures Plus(a, b) == Plus(b, a)
  {
  }

  lemma PlusUndoes(a: bv8, b: bv8)
    ensures Plus(a, Plus(a, b)) == b
  {
  }

  lemma PlusSwap(a: bv8, b: bv8, x: bv8, y: bv8)
    ensures Plus(Plus(a, x), Plus(b, y)) == Plus(Plus(a, b), Plus(x, y))
  {
    PlusAssociates(a, x, Plus(b, y));
    PlusAssociates(x, b, y);
    PlusZero(x, b);
    PlusAssociates(b, x, y);
    PlusAssociates(a, b, Plus(x, y));
    hide Plus;
  }

  lemma PlusAssociates(a: bv8, b: bv8, c: bv8)
    ensures Plus(Plus(a, b), c) == Plus(a, Plus(b, c))
  {
  }

  lemma TopBitXor(a: bv8, b: bv8)
    ensures (a ^ b) << 1 == (a << 1) ^ (b << 1)
    ensures (a ^ b) & 0x80 != 0 <==> (a & 0x80 != 0) != (b & 0x80 != 0)
  {
  }

  lemma XorConstant(x: bv8, y: bv8, p: bv8)
    ensures (x ^ p) ^ (y ^ p) == x ^ y && (x ^ p) ^ y == (x ^ y) ^ p && x ^ (y ^ p) == (x ^ y) ^ p
  {
  }

  lemma CrcBitLinear(a: bv8, b: bv8)
    ensures CrcBit(Plus(a, b)) == Plus(CrcBit(a), CrcBit(b))
  {
    TopBitXor(a, b);
    XorConstant(a << 1, b << 1, 0x07);
  }

  lemma CrcBitZero(a: bv8)
    ensures CrcBit(a) == 0 <==> a == 0
  {
  }

  lemma {:induction false} CrcBitsLinear(a: bv8, b: bv8, k: nat)
    ensures CrcBits(Plus(a, b), k) == Plus(CrcBits(a, k), CrcBits(b, k))
    ensures CrcBits(a, k) == 0 <==> a == 0
    decreases k
  {
    hide CrcBit, Plus;
    if k > 0 {
      CrcBitLinear(a, b);
      CrcBitZero(a);
      CrcBitsLinear(CrcBit(a), CrcBit(b), k - 1);
    }
  }

  lemma CrcBitsInjective(a: bv8, b: bv8, k: nat)
    ensures CrcBits(a, k) == CrcBits(b, k) <==> a == b
  {
    hide CrcBits, Plus;
    CrcBitsLinear(a, b, k);
    CrcBitsLinear(Plus(a, b), 0, k);
    PlusZero(a, b);
    PlusZero(CrcBits(a, k), CrcBits(b, k));
  }

  lemma XorTail(s: seq<bv8>, t: seq<bv8>)
    requires |s| == |t| && s != []
    ensures Xor(s, t)[0] == Plus(s[0], t[0]) && Xor(s, t)[1..] == Xor(s[1..], t[1..])
  {
    hide Plus;
  }

  /** The CRC register is linear in its start value and the data together. */
  lemma {:induction false} CrcLinear(a: bv8, b: bv8, s: seq<bv8>, t: seq<bv8>)
    requires |s| == |t|
    ensures CrcFrom(Plus(a, b), Xor(s, t)) == Plus(CrcFrom(a, s), CrcFrom(b, t))
    decreases |s|
  {
    hide CrcBits, Xor, Plus;
    if s != [] {
      CrcBitsLinear(Plus(a, s[0]), Plus(b, t[0]), 8);
      PlusSwap(a, b, s[0], t[0]);
      XorTail(s, t);
      CrcLinear(CrcBits(Plus(a, s[0]), 8), CrcBits(Plus(b, t[0]), 8), s[1..], t[1..]);
    }
  }

  /** Over seeds of one length, CRC-8 is affine: it turns the XOR of three seeds into the XOR of their CRCs. */
  lemma Crc8Affine(s: seq<bv8>, t: seq<bv8>, u: seq<bv8>)
    requires |s| == |t| == |u|
    ensures Crc8(Xor(Xor(s, t), u)) == Plus(Plus(Crc8(s), Crc8(t)), Crc8(u))
  {
    CrcLinear(0xFF, 0xFF, s, t);
    CrcLinear(Plus(0xFF, 0xFF), 0xFF, Xor(s, t), u);
    assert Plus(Plus(0xFF, 0xFF), 0xFF) == 0xFF;
  }

  lemma {:induction false} CrcFromInjective(a: bv8, b: bv8, s: seq<bv8>)
    ensures CrcFrom(a, s) == CrcFrom(b, s) <==> a == b
    decreases |s|
  {
    hide CrcBits, Plus;
    if s != [] {
      PlusZero(a, s[0]);
      PlusZero(b, s[0]);
      PlusUndoes(s[0], a);
      PlusUndoes(s[0], b);
      CrcBitsInjective(Plus(a, s[0]), Plus(b, s[0]), 8);
      CrcFromInjective(CrcBits(Plus(a, s[0]), 8), CrcBits(Plus(b, s[0]), 8), s[1..]);
    }
  }

  lemma {:induction false} ByteChangeMoves(c: bv8, s: seq<bv8>, i: nat, v: bv8)
    requires i < |s| && v != s[i]
    ensures CrcFrom(c, s) != CrcFrom(c, s[i := v])
    decreases |s|
  {
    hide CrcBits, Plus;
    if i == 0 {
      PlusUndoes(c, s[0]);
      PlusUndoes(c, v);
      CrcBitsInjective(Plus(c, s[0]), Plus(c, v), 8);
      CrcFromInjective(CrcBits(Plus(c, s[0]), 8), CrcBits(Plus(c, v), 8), s[1..]);
      assert s[i := v][1..] == s[1..];
    } else {
      assert s[i := v][1..] == s[1..][i - 1 := v];
      ByteChangeMoves(CrcBits(Plus(c, s[0]), 8), s[1..], i - 1, v);
    }
  }

  /** Changing exactly one byte of a seed always changes its CRC. */
  lemma OneByteChangeDetected(s: seq<bv8>, i: nat, v: bv8)
    requires i < |s| && v != s[i]
    ensures Crc8(s) != Crc8(s[i := v])
  {
    ByteChangeMoves(0xFF, s, i, v);
  }

  /** For every seed and every choice of the leading key bytes exactly one last byte is accepted. */
  lemma ExactlyOneLastKeyByte(seed: seq<bv8>, front: seq<bv8>, last: bv8)
    requires seed != []
    ensures KeyMatches(seed, front + [last]) <==> last == Plus(XorSum(front), Crc8(seed))
  {
    hide Plus, Crc8;
    var key := front + [last];
    assert key[..|key| - 1] == front;
    PlusUndoes(XorSum(front), last);
    PlusUndoes(XorSum(front), Crc8(seed));
  }

  /** Hence a key that fits one seed fits no seed that differs from it in a single byte. */
  lemma KeyFitsNoNeighbour(seed: seq<bv8>, i: nat, v: bv8, key: seq<bv8>)
    requires i < |seed| && v != seed[i] && KeyMatches(seed, key)
    ensures !KeyMatches(seed[i := v], key)
  {
    OneByteChangeDetected(seed, i, v);
  }
}
