/** The generator and the checksum from outside: the recurrence of the output bits, and known values. */
module SeedVectors {
  import opened Bytes
  import opened SeedKey

  // ---------------------------------------------------------------------------------------------
  // The bit stream
  // ---------------------------------------------------------------------------------------------

  predicate OneBitMask(m: bv32) {
    m != 0 && m & (m - 1) == 0
  }

  function Lower(m: bv32): bv32 {
    m >> 1
  }

  predicate Has(s: bv32, m: bv32) {
    s & m != 0
  }

  /** One shift moves every bit down by one and adds the bit that leaves at the tapped places, of which the highest
      is where it enters. */
  lemma BitMoves(s: bv32, m: bv32)
    requires OneBitMask(m)
    ensures m == 0x8000_0000 ==> (Has(Shift(s), m) <==> Has(s, 1))
    ensures m < 0x8000_0000 ==> (Has(Shift(s), m) <==> (Has(s, m << 1) != (m & 0x20_0003 != 0 && Has(s, 1))))
    ensures OutBit(s) == 1 <==> Has(s, 1)
  {
  }

  function Fallen(m: bv32, n: nat): bv32 {
    if n == 0 then m else Fallen(Lower(m), n - 1)
  }

  /** The n places below bit m are there and not tapped. */
  predicate Untapped(m: bv32, n: nat) {
    n > 0 ==> OneBitMask(Lower(m)) && Lower(m) << 1 == m && Lower(m) & 0x20_0003 == 0 && Untapped(Lower(m), n - 1)
  }

  lemma {:induction false} BitFalls(s: bv32, m: bv32, n: nat)
    requires Untapped(m, n)
    ensures Has(Shifted(s, n), Fallen(m, n)) <==> Has(s, m)
    decreases n
  {
    if n > 0 {
      LowerIsSmall(m);
      BitMoves(s, Lower(m));
      hide Shift, Has, Lower, OneBitMask;
      BitFalls(Shift(s), Lower(m), n - 1);
    }
  }

  lemma LowerIsSmall(m: bv32)
    ensures Lower(m) < 0x8000_0000
  {
  }

  lemma {:induction false} ShiftedAdd(s: bv32, a: nat, b: nat)
    ensures Shifted(s, a + b) == Shifted(Shifted(s, a), b)
    decreases a
  {
    hide Shift;
    if a > 0 {
      ShiftedAdd(Shift(s), a - 1, b);
    }
  }

  lemma ShiftedOne(s: bv32)
    ensures Shifted(s, 1) == Shift(s)
  {
    hide Shift;
  }

  /** The k-th bit the generator puts out from state s. */
  predicate Output(s: bv32, k: nat) {
    OutBit(Shifted(s, k)) == 1
  }

  lemma Places()
    ensures Untapped(0x8000_0000, 9) && Fallen(0x8000_0000, 9) == 0x40_0000
    ensures Untapped(0x20_0000, 10) && Fallen(0x20_0000, 10) == 0x800
    ensures Untapped(0x800, 9) && Fallen(0x800, 9) == 0x4
  {
  }

  /** The four tapped places. */
  lemma TapsPassed(s: bv32)
    ensures Has(Shift(s), 0x8000_0000) <==> Has(s, 1)
    ensures Has(Shift(s), 0x20_0000) <==> (Has(s, 0x40_0000) != Has(s, 1))
    ensures Has(Shift(s), 0x2) <==> (Has(s, 0x4) != Has(s, 1))
    ensures Has(Shift(s), 0x1) <==> (Has(s, 0x2) != Has(s, 1))
  {
  }

  /** A bit on its way from where it enters to where it leaves, with what is added at the three taps it passes. */
  lemma BitPasses(t: bv32)
    ensures Has(Shifted(t, 32), 0x1) <==>
            (((Has(t, 1) != Has(Shifted(t, 10), 1)) != Has(Shifted(t, 30), 1)) != Has(Shifted(t, 31), 1))
  {
    hide Shift, Has, OneBitMask, Shifted, Untapped, Fallen;
    var t10, t30, t31 := Shifted(t, 10), Shifted(t, 30), Shifted(t, 31);
    ToFirstTap(t);
    ToLastTaps(t10);
    ShiftedAdd(t, 10, 20);
    ShiftedAdd(t, 30, 1);
    ShiftedAdd(t, 31, 1);
    ShiftedOne(t30);
    ShiftedOne(t31);
    TapsPassed(t30);
    TapsPassed(t31);
  }

  lemma ToFirstTap(t: bv32)
    ensures Has(Shifted(t, 10), 0x40_0000) <==> Has(t, 1)
  {
    hide Shift, Has, OneBitMask, Shifted, Untapped, Fallen;
    Places();
    TapsPassed(t);
    ShiftedOne(t);
    ShiftedAdd(t, 1, 9);
    BitFalls(Shifted(t, 1), 0x8000_0000, 9);
  }

  lemma ToLastTaps(t: bv32)
    ensures Has(Shifted(t, 20), 0x4) <==> (Has(t, 0x40_0000) != Has(t, 1))
  {
    hide Shift, Has, OneBitMask, Shifted, Untapped, Fallen;
    Places();
    TapsPassed(t);
    ShiftedOne(t);
    ShiftedAdd(t, 1, 10);
    ShiftedAdd(t, 11, 9);
    BitFalls(Shifted(t, 1), 0x20_0000, 10);
    BitFalls(Shifted(t, 11), 0x800, 9);
  }

  lemma NoShift(s: bv32)
    ensures Shifted(s, 0) == s
  {
  }

  lemma OutputAfter(s: bv32, k: nat, n: nat)
    ensures Output(s, k + n) <==> Has(Shifted(Shifted(s, k), n), 1)
  {
    hide Shifted;
    ShiftedAdd(s, k, n);
    BitMoves(Shifted(Shifted(s, k), n), 1);
  }

  /** Every output bit is the sum modulo 2 of those 32, 22, 2 and 1 places earlier. */
  lemma OutputRecurrence(s: bv32, k: nat)
    ensures Output(s, k + 32) <==> (((Output(s, k) != Output(s, k + 10)) != Output(s, k + 30)) != Output(s, k + 31))
  {
    hide Shifted, Has, Output;
    BitPasses(Shifted(s, k));
    OutputAfter(s, k, 0);
    OutputAfter(s, k, 10);
    OutputAfter(s, k, 30);
    OutputAfter(s, k, 31);
    OutputAfter(s, k, 32);
    assert Shifted(Shifted(s, k), 0) == Shifted(s, k) by { NoShift(Shifted(s, k)); }
  }

  // ---------------------------------------------------------------------------------------------
  // Known values
  // ---------------------------------------------------------------------------------------------

  lemma Byte1()
    ensures NextByte(0xACE0_ACE0) == 0x04 && AfterByte(0xACE0_ACE0) == 0x20A4_E0AC
  {
  }

  lemma Byte2()
    ensures NextByte(0x20A4_E0AC) == 0x2A && AfterByte(0x20A4_E0AC) == 0x5435_A4E1
  {
  }

  lemma Byte3()
    ensures NextByte(0x5435_A4E1) == 0xDF && AfterByte(0x5435_A4E1) == 0xFB6A_F5A6
  {
  }

  lemma Byte4()
    ensures NextByte(0xFB6A_F5A6) == 0x5C && AfterByte(0xFB6A_F5A6) == 0x3AF5_EAF5
  {
  }

  lemma Byte5()
    ensures NextByte(0x3AF5_EAF5) == 0xE4 && AfterByte(0x3AF5_EAF5) == 0x2733_35EA
  {
  }

  lemma Byte6()
    ensures NextByte(0x2733_35EA) == 0x72 && AfterByte(0x2733_35EA) == 0x4E34_B334
  {
  }

  lemma Byte7()
    ensures NextByte(0x4E34_B334) == 0x3D && AfterByte(0x4E34_B334) == 0xBC61_34B0
  {
  }

  lemma Byte8()
    ensures NextByte(0xBC61_34B0) == 0x0A && AfterByte(0xBC61_34B0) == 0x50A8_6135
  {
  }

  lemma FirstState()
    ensures InitialState(LevelWord(1)) == 0xACE0_ACE0
  {
    assert LevelWord(1) == 1;
  }

  /** The seed of level 1. */
  lemma FirstSeed()
    ensures SeedBits(1, 8) == [0x04, 0x2A, 0xDF, 0x5C, 0xE4, 0x72, 0x3D, 0x0A]
  {
    FirstState();
    Byte1();
    Byte2();
    Byte3();
    Byte4();
    Byte5();
    Byte6();
    Byte7();
    Byte8();
    hide NextByte, AfterByte, InitialState, LevelWord;
  }

  lemma DigitsTo5()
    ensures CrcBits(Plus(0xFF, 0x31), 8) == 0x64
    ensures CrcBits(Plus(0x64, 0x32), 8) == 0xA5
    ensures CrcBits(Plus(0xA5, 0x33), 8) == 0xEB
    ensures CrcBits(Plus(0xEB, 0x34), 8) == 0x13
    ensures CrcBits(Plus(0x13, 0x35), 8) == 0xF2
  {
  }

  lemma DigitsTo9()
    ensures CrcBits(Plus(0xF2, 0x36), 8) == 0x52
    ensures CrcBits(Plus(0x52, 0x37), 8) == 0x3C
    ensures CrcBits(Plus(0x3C, 0x38), 8) == 0x1C
    ensures CrcBits(Plus(0x1C, 0x39), 8) == 0xFB
  {
  }

  /** The check value of this CRC-8: that of the digits 1 to 9. */
  lemma CheckValue()
    ensures Crc8([0x31, 0x32, 0x33, 0x34, 0x35, 0x36, 0x37, 0x38, 0x39]) == 0xFB
  {
    DigitsTo5();
    DigitsTo9();
    hide CrcBits, Plus;
  }

  lemma SeedTo4()
    ensures CrcBits(Plus(0xFF, 0x04), 8) == 0xEF
    ensures CrcBits(Plus(0xEF, 0x2A), 8) == 0x55
    ensures CrcBits(Plus(0x55, 0xDF), 8) == 0xBF
    ensures CrcBits(Plus(0xBF, 0x5C), 8) == 0xA7
  {
  }

  lemma SeedTo8()
    ensures CrcBits(Plus(0xA7, 0xE4), 8) == 0xCE
    ensures CrcBits(Plus(0xCE, 0x72), 8) == 0x3D
    ensures CrcBits(Plus(0x3D, 0x3D), 8) == 0x00
    ensures CrcBits(Plus(0x00, 0x0A), 8) == 0x36
  {
  }

  lemma XorsOfKeys()
    ensures XorSum([0x36]) == 0x36 && XorSum([0x12, 0x24]) == 0x36 && XorSum([0x36, 0x36]) == 0
  {
    assert [0x12, 0x24][..1] == [0x12] && [0x36, 0x36][..1] == [0x36];
  }

  /** A key for the seed of level 1, in one byte or in two. */
  lemma FirstKeys()
    ensures KeyMatches(SeedBits(1, 8), [0x36]) && KeyMatches(SeedBits(1, 8), [0x12, 0x24])
    ensures !KeyMatches(SeedBits(1, 8), [0x36, 0x36])
  {
    hide SeedBits, CrcBits, Plus, XorSum;
    FirstSeed();
    SeedTo4();
    SeedTo8();
    XorsOfKeys();
  }
}
