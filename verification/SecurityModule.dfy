/** uds_security.c with its static state, updated in place and proved against the functions of Security. */
module SecurityModule {
  import opened Bytes
  import opened Uds
  import opened Security
  import SeedKey

  /** hal_timer: one single-shot timer over a monotone millisecond clock. */
  class HalTimer {
    var now: nat
    var timer: Timer

    constructor ()
      ensures now == 0 && timer == Timer(false, 0, 0)
    {
      now, timer := 0, Timer(false, 0, 0);
    }

    method Reset()
      modifies this`timer
      ensures timer == Timer(false, 0, 0)
    {
      timer := Timer(false, 0, 0);
    }

    method Advance(ms: nat)
      modifies this`now
      ensures now == old(now) + ms
    {
      now := now + ms;
    }

    method Start(ms: nat)
      modifies this`timer
      ensures timer == Timer(true, now, ms)
    {
      timer := Timer(true, now, ms);
    }

    predicate IsExpired()
      reads this
    {
      Expired(timer, now)
    }
  }

  function ToBits(s: seq<u8>): (b: seq<bv8>)
    ensures |b| == |s|
  {
    seq(|s|, i requires 0 <= i < |s| => s[i] as bv8)
  }

  function DefaultVerdict(): Verdict {
    (level: u8, seed: Seed, key: seq<u8>) => SeedKey.KeyMatches(ToBits(seed), ToBits(key))
  }

  /** default_key_validate: CRC-8 over the seed, bit by bit, against the XOR of the key bytes. */
  method DefaultKeyValidate(seed: seq<bv8>, key: seq<bv8>) returns (ok: bool)
    requires |seed| < 256 && |key| < 256
    ensures ok == SeedKey.KeyMatches(seed, key)
  {
    if |seed| == 0 || |key| == 0 {
      return false;
    }
    var crc: bv8 := 0xFF;
    for i := 0 to |seed|
      invariant SeedKey.CrcFrom(crc, seed[i..]) == SeedKey.Crc8(seed)
    {
      ghost var before := crc;
      crc := SeedKey.Plus(crc, seed[i]);
      crc := CrcBits(crc);
      assert SeedKey.CrcFrom(before, seed[i..]) == SeedKey.CrcFrom(crc, seed[i..][1..]);
      assert seed[i..][1..] == seed[i + 1..];
    }
    assert seed[|seed|..] == [];
    var sum: bv8 := 0;
    for k := 0 to |key|
      invariant sum == SeedKey.XorSum(key[..k])
    {
      sum := SeedKey.Plus(sum, key[k]);
      assert key[..k + 1][..k] == key[..k];
    }
    assert key[..|key|] == key;
    ok := sum == crc;
  }

  method CrcBits(c: bv8) returns (r: bv8)
    ensures r == SeedKey.CrcBits(c, 8)
  {
    r := c;
    for j := 0 to 8
      invariant SeedKey.CrcBits(r, 8 - j) == SeedKey.CrcBits(c, 8)
    {
      if r & 0x80 != 0 {
        r := (r << 1) ^ 0x07;
      } else {
        r := r << 1;
      }
    }
  }

  class Module {
    const hal: HalTimer
    const levels: array<Level>
    var lfsr: bv32
    var current: nat
    var seedPending: bool
    var delay: bool
    var validate: Verdict

    predicate Valid()
      reads this
    {
      levels.Length == NUM_LEVELS
    }

    function View(): (s: State)
      reads this, levels, hal
      requires Valid()
    {
      State(levels[..], current, seedPending, delay, hal.timer)
    }

    constructor (timer: HalTimer)
      modifies timer`timer
      ensures Valid() && fresh(levels) && hal == timer
      ensures View() == Init() && validate == DefaultVerdict()
    {
      hal := timer;
      levels := new Level[NUM_LEVELS](_ => FRESH_LEVEL);
      lfsr, current, seedPending, delay, validate := 0, 0, false, false, DefaultVerdict();
      new;
      hal.Reset();
      assert levels[..] == Init().levels;
    }

    method SetKeyValidateCallback(callback: Option<Verdict>)
      requires Valid()
      modifies this`validate
      ensures callback.Some? ==> validate == callback.value
      ensures callback.None? ==> validate == DefaultVerdict()
    {
      match callback {
        case None => validate := DefaultVerdict();
        case Some(f) => validate := f;
      }
    }

    /** lfsr_next_byte. */
    method NextByte() returns (b: bv8)
      modifies this`lfsr
      ensures b == SeedKey.NextByte(old(lfsr)) && lfsr == SeedKey.AfterByte(old(lfsr))
    {
      b := 0;
      for i := 0 to 8
        invariant SeedKey.BitsOut(lfsr, 8 - i, b) == SeedKey.NextByte(old(lfsr))
        invariant SeedKey.Shifted(lfsr, 8 - i) == SeedKey.AfterByte(old(lfsr))
      {
        var bit := SeedKey.OutBit(lfsr);
        b := SeedKey.Push(b, bit);
        var shifted := lfsr >> 1;
        lfsr := if bit != 0 then shifted ^ SeedKey.LFSR_TAPS else shifted;
      }
    }

    method GenerateSeed(level: u8, len: nat) returns (seed: seq<u8>)
      modifies this`lfsr
      ensures seed == SeedBytes(level, len)
    {
      hide SeedKey.NextByte, SeedKey.AfterByte, SeedKey.InitialState;
      lfsr := SeedKey.InitialState(SeedKey.LevelWord(level));
      ghost var bits := SeedKey.SeedBits(level, len);
      seed := [];
      for i := 0 to len
        invariant |seed| == i
        invariant SeedKey.Draw(lfsr, len - i) == bits[i..]
        invariant forall j :: 0 <= j < i ==> seed[j] == bits[j] as int
      {
        assert bits[i] == bits[i..][0] && bits[i + 1..] == bits[i..][1..];
        var b := NextByte();
        seed := seed + [b as int];
      }
    }

    method RequestSeed(subfn: u8, len: u8) returns (nrc: u8, seed: Option<seq<u8>>)
      requires Valid()
      modifies this`lfsr, this`current, this`seedPending, this`delay, levels
      ensures SeedReply(View(), nrc, seed) == Security.RequestSeed(old(View()), hal.now, subfn, len)
    {
      hide SeedBytes;
      var i := Index(subfn);
      if !ValidIndex(i) {
        return NRC_SUB_FUNCTION_NOT_SUPPORTED, None;
      }
      if delay {
        if hal.IsExpired() {
          delay := false;
        } else {
          return NRC_DELAY_NOT_EXPIRED, None;
        }
      }
      if levels[i].unlocked {
        return NRC_POSITIVE, Some(Zeros(len));
      }
      var n := if len < SEED_SIZE then len else SEED_SIZE;
      var bytes := GenerateSeed(i + 1, n);
      levels[i] := levels[i].(seed := bytes + levels[i].seed[n..]);
      levels[i] := levels[i].(seedSent := true);
      seedPending, current := true, i;
      return NRC_POSITIVE, Some(bytes);
    }

    method SendKey(subfn: u8, key: seq<u8>) returns (nrc: u8, ghost consulted: bool)
      requires Valid()
      modifies this`seedPending, this`delay, levels, hal`timer
      ensures KeyReply(View(), nrc, consulted) == Security.SendKey(old(View()), hal.now, subfn, key, validate)
    {
      consulted := false;
      var i := Index(subfn);
      if !ValidIndex(i) {
        return NRC_SUB_FUNCTION_NOT_SUPPORTED, false;
      }
      if !levels[i].seedSent {
        return NRC_REQUEST_SEQUENCE_ERROR, false;
      }
      if delay {
        if hal.IsExpired() {
          delay := false;
        } else {
          return NRC_DELAY_NOT_EXPIRED, false;
        }
      }
      if levels[i].attempts >= MAX_ATTEMPTS {
        hal.Start(DELAY_MS);
        delay := true;
        levels[i] := levels[i].(attempts := 0);
        levels[i] := levels[i].(seedSent := false);
        seedPending := false;
        return NRC_EXCEEDED_ATTEMPTS, false;
      }
      var ok := validate(i + 1, levels[i].seed, key);
      if ok {
        levels[i] := levels[i].(unlocked := true);
        levels[i] := levels[i].(seedSent := false);
        levels[i] := levels[i].(attempts := 0);
        seedPending := false;
        return NRC_POSITIVE, true;
      } else {
        levels[i] := levels[i].(attempts := levels[i].attempts + 1);
        levels[i] := levels[i].(seedSent := false);
        seedPending := false;
        return NRC_INVALID_KEY, true;
      }
    }

    method Lock()
      requires Valid()
      modifies this`seedPending, levels
      ensures View() == LockAll(old(View()))
    {
      for i := 0 to NUM_LEVELS
        invariant forall j :: 0 <= j < i ==> levels[j] == old(levels[j]).(unlocked := false, seedSent := false)
        invariant forall j :: i <= j < NUM_LEVELS ==> levels[j] == old(levels[j])
      {
        levels[i] := levels[i].(unlocked := false);
        levels[i] := levels[i].(seedSent := false);
      }
      seedPending := false;
    }

    method IsUnlocked() returns (any: bool)
      requires Valid()
      ensures any == AnyUnlocked(View())
    {
      for i := 0 to NUM_LEVELS
        invariant forall j :: 0 <= j < i ==> !levels[j].unlocked
      {
        if levels[i].unlocked {
          assert View().levels[i].unlocked;
          return true;
        }
      }
      return false;
    }

    method DelayRemainingMs() returns (ms: nat)
      requires Valid()
      modifies this`delay
      ensures DelayReply(View(), ms) == DelayRemaining(old(View()), hal.now)
    {
      if !delay {
        return 0;
      }
      ms := Remaining(hal.timer, hal.now);
      if ms == 0 && hal.IsExpired() {
        delay := false;
      }
    }
  }
}
