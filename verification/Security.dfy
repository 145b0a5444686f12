/** The security access state machine: sixteen levels, attempt counters, one global delay timer. */
module Security {
  import opened Bytes
  import opened Uds
  import SeedKey

  const NUM_LEVELS := 16
  const MAX_ATTEMPTS := 5
  const DELAY_MS := 10000
  const SEED_SIZE := 8

  type Seed = s: seq<u8> | |s| == SEED_SIZE witness seq(8, _ => 0)

  datatype Level = Level(unlocked: bool, seedSent: bool, seed: Seed, attempts: nat)

  const FRESH_LEVEL := Level(false, false, Zeros(SEED_SIZE), 0)

  /** The single-shot hardware timer, against a clock in milliseconds. */
  datatype Timer = Timer(running: bool, startAt: nat, duration: nat)

  predicate Expired(t: Timer, now: nat) {
    t.running && now >= t.startAt + t.duration
  }

  function Remaining(t: Timer, now: nat): nat {
    if t.running && now < t.startAt + t.duration then t.startAt + t.duration - now else 0
  }

  type Levels = l: seq<Level> | |l| == NUM_LEVELS witness seq(16, _ => FRESH_LEVEL)

  datatype State = State(levels: Levels, current: nat, seedPending: bool, delay: bool, timer: Timer)

  type Verdict = (u8, Seed, seq<u8>) -> bool

  function Init(): (s: State)
  {
    State(seq(NUM_LEVELS, _ => FRESH_LEVEL), 0, false, false, Timer(false, 0, 0))
  }

  /** subfn_to_idx; subfunction 0 wraps around to an invalid index. */
  function Index(subfn: u8): nat {
    if subfn == 0 then 255 else (subfn - 1) / 2
  }

  predicate ValidIndex(i: nat) {
    i < NUM_LEVELS
  }

  /** The generator is restarted per level, so the seed is a function of the level number. */
  function SeedBytes(level: u8, len: nat): (r: seq<u8>)
    ensures |r| == len
  {
    var bits := SeedKey.SeedBits(level, len);
    seq(len, i requires 0 <= i < len => bits[i] as int)
  }

  predicate Delayed(s: State, now: nat) {
    s.delay && !Expired(s.timer, now)
  }

  /** Both services clear an expired delay on the way. */
  function Settle(s: State, now: nat): State {
    if s.delay && Expired(s.timer, now) then s.(delay := false) else s
  }

  datatype SeedReply = SeedReply(state: State, nrc: u8, seed: Option<seq<u8>>)

  function RequestSeed(s: State, now: nat, subfn: u8, len: u8): SeedReply
  {
    var i := Index(subfn);
    if !ValidIndex(i) then SeedReply(s, NRC_SUB_FUNCTION_NOT_SUPPORTED, None)
    else if Delayed(s, now) then SeedReply(s, NRC_DELAY_NOT_EXPIRED, None)
    else
      var s' := Settle(s, now);
      var l := s'.levels[i];
      if l.unlocked then SeedReply(s', NRC_POSITIVE, Some(Zeros(len)))
      else
        var n := Min(len, SEED_SIZE);
        var seed := SeedBytes(i + 1, n);
        var l' := l.(seed := seed + l.seed[n..], seedSent := true);
        SeedReply(s'.(levels := s'.levels[i := l'], seedPending := true, current := i), NRC_POSITIVE, Some(seed))
  }

  /** consulted: the key validation callback was called. */
  datatype KeyReply = KeyReply(state: State, nrc: u8, consulted: bool)

  function SendKey(s: State, now: nat, subfn: u8, key: seq<u8>, verdict: Verdict): KeyReply
  {
    var i := Index(subfn);
    if !ValidIndex(i) then KeyReply(s, NRC_SUB_FUNCTION_NOT_SUPPORTED, false)
    else if !s.levels[i].seedSent then KeyReply(s, NRC_REQUEST_SEQUENCE_ERROR, false)
    else if Delayed(s, now) then KeyReply(s, NRC_DELAY_NOT_EXPIRED, false)
    else
      var s', l := Settle(s, now), s.levels[i];
      if l.attempts >= MAX_ATTEMPTS then
        KeyReply(s'.(levels := s'.levels[i := l.(attempts := 0, seedSent := false)], seedPending := false,
                     delay := true, timer := Timer(true, now, DELAY_MS)), NRC_EXCEEDED_ATTEMPTS, false)
      else if verdict(i + 1, l.seed, key) then
        KeyReply(s'.(levels := s'.levels[i := l.(unlocked := true, attempts := 0, seedSent := false)],
                     seedPending := false), NRC_POSITIVE, true)
      else
        KeyReply(s'.(levels := s'.levels[i := l.(attempts := l.attempts + 1, seedSent := false)],
                     seedPending := false), NRC_INVALID_KEY, true)
  }

  function LockAll(s: State): (r: State)
  {
    s.(levels := seq(NUM_LEVELS, i requires 0 <= i < NUM_LEVELS => s.levels[i].(unlocked := false, seedSent := false)),
       seedPending := false)
  }

  predicate AnyUnlocked(s: State)
  {
    exists i :: 0 <= i < NUM_LEVELS && s.levels[i].unlocked
  }

  datatype DelayReply = DelayReply(state: State, ms: nat)

  function DelayRemaining(s: State, now: nat): DelayReply {
    if !s.delay then DelayReply(s, 0)
    else if Remaining(s.timer, now) == 0 && Expired(s.timer, now) then DelayReply(s.(delay := false), 0)
    else DelayReply(s, Remaining(s.timer, now))
  }
}
