/** Security access over whole timed runs: how many keys can be tried, and where an unlock comes from. */
module SecurityRuns {
  import opened Bytes
  import opened Uds
  import opened Security

  /** Everything that can happen to the module between two initialisations; verdict is whatever key
      validation callback is installed at that moment. */
  datatype Event =
    | Wait(ms: nat)
    | AskSeed(subfn: u8, len: u8)
    | TryKey(subfn: u8, key: seq<u8>, verdict: Verdict)
    | Lock
    | AskDelay

  /** What an observer of the answers sees, per level index. */
  datatype Outcome =
    | Quiet
    | Issued(level: nat, seed: seq<u8>)
    | Unlocked(level: nat)
    | Rejected(level: nat)
    | Tripped(level: nat)
    | LockedAll

  datatype World = World(sec: State, now: nat)

  datatype Result = Result(world: World, outcome: Outcome)

  ghost function Step(w: World, e: Event): (r: Result)
  {
    match e
    case Wait(ms) => Result(w.(now := w.now + ms), Quiet)
    case AskSeed(subfn, len) =>
      var r := RequestSeed(w.sec, w.now, subfn, len);
      Result(w.(sec := r.state),
             if r.nrc == NRC_POSITIVE && !w.sec.levels[Index(subfn)].unlocked then Issued(Index(subfn), r.seed.value)
             else Quiet)
    case TryKey(subfn, key, verdict) =>
      var r := SendKey(w.sec, w.now, subfn, key, verdict);
      Result(w.(sec := r.state),
             if r.nrc == NRC_POSITIVE then Unlocked(Index(subfn))
             else if r.nrc == NRC_INVALID_KEY then Rejected(Index(subfn))
             else if r.nrc == NRC_EXCEEDED_ATTEMPTS then Tripped(Index(subfn))
             else Quiet)
    case Lock => Result(w.(sec := LockAll(w.sec)), LockedAll)
    case AskDelay => Result(w.(sec := DelayRemaining(w.sec, w.now).state), Quiet)
  }

  // ---------------------------------------------------------------------------------------------
  // An account of one level, kept from outcomes only
  // ---------------------------------------------------------------------------------------------

  /** streak: keys rejected since the last one that was accepted or answered 0x36; armed: the seed issued last and not
      yet used up; open: a key was accepted and no lock came since. */
  datatype Account = Account(issued: nat, unlocked: nat, rejected: nat, tripped: nat, lastTrip: nat, streak: nat,
                             armed: Option<seq<u8>>, open: bool)

  const NEW_ACCOUNT := Account(0, 0, 0, 0, 0, 0, None, false)

  function Book(a: Account, level: nat, o: Outcome, now: nat): Account {
    match o
    case Quiet => a
    case Issued(l, seed) => if l == level then a.(issued := a.issued + 1, armed := Some(seed)) else a
    case Unlocked(l) =>
      if l == level then a.(unlocked := a.unlocked + 1, streak := 0, armed := None, open := true) else a
    case Rejected(l) =>
      if l == level then a.(rejected := a.rejected + 1, streak := a.streak + 1, armed := None) else a
    case Tripped(l) =>
      if l == level then a.(tripped := a.tripped + 1, lastTrip := now, streak := 0, armed := None) else a
    case LockedAll => a.(armed := None, open := false)
  }

  /** trips, tripAt: how many keys of any level were answered 0x36, and when the last one. */
  datatype History = History(world: World, account: Account, elapsed: nat, trips: nat, tripAt: nat)

  ghost function Run(h: History, level: nat, es: seq<Event>): (r: History)
    decreases |es|
  {
    if es == [] then h else Run(Advance(h, level, es[0]), level, es[1..])
  }

  ghost function Advance(h: History, level: nat, e: Event): (r: History)
  {
    var r := Step(h.world, e);
    History(r.world, Book(h.account, level, r.outcome, h.world.now),
            h.elapsed + (if e.Wait? then e.ms else 0), h.trips + (if r.outcome.Tripped? then 1 else 0),
            if r.outcome.Tripped? then h.world.now else h.tripAt)
  }

  ghost function Start(now: nat): History {
    History(World(Init(), now), NEW_ACCOUNT, 0, 0, 0)
  }

  // ---------------------------------------------------------------------------------------------
  // Invariant
  // ---------------------------------------------------------------------------------------------

  /** The clock and the delay timer: trips so far are 10 s apart, and the last one started the timer. */
  ghost predicate TimerInv(h: History, start: nat) {
    var s := h.world.sec;
    && h.world.now == start + h.elapsed
    && (s.timer.running <==> h.trips > 0)
    && (s.delay ==> s.timer.running)
    && (s.timer.running ==>
          && s.timer.duration == DELAY_MS && s.timer.startAt == h.tripAt
          && start + DELAY_MS * (h.trips - 1) <= s.timer.startAt <= h.world.now
          && (!s.delay ==> Expired(s.timer, h.world.now)))
  }

  /** One level against its account. */
  ghost predicate LevelInv(h: History, level: nat, start: nat)
    requires level < NUM_LEVELS
  {
    var s, a, l := h.world.sec, h.account, h.world.sec.levels[level];
    && l.attempts == a.streak <= MAX_ATTEMPTS
    && (l.unlocked <==> a.open)
    && (l.seedSent <==> a.armed.Some?)
    && (a.armed.Some? ==> a.armed.value <= l.seed)
    && a.unlocked + a.rejected + a.tripped + (if l.seedSent then 1 else 0) <= a.issued
    && a.rejected <= MAX_ATTEMPTS * (a.tripped + a.unlocked) + l.attempts
    && (a.tripped > 0 ==>
          && s.timer.running && a.lastTrip <= s.timer.startAt
          && start + DELAY_MS * (a.tripped - 1) <= a.lastTrip
          && (l.attempts > 0 ==> a.lastTrip + DELAY_MS <= h.world.now))
  }

  ghost predicate Inv(h: History, level: nat, start: nat)
    requires level < NUM_LEVELS
  {
    TimerInv(h, start) && LevelInv(h, level, start)
  }

  lemma StartInv(level: nat, start: nat)
    requires level < NUM_LEVELS
    ensures Inv(Start(start), level, start)
  {
  }

  lemma SeedKeepsInv(h: History, level: nat, start: nat, subfn: u8, len: u8)
    requires level < NUM_LEVELS && Inv(h, level, start)
    ensures Inv(Advance(h, level, AskSeed(subfn, len)), level, start)
  {
    hide SeedBytes;
    var s, i := h.world.sec, Index(subfn);
    if ValidIndex(i) && !Delayed(s, h.world.now) && !s.levels[i].unlocked {
      var n := Min(len, SEED_SIZE);
      assert SeedBytes(i + 1, n) <= SeedBytes(i + 1, n) + s.levels[i].seed[n..];
    }
  }

  lemma KeyKeepsTimer(h: History, level: nat, start: nat, subfn: u8, key: seq<u8>, verdict: Verdict)
    requires level < NUM_LEVELS && Inv(h, level, start)
    ensures TimerInv(Advance(h, level, TryKey(subfn, key, verdict)), start)
  {
  }

  lemma KeyKeepsLevel(h: History, level: nat, start: nat, subfn: u8, key: seq<u8>, verdict: Verdict)
    requires level < NUM_LEVELS && Inv(h, level, start)
    ensures LevelInv(Advance(h, level, TryKey(subfn, key, verdict)), level, start)
  {
    hide Security.Index;
    if Index(subfn) != level {
      assert Advance(h, level, TryKey(subfn, key, verdict)).world.sec.levels[level] == h.world.sec.levels[level];
    }
  }

  lemma AdvanceKeepsInv(h: History, level: nat, start: nat, e: Event)
    requires level < NUM_LEVELS && Inv(h, level, start)
    ensures Inv(Advance(h, level, e), level, start)
  {
    match e
    case AskSeed(subfn, len) => SeedKeepsInv(h, level, start, subfn, len);
    case TryKey(subfn, key, verdict) =>
      KeyKeepsTimer(h, level, start, subfn, key, verdict);
      KeyKeepsLevel(h, level, start, subfn, key, verdict);
    case _ =>
  }

  lemma {:induction false} RunKeepsInv(h: History, level: nat, start: nat, es: seq<Event>)
    requires level < NUM_LEVELS && Inv(h, level, start)
    ensures Inv(Run(h, level, es), level, start)
    decreases |es|
  {
    hide Inv, Advance;
    if es != [] {
      AdvanceKeepsInv(h, level, start, es[0]);
      RunKeepsInv(Advance(h, level, es[0]), level, start, es[1..]);
    }
  }

  lemma RunInv(level: nat, start: nat, es: seq<Event>)
    requires level < NUM_LEVELS
    ensures Inv(Run(Start(start), level, es), level, start)
  {
    StartInv(level, start);
    RunKeepsInv(Start(start), level, start, es);
  }

  // ---------------------------------------------------------------------------------------------
  // How many keys can be tried
  // ---------------------------------------------------------------------------------------------

  /** In a run of D ms a level rejects at most 5 keys per started window of 10 s, plus 5 for every key it
      accepted in between; over all levels together, 0x36 is answered at most 1 + D div 10000 times. */
  lemma FailedKeysBounded(level: nat, start: nat, es: seq<Event>)
    requires level < NUM_LEVELS
    ensures var h := Run(Start(start), level, es);
            && h.account.rejected <= 5 * (1 + h.account.unlocked + h.elapsed / 10000)
            && h.trips <= 1 + h.elapsed / 10000
            && h.world.sec.levels[level].attempts <= 5
  {
    RunInv(level, start, es);
    var h := Run(Start(start), level, es);
    var l, a := h.world.sec.levels[level], h.account;
    if a.tripped > 0 && l.attempts > 0 {
      assert DELAY_MS * a.tripped <= h.elapsed;
    }
  }

  /** While the delay runs no seed is issued and no key is looked at, whatever is asked and by whom;
      locking all levels ends neither the delay nor any level's count of failures. */
  lemma DelayBlocksEverything(w: World, e: Event)
    requires Delayed(w.sec, w.now)
    ensures Step(w, e).outcome in {Quiet, LockedAll}
    ensures e.TryKey? ==> !SendKey(w.sec, w.now, e.subfn, e.key, e.verdict).consulted
    ensures var s := Step(w, e).world.sec;
            && s.delay && s.timer == w.sec.timer
            && forall i :: 0 <= i < NUM_LEVELS ==> s.levels[i].attempts == w.sec.levels[i].attempts
  {
  }

  /** The remaining time reported after any run is exact: everything stays refused for precisely that long,
      never longer than 10 s. */
  lemma DelayReportedExactly(start: nat, es: seq<Event>, later: nat)
    ensures var w := Run(Start(start), 0, es).world;
            var ms := DelayRemaining(w.sec, w.now).ms;
            ms <= 10000 && (Delayed(w.sec, w.now + later) <==> later < ms)
  {
    RunInv(0, start, es);
    hide Run;
  }

  // ---------------------------------------------------------------------------------------------
  // Where an unlock comes from
  // ---------------------------------------------------------------------------------------------

  /** A level turns unlocked only by a sendKey whose validator accepted the seed in force: the one issued
      last to this level, neither used up nor discarded by a lock since. */
  lemma UnlockNeedsKey(h: History, level: nat, start: nat, e: Event)
    requires level < NUM_LEVELS && Inv(h, level, start)
    requires !h.world.sec.levels[level].unlocked && Advance(h, level, e).world.sec.levels[level].unlocked
    ensures e.TryKey? && Index(e.subfn) == level
    ensures h.account.armed.Some? && h.account.armed.value <= h.world.sec.levels[level].seed
    ensures e.verdict(level + 1, h.world.sec.levels[level].seed, e.key)
  {
    hide SeedBytes;
  }

  lemma {:induction false} RunSnoc(h: History, level: nat, es: seq<Event>, e: Event)
    ensures Run(h, level, es + [e]) == Advance(Run(h, level, es), level, e)
    decreases |es|
  {
    hide Advance;
    if es == [] {
      assert ([] + [e])[1..] == [];
      assert Run(h, level, [e]) == Run(Advance(h, level, e), level, []);
    } else {
      assert (es + [e])[1..] == es[1..] + [e];
      RunSnoc(Advance(h, level, es[0]), level, es[1..], e);
    }
  }

  /** Provenance over whole runs: a level that is unlocked after any run owes it to a sendKey at some
      position k, accepted against the seed then in force, with no lock since. */
  lemma {:induction false} UnlockProvenance(level: nat, start: nat, es: seq<Event>) returns (k: nat)
    requires level < NUM_LEVELS
    requires Run(Start(start), level, es).world.sec.levels[level].unlocked
    ensures k < |es| && es[k].TryKey? && Index(es[k].subfn) == level
    ensures var h := Run(Start(start), level, es[..k]);
            && h.account.armed.Some? && h.account.armed.value <= h.world.sec.levels[level].seed
            && es[k].verdict(level + 1, h.world.sec.levels[level].seed, es[k].key)
    ensures forall j :: k < j < |es| ==> !es[j].Lock?
    decreases |es|
  {
    var n := |es| - 1;
    var front, last := es[..n], es[n];
    assert es == front + [last];
    RunSnoc(Start(start), level, front, last);
    RunInv(level, start, front);
    var h := Run(Start(start), level, front);
    if h.world.sec.levels[level].unlocked {
      k := UnlockProvenance(level, start, front);
      assert es[..k] == front[..k] && !last.Lock?;
    } else {
      UnlockNeedsKey(h, level, start, last);
      k := n;
    }
  }

  lemma ConsultedIffVerdict(w: World, e: Event)
    requires e.TryKey?
    ensures SendKey(w.sec, w.now, e.subfn, e.key, e.verdict).consulted
            <==> Step(w, e).outcome.Unlocked? || Step(w, e).outcome.Rejected?
  {
  }

  /** One validation per seed: validator calls and 0x36 answers of a level never exceed the seeds issued
      to it; and the level is unlocked exactly if a key was accepted since the last lock. */
  lemma OneUsePerSeed(level: nat, start: nat, es: seq<Event>)
    requires level < NUM_LEVELS
    ensures var h := Run(Start(start), level, es);
            && h.account.unlocked + h.account.rejected + h.account.tripped <= h.account.issued
            && (h.world.sec.levels[level].unlocked <==> h.account.open)
  {
    RunInv(level, start, es);
  }

  // ---------------------------------------------------------------------------------------------
  // The bound is attained
  // ---------------------------------------------------------------------------------------------

  ghost function Refuse(): Verdict {
    (level, seed, key) => false
  }

  /** A seed and a wrong key for the level with subfunction 1. */
  ghost function Attempt(): seq<Event> {
    [AskSeed(1, 8), TryKey(1, [0], Refuse())]
  }

  /** The level may be tried: locked, and no delay in force. */
  ghost predicate Open(h: History, failures: nat)
  {
    !h.world.sec.levels[0].unlocked && !Delayed(h.world.sec, h.world.now) && h.world.sec.levels[0].attempts == failures
  }

  /** h' is h after some failures: n more rejections, ms more time, nothing accepted. */
  ghost predicate Later(h: History, h': History, n: nat, ms: nat) {
    && h'.account.rejected == h.account.rejected + n
    && h'.account.unlocked == h.account.unlocked
    && h'.elapsed == h.elapsed + ms
  }

  lemma AttemptRuns(h: History)
    ensures Run(h, 0, Attempt()) == Advance(Advance(h, 0, AskSeed(1, 8)), 0, TryKey(1, [0], Refuse()))
  {
    hide Advance;
    var h1 := Advance(h, 0, AskSeed(1, 8));
    assert Attempt()[1..] == [TryKey(1, [0], Refuse())];
    assert Attempt()[1..][1..] == [];
    assert Run(h1, 0, [TryKey(1, [0], Refuse())]) == Run(Advance(h1, 0, TryKey(1, [0], Refuse())), 0, []);
  }

  lemma AttemptFails(h: History, failures: nat)
    requires Open(h, failures) && failures < 5
    ensures Open(Run(h, 0, Attempt()), failures + 1) && Later(h, Run(h, 0, Attempt()), 1, 0)
  {
    hide SeedBytes;
    AttemptRuns(h);
  }

  lemma SixthAttemptTrips(h: History)
    requires Open(h, 5)
    ensures var h' := Advance(Run(h, 0, Attempt()), 0, Wait(10000)); Open(h', 0) && Later(h, h', 0, 10000)
  {
    hide SeedBytes;
    AttemptRuns(h);
  }

  lemma {:induction false} RunConcat(h: History, level: nat, a: seq<Event>, b: seq<Event>)
    ensures Run(h, level, a + b) == Run(Run(h, level, a), level, b)
    decreases |a|
  {
    hide Advance;
    if a == [] {
      assert a + b == b;
    } else {
      assert (a + b)[1..] == a[1..] + b;
      RunConcat(Advance(h, level, a[0]), level, a[1..], b);
    }
  }

  ghost function Attempts(n: nat): seq<Event> {
    if n == 0 then [] else Attempt() + Attempts(n - 1)
  }

  /** Five failures and the refused sixth try, k times, waiting out the delay each time; then five more. */
  ghost function WorstCase(k: nat): seq<Event> {
    if k == 0 then Attempts(5) else Attempts(5) + (Attempt() + ([Wait(10000)] + WorstCase(k - 1)))
  }

  lemma {:induction false} AttemptsCount(h: History, failures: nat, n: nat)
    requires Open(h, failures) && failures + n <= 5
    ensures Open(Run(h, 0, Attempts(n)), failures + n) && Later(h, Run(h, 0, Attempts(n)), n, 0)
    decreases n
  {
    hide Open, Attempt, Advance;
    if n > 0 {
      AttemptFails(h, failures);
      RunConcat(h, 0, Attempt(), Attempts(n - 1));
      AttemptsCount(Run(h, 0, Attempt()), failures + 1, n - 1);
    }
  }

  lemma {:induction false} WorstCaseCounts(h: History, k: nat)
    requires Open(h, 0)
    ensures Later(h, Run(h, 0, WorstCase(k)), 5 * (k + 1), 10000 * k)
    decreases k
  {
    hide Open, Attempt, Attempts, Advance;
    AttemptsCount(h, 0, 5);
    if k > 0 {
      var h1 := Run(h, 0, Attempts(5));
      SixthAttemptTrips(h1);
      var h2 := Run(h1, 0, Attempt());
      WorstCaseCounts(Advance(h2, 0, Wait(10000)), k - 1);
      var rest := [Wait(10000)] + WorstCase(k - 1);
      assert rest[1..] == WorstCase(k - 1);
      RunConcat(h, 0, Attempts(5), Attempt() + rest);
      RunConcat(h1, 0, Attempt(), rest);
    }
  }

  /** FailedKeysBounded cannot be improved: for every k there is a run of exactly 10 k seconds without a
      successful key in which level 1 rejects 5 * (1 + D div 10000) keys. */
  lemma BoundAttained(k: nat, start: nat)
    ensures var h := Run(Start(start), 0, WorstCase(k));
            && h.elapsed == 10000 * k && h.account.unlocked == 0
            && h.account.rejected == 5 * (1 + h.elapsed / 10000)
  {
    hide WorstCase;
    WorstCaseCounts(Start(start), k);
  }
}
