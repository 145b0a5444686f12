/** What security access answers, in plain numbers: to any state, and to any run through what the tester saw of it. */
module SecurityAnswers {
  import opened Bytes
  import opened Uds
  import opened Security
  import opened SecurityRuns

  /** Level k + 1 owns subfunctions 2k + 1 and 2k + 2, and 1 to 32 are the ones that have a level. */
  lemma LevelOfSubfunction(k: nat, subfn: u8)
    requires k < 16
    ensures Index(subfn) == k <==> subfn == 2 * k + 1 || subfn == 2 * k + 2
    ensures ValidIndex(Index(subfn)) <==> 1 <= subfn <= 32
  {
  }

  /** The delay of a state is in force. */
  predicate Blocked(s: State, now: nat) {
    s.delay && !(s.timer.running && now >= s.timer.startAt + s.timer.duration)
  }

  /** A sendKey for level k + 1 that comes with a seed pending and no delay in force: after five failures it is not
      looked at and starts the delay of 10 s; otherwise the validator alone decides, and a level it accepts is unlocked
      however many failures came before.  Nothing else about the levels changes. */
  lemma KeyDecided(w: World, k: nat, e: Event)
    requires k < 16 && e.TryKey? && e.subfn in {2 * k + 1, 2 * k + 2}
    requires w.sec.levels[k].seedSent && !Blocked(w.sec, w.now)
    ensures var l, r := w.sec.levels[k], Step(w, e);
            var s := r.world.sec;
            && (l.attempts >= 5 ==>
                  && r.outcome == Tripped(k) && s.delay && s.timer == Timer(true, w.now, 10000)
                  && s.levels == w.sec.levels[k := l.(attempts := 0, seedSent := false)])
            && (l.attempts < 5 && e.verdict(k + 1, l.seed, e.key) ==>
                  && r.outcome == Unlocked(k) && !s.delay && s.timer == w.sec.timer
                  && s.levels == w.sec.levels[k := Level(true, false, l.seed, 0)])
            && (l.attempts < 5 && !e.verdict(k + 1, l.seed, e.key) ==>
                  && r.outcome == Rejected(k) && !s.delay && s.timer == w.sec.timer
                  && s.levels == w.sec.levels[k := Level(l.unlocked, false, l.seed, l.attempts + 1)])
            && !s.seedPending && r.world.now == w.now
  {
    LevelOfSubfunction(k, e.subfn);
    hide Index;
  }

  /** All other sendKeys are refused, with 0x12, 0x24 or 0x37 in this order, and change nothing. */
  lemma KeyRefused(w: World, e: Event)
    requires e.TryKey?
    ensures var r := SendKey(w.sec, w.now, e.subfn, e.key, e.verdict);
            && (r.nrc == 0x12 <==> !(1 <= e.subfn <= 32))
            && (r.nrc == 0x24 <==> 1 <= e.subfn <= 32 && !w.sec.levels[(e.subfn - 1) / 2].seedSent)
            && (r.nrc == 0x37 <==>
                  1 <= e.subfn <= 32 && w.sec.levels[(e.subfn - 1) / 2].seedSent && Blocked(w.sec, w.now))
            && (r.nrc in {0x12, 0x24, 0x37} ==> r.state == w.sec && Step(w, e).outcome == Quiet)
            && (r.nrc == 0x36 <==> Step(w, e).outcome.Tripped?)
            && (r.nrc == 0x35 <==> Step(w, e).outcome.Rejected?)
            && (r.nrc == 0x00 <==> Step(w, e).outcome.Unlocked?)
            && r.nrc in {0x00, 0x12, 0x24, 0x35, 0x36, 0x37}
  {
  }

  /** A requestSeed is refused with 0x12 or 0x37; on an unlocked level it is answered with zeros and changes nothing
      else, on a locked one with the seed of its own level, at most 8 bytes, which is kept for the key. */
  lemma SeedAnswer(w: World, e: Event)
    requires e.AskSeed?
    ensures var r := RequestSeed(w.sec, w.now, e.subfn, e.len);
            && (r.nrc == 0x12 <==> !(1 <= e.subfn <= 32))
            && (r.nrc == 0x37 <==> 1 <= e.subfn <= 32 && Blocked(w.sec, w.now))
            && (r.nrc == 0x00 <==> 1 <= e.subfn <= 32 && !Blocked(w.sec, w.now))
            && (r.nrc != 0x00 ==> r.state == w.sec && r.seed == None && Step(w, e).outcome == Quiet)
  {
  }

  lemma SeedWithheld(w: World, k: nat, e: Event)
    requires k < 16 && e.AskSeed? && e.subfn in {2 * k + 1, 2 * k + 2} && !Blocked(w.sec, w.now)
    requires w.sec.levels[k].unlocked
    ensures var r := RequestSeed(w.sec, w.now, e.subfn, e.len);
            && r.seed.Some? && |r.seed.value| == e.len && (forall i :: 0 <= i < e.len ==> r.seed.value[i] == 0)
            && r.state == w.sec.(delay := false) && Step(w, e).outcome == Quiet
  {
    LevelOfSubfunction(k, e.subfn);
    hide Index, SeedBytes;
  }

  lemma SeedGiven(w: World, k: nat, e: Event)
    requires k < 16 && e.AskSeed? && e.subfn in {2 * k + 1, 2 * k + 2} && !Blocked(w.sec, w.now)
    requires !w.sec.levels[k].unlocked
    ensures var l, r, n := w.sec.levels[k], RequestSeed(w.sec, w.now, e.subfn, e.len), if e.len < 8 then e.len else 8;
            && r.seed == Some(SeedBytes(k + 1, n)) && Step(w, e).outcome == Issued(k, SeedBytes(k + 1, n))
            && r.state == State(w.sec.levels[k := Level(false, true, SeedBytes(k + 1, n) + l.seed[n..], l.attempts)],
                                k, true, false, w.sec.timer)
  {
    LevelOfSubfunction(k, e.subfn);
    hide Index, SeedBytes;
  }

  // ---------------------------------------------------------------------------------------------
  // Over runs
  // ---------------------------------------------------------------------------------------------

  /** Some key, of whatever level, was answered 0x36 less than 10 s ago. */
  predicate Delay(h: History) {
    h.trips > 0 && h.world.now < h.tripAt + 10000
  }

  lemma BlockedIsDelay(h: History, level: nat, start: nat)
    requires level < 16 && Inv(h, level, start)
    ensures Blocked(h.world.sec, h.world.now) <==> Delay(h)
  {
  }

  /** After any run, what becomes of a key is decided by what was seen before: it is refused without a seed in force and
      for 10 s after any 0x36, the sixth one in a row is answered 0x36, and every other one is unlocked or rejected
      as the validator says on the seed in force. */
  lemma KeyDecidedByAccount(level: nat, start: nat, es: seq<Event>, e: Event)
    requires level < 16 && e.TryKey? && e.subfn in {2 * level + 1, 2 * level + 2}
    ensures var h := Run(Start(start), level, es);
            var a, seed := h.account, h.world.sec.levels[level].seed;
            && (a.armed.Some? ==> a.armed.value <= seed)
            && a.streak <= 5
            && Step(h.world, e).outcome ==
                 if a.armed.None? || Delay(h) then Quiet
                 else if a.streak == 5 then Tripped(level)
                 else if e.verdict(level + 1, seed, e.key) then Unlocked(level)
                 else Rejected(level)
  {
    RunInv(level, start, es);
    var h := Run(Start(start), level, es);
    hide Run;
    BlockedIsDelay(h, level, start);
    KeyRefused(h.world, e);
    LevelOfSubfunction(level, e.subfn);
    if h.world.sec.levels[level].seedSent && !Blocked(h.world.sec, h.world.now) {
      KeyDecided(h.world, level, e);
    }
    hide SendKey, Step, Index, Blocked;
  }

  /** And a requested seed: refused for 10 s after any 0x36, zeros on a level that was unlocked and not locked since,
      otherwise issued. */
  lemma SeedDecidedByAccount(level: nat, start: nat, es: seq<Event>, e: Event)
    requires level < 16 && e.AskSeed? && e.subfn in {2 * level + 1, 2 * level + 2}
    ensures var h := Run(Start(start), level, es);
            var r := RequestSeed(h.world.sec, h.world.now, e.subfn, e.len);
            && (r.nrc == 0x37 <==> Delay(h)) && (r.nrc == 0x00 <==> !Delay(h))
            && (!Delay(h) && h.account.open ==>
                  r.seed.Some? && |r.seed.value| == e.len && forall i :: 0 <= i < e.len ==> r.seed.value[i] == 0)
            && (!Delay(h) && !h.account.open ==>
                  && r.seed == Some(SeedBytes(level + 1, if e.len < 8 then e.len else 8))
                  && Step(h.world, e).outcome == Issued(level, r.seed.value))
  {
    RunInv(level, start, es);
    var h := Run(Start(start), level, es);
    hide Run;
    BlockedIsDelay(h, level, start);
    SeedAnswer(h.world, e);
    LevelOfSubfunction(level, e.subfn);
    if !Blocked(h.world.sec, h.world.now) {
      if h.world.sec.levels[level].unlocked {
        SeedWithheld(h.world, level, e);
      } else {
        SeedGiven(h.world, level, e);
      }
    }
    hide RequestSeed, Step, Index, Blocked, SeedBytes;
  }

  /** The remaining time reported is what is left of 10 s since the last 0x36. */
  lemma ReportedDelay(start: nat, es: seq<Event>)
    ensures var h := Run(Start(start), 0, es);
            DelayRemaining(h.world.sec, h.world.now).ms == if Delay(h) then h.tripAt + 10000 - h.world.now else 0
  {
    RunInv(0, start, es);
    hide Run;
  }
}
