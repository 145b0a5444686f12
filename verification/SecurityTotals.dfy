/** Failed keys over all sixteen levels together: the delay is shared, and so is the bound. */
module SecurityTotals {
  import opened Bytes
  import opened Uds
  import opened Security
  import opened SecurityRuns

  /** A run with the keys accepted and rejected at any level; its history keeps clock and 0x36 answers. */
  datatype Tally = Tally(history: History, accepted: nat, rejected: nat)

  ghost function Count(t: Tally, e: Event): Tally {
    var o := Step(t.history.world, e).outcome;
    Tally(Advance(t.history, 0, e),
          t.accepted + (if o.Unlocked? then 1 else 0), t.rejected + (if o.Rejected? then 1 else 0))
  }

  ghost function CountAll(t: Tally, es: seq<Event>): Tally
    decreases |es|
  {
    if es == [] then t else CountAll(Count(t, es[0]), es[1..])
  }

  ghost function NewTally(start: nat): Tally {
    Tally(Start(start), 0, 0)
  }

  /** Failures counted against the first n levels. */
  function Failures(ls: Levels, n: nat): nat
    requires n <= NUM_LEVELS
  {
    if n == 0 then 0 else Failures(ls, n - 1) + ls[n - 1].attempts
  }

  predicate Within(ls: Levels) {
    forall i :: 0 <= i < NUM_LEVELS ==> ls[i].attempts <= MAX_ATTEMPTS
  }

  /** Some level starts over from no failures. */
  predicate SomeFresh(ls: Levels) {
    exists i :: 0 <= i < NUM_LEVELS && ls[i].attempts == 0
  }

  lemma {:induction false} FailuresChange(ls: Levels, i: nat, l: Level, n: nat)
    requires i < NUM_LEVELS && n <= NUM_LEVELS
    ensures Failures(ls[i := l], n) == if i < n then Failures(ls, n) - ls[i].attempts + l.attempts else Failures(ls, n)
  {
    if n > 0 {
      FailuresChange(ls, i, l, n - 1);
    }
  }

  lemma {:induction false} FailuresSame(a: Levels, b: Levels, n: nat)
    requires n <= NUM_LEVELS && forall i :: 0 <= i < NUM_LEVELS ==> a[i].attempts == b[i].attempts
    ensures Failures(a, n) == Failures(b, n)
  {
    if n > 0 {
      FailuresSame(a, b, n - 1);
    }
  }

  /** Sixteen levels hold at most 80 failures, and at most 75 if one of them is fresh. */
  lemma {:induction false} FailuresBounded(ls: Levels, n: nat)
    requires n <= NUM_LEVELS && Within(ls)
    ensures Failures(ls, n) <= MAX_ATTEMPTS * n
    ensures (exists i :: 0 <= i < n && ls[i].attempts == 0) ==> Failures(ls, n) <= MAX_ATTEMPTS * (n - 1)
  {
    if n > 0 {
      FailuresBounded(ls, n - 1);
    }
  }

  ghost predicate RejectedWithin(t: Tally) {
    t.rejected <= MAX_ATTEMPTS * (t.accepted + t.history.trips) + Failures(t.history.world.sec.levels, NUM_LEVELS)
  }

  ghost predicate FreshAfterTrip(w: World) {
    w.sec.timer.running && !Expired(w.sec.timer, w.now) ==> SomeFresh(w.sec.levels)
  }

  ghost predicate TotalInv(t: Tally, start: nat) {
    && Inv(t.history, 0, start) && Within(t.history.world.sec.levels)
    && RejectedWithin(t) && FreshAfterTrip(t.history.world)
  }

  lemma StartTotal(start: nat)
    ensures TotalInv(NewTally(start), start)
  {
    StartInv(0, start);
  }

  /** Events that count no failure leave the counters alone. */
  lemma QuietKeepsCounters(w: World, e: Event)
    requires !e.TryKey?
    ensures var w' := Step(w, e).world;
            && (forall i :: 0 <= i < NUM_LEVELS ==> w'.sec.levels[i].attempts == w.sec.levels[i].attempts)
            && w'.sec.timer == w.sec.timer && w'.now >= w.now
            && !Step(w, e).outcome.Unlocked? && !Step(w, e).outcome.Rejected?
            && !Step(w, e).outcome.Tripped?
  {
    hide SeedBytes;
  }

  lemma QuietKeepsTotal(t: Tally, start: nat, e: Event)
    requires TotalInv(t, start) && !e.TryKey?
    ensures TotalInv(Count(t, e), start)
  {
    AdvanceKeepsInv(t.history, 0, start, e);
    QuietKeepsCounters(t.history.world, e);
    var w, w' := t.history.world, Step(t.history.world, e).world;
    FailuresSame(w.sec.levels, w'.sec.levels, NUM_LEVELS);
    hide Step, Inv, Failures;
    if SomeFresh(w.sec.levels) {
      var i :| 0 <= i < NUM_LEVELS && w.sec.levels[i].attempts == 0;
      assert w'.sec.levels[i].attempts == 0;
    }
  }

  /** What a key does to the counters: nothing, or to one level exactly what its outcome says. */
  lemma KeyMovesCounter(w: World, e: Event)
    requires e.TryKey?
    ensures var r, i, ls := Step(w, e), Index(e.subfn), w.sec.levels;
            match r.outcome
            case Unlocked(_) =>
              && i < NUM_LEVELS && r.world.now == w.now && r.world.sec.timer == w.sec.timer && !Delayed(w.sec, w.now)
              && (exists l :: r.world.sec.levels == ls[i := l] && l.attempts == 0)
            case Rejected(_) =>
              && i < NUM_LEVELS && r.world.now == w.now && r.world.sec.timer == w.sec.timer && !Delayed(w.sec, w.now)
              && ls[i].attempts < MAX_ATTEMPTS
              && (exists l :: r.world.sec.levels == ls[i := l] && l.attempts == ls[i].attempts + 1)
            case Tripped(_) =>
              && i < NUM_LEVELS && r.world.now == w.now
              && (exists l :: r.world.sec.levels == ls[i := l] && l.attempts == 0)
            case _ => r.world.sec.levels == ls && r.world.now == w.now && r.world.sec.timer == w.sec.timer
  {
    hide Index;
    var i := Index(e.subfn);
    if ValidIndex(i) {
      var l := Step(w, e).world.sec.levels[i];
      assert Step(w, e).world.sec.levels == w.sec.levels[i := l];
    }
  }

  lemma KeyKeepsTotal(t: Tally, start: nat, e: Event)
    requires TotalInv(t, start) && e.TryKey?
    ensures TotalInv(Count(t, e), start)
  {
    AdvanceKeepsInv(t.history, 0, start, e);
    KeyMovesCounter(t.history.world, e);
    NotDelayedExpired(t.history, start);
    var w, r, i := t.history.world, Step(t.history.world, e), Index(e.subfn);
    var ls, ls' := w.sec.levels, r.world.sec.levels;
    hide Step, Inv, Index, Delayed, Expired;
    if r.outcome.Unlocked? || r.outcome.Rejected? || r.outcome.Tripped? {
      var l := ls'[i];
      FailuresChange(ls, i, l, NUM_LEVELS);
      hide Failures;
      if r.outcome.Tripped? {
        assert ls'[i].attempts == 0;
      }
    }
  }

  /** Without a delay in force the timer has run out. */
  lemma NotDelayedExpired(h: History, start: nat)
    requires Inv(h, 0, start)
    ensures !Delayed(h.world.sec, h.world.now) && h.world.sec.timer.running ==> Expired(h.world.sec.timer, h.world.now)
  {
  }

  lemma {:induction false} CountKeepsTotal(t: Tally, start: nat, es: seq<Event>)
    requires TotalInv(t, start)
    ensures TotalInv(CountAll(t, es), start)
    decreases |es|
  {
    hide TotalInv, Count;
    if es != [] {
      if es[0].TryKey? {
        KeyKeepsTotal(t, start, es[0]);
      } else {
        QuietKeepsTotal(t, start, es[0]);
      }
      CountKeepsTotal(Count(t, es[0]), start, es[1..]);
    }
  }

  /** In a run of D ms all levels together reject at most 80 + 5 * (accepted + D div 10000) keys. */
  lemma AllFailedKeysBounded(start: nat, es: seq<Event>)
    ensures var t := CountAll(NewTally(start), es);
            t.rejected <= 80 + 5 * (t.accepted + t.history.elapsed / 10000)
  {
    StartTotal(start);
    CountKeepsTotal(NewTally(start), start, es);
    var t := CountAll(NewTally(start), es);
    hide CountAll;
    var s, h := t.history.world.sec, t.history;
    FailuresBounded(s.levels, NUM_LEVELS);
    LastTrip(h, start);
    hide Failures, Inv;
    if SomeFresh(s.levels) {
      var i :| 0 <= i < NUM_LEVELS && s.levels[i].attempts == 0;
    }
  }

  /** One 0x36 more than full 10 s windows means that the last one is less than 10 s old. */
  lemma LastTrip(h: History, start: nat)
    requires Inv(h, 0, start)
    ensures h.trips <= 1 + h.elapsed / 10000
    ensures h.trips > h.elapsed / 10000 ==> h.world.sec.timer.running && !Expired(h.world.sec.timer, h.world.now)
  {
  }

  // ---------------------------------------------------------------------------------------------
  // The bound is attained
  // ---------------------------------------------------------------------------------------------

  lemma {:induction false} CountConcat(t: Tally, a: seq<Event>, b: seq<Event>)
    ensures CountAll(t, a + b) == CountAll(CountAll(t, a), b)
    decreases |a|
  {
    hide Count;
    if a == [] {
      assert a + b == b;
    } else {
      assert (a + b)[1..] == a[1..] + b;
      CountConcat(Count(t, a[0]), a[1..], b);
    }
  }

  /** A seed and a wrong key for a level. */
  ghost function AttemptAt(level: nat): seq<Event>
    requires level < NUM_LEVELS
  {
    [AskSeed(2 * level + 1, 8), TryKey(2 * level + 2, [0], Refuse())]
  }

  /** Nothing is unlocked and no delay is in force. */
  predicate Idle(w: World) {
    !Delayed(w.sec, w.now) && forall i :: 0 <= i < NUM_LEVELS ==> !w.sec.levels[i].unlocked
  }

  /** t' is t after n more rejections and ms more time, nothing accepted, with these failures counted. */
  ghost predicate After(t: Tally, t': Tally, n: nat, ms: nat, failures: seq<nat>) {
    && Idle(t'.history.world) && t'.accepted == t.accepted && t'.rejected == t.rejected + n
    && t'.history.elapsed == t.history.elapsed + ms
    && Counters(t'.history.world) == failures
  }

  function Counters(w: World): (c: seq<nat>)
    ensures |c| == NUM_LEVELS && forall i :: 0 <= i < NUM_LEVELS ==> c[i] == w.sec.levels[i].attempts
  {
    seq(NUM_LEVELS, i requires 0 <= i < NUM_LEVELS => w.sec.levels[i].attempts)
  }

  lemma AttemptCounts(t: Tally, level: nat)
    requires level < NUM_LEVELS
    ensures CountAll(t, AttemptAt(level)) == Count(Count(t, AttemptAt(level)[0]), AttemptAt(level)[1])
  {
    hide Count;
    var es := AttemptAt(level);
    assert es[1..] == [es[1]] && es[1..][1..] == [];
    var t1 := Count(t, es[0]);
    assert CountAll(t1, [es[1]]) == CountAll(Count(t1, es[1]), []);
  }

  lemma SeedAt(w: World, level: nat)
    requires level < NUM_LEVELS && Idle(w)
    ensures var w' := Step(w, AskSeed(2 * level + 1, 8)).world;
            && Idle(w') && w'.sec.levels[level].seedSent && Counters(w') == Counters(w) && w'.now == w.now
    ensures Step(w, AskSeed(2 * level + 1, 8)).outcome.Issued?
  {
    hide SeedBytes;
    assert Index(2 * level + 1) == level;
    hide Index;
    var w' := Step(w, AskSeed(2 * level + 1, 8)).world;
    assert forall i :: 0 <= i < NUM_LEVELS ==> w'.sec.levels[i].attempts == w.sec.levels[i].attempts;
    assert Counters(w') == Counters(w);
  }

  lemma KeyAt(w: World, level: nat)
    requires level < NUM_LEVELS && Idle(w) && w.sec.levels[level].seedSent && w.sec.levels[level].attempts <= 5
    ensures var r, n := Step(w, TryKey(2 * level + 2, [0], Refuse())), w.sec.levels[level].attempts;
            && r.world.now == w.now
            && (n < 5 ==> r.outcome.Rejected? && Idle(r.world) && Counters(r.world) == Counters(w)[level := n + 1])
            && (n == 5 ==>
                  && r.outcome.Tripped? && Counters(r.world) == Counters(w)[level := 0]
                  && Idle(r.world.(now := r.world.now + 10000)))
  {
    assert Index(2 * level + 2) == level;
    hide Index;
    var r, n := Step(w, TryKey(2 * level + 2, [0], Refuse())), w.sec.levels[level].attempts;
    assert r.world.sec.levels[level].attempts == if n < 5 then n + 1 else 0;
    assert forall i :: 0 <= i < NUM_LEVELS && i != level ==> r.world.sec.levels[i] == w.sec.levels[i];
    assert Counters(r.world) == Counters(w)[level := if n < 5 then n + 1 else 0];
  }

  lemma OneFails(t: Tally, level: nat)
    requires level < NUM_LEVELS && Idle(t.history.world) && Counters(t.history.world)[level] < 5
    ensures var c := Counters(t.history.world);
            After(t, CountAll(t, AttemptAt(level)), 1, 0, c[level := c[level] + 1])
  {
    hide Step, Idle, CountAll, Count, Counters, Index;
    var es := AttemptAt(level);
    var t1 := Count(t, es[0]);
    AttemptCounts(t, level);
    CountFacts(t, es[0]);
    CountFacts(t1, es[1]);
    SeedAt(t.history.world, level);
    KeyAt(t1.history.world, level);
  }

  lemma CountFacts(t: Tally, e: Event)
    ensures var t', r := Count(t, e), Step(t.history.world, e);
            && t'.history.world == r.world
            && t'.history.elapsed == t.history.elapsed + (if e.Wait? then e.ms else 0)
            && t'.accepted == t.accepted + (if r.outcome.Unlocked? then 1 else 0)
            && t'.rejected == t.rejected + (if r.outcome.Rejected? then 1 else 0)
  {
    hide Step;
  }

  ghost function AttemptsAt(level: nat, n: nat): seq<Event>
    requires level < NUM_LEVELS
  {
    if n == 0 then [] else AttemptAt(level) + AttemptsAt(level, n - 1)
  }

  lemma {:induction false} SeveralFail(t: Tally, level: nat, n: nat)
    requires level < NUM_LEVELS && Idle(t.history.world) && Counters(t.history.world)[level] + n <= 5
    ensures var c := Counters(t.history.world);
            After(t, CountAll(t, AttemptsAt(level, n)), n, 0, c[level := c[level] + n])
    decreases n
  {
    hide Idle, Counters, AttemptAt, Count;
    if n > 0 {
      OneFails(t, level);
      CountConcat(t, AttemptAt(level), AttemptsAt(level, n - 1));
      SeveralFail(CountAll(t, AttemptAt(level)), level, n - 1);
    } else {
      assert Counters(t.history.world)[level := Counters(t.history.world)[level]] == Counters(t.history.world);
    }
  }

  /** Five wrong keys at each of the first n levels. */
  ghost function Sweep(n: nat): seq<Event>
    requires n <= NUM_LEVELS
  {
    if n == 0 then [] else Sweep(n - 1) + AttemptsAt(n - 1, 5)
  }

  function Swept(n: nat): (c: seq<nat>)
    requires n <= NUM_LEVELS
    ensures |c| == NUM_LEVELS && forall i :: 0 <= i < NUM_LEVELS ==> c[i] == if i < n then 5 else 0
  {
    seq(NUM_LEVELS, i => if i < n then 5 else 0)
  }

  lemma {:induction false} SweepFails(t: Tally, n: nat)
    requires n <= NUM_LEVELS && Idle(t.history.world) && Counters(t.history.world) == Swept(0)
    ensures After(t, CountAll(t, Sweep(n)), 5 * n, 0, Swept(n))
    decreases n
  {
    hide Idle, Counters, AttemptsAt, Count;
    if n > 0 {
      SweepFails(t, n - 1);
      CountConcat(t, Sweep(n - 1), AttemptsAt(n - 1, 5));
      SeveralFail(CountAll(t, Sweep(n - 1)), n - 1, 5);
      assert Swept(n - 1)[n - 1 := 5] == Swept(n);
    }
  }

  /** The refused sixth try at level 1, the delay waited out, and five more wrong keys. */
  ghost function Round(): seq<Event> {
    AttemptAt(0) + ([Wait(10000)] + AttemptsAt(0, 5))
  }

  lemma RoundFails(t: Tally)
    requires Idle(t.history.world) && Counters(t.history.world) == Swept(NUM_LEVELS)
    ensures After(t, CountAll(t, Round()), 5, 10000, Swept(NUM_LEVELS))
  {
    hide AttemptsAt, AttemptAt, Idle, Counters, Count;
    var rest := [Wait(10000)] + AttemptsAt(0, 5);
    TripAndWait(t);
    CountConcat(t, AttemptAt(0), rest);
    assert rest[0] == Wait(10000) && rest[1..] == AttemptsAt(0, 5);
    var t2 := Count(CountAll(t, AttemptAt(0)), Wait(10000));
    assert CountAll(CountAll(t, AttemptAt(0)), rest) == CountAll(t2, AttemptsAt(0, 5));
    hide CountAll;
    SeveralFail(t2, 0, 5);
    assert Swept(NUM_LEVELS)[0 := 0][0 := 5] == Swept(NUM_LEVELS);
  }

  lemma TripAndWait(t: Tally)
    requires Idle(t.history.world) && Counters(t.history.world) == Swept(NUM_LEVELS)
    ensures After(t, Count(CountAll(t, AttemptAt(0)), Wait(10000)), 0, 10000, Swept(NUM_LEVELS)[0 := 0])
  {
    hide Step, Idle, CountAll, Count, Counters;
    var es := AttemptAt(0);
    var t1 := Count(t, es[0]);
    var t2 := Count(t1, es[1]);
    AttemptCounts(t, 0);
    CountFacts(t, es[0]);
    CountFacts(t1, es[1]);
    CountFacts(t2, Wait(10000));
    SeedAt(t.history.world, 0);
    assert t1.history.world.sec.levels[0].attempts == Counters(t1.history.world)[0] == 5;
    KeyAt(t1.history.world, 0);
    WaitKeeps(t2.history.world);
  }

  lemma WaitKeeps(w: World)
    ensures var r := Step(w, Wait(10000));
            r.world == w.(now := w.now + 10000) && r.outcome == Quiet && Counters(r.world) == Counters(w)
  {
  }

  ghost function Rounds(k: nat): seq<Event> {
    if k == 0 then [] else Round() + Rounds(k - 1)
  }

  lemma {:induction false} RoundsFail(t: Tally, k: nat)
    requires Idle(t.history.world) && Counters(t.history.world) == Swept(NUM_LEVELS)
    ensures After(t, CountAll(t, Rounds(k)), 5 * k, 10000 * k, Swept(NUM_LEVELS))
    decreases k
  {
    hide Idle, Counters, Round, Count;
    if k > 0 {
      RoundFails(t);
      CountConcat(t, Round(), Rounds(k - 1));
      RoundsFail(CountAll(t, Round()), k - 1);
    }
  }

  lemma NewIdle(start: nat)
    ensures var t := NewTally(start);
            && Idle(t.history.world) && Counters(t.history.world) == Swept(0)
            && t.accepted == t.rejected == t.history.elapsed == 0
  {
    assert Counters(NewTally(start).history.world) == Swept(0);
  }

  /** AllFailedKeysBounded cannot be improved: for every k some run of exactly 10 k seconds without an accepted key has
      80 + 5 k rejections. */
  lemma AllBoundAttained(k: nat, start: nat)
    ensures var t := CountAll(NewTally(start), Sweep(NUM_LEVELS) + Rounds(k));
            && t.history.elapsed == 10000 * k && t.accepted == 0
            && t.rejected == 80 + 5 * (t.history.elapsed / 10000)
  {
    var t := NewTally(start);
    NewIdle(start);
    hide Sweep, Rounds, CountAll, Counters, Idle, NewTally;
    SweepFails(t, NUM_LEVELS);
    RoundsFail(CountAll(t, Sweep(NUM_LEVELS)), k);
    CountConcat(t, Sweep(NUM_LEVELS), Rounds(k));
  }
}
