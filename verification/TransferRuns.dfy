/** Transfers over unbounded runs: the machine with its clamped counters and 1 KiB buffer refines a
    ledger that simply remembers what was announced, received and fetched. */
module TransferRuns {
  import opened Bytes
  import opened Uds
  import opened Transfer

  datatype Event =
    | Announce(start: u32, end: u32)
    | Request(dir: Direction, session: u8, unlocked: bool, data: seq<u8>)
    | Block(bsc: u8, data: seq<u8>)
    | Exit(data: seq<u8>)
    | Supply(bytes: seq<u8>)

  function Step(s: State, e: Event): Reply {
    match e
    case Announce(start, end) => Reply(Register(s, start, end), Accepted)
    case Request(dir, session, unlocked, data) => RequestTransfer(s, dir, session, unlocked, data)
    case Block(bsc, data) => TransferData(s, bsc, data)
    case Exit(data) => TransferExit(s, data)
    case Supply(bytes) => Reply(Fill(s, bytes), Accepted)
  }

  /** A client asks for a download or an upload. */
  predicate Proper(e: Event) {
    e.Request? ==> e.dir != Idle
  }

  // ---------------------------------------------------------------------------------------------
  // The ledger
  // ---------------------------------------------------------------------------------------------

  /** size: bytes announced; matched: calls with the right counter; data: for a download everything the
      accepted blocks carried, for an upload what the application supplied last; taken: bytes fetched of
      that supply; moved: bytes fetched in all. */
  datatype Ledger = Ledger(regions: seq<Region>, capacity: nat, dir: Direction, size: nat, matched: nat,
                           data: seq<u8>, taken: nat, moved: nat)

  function NewLedger(capacity: nat): Ledger {
    Ledger([], capacity, Idle, 0, 0, [], 0, 0)
  }

  /** What the next upload block would hold. */
  function Offer(l: Ledger): nat {
    if l.taken <= |l.data| && l.moved <= l.size then Min(MAX_BLOCK, Min(l.size - l.moved, |l.data| - l.taken)) else 0
  }

  function Expected(l: Ledger, e: Event): Answer {
    match e
    case Announce(start, end) => Accepted
    case Request(dir, session, unlocked, data) =>
      if session !in {PROGRAMMING_SESSION, EXTENDED_SESSION} then Refused(NRC_CONDITIONS_NOT_CORRECT)
      else if !unlocked then Refused(NRC_SECURITY_ACCESS_DENIED)
      else if |data| < 8 then Refused(NRC_INCORRECT_LENGTH)
      else if Announced(data) > BUFFER_SIZE then Refused(NRC_UPLOAD_DOWNLOAD_NOT_ACCEPTED)
      else if !WithinRegion(l.regions, Word(data[0..4]), Announced(data)) then Refused(NRC_REQUEST_OUT_OF_RANGE)
      else if l.dir != Idle then Refused(NRC_UPLOAD_DOWNLOAD_NOT_ACCEPTED)
      else Accepted
    case Block(bsc, data) =>
      if l.dir == Idle then Refused(NRC_CONDITIONS_NOT_CORRECT)
      else if bsc != (l.matched + 1) % 256 then Refused(NRC_WRONG_BLOCK_SEQUENCE_COUNTER)
      else if l.dir == Download && data == [] then Refused(NRC_INCORRECT_LENGTH)
      else if l.dir == Upload && Offer(l) == 0 then Refused(NRC_REQUEST_OUT_OF_RANGE)
      else Accepted
    case Exit(data) =>
      if l.dir == Idle then Refused(NRC_CONDITIONS_NOT_CORRECT)
      else if data != [] then Refused(NRC_INCORRECT_LENGTH)
      else Accepted
    case Supply(bytes) => Accepted
  }

  /** Bytes handed to the response by this event. */
  function HandedBy(s: State, e: Event): seq<u8> {
    if e.Block? then Payload(s, e.bsc, e.data) else []
  }

  /** What they should be: the next Offer(l) bytes of the supply. */
  function Due(l: Ledger, e: Event): seq<u8> {
    if e.Block? && l.dir == Upload && Expected(l, e) == Accepted && l.taken + Offer(l) <= |l.data|
    then l.data[l.taken..l.taken + Offer(l)] else []
  }

  function Announced(data: seq<u8>): u32
    requires |data| >= 8
  {
    Word(data[4..8])
  }

  function Record(l: Ledger, e: Event): Ledger {
    match e
    case Announce(start, end) =>
      if |l.regions| < l.capacity && start <= end then l.(regions := l.regions + [Region(start, end)]) else l
    case Request(dir, _, _, data) =>
      if Expected(l, e) == Accepted then Ledger(l.regions, l.capacity, dir, Announced(data), 0, [], 0, 0) else l
    case Block(bsc, data) =>
      if Expected(l, e) in {Refused(NRC_CONDITIONS_NOT_CORRECT), Refused(NRC_WRONG_BLOCK_SEQUENCE_COUNTER)} then l
      else if l.dir == Download then l.(matched := l.matched + 1, data := l.data + data)
      else l.(matched := l.matched + 1, taken := l.taken + Offer(l), moved := l.moved + Offer(l))
    case Exit(_) =>
      if Expected(l, e) == Accepted then NewLedger(l.capacity).(regions := l.regions) else l
    case Supply(bytes) =>
      if l.dir == Upload && |bytes| <= BUFFER_SIZE then l.(data := bytes, taken := 0) else l
  }

  // ---------------------------------------------------------------------------------------------
  // Refinement
  // ---------------------------------------------------------------------------------------------

  /** Conservation, both ways: a download buffer holds the first min(size, total) bytes received and the
      rest is still expected; an upload buffer holds the supply minus what was fetched. */
  predicate Refines(t: Xfer, l: Ledger) {
    && t.active == (l.dir != Idle)
    && t.dir == l.dir
    && (l.dir != Idle ==> 1 <= l.size <= BUFFER_SIZE && t.maxBlock == MAX_BLOCK && t.counter == l.matched % 256)
    && (l.dir == Download ==>
          && t.buf == l.data[..Min(l.size, |l.data|)]
          && |t.buf| + t.remaining == l.size)
    && (l.dir == Upload ==>
          && l.taken <= |l.data| <= BUFFER_SIZE && l.moved <= l.size
          && t.buf == l.data[l.taken..]
          && l.moved + t.remaining == l.size)
  }

  predicate Rel(s: State, l: Ledger) {
    Refines(s.xfer, l) && s.regions == l.regions && s.capacity == l.capacity
  }

  lemma CounterSucc(a: nat)
    ensures (a % 256 + 1) % 256 == (a + 1) % 256
  {
  }

  lemma RequestRefines(s: State, l: Ledger, e: Event)
    requires Rel(s, l) && Proper(e) && e.Request?
    ensures Step(s, e).answer == Expected(l, e) && Rel(Step(s, e).state, Record(l, e))
  {
    if |e.data| >= 8 {
      RangeCheckExact(s.regions, Word(e.data[0..4]), Announced(e.data));
    }
  }

  lemma DownloadRefines(s: State, l: Ledger, e: Event)
    requires Rel(s, l) && e.Block? && l.dir == Download
    ensures Step(s, e).answer == Expected(l, e) && Rel(Step(s, e).state, Record(l, e))
  {
    CounterSucc(l.matched);
    var n := Min(|e.data|, s.xfer.remaining);
    var all := l.data + e.data;
    if |l.data| >= l.size {
      assert n == 0 && all[..l.size] == l.data[..l.size];
      assert s.xfer.buf + e.data[..0] == s.xfer.buf;
    } else {
      assert l.data[..|l.data|] == l.data;
      assert all[..Min(l.size, |all|)] == l.data + e.data[..n];
    }
  }

  /** How the machine and the ledger see an upload block, in plain numbers. */
  lemma UploadOffer(t: Xfer, l: Ledger)
    requires Refines(t, l) && l.dir == Upload
    ensures BlockLength(t) == Offer(l) <= |t.buf| && Offer(l) <= t.remaining
    ensures Offer(l) == 0 <==> Min(Min(t.maxBlock, t.remaining), BUFFER_SIZE) == 0 || |t.buf| == 0
    ensures l.taken + Offer(l) <= |l.data| && t.buf[..Offer(l)] == l.data[l.taken..l.taken + Offer(l)]
    ensures t.buf[Offer(l)..] == l.data[l.taken + Offer(l)..]
  {
  }

  /** An accepted upload block. */
  lemma FetchRefines(t: Xfer, l: Ledger, bsc: u8)
    requires Refines(t, l) && l.dir == Upload && bsc == (l.matched + 1) % 256
    ensures var n := Offer(l);
            n <= |t.buf| && n <= t.remaining &&
            Refines(t.(counter := bsc, buf := t.buf[n..], remaining := t.remaining - n),
                    l.(matched := l.matched + 1, taken := l.taken + n, moved := l.moved + n))
  {
    UploadOffer(t, l);
    hide Offer, BlockLength, Min;
  }

  lemma UploadRefines(s: State, l: Ledger, e: Event)
    requires Rel(s, l) && e.Block? && l.dir == Upload
    ensures Step(s, e).answer == Expected(l, e) && Rel(Step(s, e).state, Record(l, e))
    ensures HandedBy(s, e) == Due(l, e)
  {
    CounterSucc(l.matched);
    UploadOffer(s.xfer, l);
    if e.bsc == (l.matched + 1) % 256 {
      FetchRefines(s.xfer, l, e.bsc);
    }
    hide RequestTransfer, TransferExit, Register, Fill, WithinRegion, Announced, Offer, BlockLength;
  }

  lemma StepRefines(s: State, l: Ledger, e: Event)
    requires Rel(s, l) && Proper(e)
    ensures Step(s, e).answer == Expected(l, e) && Rel(Step(s, e).state, Record(l, e))
    ensures HandedBy(s, e) == Due(l, e)
  {
    match e
    case Request(_, _, _, _) => RequestRefines(s, l, e);
    case Block(_, _) =>
      if l.dir == Download {
        DownloadRefines(s, l, e);
      } else if l.dir == Upload {
        UploadRefines(s, l, e);
      }
    case _ =>
  }

  /** Final state, all answers, and all data bytes handed to responses. */
  datatype Trace<S> = Trace(end: S, answers: seq<Answer>, handed: seq<u8>)

  function RunMachine(s: State, es: seq<Event>): Trace<State>
    decreases |es|
  {
    if es == [] then Trace(s, [], [])
    else
      var r := Step(s, es[0]);
      var rest := RunMachine(r.state, es[1..]);
      Trace(rest.end, [r.answer] + rest.answers, HandedBy(s, es[0]) + rest.handed)
  }

  function RunLedger(l: Ledger, es: seq<Event>): Trace<Ledger>
    decreases |es|
  {
    if es == [] then Trace(l, [], [])
    else
      var rest := RunLedger(Record(l, es[0]), es[1..]);
      Trace(rest.end, [Expected(l, es[0])] + rest.answers, Due(l, es[0]) + rest.handed)
  }

  /** Over every run the machine gives exactly the ledger's answers and keeps exactly its bytes; in
      particular 0x71 is never answered. */
  lemma {:induction false} MachineRefinesLedger(s: State, l: Ledger, es: seq<Event>)
    requires Rel(s, l) && forall i :: 0 <= i < |es| ==> Proper(es[i])
    ensures RunMachine(s, es).answers == RunLedger(l, es).answers && RunMachine(s, es).handed == RunLedger(l, es).handed
    ensures Rel(RunMachine(s, es).end, RunLedger(l, es).end)
    ensures Refused(NRC_TRANSFER_DATA_SUSPENDED) !in RunMachine(s, es).answers
    decreases |es|
  {
    hide Rel, Step, Record, Expected, Due, HandedBy;
    if es != [] {
      StepRefines(s, l, es[0]);
      NeverSuspended(l, es[0]);
      MachineRefinesLedger(Step(s, es[0]).state, Record(l, es[0]), es[1..]);
    }
  }

  lemma NeverSuspended(l: Ledger, e: Event)
    ensures Expected(l, e) != Refused(NRC_TRANSFER_DATA_SUSPENDED)
  {
  }

  function Fresh(capacity: nat): State {
    State(NO_TRANSFER, [], capacity)
  }

  /** What that means from initialisation on, for the bytes in the buffer. */
  lemma TransferConservation(capacity: nat, es: seq<Event>)
    requires forall i :: 0 <= i < |es| ==> Proper(es[i])
    ensures var t, l := RunMachine(Fresh(capacity), es).end.xfer, RunLedger(NewLedger(capacity), es).end;
            && (t.active && t.dir == Download ==>
                  && |t.buf| + t.remaining == l.size <= 1024
                  && t.buf == l.data[..Min(l.size, |l.data|)]
                  && t.counter == l.matched % 256)
            && (t.active && t.dir == Upload ==>
                  && l.taken <= |l.data| && t.buf == l.data[l.taken..]
                  && l.moved + t.remaining == l.size <= 1024
                  && t.counter == l.matched % 256)
  {
    MachineRefinesLedger(Fresh(capacity), NewLedger(capacity), es);
  }

  // ---------------------------------------------------------------------------------------------
  // Draining an upload
  // ---------------------------------------------------------------------------------------------

  /** count correctly numbered upload polls, after matched earlier ones. */
  function FetchCalls(matched: nat, count: nat): (es: seq<Event>)
    ensures |es| == count
    decreases count
  {
    if count == 0 then [] else [Block((matched + 1) % 256, [])] + FetchCalls(matched + 1, count - 1)
  }

  function BlocksFor(n: nat): nat {
    (n + MAX_BLOCK - 1) / MAX_BLOCK
  }

  /** Bytes still to be fetched. */
  function ToFetch(l: Ledger): nat
    requires l.taken <= |l.data| && l.moved <= l.size
  {
    Min(l.size - l.moved, |l.data| - l.taken)
  }

  lemma FetchOne(l: Ledger)
    requires l.dir == Upload && l.taken <= |l.data| && l.moved <= l.size
    ensures var e, n := Block((l.matched + 1) % 256, []), Min(MAX_BLOCK, ToFetch(l));
            && Expected(l, e) == (if ToFetch(l) > 0 then Accepted else Refused(NRC_REQUEST_OUT_OF_RANGE))
            && Record(l, e) == l.(matched := l.matched + 1, taken := l.taken + n, moved := l.moved + n)
            && ToFetch(Record(l, e)) == ToFetch(l) - n
            && Due(l, e) == l.data[l.taken..l.taken + n]
  {
  }

  lemma SlicesJoin(d: seq<u8>, a: nat, b: nat, c: nat)
    requires a <= b <= c <= |d|
    ensures d[a..b] + d[b..c] == d[a..c]
  {
  }

  lemma {:induction false} FetchAnswers(l: Ledger, count: nat)
    requires l.dir == Upload && l.taken <= |l.data| && l.moved <= l.size
    ensures var answers := RunLedger(l, FetchCalls(l.matched, count)).answers;
            && |answers| == count
            && forall i :: 0 <= i < count ==>
                 answers[i] == if i < BlocksFor(ToFetch(l)) then Accepted else Refused(NRC_REQUEST_OUT_OF_RANGE)
    decreases count
  {
    hide Expected, Record, BlocksFor, Due, ToFetch, Min;
    BlockByBlock(ToFetch(l));
    FetchBounds(l);
    if count > 0 {
      var es := FetchCalls(l.matched, count);
      FetchOne(l);
      assert es[1..] == FetchCalls(l.matched + 1, count - 1);
      hide FetchCalls;
      FetchAnswers(Record(l, es[0]), count - 1);
    }
  }

  lemma {:induction false} FetchEnd(l: Ledger, count: nat)
    requires l.dir == Upload && l.taken <= |l.data| && l.moved <= l.size && count >= BlocksFor(ToFetch(l))
    ensures var r, t := RunLedger(l, FetchCalls(l.matched, count)), ToFetch(l);
            && r.end == l.(matched := l.matched + count, taken := l.taken + t, moved := l.moved + t)
            && l.taken + t <= |l.data| && r.handed == l.data[l.taken..l.taken + t]
    decreases count
  {
    hide Expected, Record, BlocksFor, Due, ToFetch, Min;
    var t, n := ToFetch(l), Min(MAX_BLOCK, ToFetch(l));
    BlockByBlock(t);
    FetchBounds(l);
    if count > 0 {
      var es := FetchCalls(l.matched, count);
      FetchOne(l);
      assert es[1..] == FetchCalls(l.matched + 1, count - 1);
      var l', rest := Record(l, es[0]), RunLedger(Record(l, es[0]), es[1..]);
      assert RunLedger(l, es).end == rest.end && RunLedger(l, es).handed == Due(l, es[0]) + rest.handed;
      hide FetchCalls, RunLedger;
      FetchEnd(l', count - 1);
      SlicesJoin(l.data, l.taken, l.taken + n, l.taken + t);
    }
  }

  /** With t bytes still to fetch, exactly the first ceil(t / 256) polls are answered with data, every
      later one with 0x31, and the blocks together are exactly the next t bytes of the supply. */
  lemma FetchesDrain(l: Ledger, count: nat)
    requires l.dir == Upload && l.taken <= |l.data| && l.moved <= l.size
    ensures var r := RunLedger(l, FetchCalls(l.matched, count));
            && |r.answers| == count
            && (forall i :: 0 <= i < count ==>
                  r.answers[i] == if i < BlocksFor(ToFetch(l)) then Accepted else Refused(NRC_REQUEST_OUT_OF_RANGE))
            && (count >= BlocksFor(ToFetch(l)) ==>
                  && r.end == l.(matched := l.matched + count, taken := l.taken + ToFetch(l),
                                 moved := l.moved + ToFetch(l))
                  && r.handed == l.data[l.taken..l.taken + ToFetch(l)])
  {
    FetchAnswers(l, count);
    if count >= BlocksFor(ToFetch(l)) {
      FetchEnd(l, count);
    }
  }

  lemma FetchBounds(l: Ledger)
    requires l.taken <= |l.data| && l.moved <= l.size
    ensures l.taken + ToFetch(l) <= |l.data| && l.moved + ToFetch(l) <= l.size
    ensures Min(MAX_BLOCK, ToFetch(l)) <= ToFetch(l) && (ToFetch(l) > 0 ==> Min(MAX_BLOCK, ToFetch(l)) > 0)
  {
  }

  lemma BlockByBlock(t: nat)
    ensures t > 0 ==> BlocksFor(t) == 1 + BlocksFor(t - Min(MAX_BLOCK, t))
    ensures t == 0 ==> BlocksFor(t) == 0
  {
  }

  /** The same for the machine: an upload of M bytes freshly supplied with L yields exactly
      ceil(min(L, M) / 256) blocks, and then 0x31; the blocks together are the first min(L, M) bytes supplied. */
  lemma UploadDrains(s: State, l: Ledger, count: nat)
    requires Rel(s, l) && l.dir == Upload && l.taken == 0 && l.moved == 0
    requires count >= BlocksFor(Min(l.size, |l.data|))
    ensures var r := RunMachine(s, FetchCalls(l.matched, count));
            && |r.answers| == count
            && (forall i :: 0 <= i < count ==>
                  (r.answers[i] == Accepted <==> i < (Min(l.size, |s.xfer.buf|) + 255) / 256))
            && r.end.xfer.buf == s.xfer.buf[Min(l.size, |s.xfer.buf|)..]
            && r.end.xfer.remaining == l.size - Min(l.size, |s.xfer.buf|)
            && r.handed == s.xfer.buf[..Min(l.size, |s.xfer.buf|)]
  {
    var es := FetchCalls(l.matched, count);
    FetchCallsProper(l.matched, count);
    MachineRefinesLedger(s, l, es);
    FetchesDrain(l, count);
  }

  lemma {:induction false} FetchCallsProper(matched: nat, count: nat)
    ensures forall i :: 0 <= i < count ==> Proper(FetchCalls(matched, count)[i])
    decreases count
  {
    if count > 0 {
      FetchCallsProper(matched + 1, count - 1);
    }
  }
}
