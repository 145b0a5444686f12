/** RoutineControl and the sessions a routine is registered for: the handler stores the session mask and never reads it.
    Exactly when the answers are nevertheless the documented ones, for one request, for runs, and in the whole ECU. */
module RoutineSessions {
  import opened Bytes
  import opened Uds
  import opened Routine
  import Services
  import Ecu
  import EcuRuns
  import EcuWitnesses

  // ---------------------------------------------------------------------------------------------
  // One request
  // ---------------------------------------------------------------------------------------------

  /** 0x31 as documented: a routine is refused, with some code nrc, outside the sessions of its mask. */
  function Documented(b: Board, session: u8, unlocked: bool, subfn: u8, data: seq<u8>,
                      outcome: Option<seq<u8>>, nrc: u8): Reply<Board>
  {
    if !(START <= subfn <= RESULTS) then Routine.Refuse(b, NRC_SUB_FUNCTION_NOT_SUPPORTED)
    else if |data| < 2 then Routine.Refuse(b, NRC_INCORRECT_LENGTH)
    else if RoutineId(data) !in b.routines then Routine.Refuse(b, NRC_REQUEST_OUT_OF_RANGE)
    else if !Services.Allows(b.routines[RoutineId(data)].sessionMask, session) then Routine.Refuse(b, nrc)
    else if b.routines[RoutineId(data)].secured && !unlocked then Routine.Refuse(b, NRC_SECURITY_ACCESS_DENIED)
    else BoardInvoke(b, RoutineId(data), subfn, outcome)
  }

  /** Accepted by the handler, in a session of the routine's mask. */
  predicate InSession(b: Board, session: u8, unlocked: bool, subfn: u8, data: seq<u8>, outcome: Option<seq<u8>>) {
    BoardControl(b, unlocked, subfn, data, outcome).nrc == NRC_POSITIVE ==>
      && |data| >= 2 && RoutineId(data) in b.routines
      && Services.Allows(b.routines[RoutineId(data)].sessionMask, session)
  }

  /** For every state, session and request: an accepted request is answered as documented if and only if its session is
      one of the routine's; a refused one is refused either way, and changes nothing. */
  lemma DocumentedIff(b: Board, session: u8, unlocked: bool, subfn: u8, data: seq<u8>,
                      outcome: Option<seq<u8>>, nrc: u8)
    requires nrc != NRC_POSITIVE
    ensures var r := BoardControl(b, unlocked, subfn, data, outcome);
            var q := Documented(b, session, unlocked, subfn, data, outcome, nrc);
            && (r.nrc == NRC_POSITIVE ==> (q == r <==> InSession(b, session, unlocked, subfn, data, outcome)))
            && (r.nrc == NRC_POSITIVE && !InSession(b, session, unlocked, subfn, data, outcome) ==>
                  q == Routine.Refuse(b, nrc))
            && (r.nrc != NRC_POSITIVE ==>
                  q.nrc != NRC_POSITIVE && q.state == r.state == b && q.record == r.record == [])
  {
    hide RoutineId, Services.Allows;
  }

  /** For example eraseMemory, registered for the programming session only, starts in the default session. */
  lemma EraseStartsInDefaultSession()
    ensures var r := Control(InitSlots(), true, START, [0xFF, 0x00], Some([0]));
            && r.nrc == NRC_POSITIVE && r.record == [0]
            && Represents(r.state, InitBoard().(running := Some(0xFF00)))
            && !Services.Allows(ERASE_MEMORY.sessionMask, DEFAULT_SESSION)
  {
    hide Represents, Control, InitSlots;
    InitRepresents();
    ControlRefines(InitSlots(), InitBoard(), true, START, [0xFF, 0x00], Some([0]));
    assert RoutineId([0xFF, 0x00]) == 0xFF00;
    assert BoardControl(InitBoard(), true, START, [0xFF, 0x00], Some([0])).state
        == InitBoard().(running := Some(0xFF00));
  }

  // ---------------------------------------------------------------------------------------------
  // Runs
  // ---------------------------------------------------------------------------------------------

  /** What is visible of an answer beside the refusal code: accepted or not, and the record. */
  datatype Verdict = Verdict(accepted: bool, record: seq<u8>)

  function Verdicts(answers: seq<(u8, seq<u8>)>): (vs: seq<Verdict>)
    ensures |vs| == |answers|
  {
    seq(|answers|, i requires 0 <= i < |answers| => Verdict(answers[i].0 == NRC_POSITIVE, answers[i].1))
  }

  function DocumentedStep(b: Board, e: Event, session: u8, nrc: u8): Reply<Board> {
    match e
    case Add(entry) => Reply(BoardRegister(b, entry), NRC_POSITIVE, [])
    case Ask(unlocked, subfn, data, outcome) => Documented(b, session, unlocked, subfn, data, outcome, nrc)
  }

  /** The answers of the documented handler; event k happens in session ss[k]. */
  function DocumentedRun(b: Board, es: seq<Event>, ss: seq<u8>, nrc: u8): seq<(u8, seq<u8>)>
    requires |ss| == |es|
    decreases |es|
  {
    if es == [] then []
    else
      var r := DocumentedStep(b, es[0], ss[0], nrc);
      [(r.nrc, r.record)] + DocumentedRun(r.state, es[1..], ss[1..], nrc)
  }

  predicate EventInSession(b: Board, e: Event, session: u8) {
    match e
    case Add(_) => true
    case Ask(unlocked, subfn, data, outcome) => InSession(b, session, unlocked, subfn, data, outcome)
  }

  /** Every accepted request of the run comes in a session of its routine. */
  predicate AllInSession(b: Board, es: seq<Event>, ss: seq<u8>)
    requires |ss| == |es|
    decreases |es|
  {
    es == [] || (EventInSession(b, es[0], ss[0]) && AllInSession(BoardStep(b, es[0]).state, es[1..], ss[1..]))
  }

  lemma StepDocumentedIff(b: Board, e: Event, session: u8, nrc: u8)
    requires nrc != NRC_POSITIVE
    ensures var r, q := BoardStep(b, e), DocumentedStep(b, e, session, nrc);
            if EventInSession(b, e, session)
            then q.state == r.state && q.record == r.record && (q.nrc == NRC_POSITIVE <==> r.nrc == NRC_POSITIVE)
            else r.nrc == NRC_POSITIVE && q.nrc != NRC_POSITIVE
  {
    match e
    case Add(_) =>
    case Ask(unlocked, subfn, data, outcome) =>
      DocumentedIff(b, session, unlocked, subfn, data, outcome, nrc);
      hide Documented, BoardControl;
  }

  lemma VerdictsCons(a: (u8, seq<u8>), rest: seq<(u8, seq<u8>)>)
    ensures Verdicts([a] + rest) == [Verdict(a.0 == NRC_POSITIVE, a.1)] + Verdicts(rest)
  {
  }

  lemma {:induction false} BoardRunDocumentedIff(b: Board, es: seq<Event>, ss: seq<u8>, nrc: u8)
    requires |ss| == |es| && nrc != NRC_POSITIVE
    ensures Verdicts(BoardRun(b, es).answers) == Verdicts(DocumentedRun(b, es, ss, nrc)) <==> AllInSession(b, es, ss)
    decreases |es|
  {
    hide BoardStep, DocumentedStep, EventInSession, Verdicts;
    if es != [] {
      var r, q := BoardStep(b, es[0]), DocumentedStep(b, es[0], ss[0], nrc);
      StepDocumentedIff(b, es[0], ss[0], nrc);
      var mine, theirs := BoardRun(r.state, es[1..]).answers, DocumentedRun(q.state, es[1..], ss[1..], nrc);
      VerdictsCons((r.nrc, r.record), mine);
      VerdictsCons((q.nrc, q.record), theirs);
      var vs := [Verdict(r.nrc == NRC_POSITIVE, r.record)] + Verdicts(mine);
      var ws := [Verdict(q.nrc == NRC_POSITIVE, q.record)] + Verdicts(theirs);
      assert vs[0] == Verdict(r.nrc == NRC_POSITIVE, r.record) && ws[0] == Verdict(q.nrc == NRC_POSITIVE, q.record);
      assert vs[1..] == Verdicts(mine) && ws[1..] == Verdicts(theirs);
      if EventInSession(b, es[0], ss[0]) {
        BoardRunDocumentedIff(r.state, es[1..], ss[1..], nrc);
      }
    }
  }

  /** Over every run the registry accepts the same requests with the same records as the documented handler if and only
      if every request it accepted came in a session of its routine's mask. */
  lemma RunDocumentedIff(s: Slots, b: Board, es: seq<Event>, ss: seq<u8>, nrc: u8)
    requires Represents(s, b) && |ss| == |es| && nrc != NRC_POSITIVE
    ensures Verdicts(Routine.Run(s, es).answers) == Verdicts(DocumentedRun(b, es, ss, nrc)) <==> AllInSession(b, es, ss)
  {
    hide Represents, Routine.Run, BoardRun, DocumentedRun, AllInSession, Verdicts;
    RegistryIsOneLock(s, b, es);
    BoardRunDocumentedIff(b, es, ss, nrc);
  }

  // ---------------------------------------------------------------------------------------------
  // The whole ECU
  // ---------------------------------------------------------------------------------------------

  /** The dispatcher does not make up for it: 0x31 is registered for all sessions and reaches its handler in every
      reachable state. */
  lemma RoutineControlAlwaysReached(e: Ecu.EcuState)
    requires EcuRuns.Inv(e)
    ensures EcuRuns.Route(e, ROUTINE_CONTROL) == Some(Services.Other(ROUTINE_CONTROL))
  {
    Services.LookupBuiltIn(ROUTINE_CONTROL);
    hide Services.BuiltIn, Services.Lookup;
  }

  /** The ECU with its routine registry.  An input comes with what the routine's callback would answer to it; the
      application may register further routines at any time. */
  datatype Whole = Whole(ecu: Ecu.EcuState, routines: Slots)

  datatype Stimulus = Meets(input: EcuRuns.Input, outcome: Option<seq<u8>>) | Registers(entry: Entry)

  /** The registry event of a stimulus: a registration, or a request 0x31 that the dispatcher lets through to its
      handler. */
  function EventOf(e: Ecu.EcuState, st: Stimulus): Option<Event> {
    match st
    case Registers(entry) => Some(Add(entry))
    case Meets(Serve(r, _, _, _), outcome) =>
      if EcuRuns.Route(e, r.sid) == Some(Services.Other(ROUTINE_CONTROL))
      then Some(Ask(e.unlocked, r.subfunction, r.data, outcome)) else None
    case Meets(_, _) => None
  }

  /** The handler's answer, as the dispatcher passes it on. */
  function Answer(r: Request, reply: Reply<Slots>): Ecu.Foreign {
    if reply.nrc != NRC_POSITIVE then Ecu.Foreign(Negative(r.sid, reply.nrc), true)
    else if r.suppress then Ecu.Foreign(NO_RESPONSE, false)
    else Ecu.Foreign(Positive(r.sid, r.subfunction, reply.record), true)
  }

  function Next(w: Whole, st: Stimulus): Whole {
    match EventOf(w.ecu, st)
    case None => Whole(EcuRuns.Advance(w.ecu, st.input).ecu, w.routines)
    case Some(Add(entry)) => Whole(w.ecu, Register(w.routines, entry).slots)
    case Some(Ask(_, _, _, _)) =>
      var reply := Routine.Step(w.routines, EventOf(w.ecu, st).value);
      Whole(EcuRuns.Advance(w.ecu, st.input.(foreign := Answer(st.input.r, reply))).ecu, reply.state)
  }

  /** The registry events of a run of the ECU, and the sessions in force at each. */
  ghost function Events(w: Whole, sts: seq<Stimulus>): seq<Event>
    decreases |sts|
  {
    if sts == [] then [] else ToSeq(EventOf(w.ecu, sts[0])) + Events(Next(w, sts[0]), sts[1..])
  }

  ghost function Sessions(w: Whole, sts: seq<Stimulus>): (ss: seq<u8>)
    ensures |ss| == |Events(w, sts)|
    decreases |sts|
  {
    if sts == [] then []
    else (if EventOf(w.ecu, sts[0]).Some? then [w.ecu.session.current] else []) + Sessions(Next(w, sts[0]), sts[1..])
  }

  ghost function RunAll(w: Whole, sts: seq<Stimulus>): Whole
    decreases |sts|
  {
    if sts == [] then w else RunAll(Next(w, sts[0]), sts[1..])
  }

  /** The registry inside the ECU is a run of the registry alone. */
  lemma {:induction false} EcuRunsRegistry(w: Whole, sts: seq<Stimulus>)
    ensures RunAll(w, sts).routines == Routine.Run(w.routines, Events(w, sts)).end
    decreases |sts|
  {
    hide Register, Control, EcuRuns.Advance, EventOf;
    if sts != [] {
      var rest := Events(Next(w, sts[0]), sts[1..]);
      EcuRunsRegistry(Next(w, sts[0]), sts[1..]);
      match EventOf(w.ecu, sts[0]) {
        case None => assert [] + rest == rest;
        case Some(e) => assert ([e] + rest)[0] == e && ([e] + rest)[1..] == rest;
      }
    }
  }

  function BootWhole(regionCapacity: nat): Whole {
    Whole(Ecu.Boot(regionCapacity), InitSlots())
  }

  /** From boot, over every run of the whole ECU: the routines are served as documented if and only if every accepted
      routine request came in a session of its routine's mask. */
  lemma EcuRoutinesDocumentedIff(regionCapacity: nat, sts: seq<Stimulus>, nrc: u8)
    requires nrc != NRC_POSITIVE
    ensures var w := BootWhole(regionCapacity);
            var es, ss := Events(w, sts), Sessions(w, sts);
            && RunAll(w, sts).routines == Routine.Run(InitSlots(), es).end
            && (Verdicts(Routine.Run(InitSlots(), es).answers) == Verdicts(DocumentedRun(InitBoard(), es, ss, nrc)) <==>
                  AllInSession(InitBoard(), es, ss))
  {
    hide Represents, Routine.Run, DocumentedRun, AllInSession, Verdicts, Events, Sessions, InitSlots, InitBoard;
    var w := BootWhole(regionCapacity);
    InitRepresents();
    EcuRunsRegistry(w, sts);
    RunDocumentedIff(InitSlots(), InitBoard(), Events(w, sts), Sessions(w, sts), nrc);
  }

  lemma {:induction false} RunAllKeepsInv(w: Whole, sts: seq<Stimulus>)
    requires EcuRuns.Inv(w.ecu)
    ensures EcuRuns.Inv(RunAll(w, sts).ecu)
    decreases |sts|
  {
    hide EcuRuns.Inv, EcuRuns.Advance, Routine.Step, Register, EcuRuns.Route;
    if sts != [] {
      if sts[0].Meets? {
        var r := Next(w, sts[0]);
        EcuRuns.AdvanceKeepsInv(w.ecu, sts[0].input);
        if EventOf(w.ecu, sts[0]).Some? {
          var reply := Routine.Step(w.routines, EventOf(w.ecu, sts[0]).value);
          EcuRuns.AdvanceKeepsInv(w.ecu, sts[0].input.(foreign := Answer(sts[0].input.r, reply)));
        }
      }
      RunAllKeepsInv(Next(w, sts[0]), sts[1..]);
    }
  }

  /** What the tester reads in answer to a routine request. */
  ghost function Heard(w: Whole, st: Stimulus): Response
    requires EventOf(w.ecu, st).Some? && st.Meets?
  {
    var reply := Routine.Step(w.routines, EventOf(w.ecu, st).value);
    EcuRuns.Advance(w.ecu, st.input.(foreign := Answer(st.input.r, reply))).rsp
  }

  lemma HeardIsAnswer(w: Whole, st: Stimulus)
    requires EcuRuns.Inv(w.ecu) && st.Meets? && st.input.Serve? && st.input.r.sid == 0x31
    ensures EventOf(w.ecu, st) == Some(Ask(w.ecu.unlocked, st.input.r.subfunction, st.input.r.data, st.outcome))
    ensures var r := st.input.r;
            Heard(w, st) ==
              Answer(r, Control(w.routines, w.ecu.unlocked, r.subfunction, r.data, st.outcome)).rsp
  {
    RoutineControlAlwaysReached(w.ecu);
    var r := st.input.r;
    var foreign := Answer(r, Control(w.routines, w.ecu.unlocked, r.subfunction, r.data, st.outcome));
    EcuRuns.StepByRoute(w.ecu, r, st.input.functional, st.input.verdict, foreign);
    hide EcuRuns.Inv, EcuRuns.Route, Ecu.Step, Control, Ecu.Sync, Ecu.Dispatch;
  }

  /** From boot, over every run of the whole ECU: as long as it is locked, eraseMemory is answered 7F 31 33. */
  lemma EraseNeedsUnlocking(regionCapacity: nat, sts: seq<Stimulus>, st: Stimulus, rest: seq<u8>)
    requires st.Meets? && st.input.Serve? && st.input.r.sid == 0x31 && st.input.r.subfunction in {1, 2, 3}
    requires st.input.r.data == [0xFF, 0x00] + rest
    requires !RunAll(BootWhole(regionCapacity), sts).ecu.unlocked
    ensures var w := RunAll(BootWhole(regionCapacity), sts);
            EventOf(w.ecu, st).Some? && Heard(w, st) == Response(0x7F, 0x31, [0x33])
  {
    hide Represents, Routine.Run, Events, EcuRuns.Inv, RunAll, Control, InitSlots, InitBoard, BoardRun, Heard, EventOf;
    var w0 := BootWhole(regionCapacity);
    var w := RunAll(w0, sts);
    EcuRuns.BootInv(regionCapacity);
    RunAllKeepsInv(w0, sts);
    EcuRunsRegistry(w0, sts);
    OnlyEraseIsSecured(Events(w0, sts), st.input.r.subfunction, rest, st.outcome);
    HeardIsAnswer(w, st);
  }

  /** The requests 27 01, 27 02 00, 31 01 FF 00. */
  ghost function EraseStimuli(): seq<Stimulus> {
    [Meets(EcuWitnesses.UnlockInputs()[0], None), Meets(EcuWitnesses.UnlockInputs()[1], None),
     Meets(EcuWitnesses.Ask(ROUTINE_CONTROL, START, false, [0xFF, 0x00]), Some([0]))]
  }

  /** From boot such a run fails the documentation: after an accepted key, and without ever leaving the default session,
      eraseMemory is started. */
  lemma EcuErasesInDefaultSession(regionCapacity: nat)
    ensures var w := BootWhole(regionCapacity);
            && Events(w, EraseStimuli()) == [Ask(true, START, [0xFF, 0x00], Some([0]))]
            && Sessions(w, EraseStimuli()) == [DEFAULT_SESSION]
            && !AllInSession(InitBoard(), Events(w, EraseStimuli()), Sessions(w, EraseStimuli()))
  {
    var w, sts := BootWhole(regionCapacity), EraseStimuli();
    EcuWitnesses.BootUntouched(regionCapacity);
    EcuWitnesses.SeedStep(w.ecu);
    var w1 := Next(w, sts[0]);
    NotForRoutines(w.ecu, sts[0]);
    EcuWitnesses.KeyStep(w1.ecu);
    var w2 := Next(w1, sts[1]);
    NotForRoutines(w1.ecu, sts[1]);
    RoutineControlAlwaysReached(w2.ecu);
    hide EcuRuns.Advance, EcuRuns.Inv, EcuRuns.Route, InitBoard, InitSlots, AllInSession, Routine.Step;
    assert sts[1..] == [sts[1], sts[2]] && sts[1..][1..] == [sts[2]] && sts[1..][1..][1..] == [];
    var w3 := Next(w2, sts[2]);
    assert Events(w3, []) == [] && Sessions(w3, []) == [];
    assert Events(w2, [sts[2]]) == [Ask(true, START, [0xFF, 0x00], Some([0]))];
    assert Sessions(w2, [sts[2]]) == [DEFAULT_SESSION];
    assert Events(w1, [sts[1], sts[2]]) == Events(w2, [sts[2]]);
    assert Sessions(w1, [sts[1], sts[2]]) == Sessions(w2, [sts[2]]);
    EraseOutOfSession();
  }

  lemma NotForRoutines(e: Ecu.EcuState, st: Stimulus)
    requires EcuRuns.Inv(e) && st.Meets? && st.input.Serve? && st.input.r.sid == SECURITY_ACCESS
    ensures EventOf(e, st) == None
  {
    EcuRuns.RouteMeaning(e, SECURITY_ACCESS);
    hide EcuRuns.Route, EcuRuns.Inv;
  }

  lemma EraseOutOfSession()
    ensures !AllInSession(InitBoard(), [Ask(true, START, [0xFF, 0x00], Some([0]))], [DEFAULT_SESSION])
  {
    assert RoutineId([0xFF, 0x00]) == 0xFF00;
    assert !EventInSession(InitBoard(), Ask(true, START, [0xFF, 0x00], Some([0])), DEFAULT_SESSION);
  }
}
