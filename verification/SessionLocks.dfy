/** Does a session change lock security access?  The documented rules, exactly when the ECU follows them, and runs from
    boot on which it does not. */
module SessionLocks {
  import opened Bytes
  import opened Uds
  import opened Session
  import opened Services
  import opened Ecu
  import opened EcuRuns
  import opened EcuWitnesses
  import Security

  /** Which changes must lock: from one session to another, or to the same. */
  type Rule = (u8, u8) -> bool

  /** uds_session.h and the comments of uds_session.c: leaving a non-default session for another locks, leaving the
      default session does not, and a request for the session already active has no side effects. */
  predicate HeaderRule(from: u8, to: u8) {
    from != DEFAULT_SESSION && from != to
  }

  /** Keys 2 to 4 of Figure 7 of ISO 14229-1: as above, but the non-default session already active locks as well. */
  predicate FigureRule(from: u8, to: u8) {
    from != DEFAULT_SESSION
  }

  /** The same, with key 1 read so that the complete re-initialisation of the default session locks, too. */
  predicate FigureRuleWithKey1(from: u8, to: u8) {
    from != DEFAULT_SESSION || to == DEFAULT_SESSION
  }

  // ---------------------------------------------------------------------------------------------
  // One session change
  // ---------------------------------------------------------------------------------------------

  /** A session change that is carried out: 0x10 with a supported session and nothing else. */
  predicate IsChange(i: Input) {
    i.Serve? && i.r.sid == DIAGNOSTIC_SESSION_CONTROL && i.r.data == [] && Supported(i.r.subfunction)
  }

  /** Whatever the rule: a session change leaves the lock as the rule says if and only if nothing was unlocked, or a
      response was asked for exactly where the rule locks.  The session context cannot help, its lock flag is always
      set. */
  lemma RelockIff(rule: Rule, e: EcuState, i: Input)
    requires Inv(e) && IsChange(i)
    ensures Advance(e, i).ecu.unlocked == (e.unlocked && !rule(e.session.current, i.r.subfunction))
            <==> !e.unlocked || (rule(e.session.current, i.r.subfunction) <==> !i.r.suppress)
    ensures Advance(e, i).ecu.session.current == i.r.subfunction
  {
    SessionControlOutcome(e, i.r, i.functional, i.verdict, i.foreign);
  }

  /** For the rule of the header: right exactly if nothing was unlocked, or a non-default session is left for another
      one with a response, or the default session is left, or the session stays, without one. */
  lemma HeaderRelockIff(e: EcuState, i: Input)
    requires Inv(e) && IsChange(i)
    ensures var from, to := e.session.current, i.r.subfunction;
            Advance(e, i).ecu.unlocked == (e.unlocked && (from == DEFAULT_SESSION || from == to))
            <==> !e.unlocked || (i.r.suppress <==> from == DEFAULT_SESSION || from == to)
  {
    RelockIff(HeaderRule, e, i);
  }

  /** For Figure 7: right exactly if nothing was unlocked, or a response is asked for in a non-default session, or none
      in the default session. */
  lemma FigureRelockIff(e: EcuState, i: Input)
    requires Inv(e) && IsChange(i)
    ensures Advance(e, i).ecu.unlocked == (e.unlocked && e.session.current == DEFAULT_SESSION)
            <==> !e.unlocked || (i.r.suppress <==> e.session.current == DEFAULT_SESSION)
  {
    RelockIff(FigureRule, e, i);
  }

  /** Nothing but such a request changes the session or is answered as a session change. */
  lemma OnlyChanges(e: EcuState, i: Input)
    requires Inv(e)
    ensures !IsChange(i) ==>
              !Advance(e, i).effect.SessionSet? && Advance(e, i).ecu.session.current == e.session.current
    ensures IsChange(i) ==> Advance(e, i).effect == SessionSet(i.r.subfunction, !i.r.suppress)
  {
    if IsChange(i) {
      SessionControlOutcome(e, i.r, i.functional, i.verdict, i.foreign);
    } else if i.Serve? {
      RouteMeaning(e, i.r.sid);
      StepByRoute(e, i.r, i.functional, i.verdict, i.foreign);
      if Route(e, i.r.sid).Some? {
        HandleNoChange(e, Route(e, i.r.sid).value, i);
        var d := Handle(e, Route(e, i.r.sid).value, i.r, i.verdict, i.foreign);
        SyncKeepsTransfer(d.ecu, i.r.sid, Advance(e, i).rsp);
      }
      hide Step, Route, Handle, Sync, Inv;
    }
  }

  lemma HandleNoChange(e: EcuState, handler: Handler, i: Input)
    requires SessionInv(e.session) && i.Serve? && !IsChange(i)
    requires handler == SessionControl ==> i.r.sid == DIAGNOSTIC_SESSION_CONTROL
    ensures var d := Handle(e, handler, i.r, i.verdict, i.foreign);
            !d.effect.SessionSet? && d.ecu.session == e.session
  {
    SwitchKeepsInv(e.session, i.r.subfunction);
    hide Security.RequestSeed, Security.SendKey, Security.AnyUnlocked, Security.Index, SwitchTo, SessionInv;
  }

  // ---------------------------------------------------------------------------------------------
  // Runs
  // ---------------------------------------------------------------------------------------------

  /** What a tester knows from its own requests and the keys accepted: the session, and whether it is unlocked. */
  datatype Tester = Tester(session: u8, open: bool)

  function Learn(t: Tester, i: Input, accepted: bool): Tester {
    if IsChange(i) then Tester(i.r.subfunction, t.open && i.r.suppress)
    else if accepted then t.(open := true)
    else t
  }

  /** Before every session change made while unlocked, a response is asked for exactly where the rule locks. */
  ghost predicate Conforms(rule: Rule, e: EcuState, t: Tester, ins: seq<Input>)
    decreases |ins|
  {
    ins != [] ==>
      && (IsChange(ins[0]) && t.open ==> (rule(t.session, ins[0].r.subfunction) <==> !ins[0].r.suppress))
      && Conforms(rule, Advance(e, ins[0]).ecu, Learn(t, ins[0], Advance(e, ins[0]).effect.KeyAccepted?), ins[1..])
  }

  /** Whether the ECU should be unlocked after an input: keys unlock, and session changes lock by the rule. */
  function Should(rule: Rule, e: EcuState, should: bool, i: Input): bool {
    if IsChange(i) then should && !rule(e.session.current, i.r.subfunction)
    else should || Advance(e, i).effect.KeyAccepted?
  }

  /** All along the run the ECU is unlocked exactly when it should be. */
  ghost predicate AsDocumented(rule: Rule, e: EcuState, should: bool, ins: seq<Input>)
    decreases |ins|
  {
    && e.unlocked == should
    && (ins != [] ==> AsDocumented(rule, Advance(e, ins[0]).ecu, Should(rule, e, should, ins[0]), ins[1..]))
  }

  /** The tester is right about the ECU. */
  predicate Knows(t: Tester, e: EcuState) {
    t.session == e.session.current && t.open == e.unlocked
  }

  lemma TesterKnows(e: EcuState, t: Tester, i: Input)
    requires Inv(e) && Knows(t, e)
    ensures Knows(Learn(t, i, Advance(e, i).effect.KeyAccepted?), Advance(e, i).ecu)
  {
    OnlyChanges(e, i);
    FlagFollows(e, i);
    if IsChange(i) {
      SessionControlOutcome(e, i.r, i.functional, i.verdict, i.foreign);
    }
    hide Advance, Inv;
  }

  lemma StepAsDocumentedIff(rule: Rule, e: EcuState, t: Tester, i: Input)
    requires Inv(e) && Knows(t, e)
    ensures Advance(e, i).ecu.unlocked == Should(rule, e, e.unlocked, i) <==>
            (IsChange(i) && t.open ==> (rule(t.session, i.r.subfunction) <==> !i.r.suppress))
  {
    OnlyChanges(e, i);
    FlagFollows(e, i);
    if IsChange(i) {
      RelockIff(rule, e, i);
    }
    hide Advance, Inv;
  }

  lemma {:induction false} RunAsDocumentedIff(rule: Rule, e: EcuState, t: Tester, ins: seq<Input>)
    requires Inv(e) && Knows(t, e)
    ensures AsDocumented(rule, e, e.unlocked, ins) <==> Conforms(rule, e, t, ins)
    decreases |ins|
  {
    hide Inv, Knows, Advance, Should, Learn, IsChange;
    if ins != [] {
      var e' := Advance(e, ins[0]).ecu;
      var t' := Learn(t, ins[0], Advance(e, ins[0]).effect.KeyAccepted?);
      var should := Should(rule, e, e.unlocked, ins[0]);
      AdvanceKeepsInv(e, ins[0]);
      TesterKnows(e, t, ins[0]);
      StepAsDocumentedIff(rule, e, t, ins[0]);
      RunAsDocumentedIff(rule, e', t', ins[1..]);
      if e'.unlocked != should {
        assert !AsDocumented(rule, e', should, ins[1..]);
      }
    }
  }

  /** Over every run from boot, and for every rule: all along the ECU is unlocked exactly when it should be, if and only
      if before every session change made while unlocked a response is asked for exactly where the rule locks.  Both
      the session and the unlocking are known to the tester from its own requests. */
  lemma LocksAsDocumentedIff(regionCapacity: nat, rule: Rule, ins: seq<Input>)
    ensures AsDocumented(rule, Boot(regionCapacity), false, ins) <==>
            Conforms(rule, Boot(regionCapacity), Tester(DEFAULT_SESSION, false), ins)
  {
    hide AsDocumented, Conforms, Inv, Advance;
    BootInv(regionCapacity);
    BootUntouched(regionCapacity);
    RunAsDocumentedIff(rule, Boot(regionCapacity), Tester(DEFAULT_SESSION, false), ins);
  }

  // ---------------------------------------------------------------------------------------------
  // Concrete runs
  // ---------------------------------------------------------------------------------------------

  ghost function Change(session: u7, suppress: bool): Input {
    Ask(DIAGNOSTIC_SESSION_CONTROL, session, suppress, [])
  }

  lemma BootUnlocked(regionCapacity: nat)
    ensures var e := Run(Boot(regionCapacity), UnlockInputs());
            Inv(e) && e.unlocked && e.session.current == DEFAULT_SESSION
  {
    hide Run, Inv;
    BootUntouched(regionCapacity);
    KeyUnlocks(Boot(regionCapacity));
  }

  lemma ExtendedUnlocked(regionCapacity: nat)
    ensures var e := Run(Boot(regionCapacity), [Change(3, false)] + UnlockInputs());
            Inv(e) && e.unlocked && e.session.current == EXTENDED_SESSION
  {
    var e0, i := Boot(regionCapacity), Change(3, false);
    BootUntouched(regionCapacity);
    RunAppend(e0, [i], UnlockInputs());
    RunOne(e0, i);
    AdvanceKeepsInv(e0, i);
    SessionControlOutcome(e0, i.r, i.functional, i.verdict, i.foreign);
    SessionControlLocks(e0, i.r, i.functional, i.verdict, i.foreign);
    LockKeepsUntouched(e0.sec);
    KeyUnlocks(Advance(e0, i).ecu);
    hide Run, Inv, Step, Untouched;
  }

  lemma LockKeepsUntouched(s: Security.State)
    requires Untouched(s)
    ensures Untouched(Security.LockAll(s))
  {
  }

  /** 10 03, 27 01, 27 02 00, 10 82: the extended session is left for the programming session, and the ECU stays
      unlocked, although every rule locks. */
  lemma StaysUnlocked(regionCapacity: nat)
    ensures var before := Run(Boot(regionCapacity), [Change(3, false)] + UnlockInputs());
            var after := Run(Boot(regionCapacity), [Change(3, false)] + UnlockInputs() + [Change(2, true)]);
            && before.unlocked && before.session.current == EXTENDED_SESSION
            && after.unlocked && after.session.current == PROGRAMMING_SESSION
    ensures HeaderRule(EXTENDED_SESSION, PROGRAMMING_SESSION) && FigureRule(EXTENDED_SESSION, PROGRAMMING_SESSION)
    ensures FigureRuleWithKey1(EXTENDED_SESSION, PROGRAMMING_SESSION)
  {
    ExtendedUnlocked(regionCapacity);
    OneMore(Boot(regionCapacity), [Change(3, false)] + UnlockInputs(), Change(2, true));
    hide Run, Inv;
  }

  /** 27 01, 27 02 00, 10 03: the default session is left, and the ECU is locked, although no rule locks. */
  lemma LocksWithoutReason(regionCapacity: nat)
    ensures var before := Run(Boot(regionCapacity), UnlockInputs());
            var after := Run(Boot(regionCapacity), UnlockInputs() + [Change(3, false)]);
            && before.unlocked && before.session.current == DEFAULT_SESSION
            && !after.unlocked && after.session.current == EXTENDED_SESSION
    ensures !HeaderRule(DEFAULT_SESSION, EXTENDED_SESSION) && !FigureRule(DEFAULT_SESSION, EXTENDED_SESSION)
    ensures !FigureRuleWithKey1(DEFAULT_SESSION, EXTENDED_SESSION)
  {
    BootUnlocked(regionCapacity);
    OneMore(Boot(regionCapacity), UnlockInputs(), Change(3, false));
    hide Run, Inv;
  }

  /** 10 03, 27 01, 27 02 00, 10 03: a request for the session already active locks, as Figure 7 asks, although by the
      comment of the switch function it has no side effects. */
  lemma SameSessionLocks(regionCapacity: nat)
    ensures var before := Run(Boot(regionCapacity), [Change(3, false)] + UnlockInputs());
            var after := Run(Boot(regionCapacity), [Change(3, false)] + UnlockInputs() + [Change(3, false)]);
            && before.unlocked && before.session.current == EXTENDED_SESSION
            && !after.unlocked && after.session.current == EXTENDED_SESSION
    ensures !HeaderRule(EXTENDED_SESSION, EXTENDED_SESSION) && FigureRule(EXTENDED_SESSION, EXTENDED_SESSION)
  {
    ExtendedUnlocked(regionCapacity);
    OneMore(Boot(regionCapacity), [Change(3, false)] + UnlockInputs(), Change(3, false));
    hide Run, Inv;
  }

  lemma OneMore(e: EcuState, ins: seq<Input>, i: Input)
    requires Inv(Run(e, ins)) && Run(e, ins).unlocked && IsChange(i)
    ensures Run(e, ins + [i]).unlocked == i.r.suppress && Run(e, ins + [i]).session.current == i.r.subfunction
  {
    RunAppend(e, ins, [i]);
    RunOne(Run(e, ins), i);
    SessionControlOutcome(Run(e, ins), i.r, i.functional, i.verdict, i.foreign);
    hide Run, Inv, Step;
  }
}
