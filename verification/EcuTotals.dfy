/** The bound on failed keys over all levels, for the whole ECU. */
module EcuTotals {
  import opened Bytes
  import opened Uds
  import opened Services
  import opened Ecu
  import opened EcuRuns
  import Security
  import SecurityRuns
  import SecurityTotals

  /** The ECU with the accepted and rejected keys its tester has seen, at any level. */
  datatype Ledger = Ledger(ecu: EcuState, accepted: nat, rejected: nat)

  function Note(l: Ledger, i: Input): Ledger {
    var p := Advance(l.ecu, i);
    Ledger(p.ecu, Bump(l.accepted, p.effect.KeyAccepted?), Bump(l.rejected, p.effect.KeyRejected?))
  }

  ghost function NoteAll(l: Ledger, ins: seq<Input>): Ledger
    decreases |ins|
  {
    if ins == [] then l else NoteAll(Note(l, ins[0]), ins[1..])
  }

  /** The security tally t describes the ECU, and has counted the same keys. */
  ghost predicate Agrees(t: SecurityTotals.Tally, l: Ledger) {
    && t.history.world == SecurityRuns.World(l.ecu.sec, l.ecu.now) && t.history.elapsed == l.ecu.now
    && t.accepted == l.accepted && t.rejected == l.rejected
  }

  /** An access request is at most one security event, with the outcome its effect names. */
  lemma AccessOutcome(e: EcuState, i: Input)
    requires Inv(e) && i.Serve? && i.r.sid == SECURITY_ACCESS
    ensures var es, p := SecurityEvents(e, i), Advance(e, i);
            && |es| <= 1
            && (es == [] ==> !p.effect.KeyAccepted? && !p.effect.KeyRejected?)
            && (es != [] ==>
                  var o := SecurityRuns.Step(SecurityRuns.World(e.sec, e.now), es[0]).outcome;
                  (o.Unlocked? <==> p.effect.KeyAccepted?) && (o.Rejected? <==> p.effect.KeyRejected?))
  {
    RouteMeaning(e, i.r.sid);
    StepByRoute(e, i.r, i.functional, i.verdict, i.foreign);
    hide Route, Sync, Ecu.Step, Security.RequestSeed, Security.SendKey, Security.AnyUnlocked, Security.Index, BuiltIn;
  }

  /** No other input is a key. */
  lemma ElsewhereOutcome(e: EcuState, i: Input)
    requires Inv(e) && (i.Serve? ==> i.r.sid != SECURITY_ACCESS)
    ensures var es, p := SecurityEvents(e, i), Advance(e, i);
            && |es| <= 1 && !p.effect.KeyAccepted? && !p.effect.KeyRejected?
            && (es != [] ==>
                  var o := SecurityRuns.Step(SecurityRuns.World(e.sec, e.now), es[0]).outcome;
                  !o.Unlocked? && !o.Rejected?)
  {
    var h := SecurityRuns.History(SecurityRuns.World(e.sec, e.now), SecurityRuns.NEW_ACCOUNT, e.now, 0, 0);
    ElsewhereMirrored(e, i, h, 0, 0, 0);
    hide Ecu.Step, Inv, Security.LockAll;
  }

  /** The clock and the security state of the tally follow the ECU's. */
  lemma WorldFollows(t: SecurityTotals.Tally, l: Ledger, i: Input)
    requires Inv(l.ecu) && Agrees(t, l)
    ensures var h := SecurityRuns.Run(t.history, 0, SecurityEvents(l.ecu, i));
            h.world == SecurityRuns.World(Advance(l.ecu, i).ecu.sec, Advance(l.ecu, i).ecu.now)
            && h.elapsed == Advance(l.ecu, i).ecu.now
  {
    var h := t.history;
    if i.Serve? && i.r.sid == SECURITY_ACCESS {
      AccessMirrored(l.ecu, i, h, 0, h.account.unlocked, h.account.rejected);
    } else {
      ElsewhereMirrored(l.ecu, i, h, 0, h.account.unlocked, h.account.rejected);
    }
    hide Advance, Inv, SecurityEvents, SecurityRuns.Run;
  }

  lemma InputCounted(t: SecurityTotals.Tally, l: Ledger, i: Input)
    requires Inv(l.ecu) && Agrees(t, l)
    ensures Agrees(SecurityTotals.CountAll(t, SecurityEvents(l.ecu, i)), Note(l, i))
  {
    var es := SecurityEvents(l.ecu, i);
    if i.Serve? && i.r.sid == SECURITY_ACCESS {
      AccessOutcome(l.ecu, i);
    } else {
      ElsewhereOutcome(l.ecu, i);
    }
    WorldFollows(t, l, i);
    hide Advance, Inv, SecurityEvents, SecurityRuns.Step, SecurityRuns.Advance;
    if es != [] {
      assert es == [es[0]] && es[1..] == [];
      OneEvent(t.history, 0, es[0]);
      assert SecurityTotals.CountAll(t, es) == SecurityTotals.CountAll(SecurityTotals.Count(t, es[0]), []);
    }
  }

  lemma {:induction false} RunCounted(t: SecurityTotals.Tally, l: Ledger, ins: seq<Input>)
    requires Inv(l.ecu) && Agrees(t, l)
    ensures Agrees(SecurityTotals.CountAll(t, SecurityTrace(l.ecu, ins)), NoteAll(l, ins))
    decreases |ins|
  {
    hide Inv, Agrees, Advance, SecurityEvents, SecurityTotals.Count;
    if ins != [] {
      AdvanceKeepsInv(l.ecu, ins[0]);
      InputCounted(t, l, ins[0]);
      var first, rest := SecurityEvents(l.ecu, ins[0]), SecurityTrace(Advance(l.ecu, ins[0]).ecu, ins[1..]);
      SecurityTotals.CountConcat(t, first, rest);
      RunCounted(SecurityTotals.CountAll(t, first), Note(l, ins[0]), ins[1..]);
    }
  }

  /** Whatever is requested in between: in D ms since boot the ECU rejects at most 80 + 5 * (accepted + D div 10000)
      keys, all levels together. */
  lemma EcuAllFailedKeysBounded(regionCapacity: nat, ins: seq<Input>)
    ensures var l := NoteAll(Ledger(Boot(regionCapacity), 0, 0), ins);
            l.rejected <= 80 + 5 * (l.accepted + l.ecu.now / 10000)
  {
    var e := Boot(regionCapacity);
    BootInv(regionCapacity);
    RunCounted(SecurityTotals.NewTally(0), Ledger(e, 0, 0), ins);
    SecurityTotals.AllFailedKeysBounded(0, SecurityTrace(e, ins));
    hide NoteAll, SecurityTotals.CountAll, SecurityTrace, Inv;
  }
}
