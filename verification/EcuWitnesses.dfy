/** Concrete runs of the ECU from boot on which documented behaviour fails. */
module EcuWitnesses {
  import opened Bytes
  import opened Uds
  import opened Session
  import opened Services
  import opened Ecu
  import opened EcuRuns
  import Security
  import Transfer

  ghost function Anyone(): Security.Verdict {
    (level, seed, key) => true
  }

  /** A physically addressed request to an ECU whose validator accepts every key. */
  ghost function Ask(sid: u8, subfunction: u7, suppress: bool, data: seq<u8>): Input {
    Serve(Request(sid, subfunction, suppress, data), false, Anyone(), Foreign(NO_RESPONSE, false))
  }

  /** Requests 27 01 and 27 02 00. */
  ghost function UnlockInputs(): seq<Input> {
    [Ask(SECURITY_ACCESS, 1, false, []), Ask(SECURITY_ACCESS, 2, false, [0])]
  }

  lemma {:induction false} RunAppend(e: EcuState, a: seq<Input>, b: seq<Input>)
    ensures Run(e, a + b) == Run(Run(e, a), b)
    decreases |a|
  {
    hide Advance;
    if a == [] {
      assert a + b == b;
    } else {
      assert (a + b)[1..] == a[1..] + b;
      RunAppend(Advance(e, a[0]).ecu, a[1..], b);
    }
  }

  lemma RunOne(e: EcuState, i: Input)
    ensures Run(e, [i]) == Advance(e, i).ecu
  {
    hide Advance;
    assert [i][1..] == [];
    assert Run(Advance(e, i).ecu, []) == Advance(e, i).ecu;
  }

  /** Nothing has been asked of level 1 yet. */
  predicate Untouched(s: Security.State) {
    !s.delay && s.levels[0] == Security.FRESH_LEVEL
  }

  /** Seed and key unlock the ECU and change nothing but its security state. */
  lemma KeyUnlocks(e: EcuState)
    requires Inv(e) && Untouched(e.sec)
    ensures var e' := Run(e, UnlockInputs());
            Inv(e') && e'.unlocked && e'.session == e.session && e'.xfer == e.xfer && e'.now == e.now
  {
    var i, k := Ask(SECURITY_ACCESS, 1, false, []), Ask(SECURITY_ACCESS, 2, false, [0]);
    assert [i, k] == [i] + [k];
    RunAppend(e, [i], [k]);
    RunOne(e, i);
    var e1 := Advance(e, i).ecu;
    RunOne(e1, k);
    SeedStep(e);
    KeyStep(e1);
    hide Run, Advance;
  }

  lemma SeedStep(e: EcuState)
    requires Inv(e) && Untouched(e.sec)
    ensures var e' := Advance(e, Ask(SECURITY_ACCESS, 1, false, [])).ecu;
            && Inv(e') && !e'.sec.delay && e'.sec.levels[0].seedSent && e'.sec.levels[0].attempts == 0
            && e'.session == e.session && e'.xfer == e.xfer && e'.now == e.now
  {
    var i := Ask(SECURITY_ACCESS, 1, false, []);
    AdvanceKeepsInv(e, i);
    RouteMeaning(e, i.r.sid);
    StepByRoute(e, i.r, i.functional, i.verdict, i.foreign);
    var d := HandleSeed(e, i.r);
    SyncKeepsTransfer(d.ecu, i.r.sid, d.rsp);
    hide Step, Route, Sync, Inv, BuiltIn, Security.SeedBytes;
  }

  lemma KeyStep(e: EcuState)
    requires Inv(e) && !e.sec.delay && e.sec.levels[0].seedSent && e.sec.levels[0].attempts == 0
    ensures var p := Advance(e, Ask(SECURITY_ACCESS, 2, false, [0]));
            && p.effect == KeyAccepted(0) && Inv(p.ecu) && p.ecu.unlocked
            && p.ecu.session == e.session && p.ecu.xfer == e.xfer && p.ecu.now == e.now
  {
    var i := Ask(SECURITY_ACCESS, 2, false, [0]);
    AdvanceKeepsInv(e, i);
    FlagFollows(e, i);
    RouteMeaning(e, i.r.sid);
    StepByRoute(e, i.r, i.functional, i.verdict, i.foreign);
    var d := HandleKey(e, i.r, i.verdict);
    SyncKeepsTransfer(d.ecu, i.r.sid, d.rsp);
    hide Step, Route, Sync, Inv, BuiltIn;
  }

  lemma BootUntouched(regionCapacity: nat)
    ensures Inv(Boot(regionCapacity)) && Untouched(Boot(regionCapacity).sec)
    ensures Boot(regionCapacity).session.current == DEFAULT_SESSION && Boot(regionCapacity).now == 0
  {
    BootInv(regionCapacity);
  }

  /** Region 0..FFFF, 10 02, seed and key, a download of 4 bytes to address 0, and 10 02 again. */
  ghost function RelockedDownload(): seq<Input> {
    EnterInputs() + UnlockInputs() + [OpenInput(), AgainInput()]
  }

  /** From boot a locked ECU can take a block: 36 01 AB after those requests. */
  lemma BlockTakenByLockedEcu(regionCapacity: nat)
    requires regionCapacity > 0
    ensures var e := Run(Boot(regionCapacity), RelockedDownload());
            !e.unlocked && Advance(e, Ask(TRANSFER_DATA, 1, false, [0xAB])).effect == BlockTaken
  {
    var e0 := Boot(regionCapacity);
    BootUntouched(regionCapacity);
    EntersProgramming(regionCapacity);
    var e2 := Run(e0, EnterInputs());
    KeyUnlocks(e2);
    var e4 := Run(e2, UnlockInputs());
    RelockedSteps(e0);
    RelockedBlock(e4);
    hide Run, Inv, Advance;
  }

  ghost function EnterInputs(): seq<Input> {
    [Announce(0, 0xFFFF), Ask(DIAGNOSTIC_SESSION_CONTROL, 2, false, [])]
  }

  ghost function OpenInput(): Input {
    Ask(REQUEST_DOWNLOAD, 0, false, [0, 0, 0, 0, 0, 0, 0, 4])
  }

  ghost function AgainInput(): Input {
    Ask(DIAGNOSTIC_SESSION_CONTROL, 2, false, [])
  }

  lemma RelockedSteps(e: EcuState)
    ensures Run(e, RelockedDownload()) ==
            Advance(Advance(Run(Run(e, EnterInputs()), UnlockInputs()), OpenInput()).ecu, AgainInput()).ecu
  {
    var open, again := OpenInput(), AgainInput();
    var e4 := Run(Run(e, EnterInputs()), UnlockInputs());
    RunAppend(e, EnterInputs() + UnlockInputs(), [open, again]);
    RunAppend(e, EnterInputs(), UnlockInputs());
    assert [open, again] == [open] + [again];
    RunAppend(e4, [open], [again]);
    RunOne(e4, open);
    RunOne(Advance(e4, open).ecu, again);
    hide Run, Advance;
  }

  lemma RelockedBlock(e: EcuState)
    requires Inv(e) && e.unlocked && e.session.current == PROGRAMMING_SESSION
    requires !e.xfer.xfer.active && e.xfer.regions == [Transfer.Region(0, 0xFFFF)]
    ensures var e' := Advance(Advance(e, OpenInput()).ecu, AgainInput()).ecu;
            !e'.unlocked && Advance(e', Ask(TRANSFER_DATA, 1, false, [0xAB])).effect == BlockTaken
  {
    DownloadOpens(e);
    var e1, again := Advance(e, OpenInput()).ecu, AgainInput();
    SessionControlOutcome(e1, again.r, again.functional, again.verdict, again.foreign);
    SessionControlKeepsTransfer(e1, again);
    AdvanceKeepsInv(e1, again);
    BlockTakenIff(Advance(e1, again).ecu, Ask(TRANSFER_DATA, 1, false, [0xAB]));
    hide Inv, Step;
  }

  lemma EntersProgramming(regionCapacity: nat)
    requires regionCapacity > 0
    ensures var e := Run(Boot(regionCapacity), EnterInputs());
            && Inv(e) && Untouched(e.sec) && e.session.current == PROGRAMMING_SESSION
            && !e.xfer.xfer.active && e.xfer.regions == [Transfer.Region(0, 0xFFFF)]
  {
    var e0, a, c := Boot(regionCapacity), Announce(0, 0xFFFF), Ask(DIAGNOSTIC_SESSION_CONTROL, 2, false, []);
    BootUntouched(regionCapacity);
    assert [a, c] == [a] + [c];
    RunAppend(e0, [a], [c]);
    RunOne(e0, a);
    var e1 := Advance(e0, a).ecu;
    assert e1 == e0.(xfer := e0.xfer.(regions := [Transfer.Region(0, 0xFFFF)]));
    RunOne(e1, c);
    AdvanceKeepsInv(e0, a);
    AdvanceKeepsInv(e1, c);
    SessionControlOutcome(e1, c.r, c.functional, c.verdict, c.foreign);
    SessionControlKeepsTransfer(e1, c);
    SessionControlLocks(e1, c.r, c.functional, c.verdict, c.foreign);
    hide Run, Inv, Step, SessionInv;
  }

  lemma SessionControlKeepsTransfer(e: EcuState, i: Input)
    requires Inv(e) && i.Serve? && i.r.sid == DIAGNOSTIC_SESSION_CONTROL
    ensures Advance(e, i).ecu.xfer == e.xfer
  {
    RouteMeaning(e, i.r.sid);
    StepByRoute(e, i.r, i.functional, i.verdict, i.foreign);
    var d := HandleSessionControl(e, i.r);
    SyncKeepsTransfer(d.ecu, i.r.sid, d.rsp);
    hide Step, Route, Sync, Inv, BuiltIn, SwitchTo;
  }

  lemma DownloadOpens(e: EcuState)
    requires Inv(e) && e.unlocked && e.session.current == PROGRAMMING_SESSION
    requires !e.xfer.xfer.active && e.xfer.regions == [Transfer.Region(0, 0xFFFF)]
    ensures var p := Advance(e, OpenInput());
            && Inv(p.ecu) && p.ecu.session == e.session
            && p.ecu.xfer.xfer == Transfer.Xfer(true, Transfer.Download, 0, 4, 256, 0, [])
  {
    var data: seq<u8> := [0, 0, 0, 0, 0, 0, 0, 4];
    var i := Ask(REQUEST_DOWNLOAD, 0, false, data);
    AdvanceKeepsInv(e, i);
    RouteMeaning(e, i.r.sid);
    StepByRoute(e, i.r, i.functional, i.verdict, i.foreign);
    var d := HandleRequestTransfer(e, i.r, Transfer.Download);
    SyncKeepsTransfer(d.ecu, i.r.sid, d.rsp);
    assert data[0..4] == [0, 0, 0, 0] && data[4..8] == [0, 0, 0, 4];
    WordOfFour(0, 0, 0, 0);
    WordOfFour(0, 0, 0, 4);
    Transfer.RangeCheckExact(e.xfer.regions, 0, 4);
    assert e.xfer.regions[0] == Transfer.Region(0, 0xFFFF);
    assert Transfer.WithinRegion(e.xfer.regions, 0, 4);
    hide Step, Route, Sync, BuiltIn, Word, Security.AnyUnlocked, Transfer.RangeValid, Transfer.WithinRegion;
  }
}
