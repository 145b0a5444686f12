/** Safety of the composed ECU over every run from boot, and how it inherits the guarantees of its parts. */
module EcuRuns {
  import opened Bytes
  import opened Uds
  import opened Session
  import opened Services
  import opened Ecu
  import Security
  import SecurityRuns
  import Transfer
  import TransferRuns

  /** Requests, and what happens around the ECU: time passes, the application registers memory regions
      and supplies upload data. */
  datatype Input =
    | Serve(r: Request, functional: bool, verdict: Security.Verdict, foreign: Foreign)
    | Wait(ms: nat)
    | Announce(start: u32, end: u32)
    | Supply(bytes: seq<u8>)

  datatype Progress = Progress(ecu: EcuState, rsp: Response, sent: bool, effect: Effect)

  function Advance(e: EcuState, i: Input): Progress {
    match i
    case Serve(r, functional, verdict, foreign) =>
      var h := Step(e, r, functional, verdict, foreign);
      Progress(h.ecu, h.rsp, h.send, h.effect)
    case Wait(ms) => Progress(e.(now := e.now + ms), NO_RESPONSE, false, Nothing)
    case Announce(start, end) =>
      Progress(e.(xfer := Transfer.Register(e.xfer, start, end)), NO_RESPONSE, false, Nothing)
    case Supply(bytes) => Progress(e.(xfer := Transfer.Fill(e.xfer, bytes)), NO_RESPONSE, false, Nothing)
  }

  ghost function Run(e: EcuState, ins: seq<Input>): EcuState
    decreases |ins|
  {
    if ins == [] then e else Run(Advance(e, ins[0]).ecu, ins[1..])
  }

  // ---------------------------------------------------------------------------------------------
  // The system invariant
  // ---------------------------------------------------------------------------------------------

  predicate Inv(e: EcuState) {
    && SessionInv(e.session)
    && e.unlocked == Security.AnyUnlocked(e.sec)
    && e.table == BuiltIn()
  }

  lemma BootInv(regionCapacity: nat)
    ensures Inv(Boot(regionCapacity)) && !Boot(regionCapacity).unlocked
  {
  }

  lemma AdvanceKeepsInv(e: EcuState, i: Input)
    requires Inv(e)
    ensures Inv(Advance(e, i).ecu)
  {
    hide Step, Route, Handle, BuiltIn, Security.LockAll, Security.AnyUnlocked, SessionInv;
    if i.Serve? {
      StepByRoute(e, i.r, i.functional, i.verdict, i.foreign);
      if Route(e, i.r.sid).Some? {
        HandleKeeps(e, Route(e, i.r.sid).value, i.r, i.verdict, i.foreign);
      }
    }
  }

  lemma HandleKeeps(e: EcuState, handler: Handler, r: Request, verdict: Security.Verdict, foreign: Foreign)
    requires SessionInv(e.session)
    ensures var d := Handle(e, handler, r, verdict, foreign).ecu; SessionInv(d.session) && d.table == e.table
  {
    hide Security.RequestSeed, Security.SendKey, Security.AnyUnlocked, Security.Index, Transfer.RequestTransfer,
      Transfer.TransferData, Transfer.TransferExit;
    if r.subfunction <= 3 {
      SwitchKeepsInv(e.session, r.subfunction);
    }
  }

  // ---------------------------------------------------------------------------------------------
  // Locking
  // ---------------------------------------------------------------------------------------------

  lemma LockAllLocks(s: Security.State)
    ensures !Security.AnyUnlocked(Security.LockAll(s))
  {
  }

  /** 0x10 with a supported session: the switch always happens, but the levels are locked only if the
      positive response was built.  With the suppress bit the response stays zeroed, the synchronisation
      does not see a session change, and every level keeps its state. */
  lemma SessionControlOutcome(e: EcuState, r: Request, functional: bool, verdict: Security.Verdict, foreign: Foreign)
    requires Inv(e) && r.sid == DIAGNOSTIC_SESSION_CONTROL && r.data == [] && Supported(r.subfunction)
    ensures var h := Step(e, r, functional, verdict, foreign);
            && h.ecu.session.current == r.subfunction
            && h.effect == SessionSet(r.subfunction, !r.suppress)
            && h.send == !r.suppress
            && (!r.suppress ==> !h.ecu.unlocked && h.rsp.sid == DIAGNOSTIC_SESSION_CONTROL_RSP)
            && (r.suppress ==> h.ecu.sec == e.sec && h.ecu.unlocked == e.unlocked)
  {
    BuiltInServices(r.sid, e.session.current);
    hide BuiltIn, Lookup, Allows, Security.LockAll, Security.AnyUnlocked;
    SwitchKeepsInv(e.session, r.subfunction);
    LockAllLocks(e.sec);
  }

  /** So the ECU is locked after a session change exactly if a response was asked for or nothing was unlocked, whatever
      session is left and entered. */
  lemma LockedAfterChangeIff(e: EcuState, r: Request, functional: bool, verdict: Security.Verdict, foreign: Foreign)
    requires Inv(e) && r.sid == DIAGNOSTIC_SESSION_CONTROL && r.data == [] && Supported(r.subfunction)
    ensures !Step(e, r, functional, verdict, foreign).ecu.unlocked <==> !r.suppress || !e.unlocked
  {
    SessionControlOutcome(e, r, functional, verdict, foreign);
  }

  /** An answered session change reports the timing of the session entered, in milliseconds, high byte first. */
  lemma TimingReported(e: EcuState, r: Request, functional: bool, verdict: Security.Verdict, foreign: Foreign)
    requires Inv(e) && r.sid == DIAGNOSTIC_SESSION_CONTROL && r.data == [] && Supported(r.subfunction) && !r.suppress
    ensures var h, p := Step(e, r, functional, verdict, foreign), ParamsOf(r.subfunction);
            |h.rsp.data| == 4 && Word(h.rsp.data[..2]) == p.p2 && Word(h.rsp.data[2..]) == p.p2Star
  {
    BuiltInServices(r.sid, e.session.current);
    hide BuiltIn, Lookup, Allows, Security.LockAll, Security.AnyUnlocked, Word;
    SwitchKeepsInv(e.session, r.subfunction);
    var d, p := Step(e, r, functional, verdict, foreign).rsp.data, ParamsOf(r.subfunction);
    assert d[..2] == [p.p2 / 256, p.p2 % 256] && d[2..] == [p.p2Star / 256, p.p2Star % 256];
    WordOfTwo(p.p2);
    WordOfTwo(p.p2Star);
  }

  /** Functional addressing does to the ECU what physical addressing does; all it changes is that negative
      answers 0x11, 0x12 and 0x31 are not sent. */
  lemma FunctionalOnlyMutes(e: EcuState, r: Request, verdict: Security.Verdict, foreign: Foreign)
    ensures var f, p := Step(e, r, true, verdict, foreign), Step(e, r, false, verdict, foreign);
            && f.ecu == p.ecu && f.effect == p.effect
            && (f.send <==> p.send && !Muted(p.rsp))
            && (f.send ==> f.rsp == p.rsp)
  {
    hide Handle, Lookup, Allows, Security.LockAll, Security.AnyUnlocked;
  }

  /** Where a served request ends up: at no handler, or at the one of its SID. */
  function Route(e: EcuState, sid: u8): Option<Handler> {
    match Lookup(e.table, sid)
    case None => None
    case Some(s) => if Allows(s.mask, e.session.current) then Some(s.handler) else None
  }

  lemma RouteMeaning(e: EcuState, sid: u8)
    requires Inv(e)
    ensures Route(e, sid) == Some(SessionControl) <==> sid == DIAGNOSTIC_SESSION_CONTROL
    ensures Route(e, sid) == Some(SecurityAccess) <==> sid == SECURITY_ACCESS
    ensures Route(e, sid) == Some(RequestDownload) <==>
            sid == REQUEST_DOWNLOAD && e.session.current == PROGRAMMING_SESSION
    ensures Route(e, sid) == Some(RequestUpload) <==> sid == REQUEST_UPLOAD && e.session.current == PROGRAMMING_SESSION
    ensures Route(e, sid) == Some(TransferData) <==> sid == TRANSFER_DATA && e.session.current == PROGRAMMING_SESSION
    ensures Route(e, sid) == Some(TransferExit) <==>
            sid == REQUEST_TRANSFER_EXIT && e.session.current == PROGRAMMING_SESSION
    ensures REQUEST_DOWNLOAD <= sid <= REQUEST_TRANSFER_EXIT && e.session.current != PROGRAMMING_SESSION ==>
              Route(e, sid) == None
  {
    hide BuiltIn, Lookup, Allows;
    BuiltInServices(sid, e.session.current);
  }

  /** A step is its handler's work followed by the synchronisation; without a handler nothing moves. */
  lemma StepByRoute(e: EcuState, r: Request, functional: bool, verdict: Security.Verdict, foreign: Foreign)
    requires Inv(e)
    ensures var h := Step(e, r, functional, verdict, foreign);
            match Route(e, r.sid)
            case None => h.ecu == e && h.effect == Nothing
            case Some(handler) =>
              var d := Handle(e, handler, r, verdict, foreign);
              h.ecu == Sync(d.ecu, r.sid, d.rsp) && h.effect == d.effect && h.rsp == d.rsp
    ensures Route(e, r.sid) == None ==> Step(e, r, functional, verdict, foreign).rsp.sid in {0, NEGATIVE_RESPONSE}
  {
    hide BuiltIn, Lookup, Allows, Handle, Security.AnyUnlocked, Security.LockAll;
  }

  // ---------------------------------------------------------------------------------------------
  // Transfers
  // ---------------------------------------------------------------------------------------------

  /** A transfer opens, takes a block or closes only on the matching service and only in the programming
      session; it opens only while some level is unlocked, and no other input starts or ends one. */
  lemma TransferGuarded(e: EcuState, i: Input)
    requires Inv(e)
    ensures var p := Advance(e, i);
            && (p.effect in {TransferOpened, BlockTaken, TransferClosed} ==> e.session.current == PROGRAMMING_SESSION)
            && (p.effect == TransferOpened ==> e.unlocked && i.r.sid in {REQUEST_DOWNLOAD, REQUEST_UPLOAD})
            && (!e.xfer.xfer.active && p.ecu.xfer.xfer.active ==> p.effect == TransferOpened)
            && (e.xfer.xfer.active && !p.ecu.xfer.xfer.active ==> p.effect == TransferClosed)
            && (p.effect == BlockTaken <==> i.Serve? && i.r.sid == TRANSFER_DATA && p.rsp.sid == 0x76)
  {
    hide Step, Route, Handle, Sync, Security.AnyUnlocked, BuiltIn, SessionInv;
    if i.Serve? {
      RouteMeaning(e, i.r.sid);
      StepByRoute(e, i.r, i.functional, i.verdict, i.foreign);
      if Route(e, i.r.sid).Some? {
        HandleTransfers(e, Route(e, i.r.sid).value, i.r, i.verdict, i.foreign);
        var d := Handle(e, Route(e, i.r.sid).value, i.r, i.verdict, i.foreign);
        SyncKeepsTransfer(d.ecu, i.r.sid, Advance(e, i).rsp);
      }
    }
  }

  lemma HandleTransfers(e: EcuState, handler: Handler, r: Request, verdict: Security.Verdict, foreign: Foreign)
    ensures var d := Handle(e, handler, r, verdict, foreign);
            && (d.effect == TransferOpened ==>
                  handler in {RequestDownload, RequestUpload} && Security.AnyUnlocked(e.sec))
            && (d.effect == TransferClosed ==> handler == TransferExit)
            && (d.effect == BlockTaken <==> handler == TransferData && d.rsp.sid == 0x76)
            && (!e.xfer.xfer.active && d.ecu.xfer.xfer.active ==> d.effect == TransferOpened)
            && (e.xfer.xfer.active && !d.ecu.xfer.xfer.active ==> d.effect == TransferClosed)
  {
    hide Security.RequestSeed, Security.SendKey, Security.AnyUnlocked, Security.Index, SwitchTo;
  }

  lemma SyncKeepsTransfer(e: EcuState, sid: u8, rsp: Response)
    ensures Sync(e, sid, rsp).xfer == e.xfer && Sync(e, sid, rsp).session == e.session && Sync(e, sid, rsp).now == e.now
    ensures sid != DIAGNOSTIC_SESSION_CONTROL ==> Sync(e, sid, rsp).sec == e.sec
  {
  }

  // ---------------------------------------------------------------------------------------------
  // The ECU as a run of its security module
  // ---------------------------------------------------------------------------------------------

  ghost function SecurityEvents(e: EcuState, i: Input): seq<SecurityRuns.Event> {
    match i
    case Wait(ms) => [SecurityRuns.Wait(ms)]
    case Serve(r, _, verdict, _) =>
      if r.sid == SECURITY_ACCESS && r.subfunction % 2 == 1 && r.data == [] then
        [SecurityRuns.AskSeed(r.subfunction, 8)]
      else if r.sid == SECURITY_ACCESS && r.subfunction != 0 && r.subfunction % 2 == 0 && r.data != [] then
        [SecurityRuns.TryKey(r.subfunction, r.data[..|r.data| % 256], verdict)]
      else if Advance(e, i).effect.SessionSet? && Advance(e, i).effect.answered then [SecurityRuns.Lock]
      else []
    case _ => []
  }

  lemma OneEvent(h: SecurityRuns.History, level: nat, ev: SecurityRuns.Event)
    ensures SecurityRuns.Run(h, level, [ev]) == SecurityRuns.Advance(h, level, ev)
  {
    hide SecurityRuns.Advance;
    assert [ev][1..] == [];
    assert SecurityRuns.Run(SecurityRuns.Advance(h, level, ev), level, []) == SecurityRuns.Advance(h, level, ev);
  }

  /** The security history h describes e, and agrees with the key effects counted so far. */
  ghost predicate Mirrors(h: SecurityRuns.History, e: EcuState, accepted: nat, rejected: nat) {
    && h.world == SecurityRuns.World(e.sec, e.now) && h.elapsed == e.now
    && h.account.unlocked == accepted && h.account.rejected == rejected
  }

  function Bump(n: nat, hit: bool): nat {
    if hit then n + 1 else n
  }

  lemma AccessMirrored(e: EcuState, i: Input, h: SecurityRuns.History, level: nat, accepted: nat, rejected: nat)
    requires Inv(e) && Mirrors(h, e, accepted, rejected) && i.Serve? && i.r.sid == SECURITY_ACCESS
    ensures var p := Advance(e, i);
            Mirrors(SecurityRuns.Run(h, level, SecurityEvents(e, i)), p.ecu,
                    Bump(accepted, p.effect == KeyAccepted(level)), Bump(rejected, p.effect == KeyRejected(level)))
  {
    hide Route, Sync, Step, Security.RequestSeed, Security.SendKey, Security.AnyUnlocked, Security.Index, BuiltIn;
    RouteMeaning(e, i.r.sid);
    StepByRoute(e, i.r, i.functional, i.verdict, i.foreign);
    var d := Handle(e, SecurityAccess, i.r, i.verdict, i.foreign);
    SyncKeepsTransfer(d.ecu, i.r.sid, d.rsp);
    if i.r.subfunction % 2 == 1 && i.r.data == [] {
      OneEvent(h, level, SecurityRuns.AskSeed(i.r.subfunction, 8));
    } else if i.r.subfunction != 0 && i.r.subfunction % 2 == 0 && i.r.data != [] {
      OneEvent(h, level, SecurityRuns.TryKey(i.r.subfunction, i.r.data[..|i.r.data| % 256], i.verdict));
    }
  }

  lemma ElsewhereMirrored(e: EcuState, i: Input, h: SecurityRuns.History, level: nat, accepted: nat, rejected: nat)
    requires Inv(e) && Mirrors(h, e, accepted, rejected) && (i.Serve? ==> i.r.sid != SECURITY_ACCESS)
    ensures var p := Advance(e, i);
            && Mirrors(SecurityRuns.Run(h, level, SecurityEvents(e, i)), p.ecu, accepted, rejected)
            && !p.effect.KeyAccepted? && !p.effect.KeyRejected?
  {
    hide Step, Route, Sync, SwitchTo, BuiltIn, Security.LockAll, Transfer.RequestTransfer, Transfer.TransferData,
      Transfer.TransferExit, Security.AnyUnlocked;
    match i
    case Wait(ms) => OneEvent(h, level, SecurityRuns.Wait(ms));
    case Serve(r, functional, verdict, foreign) =>
      RouteMeaning(e, r.sid);
      StepByRoute(e, r, functional, verdict, foreign);
      SessionControlLocks(e, r, functional, verdict, foreign);
      if Route(e, r.sid).Some? {
        var d := Handle(e, Route(e, r.sid).value, r, verdict, foreign);
        SyncKeepsTransfer(d.ecu, r.sid, d.rsp);
      }
      OneEvent(h, level, SecurityRuns.Lock);
    case _ =>
  }

  /** All that a request other than 0x27 can do to the security state: lock it, on an answered 0x10. */
  lemma SessionControlLocks(e: EcuState, r: Request, functional: bool, verdict: Security.Verdict, foreign: Foreign)
    requires Inv(e) && r.sid != SECURITY_ACCESS
    ensures var h := Step(e, r, functional, verdict, foreign);
            h.ecu.sec == if h.effect.SessionSet? && h.effect.answered then Security.LockAll(e.sec) else e.sec
  {
    hide Step, Route, BuiltIn, Security.LockAll, Security.AnyUnlocked, Transfer.RequestTransfer, Transfer.TransferData,
      Transfer.TransferExit;
    RouteMeaning(e, r.sid);
    StepByRoute(e, r, functional, verdict, foreign);
    if r.subfunction <= 3 {
      SwitchKeepsInv(e.session, r.subfunction);
    }
  }

  ghost function SecurityTrace(e: EcuState, ins: seq<Input>): seq<SecurityRuns.Event>
    decreases |ins|
  {
    if ins == [] then [] else SecurityEvents(e, ins[0]) + SecurityTrace(Advance(e, ins[0]).ecu, ins[1..])
  }

  /** An observer of one level: keys accepted and rejected, and whether the last thing that happened to the
      locks was an accepted key (of any level) rather than an answered session change. */
  datatype Seen = Seen(ecu: EcuState, accepted: nat, rejected: nat, keyOpen: bool)

  function Look(s: Seen, level: nat, i: Input): Seen {
    var p := Advance(s.ecu, i);
    Seen(p.ecu, Bump(s.accepted, p.effect == KeyAccepted(level)), Bump(s.rejected, p.effect == KeyRejected(level)),
         if p.effect.KeyAccepted? then true
         else if p.effect.SessionSet? && p.effect.answered then false
         else s.keyOpen)
  }

  ghost function Watch(s: Seen, level: nat, ins: seq<Input>): Seen
    decreases |ins|
  {
    if ins == [] then s else Watch(Look(s, level, ins[0]), level, ins[1..])
  }

  lemma {:induction false} RunMirrored(s: Seen, h: SecurityRuns.History, level: nat, ins: seq<Input>)
    requires Inv(s.ecu) && Mirrors(h, s.ecu, s.accepted, s.rejected)
    ensures var s' := Watch(s, level, ins);
            && Inv(s'.ecu)
            && Mirrors(SecurityRuns.Run(h, level, SecurityTrace(s.ecu, ins)), s'.ecu, s'.accepted, s'.rejected)
    decreases |ins|
  {
    hide Inv, Mirrors, Advance, SecurityEvents;
    if ins != [] {
      var i := ins[0];
      AdvanceKeepsInv(s.ecu, i);
      if i.Serve? && i.r.sid == SECURITY_ACCESS {
        AccessMirrored(s.ecu, i, h, level, s.accepted, s.rejected);
      } else {
        ElsewhereMirrored(s.ecu, i, h, level, s.accepted, s.rejected);
      }
      var first, rest := SecurityEvents(s.ecu, i), SecurityTrace(Advance(s.ecu, i).ecu, ins[1..]);
      SecurityRuns.RunConcat(h, level, first, rest);
      RunMirrored(Look(s, level, i), SecurityRuns.Run(h, level, first), level, ins[1..]);
    }
  }

  /** The bound on failed keys holds for the whole ECU, whatever else is requested in between: in D ms
      since boot a level rejects at most 5 * (1 + accepted + D div 10000) keys. */
  lemma EcuFailedKeysBounded(regionCapacity: nat, level: nat, ins: seq<Input>)
    requires level < Security.NUM_LEVELS
    ensures var s := Watch(Seen(Boot(regionCapacity), 0, 0, false), level, ins);
            s.rejected <= 5 * (1 + s.accepted + s.ecu.now / 10000)
  {
    hide Inv;
    var e := Boot(regionCapacity);
    BootInv(regionCapacity);
    RunMirrored(Seen(e, 0, 0, false), SecurityRuns.Start(0), level, ins);
    SecurityRuns.FailedKeysBounded(level, 0, SecurityTrace(e, ins));
  }

  /** A rejected key is what the tester sees as 7F 27 35. */
  lemma RejectionVisible(e: EcuState, r: Request, functional: bool, verdict: Security.Verdict, foreign: Foreign)
    requires Inv(e) && r.sid == SECURITY_ACCESS
    ensures var h := Step(e, r, functional, verdict, foreign);
            h.effect == KeyRejected(Security.Index(r.subfunction)) <==>
              h.rsp == Negative(SECURITY_ACCESS, NRC_INVALID_KEY)
  {
    hide Step, Route, Sync, BuiltIn;
    RouteMeaning(e, r.sid);
    StepByRoute(e, r, functional, verdict, foreign);
  }

  // ---------------------------------------------------------------------------------------------
  // When the ECU is unlocked
  // ---------------------------------------------------------------------------------------------

  predicate SameLocks(a: Security.State, b: Security.State) {
    forall i :: 0 <= i < Security.NUM_LEVELS ==> a.levels[i].unlocked == b.levels[i].unlocked
  }

  lemma SameLocksSameFlag(a: Security.State, b: Security.State)
    requires SameLocks(a, b)
    ensures Security.AnyUnlocked(a) == Security.AnyUnlocked(b)
  {
    if Security.AnyUnlocked(a) {
      var i :| 0 <= i < Security.NUM_LEVELS && a.levels[i].unlocked;
      assert b.levels[i].unlocked;
    }
    if Security.AnyUnlocked(b) {
      var i :| 0 <= i < Security.NUM_LEVELS && b.levels[i].unlocked;
      assert a.levels[i].unlocked;
    }
  }

  lemma AccessLocks(e: EcuState, r: Request, verdict: Security.Verdict)
    requires r.sid == SECURITY_ACCESS
    ensures var d := HandleSecurityAccess(e, r, verdict);
            if d.effect.KeyAccepted? then Security.AnyUnlocked(d.ecu.sec)
            else SameLocks(d.ecu.sec, e.sec) && !d.effect.SessionSet?
  {
    hide Security.SeedBytes;
    var d, i := HandleSecurityAccess(e, r, verdict), Security.Index(r.subfunction);
    if d.effect.KeyAccepted? {
      assert d.ecu.sec.levels[i].unlocked;
    }
  }

  lemma LookTracksLocks(s: Seen, level: nat, i: Input)
    requires Inv(s.ecu) && s.ecu.unlocked == s.keyOpen
    ensures Look(s, level, i).ecu.unlocked == Look(s, level, i).keyOpen
  {
    hide Step, Route, BuiltIn, Security.AnyUnlocked, Security.LockAll, HandleSecurityAccess;
    AdvanceKeepsInv(s.ecu, i);
    if i.Serve? {
      if i.r.sid == SECURITY_ACCESS {
        RouteMeaning(s.ecu, i.r.sid);
        StepByRoute(s.ecu, i.r, i.functional, i.verdict, i.foreign);
        AccessLocks(s.ecu, i.r, i.verdict);
        var d := HandleSecurityAccess(s.ecu, i.r, i.verdict);
        SyncKeepsTransfer(d.ecu, i.r.sid, d.rsp);
        if !d.effect.KeyAccepted? {
          SameLocksSameFlag(d.ecu.sec, s.ecu.sec);
        }
      } else {
        SessionControlLocks(s.ecu, i.r, i.functional, i.verdict, i.foreign);
        ElsewhereMirrored(s.ecu, i, SecurityRuns.History(SecurityRuns.World(s.ecu.sec, s.ecu.now),
                                                         SecurityRuns.NEW_ACCOUNT, s.ecu.now, 0, 0), level, 0, 0);
        LockAllLocks(s.ecu.sec);
      }
    }
  }

  lemma {:induction false} EcuSafeFrom(s: Seen, level: nat, ins: seq<Input>)
    requires Inv(s.ecu) && s.ecu.unlocked == s.keyOpen
    ensures var r := Watch(s, level, ins);
            && r.ecu.session.current in {DEFAULT_SESSION, PROGRAMMING_SESSION, EXTENDED_SESSION}
            && r.ecu.session.securityLocked
            && r.ecu.unlocked == Security.AnyUnlocked(r.ecu.sec) == r.keyOpen
    decreases |ins|
  {
    hide Look, Security.AnyUnlocked;
    if ins != [] {
      AdvanceKeepsInv(s.ecu, ins[0]);
      LookTracksLocks(s, level, ins[0]);
      LookIsAdvance(s, level, ins[0]);
      EcuSafeFrom(Look(s, level, ins[0]), level, ins[1..]);
    }
  }

  /** After every run from boot the session is one of the three, the session context demands locking, and
      the ECU is unlocked exactly if a key was accepted more recently than a session change answered. */
  lemma EcuSafe(regionCapacity: nat, level: nat, ins: seq<Input>)
    ensures var r := Watch(Seen(Boot(regionCapacity), 0, 0, false), level, ins);
            && r.ecu.session.current in {DEFAULT_SESSION, PROGRAMMING_SESSION, EXTENDED_SESSION}
            && r.ecu.session.securityLocked
            && r.ecu.unlocked == Security.AnyUnlocked(r.ecu.sec) == r.keyOpen
  {
    hide Inv;
    BootInv(regionCapacity);
    EcuSafeFrom(Seen(Boot(regionCapacity), 0, 0, false), level, ins);
  }

  lemma LookIsAdvance(s: Seen, level: nat, i: Input)
    ensures Look(s, level, i).ecu == Advance(s.ecu, i).ecu
  {
    hide Advance;
  }

  // ---------------------------------------------------------------------------------------------
  // The ECU as a run of its transfer machine
  // ---------------------------------------------------------------------------------------------

  function TransferEvents(e: EcuState, i: Input): seq<TransferRuns.Event> {
    match i
    case Wait(_) => []
    case Announce(start, end) => [TransferRuns.Announce(start, end)]
    case Supply(bytes) => [TransferRuns.Supply(bytes)]
    case Serve(r, _, _, _) =>
      match Route(e, r.sid)
      case Some(RequestDownload) =>
        [TransferRuns.Request(Transfer.Download, e.session.current, Security.AnyUnlocked(e.sec), r.data)]
      case Some(RequestUpload) =>
        [TransferRuns.Request(Transfer.Upload, e.session.current, Security.AnyUnlocked(e.sec), r.data)]
      case Some(TransferData) => [TransferRuns.Block(Byte1(r), r.data)]
      case Some(TransferExit) => [TransferRuns.Exit(r.data)]
      case _ => []
  }

  function TransferTrace(e: EcuState, ins: seq<Input>): seq<TransferRuns.Event>
    decreases |ins|
  {
    if ins == [] then [] else TransferEvents(e, ins[0]) + TransferTrace(Advance(e, ins[0]).ecu, ins[1..])
  }

  lemma InputIsTransferEvents(e: EcuState, i: Input)
    requires Inv(e)
    ensures var es := TransferEvents(e, i);
            && |es| <= 1 && (forall k :: 0 <= k < |es| ==> TransferRuns.Proper(es[k]))
            && Advance(e, i).ecu.xfer == if es == [] then e.xfer else TransferRuns.Step(e.xfer, es[0]).state
  {
    hide Step, Route, Sync, BuiltIn, SwitchTo, Security.AnyUnlocked, Security.RequestSeed, Security.SendKey,
      Transfer.RequestTransfer, Transfer.TransferData, Transfer.TransferExit;
    if i.Serve? {
      RouteMeaning(e, i.r.sid);
      StepByRoute(e, i.r, i.functional, i.verdict, i.foreign);
      if Route(e, i.r.sid).Some? {
        var d := Handle(e, Route(e, i.r.sid).value, i.r, i.verdict, i.foreign);
        SyncKeepsTransfer(d.ecu, i.r.sid, d.rsp);
      }
    }
  }

  /** The transfer half of an ECU run is a run of the transfer machine, hence obeys its ledger. */
  lemma {:induction false} EcuTransferRefines(e: EcuState, l: TransferRuns.Ledger, ins: seq<Input>)
    requires Inv(e) && TransferRuns.Rel(e.xfer, l)
    ensures TransferRuns.Rel(Run(e, ins).xfer, TransferRuns.RunLedger(l, TransferTrace(e, ins)).end)
    decreases |ins|
  {
    hide Inv, TransferRuns.Rel, Advance, TransferEvents, TransferRuns.Step, TransferRuns.Record, TransferRuns.Expected;
    if ins != [] {
      var es := TransferEvents(e, ins[0]);
      var e', rest := Advance(e, ins[0]).ecu, TransferTrace(Advance(e, ins[0]).ecu, ins[1..]);
      AdvanceKeepsInv(e, ins[0]);
      InputIsTransferEvents(e, ins[0]);
      if es == [] {
        assert es + rest == rest;
        EcuTransferRefines(e', l, ins[1..]);
      } else {
        TransferRuns.StepRefines(e.xfer, l, es[0]);
        assert (es + rest)[0] == es[0] && (es + rest)[1..] == rest;
        EcuTransferRefines(e', TransferRuns.Record(l, es[0]), ins[1..]);
      }
    }
  }

  /** Conservation for the whole ECU: in every state reached from boot, an active download of M bytes holds
      exactly the first min(M, total) bytes of the blocks accepted so far and still expects the rest. */
  lemma EcuDownloadConservation(regionCapacity: nat, ins: seq<Input>)
    ensures var t := Run(Boot(regionCapacity), ins).xfer.xfer;
            var l := TransferRuns.RunLedger(TransferRuns.NewLedger(regionCapacity),
                                            TransferTrace(Boot(regionCapacity), ins)).end;
            && t.active == (l.dir != Transfer.Idle)
            && (t.active && t.dir == Transfer.Download ==>
                  |t.buf| + t.remaining == l.size <= 1024 && t.buf == l.data[..Min(l.size, |l.data|)])
  {
    BootInv(regionCapacity);
    EcuTransferRefines(Boot(regionCapacity), TransferRuns.NewLedger(regionCapacity), ins);
  }

  // ---------------------------------------------------------------------------------------------
  // Transfer blocks while the ECU is locked
  // ---------------------------------------------------------------------------------------------

  /** Whether a block is taken depends on the session and the transfer machine alone. */
  lemma BlockTakenIff(e: EcuState, i: Input)
    requires Inv(e)
    ensures Advance(e, i).effect == BlockTaken <==>
            && i.Serve? && i.r.sid == TRANSFER_DATA && e.session.current == PROGRAMMING_SESSION
            && Transfer.TransferData(e.xfer, Byte1(i.r), i.r.data).answer == Transfer.Accepted
    ensures Advance(e, i).effect == BlockTaken ==> e.xfer.xfer.active
  {
    TransferGuarded(e, i);
    if i.Serve? && i.r.sid == TRANSFER_DATA {
      RouteMeaning(e, i.r.sid);
      StepByRoute(e, i.r, i.functional, i.verdict, i.foreign);
      InactiveRefuses(e.xfer, Byte1(i.r), i.r.data);
      hide Step, Route, Sync, BuiltIn, SessionInv, Transfer.TransferData, Transfer.Payload;
    }
  }

  lemma InactiveRefuses(s: Transfer.State, bsc: u8, data: seq<u8>)
    ensures Transfer.TransferData(s, bsc, data).answer == Transfer.Accepted ==> s.xfer.active
  {
  }

  /** The unlock flag moves with accepted keys and answered session changes only. */
  lemma FlagFollows(e: EcuState, i: Input)
    requires Inv(e)
    ensures var p := Advance(e, i);
            p.ecu.unlocked == if p.effect.KeyAccepted? then true
                              else if p.effect.SessionSet? && p.effect.answered then false
                              else e.unlocked
  {
    hide Inv, Advance;
    LookTracksLocks(Seen(e, 0, 0, e.unlocked), 0, i);
  }

  /** An observer: relocked says that since the transfer was opened a session change was answered, and that no key was
      accepted after it. */
  datatype Audit = Audit(ecu: EcuState, relocked: bool)

  function Note(a: Audit, i: Input): Audit {
    var p := Advance(a.ecu, i);
    Audit(p.ecu, if p.effect == TransferOpened || p.effect.KeyAccepted? then false
                 else if p.effect.SessionSet? && p.effect.answered then true
                 else a.relocked)
  }

  ghost function NoteAll(a: Audit, ins: seq<Input>): Audit
    decreases |ins|
  {
    if ins == [] then a else NoteAll(Note(a, ins[0]), ins[1..])
  }

  predicate AuditInv(a: Audit) {
    Inv(a.ecu) && (a.ecu.xfer.xfer.active ==> (a.ecu.unlocked <==> !a.relocked))
  }

  lemma NoteKeepsInv(a: Audit, i: Input)
    requires AuditInv(a)
    ensures AuditInv(Note(a, i))
  {
    AdvanceKeepsInv(a.ecu, i);
    TransferGuarded(a.ecu, i);
    FlagFollows(a.ecu, i);
    hide Advance, Inv;
  }

  lemma {:induction false} NoteAllKeepsInv(a: Audit, ins: seq<Input>)
    requires AuditInv(a)
    ensures AuditInv(NoteAll(a, ins))
    decreases |ins|
  {
    hide AuditInv, Note;
    if ins != [] {
      NoteKeepsInv(a, ins[0]);
      NoteAllKeepsInv(Note(a, ins[0]), ins[1..]);
    }
  }

  /** TransferData never asks for the lock.  Over every run from boot, a block is taken by a locked ECU if and only if,
      since the transfer was opened, a session change was answered and no key accepted after it. */
  lemma BlockWhileLockedIff(regionCapacity: nat, ins: seq<Input>, i: Input)
    ensures var a := NoteAll(Audit(Boot(regionCapacity), false), ins);
            Advance(a.ecu, i).effect == BlockTaken ==> (!a.ecu.unlocked <==> a.relocked)
  {
    BootInv(regionCapacity);
    var a := NoteAll(Audit(Boot(regionCapacity), false), ins);
    NoteAllKeepsInv(Audit(Boot(regionCapacity), false), ins);
    BlockTakenIff(a.ecu, i);
    hide NoteAll, Advance, Inv;
  }
}
