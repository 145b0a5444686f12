/** What the tester reads: the answers of the composed ECU byte by byte, in every state and over every run. */
module EcuAnswers {
  import opened Bytes
  import opened Uds
  import opened Session
  import opened Services
  import opened Ecu
  import opened EcuRuns
  import AddressRange
  import Security
  import SecurityAnswers
  import SecurityRuns
  import Transfer
  import TransferRuns

  /** 7F, the service, the code. */
  function Nrc(sid: u8, code: u8): Response {
    Response(0x7F, sid, [code])
  }

  // ---------------------------------------------------------------------------------------------
  // Services and sessions
  // ---------------------------------------------------------------------------------------------

  predicate InAllSessions(sid: u8) {
    sid in {0x10, 0x11, 0x19, 0x22, 0x24, 0x27, 0x28, 0x2A, 0x31, 0x3E, 0x84}
  }

  predicate OutsideDefault(sid: u8) {
    sid in {0x14, 0x23, 0x29, 0x2C, 0x2E, 0x2F, 0x3D, 0x85, 0x86, 0x87}
  }

  predicate InProgramming(sid: u8) {
    0x34 <= sid <= 0x38
  }

  predicate Known(sid: u8) {
    InAllSessions(sid) || OutsideDefault(sid) || InProgramming(sid)
  }

  /** The session of a service: any, any but the default one (1), or the programming one (2). */
  predicate ServedIn(sid: u8, session: u8) {
    InAllSessions(sid) || (OutsideDefault(sid) && session != 1) || (InProgramming(sid) && session == 2)
  }

  lemma ServiceTable(sid: u8, session: u8)
    requires 1 <= session <= 3
    ensures Lookup(BuiltIn(), sid).Some? <==> Known(sid)
    ensures Known(sid) ==> (Allows(Lookup(BuiltIn(), sid).value.mask, session) <==> ServedIn(sid, session))
    ensures Known(sid) && sid !in {0x10, 0x27, 0x34, 0x35, 0x36, 0x37} ==>
              Lookup(BuiltIn(), sid).value.handler == Other(sid)
  {
    hide BuiltIn, Lookup;
    LookupBuiltIn(sid);
  }

  /** The dispatcher refuses exactly what is not registered, with 0x11, and what is not served in the session, with
      0x7F; nothing changes then, and an unregistered service is not answered at all under functional addressing. */
  lemma RefusedByDispatcherIff(e: EcuState, r: Request, functional: bool, verdict: Security.Verdict, foreign: Foreign)
    requires Inv(e)
    ensures var h := Step(e, r, functional, verdict, foreign);
            && (Route(e, r.sid) == None <==> !ServedIn(r.sid, e.session.current))
            && (!Known(r.sid) ==> h.ecu == e && h.send == !functional && (h.send ==> h.rsp == Nrc(r.sid, 0x11)))
            && (Known(r.sid) && !ServedIn(r.sid, e.session.current) ==>
                  h.ecu == e && h.send && h.rsp == Nrc(r.sid, 0x7F))
  {
    hide BuiltIn, Lookup, Allows, Handle, Security.AnyUnlocked, Security.LockAll, ParamsOf;
    ServiceTable(r.sid, e.session.current);
  }

  /** Should the session ever be none of the three, every registered service is answered 7F 00 7F and does nothing. */
  lemma NoSession(e: EcuState, r: Request, functional: bool, verdict: Security.Verdict, foreign: Foreign)
    requires e.table == BuiltIn() && !(1 <= e.session.current <= 3)
    ensures var h := Dispatch(e, r, functional, verdict, foreign);
            && h.ecu == e
            && (Known(r.sid) ==> h.send && h.rsp == Response(0x7F, 0x00, [0x7F]))
            && (!Known(r.sid) ==> h.send == !functional && (h.send ==> h.rsp == Nrc(r.sid, 0x11)))
  {
    hide BuiltIn, Lookup, Handle;
    ServiceTable(r.sid, 1);
  }

  /** A service without a handler here that is served in the session answers for itself; nothing modelled changes. */
  lemma PassedOn(e: EcuState, r: Request, verdict: Security.Verdict, foreign: Foreign)
    requires Inv(e) && ServedIn(r.sid, e.session.current) && r.sid !in {0x10, 0x27, 0x34, 0x35, 0x36, 0x37}
    ensures var h := Step(e, r, false, verdict, foreign);
            h.ecu == e && h.rsp == foreign.rsp && h.send == foreign.send && h.effect == Nothing
    ensures Route(e, r.sid) == Some(Other(r.sid))
  {
    hide BuiltIn, Lookup, Allows, Security.AnyUnlocked, Security.LockAll, ParamsOf;
    ServiceTable(r.sid, e.session.current);
  }

  /** Of the services with a handler here every request is answered, but for a positive answer that was not wanted. */
  lemma AnsweredUnlessSuppressed(e: EcuState, r: Request, verdict: Security.Verdict, foreign: Foreign)
    requires Inv(e) && r.sid in {0x10, 0x27, 0x34, 0x35, 0x36, 0x37}
    ensures var h := Step(e, r, false, verdict, foreign);
            && h.send == (h.rsp != NO_RESPONSE)
            && (h.rsp == NO_RESPONSE ==> r.suppress && r.sid in {0x10, 0x27})
            && (h.rsp != NO_RESPONSE ==> h.rsp.sid == 0x7F || h.rsp.sid == r.sid + 0x40)
            && (r.suppress && r.sid in {0x10, 0x27} ==> h.rsp.sid in {0, 0x7F})
  {
    hide BuiltIn, Lookup, Allows, Security.AnyUnlocked, Security.LockAll, ParamsOf, Security.RequestSeed,
      Security.SendKey, Transfer.RequestTransfer, Transfer.TransferData, Transfer.Payload, Transfer.TransferExit;
    BuiltInServices(r.sid, e.session.current);
    ServiceTable(r.sid, e.session.current);
  }

  function Last(b: seq<u8>): u8
    requires b != []
  {
    b[|b| - 1]
  }

  /** Functional addressing keeps back exactly the negative answers 0x11, 0x12 and 0x31, and changes nothing else. */
  lemma FunctionalKeepsBack(e: EcuState, r: Request, verdict: Security.Verdict, foreign: Foreign)
    ensures var f, p := Step(e, r, true, verdict, foreign), Step(e, r, false, verdict, foreign);
            && f.ecu == p.ecu && f.effect == p.effect
            && (f.send ==> p.send && f.rsp == p.rsp)
            && (p.send && !f.send <==>
                  p.send && p.rsp.sid == 0x7F && p.rsp.data != [] && Last(p.rsp.data) in {0x11, 0x12, 0x31})
  {
    FunctionalOnlyMutes(e, r, verdict, foreign);
    hide Step;
  }

  /** 0x10.  Times are in milliseconds, high byte first: 50 and 5000 in the default session, else 5000 and 5000. */
  lemma SessionAnswer(e: EcuState, r: Request, functional: bool, verdict: Security.Verdict, foreign: Foreign)
    requires Inv(e) && r.sid == 0x10
    ensures var h, to := Step(e, r, functional, verdict, foreign), r.subfunction;
            && h.rsp == (if r.data != [] then Nrc(0x10, 0x13)
                         else if !(1 <= to <= 3) then Nrc(0x10, 0x12)
                         else if r.suppress then NO_RESPONSE
                         else Response(0x50, to, if to == 1 then [0, 50, 0x13, 0x88] else [0x13, 0x88, 0x13, 0x88]))
            && h.ecu.session.current == (if r.data == [] && 1 <= to <= 3 then to else e.session.current)
            && (h.ecu.session.eventsPaused <==> h.ecu.session.current != 1)
            && h.ecu.xfer == e.xfer
  {
    hide Route, Step, Sync, BuiltIn, Security.AnyUnlocked;
    RouteMeaning(e, r.sid);
    StepByRoute(e, r, functional, verdict, foreign);
    SwitchKeepsInv(e.session, r.subfunction);
    var d := HandleSessionControl(e, r);
    SyncKeepsTransfer(d.ecu, r.sid, d.rsp);
  }

  // ---------------------------------------------------------------------------------------------
  // Security access
  // ---------------------------------------------------------------------------------------------

  /** 27 with an odd subfunction: the seed of its level, or eight zeros if the level is unlocked. */
  lemma SeedAnswer(e: EcuState, r: Request, functional: bool, verdict: Security.Verdict, foreign: Foreign)
    requires Inv(e) && r.sid == 0x27 && r.subfunction % 2 == 1
    ensures var rsp, k := Step(e, r, functional, verdict, foreign).rsp, r.subfunction / 2;
            rsp == if r.data != [] then Nrc(0x27, 0x13)
                   else if r.subfunction > 32 then Nrc(0x27, 0x12)
                   else if SecurityAnswers.Blocked(e.sec, e.now) then Nrc(0x27, 0x37)
                   else if r.suppress then NO_RESPONSE
                   else if e.sec.levels[k].unlocked then Response(0x67, r.subfunction, [0, 0, 0, 0, 0, 0, 0, 0])
                   else Response(0x67, r.subfunction, Security.SeedBytes(k + 1, 8))
  {
    hide Route, Step, Sync, BuiltIn, Security.AnyUnlocked, Security.RequestSeed, Security.SendKey, Security.SeedBytes;
    RouteMeaning(e, r.sid);
    StepByRoute(e, r, functional, verdict, foreign);
    var w, k := SecurityRuns.World(e.sec, e.now), r.subfunction / 2;
    SeedOfLevel(w, r.subfunction);
    hide Inv, SecurityAnswers.Blocked;
  }

  lemma SeedOfLevel(w: SecurityRuns.World, subfn: u7)
    requires subfn % 2 == 1
    ensures var r, k := Security.RequestSeed(w.sec, w.now, subfn, 8), subfn / 2;
            && (r.nrc == 0x12 <==> subfn > 32)
            && (r.nrc == 0x37 <==> subfn <= 32 && SecurityAnswers.Blocked(w.sec, w.now))
            && (r.nrc == 0x00 <==> subfn <= 32 && !SecurityAnswers.Blocked(w.sec, w.now))
            && (r.nrc == 0x00 ==>
                  r.seed == Some(if w.sec.levels[k].unlocked then [0, 0, 0, 0, 0, 0, 0, 0]
                                 else Security.SeedBytes(k + 1, 8)))
  {
    hide Security.RequestSeed, Security.SeedBytes, SecurityAnswers.Blocked, SecurityRuns.Step;
    var ask := SecurityRuns.AskSeed(subfn, 8);
    SecurityAnswers.SeedAnswer(w, ask);
    if subfn <= 32 && !SecurityAnswers.Blocked(w.sec, w.now) {
      if w.sec.levels[subfn / 2].unlocked {
        SecurityAnswers.SeedWithheld(w, subfn / 2, ask);
        assert Security.RequestSeed(w.sec, w.now, subfn, 8).seed.value == [0, 0, 0, 0, 0, 0, 0, 0];
      } else {
        SecurityAnswers.SeedGiven(w, subfn / 2, ask);
      }
    }
  }

  /** The key a request carries: its length is narrowed to 8 bits. */
  function KeyOf(r: Request): seq<u8> {
    r.data[..|r.data| % 256]
  }

  /** 27 with an even subfunction. */
  lemma KeyAnswer(e: EcuState, r: Request, functional: bool, verdict: Security.Verdict, foreign: Foreign)
    requires Inv(e) && r.sid == 0x27 && r.subfunction % 2 == 0
    ensures var h, k := Step(e, r, functional, verdict, foreign), r.subfunction / 2 - 1;
            && h.rsp == (if r.subfunction == 0 then Nrc(0x27, 0x12)
                         else if r.data == [] then Nrc(0x27, 0x13)
                         else if r.subfunction > 32 then Nrc(0x27, 0x12)
                         else if !e.sec.levels[k].seedSent then Nrc(0x27, 0x24)
                         else if SecurityAnswers.Blocked(e.sec, e.now) then Nrc(0x27, 0x37)
                         else if e.sec.levels[k].attempts >= 5 then Nrc(0x27, 0x36)
                         else if !verdict(k + 1, e.sec.levels[k].seed, KeyOf(r)) then Nrc(0x27, 0x35)
                         else if r.suppress then NO_RESPONSE
                         else Response(0x67, r.subfunction, []))
            && (h.rsp.sid != 0x7F ==> h.ecu.unlocked && h.effect == KeyAccepted(k))
            && (h.rsp.sid == 0x7F ==> h.ecu.unlocked == e.unlocked)
  {
    hide Route, Step, Sync, BuiltIn, Security.AnyUnlocked, Security.RequestSeed, Security.SendKey;
    RouteMeaning(e, r.sid);
    StepByRoute(e, r, functional, verdict, foreign);
    FlagFollows(e, Serve(r, functional, verdict, foreign));
    if r.subfunction != 0 && r.data != [] {
      KeyOfLevel(SecurityRuns.World(e.sec, e.now), r.subfunction, KeyOf(r), verdict);
    }
    hide Inv, SecurityAnswers.Blocked;
  }

  lemma KeyOfLevel(w: SecurityRuns.World, subfn: u7, key: seq<u8>, verdict: Security.Verdict)
    requires subfn % 2 == 0 && subfn > 0
    ensures var r, k := Security.SendKey(w.sec, w.now, subfn, key, verdict), subfn / 2 - 1;
            && Security.Index(subfn) == k
            && r.nrc == if subfn > 32 then 0x12
                        else if !w.sec.levels[k].seedSent then 0x24
                        else if SecurityAnswers.Blocked(w.sec, w.now) then 0x37
                        else if w.sec.levels[k].attempts >= 5 then 0x36
                        else if !verdict(k + 1, w.sec.levels[k].seed, key) then 0x35
                        else 0x00
  {
    hide Security.SendKey, SecurityAnswers.Blocked, SecurityRuns.Step;
    var try, k := SecurityRuns.TryKey(subfn, key, verdict), subfn / 2 - 1;
    SecurityAnswers.KeyRefused(w, try);
    if subfn <= 32 && w.sec.levels[k].seedSent && !SecurityAnswers.Blocked(w.sec, w.now) {
      SecurityAnswers.KeyDecided(w, k, try);
    }
  }

  /** The same over whole runs: after any requests since boot, what a key is answered follows from what was answered
      before: whether a seed is in force, when a key was last answered 0x36, and how many keys of the level were
      rejected in a row. */
  lemma KeyAnswerOverRuns(regionCapacity: nat, ins: seq<Input>, k: nat, r: Request, functional: bool,
                          verdict: Security.Verdict, foreign: Foreign)
    requires k < 16 && r.sid == 0x27 && r.subfunction == 2 * k + 2 && r.data != []
    ensures var e := Run(Boot(regionCapacity), ins);
            var h := SecurityRuns.Run(SecurityRuns.Start(0), k, SecurityTrace(Boot(regionCapacity), ins));
            Step(e, r, functional, verdict, foreign).rsp ==
              if h.account.armed.None? then Nrc(0x27, 0x24)
              else if h.trips > 0 && e.now < h.tripAt + 10000 then Nrc(0x27, 0x37)
              else if h.account.streak == 5 then Nrc(0x27, 0x36)
              else if !verdict(k + 1, e.sec.levels[k].seed, KeyOf(r)) then Nrc(0x27, 0x35)
              else if r.suppress then NO_RESPONSE
              else Response(0x67, 2 * k + 2, [])
  {
    hide Run, SecurityRuns.Run, SecurityTrace, Step, SecurityAnswers.Blocked, Inv, Boot, Security.SeedBytes;
    EndMirrored(regionCapacity, ins, k);
    AccountDescribes(k, SecurityTrace(Boot(regionCapacity), ins));
    KeyAnswer(Run(Boot(regionCapacity), ins), r, functional, verdict, foreign);
  }

  /** And a seed: withheld for 10 s after any 0x36, zeros once a key was accepted and as long as no session change
      was answered since, otherwise the seed of the level. */
  lemma SeedAnswerOverRuns(regionCapacity: nat, ins: seq<Input>, k: nat, r: Request, functional: bool,
                           verdict: Security.Verdict, foreign: Foreign)
    requires k < 16 && r.sid == 0x27 && r.subfunction == 2 * k + 1 && r.data == [] && !r.suppress
    ensures var e := Run(Boot(regionCapacity), ins);
            var h := SecurityRuns.Run(SecurityRuns.Start(0), k, SecurityTrace(Boot(regionCapacity), ins));
            Step(e, r, functional, verdict, foreign).rsp ==
              if h.trips > 0 && e.now < h.tripAt + 10000 then Nrc(0x27, 0x37)
              else Response(0x67, 2 * k + 1,
                            if h.account.open then [0, 0, 0, 0, 0, 0, 0, 0] else Security.SeedBytes(k + 1, 8))
  {
    hide Run, SecurityRuns.Run, SecurityTrace, Step, SecurityAnswers.Blocked, Inv, Boot, Security.SeedBytes;
    EndMirrored(regionCapacity, ins, k);
    AccountDescribes(k, SecurityTrace(Boot(regionCapacity), ins));
    SeedAnswer(Run(Boot(regionCapacity), ins), r, functional, verdict, foreign);
  }

  /** The account and the state it describes. */
  lemma AccountDescribes(k: nat, trace: seq<SecurityRuns.Event>)
    requires k < 16
    ensures var h := SecurityRuns.Run(SecurityRuns.Start(0), k, trace);
            var l := h.world.sec.levels[k];
            && (l.seedSent <==> h.account.armed.Some?) && (l.unlocked <==> h.account.open)
            && l.attempts == h.account.streak <= 5
            && (SecurityAnswers.Blocked(h.world.sec, h.world.now) <==>
                  h.trips > 0 && h.world.now < h.tripAt + 10000)
  {
    SecurityRuns.RunInv(k, 0, trace);
    hide SecurityRuns.Run;
    SecurityAnswers.BlockedIsDelay(SecurityRuns.Run(SecurityRuns.Start(0), k, trace), k, 0);
  }

  lemma EndMirrored(regionCapacity: nat, ins: seq<Input>, level: nat)
    ensures var e := Run(Boot(regionCapacity), ins);
            && Inv(e)
            && SecurityRuns.Run(SecurityRuns.Start(0), level, SecurityTrace(Boot(regionCapacity), ins)).world
               == SecurityRuns.World(e.sec, e.now)
  {
    BootInv(regionCapacity);
    var s := Seen(Boot(regionCapacity), 0, 0, false);
    RunMirrored(s, SecurityRuns.Start(0), level, ins);
    WatchRuns(s, level, ins);
    hide Inv, Run, Watch, SecurityTrace;
  }

  lemma {:induction false} WatchRuns(s: Seen, level: nat, ins: seq<Input>)
    ensures Watch(s, level, ins).ecu == Run(s.ecu, ins)
    decreases |ins|
  {
    hide Look, Advance;
    if ins != [] {
      LookIsAdvance(s, level, ins[0]);
      WatchRuns(Look(s, level, ins[0]), level, ins[1..]);
    }
  }

  // ---------------------------------------------------------------------------------------------
  // Transfers
  // ---------------------------------------------------------------------------------------------

  /** Four bytes from at on, high byte first. */
  function Number(data: seq<u8>, at: nat): int
    requires at + 4 <= |data|
  {
    ((data[at] as int * 256 + data[at + 1]) * 256 + data[at + 2]) * 256 + data[at + 3]
  }

  lemma NumberIsWord(data: seq<u8>, at: nat)
    requires at + 4 <= |data|
    ensures Number(data, at) == Word(data[at..at + 4])
  {
    assert data[at..at + 4] == [data[at], data[at + 1], data[at + 2], data[at + 3]];
    WordOfFour(data[at], data[at + 1], data[at + 2], data[at + 3]);
    hide Word;
  }

  predicate Within(region: Transfer.Region, x: int) {
    region.start <= x <= region.end
  }

  predicate HasAll(region: Transfer.Region, address: int, size: int) {
    forall x: int :: address <= x < address + size ==> Within(region, x)
  }

  /** Some region has all of the size addresses from address on, and there are any. */
  predicate InOneRegion(regions: seq<Transfer.Region>, address: int, size: int) {
    size > 0 && exists i :: 0 <= i < |regions| && HasAll(regions[i], address, size)
  }

  lemma InOneRegionIff(regions: seq<Transfer.Region>, address: int, size: int)
    ensures Transfer.WithinRegion(regions, address, size) <==> InOneRegion(regions, address, size)
    ensures InOneRegion(regions, address, size) ==> size > 0
  {
    hide HasAll;
    if size > 0 {
      forall i | 0 <= i < |regions|
        ensures AddressRange.Inside(regions[i].start, regions[i].end, address, size) <==>
                HasAll(regions[i], address, size)
      {
        InsideIsEvery(regions[i], address, size);
      }
    }
  }

  lemma InsideIsEvery(region: Transfer.Region, address: int, size: int)
    requires size > 0
    ensures AddressRange.Inside(region.start, region.end, address, size) <==> HasAll(region, address, size)
  {
    assert AddressRange.Inside(region.start, region.end, address, size) <==>
           Within(region, address) && Within(region, address + size - 1);
  }

  /** 34 and 35: a transfer opens exactly in the programming session, on an unlocked ECU, for 1 to 1024 bytes that all
      lie in one region, while no other transfer is open; the answer announces blocks of 256 bytes. */
  lemma OpenAnswer(e: EcuState, r: Request, functional: bool, verdict: Security.Verdict, foreign: Foreign)
    requires Inv(e) && r.sid in {0x34, 0x35}
    ensures var h, l := Step(e, r, functional, verdict, foreign), |r.data|;
            && h.rsp == (if e.session.current != 2 then Nrc(r.sid, 0x7F)
                         else if !e.unlocked then Nrc(r.sid, 0x33)
                         else if l < 8 then Nrc(r.sid, 0x13)
                         else if Number(r.data, 4) > 1024 then Nrc(r.sid, 0x70)
                         else if !InOneRegion(e.xfer.regions, Number(r.data, 0), Number(r.data, 4)) then
                           Nrc(r.sid, 0x31)
                         else if e.xfer.xfer.active then Nrc(r.sid, 0x70)
                         else Response(r.sid + 0x40, 0, [0x01, 0x00]))
            && (h.rsp.sid == 0x7F ==> h.ecu == e)
            && (h.rsp.sid != 0x7F ==>
                  h.ecu == e.(xfer := e.xfer.(xfer := Transfer.Xfer(true,
                                                        if r.sid == 0x34 then Transfer.Download else Transfer.Upload,
                                                        Number(r.data, 0), Number(r.data, 4), 256, 0, []))))
  {
    hide Route, Step, Sync, BuiltIn, Security.AnyUnlocked, Word, Number, InOneRegion, Transfer.RangeValid,
      Transfer.WithinRegion;
    RefusedByDispatcherIff(e, r, functional, verdict, foreign);
    RouteMeaning(e, r.sid);
    StepByRoute(e, r, functional, verdict, foreign);
    if e.session.current == 2 {
      if |r.data| >= 8 {
        NumberIsWord(r.data, 0);
        NumberIsWord(r.data, 4);
        Transfer.RangeCheckExact(e.xfer.regions, Word(r.data[0..4]), Word(r.data[4..8]));
        InOneRegionIff(e.xfer.regions, Number(r.data, 0), Number(r.data, 4));
      }
      var d := HandleRequestTransfer(e, r, if r.sid == 0x34 then Transfer.Download else Transfer.Upload);
      SyncIdle(d.ecu, r.sid, d.rsp);
    }
  }

  /** Synchronising an ECU whose flag agrees with its levels changes nothing. */
  lemma SyncIdle(e: EcuState, sid: u8, rsp: Response)
    requires sid != 0x10 && e.unlocked == Security.AnyUnlocked(e.sec)
    ensures Sync(e, sid, rsp) == e
  {
    hide Security.AnyUnlocked;
  }

  /** 36, against a ledger of the transfer: the block must carry the number after the last one.  A download block must
      not be empty and is only confirmed; an upload block brings the next bytes of the supply, at most 256 and no more
      than are left, and is refused once there are none. */
  lemma BlockAnswer(e: EcuState, l: TransferRuns.Ledger, r: Request, functional: bool, verdict: Security.Verdict,
                    foreign: Foreign)
    requires Inv(e) && TransferRuns.Rel(e.xfer, l) && r.sid == 0x36
    ensures var h, bsc, n := Step(e, r, functional, verdict, foreign), Byte1(r), NextBlock(l);
            && h.rsp == (if e.session.current != 2 then Nrc(0x36, 0x7F)
                         else if l.dir == Transfer.Idle then Nrc(0x36, 0x22)
                         else if bsc != (l.matched + 1) % 256 then Nrc(0x36, 0x73)
                         else if l.dir == Transfer.Download then
                           if r.data == [] then Nrc(0x36, 0x13) else Response(0x76, bsc, [])
                         else if n == 0 then Nrc(0x36, 0x31)
                         else Response(0x76, bsc, l.data[l.taken..l.taken + n]))
            && (h.effect == BlockTaken <==> h.rsp.sid == 0x76)
  {
    hide Route, Step, Sync, BuiltIn, Security.AnyUnlocked, Transfer.TransferData, Transfer.Payload,
      TransferRuns.Rel, TransferRuns.Offer;
    RefusedByDispatcherIff(e, r, functional, verdict, foreign);
    RouteMeaning(e, r.sid);
    StepByRoute(e, r, functional, verdict, foreign);
    TransferRuns.StepRefines(e.xfer, l, TransferRuns.Block(Byte1(r), r.data));
    OfferIsNext(e.xfer, l);
    hide Inv;
  }

  /** Bytes of the next upload block. */
  function NextBlock(l: TransferRuns.Ledger): (n: nat)
    ensures l.dir == Transfer.Upload && l.taken <= |l.data| ==> l.taken + n <= |l.data|
  {
    if l.dir != Transfer.Upload || l.moved >= l.size || l.taken >= |l.data| then 0
    else Min(256, Min(l.size - l.moved, |l.data| - l.taken))
  }

  lemma OfferIsNext(s: Transfer.State, l: TransferRuns.Ledger)
    requires TransferRuns.Rel(s, l)
    ensures s.xfer.dir == l.dir
    ensures l.dir == Transfer.Upload ==> TransferRuns.Offer(l) == NextBlock(l) && l.taken + NextBlock(l) <= |l.data|
  {
  }

  /** 37. */
  lemma ExitAnswer(e: EcuState, r: Request, functional: bool, verdict: Security.Verdict, foreign: Foreign)
    requires Inv(e) && r.sid == 0x37
    ensures var h := Step(e, r, functional, verdict, foreign);
            && h.rsp == (if e.session.current != 2 then Nrc(0x37, 0x7F)
                         else if !e.xfer.xfer.active then Nrc(0x37, 0x22)
                         else if r.data != [] then Nrc(0x37, 0x13)
                         else Response(0x77, 0, []))
            && (h.rsp.sid == 0x7F ==> h.ecu == e)
            && (h.rsp.sid != 0x7F ==>
                  h.ecu == e.(xfer := e.xfer.(xfer := Transfer.Xfer(false, Transfer.Idle, 0, 0, e.xfer.xfer.maxBlock,
                                                                    0, []))))
  {
    hide Route, Step, Sync, BuiltIn, Security.AnyUnlocked;
    RefusedByDispatcherIff(e, r, functional, verdict, foreign);
    RouteMeaning(e, r.sid);
    StepByRoute(e, r, functional, verdict, foreign);
    if e.session.current == 2 {
      var d := Answered(e, r, Transfer.TransferExit(e.xfer, r.data), Positive(r.sid, 0, []), TransferClosed);
      SyncIdle(d.ecu, r.sid, d.rsp);
    }
  }

  // ---------------------------------------------------------------------------------------------
  // Uploaded bytes over runs
  // ---------------------------------------------------------------------------------------------

  /** What the tester has read: the data of all positive answers to 36, joined. */
  function ReadByTester(e: EcuState, ins: seq<Input>): seq<u8>
    decreases |ins|
  {
    if ins == [] then []
    else
      var p := Advance(e, ins[0]);
      (if p.rsp.sid == 0x76 && ins[0].Serve? && ins[0].r.sid == 0x36 then p.rsp.data else [])
        + ReadByTester(p.ecu, ins[1..])
  }

  /** Over every run the tester reads exactly the bytes the ledger hands out. */
  lemma {:induction false} TesterReadsTheLedger(e: EcuState, l: TransferRuns.Ledger, ins: seq<Input>)
    requires Inv(e) && TransferRuns.Rel(e.xfer, l)
    ensures ReadByTester(e, ins) == TransferRuns.RunLedger(l, TransferTrace(e, ins)).handed
    decreases |ins|
  {
    hide Inv, TransferRuns.Rel, Advance, TransferEvents, TransferRuns.Step, TransferRuns.Record, TransferRuns.Expected,
      TransferRuns.Due;
    if ins != [] {
      var i, e', es := ins[0], Advance(e, ins[0]).ecu, TransferEvents(e, ins[0]);
      var rest := TransferTrace(e', ins[1..]);
      AdvanceKeepsInv(e, i);
      InputIsTransferEvents(e, i);
      ReadFromOne(e, l, i);
      if es == [] {
        assert es + rest == rest;
        TesterReadsTheLedger(e', l, ins[1..]);
      } else {
        TransferRuns.StepRefines(e.xfer, l, es[0]);
        assert (es + rest)[0] == es[0] && (es + rest)[1..] == rest;
        TesterReadsTheLedger(e', TransferRuns.Record(l, es[0]), ins[1..]);
      }
    }
  }

  lemma ReadFromOne(e: EcuState, l: TransferRuns.Ledger, i: Input)
    requires Inv(e) && TransferRuns.Rel(e.xfer, l)
    ensures var p, es := Advance(e, i), TransferEvents(e, i);
            (if p.rsp.sid == 0x76 && i.Serve? && i.r.sid == 0x36 then p.rsp.data else [])
            == if es == [] then [] else TransferRuns.Due(l, es[0])
  {
    hide Step, Route, Inv, TransferRuns.Rel, TransferRuns.Offer, TransferRuns.Record, BuiltIn, Security.AnyUnlocked;
    if i.Serve? {
      RouteMeaning(e, i.r.sid);
      if i.r.sid == 0x36 {
        BlockAnswer(e, l, i.r, i.functional, i.verdict, i.foreign);
        OfferIsNext(e.xfer, l);
      }
    }
  }

  /** So while only blocks are requested, the tester reads the supply from where it stood, without gap or repetition. */
  lemma {:induction false} BlocksReadOn(l: TransferRuns.Ledger, es: seq<TransferRuns.Event>)
    requires l.dir == Transfer.Upload && l.taken <= |l.data| && l.moved <= l.size
    requires forall i :: 0 <= i < |es| ==> es[i].Block?
    ensures var t := TransferRuns.RunLedger(l, es);
            l.taken <= t.end.taken <= |l.data| && t.end.data == l.data && t.handed == l.data[l.taken..t.end.taken]
    decreases |es|
  {
    if es != [] {
      OneReadsOn(l, es[0]);
      hide TransferRuns.Expected, TransferRuns.Record, TransferRuns.Due, TransferRuns.Offer;
      var l' := TransferRuns.Record(l, es[0]);
      BlocksReadOn(l', es[1..]);
      TransferRuns.SlicesJoin(l.data, l.taken, l'.taken, TransferRuns.RunLedger(l', es[1..]).end.taken);
    }
  }

  lemma OneReadsOn(l: TransferRuns.Ledger, e: TransferRuns.Event)
    requires l.dir == Transfer.Upload && l.taken <= |l.data| && l.moved <= l.size && e.Block?
    ensures var l' := TransferRuns.Record(l, e);
            && l'.dir == Transfer.Upload && l.taken <= l'.taken <= |l.data| && l'.moved <= l'.size
            && l'.data == l.data && TransferRuns.Due(l, e) == l.data[l.taken..l'.taken]
  {
  }
}
