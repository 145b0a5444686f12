/** One step of the whole ECU: dispatch a complete request through the service table to its handler, then
    synchronise the unlock flag and the security module. */
module Ecu {
  import opened Bytes
  import opened Uds
  import opened Session
  import opened Services
  import Security
  import Transfer

  datatype EcuState =
    EcuState(session: Session, unlocked: bool, sec: Security.State, xfer: Transfer.State, table: Table, now: nat)

  /** What a step did to the modelled state, beside the response. */
  datatype Effect = Nothing | SeedIssued | KeyAccepted(level: nat) | KeyRejected(level: nat)
                  | SessionSet(session: u8, answered: bool) | TransferOpened | BlockTaken | TransferClosed

  datatype Handled = Handled(ecu: EcuState, rsp: Response, send: bool, effect: Effect)

  /** What a handler outside this model answers; it touches none of the modelled state. */
  datatype Foreign = Foreign(rsp: Response, send: bool)

  datatype Context = SessionContext | UnlockFlag | StoredContext | NoContext

  /** get_dispatch_context. */
  function ContextFor(sid: u8): Context {
    if sid in {0x10, 0x34, 0x35, 0x38, 0x29} then SessionContext
    else if sid in {0x27, 0x22, 0x24, 0x2E, 0x3D, 0x2F, 0x31, 0x85} then UnlockFlag
    else if sid == 0x14 then StoredContext
    else NoContext
  }

  function Refuse(e: EcuState, r: Request, nrc: u8): Handled {
    Handled(e, Negative(r.sid, nrc), true, Nothing)
  }

  /** 0x10. */
  function HandleSessionControl(e: EcuState, r: Request): Handled {
    if ContextFor(r.sid) != SessionContext then Refuse(e, r, NRC_CONDITIONS_NOT_CORRECT)
    else if r.data != [] then Refuse(e, r, NRC_INCORRECT_LENGTH)
    else
      var s := SwitchTo(e.session, r.subfunction);
      if s == None then Refuse(e, r, NRC_SUB_FUNCTION_NOT_SUPPORTED)
      else
        var e' := e.(session := s.value);
        if r.suppress then Handled(e', NO_RESPONSE, false, SessionSet(r.subfunction, false))
        else
          var p := s.value.params;
          Handled(e', Positive(r.sid, r.subfunction, [p.p2 / 256, p.p2 % 256, p.p2Star / 256, p.p2Star % 256]), true,
                  SessionSet(r.subfunction, true))
  }

  /** 0x27, odd subfunctions. */
  function HandleSeed(e: EcuState, r: Request): Handled
  {
    if r.data != [] then Refuse(e, r, NRC_INCORRECT_LENGTH)
    else
      var s := Security.RequestSeed(e.sec, e.now, r.subfunction, Security.SEED_SIZE);
      var e' := e.(sec := s.state);
      if s.nrc != NRC_POSITIVE then Refuse(e', r, s.nrc)
      else if r.suppress then Handled(e', NO_RESPONSE, false, SeedIssued)
      else Handled(e', Positive(r.sid, r.subfunction, s.seed.value), true, SeedIssued)
  }

  /** 0x27, even subfunctions; the key length is passed on in 8 bits. */
  function HandleKey(e: EcuState, r: Request, verdict: Security.Verdict): Handled
  {
    if r.data == [] then Refuse(e, r, NRC_INCORRECT_LENGTH)
    else
      var k := Security.SendKey(e.sec, e.now, r.subfunction, r.data[..|r.data| % 256], verdict);
      var e' := e.(sec := k.state);
      var level := Security.Index(r.subfunction);
      if k.nrc != NRC_POSITIVE then
        Refuse(e', r, k.nrc).(effect := if k.nrc == NRC_INVALID_KEY then KeyRejected(level) else Nothing)
      else
        var e'' := if ContextFor(r.sid) == UnlockFlag then e'.(unlocked := true) else e';
        if r.suppress then Handled(e'', NO_RESPONSE, false, KeyAccepted(level))
        else Handled(e'', Positive(r.sid, r.subfunction, []), true, KeyAccepted(level))
  }

  function HandleSecurityAccess(e: EcuState, r: Request, verdict: Security.Verdict): Handled
  {
    if r.subfunction == 0 then Refuse(e, r, NRC_SUB_FUNCTION_NOT_SUPPORTED)
    else if r.subfunction % 2 == 1 then HandleSeed(e, r)
    else HandleKey(e, r, verdict)
  }

  function Answered(e: EcuState, r: Request, reply: Transfer.Reply, ok: Response, effect: Effect): Handled {
    match reply.answer
    case Refused(nrc) => Refuse(e.(xfer := reply.state), r, nrc)
    case Accepted => Handled(e.(xfer := reply.state), ok, true, effect)
  }

  /** 0x34 and 0x35; the response announces blocks of 256 bytes. */
  function HandleRequestTransfer(e: EcuState, r: Request, dir: Transfer.Direction): Handled
  {
    if ContextFor(r.sid) != SessionContext then Refuse(e, r, NRC_CONDITIONS_NOT_CORRECT)
    else
      var reply := Transfer.RequestTransfer(e.xfer, dir, e.session.current, Security.AnyUnlocked(e.sec), r.data);
      Answered(e, r, reply, Positive(r.sid, 0, [1, 0]), TransferOpened)
  }

  function Handle(e: EcuState, handler: Handler, r: Request, verdict: Security.Verdict, foreign: Foreign): Handled
  {
    match handler
    case SessionControl => HandleSessionControl(e, r)
    case SecurityAccess => HandleSecurityAccess(e, r, verdict)
    case RequestDownload => HandleRequestTransfer(e, r, Transfer.Download)
    case RequestUpload => HandleRequestTransfer(e, r, Transfer.Upload)
    case TransferData =>
      Answered(e, r, Transfer.TransferData(e.xfer, Byte1(r), r.data),
               Positive(TRANSFER_DATA, Byte1(r), Transfer.Payload(e.xfer, Byte1(r), r.data)), BlockTaken)
    case TransferExit =>
      Answered(e, r, Transfer.TransferExit(e.xfer, r.data), Positive(REQUEST_TRANSFER_EXIT, 0, []), TransferClosed)
    case Other(_) => Handled(e, foreign.rsp, foreign.send, Nothing)
  }

  /** Negative responses that are not sent to a functionally addressed request. */
  predicate Muted(rsp: Response) {
    && rsp.sid == NEGATIVE_RESPONSE && rsp.data != []
    && rsp.data[|rsp.data| - 1] in {NRC_SERVICE_NOT_SUPPORTED, NRC_SUB_FUNCTION_NOT_SUPPORTED, NRC_REQUEST_OUT_OF_RANGE}
  }

  /** uds_service_dispatch_ex. */
  function Dispatch(e: EcuState, r: Request, functional: bool, verdict: Security.Verdict, foreign: Foreign): Handled
  {
    match Lookup(e.table, r.sid)
    case None =>
      if functional then Handled(e, NO_RESPONSE, false, Nothing) else Refuse(e, r, NRC_SERVICE_NOT_SUPPORTED)
    case Some(service) =>
      if e.session.current == 0 || e.session.current > 3 then
        Handled(e, Response(NEGATIVE_RESPONSE, 0, [NRC_SERVICE_NOT_IN_SESSION]), true, Nothing)
      else if !Allows(service.mask, e.session.current) then Refuse(e, r, NRC_SERVICE_NOT_IN_SESSION)
      else
        var h := Handle(e, service.handler, r, verdict, foreign);
        h.(send := h.send && !(functional && Muted(h.rsp)))
  }

  /** sync_after_dispatch. */
  function Sync(e: EcuState, sid: u8, rsp: Response): EcuState
  {
    var relock :=
      sid == DIAGNOSTIC_SESSION_CONTROL && rsp.sid == DIAGNOSTIC_SESSION_CONTROL_RSP && e.session.securityLocked;
    var sec := if relock then Security.LockAll(e.sec) else e.sec;
    e.(sec := sec, unlocked := Security.AnyUnlocked(sec))
  }

  function Step(e: EcuState, r: Request, functional: bool, verdict: Security.Verdict, foreign: Foreign): (h: Handled)
  {
    var h := Dispatch(e, r, functional, verdict, foreign);
    h.(ecu := Sync(h.ecu, r.sid, h.rsp))
  }

  /** sim_init. */
  function Boot(regionCapacity: nat): EcuState {
    var xfer := Transfer.State(Transfer.NO_TRANSFER, [], regionCapacity);
    EcuState(InitSession(), false, Security.Init(), xfer, BuiltIn(), 0)
  }
}
