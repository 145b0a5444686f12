/** The ECU of sim/main_sim.c as objects: the contexts of its modules, updated in place by one step. */
module EcuModule {
  import opened Bytes
  import opened Uds
  import opened Services
  import opened Ecu
  import Security
  import SecurityModule
  import Session
  import Transfer
  import TransferModule

  class Simulator {
    const session: Session.Context
    const sec: SecurityModule.Module
    const xfer: TransferModule.Module
    const table: ServiceTable
    var unlocked: bool

    ghost predicate Valid()
      reads this, table, table.slots, sec, xfer
    {
      table.Valid() && sec.Valid() && xfer.Valid()
    }

    ghost function View(): EcuState
      reads this, session, sec, sec.levels, sec.hal, xfer, xfer.buffer, xfer.regions, table, table.slots
      requires Valid()
    {
      EcuState(session.View(), unlocked, sec.View(), xfer.View(), table.View(), sec.hal.now)
    }

    /** sim_init; max is UDS_MEM_REGION_MAX. */
    constructor (max: nat)
      ensures Valid() && View() == Boot(max)
      ensures sec.validate == SecurityModule.DefaultVerdict()
    {
      session := new Session.Context();
      var hal := new SecurityModule.HalTimer();
      sec := new SecurityModule.Module(hal);
      xfer := new TransferModule.Module(max);
      table := new ServiceTable();
      unlocked := false;
    }

    method SessionControl(r: Request) returns (rsp: Response, send: bool, ghost effect: Effect)
      requires Valid()
      modifies session
      ensures Valid() && Handled(View(), rsp, send, effect) == HandleSessionControl(old(View()), r)
    {
      effect := Nothing;
      if ContextFor(r.sid) != SessionContext {
        return Negative(r.sid, NRC_CONDITIONS_NOT_CORRECT), true, Nothing;
      }
      if |r.data| != 0 {
        return Negative(r.sid, NRC_INCORRECT_LENGTH), true, Nothing;
      }
      var nrc := session.Switch(r.subfunction);
      if nrc != NRC_POSITIVE {
        return Negative(r.sid, nrc), true, Nothing;
      }
      if r.suppress {
        return NO_RESPONSE, false, SessionSet(r.subfunction, false);
      }
      var p := session.params;
      rsp := Positive(r.sid, r.subfunction, [p.p2 / 256, p.p2 % 256, p.p2Star / 256, p.p2Star % 256]);
      return rsp, true, SessionSet(r.subfunction, true);
    }

    method SecurityAccess(r: Request) returns (rsp: Response, send: bool, ghost effect: Effect)
      requires Valid()
      modifies this`unlocked, sec`lfsr, sec`current, sec`seedPending, sec`delay, sec.levels, sec.hal`timer
      ensures Valid() && Handled(View(), rsp, send, effect) == HandleSecurityAccess(old(View()), r, sec.validate)
    {
      if r.subfunction == 0 {
        return Negative(r.sid, NRC_SUB_FUNCTION_NOT_SUPPORTED), true, Nothing;
      }
      if r.subfunction % 2 == 1 {
        rsp, send, effect := AskSeed(r);
      } else {
        rsp, send, effect := TryKey(r);
      }
    }

    method AskSeed(r: Request) returns (rsp: Response, send: bool, ghost effect: Effect)
      requires Valid()
      modifies sec`lfsr, sec`current, sec`seedPending, sec`delay, sec.levels
      ensures Valid() && Handled(View(), rsp, send, effect) == HandleSeed(old(View()), r)
    {
      hide Security.RequestSeed;
      if |r.data| != 0 {
        return Negative(r.sid, NRC_INCORRECT_LENGTH), true, Nothing;
      }
      var nrc, seed := sec.RequestSeed(r.subfunction, Security.SEED_SIZE);
      SeedOnlyIfPositive(old(View()).sec, View().now, r.subfunction, Security.SEED_SIZE);
      if nrc != NRC_POSITIVE {
        return Negative(r.sid, nrc), true, Nothing;
      }
      if r.suppress {
        return NO_RESPONSE, false, SeedIssued;
      }
      return Positive(r.sid, r.subfunction, seed.value), true, SeedIssued;
    }

    lemma SeedOnlyIfPositive(s: Security.State, now: nat, subfn: u8, len: u8)
      ensures Security.RequestSeed(s, now, subfn, len).seed.Some? <==>
              Security.RequestSeed(s, now, subfn, len).nrc == NRC_POSITIVE
    {
    }

    method TryKey(r: Request) returns (rsp: Response, send: bool, ghost effect: Effect)
      requires Valid()
      modifies this`unlocked, sec`seedPending, sec`delay, sec.levels, sec.hal`timer
      ensures Valid() && Handled(View(), rsp, send, effect) == HandleKey(old(View()), r, sec.validate)
    {
      hide Security.SendKey;
      if |r.data| == 0 {
        return Negative(r.sid, NRC_INCORRECT_LENGTH), true, Nothing;
      }
      ghost var consulted;
      var nrc;
      nrc, consulted := sec.SendKey(r.subfunction, r.data[..|r.data| % 256]);
      ghost var level := Security.Index(r.subfunction);
      if nrc != NRC_POSITIVE {
        return Negative(r.sid, nrc), true, if nrc == NRC_INVALID_KEY then KeyRejected(level) else Nothing;
      }
      if ContextFor(r.sid) == UnlockFlag {
        unlocked := true;
      }
      if r.suppress {
        return NO_RESPONSE, false, KeyAccepted(level);
      }
      return Positive(r.sid, r.subfunction, []), true, KeyAccepted(level);
    }

    method RequestTransfer(r: Request, dir: Transfer.Direction)
      returns (rsp: Response, send: bool, ghost effect: Effect)
      requires Valid()
      modifies xfer, xfer.buffer
      ensures Valid() && Handled(View(), rsp, send, effect) == HandleRequestTransfer(old(View()), r, dir)
    {
      hide Transfer.RequestTransfer;
      if ContextFor(r.sid) != SessionContext {
        return Negative(r.sid, NRC_CONDITIONS_NOT_CORRECT), true, Nothing;
      }
      var open := sec.IsUnlocked();
      var answer := xfer.RequestTransfer(dir, session.current, open, r.data);
      rsp, send, effect := Report(r, answer, Positive(r.sid, 0, [1, 0]), TransferOpened);
    }

    static method Report(r: Request, answer: Transfer.Answer, ok: Response, ghost done: Effect)
      returns (rsp: Response, send: bool, ghost effect: Effect)
      ensures send
      ensures answer.Accepted? ==> rsp == ok && effect == done
      ensures answer.Refused? ==> rsp == Negative(r.sid, answer.nrc) && effect == Nothing
    {
      match answer {
        case Refused(nrc) => return Negative(r.sid, nrc), true, Nothing;
        case Accepted => return ok, true, done;
      }
    }

    method Call(handler: Handler, r: Request, foreign: Foreign)
      returns (rsp: Response, send: bool, ghost effect: Effect)
      requires Valid()
      modifies this`unlocked, session, sec`lfsr, sec`current, sec`seedPending, sec`delay, sec.levels, sec.hal`timer
      modifies xfer, xfer.buffer
      ensures Valid() && Handled(View(), rsp, send, effect) == Handle(old(View()), handler, r, sec.validate, foreign)
    {
      hide HandleSessionControl, HandleSecurityAccess, HandleRequestTransfer, Transfer.TransferData,
        Transfer.TransferExit, Transfer.Payload;
      match handler {
        case SessionControl => rsp, send, effect := SessionControl(r);
        case SecurityAccess => rsp, send, effect := SecurityAccess(r);
        case RequestDownload => rsp, send, effect := RequestTransfer(r, Transfer.Download);
        case RequestUpload => rsp, send, effect := RequestTransfer(r, Transfer.Upload);
        case TransferData =>
          var answer, payload := xfer.TransferData(Byte1(r), r.data);
          rsp, send, effect := Report(r, answer, Positive(TRANSFER_DATA, Byte1(r), payload), BlockTaken);
        case TransferExit =>
          var answer := xfer.TransferExit(r.data);
          rsp, send, effect := Report(r, answer, Positive(REQUEST_TRANSFER_EXIT, 0, []), TransferClosed);
        case Other(_) =>
          rsp, send, effect := foreign.rsp, foreign.send, Nothing;
      }
    }

    method Dispatch(r: Request, functional: bool, foreign: Foreign)
      returns (rsp: Response, send: bool, ghost effect: Effect)
      requires Valid()
      modifies this`unlocked, session, sec`lfsr, sec`current, sec`seedPending, sec`delay, sec.levels, sec.hal`timer
      modifies xfer, xfer.buffer
      ensures Valid()
      ensures Handled(View(), rsp, send, effect) == Ecu.Dispatch(old(View()), r, functional, sec.validate, foreign)
    {
      hide Handle, Lookup;
      var entry := table.Find(r.sid);
      if entry == None {
        if functional {
          return NO_RESPONSE, false, Nothing;
        }
        return Negative(r.sid, NRC_SERVICE_NOT_SUPPORTED), true, Nothing;
      }
      if session.current == 0 || session.current > 3 {
        return Response(NEGATIVE_RESPONSE, 0, [NRC_SERVICE_NOT_IN_SESSION]), true, Nothing;
      }
      if !Allows(entry.value.mask, session.current) {
        return Negative(r.sid, NRC_SERVICE_NOT_IN_SESSION), true, Nothing;
      }
      rsp, send, effect := Call(entry.value.handler, r, foreign);
      if send && functional && rsp.sid == NEGATIVE_RESPONSE && |rsp.data| >= 1 {
        var nrc := rsp.data[|rsp.data| - 1];
        if nrc == NRC_SERVICE_NOT_SUPPORTED || nrc == NRC_SUB_FUNCTION_NOT_SUPPORTED
           || nrc == NRC_REQUEST_OUT_OF_RANGE {
          send := false;
        }
      }
    }

    /** sync_after_dispatch. */
    method Synchronise(sid: u8, rsp: Response)
      requires Valid()
      modifies this`unlocked, sec`seedPending, sec.levels
      ensures Valid() && View() == Sync(old(View()), sid, rsp)
    {
      hide Security.LockAll, Security.AnyUnlocked;
      if sid == DIAGNOSTIC_SESSION_CONTROL && rsp.sid == DIAGNOSTIC_SESSION_CONTROL_RSP {
        if session.securityLocked {
          sec.Lock();
          unlocked := false;
        }
      }
      unlocked := sec.IsUnlocked();
    }

    /** Dispatch one complete request, then synchronise. */
    method Step(r: Request, functional: bool, foreign: Foreign)
      returns (rsp: Response, send: bool, ghost effect: Effect)
      requires Valid()
      modifies this`unlocked, session, sec`lfsr, sec`current, sec`seedPending, sec`delay, sec.levels, sec.hal`timer
      modifies xfer, xfer.buffer
      ensures Valid()
      ensures Handled(View(), rsp, send, effect) == Ecu.Step(old(View()), r, functional, sec.validate, foreign)
    {
      hide Ecu.Dispatch, Sync;
      rsp, send, effect := Dispatch(r, functional, foreign);
      Synchronise(r.sid, rsp);
    }
  }
}
