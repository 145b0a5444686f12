/** The service dispatch table: registration, lookup and session masks. */
module Services {
  import opened Bytes
  import opened Uds

  /** The handlers this model looks into; the others are told apart by their SID only. */
  datatype Handler = SessionControl | SecurityAccess | RequestDownload | RequestUpload | TransferData | TransferExit
                   | Other(sid: u8)

  datatype Service = Service(sid: u8, handler: Handler, mask: u8)

  const TABLE_MAX := 32
  const ALL: u8 := 7
  const NON_DEFAULT: u8 := 6
  const PROGRAMMING: u8 := 2

  /** The table as the list of registrations that succeeded, in slot order. */
  type Table = seq<Service>

  predicate Registered(t: Table, sid: u8) {
    exists i :: 0 <= i < |t| && t[i].sid == sid
  }

  predicate Distinct(t: Table) {
    forall i, j :: 0 <= i < j < |t| ==> t[i].sid != t[j].sid
  }

  function Lookup(t: Table, sid: u8): Option<Service> {
    if t == [] then None else if t[0].sid == sid then Some(t[0]) else Lookup(t[1..], sid)
  }

  lemma {:induction false} LookupFinds(t: Table, sid: u8)
    ensures Lookup(t, sid).Some? <==> Registered(t, sid)
    ensures forall i :: 0 <= i < |t| && Distinct(t) && t[i].sid == sid ==> Lookup(t, sid) == Some(t[i])
  {
    if t != [] {
      LookupFinds(t[1..], sid);
      if Registered(t, sid) && t[0].sid != sid {
        var i :| 0 <= i < |t| && t[i].sid == sid;
        assert t[1..][i - 1].sid == sid;
      }
      forall i | 0 <= i < |t| && Distinct(t) && t[i].sid == sid ensures Lookup(t, sid) == Some(t[i]) {
        if i > 0 {
          assert t[1..][i - 1] == t[i] && Distinct(t[1..]);
        }
      }
    }
  }

  /** Session bit (session - 1) of the mask; sessions outside 1..3 are rejected before. */
  predicate Allows(mask: u8, session: u8) {
    if session == DEFAULT_SESSION then mask % 2 == 1
    else if session == PROGRAMMING_SESSION then mask / 2 % 2 == 1
    else if session == EXTENDED_SESSION then mask / 4 % 2 == 1
    else false
  }

  const SERVICE_COUNT := 26

  /** The i-th registration of uds_service_init. */
  function ServiceAt(i: nat): Service
    requires i < SERVICE_COUNT
  {
    match i
    case 0 => Service(0x10, SessionControl, ALL)
    case 1 => Service(0x11, Other(0x11), ALL)
    case 2 => Service(0x27, SecurityAccess, ALL)
    case 3 => Service(0x28, Other(0x28), ALL)
    case 4 => Service(0x3E, Other(0x3E), ALL)
    case 5 => Service(0x85, Other(0x85), NON_DEFAULT)
    case 6 => Service(0x86, Other(0x86), NON_DEFAULT)
    case 7 => Service(0x87, Other(0x87), NON_DEFAULT)
    case 8 => Service(0x22, Other(0x22), ALL)
    case 9 => Service(0x23, Other(0x23), NON_DEFAULT)
    case 10 => Service(0x24, Other(0x24), ALL)
    case 11 => Service(0x2A, Other(0x2A), ALL)
    case 12 => Service(0x2C, Other(0x2C), NON_DEFAULT)
    case 13 => Service(0x2E, Other(0x2E), NON_DEFAULT)
    case 14 => Service(0x3D, Other(0x3D), NON_DEFAULT)
    case 15 => Service(0x14, Other(0x14), NON_DEFAULT)
    case 16 => Service(0x19, Other(0x19), ALL)
    case 17 => Service(0x2F, Other(0x2F), NON_DEFAULT)
    case 18 => Service(0x31, Other(0x31), ALL)
    case 19 => Service(0x34, RequestDownload, PROGRAMMING)
    case 20 => Service(0x35, RequestUpload, PROGRAMMING)
    case 21 => Service(0x36, TransferData, PROGRAMMING)
    case 22 => Service(0x37, TransferExit, PROGRAMMING)
    case 23 => Service(0x38, Other(0x38), PROGRAMMING)
    case 24 => Service(0x29, Other(0x29), NON_DEFAULT)
    case _ => Service(0x84, Other(0x84), ALL)
  }

  function BuiltIn(): (t: Table)
    ensures |t| == SERVICE_COUNT && forall i :: 0 <= i < SERVICE_COUNT ==> t[i] == ServiceAt(i)
  {
    seq(SERVICE_COUNT, i requires 0 <= i < SERVICE_COUNT => ServiceAt(i))
  }

  /** The registration of each SID; 26 for none. */
  function SlotOf(sid: u8): nat {
    if sid == 0x10 then 0 else if sid == 0x11 then 1 else if sid == 0x27 then 2 else if sid == 0x28 then 3
    else if sid == 0x3E then 4 else if sid == 0x85 then 5 else if sid == 0x86 then 6 else if sid == 0x87 then 7
    else if sid == 0x22 then 8 else if sid == 0x23 then 9 else if sid == 0x24 then 10 else if sid == 0x2A then 11
    else if sid == 0x2C then 12 else if sid == 0x2E then 13 else if sid == 0x3D then 14 else if sid == 0x14 then 15
    else if sid == 0x19 then 16 else if sid == 0x2F then 17 else if sid == 0x31 then 18 else if sid == 0x34 then 19
    else if sid == 0x35 then 20 else if sid == 0x36 then 21 else if sid == 0x37 then 22 else if sid == 0x38 then 23
    else if sid == 0x29 then 24 else if sid == 0x84 then 25 else 26
  }

  lemma SlotsInverse(i: nat, sid: u8)
    ensures i < SERVICE_COUNT ==> SlotOf(ServiceAt(i).sid) == i
    ensures SlotOf(sid) < SERVICE_COUNT ==> ServiceAt(SlotOf(sid)).sid == sid
  {
  }

  lemma ServicesDistinct()
    ensures Distinct(BuiltIn())
  {
    hide ServiceAt, SlotOf;
    forall i | 0 <= i < SERVICE_COUNT ensures SlotOf(ServiceAt(i).sid) == i {
      SlotsInverse(i, 0);
    }
  }

  lemma LookupBuiltIn(sid: u8)
    ensures Lookup(BuiltIn(), sid) == if SlotOf(sid) < SERVICE_COUNT then Some(ServiceAt(SlotOf(sid))) else None
  {
    hide ServiceAt, SlotOf, Lookup;
    var t := BuiltIn();
    ServicesDistinct();
    LookupFinds(t, sid);
    SlotsInverse(0, sid);
    if SlotOf(sid) < SERVICE_COUNT {
      assert t[SlotOf(sid)].sid == sid;
    }
    if Registered(t, sid) {
      var i :| 0 <= i < |t| && t[i].sid == sid;
      SlotsInverse(i, sid);
      assert Lookup(t, sid) == Some(t[i]);
    }
  }

  /** What the built-in table says about the modelled services: which handler a SID reaches, and that
      everything to do with a transfer is confined to the programming session. */
  lemma BuiltInServices(sid: u8, session: u8)
    ensures match Lookup(BuiltIn(), sid)
            case None => sid !in {0x10, 0x27, 0x34, 0x35, 0x36, 0x37}
            case Some(s) =>
              && s.sid == sid
              && (s.handler.SessionControl? <==> sid == DIAGNOSTIC_SESSION_CONTROL)
              && (s.handler.SecurityAccess? <==> sid == SECURITY_ACCESS)
              && (s.handler.RequestDownload? <==> sid == REQUEST_DOWNLOAD)
              && (s.handler.RequestUpload? <==> sid == REQUEST_UPLOAD)
              && (s.handler.TransferData? <==> sid == TRANSFER_DATA)
              && (s.handler.TransferExit? <==> sid == REQUEST_TRANSFER_EXIT)
              && (sid in {REQUEST_DOWNLOAD, REQUEST_UPLOAD, TRANSFER_DATA, REQUEST_TRANSFER_EXIT} ==>
                    (Allows(s.mask, session) <==> session == PROGRAMMING_SESSION))
              && (sid in {DIAGNOSTIC_SESSION_CONTROL, SECURITY_ACCESS} ==>
                    (Allows(s.mask, session) <==> DEFAULT_SESSION <= session <= EXTENDED_SESSION))
  {
    hide BuiltIn, Lookup;
    LookupBuiltIn(sid);
  }

  datatype Slot = Slot(sid: u8, handler: Handler, mask: u8, active: bool)

  class ServiceTable {
    const slots: array<Slot>
    ghost var used: nat

    /** Slots are taken from the front and never given back one by one. */
    ghost predicate Valid()
      reads this, slots
    {
      && slots.Length == TABLE_MAX && used <= TABLE_MAX
      && (forall i :: 0 <= i < used ==> slots[i].active)
      && (forall i :: used <= i < TABLE_MAX ==> !slots[i].active)
    }

    ghost function View(): Table
      reads this, slots
      requires Valid()
    {
      seq(used, i requires 0 <= i < used reads this, slots requires Valid() =>
                  Service(slots[i].sid, slots[i].handler, slots[i].mask))
    }

    /** uds_service_init: clear, then register every built-in service; every registration succeeds. */
    constructor ()
      ensures Valid() && fresh(slots) && View() == BuiltIn()
    {
      slots := new Slot[TABLE_MAX](_ => Slot(0, Other(0), 0, false));
      used := 0;
      new;
      ServicesDistinct();
      hide ServiceAt;
      for i := 0 to SERVICE_COUNT
        invariant Valid() && View() == BuiltIn()[..i] && fresh(slots)
      {
        assert !Registered(BuiltIn()[..i], BuiltIn()[i].sid);
        var s := ServiceAt(i);
        var ok := Register(s.sid, s.handler, s.mask);
      }
      assert BuiltIn()[..SERVICE_COUNT] == BuiltIn();
    }

    /** A registration succeeds exactly for a new SID while a slot is free. */
    method Register(sid: u8, handler: Handler, mask: u8) returns (ok: bool)
      requires Valid()
      modifies this`used, slots
      ensures Valid()
      ensures ok <==> !Registered(old(View()), sid) && |old(View())| < 32
      ensures View() == if ok then old(View()) + [Service(sid, handler, mask)] else old(View())
    {
      var found, slot := false, 0;
      for i := 0 to TABLE_MAX
        invariant forall j :: 0 <= j < i && j < used ==> View()[j].sid != sid
        invariant found <==> used < i
        invariant found ==> slot == used
      {
        if slots[i].active && slots[i].sid == sid {
          assert View()[i].sid == sid;
          return false;
        }
        if !found && !slots[i].active {
          slot, found := i, true;
        }
      }
      if !found {
        return false;
      }
      slots[slot] := Slot(sid, handler, mask, true);
      used := used + 1;
      return true;
    }

    /** find_entry_mut. */
    method Find(sid: u8) returns (s: Option<Service>)
      requires Valid()
      ensures s == Lookup(View(), sid)
    {
      LookupFinds(View(), sid);
      for i := 0 to TABLE_MAX
        invariant forall j :: 0 <= j < i && j < used ==> View()[j].sid != sid
      {
        if slots[i].active && slots[i].sid == sid {
          FirstHit(View(), sid, i);
          return Some(Service(sid, slots[i].handler, slots[i].mask));
        }
      }
      return None;
    }

    lemma {:induction false} FirstHit(t: Table, sid: u8, i: nat)
      requires i < |t| && t[i].sid == sid && forall j :: 0 <= j < i ==> t[j].sid != sid
      ensures Lookup(t, sid) == Some(t[i])
      decreases i
    {
      if i > 0 {
        FirstHit(t[1..], sid, i - 1);
      }
    }
  }
}
