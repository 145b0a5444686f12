/** uds_svc_routine.c with its static registry, updated in place. */
module RoutineModule {
  import opened Bytes
  import opened Uds
  import opened Routine

  lemma IndexUnique(s: Slots, id: u16, i: nat)
    requires i < |s| && Holds(s[i], id) && forall j :: 0 <= j < i ==> !Holds(s[j], id)
    ensures IndexOf(s, id) == i
  {
  }

  lemma IndexNone(s: Slots, id: u16)
    requires forall j :: 0 <= j < |s| ==> !Holds(s[j], id)
    ensures IndexOf(s, id) == |s|
  {
  }

  lemma FreeUnique(s: Slots, i: nat)
    requires i <= |s| && (i < |s| ==> !s[i].active) && forall j :: 0 <= j < i ==> s[j].active
    ensures FirstFree(s) == i
  {
  }

  class Registry {
    const slots: array<Slot>

    /** uds_svc_routine_init. */
    constructor ()
      ensures fresh(slots) && slots[..] == InitSlots()
    {
      slots := new Slot[CAPACITY](_ => EMPTY_SLOT);
      new;
      hide Routine.Register;
      assert slots[..] == seq(CAPACITY, _ => EMPTY_SLOT);
      var ok := Register(ERASE_MEMORY);
      ok := Register(CHECK_INTEGRITY);
    }

    method Find(id: u16) returns (i: nat)
      ensures i == IndexOf(slots[..], id)
    {
      for k := 0 to slots.Length
        invariant forall j :: 0 <= j < k ==> !Holds(slots[j], id)
      {
        if slots[k].active && slots[k].entry.id == id {
          IndexUnique(slots[..], id, k);
          return k;
        }
      }
      IndexNone(slots[..], id);
      return slots.Length;
    }

    method Register(e: Entry) returns (ok: bool)
      modifies slots
      ensures Registered(slots[..], ok) == Routine.Register(old(slots[..]), e)
    {
      var known := Find(e.id);
      if known < slots.Length {
        return false;
      }
      for i := 0 to slots.Length
        invariant forall j :: 0 <= j < i ==> slots[j].active
        invariant slots[..] == old(slots[..])
      {
        if !slots[i].active {
          FreeUnique(slots[..], i);
          slots[i] := Slot(true, e, false);
          return true;
        }
      }
      FreeUnique(slots[..], slots.Length);
      return false;
    }

    /** is_any_other_running. */
    method AnyOtherRunning(id: u16) returns (other: bool)
      ensures other == OtherRunning(slots[..], id)
    {
      for i := 0 to slots.Length
        invariant forall j :: 0 <= j < i ==> !(slots[j].active && slots[j].running && slots[j].entry.id != id)
      {
        if slots[i].active && slots[i].running && slots[i].entry.id != id {
          assert slots[..][i] == slots[i];
          return true;
        }
      }
      return false;
    }

    /** 0x31; outcome is what the callback of the routine would answer. */
    method Control(unlocked: bool, subfn: u8, data: seq<u8>, outcome: Option<seq<u8>>)
      returns (nrc: u8, record: seq<u8>)
      modifies slots
      ensures Reply(slots[..], nrc, record) == Routine.Control(old(slots[..]), unlocked, subfn, data, outcome)
    {
      hide IndexOf, OtherRunning;
      if !(subfn == START || subfn == STOP || subfn == RESULTS) {
        return NRC_SUB_FUNCTION_NOT_SUPPORTED, [];
      }
      if |data| < 2 {
        return NRC_INCORRECT_LENGTH, [];
      }
      var i := Find(RoutineId(data));
      if i == slots.Length {
        return NRC_REQUEST_OUT_OF_RANGE, [];
      }
      if slots[i].entry.secured && !unlocked {
        return NRC_SECURITY_ACCESS_DENIED, [];
      }
      hide RoutineId;
      nrc, record := Invoke(i, subfn, outcome);
    }

    method Invoke(i: nat, subfn: u8, outcome: Option<seq<u8>>) returns (nrc: u8, record: seq<u8>)
      requires i < slots.Length && START <= subfn <= RESULTS
      modifies slots
      ensures Reply(slots[..], nrc, record) == Routine.Invoke(old(slots[..]), i, subfn, outcome)
    {
      hide OtherRunning;
      var supported := slots[i].entry.results;
      if subfn == START {
        if slots[i].running {
          return NRC_CONDITIONS_NOT_CORRECT, [];
        }
        var other := AnyOtherRunning(slots[i].entry.id);
        if other {
          return NRC_CONDITIONS_NOT_CORRECT, [];
        }
        supported := slots[i].entry.start;
      } else if subfn == STOP {
        if !slots[i].running {
          return NRC_CONDITIONS_NOT_CORRECT, [];
        }
        supported := slots[i].entry.stop;
      }
      if !supported {
        return NRC_SUB_FUNCTION_NOT_SUPPORTED, [];
      }
      if outcome == None {
        return NRC_GENERAL_PROGRAMMING_FAILURE, [];
      }
      if subfn == START {
        slots[i] := slots[i].(running := true);
      } else if subfn == STOP {
        slots[i] := slots[i].(running := false);
      }
      return NRC_POSITIVE, outcome.value;
    }
  }
}
