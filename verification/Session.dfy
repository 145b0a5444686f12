/** The diagnostic session state machine (Figure 7 of ISO 14229-1) and its in-place context. */
module Session {
  import opened Bytes
  import opened Uds

  datatype Params = Params(p2: u16, p2Star: u16)

  datatype Session = Session(current: u8, params: Params, eventsPaused: bool, securityLocked: bool)

  datatype TableRow = TableRow(session: u8, params: Params)

  const TABLE := [TableRow(DEFAULT_SESSION, Params(50, 5000)), TableRow(PROGRAMMING_SESSION, Params(5000, 5000)),
                  TableRow(EXTENDED_SESSION, Params(5000, 5000))]

  predicate Supported(session: u8) {
    DEFAULT_SESSION <= session <= EXTENDED_SESSION
  }

  function ParamsOf(session: u8): Params
    requires Supported(session)
  {
    TABLE[session - 1].params
  }

  function InitSession(): Session {
    Session(DEFAULT_SESSION, ParamsOf(DEFAULT_SESSION), false, true)
  }

  /** uds_session_switch; None is NRC 0x12. */
  function SwitchTo(s: Session, to: u8): Option<Session> {
    if !Supported(to) then None
    else if s.current == to then Some(s.(params := ParamsOf(to)))
    else if s.current == DEFAULT_SESSION then Some(s.(current := to, params := ParamsOf(to), eventsPaused := true))
    else if to == DEFAULT_SESSION then
      Some(s.(current := to, params := ParamsOf(to), eventsPaused := false, securityLocked := true))
    else Some(s.(current := to, params := ParamsOf(to), eventsPaused := true, securityLocked := true))
  }

  predicate SessionInv(s: Session) {
    && Supported(s.current) && s.params == ParamsOf(s.current)
    && s.securityLocked
    && (s.eventsPaused <==> s.current != DEFAULT_SESSION)
  }

  /** Every switch keeps the session supported, its timing parameters in step, events paused exactly
      outside the default session, and the lock flag set: the machine never clears it. */
  lemma SwitchKeepsInv(s: Session, to: u8)
    requires SessionInv(s)
    ensures SwitchTo(s, to).Some? <==> Supported(to)
    ensures Supported(to) ==> SessionInv(SwitchTo(s, to).value) && SwitchTo(s, to).value.current == to
  {
  }

  class Context {
    var current: u8
    var params: Params
    var eventsPaused: bool
    var securityLocked: bool

    function View(): Session
      reads this
    {
      Session(current, params, eventsPaused, securityLocked)
    }

    constructor ()
      ensures View() == InitSession()
    {
      current, params, eventsPaused, securityLocked := DEFAULT_SESSION, Params(50, 5000), false, true;
    }

    static method FindRow(session: u8) returns (row: Option<Params>)
      ensures row == if Supported(session) then Some(ParamsOf(session)) else None
    {
      for i := 0 to |TABLE|
        invariant forall j :: 0 <= j < i ==> TABLE[j].session != session
      {
        if TABLE[i].session == session {
          return Some(TABLE[i].params);
        }
      }
      assert TABLE[0].session == 1 && TABLE[1].session == 2 && TABLE[2].session == 3;
      return None;
    }

    method Switch(to: u8) returns (nrc: u8)
      modifies this
      ensures nrc == if Supported(to) then NRC_POSITIVE else NRC_SUB_FUNCTION_NOT_SUPPORTED
      ensures View() == if Supported(to) then SwitchTo(old(View()), to).value else old(View())
    {
      var row := FindRow(to);
      if row == None {
        return NRC_SUB_FUNCTION_NOT_SUPPORTED;
      }
      if current == to {
        params := row.value;
        return NRC_POSITIVE;
      }
      if current == DEFAULT_SESSION {
        eventsPaused := true;
      } else if to == DEFAULT_SESSION {
        eventsPaused, securityLocked := false, true;
      } else {
        eventsPaused, securityLocked := true, true;
      }
      current, params := to, row.value;
      return NRC_POSITIVE;
    }
  }
}
