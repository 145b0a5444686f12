/** The routine registry: sixteen slots with running flags, and the single lock they implement. */
module Routine {
  import opened Bytes
  import opened Uds

  const CAPACITY := 16
  const START: u8 := 1
  const STOP: u8 := 2
  const RESULTS: u8 := 3

  /** start, stop, results: which callbacks the routine has.  The session mask is stored and never read. */
  datatype Entry = Entry(id: u16, sessionMask: u8, secured: bool, start: bool, stop: bool, results: bool)

  datatype Slot = Slot(active: bool, entry: Entry, running: bool)

  const EMPTY_SLOT := Slot(false, Entry(0, 0, false, false, false, false), false)

  type Slots = seq<Slot>

  predicate Holds(r: Slot, id: u16) {
    r.active && r.entry.id == id
  }

  /** First active slot of this routine; |s| if there is none. */
  function IndexOf(s: Slots, id: u16): (i: nat)
    ensures i <= |s|
    ensures i < |s| ==> Holds(s[i], id)
    ensures forall j :: 0 <= j < i ==> !Holds(s[j], id)
    decreases |s|
  {
    if s == [] then 0
    else
      var i := IndexOf(s[..|s| - 1], id);
      if i < |s| - 1 then i else if Holds(s[|s| - 1], id) then |s| - 1 else |s|
  }

  function FirstFree(s: Slots): (i: nat)
    ensures i <= |s|
    ensures i < |s| ==> !s[i].active
    ensures forall j :: 0 <= j < i ==> s[j].active
    decreases |s|
  {
    if s == [] then 0
    else
      var i := FirstFree(s[..|s| - 1]);
      if i < |s| - 1 then i else if !s[|s| - 1].active then |s| - 1 else |s|
  }

  predicate OtherRunning(s: Slots, id: u16) {
    exists i :: 0 <= i < |s| && s[i].active && s[i].running && s[i].entry.id != id
  }

  // ---------------------------------------------------------------------------------------------
  // Slot operations
  // ---------------------------------------------------------------------------------------------

  datatype Registered = Registered(slots: Slots, ok: bool)

  /** uds_svc_routine_register. */
  function Register(s: Slots, e: Entry): Registered {
    if IndexOf(s, e.id) < |s| || FirstFree(s) == |s| then Registered(s, false)
    else Registered(s[FirstFree(s) := Slot(true, e, false)], true)
  }

  /** record is the routine status record of a positive answer. */
  datatype Reply<S> = Reply(state: S, nrc: u8, record: seq<u8>)

  function Refuse<S>(s: S, nrc: u8): Reply<S> {
    Reply(s, nrc, [])
  }

  function RoutineId(data: seq<u8>): u16
    requires |data| >= 2
  {
    (data[0] as int) * 256 + data[1]
  }

  /** 0x31; outcome is what the routine's callback answers if it is called, None for failure. */
  function Control(s: Slots, unlocked: bool, subfn: u8, data: seq<u8>, outcome: Option<seq<u8>>): Reply<Slots> {
    if !(START <= subfn <= RESULTS) then Refuse(s, NRC_SUB_FUNCTION_NOT_SUPPORTED)
    else if |data| < 2 then Refuse(s, NRC_INCORRECT_LENGTH)
    else
      var i := IndexOf(s, RoutineId(data));
      if i == |s| then Refuse(s, NRC_REQUEST_OUT_OF_RANGE)
      else if s[i].entry.secured && !unlocked then Refuse(s, NRC_SECURITY_ACCESS_DENIED)
      else Invoke(s, i, subfn, outcome)
  }

  function Invoke(s: Slots, i: nat, subfn: u8, outcome: Option<seq<u8>>): Reply<Slots>
    requires i < |s|
  {
    if subfn == START then Start(s, i, outcome)
    else if subfn == STOP then Stop(s, i, outcome)
    else Results(s, i, outcome)
  }

  function Start(s: Slots, i: nat, outcome: Option<seq<u8>>): Reply<Slots>
    requires i < |s|
  {
    if s[i].running || OtherRunning(s, s[i].entry.id) then Refuse(s, NRC_CONDITIONS_NOT_CORRECT)
    else if !s[i].entry.start then Refuse(s, NRC_SUB_FUNCTION_NOT_SUPPORTED)
    else if outcome == None then Refuse(s, NRC_GENERAL_PROGRAMMING_FAILURE)
    else Reply(s[i := s[i].(running := true)], NRC_POSITIVE, outcome.value)
  }

  function Stop(s: Slots, i: nat, outcome: Option<seq<u8>>): Reply<Slots>
    requires i < |s|
  {
    if !s[i].running then Refuse(s, NRC_CONDITIONS_NOT_CORRECT)
    else if !s[i].entry.stop then Refuse(s, NRC_SUB_FUNCTION_NOT_SUPPORTED)
    else if outcome == None then Refuse(s, NRC_GENERAL_PROGRAMMING_FAILURE)
    else Reply(s[i := s[i].(running := false)], NRC_POSITIVE, outcome.value)
  }

  function Results(s: Slots, i: nat, outcome: Option<seq<u8>>): Reply<Slots>
    requires i < |s|
  {
    if !s[i].entry.results then Refuse(s, NRC_SUB_FUNCTION_NOT_SUPPORTED)
    else if outcome == None then Refuse(s, NRC_GENERAL_PROGRAMMING_FAILURE)
    else Reply(s, NRC_POSITIVE, outcome.value)
  }

  // ---------------------------------------------------------------------------------------------
  // The lock
  // ---------------------------------------------------------------------------------------------

  /** Known routines, and the one that is running. */
  datatype Board = Board(routines: map<u16, Entry>, running: Option<u16>)

  function WithRunning(b: Board, running: Option<u16>): Board {
    Board(b.routines, running)
  }

  function BoardRegister(b: Board, e: Entry): Board {
    if e.id !in b.routines && |b.routines| < CAPACITY then b.(routines := b.routines[e.id := e]) else b
  }

  function BoardControl(b: Board, unlocked: bool, subfn: u8, data: seq<u8>, outcome: Option<seq<u8>>): Reply<Board> {
    if !(START <= subfn <= RESULTS) then Refuse(b, NRC_SUB_FUNCTION_NOT_SUPPORTED)
    else if |data| < 2 then Refuse(b, NRC_INCORRECT_LENGTH)
    else if RoutineId(data) !in b.routines then Refuse(b, NRC_REQUEST_OUT_OF_RANGE)
    else if b.routines[RoutineId(data)].secured && !unlocked then Refuse(b, NRC_SECURITY_ACCESS_DENIED)
    else BoardInvoke(b, RoutineId(data), subfn, outcome)
  }

  function BoardInvoke(b: Board, id: u16, subfn: u8, outcome: Option<seq<u8>>): Reply<Board>
    requires id in b.routines && START <= subfn <= RESULTS
  {
    var e := b.routines[id];
    if (subfn == START && b.running != None) || (subfn == STOP && b.running != Some(id)) then
      Refuse(b, NRC_CONDITIONS_NOT_CORRECT)
    else if !(if subfn == START then e.start else if subfn == STOP then e.stop else e.results) then
      Refuse(b, NRC_SUB_FUNCTION_NOT_SUPPORTED)
    else if outcome == None then Refuse(b, NRC_GENERAL_PROGRAMMING_FAILURE)
    else
      var running := if subfn == START then Some(id) else if subfn == STOP then None else b.running;
      Reply(WithRunning(b, running), NRC_POSITIVE, outcome.value)
  }

  // ---------------------------------------------------------------------------------------------
  // Representation
  // ---------------------------------------------------------------------------------------------

  predicate Distinct(s: Slots) {
    forall i, j :: 0 <= i < j < |s| && s[i].active && s[j].active ==> s[i].entry.id != s[j].entry.id
  }

  predicate SlotShows(r: Slot, b: Board) {
    r.active ==>
      && r.entry.id in b.routines && b.routines[r.entry.id] == r.entry
      && (r.running <==> b.running == Some(r.entry.id))
  }

  function FreeSlots(s: Slots): nat {
    if s == [] then 0 else FreeSlots(s[..|s| - 1]) + (if s[|s| - 1].active then 0 else 1)
  }

  ghost predicate Represents(s: Slots, b: Board) {
    && |s| == CAPACITY
    && Distinct(s)
    && (forall i :: 0 <= i < |s| ==> SlotShows(s[i], b))
    && (forall id :: id in b.routines ==> IndexOf(s, id) < |s|)
    && (b.running.Some? ==> b.running.value in b.routines)
    && |b.routines| + FreeSlots(s) == |s|
  }

  lemma {:induction false} FreeSlotsExact(s: Slots)
    ensures FreeSlots(s) == 0 <==> FirstFree(s) == |s|
    decreases |s|
  {
    if s != [] {
      FreeSlotsExact(s[..|s| - 1]);
    }
  }

  lemma {:induction false} FreeSlotsUpdated(s: Slots, i: nat, r: Slot)
    requires i < |s|
    ensures FreeSlots(s[i := r]) + (if s[i].active then 0 else 1) == FreeSlots(s) + (if r.active then 0 else 1)
    decreases |s|
  {
    var n := |s| - 1;
    if i < n {
      FreeSlotsUpdated(s[..n], i, r);
      assert s[i := r][..n] == s[..n][i := r];
    } else {
      assert s[i := r][..n] == s[..n];
    }
  }

  /** The slot of a known routine tells who holds the lock. */
  lemma SlotOfKnown(s: Slots, b: Board, id: u16)
    requires Represents(s, b)
    ensures id in b.routines <==> IndexOf(s, id) < |s|
    ensures id in b.routines ==> SlotShows(s[IndexOf(s, id)], b)
    ensures OtherRunning(s, id) <==> b.running.Some? && b.running.value != id
  {
    hide FreeSlots;
    if IndexOf(s, id) < |s| {
      assert SlotShows(s[IndexOf(s, id)], b);
    }
    if OtherRunning(s, id) {
      var i :| 0 <= i < |s| && s[i].active && s[i].running && s[i].entry.id != id;
      assert SlotShows(s[i], b);
    }
    if b.running.Some? {
      assert SlotShows(s[IndexOf(s, b.running.value)], b);
    }
  }

  lemma RegisterRefines(s: Slots, b: Board, e: Entry)
    requires Represents(s, b)
    ensures Represents(Register(s, e).slots, BoardRegister(b, e))
    ensures Register(s, e).ok <==> e.id !in b.routines && |b.routines| < 16
  {
    SlotOfKnown(s, b, e.id);
    FreeSlotsExact(s);
    RoomIff(s, b);
    hide Represents, IndexOf, FirstFree, FreeSlots;
    if Register(s, e).ok {
      PlaceRefines(s, b, FirstFree(s), e);
    }
  }

  lemma RoomIff(s: Slots, b: Board)
    requires Represents(s, b)
    ensures |s| == CAPACITY && (|b.routines| < CAPACITY <==> FreeSlots(s) > 0)
  {
  }

  /** A new routine in a free slot. */
  lemma PlaceRefines(s: Slots, b: Board, i: nat, e: Entry)
    requires Represents(s, b) && i < |s| && !s[i].active && e.id !in b.routines
    ensures Represents(s[i := Slot(true, e, false)], b.(routines := b.routines[e.id := e]))
  {
    PlaceDistinct(s, b, i, e);
    PlaceShows(s, b, i, e);
    PlaceFinds(s, b, i, e);
    PlaceCounts(s, b, i, e);
    hide Distinct, SlotShows, IndexOf, FreeSlots;
  }

  lemma PlaceDistinct(s: Slots, b: Board, i: nat, e: Entry)
    requires Represents(s, b) && i < |s| && !s[i].active && e.id !in b.routines
    ensures Distinct(s[i := Slot(true, e, false)])
  {
    hide IndexOf, FreeSlots;
    forall k | 0 <= k < |s| && s[k].active ensures s[k].entry.id != e.id {
      assert SlotShows(s[k], b);
    }
  }

  lemma PlaceShows(s: Slots, b: Board, i: nat, e: Entry)
    requires Represents(s, b) && i < |s| && !s[i].active && e.id !in b.routines
    ensures var t := s[i := Slot(true, e, false)];
            forall k :: 0 <= k < |t| ==> SlotShows(t[k], b.(routines := b.routines[e.id := e]))
  {
    hide IndexOf, FreeSlots, Distinct;
    var t, b' := s[i := Slot(true, e, false)], b.(routines := b.routines[e.id := e]);
    forall k | 0 <= k < |t| ensures SlotShows(t[k], b') {
      assert k != i ==> SlotShows(s[k], b);
    }
  }

  lemma PlaceFinds(s: Slots, b: Board, i: nat, e: Entry)
    requires Represents(s, b) && i < |s| && !s[i].active && e.id !in b.routines
    ensures var t := s[i := Slot(true, e, false)];
            forall id :: id in b.routines[e.id := e] ==> IndexOf(t, id) < |t|
  {
    hide IndexOf, FreeSlots, Distinct, SlotShows;
    var t := s[i := Slot(true, e, false)];
    forall id | id in b.routines[e.id := e] ensures IndexOf(t, id) < |t| {
      assert id != e.id ==> Holds(t[IndexOf(s, id)], id);
      assert Holds(t[i], e.id);
    }
  }

  lemma PlaceCounts(s: Slots, b: Board, i: nat, e: Entry)
    requires Represents(s, b) && i < |s| && !s[i].active && e.id !in b.routines
    ensures |b.routines[e.id := e]| + FreeSlots(s[i := Slot(true, e, false)]) == |s|
  {
    FreeSlotsUpdated(s, i, Slot(true, e, false));
  }

  /** Rewriting the running flag of one slot. */
  lemma FlagRefines(s: Slots, b: Board, i: nat, id: u16, on: bool)
    requires Represents(s, b) && i < |s| && Holds(s[i], id)
    requires if on then b.running == None else b.running == Some(id)
    ensures Represents(s[i := s[i].(running := on)], WithRunning(b, if on then Some(id) else None))
  {
    var r := s[i].(running := on);
    FreeSlotsUpdated(s, i, r);
    var t, b' := s[i := r], WithRunning(b, if on then Some(id) else None);
    assert Distinct(t);
    hide FreeSlots, IndexOf;
    assert SlotShows(s[i], b);
    forall k | 0 <= k < |t| ensures SlotShows(t[k], b') {
      assert SlotShows(s[k], b);
      assert k != i && s[k].active ==> s[k].entry.id != id;
    }
    forall id' | id' in b'.routines ensures IndexOf(t, id') < |t| {
      assert Holds(t[IndexOf(s, id')], id');
    }
  }

  ghost predicate Agree(r: Reply<Slots>, q: Reply<Board>) {
    Represents(r.state, q.state) && r.nrc == q.nrc && r.record == q.record
  }

  /** Slot i is the one of the known routine id, and its flags tell who holds the lock. */
  predicate Shown(s: Slots, b: Board, i: nat, id: u16)
    requires i < |s|
  {
    && Holds(s[i], id) && id in b.routines && s[i].entry == b.routines[id]
    && (s[i].running <==> b.running == Some(id))
    && (OtherRunning(s, id) <==> b.running.Some? && b.running.value != id)
  }

  lemma StartRefines(s: Slots, b: Board, i: nat, id: u16, outcome: Option<seq<u8>>)
    requires Represents(s, b) && i < |s| && Shown(s, b, i, id)
    ensures Agree(Start(s, i, outcome), BoardInvoke(b, id, START, outcome))
  {
    hide Represents, OtherRunning, WithRunning;
    if b.running == None {
      FlagRefines(s, b, i, id, true);
    }
  }

  lemma StopRefines(s: Slots, b: Board, i: nat, id: u16, outcome: Option<seq<u8>>)
    requires Represents(s, b) && i < |s| && Shown(s, b, i, id)
    ensures Agree(Stop(s, i, outcome), BoardInvoke(b, id, STOP, outcome))
  {
    hide Represents, OtherRunning, WithRunning;
    if b.running == Some(id) {
      FlagRefines(s, b, i, id, false);
    }
  }

  lemma ResultsRefine(s: Slots, b: Board, i: nat, id: u16, outcome: Option<seq<u8>>)
    requires Represents(s, b) && i < |s| && Shown(s, b, i, id)
    ensures Agree(Results(s, i, outcome), BoardInvoke(b, id, RESULTS, outcome))
  {
    hide Represents, OtherRunning;
    assert WithRunning(b, b.running) == b;
  }

  lemma InvokeRefines(s: Slots, b: Board, id: u16, subfn: u8, outcome: Option<seq<u8>>)
    requires Represents(s, b) && id in b.routines && START <= subfn <= RESULTS && IndexOf(s, id) < |s|
    ensures Agree(Invoke(s, IndexOf(s, id), subfn, outcome), BoardInvoke(b, id, subfn, outcome))
  {
    hide Represents, IndexOf, Start, Stop, Results, BoardInvoke, Agree, OtherRunning;
    SlotOfKnown(s, b, id);
    var i := IndexOf(s, id);
    assert Shown(s, b, i, id);
    if subfn == START {
      StartRefines(s, b, i, id, outcome);
    } else if subfn == STOP {
      StopRefines(s, b, i, id, outcome);
    } else {
      ResultsRefine(s, b, i, id, outcome);
    }
  }

  lemma ControlRefines(s: Slots, b: Board, unlocked: bool, subfn: u8, data: seq<u8>, outcome: Option<seq<u8>>)
    requires Represents(s, b)
    ensures Agree(Control(s, unlocked, subfn, data, outcome), BoardControl(b, unlocked, subfn, data, outcome))
  {
    if |data| >= 2 {
      var id := RoutineId(data);
      SlotOfKnown(s, b, id);
      hide Represents, IndexOf, OtherRunning, RoutineId, Invoke, BoardInvoke;
      if id in b.routines && START <= subfn <= RESULTS {
        InvokeRefines(s, b, id, subfn, outcome);
      }
    }
  }

  // ---------------------------------------------------------------------------------------------
  // Runs
  // ---------------------------------------------------------------------------------------------

  datatype Event = Add(entry: Entry) | Ask(unlocked: bool, subfn: u8, data: seq<u8>, outcome: Option<seq<u8>>)

  function Step(s: Slots, e: Event): Reply<Slots> {
    match e
    case Add(entry) => Reply(Register(s, entry).slots, NRC_POSITIVE, [])
    case Ask(unlocked, subfn, data, outcome) => Control(s, unlocked, subfn, data, outcome)
  }

  function BoardStep(b: Board, e: Event): Reply<Board> {
    match e
    case Add(entry) => Reply(BoardRegister(b, entry), NRC_POSITIVE, [])
    case Ask(unlocked, subfn, data, outcome) => BoardControl(b, unlocked, subfn, data, outcome)
  }

  /** The final state and all answers. */
  datatype Trace<S> = Trace(end: S, answers: seq<(u8, seq<u8>)>)

  function Run(s: Slots, es: seq<Event>): Trace<Slots>
    decreases |es|
  {
    if es == [] then Trace(s, [])
    else
      var r := Step(s, es[0]);
      var rest := Run(r.state, es[1..]);
      Trace(rest.end, [(r.nrc, r.record)] + rest.answers)
  }

  function BoardRun(b: Board, es: seq<Event>): Trace<Board>
    decreases |es|
  {
    if es == [] then Trace(b, [])
    else
      var r := BoardStep(b, es[0]);
      var rest := BoardRun(r.state, es[1..]);
      Trace(rest.end, [(r.nrc, r.record)] + rest.answers)
  }

  /** Over every run the sixteen running flags act as one lock: the registry answers everything as the board
      does, knows the same routines and never has two of them running. */
  lemma {:induction false} RegistryIsOneLock(s: Slots, b: Board, es: seq<Event>)
    requires Represents(s, b)
    ensures Run(s, es).answers == BoardRun(b, es).answers
    ensures Represents(Run(s, es).end, BoardRun(b, es).end)
    ensures forall i, j :: 0 <= i < j < |Run(s, es).end| ==> !(Busy(Run(s, es).end[i]) && Busy(Run(s, es).end[j]))
    decreases |es|
  {
    hide Represents, Register, Control, BoardRegister, BoardControl;
    if es == [] {
      OneRunning(s, b);
    } else {
      match es[0] {
        case Add(entry) => RegisterRefines(s, b, entry);
        case Ask(unlocked, subfn, data, outcome) => ControlRefines(s, b, unlocked, subfn, data, outcome);
      }
      RegistryIsOneLock(Step(s, es[0]).state, BoardStep(b, es[0]).state, es[1..]);
    }
  }

  predicate Busy(r: Slot) {
    r.active && r.running
  }

  lemma OneRunning(s: Slots, b: Board)
    requires Represents(s, b)
    ensures forall i, j :: 0 <= i < j < |s| ==> !(Busy(s[i]) && Busy(s[j]))
  {
    forall i, j | 0 <= i < j < |s| ensures !(Busy(s[i]) && Busy(s[j])) {
      assert SlotShows(s[i], b) && SlotShows(s[j], b);
    }
  }

  /** Accepted requests with this subfunction. */
  function Accepted(b: Board, es: seq<Event>, subfn: u8): nat
    decreases |es|
  {
    if es == [] then 0
    else
      var hit := es[0].Ask? && es[0].subfn == subfn && BoardStep(b, es[0]).nrc == NRC_POSITIVE;
      (if hit then 1 else 0) + Accepted(BoardStep(b, es[0]).state, es[1..], subfn)
  }

  function Held(b: Board): nat {
    if b.running.Some? then 1 else 0
  }

  /** Starts and stops balance: what was started and not stopped is running now. */
  lemma {:induction false} StartsBalanceStops(b: Board, es: seq<Event>)
    ensures Held(b) + Accepted(b, es, START) == Accepted(b, es, STOP) + Held(BoardRun(b, es).end)
    decreases |es|
  {
    if es != [] {
      StartsBalanceStops(BoardStep(b, es[0]).state, es[1..]);
    }
  }

  /** The running routine can never be stopped. */
  predicate Stuck(b: Board) {
    b.running.Some? && b.running.value in b.routines && !b.routines[b.running.value].stop
  }

  /** Once a routine without a stop callback runs, no routine starts any more. */
  lemma {:induction false} StuckForGood(b: Board, es: seq<Event>)
    requires Stuck(b)
    ensures BoardRun(b, es).end.running == b.running && Accepted(b, es, START) == 0
    decreases |es|
  {
    if es != [] {
      StuckForGood(BoardStep(b, es[0]).state, es[1..]);
    }
  }

  predicate Releases(b: Board, es: seq<Event>) {
    BoardRun(b, es).end.running == None
  }

  /** The lock can be released again exactly if it is not stuck. */
  lemma ReleaseIff(b: Board)
    requires b.running.Some? ==> b.running.value in b.routines
    ensures (exists es :: Releases(b, es)) <==> !Stuck(b)
  {
    if Stuck(b) {
      forall es ensures !Releases(b, es) {
        StuckForGood(b, es);
      }
    } else if b.running == None {
      assert Releases(b, []);
    } else {
      var id := b.running.value;
      var e := Ask(true, STOP, [id / 256, id % 256], Some([]));
      assert RoutineId(e.data) == id;
      var es := [e];
      assert es[0] == e && es[1..] == [];
      assert BoardRun(b, es).end == BoardRun(BoardStep(b, e).state, []).end == BoardStep(b, e).state;
      assert Releases(b, es);
    }
  }

  const ERASE_MEMORY := Entry(0xFF00, 0x02, true, true, false, false)
  const CHECK_INTEGRITY := Entry(0xFF01, 0x07, false, true, false, false)

  /** uds_svc_routine_init. */
  function InitSlots(): Slots {
    Register(Register(seq(CAPACITY, _ => EMPTY_SLOT), ERASE_MEMORY).slots, CHECK_INTEGRITY).slots
  }

  function InitBoard(): Board {
    Board(map[0xFF00 := ERASE_MEMORY, 0xFF01 := CHECK_INTEGRITY], None)
  }

  lemma {:induction false} AllFree(n: nat)
    ensures FreeSlots(seq(n, _ => EMPTY_SLOT)) == n
  {
    if n > 0 {
      AllFree(n - 1);
      assert seq(n, _ => EMPTY_SLOT)[..n - 1] == seq(n - 1, _ => EMPTY_SLOT);
    }
  }

  lemma InitRepresents()
    ensures Represents(InitSlots(), InitBoard())
  {
    var empty := seq(CAPACITY, _ => EMPTY_SLOT);
    AllFree(CAPACITY);
    var none := Board(map[], None);
    assert Represents(empty, none);
    RegisterRefines(empty, none, ERASE_MEMORY);
    var one := Register(empty, ERASE_MEMORY).slots;
    RegisterRefines(one, BoardRegister(none, ERASE_MEMORY), CHECK_INTEGRITY);
    assert BoardRegister(BoardRegister(none, ERASE_MEMORY), CHECK_INTEGRITY) == InitBoard();
  }

  predicate NoneStoppable(b: Board) {
    forall id :: id in b.routines ==> !b.routines[id].stop
  }

  /** The routines registered by default have no stop callback: with only those, at most one start is
      accepted between two initialisations. */
  lemma {:induction false} OneStartOnly(b: Board, es: seq<Event>)
    requires NoneStoppable(b) && forall e :: e in es ==> e.Ask?
    requires b.running.Some? ==> b.running.value in b.routines
    ensures Held(b) + Accepted(b, es, START) <= 1
    decreases |es|
  {
    if es != [] {
      assert es[0] in es;
      OneStartOnly(BoardStep(b, es[0]).state, es[1..]);
    }
  }

  lemma DefaultsStartOnce(es: seq<Event>)
    requires forall e :: e in es ==> e.Ask?
    ensures Accepted(InitBoard(), es, START) <= 1
  {
    OneStartOnly(InitBoard(), es);
  }

  // ---------------------------------------------------------------------------------------------
  // Answers in plain numbers
  // ---------------------------------------------------------------------------------------------

  /** A request is answered 0x12 for a subfunction other than 1, 2, 3; 0x13 without an identifier; 0x31 for an unknown
      routine; 0x33 for a secured one on a locked ECU; 0x22 for a start while any routine runs and for a stop of a
      routine that does not; 0x12 if the routine lacks the callback; 0x72 if that fails; else with its record. */
  lemma ControlAnswer(s: Slots, b: Board, unlocked: bool, subfn: u8, data: seq<u8>, outcome: Option<seq<u8>>)
    requires Represents(s, b)
    ensures Control(s, unlocked, subfn, data, outcome).nrc ==
            if subfn !in {1, 2, 3} then 0x12
            else if |data| < 2 then 0x13
            else
              var id := data[0] as int * 256 + data[1];
              if id !in b.routines then 0x31
              else if b.routines[id].secured && !unlocked then 0x33
              else if subfn == 1 && b.running != None then 0x22
              else if subfn == 2 && b.running != Some(id) then 0x22
              else if subfn == 1 && !b.routines[id].start then 0x12
              else if subfn == 2 && !b.routines[id].stop then 0x12
              else if subfn == 3 && !b.routines[id].results then 0x12
              else if outcome == None then 0x72
              else 0x00
  {
    hide Represents, Control, IndexOf, OtherRunning;
    ControlRefines(s, b, unlocked, subfn, data, outcome);
  }

  /** Only an accepted start and an accepted stop move the lock. */
  lemma ControlMoves(s: Slots, b: Board, unlocked: bool, subfn: u8, data: seq<u8>, outcome: Option<seq<u8>>)
    requires Represents(s, b)
    ensures var r := Control(s, unlocked, subfn, data, outcome);
            && (r.nrc == 0x00 && subfn == 1 ==>
                  |data| >= 2 && Represents(r.state, Board(b.routines, Some(data[0] as int * 256 + data[1]))))
            && (r.nrc == 0x00 && subfn == 2 ==> Represents(r.state, Board(b.routines, None)))
            && (r.nrc != 0x00 || subfn == 3 ==> Represents(r.state, b))
            && (r.nrc == 0x00 ==> Some(r.record) == outcome)
  {
    hide Represents, Control, IndexOf, OtherRunning;
    ControlRefines(s, b, unlocked, subfn, data, outcome);
    assert Board(b.routines, b.running) == b;
  }

  /** A routine once known stays as it was registered. */
  lemma {:induction false} KnownStays(b: Board, es: seq<Event>, id: u16)
    requires id in b.routines
    ensures var b' := BoardRun(b, es).end; id in b'.routines && b'.routines[id] == b.routines[id]
    decreases |es|
  {
    if es != [] {
      KnownStays(BoardStep(b, es[0]).state, es[1..], id);
    }
  }

  /** After any registrations and requests since initialisation, eraseMemory (FF00) is refused with 0x33 on a locked
      ECU, whatever is asked of it; checkProgrammingIntegrity (FF01) is not, and starts whenever no routine runs. */
  lemma OnlyEraseIsSecured(es: seq<Event>, subfn: u8, rest: seq<u8>, outcome: Option<seq<u8>>)
    requires subfn in {1, 2, 3}
    ensures var s, b := Run(InitSlots(), es).end, BoardRun(InitBoard(), es).end;
            && Represents(s, b)
            && Control(s, false, subfn, [0xFF, 0x00] + rest, outcome).nrc == 0x33
            && Control(s, false, subfn, [0xFF, 0x01] + rest, outcome).nrc != 0x33
            && (outcome.Some? ==>
                  (Control(s, false, 1, [0xFF, 0x01] + rest, outcome).nrc == 0x00 <==> b.running == None))
  {
    hide Represents, Control, Run, BoardRun, InitSlots, InitBoard;
    var s, b := Run(InitSlots(), es).end, BoardRun(InitBoard(), es).end;
    InitRepresents();
    RegistryIsOneLock(InitSlots(), InitBoard(), es);
    DefaultsStay(es);
    ControlAnswer(s, b, false, subfn, [0xFF, 0x00] + rest, outcome);
    ControlAnswer(s, b, false, subfn, [0xFF, 0x01] + rest, outcome);
    ControlAnswer(s, b, false, 1, [0xFF, 0x01] + rest, outcome);
  }

  /** The two default routines, with their session masks, security and callbacks, are known after every run. */
  lemma DefaultsStay(es: seq<Event>)
    ensures var known := BoardRun(InitBoard(), es).end.routines;
            && 0xFF00 in known && known[0xFF00] == Entry(0xFF00, 2, true, true, false, false)
            && 0xFF01 in known && known[0xFF01] == Entry(0xFF01, 7, false, true, false, false)
  {
    KnownStays(InitBoard(), es, 0xFF00);
    KnownStays(InitBoard(), es, 0xFF01);
    hide BoardRun;
  }
}
