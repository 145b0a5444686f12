/** The DTC database: 32 slots searched linearly, and the finite map they implement. */
module Dtc {
  import opened Bytes

  const MAX := 32
  const ALL_GROUPS: u32 := 0xFF_FFFF

  /** A code of 0 marks an empty slot. */
  datatype Record = Record(dtc: u32, status: bv8, snapshot: seq<u8>, snapLen: nat, ext: seq<u8>, extLen: nat)

  const EMPTY := Record(0, 0, Zeros(8), 0, Zeros(8), 0)

  type Slots = seq<Record>

  /** No code occurs twice, lengths stay within the 8-byte fields, empty slots are all zero. */
  predicate Sound(s: Slots) {
    && (forall i, j :: 0 <= i < j < |s| && s[i].dtc == s[j].dtc ==> s[i].dtc == 0)
    && (forall i :: 0 <= i < |s| ==> SoundRecord(s[i]))
  }

  predicate SoundRecord(r: Record) {
    && |r.snapshot| == 8 && |r.ext| == 8 && r.snapLen <= 8 && r.extLen <= 8
    && (r.dtc == 0 ==> r.status == 0 && r.snapLen == 0 && r.extLen == 0)
  }

  // ---------------------------------------------------------------------------------------------
  // Slot operations
  // ---------------------------------------------------------------------------------------------

  /** First slot with this code; |s| if there is none. */
  function IndexOf(s: Slots, dtc: u32): (i: nat)
    ensures i <= |s|
    ensures i < |s| ==> s[i].dtc == dtc
    ensures forall j :: 0 <= j < i ==> s[j].dtc != dtc
    decreases |s|
  {
    if s == [] then 0
    else
      var i := IndexOf(s[..|s| - 1], dtc);
      if i < |s| - 1 then i else if s[|s| - 1].dtc == dtc then |s| - 1 else |s|
  }

  datatype Placed = Placed(slots: Slots, index: nat)

  /** find_or_create_dtc; index |s| means the database is full. */
  function FindOrCreate(s: Slots, dtc: u32): (p: Placed)
    ensures p.index <= |s| == |p.slots|
  {
    var i := IndexOf(s, dtc);
    if i < |s| then Placed(s, i)
    else
      var e := IndexOf(s, 0);
      if e < |s| then Placed(s[e := s[e].(dtc := dtc, status := 0, snapLen := 0, extLen := 0)], e) else Placed(s, |s|)
  }

  /** Status bits of mask set or cleared. */
  function WithBits(status: bv8, mask: bv8, on: bool): bv8 {
    if on then status | mask else status & !mask
  }

  function SetStatus(s: Slots, dtc: u32, mask: bv8, on: bool): (r: Slots)
    ensures |r| == |s|
  {
    if dtc == 0 then s
    else if on then
      var p := FindOrCreate(s, dtc);
      if p.index == |s| then s
      else p.slots[p.index := p.slots[p.index].(status := WithBits(p.slots[p.index].status, mask, true))]
    else
      var i := IndexOf(s, dtc);
      if i == |s| then s else s[i := s[i].(status := WithBits(s[i].status, mask, false))]
  }

  function GetStatus(s: Slots, dtc: u32): bv8 {
    var i := IndexOf(s, dtc);
    if i == |s| then 0 else s[i].status
  }

  predicate InGroup(dtc: u32, group: u32) {
    group == ALL_GROUPS || dtc / 0x10_0000 % 16 == group % 16
  }

  function Clear(s: Slots, group: u32): (r: Slots)
    ensures |r| == |s|
  {
    seq(|s|, i requires 0 <= i < |s| => if s[i].dtc != 0 && InGroup(s[i].dtc, group) then EMPTY else s[i])
  }

  datatype Stored = Stored(slots: Slots, ok: bool)

  function SetSnapshot(s: Slots, dtc: u32, data: seq<u8>): Stored
    requires Sound(s)
  {
    if dtc == 0 || data == [] || |data| > 8 then Stored(s, false)
    else
      var p := FindOrCreate(s, dtc);
      if p.index == |s| then Stored(s, false)
      else
        var r := p.slots[p.index];
        assert SoundRecord(s[p.index]);
        Stored(p.slots[p.index := r.(snapshot := data + r.snapshot[|data|..], snapLen := |data|)], true)
  }

  function SetExtended(s: Slots, dtc: u32, data: seq<u8>): Stored
    requires Sound(s)
  {
    if dtc == 0 || data == [] || |data| > 8 then Stored(s, false)
    else
      var p := FindOrCreate(s, dtc);
      if p.index == |s| then Stored(s, false)
      else
        var r := p.slots[p.index];
        assert SoundRecord(s[p.index]);
        Stored(p.slots[p.index := r.(ext := data + r.ext[|data|..], extLen := |data|)], true)
  }

  /** Some bit of x is set in a. */
  predicate Meets(a: bv8, x: bv8) {
    a & x != 0
  }

  predicate Hit(r: Record, mask: bv8) {
    r.dtc != 0 && Meets(r.status, mask)
  }

  /** Codes with a status bit of mask set, in slot order. */
  function Matching(s: Slots, mask: bv8): (ds: seq<u32>)
    ensures |ds| <= |s|
    decreases |s|
  {
    if s == [] then []
    else
      var r := s[|s| - 1];
      Matching(s[..|s| - 1], mask) + (if Hit(r, mask) then [r.dtc] else [])
  }

  // ---------------------------------------------------------------------------------------------
  // The map
  // ---------------------------------------------------------------------------------------------

  datatype Info = Info(status: bv8, snapshot: seq<u8>, ext: seq<u8>)

  function InfoOf(r: Record): Info
    requires SoundRecord(r)
  {
    Info(r.status, r.snapshot[..r.snapLen], r.ext[..r.extLen])
  }

  ghost function Codes(s: Slots): set<u32> {
    set i | 0 <= i < |s| && s[i].dtc != 0 :: s[i].dtc
  }

  ghost function Abs(s: Slots): map<u32, Info>
    requires Sound(s)
  {
    map d | d in Codes(s) :: InfoOf(s[IndexOf(s, d)])
  }

  lemma AbsAt(s: Slots, i: nat)
    requires Sound(s) && i < |s| && s[i].dtc != 0
    ensures IndexOf(s, s[i].dtc) == i
    ensures s[i].dtc in Abs(s) && Abs(s)[s[i].dtc] == InfoOf(s[i])
  {
    hide InfoOf, SoundRecord;
    assert s[i].dtc in Codes(s);
    var k := IndexOf(s, s[i].dtc);
    if k < i {
      assert false;
    }
  }

  lemma AbsHas(s: Slots, d: u32)
    requires Sound(s)
    ensures d in Abs(s) <==> d != 0 && IndexOf(s, d) < |s|
    ensures d in Abs(s) ==> Abs(s)[d] == InfoOf(s[IndexOf(s, d)])
  {
    var k := IndexOf(s, d);
    if d in Codes(s) {
      var i :| 0 <= i < |s| && s[i].dtc != 0 && s[i].dtc == d;
      AbsAt(s, i);
    }
    if d != 0 && k < |s| {
      AbsAt(s, k);
    }
  }

  /** The database is full exactly if no slot is empty. */
  lemma {:induction false} AbsSize(s: Slots)
    requires Sound(s)
    ensures |Codes(s)| <= |s|
    ensures |Codes(s)| == |s| <==> IndexOf(s, 0) == |s|
    decreases |s|
  {
    hide SoundRecord;
    if s != [] {
      var n := |s| - 1;
      AbsSize(s[..n]);
      CodesSnoc(s);
      hide Sound, Codes;
    } else {
      assert Codes(s) == {};
    }
  }

  lemma CodesSnoc(s: Slots)
    requires Sound(s) && s != []
    ensures var t, d := s[..|s| - 1], s[|s| - 1].dtc;
            && Sound(t)
            && (d == 0 ==> Codes(s) == Codes(t))
            && (d != 0 ==> d !in Codes(t) && Codes(s) == Codes(t) + {d})
  {
    hide SoundRecord, IndexOf;
    var t := s[..|s| - 1];
    assert forall i :: 0 <= i < |t| ==> s[i] == t[i];
    forall d | d in Codes(s) && d != s[|s| - 1].dtc ensures d in Codes(t) {
      var i :| 0 <= i < |s| && s[i].dtc != 0 && s[i].dtc == d;
      assert t[i].dtc == d;
    }
    forall d | d in Codes(t) ensures d in Codes(s) && d != s[|s| - 1].dtc {
      var i :| 0 <= i < |t| && t[i].dtc != 0 && t[i].dtc == d;
      assert s[i].dtc == d;
    }
  }

  lemma AbsKeys(s: Slots)
    requires Sound(s)
    ensures Abs(s).Keys == Codes(s) && |Abs(s)| == |Codes(s)|
  {
  }

  lemma SameMap(a: map<u32, Info>, b: map<u32, Info>)
    requires forall d :: d in a <==> d in b
    requires forall d :: d in a && d in b ==> a[d] == b[d]
    ensures a == b
  {
  }

  /** Writing a record for code r.dtc into slot i, which is its own or an empty one. */
  lemma PutRefines(s: Slots, i: nat, r: Record)
    requires Sound(s) && i < |s| && SoundRecord(r) && r.dtc != 0
    requires s[i].dtc == r.dtc || (s[i].dtc == 0 && r.dtc !in Abs(s))
    ensures Sound(s[i := r]) && Abs(s[i := r]) == Abs(s)[r.dtc := InfoOf(r)]
  {
    hide InfoOf, SoundRecord, IndexOf;
    var t := s[i := r];
    assert s[i].dtc == 0 ==> forall j :: 0 <= j < |s| ==> s[j].dtc != r.dtc by {
      forall j | 0 <= j < |s| && s[i].dtc == 0 ensures s[j].dtc != r.dtc {
        if s[j].dtc == r.dtc {
          AbsAt(s, j);
        }
      }
    }
    assert Sound(t);
    forall d ensures d in Abs(t) <==> d in Abs(s)[r.dtc := InfoOf(r)]
             ensures d in Abs(t) ==> Abs(t)[d] == Abs(s)[r.dtc := InfoOf(r)][d] {
      PutAt(s, i, r, d);
    }
    SameMap(Abs(t), Abs(s)[r.dtc := InfoOf(r)]);
  }

  lemma PutAt(s: Slots, i: nat, r: Record, d: u32)
    requires Sound(s) && i < |s| && SoundRecord(r) && r.dtc != 0
    requires s[i].dtc == r.dtc || (s[i].dtc == 0 && r.dtc !in Abs(s))
    requires Sound(s[i := r])
    ensures d in Abs(s[i := r]) <==> d == r.dtc || d in Abs(s)
    ensures d == r.dtc ==> Abs(s[i := r])[d] == InfoOf(r)
    ensures d != r.dtc && d in Abs(s) ==> Abs(s[i := r])[d] == Abs(s)[d]
  {
    hide InfoOf, SoundRecord, IndexOf;
    var t := s[i := r];
    AbsAt(t, i);
    if d in Codes(t) {
      var j :| 0 <= j < |t| && t[j].dtc != 0 && t[j].dtc == d;
      AbsAt(t, j);
      if j != i {
        AbsAt(s, j);
      }
    }
    if d in Codes(s) {
      var j :| 0 <= j < |s| && s[j].dtc != 0 && s[j].dtc == d;
      AbsAt(s, j);
      if j != i {
        AbsAt(t, j);
      }
    }
  }

  /** Find-or-create finds a known code, adds an unknown one with status 0 and no data while there is
      room, and fails exactly on an unknown code in a full database. */
  lemma FindOrCreateRefines(s: Slots, d: u32)
    requires Sound(s) && d != 0
    ensures var p := FindOrCreate(s, d);
            && Sound(p.slots)
            && (p.index == |s| <==> d !in Abs(s) && |Abs(s)| == |s|)
            && (p.index == |s| ==> p.slots == s)
            && (p.index < |s| ==>
                  && p.slots[p.index].dtc == d
                  && Abs(p.slots) == if d in Abs(s) then Abs(s) else Abs(s)[d := Info(0, [], [])])
  {
    AbsHas(s, d);
    AbsSize(s);
    AbsKeys(s);
    hide Abs, Codes;
    if IndexOf(s, d) == |s| && IndexOf(s, 0) < |s| {
      var e := IndexOf(s, 0);
      assert SoundRecord(s[e]);
      PutRefines(s, e, s[e].(dtc := d, status := 0, snapLen := 0, extLen := 0));
    }
  }

  predicate Storable(m: map<u32, Info>, capacity: nat, d: u32, data: seq<u8>) {
    d != 0 && 1 <= |data| <= 8 && (d in m || |m| < capacity)
  }

  function InfoFor(m: map<u32, Info>, d: u32): Info {
    if d in m then m[d] else Info(0, [], [])
  }

  /** What find-or-create hands out describes d, and replacing it updates the map at d alone. */
  lemma UpsertRefines(s: Slots, d: u32, r: Record)
    requires Sound(s) && d != 0 && r.dtc == d && SoundRecord(r) && FindOrCreate(s, d).index < |s|
    ensures var p := FindOrCreate(s, d);
            && SoundRecord(p.slots[p.index]) && InfoOf(p.slots[p.index]) == InfoFor(Abs(s), d)
            && Sound(p.slots[p.index := r]) && Abs(p.slots[p.index := r]) == Abs(s)[d := InfoOf(r)]
  {
    FindOrCreateRefines(s, d);
    var p := FindOrCreate(s, d);
    RecordSound(p.slots, p.index);
    hide Abs, Codes, FindOrCreate, Sound, SoundRecord, InfoOf, IndexOf;
    AbsAt(p.slots, p.index);
    PutRefines(p.slots, p.index, r);
    UpdateTwice(Abs(s), d, Info(0, [], []), InfoOf(r));
  }

  lemma UpdateTwice(m: map<u32, Info>, d: u32, a: Info, b: Info)
    ensures m[d := a][d := b] == m[d := b]
  {
  }

  lemma RecordSound(s: Slots, i: nat)
    requires Sound(s) && i < |s|
    ensures SoundRecord(s[i])
  {
  }

  function Added(status: bv8, mask: bv8): bv8 {
    status | mask
  }

  function Removed(status: bv8, mask: bv8): bv8 {
    status & !mask
  }

  function MapStatus(m: map<u32, Info>, capacity: nat, d: u32, mask: bv8, on: bool): map<u32, Info> {
    if d == 0 then m
    else if d in m then m[d := m[d].(status := if on then Added(m[d].status, mask) else Removed(m[d].status, mask))]
    else if on && |m| < capacity then m[d := Info(mask, [], [])]
    else m
  }

  lemma BitsOf(status: bv8, mask: bv8)
    ensures WithBits(status, mask, true) == Added(status, mask)
    ensures WithBits(status, mask, false) == Removed(status, mask)
  {
  }

  lemma SetOnZero(m: bv8)
    ensures WithBits(0, m, true) == m
  {
  }

  lemma SetStatusRefines(s: Slots, d: u32, mask: bv8, on: bool)
    requires Sound(s)
    ensures Sound(SetStatus(s, d, mask, on))
    ensures Abs(SetStatus(s, d, mask, on)) == MapStatus(Abs(s), |s|, d, mask, on)
  {
    hide Abs, Codes, Sound, FindOrCreate, SoundRecord, InfoOf, WithBits, Added, Removed;
    AbsHas(s, d);
    AbsAtMost(s);
    SetOnZero(mask);
    if d in Abs(s) {
      BitsOf(Abs(s)[d].status, mask);
    }
    if d != 0 && on {
      FindOrCreateRefines(s, d);
      var p := FindOrCreate(s, d);
      if p.index < |s| {
        RecordSound(p.slots, p.index);
        var r := p.slots[p.index].(status := WithBits(p.slots[p.index].status, mask, true));
        SameShape(p.slots[p.index], r);
        UpsertRefines(s, d, r);
      }
    } else if d in Abs(s) {
      var i := IndexOf(s, d);
      RecordSound(s, i);
      var r := s[i].(status := WithBits(s[i].status, mask, false));
      SameShape(s[i], r);
      PutRefines(s, i, r);
    }
  }

  /** Setting bits of a stored code adds them to its status and touches no other code. */
  lemma SettingAddsBits(s: Slots, d: u32, mask: bv8)
    requires Sound(s) && d in Abs(s)
    ensures Sound(SetStatus(s, d, mask, true))
    ensures Abs(SetStatus(s, d, mask, true)) == Abs(s)[d := Abs(s)[d].(status := Abs(s)[d].status | mask)]
  {
    hide Abs, SetStatus, Sound, IndexOf;
    SetStatusRefines(s, d, mask, true);
    AbsHas(s, d);
  }

  /** Clearing takes them away. */
  lemma ClearingTakesBits(s: Slots, d: u32, mask: bv8)
    requires Sound(s) && d in Abs(s)
    ensures Sound(SetStatus(s, d, mask, false))
    ensures Abs(SetStatus(s, d, mask, false)) == Abs(s)[d := Abs(s)[d].(status := Abs(s)[d].status & !mask)]
  {
    hide Abs, SetStatus, Sound, IndexOf;
    SetStatusRefines(s, d, mask, false);
    AbsHas(s, d);
  }

  /** An unknown code is stored with just the bits set, if there is room; clearing its bits does nothing, and code 0 is
      ignored. */
  lemma UnknownCodeStored(s: Slots, d: u32, mask: bv8)
    requires Sound(s) && d !in Abs(s)
    ensures Abs(SetStatus(s, d, mask, true)) ==
            if d != 0 && |Abs(s)| < |s| then Abs(s)[d := Info(mask, [], [])] else Abs(s)
    ensures Sound(SetStatus(s, d, mask, true)) && Sound(SetStatus(s, d, mask, false))
    ensures Abs(SetStatus(s, d, mask, false)) == Abs(s)
  {
    hide Abs, SetStatus, Sound, IndexOf;
    SetStatusRefines(s, d, mask, true);
    SetStatusRefines(s, d, mask, false);
  }

  lemma AbsAtMost(s: Slots)
    requires Sound(s)
    ensures |Abs(s)| <= |s|
  {
    AbsSize(s);
    AbsKeys(s);
  }

  /** A record of a real code may have any status. */
  lemma SameShape(r: Record, r': Record)
    requires SoundRecord(r) && r.dtc != 0 && r' == r.(status := r'.status)
    ensures SoundRecord(r') && InfoOf(r') == InfoOf(r).(status := r'.status) && InfoOf(r).status == r.status
  {
  }

  lemma GetStatusRefines(s: Slots, d: u32)
    requires Sound(s)
    ensures GetStatus(s, d) == if d in Abs(s) then Abs(s)[d].status else 0
  {
    AbsHas(s, d);
    if d == 0 && IndexOf(s, 0) < |s| {
      assert SoundRecord(s[IndexOf(s, 0)]);
    }
  }

  function MapWithout(m: map<u32, Info>, group: u32): map<u32, Info> {
    map d | d in m && !InGroup(d, group) :: m[d]
  }

  /** Clearing removes exactly the codes of the group; their slots become free for other codes. */
  lemma ClearRefines(s: Slots, group: u32)
    requires Sound(s)
    ensures Sound(Clear(s, group)) && Abs(Clear(s, group)) == MapWithout(Abs(s), group)
  {
    hide InfoOf, InGroup, IndexOf;
    var t := Clear(s, group);
    assert Sound(t) by {
      hide InfoOf, InGroup, IndexOf;
      forall i | 0 <= i < |t| ensures SoundRecord(t[i]) {
        assert SoundRecord(s[i]) && SoundRecord(EMPTY);
      }
    }
    forall d ensures d in Abs(t) <==> d in MapWithout(Abs(s), group)
             ensures d in Abs(t) ==> Abs(t)[d] == MapWithout(Abs(s), group)[d] {
      ClearAt(s, group, d);
    }
    SameMap(Abs(t), MapWithout(Abs(s), group));
  }

  lemma ClearAt(s: Slots, group: u32, d: u32)
    requires Sound(s) && Sound(Clear(s, group))
    ensures d in Abs(Clear(s, group)) <==> d in Abs(s) && !InGroup(d, group)
    ensures d in Abs(Clear(s, group)) ==> d in Abs(s) && Abs(Clear(s, group))[d] == Abs(s)[d]
  {
    hide InfoOf, InGroup, IndexOf, SoundRecord;
    var t := Clear(s, group);
    if d in Codes(t) {
      var j :| 0 <= j < |t| && t[j].dtc != 0 && t[j].dtc == d;
      AbsAt(t, j);
      AbsAt(s, j);
    }
    if d in Codes(s) && !InGroup(d, group) {
      var j :| 0 <= j < |s| && s[j].dtc != 0 && s[j].dtc == d;
      AbsAt(s, j);
      AbsAt(t, j);
    }
  }

  /** Clearing group FFFFFF removes every code; any other group removes the codes whose bits 23:20 are its bits 3:0.
      The others stay as they are. */
  lemma ClearedIff(s: Slots, group: u32, d: u32)
    requires Sound(s)
    ensures Sound(Clear(s, group))
    ensures var m, m' := Abs(s), Abs(Clear(s, group));
            && (d in m' <==> d in m && group != 0xFF_FFFF && d / 0x10_0000 % 16 != group % 16)
            && (d in m' ==> m'[d] == m[d])
  {
    ClearRefines(s, group);
    hide Abs, Clear, Sound;
  }

  /** What a 24-bit group of ClearDiagnosticInformation names: the codes that share its bits 23:20. */
  predicate Named(dtc: u32, group: u32) {
    group == ALL_GROUPS || dtc / 0x10_0000 % 16 == group / 0x10_0000 % 16
  }

  /** The database compares the low four bits of the group, where the service passes all 24.  So the service
      clears the group it was asked for exactly if the lowest and the highest digit of the group agree. */
  lemma ClearsNamedGroupIff(group: u32)
    requires group < 0x100_0000
    ensures (forall d: u32 :: InGroup(d, group) <==> Named(d, group))
            <==> group == ALL_GROUPS || group / 0x10_0000 == group % 16
  {
    if group != ALL_GROUPS && group / 0x10_0000 != group % 16 {
      var d: u32 := group % 16 * 0x10_0000;
      assert d / 0x10_0000 % 16 == group % 16;
      assert InGroup(d, group) && !Named(d, group);
    }
  }

  /** For example, asking for all chassis codes (0x200000) clears the powertrain codes instead. */
  lemma ChassisRequestClearsPowertrain(s: Slots)
    requires Sound(s)
    ensures Abs(Clear(s, 0x20_0000)) == map d | d in Abs(s) && d / 0x10_0000 % 16 != 0 :: Abs(s)[d]
  {
    ClearRefines(s, 0x20_0000);
  }

  lemma SetSnapshotRefines(s: Slots, d: u32, data: seq<u8>)
    requires Sound(s)
    ensures var r := SetSnapshot(s, d, data);
            && Sound(r.slots)
            && r.ok == Storable(Abs(s), |s|, d, data)
            && Abs(r.slots) == if r.ok then Abs(s)[d := InfoFor(Abs(s), d).(snapshot := data)] else Abs(s)
  {
    hide Abs, Sound, FindOrCreate;
    AbsAtMost(s);
    if d != 0 && 1 <= |data| <= 8 {
      FindOrCreateRefines(s, d);
      var p := FindOrCreate(s, d);
      if p.index < |s| {
        RecordSound(p.slots, p.index);
        var r := p.slots[p.index];
        var r' := r.(snapshot := data + r.snapshot[|data|..], snapLen := |data|);
        assert r'.snapshot[..|data|] == data;
        UpsertRefines(s, d, r');
      }
    }
  }

  lemma SetExtendedRefines(s: Slots, d: u32, data: seq<u8>)
    requires Sound(s)
    ensures var r := SetExtended(s, d, data);
            && Sound(r.slots)
            && r.ok == Storable(Abs(s), |s|, d, data)
            && Abs(r.slots) == if r.ok then Abs(s)[d := InfoFor(Abs(s), d).(ext := data)] else Abs(s)
  {
    hide Abs, Sound, FindOrCreate;
    AbsAtMost(s);
    if d != 0 && 1 <= |data| <= 8 {
      FindOrCreateRefines(s, d);
      var p := FindOrCreate(s, d);
      if p.index < |s| {
        RecordSound(p.slots, p.index);
        var r := p.slots[p.index];
        var r' := r.(ext := data + r.ext[|data|..], extLen := |data|);
        assert r'.ext[..|data|] == data;
        UpsertRefines(s, d, r');
      }
    }
  }

  /** When data of a code can be stored: 1 to 8 bytes, of a known code or while fewer codes than slots are known. */
  lemma StoredIff(s: Slots, d: u32, data: seq<u8>)
    requires Sound(s)
    ensures SetSnapshot(s, d, data).ok <==> d != 0 && 1 <= |data| <= 8 && (d in Abs(s) || |Abs(s)| < |s|)
    ensures SetExtended(s, d, data).ok <==> SetSnapshot(s, d, data).ok
  {
    SetSnapshotRefines(s, d, data);
    SetExtendedRefines(s, d, data);
    hide Abs, Sound, SetSnapshot, SetExtended;
  }

  // ---------------------------------------------------------------------------------------------
  // Runs
  // ---------------------------------------------------------------------------------------------

  datatype Op = Status(d: u32, mask: bv8, on: bool) | ClearGroup(group: u32)
              | Snapshot(d: u32, data: seq<u8>) | Extended(d: u32, data: seq<u8>)

  function Step(s: Slots, op: Op): Slots
    requires Sound(s)
  {
    match op
    case Status(d, mask, on) => SetStatus(s, d, mask, on)
    case ClearGroup(group) => Clear(s, group)
    case Snapshot(d, data) => SetSnapshot(s, d, data).slots
    case Extended(d, data) => SetExtended(s, d, data).slots
  }

  function MapStep(m: map<u32, Info>, capacity: nat, op: Op): map<u32, Info> {
    match op
    case Status(d, mask, on) => MapStatus(m, capacity, d, mask, on)
    case ClearGroup(group) => MapWithout(m, group)
    case Snapshot(d, data) => if Storable(m, capacity, d, data) then m[d := InfoFor(m, d).(snapshot := data)] else m
    case Extended(d, data) => if Storable(m, capacity, d, data) then m[d := InfoFor(m, d).(ext := data)] else m
  }

  lemma StepRefines(s: Slots, op: Op)
    requires Sound(s)
    ensures Sound(Step(s, op)) && |Step(s, op)| == |s| && Abs(Step(s, op)) == MapStep(Abs(s), |s|, op)
  {
    hide Abs, Sound, SetStatus, Clear, MapStatus, MapWithout, Storable, InfoFor;
    match op
    case Status(d, mask, on) => SetStatusRefines(s, d, mask, on);
    case ClearGroup(group) => ClearRefines(s, group);
    case Snapshot(d, data) => SetSnapshotRefines(s, d, data);
    case Extended(d, data) => SetExtendedRefines(s, d, data);
  }

  ghost function Run(s: Slots, ops: seq<Op>): (r: Slots)
    requires Sound(s)
    ensures Sound(r) && |r| == |s|
    decreases |ops|
  {
    if ops == [] then s
    else
      StepRefines(s, ops[0]);
      Run(Step(s, ops[0]), ops[1..])
  }

  function MapRun(m: map<u32, Info>, capacity: nat, ops: seq<Op>): map<u32, Info>
    decreases |ops|
  {
    if ops == [] then m else MapRun(MapStep(m, capacity, ops[0]), capacity, ops[1..])
  }

  /** Through every run the table is a finite map of at most 32 codes: no code is ever stored twice, slots
      freed by a clear are reused, and every operation does to the table what it does to the map. */
  lemma {:induction false} TableRefinesMap(s: Slots, ops: seq<Op>)
    requires Sound(s)
    ensures Sound(Run(s, ops)) && Abs(Run(s, ops)) == MapRun(Abs(s), |s|, ops) && |Abs(Run(s, ops))| <= |s|
    decreases |ops|
  {
    hide Abs, Sound, Step, MapStep;
    AbsAtMost(s);
    if ops != [] {
      StepRefines(s, ops[0]);
      TableRefinesMap(Step(s, ops[0]), ops[1..]);
    }
  }

  function InitSlots(): (s: Slots)
    ensures |s| == MAX && Sound(s)
  {
    seq(MAX, _ => EMPTY)
  }

  lemma InitIsEmptyMap()
    ensures Abs(InitSlots()) == map[]
  {
  }

  /** From initialisation on, the database is the finite map that the operations build from nothing. */
  lemma DatabaseIsMap(ops: seq<Op>)
    ensures var s := Run(InitSlots(), ops);
            Sound(s) && |s| == 32 && Abs(s) == MapRun(map[], 32, ops) && |Abs(s)| <= 32
  {
    hide Abs, Sound, Run;
    InitIsEmptyMap();
    TableRefinesMap(InitSlots(), ops);
  }

  // ---------------------------------------------------------------------------------------------
  // Status bits over runs
  // ---------------------------------------------------------------------------------------------

  predicate Bit(status: bv8, x: bv8) {
    status & x != 0
  }

  /** x has one bit. */
  predicate SingleBit(x: bv8) {
    x != 0 && x & (x - 1) == 0
  }

  /** Code d is stored with bit x in its status. */
  predicate BitSet(m: map<u32, Info>, d: u32, x: bv8) {
    d in m && Bit(m[d].status, x)
  }

  /** What an operation makes of that, if it was before: a status operation on the code writes the bits of its mask,
      and nothing remains of a code that is not stored. */
  function BitAfter(m: map<u32, Info>, capacity: nat, op: Op, d: u32, x: bv8, before: bool): bool {
    d in MapStep(m, capacity, op) && (if op.Status? && op.d == d && Bit(op.mask, x) then op.on else before)
  }

  function LastBit(m: map<u32, Info>, capacity: nat, ops: seq<Op>, d: u32, x: bv8, before: bool): bool
    decreases |ops|
  {
    if ops == [] then before
    else LastBit(MapStep(m, capacity, ops[0]), capacity, ops[1..], d, x, BitAfter(m, capacity, ops[0], d, x, before))
  }

  lemma WrittenBit(status: bv8, mask: bv8, on: bool, x: bv8)
    requires SingleBit(x)
    ensures Bit(WithBits(status, mask, on), x) == if Bit(mask, x) then on else Bit(status, x)
  {
    if on {
      OrBit(status, mask, x);
    } else {
      AndNotBit(status, mask, x);
    }
    hide SingleBit;
  }

  lemma OrBit(a: bv8, b: bv8, x: bv8)
    ensures Bit(a | b, x) <==> Bit(a, x) || Bit(b, x)
  {
  }

  lemma AndNotBit(a: bv8, b: bv8, x: bv8)
    requires SingleBit(x)
    ensures Bit(a & !b, x) <==> Bit(a, x) && !Bit(b, x)
  {
  }

  lemma ZeroBit(x: bv8)
    ensures !Bit(0, x)
  {
  }

  lemma BitStep(m: map<u32, Info>, capacity: nat, op: Op, d: u32, x: bv8)
    requires SingleBit(x) && 0 !in m
    ensures 0 !in MapStep(m, capacity, op)
    ensures BitSet(MapStep(m, capacity, op), d, x) == BitAfter(m, capacity, op, d, x, BitSet(m, d, x))
  {
    hide SingleBit, InGroup, Bit, WithBits, Added, Removed;
    ZeroBit(x);
    if op.Status? && op.d in m {
      BitsOf(m[op.d].status, op.mask);
      WrittenBit(m[op.d].status, op.mask, op.on, x);
    }
  }

  lemma {:induction false} BitsOfMap(m: map<u32, Info>, capacity: nat, ops: seq<Op>, d: u32, x: bv8)
    requires SingleBit(x) && 0 !in m
    ensures BitSet(MapRun(m, capacity, ops), d, x) == LastBit(m, capacity, ops, d, x, BitSet(m, d, x))
    decreases |ops|
  {
    hide SingleBit, BitSet, BitAfter, MapStep;
    if ops != [] {
      BitStep(m, capacity, ops[0], d, x);
      BitsOfMap(MapStep(m, capacity, ops[0]), capacity, ops[1..], d, x);
    }
  }

  /** From initialisation on, every status bit of every code is what was last written to it since the code was
      stored. */
  lemma BitsAreLastWritten(ops: seq<Op>, d: u32, x: bv8)
    requires SingleBit(x)
    ensures BitSet(Abs(Run(InitSlots(), ops)), d, x) == LastBit(map[], 32, ops, d, x, false)
  {
    DatabaseIsMap(ops);
    BitsOfMap(map[], 32, ops, d, x);
    hide Abs, Run, InitSlots, LastBit;
  }
}
