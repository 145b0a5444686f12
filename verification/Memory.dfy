/** ReadMemoryByAddress and WriteMemoryByAddress over a table of regions, and the flat memory they implement. */
module Memory {
  import opened Bytes
  import opened Uds
  import opened AddressRange

  /** bytes is the buffer behind the region; it holds at least the region's addresses. */
  datatype Region = Region(start: u32, end: u32, bytes: seq<u8>)

  type Regions = seq<Region>

  function Size(r: Region): int {
    r.end - r.start + 1
  }

  /** What the C code relies on: a region is an interval and its buffer holds at least that many bytes.  Regions may
      overlap and may have any size. */
  predicate Backed(rs: Regions) {
    forall i :: 0 <= i < |rs| ==> rs[i].start <= rs[i].end && Size(rs[i]) <= |rs[i].bytes|
  }

  // ---------------------------------------------------------------------------------------------
  // addressAndLengthFormatIdentifier
  // ---------------------------------------------------------------------------------------------

  /** ab and sb: how many bytes address and size take. */
  datatype Access = Access(address: u32, size: u32, ab: nat, sb: nat)

  function ParseAccess(fmt: u8, data: seq<u8>): (a: Option<Access>)
    ensures a.Some? ==> 1 <= a.value.ab <= 4 && 1 <= a.value.sb <= 4
    ensures a.Some? ==> a.value.ab + a.value.sb <= |data| && a.value.size > 0
  {
    var ab, sb := fmt / 16 + 1, fmt % 16 + 1;
    if |data| < 2 || ab > 4 || sb > 4 || |data| < ab + sb then None
    else
      var size := Word(data[ab..ab + sb]);
      if size == 0 then None else Some(Access(Word(data[..ab]), size, ab, sb))
  }

  function Format(ab: nat, sb: nat): u8
    requires 1 <= ab <= 4 && 1 <= sb <= 4
  {
    (ab - 1) * 16 + (sb - 1)
  }

  lemma FormatParts(ab: nat, sb: nat)
    requires 1 <= ab <= 4 && 1 <= sb <= 4
    ensures Format(ab, sb) / 16 + 1 == ab && Format(ab, sb) % 16 + 1 == sb
  {
  }

  /** Any mix of 1 to 4 byte formats is decoded to the address and size that were encoded. */
  lemma AccessRoundTrip(address: u32, size: u32, ab: nat, sb: nat, rest: seq<u8>)
    requires 1 <= ab <= 4 && 1 <= sb <= 4 && address < Pow256(ab) && 0 < size < Pow256(sb)
    ensures ParseAccess(Format(ab, sb), ToBigEndian(address, ab) + ToBigEndian(size, sb) + rest)
            == Some(Access(address, size, ab, sb))
  {
    FormatParts(ab, sb);
    hide Format, ToBigEndian, BigEndian, Pow256;
    var a, s := ToBigEndian(address, ab), ToBigEndian(size, sb);
    var data := a + s + rest;
    assert data[..ab] == a && data[ab..ab + sb] == s;
    BigEndianRoundTrip(address, ab);
    BigEndianRoundTrip(size, sb);
  }

  /** The bytes an answer echoes are those the access was parsed from. */
  lemma EchoReparses(fmt: u8, data: seq<u8>, a: Access, rest: seq<u8>)
    requires ParseAccess(fmt, data) == Some(a)
    ensures ParseAccess(fmt, data[..a.ab + a.sb] + rest) == Some(a)
  {
    var echoed := data[..a.ab + a.sb] + rest;
    assert echoed[..a.ab] == data[..a.ab] && echoed[a.ab..a.ab + a.sb] == data[a.ab..a.ab + a.sb];
  }

  // ---------------------------------------------------------------------------------------------
  // Services
  // ---------------------------------------------------------------------------------------------

  /** find_memory_region: the first region that covers the range. */
  function Find(rs: Regions, address: u32, size: u32): (i: Option<nat>)
    requires size > 0
    ensures i.Some? ==> i.value < |rs| && Covers(rs[i.value].start, rs[i.value].end, address, size)
    ensures i.Some? ==> !Wraps(address, size)
    decreases |rs|
  {
    if rs == [] || Wraps(address, size) then None
    else
      var n := |rs| - 1;
      match Find(rs[..n], address, size)
      case Some(i) => Some(i)
      case None => if Covers(rs[n].start, rs[n].end, address, size) then Some(n) else None
  }

  /** Overrun: the service is about to copy past the end of its response buffer or of the request; what the C code
      does from there on is undefined. */
  datatype Answer = Refused(nrc: u8) | Done(body: seq<u8>) | Overrun

  datatype Reply = Reply(regions: Regions, answer: Answer)

  const RESPONSE_SIZE := 256

  /** Format byte, address bytes, size bytes: what both positive responses echo. */
  function Echo(fmt: u8, data: seq<u8>, a: Access): seq<u8>
    requires a.ab + a.sb <= |data|
  {
    [fmt] + data[..a.ab + a.sb]
  }

  /** The bytes an answer (extra 1) or a request (extra 0) takes: extra, address, size and data. */
  function Length(extra: nat, a: Access): nat {
    extra + a.ab + a.sb + a.size
  }

  /** The same as the handlers compute it, in 16 bits. */
  function Length16(extra: nat, a: Access): nat {
    (extra + a.ab + a.sb + a.size % 0x1_0000) % 0x1_0000
  }

  /** 0x23. */
  function Read(rs: Regions, fmt: u8, data: seq<u8>): Reply
    requires Backed(rs)
  {
    match ParseAccess(fmt, data)
    case None => Reply(rs, Refused(NRC_INCORRECT_LENGTH))
    case Some(a) =>
      match Find(rs, a.address, a.size)
      case None => Reply(rs, Refused(NRC_REQUEST_OUT_OF_RANGE))
      case Some(i) =>
        if Length16(1, a) > RESPONSE_SIZE then Reply(rs, Refused(NRC_RESPONSE_TOO_LONG))
        else if Length(1, a) > RESPONSE_SIZE then Reply(rs, Overrun)
        else
          GuardExact(rs[i].start, rs[i].end, a.address, a.size);
          var off := a.address - rs[i].start;
          Reply(rs, Done(Echo(fmt, data, a) + rs[i].bytes[off..off + a.size]))
  }

  /** 0x3D. */
  function Write(rs: Regions, unlocked: bool, fmt: u8, data: seq<u8>): Reply
    requires Backed(rs)
  {
    if !unlocked then Reply(rs, Refused(NRC_SECURITY_ACCESS_DENIED))
    else match ParseAccess(fmt, data)
      case None => Reply(rs, Refused(NRC_INCORRECT_LENGTH))
      case Some(a) =>
        if |data| < Length16(0, a) then Reply(rs, Refused(NRC_INCORRECT_LENGTH))
        else match Find(rs, a.address, a.size)
          case None => Reply(rs, Refused(NRC_REQUEST_OUT_OF_RANGE))
          case Some(i) =>
            if |data| < Length(0, a) then Reply(rs, Overrun)
            else
              GuardExact(rs[i].start, rs[i].end, a.address, a.size);
              var off, at := a.address - rs[i].start, a.ab + a.sb;
              Reply(rs[i := Patch(rs[i], off, data[at..at + a.size])], Done(Echo(fmt, data, a)))
  }

  function Patch(r: Region, off: nat, bytes: seq<u8>): (p: Region)
    requires off + |bytes| <= |r.bytes|
    ensures |p.bytes| == |r.bytes| && p.start == r.start && p.end == r.end
  {
    r.(bytes := r.bytes[..off] + bytes + r.bytes[off + |bytes|..])
  }

  // ---------------------------------------------------------------------------------------------
  // The 16-bit length guards
  // ---------------------------------------------------------------------------------------------

  /** The 16-bit length is the true one exactly below 65536. */
  lemma LengthExactIff(extra: nat, a: Access)
    ensures Length16(extra, a) == Length(extra, a) % 0x1_0000
    ensures Length16(extra, a) == Length(extra, a) <==> Length(extra, a) < 0x1_0000
  {
    var l := Length(extra, a);
    assert l == extra + a.ab + a.sb + a.size % 0x1_0000 + a.size / 0x1_0000 * 0x1_0000;
    AddPages(extra + a.ab + a.sb + a.size % 0x1_0000, a.size / 0x1_0000);
  }

  lemma AddPages(x: nat, k: nat)
    ensures (x + k * 0x1_0000) % 0x1_0000 == x % 0x1_0000
  {
  }

  /** For example, over one region of 65536 bytes from address 0, the read 23 33 00 00 00 00 00 01 00 00 asks for all of
      them in 4-byte formats.  Its answer looks 9 bytes long and overruns the 256-byte response buffer. */
  lemma GuardMissesLargeRead()
    ensures var rs := [Region(0, 0xFFFF, Zeros(0x1_0000))];
            var data: seq<u8> := [0, 0, 0, 0, 0, 1, 0, 0];
            var a := Access(0, 0x1_0000, 4, 4);
            && Backed(rs) && ParseAccess(0x33, data) == Some(a)
            && Length16(1, a) == 9 && Length(1, a) == 65545
            && Read(rs, 0x33, data).answer.Overrun?
  {
    var rs := [Region(0, 0xFFFF, Zeros(0x1_0000))];
    var data: seq<u8> := [0, 0, 0, 0, 0, 1, 0, 0];
    var a := Access(0, 0x1_0000, 4, 4);
    assert data[..4] == [0, 0, 0, 0] && data[4..8] == [0, 1, 0, 0];
    WordOfFour(0, 0, 0, 0);
    WordOfFour(0, 1, 0, 0);
    assert ParseAccess(0x33, data) == Some(a) by {
      hide Word;
    }
    assert Inside(rs[0].start, rs[0].end, 0, 0x1_0000);
    assert WithinOne(rs, 0, 0x1_0000);
    OverrunIff(rs, true, 0x33, data, a);
    hide Read, Write, Word, ParseAccess, WithinOne, Zeros;
  }

  /** Exactly which accesses the guards let through wrongly, for any regions: a read within one region whose answer
      is longer than 256 bytes but at most 256 modulo 65536; a write within one region whose request is shorter
      than announced but not shorter than that modulo 65536. */
  lemma OverrunIff(rs: Regions, unlocked: bool, fmt: u8, data: seq<u8>, a: Access)
    requires Backed(rs) && ParseAccess(fmt, data) == Some(a)
    ensures Read(rs, fmt, data).answer.Overrun? <==>
            WithinOne(rs, a.address, a.size) && Length(1, a) > RESPONSE_SIZE && Length(1, a) % 0x1_0000 <= RESPONSE_SIZE
    ensures Write(rs, unlocked, fmt, data).answer.Overrun? <==>
            unlocked && WithinOne(rs, a.address, a.size) && Length(0, a) % 0x1_0000 <= |data| < Length(0, a)
  {
    FindExact(rs, a.address, a.size);
    LengthExactIff(0, a);
    LengthExactIff(1, a);
    hide ParseAccess, Find, Length16, WithinOne, Patch;
  }

  ghost predicate ReadOverruns(rs: Regions, fmt: u8, data: seq<u8>)
    requires Backed(rs)
  {
    Read(rs, fmt, data).answer.Overrun?
  }

  ghost predicate WriteOverruns(rs: Regions, fmt: u8, data: seq<u8>)
    requires Backed(rs)
  {
    Write(rs, true, fmt, data).answer.Overrun?
  }

  /** Some read request overruns the response buffer if and only if some region has more than 65526 bytes. */
  lemma ReadsOverrunIff(rs: Regions)
    requires Backed(rs)
    ensures (exists fmt, data :: ReadOverruns(rs, fmt, data)) <==> exists i :: 0 <= i < |rs| && Size(rs[i]) > 65526
  {
    if fmt, data :| ReadOverruns(rs, fmt, data) {
      ReadOverrunNeedsSpace(rs, fmt, data);
    }
    if i :| 0 <= i < |rs| && Size(rs[i]) > 65526 {
      var data := LargeAccess(rs, i, 65527);
      OverrunIff(rs, true, Format(4, 4), data, Access(rs[i].start, 65527, 4, 4));
      hide Read, Write, ParseAccess, Format, WithinOne;
      assert ReadOverruns(rs, Format(4, 4), data);
    }
  }

  lemma ReadOverrunNeedsSpace(rs: Regions, fmt: u8, data: seq<u8>)
    requires Backed(rs) && ReadOverruns(rs, fmt, data)
    ensures exists i :: 0 <= i < |rs| && Size(rs[i]) > 65526
  {
    var a := ParseAccess(fmt, data).value;
    OverrunIff(rs, true, fmt, data, a);
    ParseLimits(fmt, data);
    hide ParseAccess, Read, Write, ReadOverruns;
    var i :| 0 <= i < |rs| && Inside(rs[i].start, rs[i].end, a.address, a.size);
    assert Size(rs[i]) > 65526;
  }

  /** Some write request is read past its end if and only if some region has more than 65527 bytes. */
  lemma WritesOverrunIff(rs: Regions)
    requires Backed(rs)
    ensures (exists fmt, data :: WriteOverruns(rs, fmt, data)) <==> exists i :: 0 <= i < |rs| && Size(rs[i]) > 65527
  {
    if fmt, data :| WriteOverruns(rs, fmt, data) {
      WriteOverrunNeedsSpace(rs, fmt, data);
    }
    if i :| 0 <= i < |rs| && Size(rs[i]) > 65527 {
      var data := LargeAccess(rs, i, 65528);
      OverrunIff(rs, true, Format(4, 4), data, Access(rs[i].start, 65528, 4, 4));
      hide Read, Write, ParseAccess, Format, WithinOne;
      assert WriteOverruns(rs, Format(4, 4), data);
    }
  }

  lemma WriteOverrunNeedsSpace(rs: Regions, fmt: u8, data: seq<u8>)
    requires Backed(rs) && WriteOverruns(rs, fmt, data)
    ensures exists i :: 0 <= i < |rs| && Size(rs[i]) > 65527
  {
    var a := ParseAccess(fmt, data).value;
    OverrunIff(rs, true, fmt, data, a);
    ParseLimits(fmt, data);
    hide ParseAccess, Read, Write, WriteOverruns;
    var i :| 0 <= i < |rs| && Inside(rs[i].start, rs[i].end, a.address, a.size);
    assert Size(rs[i]) > 65527;
  }

  /** A request of 4-byte formats, without data, for the first size bytes of region i. */
  lemma LargeAccess(rs: Regions, i: nat, size: u32) returns (data: seq<u8>)
    requires Backed(rs) && i < |rs| && 0 < size <= Size(rs[i])
    ensures |data| == 8 && ParseAccess(Format(4, 4), data) == Some(Access(rs[i].start, size, 4, 4))
    ensures WithinOne(rs, rs[i].start, size)
  {
    data := ToBigEndian(rs[i].start, 4) + ToBigEndian(size, 4) + [];
    assert Pow256(4) == 0x1_0000_0000 by {
      assert Pow256(3) == 0x100_0000 && Pow256(2) == 0x1_0000 && Pow256(1) == 0x100;
    }
    AccessRoundTrip(rs[i].start, size, 4, 4, []);
    assert Inside(rs[i].start, rs[i].end, rs[i].start, size);
  }

  // ---------------------------------------------------------------------------------------------
  // The flat memory
  // ---------------------------------------------------------------------------------------------

  predicate In(r: Region, a: int) {
    r.start <= a <= r.end
  }

  /** The first region that has address a: where a single-byte access goes. */
  function Holder(rs: Regions, a: int): (h: Option<nat>)
    ensures h.Some? ==> h.value < |rs| && In(rs[h.value], a) && forall k :: 0 <= k < h.value ==> !In(rs[k], a)
    ensures h.None? ==> forall k :: 0 <= k < |rs| ==> !In(rs[k], a)
    decreases |rs|
  {
    if rs == [] then None
    else
      var n := |rs| - 1;
      match Holder(rs[..n], a)
      case Some(i) => assert forall k :: 0 <= k < i ==> rs[..n][k] == rs[k]; Some(i)
      case None => assert forall k :: 0 <= k < n ==> rs[..n][k] == rs[k]; if In(rs[n], a) then Some(n) else None
  }

  lemma HolderIs(rs: Regions, i: nat, a: int)
    requires i < |rs| && In(rs[i], a) && forall k :: 0 <= k < i ==> !In(rs[k], a)
    ensures Holder(rs, a) == Some(i)
  {
  }

  /** The byte at address a, if some region has it. */
  function At(rs: Regions, a: int): Option<u8>
    requires Backed(rs)
  {
    match Holder(rs, a)
    case None => None
    case Some(i) => Some(rs[i].bytes[a - rs[i].start])
  }

  /** The integer interval [address, address + size) lies in one region. */
  ghost predicate WithinOne(rs: Regions, address: int, size: int) {
    exists i :: 0 <= i < |rs| && Inside(rs[i].start, rs[i].end, address, size)
  }

  lemma {:induction false} FindExact(rs: Regions, address: u32, size: u32)
    requires size > 0
    ensures Find(rs, address, size).Some? <==> WithinOne(rs, address, size)
    ensures Find(rs, address, size).Some? ==>
              var r := rs[Find(rs, address, size).value]; Inside(r.start, r.end, address, size)
    decreases |rs|
  {
    if Find(rs, address, size).Some? {
      var r := rs[Find(rs, address, size).value];
      GuardExact(r.start, r.end, address, size);
    }
    if rs != [] {
      var n := |rs| - 1;
      GuardExact(rs[n].start, rs[n].end, address, size);
      FindExact(rs[..n], address, size);
      if WithinOne(rs, address, size) {
        var i :| 0 <= i < |rs| && Inside(rs[i].start, rs[i].end, address, size);
        GuardExact(rs[i].start, rs[i].end, address, size);
        if i < n {
          assert rs[..n][i] == rs[i];
        }
      }
    }
  }

  /** No earlier region covers the range. */
  lemma {:induction false} FindFirst(rs: Regions, address: u32, size: u32)
    requires size > 0 && Find(rs, address, size).Some?
    ensures forall k :: 0 <= k < Find(rs, address, size).value ==> !Inside(rs[k].start, rs[k].end, address, size)
    decreases |rs|
  {
    var n := |rs| - 1;
    if Find(rs[..n], address, size).Some? {
      FindFirst(rs[..n], address, size);
    } else {
      FindExact(rs[..n], address, size);
      forall k | 0 <= k < n ensures !Inside(rs[k].start, rs[k].end, address, size) {
        assert rs[..n][k] == rs[k];
      }
    }
  }

  /** Region j lies in an earlier one, so no access ever reaches it. */
  predicate Shadowed(rs: Regions, j: nat)
    requires j < |rs|
  {
    exists i :: 0 <= i < j && rs[i].start <= rs[j].start && rs[j].end <= rs[i].end
  }

  predicate Apart(a: Region, b: Region) {
    a.end < b.start || b.end < a.start
  }

  /** Every region is apart from all earlier ones, or of no effect.  Disjoint regions are the plain case. */
  predicate Regular(rs: Regions) {
    forall j :: 0 <= j < |rs| ==> Shadowed(rs, j) || forall i :: 0 <= i < j ==> Apart(rs[i], rs[j])
  }

  /** Every access works on the same bytes as single-byte accesses to its addresses. */
  ghost predicate Flat(rs: Regions) {
    forall address: u32, size: u32, x: int ::
      size > 0 && Find(rs, address, size).Some? && address <= x < address + size ==>
        Holder(rs, x) == Find(rs, address, size)
  }

  lemma FirstNotShadowed(rs: Regions, j: nat, address: int, size: int)
    requires j < |rs| && Inside(rs[j].start, rs[j].end, address, size)
    requires forall k :: 0 <= k < j ==> !Inside(rs[k].start, rs[k].end, address, size)
    ensures !Shadowed(rs, j)
  {
  }

  lemma FoundHolds(rs: Regions, address: u32, size: u32, x: int)
    requires Regular(rs) && size > 0 && Find(rs, address, size).Some? && address <= x < address + size
    ensures Holder(rs, x) == Find(rs, address, size)
  {
    FindExact(rs, address, size);
    FindFirst(rs, address, size);
    hide Find, WithinOne;
    var j := Find(rs, address, size).value;
    FirstNotShadowed(rs, j, address, size);
    forall k | 0 <= k < j ensures !In(rs[k], x) {
      assert Apart(rs[k], rs[j]);
    }
    HolderIs(rs, j, x);
  }

  /** In a flat memory all addresses of a region are held by one region. */
  lemma {:induction false} OneHolder(rs: Regions, j: nat, x: int, y: int)
    requires Flat(rs) && j < |rs| && In(rs[j], x) && In(rs[j], y) && x <= y
    ensures Holder(rs, x) == Holder(rs, y)
    decreases y - x
  {
    if x < y {
      OneHolder(rs, j, x, y - 1);
      assert Inside(rs[j].start, rs[j].end, y - 1, 2);
      FindExact(rs, y - 1, 2);
      assert Holder(rs, y - 1) == Find(rs, y - 1, 2) == Holder(rs, y);
    }
  }

  /** The memory is flat if and only if its regions are regular: registering overlapping regions of which the later
      one is not contained in an earlier one is exactly what breaks it. */
  lemma FlatIff(rs: Regions)
    requires Backed(rs)
    ensures Flat(rs) <==> Regular(rs)
  {
    if Regular(rs) {
      forall address: u32, size: u32, x: int
        | size > 0 && Find(rs, address, size).Some? && address <= x < address + size
        ensures Holder(rs, x) == Find(rs, address, size)
      {
        FoundHolds(rs, address, size, x);
      }
    }
    if Flat(rs) {
      forall j | 0 <= j < |rs| ensures Shadowed(rs, j) || forall i :: 0 <= i < j ==> Apart(rs[i], rs[j]) {
        if i :| 0 <= i < j && !Apart(rs[i], rs[j]) {
          FlatOverlapShadows(rs, i, j);
        }
      }
    }
  }

  lemma FlatOverlapShadows(rs: Regions, i: nat, j: nat)
    requires Backed(rs) && Flat(rs) && i < j < |rs| && !Apart(rs[i], rs[j])
    ensures Shadowed(rs, j)
  {
    var x := if rs[i].start < rs[j].start then rs[j].start else rs[i].start;
    OneHolder(rs, j, rs[j].start, x);
    OneHolder(rs, j, x, rs[j].end);
    hide Flat;
    assert In(rs[i], x);
    var h := Holder(rs, x).value;
    assert In(rs[h], rs[j].start) && In(rs[h], rs[j].end);
  }

  // ---------------------------------------------------------------------------------------------
  // Single accesses
  // ---------------------------------------------------------------------------------------------

  /** A read is answered with data exactly if its interval lies in one region and the true length fits the 256-byte
      response; the data are then that region's bytes, and in a regular table the flat memory's. */
  lemma ReadExact(rs: Regions, fmt: u8, data: seq<u8>, a: Access)
    requires Backed(rs) && ParseAccess(fmt, data) == Some(a)
    ensures var r := Read(rs, fmt, data);
            && r.regions == rs
            && (r.answer.Done? <==> WithinOne(rs, a.address, a.size) && Length(1, a) <= RESPONSE_SIZE)
            && (r.answer.Done? ==> |r.answer.body| == Length(1, a) && Carries(rs, a, r.answer.body))
            && (r.answer.Done? && Regular(rs) ==>
                  forall x :: a.address <= x < a.address + a.size ==>
                    At(rs, x) == Some(r.answer.body[1 + a.ab + a.sb + (x - a.address)]))
  {
    ReadBody(rs, fmt, data, a);
    FindExact(rs, a.address, a.size);
    hide Read, ParseAccess, Find, At, Regular, WithinOne, Backed;
    var r := Read(rs, fmt, data);
    if r.answer.Done? && Regular(rs) {
      forall x | a.address <= x < a.address + a.size
        ensures At(rs, x) == Some(r.answer.body[1 + a.ab + a.sb + (x - a.address)])
      {
        ReadByte(rs, a, r.answer.body, x);
      }
    }
  }

  /** The body of a positive read, and when there is one. */
  lemma ReadBody(rs: Regions, fmt: u8, data: seq<u8>, a: Access)
    requires Backed(rs) && ParseAccess(fmt, data) == Some(a)
    ensures var r, f := Read(rs, fmt, data), Find(rs, a.address, a.size);
            && r.regions == rs
            && (r.answer.Done? <==> f.Some? && Length(1, a) <= RESPONSE_SIZE)
            && (r.answer.Done? ==> |r.answer.body| == Length(1, a) && Carries(rs, a, r.answer.body))
  {
    FindExact(rs, a.address, a.size);
    LengthExactIff(1, a);
    ParseLimits(fmt, data);
    hide ParseAccess, Find, Length16, WithinOne;
    var f := Find(rs, a.address, a.size);
    if f.Some? && Length(1, a) <= RESPONSE_SIZE {
      var echo, off := Echo(fmt, data, a), a.address - rs[f.value].start;
      assert |echo| == 1 + a.ab + a.sb;
      assert (echo + rs[f.value].bytes[off..off + a.size])[|echo|..] == rs[f.value].bytes[off..off + a.size];
    }
  }

  /** Behind the echo the body holds the addressed bytes of the region found. */
  predicate Carries(rs: Regions, a: Access, body: seq<u8>)
    requires a.size > 0
  {
    var f := Find(rs, a.address, a.size);
    && f.Some? && 1 + a.ab + a.sb <= |body|
    && var off := a.address - rs[f.value].start;
       && 0 <= off && off + a.size <= |rs[f.value].bytes|
       && body[1 + a.ab + a.sb..] == rs[f.value].bytes[off..off + a.size]
  }

  lemma ReadByte(rs: Regions, a: Access, body: seq<u8>, x: int)
    requires Backed(rs) && Regular(rs) && a.size > 0 && Carries(rs, a, body) && a.address <= x < a.address + a.size
    requires |body| == Length(1, a)
    ensures At(rs, x) == Some(body[1 + a.ab + a.sb + (x - a.address)])
  {
    FoundHolds(rs, a.address, a.size, x);
    AtHolder(rs, x);
    hide Find, Regular, At, Backed;
    var i := Find(rs, a.address, a.size).value;
    var at, off := x - a.address, a.address - rs[i].start;
    assert body[1 + a.ab + a.sb..][at] == rs[i].bytes[off..off + a.size][at];
  }

  lemma AtHolder(rs: Regions, x: int)
    requires Backed(rs) && Holder(rs, x).Some?
    ensures var i := Holder(rs, x).value;
            0 <= x - rs[i].start < |rs[i].bytes| && At(rs, x) == Some(rs[i].bytes[x - rs[i].start])
  {
  }

  lemma ParseLimits(fmt: u8, data: seq<u8>)
    ensures ParseAccess(fmt, data).Some? ==>
              var a := ParseAccess(fmt, data).value;
              1 <= a.ab <= 4 && 1 <= a.sb <= 4 && a.ab + a.sb <= |data| && a.size > 0
  {
  }

  /** Tables that differ in the bytes of their buffers only. */
  predicate SameLayout(rs: Regions, rs': Regions) {
    |rs| == |rs'| && forall i :: 0 <= i < |rs| ==>
      rs[i].start == rs'[i].start && rs[i].end == rs'[i].end && |rs[i].bytes| == |rs'[i].bytes|
  }

  lemma LayoutDecides(rs: Regions, rs': Regions)
    requires SameLayout(rs, rs')
    ensures Backed(rs) <==> Backed(rs')
    ensures Regular(rs) <==> Regular(rs')
  {
    forall j | 0 <= j < |rs| ensures Shadowed(rs, j) <==> Shadowed(rs', j) {
      if i :| 0 <= i < j && rs[i].start <= rs[j].start && rs[j].end <= rs[i].end {
        assert rs'[i].start <= rs'[j].start && rs'[j].end <= rs'[i].end;
      }
      if i :| 0 <= i < j && rs'[i].start <= rs'[j].start && rs'[j].end <= rs'[i].end {
        assert rs[i].start <= rs[j].start && rs[j].end <= rs[i].end;
      }
    }
    hide Shadowed;
    forall i, j | 0 <= i < j < |rs| ensures Apart(rs[i], rs[j]) <==> Apart(rs'[i], rs'[j]) {
    }
    hide Apart;
  }

  lemma LayoutHolds(rs: Regions, rs': Regions, x: int)
    requires SameLayout(rs, rs')
    ensures Holder(rs, x) == Holder(rs', x)
  {
    forall k | 0 <= k < |rs| ensures In(rs[k], x) <==> In(rs'[k], x) {
    }
    var h := Holder(rs, x);
    if h.Some? {
      HolderIs(rs', h.value, x);
    }
  }

  /** Which writes are accepted, and the region they land in. */
  lemma WriteAccepts(rs: Regions, unlocked: bool, fmt: u8, data: seq<u8>, a: Access)
    requires Backed(rs) && ParseAccess(fmt, data) == Some(a)
    ensures var r, f := Write(rs, unlocked, fmt, data), Find(rs, a.address, a.size);
            && (r.answer.Done? <==> unlocked && |data| >= Length(0, a) && f.Some?)
            && (!r.answer.Done? ==> r.regions == rs)
            && (r.answer.Done? ==>
                  && a.ab + a.sb <= |data| && r.answer.body == Echo(fmt, data, a)
                  && rs[f.value].start <= a.address && a.address + a.size - 1 <= rs[f.value].end
                  && r.regions == rs[f.value := Patch(rs[f.value], a.address - rs[f.value].start,
                                                      data[a.ab + a.sb..a.ab + a.sb + a.size])])
  {
    FindExact(rs, a.address, a.size);
    LengthExactIff(0, a);
    WrapSmaller(Length(0, a));
    hide ParseAccess, Find, Length16, Patch, WithinOne;
  }

  lemma WrapSmaller(l: nat)
    ensures l % 0x1_0000 <= l
  {
  }

  /** A write is accepted exactly if the ECU is unlocked, the request carries all its bytes and the interval lies in
      one region; in a regular table it then changes exactly the addressed bytes, to the bytes sent. */
  lemma WriteExact(rs: Regions, unlocked: bool, fmt: u8, data: seq<u8>, a: Access)
    requires Backed(rs) && ParseAccess(fmt, data) == Some(a)
    ensures var r := Write(rs, unlocked, fmt, data);
            && SameLayout(rs, r.regions) && Backed(r.regions)
            && (r.answer.Done? <==> unlocked && |data| >= Length(0, a) && WithinOne(rs, a.address, a.size))
            && (!r.answer.Done? ==> r.regions == rs)
            && (r.answer.Done? && Regular(rs) ==>
                  forall x :: At(r.regions, x) == Overlaid(rs, a.address, data[a.ab + a.sb..a.ab + a.sb + a.size], x))
  {
    FindExact(rs, a.address, a.size);
    WriteAccepts(rs, unlocked, fmt, data, a);
    hide ParseAccess, Find, At, Length16, Write, WithinOne, Regular, Overlaid;
    var r := Write(rs, unlocked, fmt, data);
    if r.answer.Done? {
      var i := Find(rs, a.address, a.size).value;
      var off, bytes := a.address - rs[i].start, data[a.ab + a.sb..a.ab + a.sb + a.size];
      assert SameLayout(rs, r.regions);
      LayoutDecides(rs, r.regions);
      hide Backed, SameLayout;
      if Regular(rs) {
        PatchedEverywhere(rs, r.regions, a.address, a.size, bytes);
      }
    }
  }

  /** The byte at x once bytes have been written from lo on. */
  ghost function Overlaid(rs: Regions, lo: int, bytes: seq<u8>, x: int): Option<u8>
    requires Backed(rs)
  {
    if lo <= x < lo + |bytes| then Some(bytes[x - lo]) else At(rs, x)
  }

  lemma PatchedEverywhere(rs: Regions, rs': Regions, address: u32, size: u32, bytes: seq<u8>)
    requires Backed(rs) && Backed(rs') && Regular(rs) && |bytes| == size > 0
    requires var f := Find(rs, address, size);
             && f.Some? && rs[f.value].start <= address && address + size - 1 <= rs[f.value].end
             && rs' == rs[f.value := Patch(rs[f.value], address - rs[f.value].start, bytes)]
    ensures forall x :: At(rs', x) == Overlaid(rs, address, bytes, x)
  {
    hide Find, Regular;
    var i := Find(rs, address, size).value;
    forall x ensures At(rs', x) == Overlaid(rs, address, bytes, x) {
      LayoutHolds(rs, rs', x);
      if address <= x < address + size {
        FoundHolds(rs, address, size, x);
      }
      PatchedByte(rs[i], address - rs[i].start, bytes, x - rs[i].start);
    }
  }

  lemma PatchedByte(r: Region, off: nat, bytes: seq<u8>, at: int)
    requires off + |bytes| <= |r.bytes|
    ensures 0 <= at < |r.bytes| ==>
              Patch(r, off, bytes).bytes[at] == if off <= at < off + |bytes| then bytes[at - off] else r.bytes[at]
  {
  }

  // ---------------------------------------------------------------------------------------------
  // Runs
  // ---------------------------------------------------------------------------------------------

  datatype Op = ReadOp(fmt: u8, data: seq<u8>) | WriteOp(unlocked: bool, fmt: u8, data: seq<u8>)

  function Step(rs: Regions, op: Op): Reply
    requires Backed(rs)
  {
    match op
    case ReadOp(fmt, data) => Read(rs, fmt, data)
    case WriteOp(unlocked, fmt, data) => Write(rs, unlocked, fmt, data)
  }

  lemma StepKeepsLayout(rs: Regions, op: Op)
    requires Backed(rs)
    ensures SameLayout(rs, Step(rs, op).regions) && Backed(Step(rs, op).regions)
    ensures Regular(rs) ==> Regular(Step(rs, op).regions)
  {
    hide Regular;
    if ParseAccess(op.fmt, op.data).Some? {
      match op
      case ReadOp(_, _) =>
      case WriteOp(unlocked, fmt, data) => WriteExact(rs, unlocked, fmt, data, ParseAccess(fmt, data).value);
    }
    LayoutDecides(rs, Step(rs, op).regions);
  }

  ghost function Run(rs: Regions, ops: seq<Op>): (r: Regions)
    requires Backed(rs)
    ensures Backed(r)
    decreases |ops|
  {
    if ops == [] then rs
    else
      StepKeepsLayout(rs, ops[0]);
      Run(Step(rs, ops[0]).regions, ops[1..])
  }

  /** No operation of the run overruns; by ReadsOverrunIff every run is defined over regions of at most 65526 bytes. */
  ghost predicate Defined(rs: Regions, ops: seq<Op>)
    requires Backed(rs)
    decreases |ops|
  {
    ops != [] ==>
      && !Step(rs, ops[0]).answer.Overrun?
      && (StepKeepsLayout(rs, ops[0]); Defined(Step(rs, ops[0]).regions, ops[1..]))
  }

  lemma {:induction false} SmallRegionsDefined(rs: Regions, ops: seq<Op>)
    requires Backed(rs) && forall i :: 0 <= i < |rs| ==> Size(rs[i]) <= 65526
    ensures Defined(rs, ops)
    decreases |ops|
  {
    if ops != [] {
      ReadsOverrunIff(rs);
      WritesOverrunIff(rs);
      StepKeepsLayout(rs, ops[0]);
      match ops[0] {
        case ReadOp(fmt, data) => assert !ReadOverruns(rs, fmt, data);
        case WriteOp(_, fmt, data) => assert !WriteOverruns(rs, fmt, data);
      }
      SmallRegionsDefined(Step(rs, ops[0]).regions, ops[1..]);
    }
  }

  /** The value last written to address x by the accepted writes among ops, which start from regions rs. */
  ghost function LastWritten(rs: Regions, ops: seq<Op>, x: int, initial: Option<u8>): Option<u8>
    requires Backed(rs)
    decreases |ops|
  {
    if ops == [] then initial
    else
      StepKeepsLayout(rs, ops[0]);
      LastWritten(Step(rs, ops[0]).regions, ops[1..], x, Written(rs, ops[0], x, initial))
  }

  ghost function Written(rs: Regions, op: Op, x: int, before: Option<u8>): Option<u8>
    requires Backed(rs)
  {
    if op.WriteOp? && Step(rs, op).answer.Done? then
      var a := ParseAccess(op.fmt, op.data).value;
      if a.address <= x < a.address + a.size && |op.data| >= a.ab + a.sb + a.size
      then Some(op.data[a.ab + a.sb + (x - a.address)]) else before
    else before
  }

  /** Every positive answer names the access it answers: parsed again, it gives the request's address and size. */
  lemma AnswersNameTheAccess(rs: Regions, op: Op, a: Access)
    requires Backed(rs) && ParseAccess(op.fmt, op.data) == Some(a) && Step(rs, op).answer.Done?
    ensures var body := Step(rs, op).answer.body; body != [] && ParseAccess(body[0], body[1..]) == Some(a)
  {
    match op
    case ReadOp(fmt, data) =>
      ParseLimits(fmt, data);
      hide ParseAccess, Find, Backed, Length16;
      var i := Find(rs, a.address, a.size).value;
      GuardExact(rs[i].start, rs[i].end, a.address, a.size);
      EchoNames(fmt, data, a, Step(rs, op).answer.body[1 + a.ab + a.sb..]);
    case WriteOp(unlocked, fmt, data) =>
      ParseLimits(fmt, data);
      hide ParseAccess, Find, Backed, Length16, Patch;
      EchoNames(fmt, data, a, []);
      assert Echo(fmt, data, a) + [] == Echo(fmt, data, a);
  }

  lemma EchoNames(fmt: u8, data: seq<u8>, a: Access, rest: seq<u8>)
    requires ParseAccess(fmt, data) == Some(a)
    ensures var body := Echo(fmt, data, a) + rest; body[0] == fmt && ParseAccess(body[0], body[1..]) == Some(a)
  {
    EchoReparses(fmt, data, a, rest);
    assert (Echo(fmt, data, a) + rest)[1..] == data[..a.ab + a.sb] + rest;
  }

  /** After any mix of reads and writes in any formats, every address holds what was last written to it; by ReadExact
      that is what a read returns. */
  lemma {:induction false} MemoryIsFlat(rs: Regions, ops: seq<Op>, x: int)
    requires Backed(rs) && Regular(rs) && Defined(rs, ops)
    ensures At(Run(rs, ops), x) == LastWritten(rs, ops, x, At(rs, x))
    decreases |ops|
  {
    hide At, Read, Write, Backed, Regular, SameLayout;
    if ops != [] {
      StepKeepsLayout(rs, ops[0]);
      WrittenIsAt(rs, ops[0], x);
      MemoryIsFlat(Step(rs, ops[0]).regions, ops[1..], x);
    }
  }

  lemma WrittenIsAt(rs: Regions, op: Op, x: int)
    requires Backed(rs) && Regular(rs) && Backed(Step(rs, op).regions)
    ensures At(Step(rs, op).regions, x) == Written(rs, op, x, At(rs, x))
  {
    hide At, Find, Backed, Regular, SameLayout;
    if op.WriteOp? && ParseAccess(op.fmt, op.data).Some? {
      WriteExact(rs, op.unlocked, op.fmt, op.data, ParseAccess(op.fmt, op.data).value);
    }
  }

  // ---------------------------------------------------------------------------------------------
  // Requests and refusals in plain numbers
  // ---------------------------------------------------------------------------------------------

  /** The format byte holds the lengths of address (high digit) and size (low digit), each less one; a request is
      understood exactly if both are at most 4 bytes, all their bytes are there, and the size is not zero. */
  lemma UnderstoodIff(fmt: u8, data: seq<u8>)
    ensures var p, ab, sb := ParseAccess(fmt, data), fmt / 16 + 1, fmt % 16 + 1;
            && (p.Some? <==> ab <= 4 && sb <= 4 && ab + sb <= |data| && BigEndian(data[ab..ab + sb]) > 0)
            && (p.Some? ==> p.value == Access(BigEndian(data[..ab]), BigEndian(data[ab..ab + sb]), ab, sb))
  {
    hide BigEndian;
  }

  predicate HasAll(r: Region, address: int, size: int) {
    forall x: int :: address <= x < address + size ==> In(r, x)
  }

  /** Some region has every address of the access. */
  predicate OneHasAll(rs: Regions, a: Access) {
    exists i :: 0 <= i < |rs| && HasAll(rs[i], a.address, a.size)
  }

  lemma WithinOneIff(rs: Regions, a: Access)
    requires a.size > 0
    ensures WithinOne(rs, a.address, a.size) <==> OneHasAll(rs, a)
  {
    hide HasAll;
    forall i | 0 <= i < |rs|
      ensures Inside(rs[i].start, rs[i].end, a.address, a.size) <==> HasAll(rs[i], a.address, a.size)
    {
      InsideHasAll(rs[i], a.address, a.size);
    }
  }

  lemma InsideHasAll(r: Region, address: int, size: int)
    requires size > 0
    ensures Inside(r.start, r.end, address, size) <==> HasAll(r, address, size)
  {
    assert Inside(r.start, r.end, address, size) <==> In(r, address) && In(r, address + size - 1);
  }

  /** A read that is not understood is refused with 0x13; one that no single region can serve with 0x31; and one
      whose answer is too long with 0x14, as far as the 16-bit length tells. */
  lemma ReadRefused(rs: Regions, fmt: u8, data: seq<u8>)
    requires Backed(rs)
    ensures var answer := Read(rs, fmt, data).answer;
            match ParseAccess(fmt, data)
            case None => answer == Refused(0x13)
            case Some(a) =>
              var length := 1 + a.ab + a.sb + a.size;
              && (answer == Refused(0x31) <==> !OneHasAll(rs, a))
              && (answer == Refused(0x14) <==> OneHasAll(rs, a) && length % 65536 > 256)
              && (answer.Refused? ==> answer.nrc in {0x31, 0x14})
              && (answer.Done? <==> OneHasAll(rs, a) && length <= 256)
  {
    var p := ParseAccess(fmt, data);
    if p.Some? {
      var a := p.value;
      ParseLimits(fmt, data);
      WithinOneIff(rs, a);
      FindExact(rs, a.address, a.size);
      LengthExactIff(1, a);
      hide ParseAccess, Find, Length16, WithinOne, OneHasAll, Backed;
    }
  }

  /** A write to a locked ECU is refused with 0x33, whatever it asks for; one that is not understood or lacks data
      bytes with 0x13; one that no single region can serve with 0x31; and a refused write changes nothing. */
  lemma WriteRefused(rs: Regions, unlocked: bool, fmt: u8, data: seq<u8>)
    requires Backed(rs)
    ensures var r := Write(rs, unlocked, fmt, data);
            && (!unlocked ==> r.answer == Refused(0x33))
            && (r.answer.Refused? ==> r.regions == rs)
            && (unlocked ==>
                  match ParseAccess(fmt, data)
                  case None => r.answer == Refused(0x13)
                  case Some(a) =>
                    var length := a.ab + a.sb + a.size;
                    && (r.answer == Refused(0x13) <==> |data| < length % 65536)
                    && (r.answer == Refused(0x31) <==> |data| >= length % 65536 && !OneHasAll(rs, a))
                    && (r.answer.Refused? ==> r.answer.nrc in {0x13, 0x31})
                    && (r.answer.Done? <==> |data| >= length && OneHasAll(rs, a)))
  {
    var p := ParseAccess(fmt, data);
    if p.Some? && unlocked {
      var a := p.value;
      ParseLimits(fmt, data);
      WithinOneIff(rs, a);
      FindExact(rs, a.address, a.size);
      LengthExactIff(0, a);
      WrapSmaller(Length(0, a));
      hide ParseAccess, Find, Length16, WithinOne, OneHasAll, Backed, Patch;
    }
  }
}
