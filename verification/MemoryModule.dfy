/** The memory services of uds_svc_data.c over buffers that the application owns and the services change
    in place, proved against Memory. */
module MemoryModule {
  import opened Bytes
  import opened Uds
  import opened AddressRange
  import opened Memory

  /** uds_mem_region_t: data points to a buffer outside the module. */
  datatype Entry = Entry(start: u32, end: u32, data: array<u8>)

  class Module {
    var table: seq<Entry>
    const capacity: nat

    ghost function Buffers(): set<array<u8>>
      reads this
    {
      set i | 0 <= i < |table| :: table[i].data
    }

    ghost function View(): Regions
      reads this, Buffers()
    {
      seq(|table|, i requires 0 <= i < |table| reads this, Buffers() =>
                     Region(table[i].start, table[i].end, table[i].data[..]))
    }

    /** Every region has a buffer of its own. */
    predicate Separate()
      reads this
    {
      forall i, j :: 0 <= i < j < |table| ==> table[i].data != table[j].data
    }

    /** The table is within its capacity, and the buffers are as large as their regions. */
    ghost predicate Valid()
      reads this, Buffers()
    {
      |table| <= capacity && Backed(View())
    }

    /** max is UDS_MEM_REGION_MAX. */
    constructor (max: nat)
      ensures Valid() && Separate() && View() == [] && capacity == max
    {
      table, capacity := [], max;
    }

    /** uds_register_memory_region.  It cannot see the size of a buffer or whether other regions use it; the table
        stays fit for the services if the caller sees to that. */
    method Register(start: u32, end: u32, data: array<u8>) returns (ok: bool)
      requires |table| <= capacity
      modifies this`table
      ensures ok <==> start <= end && |old(View())| < capacity
      ensures View() == if ok then old(View()) + [Region(start, end, data[..])] else old(View())
      ensures table == if ok then old(table) + [Entry(start, end, data)] else old(table)
      ensures |table| <= capacity
      ensures old(Valid()) && (ok ==> end - start + 1 <= data.Length) ==> Valid()
      ensures old(Separate()) && data !in old(Buffers()) ==> Separate()
    {
      if end < start || |table| >= capacity {
        return false;
      }
      ghost var before := View();
      table := table + [Entry(start, end, data)];
      assert View() == before + [Region(start, end, data[..])];
      return true;
    }

    /** parse_mem_addr_format. */
    static method Parse(fmt: u8, data: seq<u8>) returns (a: Option<Access>)
      ensures a == ParseAccess(fmt, data)
    {
      if |data| < 2 {
        return None;
      }
      var ab, sb := fmt / 16 + 1, fmt % 16 + 1;
      if ab > 4 || sb > 4 || |data| < ab + sb {
        return None;
      }
      var address := ParseWord(data[..ab]);
      var size := ParseWord(data[ab..ab + sb]);
      if size == 0 {
        return None;
      }
      return Some(Access(address, size, ab, sb));
    }

    /** The big-endian loop: v = (v << 8) | b in 32 bits. */
    static method ParseWord(b: seq<u8>) returns (v: u32)
      requires |b| <= 4
      ensures v == Word(b)
    {
      v := 0;
      for i := 0 to |b|
        invariant v == BigEndian(b[..i])
      {
        assert b[..i + 1][..i] == b[..i];
        WordBound(b[..i + 1]);
        v := (v * 256) % WRAP + b[i];
      }
      assert b[..|b|] == b;
    }

    /** find_memory_region. */
    method FindRegion(address: u32, size: u32) returns (i: Option<nat>)
      requires Valid() && size > 0
      ensures i == Find(View(), address, size)
    {
      if (address + (size - 1)) % WRAP < address {
        return None;
      }
      assert View()[..0] == [];
      for k := 0 to |table|
        invariant Find(View()[..k], address, size) == None
      {
        assert View()[..k + 1][..k] == View()[..k];
        if address >= table[k].start && (address + size - 1) % WRAP <= table[k].end {
          FindStays(View(), address, size, k + 1);
          return Some(k);
        }
      }
      assert View()[..|table|] == View();
      return None;
    }

    lemma {:induction false} FindStays(rs: Regions, address: u32, size: u32, k: nat)
      requires size > 0 && k <= |rs| && Find(rs[..k], address, size).Some?
      ensures Find(rs, address, size) == Find(rs[..k], address, size)
      decreases |rs|
    {
      if k == |rs| {
        assert rs[..k] == rs;
      } else {
        assert rs[..|rs| - 1][..k] == rs[..k];
        FindStays(rs[..|rs| - 1], address, size, k);
      }
    }

    lemma RegionHolds(rs: Regions, address: u32, size: u32, i: nat)
      requires Backed(rs) && size > 0 && Find(rs, address, size) == Some(i)
      ensures i < |rs| && rs[i].start <= address && address - rs[i].start + size <= |rs[i].bytes|
    {
      FindExact(rs, address, size);
    }

    /** 0x23: copies into the 256-byte response buffer, unless that would overrun it. */
    method Read(fmt: u8, data: seq<u8>) returns (answer: Answer)
      requires Valid()
      ensures Valid() && Reply(View(), answer) == Memory.Read(old(View()), fmt, data)
    {
      hide ParseAccess, Find, Backed;
      ghost var before := View();
      var p := Parse(fmt, data);
      assert View() == before;
      if p == None {
        return Refused(NRC_INCORRECT_LENGTH);
      }
      var a := p.value;
      ParseLimits(fmt, data);
      var f := FindRegion(a.address, a.size);
      assert View() == before;
      if f == None {
        return Refused(NRC_REQUEST_OUT_OF_RANGE);
      }
      if Length16(1, a) > RESPONSE_SIZE {
        return Refused(NRC_RESPONSE_TOO_LONG);
      }
      if Length(1, a) > RESPONSE_SIZE {
        return Overrun;
      }
      RegionHolds(before, a.address, a.size, f.value);
      var entry := table[f.value];
      assert before[f.value] == Region(entry.start, entry.end, entry.data[..]);
      var off := a.address - entry.start;
      var bytes := entry.data[off..off + a.size];
      assert bytes == before[f.value].bytes[off..off + a.size];
      return Done([fmt] + data[..a.ab + a.sb] + bytes);
    }

    /** 0x3D: memcpy into the region's buffer. */
    method Write(unlocked: bool, fmt: u8, data: seq<u8>) returns (answer: Answer)
      requires Valid() && Separate()
      modifies Buffers()
      ensures Valid() && Separate()
      ensures Reply(View(), answer) == Memory.Write(old(View()), unlocked, fmt, data)
    {
      hide ParseAccess, Find, Patch, Backed;
      if !unlocked {
        return Refused(NRC_SECURITY_ACCESS_DENIED);
      }
      var p := Parse(fmt, data);
      if p == None {
        return Refused(NRC_INCORRECT_LENGTH);
      }
      var a := p.value;
      ParseLimits(fmt, data);
      if |data| < Length16(0, a) {
        return Refused(NRC_INCORRECT_LENGTH);
      }
      var f := FindRegion(a.address, a.size);
      if f == None {
        return Refused(NRC_REQUEST_OUT_OF_RANGE);
      }
      if |data| < Length(0, a) {
        return Overrun;
      }
      ghost var before := View();
      ghost var r := Memory.Write(before, unlocked, fmt, data);
      WriteAccepts(before, unlocked, fmt, data, a);
      assert before[f.value].start == table[f.value].start;
      RegionHolds(before, a.address, a.size, f.value);
      hide Memory.Write;
      Store(f.value, a.address - table[f.value].start, data[a.ab + a.sb..a.ab + a.sb + a.size]);
      assert View() == r.regions;
      answer := Done([fmt] + data[..a.ab + a.sb]);
      assert r == Reply(View(), answer);
    }

    lemma PatchBacked(rs: Regions, i: nat, off: nat, bytes: seq<u8>)
      requires Backed(rs) && i < |rs| && off + |bytes| <= |rs[i].bytes|
      ensures Backed(rs[i := Patch(rs[i], off, bytes)])
    {
    }

    method Store(i: nat, off: nat, bytes: seq<u8>)
      requires Valid() && Separate() && |table| > i && off + |bytes| <= table[i].data.Length
      modifies table[i].data
      ensures Valid() && View() == old(View())[i := Patch(old(View())[i], off, bytes)]
    {
      ghost var before := View();
      PatchBacked(before, i, off, bytes);
      hide Backed, Patch;
      CopyInto(table[i].data, off, bytes);
      assert View()[i] == Patch(before[i], off, bytes);
      forall j | 0 <= j < |table| && j != i ensures View()[j] == before[j] {
        assert table[j].data != table[i].data;
      }
    }
  }
}
