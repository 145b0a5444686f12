/** uds_dtc.c with its static table, and the report loop of uds_svc_stored.c, updated in place. */
module DtcModule {
  import opened Bytes
  import opened Uds
  import opened Dtc
  import opened DtcReport

  lemma IndexUnique(s: Slots, d: u32, i: nat)
    requires i < |s| && s[i].dtc == d && forall j :: 0 <= j < i ==> s[j].dtc != d
    ensures IndexOf(s, d) == i
  {
  }

  lemma IndexNone(s: Slots, d: u32)
    requires forall j :: 0 <= j < |s| ==> s[j].dtc != d
    ensures IndexOf(s, d) == |s|
  {
  }

  /** Overwriting a with src from position m on appends src to the part that starts at position at. */
  lemma Appended(a: seq<u8>, at: nat, m: nat, src: seq<u8>, b: seq<u8>)
    requires at <= m && m + |src| <= |a| && b == a[..m] + src + a[m + |src|..]
    ensures |b| == |a| && b[..at] == a[..at] && b[at..m + |src|] == a[at..m] + src
  {
  }

  lemma EntriesNext(s: Slots, ds: seq<u32>, i: nat)
    requires i < |ds|
    ensures Entries(s, ds[..i + 1]) == Entries(s, ds[..i]) + Entry(ds[i], Dtc.GetStatus(s, ds[i]))
  {
    assert ds[..i + 1][..i] == ds[..i];
  }

  /** i whole records are all of n or all that fit into room bytes. */
  lemma WholeRecords(n: nat, i: nat, room: nat)
    requires i <= n && 4 * i <= room && (i == n || 4 * i + 4 > room)
    ensures i == Min(n, room / 4) && 4 * i / 4 == i
  {
  }

  class Database {
    const records: array<Record>

    ghost predicate Valid()
      reads this, records
    {
      records.Length == MAX && Sound(records[..])
    }

    constructor ()
      ensures Valid() && fresh(records) && records[..] == InitSlots()
    {
      records := new Record[MAX](_ => EMPTY);
      new;
      assert records[..] == InitSlots();
    }

    method FindIndex(d: u32) returns (i: nat)
      ensures i == IndexOf(records[..], d)
    {
      for k := 0 to records.Length
        invariant forall j :: 0 <= j < k ==> records[j].dtc != d
      {
        if records[k].dtc == d {
          IndexUnique(records[..], d, k);
          return k;
        }
      }
      IndexNone(records[..], d);
      return records.Length;
    }

    method FindOrCreate(d: u32) returns (i: nat)
      modifies records
      ensures Placed(records[..], i) == Dtc.FindOrCreate(old(records[..]), d)
    {
      i := FindIndex(d);
      if i < records.Length {
        return;
      }
      var e := FindIndex(0);
      if e < records.Length {
        records[e] := records[e].(dtc := d);
        records[e] := records[e].(status := 0);
        records[e] := records[e].(snapLen := 0);
        records[e] := records[e].(extLen := 0);
        return e;
      }
      return records.Length;
    }

    method SetStatus(d: u32, mask: bv8, on: bool)
      requires Valid()
      modifies records
      ensures Valid() && records[..] == Dtc.SetStatus(old(records[..]), d, mask, on)
    {
      SetStatusRefines(records[..], d, mask, on);
      hide Sound;
      if d == 0 {
        return;
      }
      var i;
      if on {
        i := FindOrCreate(d);
        if i == records.Length {
          return;
        }
        BitsOf(records[i].status, mask);
        records[i] := records[i].(status := records[i].status | mask);
      } else {
        i := FindIndex(d);
        if i == records.Length {
          return;
        }
        BitsOf(records[i].status, mask);
        records[i] := records[i].(status := records[i].status & !mask);
      }
    }

    method GetStatus(d: u32) returns (status: bv8)
      ensures status == Dtc.GetStatus(records[..], d)
    {
      var i := FindIndex(d);
      if i == records.Length {
        return 0;
      }
      return records[i].status;
    }

    /** uds_dtc_get_by_status_mask into a buffer of max codes. */
    method GetByStatusMask(mask: bv8, max: nat) returns (ds: seq<u32>)
      ensures ds == Matching(records[..], mask)[..Min(max, |Matching(records[..], mask)|)]
    {
      hide Hit;
      ds := [];
      var i := 0;
      while i < records.Length && |ds| < max
        invariant i <= records.Length && |ds| <= max
        invariant ds == Matching(records[..i], mask)
        decreases records.Length - i
      {
        assert records[..i + 1][..i] == records[..i];
        if Hit(records[i], mask) {
          ds := ds + [records[i].dtc];
        }
        i := i + 1;
      }
      MatchingPrefix(records[..], mask, i);
      assert records[..records.Length] == records[..];
    }

    lemma {:induction false} MatchingPrefix(s: Slots, mask: bv8, i: nat)
      requires i <= |s|
      ensures Matching(s[..i], mask) <= Matching(s, mask)
      decreases |s|
    {
      hide Hit;
      if i < |s| {
        assert s[..|s| - 1][..i] == s[..i];
        MatchingPrefix(s[..|s| - 1], mask, i);
      } else {
        assert s[..i] == s;
      }
    }

    /** uds_dtc_get_count agrees with the query. */
    method GetCount(mask: bv8) returns (count: nat)
      ensures count == |Matching(records[..], mask)|
    {
      hide Hit;
      count := 0;
      for i := 0 to records.Length
        invariant count == |Matching(records[..i], mask)|
      {
        assert records[..i + 1][..i] == records[..i];
        if Hit(records[i], mask) {
          count := count + 1;
        }
      }
      assert records[..records.Length] == records[..];
    }

    method Clear(group: u32)
      requires Valid()
      modifies records
      ensures Valid() && records[..] == Dtc.Clear(old(records[..]), group)
    {
      ClearRefines(records[..], group);
      hide Sound;
      for i := 0 to records.Length
        invariant forall j :: 0 <= j < i ==> records[j] == Dtc.Clear(old(records[..]), group)[j]
        invariant forall j :: i <= j < records.Length ==> records[j] == old(records[j])
      {
        if records[i].dtc != 0 {
          if group == ALL_GROUPS {
            records[i] := EMPTY;
          } else if records[i].dtc / 0x10_0000 % 16 == group % 16 {
            records[i] := EMPTY;
          }
        }
      }
      assert records[..] == Dtc.Clear(old(records[..]), group);
    }

    method SetSnapshot(d: u32, data: seq<u8>) returns (ok: bool)
      requires Valid()
      modifies records
      ensures Valid() && Stored(records[..], ok) == Dtc.SetSnapshot(old(records[..]), d, data)
    {
      hide Sound, Abs, Codes, Dtc.FindOrCreate, IndexOf, InfoOf;
      SetSnapshotRefines(records[..], d, data);
      if d == 0 || |data| == 0 || |data| > 8 {
        return false;
      }
      ghost var before := records[..];
      FindOrCreateRefines(before, d);
      var i := FindOrCreate(d);
      if i == records.Length {
        return false;
      }
      ghost var placed := records[..];
      RecordSound(placed, i);
      records[i] := records[i].(snapshot := data + records[i].snapshot[|data|..]);
      records[i] := records[i].(snapLen := |data|);
      assert records[..] == placed[i := placed[i].(snapshot := data + placed[i].snapshot[|data|..], snapLen := |data|)];
      return true;
    }

    method SetExtended(d: u32, data: seq<u8>) returns (ok: bool)
      requires Valid()
      modifies records
      ensures Valid() && Stored(records[..], ok) == Dtc.SetExtended(old(records[..]), d, data)
    {
      hide Sound, Abs, Codes, Dtc.FindOrCreate, IndexOf, InfoOf;
      SetExtendedRefines(records[..], d, data);
      if d == 0 || |data| == 0 || |data| > 8 {
        return false;
      }
      ghost var before := records[..];
      FindOrCreateRefines(before, d);
      var i := FindOrCreate(d);
      if i == records.Length {
        return false;
      }
      ghost var placed := records[..];
      RecordSound(placed, i);
      records[i] := records[i].(ext := data + records[i].ext[|data|..]);
      records[i] := records[i].(extLen := |data|);
      assert records[..] == placed[i := placed[i].(ext := data + placed[i].ext[|data|..], extLen := |data|)];
      return true;
    }

    /** The stored snapshot of a code; empty for an unknown code or one without data. */
    method GetSnapshot(d: u32) returns (data: seq<u8>)
      requires Valid()
      ensures data == if d in Abs(records[..]) then Abs(records[..])[d].snapshot else []
    {
      var i := FindIndex(d);
      AbsHas(records[..], d);
      if i == records.Length {
        return [];
      }
      RecordSound(records[..], i);
      return records[i].snapshot[..records[i].snapLen];
    }

    method GetExtended(d: u32) returns (data: seq<u8>)
      requires Valid()
      ensures data == if d in Abs(records[..]) then Abs(records[..])[d].ext else []
    {
      var i := FindIndex(d);
      AbsHas(records[..], d);
      if i == records.Length {
        return [];
      }
      RecordSound(records[..], i);
      return records[i].ext[..records[i].extLen];
    }

    /** compute_availability_mask. */
    method Availability(ds: seq<u32>) returns (available: bv8)
      ensures available == OrStatus(records[..], ds)
    {
      hide Dtc.GetStatus;
      available := 0;
      for i := 0 to |ds|
        invariant available == OrStatus(records[..], ds[..i])
      {
        var status := GetStatus(ds[i]);
        available := available | status;
        assert ds[..i + 1][..i] == ds[..i];
      }
      assert ds[..|ds|] == ds;
    }

    /** write_dtc_records: as many whole records as fit behind position at, and nothing before it. */
    method WriteRecords(ds: seq<u32>, buf: array<u8>, at: nat) returns (offset: nat)
      requires at <= buf.Length
      modifies buf
      ensures offset == 4 * Min(|ds|, (buf.Length - at) / 4)
      ensures buf[..at] == old(buf[..at])
      ensures buf[at..at + offset] == Entries(records[..], ds[..offset / 4])
    {
      hide Dtc.GetStatus, Entries, Min;
      offset := 0;
      var i := 0;
      while i < |ds| && at + offset + 4 <= buf.Length
        invariant i <= |ds| && offset == 4 * i && at + offset <= buf.Length
        invariant buf[..at] == old(buf[..at])
        invariant buf[at..at + offset] == Entries(records[..], ds[..i])
      {
        var status := GetStatus(ds[i]);
        ghost var before := buf[..];
        CopyInto(buf, at + offset, [ds[i] / 0x1_0000 % 256, ds[i] / 0x100 % 256, ds[i] % 256, status as int]);
        Appended(before, at, at + offset, Entry(ds[i], status), buf[..]);
        EntriesNext(records[..], ds, i);
        offset := offset + 4;
        i := i + 1;
      }
      WholeRecords(|ds|, i, buf.Length - at);
    }

    /** 0x19 subfunction 0x02 (and, with mask 0xFF, 0x0A): query, availability mask, then the records,
        which all fit the 256-byte response buffer. */
    method ReportByMask(mask: bv8, buf: array<u8>) returns (len: nat)
      requires Valid() && buf.Length == 256
      modifies buf
      ensures len <= 256 && buf[..len] == Body(records[..], mask)
    {
      hide Matching, OrStatus, Entries, Sound;
      MatchingFits(records[..], mask);
      var ds := GetByStatusMask(mask, MAX);
      assert ds == Matching(records[..], mask);
      var available := Availability(ds);
      buf[0] := mask as int;
      buf[1] := available as int;
      var offset := WriteRecords(ds, buf, 2);
      len := 2 + offset;
      assert ds[..offset / 4] == ds;
      assert buf[..len] == buf[..2] + buf[2..len];
    }

    lemma MatchingFits(s: Slots, mask: bv8)
      ensures |Matching(s, mask)| <= |s|
    {
    }

    /** 0x14 without its response: the group is byte 1 and two data bytes. */
    method ClearDiagnosticInfo(session: u8, unlocked: bool, r: Request) returns (nrc: u8)
      requires Valid()
      modifies records
      ensures Valid()
      ensures nrc == if session == 1 then 0x22 else if !unlocked then 0x33 else if |r.data| != 2 then 0x13 else 0x00
      ensures nrc != 0x00 ==> records[..] == old(records[..])
      ensures nrc == 0x00 ==>
                Abs(records[..]) == MapWithout(Abs(old(records[..])), Word([Byte1(r)] + r.data))
    {
      if session == DEFAULT_SESSION {
        return NRC_CONDITIONS_NOT_CORRECT;
      }
      if !unlocked {
        return NRC_SECURITY_ACCESS_DENIED;
      }
      if |r.data| != 2 {
        return NRC_INCORRECT_LENGTH;
      }
      ghost var before := records[..];
      ClearRefines(before, Word([Byte1(r)] + r.data));
      Clear(Word([Byte1(r)] + r.data));
      return NRC_POSITIVE;
    }
  }
}
