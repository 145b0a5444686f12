/** ReadDTCInformation: the mask query, the availability mask, and the response body of subfunctions
    0x02 and 0x0A, which decodes back to the database. */
module DtcReport {
  import opened Bytes
  import opened Dtc

  // ---------------------------------------------------------------------------------------------
  // The mask query
  // ---------------------------------------------------------------------------------------------

  ghost predicate FromSlot(s: Slots, mask: bv8, d: u32) {
    exists i :: 0 <= i < |s| && s[i].dtc == d && Hit(s[i], mask)
  }

  lemma FromSlotSnoc(t: Slots, r: Record, mask: bv8, d: u32)
    ensures FromSlot(t + [r], mask, d) <==> FromSlot(t, mask, d) || (r.dtc == d && Hit(r, mask))
  {
    hide Hit;
    var s := t + [r];
    if FromSlot(t, mask, d) {
      var i :| 0 <= i < |t| && t[i].dtc == d && Hit(t[i], mask);
      assert s[i] == t[i];
    }
    if r.dtc == d && Hit(r, mask) {
      assert s[|t|] == r;
    }
    if FromSlot(s, mask, d) {
      var i :| 0 <= i < |s| && s[i].dtc == d && Hit(s[i], mask);
      assert i < |t| ==> s[i] == t[i];
    }
  }

  lemma {:induction false} MatchingFromSlots(s: Slots, mask: bv8)
    ensures forall d :: d in Matching(s, mask) <==> FromSlot(s, mask, d)
    decreases |s|
  {
    hide Hit, FromSlot;
    if s != [] {
      var n := |s| - 1;
      MatchingFromSlots(s[..n], mask);
      assert s == s[..n] + [s[n]];
      forall d ensures d in Matching(s, mask) <==> FromSlot(s, mask, d) {
        FromSlotSnoc(s[..n], s[n], mask, d);
      }
    } else {
      forall d ensures !FromSlot(s, mask, d) {
        NothingFromNothing(mask, d);
      }
    }
  }

  lemma NothingFromNothing(mask: bv8, d: u32)
    ensures !FromSlot([], mask, d)
  {
  }

  lemma {:induction false} MatchingDistinct(s: Slots, mask: bv8)
    requires Sound(s)
    ensures forall i, j :: 0 <= i < j < |Matching(s, mask)| ==> Matching(s, mask)[i] != Matching(s, mask)[j]
    decreases |s|
  {
    hide SoundRecord, Hit;
    if s != [] {
      var n := |s| - 1;
      var t, r := s[..n], s[n];
      MatchingDistinct(t, mask);
      MatchingFromSlots(t, mask);
      assert !(Hit(r, mask) && r.dtc in Matching(t, mask)) by {
        if Hit(r, mask) && r.dtc in Matching(t, mask) {
          var i :| 0 <= i < |t| && t[i].dtc == r.dtc && Hit(t[i], mask);
          assert s[i].dtc == s[n].dtc;
          HitIsReal(r, mask);
        }
      }
    }
  }

  lemma HitIsReal(r: Record, mask: bv8)
    ensures Hit(r, mask) ==> r.dtc != 0
  {
  }

  lemma MatchingMeets(s: Slots, mask: bv8)
    requires Sound(s)
    ensures forall d :: d in Matching(s, mask) <==> d in Abs(s) && Meets(Abs(s)[d].status, mask)
    ensures forall i, j :: 0 <= i < j < |Matching(s, mask)| ==> Matching(s, mask)[i] != Matching(s, mask)[j]
  {
    MatchingFromSlots(s, mask);
    MatchingDistinct(s, mask);
    hide Matching, FromSlot, Abs, Meets;
    forall d ensures d in Matching(s, mask) <==> d in Abs(s) && Meets(Abs(s)[d].status, mask) {
      FromSlotInMap(s, mask, d);
    }
  }

  lemma FromSlotInMap(s: Slots, mask: bv8, d: u32)
    requires Sound(s)
    ensures FromSlot(s, mask, d) <==> d in Abs(s) && Meets(Abs(s)[d].status, mask)
  {
    hide IndexOf, SoundRecord, Meets, InfoOf;
    if FromSlot(s, mask, d) {
      var i :| 0 <= i < |s| && s[i].dtc == d && Hit(s[i], mask);
      AbsAt(s, i);
      StatusOfInfo(s, i);
    }
    if d in Codes(s) && Meets(Abs(s)[d].status, mask) {
      var i :| 0 <= i < |s| && s[i].dtc != 0 && s[i].dtc == d;
      AbsAt(s, i);
      StatusOfInfo(s, i);
      assert Hit(s[i], mask);
    }
  }

  lemma StatusOfInfo(s: Slots, i: nat)
    requires Sound(s) && i < |s|
    ensures SoundRecord(s[i]) && InfoOf(s[i]).status == s[i].status
  {
  }

  lemma ListedIff(s: Slots, mask: bv8, d: u32)
    requires Sound(s)
    ensures d in Matching(s, mask) <==> d in Abs(s) && Abs(s)[d].status & mask != 0
  {
    MatchingMeets(s, mask);
    hide Matching, Abs, Sound;
  }

  /** The query lists exactly the codes stored with a status that has a bit of the mask, each once. */
  lemma MatchingExact(s: Slots, mask: bv8)
    requires Sound(s)
    ensures forall d :: d in Matching(s, mask) <==> d in Abs(s) && Abs(s)[d].status & mask != 0
    ensures forall i, j :: 0 <= i < j < |Matching(s, mask)| ==> Matching(s, mask)[i] != Matching(s, mask)[j]
  {
    MatchingDistinct(s, mask);
    hide Matching, Abs, Sound;
    forall d ensures d in Matching(s, mask) <==> d in Abs(s) && Abs(s)[d].status & mask != 0 {
      ListedIff(s, mask, d);
    }
  }

  lemma {:induction false} NoRepeatsCounted(ds: seq<u32>, all: set<u32>)
    requires forall i, j :: 0 <= i < j < |ds| ==> ds[i] != ds[j]
    requires forall d :: d in ds <==> d in all
    ensures |ds| == |all|
    decreases |ds|
  {
    if ds == [] {
      assert all == {};
    } else {
      var n := |ds| - 1;
      assert ds == ds[..n] + [ds[n]];
      NoRepeatsCounted(ds[..n], all - {ds[n]});
    }
  }

  /** The stored codes with a status bit of the mask. */
  ghost function Selected(s: Slots, mask: bv8): set<u32>
    requires Sound(s)
  {
    set d | d in Abs(s) && Abs(s)[d].status & mask != 0
  }

  /** So the length of the list is the number of such codes. */
  lemma CountIsNumberOfCodes(s: Slots, mask: bv8)
    requires Sound(s)
    ensures |Matching(s, mask)| == |Selected(s, mask)|
  {
    MatchingMeets(s, mask);
    hide Matching, Abs, Sound, Selected;
    forall d ensures d in Matching(s, mask) <==> d in Selected(s, mask) {
      ListedIff(s, mask, d);
      InSelected(s, mask, d);
    }
    NoRepeatsCounted(Matching(s, mask), Selected(s, mask));
  }

  lemma InSelected(s: Slots, mask: bv8, d: u32)
    requires Sound(s)
    ensures d in Selected(s, mask) <==> d in Abs(s) && Abs(s)[d].status & mask != 0
  {
    hide Abs, Sound;
  }

  /** ds are codes of different slots, in slot order. */
  predicate InSlotOrder(s: Slots, ds: seq<u32>) {
    && (forall i :: 0 <= i < |ds| ==> IndexOf(s, ds[i]) < |s|)
    && forall i, j :: 0 <= i < j < |ds| ==> IndexOf(s, ds[i]) < IndexOf(s, ds[j])
  }

  lemma IndexInFront(s: Slots, n: nat, d: u32)
    requires n <= |s| && IndexOf(s[..n], d) < n
    ensures IndexOf(s, d) == IndexOf(s[..n], d)
  {
    assert s[IndexOf(s[..n], d)] == s[..n][IndexOf(s[..n], d)];
    assert forall j :: 0 <= j < IndexOf(s[..n], d) ==> s[j] == s[..n][j];
  }

  lemma OrderGoesOn(s: Slots, n: nat, ds: seq<u32>)
    requires n <= |s| && InSlotOrder(s[..n], ds)
    ensures InSlotOrder(s, ds) && forall i :: 0 <= i < |ds| ==> IndexOf(s, ds[i]) < n
  {
    hide IndexOf;
    forall i | 0 <= i < |ds| ensures IndexOf(s, ds[i]) == IndexOf(s[..n], ds[i]) < n {
      IndexInFront(s, n, ds[i]);
    }
  }

  lemma OrderSnoc(s: Slots, ds: seq<u32>, d: u32)
    requires InSlotOrder(s, ds) && IndexOf(s, d) < |s|
    requires forall i :: 0 <= i < |ds| ==> IndexOf(s, ds[i]) < IndexOf(s, d)
    ensures InSlotOrder(s, ds + [d])
  {
    hide IndexOf;
  }

  /** The list keeps the order of the slots. */
  lemma {:induction false} ListedInSlotOrder(s: Slots, mask: bv8)
    requires Sound(s)
    ensures InSlotOrder(s, Matching(s, mask))
    decreases |s|
  {
    hide Hit, SoundRecord, IndexOf, InSlotOrder, Abs;
    if s != [] {
      var n := |s| - 1;
      var front := Matching(s[..n], mask);
      ListedInSlotOrder(s[..n], mask);
      OrderGoesOn(s, n, front);
      HitIsReal(s[n], mask);
      if Hit(s[n], mask) {
        AbsAt(s, n);
        OrderSnoc(s, front, s[n].dtc);
      } else {
        assert front + [] == front;
      }
    } else {
      assert InSlotOrder([], []) by { NothingInOrder(); }
    }
  }

  lemma NothingInOrder()
    ensures InSlotOrder([], [])
  {
  }

  // ---------------------------------------------------------------------------------------------
  // The response body
  // ---------------------------------------------------------------------------------------------

  /** Three code bytes, high byte first, and the status. */
  function Entry(d: u32, status: bv8): (b: seq<u8>)
    ensures |b| == 4
  {
    [d / 0x1_0000 % 256, d / 0x100 % 256, d % 256, status as int]
  }

  /** write_dtc_records, without its size limit. */
  function Entries(s: Slots, ds: seq<u32>): (b: seq<u8>)
    ensures |b| == 4 * |ds|
  {
    if ds == [] then [] else Entries(s, ds[..|ds| - 1]) + Entry(ds[|ds| - 1], GetStatus(s, ds[|ds| - 1]))
  }

  /** compute_availability_mask. */
  function OrStatus(s: Slots, ds: seq<u32>): bv8 {
    if ds == [] then 0 else OrStatus(s, ds[..|ds| - 1]) | GetStatus(s, ds[|ds| - 1])
  }

  function Body(s: Slots, mask: bv8): (b: seq<u8>)
    ensures |b| == 2 + 4 * |Matching(s, mask)|
  {
    var ds := Matching(s, mask);
    [mask as int, OrStatus(s, ds) as int] + Entries(s, ds)
  }

  datatype Listed = Listed(dtc: u32, status: bv8)

  /** A reader of the records. */
  function DecodeEntries(b: seq<u8>): (r: seq<Listed>)
    requires |b| % 4 == 0
    ensures |r| == |b| / 4
    decreases |b|
  {
    if b == [] then []
    else
      var n := |b| - 4;
      DecodeEntries(b[..n]) + [Listed((b[n] as int) * 0x1_0000 + (b[n + 1] as int) * 0x100 + b[n + 2], b[n + 3] as bv8)]
  }

  /** The three code bytes a record has room for. */
  function Cut(d: u32): (c: u32)
    ensures c < 0x100_0000
    ensures c == d <==> d < 0x100_0000
  {
    d % 0x100_0000
  }

  lemma EntryDecodes(d: u32, status: bv8)
    ensures var e := Entry(d, status);
            (e[0] as int) * 0x1_0000 + (e[1] as int) * 0x100 + e[2] == Cut(d) && e[3] as bv8 == status
  {
    assert d / 0x1_0000 == d / 0x100_0000 * 0x100 + d / 0x1_0000 % 0x100;
    assert d / 0x100 == d / 0x1_0000 * 0x100 + d / 0x100 % 0x100;
    assert d == d / 0x100 * 0x100 + d % 0x100;
  }

  lemma DecodeSnoc(b: seq<u8>, e: seq<u8>)
    requires |b| % 4 == 0 && |e| == 4
    ensures |b + e| % 4 == 0
    ensures DecodeEntries(b + e) ==
              DecodeEntries(b) + [Listed((e[0] as int) * 0x1_0000 + (e[1] as int) * 0x100 + e[2], e[3] as bv8)]
  {
    assert (b + e)[..|b|] == b;
  }

  /** What a reader should find. */
  function Listing(s: Slots, ds: seq<u32>): (ls: seq<Listed>)
    ensures |ls| == |ds| && forall i :: 0 <= i < |ds| ==> ls[i] == Listed(Cut(ds[i]), GetStatus(s, ds[i]))
  {
    seq(|ds|, i requires 0 <= i < |ds| => Listed(Cut(ds[i]), GetStatus(s, ds[i])))
  }

  lemma {:induction false} EntriesDecode(s: Slots, ds: seq<u32>)
    ensures DecodeEntries(Entries(s, ds)) == Listing(s, ds)
    decreases |ds|
  {
    hide GetStatus, Entry, DecodeEntries, Cut;
    if ds != [] {
      var n := |ds| - 1;
      EntriesDecode(s, ds[..n]);
      EntryDecodes(ds[n], GetStatus(s, ds[n]));
      DecodeSnoc(Entries(s, ds[..n]), Entry(ds[n], GetStatus(s, ds[n])));
      assert Listing(s, ds) == Listing(s, ds[..n]) + [Listed(Cut(ds[n]), GetStatus(s, ds[n]))];
    } else {
      assert DecodeEntries([]) == [] by { NothingDecodes(); }
    }
  }

  lemma NothingDecodes()
    ensures DecodeEntries([]) == []
  {
  }

  lemma OrMeets(a: bv8, b: bv8, x: bv8)
    ensures Meets(a | b, x) <==> Meets(a, x) || Meets(b, x)
  {
  }

  lemma {:induction false} OrStatusExact(s: Slots, ds: seq<u32>, x: bv8)
    ensures Meets(OrStatus(s, ds), x) <==> exists i :: 0 <= i < |ds| && Meets(GetStatus(s, ds[i]), x)
    decreases |ds|
  {
    hide GetStatus;
    if ds != [] {
      var n := |ds| - 1;
      OrStatusExact(s, ds[..n], x);
      OrMeets(OrStatus(s, ds[..n]), GetStatus(s, ds[n]), x);
      assert Meets(OrStatus(s, ds), x) <==> Meets(OrStatus(s, ds[..n]), x) || Meets(GetStatus(s, ds[n]), x);
      hide Meets, OrStatus;
      if i :| 0 <= i < |ds| && Meets(GetStatus(s, ds[i]), x) {
        assert i < n ==> ds[..n][i] == ds[i];
      }
      if i :| 0 <= i < n && Meets(GetStatus(s, ds[..n][i]), x) {
        assert ds[i] == ds[..n][i];
      }
    } else {
      assert OrStatus(s, ds) == 0 && !Meets(0, x);
    }
  }

  /** What a reader of the report finds. */
  function ReadBack(s: Slots, mask: bv8): seq<Listed> {
    DecodeEntries(Body(s, mask)[2..])
  }

  /** A stored code with a matching status, shown as c with status st. */
  ghost predicate ShownAs(s: Slots, mask: bv8, c: u32, st: bv8)
    requires Sound(s)
  {
    exists d :: d in Abs(s) && Cut(d) == c && Abs(s)[d].status == st && Meets(st, mask)
  }

  ghost predicate Matches(s: Slots, mask: bv8, d: u32, st: bv8)
    requires Sound(s)
  {
    d in Abs(s) && Abs(s)[d].status == st && Meets(st, mask)
  }

  /** For every database the report is 2 + 4 * count bytes and always fits the 256-byte buffer; it decodes to exactly
      the codes stored with a matching status, each with its status and cut to its three low bytes; and its second
      byte has a bit set exactly if some listed status has it. */
  lemma ReportDecodes(s: Slots, mask: bv8)
    requires Sound(s) && |s| == MAX
    ensures var b := Body(s, mask);
            && |b| == 2 + 4 * |Matching(s, mask)| <= 130 && b[0] as bv8 == mask
            && (var ls := ReadBack(s, mask);
                && |ls| == |Matching(s, mask)|
                && (forall c: u32, st: bv8 :: Listed(c, st) in ls <==> ShownAs(s, mask, c, st))
                && (forall x: bv8 :: Meets(b[1] as bv8, x) <==> SomeMeets(ls, x)))
  {
    var ds := Matching(s, mask);
    EntriesDecode(s, ds);
    BodyParts(s, mask);
    hide Body, Matching, Entries, DecodeEntries, GetStatus, Meets, Abs, Sound, OrStatus, SomeMeets, Cut, ShownAs;
    forall c: u32, st: bv8 ensures Listed(c, st) in Listing(s, ds) <==> ShownAs(s, mask, c, st) {
      ListedShown(s, mask, c, st);
    }
    forall x: bv8 ensures Meets(OrStatus(s, ds), x) <==> SomeMeets(Listing(s, ds), x) {
      AvailabilityExact(s, ds, x);
    }
  }

  lemma ListedShown(s: Slots, mask: bv8, c: u32, st: bv8)
    requires Sound(s)
    ensures Listed(c, st) in Listing(s, Matching(s, mask)) <==> ShownAs(s, mask, c, st)
  {
    MatchingMeets(s, mask);
    var ds := Matching(s, mask);
    var ls := Listing(s, ds);
    hide Matching, GetStatus, Abs, Sound, Cut;
    if Listed(c, st) in ls {
      var i :| 0 <= i < |ls| && ls[i] == Listed(c, st);
      GetStatusRefines(s, ds[i]);
      assert ds[i] in ds;
    }
    if ShownAs(s, mask, c, st) {
      var d :| d in Abs(s) && Cut(d) == c && Abs(s)[d].status == st && Meets(st, mask);
      GetStatusRefines(s, d);
      var i :| 0 <= i < |ds| && ds[i] == d;
      assert ls[i] == Listed(c, st);
    }
  }

  /** The report is the stored codes themselves, each once, if and only if all of them have 24 bits. */
  lemma ReportExactIff(s: Slots, mask: bv8)
    requires Sound(s) && |s| == MAX
    ensures Faithful(s, mask) <==> forall d :: d in Matching(s, mask) ==> d < 0x100_0000
    ensures Faithful(s, mask) ==>
              forall i, j :: 0 <= i < j < |ReadBack(s, mask)| ==> ReadBack(s, mask)[i].dtc != ReadBack(s, mask)[j].dtc
  {
    hide Faithful, Matching, ReadBack, Sound;
    if forall d :: d in Matching(s, mask) ==> d < 0x100_0000 {
      ShortCodesFaithful(s, mask);
    }
    if d :| d in Matching(s, mask) && d >= 0x100_0000 {
      LongCodeLost(s, mask, d);
    }
  }

  ghost predicate Faithful(s: Slots, mask: bv8)
    requires Sound(s)
  {
    forall d: u32, st: bv8 :: Listed(d, st) in ReadBack(s, mask) <==> Matches(s, mask, d, st)
  }

  lemma ReadBackListing(s: Slots, mask: bv8)
    ensures ReadBack(s, mask) == Listing(s, Matching(s, mask))
  {
    EntriesDecode(s, Matching(s, mask));
    BodyParts(s, mask);
    hide Matching, Entries, Body, OrStatus, DecodeEntries;
  }

  lemma ShortCodesFaithful(s: Slots, mask: bv8)
    requires Sound(s) && forall d :: d in Matching(s, mask) ==> d < 0x100_0000
    ensures Faithful(s, mask)
    ensures forall i, j :: 0 <= i < j < |ReadBack(s, mask)| ==> ReadBack(s, mask)[i].dtc != ReadBack(s, mask)[j].dtc
  {
    ReadBackListing(s, mask);
    MatchingMeets(s, mask);
    var ds := Matching(s, mask);
    var ls := Listing(s, ds);
    hide Matching, ReadBack, GetStatus, Sound, Abs, Cut, ShownAs, Matches;
    forall d: u32, st: bv8 ensures Listed(d, st) in ls <==> Matches(s, mask, d, st) {
      ListedShown(s, mask, d, st);
      ShownIsStored(s, mask, d, st);
    }
    forall i, j | 0 <= i < j < |ls| ensures ls[i].dtc != ls[j].dtc {
      assert ds[i] in ds && ds[j] in ds;
    }
  }

  lemma LongCodeLost(s: Slots, mask: bv8, d: u32)
    requires Sound(s) && d in Matching(s, mask) && d >= 0x100_0000
    ensures !Faithful(s, mask)
  {
    ReadBackListing(s, mask);
    MatchingMeets(s, mask);
    var st := Abs(s)[d].status;
    assert Matches(s, mask, d, st);
    ListingShort(s, Matching(s, mask));
    hide Matching, ReadBack, GetStatus, Sound, Abs, Matches, Listing;
    assert Listed(d, st) !in ReadBack(s, mask);
  }

  lemma ListingShort(s: Slots, ds: seq<u32>)
    ensures forall l :: l in Listing(s, ds) ==> l.dtc < 0x100_0000
  {
    hide GetStatus;
  }

  lemma ShownIsStored(s: Slots, mask: bv8, d: u32, st: bv8)
    requires Sound(s) && forall c :: c in Matching(s, mask) ==> c < 0x100_0000
    ensures ShownAs(s, mask, d, st) <==> Matches(s, mask, d, st)
  {
    MatchingMeets(s, mask);
    hide Matching, Abs, Sound, Meets;
    if Matches(s, mask, d, st) {
      assert d in Matching(s, mask) && Cut(d) == d;
    }
    if ShownAs(s, mask, d, st) {
      var c :| c in Abs(s) && Cut(c) == d && Abs(s)[c].status == st && Meets(st, mask);
      assert c in Matching(s, mask);
    }
  }

  ghost predicate SomeMeets(ls: seq<Listed>, x: bv8) {
    exists i :: 0 <= i < |ls| && Meets(ls[i].status, x)
  }

  lemma AvailabilityExact(s: Slots, ds: seq<u32>, x: bv8)
    ensures Meets(OrStatus(s, ds), x) <==> SomeMeets(Listing(s, ds), x)
  {
    hide GetStatus, Meets, OrStatus;
    OrStatusExact(s, ds, x);
    var ls := Listing(s, ds);
    if i :| 0 <= i < |ds| && Meets(GetStatus(s, ds[i]), x) {
      assert ls[i].status == GetStatus(s, ds[i]);
    }
    if i: int :| 0 <= i < |ls| && Meets(ls[i].status, x) {
      assert Meets(GetStatus(s, ds[i]), x);
    }
  }

  lemma BodyParts(s: Slots, mask: bv8)
    ensures var b, ds := Body(s, mask), Matching(s, mask);
            |b| == 2 + 4 * |ds| && b[0] as bv8 == mask && b[1] as bv8 == OrStatus(s, ds) && b[2..] == Entries(s, ds)
  {
  }

  /** The statuses of a listing, ORed together. */
  function AllStatuses(ls: seq<Listed>): bv8 {
    if ls == [] then 0 else AllStatuses(ls[..|ls| - 1]) | ls[|ls| - 1].status
  }

  lemma {:induction false} OrOfListing(s: Slots, ds: seq<u32>)
    ensures OrStatus(s, ds) == AllStatuses(Listing(s, ds))
    decreases |ds|
  {
    hide GetStatus, Cut;
    if ds != [] {
      var n := |ds| - 1;
      OrOfListing(s, ds[..n]);
      assert Listing(s, ds)[..n] == Listing(s, ds[..n]);
    }
  }

  /** The report byte by byte: the mask, the OR of the listed statuses, and four bytes for each code listed, its bits
      23:16, 15:8 and 7:0 and its status. */
  lemma ReportBytes(s: Slots, mask: bv8, i: nat)
    requires Sound(s)
    ensures var b, ds := Body(s, mask), Matching(s, mask);
            && |b| == 2 + 4 * |ds| && b[0] as bv8 == mask && b[1] as bv8 == AllStatuses(ReadBack(s, mask))
            && (i < |ds| ==>
                  && ds[i] in Abs(s)
                  && b[2 + 4 * i..6 + 4 * i] ==
                     [ds[i] / 0x1_0000 % 256, ds[i] / 0x100 % 256, ds[i] % 256, Abs(s)[ds[i]].status as int])
  {
    hide Body, Matching, Entries, GetStatus, Abs, Sound, OrStatus, ReadBack, Listing, AllStatuses, Entry;
    var ds := Matching(s, mask);
    BodyParts(s, mask);
    ReadBackListing(s, mask);
    OrOfListing(s, ds);
    if i < |ds| {
      assert ds[i] in ds;
      ListedIff(s, mask, ds[i]);
      GetStatusRefines(s, ds[i]);
      EntryAt(s, ds, i);
      EntryBytes(ds[i], GetStatus(s, ds[i]));
      SliceBehind(Body(s, mask), 2, 4 * i, 4 * i + 4);
    }
  }

  lemma EntryBytes(d: u32, status: bv8)
    ensures Entry(d, status) == [d / 0x1_0000 % 256, d / 0x100 % 256, d % 256, status as int]
  {
  }

  lemma SliceBehind(b: seq<u8>, n: nat, lo: nat, hi: nat)
    requires lo <= hi && n + hi <= |b|
    ensures b[n..][lo..hi] == b[n + lo..n + hi]
  {
  }

  lemma {:induction false} EntryAt(s: Slots, ds: seq<u32>, i: nat)
    requires i < |ds|
    ensures Entries(s, ds)[4 * i..4 * i + 4] == Entry(ds[i], GetStatus(s, ds[i]))
    decreases |ds|
  {
    hide GetStatus, Entry;
    var n := |ds| - 1;
    var front := Entries(s, ds[..n]);
    if i < n {
      EntryAt(s, ds[..n], i);
      assert Entries(s, ds)[4 * i..4 * i + 4] == front[4 * i..4 * i + 4];
    }
  }

  lemma MeetsAll(a: bv8)
    ensures Meets(a, 0xFF) <==> a != 0
  {
  }

  /** Subfunction 0x0A is described as reporting every stored code whatever its status; it queries with
      mask 0xFF and so reports a stored code exactly if its status is not zero. */
  lemma SupportedReportsIff(s: Slots, d: u32)
    requires Sound(s) && d in Abs(s)
    ensures d in Matching(s, 0xFF) <==> Abs(s)[d].status != 0
  {
    MatchingMeets(s, 0xFF);
    MeetsAll(Abs(s)[d].status);
  }

  /** The plainest such code: one that got a snapshot before any status. */
  lemma SnapshotOnlyIsMissing(d: u32, data: seq<u8>)
    requires d != 0 && 1 <= |data| <= 8
    ensures var s := Dtc.SetSnapshot(InitSlots(), d, data).slots;
            Sound(s) && d in Abs(s) && Abs(s)[d] == Info(0, data, []) && d !in Matching(s, 0xFF)
  {
    InitIsEmptyMap();
    SetSnapshotRefines(InitSlots(), d, data);
    hide Abs, Sound, Matching, SetSnapshot, InitSlots;
    SupportedReportsIff(SetSnapshot(InitSlots(), d, data).slots, d);
  }

  predicate Codes24(s: Slots) {
    forall i :: 0 <= i < |s| ==> s[i].dtc < 0x100_0000
  }

  predicate Op24(op: Op) {
    match op
    case Status(d, _, _) => d < 0x100_0000
    case Snapshot(d, _) => d < 0x100_0000
    case Extended(d, _) => d < 0x100_0000
    case ClearGroup(_) => true
  }

  lemma Slots24(s: Slots, d: u32)
    requires Codes24(s) && d < 0x100_0000
    ensures Codes24(FindOrCreate(s, d).slots)
    ensures var p := FindOrCreate(s, d); p.index < |s| ==> p.slots[p.index].dtc == d
  {
  }

  lemma StepKeeps24(s: Slots, op: Op)
    requires Sound(s) && Codes24(s) && Op24(op)
    ensures Codes24(Step(s, op))
  {
    match op
    case Status(d, _, _) => Slots24(s, d); hide Sound, FindOrCreate, IndexOf, WithBits;
    case Snapshot(d, _) => Slots24(s, d); hide Sound, FindOrCreate, IndexOf;
    case Extended(d, _) => Slots24(s, d); hide Sound, FindOrCreate, IndexOf;
    case ClearGroup(_) => hide Sound, InGroup;
  }

  lemma {:induction false} RunKeeps24(s: Slots, ops: seq<Op>)
    requires Sound(s) && Codes24(s) && forall i :: 0 <= i < |ops| ==> Op24(ops[i])
    ensures Codes24(Run(s, ops))
    decreases |ops|
  {
    hide Sound, Codes24, Step, Op24, Abs;
    if ops != [] {
      StepRefines(s, ops[0]);
      StepKeeps24(s, ops[0]);
      RunKeeps24(Step(s, ops[0]), ops[1..]);
    }
  }

  /** As long as callers use 24-bit codes, every report after every run lists exactly what is stored. */
  lemma ReportsOfRunsExact(ops: seq<Op>, mask: bv8)
    requires forall i :: 0 <= i < |ops| ==> Op24(ops[i])
    ensures var s := Run(InitSlots(), ops);
            forall d: u32, st: bv8 :: Listed(d, st) in ReadBack(s, mask) <==> Matches(s, mask, d, st)
  {
    var s := Run(InitSlots(), ops);
    RunKeeps24(InitSlots(), ops);
    MatchingFromSlots(s, mask);
    ReportExactIff(s, mask);
    hide ReadBack, Matching, Matches, Sound, Run, Hit, MAX;
    forall d | d in Matching(s, mask) ensures d < 0x100_0000 {
      assert FromSlot(s, mask, d);
    }
  }
}
