/** Single frames in plain numbers: the bytes a message is cut into, and what a context makes of any eight bytes. */
module LinFrames {
  import opened Bytes
  import opened LinProtocol
  import opened LinReassembly
  import opened LinOneShot
  import opened LinStreaming

  // ---------------------------------------------------------------------------------------------
  // The bytes of a message
  // ---------------------------------------------------------------------------------------------

  /** A payload, continued by zeros. */
  function ByteAt(p: seq<u8>, i: nat): u8 {
    if i < |p| then p[i] else 0
  }

  lemma CfByte(nad: u8, p: seq<u8>, k: nat, i: nat)
    requires Multi(p) && 1 <= k <= CfCount(|p|) && 2 <= i < 8
    ensures CfFrame(nad, p, k)[i] == ByteAt(p, 6 * k - 3 + i)
  {
    CfCountExact(|p|, k - 1);
    var b := Block(p, k);
    assert CfFrame(nad, p, k)[i] == Pad(b)[i - 2];
    assert i - 2 < |b| ==> Pad(b)[..|b|][i - 2] == p[6 * k - 3 + i];
  }

  /** A payload of 7 to 4095 bytes is cut into one FF with its length and first five bytes, and one CF for every further
      six bytes, which carries the number ((k - 1) mod 15) + 1; the last CF is filled up with zeros. */
  lemma MessageBytes(ffNad: u8, cfNad: u8, p: seq<u8>)
    requires 7 <= |p| <= 4095
    ensures var fs := MessageFrames(ffNad, cfNad, p);
            && |fs| == 1 + |p| / 6
            && fs[0] == [ffNad, 0x20 + |p| / 256, |p| % 256, p[0], p[1], p[2], p[3], p[4]]
            && forall k :: 1 <= k < |fs| ==>
                 && fs[k][0] == cfNad && fs[k][1] == 0x40 + (k - 1) % 15 + 1
                 && forall i :: 2 <= i < 8 ==> fs[k][i] == ByteAt(p, 6 * k - 3 + i)
  {
    CfCountExact(|p|, 0);
    var fs := MessageFrames(ffNad, cfNad, p);
    assert p[..5] == [p[0], p[1], p[2], p[3], p[4]];
    hide CfCount, ByteAt, CfFrame;
    forall k | 1 <= k < |fs|
      ensures fs[k][0] == cfNad && fs[k][1] == 0x40 + (k - 1) % 15 + 1
      ensures forall i :: 2 <= i < 8 ==> fs[k][i] == ByteAt(p, 6 * k - 3 + i)
    {
      SeqNumClosed(k);
      CfHead(cfNad, p, k);
      forall i | 2 <= i < 8 ensures fs[k][i] == ByteAt(p, 6 * k - 3 + i) {
        CfByte(cfNad, p, k, i);
      }
    }
  }

  lemma CfHead(nad: u8, p: seq<u8>, k: nat)
    requires Multi(p) && k >= 1
    ensures CfFrame(nad, p, k)[0] == nad && CfFrame(nad, p, k)[1] == 0x40 + SeqNum(k)
  {
  }

  /** The other two kinds of frame: a single frame holds its length and payload, filled up with zeros; flow control
      its status twice, block size and STmin. */
  lemma ShortFrameBytes(nad: u8, p: seq<u8>, fc: FlowControl)
    requires 1 <= |p| <= 6 && fc.status < 16
    ensures var f := SfFrame(nad, p);
            f[0] == nad && f[1] == |p| && forall i :: 2 <= i < 8 ==> f[i] == ByteAt(p, i - 2)
    ensures FcFrame(nad, fc) == [nad, 0x60 + fc.status, fc.status, fc.blockSize, fc.stmin, 0, 0, 0]
  {
    var f := SfFrame(nad, p);
    assert Pad(p)[..|p|] == p;
    forall i | 2 <= i < 8 ensures f[i] == ByteAt(p, i - 2) {
      assert f[i] == Pad(p)[i - 2];
      assert i - 2 < |p| ==> Pad(p)[..|p|][i - 2] == p[i - 2];
    }
  }

  // ---------------------------------------------------------------------------------------------
  // The address filter
  // ---------------------------------------------------------------------------------------------

  /** A frame is refused for its address exactly if it carries neither the context's own address nor, with functional
      reception on, 0x7E; and then nothing at all happens. */
  lemma AddressFilterIff(n: Node, f: Frame)
    ensures Decode(n, f).status == NadMismatch <==> f[0] != n.nad && !(f[0] == 0x7E && n.functional)
    ensures Decode(n, f).status == NadMismatch ==> Decode(n, f).node == n && Decode(n, f).pdu == None
  {
  }

  lemma {:induction false} UnaddressedUnheard(n: Node, fs: seq<Frame>)
    requires forall f :: f in fs ==> f[0] != n.nad && !(f[0] == 0x7E && n.functional)
    ensures Hear(n, fs) == Heard(n, [])
    decreases |fs|
  {
    if fs != [] {
      assert fs[0] in fs;
      AddressFilterIff(n, fs[0]);
      UnaddressedUnheard(n, fs[1..]);
    }
  }

  lemma EncodingAddressed(fs: seq<Frame>, nad: u8, p: seq<u8>)
    requires Encodes(fs, nad, p)
    ensures forall f :: f in fs ==> f[0] == nad
  {
    if |p| <= 6 {
      assert fs[0][..2 + |p|][0] == nad;
    }
  }

  /** An encoding sent to an address delivers its payload exactly to the contexts that have this address, and, if it
      is 0x7E, to those with functional reception on; to any other it delivers nothing. */
  lemma AddressedDeliveryIff(n: Node, nad: u8, p: seq<u8>, fs: seq<Frame>)
    requires Encodes(fs, nad, p)
    ensures Hear(n, fs).messages == [p] <==> nad == n.nad || (nad == 0x7E && n.functional)
    ensures Hear(n, fs).messages in {[p], []}
  {
    hide Encodes, Hear;
    if Accepts(n, nad) {
      EncodingRoundTrip(n, nad, p, fs);
    } else {
      EncodingAddressed(fs, nad, p);
      UnaddressedUnheard(n, fs);
    }
  }

  /** So a functional request reaches exactly the contexts that have functional reception on, or 0x7E for their own. */
  lemma FunctionalDeliveryIff(n: Node, p: seq<u8>, fs: seq<Frame>)
    requires Encodes(fs, 0x7E, p)
    ensures Hear(n, fs).messages == [p] <==> n.functional || n.nad == 0x7E
  {
    AddressedDeliveryIff(n, 0x7E, p, fs);
  }

  // ---------------------------------------------------------------------------------------------
  // The PCI byte
  // ---------------------------------------------------------------------------------------------

  /** Which of the frames that pass the filter are accepted: single frames of up to 6 bytes; FFs that announce
      at least 7, whatever bit 4 of their PCI byte; CFs while CFs are awaited that carry the number after the last one;
      all flow control but the WAITs beyond the limit; nothing with bit 7 set. */
  lemma AcceptedIff(n: Node, f: Frame)
    requires f[0] == n.nad || (f[0] == 0x7E && n.functional)
    ensures Decode(n, f).status == Ok <==>
            || f[1] <= 6
            || (0x20 <= f[1] < 0x40 && (f[1] as int) % 16 * 256 + f[2] >= 7)
            || (0x40 <= f[1] < 0x60 && n.rx.state == RxCf && f[1] == 0x40 + n.rx.seqNum % 15 + 1)
            || (0x60 <= f[1] < 0x80 && !(f[2] % 16 == 1 && (n.tx.waits + 1) % 256 > 3))
    ensures Decode(n, f).status == FcWaitExceeded <==>
            0x60 <= f[1] < 0x80 && f[2] % 16 == 1 && (n.tx.waits + 1) % 256 > 3
    ensures Decode(n, f).status in {Ok, PciError, FcWaitExceeded}
    ensures Decode(n, f).status == PciError ==> Decode(n, f).node == n
  {
  }

  /** What is handed up of an accepted frame: address and PCI byte as received, and the body of a single frame, the
      five bytes of an FF, everything received so far at a CF, nothing of flow control. */
  lemma HandedUp(n: Node, f: Frame)
    ensures var d := Decode(n, f);
            && (d.pdu.Some? <==> d.status == Ok)
            && (d.status == Ok ==>
                  && d.pdu.value.nad == f[0] && d.pdu.value.pci == f[1]
                  && (f[1] < 0x20 ==> d.pdu.value.data == f[2..2 + f[1]])
                  && (0x20 <= f[1] < 0x40 ==>
                        && d.pdu.value.data == d.node.rx.buf == f[3..]
                        && d.node.rx.expectedLen == (f[1] as int) % 16 * 256 + f[2])
                  && (0x40 <= f[1] < 0x60 ==> d.pdu.value.data == d.node.rx.buf && n.rx.buf <= d.node.rx.buf)
                  && (0x60 <= f[1] ==> d.pdu.value.data == [] && d.node.rx == n.rx))
  {
  }

  // ---------------------------------------------------------------------------------------------
  // Ends of a reassembly
  // ---------------------------------------------------------------------------------------------

  predicate NoFf(fs: seq<Frame>) {
    forall f :: f in fs ==> !(0x20 <= f[1] < 0x40)
  }

  /** While no CFs are awaited and no FF comes, every CF is refused. */
  lemma {:induction false} StaysDeaf(n: Node, fs: seq<Frame>, cf: Frame)
    requires n.rx.state != RxCf && NoFf(fs) && 0x40 <= cf[1] < 0x60
    ensures Hear(n, fs).node.rx.state != RxCf
    ensures Decode(Hear(n, fs).node, cf).status in {PciError, NadMismatch}
    decreases |fs|
  {
    if fs != [] {
      assert fs[0] in fs;
      StaysDeaf(Decode(n, fs[0]).node, fs[1..], cf);
    }
  }

  /** An accepted single frame ends the reassembly of a longer message: whatever follows short of the next FF, no
      CF is accepted any more. */
  lemma SingleFrameEndsReassembly(n: Node, sf: Frame, fs: seq<Frame>, cf: Frame)
    requires Decode(n, sf).status == Ok && sf[1] <= 6 && NoFf(fs) && 0x40 <= cf[1] < 0x60
    ensures Decode(n, sf).node.rx.state == RxSf
    ensures Decode(Hear(n, [sf] + fs).node, cf).status in {PciError, NadMismatch}
  {
    assert ([sf] + fs)[1..] == fs;
    StaysDeaf(Decode(n, sf).node, fs, cf);
  }

  /** So does the CF that completes it. */
  lemma CompletionEndsReassembly(n: Node, last: Frame, fs: seq<Frame>, cf: Frame)
    requires Message(n, last).Some? && NoFf(fs) && 0x40 <= cf[1] < 0x60
    ensures Decode(Hear(n, [last] + fs).node, cf).status in {PciError, NadMismatch}
  {
    assert ([last] + fs)[1..] == fs;
    StaysDeaf(Decode(n, last).node, fs, cf);
  }

  // ---------------------------------------------------------------------------------------------
  // A fresh context
  // ---------------------------------------------------------------------------------------------

  /** A fresh context hears its own address and functional requests, awaits no CF, counts no WAIT, knows no block limit,
      and sends nothing. */
  lemma FreshContext(own: u8, nad: u8, p: seq<u8>, fs: seq<Frame>, es: seq<Event>, cf: Frame)
    requires Encodes(fs, nad, p) && 0x40 <= cf[1] < 0x60
    ensures var n := InitNode(own);
            && (Hear(n, fs).messages == [p] <==> nad == own || nad == 0x7E)
            && Decode(n, cf).status in {PciError, NadMismatch}
            && n.tx.waits == 0 && n.tx.fc == FlowControl(0, 0, 10)
            && Emit(n.tx, own, es).frames == []
  {
    AddressedDeliveryIff(InitNode(own), nad, p, fs);
    NothingToSend(InitNode(own).tx, own, es);
  }
}
