/** What the receive step guarantees over whole frame sequences, for arbitrary frames. */
module LinReassembly {
  import opened Bytes
  import opened LinProtocol

  /** The complete UDS message a frame hands to the application, if any: the body of a single frame,
      or the buffer when a consecutive frame brings the reassembly back to idle. */
  function Message(n: Node, f: Frame): Option<seq<u8>> {
    var d := Decode(n, f);
    if d.pdu.Some? && (PciTypeOf(f[1]).SingleFrame? || (PciTypeOf(f[1]).ConsecutiveFrame? && d.node.rx.state.RxIdle?))
    then Some(d.pdu.value.data)
    else None
  }

  datatype Heard = Heard(node: Node, messages: seq<seq<u8>>)

  /** A context decoding a sequence of frames: its final state and the messages completed on the way. */
  function Hear(n: Node, fs: seq<Frame>): Heard
    decreases |fs|
  {
    if fs == [] then Heard(n, [])
    else
      var rest := Hear(Decode(n, fs[0]).node, fs[1..]);
      Heard(rest.node, ToSeq(Message(n, fs[0])) + rest.messages)
  }

  // ---------------------------------------------------------------------------------------------
  // The invariant, and what the buffer holds
  // ---------------------------------------------------------------------------------------------

  /** The numbering in closed form: 1..15, 1..15, ... */
  lemma {:induction false} SeqNumClosed(k: nat)
    requires k >= 1
    ensures SeqNum(k) == (k - 1) % 15 + 1
  {
    if k > 1 {
      SeqNumClosed(k - 1);
    }
  }

  lemma CfCountExact(n: nat, k: nat)
    requires n > SF_MAX
    ensures k < CfCount(n) <==> More(n, k)
    ensures CfCount(n) == n / 6
  {
  }

  lemma DecodeKeepsInv(n: Node, f: Frame)
    requires NodeInv(n)
    ensures NodeInv(Decode(n, f).node)
    ensures Decode(n, f).node.nad == n.nad && Decode(n, f).node.functional == n.functional
  {
    if n.rx.state == RxCf {
      var k: nat :| |n.rx.buf| == FF_PAYLOAD + CF_PAYLOAD * k && n.rx.seqNum == SeqNum(k);
      assert SeqNum(k + 1) == NextSeq(SeqNum(k));
    }
    assert SeqNum(0) == 0;
  }

  lemma {:induction false} HearKeepsInv(n: Node, fs: seq<Frame>)
    requires NodeInv(n)
    ensures NodeInv(Hear(n, fs).node)
    decreases |fs|
  {
    if fs != [] {
      DecodeKeepsInv(n, fs[0]);
      HearKeepsInv(Decode(n, fs[0]).node, fs[1..]);
    }
  }

  /** The last accepted FF and every CF accepted since: a record kept from the decoder's answers alone. */
  function NextLog(n: Node, f: Frame, log: seq<Frame>): seq<Frame> {
    if Decode(n, f).status != Ok then log
    else match PciTypeOf(f[1])
      case FirstFrame => [f]
      case ConsecutiveFrame => log + [f]
      case _ => log
  }

  /** All data bytes of an FF followed by CFs. */
  function Body(log: seq<Frame>): (b: seq<u8>)
    ensures |b| == if log == [] then 0 else FF_PAYLOAD + CF_PAYLOAD * (|log| - 1)
  {
    if log == [] then []
    else if |log| == 1 then log[0][3..]
    else Body(log[..|log| - 1]) + log[|log| - 1][2..]
  }

  /** An FF and then CFs numbered 1..15, 1..15, ... without a gap. */
  predicate WellNumbered(log: seq<Frame>) {
    && log != []
    && PciTypeOf(log[0][1]).FirstFrame?
    && forall i :: 1 <= i < |log| ==> log[i][1] == PCI_CF + SeqNum(i)
  }

  predicate LogInv(rx: Rx, log: seq<Frame>) {
    rx.state == RxCf ==>
      && WellNumbered(log)
      && rx.expectedLen == Announced(log[0])
      && rx.buf == Body(log)
      && rx.seqNum == SeqNum(|log| - 1)
      && |rx.buf| < rx.expectedLen
  }

  /** A message is the announced prefix of the data bytes of a gap-free FF-CF sequence, and the
      sequence is no longer than needed. */
  predicate Assembled(m: seq<u8>, log: seq<Frame>) {
    && WellNumbered(log)
    && |Body(log)| >= Announced(log[0]) > |Body(log)| - CF_PAYLOAD
    && m == Body(log)[..Announced(log[0])]
  }

  lemma DecodeKeepsLog(n: Node, f: Frame, log: seq<Frame>)
    requires NodeInv(n) && LogInv(n.rx, log)
    ensures LogInv(Decode(n, f).node.rx, NextLog(n, f, log))
    ensures PciTypeOf(f[1]).ConsecutiveFrame? && Message(n, f).Some? ==>
              Assembled(Message(n, f).value, NextLog(n, f, log))
  {
    if Decode(n, f).status == Ok && PciTypeOf(f[1]).ConsecutiveFrame? {
      AcceptedCf(n, f, log);
    }
  }

  lemma AcceptedCf(n: Node, f: Frame, log: seq<Frame>)
    requires NodeInv(n) && LogInv(n.rx, log)
    requires Decode(n, f).status == Ok && PciTypeOf(f[1]).ConsecutiveFrame?
    ensures LogInv(Decode(n, f).node.rx, log + [f])
    ensures Message(n, f).Some? ==> Assembled(Message(n, f).value, log + [f])
  {
    var log' := log + [f];
    assert log'[..|log|] == log;
    assert Body(log') == n.rx.buf + f[2..];
    assert WellNumbered(log');
    hide WellNumbered, NodeInv, Body, SeqNum, Announced;
    var room := n.rx.expectedLen - |n.rx.buf|;
    if room >= CF_PAYLOAD {
      assert f[2..2 + CF_PAYLOAD] == f[2..];
      if room == CF_PAYLOAD {
        assert Body(log')[..Announced(log[0])] == Body(log');
      }
    } else {
      assert Body(log')[..Announced(log[0])] == n.rx.buf + f[2..2 + room];
    }
  }

  function LogAfter(n: Node, fs: seq<Frame>, log: seq<Frame>): seq<Frame>
    decreases |fs|
  {
    if fs == [] then log
    else LogAfter(Decode(n, fs[0]).node, fs[1..], NextLog(n, fs[0], log))
  }

  /** Reassembly under arbitrary traffic: after any frames whatsoever, a buffer under construction holds
      exactly the bytes of the accepted FF and CFs, its length and sequence number count them, and the
      next frame, whatever it is, completes a message only as Assembled says. */
  lemma {:induction false} ReassemblySound(n: Node, fs: seq<Frame>, log: seq<Frame>, next: Frame)
    requires NodeInv(n) && LogInv(n.rx, log)
    ensures var m, l := Hear(n, fs).node, LogAfter(n, fs, log);
            && (m.rx.state == RxCf ==>
                  && m.rx.buf == Body(l) && |m.rx.buf| == 5 + 6 * (|l| - 1) < m.rx.expectedLen <= 4095
                  && m.rx.seqNum == SeqNum(|l| - 1))
            && (PciTypeOf(next[1]).ConsecutiveFrame? && Message(m, next).Some? ==>
                  Assembled(Message(m, next).value, l + [next]))
    decreases |fs|
  {
    if fs == [] {
      DecodeKeepsLog(n, next, log);
    } else {
      DecodeKeepsInv(n, fs[0]);
      DecodeKeepsLog(n, fs[0], log);
      ReassemblySound(Decode(n, fs[0]).node, fs[1..], NextLog(n, fs[0], log), next);
    }
  }

  // ---------------------------------------------------------------------------------------------
  // Rejected and flow-control frames are invisible
  // ---------------------------------------------------------------------------------------------

  predicate Invisible(n: Node, f: Frame) {
    Decode(n, f).status != Ok || PciTypeOf(f[1]).FlowControlFrame?
  }

  /** Delete those positions of fs that drop selects and that the context rejects (or that are FCs). */
  function Thin(n: Node, fs: seq<Frame>, drop: seq<bool>): seq<Frame>
    requires |drop| == |fs|
    decreases |fs|
  {
    if fs == [] then []
    else
      var rest := Thin(Decode(n, fs[0]).node, fs[1..], drop[1..]);
      if drop[0] && Invisible(n, fs[0]) then rest else [fs[0]] + rest
  }

  predicate SameReceiver(a: Node, b: Node) {
    a.nad == b.nad && a.functional == b.functional && a.rx == b.rx
  }

  /** Two contexts that differ only in their sending half treat every frame alike on the receive side. */
  lemma DecodeSame(a: Node, b: Node, f: Frame)
    requires SameReceiver(a, b)
    ensures SameReceiver(Decode(a, f).node, Decode(b, f).node)
    ensures Message(a, f) == Message(b, f)
    ensures Invisible(a, f) <==> Invisible(b, f)
    ensures Invisible(a, f) ==> SameReceiver(Decode(a, f).node, a) && Message(a, f) == None
  {
  }

  /** Deleting any choice of rejected and FC frames changes neither the messages nor the receiver. */
  lemma {:induction false} ThinningUnobservable(a: Node, b: Node, fs: seq<Frame>, drop: seq<bool>)
    requires |drop| == |fs| && SameReceiver(a, b)
    ensures Hear(b, Thin(a, fs, drop)).messages == Hear(a, fs).messages
    ensures SameReceiver(Hear(b, Thin(a, fs, drop)).node, Hear(a, fs).node)
    decreases |fs|
  {
    if fs != [] {
      DecodeSame(a, b, fs[0]);
      var a' := Decode(a, fs[0]).node;
      if drop[0] && Invisible(a, fs[0]) {
        ThinningUnobservable(a', b, fs[1..], drop[1..]);
      } else {
        ThinningUnobservable(a', Decode(b, fs[0]).node, fs[1..], drop[1..]);
        assert ([fs[0]] + Thin(a', fs[1..], drop[1..]))[1..] == Thin(a', fs[1..], drop[1..]);
      }
    }
  }

  // ---------------------------------------------------------------------------------------------
  // In-order delivery
  // ---------------------------------------------------------------------------------------------

  /** The reassembly state after the FF and k CFs of p. */
  function Partial(p: seq<u8>, k: nat): Rx
    requires Multi(p)
  {
    Rx(if More(|p|, k) then RxCf else RxIdle, |p|, p[..Reached(|p|, k)], SeqNum(k))
  }

  lemma FfStarts(n: Node, nad: u8, p: seq<u8>)
    requires Multi(p) && Accepts(n, nad)
    ensures Decode(n, FfFrame(nad, p)).node == n.(rx := Partial(p, 0))
    ensures Decode(n, FfFrame(nad, p)).status == Ok && Message(n, FfFrame(nad, p)) == None
  {
    var f := FfFrame(nad, p);
    assert f[3..] == p[..FF_PAYLOAD];
  }

  /** A frame that carries the k-th block of p: right address, type and number; bytes beyond the block
      are free. */
  predicate Carries(f: Frame, nad: u8, p: seq<u8>, k: nat)
    requires Multi(p) && k >= 1
  {
    f[0] == nad && f[1] == PCI_CF + SeqNum(k) && f[2..2 + |Block(p, k)|] == Block(p, k)
  }

  lemma CfFrameCarries(nad: u8, p: seq<u8>, k: nat)
    requires Multi(p) && k >= 1
    ensures Carries(CfFrame(nad, p, k), nad, p, k)
  {
    CarriesByData(nad, p, k, SeqNum(k), Block(p, k));
  }

  lemma CfAdvances(n: Node, f: Frame, nad: u8, p: seq<u8>, k: nat)
    requires Multi(p) && Accepts(n, nad) && More(|p|, k)
    requires n.rx == Partial(p, k) && Carries(f, nad, p, k + 1)
    ensures Decode(n, f).node == n.(rx := Partial(p, k + 1)) && Decode(n, f).status == Ok
    ensures Message(n, f) == if More(|p|, k + 1) then None else Some(p)
  {
    assert p[..Reached(|p|, k)] + Block(p, k + 1) == p[..Reached(|p|, k + 1)];
    assert p[..|p|] == p;
  }

  predicate CarriesMessage(fs: seq<Frame>, nad: u8, p: seq<u8>)
    requires Multi(p)
  {
    && |fs| == 1 + CfCount(|p|)
    && fs[0] == FfFrame(nad, p)
    && forall k :: 1 <= k < |fs| ==> Carries(fs[k], nad, p, k)
  }

  lemma {:induction false} TailDelivers(n: Node, nad: u8, p: seq<u8>, fs: seq<Frame>, k: nat)
    requires Multi(p) && Accepts(n, nad) && k < CfCount(|p|) && n.rx == Partial(p, k)
    requires |fs| == CfCount(|p|) - k
    requires forall i :: 0 <= i < |fs| ==> Carries(fs[i], nad, p, k + 1 + i)
    ensures Hear(n, fs) == Heard(n.(rx := Partial(p, CfCount(|p|))), [p])
    decreases |fs|
  {
    CfCountExact(|p|, k);
    CfCountExact(|p|, k + 1);
    CfAdvances(n, fs[0], nad, p, k);
    var n' := Decode(n, fs[0]).node;
    if k + 1 < CfCount(|p|) {
      TailDelivers(n', nad, p, fs[1..], k + 1);
    } else {
      assert fs[1..] == [];
      assert Hear(n', fs[1..]) == Heard(n', []);
    }
  }

  /** In order and complete, a message is delivered exactly once, whatever the receiver was doing. */
  lemma InOrderDelivers(n: Node, nad: u8, p: seq<u8>, fs: seq<Frame>)
    requires Multi(p) && Accepts(n, nad) && CarriesMessage(fs, nad, p)
    ensures Hear(n, fs) == Heard(n.(rx := Partial(p, CfCount(|p|))), [p])
  {
    FfStarts(n, nad, p);
    CfCountExact(|p|, 0);
    TailDelivers(Decode(n, fs[0]).node, nad, p, fs[1..], 0);
  }

  lemma MessageFramesCarry(nad: u8, p: seq<u8>)
    requires Multi(p)
    ensures CarriesMessage(MessageFrames(nad, nad, p), nad, p)
  {
    forall k | 1 <= k <= CfCount(|p|) ensures Carries(MessageFrames(nad, nad, p)[k], nad, p, k) {
      CfFrameCarries(nad, p, k);
    }
  }

  // ---------------------------------------------------------------------------------------------
  // Strength of the 4-bit sequence number
  // ---------------------------------------------------------------------------------------------

  /** With i CFs accepted and the next k in-order CFs lost, the one after them is accepted exactly when
      k is a multiple of 15. */
  lemma SkipUndetectedIff(n: Node, nad: u8, p: seq<u8>, i: nat, k: nat)
    requires Multi(p) && Accepts(n, nad) && i + 1 + k <= CfCount(|p|)
    requires n.rx == Partial(p, i)
    ensures Decode(n, CfFrame(nad, p, i + 1 + k)).status == Ok <==> k % 15 == 0
  {
    SameNumberIff(i + 1, k);
    CfCountExact(|p|, i);
    hide CfCount, Block;
  }

  lemma SameNumberIff(i: nat, k: nat)
    requires i >= 1
    ensures SeqNum(i + k) == SeqNum(i) <==> k % 15 == 0
  {
    SeqNumClosed(i);
    SeqNumClosed(i + k);
    hide SeqNum;
    SameResidueIff(i - 1, k);
  }

  lemma SameResidueIff(a: nat, k: nat)
    ensures (a + k) % 15 == a % 15 <==> k % 15 == 0
  {
    if (a + k) % 15 == a % 15 {
      assert k == 15 * ((a + k) / 15 - a / 15);
    }
  }

  /** The receiver is not in the middle of some other message. */
  ghost predicate Tracking(n: Node, p: seq<u8>)
    requires Multi(p)
  {
    n.rx.state == RxCf ==> exists k: nat :: More(|p|, k) && n.rx == Partial(p, k)
  }

  predicate FrameOf(f: Frame, ffNad: u8, cfNad: u8, p: seq<u8>)
    requires Multi(p)
  {
    f in MessageFrames(ffNad, cfNad, p)
  }

  lemma WindowStep(n: Node, ffNad: u8, cfNad: u8, p: seq<u8>, f: Frame)
    requires Multi(p) && |p| <= 95 && Accepts(n, ffNad) && Accepts(n, cfNad)
    requires Tracking(n, p) && FrameOf(f, ffNad, cfNad, p)
    ensures Tracking(Decode(n, f).node, p)
    ensures Message(n, f).Some? ==> Message(n, f).value == p
  {
    hide SeqNum, NextSeq, Carries, FfFrame, Reached;
    var i :| 0 <= i <= CfCount(|p|) && f == MessageFrame(ffNad, cfNad, p, i);
    CfCountExact(|p|, 15);
    CfCountExact(|p|, 0);
    if i == 0 {
      FfStarts(n, ffNad, p);
      assert Decode(n, f).node.rx == Partial(p, 0);
    } else if n.rx.state == RxCf {
      var k: nat :| More(|p|, k) && n.rx == Partial(p, k);
      SkipUndetectedEarly(k, i);
      if i == k + 1 {
        CfFrameCarries(cfNad, p, i);
        CfAdvances(n, f, cfNad, p, k);
        assert Decode(n, f).node.rx == Partial(p, k + 1);
      }
    }
  }

  lemma SkipUndetectedEarly(k: nat, i: nat)
    requires k < 15 && 1 <= i <= 15
    ensures SeqNum(i) == NextSeq(SeqNum(k)) <==> i == k + 1
  {
    SeqNumClosed(i);
    SeqNumClosed(k + 1);
  }

  /** Up to 95 bytes, however a channel loses, duplicates or reorders the frames of a message, whatever
      the receiver completes is that message. */
  lemma {:induction false} SequenceWindowSafe(n: Node, ffNad: u8, cfNad: u8, p: seq<u8>, fs: seq<Frame>)
    requires Multi(p) && |p| <= 95 && Accepts(n, ffNad) && Accepts(n, cfNad)
    requires Tracking(n, p) && forall f :: f in fs ==> FrameOf(f, ffNad, cfNad, p)
    ensures forall m :: m in Hear(n, fs).messages ==> m == p
    decreases |fs|
  {
    if fs != [] {
      WindowStep(n, ffNad, cfNad, p, fs[0]);
      assert FrameOf(fs[0], ffNad, cfNad, p);
      SequenceWindowSafe(Decode(n, fs[0]).node, ffNad, cfNad, p, fs[1..]);
    }
  }

  /** The frames of p with CF 1 and CF 16 delivered in each other's place. */
  function Exchanged(nad: u8, p: seq<u8>): (fs: seq<Frame>)
    requires Multi(p) && |p| >= 96
    ensures multiset(fs) == multiset(MessageFrames(nad, nad, p))
  {
    var fs := MessageFrames(nad, nad, p);
    CfCountExact(|p|, 15);
    fs[1 := fs[16]][16 := fs[1]]
  }

  /** The payload with block 16 (padded) written over block 1, and block 1 over block 16. */
  function Crossed(p: seq<u8>): (q: seq<u8>)
    requires Multi(p) && |p| >= 96
    ensures |q| == |p|
  {
    var last := Block(p, 16);
    p[..5] + Pad(last) + p[11..95] + p[5..5 + |last|] + p[95 + |last|..]
  }

  lemma CrossedElsewhere(p: seq<u8>, k: nat)
    requires Multi(p) && |p| >= 96 && k >= 2 && k != 16 && More(|p|, k - 1)
    ensures Block(Crossed(p), k) == Block(p, k)
  {
    var q, last := Crossed(p), Block(p, 16);
    forall i | 11 <= i < 95 || 95 + |last| <= i < |p| ensures q[i] == p[i] {
    }
    var lo, hi := Reached(|p|, k - 1), Reached(|p|, k);
    assert k < 16 ==> 11 <= lo && hi <= 95;
    assert k > 16 ==> 101 <= lo && |last| == 6;
    forall i | 0 <= i < hi - lo ensures q[lo..hi][i] == p[lo..hi][i] {
      assert q[lo..hi][i] == q[lo + i] && p[lo..hi][i] == p[lo + i];
    }
  }

  lemma CrossedEnds(p: seq<u8>)
    requires Multi(p) && |p| >= 96
    ensures Block(Crossed(p), 1) == Pad(Block(p, 16))
    ensures Block(Crossed(p), 16) == Block(p, 1)[..|Block(p, 16)|]
  {
    var q := Crossed(p);
    assert Block(q, 1) == q[5..11];
    assert Block(q, 16) == q[95..95 + |Block(p, 16)|];
  }

  /** A CF under the k-th number whose data bytes begin with the k-th block carries it. */
  lemma CarriesByData(nad: u8, p: seq<u8>, k: nat, s: SeqNo, data: seq<u8>)
    requires Multi(p) && k >= 1 && |data| <= CF_PAYLOAD
    requires s == SeqNum(k) && Pad(data)[..|Block(p, k)|] == Block(p, k)
    ensures Carries(CfBytes(nad, s, data), nad, p, k)
  {
    assert CfBytes(nad, s, data)[2..2 + |Block(p, k)|] == Pad(data)[..|Block(p, k)|];
  }

  lemma ExchangedCarries(nad: u8, p: seq<u8>)
    requires Multi(p) && |p| >= 96
    ensures CarriesMessage(Exchanged(nad, p), nad, Crossed(p))
  {
    var q, gs := Crossed(p), Exchanged(nad, p);
    CfCountExact(|p|, 15);
    SeqNumClosed(16);
    SeqNumClosed(1);
    CrossedEnds(p);
    assert q[..5] == p[..5];
    forall k | 1 <= k < |gs| ensures Carries(gs[k], nad, q, k) {
      if k == 1 {
        CarriesByData(nad, q, 1, SeqNum(16), Block(p, 16));
        assert gs[1] == CfFrame(nad, p, 16);
      } else if k == 16 {
        CarriesByData(nad, q, 16, SeqNum(1), Block(p, 1));
        assert gs[16] == CfFrame(nad, p, 1);
      } else {
        CfCountExact(|p|, k - 1);
        CrossedElsewhere(p, k);
        CarriesByData(nad, q, k, SeqNum(k), Block(p, k));
        assert gs[k] == CfFrame(nad, p, k);
      }
    }
  }

  /** 95 is the exact bound: from 96 bytes on, one exchange of two frames goes undetected, and the
      completed message is wrong exactly when the two frames carry different data bytes. */
  lemma SequenceWindowExact(n: Node, nad: u8, p: seq<u8>)
    requires Multi(p) && |p| >= 96 && Accepts(n, nad)
    ensures multiset(Exchanged(nad, p)) == multiset(MessageFrames(nad, nad, p))
    ensures Hear(n, Exchanged(nad, p)).messages == [Crossed(p)]
    ensures Crossed(p) == p <==> Pad(Block(p, 16)) == Block(p, 1)
  {
    hide Exchanged, CarriesMessage, MessageFrames, Crossed, Hear;
    ExchangedCarries(nad, p);
    InOrderDelivers(n, nad, Crossed(p), Exchanged(nad, p));
    CrossedSameIff(p);
  }

  lemma CrossedSameIff(p: seq<u8>)
    requires Multi(p) && |p| >= 96
    ensures Crossed(p) == p <==> Pad(Block(p, 16)) == Block(p, 1)
  {
    var q := Crossed(p);
    assert q[5..11] == Pad(Block(p, 16));
    assert Block(p, 1) == p[5..11];
    if Pad(Block(p, 16)) == Block(p, 1) {
      var r := |Block(p, 16)|;
      assert p[95..95 + r] == Block(p, 16) == Pad(Block(p, 16))[..r] == p[5..5 + r];
      assert q == p[..5] + p[5..11] + p[11..95] + p[95..95 + r] + p[95 + r..] == p;
    }
  }
}
