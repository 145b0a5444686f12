/** A streaming sender and a reassembling receiver joined by an in-order lossless channel, with flow
    control and foreign traffic supplied by the environment. */
module LinSystem {
  import opened Bytes
  import opened LinProtocol
  import opened LinReassembly
  import opened LinStreaming

  /** channel holds frames emitted and not yet delivered; sent and messages are the whole history. */
  datatype System = System(sender: Node, receiver: Node, channel: seq<Frame>, sent: seq<Frame>, messages: seq<seq<u8>>)

  /** SenderHears is any frame at all reaching the sender, in particular any flow control.
      ReceiverHears is traffic from elsewhere that the receiver rejects, or flow control. */
  datatype Action = PollSender | SenderHears(f: Frame) | Deliver | ReceiverHears(f: Frame)

  function Next(s: System, a: Action): System {
    match a
    case PollSender =>
      var r := NextCf(s.sender.tx, s.sender.nad);
      s.(sender := s.sender.(tx := r.tx), channel := s.channel + ToSeq(r.cf), sent := s.sent + ToSeq(r.cf))
    case SenderHears(f) =>
      s.(sender := Decode(s.sender, f).node)
    case Deliver =>
      if s.channel == [] then s
      else s.(receiver := Decode(s.receiver, s.channel[0]).node, channel := s.channel[1..],
              messages := s.messages + ToSeq(Message(s.receiver, s.channel[0])))
    case ReceiverHears(f) =>
      if Invisible(s.receiver, f) then s.(receiver := Decode(s.receiver, f).node) else s
  }

  function Run(s: System, actions: seq<Action>): System
    decreases |actions|
  {
    if actions == [] then s else Run(Next(s, actions[0]), actions[1..])
  }

  /** The sender has just begun the stream for p with address pduNad in the PDU: its FF carries that address, its
      CFs will carry the sender's own.  Nothing is known of what the receiver did before. */
  function Open(sender: Node, receiver: Node, pduNad: u8, p: seq<u8>): System
    requires Multi(p)
  {
    var ff := FfFrame(pduNad, p);
    System(sender.(tx := BeginStream(sender.tx, pduNad, p).tx), receiver, [ff], [ff], [])
  }

  /** Frames delivered so far. */
  function Delivered(s: System): int {
    |s.sent| - |s.channel|
  }

  /** The receiver accepts the FF's address and the CFs' address. */
  predicate Listens(s: System, pduNad: u8) {
    Accepts(s.receiver, pduNad) && Accepts(s.receiver, s.sender.nad)
  }

  predicate SentInOrder(s: System, pduNad: u8, p: seq<u8>)
    requires Multi(p)
  {
    |s.sent| >= 1 && forall i :: 0 <= i < |s.sent| ==> s.sent[i] == MessageFrame(pduNad, s.sender.nad, p, i)
  }

  predicate ReceiverTracks(s: System, p: seq<u8>)
    requires Multi(p)
  {
    var d := Delivered(s);
    && (d >= 1 ==> s.receiver.rx == Partial(p, d - 1))
    && s.messages == (if d >= 1 && !More(|p|, d - 1) then [p] else [])
  }

  /** The receiver has completed nothing, and is not waiting for CFs of something older either. */
  predicate ReceiverQuiet(s: System, pduNad: u8) {
    s.messages == [] && (Accepts(s.receiver, pduNad) || s.receiver.rx.state != RxCf)
  }

  predicate Inv(s: System, pduNad: u8, p: seq<u8>)
    requires Multi(p)
  {
    && SentInOrder(s, pduNad, p)
    && SenderAt(s.sender.tx, p, |s.sent| - 1)
    && Delivered(s) >= 0
    && s.channel == s.sent[Delivered(s)..]
    && (if Listens(s, pduNad) then ReceiverTracks(s, p) else ReceiverQuiet(s, pduNad))
  }

  lemma OpenInv(sender: Node, receiver: Node, pduNad: u8, p: seq<u8>)
    requires Multi(p) && (Accepts(receiver, pduNad) || receiver.rx.state != RxCf)
    ensures Inv(Open(sender, receiver, pduNad, p), pduNad, p)
  {
    BeginsAt(sender.tx, pduNad, p);
    hide SenderAt, FfFrame, CfFrame, Accepts, Partial, BeginStream;
    var s := Open(sender, receiver, pduNad, p);
    assert s.channel == s.sent[0..];
  }

  lemma PollKeepsInv(s: System, pduNad: u8, p: seq<u8>)
    requires Multi(p) && Inv(s, pduNad, p)
    ensures Inv(Next(s, PollSender), pduNad, p)
  {
    hide SenderAt, CfFrame, FfFrame, NextCf, Partial;
    var k := |s.sent| - 1;
    RespondAt(s.sender.tx, s.sender.nad, Poll, p, k);
    var r := NextCf(s.sender.tx, s.sender.nad);
    assert Respond(s.sender.tx, s.sender.nad, Poll).frames == ToSeq(r.cf);
    assert s.sent[Delivered(s)..] + ToSeq(r.cf) == (s.sent + ToSeq(r.cf))[Delivered(s)..];
  }

  lemma SenderHearsKeepsInv(s: System, pduNad: u8, p: seq<u8>, f: Frame)
    requires Multi(p) && Inv(s, pduNad, p)
    ensures Inv(Next(s, SenderHears(f)), pduNad, p)
  {
    OnlyFcReachesSender(s.sender, f);
    SameAddress(s.sender, f);
    hide SenderAt, CfFrame, FfFrame, Decode, Partial;
    RespondAt(s.sender.tx, s.sender.nad, Fc(Params(f)), p, |s.sent| - 1);
  }

  lemma SameAddress(n: Node, f: Frame)
    ensures Decode(n, f).node.nad == n.nad && Decode(n, f).node.functional == n.functional
  {
  }

  lemma DeliverKeepsInv(s: System, pduNad: u8, p: seq<u8>)
    requires Multi(p) && Inv(s, pduNad, p)
    ensures Inv(Next(s, Deliver), pduNad, p)
  {
    hide SenderAt, CfFrame, FfFrame, Decode, Message, Partial;
    if s.channel != [] {
      var d := Delivered(s);
      assert s.channel[0] == s.sent[d] && s.channel[1..] == s.sent[d + 1..];
      SameAddress(s.receiver, s.channel[0]);
      if !Listens(s, pduNad) {
        StaysQuiet(s.receiver, pduNad, s.sender.nad, p, d);
      } else if d == 0 {
        FfStarts(s.receiver, pduNad, p);
      } else {
        DeliveredBehindSender(s, pduNad, p);
        CfFrameCarries(s.sender.nad, p, d);
        CfAdvances(s.receiver, s.channel[0], s.sender.nad, p, d - 1);
      }
    }
  }

  /** A receiver that rejects one of the two addresses completes nothing. */
  lemma StaysQuiet(n: Node, ffNad: u8, cfNad: u8, p: seq<u8>, i: nat)
    requires Multi(p) && !(Accepts(n, ffNad) && Accepts(n, cfNad)) && (Accepts(n, ffNad) || n.rx.state != RxCf)
    ensures var f := MessageFrame(ffNad, cfNad, p, i);
            && Message(n, f) == None
            && (Accepts(n, ffNad) || Decode(n, f).node.rx.state != RxCf)
  {
    if i == 0 && Accepts(n, ffNad) {
      FfStarts(n, ffNad, p);
    } else if i > 0 {
      CfFrameCarries(cfNad, p, i);
    }
  }

  lemma DeliveredBehindSender(s: System, pduNad: u8, p: seq<u8>)
    requires Multi(p) && Inv(s, pduNad, p) && s.channel != []
    ensures Delivered(s) >= 1 ==> More(|p|, Delivered(s) - 1)
  {
  }

  lemma ReceiverHearsKeepsInv(s: System, pduNad: u8, p: seq<u8>, f: Frame)
    requires Multi(p) && Inv(s, pduNad, p)
    ensures Inv(Next(s, ReceiverHears(f)), pduNad, p)
  {
    hide SenderAt, CfFrame, FfFrame, Decode, Partial;
    SameAddress(s.receiver, f);
    DecodeSame(s.receiver, s.receiver, f);
  }

  lemma {:induction false} RunKeepsInv(s: System, pduNad: u8, p: seq<u8>, actions: seq<Action>)
    requires Multi(p) && Inv(s, pduNad, p)
    ensures Inv(Run(s, actions), pduNad, p)
    ensures Listens(Run(s, actions), pduNad) <==> Listens(s, pduNad)
    decreases |actions|
  {
    hide Inv, Next, Accepts;
    if actions != [] {
      match actions[0] {
        case PollSender => PollKeepsInv(s, pduNad, p);
        case SenderHears(f) => SenderHearsKeepsInv(s, pduNad, p, f);
        case Deliver => DeliverKeepsInv(s, pduNad, p);
        case ReceiverHears(f) => ReceiverHearsKeepsInv(s, pduNad, p, f);
      }
      AddressesStay(s, actions[0]);
      AcceptsByAddress(s.receiver, Next(s, actions[0]).receiver, pduNad);
      AcceptsByAddress(s.receiver, Next(s, actions[0]).receiver, s.sender.nad);
      RunKeepsInv(Next(s, actions[0]), pduNad, p, actions[1..]);
    }
  }

  lemma AcceptsByAddress(a: Node, b: Node, nad: u8)
    requires a.nad == b.nad && a.functional == b.functional
    ensures Accepts(a, nad) <==> Accepts(b, nad)
  {
  }

  lemma AddressesStay(s: System, a: Action)
    ensures Next(s, a).sender.nad == s.sender.nad
    ensures Next(s, a).receiver.nad == s.receiver.nad && Next(s, a).receiver.functional == s.receiver.functional
  {
    hide Decode, NextCf, Message;
    match a
    case SenderHears(f) => SameAddress(s.sender, f);
    case Deliver => if s.channel != [] { SameAddress(s.receiver, s.channel[0]); }
    case ReceiverHears(f) => SameAddress(s.receiver, f);
    case PollSender =>
  }

  lemma InvMeaning(s: System, pduNad: u8, p: seq<u8>)
    requires Multi(p) && Inv(s, pduNad, p)
    ensures Listens(s, pduNad) && Delivered(s) >= 1 ==> s.receiver.rx.buf <= p
    ensures |s.sent| <= 1 + CfCount(|p|) && s.sent == MessageFrames(pduNad, s.sender.nad, p)[..|s.sent|]
    ensures s.sender.tx.pending == p[Reached(|p|, |s.sent| - 1)..]
    ensures s.messages == if Listens(s, pduNad) && Delivered(s) == 1 + CfCount(|p|) then [p] else []
    ensures !s.sender.tx.active <==> |s.sent| == 1 + CfCount(|p|)
    ensures |s.channel| <= |s.sent|
  {
    hide CfFrame, FfFrame, SeqNum, Accepts;
    var k, d := |s.sent| - 1, Delivered(s);
    CfCountExact(|p|, k);
    if k >= 1 { CfCountExact(|p|, k - 1); }
    if d >= 1 { CfCountExact(|p|, d - 1); }
  }

  /** Two-node safety and completion, for every payload of 7..4095 bytes, every address in the PDU and every run: the
      sender has emitted exactly the leading frames of the message and still holds exactly the rest of the payload;
      what a listening receiver holds is a prefix of the payload; at most one message is delivered and it is the
      payload; once the stream is drained and the channel empty, ceil((n - 5) / 6) CFs were used, and the payload has
      been delivered if and only if the receiver accepts both the PDU's address and the sender's own. */
  lemma StreamedMessageIsSafe(sender: Node, receiver: Node, pduNad: u8, p: seq<u8>, actions: seq<Action>)
    requires Multi(p) && (Accepts(receiver, pduNad) || receiver.rx.state != RxCf)
    ensures var s, cfs := Run(Open(sender, receiver, pduNad, p), actions), CfCount(|p|);
            var listens := Accepts(receiver, pduNad) && Accepts(receiver, sender.nad);
            && (listens && Delivered(s) >= 1 ==> s.receiver.rx.buf <= p)
            && 1 <= |s.sent| <= 1 + cfs
            && s.sent == MessageFrames(pduNad, sender.nad, p)[..|s.sent|]
            && s.sender.tx.pending == p[Reached(|p|, |s.sent| - 1)..]
            && (s.messages == [] || s.messages == [p])
            && (!s.sender.tx.active && s.channel == [] ==> |s.sent| == 1 + cfs && (s.messages == [p] <==> listens))
  {
    var s := Open(sender, receiver, pduNad, p);
    OpenInv(sender, receiver, pduNad, p);
    RunKeepsInv(s, pduNad, p, actions);
    RunKeepsSenderNad(s, actions);
    RunNonEmpty(Run(s, actions), pduNad, p);
    InvMeaning(Run(s, actions), pduNad, p);
    assert Listens(s, pduNad) == (Accepts(receiver, pduNad) && Accepts(receiver, sender.nad));
    hide Inv, Run, Open, MessageFrames, Accepts, Reached, Listens, CfCount;
  }

  lemma RunNonEmpty(s: System, pduNad: u8, p: seq<u8>)
    requires Multi(p) && Inv(s, pduNad, p)
    ensures |s.sent| >= 1 && (s.channel == [] ==> Delivered(s) == |s.sent|)
  {
  }

  lemma {:induction false} RunKeepsSenderNad(s: System, actions: seq<Action>)
    ensures Run(s, actions).sender.nad == s.sender.nad
    decreases |actions|
  {
    hide Next;
    if actions != [] {
      AddressesStay(s, actions[0]);
      RunKeepsSenderNad(Next(s, actions[0]), actions[1..]);
    }
  }

  /** Why the receiver must not be waiting for CFs when it rejects the FF: it would take the CFs of the new message for
      those of the old one.  Here the FF of an older message q of 7 to 11 bytes was its last accepted frame. */
  lemma StaleReceiverMixes(sender: Node, receiver: Node, pduNad: u8, p: seq<u8>, q: seq<u8>)
    requires Multi(p) && |p| >= 11 && Multi(q) && |q| <= 11 && receiver.rx == Partial(q, 0)
    requires !Accepts(receiver, pduNad) && Accepts(receiver, sender.nad)
    ensures var go := SenderHears(FcFrame(sender.nad, FlowControl(FC_CONTINUE, 0, 0)));
            Run(Open(sender, receiver, pduNad, p), [Deliver, go, PollSender, Deliver]).messages == [q[..5] + p[5..|q|]]
  {
    hide Run, CfFrame, FfFrame, SenderAt, Partial;
    var fc := FlowControl(FC_CONTINUE, 0, 0);
    var s0 := Open(sender, receiver, pduNad, p);
    FourSteps(s0, Deliver, SenderHears(FcFrame(sender.nad, fc)), PollSender, Deliver);
    FirstCfSent(sender, pduNad, p, fc);
    RejectedFf(receiver, pduNad, p);
    MixedMessage(receiver, sender.nad, p, q);
    FcRoundTrip(s0.sender, sender.nad, fc);
    hide Decode, Message, NextCf, BeginStream, HearFc, FcFrame;
    var s1 := Next(s0, Deliver);
    assert s1.receiver == receiver && s1.channel == [] && s1.messages == [];
    var s2 := Next(s1, SenderHears(FcFrame(sender.nad, fc)));
    var s3 := Next(s2, PollSender);
    assert s3.receiver == receiver && s3.channel == [CfFrame(sender.nad, p, 1)] && s3.messages == [];
  }

  lemma FourSteps(s: System, a: Action, b: Action, c: Action, d: Action)
    ensures Run(s, [a, b, c, d]) == Next(Next(Next(Next(s, a), b), c), d)
  {
    hide Next;
    assert [a, b, c, d][1..] == [b, c, d] && [b, c, d][1..] == [c, d] && [c, d][1..] == [d] && [d][1..] == [];
    var s3 := Next(Next(Next(s, a), b), c);
    assert Run(s3, [d]) == Run(Next(s3, d), []);
    assert Run(Next(Next(s, a), b), [c, d]) == Run(s3, [d]);
    assert Run(Next(s, a), [b, c, d]) == Run(Next(Next(s, a), b), [c, d]);
  }

  lemma FirstCfSent(sender: Node, pduNad: u8, p: seq<u8>, fc: FlowControl)
    requires Multi(p) && fc.status == FC_CONTINUE
    ensures NextCf(HearFc(BeginStream(sender.tx, pduNad, p).tx, fc), sender.nad).cf == Some(CfFrame(sender.nad, p, 1))
  {
    hide CfFrame, FfFrame;
    BeginsAt(sender.tx, pduNad, p);
    ContinueResumesIff(BeginStream(sender.tx, pduNad, p).tx, sender.nad, p, 0, fc);
  }

  lemma RejectedFf(n: Node, pduNad: u8, p: seq<u8>)
    requires Multi(p) && !Accepts(n, pduNad)
    ensures Decode(n, FfFrame(pduNad, p)).node == n && Message(n, FfFrame(pduNad, p)) == None
  {
  }

  lemma MixedMessage(n: Node, nad: u8, p: seq<u8>, q: seq<u8>)
    requires Multi(p) && |p| >= 11 && Multi(q) && |q| <= 11 && n.rx == Partial(q, 0) && Accepts(n, nad)
    ensures Message(n, CfFrame(nad, p, 1)) == Some(q[..5] + p[5..|q|])
  {
    CfFrameCarries(nad, p, 1);
    var f := CfFrame(nad, p, 1);
    assert SeqNum(1) == NextSeq(SeqNum(0)) == 1 && SeqNum(0) == 0;
    assert f[2..8] == Block(p, 1) == p[5..11];
    hide CfFrame, SeqNum, Block;
    var n' := |q| - 5;
    SliceOfSlice(f, 2, 8, n');
    SliceOfSlice(p, 5, 11, n');
    assert n.rx.buf == q[..5];
  }

  // ---------------------------------------------------------------------------------------------
  // A run that completes, for every choice of block sizes
  // ---------------------------------------------------------------------------------------------

  /** The sender's events as system actions; flow control is sent by the receiver's address. */
  function AsActions(nad: u8, es: seq<Event>): seq<Action>
    requires forall i :: 0 <= i < |es| && es[i].Fc? ==> es[i].fc.status < 16
  {
    if es == [] then []
    else [if es[0].Poll? then PollSender else SenderHears(FcFrame(nad, es[0].fc))] + AsActions(nad, es[1..])
  }

  lemma {:induction false} ActionsDriveSender(s: System, es: seq<Event>)
    requires forall i :: 0 <= i < |es| && es[i].Fc? ==> es[i].fc.status < 16
    ensures Run(s, AsActions(s.sender.nad, es)).sender.tx == Emit(s.sender.tx, s.sender.nad, es).tx
    decreases |es|
  {
    hide Decode, NextCf, HearFc;
    if es != [] {
      var acts := AsActions(s.sender.nad, es);
      var s' := Next(s, acts[0]);
      if es[0].Fc? {
        FcRoundTrip(s.sender, s.sender.nad, es[0].fc);
      }
      assert acts[1..] == AsActions(s.sender.nad, es[1..]);
      ActionsDriveSender(s', es[1..]);
    }
  }

  lemma {:induction false} RunConcat(s: System, a: seq<Action>, b: seq<Action>)
    ensures Run(s, a + b) == Run(Run(s, a), b)
    decreases |a|
  {
    hide Next;
    if a == [] {
      assert a + b == b;
    } else {
      assert (a + b)[1..] == a[1..] + b;
      RunConcat(Next(s, a[0]), a[1..], b);
    }
  }

  function Deliveries(count: nat): seq<Action> {
    if count == 0 then [] else [Deliver] + Deliveries(count - 1)
  }

  lemma {:induction false} DeliveriesEmpty(s: System, count: nat)
    requires count >= |s.channel|
    ensures Run(s, Deliveries(count)).channel == [] && Run(s, Deliveries(count)).sender == s.sender
    decreases count
  {
    hide Decode, Message;
    if count > 0 {
      assert Deliveries(count)[1..] == Deliveries(count - 1);
      DeliveriesEmpty(Next(s, Deliver), count - 1);
    }
  }

  /** From any state of any run in which the sender is not stuck the message can still be completed: polls, CONTINUE
      with any block sizes whenever the sender is not ready, then deliveries. */
  lemma CompletesFrom(s: System, pduNad: u8, p: seq<u8>, blocks: nat -> u8)
    requires Multi(p) && Inv(s, pduNad, p) && Listens(s, pduNad) && !Stuck(s)
    ensures var drive := AsActions(s.sender.nad, LazySchedule(s.sender.tx, s.sender.nad, blocks, 0));
            Run(s, drive + Deliveries(1 + CfCount(|p|))).messages == [p]
  {
    SenderSchedulable(s, pduNad, p);
    DriveDrains(s, pduNad, p, blocks);
    hide Inv, Accepts, Run, AsActions, LazySchedule, Deliveries, CfCount, TxInv, Listens;
    FinishesAfter(s, pduNad, p, AsActions(s.sender.nad, LazySchedule(s.sender.tx, s.sender.nad, blocks, 0)));
  }

  lemma FinishesAfter(s: System, pduNad: u8, p: seq<u8>, drive: seq<Action>)
    requires Multi(p) && Inv(s, pduNad, p) && Listens(s, pduNad) && !Run(s, drive).sender.tx.active
    ensures Run(s, drive + Deliveries(1 + CfCount(|p|))).messages == [p]
  {
    hide Inv, Accepts, Run, Deliveries, MessageFrames, Reached, CfCount, Listens;
    var deliver := Deliveries(1 + CfCount(|p|));
    RunKeepsInv(s, pduNad, p, drive);
    InvMeaning(Run(s, drive), pduNad, p);
    DeliveriesEmpty(Run(s, drive), 1 + CfCount(|p|));
    RunConcat(s, drive, deliver);
    RunKeepsInv(s, pduNad, p, drive + deliver);
    InvMeaning(Run(s, drive + deliver), pduNad, p);
  }

  /** The sender was polled after its block had ended, with CFs still to send. */
  predicate Stuck(s: System) {
    s.sender.tx.active && s.sender.tx.state == TxBlockWait
  }

  lemma SenderSchedulable(s: System, pduNad: u8, p: seq<u8>)
    requires Multi(p) && Inv(s, pduNad, p) && !Stuck(s)
    ensures TxInv(s.sender.tx) && (s.sender.tx.active ==> s.sender.tx.state in {TxWaitFc, TxCf})
    ensures |s.sent| >= 1 && SenderAt(s.sender.tx, p, |s.sent| - 1)
  {
  }

  lemma DriveDrains(s: System, pduNad: u8, p: seq<u8>, blocks: nat -> u8)
    requires Multi(p) && Inv(s, pduNad, p) && !Stuck(s)
    ensures TxInv(s.sender.tx) && (s.sender.tx.active ==> s.sender.tx.state in {TxWaitFc, TxCf})
    ensures !Run(s, AsActions(s.sender.nad, LazySchedule(s.sender.tx, s.sender.nad, blocks, 0))).sender.tx.active
  {
    SenderSchedulable(s, pduNad, p);
    InvMeaning(s, pduNad, p);
    hide Inv, Run, SenderAt, CfFrame, Reached, Accepts;
    ScheduleDrains(s.sender.tx, s.sender.nad, p, |s.sent| - 1, blocks);
    ActionsDriveSender(s, LazySchedule(s.sender.tx, s.sender.nad, blocks, 0));
  }

  ghost predicate Completes(s: System, actions: seq<Action>, p: seq<u8>) {
    Run(s, actions).messages == [p]
  }

  /** Whatever has happened so far, the message can still be completed if and only if the receiver listens and the
      sender is not stuck. */
  lemma CompletableIff(sender: Node, receiver: Node, pduNad: u8, p: seq<u8>, sofar: seq<Action>)
    requires Multi(p) && (Accepts(receiver, pduNad) || receiver.rx.state != RxCf)
    ensures var s := Run(Open(sender, receiver, pduNad, p), sofar);
            (exists actions :: Completes(s, actions, p)) <==>
              Accepts(receiver, pduNad) && Accepts(receiver, sender.nad) && !Stuck(s)
  {
    hide Inv, Accepts, FfFrame, NextCf, Decode, BeginStream;
    OpenInv(sender, receiver, pduNad, p);
    RunKeepsInv(Open(sender, receiver, pduNad, p), pduNad, p, sofar);
    var s := Run(Open(sender, receiver, pduNad, p), sofar);
    if Listens(s, pduNad) && !Stuck(s) {
      SenderSchedulable(s, pduNad, p);
      CompletesFrom(s, pduNad, p, _ => 0);
      var drive := AsActions(s.sender.nad, LazySchedule(s.sender.tx, s.sender.nad, _ => 0, 0));
      assert Completes(s, drive + Deliveries(1 + CfCount(|p|)), p);
    } else {
      forall actions ensures !Completes(s, actions, p) {
        NeverCompletes(s, pduNad, p, actions);
      }
    }
  }

  lemma NeverCompletes(s: System, pduNad: u8, p: seq<u8>, actions: seq<Action>)
    requires Multi(p) && Inv(s, pduNad, p) && (!Listens(s, pduNad) || Stuck(s))
    ensures Run(s, actions).messages != [p]
  {
    hide Inv, Run, Accepts;
    RunKeepsInv(s, pduNad, p, actions);
    InvMeaning(Run(s, actions), pduNad, p);
    if Stuck(s) {
      StuckStays(s, actions);
    }
  }

  lemma {:induction false} StuckStays(s: System, actions: seq<Action>)
    requires Stuck(s)
    ensures Stuck(Run(s, actions))
    decreases |actions|
  {
    hide Message;
    if actions != [] {
      if actions[0].SenderHears? {
        OnlyFcReachesSender(s.sender, actions[0].f);
      }
      hide Decode;
      StuckStays(Next(s, actions[0]), actions[1..]);
    }
  }

  /** In particular every message gets through: whatever block sizes are announced, if CONTINUE is supplied before a
      poll would exceed the block, a listening receiver is delivered the payload, once. */
  lemma EveryMessageCompletes(sender: Node, receiver: Node, pduNad: u8, p: seq<u8>, blocks: nat -> u8)
    requires Multi(p) && Accepts(receiver, pduNad) && Accepts(receiver, sender.nad)
    ensures var s := Open(sender, receiver, pduNad, p);
            var drive := AsActions(sender.nad, LazySchedule(s.sender.tx, sender.nad, blocks, 0));
            Run(s, drive + Deliveries(1 + CfCount(|p|))).messages == [p]
  {
    OpenInv(sender, receiver, pduNad, p);
    BeginsAt(sender.tx, pduNad, p);
    hide Run, Inv, FfFrame, Accepts;
    CompletesFrom(Open(sender, receiver, pduNad, p), pduNad, p, blocks);
  }
}
