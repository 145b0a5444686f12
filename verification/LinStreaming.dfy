/** The stream sender under any interleaving of polls and flow-control frames: what it emits, how flow
    control bounds it, and when it finishes. */
module LinStreaming {
  import opened Bytes
  import opened LinProtocol
  import opened LinReassembly

  /** What happens to a sender: the application polls for a CF, or a flow-control frame is decoded. */
  datatype Event = Poll | Fc(fc: FlowControl)

  datatype Emission = Emission(tx: Tx, frames: seq<Frame>)

  /** nad is the sending context's own address, which its CFs carry. */
  function Respond(tx: Tx, nad: u8, e: Event): Emission {
    match e
    case Poll => var r := NextCf(tx, nad); Emission(r.tx, ToSeq(r.cf))
    case Fc(fc) => Emission(HearFc(tx, fc), [])
  }

  function Emit(tx: Tx, nad: u8, es: seq<Event>): Emission
    decreases |es|
  {
    if es == [] then Emission(tx, [])
    else
      var first := Respond(tx, nad, es[0]);
      var rest := Emit(first.tx, nad, es[1..]);
      Emission(rest.tx, first.frames + rest.frames)
  }

  predicate IsFcFor(n: Node, f: Frame) {
    Accepts(n, f[0]) && PciTypeOf(f[1]).FlowControlFrame?
  }

  function Params(f: Frame): FlowControl {
    FlowControl(LowNibble(f[2]), f[3], f[4])
  }

  /** Of all frames a context may decode, only flow control addressed to it concerns its sender. */
  lemma OnlyFcReachesSender(n: Node, f: Frame)
    ensures Decode(n, f).node.tx == if IsFcFor(n, f) then HearFc(n.tx, Params(f)) else n.tx
  {
  }

  // ---------------------------------------------------------------------------------------------
  // The sender is always a position in its payload
  // ---------------------------------------------------------------------------------------------

  /** The sender has emitted the FF and k CFs of p. */
  predicate SenderAt(tx: Tx, p: seq<u8>, k: nat)
    requires Multi(p)
  {
    && (k == 0 || More(|p|, k - 1))
    && tx.pending == p[Reached(|p|, k)..]
    && tx.seqNum == SeqNum(k)
    && (tx.active <==> More(|p|, k))
    && (tx.active ==> tx.state in {TxWaitFc, TxCf, TxBlockWait})
  }

  predicate Ready(tx: Tx) {
    tx.active && tx.state == TxCf && !BlockSpent(tx)
  }

  lemma BeginsAt(tx: Tx, nad: u8, p: seq<u8>)
    requires Multi(p)
    ensures var b := BeginStream(tx, nad, p);
            b.status == Ok && b.first == Some(FfFrame(nad, p)) && SenderAt(b.tx, p, 0)
  {
  }

  /** One event: a CF appears exactly on a poll of a ready sender, and it is the next one. */
  lemma RespondAt(tx: Tx, nad: u8, e: Event, p: seq<u8>, k: nat)
    requires Multi(p) && SenderAt(tx, p, k)
    ensures var r := Respond(tx, nad, e);
            if e.Poll? && Ready(tx)
            then More(|p|, k) && r.frames == [CfFrame(nad, p, k + 1)] && SenderAt(r.tx, p, k + 1)
            else r.frames == [] && SenderAt(r.tx, p, k)
    ensures tx.active <==> More(|p|, k)
  {
    if e.Poll? && Ready(tx) {
      var m := Min(CF_PAYLOAD, |tx.pending|);
      assert tx.pending[..m] == Block(p, k + 1);
      assert tx.pending[m..] == p[Reached(|p|, k + 1)..];
    }
  }

  /** With the last CF the stream is over and the sender idle. */
  lemma LastCfEnds(tx: Tx, nad: u8, p: seq<u8>, k: nat)
    requires Multi(p) && SenderAt(tx, p, k) && Ready(tx)
    ensures var t := NextCf(tx, nad).tx;
            if More(|p|, k + 1) then t.active && t.state == TxCf
            else !t.active && t.pending == [] && t.state == TxIdle
  {
    RespondAt(tx, nad, Poll, p, k);
  }

  /** count CFs of p, starting after the k-th. */
  function Cfs(nad: u8, p: seq<u8>, k: nat, count: nat): (fs: seq<Frame>)
    requires Multi(p)
    ensures |fs| == count
    decreases count
  {
    if count == 0 then [] else [CfFrame(nad, p, k + 1)] + Cfs(nad, p, k + 1, count - 1)
  }

  lemma {:induction false} CfsAreMessageFrames(nad: u8, p: seq<u8>, k: nat, count: nat)
    requires Multi(p) && k + count <= CfCount(|p|)
    ensures Cfs(nad, p, k, count) == MessageFrames(nad, nad, p)[k + 1..k + 1 + count]
    decreases count
  {
    hide CfFrame;
    if count > 0 {
      CfsAreMessageFrames(nad, p, k + 1, count - 1);
    }
  }

  lemma FfAndCfsAreMessage(nad: u8, p: seq<u8>)
    requires Multi(p)
    ensures [FfFrame(nad, p)] + Cfs(nad, p, 0, CfCount(|p|)) == MessageFrames(nad, nad, p)
  {
    hide CfFrame, FfFrame;
    CfsAreMessageFrames(nad, p, 0, CfCount(|p|));
    var fs := MessageFrames(nad, nad, p);
    assert fs == [fs[0]] + fs[1..1 + CfCount(|p|)];
  }

  /** Any interleaving of polls and flow control emits exactly the next CFs of the payload, in order and
      without repetition, and the sender has emitted exactly the payload minus what is pending. */
  lemma {:induction false} EmitsTheMessage(tx: Tx, nad: u8, es: seq<Event>, p: seq<u8>, k: nat)
    requires Multi(p) && SenderAt(tx, p, k)
    ensures var r := Emit(tx, nad, es);
            r.frames == Cfs(nad, p, k, |r.frames|) && SenderAt(r.tx, p, k + |r.frames|)
    decreases |es|
  {
    hide SenderAt, CfFrame;
    if es != [] {
      RespondAt(tx, nad, es[0], p, k);
      var first := Respond(tx, nad, es[0]);
      EmitsTheMessage(first.tx, nad, es[1..], p, k + |first.frames|);
      var rest := Emit(first.tx, nad, es[1..]).frames;
      if first.frames == [] {
        assert [] + rest == rest;
      } else {
        assert Cfs(nad, p, k, |rest| + 1) == [CfFrame(nad, p, k + 1)] + rest;
      }
    }
  }

  // ---------------------------------------------------------------------------------------------
  // Flow control
  // ---------------------------------------------------------------------------------------------

  /** CFs the current block still allows; with block size 0 there is no limit. */
  function Quota(tx: Tx, unlimited: nat): nat {
    if tx.fc.blockSize == 0 then unlimited
    else if tx.cfInBlock >= tx.fc.blockSize then 0
    else tx.fc.blockSize - tx.cfInBlock
  }

  /** Exactly left CFs of p remain after the first k. */
  predicate Left(p: seq<u8>, k: nat, left: nat) {
    !More(|p|, k + left) && (left > 0 ==> More(|p|, k + left - 1))
  }

  lemma AllLeft(p: seq<u8>)
    requires Multi(p)
    ensures Left(p, 0, CfCount(|p|))
  {
    CfCountExact(|p|, CfCount(|p|));
    CfCountExact(|p|, CfCount(|p|) - 1);
  }

  lemma PollUsesQuota(tx: Tx, nad: u8, p: seq<u8>, k: nat, left: nat)
    requires Multi(p) && SenderAt(tx, p, k) && (left > 0 <==> More(|p|, k))
    requires tx.active ==> tx.state == TxCf || BlockSpent(tx)
    ensures var r := Respond(tx, nad, Poll);
            && |r.frames| == (if left > 0 && Quota(tx, left) > 0 then 1 else 0)
            && SenderAt(r.tx, p, k + |r.frames|)
            && (r.tx.active ==> r.tx.state == TxCf || BlockSpent(r.tx))
            && Quota(r.tx, left - |r.frames|) == Quota(tx, left) - |r.frames|
  {
    RespondAt(tx, nad, Poll, p, k);
  }

  /** Between two flow-control frames a sender in TxCf yields one CF per poll until the block or the
      payload is used up, and nothing after that. */
  lemma {:induction false} BlockYieldsExactly(tx: Tx, nad: u8, polls: seq<Event>, p: seq<u8>, k: nat, left: nat)
    requires Multi(p) && SenderAt(tx, p, k) && Left(p, k, left)
    requires forall i :: 0 <= i < |polls| ==> polls[i] == Poll
    requires tx.active ==> tx.state == TxCf || BlockSpent(tx)
    ensures |Emit(tx, nad, polls).frames| == Min(|polls|, Min(Quota(tx, left), left))
    decreases |polls|
  {
    hide SenderAt, Respond;
    if polls != [] {
      PollUsesQuota(tx, nad, p, k, left);
      var first := Respond(tx, nad, Poll);
      var sent := |first.frames|;
      BlockYieldsExactly(first.tx, nad, polls[1..], p, k + sent, left - sent);
    }
  }

  /** A sender that was polled once too often is stuck: no frame whatsoever, CONTINUE included, lets a
      later poll produce another CF. */
  lemma {:induction false} BlockWaitIsFinal(tx: Tx, nad: u8, es: seq<Event>)
    requires tx.state == TxBlockWait
    ensures Emit(tx, nad, es).frames == [] && Emit(tx, nad, es).tx.state == TxBlockWait
    decreases |es|
  {
    if es != [] {
      BlockWaitIsFinal(Respond(tx, nad, es[0]).tx, nad, es[1..]);
    }
  }

  /** The header promises that FC CONTINUE resumes a paused stream.  It does so exactly when the sender
      was not polled after the block ended, that is when it is not in TxBlockWait. */
  lemma ContinueResumesIff(tx: Tx, nad: u8, p: seq<u8>, k: nat, fc: FlowControl)
    requires Multi(p) && SenderAt(tx, p, k) && tx.active && fc.status == FC_CONTINUE
    ensures tx.state != TxBlockWait ==> NextCf(HearFc(tx, fc), nad).cf == Some(CfFrame(nad, p, k + 1))
    ensures NextCf(HearFc(tx, fc), nad).cf == None <==> tx.state == TxBlockWait
  {
    RespondAt(tx, nad, Fc(fc), p, k);
    RespondAt(HearFc(tx, fc), nad, Poll, p, k);
    if tx.state != TxBlockWait {
      assert Respond(HearFc(tx, fc), nad, Poll).frames[0] == CfFrame(nad, p, k + 1);
    }
  }

  /** CONTINUE opens a block of the size it carries, whatever was used up of an earlier one: n polls then yield the
      least of n, the block (0 is no limit) and what is left of the payload. */
  lemma ContinueGrantsBlock(tx: Tx, nad: u8, polls: seq<Event>, p: seq<u8>, k: nat, left: nat, fc: FlowControl)
    requires Multi(p) && SenderAt(tx, p, k) && Left(p, k, left) && tx.state != TxBlockWait && fc.status == 0
    requires forall i :: 0 <= i < |polls| ==> polls[i] == Poll
    ensures |Emit(HearFc(tx, fc), nad, polls).frames| ==
            Min(|polls|, if fc.blockSize == 0 then left else Min(fc.blockSize, left))
  {
    RespondAt(tx, nad, Fc(fc), p, k);
    BlockYieldsExactly(HearFc(tx, fc), nad, polls, p, k, left);
  }

  /** CFs since the last CONTINUE among es, or since the beginning with before of them. */
  function SinceContinue(tx: Tx, nad: u8, es: seq<Event>, before: nat): nat
    decreases |es|
  {
    if es == [] then before
    else
      var r := Respond(tx, nad, es[0]);
      SinceContinue(r.tx, nad, es[1..], if es[0].Fc? && es[0].fc.status == 0 then 0 else before + |r.frames|)
  }

  /** The sender's place in its block is the number of CFs since the last CONTINUE, modulo 256; no other flow control
      touches it. */
  lemma {:induction false} BlockCounted(tx: Tx, nad: u8, es: seq<Event>, before: nat)
    requires tx.cfInBlock == before % 256
    ensures Emit(tx, nad, es).tx.cfInBlock == SinceContinue(tx, nad, es, before) % 256
    decreases |es|
  {
    if es != [] {
      var r := Respond(tx, nad, es[0]);
      WrapSucc(before);
      hide NextCf, HearFc, CfBytes;
      CountedOne(tx, nad, es[0]);
      BlockCounted(r.tx, nad, es[1..], if es[0].Fc? && es[0].fc.status == 0 then 0 else before + |r.frames|);
    }
  }

  lemma CountedOne(tx: Tx, nad: u8, e: Event)
    ensures var r := Respond(tx, nad, e);
            && |r.frames| <= 1 && (e.Fc? ==> r.frames == [])
            && r.tx.cfInBlock == if e.Fc? && e.fc.status == 0 then 0
                                 else if r.frames == [] then tx.cfInBlock else (tx.cfInBlock + 1) % 256
  {
    hide CfBytes, NextSeq;
  }

  /** A sender without a stream sends nothing, whatever it is polled and told. */
  lemma {:induction false} NothingToSend(tx: Tx, nad: u8, es: seq<Event>)
    requires !tx.active
    ensures Emit(tx, nad, es).frames == [] && !Emit(tx, nad, es).tx.active
    decreases |es|
  {
    if es != [] {
      NothingToSend(Respond(tx, nad, es[0]).tx, nad, es[1..]);
    }
  }

  /** That is the case from an abort on, and after a payload that went out as a single frame; neither forgets the flow
      control heard last. */
  lemma AbortSilences(tx: Tx, nad: u8, p: seq<u8>, es: seq<Event>)
    ensures Emit(Abort(tx), nad, es).frames == []
    ensures 1 <= |p| <= 6 ==> Emit(BeginStream(tx, nad, p).tx, nad, es).frames == []
    ensures Abort(tx).state == TxIdle && (1 <= |p| <= 6 ==> BeginStream(tx, nad, p).tx.state == TxSf)
    ensures Abort(tx).fc == BeginStream(tx, nad, p).tx.fc == tx.fc
  {
    NothingToSend(Abort(tx), nad, es);
    if 1 <= |p| <= 6 {
      NothingToSend(BeginStream(tx, nad, p).tx, nad, es);
    }
  }

  /** Somewhere in es the sender is polled although its block is used up. */
  predicate Overpolled(tx: Tx, nad: u8, es: seq<Event>)
    decreases |es|
  {
    es != [] && ((es[0].Poll? && tx.active && BlockSpent(tx)) || Overpolled(Respond(tx, nad, es[0]).tx, nad, es[1..]))
  }

  lemma {:induction false} StuckIffOverpolled(tx: Tx, nad: u8, es: seq<Event>)
    requires tx.state != TxBlockWait
    ensures Emit(tx, nad, es).tx.state == TxBlockWait <==> Overpolled(tx, nad, es)
    decreases |es|
  {
    if es != [] {
      var next := Respond(tx, nad, es[0]).tx;
      if es[0].Poll? && tx.active && BlockSpent(tx) {
        BlockWaitIsFinal(next, nad, es[1..]);
      } else {
        StuckIffOverpolled(next, nad, es[1..]);
      }
    }
  }

  /** The same for a stream from its start: after any polls and flow control, CONTINUE makes an unfinished stream
      yield its next CF if and only if the sender was never polled after a block had ended. */
  lemma StreamResumesIff(tx: Tx, nad: u8, p: seq<u8>, es: seq<Event>, fc: FlowControl)
    requires Multi(p) && fc.status == FC_CONTINUE && Emit(BeginStream(tx, nad, p).tx, nad, es).tx.active
    ensures var start, r := BeginStream(tx, nad, p).tx, Emit(BeginStream(tx, nad, p).tx, nad, es);
            && (!Overpolled(start, nad, es) ==>
                  NextCf(HearFc(r.tx, fc), nad).cf == Some(CfFrame(nad, p, |r.frames| + 1)))
            && (Overpolled(start, nad, es) ==> NextCf(HearFc(r.tx, fc), nad).cf == None)
  {
    hide Emit, Overpolled;
    var start := BeginStream(tx, nad, p).tx;
    BeginsAt(tx, nad, p);
    EmitsTheMessage(start, nad, es, p, 0);
    StuckIffOverpolled(start, nad, es);
    var r := Emit(start, nad, es);
    ContinueResumesIff(r.tx, nad, p, |r.frames|, fc);
  }

  /** A stream of more than 11 bytes gets stuck in the plainest way: block size 1, and two polls. */
  lemma TwoPollsGetStuck(tx: Tx, nad: u8, p: seq<u8>, stmin: u8)
    requires Multi(p) && |p| > 11
    ensures var es := [Fc(FlowControl(FC_CONTINUE, 1, stmin)), Poll, Poll];
            var r := Emit(BeginStream(tx, nad, p).tx, nad, es);
            r.frames == [CfFrame(nad, p, 1)] && r.tx.active && r.tx.state == TxBlockWait
  {
    var fc := FlowControl(FC_CONTINUE, 1, stmin);
    var es := [Fc(fc), Poll, Poll];
    var t0 := BeginStream(tx, nad, p).tx;
    BeginsAt(tx, nad, p);
    var t1 := HearFc(t0, fc);
    RespondAt(t0, nad, Fc(fc), p, 0);
    RespondAt(t1, nad, Poll, p, 0);
    var t2 := NextCf(t1, nad).tx;
    RespondAt(t2, nad, Poll, p, 1);
    hide CfFrame, SenderAt;
    assert es[1..] == [Poll, Poll] && es[1..][1..] == [Poll] && es[1..][1..][1..] == [];
    assert Emit(t2, nad, [Poll]) == Emission(NextCf(t2, nad).tx, []) by {
      assert [Poll][1..] == [];
    }
    assert Emit(t1, nad, [Poll, Poll]).tx == Emit(t2, nad, [Poll]).tx;
  }

  /** From the start of a stream: after CONTINUE and one CF, an FC with WAIT, OVERFLOW or any other status and block
      size 0 does not keep the next CF back. */
  lemma NoPauseForWait(tx: Tx, nad: u8, p: seq<u8>, fc: FlowControl)
    requires Multi(p) && |p| > 11 && fc.status != FC_CONTINUE && fc.blockSize == 0
    ensures var es := [Fc(FlowControl(FC_CONTINUE, 0, 0)), Poll, Fc(fc), Poll];
            Emit(BeginStream(tx, nad, p).tx, nad, es).frames == [CfFrame(nad, p, 1), CfFrame(nad, p, 2)]
  {
    hide CfFrame, FfFrame;
    var es := [Fc(FlowControl(FC_CONTINUE, 0, 0)), Poll, Fc(fc), Poll];
    var t0 := BeginStream(tx, nad, p).tx;
    BeginsAt(tx, nad, p);
    RespondAt(t0, nad, es[0], p, 0);
    var t1 := Respond(t0, nad, es[0]).tx;
    RespondAt(t1, nad, Poll, p, 0);
    var t2 := Respond(t1, nad, Poll).tx;
    assert More(|p|, 1) && Ready(t1) && t2.state == TxCf;
    RespondAt(t2, nad, Fc(fc), p, 1);
    var t3 := Respond(t2, nad, Fc(fc)).tx;
    assert Ready(t3);
    RespondAt(t3, nad, Poll, p, 1);
    FourResponses(t0, nad, es[0], es[1], es[2], es[3]);
  }

  lemma FourResponses(tx: Tx, nad: u8, a: Event, b: Event, c: Event, d: Event)
    ensures var r0 := Respond(tx, nad, a);
            var r1 := Respond(r0.tx, nad, b);
            var r2 := Respond(r1.tx, nad, c);
            var r3 := Respond(r2.tx, nad, d);
            Emit(tx, nad, [a, b, c, d]).frames == r0.frames + (r1.frames + (r2.frames + (r3.frames + [])))
  {
    hide Respond;
    assert [a, b, c, d][1..] == [b, c, d] && [b, c, d][1..] == [c, d] && [c, d][1..] == [d] && [d][1..] == [];
    var t1 := Respond(tx, nad, a).tx;
    var t2 := Respond(t1, nad, b).tx;
    var t3 := Respond(t2, nad, c).tx;
    assert Emit(t3, nad, [d]).frames == Respond(t3, nad, d).frames + [];
    assert Emit(t2, nad, [c, d]).frames == Respond(t2, nad, c).frames + Emit(t3, nad, [d]).frames;
    assert Emit(t1, nad, [b, c, d]).frames == Respond(t1, nad, b).frames + Emit(t2, nad, [c, d]).frames;
  }

  // ---------------------------------------------------------------------------------------------
  // The driver the header describes
  // ---------------------------------------------------------------------------------------------

  /** Poll as long as lin_tx_has_more says so. */
  function PollOut(tx: Tx, nad: u8): (r: Emission)
    requires TxInv(tx)
    ensures TxInv(r.tx) && !HasMore(r.tx)
    decreases |tx.pending|, if tx.state == TxCf then 1 else 0
  {
    if !HasMore(tx) then Emission(tx, [])
    else
      var one := NextCf(tx, nad);
      var rest := PollOut(one.tx, nad);
      Emission(rest.tx, ToSeq(one.cf) + rest.frames)
  }

  /** After every flow-control frame, poll as long as there is more. */
  function Drive(tx: Tx, nad: u8, fcs: seq<FlowControl>): (r: Emission)
    requires TxInv(tx)
    decreases |fcs|
  {
    if fcs == [] then Emission(tx, [])
    else
      var out := PollOut(HearFc(tx, fcs[0]), nad);
      var rest := Drive(out.tx, nad, fcs[1..]);
      Emission(rest.tx, out.frames + rest.frames)
  }

  lemma {:induction false} PollOutYields(tx: Tx, nad: u8, p: seq<u8>, k: nat, left: nat)
    requires TxInv(tx) && Multi(p) && SenderAt(tx, p, k) && Left(p, k, left) && tx.active && tx.state == TxCf
    ensures var r, n := PollOut(tx, nad), Min(Quota(tx, left), left);
            r.frames == Cfs(nad, p, k, n) && (r.tx.active ==> r.tx.state == TxBlockWait)
    decreases |tx.pending|
  {
    hide CfFrame, SeqNum, NextSeq, CfBytes, Reached, Multi, Quota, BlockSpent;
    RespondAt(tx, nad, Poll, p, k);
    PollUsesQuota(tx, nad, p, k, left);
    var one := NextCf(tx, nad);
    var rest := PollOut(one.tx, nad);
    if Ready(tx) {
      assert ToSeq(one.cf) == [CfFrame(nad, p, k + 1)];
      if one.tx.active {
        PollOutYields(one.tx, nad, p, k + 1, left - 1);
      } else {
        assert rest == Emission(one.tx, []);
      }
    } else {
      assert rest == Emission(one.tx, []) && ToSeq(one.cf) + [] == [];
    }
  }

  /** A finished or stuck sender yields nothing more. */
  lemma {:induction false} DriveSettled(tx: Tx, nad: u8, fcs: seq<FlowControl>)
    requires TxInv(tx) && (tx.active ==> tx.state == TxBlockWait)
    ensures Drive(tx, nad, fcs).frames == []
    decreases |fcs|
  {
    if fcs != [] {
      DriveSettled(HearFc(tx, fcs[0]), nad, fcs[1..]);
    }
  }

  function FirstContinue(fcs: seq<FlowControl>): Option<FlowControl> {
    if fcs == [] then None else if fcs[0].status == FC_CONTINUE then Some(fcs[0]) else FirstContinue(fcs[1..])
  }

  /** The CFs that driver gets out of a payload of n bytes: one block of the first CONTINUE. */
  function OneBlock(fcs: seq<FlowControl>, n: nat): nat
    requires n > SF_MAX
  {
    match FirstContinue(fcs)
    case None => 0
    case Some(fc) => if fc.blockSize == 0 then CfCount(n) else Min(fc.blockSize, CfCount(n))
  }

  lemma {:induction false} DriveYields(tx: Tx, nad: u8, p: seq<u8>, fcs: seq<FlowControl>)
    requires TxInv(tx) && Multi(p) && SenderAt(tx, p, 0) && tx.state == TxWaitFc && tx.cfInBlock == 0
    ensures Drive(tx, nad, fcs).frames == Cfs(nad, p, 0, OneBlock(fcs, |p|))
    decreases |fcs|
  {
    hide CfFrame, SeqNum;
    if fcs != [] {
      RespondAt(tx, nad, Fc(fcs[0]), p, 0);
      var heard := HearFc(tx, fcs[0]);
      var out := PollOut(heard, nad);
      if fcs[0].status == FC_CONTINUE {
        AllLeft(p);
        CfCountExact(|p|, 0);
        PollOutYields(heard, nad, p, 0, CfCount(|p|));
        DriveSettled(out.tx, nad, fcs[1..]);
        assert out.frames + [] == out.frames;
      } else {
        assert out == Emission(heard, []);
        DriveYields(heard, nad, p, fcs[1..]);
        assert [] + Drive(heard, nad, fcs[1..]).frames == Drive(heard, nad, fcs[1..]).frames;
      }
    }
  }

  /** The header tells its callers to poll while lin_tx_has_more holds, and to go on at the next CONTINUE.  Such a
      caller gets exactly one block out, and so the whole message if and only if the first CONTINUE announces
      no limit or a block that the message fits in; later flow control never helps. */
  lemma DocumentedDriverIff(tx: Tx, nad: u8, p: seq<u8>, fcs: seq<FlowControl>)
    requires Multi(p)
    ensures var start := BeginStream(tx, nad, p).tx;
            && TxInv(start)
            && Drive(start, nad, fcs).frames == Cfs(nad, p, 0, OneBlock(fcs, |p|))
            && ([FfFrame(nad, p)] + Drive(start, nad, fcs).frames == MessageFrames(nad, nad, p) <==>
                  match FirstContinue(fcs)
                  case None => false
                  case Some(fc) => fc.blockSize == 0 || fc.blockSize >= CfCount(|p|))
  {
    BeginsAt(tx, nad, p);
    DriveYields(BeginStream(tx, nad, p).tx, nad, p, fcs);
    FfAndCfsAreMessage(nad, p);
    CfCountExact(|p|, 0);
    hide CfFrame, FfFrame, Drive, CfCount;
  }

  /** Flow-control parameters survive encoding and decoding, and touch nothing but the sender. */
  lemma FcRoundTrip(n: Node, nad: u8, fc: FlowControl)
    requires Accepts(n, nad) && fc.status < 16
    ensures Decode(n, FcFrame(nad, fc)).node == n.(tx := HearFc(n.tx, fc))
    ensures HearFc(n.tx, fc).fc == fc
  {
  }

  /** WAIT and OVERFLOW do not pause a sending context: they replace its block size, and the next poll yields
      the next CF exactly if the new size is not used up already. */
  lemma OnlyBlockSizePauses(tx: Tx, nad: u8, p: seq<u8>, k: nat, fc: FlowControl)
    requires Multi(p) && SenderAt(tx, p, k) && tx.active && tx.state == TxCf && fc.status != FC_CONTINUE
    ensures NextCf(HearFc(tx, fc), nad).cf ==
            if fc.blockSize == 0 || tx.cfInBlock < fc.blockSize then Some(CfFrame(nad, p, k + 1)) else None
  {
    RespondAt(tx, nad, Fc(fc), p, k);
    RespondAt(HearFc(tx, fc), nad, Poll, p, k);
    if Ready(HearFc(tx, fc)) {
      assert Respond(HearFc(tx, fc), nad, Poll).frames[0] == CfFrame(nad, p, k + 1);
    }
  }

  lemma WrapSucc(a: nat)
    ensures (a % 256 + 1) % 256 == (a + 1) % 256
  {
  }

  // ---------------------------------------------------------------------------------------------
  // The wait counter, over everything a context can do
  // ---------------------------------------------------------------------------------------------

  /** All that can befall a context short of its initialisation or reset: any frame is decoded, a CF is polled, a
      stream is begun or aborted, or a one-shot encoding leaves its own state and number behind. */
  datatype Deed = Hears(f: Frame) | Polls | Begins(pduNad: u8, p: seq<u8>) | Aborts
                | OneShot(state: TxState, seqNum: SeqNo)

  function Do(n: Node, d: Deed): Node {
    match d
    case Hears(f) => Decode(n, f).node
    case Polls => n.(tx := NextCf(n.tx, n.nad).tx)
    case Begins(pduNad, p) => n.(tx := BeginStream(n.tx, pduNad, p).tx)
    case Aborts => n.(tx := Abort(n.tx))
    case OneShot(state, seqNum) => n.(tx := n.tx.(state := state, seqNum := seqNum))
  }

  function Live(n: Node, ds: seq<Deed>): Node {
    if ds == [] then n else Do(Live(n, ds[..|ds| - 1]), ds[|ds| - 1])
  }

  predicate IsWaitFor(n: Node, f: Frame) {
    IsFcFor(n, f) && Params(f).status == FC_WAIT
  }

  /** WAITs among ds that n's address filter lets through. */
  function Waits(n: Node, ds: seq<Deed>): nat {
    if ds == [] then 0
    else
      var last := ds[|ds| - 1];
      Waits(n, ds[..|ds| - 1]) + (if last.Hears? && IsWaitFor(n, last.f) then 1 else 0)
  }

  lemma DoCountsWaits(n: Node, d: Deed)
    ensures Do(n, d).nad == n.nad && Do(n, d).functional == n.functional
    ensures Do(n, d).tx.waits == if d.Hears? && IsWaitFor(n, d.f) then (n.tx.waits + 1) % 256 else n.tx.waits
  {
    if d.Hears? {
      OnlyFcReachesSender(n, d.f);
    }
  }

  /** The wait counter is the number of WAITs heard since initialisation, modulo 256: no CONTINUE, poll, stream
      start, abort or encoding resets it. */
  lemma {:induction false} WaitsAccumulate(n: Node, ds: seq<Deed>)
    requires n.tx.waits == 0
    ensures Live(n, ds).tx.waits == Waits(n, ds) % 256
    ensures Live(n, ds).nad == n.nad && Live(n, ds).functional == n.functional
    decreases |ds|
  {
    hide Do, IsWaitFor;
    if ds != [] {
      var front, last := ds[..|ds| - 1], ds[|ds| - 1];
      WaitsAccumulate(n, front);
      DoCountsWaits(Live(n, front), last);
      WrapSucc(Waits(n, front));
      if last.Hears? {
        SameFilter(n, Live(n, front), last.f);
      }
    }
  }

  lemma SameFilter(a: Node, b: Node, f: Frame)
    requires a.nad == b.nad && a.functional == b.functional
    ensures IsWaitFor(a, f) <==> IsWaitFor(b, f)
  {
  }

  /** Hence a WAIT is refused exactly if the number of WAITs heard since initialisation, itself included, exceeds 3
      modulo 256. */
  lemma WaitRefusedIff(n: Node, ds: seq<Deed>, f: Frame)
    requires n.tx.waits == 0 && IsWaitFor(n, f)
    ensures Decode(Live(n, ds), f).status ==
            if Waits(n, ds + [Hears(f)]) % 256 > MAX_WAIT_FRAMES then FcWaitExceeded else Ok
  {
    hide Live;
    WaitsAccumulate(n, ds);
    WrapSucc(Waits(n, ds));
    assert (ds + [Hears(f)])[..|ds|] == ds;
  }

  // ---------------------------------------------------------------------------------------------
  // Completion
  // ---------------------------------------------------------------------------------------------

  function Polls(es: seq<Event>): nat {
    if es == [] then 0 else (if es[0].Poll? then 1 else 0) + Polls(es[1..])
  }

  /** No poll happens while the sender is active but not ready. */
  predicate Disciplined(tx: Tx, nad: u8, es: seq<Event>)
    decreases |es|
  {
    es != [] ==>
      && (es[0].Poll? && tx.active ==> Ready(tx))
      && Disciplined(Respond(tx, nad, es[0]).tx, nad, es[1..])
  }

  lemma {:induction false} DisciplinedDrains(tx: Tx, nad: u8, es: seq<Event>, p: seq<u8>, k: nat, left: nat)
    requires Multi(p) && SenderAt(tx, p, k) && Disciplined(tx, nad, es) && Left(p, k, left)
    ensures |Emit(tx, nad, es).frames| == Min(Polls(es), left)
    decreases |es|
  {
    if es != [] {
      RespondAt(tx, nad, es[0], p, k);
      var first := Respond(tx, nad, es[0]);
      DisciplinedDrains(first.tx, nad, es[1..], p, k + |first.frames|, left - |first.frames|);
    }
  }

  /** Streaming refines the one-shot message: under any flow control, as long as the sender is polled
      only when ready and often enough, the FF and the emitted CFs are the message's frames. */
  lemma StreamIsMessage(tx: Tx, nad: u8, es: seq<Event>, p: seq<u8>)
    requires Multi(p)
    requires Disciplined(BeginStream(tx, nad, p).tx, nad, es) && Polls(es) >= CfCount(|p|)
    ensures var r := Emit(BeginStream(tx, nad, p).tx, nad, es);
            [FfFrame(nad, p)] + r.frames == MessageFrames(nad, nad, p) && !r.tx.active && r.tx.pending == []
  {
    var start := BeginStream(tx, nad, p).tx;
    BeginsAt(tx, nad, p);
    AllLeft(p);
    DisciplinedDrains(start, nad, es, p, 0, CfCount(|p|));
    EmitsTheMessage(start, nad, es, p, 0);
    FfAndCfsAreMessage(nad, p);
  }

  /** The same frame, heard again and again. */
  function Repeated(f: Frame, count: nat): (ds: seq<Deed>)
    ensures |ds| == count
  {
    if count == 0 then [] else Repeated(f, count - 1) + [Hears(f)]
  }

  lemma {:induction false} RepeatedWaits(n: Node, f: Frame, count: nat)
    requires IsWaitFor(n, f)
    ensures Waits(n, Repeated(f, count)) == count
  {
    if count > 0 {
      RepeatedWaits(n, f, count - 1);
      OneMoreWait(n, Repeated(f, count - 1), f);
      hide Waits;
    }
  }

  /** For example the fourth WAIT is refused and the 257th is accepted again. */
  lemma WaitAcceptedAgain(n: Node, f: Frame)
    requires n.tx.waits == 0 && IsWaitFor(n, f)
    ensures Decode(Live(n, Repeated(f, 3)), f).status == FcWaitExceeded
    ensures Decode(Live(n, Repeated(f, 256)), f).status == Ok
  {
    hide IsWaitFor, Decode, Live, Repeated;
    WaitRefusedIff(n, Repeated(f, 3), f);
    WaitRefusedIff(n, Repeated(f, 256), f);
    RepeatedWaits(n, f, 3);
    RepeatedWaits(n, f, 256);
    OneMoreWait(n, Repeated(f, 3), f);
    OneMoreWait(n, Repeated(f, 256), f);
  }

  lemma OneMoreWait(n: Node, ds: seq<Deed>, f: Frame)
    requires IsWaitFor(n, f)
    ensures Waits(n, ds + [Hears(f)]) == Waits(n, ds) + 1
  {
    assert (ds + [Hears(f)])[..|ds|] == ds;
  }

  /** A driver that polls, and supplies CONTINUE (with any block sizes) only when the sender is not ready. */
  function LazySchedule(tx: Tx, nad: u8, blocks: nat -> u8, i: nat): (es: seq<Event>)
    requires TxInv(tx) && (tx.active ==> tx.state in {TxWaitFc, TxCf})
    ensures forall j :: 0 <= j < |es| && es[j].Fc? ==> es[j].fc.status == FC_CONTINUE
    decreases |tx.pending|, if Ready(tx) then 0 else 1
  {
    if !tx.active then []
    else if Ready(tx) then [Poll] + LazySchedule(NextCf(tx, nad).tx, nad, blocks, i)
    else
      var fc := FlowControl(FC_CONTINUE, blocks(i), 0);
      [Fc(fc)] + LazySchedule(HearFc(tx, fc), nad, blocks, i + 1)
  }

  /** That driver always finishes: it is disciplined and polls exactly once per remaining CF. */
  lemma {:induction false} LazyScheduleFinishes(tx: Tx, nad: u8, blocks: nat -> u8, i: nat,
                                                p: seq<u8>, k: nat, left: nat)
    requires TxInv(tx) && tx.state != TxBlockWait && Multi(p) && SenderAt(tx, p, k) && Left(p, k, left)
    ensures Disciplined(tx, nad, LazySchedule(tx, nad, blocks, i))
    ensures Polls(LazySchedule(tx, nad, blocks, i)) == left
    decreases |tx.pending|, if Ready(tx) then 0 else 1
  {
    hide SeqNum, NextSeq;
    if tx.active {
      var e := if Ready(tx) then Poll else Fc(FlowControl(FC_CONTINUE, blocks(i), 0));
      RespondAt(tx, nad, e, p, k);
      var tx', sent := Respond(tx, nad, e).tx, if e.Poll? then 1 else 0;
      LazyScheduleFinishes(tx', nad, blocks, i + 1 - sent, p, k + sent, left - sent);
      var rest := LazySchedule(tx', nad, blocks, i + 1 - sent);
      assert ([e] + rest)[1..] == rest;
    }
  }

  lemma LeftFrom(p: seq<u8>, k: nat)
    requires Multi(p) && k < CfCount(|p|)
    ensures Left(p, k, CfCount(|p|) - k)
  {
    CfCountExact(|p|, CfCount(|p|));
    CfCountExact(|p|, CfCount(|p|) - 1);
  }

  /** From wherever it stands in its payload, a sender driven that way sends all the rest. */
  lemma ScheduleDrains(tx: Tx, nad: u8, p: seq<u8>, k: nat, blocks: nat -> u8)
    requires TxInv(tx) && (tx.active ==> tx.state in {TxWaitFc, TxCf}) && Multi(p) && SenderAt(tx, p, k)
    ensures !Emit(tx, nad, LazySchedule(tx, nad, blocks, 0)).tx.active
  {
    if tx.active {
      RespondAt(tx, nad, Poll, p, k);
      CfCountExact(|p|, k);
      var es, left := LazySchedule(tx, nad, blocks, 0), CfCount(|p|) - k;
      LeftFrom(p, k);
      hide SenderAt, Emit, LazySchedule, Respond, CfFrame, Disciplined, Polls, Left, CfCount, Cfs, TxInv, Multi;
      LazyScheduleFinishes(tx, nad, blocks, 0, p, k, left);
      DisciplinedDrains(tx, nad, es, p, k, left);
      EmitsTheMessage(tx, nad, es, p, k);
      RespondAt(Emit(tx, nad, es).tx, nad, Poll, p, k + left);
      CfCountExact(|p|, k + left);
    }
  }
}
