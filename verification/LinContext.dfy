/** lin_transport_ctx_t: the transport context with its buffers, updated in place.  Every method is
    proved against the step functions of LinProtocol through View(). */
module LinContext {
  import opened Bytes
  import opened LinProtocol
  import opened LinReassembly
  import opened LinStreaming
  import opened LinOneShot

  /** What became of a one-shot encoding.  Overrun is the first write behind the caller's max_frames
      frames; what the C code does from there on is undefined. */
  datatype EncodeOutcome = Rejected | Encoded(count: nat) | Overrun

  /** The mask tests of the decoder, as arithmetic on the PCI byte. */
  lemma PciMasks(pci: u8)
    ensures pci - pci % 32 == 0 <==> PciTypeOf(pci).SingleFrame?
    ensures pci - pci % 32 == PCI_FF <==> PciTypeOf(pci).FirstFrame?
    ensures pci - pci % 32 == PCI_CF <==> PciTypeOf(pci).ConsecutiveFrame?
    ensures pci - pci % 32 == PCI_FC <==> PciTypeOf(pci).FlowControlFrame?
  {
  }

  /** The number after s, as the C code computes it. */
  function SeqAfter(s: SeqNo): (r: SeqNo)
    ensures r == NextSeq(s)
  {
    s % SEQ_MAX + 1
  }

  /** A reset context: as new, at the default address, but with the last flow-control parameters kept. */
  function ResetNode(fc: FlowControl): Node {
    Node(NAD_DEFAULT, true, Rx(RxIdle, 0, [], 0), Tx(TxIdle, 0, 0, 0, false, [], fc))
  }

  lemma ResetInv(fc: FlowControl)
    ensures NodeInv(ResetNode(fc))
    ensures ResetNode(InitNode(1).tx.fc) == InitNode(1) && ResetNode(fc).tx == InitNode(1).tx.(fc := fc)
  {
  }

  class Context {
    var txState: TxState
    var rxState: RxState
    var nad: u8
    var functional: bool
    const rxBuffer: array<u8>
    var rxLen: nat
    var rxExpected: nat
    var rxSeq: SeqNo
    var txSeq: SeqNo
    var rxFc: FlowControl
    var waits: u8
    var cfInBlock: u8
    const txStreamBuf: array<u8>
    var streamPos: nat
    var streamLeft: nat
    var active: bool

    predicate Shape()
      reads this
    {
      && rxBuffer.Length == FF_MAX && txStreamBuf.Length == FF_MAX && rxBuffer != txStreamBuf
      && rxLen <= FF_MAX && streamPos + streamLeft <= FF_MAX
    }

    function RxView(): Rx
      reads this, rxBuffer
      requires Shape()
    {
      Rx(rxState, rxExpected, rxBuffer[..rxLen], rxSeq)
    }

    function TxView(): Tx
      reads this, txStreamBuf
      requires Shape()
    {
      Tx(txState, txSeq, cfInBlock, waits, active, txStreamBuf[streamPos..streamPos + streamLeft], rxFc)
    }

    function View(): Node
      reads this, rxBuffer, txStreamBuf
      requires Shape()
    {
      Node(nad, functional, RxView(), TxView())
    }

    ghost predicate Valid()
      reads this, rxBuffer, txStreamBuf
    {
      Shape() && NodeInv(View())
    }

    constructor (address: u8)
      ensures Valid() && fresh(rxBuffer) && fresh(txStreamBuf)
      ensures View() == InitNode(address)
    {
      txState, rxState, nad, functional := TxIdle, RxIdle, address, true;
      rxLen, rxExpected, rxSeq, txSeq := 0, 0, 0, 0;
      waits, cfInBlock, streamPos, streamLeft, active := 0, 0, 0, 0, false;
      rxFc := FlowControl(FC_CONTINUE, 0, 10);
      rxBuffer := new u8[FF_MAX](_ => 0);
      txStreamBuf := new u8[FF_MAX](_ => 0);
    }

    method Reset()
      requires Valid()
      modifies this, rxBuffer, txStreamBuf
      ensures Valid()
      ensures View() == ResetNode(old(rxFc))
    {
      hide NodeInv;
      ClearRx();
      ClearTx();
      nad, functional := NAD_DEFAULT, true;
      SetZero(rxBuffer);
      SetZero(txStreamBuf);
      assert rxBuffer[..rxLen] == [] && txStreamBuf[streamPos..streamPos + streamLeft] == [];
      ResetInv(rxFc);
    }

    method ClearRx()
      modifies this`rxState, this`rxLen, this`rxExpected, this`rxSeq
      ensures rxState == RxIdle && rxLen == rxExpected == rxSeq == 0
    {
      rxState, rxLen, rxExpected, rxSeq := RxIdle, 0, 0, 0;
    }

    method ClearTx()
      modifies this`txState, this`txSeq, this`waits, this`cfInBlock, this`streamPos, this`streamLeft, this`active
      ensures txState == TxIdle && txSeq == waits == cfInBlock == 0 && streamPos == streamLeft == 0 && !active
    {
      txState, txSeq, waits, cfInBlock := TxIdle, 0, 0, 0;
      streamPos, streamLeft, active := 0, 0, false;
    }

    // -------------------------------------------------------------------------------------------
    // Receiving
    // -------------------------------------------------------------------------------------------

    method Decode(f: Frame) returns (status: Status, pdu: Option<Pdu>)
      requires Valid()
      modifies this, rxBuffer
      ensures Valid()
      ensures Decoded(View(), status, pdu) == LinProtocol.Decode(old(View()), f)
      ensures status == NadMismatch <==> f[0] != nad && !(f[0] == 0x7E && functional)
    {
      DecodeKeepsInv(View(), f);
      PciMasks(f[1]);
      if f[0] != nad && !(f[0] == NAD_FUNCTIONAL && functional) {
        return NadMismatch, None;
      }
      var pci := f[1];
      if pci - pci % 32 == 0 {
        if pci % 32 > SF_MAX {
          return PciError, None;
        }
        rxState := RxSf;
        return Ok, Some(Pdu(f[0], pci, f[2..2 + pci % 32]));
      } else if pci - pci % 32 == PCI_FF {
        status, pdu := StoreFirst(f);
      } else if pci - pci % 32 == PCI_CF {
        status, pdu := StoreConsecutive(f);
      } else if pci - pci % 32 == PCI_FC {
        status, pdu := StoreFlowControl(f);
      } else {
        return PciError, None;
      }
    }

    method Append(data: seq<u8>)
      requires Shape() && rxLen + |data| <= FF_MAX
      modifies this`rxLen, rxBuffer
      ensures Shape() && RxView() == old(RxView()).(buf := old(RxView()).buf + data) && TxView() == old(TxView())
    {
      CopyInto(rxBuffer, rxLen, data);
      rxLen := rxLen + |data|;
      assert rxBuffer[..rxLen] == old(rxBuffer[..rxLen]) + data;
    }

    method StoreFirst(f: Frame) returns (status: Status, pdu: Option<Pdu>)
      requires Valid()
      modifies this, rxBuffer
      ensures Shape() && Decoded(View(), status, pdu) == DecodeFf(old(View()), f)
    {
      var total := Announced(f);
      if total < SF_MAX + 1 || total > FF_MAX {
        return PciError, None;
      }
      rxExpected, rxLen, rxSeq, rxState := total, 0, 0, RxFf;
      assert rxBuffer[..rxLen] == [] && [] + f[3..] == f[3..];
      Append(f[3..]);
      pdu := Some(Pdu(f[0], f[1], rxBuffer[..rxLen]));
      if rxLen < rxExpected {
        rxState := RxCf;
      }
      status := Ok;
    }

    method StoreConsecutive(f: Frame) returns (status: Status, pdu: Option<Pdu>)
      requires Valid() && PciTypeOf(f[1]).ConsecutiveFrame?
      modifies this, rxBuffer
      ensures Shape() && Decoded(View(), status, pdu) == DecodeCf(old(View()), f)
    {
      hide SeqAfter, NextSeq;
      if rxState != RxCf {
        return PciError, None;
      }
      var seqNo := f[1] % 32;
      if seqNo != SeqAfter(rxSeq) {
        return PciError, None;
      }
      rxSeq := seqNo;
      var room := rxExpected - rxLen;
      var n := if CF_PAYLOAD > room then room else CF_PAYLOAD;
      Append(f[2..2 + n]);
      pdu := Some(Pdu(f[0], f[1], rxBuffer[..rxLen]));
      if rxLen >= rxExpected {
        rxState := RxIdle;
        pdu := Some(Pdu(f[0], f[1], rxBuffer[..rxExpected]));
      }
      status := Ok;
    }

    method StoreFlowControl(f: Frame) returns (status: Status, pdu: Option<Pdu>)
      requires Valid()
      modifies this
      ensures Shape() && Decoded(View(), status, pdu) == DecodeFc(old(View()), f)
    {
      rxFc := FlowControl(f[2] % 16, f[3], f[4]);
      if rxFc.status == FC_CONTINUE {
        cfInBlock := 0;
        if txState == TxWaitFc {
          txState := TxCf;
        }
      } else if rxFc.status == FC_WAIT {
        waits := (waits + 1) % 256;
        if waits > MAX_WAIT_FRAMES {
          return FcWaitExceeded, None;
        }
      }
      return Ok, Some(Pdu(f[0], f[1], []));
    }

    /** lin_tx_encode_fc_ctx: a frame from explicit parameters; the context is not consulted. */
    method EncodeFc(address: u8, fc: FlowControl) returns (f: Frame)
      requires fc.status < 32
      ensures f == FcFrame(address, fc)
    {
      f := [address, PCI_FC + fc.status, fc.status, fc.blockSize, fc.stmin, 0, 0, 0];
    }

    // -------------------------------------------------------------------------------------------
    // Streaming
    // -------------------------------------------------------------------------------------------

    method BeginStream(pduNad: u8, data: seq<u8>) returns (status: Status, first: Option<Frame>)
      requires Valid() && |data| < 0x1_0000
      modifies this, txStreamBuf
      ensures Valid()
      ensures Begun(View().tx, status, first) == LinProtocol.BeginStream(old(View()).tx, pduNad, data)
      ensures View() == old(View()).(tx := View().tx)
    {
      ghost var before := View().tx;
      BeginKeepsInv(before, pduNad, data);
      hide RxInv, TxInv, SfFrame, FfFrame;
      if |data| == 0 || |data| > FF_MAX {
        return PciError, None;
      }
      if |data| <= SF_MAX {
        var f := BeginSingle(pduNad, data);
        return Ok, Some(f);
      }
      var f := BeginMulti(pduNad, data);
      return Ok, Some(f);
    }

    method BeginSingle(pduNad: u8, data: seq<u8>) returns (sf: Frame)
      requires Shape() && 1 <= |data| <= SF_MAX
      modifies this`txState, this`active, this`streamPos, this`streamLeft
      ensures Shape() && RxView() == old(RxView())
      ensures Begun(TxView(), Ok, Some(sf)) == LinProtocol.BeginStream(old(TxView()), pduNad, data)
    {
      txState, active, streamPos, streamLeft := TxSf, false, 0, 0;
      sf := [pduNad, |data|] + Pad(data);
    }

    method BeginMulti(pduNad: u8, data: seq<u8>) returns (ff: Frame)
      requires Shape() && Multi(data)
      modifies this`txState, this`txSeq, this`active, this`cfInBlock, this`streamPos, this`streamLeft, txStreamBuf
      ensures Shape() && RxView() == old(RxView())
      ensures Begun(TxView(), Ok, Some(ff)) == LinProtocol.BeginStream(old(TxView()), pduNad, data)
    {
      ff := [pduNad, PCI_FF + |data| / 256 % 16, |data| % 256] + data[..FF_PAYLOAD];
      StoreStream(data[FF_PAYLOAD..]);
      txState, txSeq, active, cfInBlock := TxWaitFc, 0, true, 0;
    }

    lemma BeginKeepsInv(tx: Tx, pduNad: u8, data: seq<u8>)
      requires TxInv(tx)
      ensures TxInv(LinProtocol.BeginStream(tx, pduNad, data).tx)
    {
    }

    method StoreStream(rest: seq<u8>)
      requires Shape() && |rest| <= FF_MAX
      modifies this`streamPos, this`streamLeft, txStreamBuf
      ensures Shape() && TxView() == old(TxView()).(pending := rest) && RxView() == old(RxView())
    {
      FillStream(rest);
      streamPos, streamLeft := 0, |rest|;
    }

    method FillStream(rest: seq<u8>)
      requires Shape() && |rest| <= FF_MAX
      modifies txStreamBuf
      ensures txStreamBuf[0..|rest|] == rest
    {
      CopyInto(txStreamBuf, 0, rest);
      Overwritten(old(txStreamBuf[..]), rest, txStreamBuf[..]);
    }

    lemma Overwritten(a: seq<u8>, src: seq<u8>, b: seq<u8>)
      requires |src| <= |a| && b == a[..0] + src + a[|src|..]
      ensures b[0..|src|] == src
    {
    }

    method NextCf() returns (cf: Option<Frame>)
      requires Valid()
      modifies this`txState, this`txSeq, this`cfInBlock, this`active, this`streamPos, this`streamLeft
      ensures Valid()
      ensures Polled(View().tx, cf) == LinProtocol.NextCf(old(View()).tx, old(nad))
      ensures View() == old(View()).(tx := View().tx)
    {
      if !active {
        return None;
      }
      if rxFc.blockSize > 0 && cfInBlock >= rxFc.blockSize {
        txState := TxBlockWait;
        return None;
      }
      if txState != TxCf {
        return None;
      }
      var f := EmitCf();
      cf := Some(f);
    }

    method EmitCf() returns (cf: Frame)
      requires Shape() && Ready(TxView()) && TxInv(TxView())
      modifies this`txState, this`txSeq, this`cfInBlock, this`active, this`streamPos, this`streamLeft
      ensures Shape() && TxInv(TxView())
      ensures Polled(TxView(), Some(cf)) == LinProtocol.NextCf(old(TxView()), nad)
    {
      hide SeqAfter, Zeros, CfBytes;
      var block := TakeBlock();
      txSeq := SeqAfter(txSeq);
      cf := CfBytes(nad, txSeq, block);
      cfInBlock := (cfInBlock + 1) % 256;
      if streamLeft == 0 {
        active, txState := false, TxIdle;
      }
    }

    method TakeBlock() returns (block: seq<u8>)
      requires Shape()
      modifies this`streamPos, this`streamLeft
      ensures Shape() && |block| == Min(CF_PAYLOAD, old(streamLeft))
      ensures block == old(TxView()).pending[..Min(CF_PAYLOAD, old(streamLeft))]
      ensures TxView() == old(TxView()).(pending := old(TxView()).pending[Min(CF_PAYLOAD, old(streamLeft))..])
    {
      var n := if streamLeft < CF_PAYLOAD then streamLeft else CF_PAYLOAD;
      ghost var before := TxView().pending;
      block := txStreamBuf[streamPos..streamPos + n];
      assert block == before[..n];
      streamPos, streamLeft := streamPos + n, streamLeft - n;
      assert TxView().pending == before[n..];
    }

    /** The public "more CFs?" test; it also says yes when the block is spent and the next poll yields nothing. */
    method HasMore() returns (more: bool)
      requires Valid()
      ensures more == LinProtocol.HasMore(View().tx)
      ensures LinProtocol.NextCf(View().tx, nad).cf.Some? <==> more && !BlockSpent(View().tx)
    {
      more := active && txState == TxCf;
    }

    method AbortStream()
      requires Valid()
      modifies this, txStreamBuf
      ensures Valid()
      ensures View() == old(View()).(tx := Abort(old(View()).tx))
    {
      active, streamPos, streamLeft, txState, cfInBlock := false, 0, 0, TxIdle, 0;
      SetZero(txStreamBuf);
    }

    // -------------------------------------------------------------------------------------------
    // One-shot encoding
    // -------------------------------------------------------------------------------------------

    /** The counter is 8 bits wide: the result is the number of frames modulo 256. */
    static method CalcFrameCount(len: u16) returns (count: u8)
      ensures count == FramesNeeded(len) % 256
    {
      if len == 0 || len > FF_MAX {
        return 0;
      }
      if len <= SF_MAX {
        return 1;
      }
      count := 1;
      var remaining := len - FF_PAYLOAD;
      ghost var cfs := 0;
      while remaining > 0
        invariant remaining == len - Reached(len, cfs)
        invariant count == (1 + cfs) % 256
        invariant cfs > 0 ==> More(len, cfs - 1)
        decreases remaining
      {
        WrapSucc(1 + cfs);
        count := (count + 1) % 256;
        remaining := if remaining >= CF_PAYLOAD then remaining - CF_PAYLOAD else 0;
        cfs := cfs + 1;
      }
      CfCountExact(len, cfs);
      CfCountExact(len, cfs - 1);
    }

    /** Up to 260 bytes the encoder produces exactly the message's frames, given room for them.  A longer payload
        is never encoded: it is rejected if maxFrames is below the wrapped frame count, and otherwise runs over
        the caller's frames. */
    method EncodeOneShot(pduNad: u8, data: seq<u8>, frames: array<Frame>, maxFrames: u8) returns (r: EncodeOutcome)
      requires Valid() && |data| < 0x1_0000 && frames.Length == maxFrames
      modifies this`txState, this`txSeq, frames
      ensures Valid() && View() == old(View()).(tx := old(View()).tx.(state := txState, seqNum := txSeq))
      ensures r.Rejected? <==> |data| == 0 || |data| > FF_MAX || maxFrames < FramesNeeded(|data|) % 256
      ensures r.Encoded? <==> 1 <= |data| <= 260 && maxFrames >= FramesNeeded(|data|)
      ensures r.Encoded? ==> r.count == FramesNeeded(|data|) && Encodes(frames[..r.count], pduNad, data)
      ensures r.Encoded? ==> frames[r.count..] == old(frames[r.count..])
      ensures r.Encoded? ==> txState == (if |data| <= SF_MAX then TxSf else TxCf)
      ensures r.Rejected? ==> View() == old(View()) && frames[..] == old(frames[..])
    {
      if |data| == 0 || |data| > FF_MAX {
        return Rejected;
      }
      var needed := CalcFrameCount(|data|);
      if |data| <= SF_MAX {
        if maxFrames < 1 {
          return Rejected;
        }
        EncodeSingle(pduNad, data, frames);
        return Encoded(1);
      }
      NeededWithin(|data|);
      if maxFrames < needed {
        return Rejected;
      }
      r := EncodeMulti(pduNad, data, frames);
    }

    method EncodeSingle(pduNad: u8, data: seq<u8>, frames: array<Frame>)
      requires 1 <= |data| <= SF_MAX && frames.Length >= 1
      modifies this`txState, frames
      ensures Encodes(frames[..1], pduNad, data) && frames[1..] == old(frames[1..]) && txState == TxSf
    {
      frames[0] := [pduNad, |data|] + data + frames[0][2 + |data|..];
      txState := TxSf;
      assert frames[0][..2 + |data|] == [pduNad, |data|] + data;
    }

    method EncodeMulti(pduNad: u8, data: seq<u8>, frames: array<Frame>) returns (r: EncodeOutcome)
      requires Multi(data) && frames.Length < 256
      modifies this`txState, this`txSeq, frames
      ensures r.Encoded? <==> |data| <= 260 && frames.Length >= 1 + CfCount(|data|)
      ensures r.Encoded? ==> r.count == 1 + CfCount(|data|) && frames[..r.count] == MessageFrames(pduNad, pduNad, data)
      ensures r.Encoded? ==> frames[r.count..] == old(frames[r.count..]) && txState == TxCf
      ensures !r.Rejected?
    {
      if frames.Length == 0 {
        return Overrun;
      }
      frames[0] := [pduNad, PCI_FF + |data| / 256 % 16, |data| % 256] + data[..FF_PAYLOAD];
      txState, txSeq := TxFf, 0;
      r := EncodeCfs(pduNad, data, frames);
    }

    lemma NeededWithin(n: nat)
      requires SF_MAX < n <= FF_MAX
      ensures n <= 260 ==> FramesNeeded(n) % 256 == FramesNeeded(n)
    {
    }

    /** The CF loop, entered with the FF in frames[0]. */
    method EncodeCfs(pduNad: u8, data: seq<u8>, frames: array<Frame>) returns (r: EncodeOutcome)
      requires Multi(data) && 1 <= frames.Length < 256 && txSeq == 0
      requires frames[0] == FfFrame(pduNad, data)
      modifies this`txState, this`txSeq, frames
      ensures r.Encoded? <==> |data| <= 260 && frames.Length >= 1 + CfCount(|data|)
      ensures r.Encoded? ==> r.count == 1 + CfCount(|data|) && frames[..r.count] == MessageFrames(pduNad, pduNad, data)
      ensures r.Encoded? ==> frames[r.count..] == old(frames[r.count..])
      ensures r.Encoded? ==> txState == TxCf
      ensures !r.Rejected?
    {
      hide CfBytes, FfFrame, CfCount, Emitted, OffsetAfter, SeqNum, NextSeq, SeqAfter;
      var offset, idx := FF_PAYLOAD, 1;
      EmittedStart(frames[..1], pduNad, data);
      while offset < |data|
        invariant 1 <= idx <= frames.Length && 0 <= offset <= |data|
        invariant Emitted(frames[..idx], pduNad, data, offset, txSeq)
        invariant forall j :: idx <= j < frames.Length ==> frames[j] == old(frames[j])
        invariant idx > 1 ==> txState == TxCf
        decreases frames.Length - idx
      {
        if idx == frames.Length {
          LoopVerdict(frames[..idx], pduNad, data, offset, txSeq);
          return Overrun;
        }
        EmittedStep(frames[..idx], pduNad, data, offset, txSeq);
        var remaining := (|data| - offset) % 256;
        var n := if remaining < CF_PAYLOAD then remaining else CF_PAYLOAD;
        txSeq := SeqAfter(txSeq);
        Put(frames, idx, CfBytes(pduNad, txSeq, data[offset..offset + n]));
        offset := offset + n;
        idx := idx + 1;
        txState := TxCf;
      }
      LoopVerdict(frames[..idx], pduNad, data, offset, txSeq);
      return Encoded(idx);
    }

    /** The loop invariant: where the loop stands after the FF and |fs| - 1 iterations. */
    static predicate Emitted(fs: seq<Frame>, nad: u8, p: seq<u8>, offset: nat, s: SeqNo)
      requires Multi(p)
    {
      && |fs| >= 1 && offset == OffsetAfter(|p|, |fs| - 1) && s == SeqNum(|fs| - 1)
      && (|p| <= 260 ==> FramesSoFar(fs, nad, p))
    }

    lemma EmittedStart(fs: seq<Frame>, nad: u8, p: seq<u8>)
      requires Multi(p) && fs == [FfFrame(nad, p)]
      ensures Emitted(fs, nad, p, FF_PAYLOAD, 0)
    {
    }

    lemma EmittedStep(fs: seq<Frame>, nad: u8, p: seq<u8>, offset: nat, s: SeqNo)
      requires Multi(p) && Emitted(fs, nad, p, offset, s) && offset < |p|
      ensures var n := Min(CF_PAYLOAD, (|p| - offset) % 256);
              Emitted(fs + [CfBytes(nad, NextSeq(s), p[offset..offset + n])], nad, p, offset + n, NextSeq(s))
    {
      EmittedPlace(fs, nad, p, offset, s);
      if |p| <= 260 {
        EmittedFrames(fs, nad, p, offset, s);
      }
      hide CfBytes, CfCount, FramesSoFar, OffsetAfter, SeqNum, NextSeq;
    }

    /** Position and number after one more iteration. */
    lemma EmittedPlace(fs: seq<Frame>, nad: u8, p: seq<u8>, offset: nat, s: SeqNo)
      requires Multi(p) && Emitted(fs, nad, p, offset, s) && offset < |p|
      ensures offset + Min(CF_PAYLOAD, (|p| - offset) % 256) == OffsetAfter(|p|, |fs|) <= |p|
      ensures NextSeq(s) == SeqNum(|fs|)
    {
      hide FramesSoFar, NextSeq;
    }

    /** Up to 260 bytes the frame of one more iteration is the message's next one. */
    lemma EmittedFrames(fs: seq<Frame>, nad: u8, p: seq<u8>, offset: nat, s: SeqNo)
      requires Multi(p) && Emitted(fs, nad, p, offset, s) && offset < |p| <= 260
      ensures var n := Min(CF_PAYLOAD, (|p| - offset) % 256);
              FramesSoFar(fs + [CfBytes(nad, NextSeq(s), p[offset..offset + n])], nad, p)
    {
      BlockByOffset(p, |fs|);
      FramesGrow(fs, nad, p);
      hide CfBytes, Block, CfCount, FramesSoFar, OffsetAfter, Min;
    }

    static method Put(frames: array<Frame>, idx: nat, f: Frame)
      requires idx < frames.Length
      modifies frames
      ensures frames[..idx + 1] == old(frames[..idx]) + [f]
      ensures forall j :: idx < j < frames.Length ==> frames[j] == old(frames[j])
    {
      frames[idx] := f;
    }

    static predicate FramesSoFar(fs: seq<Frame>, nad: u8, p: seq<u8>)
      requires Multi(p)
    {
      1 <= |fs| <= 1 + CfCount(|p|) && fs == MessageFrames(nad, nad, p)[..|fs|]
    }

    lemma FramesGrow(fs: seq<Frame>, nad: u8, p: seq<u8>)
      requires Multi(p) && FramesSoFar(fs, nad, p) && More(|p|, |fs| - 1)
      ensures FramesSoFar(fs + [CfFrame(nad, p, |fs|)], nad, p)
    {
      CfCountExact(|p|, |fs| - 1);
    }

    /** Up to 260 bytes the narrowed remainder is the true one, so iteration k cuts out the k-th block. */
    lemma BlockByOffset(p: seq<u8>, k: nat)
      requires Multi(p) && |p| <= 260 && k >= 1 && OffsetAfter(|p|, k - 1) < |p|
      ensures var offset := OffsetAfter(|p|, k - 1);
              p[offset..offset + Min(CF_PAYLOAD, (|p| - offset) % 256)] == Block(p, k)
      ensures More(|p|, k - 1)
    {
      ProgressWithinPage(|p|, k - 1);
      ProgressWithinPage(|p|, k);
    }

    /** At the exit of the loop all frames are there; at the end of the caller's array more are needed. */
    lemma LoopVerdict(fs: seq<Frame>, nad: u8, p: seq<u8>, offset: nat, s: SeqNo)
      requires Multi(p) && Emitted(fs, nad, p, offset, s) && offset <= |p|
      ensures (|p| > 260 ==> offset < |p|) && (|fs| == 1 ==> offset < |p|)
      ensures |p| <= 260 ==> (offset < |p| <==> |fs| < 1 + CfCount(|p|))
      ensures |p| <= 260 && offset == |p| ==> fs == MessageFrames(nad, nad, p)
    {
      CfCountExact(|p|, |fs| - 1);
      if |p| <= 260 {
        ProgressWithinPage(|p|, |fs| - 1);
      } else {
        LoopTerminatesIff(|p|);
        assert OffsetAfter(|p|, |fs| - 1) != |p|;
      }
    }
  }
}
