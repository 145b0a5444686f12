/** The LIN transport layer as a state machine on values: frame layout, the receive step, the
    stream sender.  The class LinContext refines these functions; all protocol theorems are about them. */
module LinProtocol {
  import opened Bytes

  const NAD_DEFAULT: u8 := 0x01
  const NAD_FUNCTIONAL: u8 := 0x7E
  const SF_MAX: nat := 6
  const FF_MAX: nat := 4095
  const FF_PAYLOAD: nat := 5
  const CF_PAYLOAD: nat := 6
  const SEQ_MAX := 15
  const MAX_WAIT_FRAMES: nat := 3
  const PCI_FF: u8 := 0x20
  const PCI_CF: u8 := 0x40
  const PCI_FC: u8 := 0x60
  const FC_CONTINUE: u8 := 0
  const FC_WAIT: u8 := 1

  type Frame = f: seq<u8> | |f| == 8 witness seq(8, _ => 0)

  datatype PciType = SingleFrame | FirstFrame | ConsecutiveFrame | FlowControlFrame | Unrecognized

  /** Bits 7:5 of the PCI byte. */
  function PciTypeOf(pci: u8): PciType {
    if pci < PCI_FF then SingleFrame
    else if pci < PCI_CF then FirstFrame
    else if pci < PCI_FC then ConsecutiveFrame
    else if pci < 0x80 then FlowControlFrame
    else Unrecognized
  }

  function LowNibble(b: u8): (r: u8)
    ensures r < 16
  {
    b % 16
  }

  /** The length a first frame announces: 12 bits, bit 4 of the PCI byte is ignored. */
  function Announced(ff: Frame): nat {
    LowNibble(ff[1]) * 256 + ff[2]
  }

  type SeqNo = x: int | 0 <= x <= SEQ_MAX

  /** The number a CF must carry after number s: s % 15 + 1. */
  function NextSeq(s: SeqNo): SeqNo {
    if s == SEQ_MAX then 1 else s + 1
  }

  datatype Status = Ok | NadMismatch | PciError | FcWaitExceeded

  datatype TxState = TxIdle | TxSf | TxFf | TxWaitFc | TxCf | TxBlockWait
  datatype RxState = RxIdle | RxSf | RxFf | RxCf

  datatype FlowControl = FlowControl(status: u8, blockSize: u8, stmin: u8)

  /** What lin_rx_decode reports upward; a pointer plus length is the bytes it designates. */
  datatype Pdu = Pdu(nad: u8, pci: u8, data: seq<u8>)

  /** Reassembly half of a context; buf is the valid prefix of rx_buffer. */
  datatype Rx = Rx(state: RxState, expectedLen: nat, buf: seq<u8>, seqNum: SeqNo)

  /** Sending half of a context; pending is what tx_stream_data still designates, fc the last
      flow-control parameters received. */
  datatype Tx = Tx(state: TxState, seqNum: SeqNo, cfInBlock: u8, waits: u8, active: bool, pending: seq<u8>,
                   fc: FlowControl)

  datatype Node = Node(nad: u8, functional: bool, rx: Rx, tx: Tx)

  // ---------------------------------------------------------------------------------------------
  // Frames of a message
  // ---------------------------------------------------------------------------------------------

  /** Number of consecutive frames a multi-frame payload of n bytes needs: ceil((n - 5) / 6). */
  function CfCount(n: nat): nat
    requires n > SF_MAX
  {
    (n - FF_PAYLOAD + CF_PAYLOAD - 1) / CF_PAYLOAD
  }

  /** Sequence number of the k-th consecutive frame: k counts from 1, and 0 stands for none yet. */
  function SeqNum(k: nat): SeqNo {
    if k == 0 then 0 else NextSeq(SeqNum(k - 1))
  }

  /** A payload of n bytes is not yet complete after the FF and k CFs. */
  predicate More(n: nat, k: nat) {
    FF_PAYLOAD + CF_PAYLOAD * k < n
  }

  /** The payload offset reached after the FF and k CFs. */
  function Reached(n: nat, k: nat): (o: nat) {
    Min(FF_PAYLOAD + CF_PAYLOAD * k, n)
  }

  /** The payload bytes the k-th CF carries. */
  function Block(p: seq<u8>, k: nat): (b: seq<u8>)
    requires k >= 1 && FF_PAYLOAD <= |p|
    ensures |b| <= CF_PAYLOAD
  {
    p[Reached(|p|, k - 1)..Reached(|p|, k)]
  }

  function Pad(b: seq<u8>): (s: seq<u8>)
    requires |b| <= CF_PAYLOAD
    ensures |s| == CF_PAYLOAD && s[..|b|] == b
  {
    b + Zeros(CF_PAYLOAD - |b|)
  }

  predicate Multi(p: seq<u8>) {
    SF_MAX < |p| <= FF_MAX
  }

  function FfFrame(nad: u8, p: seq<u8>): Frame
    requires Multi(p)
  {
    [nad, PCI_FF + |p| / 256, |p| % 256] + p[..FF_PAYLOAD]
  }

  function CfBytes(nad: u8, s: SeqNo, block: seq<u8>): Frame
    requires |block| <= CF_PAYLOAD
  {
    [nad, PCI_CF + s] + Pad(block)
  }

  function CfFrame(nad: u8, p: seq<u8>, k: nat): Frame
    requires Multi(p) && k >= 1
  {
    CfBytes(nad, SeqNum(k), Block(p, k))
  }

  function MessageFrame(ffNad: u8, cfNad: u8, p: seq<u8>, i: nat): Frame
    requires Multi(p)
  {
    if i == 0 then FfFrame(ffNad, p) else CfFrame(cfNad, p, i)
  }

  /** FF followed by all CFs.  A one-shot encoding has ffNad == cfNad; a stream's CFs carry the
      context's own address. */
  function MessageFrames(ffNad: u8, cfNad: u8, p: seq<u8>): (fs: seq<Frame>)
    requires Multi(p)
    ensures |fs| == 1 + CfCount(|p|)
  {
    seq<Frame>(1 + CfCount(|p|),
               i requires 0 <= i <= CfCount(|p|) => MessageFrame(ffNad, cfNad, p, i))
  }

  // ---------------------------------------------------------------------------------------------
  // Receiving
  // ---------------------------------------------------------------------------------------------

  predicate Accepts(n: Node, nad: u8) {
    nad == n.nad || (nad == NAD_FUNCTIONAL && n.functional)
  }

  datatype Decoded = Decoded(node: Node, status: Status, pdu: Option<Pdu>)

  function Decode(n: Node, f: Frame): Decoded {
    if !Accepts(n, f[0]) then Decoded(n, NadMismatch, None)
    else match PciTypeOf(f[1])
      case SingleFrame => DecodeSf(n, f)
      case FirstFrame => DecodeFf(n, f)
      case ConsecutiveFrame => DecodeCf(n, f)
      case FlowControlFrame => DecodeFc(n, f)
      case Unrecognized => Decoded(n, PciError, None)
  }

  function DecodeSf(n: Node, f: Frame): Decoded
    requires PciTypeOf(f[1]).SingleFrame?
  {
    var len := f[1];
    if len > SF_MAX then Decoded(n, PciError, None)
    else Decoded(n.(rx := n.rx.(state := RxSf)), Ok, Some(Pdu(f[0], f[1], f[2..2 + len])))
  }

  function DecodeFf(n: Node, f: Frame): Decoded {
    var total := Announced(f);
    if total < SF_MAX + 1 || total > FF_MAX then Decoded(n, PciError, None)
    else Decoded(n.(rx := Rx(RxCf, total, f[3..], 0)), Ok, Some(Pdu(f[0], f[1], f[3..])))
  }

  function DecodeCf(n: Node, f: Frame): Decoded {
    var seqNum := NextSeq(n.rx.seqNum);
    if n.rx.state != RxCf || f[1] != PCI_CF + seqNum then Decoded(n, PciError, None)
    else
      var room := if n.rx.expectedLen < |n.rx.buf| then 0 else n.rx.expectedLen - |n.rx.buf|;
      var buf := n.rx.buf + f[2..2 + Min(CF_PAYLOAD, room)];
      var state := if |buf| >= n.rx.expectedLen then RxIdle else RxCf;
      Decoded(n.(rx := Rx(state, n.rx.expectedLen, buf, seqNum)), Ok, Some(Pdu(f[0], f[1], buf)))
  }

  function DecodeFc(n: Node, f: Frame): Decoded {
    var tx := HearFc(n.tx, FlowControl(LowNibble(f[2]), f[3], f[4]));
    if LowNibble(f[2]) == FC_WAIT && tx.waits > MAX_WAIT_FRAMES then Decoded(n.(tx := tx), FcWaitExceeded, None)
    else Decoded(n.(tx := tx), Ok, Some(Pdu(f[0], f[1], [])))
  }

  /** Effect of received flow-control parameters on the sender; the wait counter is 8 bits wide.
      OVERFLOW (2) and the unused values only replace the parameters. */
  function HearFc(tx: Tx, fc: FlowControl): Tx {
    if fc.status == FC_CONTINUE then
      tx.(fc := fc, cfInBlock := 0, state := if tx.state == TxWaitFc then TxCf else tx.state)
    else if fc.status == FC_WAIT then tx.(fc := fc, waits := (tx.waits + 1) % 256)
    else tx.(fc := fc)
  }

  // ---------------------------------------------------------------------------------------------
  // Sending
  // ---------------------------------------------------------------------------------------------

  function FcFrame(nad: u8, fc: FlowControl): Frame
    requires fc.status < 32
  {
    [nad, PCI_FC + fc.status, fc.status, fc.blockSize, fc.stmin, 0, 0, 0]
  }

  /** The single frame of a payload of 1..6 bytes, as the stream entry point builds it. */
  function SfFrame(nad: u8, p: seq<u8>): Frame
    requires 1 <= |p| <= SF_MAX
  {
    [nad, |p|] + Pad(p)
  }

  datatype Begun = Begun(tx: Tx, status: Status, first: Option<Frame>)

  function BeginStream(tx: Tx, nad: u8, p: seq<u8>): Begun {
    if |p| == 0 || |p| > FF_MAX then Begun(tx, PciError, None)
    else if |p| <= SF_MAX then
      Begun(tx.(state := TxSf, active := false, pending := []), Ok, Some(SfFrame(nad, p)))
    else
      Begun(tx.(state := TxWaitFc, seqNum := 0, active := true, cfInBlock := 0, pending := p[FF_PAYLOAD..]),
            Ok, Some(FfFrame(nad, p)))
  }

  datatype Polled = Polled(tx: Tx, cf: Option<Frame>)

  predicate BlockSpent(tx: Tx) {
    tx.fc.blockSize > 0 && tx.cfInBlock >= tx.fc.blockSize
  }

  function NextCf(tx: Tx, nad: u8): Polled {
    if !tx.active then Polled(tx, None)
    else if BlockSpent(tx) then Polled(tx.(state := TxBlockWait), None)
    else if tx.state != TxCf then Polled(tx, None)
    else
      var k := Min(CF_PAYLOAD, |tx.pending|);
      var s := NextSeq(tx.seqNum);
      var rest := tx.pending[k..];
      Polled(tx.(seqNum := s, pending := rest, cfInBlock := (tx.cfInBlock + 1) % 256, active := rest != [],
                 state := if rest == [] then TxIdle else TxCf),
             Some(CfBytes(nad, s, tx.pending[..k])))
  }

  function Abort(tx: Tx): Tx {
    tx.(active := false, pending := [], state := TxIdle, cfInBlock := 0)
  }

  /** lin_tx_has_more_ctx. */
  predicate HasMore(tx: Tx) {
    tx.active && tx.state == TxCf
  }

  // ---------------------------------------------------------------------------------------------
  // Invariants
  // ---------------------------------------------------------------------------------------------

  /** Reassembly invariant: the buffer never outgrows the announced length, and while CFs are awaited
      the length and the sequence number are both determined by the number of CFs accepted. */
  ghost predicate RxInv(rx: Rx) {
    && |rx.buf| <= rx.expectedLen <= FF_MAX
    && (rx.state == RxCf ==>
          && |rx.buf| < rx.expectedLen
          && exists k: nat :: |rx.buf| == FF_PAYLOAD + CF_PAYLOAD * k && rx.seqNum == SeqNum(k))
  }

  predicate TxInv(tx: Tx) {
    && |tx.pending| <= FF_MAX - FF_PAYLOAD
    && (tx.active ==> tx.pending != [])
  }

  ghost predicate NodeInv(n: Node) {
    RxInv(n.rx) && TxInv(n.tx)
  }

  function InitNode(nad: u8): Node {
    Node(nad, true, Rx(RxIdle, 0, [], 0), Tx(TxIdle, 0, 0, 0, false, [], FlowControl(FC_CONTINUE, 0, 10)))
  }
}
