/** The one-shot encoder: the frames it owes its caller, and the lengths for which its 8-bit arithmetic
    delivers them. */
module LinOneShot {
  import opened Bytes
  import opened LinProtocol
  import opened LinReassembly

  /** Frames a payload of n bytes needs; 0 for a length the encoder refuses. */
  function FramesNeeded(n: nat): nat {
    if n == 0 || n > FF_MAX then 0
    else if n <= SF_MAX then 1
    else 1 + CfCount(n)
  }

  /** fs is the encoding of p.  A single frame leaves the bytes behind its payload as they were. */
  predicate Encodes(fs: seq<Frame>, nad: u8, p: seq<u8>) {
    && 1 <= |p| <= FF_MAX
    && if |p| <= SF_MAX then |fs| == 1 && fs[0][..2 + |p|] == [nad, |p|] + p
       else fs == MessageFrames(nad, nad, p)
  }

  lemma SingleFrameDelivers(n: Node, nad: u8, p: seq<u8>, f: Frame)
    requires 1 <= |p| <= SF_MAX && Accepts(n, nad) && f[..2 + |p|] == [nad, |p|] + p
    ensures Hear(n, [f]).messages == [p]
  {
    assert f[0] == f[..2 + |p|][0] && f[1] == f[..2 + |p|][1];
    assert f[2..2 + |p|] == f[..2 + |p|][2..] == p;
    assert [f][1..] == [];
    assert Hear(n, [f]).messages == ToSeq(Message(n, f)) + [];
  }

  /** The stream entry point refuses exactly the lengths that have no encoding, and then changes nothing; of
      the others, up to 6 bytes are encoded at once, and longer ones opened with the FF of the encoding. */
  lemma StreamStartIff(tx: Tx, nad: u8, p: seq<u8>)
    ensures var b := BeginStream(tx, nad, p);
            && (b.status == Ok <==> FramesNeeded(|p|) > 0)
            && (b.status == Ok <==> b.first.Some?)
            && (b.status != Ok ==> b.tx == tx)
            && (FramesNeeded(|p|) == 1 ==> !b.tx.active && Encodes([b.first.value], nad, p))
            && (FramesNeeded(|p|) > 1 ==> b.tx.active && b.first.value == MessageFrames(nad, nad, p)[0])
  {
    if 1 <= |p| <= SF_MAX {
      assert SfFrame(nad, p)[..2 + |p|] == [nad, |p|] + p;
    }
  }

  /** Round trip: decoding an encoding in order hands up exactly the payload. */
  lemma EncodingRoundTrip(n: Node, nad: u8, p: seq<u8>, fs: seq<Frame>)
    requires Accepts(n, nad) && Encodes(fs, nad, p)
    ensures Hear(n, fs).messages == [p] && |fs| == FramesNeeded(|p|)
  {
    if |p| <= SF_MAX {
      SingleFrameDelivers(n, nad, p, fs[0]);
      assert fs == [fs[0]];
    } else {
      MessageFramesCarry(nad, p);
      InOrderDelivers(n, nad, p, fs);
    }
  }

  // ---------------------------------------------------------------------------------------------
  // The CF loop: the remaining length is narrowed to 8 bits before it is compared with 6
  // ---------------------------------------------------------------------------------------------

  function NextOffset(len: nat, offset: nat): (o: nat)
    requires offset <= len
    ensures offset <= o <= len
  {
    offset + Min(CF_PAYLOAD, (len - offset) % 256)
  }

  /** The offset after i iterations, if the loop runs that long. */
  function OffsetAfter(len: nat, i: nat): (o: nat)
    requires len >= FF_PAYLOAD
    ensures FF_PAYLOAD <= o <= len
  {
    if i == 0 then FF_PAYLOAD else NextOffset(len, OffsetAfter(len, i - 1))
  }

  /** An iteration never crosses a multiple of 256 of the remaining length. */
  lemma StepKeepsPage(len: nat, offset: nat)
    requires offset <= len
    ensures (len - NextOffset(len, offset)) / 256 == (len - offset) / 256
  {
    var r := len - offset;
    assert r == r / 256 * 256 + r % 256;
  }

  lemma {:induction false} PageKept(len: nat, i: nat)
    requires len >= FF_PAYLOAD
    ensures (len - OffsetAfter(len, i)) / 256 == (len - FF_PAYLOAD) / 256
  {
    if i > 0 {
      PageKept(len, i - 1);
      StepKeepsPage(len, OffsetAfter(len, i - 1));
    }
  }

  lemma {:induction false} ProgressWithinPage(len: nat, i: nat)
    requires FF_PAYLOAD <= len <= 260
    ensures OffsetAfter(len, i) == Reached(len, i)
  {
    if i > 0 {
      ProgressWithinPage(len, i - 1);
    }
  }

  /** The loop reaches the end of the payload for exactly the lengths up to 260, although the encoder
      accepts 4095. */
  lemma LoopTerminatesIff(len: nat)
    requires len > SF_MAX
    ensures (exists i: nat :: OffsetAfter(len, i) == len) <==> len <= 260
  {
    if len <= 260 {
      ProgressWithinPage(len, len);
      assert OffsetAfter(len, len) == len;
    } else {
      forall i: nat ensures OffsetAfter(len, i) != len {
        PageKept(len, i);
      }
    }
  }

  lemma {:induction false} RemainderAfter(len: nat, i: nat)
    requires len >= FF_PAYLOAD
    ensures (len - OffsetAfter(len, i)) % 256 ==
            if (len - FF_PAYLOAD) % 256 <= 6 * i then 0 else (len - FF_PAYLOAD) % 256 - 6 * i
  {
    if i > 0 {
      RemainderAfter(len, i - 1);
      var r := len - OffsetAfter(len, i - 1);
      StepKeepsPage(len, OffsetAfter(len, i - 1));
      assert r == r / 256 * 256 + r % 256;
    }
  }

  /** For longer payloads every iteration from the 44th on makes no progress at all. */
  lemma LoopStalls(len: nat, i: nat)
    requires len > 260 && i >= 43
    ensures OffsetAfter(len, i + 1) == OffsetAfter(len, i) < len
  {
    RemainderAfter(len, i);
    PageKept(len, i);
  }
}
