/** The upload/download machine: RequestDownload, RequestUpload, TransferData, RequestTransferExit. */
module Transfer {
  import opened Bytes
  import opened Uds
  import opened AddressRange

  const BUFFER_SIZE := 1024
  const MAX_BLOCK := 256

  datatype Direction = Idle | Download | Upload

  datatype Region = Region(start: u32, end: u32)

  /** g_transfer_ctx; buf is the valid prefix of the buffer. */
  datatype Xfer = Xfer(active: bool, dir: Direction, addr: u32, remaining: u32, maxBlock: u16,
                               counter: u8, buf: seq<u8>)

  /** capacity is UDS_MEM_REGION_MAX. */
  datatype State = State(xfer: Xfer, regions: seq<Region>, capacity: nat)

  const NO_TRANSFER := Xfer(false, Idle, 0, 0, 0, 0, [])

  datatype Answer = Accepted | Refused(nrc: u8)

  datatype Reply = Reply(state: State, answer: Answer)

  /** is_memory_range_valid. */
  predicate RangeValid(regions: seq<Region>, address: u32, size: u32) {
    && size != 0 && !Wraps(address, size)
    && exists i :: 0 <= i < |regions| && Covers(regions[i].start, regions[i].end, address, size)
  }

  /** The integer interval [address, address + size) is not empty and lies in one region. */
  predicate WithinRegion(regions: seq<Region>, address: int, size: int) {
    size > 0 && exists i :: 0 <= i < |regions| && Inside(regions[i].start, regions[i].end, address, size)
  }

  lemma RangeCheckExact(regions: seq<Region>, address: u32, size: u32)
    ensures RangeValid(regions, address, size) <==> WithinRegion(regions, address, size)
  {
    if size != 0 {
      forall i | 0 <= i < |regions|
        ensures !Wraps(address, size) && Covers(regions[i].start, regions[i].end, address, size)
                <==> Inside(regions[i].start, regions[i].end, address, size)
      {
        GuardExact(regions[i].start, regions[i].end, address, size);
      }
    }
  }

  // ---------------------------------------------------------------------------------------------
  // Services
  // ---------------------------------------------------------------------------------------------

  function RequestTransfer(s: State, dir: Direction, session: u8, unlocked: bool, data: seq<u8>): Reply {
    if session != PROGRAMMING_SESSION && session != EXTENDED_SESSION then Reply(s, Refused(NRC_CONDITIONS_NOT_CORRECT))
    else if !unlocked then Reply(s, Refused(NRC_SECURITY_ACCESS_DENIED))
    else if |data| < 8 then Reply(s, Refused(NRC_INCORRECT_LENGTH))
    else
      var addr, size := Word(data[0..4]), Word(data[4..8]);
      if size > BUFFER_SIZE then Reply(s, Refused(NRC_UPLOAD_DOWNLOAD_NOT_ACCEPTED))
      else if size == 0 || !RangeValid(s.regions, addr, size) then Reply(s, Refused(NRC_REQUEST_OUT_OF_RANGE))
      else if s.xfer.active then Reply(s, Refused(NRC_UPLOAD_DOWNLOAD_NOT_ACCEPTED))
      else Reply(s.(xfer := Xfer(true, dir, addr, size, MAX_BLOCK, 0, [])), Accepted)
  }

  function TransferData(s: State, bsc: u8, data: seq<u8>): Reply {
    var t := s.xfer;
    if !t.active then Reply(s, Refused(NRC_CONDITIONS_NOT_CORRECT))
    else if bsc != (t.counter + 1) % 256 then Reply(s, Refused(NRC_WRONG_BLOCK_SEQUENCE_COUNTER))
    else
      var t' := t.(counter := bsc);
      match t.dir
      case Download => ReceiveBlock(s.(xfer := t'), data)
      case Upload => SendBlock(s.(xfer := t'))
      case Idle => Reply(s.(xfer := t'), Accepted)
  }

  /** A download block, clamped to what is still expected. */
  function ReceiveBlock(s: State, data: seq<u8>): Reply {
    var t := s.xfer;
    if data == [] then Reply(s, Refused(NRC_INCORRECT_LENGTH))
    else
      var n := Min(|data|, t.remaining);
      if |t.buf| + n > BUFFER_SIZE then Reply(s, Refused(NRC_TRANSFER_DATA_SUSPENDED))
      else Reply(s.(xfer := t.(buf := t.buf + data[..n], remaining := t.remaining - n)), Accepted)
  }

  /** An upload block: the response takes it from the front of the buffer, the rest moves up. */
  function SendBlock(s: State): Reply {
    var t := s.xfer;
    var want := Min(Min(t.maxBlock, t.remaining), BUFFER_SIZE);
    if want == 0 || |t.buf| == 0 then Reply(s, Refused(NRC_REQUEST_OUT_OF_RANGE))
    else
      var n := BlockLength(t);
      Reply(s.(xfer := t.(buf := t.buf[n..], remaining := if n >= t.remaining then 0 else t.remaining - n)), Accepted)
  }

  function BlockLength(t: Xfer): (n: nat)
    ensures n <= |t.buf|
  {
    Min(Min(Min(t.maxBlock, t.remaining), BUFFER_SIZE), |t.buf|)
  }

  /** The data bytes a TransferData call hands to the response: for an accepted upload block the front of the
      buffer, otherwise none. */
  function Payload(s: State, bsc: u8, data: seq<u8>): seq<u8> {
    if s.xfer.dir == Upload && TransferData(s, bsc, data).answer == Accepted then s.xfer.buf[..BlockLength(s.xfer)]
    else []
  }

  /** The buffer after the memmove that drops the first n of its len valid bytes. */
  function Moved(buffer: seq<u8>, n: nat, len: nat): (b: seq<u8>)
    requires n <= len <= |buffer|
    ensures |b| == |buffer|
  {
    buffer[n..len] + buffer[len - n..]
  }

  /** Should the response only point at the buffer instead of copying, then after the memmove it shows the block that
      was meant if and only if what follows the block in the buffer repeats it, as far as it reaches. */
  lemma PointerShowsBlockIff(buffer: seq<u8>, n: nat, len: nat)
    requires n <= len <= |buffer|
    ensures Moved(buffer, n, len)[..n] == buffer[..n] <==>
            forall i :: 0 <= i < Min(n, len - n) ==> buffer[n + i] == buffer[i]
  {
    var b := Moved(buffer, n, len);
    forall i | 0 <= i < n ensures b[i] == if i < len - n then buffer[n + i] else buffer[i] {
    }
    if b[..n] == buffer[..n] {
      forall i | 0 <= i < Min(n, len - n) ensures buffer[n + i] == buffer[i] {
        assert b[..n][i] == buffer[..n][i];
      }
    }
  }

  function TransferExit(s: State, data: seq<u8>): Reply {
    if !s.xfer.active then Reply(s, Refused(NRC_CONDITIONS_NOT_CORRECT))
    else if data != [] then Reply(s, Refused(NRC_INCORRECT_LENGTH))
    else Reply(s.(xfer := NO_TRANSFER.(maxBlock := s.xfer.maxBlock)), Accepted)
  }

  function Register(s: State, start: u32, end: u32): State {
    if |s.regions| >= s.capacity || end < start then s
    else s.(regions := s.regions + [Region(start, end)])
  }

  /** The application puts data for an upload into the buffer; the repository's code never does. */
  function Fill(s: State, bytes: seq<u8>): State {
    if s.xfer.active && s.xfer.dir == Upload && |bytes| <= BUFFER_SIZE then s.(xfer := s.xfer.(buf := bytes)) else s
  }
}
