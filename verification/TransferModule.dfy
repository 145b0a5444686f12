/** uds_svc_upload.c with its static context, buffer and region table, proved against Transfer. */
module TransferModule {
  import opened Bytes
  import opened Uds
  import opened AddressRange
  import opened Transfer

  class Module {
    const buffer: array<u8>
    const regions: array<Region>
    var regionCount: nat
    var active: bool
    var dir: Direction
    var addr: u32
    var remaining: u32
    var maxBlock: u16
    var counter: u8
    var bufLen: nat

    predicate Valid()
      reads this
    {
      buffer.Length == BUFFER_SIZE && bufLen <= BUFFER_SIZE && regionCount <= regions.Length
    }

    function View(): State
      reads this, buffer, regions
      requires Valid()
    {
      State(Xfer(active, dir, addr, remaining, maxBlock, counter, buffer[..bufLen]),
            regions[..regionCount], regions.Length)
    }

    /** uds_svc_transfer_init; max is UDS_MEM_REGION_MAX. */
    constructor (max: nat)
      ensures Valid() && fresh(buffer) && fresh(regions)
      ensures View() == State(NO_TRANSFER, [], max)
    {
      buffer := new u8[BUFFER_SIZE](_ => 0);
      regions := new Region[max](_ => Region(0, 0));
      regionCount, active, dir, addr, remaining, maxBlock, counter, bufLen := 0, false, Idle, 0, 0, 0, 0, 0;
    }

    method RegisterRegion(start: u32, end: u32)
      requires Valid()
      modifies this`regionCount, regions
      ensures Valid() && View() == Register(old(View()), start, end)
    {
      if regionCount >= regions.Length || end < start {
        return;
      }
      regions[regionCount] := Region(start, end);
      regionCount := regionCount + 1;
    }

    method IsRangeValid(address: u32, size: u32) returns (ok: bool)
      requires Valid()
      ensures ok == RangeValid(View().regions, address, size)
    {
      if size == 0 || (address + (size - 1)) % WRAP < address {
        return false;
      }
      for i := 0 to regionCount
        invariant forall j :: 0 <= j < i ==> !Covers(regions[j].start, regions[j].end, address, size)
      {
        if address >= regions[i].start && (address + size - 1) % WRAP <= regions[i].end {
          assert Covers(View().regions[i].start, View().regions[i].end, address, size);
          return true;
        }
      }
      return false;
    }

    /** request_transfer_common. */
    method RequestTransfer(direction: Direction, session: u8, unlocked: bool, data: seq<u8>) returns (a: Answer)
      requires Valid()
      modifies this, buffer
      ensures Valid() && Reply(View(), a) == Transfer.RequestTransfer(old(View()), direction, session, unlocked, data)
    {
      if session != PROGRAMMING_SESSION && session != EXTENDED_SESSION {
        return Refused(NRC_CONDITIONS_NOT_CORRECT);
      }
      if !unlocked {
        return Refused(NRC_SECURITY_ACCESS_DENIED);
      }
      if |data| < 8 {
        return Refused(NRC_INCORRECT_LENGTH);
      }
      var address, size := Word(data[0..4]), Word(data[4..8]);
      if size > BUFFER_SIZE {
        return Refused(NRC_UPLOAD_DOWNLOAD_NOT_ACCEPTED);
      }
      var inRange := IsRangeValid(address, size);
      if size == 0 || !inRange {
        return Refused(NRC_REQUEST_OUT_OF_RANGE);
      }
      if active {
        return Refused(NRC_UPLOAD_DOWNLOAD_NOT_ACCEPTED);
      }
      active, dir, addr, remaining, maxBlock, counter, bufLen := true, direction, address, size, MAX_BLOCK, 0, 0;
      SetZero(buffer);
      return Accepted;
    }

    /** payload: what an upload block hands to the response. */
    method TransferData(bsc: u8, data: seq<u8>) returns (a: Answer, payload: seq<u8>)
      requires Valid()
      modifies this`counter, this`remaining, this`bufLen, buffer
      ensures Valid() && Reply(View(), a) == Transfer.TransferData(old(View()), bsc, data)
      ensures payload == Payload(old(View()), bsc, data)
    {
      payload := [];
      if !active {
        return Refused(NRC_CONDITIONS_NOT_CORRECT), [];
      }
      if bsc != (counter + 1) % 256 {
        return Refused(NRC_WRONG_BLOCK_SEQUENCE_COUNTER), [];
      }
      counter := bsc;
      match dir {
        case Download => a := Receive(data);
        case Upload => a, payload := Send();
        case Idle => a := Accepted;
      }
    }

    method Receive(data: seq<u8>) returns (a: Answer)
      requires Valid()
      modifies this`remaining, this`bufLen, buffer
      ensures Valid() && Reply(View(), a) == ReceiveBlock(old(View()), data)
    {
      if |data| == 0 {
        return Refused(NRC_INCORRECT_LENGTH);
      }
      var n := if |data| > remaining then remaining else |data|;
      if bufLen + n > BUFFER_SIZE {
        return Refused(NRC_TRANSFER_DATA_SUSPENDED);
      }
      CopyInto(buffer, bufLen, data[..n]);
      bufLen := bufLen + n;
      assert buffer[..bufLen] == old(buffer[..bufLen]) + data[..n];
      remaining := if n >= remaining then 0 else remaining - n;
      return Accepted;
    }

    method Send() returns (a: Answer, payload: seq<u8>)
      requires Valid()
      modifies this`remaining, this`bufLen, buffer
      ensures Valid() && Reply(View(), a) == SendBlock(old(View()))
      ensures payload == if a == Accepted then old(View()).xfer.buf[..BlockLength(old(View()).xfer)] else []
    {
      hide Moved;
      var want: nat := maxBlock;
      if want > remaining {
        want := remaining;
      }
      if want > BUFFER_SIZE {
        want := BUFFER_SIZE;
      }
      if want == 0 || bufLen == 0 {
        return Refused(NRC_REQUEST_OUT_OF_RANGE), [];
      }
      var n := if want > bufLen then bufLen else want;
      payload := buffer[..n];
      ghost var before := buffer[..];
      MovedPrefix(before, n, bufLen);
      MoveDown(n);
      bufLen := bufLen - n;
      remaining := if n >= remaining then 0 else remaining - n;
      a := Accepted;
    }

    lemma MovedPrefix(b: seq<u8>, n: nat, len: nat)
      requires n <= len <= |b|
      ensures Moved(b, n, len)[..len - n] == b[..len][n..]
    {
    }

    /** memmove of the unread rest to the front of the buffer. */
    method MoveDown(n: nat)
      requires Valid() && n <= bufLen
      modifies buffer
      ensures buffer[..] == Moved(old(buffer[..]), n, bufLen)
    {
      for i := 0 to bufLen - n
        invariant forall j :: 0 <= j < i ==> buffer[j] == old(buffer[n + j])
        invariant forall j :: i <= j < buffer.Length ==> buffer[j] == old(buffer[j])
      {
        buffer[i] := buffer[n + i];
      }
    }

    method TransferExit(data: seq<u8>) returns (a: Answer)
      requires Valid()
      modifies this`active, this`dir, this`addr, this`remaining, this`counter, this`bufLen
      ensures Valid() && Reply(View(), a) == Transfer.TransferExit(old(View()), data)
    {
      if !active {
        return Refused(NRC_CONDITIONS_NOT_CORRECT);
      }
      if |data| != 0 {
        return Refused(NRC_INCORRECT_LENGTH);
      }
      active, dir, addr, remaining, counter, bufLen := false, Idle, 0, 0, 0, 0;
      return Accepted;
    }
  }
}
