/** 32-bit address-range checks, as the upload and the memory services write them. */
module AddressRange {
  import opened Bytes

  const WRAP := 0x1_0000_0000

  /** address + (size - 1) < address in 32-bit arithmetic. */
  predicate Wraps(address: u32, size: u32) {
    (address + (size - 1)) % WRAP < address
  }

  predicate Covers(start: u32, end: u32, address: u32, size: u32) {
    address >= start && (address + size - 1) % WRAP <= end
  }

  /** The integer interval [address, address + size) lies in [start, end]. */
  predicate Inside(start: u32, end: u32, address: int, size: int) {
    start <= address && address + size - 1 <= end
  }

  /** The wrap guard makes the 32-bit comparison decide the integer question. */
  lemma GuardExact(start: u32, end: u32, address: u32, size: u32)
    requires size != 0
    ensures !Wraps(address, size) && Covers(start, end, address, size) <==> Inside(start, end, address, size)
    ensures Wraps(address, size) <==> address + size > WRAP
  {
    var last := address + size - 1;
    assert last < WRAP ==> last % WRAP == last;
    assert last >= WRAP ==> last % WRAP == last - WRAP;
  }
}
