/** Fixed-width unsigned integers of the C sources, and the small helpers every module shares. */
module Bytes {

  type u8 = x: int | 0 <= x < 0x100
  type u16 = x: int | 0 <= x < 0x1_0000
  type u32 = x: int | 0 <= x < 0x1_0000_0000

  datatype Option<+T> = None | Some(value: T)

  function Zeros(n: nat): (z: seq<u8>)
    ensures |z| == n
  {
    seq(n, _ => 0)
  }

  function Min(a: nat, b: nat): nat {
    if a < b then a else b
  }

  /** The sequence of length zero or one that an optional value stands for. */
  function ToSeq<T>(o: Option<T>): seq<T> {
    if o.Some? then [o.value] else []
  }

  /** memcpy(dst + at, src, |src|). */
  method CopyInto(dst: array<u8>, at: nat, src: seq<u8>)
    requires at + |src| <= dst.Length
    modifies dst
    ensures dst[..] == old(dst[..at]) + src + old(dst[at + |src|..])
  {
    for i := 0 to |src|
      invariant forall j :: 0 <= j < i ==> dst[at + j] == src[j]
      invariant forall j :: 0 <= j < at || at + i <= j < dst.Length ==> dst[j] == old(dst[j])
    {
      dst[at + i] := src[i];
    }
    assert dst[..at] == old(dst[..at]);
    assert dst[at..at + |src|] == src;
    assert dst[at + |src|..] == old(dst[at + |src|..]);
    assert dst[..] == dst[..at] + dst[at..at + |src|] + dst[at + |src|..];
  }

  /** memset(a, 0, sizeof a). */
  method SetZero(a: array<u8>)
    modifies a
    ensures forall i :: 0 <= i < a.Length ==> a[i] == 0
  {
    for i := 0 to a.Length
      invariant forall j :: 0 <= j < i ==> a[j] == 0
    {
      a[i] := 0;
    }
  }

  /** The number whose big-endian bytes are b. */
  function BigEndian(b: seq<u8>): nat {
    if b == [] then 0 else BigEndian(b[..|b| - 1]) * 256 + b[|b| - 1]
  }

  lemma BigEndianSnoc(b: seq<u8>, v: u8)
    ensures BigEndian(b + [v]) == BigEndian(b) * 256 + v
  {
    assert (b + [v])[..|b|] == b;
  }

  lemma SliceOfSlice<T>(p: seq<T>, a: nat, b: nat, n: nat)
    requires a <= b <= |p| && n <= b - a
    ensures p[a..b][..n] == p[a..a + n]
  {
  }

  function Pow256(n: nat): nat {
    if n == 0 then 1 else 256 * Pow256(n - 1)
  }

  lemma {:induction false} BigEndianBound(b: seq<u8>)
    ensures BigEndian(b) < Pow256(|b|)
  {
    if b != [] {
      BigEndianBound(b[..|b| - 1]);
    }
  }

  /** A word of at most four bytes fits 32 bits. */
  lemma WordBound(b: seq<u8>)
    requires |b| <= 4
    ensures BigEndian(b) < 0x1_0000_0000
  {
    BigEndianBound(b);
    assert Pow256(4) == 0x1_0000_0000 && Pow256(3) == 0x100_0000 && Pow256(2) == 0x1_0000 && Pow256(1) == 0x100;
  }

  function Word(b: seq<u8>): u32
    requires |b| <= 4
  {
    WordBound(b);
    BigEndian(b)
  }

  /** v in n big-endian bytes. */
  function ToBigEndian(v: nat, n: nat): (b: seq<u8>)
    ensures |b| == n
    decreases n
  {
    if n == 0 then [] else ToBigEndian(v / 256, n - 1) + [v % 256]
  }

  lemma {:induction false} BigEndianRoundTrip(v: nat, n: nat)
    requires v < Pow256(n)
    ensures BigEndian(ToBigEndian(v, n)) == v
    decreases n
  {
    if n > 0 {
      var b := ToBigEndian(v, n);
      assert b[..n - 1] == ToBigEndian(v / 256, n - 1);
      BigEndianRoundTrip(v / 256, n - 1);
    }
  }

  lemma WordOfTwo(v: u16)
    ensures Word([v / 256, v % 256]) == v
  {
    BigEndianSnoc([], v / 256);
    BigEndianSnoc([v / 256], v % 256);
    assert [] + [v / 256] == [v / 256] && [v / 256] + [v % 256] == [v / 256, v % 256];
    hide BigEndian;
    EmptyIsZero();
  }

  lemma EmptyIsZero()
    ensures BigEndian([]) == 0
  {
  }

  lemma WordOfFour(a: u8, b: u8, c: u8, d: u8)
    ensures Word([a, b, c, d]) == ((a as int * 256 + b) * 256 + c) * 256 + d
  {
    EmptyIsZero();
    BigEndianSnoc([], a);
    BigEndianSnoc([a], b);
    BigEndianSnoc([a, b], c);
    BigEndianSnoc([a, b, c], d);
    assert [] + [a] == [a] && [a] + [b] == [a, b] && [a, b] + [c] == [a, b, c] && [a, b, c] + [d] == [a, b, c, d];
    hide BigEndian;
  }
}
