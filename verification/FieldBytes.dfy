/** Reading and writing fixed-size numbers in either byte order. */
module FieldBytes {
  import opened Bytes
  import opened Bits

  function Pow256(n: nat): (r: nat)
    ensures r > 0
  {
    if n == 0 then 1 else 256 * Pow256(n - 1)
  }

  /** The value of bytes, least significant first. */
  function LeValue(bs: seq<byte>): nat
  {
    if bs == [] then 0 else bs[0] + 256 * LeValue(bs[1..])
  }

  function Reverse(bs: seq<byte>): (r: seq<byte>)
    ensures |r| == |bs|
  {
    if bs == [] then [] else Reverse(bs[1..]) + [bs[0]]
  }

  /** The value of a field whose bytes are in file order. */
  function FileValue(bs: seq<byte>, lsb: bool): nat { LeValue(if lsb then bs else Reverse(bs)) }

  /**
   byte_get: sizes 1, 2, 4 and 8 convert from file order; size 3 in big-endian
   order takes the middle byte twice; other sizes read as 0.
   */
  function ByteGet(bs: seq<byte>, size: nat, lsb: bool): nat
    requires size <= |bs|
  {
    if size == 1 || size == 2 || size == 4 || size == 8 then FileValue(bs[..size], lsb)
    else if size == 3 then
      if lsb then bs[0] as int + 0x100 * (bs[1] as int) + 0x1_0000 * (bs[2] as int)
      else bs[1] as int + 0x100 * (bs[1] as int) + 0x1_0000 * (bs[0] as int)
    else 0
  }

  /** The low n bytes of v, least significant first. */
  function LeBytes(v: nat, n: nat): (r: seq<byte>)
    ensures |r| == n
    decreases n
  {
    if n == 0 then [] else [v % 256] + LeBytes(v / 256, n - 1)
  }

  function FileBytes(v: nat, n: nat, lsb: bool): (r: seq<byte>)
    ensures |r| == n
  {
    if lsb then LeBytes(v, n) else Reverse(LeBytes(v, n))
  }

  lemma {:induction false} LeRoundTrip(v: nat, n: nat)
    ensures LeValue(LeBytes(v, n)) == v % Pow256(n)
    decreases n
  {
    if n > 0 {
      LeRoundTrip(v / 256, n - 1);
      assert LeBytes(v, n)[1..] == LeBytes(v / 256, n - 1);
      ModBy256(v, Pow256(n - 1));
    }
  }

  lemma ModBy256(v: nat, p: nat)
    requires p > 0
    ensures v % (256 * p) == v % 256 + 256 * ((v / 256) % p)
  {
    DivMod(v / 256, p);
    assert 256 * (p * ((v / 256) / p)) == (256 * p) * ((v / 256) / p);
    ModUnique(v, 256 * p, (v / 256) / p, v % 256 + 256 * ((v / 256) % p));
  }

  lemma {:induction false} ReverseTwice(bs: seq<byte>)
    ensures Reverse(Reverse(bs)) == bs
    decreases |bs|
  {
    if bs != [] {
      ReverseTwice(bs[1..]);
      ReverseSnoc(Reverse(bs[1..]), bs[0]);
    }
  }

  lemma {:induction false} ReverseSnoc(bs: seq<byte>, b: byte)
    ensures Reverse(bs + [b]) == [b] + Reverse(bs)
    decreases |bs|
  {
    if bs != [] {
      assert (bs + [b])[1..] == bs[1..] + [b];
      ReverseSnoc(bs[1..], b);
    }
  }

  lemma FileRoundTrip(v: nat, n: nat, lsb: bool)
    ensures FileValue(FileBytes(v, n, lsb), lsb) == v % Pow256(n)
  {
    ReverseTwice(LeBytes(v, n));
    LeRoundTrip(v, n);
  }

  lemma ThreeBytes(v: nat)
    ensures LeBytes(v, 3) == [v % 256, v / 256 % 256, v / 65536 % 256]
    ensures Pow256(3) == 0x100_0000
    ensures v % 0x100_0000 == v % 256 + 0x100 * (v / 256 % 256) + 0x1_0000 * (v / 65536 % 256)
  {
    assert LeBytes(v, 3) == [v % 256] + LeBytes(v / 256, 2);
    assert LeBytes(v / 256, 2) == [v / 256 % 256] + LeBytes(v / 256 / 256, 1);
    assert LeBytes(v / 256 / 256, 1) == [v / 256 / 256 % 256] + LeBytes(v / 256 / 256 / 256, 0);
    assert Pow256(1) == 256 && Pow256(2) == 65536;
  }

  lemma ReverseThree(a: byte, b: byte, c: byte)
    ensures Reverse([a, b, c]) == [c, b, a]
  {
    assert [a, b, c][1..] == [b, c] && [b, c][1..] == [c] && [c][1..] == [];
    assert Reverse([c]) == [c];
    assert Reverse([b, c]) == [c, b];
  }

  /**
   byte_get inverts byte_put for sizes 1, 2, 4 and 8 in both byte orders and for
   size 3 in little-endian order; for size 3 in big-endian order it does exactly
   when the two low bytes of the value are equal.
   */
  lemma GetInvertsPut(v: nat, n: nat, lsb: bool)
    requires n == 1 || n == 2 || n == 3 || n == 4 || n == 8
    ensures ByteGet(FileBytes(v, n, lsb), n, lsb) == v % Pow256(n)
      <==> (n == 3 && !lsb ==> v % 256 == v / 256 % 256)
  {
    assert FileBytes(v, n, lsb)[..n] == FileBytes(v, n, lsb);
    if n == 3 {
      ThreeBytes(v);
      ReverseThree(v % 256, v / 256 % 256, v / 65536 % 256);
    } else {
      FileRoundTrip(v, n, lsb);
    }
  }

  // ----- writing byte by byte -----

  /** The section with the bytes between two places written over. */
  predicate Over(data: seq<byte>, sec: seq<byte>, start: nat, end: nat, written: seq<byte>)
  {
    start <= end <= |sec| && |written| == end - start && data == sec[..start] + written + sec[end..]
  }

  lemma NothingWritten(sec: seq<byte>, at: nat)
    requires at <= |sec|
    ensures Over(sec, sec, at, at, [])
  {
  }

  /** One more byte behind those written. */
  lemma WriteNext(data: seq<byte>, sec: seq<byte>, start: nat, end: nat, written: seq<byte>, c: byte)
    requires Over(data, sec, start, end, written) && end < |data|
    ensures Over(data[end := c], sec, start, end + 1, written + [c])
  {
  }

  /** One more byte in front of those written. */
  lemma WritePrevious(data: seq<byte>, sec: seq<byte>, start: nat, end: nat, written: seq<byte>, c: byte)
    requires Over(data, sec, start, end, written) && 0 < start <= |data|
    ensures Over(data[start - 1 := c], sec, start - 1, end, [c] + written)
  {
  }

  lemma AllWritten(data: seq<byte>, sec: seq<byte>, start: nat, end: nat, written: seq<byte>)
    requires Over(data, sec, start, end, written)
    ensures start <= end <= |sec| && data == sec[..start] + written + sec[end..]
  {
  }

  method PutLsb(data: array<byte>, at: nat, value: word, size: nat)
    requires at + size <= data.Length
    modifies data
    ensures data[..] == old(data[..at]) + LeBytes(value, size) + old(data[at + size..])
  {
    hide Over, LeBytes;
    ghost var sec, written := data[..], [];
    var v: nat, left: nat, p := value, size, at;
    NothingWritten(sec, at);
    while left != 0
      invariant p + left == at + size
      invariant LeBytes(value, size) == written + LeBytes(v, left)
      invariant Over(data[..], sec, at, p, written)
      decreases left
    {
      LowByteFirst(v, left);
      var c: byte := v % 256;
      WriteNext(data[..], sec, at, p, written, c);
      ghost var before := data[..];
      data[p] := c;
      assert data[..] == before[p := c];
      written := written + [c];
      v, left, p := v / 256, left - 1, p + 1;
    }
    NoBytesLeft(v);
    AllWritten(data[..], sec, at, p, written);
  }

  method PutMsb(data: array<byte>, at: nat, value: word, size: nat)
    requires at + size <= data.Length
    modifies data
    ensures data[..] == old(data[..at]) + Reverse(LeBytes(value, size)) + old(data[at + size..])
  {
    hide Over, LeBytes, Reverse;
    ghost var sec, written := data[..], [];
    var v: nat, left: nat := value, size;
    NothingWritten(sec, at + size);
    while left != 0
      invariant left <= size
      invariant Reverse(LeBytes(value, size)) == Reverse(LeBytes(v, left)) + written
      invariant Over(data[..], sec, at + left, at + size, written)
      decreases left
    {
      ReverseStep(v, left);
      var c: byte := v % 256;
      WritePrevious(data[..], sec, at + left, at + size, written, c);
      ghost var before := data[..];
      left := left - 1;
      data[at + left] := c;
      assert data[..] == before[at + left := c];
      v, written := v / 256, [c] + written;
    }
    ReverseNone(v);
    AllWritten(data[..], sec, at, at + size, written);
  }

  lemma LowByteFirst(v: nat, n: nat)
    requires n > 0
    ensures LeBytes(v, n) == [v % 256] + LeBytes(v / 256, n - 1)
  {
  }

  lemma NoBytesLeft(v: nat)
    ensures LeBytes(v, 0) == []
  {
  }

  lemma ReverseStep(v: nat, n: nat)
    requires n > 0
    ensures Reverse(LeBytes(v, n)) == Reverse(LeBytes(v / 256, n - 1)) + [v % 256]
  {
    assert LeBytes(v, n)[1..] == LeBytes(v / 256, n - 1);
  }

  lemma ReverseNone(v: nat)
    ensures Reverse(LeBytes(v, 0)) == []
  {
  }

  /** Writes the low bytes of a value at a place in the section; more than 8 bytes are refused. */
  method BytePut(data: array<byte>, at: nat, value: word, size: nat, lsb: bool)
    requires at + size <= data.Length
    modifies data
    ensures data[..] == if size > 8 then old(data[..])
      else old(data[..at]) + FileBytes(value, size, lsb) + old(data[at + size..])
  {
    if size > 8 { return; }
    if lsb {
      PutLsb(data, at, value, size);
    } else {
      PutMsb(data, at, value, size);
    }
  }
}
