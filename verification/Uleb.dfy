/**
 The ULEB128 and SLEB128 readers of the DWARF code, which shift at int width:
 their value is right for numbers of at most four bytes, their cursor always.
 */
module Uleb {
  import opened Bytes
  import opened Bits
  import opened Leb128

  /** A number short enough for the int-width shift. */
  predicate ShortLeb(bs: seq<byte>) { IsLeb(bs) && |bs| <= 4 }

  /** The bytes left from a position on, and how many of them a number takes. */
  function UlebLen(s: seq<byte>): (n: nat)
    ensures n <= |s|
    ensures s != [] ==> n >= 1
  {
    |LebBytes(s)|
  }

  function UlebValue(s: seq<byte>): nat { Value(LebBytes(s)) }

  /** A number at the front of s is what is read, whatever follows. */
  lemma UlebFront(bs: seq<byte>, rest: seq<byte>)
    requires IsLeb(bs)
    ensures UlebLen(bs + rest) == |bs| && UlebValue(bs + rest) == Value(bs)
    ensures (bs + rest)[|bs|..] == rest
  {
    LebBytesOf(bs, rest);
  }

  /** What `byte << shift` contributes: an int, sign-extended; past its width anything could come. */
  function IntShift(b: nat, shift: nat): word
  {
    if shift >= 32 then 0
    else
      var x := (b * Pow2(shift)) % 0x1_0000_0000;
      if x >= 0x8000_0000 then x + WORD_SIZE - 0x1_0000_0000 else x
  }

  lemma ShortShift(v: nat, b: byte, n: nat)
    requires n < 4 && v < Pow128(n)
    ensures Or(v, IntShift(b % 128, 7 * n)) == Grown(v, b, n)
  {
    hide Or, Pow2, Pow128;
    var c, p := b % 128, Pow128(n);
    Pow128Small(n);
    Pow128IsPow2(n);
    MulMonotone(0, c, p);
    MulMonotone(c, 127, p);
    OrDisjoint(v, c, 7 * n);
  }

  /** A fifth byte is shifted into the sign of the int from its bit 3 on. */
  lemma FifthShift(v: nat, b: byte)
    requires v < Pow128(4)
    ensures Or(v, IntShift(b % 128, 28)) == Grown(v, b, 4) <==> Grown(v, b, 4) < 0x8000_0000
  {
    hide Or;
    var c := b % 128;
    assert Pow128(4) == 0x1000_0000;
    assert Pow2(28) == 0x1000_0000 by { Pow128IsPow2(4); }
    assert (c * 0x1000_0000) % 0x1_0000_0000 == (c % 16) * 0x1000_0000;
    hide Pow2, Pow128;
    var k := if c % 16 < 8 then c % 16 else c % 16 + 0x10_0000_0000 - 16;
    assert IntShift(c, 28) == k * 0x1000_0000;
    OrDisjoint(v, k, 28);
  }

  lemma Pow128Small(n: nat)
    requires n < 4
    ensures Pow128(n) <= 0x20_0000
  {
    Pow128Monotone(n, 3);
    assert Pow128(3) == 0x20_0000;
  }

  lemma OrWord(a: nat, b: nat)
    requires a < WORD_SIZE && b < WORD_SIZE
    ensures Or(a, b) < WORD_SIZE
  {
    Pow2Words();
    OrBound(a, b, 64);
  }

  lemma {:induction false} OrBound(a: nat, b: nat, k: nat)
    requires a < Pow2(k) && b < Pow2(k)
    ensures Or(a, b) < Pow2(k)
    decreases k
  {
    if a > 0 && b > 0 { OrBound(a / 2, b / 2, k - 1); }
  }

  /** What the bytes read so far have been read as. */
  predicate ReadsAs(value: word, s: seq<byte>, n: nat)
    requires n <= |s|
  {
    && (n <= 4 ==> value == Value(s[..n]))
    && (n == 5 ==> (value == Value(s[..n]) <==> Value(s[..n]) < 0x8000_0000))
  }

  lemma OneByte(value: word, s: seq<byte>, n: nat)
    requires n < |s| && ReadsAs(value, s, n)
    ensures Or(value, IntShift(s[n] % 128, 7 * n)) < WORD_SIZE
    ensures ReadsAs(Or(value, IntShift(s[n] % 128, 7 * n)), s, n + 1)
  {
    hide Or, Value, Pow2, Pow128, Grown, IntShift;
    OrWord(value, IntShift(s[n] % 128, 7 * n));
    ValueBound(s[..n]);
    ValueSnoc(s, n);
    if n < 4 { ShortShift(Value(s[..n]), s[n], n); }
    if n == 4 { FifthShift(Value(s[..n]), s[n]); }
  }

  /** Advances the cursor past a number; data and avail move together. */
  method Uleb128(data: seq<byte>, pos: nat, avail: nat) returns (value: word, pos': nat, avail': nat)
    requires pos + avail == |data|
    ensures pos' == pos + UlebLen(data[pos..]) && pos' + avail' == |data|
    ensures UlebLen(data[pos..]) <= 4 ==> value == UlebValue(data[pos..])
    ensures UlebLen(data[pos..]) == 5 ==> (value == UlebValue(data[pos..]) <==> UlebValue(data[pos..]) < 0x8000_0000)
  {
    hide Or, LebBytes, Value, Pow2, Pow128, Grown, IntShift;
    value, pos', avail' := 0, pos, avail;
    var shift := 0;
    ghost var s, n := data[pos..], 0;
    assert Value(s[..0]) == 0 by { NoBytes(s); }
    while avail' > 0
      invariant pos' == pos + n && pos' + avail' == |data| && n <= |s|
      invariant shift == 7 * n
      invariant AllMore(s[..n])
      invariant ReadsAs(value, s, n)
      decreases avail'
    {
      var b := data[pos'];
      assert b == s[n];
      pos', avail' := pos' + 1, avail' - 1;
      OneByte(value, s, n);
      value := Or(value, IntShift(b % 128, shift));
      if b < 0x80 {
        EndsHere(s, n + 1);
        return;
      }
      shift, n := shift + 7, n + 1;
    }
    assert s[..n] == s;
    WholeInput(s);
  }

  lemma EndsHere(s: seq<byte>, n: nat)
    requires 0 < n <= |s| && AllMore(s[..n - 1]) && !More(s[n - 1])
    ensures LebBytes(s) == s[..n] && IsLeb(s[..n])
  {
    assert s[..n][..n - 1] == s[..n - 1];
    LebBytesOf(s[..n], s[n..]);
    assert s[..n] + s[n..] == s;
  }

  lemma NoBytes(s: seq<byte>)
    ensures Value(s[..0]) == 0
  {
  }

  lemma ValueSnoc(s: seq<byte>, n: nat)
    requires n < |s|
    ensures Value(s[..n + 1]) == Grown(Value(s[..n]), s[n], n)
  {
    assert s[..n + 1][..n] == s[..n];
  }

  lemma WholeInput(s: seq<byte>)
    requires AllMore(s)
    ensures LebBytes(s) == s
  {
    LebBytesFacts(s);
    var bs := LebBytes(s);
    if bs != [] { assert More(s[|bs| - 1]); }
  }

  /** The signed reader moves the cursor as the unsigned one does, and extends the sign of short numbers. */
  method Sleb128(data: seq<byte>, pos: nat, avail: nat) returns (value: word, pos': nat, avail': nat)
    requires pos + avail == |data|
    ensures pos' == pos + UlebLen(data[pos..]) && pos' + avail' == |data|
    ensures 1 <= UlebLen(data[pos..]) <= 4 ==> value == SignedValue(LebBytes(data[pos..])) % WORD_SIZE
  {
    hide Or, And, LebBytes, Value, Pow2, Pow128, Grown, IntShift, SignedValue, SignFill;
    value, pos', avail' := 0, pos, avail;
    var shift := 0;
    var b: byte := 0;
    ghost var s, n := data[pos..], 0;
    assert Value(s[..0]) == 0 by { NoBytes(s); }
    while avail' > 0
      invariant pos' == pos + n && pos' + avail' == |data| && n <= |s|
      invariant shift == 7 * n
      invariant AllMore(s[..n])
      invariant n > 0 ==> b == s[n - 1]
      invariant ReadsAs(value, s, n)
      decreases avail'
    {
      b := data[pos'];
      assert b == s[n];
      pos', avail' := pos' + 1, avail' - 1;
      OneByte(value, s, n);
      value := Or(value, IntShift(b % 128, shift));
      shift, n := shift + 7, n + 1;
      if b < 0x80 {
        EndsHere(s, n);
        break;
      }
    }
    if n == |s| && AllMore(s[..n]) {
      assert s[..n] == s;
      WholeInput(s);
    }
    assert LebBytes(s) == s[..n];
    if 1 <= n <= 4 { ShortSign(s[..n]); }
    if shift < 64 && And(b, 0x40) != 0 {
      OrWord(value, SignFill(shift));
      value := Or(value, SignFill(shift));
    }
  }

  /** Filling in the sign of a short number gives its signed value. */
  lemma ShortSign(bs: seq<byte>)
    requires 1 <= |bs| <= 4
    ensures SignedValue(bs) % WORD_SIZE
      == if And(bs[|bs| - 1], 0x40) != 0 then Or(Value(bs), SignFill(7 * |bs|)) else Value(bs)
  {
    hide Or, And, Value, Pow2, Pow128;
    var n := |bs|;
    ValueBound(bs);
    SignBit(bs);
    ExtendShort(Value(bs), n);
    Pow128IsPow2(n);
    assert Pow128(n) <= WORD_SIZE;
  }

  function SignFill(shift: nat): word
    requires shift < 64
  {
    Pow2Monotone(shift, 64);
    Pow2Words();
    WORD_SIZE - Pow2(shift)
  }
}
