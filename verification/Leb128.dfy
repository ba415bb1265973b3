/**
 The 64-bit LEB128 reader of the relocation code, and the rewriting of a field
 in place that the LoongArch relocations do.
 */
module Leb128 {
  import opened Bytes
  import opened Bits

  // ----- what an encoding denotes -----

  predicate More(b: byte) { b >= 0x80 }

  /** The bytes of s through the first terminator, or all of s. */
  function LebBytes(s: seq<byte>): (r: seq<byte>)
    ensures |r| <= |s| && r == s[..|r|]
  {
    if s == [] then []
    else if !More(s[0]) then [s[0]]
    else [s[0]] + LebBytes(s[1..])
  }

  predicate Terminated(bs: seq<byte>) { bs != [] && !More(bs[|bs| - 1]) }

  predicate AllMore(bs: seq<byte>) { forall k :: 0 <= k < |bs| ==> More(bs[k]) }

  /** A number followed by anything: every byte but the last has the continuation bit. */
  predicate IsLeb(bs: seq<byte>) { Terminated(bs) && AllMore(bs[..|bs| - 1]) }

  function Pow128(n: nat): (r: nat)
    ensures r > 0
  {
    if n == 0 then 1 else 128 * Pow128(n - 1)
  }

  lemma {:induction false} Pow128IsPow2(n: nat)
    ensures Pow128(n) == Pow2(7 * n)
    decreases n
  {
    if n > 0 {
      Pow128IsPow2(n - 1);
      Pow2Add(7, 7 * (n - 1));
      assert Pow2(7) == 128;
    }
  }

  lemma {:induction false} Pow128Monotone(a: nat, b: nat)
    requires a <= b
    ensures Pow128(a) <= Pow128(b)
    decreases b - a
  {
    if a < b { Pow128Monotone(a, b - 1); }
  }

  /** Powers at the edge of the machine word. */
  lemma Pow128Words()
    ensures Pow128(9) == 0x8000_0000_0000_0000
    ensures Pow128(10) == 64 * WORD_SIZE
  {
    assert Pow128(4) == 0x1000_0000;
    assert Pow128(7) == 0x2_0000_0000_0000;
  }

  /** Past the word, powers are multiples of the word size. */
  lemma {:induction false} Pow128PastWord(n: nat) returns (m: nat)
    requires n >= 10
    ensures Pow128(n) == WORD_SIZE * m && m >= 64
    decreases n
  {
    Pow128Words();
    if n == 10 { m := 64; } else {
      m := Pow128PastWord(n - 1);
      m := 128 * m;
    }
  }

  /** The unsigned value: seven bits a byte, least significant first. */
  function Value(bs: seq<byte>): nat
  {
    if bs == [] then 0
    else Grown(Value(bs[..|bs| - 1]), bs[|bs| - 1], |bs| - 1)
  }

  /** A value of n bytes with one more byte at the top. */
  function Grown(v: nat, b: byte, n: nat): (r: nat)
    ensures v <= r
  {
    MulMonotone(0, b % 128, Pow128(n));
    v + (b % 128) * Pow128(n)
  }

  /** The signed value: bit 6 of the last byte is the sign. */
  function SignedValue(bs: seq<byte>): int
    requires bs != []
  {
    if bs[|bs| - 1] % 128 >= 64 then Value(bs) - Pow128(|bs|) else Value(bs)
  }

  lemma {:induction false} ValueBound(bs: seq<byte>)
    ensures Value(bs) < Pow128(|bs|)
    decreases |bs|
  {
    if bs != [] {
      ValueBound(bs[..|bs| - 1]);
      MulMonotone(bs[|bs| - 1] % 128, 127, Pow128(|bs| - 1));
    }
  }

  lemma MulMonotone(a: int, b: int, p: nat)
    requires a <= b
    ensures a * p <= b * p
  {
  }

  lemma {:induction false} LebBytesFacts(s: seq<byte>)
    ensures var r := LebBytes(s); IsLeb(r) || (r == s && AllMore(s))
    decreases |s|
  {
    if s != [] && More(s[0]) {
      LebBytesFacts(s[1..]);
      PrependMore(s[0], LebBytes(s[1..]));
    }
  }

  lemma PrependMore(b: byte, t: seq<byte>)
    requires More(b)
    ensures IsLeb(t) ==> IsLeb([b] + t)
    ensures AllMore(t) ==> AllMore([b] + t)
  {
    if t != [] { assert ([b] + t)[..|t|] == [b] + t[..|t| - 1]; }
  }

  /** A number is read back from any input that starts with it. */
  lemma {:induction false} LebBytesOf(bs: seq<byte>, rest: seq<byte>)
    requires IsLeb(bs)
    ensures LebBytes(bs + rest) == bs
    decreases |bs|
  {
    if |bs| > 1 {
      assert More(bs[..|bs| - 1][0]);
      assert (bs + rest)[1..] == bs[1..] + rest;
      assert bs[1..][..|bs| - 2] == bs[..|bs| - 1][1..];
      LebBytesOf(bs[1..], rest);
    }
  }

  // ----- the reader -----

  /** n bytes read: the shift has advanced by 7 a byte, but stays put once past 64. */
  function ShiftAfter(n: nat): nat { if n <= 9 then 7 * n else 70 }

  /** A value of n bytes whose bits from position 63 (signed) or 64 on carry no information. */
  predicate Fits(sign: bool, v: nat, n: nat)
  {
    if sign then v < 0x8000_0000_0000_0000 || v >= Pow128(n) - 0x8000_0000_0000_0000
    else v < WORD_SIZE
  }

  /** The result with one more byte, and the byte's lost bits with the mask that selects them. */
  datatype Taken = Taken(result: nat, lost: nat, mask: nat)

  predicate KeepsBits(sign: bool, t: Taken)
  {
    And(t.lost, t.mask) == if sign && t.result >= 0x8000_0000_0000_0000 then t.mask else 0
  }

  function OrChunk(result: word, b: byte, shift: nat): nat
  {
    Or(result, Shl(And(b, 0x7f), shift) % WORD_SIZE)
  }

  function Mask(shift: nat): nat { Xor(0x7f, Shr(Shl(0x7f, shift) % WORD_SIZE, shift)) }

  /** What one iteration of the reader computes from a byte. */
  function Take(result: word, b: byte, shift: nat): Taken
  {
    if shift < 64 then
      var r := OrChunk(result, b, shift);
      Taken(r, Xor(b, Shr(r, shift)) % 256, Mask(shift))
    else Taken(result, b, 0x7f)
  }

  // ----- an iteration below, at and past the top of the word -----

  lemma ChunkBelow(v: nat, b: byte, n: nat)
    requires n < 9 && v < Pow128(n)
    ensures v < WORD_SIZE
    ensures OrChunk(v, b, 7 * n) == Grown(v, b, n) < 0x8000_0000_0000_0000
  {
    hide And, Or, Pow2, Pow128;
    var p, c := Pow128(n), b % 128;
    And127(b);
    BelowTop(n);
    MulMonotone(0, c, p);
    MulMonotone(c, 127, p);
    Pow128IsPow2(n);
    OrDisjoint(v, c, 7 * n);
  }

  /** A byte that starts below position 63 ends below it. */
  lemma BelowTop(n: nat)
    requires n < 9
    ensures 128 * Pow128(n) <= 0x8000_0000_0000_0000
  {
    assert Pow128(n + 1) == 128 * Pow128(n);
    Pow128Monotone(n + 1, 9);
    Pow128Words();
  }

  lemma MaskBelow(n: nat)
    requires n < 9
    ensures Mask(7 * n) == 0
  {
    hide Xor, Pow2, Pow128;
    var p := Pow128(n);
    BelowTop(n);
    Pow128IsPow2(n);
    assert (0x7f * p) / p == 0x7f by { ModUnique(0x7f * p, p, 0x7f, 0); }
    XorSelf();
  }

  lemma XorSelf()
    ensures Xor(0x7f, 0x7f) == 0
  {
  }

  lemma ChunkAtTop(v: nat, b: byte)
    requires v < 0x8000_0000_0000_0000
    ensures OrChunk(v, b, 63) == v + (b % 2) * 0x8000_0000_0000_0000 < WORD_SIZE
    ensures Mask(63) == 126
  {
    hide And, Or, Xor, Pow2, Mask;
    MaskAtTop();
    assert Pow2(63) == 0x8000_0000_0000_0000 by { Pow2Words(); }
    And127(b);
    EvenPart(b % 128);
    LowBit(b);
    OrDisjoint(v, b % 2, 63);
  }

  /** Of a byte shifted by 63 only the lowest bit stays in the word. */
  lemma EvenPart(c: nat)
    ensures (c * 0x8000_0000_0000_0000) % WORD_SIZE == (c % 2) * 0x8000_0000_0000_0000
  {
    ModUnique(c * 0x8000_0000_0000_0000, WORD_SIZE, c / 2, (c % 2) * 0x8000_0000_0000_0000);
  }

  lemma MaskAtTop()
    ensures Mask(63) == 126
  {
    hide Pow2, Xor;
    assert Pow2(63) == 0x8000_0000_0000_0000 by { Pow2Words(); }
    XorLowBit(0x7f);
  }

  lemma LostAtTop(v: nat, b: byte)
    requires v < 0x8000_0000_0000_0000
    ensures And(Take(v, b, 63).lost, 126) == b % 128 - b % 2
  {
    hide And, Or, Xor, Pow2, OrChunk, Mask;
    ChunkAtTop(v, b);
    TopBit(v, b % 2);
    assert Pow2(63) == 0x8000_0000_0000_0000 by { Pow2Words(); }
    assert Take(v, b, 63).lost == Xor(b, b % 2) % 256;
    XorLowBit(b);
    And126(b - b % 2);
  }

  lemma TopBit(v: nat, c: nat)
    requires v < 0x8000_0000_0000_0000
    ensures (v + c * 0x8000_0000_0000_0000) / 0x8000_0000_0000_0000 == c
  {
    ModUnique(v + c * 0x8000_0000_0000_0000, 0x8000_0000_0000_0000, c, v);
  }

  /** Bytes past the word leave the result alone; the test for lost bits follows the value. */
  lemma PastWord(sign: bool, v: nat, b: byte, n: nat)
    requires n >= 10 && v < Pow128(n)
    ensures var v' := Grown(v, b, n);
      && v' % WORD_SIZE == v % WORD_SIZE
      && (Fits(sign, v', n + 1) <==> Fits(sign, v, n) && KeepsBits(sign, Taken(v % WORD_SIZE, b, 0x7f)))
  {
    var p, c := Pow128(n), b % 128;
    var m := Pow128PastWord(n);
    assert (v + c * p) % WORD_SIZE == v % WORD_SIZE by { AddMultiple(v, c, m); }
    And127(b);
    SignBits(v, m);
    Chunk(c, p);
  }

  lemma AddMultiple(v: int, c: nat, m: nat)
    ensures (v + c * (WORD_SIZE * m)) % WORD_SIZE == v % WORD_SIZE
  {
    DivMod(v, WORD_SIZE);
    assert c * (WORD_SIZE * m) == WORD_SIZE * (c * m);
    ModUnique(v + WORD_SIZE * (c * m), WORD_SIZE, v / WORD_SIZE + c * m, v % WORD_SIZE);
  }

  /** A value that ends in ones from bit 63 up has bit 63 set. */
  lemma SignBits(v: nat, m: nat)
    requires m >= 1 && v < WORD_SIZE * m
    ensures v >= WORD_SIZE * m - 0x8000_0000_0000_0000 ==> v % WORD_SIZE >= 0x8000_0000_0000_0000
    ensures v < 0x8000_0000_0000_0000 ==> v % WORD_SIZE == v
  {
    if v >= WORD_SIZE * m - 0x8000_0000_0000_0000 {
      ModUnique(v, WORD_SIZE, m - 1, v - WORD_SIZE * (m - 1));
    }
  }

  lemma Chunk(c: nat, p: nat)
    requires c <= 127
    ensures c == 0 ==> c * p == 0
    ensures c == 127 ==> c * p == 127 * p
    ensures 0 < c ==> p <= c * p
    ensures c < 127 ==> c * p <= 126 * p
  {
    if 0 < c { MulMonotone(1, c, p); }
    if c < 127 { MulMonotone(c, 126, p); }
  }

  /** One iteration: the result follows the value, and the lost bits tell whether it still fits. */
  lemma TakeIsExact(sign: bool, v: nat, b: byte, n: nat)
    requires v < Pow128(n)
    ensures var v' := Grown(v, b, n);
      var t := Take(v % WORD_SIZE, b, ShiftAfter(n));
      && t.result == v' % WORD_SIZE
      && (Fits(sign, v', n + 1) <==> Fits(sign, v, n) && KeepsBits(sign, t))
  {
    hide And, Or, Xor, Pow2, Pow128, Grown, KeepsBits, Fits;
    if n < 9 {
      TakeBelow(sign, v, b, n);
    } else if n == 9 {
      NinthPower();
      NinthFits(sign, v);
      TakeAtTop(sign, v, b);
    } else {
      PastWord(sign, v, b, n);
    }
  }

  lemma NinthFits(sign: bool, v: nat)
    requires v < 0x8000_0000_0000_0000
    ensures Fits(sign, v, 9) && v % WORD_SIZE == v
  {
  }

  lemma NinthPower()
    ensures Pow128(9) == 0x8000_0000_0000_0000
  {
    Pow128Words();
  }

  lemma TakeBelow(sign: bool, v: nat, b: byte, n: nat)
    requires n < 9 && v < Pow128(n)
    ensures var v' := Grown(v, b, n);
      var t := Take(v % WORD_SIZE, b, 7 * n);
      t.result == v' % WORD_SIZE && Fits(sign, v', n + 1) && Fits(sign, v, n) && KeepsBits(sign, t)
  {
    hide And, Or, Xor, Pow2, Pow128, Grown, Mask, OrChunk, Shr;
    ChunkBelow(v, b, n);
    MaskBelow(n);
    AndZero(Take(v, b, 7 * n).lost);
    assert Take(v, b, 7 * n).result == Grown(v, b, n);
  }

  lemma TakeAtTop(sign: bool, v: nat, b: byte)
    requires v < 0x8000_0000_0000_0000
    ensures var v' := Grown(v, b, 9);
      var t := Take(v, b, 63);
      && t.result == v' % WORD_SIZE
      && (Fits(sign, v', 10) <==> KeepsBits(sign, t))
  {
    hide And, Or, Xor, Pow2, Pow128;
    ChunkAtTop(v, b);
    LostAtTop(v, b);
    TopValue(v, b % 128);
    NinthPower();
    LowBit(b);
    FitsAtTop(sign, v, b % 128, Take(v, b, 63));
  }

  lemma LowBit(b: byte)
    ensures b % 2 == (b % 128) % 2
  {
  }

  lemma FitsAtTop(sign: bool, v: nat, c: nat, t: Taken)
    requires v < 0x8000_0000_0000_0000 && c < 128
    requires t.result == v + (c % 2) * 0x8000_0000_0000_0000
    requires t.mask == 126 && And(t.lost, 126) == c - c % 2
    ensures Fits(sign, v + c * 0x8000_0000_0000_0000, 10) <==> KeepsBits(sign, t)
  {
    hide And, Pow128;
    Pow128Words();
    TopValue(v, c);
    if c % 2 == 0 {
      assert c != 127;
      assert t.result < 0x8000_0000_0000_0000;
    } else {
      assert c != 0;
      assert t.result >= 0x8000_0000_0000_0000;
    }
  }

  /** The seven bits that straddle the top of the word: one stays, six are lost. */
  lemma TopValue(v: nat, c: nat)
    requires v < 0x8000_0000_0000_0000 && c < 128
    ensures var v' := v + c * 0x8000_0000_0000_0000;
      && v' % WORD_SIZE == v + (c % 2) * 0x8000_0000_0000_0000
      && (v' < WORD_SIZE <==> c - c % 2 == 0)
      && (v' < 0x8000_0000_0000_0000 <==> c == 0)
      && (v' >= 64 * WORD_SIZE - 0x8000_0000_0000_0000 <==> c == 127)
  {
    ModUnique(v + c * 0x8000_0000_0000_0000, WORD_SIZE, c / 2, v + (c % 2) * 0x8000_0000_0000_0000);
  }

  // ----- sign extension -----

  predicate Representable(sign: bool, v: int)
  {
    if sign then -0x8000_0000_0000_0000 <= v < 0x8000_0000_0000_0000 else 0 <= v < WORD_SIZE
  }

  /** Sign extension after the last byte. */
  function Extend(result: word, b: byte, shift: nat): int
  {
    if shift < 64 && And(b, 0x40) != 0 && Shl(1, shift) <= WORD_SIZE
    then Or(result, WORD_SIZE - Shl(1, shift)) else result
  }

  lemma SignBit(bs: seq<byte>)
    requires bs != []
    ensures Value(bs) < Pow128(|bs|) == 128 * Pow128(|bs| - 1)
    ensures bs[|bs| - 1] % 128 >= 64 <==> Value(bs) >= 64 * Pow128(|bs| - 1)
    ensures bs[|bs| - 1] % 128 >= 64 <==> And(bs[|bs| - 1], 0x40) != 0
  {
    hide And, Pow128, Value;
    NextPower(|bs| - 1);
    And64(bs[|bs| - 1]);
    TopByte(bs);
  }

  lemma TopByte(bs: seq<byte>)
    requires bs != []
    ensures Value(bs) < 128 * Pow128(|bs| - 1)
    ensures bs[|bs| - 1] % 128 >= 64 <==> Value(bs) >= 64 * Pow128(|bs| - 1)
  {
    hide Pow128;
    var w := Value(bs[..|bs| - 1]);
    ValueBound(bs[..|bs| - 1]);
    TopDigit(w, bs[|bs| - 1] % 128, Pow128(|bs| - 1), Value(bs));
  }

  lemma TopDigit(w: nat, c: nat, q: nat, v: nat)
    requires w < q && c < 128 && v == w + c * q
    ensures v < 128 * q
    ensures c >= 64 <==> v >= 64 * q
  {
    MulMonotone(c, 127, q);
    if c >= 64 { MulMonotone(64, c, q); } else { MulMonotone(c, 63, q); }
  }

  lemma NextPower(n: nat)
    ensures Pow128(n + 1) == 128 * Pow128(n)
  {
  }

  lemma ExtendShort(v: nat, n: nat)
    requires n <= 9 && v < Pow128(n)
    ensures Shl(1, 7 * n) == Pow128(n) <= Pow128(9) < WORD_SIZE
    ensures Or(v, WORD_SIZE - Shl(1, 7 * n)) == v + WORD_SIZE - Pow128(n)
  {
    hide Or, Pow2, Pow128;
    var p := Pow128(n);
    assert p <= Pow128(9) == 0x8000_0000_0000_0000 by {
      Pow128Monotone(n, 9);
      Pow128Words();
    }
    assert Pow2(7 * n) == p by { Pow128IsPow2(n); }
    var k := Pow2(64 - 7 * n);
    assert k * p == WORD_SIZE by {
      Pow2Add(64 - 7 * n, 7 * n);
      Pow2Words();
    }
    assert WORD_SIZE - p == (k - 1) * p;
    OrDisjoint(v, k - 1, 7 * n);
  }

  lemma SignExtends(bs: seq<byte>)
    requires bs != []
    ensures var n := |bs|;
      && SignedValue(bs) % WORD_SIZE == Extend(Value(bs) % WORD_SIZE, bs[n - 1], ShiftAfter(n))
      && (Fits(true, Value(bs), n) <==> Representable(true, SignedValue(bs)))
  {
    hide And, Or, Pow2, Pow128, Value;
    var n, v := |bs|, Value(bs);
    SignBit(bs);
    if n <= 9 {
      ExtendShort(v, n);
      Pow128Words();
    } else {
      var m := Pow128PastWord(n);
      if bs[n - 1] % 128 >= 64 { AddMultiple(v - Pow128(n), 1, m); }
    }
  }
  // ----- the reader -----

  /**
   What reading a number from s yields. Bit 0 of the status: no terminator before
   the end; bit 1, for a terminated number: its value does not fit 64 bits. The
   result of a terminated number is its value in 64 bits.
   */
  ghost predicate ReadsAs(s: seq<byte>, sign: bool, result: word, numRead: nat, status: nat)
  {
    var bs := LebBytes(s);
    && numRead == |bs|
    && status < 4
    && (status % 2 == 1 <==> !Terminated(bs))
    && (Terminated(bs) ==>
          var v := if sign then SignedValue(bs) else Value(bs);
          && (status >= 2 <==> !Representable(sign, v))
          && result == v % WORD_SIZE)
  }

  lemma ReadStep(s: seq<byte>, sign: bool, n: nat)
    requires n < |s|
    ensures var t := Take(Value(s[..n]) % WORD_SIZE, s[n], ShiftAfter(n));
      && t.result == Value(s[..n + 1]) % WORD_SIZE
      && (Fits(sign, Value(s[..n + 1]), n + 1) <==> Fits(sign, Value(s[..n]), n) && KeepsBits(sign, t))
  {
    ValueBound(s[..n]);
    TakeIsExact(sign, Value(s[..n]), s[n], n);
    assert s[..n + 1][..n] == s[..n];
  }

  lemma ReadEnds(s: seq<byte>, sign: bool, n: nat, b: byte)
    requires 0 < n <= |s| && AllMore(s[..n - 1]) && s[n - 1] == b && !More(b)
    ensures var v := Value(s[..n]);
      var shift := ShiftAfter(n);
      var r := if sign then Extend(v % WORD_SIZE, b, shift) else v % WORD_SIZE;
      && (sign && shift < 64 && And(b, 0x40) != 0 ==>
            0 < Shl(1, shift) <= WORD_SIZE && Extend(v % WORD_SIZE, b, shift) < WORD_SIZE)
      && 0 <= r < WORD_SIZE
      && ReadsAs(s, sign, r, n, if Fits(sign, v, n) then 0 else 2)
  {
    hide And, Or, Pow2, Pow128, Value, LebBytes;
    var bs := s[..n];
    assert bs[..n - 1] == s[..n - 1];
    LebBytesOf(bs, s[n..]);
    assert bs + s[n..] == s;
    SignExtends(bs);
    if n <= 9 {
      ValueBound(bs);
      ExtendShort(Value(bs), n);
    }
  }

  lemma ReadRunsOut(s: seq<byte>, sign: bool, result: word, status: nat)
    requires AllMore(s) && (status == 1 || status == 3)
    ensures ReadsAs(s, sign, result, |s|, status)
  {
    LebBytesFacts(s);
    var bs := LebBytes(s);
    if bs != [] { assert More(s[|bs| - 1]); }
  }

  /** Reads a number at offset of the section. */
  method ReadLeb128(data: array<byte>, offset: nat, sign: bool) returns (result: word, numRead: nat, status: nat)
    ensures ReadsAs(if offset <= data.Length then data[offset..] else [], sign, result, numRead, status)
  {
    hide And, Or, Xor, Pow2, Pow128, LebBytes, Value, Fits, Shl, Shr;
    result, numRead, status := 0, 0, 1;
    var shift := 0;
    var pos := offset;
    ghost var s := if offset <= data.Length then data[offset..] else [];
    ReadStarts(sign);
    assert s[..0] == [];
    while pos < data.Length
      invariant pos == offset + numRead && numRead <= |s|
      invariant offset + |s| == data.Length || (s == [] && pos >= data.Length)
      invariant AllMore(s[..numRead])
      invariant shift == ShiftAfter(numRead)
      invariant result == Value(s[..numRead]) % WORD_SIZE
      invariant status == if Fits(sign, Value(s[..numRead]), numRead) then 1 else 3
      decreases data.Length - pos
    {
      var b := data[pos];
      assert b == s[numRead];
      ReadStep(s, sign, numRead);
      pos, numRead := pos + 1, numRead + 1;
      var lost, mask;
      if shift < 64 {
        result := OrChunk(result, b, shift);
        lost := Xor(b, Shr(result, shift)) % 256;
        mask := Mask(shift);
        shift := shift + 7;
      } else {
        lost := b;
        mask := 0x7f;
      }
      if And(lost, mask) != (if sign && result >= 0x8000_0000_0000_0000 then mask else 0) {
        OrTwo();
        status := Or(status, 2);
      }
      if !More(b) {
        assert AllMore(s[..numRead - 1]);
        ReadEnds(s, sign, numRead, b);
        status := status - 1;
        if sign && shift < 64 && And(b, 0x40) != 0 {
          result := Or(result, WORD_SIZE - Shl(1, shift));
        }
        return;
      }
    }
    assert s[..|s|] == s;
    ReadRunsOut(s, sign, result, status);
  }

  lemma ReadStarts(sign: bool)
    ensures Value([]) == 0 && Fits(sign, 0, 0)
  {
  }

  lemma OrTwo()
    ensures Or(1, 2) == 3 && Or(3, 2) == 3
  {
  }
}
