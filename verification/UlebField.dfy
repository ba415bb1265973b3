/** The LoongArch ADD_ULEB128 and SUB_ULEB128 relocations: a number rewritten in place. */
module UlebField {
  import opened Bytes
  import opened Bits
  import opened FieldBytes
  import opened Leb128

  // ----- encoding in a fixed number of bytes -----

  /** The low 7n bits of v in exactly n bytes, padded with continuation bytes. */
  function Encode(v: nat, n: nat): (r: seq<byte>)
    requires n >= 1
    ensures |r| == n
    decreases n
  {
    if n == 1 then [v % 128] else [v % 128 + 128] + Encode(v / 128, n - 1)
  }

  lemma {:induction false} EncodeIsLeb(v: nat, n: nat)
    requires n >= 1
    ensures IsLeb(Encode(v, n))
    decreases n
  {
    if n > 1 {
      EncodeIsLeb(v / 128, n - 1);
      PrependMore(v % 128 + 128, Encode(v / 128, n - 1));
    }
  }

  lemma {:induction false} ValueCons(b: byte, t: seq<byte>)
    ensures Value([b] + t) == b % 128 + 128 * Value(t)
    decreases |t|
  {
    if t == [] {
      assert ([b] + t)[..0] == [];
    } else {
      var init, last := t[..|t| - 1], t[|t| - 1];
      assert ([b] + t)[..|t|] == [b] + init;
      ValueCons(b, init);
      NextPower(|t| - 1);
      GrownCons(b, Value(init), last, |t| - 1);
    }
  }

  lemma GrownCons(b: byte, v: nat, last: byte, n: nat)
    ensures Grown(b % 128 + 128 * v, last, n + 1) == b % 128 + 128 * Grown(v, last, n)
  {
    NextPower(n);
    var c, p := last % 128, Pow128(n);
    assert c * (128 * p) == 128 * (c * p);
  }

  lemma EncodeValueStep(v: nat, t: seq<byte>, p: nat)
    requires p > 0 && Value(t) == (v / 128) % p
    ensures Value([v % 128 + 128] + t) == v % (128 * p)
  {
    hide Value, Pow128, Grown;
    ValueCons(v % 128 + 128, t);
    ModBy128(v, p);
  }

  /** Encoding keeps the value modulo the size of the field. */
  lemma {:induction false} EncodeValue(v: nat, n: nat)
    requires n >= 1
    ensures Value(Encode(v, n)) == v % Pow128(n)
    decreases n
  {
    hide Value, Pow128;
    if n == 1 {
      OneByte(v % 128);
    } else {
      EncodeValue(v / 128, n - 1);
      EncodeValueStep(v, Encode(v / 128, n - 1), Pow128(n - 1));
      NextPower(n - 1);
    }
  }

  lemma OneByte(b: byte)
    ensures Value([b]) == b % 128 && Pow128(1) == 128
  {
    assert [b][..0] == [];
    assert Pow128(0) == 1;
  }

  lemma ModBy128(v: nat, p: nat)
    requires p > 0
    ensures v % (128 * p) == v % 128 + 128 * ((v / 128) % p)
  {
    var q, r := (v / 128) / p, (v / 128) % p;
    DivMod(v / 128, p);
    assert 128 * (p * q) == (128 * p) * q;
    ModUnique(v, 128 * p, q, v % 128 + 128 * r);
  }

  /** Only the value modulo the size of the field matters. */
  lemma {:induction false} EncodeModulo(v: nat, n: nat)
    requires n >= 1
    ensures Encode(v % Pow128(n), n) == Encode(v, n)
    decreases n
  {
    if n == 1 {
      assert Pow128(1) == 128;
    } else {
      var p := Pow128(n - 1);
      NextPower(n - 1);
      ModBy128(v, p);
      EncodeModulo(v / 128, n - 1);
      DivMod(v / 128, p);
      assert (v % 128 + 128 * ((v / 128) % p)) / 128 == (v / 128) % p;
    }
  }

  // ----- the field of a relocation -----

  /** The length of the number at offset, or 0 when it is not one of 1 to 8 bytes. */
  function FieldLength(sec: seq<byte>, offset: nat): nat
  {
    if offset >= |sec| then 0
    else
      var bs := LebBytes(sec[offset..]);
      if Terminated(bs) && |bs| <= 8 then |bs| else 0
  }

  function FieldValue(sec: seq<byte>, offset: nat): nat
    requires offset <= |sec|
  {
    Value(LebBytes(sec[offset..]))
  }

  /** The section with delta added to the number at offset, in 64-bit arithmetic. */
  function Rewrite(sec: seq<byte>, offset: nat, delta: int): (r: seq<byte>)
    ensures |r| == |sec|
  {
    var n := FieldLength(sec, offset);
    if n == 0 then sec
    else sec[..offset] + Encode((FieldValue(sec, offset) + delta) % WORD_SIZE, n) + sec[offset + n..]
  }

  lemma FieldFitsWord(sec: seq<byte>, offset: nat)
    requires FieldLength(sec, offset) > 0
    ensures FieldValue(sec, offset) < Pow128(FieldLength(sec, offset)) <= WORD_SIZE
  {
    var bs := LebBytes(sec[offset..]);
    ValueBound(bs);
    Pow128Monotone(|bs|, 9);
    Pow128Words();
  }

  /** Sizes of fields divide the machine word, so wrapping there does not show in the field. */
  lemma WordModField(x: int, n: nat)
    requires n <= 8
    ensures (x % WORD_SIZE) % Pow128(n) == x % Pow128(n)
  {
    var p, k := Pow128(n), Pow2(64 - 7 * n);
    assert p * k == WORD_SIZE by {
      Pow128IsPow2(n);
      Pow2Add(7 * n, 64 - 7 * n);
      Pow2Words();
    }
    ModOfProduct(x, p, k);
  }

  lemma ModOfProduct(x: int, p: nat, k: nat)
    requires p > 0 && k > 0 && p * k > 0
    ensures (x % (p * k)) % p == x % p
  {
    var q, y := x / (p * k), x % (p * k);
    DivMod(x, p * k);
    DivMod(y, p);
    assert (p * k) * q == p * (k * q);
    assert p * (k * q + y / p) == p * (k * q) + p * (y / p);
    ModUnique(x, p, k * q + y / p, y % p);
  }

  /**
   An accepted rewrite changes only the bytes the number was read from, leaves a
   number of the same length there, and re-reading it gives the old value plus
   delta modulo the size of the field.
   */
  lemma RewriteReadsBack(sec: seq<byte>, offset: nat, delta: int)
    requires FieldLength(sec, offset) > 0
    ensures var n, sec' := FieldLength(sec, offset), Rewrite(sec, offset, delta);
      && n <= 8 && offset + n <= |sec|
      && sec'[..offset] == sec[..offset] && sec'[offset + n..] == sec[offset + n..]
      && FieldLength(sec', offset) == n
      && FieldValue(sec', offset) == (FieldValue(sec, offset) + delta) % Pow128(n)
  {
    var n, sec' := FieldLength(sec, offset), Rewrite(sec, offset, delta);
    var v := (FieldValue(sec, offset) + delta) % WORD_SIZE;
    var field := Encode(v, n);
    assert sec'[..offset] == sec[..offset];
    assert sec'[offset + n..] == sec[offset + n..];
    assert sec'[offset..] == field + sec[offset + n..];
    EncodeIsLeb(v, n);
    LebBytesOf(field, sec[offset + n..]);
    EncodeValue(v, n);
    WordModField(FieldValue(sec, offset) + delta, n);
  }

  /** Two rewrites of one field are one rewrite by the sum. */
  lemma RewriteTwice(sec: seq<byte>, offset: nat, d1: int, d2: int)
    ensures Rewrite(Rewrite(sec, offset, d1), offset, d2) == Rewrite(sec, offset, d1 + d2)
  {
    hide Encode, LebBytes, Value, Pow128, FieldLength, FieldValue;
    var n := FieldLength(sec, offset);
    if n > 0 {
      var once := Rewrite(sec, offset, d1);
      RewriteReadsBack(sec, offset, d1);
      SumTwice(FieldValue(sec, offset), d1, d2, n);
    }
  }

  lemma SumTwice(v: nat, d1: int, d2: int, n: nat)
    requires 1 <= n <= 8
    ensures Encode(((v + d1) % Pow128(n) + d2) % WORD_SIZE, n) == Encode((v + (d1 + d2)) % WORD_SIZE, n)
  {
    hide Encode, Pow128;
    ModAdd(v + d1, d2, Pow128(n));
    assert v + d1 + d2 == v + (d1 + d2);
    SameField((v + d1) % Pow128(n) + d2, v + (d1 + d2), n);
  }

  lemma ModAdd(a: int, d: int, p: int)
    requires p > 0
    ensures (a % p + d) % p == (a + d) % p
  {
    DivMod(a, p);
    var r := a % p + d;
    DivMod(r, p);
    assert a + d == p * (a / p + r / p) + r % p by { assert p * (a / p + r / p) == p * (a / p) + p * (r / p); }
    ModUnique(a + d, p, a / p + r / p, r % p);
  }

  lemma SameField(x: int, y: int, n: nat)
    requires 1 <= n <= 8 && x % Pow128(n) == y % Pow128(n)
    ensures Encode(x % WORD_SIZE, n) == Encode(y % WORD_SIZE, n)
  {
    EncodeModulo(x % WORD_SIZE, n);
    EncodeModulo(y % WORD_SIZE, n);
    WordModField(x, n);
    WordModField(y, n);
  }

  /** ADD for one symbol followed by SUB for another leaves the old value plus the difference. */
  lemma AddThenSub(sec: seq<byte>, offset: nat, a1: int, s1: word, a2: int, s2: word)
    requires FieldLength(sec, offset) > 0
    ensures var sec' := Rewrite(Rewrite(sec, offset, a1 + s1), offset, -(a2 + s2));
      && FieldLength(sec', offset) == FieldLength(sec, offset)
      && FieldValue(sec', offset)
         == (FieldValue(sec, offset) + a1 + s1 - a2 - s2) % Pow128(FieldLength(sec, offset))
  {
    hide Rewrite, FieldLength, FieldValue, Pow128;
    var d1, d2 := a1 + s1, -(a2 + s2);
    RewriteTwice(sec, offset, d1, d2);
    RewriteReadsBack(sec, offset, d1 + d2);
    assert FieldValue(sec, offset) + (d1 + d2) == FieldValue(sec, offset) + a1 + s1 - a2 - s2;
  }

  // ----- the rewriting loop -----

  /**
   The relocation at offset: reads the number, and when it is well formed and the
   symbol exists writes the adjusted number over it, byte by byte.
   */
  method RewriteInPlace(data: array<byte>, offset: nat, symbols: seq<word>, symIndex: nat, sub: bool, add: int)
    modifies data
    ensures data[..] ==
      if symIndex >= |symbols| then old(data[..])
      else Rewrite(old(data[..]), offset, if sub then -(add + symbols[symIndex]) else add + symbols[symIndex])
  {
    hide Encode, LebBytes, Value, Pow128;
    var value: word, size, status := 0, 0, 0;
    ghost var sec := data[..];
    if offset < data.Length {
      value, size, status := ReadLeb128(data, offset, false);
      assert data[offset..] == sec[offset..];
    }
    Accepted(sec, offset, value, size, status);
    if status != 0 || size == 0 || size > 8 { return; }
    if symIndex >= |symbols| { return; }
    var amount := add + symbols[symIndex];
    value := (if sub then value - amount else value + amount) % WORD_SIZE;
    WriteField(data, offset, value, size);
  }

  /** The reader's outcome accepts exactly the fields of 1 to 8 bytes, with their value. */
  lemma Accepted(sec: seq<byte>, offset: nat, value: word, size: nat, status: nat)
    requires offset < |sec| ==> ReadsAs(sec[offset..], false, value, size, status)
    requires offset >= |sec| ==> size == 0
    ensures status == 0 && 1 <= size <= 8 ==> FieldLength(sec, offset) == size && FieldValue(sec, offset) == value
    ensures !(status == 0 && 1 <= size <= 8) ==> FieldLength(sec, offset) == 0
  {
    hide LebBytes, Value, Pow128, Terminated;
    if FieldLength(sec, offset) > 0 { FieldFitsWord(sec, offset); }
  }

  /** The encoding of v is what was written and the encoding of what is left of it. */
  predicate StillToWrite(v: nat, size: nat, written: seq<byte>, value: nat, left: nat)
    requires size >= 1
  {
    Encode(v, size) == written + (if left == 0 then [] else Encode(value, left))
  }

  lemma AllToWrite(v: nat, size: nat)
    requires size >= 1
    ensures StillToWrite(v, size, [], v, size)
  {
  }

  lemma NextToWrite(v: nat, size: nat, written: seq<byte>, value: nat, left: nat)
    requires size >= 1 && left >= 1 && StillToWrite(v, size, written, value, left)
    ensures StillToWrite(v, size, written + [if left == 1 then value % 128 else value % 128 + 128], value / 128, left - 1)
  {
  }

  lemma NoneToWrite(v: nat, size: nat, written: seq<byte>, value: nat)
    requires size >= 1 && StillToWrite(v, size, written, value, 0)
    ensures Encode(v, size) == written
  {
  }

  method WriteField(data: array<byte>, offset: nat, v: word, size: nat)
    requires 1 <= size <= 8 && offset + size <= data.Length
    modifies data
    ensures data[..] == old(data[..offset]) + Encode(v, size) + old(data[offset + size..])
  {
    hide Encode, Over, StillToWrite;
    var value, left, p := v, size, offset;
    ghost var sec, written := data[..], [];
    NothingWritten(sec, offset);
    AllToWrite(v, size);
    while left != 0
      invariant left <= size && p + left == offset + size
      invariant StillToWrite(v, size, written, value, left)
      invariant Over(data[..], sec, offset, p, written)
      decreases left
    {
      NextToWrite(v, size, written, value, left);
      var c: byte := value % 128;
      value := value / 128;
      left := left - 1;
      if left != 0 { c := c + 0x80; }
      WriteNext(data[..], sec, offset, p, written, c);
      ghost var before := data[..];
      data[p] := c;
      assert data[..] == before[p := c];
      p, written := p + 1, written + [c];
    }
    AllWritten(data[..], sec, offset, p, written);
    NoneToWrite(v, size, written, value);
  }
}
