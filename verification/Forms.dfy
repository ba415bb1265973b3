/**
 Attribute forms: skipping a value, reading it as a number and reading it as a
 string move the cursor alike.
 */
module Forms {
  import opened Bytes
  import opened Leb128
  import opened FieldBytes
  import opened Uleb

  const DW_FORM_addr := 0x01
  const DW_FORM_block2 := 0x03
  const DW_FORM_block4 := 0x04
  const DW_FORM_data2 := 0x05
  const DW_FORM_data4 := 0x06
  const DW_FORM_data8 := 0x07
  const DW_FORM_string := 0x08
  const DW_FORM_block := 0x09
  const DW_FORM_block1 := 0x0a
  const DW_FORM_data1 := 0x0b
  const DW_FORM_flag := 0x0c
  const DW_FORM_sdata := 0x0d
  const DW_FORM_strp := 0x0e
  const DW_FORM_udata := 0x0f
  const DW_FORM_ref_addr := 0x10
  const DW_FORM_ref1 := 0x11
  const DW_FORM_ref2 := 0x12
  const DW_FORM_ref4 := 0x13
  const DW_FORM_ref8 := 0x14
  const DW_FORM_ref_udata := 0x15
  const DW_FORM_indirect := 0x16
  const DW_FORM_sec_offset := 0x17
  const DW_FORM_exprloc := 0x18
  const DW_FORM_flag_present := 0x19
  const DW_FORM_strx := 0x1a
  const DW_FORM_addrx := 0x1b
  const DW_FORM_data16 := 0x1e
  const DW_FORM_line_strp := 0x1f
  const DW_FORM_ref_sig8 := 0x20
  const DW_FORM_implicit_const := 0x21
  const DW_FORM_loclistx := 0x22
  const DW_FORM_rnglistx := 0x23
  const DW_FORM_strx1 := 0x25
  const DW_FORM_strx2 := 0x26
  const DW_FORM_strx3 := 0x27
  const DW_FORM_strx4 := 0x28
  const DW_FORM_addrx1 := 0x29
  const DW_FORM_addrx2 := 0x2a
  const DW_FORM_addrx3 := 0x2b
  const DW_FORM_addrx4 := 0x2c
  const DW_FORM_LLVM_addrx_offset := 0x2001

  /** The unit's address size and the file's byte order. */
  datatype Unit = Unit(addrSize: nat, lsb: bool)

  // ----- the length of a value, section 7.5.6 of DWARF 5 -----

  predicate OneByte(f: nat)
  {
    f == DW_FORM_data1 || f == DW_FORM_addrx1 || f == DW_FORM_strx1 || f == DW_FORM_flag || f == DW_FORM_ref1
  }

  predicate TwoBytes(f: nat)
  {
    f == DW_FORM_data2 || f == DW_FORM_addrx2 || f == DW_FORM_strx2 || f == DW_FORM_ref2
  }

  predicate FourBytes(f: nat)
  {
    f == DW_FORM_data4 || f == DW_FORM_addrx4 || f == DW_FORM_strx4 || f == DW_FORM_ref4 || f == DW_FORM_ref_addr
    || f == DW_FORM_sec_offset || f == DW_FORM_line_strp || f == DW_FORM_strp
  }

  /** The size of the forms whose values all have one size. */
  function FixedLen(u: Unit, f: nat): Option<nat>
  {
    if f == DW_FORM_addr then Some(u.addrSize)
    else if OneByte(f) then Some(1)
    else if TwoBytes(f) then Some(2)
    else if f == DW_FORM_addrx3 || f == DW_FORM_strx3 then Some(3)
    else if FourBytes(f) then Some(4)
    else if f == DW_FORM_data8 || f == DW_FORM_ref8 || f == DW_FORM_ref_sig8 then Some(8)
    else if f == DW_FORM_data16 then Some(16)
    else if f == DW_FORM_flag_present || f == DW_FORM_implicit_const then Some(0)
    else None
  }

  predicate IsLebForm(f: nat)
  {
    f == DW_FORM_sdata || f == DW_FORM_udata || f == DW_FORM_ref_udata || f == DW_FORM_addrx
    || f == DW_FORM_strx || f == DW_FORM_loclistx || f == DW_FORM_rnglistx
  }

  /** The length of a string with its terminating zero, if there is one. */
  function StringSpan(s: seq<byte>): (r: Option<nat>)
    ensures r.Some? ==> 0 < r.value <= |s|
  {
    if s == [] then None
    else if s[0] == 0 then Some(1)
    else
      match StringSpan(s[1..])
      case None => None
      case Some(n) => Some(n + 1)
  }

  /** A count in front of that many bytes: n bytes of count, count bytes of data. */
  function Counted(s: seq<byte>, n: nat, count: nat): Option<nat>
  {
    if n + count <= |s| then Some(n + count) else None
  }

  /**
   How many of the bytes left the value of a form takes. None: the form is not one
   that can be skipped, or the value is not complete in s.
   */
  function FormLen(u: Unit, f: nat, s: seq<byte>): (r: Option<nat>)
    ensures r.Some? ==> r.value <= |s|
  {
    var n := UlebLen(s);
    if FixedLen(u, f).Some? then
      if FixedLen(u, f).value <= |s| then FixedLen(u, f) else None
    else if IsLebForm(f) then if Terminated(LebBytes(s)) then Some(n) else None
    else if f == DW_FORM_block || f == DW_FORM_exprloc then
      if Terminated(LebBytes(s)) && n <= 4 then Counted(s, n, UlebValue(s)) else None
    else if f == DW_FORM_LLVM_addrx_offset then
      if Terminated(LebBytes(s)) then Counted(s, n, 4) else None
    else if f == DW_FORM_block1 then if |s| >= 1 then Counted(s, 1, s[0]) else None
    else if f == DW_FORM_block2 then if |s| >= 2 then Counted(s, 2, FileValue(s[..2], u.lsb)) else None
    else if f == DW_FORM_block4 then if |s| >= 4 then Counted(s, 4, FileValue(s[..4], u.lsb)) else None
    else if f == DW_FORM_string then StringSpan(s)
    else None
  }

  /** A complete value stays the same value whatever bytes follow it. */
  lemma FormLenLocal(u: Unit, f: nat, s: seq<byte>, rest: seq<byte>)
    requires FormLen(u, f, s) == Some(|s|)
    ensures FormLen(u, f, s + rest) == Some(|s|)
  {
    hide LebBytes, Value, FileValue, StringSpan;
    if Terminated(LebBytes(s)) { LebLocal(s, rest); }
    if f == DW_FORM_block2 { assert (s + rest)[..2] == s[..2]; }
    if f == DW_FORM_block4 { assert (s + rest)[..4] == s[..4]; }
    if f == DW_FORM_string { StringLocal(s, rest); }
  }

  lemma LebLocal(s: seq<byte>, rest: seq<byte>)
    requires Terminated(LebBytes(s))
    ensures LebBytes(s + rest) == LebBytes(s)
  {
    hide LebBytes, Terminated, IsLeb;
    TerminatedIsLeb(s);
    var n := UlebLen(s);
    assert s[..n] == LebBytes(s);
    assert s + rest == s[..n] + (s[n..] + rest);
    LebBytesOf(s[..n], s[n..] + rest);
  }

  lemma TerminatedIsLeb(s: seq<byte>)
    requires Terminated(LebBytes(s))
    ensures IsLeb(LebBytes(s))
  {
    hide LebBytes;
    var r := LebBytes(s);
    assert !More(r[|r| - 1]);
    LebBytesFacts(s);
  }

  lemma {:induction false} StringLocal(s: seq<byte>, rest: seq<byte>)
    requires StringSpan(s).Some?
    ensures StringSpan(s + rest) == StringSpan(s)
    decreases |s|
  {
    if s[0] != 0 {
      assert (s + rest)[1..] == s[1..] + rest;
      StringLocal(s[1..], rest);
    }
  }

  // ----- skipping -----

  /** Moves the cursor past a value; a form it does not know leaves the cursor alone. */
  method PassData(u: Unit, f: nat, data: seq<byte>, pos: nat, avail: nat) returns (pos': nat, avail': nat)
    requires pos + avail == |data|
    requires SkipsForm(u, f) ==> FormLen(u, f, data[pos..]).Some?
    ensures pos' + avail' == |data|
    ensures pos' == pos + if SkipsForm(u, f) then FormLen(u, f, data[pos..]).value else 0
  {
    hide LebBytes, Value, FileValue, StringSpan;
    ghost var s := data[pos..];
    pos', avail' := pos, avail;
    var length := 0;
    if f == DW_FORM_addr {
      length := u.addrSize;
    } else if f == DW_FORM_block || f == DW_FORM_exprloc {
      length, pos', avail' := Uleb128(data, pos', avail');
    } else if f == DW_FORM_block1 {
      length := 1 + data[pos] as int;
    } else if f == DW_FORM_block2 {
      assert data[pos..pos + 2] == s[..2];
      length := 2 + FileValue(data[pos..pos + 2], u.lsb);
    } else if f == DW_FORM_block4 {
      assert data[pos..pos + 4] == s[..4];
      length := 4 + FileValue(data[pos..pos + 4], u.lsb);
    } else if OneByte(f) {
      length := 1;
    } else if TwoBytes(f) {
      length := 2;
    } else if f == DW_FORM_addrx3 || f == DW_FORM_strx3 {
      length := 3;
    } else if FourBytes(f) {
      length := 4;
    } else if f == DW_FORM_data8 || f == DW_FORM_ref8 || f == DW_FORM_ref_sig8 {
      length := 8;
    } else if f == DW_FORM_data16 {
      length := 16;
    } else if IsLebForm(f) {
      var _, p, a := Uleb128(data, pos', avail');
      pos', avail' := p, a;
    } else if f == DW_FORM_LLVM_addrx_offset {
      var _, p, a := Uleb128(data, pos', avail');
      pos', avail' := p, a;
      length := 4;
    } else if f == DW_FORM_string {
      pos', avail' := PassString(data, pos', avail');
    }
    pos', avail' := pos' + length, avail' - length;
  }

  predicate SkipsForm(u: Unit, f: nat)
  {
    FixedLen(u, f).Some? || IsLebForm(f) || f == DW_FORM_block || f == DW_FORM_exprloc
    || f == DW_FORM_LLVM_addrx_offset || f == DW_FORM_block1 || f == DW_FORM_block2 || f == DW_FORM_block4
    || f == DW_FORM_string
  }

  method PassString(data: seq<byte>, pos: nat, avail: nat) returns (pos': nat, avail': nat)
    requires pos + avail == |data| && StringSpan(data[pos..]).Some?
    ensures pos' + avail' == |data| && pos' == pos + StringSpan(data[pos..]).value
  {
    pos', avail' := pos, avail;
    while data[pos'] != 0
      invariant pos <= pos' < |data| && pos' + avail' == |data|
      invariant StringSpan(data[pos'..]).Some?
      invariant pos' + StringSpan(data[pos'..]).value == pos + StringSpan(data[pos..]).value
      decreases |data| - pos'
    {
      assert data[pos'..][1..] == data[pos' + 1..];
      pos', avail' := pos' + 1, avail' - 1;
    }
    pos', avail' := pos' + 1, avail' - 1;
  }

  // ----- reading a number -----

  predicate IsValueForm(f: nat) { IsSized(f) || IsAddrx(f) || IsUnsized(f) }

  /** The forms that are one number of a size of their own, or of the address size. */
  predicate IsSized(f: nat)
  {
    f == DW_FORM_flag || f == DW_FORM_data1 || f == DW_FORM_ref1 || f == DW_FORM_data2 || f == DW_FORM_ref2
    || f == DW_FORM_data4 || f == DW_FORM_ref4 || f == DW_FORM_ref_addr || f == DW_FORM_sec_offset
    || f == DW_FORM_data8 || f == DW_FORM_ref8 || f == DW_FORM_ref_sig8 || f == DW_FORM_addr
  }

  /** How many bytes of an address are read, whatever its size is; the cursor moves by its size. */
  function AddrWidth(u: Unit): nat { if u.addrSize == 8 then 8 else 4 }

  predicate IsUnsized(f: nat)
  {
    f == DW_FORM_flag_present || f == DW_FORM_implicit_const || f == DW_FORM_exprloc || f == DW_FORM_LLVM_addrx_offset
    || IsUlebNumber(f)
  }

  predicate IsAddrx(f: nat)
  {
    f == DW_FORM_addrx || f == DW_FORM_addrx1 || f == DW_FORM_addrx2 || f == DW_FORM_addrx3 || f == DW_FORM_addrx4
  }

  /** The forms read as one number of n bytes. */
  predicate IsPlainNumber(f: nat, n: nat)
  {
    || (n == 1 && (f == DW_FORM_flag || f == DW_FORM_data1 || f == DW_FORM_ref1))
    || (n == 2 && (f == DW_FORM_data2 || f == DW_FORM_ref2))
    || (n == 4 && (f == DW_FORM_data4 || f == DW_FORM_ref4 || f == DW_FORM_ref_addr || f == DW_FORM_sec_offset))
    || (n == 8 && (f == DW_FORM_data8 || f == DW_FORM_ref8 || f == DW_FORM_ref_sig8))
  }

  predicate IsUlebNumber(f: nat)
  {
    f == DW_FORM_sdata || f == DW_FORM_udata || f == DW_FORM_ref_udata || f == DW_FORM_indirect
  }

  lemma {:induction false} LeValueBound(bs: seq<byte>)
    ensures LeValue(bs) < Pow256(|bs|)
    decreases |bs|
  {
    if bs != [] { LeValueBound(bs[1..]); }
  }

  /** A number of n bytes in file order. */
  function ReadFixed(u: Unit, data: seq<byte>, pos: nat, n: nat): (r: word)
    requires pos + n <= |data| && n <= 8
    ensures r == FileValue(data[pos..pos + n], u.lsb)
  {
    LeValueBound(if u.lsb then data[pos..pos + n] else Reverse(data[pos..pos + n]));
    Pow256Eight(n);
    FileValue(data[pos..pos + n], u.lsb)
  }

  lemma {:induction false} Pow256Eight(n: nat)
    requires n <= 8
    ensures Pow256(n) <= WORD_SIZE
    decreases 8 - n
  {
    if n == 8 {
      assert Pow256(4) == 0x1_0000_0000;
      assert Pow256(8) == WORD_SIZE;
    } else {
      Pow256Eight(n + 1);
    }
  }

  /**
   Reads a value as a number. None stands for the exit on a form it does not
   accept. `indexed` looks up an address by index, `implicit` is the constant
   kept in the abbreviation.
   */
  method FormDataValue(u: Unit, f: nat, data: seq<byte>, pos: nat, avail: nat, indexed: nat -> word, implicit: word)
    returns (value: Option<word>, pos': nat, avail': nat)
    requires pos + avail == |data|
    requires IsValueForm(f) && f != DW_FORM_indirect ==> FormLen(u, f, data[pos..]).Some?
    requires f == DW_FORM_addr ==> avail >= AddrWidth(u)
    ensures value.Some? <==> IsValueForm(f)
    ensures pos' + avail' == |data|
    ensures IsValueForm(f) ==>
      pos' == pos + if f == DW_FORM_indirect then UlebLen(data[pos..]) else FormLen(u, f, data[pos..]).value
    ensures forall n: nat :: IsPlainNumber(f, n) ==> n <= avail && value == Some(FileValue(data[pos..pos + n], u.lsb))
    ensures (IsUlebNumber(f) || f == DW_FORM_exprloc) && UlebLen(data[pos..]) <= 4 ==> value == Some(UlebValue(data[pos..]))
    ensures f == DW_FORM_flag_present ==> value == Some(1)
    ensures f == DW_FORM_implicit_const ==> value == Some(implicit)
    ensures f == DW_FORM_addr ==> value == Some(FileValue(data[pos..pos + AddrWidth(u)], u.lsb))
    ensures IsAddrx(f) && f != DW_FORM_addrx ==> pos' - pos <= 4 && value == Some(indexed(FileValue(data[pos..pos'], u.lsb)))
    ensures f == DW_FORM_addrx && UlebLen(data[pos..]) <= 4 ==> value == Some(indexed(UlebValue(data[pos..])))
    ensures f == DW_FORM_LLVM_addrx_offset && UlebLen(data[pos..]) <= 4 ==>
      && pos' >= 4
      && value == Some((UlebValue(data[pos..]) * 0x1_0000_0000 + FileValue(data[pos' - 4..pos'], u.lsb)) % WORD_SIZE)
  {
    hide LebBytes, Value, FileValue, StringSpan, FormLen;
    var v: word;
    if IsSized(f) {
      var length;
      v, length := ReadSized(u, f, data, pos);
      return Some(v), pos + length, avail - length;
    } else if IsAddrx(f) {
      v, pos', avail' := ReadAddrx(u, f, data, pos, avail, indexed);
      return Some(v), pos', avail';
    } else if IsUnsized(f) {
      v, pos', avail' := ReadUnsized(u, f, data, pos, avail, implicit);
      return Some(v), pos', avail';
    }
    return None, pos, avail;
  }

  method ReadSized(u: Unit, f: nat, data: seq<byte>, pos: nat) returns (v: word, length: nat)
    requires pos <= |data| && FormLen(u, f, data[pos..]).Some?
    requires IsSized(f) && (f == DW_FORM_addr ==> pos + AddrWidth(u) <= |data|)
    ensures length == FormLen(u, f, data[pos..]).value <= |data| - pos
    ensures v == FileValue(data[pos..pos + if f == DW_FORM_addr then AddrWidth(u) else length], u.lsb)
    ensures forall n: nat :: IsPlainNumber(f, n) ==> length == n
  {
    hide LebBytes, Value, FileValue, StringSpan;
    if IsPlainNumber(f, 1) {
      v, length := ReadFixed(u, data, pos, 1), 1;
    } else if IsPlainNumber(f, 2) {
      v, length := ReadFixed(u, data, pos, 2), 2;
    } else if IsPlainNumber(f, 4) {
      v, length := ReadFixed(u, data, pos, 4), 4;
    } else if IsPlainNumber(f, 8) {
      v, length := ReadFixed(u, data, pos, 8), 8;
    } else {
      v := if u.addrSize == 8 then ReadFixed(u, data, pos, 8) else ReadFixed(u, data, pos, 4);
      length := u.addrSize;
    }
  }

  method ReadUnsized(u: Unit, f: nat, data: seq<byte>, pos: nat, avail: nat, implicit: word)
    returns (v: word, pos': nat, avail': nat)
    requires pos + avail == |data| && IsUnsized(f)
    requires f != DW_FORM_indirect ==> FormLen(u, f, data[pos..]).Some?
    ensures pos' + avail' == |data|
    ensures pos' == pos + if f == DW_FORM_indirect then UlebLen(data[pos..]) else FormLen(u, f, data[pos..]).value
    ensures (IsUlebNumber(f) || f == DW_FORM_exprloc) && UlebLen(data[pos..]) <= 4 ==> v == UlebValue(data[pos..])
    ensures f == DW_FORM_flag_present ==> v == 1
    ensures f == DW_FORM_implicit_const ==> v == implicit
    ensures f == DW_FORM_LLVM_addrx_offset && UlebLen(data[pos..]) <= 4 ==>
      && pos' >= 4
      && v == (UlebValue(data[pos..]) * 0x1_0000_0000 + FileValue(data[pos' - 4..pos'], u.lsb)) % WORD_SIZE
  {
    hide LebBytes, Value, FileValue, StringSpan;
    pos', avail' := pos, avail;
    var length := 0;
    if f == DW_FORM_flag_present {
      v := 1;
    } else if f == DW_FORM_LLVM_addrx_offset {
      v, pos', avail' := Uleb128(data, pos', avail');
      v := HighAndLow(v, ReadFixed(u, data, pos', 4));
      length := 4;
    } else if f == DW_FORM_exprloc {
      v, pos', avail' := Uleb128(data, pos', avail');
      length := v;
    } else if f == DW_FORM_implicit_const {
      v := implicit;
    } else {
      v, pos', avail' := Uleb128(data, pos', avail');
    }
    pos', avail' := pos' + length, avail' - length;
  }

  /** The indexed addresses. */
  method ReadAddrx(u: Unit, f: nat, data: seq<byte>, pos: nat, avail: nat, indexed: nat -> word)
    returns (v: word, pos': nat, avail': nat)
    requires pos + avail == |data| && IsAddrx(f) && FormLen(u, f, data[pos..]).Some?
    ensures pos' == pos + FormLen(u, f, data[pos..]).value && pos' + avail' == |data|
    ensures f != DW_FORM_addrx ==> pos' - pos <= 4 && v == indexed(FileValue(data[pos..pos'], u.lsb))
    ensures f == DW_FORM_addrx && UlebLen(data[pos..]) <= 4 ==>
      UlebValue(data[pos..]) < WORD_SIZE && v == indexed(UlebValue(data[pos..]))
  {
    hide LebBytes, Value, FileValue, StringSpan;
    pos', avail' := pos, avail;
    if f == DW_FORM_addrx {
      v, pos', avail' := Uleb128(data, pos', avail');
      v := indexed(v);
    } else {
      var n := if f == DW_FORM_addrx1 then 1 else if f == DW_FORM_addrx2 then 2 else if f == DW_FORM_addrx3 then 3 else 4;
      v := indexed(ReadFixed(u, data, pos, n));
      pos', avail' := pos + n, avail - n;
    }
  }

  /** `high << 32 | low` in 64 bits, for a low part of 32 bits. */
  function HighAndLow(high: word, low: word): word { (high * 0x1_0000_0000 + low) % WORD_SIZE }

  // ----- reading a string -----

  predicate IsStringForm(f: nat)
  {
    f == DW_FORM_strx1 || f == DW_FORM_strx2 || f == DW_FORM_strx3 || f == DW_FORM_strx4
    || f == DW_FORM_strp || f == DW_FORM_line_strp || f == DW_FORM_string
  }

  /** Where a string lives: an index or offset to resolve, or in place. */
  datatype StringRef = NoString | Indexed(index: word) | Pooled(offset: word) | LinePooled(offset: word) | InPlace(pos: nat)

  /** The string a value stands for. */
  function StringAt(u: Unit, f: nat, data: seq<byte>, pos: nat): StringRef
    requires pos <= |data| && (IsStringForm(f) ==> FormLen(u, f, data[pos..]).Some?)
  {
    if f == DW_FORM_string then InPlace(pos)
    else if f == DW_FORM_strp then Pooled(ReadFixed(u, data, pos, 4))
    else if f == DW_FORM_line_strp then LinePooled(ReadFixed(u, data, pos, 4))
    else if IsStringForm(f) then Indexed(ReadFixed(u, data, pos, FixedLen(u, f).value))
    else NoString
  }

  /**
   Reads a value as a string; a form it does not accept leaves the cursor alone. So the
   cursor loses its place exactly on such a form with a value that is not empty, and
   always on DW_FORM_strx.
   */
  method FormStringValue(u: Unit, f: nat, data: seq<byte>, pos: nat, avail: nat)
    returns (r: StringRef, pos': nat, avail': nat)
    requires pos + avail == |data|
    requires IsStringForm(f) ==> FormLen(u, f, data[pos..]).Some?
    ensures pos' + avail' == |data|
    ensures pos' == pos + if IsStringForm(f) then FormLen(u, f, data[pos..]).value else 0
    ensures r == StringAt(u, f, data, pos)
    ensures FormLen(u, f, data[pos..]).Some? ==>
      (pos' == pos + FormLen(u, f, data[pos..]).value <==> IsStringForm(f) || FormLen(u, f, data[pos..]).value == 0)
    ensures f == DW_FORM_strx && FormLen(u, f, data[pos..]).Some? ==> pos' < pos + FormLen(u, f, data[pos..]).value
  {
    StrxNotEmpty(u, data[pos..]);
    pos', avail' := pos, avail;
    var length := 0;
    if f == DW_FORM_strx4 {
      r, length := Indexed(ReadFixed(u, data, pos, 4)), 4;
    } else if f == DW_FORM_strx3 {
      r, length := Indexed(ReadFixed(u, data, pos, 3)), 3;
    } else if f == DW_FORM_strx2 {
      r, length := Indexed(ReadFixed(u, data, pos, 2)), 2;
    } else if f == DW_FORM_strx1 {
      r, length := Indexed(ReadFixed(u, data, pos, 1)), 1;
    } else if f == DW_FORM_strp {
      r, length := Pooled(ReadFixed(u, data, pos, 4)), 4;
    } else if f == DW_FORM_string {
      r := InPlace(pos);
      pos', avail' := PassString(data, pos', avail');
    } else if f == DW_FORM_line_strp {
      r, length := LinePooled(ReadFixed(u, data, pos, 4)), 4;
    } else {
      r := NoString;
    }
    pos', avail' := pos' + length, avail' - length;
  }

  lemma StrxNotEmpty(u: Unit, s: seq<byte>)
    ensures FormLen(u, DW_FORM_strx, s).Some? ==> FormLen(u, DW_FORM_strx, s).value > 0
  {
    assert s == [] ==> LebBytes(s) == [];
  }

  // ----- a whole DIE -----

  /** How an attribute's value is consumed. */
  datatype Choice = AsNumber | AsString | AsFlag | Unread

  /** The readers an attribute of a form can be given to; a present flag needs no reading. */
  predicate Accepts(u: Unit, c: Choice, f: nat)
  {
    match c
    case AsNumber => IsValueForm(f) && f != DW_FORM_indirect && (f == DW_FORM_addr ==> u.addrSize >= AddrWidth(u))
    case AsString => IsStringForm(f)
    case AsFlag => f == DW_FORM_flag_present
    case Unread => true
  }

  /** Where the values of a DIE end, if all of them are complete. */
  function ValuesEnd(u: Unit, forms: seq<nat>, data: seq<byte>, pos: nat): (r: Option<nat>)
    requires pos <= |data|
    ensures r.Some? ==> pos <= r.value <= |data|
  {
    if forms == [] then Some(pos)
    else
      match FormLen(u, forms[0], data[pos..])
      case None => None
      case Some(n) => ValuesEnd(u, forms[1..], data, pos + n)
  }

  /** However a value is consumed, the cursor ends behind it. */
  method Consume(u: Unit, c: Choice, f: nat, data: seq<byte>, pos: nat, avail: nat, indexed: nat -> word, implicit: word)
    returns (pos': nat, avail': nat)
    requires pos + avail == |data| && Accepts(u, c, f) && FormLen(u, f, data[pos..]).Some?
    ensures pos' == pos + FormLen(u, f, data[pos..]).value && pos' + avail' == |data|
  {
    hide FormLen;
    LongEnough(u, f, data[pos..]);
    pos', avail' := pos, avail;
    match c {
      case AsNumber =>
        var _, p, a := FormDataValue(u, f, data, pos, avail, indexed, implicit);
        pos', avail' := p, a;
      case AsString =>
        var _, p, a := FormStringValue(u, f, data, pos, avail);
        pos', avail' := p, a;
      case AsFlag =>
      case Unread =>
        pos', avail' := PassData(u, f, data, pos, avail);
    }
  }

  /** The cursor after a DIE does not depend on which attributes were read and how. */
  method ConsumeDie(u: Unit, forms: seq<nat>, choices: seq<Choice>, data: seq<byte>, pos: nat, avail: nat,
                    indexed: nat -> word, implicit: word)
    returns (pos': nat, avail': nat)
    requires pos + avail == |data|
    requires |choices| == |forms| && forall k :: 0 <= k < |forms| ==> Accepts(u, choices[k], forms[k])
    requires ValuesEnd(u, forms, data, pos).Some?
    ensures pos' == ValuesEnd(u, forms, data, pos).value && pos' + avail' == |data|
  {
    hide FormLen, LebBytes, Accepts;
    pos', avail' := pos, avail;
    for i := 0 to |forms|
      invariant pos' + avail' == |data|
      invariant ValuesEnd(u, forms[i..], data, pos') == ValuesEnd(u, forms, data, pos)
    {
      assert forms[i..][1..] == forms[i + 1..];
      pos', avail' := Consume(u, choices[i], forms[i], data, pos', avail', indexed, implicit);
    }
    assert forms[|forms|..] == [];
  }

  lemma LongEnough(u: Unit, f: nat, s: seq<byte>)
    requires FormLen(u, f, s).Some?
    ensures SkipsForm(u, f)
    ensures f == DW_FORM_addr ==> |s| >= u.addrSize
    ensures f == DW_FORM_flag_present ==> FormLen(u, f, s).value == 0
  {
  }
}
