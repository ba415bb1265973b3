/**
 Call frame programs: the scan for the first DW_CFA_def_cfa_offset stays on
 instruction boundaries.
 */
module Cfa {
  import opened Bytes
  import opened Leb128
  import opened Uleb
  import opened Abbrev

  const DW_CFA_advance_loc := 0x40
  const DW_CFA_offset := 0x80
  const DW_CFA_restore := 0xc0
  const DW_CFA_nop := 0x00
  const DW_CFA_set_loc := 0x01
  const DW_CFA_advance_loc1 := 0x02
  const DW_CFA_advance_loc2 := 0x03
  const DW_CFA_advance_loc4 := 0x04
  const DW_CFA_offset_extended := 0x05
  const DW_CFA_restore_extended := 0x06
  const DW_CFA_undefined := 0x07
  const DW_CFA_same_value := 0x08
  const DW_CFA_register := 0x09
  const DW_CFA_remember_state := 0x0a
  const DW_CFA_restore_state := 0x0b
  const DW_CFA_def_cfa := 0x0c
  const DW_CFA_def_cfa_register := 0x0d
  const DW_CFA_def_cfa_offset := 0x0e
  const DW_CFA_def_cfa_expression := 0x0f
  const DW_CFA_expression := 0x10
  const DW_CFA_offset_extended_sf := 0x11
  const DW_CFA_def_cfa_sf := 0x12
  const DW_CFA_def_cfa_offset_sf := 0x13
  const DW_CFA_val_offset := 0x14
  const DW_CFA_val_offset_sf := 0x15
  const DW_CFA_val_expression := 0x16
  const DW_CFA_lo_user := 0x1c
  const DW_CFA_MIPS_advance_loc8 := 0x1d
  const DW_CFA_GNU_window_save := 0x2d
  const DW_CFA_GNU_args_size := 0x2e
  const DW_CFA_GNU_negative_offset_extended := 0x2f
  const DW_CFA_hi_user := 0x3f

  // ----- instructions, sections 6.4.2 and 7.24 of DWARF 5 -----

  /** How an operand is encoded. */
  datatype Operand = Address | Fixed(size: nat) | Number | ShortNumber | Block

  /** An opcode, with what its low bits hold, and its operands as encoded. */
  datatype Instr = Instr(op: byte, operands: seq<seq<byte>>)

  /** The operands of an opcode; None: not an opcode of the list. */
  function Operands(op: byte): Option<seq<Operand>>
  {
    var key := Key(op);
    if key in {DW_CFA_advance_loc, DW_CFA_restore, DW_CFA_nop, DW_CFA_remember_state, DW_CFA_restore_state,
               DW_CFA_lo_user, DW_CFA_hi_user, DW_CFA_GNU_window_save} then Some([])
    else if key == DW_CFA_set_loc then Some([Address])
    else if key == DW_CFA_advance_loc1 then Some([Fixed(1)])
    else if key == DW_CFA_advance_loc2 then Some([Fixed(2)])
    else if key == DW_CFA_advance_loc4 then Some([Fixed(4)])
    else if key == DW_CFA_MIPS_advance_loc8 then Some([Fixed(8)])
    else if key in {DW_CFA_offset, DW_CFA_restore_extended, DW_CFA_undefined, DW_CFA_same_value, DW_CFA_def_cfa_register,
                    DW_CFA_def_cfa_offset_sf, DW_CFA_GNU_args_size} then Some([Number])
    else if key == DW_CFA_def_cfa_offset then Some([ShortNumber])
    else if key in {DW_CFA_offset_extended, DW_CFA_register, DW_CFA_def_cfa, DW_CFA_offset_extended_sf, DW_CFA_def_cfa_sf,
                    DW_CFA_val_offset, DW_CFA_val_offset_sf, DW_CFA_GNU_negative_offset_extended} then Some([Number, Number])
    else if key == DW_CFA_def_cfa_expression then Some([Block])
    else if key == DW_CFA_expression || key == DW_CFA_val_expression then Some([Number, Block])
    else None
  }

  /** The opcode proper: the two high bits when one is set, else the whole byte. */
  function Key(op: byte): nat { if op >= 0x40 then op / 0x40 * 0x40 else op }

  predicate Fits(kind: Operand, ptrSize: nat, bs: seq<byte>)
  {
    match kind
    case Address => |bs| == ptrSize
    case Fixed(n) => |bs| == n
    case Number => IsLeb(bs)
    case ShortNumber => ShortLeb(bs)
    case Block => var n := UlebLen(bs); ShortLeb(bs[..n]) && Value(bs[..n]) == |bs| - n
  }

  predicate Valid(i: Instr, ptrSize: nat)
  {
    match Operands(i.op)
    case None => false
    case Some(kinds) =>
      |kinds| == |i.operands| && forall k :: 0 <= k < |kinds| ==> Fits(kinds[k], ptrSize, i.operands[k])
  }

  function Joined(operands: seq<seq<byte>>): seq<byte>
  {
    if operands == [] then [] else operands[0] + Joined(operands[1..])
  }

  function Encode(prog: seq<Instr>): seq<byte>
  {
    if prog == [] then [] else [prog[0].op] + Joined(prog[0].operands) + Encode(prog[1..])
  }

  predicate ValidProgram(prog: seq<Instr>, ptrSize: nat) { forall k :: 0 <= k < |prog| ==> Valid(prog[k], ptrSize) }

  /** The operand of the first DW_CFA_def_cfa_offset. */
  function FirstOffset(prog: seq<Instr>): Option<nat>
  {
    if prog == [] then None
    else if prog[0].op == DW_CFA_def_cfa_offset && prog[0].operands != [] then Some(Value(prog[0].operands[0]))
    else FirstOffset(prog[1..])
  }

  /** Where the instructions up to and including the first DW_CFA_def_cfa_offset start. */
  function Starts(prog: seq<Instr>, pos: nat): seq<nat>
  {
    if prog == [] then []
    else if prog[0].op == DW_CFA_def_cfa_offset then [pos]
    else [pos] + Starts(prog[1..], pos + 1 + |Joined(prog[0].operands)|)
  }

  // ----- the scan -----

  /** The first instruction of what is left. */
  lemma FirstInstr(s: seq<byte>, pos: nat, prog: seq<Instr>, ptrSize: nat)
    requires prog != [] && ValidProgram(prog, ptrSize) && At(s, pos, Encode(prog))
    ensures pos < |s| && s[pos] == prog[0].op && Valid(prog[0], ptrSize) && ValidProgram(prog[1..], ptrSize)
    ensures var p := pos + 1 + |Joined(prog[0].operands)|;
      && At(s, pos + 1, Joined(prog[0].operands))
      && At(s, p, Encode(prog[1..])) && p + |Encode(prog[1..])| == pos + |Encode(prog)|
  {
    hide At, Valid, Joined;
    AtSplit(s, pos, [prog[0].op] + Joined(prog[0].operands), Encode(prog[1..]));
    AtSplit(s, pos, [prog[0].op], Joined(prog[0].operands));
    FirstAt(s, pos, [prog[0].op]);
  }

  /** The operands of an instruction one behind the other. */
  lemma OperandsAt(s: seq<byte>, pos: nat, i: Instr, ptrSize: nat)
    requires Valid(i, ptrSize) && At(s, pos, Joined(i.operands))
    ensures var kinds := Operands(i.op).value;
      && (|kinds| == 0 ==> Joined(i.operands) == [])
      && (|kinds| > 0 ==> At(s, pos, i.operands[0]) && Fits(kinds[0], ptrSize, i.operands[0]))
      && (|kinds| == 1 ==> |Joined(i.operands)| == |i.operands[0]|)
      && (|kinds| == 2 ==>
           && At(s, pos + |i.operands[0]|, i.operands[1]) && Fits(kinds[1], ptrSize, i.operands[1])
           && |Joined(i.operands)| == |i.operands[0]| + |i.operands[1]|)
  {
    hide At, Fits, Operands;
    if i.operands != [] {
      AtSplit(s, pos, i.operands[0], Joined(i.operands[1..]));
      if |i.operands| == 2 {
        assert Joined(i.operands[1..][1..]) == [];
        assert Joined(i.operands[1..]) == i.operands[1];
      }
    }
  }

  /** A block is its count and as many bytes. */
  lemma BlockAt(s: seq<byte>, pos: nat, bs: seq<byte>)
    requires At(s, pos, bs) && Fits(Block, 0, bs)
    ensures UlebLen(s[pos..]) == UlebLen(bs) <= 4 && UlebLen(bs) + UlebValue(s[pos..]) == |bs|
  {
    var n := UlebLen(bs);
    assert bs == bs[..n] + bs[n..];
    AtSplit(s, pos, bs[..n], bs[n..]);
    LebAt(s, pos, bs[..n]);
  }

  method PassBlock(s: seq<byte>, pos: nat, ba: nat, ghost bs: seq<byte>) returns (ok: bool, pos': nat, ba': nat)
    requires pos + ba == |s| && At(s, pos, bs) && Fits(Block, 0, bs)
    ensures ok && pos' == pos + |bs| && pos' + ba' == |s|
  {
    hide LebBytes, Value, Fits;
    BlockAt(s, pos, bs);
    var uval;
    uval, pos', ba' := Uleb128(s, pos, ba);
    ok := ba' >= uval;
    if !ok { return; }
    pos', ba' := pos' + uval, ba' - uval;
  }

  /** Passes a number, whatever its value. */
  method PassNumber(s: seq<byte>, pos: nat, ba: nat, ghost bs: seq<byte>) returns (pos': nat, ba': nat)
    requires pos + ba == |s| && At(s, pos, bs) && IsLeb(bs)
    ensures pos' == pos + |bs| && pos' + ba' == |s|
  {
    hide At, IsLeb, LebBytes, Value;
    LebAt(s, pos, bs);
    var _, p, b := Uleb128(s, pos, ba);
    pos', ba' := p, b;
  }

  method PassFixed(pos: nat, ba: nat, size: nat) returns (ok: bool, pos': nat, ba': nat)
    ensures ok <==> ba >= size
    ensures if ok then pos' == pos + size && ba' == ba - size else pos' == pos && ba' == ba
  {
    ok, pos', ba' := ba >= size, pos, ba;
    if ok { pos', ba' := pos + size, ba - size; }
  }

  predicate TwoNumbers(key: nat)
  {
    key in {DW_CFA_offset_extended_sf, DW_CFA_val_offset_sf, DW_CFA_def_cfa, DW_CFA_def_cfa_sf, DW_CFA_register,
            DW_CFA_offset_extended, DW_CFA_GNU_negative_offset_extended, DW_CFA_val_offset}
  }

  predicate OneNumber(key: nat)
  {
    key in {DW_CFA_offset, DW_CFA_GNU_args_size, DW_CFA_def_cfa_offset_sf, DW_CFA_def_cfa_register, DW_CFA_restore_extended,
            DW_CFA_undefined, DW_CFA_same_value}
  }

  /** Passes the operands of an instruction other than DW_CFA_def_cfa_offset. */
  method PassOperands(s: seq<byte>, op: byte, pos: nat, ba: nat, ptrSize: nat, ghost i: Instr)
    returns (ok: bool, pos': nat, ba': nat)
    requires pos + ba == |s| && i.op == op != DW_CFA_def_cfa_offset
    requires Valid(i, ptrSize) && At(s, pos, Joined(i.operands))
    ensures ok && pos' == pos + |Joined(i.operands)| && pos' + ba' == |s|
  {
    hide Joined, LebBytes, Value, IsLeb;
    OperandsAt(s, pos, i, ptrSize);
    var key := Key(op);
    ok, pos', ba' := true, pos, ba;
    if key == DW_CFA_set_loc {
      ok, pos', ba' := PassFixed(pos, ba, ptrSize);
    } else if key == DW_CFA_advance_loc1 {
      ok, pos', ba' := PassFixed(pos, ba, 1);
    } else if key == DW_CFA_advance_loc2 {
      ok, pos', ba' := PassFixed(pos, ba, 2);
    } else if key == DW_CFA_advance_loc4 {
      ok, pos', ba' := PassFixed(pos, ba, 4);
    } else if TwoNumbers(key) {
      pos', ba' := PassNumber(s, pos', ba', i.operands[0]);
      pos', ba' := PassNumber(s, pos', ba', i.operands[1]);
    } else if OneNumber(key) {
      pos', ba' := PassNumber(s, pos', ba', i.operands[0]);
    } else if key == DW_CFA_def_cfa_expression {
      ok, pos', ba' := PassBlock(s, pos', ba', i.operands[0]);
    } else if key == DW_CFA_expression || key == DW_CFA_val_expression {
      pos', ba' := PassNumber(s, pos', ba', i.operands[0]);
      ok, pos', ba' := PassBlock(s, pos', ba', i.operands[1]);
    } else if key == DW_CFA_MIPS_advance_loc8 {
      ok, pos', ba' := PassFixed(pos, ba, 8);
    }
  }

  /**
   Scans a program for its first DW_CFA_def_cfa_offset. Every byte taken as an
   opcode starts an instruction, and the scan finds the operand or, if there is no
   such instruction, comes to the end.
   */
  method ParseDfa(s: seq<byte>, ptrSize: nat, ghost prog: seq<Instr>) returns (found: bool, res: nat, ghost starts: seq<nat>)
    requires ValidProgram(prog, ptrSize) && s == Encode(prog)
    ensures found <==> FirstOffset(prog).Some?
    ensures found ==> res == FirstOffset(prog).value
    ensures starts == Starts(prog, 0)
  {
    hide LebBytes, Value, Valid, At, Joined, Operands, Key, Encode;
    found, res, starts := false, 0, [];
    var pos, ba := 0, |s|;
    ghost var left := prog;
    WholeAt(s);
    while pos < |s|
      invariant pos + ba == |s| && ValidProgram(left, ptrSize)
      invariant At(s, pos, Encode(left)) && pos + |Encode(left)| == |s|
      invariant FirstOffset(left) == FirstOffset(prog)
      invariant starts + Starts(left, pos) == Starts(prog, 0)
      decreases ba
    {
      NothingLeft();
      FirstInstr(s, pos, left, ptrSize);
      KeyIsOffset(left[0].op);
      starts := starts + [pos];
      var op := s[pos];
      pos, ba := pos + 1, ba - 1;
      if Key(op) == DW_CFA_def_cfa_offset {
        OffsetOperand(s, pos, left[0], ptrSize);
        res, pos, ba := Uleb128(s, pos, ba);
        found := true;
        return;
      }
      var ok;
      ok, pos, ba := PassOperands(s, op, pos, ba, ptrSize, left[0]);
      if !ok { return; }
      left := left[1..];
    }
    if left != [] { FirstInstr(s, pos, left, ptrSize); }
  }

  lemma NothingLeft()
    ensures Encode([]) == []
  {
  }

  lemma KeyIsOffset(op: byte)
    ensures Key(op) == DW_CFA_def_cfa_offset <==> op == DW_CFA_def_cfa_offset
  {
  }

  lemma WholeAt(s: seq<byte>)
    ensures At(s, 0, s)
  {
  }

  lemma OffsetOperand(s: seq<byte>, pos: nat, i: Instr, ptrSize: nat)
    requires Valid(i, ptrSize) && At(s, pos, Joined(i.operands)) && Key(i.op) == DW_CFA_def_cfa_offset
    ensures i.op == DW_CFA_def_cfa_offset && i.operands != []
    ensures UlebLen(s[pos..]) <= 4 && UlebValue(s[pos..]) == Value(i.operands[0])
  {
    hide LebBytes, Value;
    OperandsAt(s, pos, i, ptrSize);
    LebAt(s, pos, i.operands[0]);
  }
}
