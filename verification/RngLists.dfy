/**
 Range lists: the units of the section give disjoint contexts, and a list decodes
 to the ranges it denotes under the running base address.
 */
module RngLists {
  import opened Bytes
  import opened Leb128
  import opened FieldBytes
  import opened Uleb
  import opened Forms
  import opened Abbrev

  // ----- the units of the section, section 7.28 of DWARF 5 -----

  /** Where the lists of a unit are; version is signed in the program. */
  datatype Ctx = Ctx(version: int, addrSize: byte, offsetSize: nat, start: nat, end: nat)

  /** The size of the length field at pos, and the length it holds. */
  function LengthSize(s: seq<byte>, pos: nat, lsb: bool): nat
    requires pos + 4 <= |s|
  {
    if FileValue(s[pos..pos + 4], lsb) == 0xffff_ffff then 12 else 4
  }

  function InitialLength(s: seq<byte>, pos: nat, lsb: bool): nat
    requires pos + 4 <= |s| && pos + LengthSize(s, pos, lsb) <= |s|
  {
    if LengthSize(s, pos, lsb) == 12 then FileValue(s[pos + 4..pos + 12], lsb) else FileValue(s[pos..pos + 4], lsb)
  }

  /** No length field and no header of a unit that fits is cut off by the end of the section. */
  predicate Readable(s: seq<byte>, pos: nat, lsb: bool)
    decreases |s| - pos
  {
    pos < |s| ==>
      && pos + 4 <= |s|
      && var p := pos + LengthSize(s, pos, lsb);
      p <= |s| ==>
        var n := InitialLength(s, pos, lsb);
        p + n <= |s| ==> p + 8 <= |s| && (s[p + 3] == 0 ==> Readable(s, p + n, lsb))
  }

  function Signed16(v: nat): int { if v >= 0x8000 then v - 0x1_0000 else v }

  /** The context of the unit at pos. */
  function CtxAt(s: seq<byte>, pos: nat, lsb: bool): Ctx
    requires pos + 4 <= |s| && pos + LengthSize(s, pos, lsb) + 8 <= |s|
  {
    var p := pos + LengthSize(s, pos, lsb);
    Ctx(Signed16(FileValue(s[p..p + 2], lsb)), s[p + 2], LengthSize(s, pos, lsb), p + 8, p + InitialLength(s, pos, lsb))
  }

  /** The contexts found from pos on, and whether the end of the section was reached. */
  function Contexts(s: seq<byte>, pos: nat, lsb: bool): (bool, seq<Ctx>)
    requires Readable(s, pos, lsb)
    decreases |s| - pos
  {
    if pos >= |s| then (true, [])
    else
      var p := pos + LengthSize(s, pos, lsb);
      if p > |s| || p + InitialLength(s, pos, lsb) > |s| || s[p + 3] != 0 then (false, [])
      else
        var (ok, rest) := Contexts(s, p + InitialLength(s, pos, lsb), lsb);
        (ok, [CtxAt(s, pos, lsb)] + rest)
  }

  lemma ContextsStep(s: seq<byte>, pos: nat, lsb: bool)
    requires pos < |s| && Readable(s, pos, lsb)
    ensures var p := pos + LengthSize(s, pos, lsb);
      if p > |s| || p + InitialLength(s, pos, lsb) > |s| || s[p + 3] != 0 then Contexts(s, pos, lsb) == (false, [])
      else
        var end := p + InitialLength(s, pos, lsb);
        && Readable(s, end, lsb)
        && Contexts(s, pos, lsb) == (Contexts(s, end, lsb).0, [CtxAt(s, pos, lsb)] + Contexts(s, end, lsb).1)
  {
    hide LengthSize, InitialLength, CtxAt;
  }

  lemma NoContexts(s: seq<byte>, pos: nat, lsb: bool)
    requires pos >= |s|
    ensures Readable(s, pos, lsb) && Contexts(s, pos, lsb) == (true, [])
  {
  }

  /** Each context ends before the next one starts, and inside the section. */
  predicate Ordered(ctxs: seq<Ctx>, from: nat, size: nat)
  {
    && (forall k :: 0 <= k < |ctxs| ==> from < ctxs[k].start && ctxs[k].end <= size)
    && forall j, k :: 0 <= j < k < |ctxs| ==> ctxs[j].end < ctxs[k].start && ctxs[j].end < ctxs[k].end
  }

  /** Whatever the bytes are, the contexts are in the section, sorted and disjoint. */
  lemma {:induction false} ContextsAreOrdered(s: seq<byte>, pos: nat, lsb: bool)
    requires Readable(s, pos, lsb)
    ensures Ordered(Contexts(s, pos, lsb).1, pos, |s|)
    ensures forall k :: 0 <= k < |Contexts(s, pos, lsb).1| ==> pos < Contexts(s, pos, lsb).1[k].end
    decreases |s| - pos
  {
    hide FileValue;
    if pos < |s| {
      var p := pos + LengthSize(s, pos, lsb);
      if p <= |s| && p + InitialLength(s, pos, lsb) <= |s| && s[p + 3] == 0 {
        ContextsAreOrdered(s, p + InitialLength(s, pos, lsb), lsb);
      }
    }
  }

  predicate Selects(c: Ctx, off: int) { c.start <= off < c.end }

  /** An offset selects at most one context. */
  lemma OneContext(s: seq<byte>, lsb: bool, off: int, j: nat, k: nat)
    requires Readable(s, 0, lsb)
    requires var ctxs := Contexts(s, 0, lsb).1;
      j < |ctxs| && k < |ctxs| && Selects(ctxs[j], off) && Selects(ctxs[k], off)
    ensures j == k
  {
    hide Contexts, Readable;
    ContextsAreOrdered(s, 0, lsb);
  }

  // ----- a section built from units -----

  /** A unit: the width of its length, its version and address size, and what follows the header. */
  datatype RangeUnit = RangeUnit(wide: bool, length: seq<byte>, version: seq<byte>, addrSize: byte, count: seq<byte>, body: seq<byte>)

  predicate ValidUnit(u: RangeUnit, lsb: bool)
  {
    && |u.length| == (if u.wide then 8 else 4) && |u.version| == 2 && |u.count| == 4
    && FileValue(u.length, lsb) == 8 + |u.body|
    && (!u.wide ==> 8 + |u.body| < 0xffff_ffff)
  }

  function EncodeUnit(u: RangeUnit): seq<byte>
  {
    (if u.wide then [0xff, 0xff, 0xff, 0xff] else []) + u.length + u.version + [u.addrSize, 0] + u.count + u.body
  }

  function EncodeUnits(us: seq<RangeUnit>): seq<byte>
  {
    if us == [] then [] else EncodeUnit(us[0]) + EncodeUnits(us[1..])
  }

  /** A context for each unit, from behind its header to its end. */
  function UnitContexts(us: seq<RangeUnit>, pos: nat, lsb: bool): seq<Ctx>
  {
    if us == [] then []
    else
      var u, end := us[0], pos + |EncodeUnit(us[0])|;
      [Ctx(Signed16(FileValue(u.version, lsb)), u.addrSize, if u.wide then 12 else 4, end - |u.body|, end)]
      + UnitContexts(us[1..], end, lsb)
  }

  lemma AllOnes(lsb: bool)
    ensures FileValue([0xff, 0xff, 0xff, 0xff], lsb) == 0xffff_ffff
  {
    var b: seq<byte> := [0xff, 0xff, 0xff, 0xff];
    assert Reverse(b) == b by {
      assert b[1..] == [0xff, 0xff, 0xff] && b[1..][1..] == [0xff, 0xff] && b[1..][1..][1..] == [0xff];
    }
    assert LeValue([0xff]) == 0xff;
    assert b[1..][1..][1..] == [0xff] && LeValue(b[1..][1..]) == 0xffff;
    assert LeValue(b[1..]) == 0xff_ffff;
  }

  lemma UnitAt(u: RangeUnit, s: seq<byte>, pos: nat, lsb: bool)
    requires ValidUnit(u, lsb) && At(s, pos, EncodeUnit(u))
    ensures pos + 4 <= |s|
    ensures var n := LengthSize(s, pos, lsb);
      && n == (if u.wide then 12 else 4)
      && pos + n + 8 <= |s| && pos + n + InitialLength(s, pos, lsb) == pos + |EncodeUnit(u)| <= |s|
      && s[pos + n + 3] == 0
      && CtxAt(s, pos, lsb)
         == Ctx(Signed16(FileValue(u.version, lsb)), u.addrSize, n, pos + |EncodeUnit(u)| - |u.body|, pos + |EncodeUnit(u)|)
  {
    hide FileValue;
    AllOnes(lsb);
    var head := if u.wide then [0xff, 0xff, 0xff, 0xff] else [];
    assert EncodeUnit(u) == head + (u.length + (u.version + ([u.addrSize, 0] + (u.count + u.body))));
    AtSplit(s, pos, head, u.length + (u.version + ([u.addrSize, 0] + (u.count + u.body))));
    var p := pos + |head|;
    AtSplit(s, p, u.length, u.version + ([u.addrSize, 0] + (u.count + u.body)));
    var q := p + |u.length|;
    AtSplit(s, q, u.version, [u.addrSize, 0] + (u.count + u.body));
    AtSplit(s, q + 2, [u.addrSize, 0], u.count + u.body);
    assert s[q + 2] == s[q + 2..q + 4][0] && s[q + 3] == s[q + 2..q + 4][1];
  }

  /** A section that is a list of units gives exactly their contexts, in order. */
  lemma {:induction false} UnitsGiveContexts(us: seq<RangeUnit>, s: seq<byte>, pos: nat, lsb: bool)
    requires forall k :: 0 <= k < |us| ==> ValidUnit(us[k], lsb)
    requires At(s, pos, EncodeUnits(us)) && pos + |EncodeUnits(us)| == |s|
    ensures Readable(s, pos, lsb)
    ensures Contexts(s, pos, lsb) == (true, UnitContexts(us, pos, lsb))
    decreases |us|
  {
    hide FileValue, LengthSize, InitialLength, CtxAt, EncodeUnit, At;
    if us != [] {
      AtSplit(s, pos, EncodeUnit(us[0]), EncodeUnits(us[1..]));
      UnitAt(us[0], s, pos, lsb);
      UnitsGiveContexts(us[1..], s, pos + |EncodeUnit(us[0])|, lsb);
    }
  }

  class RangeSection {
    var contexts: seq<Ctx>

    constructor ()
      ensures contexts == []
    {
      contexts := [];
    }

    /** Collects the contexts of the section; those found before a bad unit are kept. */
    method ParseRnglists(s: seq<byte>, lsb: bool) returns (ok: bool)
      requires Readable(s, 0, lsb)
      modifies this
      ensures s == [] ==> !ok && contexts == old(contexts)
      ensures s != [] ==> contexts == Contexts(s, 0, lsb).1
      ensures s != [] ==> (ok <==> Contexts(s, 0, lsb).0 && contexts != [])
    {
      hide CtxAt, LengthSize, InitialLength, Contexts, Readable;
      if s == [] { return false; }
      contexts := [];
      var start, ba := 0, |s|;
      while start < |s|
        invariant start <= |s| && start + ba == |s| && Readable(s, start, lsb)
        invariant Contexts(s, 0, lsb).0 == Contexts(s, start, lsb).0
        invariant contexts + Contexts(s, start, lsb).1 == Contexts(s, 0, lsb).1
        decreases ba
      {
        var ctx;
        ok, ctx := ReadUnit(s, start, ba, lsb);
        ContextsStep(s, start, lsb);
        if !ok { return; }
        assert contexts + ([ctx] + Contexts(s, ctx.end, lsb).1) == contexts + [ctx] + Contexts(s, ctx.end, lsb).1;
        contexts := contexts + [ctx];
        start := ctx.end;
        ba := |s| - start;
      }
      NoContexts(s, start, lsb);
      ok := contexts != [];
    }

    /** The context of the unit at start; false when the unit does not fit or has segments. */
    static method ReadUnit(s: seq<byte>, start: nat, ba: nat, lsb: bool) returns (ok: bool, ctx: Ctx)
      requires start + ba == |s| && start < |s| && Readable(s, start, lsb)
      ensures var p := start + LengthSize(s, start, lsb);
        ok <==> p <= |s| && p + InitialLength(s, start, lsb) <= |s| && s[p + 3] == 0
      ensures ok ==> ctx == CtxAt(s, start, lsb) && start < ctx.end <= |s|
      ensures ok ==> ctx.end == start + LengthSize(s, start, lsb) + InitialLength(s, start, lsb)
    {
      hide FileValue;
      ok, ctx := false, Ctx(0, 0, 0, 0, 0);
      var initLen := FileValue(s[start..start + 4], lsb);
      var p, left, offsetSize := start + 4, ba - 4, 4;
      if initLen == 0xffff_ffff {
        if left < 8 { return; }
        initLen := FileValue(s[p..p + 8], lsb);
        p, left, offsetSize := p + 8, left - 8, offsetSize + 8;
      }
      if initLen > |s| - p { return; }
      var end := p + initLen;
      var version := Signed16(FileValue(s[p..p + 2], lsb));
      p, left := p + 2, left - 2;
      var addrSize := s[p];
      p, left := p + 1, left - 1;
      var segSize := s[p];
      p, left := p + 1, left - 1;
      if segSize != 0 { return; }
      p, left := p + 4, left - 4;
      ok, ctx := true, Ctx(version, addrSize, offsetSize, p, end);
    }
  }
}
