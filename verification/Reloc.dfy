/** The relocation engine: a loop over the entries of a section that patches its bytes. */
module Reloc {
  import opened Bytes
  import opened Bits
  import opened FieldBytes
  import opened Leb128
  import opened UlebField

  // ----- targets, symbols and entries -----

  datatype Symbol = Symbol(addr: word, kind: nat)

  datatype Entry = Entry(offset: nat, sym: nat, rtype: nat, add: int)

  const STT_SECTION := 3
  const STT_COMMON := 5

  /**
   The relocation types of one machine that each classifier accepts, and those
   whose old contents count although the entry carries an addend.
   */
  datatype Tables = Tables(
    none: set<nat>,
    abs32: set<nat>, pcrel32: set<nat>, abs64: set<nat>, pcrel64: set<nat>,
    abs24: set<nat>, abs16: set<nat>, abs8: set<nat>, abs6: set<nat>,
    sub32: set<nat>, add32: set<nat>, sub64: set<nat>, add64: set<nat>,
    sub16: set<nat>, add16: set<nat>, sub8: set<nat>, add8: set<nat>,
    sub6: set<nat>, add6: set<nat>, partialInplace: set<nat>)

  /** pcBias is 8 on HPPA and 0 elsewhere; lowByteTypes holds on 64-bit MIPS and SPARC. */
  datatype Target = Target(lsb: bool, rela: bool, lowByteTypes: bool, pcBias: nat, loongArch: bool, tables: Tables)

  const LARCH_ADD_ULEB128 := 107
  const LARCH_SUB_ULEB128 := 108

  predicate IsUleb(t: Target, e: Entry)
  {
    t.loongArch && (e.rtype == LARCH_ADD_ULEB128 || e.rtype == LARCH_SUB_ULEB128)
  }

  function TypeOf(t: Target, e: Entry): nat { if t.lowByteTypes then e.rtype % 0x100 else e.rtype }

  datatype Kind = Kind(size: nat, inplace: bool, subtract: bool)

  /** The classifiers in the order they are asked; None for types that are skipped. */
  function Classify(tab: Tables, ty: nat): (r: Option<Kind>)
    ensures r.Some? ==> 1 <= r.value.size <= 8
  {
    if ty in tab.none then None
    else if ty in tab.abs32 || ty in tab.pcrel32 then Some(Kind(4, false, false))
    else if ty in tab.abs64 || ty in tab.pcrel64 then Some(Kind(8, false, false))
    else if ty in tab.abs24 then Some(Kind(3, false, false))
    else if ty in tab.abs16 then Some(Kind(2, false, false))
    else if ty in tab.abs8 || ty in tab.abs6 then Some(Kind(1, false, false))
    else if ty in tab.sub32 || ty in tab.add32 then Some(Kind(4, true, ty in tab.sub32))
    else if ty in tab.sub64 || ty in tab.add64 then Some(Kind(8, true, ty in tab.sub64))
    else if ty in tab.sub16 || ty in tab.add16 then Some(Kind(2, true, ty in tab.sub16))
    else if ty in tab.sub8 || ty in tab.add8 then Some(Kind(1, true, ty in tab.sub8))
    else if ty in tab.sub6 || ty in tab.add6 then Some(Kind(1, true, ty in tab.sub6))
    else None
  }

  predicate IsSixBit(tab: Tables, ty: nat) { ty in tab.abs6 || ty in tab.sub6 || ty in tab.add6 }

  predicate InSection(size: nat, offset: nat, n: nat) { offset < size && offset + n <= size }

  predicate SymbolOk(syms: seq<Symbol>, sym: nat)
  {
    sym < |syms| && !(syms[sym].kind != STT_COMMON && syms[sym].kind > STT_SECTION)
  }

  function Wrap(x: int): word { x % WORD_SIZE }

  /** The addend: the entry's own, plus the old contents for types patched in place. */
  function Addend(t: Target, k: Kind, e: Entry, field: seq<byte>): word
    requires |field| == k.size
  {
    var ty := TypeOf(t, e);
    var old0 := ByteGet(field, k.size, t.lsb);
    Wrap((if t.rela then e.add else 0)
         + if !t.rela || ty in t.tables.partialInplace || k.inplace
           then (if ty in t.tables.sub6 then And(old0, 0x3f) else old0) else 0)
  }

  /** The value written over a field. */
  function NewValue(t: Target, k: Kind, e: Entry, sym: word, field: seq<byte>): word
    requires |field| == k.size
  {
    var ty, a := TypeOf(t, e), Addend(t, k, e, field);
    if ty in t.tables.pcrel32 || ty in t.tables.pcrel64 then Wrap(a - t.pcBias + sym - e.offset)
    else if IsSixBit(t.tables, ty) then
      Wrap(Or(And(Wrap(if k.subtract then a - sym else a + sym), 0x3f), And(ByteGet(field, k.size, t.lsb), 0xc0)))
    else if k.subtract then Wrap(a - sym)
    else Wrap(a + sym)
  }

  // ----- what one entry does -----

  /** Bytes to put at a place; no bytes when the entry is skipped. */
  datatype Patch = Patch(at: nat, bytes: seq<byte>)

  function UlebDelta(syms: seq<Symbol>, e: Entry): int
    requires e.sym < |syms|
  {
    if e.rtype == LARCH_SUB_ULEB128 then -(e.add + syms[e.sym].addr) else e.add + syms[e.sym].addr
  }

  function PatchOf(t: Target, syms: seq<Symbol>, sec: seq<byte>, e: Entry): Patch
  {
    if IsUleb(t, e) then
      var n := FieldLength(sec, e.offset);
      if e.sym < |syms| && n > 0
      then Patch(e.offset, Encode((FieldValue(sec, e.offset) + UlebDelta(syms, e)) % WORD_SIZE, n))
      else Patch(e.offset, [])
    else
      match Classify(t.tables, TypeOf(t, e))
      case None => Patch(e.offset, [])
      case Some(k) =>
        if InSection(|sec|, e.offset, k.size) && SymbolOk(syms, e.sym) then
          var field := sec[e.offset..e.offset + k.size];
          Patch(e.offset, FileBytes(NewValue(t, k, e, syms[e.sym].addr, field), k.size, t.lsb))
        else Patch(e.offset, [])
  }

  /** The number of bytes from its offset on that decide what an entry does. */
  function Extent(t: Target, syms: seq<Symbol>, sec: seq<byte>, e: Entry): nat
  {
    if IsUleb(t, e) then (if e.offset < |sec| then |LebBytes(sec[e.offset..])| else 0)
    else |PatchOf(t, syms, sec, e).bytes|
  }

  lemma PatchFits(t: Target, syms: seq<Symbol>, sec: seq<byte>, e: Entry)
    ensures var p := PatchOf(t, syms, sec, e);
      && p.at == e.offset
      && |p.bytes| <= Extent(t, syms, sec, e)
      && (Extent(t, syms, sec, e) > 0 ==> e.offset + Extent(t, syms, sec, e) <= |sec|)
  {
  }

  function Splice(sec: seq<byte>, p: Patch): (r: seq<byte>)
    ensures |r| == |sec|
  {
    if p.at + |p.bytes| > |sec| then sec
    else sec[..p.at] + p.bytes + sec[p.at + |p.bytes|..]
  }

  /** The section after the first entries, one at a time. */
  function ApplyAll(t: Target, syms: seq<Symbol>, sec: seq<byte>, es: seq<Entry>): (r: seq<byte>)
    ensures |r| == |sec|
  {
    if es == [] then sec
    else
      var before := ApplyAll(t, syms, sec, es[..|es| - 1]);
      Splice(before, PatchOf(t, syms, before, es[|es| - 1]))
  }

  // ----- disjoint entries do not interfere -----

  /** The bytes that decide a and b do not overlap. */
  predicate Apart(t: Target, syms: seq<Symbol>, sec: seq<byte>, a: Entry, b: Entry)
  {
    var m, n := Extent(t, syms, sec, a), Extent(t, syms, sec, b);
    m == 0 || n == 0 || a.offset + m <= b.offset || b.offset + n <= a.offset
  }

  ghost predicate Disjoint(t: Target, syms: seq<Symbol>, sec: seq<byte>, es: seq<Entry>)
  {
    forall j, k :: 0 <= j < k < |es| ==> Apart(t, syms, sec, es[j], es[k])
  }

  predicate Covers(p: Patch, i: int) { p.at <= i < p.at + |p.bytes| }

  function ByteAt(p: Patch, i: int): byte
    requires Covers(p, i)
  {
    p.bytes[i - p.at]
  }

  /** r holds, in the field of each entry, what that entry alone would write, and sec elsewhere. */
  ghost predicate HoldsFields(t: Target, syms: seq<Symbol>, sec: seq<byte>, es: seq<Entry>, r: seq<byte>)
  {
    && |r| == |sec|
    && (forall k, i :: 0 <= k < |es| && 0 <= i < |sec| && Covers(PatchOf(t, syms, sec, es[k]), i) ==>
          r[i] == ByteAt(PatchOf(t, syms, sec, es[k]), i))
    && forall i :: 0 <= i < |sec| && (forall k :: 0 <= k < |es| ==> !Covers(PatchOf(t, syms, sec, es[k]), i)) ==>
         r[i] == sec[i]
  }

  /** An entry does the same in every section that agrees on the bytes that decide it. */
  lemma Locality(t: Target, syms: seq<Symbol>, sec: seq<byte>, sec': seq<byte>, e: Entry)
    requires |sec| == |sec'|
    requires var n := Extent(t, syms, sec, e);
      n > 0 ==> e.offset + n <= |sec| && sec[e.offset..e.offset + n] == sec'[e.offset..e.offset + n]
    ensures PatchOf(t, syms, sec', e) == PatchOf(t, syms, sec, e)
  {
    hide LebBytes, Value, Encode, NewValue, FileBytes, Classify;
    if IsUleb(t, e) && e.offset < |sec| {
      SameNumber(sec, sec', e.offset);
    }
  }

  lemma SameNumber(sec: seq<byte>, sec': seq<byte>, offset: nat)
    requires |sec| == |sec'| && offset < |sec|
    requires var n := |LebBytes(sec[offset..])|; sec[offset..offset + n] == sec'[offset..offset + n]
    ensures LebBytes(sec'[offset..]) == LebBytes(sec[offset..])
  {
    var s, s' := sec[offset..], sec'[offset..];
    var bs := LebBytes(s);
    LebBytesFacts(s);
    assert s[..|bs|] == sec[offset..offset + |bs|];
    assert s'[..|bs|] == sec'[offset..offset + |bs|];
    hide LebBytes;
    assert bs == s'[..|bs|];
    if IsLeb(bs) {
      assert s' == bs + s'[|bs|..];
      LebBytesOf(bs, s'[|bs|..]);
    } else {
      assert s' == s;
    }
  }

  lemma {:induction false} DisjointFields(t: Target, syms: seq<Symbol>, sec: seq<byte>, es: seq<Entry>)
    requires Disjoint(t, syms, sec, es)
    ensures HoldsFields(t, syms, sec, es, ApplyAll(t, syms, sec, es))
    decreases |es|
  {
    hide PatchOf, Extent, Apart, HoldsFields;
    if es == [] {
      NothingHolds(t, syms, sec);
    } else {
      var init, e := es[..|es| - 1], es[|es| - 1];
      DisjointParts(t, syms, sec, es);
      DisjointFields(t, syms, sec, init);
      var before := ApplyAll(t, syms, sec, init);
      ExtentUntouched(t, syms, sec, init, before, e);
      Locality(t, syms, sec, before, e);
      AddField(t, syms, sec, init, before, e);
      assert init + [e] == es;
    }
  }

  lemma NothingHolds(t: Target, syms: seq<Symbol>, sec: seq<byte>)
    ensures HoldsFields(t, syms, sec, [], sec)
  {
  }

  lemma DisjointParts(t: Target, syms: seq<Symbol>, sec: seq<byte>, es: seq<Entry>)
    requires Disjoint(t, syms, sec, es) && es != []
    ensures var init := es[..|es| - 1];
      && Disjoint(t, syms, sec, init)
      && forall k :: 0 <= k < |init| ==> Apart(t, syms, sec, init[k], es[|es| - 1])
  {
    hide Apart;
    var init := es[..|es| - 1];
    forall j, k | 0 <= j < k < |init| ensures Apart(t, syms, sec, init[j], init[k]) {
      assert Apart(t, syms, sec, es[j], es[k]);
    }
    forall k | 0 <= k < |init| ensures Apart(t, syms, sec, init[k], es[|es| - 1]) {
      assert Apart(t, syms, sec, es[k], es[|es| - 1]);
    }
  }

  lemma ExtentUntouched(t: Target, syms: seq<Symbol>, sec: seq<byte>, init: seq<Entry>, before: seq<byte>, e: Entry)
    requires HoldsFields(t, syms, sec, init, before)
    requires forall k :: 0 <= k < |init| ==> Apart(t, syms, sec, init[k], e)
    ensures var n := Extent(t, syms, sec, e);
      n > 0 ==> e.offset + n <= |sec| && sec[e.offset..e.offset + n] == before[e.offset..e.offset + n]
  {
    hide PatchOf, Extent;
    var n := Extent(t, syms, sec, e);
    PatchFits(t, syms, sec, e);
    if n > 0 {
      forall i | e.offset <= i < e.offset + n ensures before[i] == sec[i] {
        forall k | 0 <= k < |init| ensures !Covers(PatchOf(t, syms, sec, init[k]), i) {
          PatchFits(t, syms, sec, init[k]);
          assert Apart(t, syms, sec, init[k], e);
        }
      }
    }
  }

  lemma AddField(t: Target, syms: seq<Symbol>, sec: seq<byte>, init: seq<Entry>, before: seq<byte>, e: Entry)
    requires HoldsFields(t, syms, sec, init, before)
    requires forall k :: 0 <= k < |init| ==> Apart(t, syms, sec, init[k], e)
    ensures HoldsFields(t, syms, sec, init + [e], Splice(before, PatchOf(t, syms, sec, e)))
  {
    hide PatchOf, Extent;
    var es, p := init + [e], PatchOf(t, syms, sec, e);
    var r := Splice(before, p);
    PatchFits(t, syms, sec, e);
    assert forall i :: 0 <= i < |sec| ==> r[i] == if Covers(p, i) then ByteAt(p, i) else before[i];
    forall k, i | 0 <= k < |es| && 0 <= i < |sec| && Covers(PatchOf(t, syms, sec, es[k]), i)
      ensures r[i] == ByteAt(PatchOf(t, syms, sec, es[k]), i)
    {
      PatchFits(t, syms, sec, es[k]);
      if k < |init| { assert Apart(t, syms, sec, init[k], e) && es[k] == init[k]; }
    }
    forall i | 0 <= i < |sec| && (forall k :: 0 <= k < |es| ==> !Covers(PatchOf(t, syms, sec, es[k]), i))
      ensures r[i] == sec[i]
    {
      assert es[|init|] == e;
      forall k | 0 <= k < |init| ensures !Covers(PatchOf(t, syms, sec, init[k]), i) { assert es[k] == init[k]; }
    }
  }

  // ----- the order of disjoint entries does not matter -----

  lemma {:induction false} TwiceInMultiset<T>(s: seq<T>, j: nat, k: nat)
    requires j < k < |s| && s[j] == s[k]
    ensures multiset(s)[s[j]] >= 2
  {
    assert s == s[..k] + [s[k]] + s[k + 1..];
    assert s[..k][j] == s[j];
  }

  lemma {:induction false} TwoPlaces<T>(s: seq<T>, x: T) returns (j: nat, k: nat)
    requires multiset(s)[x] >= 2
    ensures j < k < |s| && s[j] == x && s[k] == x
    decreases |s|
  {
    var last := |s| - 1;
    assert s == s[..last] + [s[last]];
    if s[last] == x {
      assert x in multiset(s[..last]);
      j :| 0 <= j < last && s[..last][j] == x;
      k := last;
    } else {
      j, k := TwoPlaces(s[..last], x);
    }
  }

  lemma PermutedDisjoint(t: Target, syms: seq<Symbol>, sec: seq<byte>, es: seq<Entry>, es': seq<Entry>)
    requires Disjoint(t, syms, sec, es) && multiset(es) == multiset(es')
    ensures Disjoint(t, syms, sec, es')
  {
    forall j, k | 0 <= j < k < |es'| ensures Apart(t, syms, sec, es'[j], es'[k]) {
      var a, b := es'[j], es'[k];
      if a == b {
        TwiceInMultiset(es', j, k);
        var j', k' := TwoPlaces(es, a);
        assert Apart(t, syms, sec, es[j'], es[k']);
      } else {
        assert a in multiset(es') && b in multiset(es');
        var j' :| 0 <= j' < |es| && es[j'] == a;
        var k' :| 0 <= k' < |es| && es[k'] == b;
        if j' < k' {
          assert Apart(t, syms, sec, es[j'], es[k']);
        } else {
          assert Apart(t, syms, sec, es[k'], es[j']);
        }
      }
    }
  }

  /** Main result: disjoint entries give the same section in every order. */
  lemma OrderIrrelevant(t: Target, syms: seq<Symbol>, sec: seq<byte>, es: seq<Entry>, es': seq<Entry>)
    requires Disjoint(t, syms, sec, es) && multiset(es) == multiset(es')
    ensures ApplyAll(t, syms, sec, es) == ApplyAll(t, syms, sec, es')
  {
    hide PatchOf, Extent;
    PermutedDisjoint(t, syms, sec, es, es');
    DisjointFields(t, syms, sec, es);
    DisjointFields(t, syms, sec, es');
    var r, r' := ApplyAll(t, syms, sec, es), ApplyAll(t, syms, sec, es');
    forall i | 0 <= i < |sec| ensures r[i] == r'[i] {
      if k :| 0 <= k < |es| && Covers(PatchOf(t, syms, sec, es[k]), i) {
        assert es[k] in multiset(es');
        var k' :| 0 <= k' < |es'| && es'[k'] == es[k];
      } else {
        forall k | 0 <= k < |es'| ensures !Covers(PatchOf(t, syms, sec, es'[k]), i) {
          assert es'[k] in multiset(es);
          var k' :| 0 <= k' < |es| && es[k'] == es'[k];
        }
      }
    }
  }

  // ----- what the fields hold -----

  /** The entry is not a ULEB one and passes every check of the loop. */
  predicate Accepted(t: Target, syms: seq<Symbol>, size: nat, e: Entry, k: Kind)
  {
    && !IsUleb(t, e)
    && Classify(t.tables, TypeOf(t, e)) == Some(k)
    && InSection(size, e.offset, k.size) && SymbolOk(syms, e.sym)
  }

  function FieldOf(sec: seq<byte>, e: Entry, n: nat): seq<byte>
    requires e.offset + n <= |sec|
  {
    sec[e.offset..e.offset + n]
  }

  function Written(t: Target, syms: seq<Symbol>, k: Kind, e: Entry, field: seq<byte>): (r: seq<byte>)
    requires e.sym < |syms| && |field| == k.size
    ensures |r| == k.size
  {
    FileBytes(NewValue(t, k, e, syms[e.sym].addr, field), k.size, t.lsb)
  }

  lemma AcceptedPatch(t: Target, syms: seq<Symbol>, sec: seq<byte>, e: Entry, k: Kind)
    requires Accepted(t, syms, |sec|, e, k)
    ensures PatchOf(t, syms, sec, e) == Patch(e.offset, Written(t, syms, k, e, FieldOf(sec, e, k.size)))
  {
    hide NewValue, FileBytes;
  }

  /**
   After disjoint entries the field of each accepted one reads as its formula, modulo
   the size of the field, except a 3-byte big-endian field whose low bytes differ.
   */
  lemma FieldReadsAsFormula(t: Target, syms: seq<Symbol>, sec: seq<byte>, es: seq<Entry>, j: nat, k: Kind)
    requires Disjoint(t, syms, sec, es) && j < |es| && Accepted(t, syms, |sec|, es[j], k)
    ensures var v := NewValue(t, k, es[j], syms[es[j].sym].addr, FieldOf(sec, es[j], k.size));
      ByteGet(FieldOf(ApplyAll(t, syms, sec, es), es[j], k.size), k.size, t.lsb) == v % Pow256(k.size)
      <==> (k.size == 3 && !t.lsb ==> v % 256 == v / 256 % 256)
  {
    hide NewValue, Pow256, ByteGet, FileBytes, PatchOf, Disjoint;
    var e, r := es[j], ApplyAll(t, syms, sec, es);
    FieldIsPatch(t, syms, sec, es, j, k);
    AcceptedPatch(t, syms, sec, e, k);
    GetInvertsPut(NewValue(t, k, e, syms[e.sym].addr, FieldOf(sec, e, k.size)), k.size, t.lsb);
  }

  lemma FieldIsPatch(t: Target, syms: seq<Symbol>, sec: seq<byte>, es: seq<Entry>, j: nat, k: Kind)
    requires Disjoint(t, syms, sec, es) && j < |es| && Accepted(t, syms, |sec|, es[j], k)
    ensures FieldOf(ApplyAll(t, syms, sec, es), es[j], k.size) == PatchOf(t, syms, sec, es[j]).bytes
  {
    hide Written, PatchOf, Disjoint;
    var e, r := es[j], ApplyAll(t, syms, sec, es);
    var p := PatchOf(t, syms, sec, es[j]);
    DisjointFields(t, syms, sec, es);
    AcceptedPatch(t, syms, sec, e, k);
    forall i | 0 <= i < k.size ensures FieldOf(r, e, k.size)[i] == p.bytes[i] {
      assert Covers(PatchOf(t, syms, sec, es[j]), e.offset + i);
      assert r[e.offset + i] == ByteAt(PatchOf(t, syms, sec, es[j]), e.offset + i);
    }
  }

  /** An in-place ADD or SUB of a whole field. */
  predicate PlainInplace(t: Target, e: Entry, k: Kind)
  {
    var ty := TypeOf(t, e);
    k.inplace && !IsSixBit(t.tables, ty) && ty !in t.tables.pcrel32 && ty !in t.tables.pcrel64
  }

  function Signed(k: Kind, sym: word): int { if k.subtract then 0 - sym else 0 + sym }

  function OwnAddend(t: Target, e: Entry): int { if t.rela then e.add else 0 }

  lemma InplaceValue(t: Target, k: Kind, e: Entry, sym: word, field: seq<byte>)
    requires |field| == k.size && PlainInplace(t, e, k)
    ensures NewValue(t, k, e, sym, field) ==
      Wrap(ByteGet(field, k.size, t.lsb) + OwnAddend(t, e) + Signed(k, sym))
  {
    hide ByteGet;
    var x := ByteGet(field, k.size, t.lsb) + OwnAddend(t, e);
    ModAdd(x, Signed(k, sym), WORD_SIZE);
  }

  lemma {:induction false} WordModPow256(x: int, n: nat)
    requires n <= 8
    ensures (x % WORD_SIZE) % Pow256(n) == x % Pow256(n)
  {
    assert Pow256(n) * Pow256(8 - n) == WORD_SIZE by {
      Pow256Add(n, 8 - n);
      assert Pow256(4) == 0x1_0000_0000;
      assert Pow256(8) == WORD_SIZE by { Pow256Add(4, 4); }
    }
    ModOfProduct(x, Pow256(n), Pow256(8 - n));
  }

  lemma {:induction false} Pow256Add(a: nat, b: nat)
    ensures Pow256(a + b) == Pow256(a) * Pow256(b)
    decreases a
  {
    if a > 0 { Pow256Add(a - 1, b); }
  }

  /** Whether the old contents of the field count. */
  predicate CountsOld(t: Target, k: Kind, e: Entry)
  {
    !t.rela || TypeOf(t, e) in t.tables.partialInplace || k.inplace
  }

  predicate IsRelative(t: Target, e: Entry)
  {
    TypeOf(t, e) in t.tables.pcrel32 || TypeOf(t, e) in t.tables.pcrel64
  }

  /** What a field of whole bytes should hold: S + A, S + A - P or A - S, over the integers. */
  function Formula(t: Target, k: Kind, e: Entry, sym: word, field: seq<byte>): int
    requires |field| == k.size
  {
    (if CountsOld(t, k, e) then ByteGet(field, k.size, t.lsb) else 0) + OwnAddend(t, e)
    + if IsRelative(t, e) then sym - e.offset - t.pcBias else Signed(k, sym)
  }

  lemma ValueIsFormula(t: Target, k: Kind, e: Entry, sym: word, field: seq<byte>)
    requires |field| == k.size <= 8 && !IsSixBit(t.tables, TypeOf(t, e))
    ensures NewValue(t, k, e, sym, field) % Pow256(k.size) == Formula(t, k, e, sym, field) % Pow256(k.size)
  {
    hide ByteGet, Pow256, Addend, NewValue, Signed, IsSixBit;
    var a := OwnAddend(t, e) + if CountsOld(t, k, e) then ByteGet(field, k.size, t.lsb) else 0;
    var d := if IsRelative(t, e) then sym - e.offset - t.pcBias else Signed(k, sym);
    AddendWraps(t, k, e, field);
    ValueWraps(t, k, e, sym, field);
    ModAdd(a, d, WORD_SIZE);
    assert NewValue(t, k, e, sym, field) == (a + d) % WORD_SIZE;
    WordModPow256(a + d, k.size);
  }

  lemma AddendWraps(t: Target, k: Kind, e: Entry, field: seq<byte>)
    requires |field| == k.size && !IsSixBit(t.tables, TypeOf(t, e))
    ensures Addend(t, k, e, field) == Wrap(OwnAddend(t, e) + if CountsOld(t, k, e) then ByteGet(field, k.size, t.lsb) else 0)
  {
    hide ByteGet;
  }

  lemma ValueWraps(t: Target, k: Kind, e: Entry, sym: word, field: seq<byte>)
    requires |field| == k.size && !IsSixBit(t.tables, TypeOf(t, e))
    ensures NewValue(t, k, e, sym, field)
      == Wrap(Addend(t, k, e, field) + if IsRelative(t, e) then sym - e.offset - t.pcBias else Signed(k, sym))
  {
    hide Addend, IsSixBit;
  }

  /** After disjoint entries, every accepted whole-byte field but a 3-byte big-endian one reads as its formula. */
  lemma FieldHoldsFormula(t: Target, syms: seq<Symbol>, sec: seq<byte>, es: seq<Entry>, j: nat, k: Kind)
    requires Disjoint(t, syms, sec, es) && j < |es| && Accepted(t, syms, |sec|, es[j], k)
    requires !IsSixBit(t.tables, TypeOf(t, es[j])) && (k.size == 3 ==> t.lsb)
    ensures ByteGet(FieldOf(ApplyAll(t, syms, sec, es), es[j], k.size), k.size, t.lsb)
      == Formula(t, k, es[j], syms[es[j].sym].addr, FieldOf(sec, es[j], k.size)) % Pow256(k.size)
  {
    hide NewValue, Pow256, ByteGet, Formula, Disjoint, ApplyAll;
    FieldReadsAsFormula(t, syms, sec, es, j, k);
    ValueIsFormula(t, k, es[j], syms[es[j].sym].addr, FieldOf(sec, es[j], k.size));
  }

  /** A 6-bit relocation keeps the top two bits of its byte and replaces the other six. */
  lemma SixBitKeepsTop(t: Target, k: Kind, e: Entry, sym: word, field: seq<byte>)
    requires |field| == k.size == 1 && IsSixBit(t.tables, TypeOf(t, e))
    requires TypeOf(t, e) !in t.tables.pcrel32 && TypeOf(t, e) !in t.tables.pcrel64
    ensures var v := NewValue(t, k, e, sym, field);
      && v / 64 == field[0] / 64
      && v % 64 == (Addend(t, k, e, field) + Signed(k, sym)) % 64
  {
    hide And, Or, Addend, ByteGet, IsSixBit;
    var a := Addend(t, k, e, field);
    var x := if k.subtract then a - sym else a + sym;
    OneByteField(field, t.lsb);
    assert NewValue(t, k, e, sym, field) == Wrap(Or(And(Wrap(x), 0x3f), And(field[0], 0xc0)));
    SixBits(x, field[0]);
  }

  /** Six bits of a number under the top two of a byte. */
  lemma SixBits(x: int, b: byte)
    ensures var v := Wrap(Or(And(Wrap(x), 0x3f), And(b, 0xc0)));
      v / 64 == b / 64 && v % 64 == x % 64
  {
    hide And, Or;
    And63(Wrap(x));
    And192(b);
    OrHigh(Wrap(x) % 64, b / 64);
    ModOfProduct(x, 64, 0x400_0000_0000_0000);
  }

  /**
   After disjoint entries the byte of a 6-bit relocation has its old top two bits, and
   in the other six S + A or A - S, where A takes in the old bits if they count.
   */
  lemma SixBitField(t: Target, syms: seq<Symbol>, sec: seq<byte>, es: seq<Entry>, j: nat, k: Kind)
    requires Disjoint(t, syms, sec, es) && j < |es| && Accepted(t, syms, |sec|, es[j], k)
    requires k.size == 1 && IsSixBit(t.tables, TypeOf(t, es[j])) && !IsRelative(t, es[j])
    ensures var e := es[j];
      var old0, new0 := sec[e.offset], ApplyAll(t, syms, sec, es)[e.offset];
      && new0 / 64 == old0 / 64
      && new0 % 64
         == (OwnAddend(t, e) + (if CountsOld(t, k, e) then old0 else 0) + Signed(k, syms[e.sym].addr)) % 64
  {
    hide NewValue, Pow256, ByteGet, Disjoint, ApplyAll, Addend, FileBytes;
    var e, r := es[j], ApplyAll(t, syms, sec, es);
    var field, sym := FieldOf(sec, e, 1), syms[e.sym].addr;
    FieldReadsAsFormula(t, syms, sec, es, j, k);
    SixBitKeepsTop(t, k, e, sym, field);
    OneByteField(field, t.lsb);
    OneByteField(FieldOf(r, e, 1), t.lsb);
    ByteModulo(NewValue(t, k, e, sym, field), field[0]);
    SixBitAddend(t, k, e, field, Signed(k, sym));
  }

  lemma ByteModulo(v: nat, b: byte)
    requires v / 64 == b / 64
    ensures v % Pow256(1) == v
  {
    assert Pow256(1) == 256;
  }

  /** Masking the old bits or wrapping the addend does not show in the low six bits. */
  lemma SixBitAddend(t: Target, k: Kind, e: Entry, field: seq<byte>, d: int)
    requires |field| == k.size == 1
    ensures (Addend(t, k, e, field) + d) % 64
      == (OwnAddend(t, e) + (if CountsOld(t, k, e) then field[0] else 0) + d) % 64
  {
    hide And, ByteGet;
    var old0 := ByteGet(field, 1, t.lsb);
    OneByteField(field, t.lsb);
    And63(old0);
    var part := if CountsOld(t, k, e) then (if TypeOf(t, e) in t.tables.sub6 then old0 % 64 else old0) else 0;
    var a := OwnAddend(t, e) + part;
    assert Addend(t, k, e, field) == Wrap(a);
    WrapLowBits(a, d);
    if part != 0 { LowBits(OwnAddend(t, e) + d, old0); }
  }

  lemma WrapLowBits(a: int, d: int)
    ensures (Wrap(a) + d) % 64 == (a + d) % 64
  {
  }

  lemma LowBits(x: int, y: nat)
    ensures (x + y % 64) % 64 == (x + y) % 64
  {
  }

  lemma OneByteField(field: seq<byte>, lsb: bool)
    requires |field| == 1
    ensures ByteGet(field, 1, lsb) == field[0]
  {
    assert field[..1] == field == [field[0]];
    assert field[1..] == [];
    assert Reverse(field) == Reverse([]) + [field[0]] == field;
    assert LeValue(field) == field[0] + 256 * LeValue([]);
  }

  lemma And63(a: nat)
    ensures And(a, 0x3f) == a % 64
  {
    AndMask(a, 6);
    assert Pow2(6) == 64;
  }

  lemma And192(b: byte)
    ensures And(b, 0xc0) == (b / 64) * 64
  {
    hide And;
    AndEven(b, 0x60);
    AndEven(b / 2, 0x30);
    AndEven(b / 4, 0x18);
    AndEven(b / 8, 0x0c);
    AndEven(b / 16, 0x06);
    AndEven(b / 32, 0x03);
    And3(b / 64);
  }

  lemma And3(a: nat)
    ensures And(a, 3) == a % 4
  {
    AndMask(a, 2);
    assert Pow2(2) == 4;
  }

  lemma OrHigh(low: nat, high: nat)
    requires low < 64
    ensures Or(low, high * 64) == low + high * 64
  {
    OrDisjoint(low, high, 6);
    assert Pow2(6) == 64;
  }

  // ----- the loop -----

  class Relocator {
    const target: Target
    const symbols: seq<Symbol>
    var applyTo: array<byte>

    constructor (t: Target, syms: seq<Symbol>, data: array<byte>)
      ensures target == t && symbols == syms && applyTo == data
    {
      target, symbols, applyTo := t, syms, data;
    }

    function Addresses(): (r: seq<word>)
      ensures |r| == |symbols| && forall k :: 0 <= k < |r| ==> r[k] == symbols[k].addr
    {
      seq(|symbols|, k requires 0 <= k < |symbols| => symbols[k].addr)
    }

    /** Applies one entry; unsupported types and bad offsets or symbols leave the section alone. */
    method ApplyEntry(e: Entry)
      modifies applyTo
      ensures applyTo[..] == Splice(old(applyTo[..]), PatchOf(target, symbols, old(applyTo[..]), e))
    {
      hide NewValue, FileBytes, FieldLength, FieldValue, Encode, LebBytes, Classify, Rewrite;
      ghost var sec := applyTo[..];
      PatchFits(target, symbols, sec, e);
      if IsUleb(target, e) {
        RewriteInPlace(applyTo, e.offset, Addresses(), e.sym, e.rtype == LARCH_SUB_ULEB128, e.add);
        RewriteIsPatch(target, symbols, sec, e);
        return;
      }
      var kind := Classify(target.tables, TypeOf(target, e));
      if kind.None? { return; }
      var k := kind.value;
      if !InSection(applyTo.Length, e.offset, k.size) { return; }
      if !SymbolOk(symbols, e.sym) { return; }
      var field := applyTo[e.offset..e.offset + k.size];
      BytePut(applyTo, e.offset, NewValue(target, k, e, symbols[e.sym].addr, field), k.size, target.lsb);
      assert field == sec[e.offset..e.offset + k.size];
    }

    method ApplyDebugRelocs(entries: seq<Entry>)
      modifies applyTo
      ensures applyTo[..] == ApplyAll(target, symbols, old(applyTo[..]), entries)
    {
      for i := 0 to |entries|
        invariant applyTo[..] == ApplyAll(target, symbols, old(applyTo[..]), entries[..i])
      {
        ApplyEntry(entries[i]);
        assert entries[..i + 1][..i] == entries[..i];
      }
      assert entries[..|entries|] == entries;
    }
  }

  lemma RewriteIsPatch(t: Target, syms: seq<Symbol>, sec: seq<byte>, e: Entry)
    requires IsUleb(t, e)
    ensures Splice(sec, PatchOf(t, syms, sec, e)) ==
      if e.sym < |syms| then Rewrite(sec, e.offset, UlebDelta(syms, e)) else sec
  {
    hide Encode, LebBytes;
    PatchFits(t, syms, sec, e);
  }
}
