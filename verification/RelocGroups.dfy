/**
 In-place relocations that meet on a field: their effects add up, so a section with
 any number of ADD and SUB entries on shared fields does not depend on their order.
 */
module RelocGroups {
  import opened Bytes
  import opened Bits
  import opened FieldBytes
  import UlebField
  import opened Reloc

  // ----- additive entries -----

  /** An accepted in-place ADD or SUB, of a whole field or of the low six bits of a byte. */
  predicate Additive(t: Target, syms: seq<Symbol>, size: nat, e: Entry)
  {
    match Classify(t.tables, TypeOf(t, e))
    case None => false
    case Some(k) =>
      Accepted(t, syms, size, e, k) && k.inplace && !IsRelative(t, e) && (IsSixBit(t.tables, TypeOf(t, e)) ==> k.size == 1)
  }

  function KindOf(t: Target, e: Entry): Kind
    requires Classify(t.tables, TypeOf(t, e)).Some?
  {
    Classify(t.tables, TypeOf(t, e)).value
  }

  function Six(t: Target, e: Entry): bool { IsSixBit(t.tables, TypeOf(t, e)) }

  /** What an additive entry adds to its field. */
  function Delta(t: Target, syms: seq<Symbol>, size: nat, e: Entry): int
    requires Additive(t, syms, size, e)
  {
    OwnAddend(t, e) + Signed(KindOf(t, e), syms[e.sym].addr)
  }

  predicate IsWidth(n: nat) { n == 1 || n == 2 || n == 4 || n == 8 }

  /** An additive entry's field is in the section and has a proper width. */
  predicate InplaceFits(t: Target, syms: seq<Symbol>, size: nat, e: Entry)
  {
    Additive(t, syms, size, e) && e.offset + KindOf(t, e).size <= size && IsWidth(KindOf(t, e).size)
    && (Six(t, e) ==> KindOf(t, e).size == 1)
  }

  lemma InplaceWidth(t: Target, syms: seq<Symbol>, size: nat, e: Entry)
    requires Additive(t, syms, size, e)
    ensures InplaceFits(t, syms, size, e) && !IsUleb(t, e)
    ensures CountsOld(t, KindOf(t, e), e)
  {
  }

  /** A field with an amount added to it, or to its low six bits. */
  function Updated(lsb: bool, six: bool, field: seq<byte>, d: int): (r: seq<byte>)
    requires IsWidth(|field|) && (six ==> |field| == 1)
    ensures |r| == |field|
  {
    if six then [field[0] / 64 * 64 + (field[0] + d) % 64]
    else FileBytes((ByteGet(field, |field|, lsb) + d) % WORD_SIZE, |field|, lsb)
  }

  /** Only the low bytes of a number are written. */
  lemma FileBytesModulo(v: nat, w: nat, n: nat, lsb: bool)
    requires v % Pow256(n) == w % Pow256(n)
    ensures FileBytes(v, n, lsb) == FileBytes(w, n, lsb)
  {
    LeBytesModulo(v, w, n);
  }

  lemma {:induction false} LeBytesModulo(v: nat, w: nat, n: nat)
    requires v % Pow256(n) == w % Pow256(n)
    ensures LeBytes(v, n) == LeBytes(w, n)
    decreases n
  {
    if n > 0 {
      ModBy256(v, Pow256(n - 1));
      ModBy256(w, Pow256(n - 1));
      LeBytesModulo(v / 256, w / 256, n - 1);
    }
  }

  /** Adding twice is adding the sum. */
  lemma UpdatedTwice(lsb: bool, six: bool, field: seq<byte>, d1: int, d2: int)
    requires IsWidth(|field|) && (six ==> |field| == 1)
    ensures Updated(lsb, six, Updated(lsb, six, field, d1), d2) == Updated(lsb, six, field, d1 + d2)
  {
    hide FileBytes, ByteGet;
    if six { SixTwice(field[0], d1, d2); } else { AddedTwice(lsb, field, d1, d2); }
  }

  lemma AddedTwice(lsb: bool, field: seq<byte>, d1: int, d2: int)
    requires IsWidth(|field|)
    ensures Updated(lsb, false, Updated(lsb, false, field, d1), d2) == Updated(lsb, false, field, d1 + d2)
  {
    hide Pow256, ByteGet, FileBytes;
    var n := |field|;
    var v, x := ByteGet(field, n, lsb), ByteGet(field, n, lsb) + d1;
    var f1 := FileBytes(x % WORD_SIZE, n, lsb);
    GetInvertsPut(x % WORD_SIZE, n, lsb);
    WordModPow256(x, n);
    assert ByteGet(f1, n, lsb) == x % Pow256(n);
    UlebField.ModAdd(x, d2, Pow256(n));
    WordModPow256(x % Pow256(n) + d2, n);
    WordModPow256(v + (d1 + d2), n);
    FileBytesModulo((ByteGet(f1, n, lsb) + d2) % WORD_SIZE, (v + (d1 + d2)) % WORD_SIZE, n, lsb);
  }

  lemma SixTwice(b: byte, d1: int, d2: int)
    ensures var c := b / 64 * 64 + (b + d1) % 64;
      c / 64 * 64 + (c + d2) % 64 == b / 64 * 64 + (b + (d1 + d2)) % 64
  {
    var c := b / 64 * 64 + (b + d1) % 64;
    assert c / 64 == b / 64;
    UlebField.ModAdd(b + d1, d2, 64);
    AddSixtyFours(b / 64, (b + d1) % 64 + d2);
  }

  lemma AddSixtyFours(k: int, x: int)
    ensures (k * 64 + x) % 64 == x % 64
  {
  }

  /** An additive entry writes its field with its amount added. */
  lemma AdditiveWrites(t: Target, syms: seq<Symbol>, size: nat, e: Entry, field: seq<byte>)
    requires Additive(t, syms, size, e) && |field| == KindOf(t, e).size
    ensures IsWidth(|field|)
    ensures Written(t, syms, KindOf(t, e), e, field) == Updated(t.lsb, Six(t, e), field, Delta(t, syms, size, e))
  {
    hide ByteGet, FileBytes, Updated, Written, Delta, Classify;
    InplaceWidth(t, syms, size, e);
    if Six(t, e) { SixWrites(t, syms, size, e, field); } else { FieldWrites(t, syms, size, e, field); }
  }

  lemma SixWrites(t: Target, syms: seq<Symbol>, size: nat, e: Entry, field: seq<byte>)
    requires Additive(t, syms, size, e) && Six(t, e) && |field| == KindOf(t, e).size == 1
    ensures Written(t, syms, KindOf(t, e), e, field) == Updated(t.lsb, true, field, Delta(t, syms, size, e))
  {
    hide ByteGet, FileBytes, NewValue, Addend, Classify;
    var k, sym := KindOf(t, e), syms[e.sym].addr;
    InplaceWidth(t, syms, size, e);
    SixBitKeepsTop(t, k, e, sym, field);
    SixBitAddend(t, k, e, field, Signed(k, sym));
    OneByteWritten(NewValue(t, k, e, sym, field), t.lsb);
  }

  lemma FieldWrites(t: Target, syms: seq<Symbol>, size: nat, e: Entry, field: seq<byte>)
    requires Additive(t, syms, size, e) && !Six(t, e) && |field| == KindOf(t, e).size && IsWidth(|field|)
    ensures Written(t, syms, KindOf(t, e), e, field) == Updated(t.lsb, false, field, Delta(t, syms, size, e))
  {
    hide ByteGet, FileBytes, NewValue, Addend, Classify, IsSixBit;
    InplaceValue(t, KindOf(t, e), e, syms[e.sym].addr, field);
  }

  lemma OneByteWritten(v: nat, lsb: bool)
    ensures FileBytes(v, 1, lsb) == [v % 256]
  {
    assert LeBytes(v, 1) == [v % 256] + LeBytes(v / 256, 0) == [v % 256];
    assert Reverse([v % 256]) == Reverse([]) + [v % 256] by { assert [v % 256][1..] == []; }
  }

  // ----- sums -----

  /** What an entry adds to the field at an offset. */
  function Share(t: Target, syms: seq<Symbol>, size: nat, e: Entry, at: nat): int
  {
    if Additive(t, syms, size, e) && e.offset == at then Delta(t, syms, size, e) else 0
  }

  /** The sum of what the entries add at an offset. */
  function Sum(t: Target, syms: seq<Symbol>, size: nat, es: seq<Entry>, at: nat): int
  {
    if es == [] then 0 else Sum(t, syms, size, es[..|es| - 1], at) + Share(t, syms, size, es[|es| - 1], at)
  }

  lemma SumSnoc(t: Target, syms: seq<Symbol>, size: nat, es: seq<Entry>, e: Entry, at: nat)
    ensures Sum(t, syms, size, es + [e], at) == Sum(t, syms, size, es, at) + Share(t, syms, size, e, at)
  {
    hide Additive, Delta;
    assert (es + [e])[..|es|] == es;
  }

  /** Taking an entry out takes its share out. */
  lemma {:induction false} SumWithout(t: Target, syms: seq<Symbol>, size: nat, es: seq<Entry>, j: nat, at: nat)
    requires j < |es|
    ensures Sum(t, syms, size, es, at) == Sum(t, syms, size, es[..j] + es[j + 1..], at) + Share(t, syms, size, es[j], at)
    decreases |es|
  {
    hide Additive, Delta, Share, Sum;
    var init, e := es[..|es| - 1], es[|es| - 1];
    assert init + [e] == es;
    SumSnoc(t, syms, size, init, e, at);
    if j < |es| - 1 {
      SumWithout(t, syms, size, init, j, at);
      assert es[..j] + es[j + 1..] == (init[..j] + init[j + 1..]) + [e];
      SumSnoc(t, syms, size, init[..j] + init[j + 1..], e, at);
    } else {
      assert es[..j] + es[j + 1..] == init;
    }
  }

  lemma SameRest<T>(xs: seq<T>, init: seq<T>, ys: seq<T>, j: nat)
    requires j < |ys| && xs == init + [ys[j]] && multiset(xs) == multiset(ys)
    ensures multiset(ys[..j] + ys[j + 1..]) == multiset(init)
  {
    assert ys == ys[..j] + [ys[j]] + ys[j + 1..];
    assert multiset(init) == multiset(xs) - multiset{ys[j]};
    assert multiset(ys[..j] + ys[j + 1..]) == multiset(ys[..j]) + multiset(ys[j + 1..]) == multiset(ys) - multiset{ys[j]};
  }

  lemma {:induction false} SumPermuted(t: Target, syms: seq<Symbol>, size: nat, xs: seq<Entry>, ys: seq<Entry>, at: nat)
    requires multiset(xs) == multiset(ys)
    ensures Sum(t, syms, size, xs, at) == Sum(t, syms, size, ys, at)
    decreases |xs|
  {
    hide Additive, Delta, Share, Sum;
    if xs == [] {
      assert |multiset(ys)| == 0;
      assert ys == [];
    } else {
      var init, e := xs[..|xs| - 1], xs[|xs| - 1];
      assert xs == init + [e];
      assert e in multiset(ys);
      var j :| 0 <= j < |ys| && ys[j] == e;
      var rest := ys[..j] + ys[j + 1..];
      SameRest(xs, init, ys, j);
      SumPermuted(t, syms, size, init, rest, at);
      SumSnoc(t, syms, size, init, e, at);
      SumWithout(t, syms, size, ys, j, at);
    }
  }

  // ----- entries that are apart or meet on a field -----

  /** Two additive entries of one width on one field. */
  predicate Meet(t: Target, syms: seq<Symbol>, size: nat, a: Entry, b: Entry)
  {
    && Additive(t, syms, size, a) && Additive(t, syms, size, b)
    && a.offset == b.offset && KindOf(t, a).size == KindOf(t, b).size && Six(t, a) == Six(t, b)
  }

  predicate Compatible(t: Target, syms: seq<Symbol>, sec: seq<byte>, a: Entry, b: Entry)
  {
    Apart(t, syms, sec, a, b) || Meet(t, syms, |sec|, a, b)
  }

  ghost predicate Grouped(t: Target, syms: seq<Symbol>, sec: seq<byte>, es: seq<Entry>)
  {
    forall j, k :: 0 <= j < k < |es| ==> Compatible(t, syms, sec, es[j], es[k])
  }

  /** What an entry's bytes hold in the end: the sum of its group, or what it alone writes. */
  function GroupPatch(t: Target, syms: seq<Symbol>, sec: seq<byte>, es: seq<Entry>, e: Entry): Patch
  {
    if Additive(t, syms, |sec|, e) then
      InplaceWidth(t, syms, |sec|, e);
      var field := FieldOf(sec, e, KindOf(t, e).size);
      Patch(e.offset, Updated(t.lsb, Six(t, e), field, Sum(t, syms, |sec|, es, e.offset)))
    else PatchOf(t, syms, sec, e)
  }

  ghost predicate HoldsGroups(t: Target, syms: seq<Symbol>, sec: seq<byte>, es: seq<Entry>, r: seq<byte>)
  {
    && |r| == |sec|
    && (forall k, i :: 0 <= k < |es| && 0 <= i < |sec| && Covers(GroupPatch(t, syms, sec, es, es[k]), i) ==>
          r[i] == ByteAt(GroupPatch(t, syms, sec, es, es[k]), i))
    && forall i :: 0 <= i < |sec| && (forall k :: 0 <= k < |es| ==> !Covers(GroupPatch(t, syms, sec, es, es[k]), i)) ==>
         r[i] == sec[i]
  }

  /** The bytes of an entry lie in its extent, whatever the group. */
  lemma GroupFits(t: Target, syms: seq<Symbol>, sec: seq<byte>, es: seq<Entry>, e: Entry)
    ensures var p, n := GroupPatch(t, syms, sec, es, e), Extent(t, syms, sec, e);
      && p.at == e.offset && |p.bytes| <= n
      && |p.bytes| == |PatchOf(t, syms, sec, e).bytes|
      && (n > 0 ==> e.offset + n <= |sec|)
      && (Additive(t, syms, |sec|, e) ==> |p.bytes| == n == KindOf(t, e).size > 0)
  {
    hide NewValue, FileBytes, Classify, Sum, Updated, Six;
    PatchFits(t, syms, sec, e);
    if Additive(t, syms, |sec|, e) {
      InplaceWidth(t, syms, |sec|, e);
      AcceptedPatch(t, syms, sec, e, KindOf(t, e));
    }
  }

  /** An entry that is not additive, or adds at another offset, leaves a group alone. */
  lemma GroupSame(t: Target, syms: seq<Symbol>, sec: seq<byte>, init: seq<Entry>, e: Entry, other: Entry)
    requires !(Additive(t, syms, |sec|, e) && Additive(t, syms, |sec|, other) && e.offset == other.offset)
    ensures GroupPatch(t, syms, sec, init + [e], other) == GroupPatch(t, syms, sec, init, other)
  {
    hide Additive, Updated, Delta, Sum, PatchOf;
    SumSnoc(t, syms, |sec|, init, e, other.offset);
  }

  /** Where e meets an earlier entry, the field holds the earlier entries' sum. */
  lemma HeldField(t: Target, syms: seq<Symbol>, sec: seq<byte>, init: seq<Entry>, before: seq<byte>, j: nat, e: Entry)
    requires HoldsGroups(t, syms, sec, init, before) && j < |init| && Meet(t, syms, |sec|, init[j], e)
    ensures InplaceFits(t, syms, |sec|, e)
    ensures FieldOf(before, e, KindOf(t, e).size) == GroupPatch(t, syms, sec, init, e).bytes
  {
    hide NewValue, Classify, Sum, Updated, Six, Accepted;
    InplaceWidth(t, syms, |sec|, e);
    var p, n := GroupPatch(t, syms, sec, init, init[j]), KindOf(t, e).size;
    assert p == GroupPatch(t, syms, sec, init, e);
    forall i | 0 <= i < n ensures FieldOf(before, e, n)[i] == p.bytes[i] {
      assert Covers(GroupPatch(t, syms, sec, init, init[j]), e.offset + i);
      assert before[e.offset + i] == ByteAt(GroupPatch(t, syms, sec, init, init[j]), e.offset + i);
    }
  }

  /** The patch of an additive entry adds to what its field holds. */
  lemma AdditivePatch(t: Target, syms: seq<Symbol>, sec: seq<byte>, before: seq<byte>, e: Entry)
    requires Additive(t, syms, |sec|, e) && |before| == |sec|
    ensures InplaceFits(t, syms, |sec|, e)
    ensures PatchOf(t, syms, before, e)
      == Patch(e.offset, Updated(t.lsb, Six(t, e), FieldOf(before, e, KindOf(t, e).size), Delta(t, syms, |sec|, e)))
  {
    hide NewValue, FileBytes, Updated, Delta, PatchOf, Written, Classify;
    InplaceWidth(t, syms, |sec|, e);
    AcceptedPatch(t, syms, before, e, KindOf(t, e));
    AdditiveWrites(t, syms, |sec|, e, FieldOf(before, e, KindOf(t, e).size));
  }

  /** Where e meets an earlier entry, its patch is the new sum of the group. */
  lemma PatchMeets(t: Target, syms: seq<Symbol>, sec: seq<byte>, init: seq<Entry>, before: seq<byte>, j: nat, e: Entry)
    requires |before| == |sec| && HoldsGroups(t, syms, sec, init, before)
    requires j < |init| && Meet(t, syms, |sec|, init[j], e)
    ensures PatchOf(t, syms, before, e) == GroupPatch(t, syms, sec, init + [e], e)
  {
    hide Updated, Delta, PatchOf, Sum, HoldsGroups, Classify, Six;
    HeldField(t, syms, sec, init, before, j, e);
    AdditivePatch(t, syms, sec, before, e);
    SumSnoc(t, syms, |sec|, init, e, e.offset);
    assert Share(t, syms, |sec|, e, e.offset) == Delta(t, syms, |sec|, e);
    UpdatedTwice(t.lsb, Six(t, e), FieldOf(sec, e, KindOf(t, e).size), Sum(t, syms, |sec|, init, e.offset), Delta(t, syms, |sec|, e));
  }

  /** Two additive entries on one offset are not apart. */
  lemma ApartOffsets(t: Target, syms: seq<Symbol>, sec: seq<byte>, a: Entry, b: Entry)
    requires Apart(t, syms, sec, a, b)
    ensures !(Additive(t, syms, |sec|, a) && Additive(t, syms, |sec|, b) && a.offset == b.offset)
  {
    hide Additive, GroupPatch, PatchOf, Extent;
    GroupFits(t, syms, sec, [], a);
    GroupFits(t, syms, sec, [], b);
  }

  /** Apart entries do not cover each other's extents. */
  lemma ApartBytes(t: Target, syms: seq<Symbol>, sec: seq<byte>, es: seq<Entry>, a: Entry, b: Entry, i: int)
    requires Apart(t, syms, sec, a, b) && Covers(GroupPatch(t, syms, sec, es, a), i)
    ensures !(b.offset <= i < b.offset + Extent(t, syms, sec, b))
  {
    hide Additive, GroupPatch, PatchOf, Extent;
    GroupFits(t, syms, sec, es, a);
  }

  lemma {:induction false} NoShare(t: Target, syms: seq<Symbol>, sec: seq<byte>, init: seq<Entry>, e: Entry)
    requires Additive(t, syms, |sec|, e) && forall j :: 0 <= j < |init| ==> Apart(t, syms, sec, init[j], e)
    ensures Sum(t, syms, |sec|, init, e.offset) == 0
    decreases |init|
  {
    hide Additive, Delta, Apart;
    if init != [] {
      ApartOffsets(t, syms, sec, init[|init| - 1], e);
      NoShare(t, syms, sec, init[..|init| - 1], e);
    }
  }

  /** Where e is apart from all earlier entries, its patch is what it alone writes. */
  lemma PatchApart(t: Target, syms: seq<Symbol>, sec: seq<byte>, init: seq<Entry>, before: seq<byte>, e: Entry)
    requires HoldsGroups(t, syms, sec, init, before)
    requires forall j :: 0 <= j < |init| ==> Apart(t, syms, sec, init[j], e)
    ensures PatchOf(t, syms, before, e) == GroupPatch(t, syms, sec, init + [e], e)
  {
    hide Additive, PatchOf, Extent, Apart, Updated, Delta, Sum, Classify;
    var n := Extent(t, syms, sec, e);
    GroupFits(t, syms, sec, init, e);
    if n > 0 {
      forall i | e.offset <= i < e.offset + n ensures before[i] == sec[i] {
        forall k | 0 <= k < |init| ensures !Covers(GroupPatch(t, syms, sec, init, init[k]), i) {
          if Covers(GroupPatch(t, syms, sec, init, init[k]), i) { ApartBytes(t, syms, sec, init, init[k], e, i); }
        }
      }
      assert sec[e.offset..e.offset + n] == before[e.offset..e.offset + n];
    }
    Locality(t, syms, sec, before, e);
    if Additive(t, syms, |sec|, e) {
      AdditivePatch(t, syms, sec, sec, e);
      NoShare(t, syms, sec, init, e);
      SumSnoc(t, syms, |sec|, init, e, e.offset);
    }
  }

  /** After one more entry the groups hold, with its share in its own. */
  lemma GroupStep(t: Target, syms: seq<Symbol>, sec: seq<byte>, init: seq<Entry>, before: seq<byte>, e: Entry)
    requires HoldsGroups(t, syms, sec, init, before)
    requires forall j :: 0 <= j < |init| ==> Compatible(t, syms, sec, init[j], e)
    ensures HoldsGroups(t, syms, sec, init + [e], Splice(before, PatchOf(t, syms, before, e)))
  {
    hide Additive, PatchOf, Extent, Apart, Updated, Delta, Sum, GroupPatch, Meet;
    var es, p := init + [e], PatchOf(t, syms, before, e);
    var r := Splice(before, p);
    if j :| 0 <= j < |init| && Meet(t, syms, |sec|, init[j], e) {
      PatchMeets(t, syms, sec, init, before, j, e);
    } else {
      PatchApart(t, syms, sec, init, before, e);
    }
    GroupFits(t, syms, sec, es, e);
    assert forall i :: 0 <= i < |sec| ==> r[i] == if Covers(p, i) then ByteAt(p, i) else before[i];
    forall k | 0 <= k < |init|
      ensures GroupPatch(t, syms, sec, es, init[k]) == p
        || (GroupPatch(t, syms, sec, es, init[k]) == GroupPatch(t, syms, sec, init, init[k])
            && forall i :: Covers(GroupPatch(t, syms, sec, init, init[k]), i) ==> !Covers(p, i))
    {
      EarlierGroup(t, syms, sec, init, e, init[k]);
    }
    forall k, i | 0 <= k < |es| && 0 <= i < |sec| && Covers(GroupPatch(t, syms, sec, es, es[k]), i)
      ensures r[i] == ByteAt(GroupPatch(t, syms, sec, es, es[k]), i)
    {
      if k < |init| { assert es[k] == init[k]; }
    }
    forall i | 0 <= i < |sec| && (forall k :: 0 <= k < |es| ==> !Covers(GroupPatch(t, syms, sec, es, es[k]), i))
      ensures r[i] == sec[i]
    {
      assert es[|init|] == e;
      forall k | 0 <= k < |init| ensures !Covers(GroupPatch(t, syms, sec, init, init[k]), i) {
        assert es[k] == init[k];
        SameCover(t, syms, sec, init, es, init[k], i);
      }
    }
  }

  /** An earlier entry's group is the new entry's, or is untouched by it. */
  lemma EarlierGroup(t: Target, syms: seq<Symbol>, sec: seq<byte>, init: seq<Entry>, e: Entry, other: Entry)
    requires Compatible(t, syms, sec, other, e)
    ensures var es := init + [e];
      var p, q := GroupPatch(t, syms, sec, es, e), GroupPatch(t, syms, sec, es, other);
      q == p || (q == GroupPatch(t, syms, sec, init, other) && forall i :: Covers(q, i) ==> !Covers(p, i))
  {
    hide Additive, PatchOf, Extent, Updated, Delta, Sum, Classify;
    var es := init + [e];
    if Meet(t, syms, |sec|, other, e) {
      assert GroupPatch(t, syms, sec, es, e) == GroupPatch(t, syms, sec, es, other);
    } else {
      ApartOffsets(t, syms, sec, other, e);
      GroupSame(t, syms, sec, init, e, other);
      GroupFits(t, syms, sec, es, e);
      forall i | Covers(GroupPatch(t, syms, sec, es, other), i) ensures !Covers(GroupPatch(t, syms, sec, es, e), i) {
        ApartBytes(t, syms, sec, es, other, e, i);
      }
    }
  }

  lemma SameCover(t: Target, syms: seq<Symbol>, sec: seq<byte>, xs: seq<Entry>, ys: seq<Entry>, e: Entry, i: int)
    ensures Covers(GroupPatch(t, syms, sec, xs, e), i) <==> Covers(GroupPatch(t, syms, sec, ys, e), i)
  {
    hide Additive, PatchOf, Extent, GroupPatch;
    GroupFits(t, syms, sec, xs, e);
    GroupFits(t, syms, sec, ys, e);
  }

  /**
   Where any two entries are apart or meet on a field, each field holds in the end its
   old number plus the sum of its own entries, each other entry's bytes what it alone
   writes, and every other byte is unchanged.
   */
  lemma {:induction false} GroupsHold(t: Target, syms: seq<Symbol>, sec: seq<byte>, es: seq<Entry>)
    requires Grouped(t, syms, sec, es)
    ensures HoldsGroups(t, syms, sec, es, ApplyAll(t, syms, sec, es))
    decreases |es|
  {
    hide PatchOf, Compatible, GroupPatch, Extent;
    if es != [] {
      var init, e := es[..|es| - 1], es[|es| - 1];
      forall j, k | 0 <= j < k < |init| ensures Compatible(t, syms, sec, init[j], init[k]) {
        assert Compatible(t, syms, sec, es[j], es[k]);
      }
      forall j | 0 <= j < |init| ensures Compatible(t, syms, sec, init[j], e) {
        assert Compatible(t, syms, sec, es[j], es[|es| - 1]);
      }
      GroupsHold(t, syms, sec, init);
      GroupStep(t, syms, sec, init, ApplyAll(t, syms, sec, init), e);
      assert init + [e] == es;
    }
  }

  // ----- the order does not matter -----

  lemma PermutedGrouped(t: Target, syms: seq<Symbol>, sec: seq<byte>, es: seq<Entry>, es': seq<Entry>)
    requires Grouped(t, syms, sec, es) && multiset(es) == multiset(es')
    ensures Grouped(t, syms, sec, es')
  {
    hide Additive, Extent;
    forall j, k | 0 <= j < k < |es'| ensures Compatible(t, syms, sec, es'[j], es'[k]) {
      var a, b := es'[j], es'[k];
      if a == b {
        TwiceInMultiset(es', j, k);
        var j', k' := TwoPlaces(es, a);
        assert Compatible(t, syms, sec, es[j'], es[k']);
      } else {
        assert a in multiset(es') && b in multiset(es');
        var j' :| 0 <= j' < |es| && es[j'] == a;
        var k' :| 0 <= k' < |es| && es[k'] == b;
        assert Compatible(t, syms, sec, es[if j' < k' then j' else k'], es[if j' < k' then k' else j']);
      }
    }
  }

  lemma GroupPermuted(t: Target, syms: seq<Symbol>, sec: seq<byte>, es: seq<Entry>, es': seq<Entry>, e: Entry)
    requires multiset(es) == multiset(es')
    ensures GroupPatch(t, syms, sec, es, e) == GroupPatch(t, syms, sec, es', e)
  {
    hide Additive, Updated, Sum, PatchOf;
    SumPermuted(t, syms, |sec|, es, es', e.offset);
  }

  /** Main result: entries that are apart or meet give the same section in every order. */
  lemma GroupedOrderIrrelevant(t: Target, syms: seq<Symbol>, sec: seq<byte>, es: seq<Entry>, es': seq<Entry>)
    requires Grouped(t, syms, sec, es) && multiset(es) == multiset(es')
    ensures ApplyAll(t, syms, sec, es) == ApplyAll(t, syms, sec, es')
  {
    hide GroupPatch, Grouped, ApplyAll;
    PermutedGrouped(t, syms, sec, es, es');
    GroupsHold(t, syms, sec, es);
    GroupsHold(t, syms, sec, es');
    var r, r' := ApplyAll(t, syms, sec, es), ApplyAll(t, syms, sec, es');
    forall i | 0 <= i < |sec| ensures r[i] == r'[i] {
      if k :| 0 <= k < |es| && Covers(GroupPatch(t, syms, sec, es, es[k]), i) {
        assert es[k] in multiset(es');
        var k' :| 0 <= k' < |es'| && es'[k'] == es[k];
        GroupPermuted(t, syms, sec, es, es', es[k]);
      } else {
        forall k | 0 <= k < |es'| ensures !Covers(GroupPatch(t, syms, sec, es', es'[k]), i) {
          assert es'[k] in multiset(es);
          var k' :| 0 <= k' < |es| && es[k'] == es'[k];
          GroupPermuted(t, syms, sec, es, es', es'[k]);
        }
      }
    }
  }

  /** Main result: a field that additive entries meet on reads as its old number plus their sum. */
  lemma FieldIsSum(t: Target, syms: seq<Symbol>, sec: seq<byte>, es: seq<Entry>, j: nat)
    requires Grouped(t, syms, sec, es) && j < |es| && Additive(t, syms, |sec|, es[j])
    ensures InplaceFits(t, syms, |sec|, es[j])
    ensures var e, n, sum := es[j], KindOf(t, es[j]).size, Sum(t, syms, |sec|, es, es[j].offset);
      var old0, new0 := FieldOf(sec, e, n), FieldOf(ApplyAll(t, syms, sec, es), e, n);
      if Six(t, e) then new0[0] / 64 == old0[0] / 64 && new0[0] % 64 == (old0[0] + sum) % 64
      else ByteGet(new0, n, t.lsb) == (ByteGet(old0, n, t.lsb) + sum) % Pow256(n)
  {
    hide Pow256, ByteGet, FileBytes, Sum, Classify, Grouped, ApplyAll, IsSixBit;
    var e, sum := es[j], Sum(t, syms, |sec|, es, es[j].offset);
    InplaceWidth(t, syms, |sec|, e);
    var n := KindOf(t, e).size;
    var p, r := GroupPatch(t, syms, sec, es, e), ApplyAll(t, syms, sec, es);
    GroupsHold(t, syms, sec, es);
    forall i | 0 <= i < n ensures FieldOf(r, e, n)[i] == p.bytes[i] {
      assert Covers(GroupPatch(t, syms, sec, es, es[j]), e.offset + i);
      assert r[e.offset + i] == ByteAt(GroupPatch(t, syms, sec, es, es[j]), e.offset + i);
    }
    assert FieldOf(r, e, n) == p.bytes;
    if !Six(t, e) {
      var x := ByteGet(FieldOf(sec, e, n), n, t.lsb) + sum;
      GetInvertsPut(x % WORD_SIZE, n, t.lsb);
      WordModPow256(x, n);
    }
  }

  /** Entries at other offsets have no share. */
  lemma {:induction false} NoneThere(t: Target, syms: seq<Symbol>, size: nat, es: seq<Entry>, at: nat)
    requires forall k :: 0 <= k < |es| ==> es[k].offset != at
    ensures Sum(t, syms, size, es, at) == 0
    decreases |es|
  {
    hide Additive, Delta;
    if es != [] { NoneThere(t, syms, size, es[..|es| - 1], at); }
  }

  /** The sum of the only two entries at an offset. */
  lemma SumOfTwo(t: Target, syms: seq<Symbol>, size: nat, es: seq<Entry>, i: nat, j: nat)
    requires i < |es| && j < |es| && i != j && es[i].offset == es[j].offset
    requires forall k :: 0 <= k < |es| && k != i && k != j ==> es[k].offset != es[i].offset
    ensures Sum(t, syms, size, es, es[i].offset)
      == Share(t, syms, size, es[i], es[i].offset) + Share(t, syms, size, es[j], es[i].offset)
  {
    hide Sum, Share;
    var at := es[i].offset;
    var hi, lo := if i < j then j else i, if i < j then i else j;
    var one := es[..hi] + es[hi + 1..];
    var none := one[..lo] + one[lo + 1..];
    SumWithout(t, syms, size, es, hi, at);
    SumWithout(t, syms, size, one, lo, at);
    forall k | 0 <= k < |none| ensures none[k].offset != at {
      var k1 := if k < lo then k else k + 1;
      assert none[k] == one[k1] == es[if k1 < hi then k1 else k1 + 1];
    }
    NoneThere(t, syms, size, none, at);
  }

  /**
   Two additive entries that are alone on their field, anywhere among others and in
   either order: the field reads as its old number plus both amounts.
   */
  lemma PairComposes(t: Target, syms: seq<Symbol>, sec: seq<byte>, es: seq<Entry>, i: nat, j: nat)
    requires Grouped(t, syms, sec, es) && i < |es| && j < |es| && i != j
    requires Additive(t, syms, |sec|, es[i]) && Additive(t, syms, |sec|, es[j]) && es[i].offset == es[j].offset
    requires forall k :: 0 <= k < |es| && k != i && k != j ==> es[k].offset != es[i].offset
    ensures InplaceFits(t, syms, |sec|, es[i])
    ensures var e, n := es[i], KindOf(t, es[i]).size;
      var sum := Delta(t, syms, |sec|, es[i]) + Delta(t, syms, |sec|, es[j]);
      var old0, new0 := FieldOf(sec, e, n), FieldOf(ApplyAll(t, syms, sec, es), e, n);
      if Six(t, e) then new0[0] / 64 == old0[0] / 64 && new0[0] % 64 == (old0[0] + sum) % 64
      else ByteGet(new0, n, t.lsb) == (ByteGet(old0, n, t.lsb) + sum) % Pow256(n)
  {
    hide Additive, Delta, Sum, Grouped, ApplyAll, ByteGet, Pow256, Six, KindOf;
    FieldIsSum(t, syms, sec, es, i);
    SumOfTwo(t, syms, |sec|, es, i, j);
  }
}
