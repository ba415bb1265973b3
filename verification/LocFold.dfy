/**
 The redundancy counter of location expressions: it counts operations of the
 DWARF stack machine all of whose operands are constants.
 */
module LocFold {
  import opened Bytes

  datatype LocType =
    | Reg | Breg | FBreg | Deref | CallFrameCfa | PlusUconst | TlsIndex | DerefSize | DerefType
    | RegvalType | Convert | FValue | SValue | UValue | Piece | ImpValue
    | Neg | Not | And | Abs | Minus | Or | Plus | Shl | Shr | Shra | Xor | Mul | Div | Mod | StackValue

  datatype Loc = Loc(kind: LocType, value: int, offset: int)

  predicate IsConst(k: LocType) { k.SValue? || k.FValue? || k.UValue? }

  predicate IsUnary(k: LocType) { k.Neg? || k.Abs? || k.Not? }

  predicate IsBinary(k: LocType)
  {
    match k
    case And | Div | Minus | Plus | Or | Xor | Mul | Mod | Shl | Shr => true
    case _ => false
  }

  // ----- the stack machine -----

  /**
   A reading of the operations. What a constant pushes and what the unary and
   binary operations compute is left open, division by zero and word size
   included; every other operation may do anything to the stack, or fail.
   */
  datatype Interp<!V> = Interp(
    constant: Loc -> V, unary: (LocType, V) -> V, binary: (LocType, V, V) -> V,
    other: (Loc, seq<V>) -> Option<seq<V>>)

  /** One operation on a stack whose top is the last element; None is failure. */
  function Exec<V>(I: Interp<V>, l: Loc, stack: seq<V>): Option<seq<V>>
  {
    var n := |stack|;
    if IsConst(l.kind) then Some(stack + [I.constant(l)])
    else if IsUnary(l.kind) then
      if n < 1 then None else Some(stack[..n - 1] + [I.unary(l.kind, stack[n - 1])])
    else if IsBinary(l.kind) then
      if n < 2 then None else Some(stack[..n - 2] + [I.binary(l.kind, stack[n - 2], stack[n - 1])])
    else I.other(l, stack)
  }

  /** An expression in which some groups were replaced by the constant they compute. */
  datatype Item<V> = Folded(v: V) | Kept(loc: Loc)

  function ExecItem<V>(I: Interp<V>, i: Item<V>, stack: seq<V>): Option<seq<V>>
  {
    match i
    case Folded(v) => Some(stack + [v])
    case Kept(l) => Exec(I, l, stack)
  }

  function ExecItems<V>(I: Interp<V>, items: seq<Item<V>>, stack: seq<V>): Option<seq<V>>
  {
    if items == [] then Some(stack)
    else
      match ExecItems(I, items[..|items| - 1], stack)
      case None => None
      case Some(st) => ExecItem(I, items[|items| - 1], st)
  }

  function ExecAll<V>(I: Interp<V>, locs: seq<Loc>, stack: seq<V>): Option<seq<V>>
  {
    if locs == [] then Some(stack)
    else
      match ExecAll(I, locs[..|locs| - 1], stack)
      case None => None
      case Some(st) => Exec(I, locs[|locs| - 1], st)
  }

  // ----- the counter -----

  /** The counter's state after a prefix, and how many operations of each arity it counted. */
  datatype Scan = Scan(state: nat, unary: nat, binary: nat)

  predicate CountsUnary(s: Scan, l: Loc) { s.state > 0 && IsUnary(l.kind) }

  predicate CountsBinary(s: Scan, l: Loc) { s.state > 1 && IsBinary(l.kind) }

  function ScanStep(s: Scan, l: Loc): Scan
  {
    if IsConst(l.kind) then s.(state := s.state + 1)
    else if CountsUnary(s, l) then s.(unary := s.unary + 1)
    else if CountsBinary(s, l) then s.(binary := s.binary + 1, state := s.state - 1)
    else s.(state := 0)
  }

  function ScanAll(locs: seq<Loc>): Scan
  {
    if locs == [] then Scan(0, 0, 0) else ScanStep(ScanAll(locs[..|locs| - 1]), locs[|locs| - 1])
  }

  method CalcRedundantLocs(locs: seq<Loc>) returns (res: nat)
    ensures res == 2 * ScanAll(locs).unary + 3 * ScanAll(locs).binary
  {
    var state := 0;
    res := 0;
    for i := 0 to |locs|
      invariant var s := ScanAll(locs[..i]); s.state == state && res == 2 * s.unary + 3 * s.binary
    {
      var l := locs[i];
      assert locs[..i + 1][..i] == locs[..i];
      if IsConst(l.kind) {
        state := state + 1;
        continue;
      }
      if state != 0 && IsUnary(l.kind) {
        res := res + 2;
        continue;
      }
      if state > 1 && IsBinary(l.kind) {
        res := res + 3;
        state := state - 1;
        continue;
      }
      state := 0;
    }
    assert locs[..|locs|] == locs;
  }

  // ----- folding exactly the counted operations -----

  /** The last n items are constants and the item before them, if any, is not. */
  ghost predicate TrailingConstants<V>(items: seq<Item<V>>, n: nat)
  {
    && n <= |items|
    && (forall k :: |items| - n <= k < |items| ==> items[k].Folded?)
    && (n < |items| ==> items[|items| - n - 1].Kept?)
  }

  /** Replaces each counted operation together with its operands by the constant it computes. */
  function Fold<V>(I: Interp<V>, locs: seq<Loc>): (items: seq<Item<V>>)
    ensures TrailingConstants(items, ScanAll(locs).state)
  {
    if locs == [] then []
    else
      var items := Fold(I, locs[..|locs| - 1]);
      var s, l, n := ScanAll(locs[..|locs| - 1]), locs[|locs| - 1], |items|;
      if IsConst(l.kind) then items + [Folded(I.constant(l))]
      else if CountsUnary(s, l) then items[..n - 1] + [Folded(I.unary(l.kind, items[n - 1].v))]
      else if CountsBinary(s, l) then
        items[..n - 2] + [Folded(I.binary(l.kind, items[n - 2].v, items[n - 1].v))]
      else items + [Kept(l)]
  }

  lemma {:induction false} ExecConstant<V>(I: Interp<V>, items: seq<Item<V>>, v: V, stack: seq<V>)
    ensures ExecItems(I, items + [Folded(v)], stack) ==
      match ExecItems(I, items, stack) case None => None case Some(st) => Some(st + [v])
  {
    assert (items + [Folded(v)])[..|items|] == items;
  }

  /** Main result: folding the counted operations leaves the final stack of every expression unchanged. */
  lemma {:induction false} FoldPreservesStack<V>(I: Interp<V>, locs: seq<Loc>, stack: seq<V>)
    ensures ExecItems(I, Fold(I, locs), stack) == ExecAll(I, locs, stack)
    decreases |locs|
  {
    if locs != [] {
      var init, l := locs[..|locs| - 1], locs[|locs| - 1];
      var items, s := Fold(I, init), ScanAll(init);
      FoldPreservesStack(I, init, stack);
      var n := |items|;
      if IsConst(l.kind) {
        ExecConstant(I, items, I.constant(l), stack);
      } else if CountsUnary(s, l) {
        FoldUnary(I, items, l, stack);
      } else if CountsBinary(s, l) {
        FoldBinary(I, items, l, stack);
      } else {
        assert (items + [Kept(l)])[..n] == items;
      }
    }
  }

  lemma FoldUnary<V>(I: Interp<V>, items: seq<Item<V>>, l: Loc, stack: seq<V>)
    requires |items| > 0 && items[|items| - 1].Folded? && IsUnary(l.kind)
    ensures var n := |items|;
      ExecItems(I, items[..n - 1] + [Folded(I.unary(l.kind, items[n - 1].v))], stack) ==
      match ExecItems(I, items, stack) case None => None case Some(st) => Exec(I, l, st)
  {
    var n := |items|;
    assert items[..n - 1] + [Folded(items[n - 1].v)] == items;
    ExecConstant(I, items[..n - 1], items[n - 1].v, stack);
    ExecConstant(I, items[..n - 1], I.unary(l.kind, items[n - 1].v), stack);
  }

  lemma FoldBinary<V>(I: Interp<V>, items: seq<Item<V>>, l: Loc, stack: seq<V>)
    requires |items| > 1 && items[|items| - 1].Folded? && items[|items| - 2].Folded? && IsBinary(l.kind)
    ensures var n := |items|;
      ExecItems(I, items[..n - 2] + [Folded(I.binary(l.kind, items[n - 2].v, items[n - 1].v))], stack) ==
      match ExecItems(I, items, stack) case None => None case Some(st) => Exec(I, l, st)
  {
    var n := |items|;
    var a, b := items[n - 2].v, items[n - 1].v;
    assert items[..n - 2] + [Folded(a)] == items[..n - 1];
    assert items[..n - 1] + [Folded(b)] == items;
    ExecConstant(I, items[..n - 2], a, stack);
    ExecConstant(I, items[..n - 1], b, stack);
    ExecConstant(I, items[..n - 2], I.binary(l.kind, a, b), stack);
    if ExecItems(I, items[..n - 2], stack).Some? {
      var st := ExecItems(I, items[..n - 2], stack).value;
      assert (st + [a] + [b])[..|st|] == st;
    }
  }

  /** The top n entries of the stack are the last n items, all of them constants. */
  ghost predicate OnTop<V>(items: seq<Item<V>>, st: seq<V>, n: nat)
  {
    && n <= |st| && n <= |items|
    && var a, b := items[|items| - n..], st[|st| - n..];
       forall k :: 0 <= k < n ==> a[k] == Folded(b[k])
  }

  /** The top of the stack after a prefix is known: the counter's `state` entries never depend on the stack below. */
  lemma TopIsKnown<V>(I: Interp<V>, locs: seq<Loc>, stack: seq<V>)
    requires ExecAll(I, locs, stack).Some?
    ensures OnTop(Fold(I, locs), ExecAll(I, locs, stack).value, ScanAll(locs).state)
  {
    hide Fold, ScanAll, ExecAll, ExecItems, OnTop;
    FoldPreservesStack(I, locs, stack);
    TrailingOnTop(I, Fold(I, locs), ScanAll(locs).state, stack);
  }

  lemma {:induction false} TrailingOnTop<V>(I: Interp<V>, items: seq<Item<V>>, n: nat, stack: seq<V>)
    requires n <= |items| && forall k :: |items| - n <= k < |items| ==> items[k].Folded?
    requires ExecItems(I, items, stack).Some?
    ensures OnTop(items, ExecItems(I, items, stack).value, n)
    decreases n
  {
    if n == 0 { return; }
    hide ExecItems, OnTop;
    var init, last := items[..|items| - 1], items[|items| - 1];
    assert init + [last] == items;
    ExecConstant(I, init, last.v, stack);
    TrailingOnTop(I, init, n - 1, stack);
    OnePushed(init, ExecItems(I, init, stack).value, n - 1, last.v);
  }

  lemma OnePushed<V>(items: seq<Item<V>>, st: seq<V>, n: nat, v: V)
    requires OnTop(items, st, n)
    ensures OnTop(items + [Folded(v)], st + [v], n + 1)
  {
    var items', st' := items + [Folded(v)], st + [v];
    assert items'[|items'| - (n + 1)..] == items[|items| - n..] + [Folded(v)];
    assert st'[|st'| - (n + 1)..] == st[|st| - n..] + [v];
  }

  /** Folding removes one item per counted unary operation and two per counted binary one. */
  lemma {:induction false} FoldedLength<V>(I: Interp<V>, locs: seq<Loc>)
    ensures |Fold(I, locs)| + ScanAll(locs).unary + 2 * ScanAll(locs).binary == |locs|
    decreases |locs|
  {
    if locs == [] { return; }
    hide Fold, TrailingConstants;
    FoldedLength(I, locs[..|locs| - 1]);
    FoldGrows(I, locs);
  }

  lemma FoldGrows<V>(I: Interp<V>, locs: seq<Loc>)
    requires locs != []
    ensures var init, l := locs[..|locs| - 1], locs[|locs| - 1];
      |Fold(I, locs)| == |Fold(I, init)|
        + (if IsConst(l.kind) then 1
           else if CountsUnary(ScanAll(init), l) then 0
           else if CountsBinary(ScanAll(init), l) then -1
           else 1)
  {
    hide ScanAll, IsConst, IsUnary, IsBinary;
    assert TrailingConstants(Fold(I, locs[..|locs| - 1]), ScanAll(locs[..|locs| - 1]).state);
  }

  /** An operation at k of a kind that is counted, with operands that are all folded constants. */
  ghost predicate Reducible<V>(items: seq<Item<V>>, k: nat)
    requires k < |items|
  {
    && items[k].Kept?
    && ((IsUnary(items[k].loc.kind) && k >= 1 && items[k - 1].Folded?)
        || (IsBinary(items[k].loc.kind) && k >= 2 && items[k - 1].Folded? && items[k - 2].Folded?)
        || IsConst(items[k].loc.kind))
  }

  /** Nothing more can be folded: no kept operation of a counted kind has only constants as operands. */
  lemma {:induction false} FoldIsComplete<V>(I: Interp<V>, locs: seq<Loc>)
    ensures forall k :: 0 <= k < |Fold(I, locs)| ==> !Reducible(Fold(I, locs), k)
    decreases |locs|
  {
    if locs != [] {
      var init := locs[..|locs| - 1];
      FoldIsComplete(I, init);
      var before, after := Fold(I, init), Fold(I, locs);
      forall k | 0 <= k < |after| ensures !Reducible(after, k) {
        if k < |before| { assert !Reducible(before, k); }
      }
    }
  }
}
