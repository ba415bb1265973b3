/**
 The attributes of a compile-unit DIE that depend on a base given by another
 attribute of the same DIE: what is resolved late is what would be resolved with
 the base known from the start, with one exception.
 */
module Deferred {
  import opened Bytes

  /** The sections strings and addresses are resolved in. */
  datatype Env = Env(present: bool, strSize: nat, str: nat -> string, addrSize: nat, width: nat, addr: nat -> word)

  datatype Field = Name | CompDir | Producer

  /** A string value: an index into the string offsets, or a form that needs no base. */
  datatype Text = Strx(pos: nat) | Direct(text: Option<string>)

  /** A low_pc: DW_FORM_addrx, one of DW_FORM_addrx1 to DW_FORM_addrx4, or any other form. */
  datatype Pc = Addrx(index: nat) | AddrxFixed(index: nat) | Plain(value: word)

  datatype Attr =
    | TextAttr(field: Field, text: Text)
    | StrOffsetsBase(base: nat)
    | AddrBase(base: nat)
    | LowPc(pc: Pc)
    | OtherAttr

  datatype Delayed = Delayed(field: Field, pos: nat)

  datatype State = State(
    name: Option<string>, compDir: Option<string>, producer: Option<string>, offsetsBase: nat, delayed: seq<Delayed>,
    addrBase: nat, baseAddr: word, baseIndex: nat, needIndex: bool)

  // ----- lookups -----

  /** The string of an index, under a base; the index is scaled in 32 bits. */
  function IndexedText(e: Env, base: nat, pos: nat): Option<string>
  {
    var offset := (pos * 4) % 0x1_0000_0000;
    if pos > e.strSize || e.strSize == 0 || base == 0 || offset + base > e.strSize then None else Some(e.str(offset + base))
  }

  /** The address of an index, under a base. */
  function IndexedAddr(e: Env, base: nat, index: nat): word
  {
    var offset := (index * e.width) % WORD_SIZE;
    if e.addrSize == 0 || base == 0 || offset + e.width + base > e.addrSize || e.width !in {1, 2, 4, 8} then 0
    else e.addr(base + offset)
  }

  // ----- one attribute -----

  function Get(s: State, f: Field): Option<string>
  {
    match f case Name => s.name case CompDir => s.compDir case Producer => s.producer
  }

  function Set(s: State, f: Field, v: Option<string>): State
  {
    match f case Name => s.(name := v) case CompDir => s.(compDir := v) case Producer => s.(producer := v)
  }

  /** The delayed strings assigned one after the other. */
  function Applied(e: Env, s: State, ds: seq<Delayed>): State
    decreases |ds|
  {
    if ds == [] then s
    else Applied(e, Set(s, ds[0].field, IndexedText(e, s.offsetsBase, ds[0].pos)), ds[1..])
  }

  function Step(e: Env, s: State, a: Attr): State
  {
    match a
    case TextAttr(f, Direct(v)) => Set(s, f, v)
    case TextAttr(f, Strx(pos)) =>
      if s.offsetsBase == 0 && e.present then Set(s.(delayed := s.delayed + [Delayed(f, pos)]), f, None)
      else Set(s, f, IndexedText(e, s.offsetsBase, pos))
    case StrOffsetsBase(v) =>
      var s' := s.(offsetsBase := if v > e.strSize then 0 else v);
      Applied(e, s', s.delayed).(delayed := [])
    case AddrBase(v) =>
      if v > e.addrSize then s.(addrBase := 0)
      else s.(addrBase := v, baseAddr := if s.needIndex then IndexedAddr(e, v, s.baseIndex) else s.baseAddr)
    case LowPc(Addrx(i)) =>
      if s.addrBase != 0 then s.(baseAddr := IndexedAddr(e, s.addrBase, i)) else s.(baseIndex := i, needIndex := true)
    case LowPc(AddrxFixed(i)) => s.(baseAddr := IndexedAddr(e, s.addrBase, i))
    case LowPc(Plain(v)) => s.(baseAddr := v)
    case OtherAttr => s
  }

  function Run(e: Env, s: State, attrs: seq<Attr>): State
    decreases |attrs|
  {
    if attrs == [] then s else Run(e, Step(e, s, attrs[0]), attrs[1..])
  }

  /** The state at the start of a unit: only the delayed strings are left from before. */
  function NextUnit(s: State): State
  {
    State(None, None, None, 0, s.delayed, 0, 0, 0, false)
  }

  function Fresh(): State { State(None, None, None, 0, [], 0, 0, 0, false) }

  // ----- resolving with the bases known -----

  function TextValue(e: Env, t: Text, base: nat): Option<string>
  {
    match t case Strx(pos) => IndexedText(e, base, pos) case Direct(v) => v
  }

  function PcValue(e: Env, pc: Pc, base: nat): word
  {
    match pc
    case Addrx(i) => IndexedAddr(e, base, i)
    case AddrxFixed(i) => IndexedAddr(e, base, i)
    case Plain(v) => v
  }

  function EagerText(e: Env, attrs: seq<Attr>, f: Field, base: nat): Option<string>
  {
    if attrs == [] then None
    else if attrs[0].TextAttr? && attrs[0].field == f then TextValue(e, attrs[0].text, base)
    else EagerText(e, attrs[1..], f, base)
  }

  function EagerAddr(e: Env, attrs: seq<Attr>, base: nat): word
  {
    if attrs == [] then 0
    else if attrs[0].LowPc? then PcValue(e, attrs[0].pc, base)
    else EagerAddr(e, attrs[1..], base)
  }

  /** Two attributes of one kind. */
  predicate Same(a: Attr, b: Attr)
  {
    || (a.TextAttr? && b.TextAttr? && a.field == b.field)
    || (a.StrOffsetsBase? && b.StrOffsetsBase?) || (a.AddrBase? && b.AddrBase?) || (a.LowPc? && b.LowPc?)
  }

  predicate AtMostOnce(attrs: seq<Attr>) { forall j, k :: 0 <= j < k < |attrs| ==> !Same(attrs[j], attrs[k]) }

  predicate ValidStrBase(e: Env, b: nat) { 0 < b <= e.strSize && e.present }

  predicate ValidAddrBase(e: Env, b: nat) { 0 < b <= e.addrSize }

  /** A DIE with each attribute at most once, with one valid base of each kind. */
  predicate Complete(e: Env, attrs: seq<Attr>, str: nat, addr: nat)
  {
    && AtMostOnce(attrs) && StrOffsetsBase(str) in attrs && AddrBase(addr) in attrs
    && ValidStrBase(e, str) && ValidAddrBase(e, addr)
  }

  // ----- strings -----

  function LastDelayed(ds: seq<Delayed>, f: Field): Option<nat>
  {
    if ds == [] then None
    else if LastDelayed(ds[1..], f).Some? then LastDelayed(ds[1..], f)
    else if ds[0].field == f then Some(ds[0].pos)
    else None
  }

  lemma {:induction false} LastDelayedPush(ds: seq<Delayed>, d: Delayed, f: Field)
    ensures LastDelayed(ds + [d], f) == if d.field == f then Some(d.pos) else LastDelayed(ds, f)
    decreases |ds|
  {
    if ds == [] {
      assert (ds + [d])[1..] == [];
    } else {
      assert (ds + [d])[1..] == ds[1..] + [d];
      LastDelayedPush(ds[1..], d, f);
    }
  }

  /** Applying gives each field its last delayed string and nothing else. */
  lemma {:induction false} AppliedText(e: Env, s: State, ds: seq<Delayed>, f: Field)
    ensures var s' := Applied(e, s, ds);
      && Get(s', f) == (match LastDelayed(ds, f) case Some(p) => IndexedText(e, s.offsetsBase, p) case None => Get(s, f))
      && s'.offsetsBase == s.offsetsBase
      && s'.addrBase == s.addrBase && s'.baseAddr == s.baseAddr && s'.baseIndex == s.baseIndex && s'.needIndex == s.needIndex
    decreases |ds|
  {
    hide IndexedText;
    if ds != [] {
      AppliedText(e, Set(s, ds[0].field, IndexedText(e, s.offsetsBase, ds[0].pos)), ds[1..], f);
    }
  }

  /** The text a field will have once the base is known. */
  function Future(e: Env, s: State, f: Field, base: nat): Option<string>
  {
    match LastDelayed(s.delayed, f) case Some(p) => IndexedText(e, base, p) case None => Get(s, f)
  }

  /** No base yet, or this one. */
  predicate BaseIs(s: State, base: nat) { s.offsetsBase == 0 || (s.offsetsBase == base && s.delayed == []) }

  predicate IsText(a: Attr, f: Field) { a.TextAttr? && a.field == f }

  predicate NoText(attrs: seq<Attr>, f: Field) { forall k :: 0 <= k < |attrs| ==> !IsText(attrs[k], f) }

  /** A text of the field that needs no base comes before the string base. */
  predicate DirectFirst(attrs: seq<Attr>, f: Field)
  {
    && attrs != [] && !attrs[0].StrOffsetsBase?
    && ((IsText(attrs[0], f) && attrs[0].text.Direct?) || DirectFirst(attrs[1..], f))
  }

  /** A pending string of the field outlives a text that needs no base, and only that. */
  lemma StepFuture(e: Env, s: State, a: Attr, f: Field, base: nat)
    requires BaseIs(s, base) && ValidStrBase(e, base)
    requires a.StrOffsetsBase? ==> a.base == base
    ensures var s' := Step(e, s, a);
      && BaseIs(s', base)
      && (s'.offsetsBase == base <==> s.offsetsBase == base || a.StrOffsetsBase?)
      && Future(e, s', f, base)
         == (if IsText(a, f) && !(a.text.Direct? && LastDelayed(s.delayed, f).Some?) then TextValue(e, a.text, base)
             else Future(e, s, f, base))
      && (LastDelayed(s'.delayed, f).Some?
          <==> !a.StrOffsetsBase?
               && (LastDelayed(s.delayed, f).Some? || (IsText(a, f) && a.text.Strx? && s.offsetsBase == 0)))
  {
    hide IndexedText, IndexedAddr;
    if a.StrOffsetsBase? {
      AppliedText(e, s.(offsetsBase := base), s.delayed, f);
    } else if a.TextAttr? && a.text.Strx? {
      LastDelayedPush(s.delayed, Delayed(a.field, a.text.pos), f);
    }
  }

  /** The text of a field behind a list of attributes, from any pending strings. */
  lemma {:induction false} RunFuture(e: Env, s: State, attrs: seq<Attr>, f: Field, base: nat)
    requires BaseIs(s, base) && ValidStrBase(e, base) && AtMostOnce(attrs)
    requires forall k :: 0 <= k < |attrs| && attrs[k].StrOffsetsBase? ==> attrs[k].base == base
    ensures var s' := Run(e, s, attrs);
      && BaseIs(s', base)
      && (s'.offsetsBase == base <==> s.offsetsBase == base || StrOffsetsBase(base) in attrs)
      && Future(e, s', f, base)
         == (if NoText(attrs, f) || (LastDelayed(s.delayed, f).Some? && DirectFirst(attrs, f)) then Future(e, s, f, base)
             else EagerText(e, attrs, f, base))
    decreases |attrs|
  {
    hide IndexedText, IndexedAddr, Step, Future, TextValue, Get, LastDelayed, BaseIs;
    if attrs != [] {
      var a, rest := attrs[0], attrs[1..];
      StepFuture(e, s, a, f, base);
      assert forall k :: 0 <= k < |rest| ==> rest[k] == attrs[k + 1] && !Same(attrs[0], attrs[k + 1]);
      RunFuture(e, Step(e, s, a), rest, f, base);
      assert forall k :: 0 < k < |attrs| ==> attrs[k] == rest[k - 1];
      assert NoText(attrs, f) <==> !IsText(a, f) && NoText(rest, f);
      if NoText(rest, f) { NoDirect(rest, f); }
    }
  }

  lemma {:induction false} NoDirect(attrs: seq<Attr>, f: Field)
    requires NoText(attrs, f)
    ensures !DirectFirst(attrs, f)
    decreases |attrs|
  {
    if attrs != [] { NoDirect(attrs[1..], f); }
  }

  // ----- the base address -----

  /** The base address once the base is known. */
  function FutureAddr(e: Env, s: State, base: nat): word
  {
    if s.needIndex && s.addrBase == 0 then IndexedAddr(e, base, s.baseIndex) else s.baseAddr
  }

  /** One of DW_FORM_addrx1 to DW_FORM_addrx4 comes before the address base. */
  predicate FixedIndexFirst(attrs: seq<Attr>)
  {
    && attrs != [] && !attrs[0].AddrBase?
    && ((attrs[0].LowPc? && attrs[0].pc.AddrxFixed?) || FixedIndexFirst(attrs[1..]))
  }

  predicate NoLowPc(attrs: seq<Attr>) { forall k :: 0 <= k < |attrs| ==> !attrs[k].LowPc? }

  lemma StepAddr(e: Env, s: State, a: Attr, base: nat)
    requires (s.addrBase == 0 || s.addrBase == base) && ValidAddrBase(e, base)
    requires a.AddrBase? ==> a.base == base && s.addrBase == 0
    requires a.LowPc? ==> !s.needIndex
    ensures var s' := Step(e, s, a);
      && s'.addrBase == (if a.AddrBase? then base else s.addrBase)
      && (!a.LowPc? ==> s'.needIndex == s.needIndex)
      && FutureAddr(e, s', base)
         == (if !a.LowPc? then FutureAddr(e, s, base)
             else if a.pc.AddrxFixed? && s.addrBase == 0 then 0
             else PcValue(e, a.pc, base))
  {
    hide IndexedText;
    if a.StrOffsetsBase? { AppliedText(e, s.(offsetsBase := if a.base > e.strSize then 0 else a.base), s.delayed, Name); }
  }

  lemma {:induction false} RunAddr(e: Env, s: State, attrs: seq<Attr>, base: nat)
    requires (s.addrBase == 0 || s.addrBase == base) && ValidAddrBase(e, base) && AtMostOnce(attrs)
    requires forall k :: 0 <= k < |attrs| && attrs[k].AddrBase? ==> attrs[k].base == base && s.addrBase == 0
    requires !s.needIndex || NoLowPc(attrs)
    ensures var s' := Run(e, s, attrs);
      && s'.addrBase == (if AddrBase(base) in attrs then base else s.addrBase)
      && FutureAddr(e, s', base)
         == (if NoLowPc(attrs) then FutureAddr(e, s, base)
             else if FixedIndexFirst(attrs) && s.addrBase == 0 then 0
             else EagerAddr(e, attrs, base))
    decreases |attrs|
  {
    hide IndexedText, IndexedAddr, Step, FutureAddr, PcValue;
    if attrs != [] {
      var a, rest := attrs[0], attrs[1..];
      StepAddr(e, s, a, base);
      assert forall k :: 0 <= k < |rest| ==> rest[k] == attrs[k + 1] && !Same(attrs[0], attrs[k + 1]);
      if NoLowPc(attrs) || a.LowPc? { assert NoLowPc(rest); }
      if a.LowPc? { NoAddr(e, rest, base); }
      RunAddr(e, Step(e, s, a), rest, base);
      assert forall k :: 0 < k < |attrs| ==> attrs[k] == rest[k - 1];
    }
  }

  // ----- late is early -----

  /** A string carried over from an earlier unit replaces the unit's own text of the field. */
  predicate CarriedWins(s: State, attrs: seq<Attr>, f: Field)
  {
    LastDelayed(s.delayed, f).Some? && (NoText(attrs, f) || DirectFirst(attrs, f))
  }

  /**
   From any state that earlier units leave, a complete DIE gives each field the text
   that its attributes have under their bases, unless a carried string replaces it:
   the DIE then has no text of its own for the field, or one that needs no base in
   front of the base. The base address is that of the attributes but for one case, a
   low_pc of form DW_FORM_addrx1 to DW_FORM_addrx4 in front of its base, which gives
   zero. Nothing stays delayed.
   */
  lemma DeferredIsEager(e: Env, before: State, attrs: seq<Attr>, str: nat, addr: nat)
    requires Complete(e, attrs, str, addr)
    ensures var s := Run(e, NextUnit(before), attrs);
      && (forall f :: Get(s, f) == if CarriedWins(before, attrs, f)
                                   then IndexedText(e, str, LastDelayed(before.delayed, f).value)
                                   else EagerText(e, attrs, f, str))
      && s.delayed == []
      && s.baseAddr == (if FixedIndexFirst(attrs) then 0 else EagerAddr(e, attrs, addr))
      && (s.baseAddr == EagerAddr(e, attrs, addr) <==> !FixedIndexFirst(attrs) || EagerAddr(e, attrs, addr) == 0)
  {
    hide IndexedText, IndexedAddr, Step, Run, EagerText, EagerAddr, FixedIndexFirst, DirectFirst, LastDelayed;
    var start := NextUnit(before);
    var s := Run(e, start, attrs);
    OneBase(attrs, str, addr);
    RunFuture(e, start, attrs, Name, str);
    assert s.offsetsBase == str && s.delayed == [];
    forall f
      ensures Get(s, f) == if CarriedWins(before, attrs, f) then IndexedText(e, str, LastDelayed(before.delayed, f).value)
                           else EagerText(e, attrs, f, str)
    {
      RunFuture(e, start, attrs, f, str);
      assert LastDelayed([], f) == None by { NoneDelayed(f); }
      if NoText(attrs, f) { EagerNoText(e, attrs, f, str); }
    }
    RunAddr(e, start, attrs, addr);
    if NoLowPc(attrs) { NoAddr(e, attrs, addr); }
  }

  lemma NoneDelayed(f: Field)
    ensures LastDelayed([], f) == None
  {
  }

  /** So the texts are those of the attributes in all units exactly when no carried string that differs replaces one. */
  lemma TextsAreEager(e: Env, before: State, attrs: seq<Attr>, str: nat, addr: nat)
    requires Complete(e, attrs, str, addr)
    ensures (forall f :: Get(Run(e, NextUnit(before), attrs), f) == EagerText(e, attrs, f, str))
      <==> forall f :: CarriedWins(before, attrs, f) ==>
             IndexedText(e, str, LastDelayed(before.delayed, f).value) == EagerText(e, attrs, f, str)
  {
    hide IndexedText, Run, EagerText, CarriedWins, LastDelayed;
    DeferredIsEager(e, before, attrs, str, addr);
  }

  lemma OneBase(attrs: seq<Attr>, str: nat, addr: nat)
    requires AtMostOnce(attrs) && StrOffsetsBase(str) in attrs && AddrBase(addr) in attrs
    ensures forall k :: 0 <= k < |attrs| && attrs[k].StrOffsetsBase? ==> attrs[k].base == str
    ensures forall k :: 0 <= k < |attrs| && attrs[k].AddrBase? ==> attrs[k].base == addr
  {
    var i :| 0 <= i < |attrs| && attrs[i] == StrOffsetsBase(str);
    var j :| 0 <= j < |attrs| && attrs[j] == AddrBase(addr);
    assert forall k :: 0 <= k < |attrs| && k != i ==> !Same(attrs[i], attrs[k]);
    assert forall k :: 0 <= k < |attrs| && k != j ==> !Same(attrs[j], attrs[k]);
  }

  lemma {:induction false} EagerNoText(e: Env, attrs: seq<Attr>, f: Field, base: nat)
    requires NoText(attrs, f)
    ensures EagerText(e, attrs, f, base) == None
    decreases |attrs|
  {
    if attrs != [] {
      assert !IsText(attrs[0], f);
      EagerNoText(e, attrs[1..], f, base);
    }
  }

  lemma {:induction false} NoAddr(e: Env, attrs: seq<Attr>, base: nat)
    requires NoLowPc(attrs)
    ensures EagerAddr(e, attrs, base) == 0 && !FixedIndexFirst(attrs)
    decreases |attrs|
  {
    if attrs != [] { NoAddr(e, attrs[1..], base); }
  }

  lemma {:induction false} EagerTextOf(e: Env, attrs: seq<Attr>, f: Field, base: nat, k: nat)
    requires AtMostOnce(attrs) && k < |attrs| && attrs[k].TextAttr? && attrs[k].field == f
    ensures EagerText(e, attrs, f, base) == TextValue(e, attrs[k].text, base)
    decreases k
  {
    hide TextValue;
    if k > 0 {
      assert !Same(attrs[0], attrs[k]);
      EagerTextOf(e, attrs[1..], f, base, k - 1);
    }
  }

  lemma {:induction false} EagerAddrOf(e: Env, attrs: seq<Attr>, base: nat, k: nat)
    requires AtMostOnce(attrs) && k < |attrs| && attrs[k].LowPc?
    ensures EagerAddr(e, attrs, base) == PcValue(e, attrs[k].pc, base)
    decreases k
  {
    hide PcValue;
    if k > 0 {
      assert !Same(attrs[0], attrs[k]);
      EagerAddrOf(e, attrs[1..], base, k - 1);
    }
  }

  lemma SameElements(xs: seq<Attr>, ys: seq<Attr>, a: Attr)
    requires multiset(xs) == multiset(ys)
    ensures a in xs <==> a in ys
  {
    assert a in xs <==> a in multiset(xs);
    assert a in ys <==> a in multiset(ys);
  }

  /** Known from the start, the bases make the order of the attributes irrelevant. */
  lemma EagerIgnoresOrder(e: Env, xs: seq<Attr>, ys: seq<Attr>, f: Field, str: nat, addr: nat)
    requires AtMostOnce(xs) && AtMostOnce(ys) && multiset(xs) == multiset(ys)
    ensures EagerText(e, xs, f, str) == EagerText(e, ys, f, str)
    ensures EagerAddr(e, xs, addr) == EagerAddr(e, ys, addr)
    ensures NoText(xs, f) <==> NoText(ys, f)
  {
    hide EagerText, EagerAddr, TextValue, PcValue, AtMostOnce;
    if i :| 0 <= i < |xs| && IsText(xs[i], f) {
      SameElements(xs, ys, xs[i]);
      var j :| 0 <= j < |ys| && ys[j] == xs[i];
      EagerTextOf(e, xs, f, str, i);
      EagerTextOf(e, ys, f, str, j);
    } else {
      forall k | 0 <= k < |ys| ensures !IsText(ys[k], f) { SameElements(xs, ys, ys[k]); }
      EagerNoText(e, xs, f, str);
      EagerNoText(e, ys, f, str);
    }
    if i :| 0 <= i < |xs| && xs[i].LowPc? {
      SameElements(xs, ys, xs[i]);
      var j :| 0 <= j < |ys| && ys[j] == xs[i];
      EagerAddrOf(e, xs, addr, i);
      EagerAddrOf(e, ys, addr, j);
    } else {
      forall k | 0 <= k < |ys| ensures !ys[k].LowPc? { SameElements(xs, ys, ys[k]); }
      NoAddr(e, xs, addr);
      NoAddr(e, ys, addr);
    }
  }

  /**
   Two orders of a complete DIE give a field the same text exactly when no string is
   carried over for it, both orders or neither put a text that needs no base in front
   of the base, or the carried string is the field's own text all the same. They give
   the same base address exactly when both or neither put a fixed index in front of
   its base, or the address is zero all the same.
   */
  lemma OrderIsIrrelevant(e: Env, before: State, xs: seq<Attr>, ys: seq<Attr>, f: Field, str: nat, addr: nat)
    requires Complete(e, xs, str, addr) && AtMostOnce(ys) && multiset(xs) == multiset(ys)
    ensures var carried := LastDelayed(before.delayed, f);
      Get(Run(e, NextUnit(before), xs), f) == Get(Run(e, NextUnit(before), ys), f)
      <==> carried.None? || DirectFirst(xs, f) == DirectFirst(ys, f)
           || IndexedText(e, str, carried.value) == EagerText(e, xs, f, str)
    ensures Run(e, NextUnit(before), xs).baseAddr == Run(e, NextUnit(before), ys).baseAddr
      <==> FixedIndexFirst(xs) == FixedIndexFirst(ys) || EagerAddr(e, xs, addr) == 0
  {
    hide EagerText, EagerAddr, Run, AtMostOnce, Get, FixedIndexFirst, DirectFirst, LastDelayed, IndexedText;
    SameElements(xs, ys, StrOffsetsBase(str));
    SameElements(xs, ys, AddrBase(addr));
    DeferredIsEager(e, before, xs, str, addr);
    DeferredIsEager(e, before, ys, str, addr);
    EagerIgnoresOrder(e, xs, ys, f, str, addr);
    if NoText(xs, f) {
      NoDirect(xs, f);
      NoDirect(ys, f);
    }
  }

  /** A fixed index in front of its base: the two orders of a DIE give different base addresses. */
  lemma FixedIndexDependsOnOrder()
    ensures var e := Env(true, 100, _ => "", 100, 8, _ => 0x400000);
      var low, str, addr := LowPc(AddrxFixed(1)), StrOffsetsBase(8), AddrBase(8);
      && Complete(e, [low, str, addr], 8, 8) && Complete(e, [str, addr, low], 8, 8)
      && Run(e, Fresh(), [low, str, addr]).baseAddr == 0
      && Run(e, Fresh(), [str, addr, low]).baseAddr == 0x400000
  {
    var e := Env(true, 100, _ => "", 100, 8, _ => 0x400000);
    var low, str, addr := LowPc(AddrxFixed(1)), StrOffsetsBase(8), AddrBase(8);
    var xs, ys := [low, str, addr], [str, addr, low];
    assert xs[1] == str && xs[2] == addr && ys[0] == str && ys[1] == addr;
    assert NextUnit(Fresh()) == Fresh();
    DeferredIsEager(e, Fresh(), xs, 8, 8);
    DeferredIsEager(e, Fresh(), ys, 8, 8);
    assert FixedIndexFirst(xs);
    assert !FixedIndexFirst(ys) by { assert ys[1..][0] == addr; }
    EagerAddrOf(e, ys, 8, 2);
    assert IndexedAddr(e, 8, 1) == 0x400000;
  }

  // ----- units without a base -----

  /** The strings that wait for a base, in order. */
  function Waiting(e: Env, attrs: seq<Attr>): seq<Delayed>
  {
    if attrs == [] then []
    else
      (if e.present && attrs[0].TextAttr? && attrs[0].text.Strx? then [Delayed(attrs[0].field, attrs[0].text.pos)] else [])
      + Waiting(e, attrs[1..])
  }

  lemma StepWaits(e: Env, s: State, a: Attr)
    requires s.offsetsBase == 0 && !a.StrOffsetsBase?
    ensures Step(e, s, a).offsetsBase == 0 && Step(e, s, a).delayed == s.delayed + Waiting(e, [a])
  {
    hide IndexedText, IndexedAddr, Get, Applied;
    assert [a][1..] == [];
  }

  /** Without a string base every indexed string stays delayed, behind those carried over, into the next unit. */
  lemma {:induction false} DelayedOutlivesUnit(e: Env, s: State, attrs: seq<Attr>)
    requires s.offsetsBase == 0 && forall k :: 0 <= k < |attrs| ==> !attrs[k].StrOffsetsBase?
    ensures var s' := Run(e, s, attrs);
      s'.offsetsBase == 0 && NextUnit(s').delayed == s.delayed + Waiting(e, attrs)
    decreases |attrs|
  {
    hide IndexedText, IndexedAddr, Get, Step;
    if attrs != [] {
      StepWaits(e, s, attrs[0]);
      DelayedOutlivesUnit(e, Step(e, s, attrs[0]), attrs[1..]);
      assert [attrs[0]][1..] == [];
      assert Waiting(e, attrs) == Waiting(e, [attrs[0]]) + Waiting(e, attrs[1..]);
    }
  }

  /**
   Behind any unit without a string base, a complete unit without a text of its own
   for a field, or with one that needs no base in front of the base, ends up with the
   string that the first unit's last index for the field has under the second's base.
   */
  lemma StaleNameWins(e: Env, before: State, first: seq<Attr>, second: seq<Attr>, f: Field, pos: nat, str: nat, addr: nat)
    requires forall k :: 0 <= k < |first| ==> !first[k].StrOffsetsBase?
    requires LastDelayed(Waiting(e, first), f) == Some(pos)
    requires Complete(e, second, str, addr) && (DirectFirst(second, f) || NoText(second, f))
    ensures var left := Run(e, NextUnit(before), first);
      Get(Run(e, NextUnit(left), second), f) == IndexedText(e, str, pos)
  {
    hide IndexedText, Run, Get, LastDelayed, Waiting, DirectFirst, EagerText;
    var left := Run(e, NextUnit(before), first);
    DelayedOutlivesUnit(e, NextUnit(before), first);
    LastDelayedConcat(before.delayed, Waiting(e, first), f);
    DeferredIsEager(e, left, second, str, addr);
  }

  lemma {:induction false} LastDelayedConcat(a: seq<Delayed>, b: seq<Delayed>, f: Field)
    ensures LastDelayed(a + b, f) == if LastDelayed(b, f).Some? then LastDelayed(b, f) else LastDelayed(a, f)
    decreases |a|
  {
    if a == [] {
      assert a + b == b;
    } else {
      assert (a + b)[1..] == a[1..] + b;
      LastDelayedConcat(a[1..], b, f);
    }
  }

  // ----- the fields in place -----

  class CompileUnit {
    const e: Env
    var name: Option<string>
    var compDir: Option<string>
    var producer: Option<string>
    var offsetsBase: nat
    var delayed: seq<Delayed>
    var addrBase: nat
    var baseAddr: word
    var baseIndex: nat
    var needIndex: bool

    ghost function St(): State
      reads this
    {
      State(name, compDir, producer, offsetsBase, delayed, addrBase, baseAddr, baseIndex, needIndex)
    }

    constructor (e: Env)
      ensures this.e == e && St() == Fresh()
    {
      this.e := e;
      name, compDir, producer, offsetsBase, delayed := None, None, None, 0, [];
      addrBase, baseAddr, baseIndex, needIndex := 0, 0, 0, false;
    }

    method Reset()
      modifies this
      ensures St() == NextUnit(old(St()))
    {
      name, compDir, producer, offsetsBase := None, None, None, 0;
      addrBase, baseAddr, baseIndex, needIndex := 0, 0, 0, false;
    }

    method Assign(f: Field, v: Option<string>)
      modifies this`name, this`compDir, this`producer
      ensures St() == Set(old(St()), f, v)
    {
      match f {
        case Name => name := v;
        case CompDir => compDir := v;
        case Producer => producer := v;
      }
    }

    /** Resolves what was delayed, oldest first, and forgets it. */
    method ApplyDlist()
      modifies this
      ensures St() == Applied(e, old(St()), old(delayed)).(delayed := [])
    {
      hide IndexedText;
      var i := 0;
      assert delayed[0..] == delayed;
      while i < |delayed|
        invariant i <= |delayed| && delayed == old(delayed) && offsetsBase == old(offsetsBase)
        invariant Applied(e, St(), delayed[i..]) == Applied(e, old(St()), old(delayed))
      {
        assert delayed[i..][1..] == delayed[i + 1..];
        Assign(delayed[i].field, IndexedText(e, offsetsBase, delayed[i].pos));
        i := i + 1;
      }
      assert delayed[i..] == [];
      delayed := [];
    }

    method LogText(f: Field, text: Text)
      modifies this
      ensures St() == Step(e, old(St()), TextAttr(f, text))
    {
      hide IndexedText;
      var assigns := offsetsBase == 0 && e.present;
      match text {
        case Direct(v) => Assign(f, v);
        case Strx(pos) =>
          if assigns {
            delayed := delayed + [Delayed(f, pos)];
            Assign(f, None);
          } else {
            Assign(f, IndexedText(e, offsetsBase, pos));
          }
      }
    }

    method LogAttribute(a: Attr)
      modifies this
      ensures St() == Step(e, old(St()), a)
    {
      hide IndexedText, IndexedAddr, Applied;
      match a {
        case TextAttr(f, text) => LogText(f, text);
        case StrOffsetsBase(v) =>
          offsetsBase := v;
          if offsetsBase > e.strSize { offsetsBase := 0; }
          ApplyDlist();
        case AddrBase(v) =>
          addrBase := v;
          if addrBase > e.addrSize {
            addrBase := 0;
          } else if needIndex {
            baseAddr := IndexedAddr(e, addrBase, baseIndex);
          }
        case LowPc(pc) =>
          match pc {
            case Addrx(i) =>
              if addrBase != 0 { baseAddr := IndexedAddr(e, addrBase, i); } else { baseIndex, needIndex := i, true; }
            case AddrxFixed(i) => baseAddr := IndexedAddr(e, addrBase, i);
            case Plain(v) => baseAddr := v;
          }
        case OtherAttr =>
      }
    }

    method LogDie(attrs: seq<Attr>)
      modifies this
      ensures St() == Run(e, old(St()), attrs)
    {
      hide Step;
      assert attrs[0..] == attrs;
      for i := 0 to |attrs|
        invariant Run(e, St(), attrs[i..]) == Run(e, old(St()), attrs)
      {
        assert attrs[i..][1..] == attrs[i + 1..];
        LogAttribute(attrs[i]);
      }
      assert attrs[|attrs|..] == [];
    }
  }
}
