/**
 The walk over the debugging information entries (DIEs) of a unit: a serialised
 forest read with one level counter, jumping over the children of entries that
 were not registered when their DW_AT_sibling says where they end.
 */
module DieWalk {
  import opened Bytes
  import opened Leb128
  import opened FieldBytes
  import opened Uleb
  import opened Forms
  import opened Abbrev

  const DW_AT_sibling := 0x01

  /**
   A list of DIEs: the code and attribute values of the first, its children, and
   the DIEs after it.
   */
  datatype Forest = Nil | Tree(code: seq<byte>, values: seq<seq<byte>>, children: Forest, rest: Forest)

  /** A DIE the walk came to. */
  datatype Visit = Visit(offset: nat, code: nat, level: nat)

  /**
   What the walk depends on: the unit, where its header starts, its declarations
   by code, and whether the tree builder keeps the DIE at an offset.
   */
  datatype Context = Context(u: Unit, cuStart: nat, decls: map<nat, Decl>, registered: nat -> bool)

  // ----- encoding, section 2.3 and 7.5.2 of DWARF 5 -----

  function Concat(vs: seq<seq<byte>>): seq<byte>
  {
    if vs == [] then [] else vs[0] + Concat(vs[1..])
  }

  predicate HasChildren(cx: Context, f: Forest)
    requires f.Tree?
  {
    Value(f.code) in cx.decls && cx.decls[Value(f.code)].children != 0
  }

  function DieHead(f: Forest): seq<byte>
    requires f.Tree?
  {
    f.code + Concat(f.values)
  }

  function DieTail(cx: Context, f: Forest): seq<byte>
    requires f.Tree?
    decreases f, 0
  {
    if HasChildren(cx, f) then Encode(cx, f.children) + [0] else []
  }

  /** The bytes of a DIE with its children, which a null entry ends. */
  function EncodeDie(cx: Context, f: Forest): seq<byte>
    requires f.Tree?
    decreases f, 1
  {
    DieHead(f) + DieTail(cx, f)
  }

  function Encode(cx: Context, f: Forest): seq<byte>
    decreases f, 2
  {
    if f.Nil? then [] else EncodeDie(cx, f) + Encode(cx, f.rest)
  }

  // ----- the sibling attribute -----

  /** The number a value is read as. */
  function Number(u: Unit, form: nat, v: seq<byte>): nat
  {
    if IsUlebNumber(form) then UlebValue(v) else FileValue(v, u.lsb)
  }

  predicate ReadableNumber(form: nat, v: seq<byte>)
  {
    IsPlainNumber(form, |v|) || (IsUlebNumber(form) && form != DW_FORM_indirect && |v| <= 4)
  }

  /** The value of the last DW_AT_sibling, zero when there is none. */
  function Sibling(u: Unit, attrs: seq<AttrSpec>, values: seq<seq<byte>>): nat
    requires |attrs| == |values|
  {
    if attrs == [] then 0
    else
      var n := |attrs| - 1;
      if Value(attrs[n].name) == DW_AT_sibling then Number(u, Value(attrs[n].form), values[n])
      else Sibling(u, attrs[..n], values[..n])
  }

  /** Each value is one complete value of its attribute's form. */
  predicate ValuesFit(u: Unit, attrs: seq<AttrSpec>, values: seq<seq<byte>>)
  {
    && |attrs| == |values|
    && ValidAttrs(attrs)
    && forall k :: 0 <= k < |attrs| ==> ValueFits(u, attrs[k], values[k])
  }

  predicate ValueFits(u: Unit, a: AttrSpec, v: seq<byte>)
  {
    && FormLen(u, Value(a.form), v) == Some(|v|)
    && (Value(a.name) == DW_AT_sibling ==> ReadableNumber(Value(a.form), v))
  }

  /**
   A forest that starts at pos is well formed: its codes are declared, its values
   fit, only declared parents have children, and a sibling attribute other than
   zero is the distance from the unit's header to the end of the DIE.
   */
  predicate WellFormed(cx: Context, f: Forest, pos: nat)
  {
    f.Tree? ==>
      && ShortLeb(f.code) && Value(f.code) != 0 && Value(f.code) in cx.decls
      && var d := cx.decls[Value(f.code)];
      && ValuesFit(cx.u, d.attrs, f.values)
      && (d.children == 0 ==> f.children.Nil?)
      && (var s := Sibling(cx.u, d.attrs, f.values); s == 0 || cx.cuStart + s == pos + |EncodeDie(cx, f)|)
      && WellFormed(cx, f.children, pos + |DieHead(f)|)
      && WellFormed(cx, f.rest, pos + |EncodeDie(cx, f)|)
  }

  // ----- which DIEs are visited -----

  /** The walk jumps from the DIE at pos to its end. */
  predicate Jumps(cx: Context, f: Forest, pos: nat)
    requires f.Tree?
  {
    && !cx.registered(pos) && HasChildren(cx, f)
    && var d := cx.decls[Value(f.code)];
    && |d.attrs| == |f.values| && Sibling(cx.u, d.attrs, f.values) != 0
  }

  /** The visits of a forest that starts at pos, level deep. */
  function Visits(cx: Context, f: Forest, pos: nat, level: nat): seq<Visit>
  {
    if f.Nil? then []
    else
      [Visit(pos, Value(f.code), level)]
      + (if Jumps(cx, f, pos) then [] else Visits(cx, f.children, pos + |DieHead(f)|, level + 1))
      + Visits(cx, f.rest, pos + |EncodeDie(cx, f)|, level)
  }

  /** A DIE with, for each of its ancestors from the root down, whether the walk jumps there. */
  datatype Node = Node(offset: nat, code: nat, above: seq<bool>)

  function Preorder(cx: Context, f: Forest, pos: nat, above: seq<bool>): seq<Node>
  {
    if f.Nil? then []
    else
      [Node(pos, Value(f.code), above)]
      + Preorder(cx, f.children, pos + |DieHead(f)|, above + [Jumps(cx, f, pos)])
      + Preorder(cx, f.rest, pos + |EncodeDie(cx, f)|, above)
  }

  predicate BelowJump(above: seq<bool>) { true in above }

  /** The nodes none of whose ancestors is jumped from, with the number of their ancestors. */
  function Seen(nodes: seq<Node>): seq<Visit>
  {
    if nodes == [] then []
    else
      (if BelowJump(nodes[0].above) then [] else [Visit(nodes[0].offset, nodes[0].code, |nodes[0].above|)])
      + Seen(nodes[1..])
  }

  lemma {:induction false} SeenConcat(a: seq<Node>, b: seq<Node>)
    ensures Seen(a + b) == Seen(a) + Seen(b)
    decreases |a|
  {
    if a == [] {
      assert a + b == b;
    } else {
      assert (a + b)[1..] == a[1..] + b;
      SeenConcat(a[1..], b);
    }
  }

  /** What is seen of a DIE, of its children and of the DIEs after it. */
  lemma SeenTree(cx: Context, f: Forest, pos: nat, above: seq<bool>)
    requires f.Tree?
    ensures Seen(Preorder(cx, f, pos, above))
      == (if BelowJump(above) then [] else [Visit(pos, Value(f.code), |above|)])
         + Seen(Preorder(cx, f.children, pos + |DieHead(f)|, above + [Jumps(cx, f, pos)]))
         + Seen(Preorder(cx, f.rest, pos + |EncodeDie(cx, f)|, above))
  {
    hide EncodeDie, DieHead, Jumps, Value, Seen, BelowJump;
    var first := Node(pos, Value(f.code), above);
    var children := Preorder(cx, f.children, pos + |DieHead(f)|, above + [Jumps(cx, f, pos)]);
    SeenConcat([first] + children, Preorder(cx, f.rest, pos + |EncodeDie(cx, f)|, above));
    SeenConcat([first], children);
    SeenOne(first);
  }

  lemma SeenOne(n: Node)
    ensures Seen([n]) == if BelowJump(n.above) then [] else [Visit(n.offset, n.code, |n.above|)]
  {
    assert Seen([n][1..]) == [];
  }

  lemma InPushed(above: seq<bool>, b: bool)
    ensures BelowJump(above + [b]) <==> BelowJump(above) || b
  {
    if b { assert (above + [b])[|above|]; }
  }

  lemma {:induction false} NothingSeenBelowJump(cx: Context, f: Forest, pos: nat, above: seq<bool>)
    requires BelowJump(above)
    ensures Seen(Preorder(cx, f, pos, above)) == []
    decreases f
  {
    hide EncodeDie, DieHead, Jumps, Value, BelowJump;
    if f.Nil? { return; }
    hide Seen, Preorder;
    SeenTree(cx, f, pos, above);
    InPushed(above, Jumps(cx, f, pos));
    NothingSeenBelowJump(cx, f.children, pos + |DieHead(f)|, above + [Jumps(cx, f, pos)]);
    NothingSeenBelowJump(cx, f.rest, pos + |EncodeDie(cx, f)|, above);
  }

  /**
   The visits are the preorder of all DIEs less those below a jump, and the level
   of each is the number of its ancestors.
   */
  lemma {:induction false} VisitsAreUnskipped(cx: Context, f: Forest, pos: nat, above: seq<bool>)
    requires !BelowJump(above)
    ensures Visits(cx, f, pos, |above|) == Seen(Preorder(cx, f, pos, above))
    decreases f
  {
    hide EncodeDie, DieHead, Jumps, Value, BelowJump;
    if f.Nil? { return; }
    hide *;
    var below, p, q := above + [Jumps(cx, f, pos)], pos + |DieHead(f)|, pos + |EncodeDie(cx, f)|;
    SeenTree(cx, f, pos, above);
    VisitsDown(cx, f, pos, |above|);
    InPushed(above, Jumps(cx, f, pos));
    VisitsAreUnskipped(cx, f.rest, q, above);
    if Jumps(cx, f, pos) {
      NothingSeenBelowJump(cx, f.children, p, below);
    } else {
      VisitsAreUnskipped(cx, f.children, p, below);
    }
  }

  /** The visits of a DIE, of its children unless the walk jumps over them, and of the DIEs after it. */
  lemma VisitsDown(cx: Context, f: Forest, pos: nat, level: nat)
    requires f.Tree?
    ensures Visits(cx, f, pos, level)
      == [Visit(pos, Value(f.code), level)]
         + (if Jumps(cx, f, pos) then [] else Visits(cx, f.children, pos + |DieHead(f)|, level + 1))
         + Visits(cx, f.rest, pos + |EncodeDie(cx, f)|, level)
  {
    hide Value, Jumps, DieHead, EncodeDie;
  }

  // ----- what is left of a walk -----

  /**
   The lists still to be read, innermost first: the current one, then what follows
   the null entry that ends it, and so on out to level 0.
   */
  function EncodeOpen(cx: Context, open: seq<Forest>): seq<byte>
  {
    if open == [] then []
    else if |open| == 1 then Encode(cx, open[0])
    else Encode(cx, open[0]) + [0] + EncodeOpen(cx, open[1..])
  }

  predicate WellFormedOpen(cx: Context, open: seq<Forest>, pos: nat)
  {
    open != [] ==>
      && WellFormed(cx, open[0], pos)
      && WellFormedOpen(cx, open[1..], pos + |Encode(cx, open[0])| + 1)
  }

  function VisitsOpen(cx: Context, open: seq<Forest>, pos: nat): seq<Visit>
  {
    if open == [] then []
    else Visits(cx, open[0], pos, |open| - 1) + VisitsOpen(cx, open[1..], pos + |Encode(cx, open[0])| + 1)
  }

  /** What stands at pos is what is left, with the bytes after the forest behind it. */
  predicate Left(cx: Context, open: seq<Forest>, info: seq<byte>, pos: nat, end: nat)
  {
    && open != [] && WellFormedOpen(cx, open, pos)
    && At(info, pos, EncodeOpen(cx, open))
    && pos + |EncodeOpen(cx, open)| == end
  }

  /** A null entry closes the innermost list. */
  lemma CloseList(cx: Context, open: seq<Forest>, info: seq<byte>, pos: nat, end: nat)
    requires Left(cx, open, info, pos, end) && open[0].Nil? && |open| > 1
    ensures At(info, pos, [0]) && Left(cx, open[1..], info, pos + 1, end)
    ensures VisitsOpen(cx, open, pos) == VisitsOpen(cx, open[1..], pos + 1)
  {
    hide At, Value, WellFormed;
    assert Encode(cx, open[0]) + [0] + EncodeOpen(cx, open[1..]) == [0] + EncodeOpen(cx, open[1..]);
    AtSplit(info, pos, [0], EncodeOpen(cx, open[1..]));
  }

  /** The first DIE of the innermost list. */
  lemma FirstDie(cx: Context, open: seq<Forest>, info: seq<byte>, pos: nat, end: nat)
    requires Left(cx, open, info, pos, end) && open[0].Tree?
    ensures At(info, pos, open[0].code) && At(info, pos + |open[0].code|, Concat(open[0].values))
    ensures pos + |EncodeDie(cx, open[0])| <= end
    ensures pos < |info| && WellFormed(cx, open[0], pos)
    ensures Left(cx, [open[0].rest] + open[1..], info, pos + |EncodeDie(cx, open[0])|, end)
  {
    hide At, Value, Visits, WellFormed;
    var f := open[0];
    var open' := [f.rest] + open[1..];
    assert open'[1..] == open[1..];
    assert WellFormed(cx, f.rest, pos + |EncodeDie(cx, f)|) by { WellFormedRest(cx, f, pos); }
    assert EncodeOpen(cx, open) == EncodeDie(cx, f) + EncodeOpen(cx, open');
    AtSplit(info, pos, EncodeDie(cx, f), EncodeOpen(cx, open'));
    AtSplit(info, pos, DieHead(f), DieTail(cx, f));
    AtSplit(info, pos, f.code, Concat(f.values));
    CodeNotEmpty(cx, f, pos);
    FirstAt(info, pos, f.code);
  }

  lemma WellFormedRest(cx: Context, f: Forest, pos: nat)
    requires f.Tree? && WellFormed(cx, f, pos)
    ensures WellFormed(cx, f.rest, pos + |EncodeDie(cx, f)|)
    ensures WellFormed(cx, f.children, pos + |DieHead(f)|)
  {
  }

  lemma CodeNotEmpty(cx: Context, f: Forest, pos: nat)
    requires f.Tree? && WellFormed(cx, f, pos)
    ensures f.code != []
  {
  }

  /** The children of the first DIE, then the rest. */
  lemma EnterChildren(cx: Context, open: seq<Forest>, after: seq<Forest>, into: seq<Forest>, info: seq<byte>, pos: nat, end: nat)
    requires open != [] && Left(cx, open, info, pos, end) && open[0].Tree? && HasChildren(cx, open[0])
    requires after == [open[0].rest] + open[1..] && into == [open[0].children] + after
    ensures Left(cx, into, info, pos + |DieHead(open[0])|, end)
    ensures |EncodeDie(cx, open[0])| > |DieHead(open[0])|
  {
    hide At, Value, WellFormed, EncodeDie, DieHead, Encode, HasChildren, WellFormedOpen, EncodeOpen, Left;
    var f := open[0];
    FirstDie(cx, open, info, pos, end);
    DieLength(cx, f);
    WellFormedRest(cx, f, pos);
    LeftBehind(cx, open, after, info, pos, end);
    LeftInto(cx, f, after, into, info, pos, end);
  }

  /** What stands behind the first DIE, and the DIE in front of it. */
  lemma LeftBehind(cx: Context, open: seq<Forest>, after: seq<Forest>, info: seq<byte>, pos: nat, end: nat)
    requires Left(cx, open, info, pos, end) && open[0].Tree? && after == [open[0].rest] + open[1..]
    ensures At(info, pos, EncodeDie(cx, open[0])) && At(info, pos + |EncodeDie(cx, open[0])|, EncodeOpen(cx, after))
  {
    hide At, EncodeDie, WellFormedOpen, EncodeOpen;
    EncodeFirst(cx, open);
    AtSplit(info, pos, EncodeDie(cx, open[0]), EncodeOpen(cx, after));
  }

  /** Behind the head of a DIE stand its children, a null entry and what follows the DIE. */
  lemma LeftInto(cx: Context, f: Forest, after: seq<Forest>, into: seq<Forest>, info: seq<byte>, pos: nat, end: nat)
    requires f.Tree? && HasChildren(cx, f) && after != [] && into == [f.children] + after
    requires At(info, pos, EncodeDie(cx, f)) && Left(cx, after, info, pos + |EncodeDie(cx, f)|, end)
    requires WellFormed(cx, f.children, pos + |DieHead(f)|)
    ensures Left(cx, into, info, pos + |DieHead(f)|, end)
  {
    hide At, WellFormed, DieHead, Encode, HasChildren;
    var p, q := pos + |DieHead(f)|, pos + |EncodeDie(cx, f)|;
    var kids := Encode(cx, f.children) + [0];
    DieLength(cx, f);
    assert EncodeDie(cx, f) == DieHead(f) + kids;
    assert into[1..] == after;
    AtSplit(info, pos, DieHead(f), kids);
    AtSplit(info, p, kids, EncodeOpen(cx, after));
  }

  lemma EncodeFirst(cx: Context, open: seq<Forest>)
    requires open != [] && open[0].Tree?
    ensures EncodeOpen(cx, open) == EncodeDie(cx, open[0]) + EncodeOpen(cx, [open[0].rest] + open[1..])
  {
    hide EncodeDie;
    assert ([open[0].rest] + open[1..])[1..] == open[1..];
  }

  lemma VisitsCons(cx: Context, open: seq<Forest>, f: Forest, pos: nat, rest: seq<Forest>)
    requires open == [f] + rest
    ensures VisitsOpen(cx, open, pos) == Visits(cx, f, pos, |rest|) + VisitsOpen(cx, rest, pos + |Encode(cx, f)| + 1)
  {
    hide Encode, Visits;
    assert open[1..] == rest;
  }

  /** The visits that are left, past the first DIE. */
  lemma VisitsPast(cx: Context, f: Forest, pos: nat, rest: seq<Forest>)
    requires f.Tree? && (Jumps(cx, f, pos) || f.children.Nil?)
    ensures VisitsOpen(cx, [f] + rest, pos)
      == [Visit(pos, Value(f.code), |rest|)] + VisitsOpen(cx, [f.rest] + rest, pos + |EncodeDie(cx, f)|)
  {
    hide Value, Jumps, EncodeDie, DieHead, VisitsOpen, Encode, Visits;
    var p := pos + |EncodeDie(cx, f)|;
    EncodeLength(cx, f);
    VisitsCons(cx, [f] + rest, f, pos, rest);
    VisitsCons(cx, [f.rest] + rest, f.rest, p, rest);
    VisitsDown(cx, f, pos, |rest|);
    NoVisits(cx, pos + |DieHead(f)|, |rest| + 1);
    Regroup([Visit(pos, Value(f.code), |rest|)], [], Visits(cx, f.rest, p, |rest|),
            VisitsOpen(cx, rest, p + |Encode(cx, f.rest)| + 1));
  }

  lemma NoVisits(cx: Context, pos: nat, level: nat)
    ensures Visits(cx, Nil, pos, level) == []
  {
  }

  lemma DieLength(cx: Context, f: Forest)
    requires f.Tree? && HasChildren(cx, f)
    ensures |EncodeDie(cx, f)| == |DieHead(f)| + |Encode(cx, f.children)| + 1
  {
    hide DieHead, Encode;
    assert EncodeDie(cx, f) == DieHead(f) + (Encode(cx, f.children) + [0]);
  }

  /** The visits that are left, into the children of the first DIE. */
  lemma VisitsInto(cx: Context, f: Forest, pos: nat, rest: seq<Forest>, open: seq<Forest>, after: seq<Forest>, into: seq<Forest>)
    requires f.Tree? && !Jumps(cx, f, pos) && HasChildren(cx, f)
    requires open == [f] + rest && after == [f.rest] + rest && into == [f.children] + after
    ensures VisitsOpen(cx, open, pos) == [Visit(pos, Value(f.code), |rest|)] + VisitsOpen(cx, into, pos + |DieHead(f)|)
  {
    hide Value, Jumps, DieHead, VisitsOpen, EncodeDie, HasChildren, Encode, Visits;
    var p, q := pos + |DieHead(f)|, pos + |EncodeDie(cx, f)|;
    DieLength(cx, f);
    EncodeLength(cx, f);
    VisitsCons(cx, open, f, pos, rest);
    VisitsCons(cx, into, f.children, p, after);
    VisitsCons(cx, after, f.rest, q, rest);
    VisitsDown(cx, f, pos, |rest|);
    Regroup([Visit(pos, Value(f.code), |rest|)], Visits(cx, f.children, p, |rest| + 1), Visits(cx, f.rest, q, |rest|),
            VisitsOpen(cx, rest, q + |Encode(cx, f.rest)| + 1));
  }

  lemma EncodeLength(cx: Context, f: Forest)
    requires f.Tree?
    ensures |Encode(cx, f)| == |EncodeDie(cx, f)| + |Encode(cx, f.rest)|
  {
    hide EncodeDie;
  }

  lemma Regroup<T>(a: seq<T>, b: seq<T>, c: seq<T>, d: seq<T>)
    ensures a + b + c + d == a + (b + (c + d))
  {
  }

  // ----- the walk -----

  /** The declarations are those of the loaded abbreviations. */
  ghost predicate Describes(cx: Context, table: map<nat, TagSection>, abbrev: seq<byte>)
  {
    forall c :: c in table || c in cx.decls ==> DescribesCode(cx, table, abbrev, c)
  }

  ghost predicate DescribesCode(cx: Context, table: map<nat, TagSection>, abbrev: seq<byte>, c: nat)
  {
    && c in table && c in cx.decls
    && ValidAttrs(cx.decls[c].attrs)
    && table[c].number == c && table[c].hasChildren == cx.decls[c].children
    && At(abbrev, table[c].ptr, AttrList(cx.decls[c].attrs))
  }

  /** The declarations by code. */
  function ByCode(decls: seq<Decl>): map<nat, Decl>
  {
    if decls == [] then map[] else ByCode(decls[1..])[Value(decls[0].code) := decls[0]]
  }

  lemma {:induction false} ByCodeHolds(decls: seq<Decl>, c: nat)
    requires DistinctCodes(decls)
    ensures c in ByCode(decls) <==> exists k :: 0 <= k < |decls| && c == Value(decls[k].code)
    ensures forall k :: 0 <= k < |decls| && c == Value(decls[k].code) ==> c in ByCode(decls) && ByCode(decls)[c] == decls[k]
    decreases |decls|
  {
    hide Value;
    if decls != [] {
      var t := decls[1..];
      assert forall k :: 0 <= k < |t| ==> t[k] == decls[k + 1];
      ByCodeHolds(t, c);
      assert forall k :: 0 < k < |decls| ==> decls[k] == t[k - 1];
    }
  }

  /** A table that was loaded describes the declarations it was loaded from. */
  lemma LoadedDescribes(table: map<nat, TagSection>, abbrev: seq<byte>, offset: nat, decls: seq<Decl>, cx: Context)
    requires TableAt(abbrev, offset, decls) && DistinctCodes(decls) && Holds(table, decls, offset)
    requires cx.decls == ByCode(decls)
    ensures Describes(cx, table, abbrev)
  {
    hide At, Value, AttrList, Sections, EncodeDecls;
    forall c | c in table || c in cx.decls
      ensures DescribesCode(cx, table, abbrev, c)
    {
      ByCodeHolds(decls, c);
      var k :| 0 <= k < |decls| && c == Value(decls[k].code);
      assert ValidDecl(decls[k]);
      SectionPointsToAttrs(abbrev, offset, decls, k);
    }
  }

  lemma ValueAt(u: Unit, form: nat, v: seq<byte>, info: seq<byte>, pos: nat)
    requires At(info, pos, v) && FormLen(u, form, v) == Some(|v|)
    ensures FormLen(u, form, info[pos..]) == Some(|v|)
  {
    hide FormLen;
    assert info[pos..] == v + info[pos + |v|..];
    FormLenLocal(u, form, v, info[pos + |v|..]);
  }

  /** A number that fills its value is read from the place of the value. */
  lemma NumberAt(u: Unit, form: nat, v: seq<byte>, info: seq<byte>, pos: nat)
    requires At(info, pos, v) && FormLen(u, form, v) == Some(|v|) && ReadableNumber(form, v)
    ensures IsPlainNumber(form, |v|) ==> Number(u, form, v) == FileValue(info[pos..pos + |v|], u.lsb)
    ensures IsUlebNumber(form) ==> UlebLen(info[pos..]) <= 4 && Number(u, form, v) == UlebValue(info[pos..])
  {
    hide Value, FileValue;
    if IsUlebNumber(form) {
      assert LebBytes(v) == v;
      TerminatedIsLeb(v);
      LebAt(info, pos, v);
    }
  }

  // ----- the attributes of one DIE -----

  /** The rest of an attribute list: it is over exactly when a zero byte stands next. */
  lemma AttrsStart(s: seq<byte>, p: nat, attrs: seq<AttrSpec>, i: nat)
    requires ValidAttrs(attrs) && i <= |attrs| && At(s, p, AttrList(attrs[i..]))
    ensures p < |s| && (s[p] == 0 <==> i == |attrs|)
    ensures ValidAttrs(attrs[i..])
  {
    hide At, AttrList, ValidAttr;
    if i == |attrs| {
      assert attrs[i..] == [];
      EndOfAttrs(s, p);
    } else {
      NextAttr(s, p, attrs[i..]);
    }
  }

  lemma SiblingSnoc(u: Unit, attrs: seq<AttrSpec>, values: seq<seq<byte>>, i: nat)
    requires |attrs| == |values| && i < |attrs|
    ensures Sibling(u, attrs[..i + 1], values[..i + 1])
      == if Value(attrs[i].name) == DW_AT_sibling then Number(u, Value(attrs[i].form), values[i])
         else Sibling(u, attrs[..i], values[..i])
  {
    hide Value, Number;
    assert attrs[..i + 1][..i] == attrs[..i] && values[..i + 1][..i] == values[..i];
  }

  lemma NoSibling(u: Unit, attrs: seq<AttrSpec>, values: seq<seq<byte>>)
    ensures Sibling(u, attrs[..0], values[..0]) == 0
  {
  }

  lemma AcceptsUnread(u: Unit, f: nat)
    ensures Accepts(u, Unread, f)
  {
  }

  class Walker {
    var level: nat
    var next: nat
    var visits: seq<Visit>

    constructor ()
      ensures level == 0 && visits == []
    {
      level, next, visits := 0, 0, [];
    }

    /**
     The attributes of a DIE: every value is passed, whichever reader it is given
     to, and `next` is left with the last sibling attribute.
     */
    method ReadValues(u: Unit, abbrev: seq<byte>, ptr: nat, info: seq<byte>, pos: nat, avail: nat, how: nat -> Choice,
                      indexed: nat -> word, ghost attrs: seq<AttrSpec>, ghost values: seq<seq<byte>>)
      returns (pos': nat, avail': nat)
      requires pos + avail == |info|
      requires ValuesFit(u, attrs, values) && At(abbrev, ptr, AttrList(attrs)) && At(info, pos, Concat(values))
      modifies this`next
      ensures pos' == pos + |Concat(values)| && pos' + avail' == |info|
      ensures next == Sibling(u, attrs, values)
    {
      hide At, Value, AttrList, FormLen, FileValue, LebBytes, IsLeb, EncodeAttr, Number, ReadableNumber, Accepts, ValidAttrs,
           Sibling;
      pos', avail' := pos, avail;
      next := 0;
      assert attrs[0..] == attrs && values[0..] == values;
      NoSibling(u, attrs, values);
      AttrsStart(abbrev, ptr, attrs, 0);
      var p: nat, i := ptr, 0;
      var left: nat := |abbrev| - ptr;
      while abbrev[p] != 0
        invariant i <= |attrs| && ValidAttrs(attrs[i..]) && p + left == |abbrev| && pos' + avail' == |info|
        invariant p < |abbrev| && At(abbrev, p, AttrList(attrs[i..])) && (abbrev[p] == 0 <==> i == |attrs|)
        invariant At(info, pos', Concat(values[i..])) && pos' + |Concat(values[i..])| == pos + |Concat(values)|
        invariant next == Sibling(u, attrs[..i], values[..i])
        decreases |attrs| - i
      {
        var name, form;
        ghost var rest, v := attrs[i..], values[i];
        assert ValueFits(u, attrs[i], v);
        name, form, p, left := ReadAttr(abbrev, p, left, rest);
        assert rest[1..] == attrs[i + 1..] && values[i..][1..] == values[i + 1..];
        AtSplit(info, pos', v, Concat(values[i + 1..]));
        ValueAt(u, form, v, info, pos');
        SiblingSnoc(u, attrs, values, i);
        if name == DW_AT_sibling {
          pos', avail' := ReadSibling(u, form, info, pos', avail', indexed, v);
        } else {
          var c := if Accepts(u, how(i), form) then how(i) else Unread;
          assert Accepts(u, c, form) by { AcceptsUnread(u, form); }
          pos', avail' := Consume(u, c, form, info, pos', avail', indexed, 0);
        }
        i := i + 1;
        AttrsStart(abbrev, p, attrs, i);
      }
      assert attrs[..i] == attrs && values[..i] == values;
    }

    method ReadSibling(u: Unit, form: nat, info: seq<byte>, pos: nat, avail: nat, indexed: nat -> word, ghost v: seq<byte>)
      returns (pos': nat, avail': nat)
      requires pos + avail == |info| && At(info, pos, v)
      requires FormLen(u, form, v) == Some(|v|) && ReadableNumber(form, v)
      modifies this`next
      ensures pos' == pos + |v| && pos' + avail' == |info| && next == Number(u, form, v)
    {
      hide At, Value, FormLen, FileValue, LebBytes, Number;
      ValueAt(u, form, v, info, pos);
      NumberAt(u, form, v, info, pos);
      var r;
      r, pos', avail' := FormDataValue(u, form, info, pos, avail, indexed, 0);
      next := r.value;
    }

    /**
     One DIE whose code has been read: it is visited, its values are passed, and the
     walk goes on behind it, or behind its head with its children next. `stop` says
     that a jump ended at the end of the section.
     */
    method WalkDie(cx: Context, section: TagSection, abbrev: seq<byte>, info: seq<byte>, tagId: nat, pos: nat, avail: nat,
                   how: nat -> Choice, indexed: nat -> word, ghost open: seq<Forest>, ghost last: nat)
      returns (pos': nat, avail': nat, stop: bool, ghost open': seq<Forest>)
      requires pos + avail == |info| && Left(cx, open, info, tagId, last) && open[0].Tree? && |open| == level + 1
      requires FirstIs(cx, open[0], section, abbrev, info, tagId, pos)
      modifies this
      ensures pos' > tagId && pos' + avail' == |info|
      ensures Left(cx, open', info, pos', last) && |open'| == level + 1
      ensures visits + VisitsOpen(cx, open', pos') == old(visits) + VisitsOpen(cx, open, tagId)
      ensures stop ==> avail' == 0
    {
      hide At, Value, Left, Visits, VisitsOpen, EncodeDie, DieHead, Sibling, ValuesFit, Jumps, AttrList, Concat;
      ghost var die, outer := open[0], open[1..];
      ghost var attrs := cx.decls[Value(die.code)].attrs;
      assert open == [die] + outer;
      visits := visits + [Visit(tagId, section.number, level)];
      pos', avail' := ReadValues(cx.u, abbrev, section.ptr, info, pos, avail, how, indexed, attrs, die.values);
      FirstDie(cx, open, info, tagId, last);
      Settle(cx, open, info, tagId, last);
      JumpTaken(cx, die, tagId);
      if Jumps(cx, die, tagId) || die.children.Nil? { VisitsPast(cx, die, tagId, outer); }
      stop, open' := false, [die.rest] + outer;
      if !cx.registered(tagId) && next != 0 && cx.cuStart + next > pos' {
        avail' := avail' - (cx.cuStart + next - pos');
        pos' := cx.cuStart + next;
        stop := avail' == 0;
      } else if section.hasChildren != 0 {
        open' := [die.children] + ([die.rest] + outer);
        EnterChildren(cx, open, [die.rest] + outer, open', info, tagId, last);
        VisitsInto(cx, die, tagId, outer, open, [die.rest] + outer, open');
        level := level + 1;
      }
    }

    /**
     Walks a unit whose DIEs are a well-formed forest, with null entries and then
     possibly something that starts with an undeclared code behind them. Every
     visit is as specified, the level ends at zero, and only the undeclared code
     makes the walk fail.
     */
    method WalkUnit(cx: Context, table: map<nat, TagSection>, abbrev: seq<byte>, info: seq<byte>, start: nat, end: nat,
                    how: (nat, nat) -> Choice, indexed: nat -> word, ghost f: Forest, ghost pad: nat, ghost bad: seq<byte>)
      returns (ok: bool, pos: nat)
      requires Describes(cx, table, abbrev)
      requires UnitAt(cx, f, pad, bad, info, start, end)
      modifies this
      ensures visits == old(visits) + Visits(cx, f, start, 0)
      ensures level == 0
      ensures ok <==> bad == []
      ensures ok ==> pos == end
    {
      hide At, Value, LebBytes, Describes, Left, Visits, VisitsOpen, UnitAt, EncodeDie, DieHead, Sibling, ValuesFit, Jumps,
           ShortLeb, AttrList, Zeros, FirstIs, Concat;
      level := 0;
      var avail;
      pos, avail := start, |info| - start;
      ghost var open, last := [f], start + |Encode(cx, f)|;
      ghost var all := visits + Visits(cx, f, start, 0);
      UnitStart(cx, f, pad, bad, info, start, end);
      Settle(cx, open, info, start, last);
      while pos < end
        invariant start <= pos <= last + pad && pos + avail == |info|
        invariant open != [] && level == |open| - 1
        invariant pos <= last ==> Left(cx, open, info, pos, last)
        invariant pos >= last <==> open == [Nil]
        invariant visits + VisitsOpen(cx, open, pos) == all
        decreases end - pos
      {
        var tagId := pos;
        if pos >= last {
          AfterForest(cx, f, pad, bad, info, start, end, pos);
        } else if open[0].Nil? {
          CloseList(cx, open, info, pos, last);
          ZeroAt(info, pos);
        } else {
          FirstDie(cx, open, info, pos, last);
          WellFormedHead(cx, open[0], pos);
          DeclaredCode(cx, table, abbrev, Value(open[0].code));
          HeadFacts(cx, open[0], info, pos, table, abbrev);
        }
        var code;
        code, pos, avail := Uleb128(info, pos, avail);
        if code == 0 {
          if level > 0 { level := level - 1; }
          if tagId < last {
            open := open[1..];
            Settle(cx, open, info, pos, last);
          } else {
            NothingOpen(cx, tagId);
            NothingOpen(cx, pos);
          }
        } else {
          if code !in table {
            NothingOpen(cx, tagId);
            return false, pos;
          }
          DeclaredCode(cx, table, abbrev, code);
          var stop;
          pos, avail, stop, open := WalkDie(cx, table[code], abbrev, info, tagId, pos, avail, (i: nat) => how(tagId, i), indexed,
                                            open, last);
          Settle(cx, open, info, pos, last);
          if stop { break; }
        }
      }
      NothingOpen(cx, pos);
      ok := true;
    }
  }

  // ----- a whole unit -----

  function Zeros(n: nat): (r: seq<byte>)
    ensures |r| == n && forall k :: 0 <= k < n ==> r[k] == 0
  {
    if n == 0 then [] else [0] + Zeros(n - 1)
  }

  /** A unit: a forest, null entries, and nothing more or an undeclared code with anything behind it. */
  predicate UnitAt(cx: Context, f: Forest, pad: nat, bad: seq<byte>, info: seq<byte>, start: nat, end: nat)
  {
    var p := start + |Encode(cx, f)|;
    && WellFormed(cx, f, start)
    && At(info, start, Encode(cx, f))
    && At(info, p, Zeros(pad))
    && (bad == [] ==> end == p + pad)
    && (bad != [] ==> ShortLeb(bad) && Value(bad) != 0 && Value(bad) !in cx.decls && At(info, p + pad, bad))
    && p + pad + |bad| <= end <= |info|
  }

  lemma DeclaredCode(cx: Context, table: map<nat, TagSection>, abbrev: seq<byte>, c: nat)
    requires Describes(cx, table, abbrev) && (c in table || c in cx.decls)
    ensures DescribesCode(cx, table, abbrev, c)
  {
  }

  lemma UnitStart(cx: Context, f: Forest, pad: nat, bad: seq<byte>, info: seq<byte>, start: nat, end: nat)
    requires UnitAt(cx, f, pad, bad, info, start, end)
    ensures start + |Encode(cx, f)| + pad <= end <= |info|
    ensures bad == [] <==> start + |Encode(cx, f)| + pad == end
    ensures Left(cx, [f], info, start, start + |Encode(cx, f)|)
    ensures VisitsOpen(cx, [f], start) == Visits(cx, f, start, 0)
  {
    hide Value, Visits, WellFormed;
    assert [f][1..] == [] && WellFormedOpen(cx, [f], start);
    assert VisitsOpen(cx, [f], start) == Visits(cx, f, start, 0) + VisitsOpen(cx, [], start + |Encode(cx, f)| + 1);
  }

  lemma NothingOpen(cx: Context, pos: nat)
    ensures VisitsOpen(cx, [Nil], pos) == []
  {
    assert [Nil][1..] == [];
  }

  /** Something is left exactly as long as the end of the forest is not reached. */
  lemma Settle(cx: Context, open: seq<Forest>, info: seq<byte>, pos: nat, end: nat)
    requires Left(cx, open, info, pos, end)
    ensures pos <= end <= |info|
    ensures pos == end <==> open == [Nil]
  {
    hide Value;
    if open[0].Tree? {
      CodeNotEmpty(cx, open[0], pos);
      EncodeFirst(cx, open);
    }
  }

  lemma ZeroAt(info: seq<byte>, pos: nat)
    requires At(info, pos, [0])
    ensures UlebLen(info[pos..]) == 1 && UlebValue(info[pos..]) == 0
  {
    LebAt(info, pos, [0]);
    assert [0][..0] == [];
  }

  lemma AfterForest(cx: Context, f: Forest, pad: nat, bad: seq<byte>, info: seq<byte>, start: nat, end: nat, pos: nat)
    requires UnitAt(cx, f, pad, bad, info, start, end)
    requires start + |Encode(cx, f)| <= pos <= start + |Encode(cx, f)| + pad && pos < end
    ensures var s := info[pos..];
      if pos < start + |Encode(cx, f)| + pad then UlebLen(s) == 1 && UlebValue(s) == 0
      else bad != [] && UlebLen(s) <= 4 && UlebValue(s) != 0 && UlebValue(s) !in cx.decls
  {
    hide Value, WellFormed, LebBytes, Encode;
    var p := start + |Encode(cx, f)|;
    if pos < p + pad {
      assert info[pos] == info[p..p + pad][pos - p] == 0;
      assert At(info, pos, [0]);
      ZeroAt(info, pos);
    } else {
      LebAt(info, pos, bad);
    }
  }

  /** The code of a DIE is declared and its values fit. */
  predicate HeadWellFormed(cx: Context, f: Forest)
    requires f.Tree?
  {
    && ShortLeb(f.code) && Value(f.code) != 0 && Value(f.code) in cx.decls
    && ValuesFit(cx.u, cx.decls[Value(f.code)].attrs, f.values)
  }

  lemma WellFormedHead(cx: Context, f: Forest, pos: nat)
    requires f.Tree? && WellFormed(cx, f, pos)
    ensures HeadWellFormed(cx, f)
  {
    hide Value, Sibling, ValuesFit, EncodeDie, DieHead, ShortLeb;
  }

  lemma HeadFacts(cx: Context, f: Forest, info: seq<byte>, pos: nat, table: map<nat, TagSection>, abbrev: seq<byte>)
    requires f.Tree? && HeadWellFormed(cx, f) && DescribesCode(cx, table, abbrev, Value(f.code))
    requires At(info, pos, f.code) && At(info, pos + |f.code|, Concat(f.values))
    ensures UlebLen(info[pos..]) == |f.code| <= 4 && UlebValue(info[pos..]) == Value(f.code)
    ensures var c := Value(f.code);
      && c != 0 && c in cx.decls && c in table
      && FirstIs(cx, f, table[c], abbrev, info, pos, pos + |f.code|)
  {
    hide At, Value, ValuesFit, Sibling, AttrList, Concat, LebBytes;
    LebAt(info, pos, f.code);
  }

  /** The code of a DIE has been read, and section is its declaration's. */
  ghost predicate FirstIs(cx: Context, f: Forest, section: TagSection, abbrev: seq<byte>, info: seq<byte>, tagId: nat, pos: nat)
    requires f.Tree?
  {
    var c := Value(f.code);
    && c in cx.decls && section.number == c
    && ValuesFit(cx.u, cx.decls[c].attrs, f.values)
    && At(abbrev, section.ptr, AttrList(cx.decls[c].attrs))
    && (section.hasChildren != 0 <==> HasChildren(cx, f))
    && pos == tagId + |f.code| && pos > tagId
    && At(info, pos, Concat(f.values)) && tagId + |DieHead(f)| == pos + |Concat(f.values)|
  }

  /** The test for a jump succeeds exactly where the specification jumps, and lands behind the DIE. */
  lemma JumpTaken(cx: Context, f: Forest, pos: nat)
    requires f.Tree? && WellFormed(cx, f, pos)
    ensures var d, p := cx.decls[Value(f.code)], pos + |DieHead(f)|;
      && var s := Sibling(cx.u, d.attrs, f.values);
      && (!cx.registered(pos) && s != 0 && cx.cuStart + s > p <==> Jumps(cx, f, pos))
      && (s != 0 ==> cx.cuStart + s == pos + |EncodeDie(cx, f)|)
      && (!HasChildren(cx, f) ==> f.children.Nil? && pos + |EncodeDie(cx, f)| == p)
  {
    hide Value, Sibling, DieHead;
    var d := cx.decls[Value(f.code)];
    assert |d.attrs| == |f.values|;
    assert |EncodeDie(cx, f)| == |DieHead(f)| + |DieTail(cx, f)|;
    assert HasChildren(cx, f) <==> |DieTail(cx, f)| > 0;
  }

  // ----- an example -----

  /** A parent declaration and one for its child, neither with attributes. */
  function SmallDecls(): seq<Decl> { [Decl([1], [0x11], 1, []), Decl([2], [0x34], 0, [])] }

  function SmallContext(registered: nat -> bool): Context { Context(Unit(8, true), 0, ByCode(SmallDecls()), registered) }

  function SmallForest(): Forest { Tree([1], [], Tree([2], [], Nil, Nil), Nil) }

  lemma SmallNumbers()
    ensures forall b: byte :: 0 < b < 128 ==> ShortLeb([b]) && Value([b]) == b
  {
    forall b: byte | 0 < b < 128 ensures ShortLeb([b]) && Value([b]) == b {
      assert [b][..0] == [];
      assert Pow128(0) == 1;
    }
  }

  lemma SmallTable(registered: nat -> bool)
    ensures DistinctCodes(SmallDecls()) && ValidDecls(SmallDecls())
    ensures SmallContext(registered).decls == map[1 := SmallDecls()[0], 2 := SmallDecls()[1]]
  {
    hide ShortLeb, Value;
    var decls := SmallDecls();
    SmallNumbers();
    assert decls[1..][1..] == [];
    assert ByCode(decls[1..]) == map[2 := decls[1]];
    assert ByCode(decls) == map[2 := decls[1]][1 := decls[0]];
  }

  lemma SmallEncoding(registered: nat -> bool)
    ensures var cx, f := SmallContext(registered), SmallForest();
      && Encode(cx, f) == EncodeDie(cx, f) == [1, 2, 0] && DieHead(f) == [1]
      && Encode(cx, f.children) == EncodeDie(cx, f.children) == [2]
      && HasChildren(cx, f) && !HasChildren(cx, f.children)
  {
    hide ByCode;
    var cx, f := SmallContext(registered), SmallForest();
    SmallNumbers();
    SmallTable(registered);
    hide Value, SmallContext;
    assert DieHead(f) == [1] && DieHead(f.children) == [2];
    assert EncodeDie(cx, f.children) == [2];
    assert Encode(cx, f.children) == [2] + Encode(cx, Nil) == [2];
    assert EncodeDie(cx, f) == [1] + ([2] + [0]) == [1, 2, 0];
    assert Encode(cx, f) == [1, 2, 0] + Encode(cx, Nil) == [1, 2, 0];
  }

  /** What the walk asks of a unit is met by a parent with one child, which are visited at levels 0 and 1. */
  lemma SmallUnit(registered: nat -> bool)
    ensures var cx, f := SmallContext(registered), SmallForest();
      && UnitAt(cx, f, 0, [], [1, 2, 0], 0, 3)
      && Visits(cx, f, 0, 0) == [Visit(0, 1, 0), Visit(1, 2, 1)]
  {
    hide ByCode;
    var cx, f := SmallContext(registered), SmallForest();
    SmallNumbers();
    SmallTable(registered);
    SmallEncoding(registered);
    hide Value, ShortLeb, Encode, EncodeDie, DieHead, HasChildren, SmallContext;
    assert Sibling(cx.u, [], []) == 0;
    assert WellFormed(cx, f.children, 1);
    assert WellFormed(cx, f, 0);
    assert !Jumps(cx, f, 0);
    assert Visits(cx, f.children, 1, 1) == [Visit(1, 2, 1)];
  }
}
