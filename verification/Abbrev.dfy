/**
 Abbreviation tables: what an encoded list of declarations loads as, and the
 attribute list found at the position kept for a declaration.
 */
module Abbrev {
  import opened Bytes
  import opened Leb128
  import opened Uleb
  import opened Forms

  // ----- bytes at a place -----

  /** The bytes bs stand in s from position pos on. */
  predicate At(s: seq<byte>, pos: nat, bs: seq<byte>)
  {
    pos + |bs| <= |s| && s[pos..pos + |bs|] == bs
  }

  lemma AtSplit(s: seq<byte>, pos: nat, a: seq<byte>, b: seq<byte>)
    ensures At(s, pos, a + b) <==> At(s, pos, a) && At(s, pos + |a|, b)
  {
    if pos + |a| + |b| <= |s| {
      var t := s[pos..pos + |a + b|];
      assert t[..|a|] == s[pos..pos + |a|] && t[|a|..] == s[pos + |a|..pos + |a| + |b|];
      assert (a + b)[..|a|] == a && (a + b)[|a|..] == b;
      assert t == t[..|a|] + t[|a|..];
    }
  }

  /** A number that stands at a place is what the reader finds there. */
  lemma LebAt(s: seq<byte>, pos: nat, bs: seq<byte>)
    requires At(s, pos, bs) && IsLeb(bs)
    ensures UlebLen(s[pos..]) == |bs| && UlebValue(s[pos..]) == Value(bs)
  {
    hide LebBytes, Value, IsLeb;
    assert s[pos..] == bs + s[pos + |bs|..];
    UlebFront(bs, s[pos + |bs|..]);
  }

  /** A number other than zero does not start with a zero byte. */
  lemma NonZeroFirst(bs: seq<byte>)
    requires IsLeb(bs) && Value(bs) != 0
    ensures bs != [] && bs[0] != 0
  {
    if bs[0] == 0 { ZeroByteIsZero(bs); }
  }

  lemma ZeroByteIsZero(bs: seq<byte>)
    requires IsLeb(bs) && bs[0] == 0
    ensures Value(bs) == 0
  {
    if |bs| > 1 { StartsWithMore(bs); }
    assert bs[..0] == [];
  }

  lemma StartsWithMore(bs: seq<byte>)
    requires IsLeb(bs) && |bs| > 1
    ensures More(bs[0])
  {
    assert More(bs[..|bs| - 1][0]);
  }

  // ----- declarations, section 7.5.3 of DWARF 5 -----

  /** An attribute as encoded: its name, its form and the constant of DW_FORM_implicit_const. */
  datatype AttrSpec = AttrSpec(name: seq<byte>, form: seq<byte>, constant: seq<byte>)

  datatype Decl = Decl(code: seq<byte>, tag: seq<byte>, children: byte, attrs: seq<AttrSpec>)

  predicate ValidAttr(a: AttrSpec)
  {
    && ShortLeb(a.name) && Value(a.name) != 0
    && ShortLeb(a.form)
    && if Value(a.form) == DW_FORM_implicit_const then IsLeb(a.constant) else a.constant == []
  }

  predicate ValidDecl(d: Decl)
  {
    && ShortLeb(d.code) && Value(d.code) != 0
    && ShortLeb(d.tag)
    && ValidAttrs(d.attrs)
  }

  predicate ValidAttrs(attrs: seq<AttrSpec>) { forall k :: 0 <= k < |attrs| ==> ValidAttr(attrs[k]) }

  predicate ValidDecls(decls: seq<Decl>) { forall k :: 0 <= k < |decls| ==> ValidDecl(decls[k]) }

  predicate DistinctCodes(decls: seq<Decl>)
  {
    forall j, k :: 0 <= j < k < |decls| ==> Value(decls[j].code) != Value(decls[k].code)
  }

  function EncodeAttr(a: AttrSpec): seq<byte> { a.name + a.form + a.constant }

  function EncodeAttrs(attrs: seq<AttrSpec>): seq<byte>
  {
    if attrs == [] then [] else EncodeAttr(attrs[0]) + EncodeAttrs(attrs[1..])
  }

  function AttrList(attrs: seq<AttrSpec>): seq<byte> { EncodeAttrs(attrs) + [0, 0] }

  function DeclHead(d: Decl): seq<byte> { d.code + d.tag + [d.children] }

  function EncodeDecl(d: Decl): seq<byte> { DeclHead(d) + AttrList(d.attrs) }

  function EncodeDecls(decls: seq<Decl>): seq<byte>
  {
    if decls == [] then [] else EncodeDecl(decls[0]) + EncodeDecls(decls[1..])
  }

  /** What is kept of a declaration: ptr is where its attributes start. */
  datatype TagSection = TagSection(number: nat, tag: nat, hasChildren: byte, ptr: nat)

  /** The sections of declarations encoded from a position on. */
  function Sections(decls: seq<Decl>, pos: nat): (r: seq<TagSection>)
    ensures |r| == |decls|
  {
    if decls == [] then []
    else [SectionOf(decls[0], pos)] + Sections(decls[1..], pos + |EncodeDecl(decls[0])|)
  }

  function SectionOf(d: Decl, pos: nat): TagSection
  {
    TagSection(Value(d.code), Value(d.tag), d.children, pos + |DeclHead(d)|)
  }

  /** At the position kept in each section stand the attributes of its declaration. */
  lemma {:induction false} SectionPointsToAttrs(s: seq<byte>, pos: nat, decls: seq<Decl>, k: nat)
    requires At(s, pos, EncodeDecls(decls)) && k < |decls|
    ensures Sections(decls, pos)[k].number == Value(decls[k].code)
    ensures Sections(decls, pos)[k].hasChildren == decls[k].children
    ensures At(s, Sections(decls, pos)[k].ptr, AttrList(decls[k].attrs))
    decreases k
  {
    hide At, Value, AttrList, DeclHead;
    var d := decls[0];
    AtSplit(s, pos, EncodeDecl(d), EncodeDecls(decls[1..]));
    if k == 0 {
      AtSplit(s, pos, DeclHead(d), AttrList(d.attrs));
    } else {
      SectionPointsToAttrs(s, pos + |EncodeDecl(d)|, decls[1..], k - 1);
    }
  }

  /** The place of a later section does not depend on where counting starts. */
  lemma {:induction false} SectionsFrom(decls: seq<Decl>, pos: nat, k: nat)
    requires k < |decls|
    ensures var p := pos + |EncodeDecls(decls[..k])|;
      && Sections(decls, pos)[k] == SectionOf(decls[k], p)
      && EncodeDecls(decls[..k + 1]) == EncodeDecls(decls[..k]) + EncodeDecl(decls[k])
    decreases k
  {
    hide EncodeDecl, SectionOf;
    assert decls[..k + 1] == [decls[0]] + decls[1..][..k];
    if k > 0 {
      SectionsFrom(decls[1..], pos + |EncodeDecl(decls[0])|, k - 1);
      assert decls[..k] == [decls[0]] + decls[1..][..k - 1];
    }
  }

  /** One attribute of a list, and the rest of the list. */
  lemma NextAttr(s: seq<byte>, pos: nat, attrs: seq<AttrSpec>)
    requires attrs != [] && ValidAttrs(attrs) && At(s, pos, AttrList(attrs))
    ensures var a := attrs[0];
      var p, q := pos + |a.name|, pos + |a.name| + |a.form|;
      && At(s, pos, a.name) && pos < |s| && s[pos] != 0
      && At(s, p, a.form)
      && At(s, q, a.constant)
      && At(s, q + |a.constant|, AttrList(attrs[1..]))
      && |EncodeAttrs(attrs)| == |EncodeAttr(a)| + |EncodeAttrs(attrs[1..])|
  {
    hide At, Value, IsLeb, AttrList, EncodeAttrs, EncodeAttr, ValidAttr;
    var a := attrs[0];
    assert ValidAttr(a);
    FirstOfList(attrs);
    AtSplit(s, pos, EncodeAttr(a), AttrList(attrs[1..]));
    AttrAt(s, pos, a);
  }

  lemma FirstOfList(attrs: seq<AttrSpec>)
    requires attrs != []
    ensures EncodeAttrs(attrs) == EncodeAttr(attrs[0]) + EncodeAttrs(attrs[1..])
    ensures AttrList(attrs) == EncodeAttr(attrs[0]) + AttrList(attrs[1..])
  {
    hide EncodeAttr;
  }

  /** The parts of an attribute stand one behind the other. */
  lemma AttrAt(s: seq<byte>, pos: nat, a: AttrSpec)
    requires ValidAttr(a) && At(s, pos, EncodeAttr(a))
    ensures At(s, pos, a.name) && pos < |s| && s[pos] != 0
    ensures At(s, pos + |a.name|, a.form) && At(s, pos + |a.name| + |a.form|, a.constant)
    ensures |EncodeAttr(a)| == |a.name| + |a.form| + |a.constant|
  {
    hide At, Value, IsLeb;
    AtSplit(s, pos, a.name + a.form, a.constant);
    AtSplit(s, pos, a.name, a.form);
    NonZeroFirst(a.name);
    FirstAt(s, pos, a.name);
  }

  lemma FirstAt(s: seq<byte>, pos: nat, bs: seq<byte>)
    requires At(s, pos, bs) && bs != []
    ensures pos < |s| && s[pos] == bs[0]
  {
    assert s[pos] == s[pos..pos + |bs|][0];
  }

  lemma EndOfAttrs(s: seq<byte>, pos: nat)
    requires At(s, pos, AttrList([]))
    ensures pos + 2 <= |s| && s[pos] == 0
  {
    FirstAt(s, pos, AttrList([]));
  }

  /** Reads one attribute's name and form and passes the constant behind them. */
  method ReadAttr(s: seq<byte>, pos: nat, avail: nat, ghost attrs: seq<AttrSpec>)
    returns (name: nat, form: nat, pos': nat, avail': nat)
    requires pos + avail == |s|
    requires attrs != [] && ValidAttrs(attrs) && At(s, pos, AttrList(attrs))
    ensures name == Value(attrs[0].name) && form == Value(attrs[0].form)
    ensures pos' == pos + |EncodeAttr(attrs[0])| && pos' + avail' == |s|
    ensures At(s, pos', AttrList(attrs[1..]))
  {
    hide At, Value, IsLeb, LebBytes, AttrList;
    ghost var a := attrs[0];
    assert ValidAttr(a);
    NextAttr(s, pos, attrs);
    LebAt(s, pos, a.name);
    name, pos', avail' := Uleb128(s, pos, avail);
    LebAt(s, pos', a.form);
    form, pos', avail' := Uleb128(s, pos', avail');
    if form == DW_FORM_implicit_const {
      LebAt(s, pos', a.constant);
      var _, p, n := Sleb128(s, pos', avail');
      pos', avail' := p, n;
    }
  }

  // ----- loading -----

  /** The declarations found at a place, with nothing or a zero byte behind them. */
  predicate TableAt(s: seq<byte>, pos: nat, decls: seq<Decl>)
  {
    && ValidDecls(decls)
    && At(s, pos, EncodeDecls(decls))
    && var p := pos + |EncodeDecls(decls)|;
       p == |s| || s[p] == 0
  }

  /** The table holds the section of each declaration, and nothing else. */
  ghost predicate Holds(table: map<nat, TagSection>, decls: seq<Decl>, pos: nat)
  {
    && (forall k :: 0 <= k < |decls| ==>
         Value(decls[k].code) in table && table[Value(decls[k].code)] == Sections(decls, pos)[k])
    && forall c :: c in table ==> exists k :: 0 <= k < |decls| && c == Value(decls[k].code)
  }

  /** The first k declarations are loaded: what stands next, and what is known of the codes. */
  lemma NextDecl(s: seq<byte>, pos: nat, decls: seq<Decl>, k: nat)
    requires TableAt(s, pos, decls) && k < |decls|
    ensures var d, p := decls[k], pos + |EncodeDecls(decls[..k])|;
      && ValidDecl(d)
      && p < |s|
      && At(s, p, d.code) && s[p] != 0
      && At(s, p + |d.code|, d.tag)
      && At(s, p + |d.code| + |d.tag|, [d.children])
      && At(s, p + |DeclHead(d)|, AttrList(d.attrs))
      && Sections(decls, pos)[k] == SectionOf(d, p)
      && pos + |EncodeDecls(decls[..k + 1])| == p + |EncodeDecl(d)|
  {
    hide At, Value, IsLeb, AttrList, EncodeDecls;
    var d, p := decls[k], pos + |EncodeDecls(decls[..k])|;
    SectionsFrom(decls, pos, k);
    DeclsSplit(decls, k + 1);
    AtSplit(s, pos, EncodeDecls(decls[..k + 1]), EncodeDecls(decls[k + 1..]));
    AtSplit(s, pos, EncodeDecls(decls[..k]), EncodeDecl(d));
    AtSplit(s, p, DeclHead(d), AttrList(d.attrs));
    AtSplit(s, p, d.code + d.tag, [d.children]);
    AtSplit(s, p, d.code, d.tag);
    NonZeroFirst(d.code);
    FirstAt(s, p, d.code);
  }

  lemma {:induction false} DeclsSplit(decls: seq<Decl>, k: nat)
    requires k <= |decls|
    ensures EncodeDecls(decls) == EncodeDecls(decls[..k]) + EncodeDecls(decls[k..])
    decreases k
  {
    hide EncodeDecl;
    if k > 0 {
      DeclsSplit(decls[1..], k - 1);
      assert decls[..k] == [decls[0]] + decls[1..][..k - 1];
      assert decls[1..][k - 1..] == decls[k..];
    }
  }

  /** The abbreviations of the unit that is being read. */
  class CompilationUnit {
    var sections: map<nat, TagSection>

    constructor ()
      ensures sections == map[]
    {
      sections := map[];
    }

    /**
     A table with distinct codes loads as exactly its declarations. A repeated
     code is an error that leaves nothing loaded; an offset outside the section
     is one that leaves the previous table.
     */
    method LoadAbbrevTags(s: seq<byte>, offset: nat, ghost decls: seq<Decl>) returns (ok: bool)
      requires offset < |s| ==> TableAt(s, offset, decls)
      modifies this
      ensures ok <==> offset < |s| && DistinctCodes(decls)
      ensures ok ==> Holds(sections, decls, offset)
      ensures offset < |s| && !ok ==> sections == map[]
      ensures offset >= |s| ==> sections == old(sections)
    {
      hide At, Value, IsLeb, LebBytes, AttrList, EncodeDecls, SectionOf, Sections, EncodeDecl;
      if offset >= |s| { return false; }
      sections := map[];
      var pos, avail := offset, |s| - offset;
      ghost var k := 0;
      assert EncodeDecls(decls[..0]) == [] by { NoDecls(decls); }
      while avail > 0 && s[pos] != 0
        invariant 0 <= k <= |decls| && pos + avail == |s|
        invariant pos == offset + |EncodeDecls(decls[..k])|
        invariant Loaded(sections, decls, offset, k)
        decreases avail
      {
        assert decls[..|decls|] == decls;
        NextDecl(s, offset, decls, k);
        ghost var d, p := decls[k], pos;
        LebAt(s, pos, d.code);
        var number, tag;
        number, pos, avail := Uleb128(s, pos, avail);
        LebAt(s, pos, d.tag);
        tag, pos, avail := Uleb128(s, pos, avail);
        FirstAt(s, pos, [d.children]);
        var section := TagSection(number, tag, s[pos], pos + 1);
        pos, avail := pos + 1, avail - 1;
        assert section == SectionOf(d, p) by { SectionIs(d, p, section); }
        if number in sections {
          sections := map[];
          return false;
        }
        sections := sections[number := section];
        pos, avail := SkipAttrs(s, pos, avail, d.attrs);
        pos, avail := pos + 2, avail - 2;
        DeclLength(d);
        k := k + 1;
      }
      if k < |decls| { NextDecl(s, offset, decls, k); }
      assert decls[..k] == decls;
      return true;
    }
  }

  /** The first k declarations have been loaded and have distinct codes. */
  ghost predicate Loaded(table: map<nat, TagSection>, decls: seq<Decl>, pos: nat, k: nat)
    requires k <= |decls|
  {
    && DistinctCodes(decls[..k])
    && (forall j :: 0 <= j < k ==>
         Value(decls[j].code) in table && table[Value(decls[j].code)] == Sections(decls, pos)[j])
    && forall c :: c in table ==> exists j :: 0 <= j < k && c == Value(decls[j].code)
  }

  lemma SectionIs(d: Decl, pos: nat, section: TagSection)
    requires section == TagSection(Value(d.code), Value(d.tag), d.children, pos + |d.code| + |d.tag| + 1)
    ensures section == SectionOf(d, pos)
  {
  }

  lemma DeclLength(d: Decl)
    ensures |EncodeDecl(d)| == |d.code| + |d.tag| + 1 + |EncodeAttrs(d.attrs)| + 2
  {
  }

  lemma NoDecls(decls: seq<Decl>)
    ensures EncodeDecls(decls[..0]) == []
  {
  }

  /** Passes the attributes of a declaration, up to the zeros that end them. */
  method SkipAttrs(s: seq<byte>, pos: nat, avail: nat, ghost attrs: seq<AttrSpec>)
    returns (pos': nat, avail': nat)
    requires pos + avail == |s| && ValidAttrs(attrs) && At(s, pos, AttrList(attrs))
    ensures pos' == pos + |EncodeAttrs(attrs)| && pos' + avail' == |s| && avail' >= 2
  {
    hide At, Value, IsLeb, LebBytes, AttrList, EncodeAttr;
    pos', avail' := pos, avail;
    ghost var rest := attrs;
    if rest != [] { NextAttr(s, pos', rest); } else { EndOfAttrs(s, pos'); }
    while avail' > 0 && s[pos'] != 0
      invariant pos' + avail' == |s| && ValidAttrs(rest) && At(s, pos', AttrList(rest))
      invariant pos' + |EncodeAttrs(rest)| == pos + |EncodeAttrs(attrs)|
      invariant pos' < |s| && (s[pos'] == 0 <==> rest == []) && (rest == [] ==> avail' >= 2)
      decreases |rest|
    {
      var _, _, p, n := ReadAttr(s, pos', avail', rest);
      pos', avail', rest := p, n, rest[1..];
      if rest != [] { NextAttr(s, pos', rest); } else { EndOfAttrs(s, pos'); }
    }
  }
}
