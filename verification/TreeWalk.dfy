/**
 The walk over a balanced unit drives the tree builder: when the stacks agree with
 the depth at every DIE, and when the stack is the path of the DIE's ancestors.
 */
module TreeWalk {
  import opened Bytes
  import opened TreeStack

  /**
   What the builder is told of a DIE. `known`: its element is a duplicate of one
   already dumped; `jumps`: it has a usable sibling attribute; `located`: it has an
   attribute kept with a parameter, a location, direction, optional or variable one.
   */
  datatype Info = Info(tag: Tag, id: nat, name: string, hasChildren: bool, known: bool, jumps: bool, located: bool)

  /** A list of DIEs: the first, its children, and the DIEs after it. */
  datatype Dies = Nil | Die(info: Info, children: Dies, rest: Dies)

  // ----- one DIE -----

  /** The DIE was told to the builder: the state, and whether it was registered. */
  function Told(s: State, o: Options, d: Dies, depth: nat): (State, bool)
    requires d.Die?
  {
    Register(s, o, d.info.tag, d.info.id, d.info.name, d.info.hasChildren, depth)
  }

  /** The state once the attributes were handled. */
  function Noted(s: State, o: Options, d: Dies, depth: nat): State
    requires d.Die?
  {
    var (t, added) := Told(s, o, d, depth);
    if added && d.info.located then GetParam(t) else t
  }

  /** The state behind the attributes, with the walk's flag. */
  function Read(s: State, o: Options, d: Dies, depth: nat): State
    requires d.Die?
  {
    var n, added := Noted(s, o, d, depth), Told(s, o, d, depth).1;
    if added && n.elements != [] then
      var (p, kept) := PostProcess(n, d.info.known);
      p.(regged := kept)
    else n.(regged := added)
  }

  predicate Enters(s: State, o: Options, d: Dies, depth: nat)
    requires d.Die?
  {
    d.info.hasChildren && (Read(s, o, d, depth).regged || !d.info.jumps)
  }

  /** The state in front of the first child. */
  function Inside(s: State, o: Options, d: Dies, depth: nat): State
    requires d.Die?
  {
    Add2Stack(Read(s, o, d, depth), Told(s, o, d, depth).1)
  }

  /** The walk over a balanced list: every list of children is closed by a null entry. */
  function Walk(s: State, o: Options, d: Dies, depth: nat): State
    decreases d
  {
    if d.Nil? then s
    else Walk(After(s, o, d, depth), o, d.rest, depth)
  }

  function After(s: State, o: Options, d: Dies, depth: nat): State
    requires d.Die?
    decreases d, 0
  {
    if Enters(s, o, d, depth) then PopStack(Walk(Inside(s, o, d, depth), o, d.children, depth + 1))
    else Read(s, o, d, depth)
  }

  /** The state at a DIE, its depth, and what each of its ancestors added, outermost first. */
  datatype Boundary = Boundary(state: State, depth: nat, above: seq<Option<Elem>>)

  /** Every DIE boundary of the walk. */
  function Boundaries(s: State, o: Options, d: Dies, depth: nat, above: seq<Option<Elem>>): seq<Boundary>
    decreases d
  {
    [Boundary(s, depth, above)]
    + if d.Nil? then []
      else
        (if Enters(s, o, d, depth) then
           Boundaries(Inside(s, o, d, depth), o, d.children, depth + 1, above + [Made(s, o, d, depth)])
         else [])
        + Boundaries(After(s, o, d, depth), o, d.rest, depth, above)
  }

  /** The kind of element a tag asks for. */
  function KindOf(tag: Tag): Option<Kind>
  {
    match tag
    case TypeTag(kind) => Some(kind)
    case LexicalBlockTag => Some(LexicalBlock)
    case VariableTag => Some(VarType)
    case NamespaceTag => Some(NsStart)
    case SubprogramTag => Some(Subroutine)
    case _ => None
  }

  /** The element a registered DIE makes; a namespace is its own. */
  function Made(s: State, o: Options, d: Dies, depth: nat): Option<Elem>
    requires d.Die?
  {
    if !Told(s, o, d, depth).1 || KindOf(d.info.tag).None? then None
    else
      match ElemOf(s, KindOf(d.info.tag).value, d.info.id, d.info.name, depth)
      case None => None
      case Some(e) => Some(if d.info.tag.NamespaceTag? then e.(ns := Some(TopNs(s.nsStack) + [d.info.name])) else e)
  }

  /** A registered DIE that leaves an element behind. */
  predicate Adds(s: State, o: Options, d: Dies, depth: nat)
    requires d.Die?
  {
    var (t, added) := Told(s, o, d, depth);
    added && KindOf(d.info.tag).Some? && Added(s, t, KindOf(d.info.tag).value)
  }

  // ----- when a DIE keeps the stacks in agreement -----

  /** A registered DIE that sets no type of its own finds a namespace as the current type, and enters it again. */
  predicate Stale(s: State, o: Options, d: Dies, depth: nat)
    requires d.Die?
  {
    var (t, added) := Told(s, o, d, depth);
    added && !Adds(s, o, d, depth) && t.elements != [] && t.current == NsStart
  }

  /** An attribute of the DIE writes the recent element over the top of the stack. */
  predicate Overwrites(s: State, o: Options, d: Dies, depth: nat)
    requires d.Die?
  {
    var (t, added) := Told(s, o, d, depth);
    added && d.info.located && t.current == FormalParam && t.elements != [] && s.stack != [] && t.recent.Some?
  }

  predicate OverwritesScope(s: State, o: Options, d: Dies, depth: nat)
    requires d.Die?
  {
    Overwrites(s, o, d, depth) && IsScope(Top(s.stack))
  }

  /** The recent element is not the one on top. */
  predicate Replaces(s: State, o: Options, d: Dies, depth: nat)
    requires d.Die?
  {
    Overwrites(s, o, d, depth) && Told(s, o, d, depth).0.recent != Top(s.stack)
  }

  /**
   A registered parent that adds nothing has nothing to push, pushes a namespace it
   did not enter, or enters one that it does not push.
   */
  predicate PushesAstray(s: State, o: Options, d: Dies, depth: nat)
    requires d.Die?
  {
    var r := Read(s, o, d, depth);
    && Told(s, o, d, depth).1 && !Adds(s, o, d, depth)
    && (r.elements == [] || IsNs(Some(Pushed(r))) != Stale(s, o, d, depth))
  }

  predicate Sound(s: State, o: Options, d: Dies, depth: nat)
    requires d.Die?
  {
    && !OverwritesScope(s, o, d, depth)
    && if Enters(s, o, d, depth) then !PushesAstray(s, o, d, depth) else !Stale(s, o, d, depth)
  }

  predicate ValidDies(d: Dies)
  {
    d.Die? ==>
      && ValidTag(d.info.tag) && (d.info.hasChildren || d.children.Nil?)
      && ValidDies(d.children) && ValidDies(d.rest)
  }

  predicate AllSound(s: State, o: Options, d: Dies, depth: nat)
    decreases d
  {
    d.Die? ==>
      && Sound(s, o, d, depth)
      && (Enters(s, o, d, depth) ==> AllSound(Inside(s, o, d, depth), o, d.children, depth + 1))
      && AllSound(After(s, o, d, depth), o, d.rest, depth)
  }

  /** Only unregistered or element-adding DIEs have children. */
  predicate ParentsAdd(s: State, o: Options, d: Dies, depth: nat)
    decreases d
  {
    d.Die? ==>
      && (Enters(s, o, d, depth) ==>
           && (Told(s, o, d, depth).1 ==> Adds(s, o, d, depth))
           && ParentsAdd(Inside(s, o, d, depth), o, d.children, depth + 1))
      && ParentsAdd(After(s, o, d, depth), o, d.rest, depth)
  }

  predicate NoneStale(s: State, o: Options, d: Dies, depth: nat)
    decreases d
  {
    d.Die? ==>
      && !Stale(s, o, d, depth)
      && (Enters(s, o, d, depth) ==> NoneStale(Inside(s, o, d, depth), o, d.children, depth + 1))
      && NoneStale(After(s, o, d, depth), o, d.rest, depth)
  }

  /** At every located parameter the recent element, if there is one, is the one on top. */
  predicate NoneReplaces(s: State, o: Options, d: Dies, depth: nat)
    decreases d
  {
    d.Die? ==>
      && !Replaces(s, o, d, depth)
      && (Enters(s, o, d, depth) ==> NoneReplaces(Inside(s, o, d, depth), o, d.children, depth + 1))
      && NoneReplaces(After(s, o, d, depth), o, d.rest, depth)
  }

  // ----- what one DIE does -----

  /** A DIE whose tag asks for an element is told as that. */
  lemma ToldIsAdded(s: State, o: Options, d: Dies, depth: nat)
    requires d.Die? && Told(s, o, d, depth).1 && KindOf(d.info.tag).Some?
    ensures Told(s, o, d, depth).0 == AddElement(s, KindOf(d.info.tag).value, d.info.id, d.info.name, depth)
  {
    hide AddElement;
  }

  /** What telling leaves alone. */
  lemma ToldFacts(s: State, o: Options, d: Dies, depth: nat)
    requires d.Die? && ValidTag(d.info.tag) && Agrees(s, depth)
    ensures var (t, added) := Told(s, o, d, depth);
      && t.stack == s.stack && t.nsStack == s.nsStack && t.nsCount == s.nsCount
      && !IsScope(t.recent)
      && |s.elements| <= |t.elements|
  {
    hide Scopes, Paths, AddElement;
    if KindOf(d.info.tag).Some? { AddElementKeepsStacks(s, KindOf(d.info.tag).value, d.info.id, d.info.name, depth); }
  }

  /** A DIE that adds: its element is recent or last, and only a namespace makes the type a namespace. */
  lemma AddsFacts(s: State, o: Options, d: Dies, depth: nat)
    requires d.Die? && ValidTag(d.info.tag) && Agrees(s, depth) && Adds(s, o, d, depth)
    ensures var t := Told(s, o, d, depth).0;
      && t.elements != [] && t.current != NoType && t.current != FormalParam
      && (t.current == NsStart <==> d.info.tag.NamespaceTag?)
      && Made(s, o, d, depth).Some?
      && var e := Made(s, o, d, depth).value;
      && (d.info.tag.NamespaceTag? <==> e.kind == NsStart)
      && Pushed(t) == (if d.info.tag.NamespaceTag? then e.(ns := Some(TopNs(s.nsStack))) else e)
      && e.kind == t.current && e.name == d.info.name && e.level == depth - s.nsCount
      && (d.info.tag.NamespaceTag? ==> t.recent.None?)
  {
    hide Scopes, Paths, AddElement, Register, Pushed;
    var kind := KindOf(d.info.tag).value;
    ToldIsAdded(s, o, d, depth);
    assert Told(s, o, d, depth).0.elements != [] by { SomeElements(s, kind, d, depth); }
    AddedIsPushed(s, kind, d.info.id, d.info.name, depth);
  }

  lemma SomeElements(s: State, kind: Kind, d: Dies, depth: nat)
    requires d.Die? && Agrees(s, depth)
    requires Added(s, AddElement(s, kind, d.info.id, d.info.name, depth), kind)
    ensures AddElement(s, kind, d.info.id, d.info.name, depth).elements != []
  {
    hide Scopes, Paths, TopFunc;
    if s.elements == [] && s.stack != [] { assert s.stack[|s.stack| - 1].None?; }
  }

  lemma NamespaceAdds(s: State, o: Options, d: Dies, depth: nat)
    requires d.Die? && d.info.tag.NamespaceTag? && Told(s, o, d, depth).1
    ensures Adds(s, o, d, depth)
    ensures Told(s, o, d, depth).0.elements == s.elements + [NewElem(s, NsStart, d.info.id, d.info.name, depth)]
  {
  }

  /** A registered namespace has children and is not a duplicate. */
  lemma NamespaceEnters(s: State, o: Options, d: Dies, depth: nat)
    requires d.Die? && d.info.tag.NamespaceTag? && Told(s, o, d, depth).1
    ensures Enters(s, o, d, depth)
  {
  }

  /** The stack behind the attributes of a DIE. */
  function StackBehind(s: State, o: Options, d: Dies, depth: nat): seq<Option<Elem>>
    requires d.Die?
  {
    if Overwrites(s, o, d, depth) then s.stack[|s.stack| - 1 := Told(s, o, d, depth).0.recent] else s.stack
  }

  /** Handling the attributes changes the stack alone. */
  lemma NotedFacts(s: State, o: Options, d: Dies, depth: nat)
    requires d.Die? && Told(s, o, d, depth).0.stack == s.stack
    ensures Noted(s, o, d, depth) == Told(s, o, d, depth).0.(stack := StackBehind(s, o, d, depth))
  {
    hide Register;
  }

  lemma PushedIgnoresStack(s: State, t: State)
    requires s.elements != [] && t.elements == s.elements && t.recent == s.recent
    ensures Pushed(s) == Pushed(t)
  {
  }

  /**
   Reading a DIE leaves the stacks alone, but for a parameter's write over the top,
   and for the namespace stack when the current type is a namespace: the DIE's own,
   or a stale one.
   */
  lemma ReadFacts(s: State, o: Options, d: Dies, depth: nat)
    requires d.Die? && ValidTag(d.info.tag) && Agrees(s, depth)
    ensures var (t, added) := Told(s, o, d, depth);
      var r := Read(s, o, d, depth);
      && r.stack == StackBehind(s, o, d, depth)
      && r.nsCount == s.nsCount && r.recent == t.recent && !IsScope(r.recent)
      && |r.elements| == |t.elements| >= |s.elements|
      && r.nsStack == (if added && t.elements != [] && t.current == NsStart
                       then s.nsStack + [TopNs(s.nsStack) + [t.elements[|t.elements| - 1].name]] else s.nsStack)
      && (r.elements != [] ==> Pushed(r).kind == Pushed(t).kind && Pushed(r).name == Pushed(t).name)
      && (added && d.info.tag.NamespaceTag? ==>
           Adds(s, o, d, depth) && t.elements[|t.elements| - 1].name == d.info.name)
      && (Adds(s, o, d, depth) ==> r.elements != [] && Some(Pushed(r)) == Made(s, o, d, depth) && !Overwrites(s, o, d, depth))
  {
    hide Scopes, Paths, Register, AddElement, PostProcess, Noted, StackBehind, Agrees, Made, Adds, Pushed;
    var t := Told(s, o, d, depth).0;
    ToldFacts(s, o, d, depth);
    NotedFacts(s, o, d, depth);
    var n := Noted(s, o, d, depth);
    if n.elements != [] {
      PostProcessFacts(n, d.info.known);
      PushedIgnoresStack(t, n);
      var r := Read(s, o, d, depth);
      PushedIgnoresStack(if Told(s, o, d, depth).1 then PostProcess(n, d.info.known).0 else n, r);
    }
    if d.info.tag.NamespaceTag? && Told(s, o, d, depth).1 { NamespaceAdds(s, o, d, depth); }
    if Adds(s, o, d, depth) { ReadMade(s, o, d, depth); }
  }

  /** The element a DIE adds is pushed as it is after post-processing. */
  lemma ReadMade(s: State, o: Options, d: Dies, depth: nat)
    requires d.Die? && ValidTag(d.info.tag) && Agrees(s, depth) && Adds(s, o, d, depth)
    ensures var r := Read(s, o, d, depth);
      r.elements != [] && Some(Pushed(r)) == Made(s, o, d, depth) && !Overwrites(s, o, d, depth)
    ensures d.info.tag.NamespaceTag? ==>
      var t := Told(s, o, d, depth).0.elements;
      t != [] && t[|t| - 1].name == d.info.name
  {
    hide Scopes, Paths, Register, AddElement, PostProcess, Agrees, StackBehind, Made, Noted;
    var t := Told(s, o, d, depth).0;
    ToldFacts(s, o, d, depth);
    AddsFacts(s, o, d, depth);
    NotedFacts(s, o, d, depth);
    var n := Noted(s, o, d, depth);
    PostProcessFacts(n, d.info.known);
    PushedIgnoresStack(t, n);
    if d.info.tag.NamespaceTag? {
      MadeNamespace(s, o, d, depth);
      assert Pushed(Read(s, o, d, depth)).ns == Some(TopNs(s.nsStack) + [d.info.name]);
    }
  }

  lemma MadeNamespace(s: State, o: Options, d: Dies, depth: nat)
    requires d.Die? && d.info.tag.NamespaceTag? && Told(s, o, d, depth).1
    ensures Made(s, o, d, depth).Some?
    ensures Made(s, o, d, depth).value.ns == Some(TopNs(s.nsStack) + [d.info.name])
  {
    hide Register;
  }

  /** The write over the top keeps the count exactly when the top was no scope. */
  lemma BehindFacts(s: State, o: Options, d: Dies, depth: nat)
    requires d.Die? && ValidTag(d.info.tag) && Agrees(s, depth)
    ensures var st := StackBehind(s, o, d, depth);
      && |st| == |s.stack|
      && Scopes(st) == Scopes(s.stack) - (if OverwritesScope(s, o, d, depth) then 1 else 0)
      && (!OverwritesScope(s, o, d, depth) ==> Paths(st) == Paths(s.stack))
  {
    hide Scopes, Paths, Register;
    ToldFacts(s, o, d, depth);
    if Overwrites(s, o, d, depth) { ReplaceTop(s.stack, Told(s, o, d, depth).0.recent); }
  }

  /**
   A DIE whose children are not entered keeps the stacks in agreement exactly when
   it neither enters a stale namespace nor writes over a scope.
   */
  lemma PassIff(s: State, o: Options, d: Dies, depth: nat)
    requires d.Die? && ValidTag(d.info.tag) && Agrees(s, depth) && !Enters(s, o, d, depth)
    ensures Agrees(Read(s, o, d, depth), depth) <==> Sound(s, o, d, depth)
  {
    hide Scopes, Paths, Register, AddElement, PostProcess, Read, Pushed;
    ReadFacts(s, o, d, depth);
    BehindFacts(s, o, d, depth);
    if Told(s, o, d, depth).1 && d.info.tag.NamespaceTag? { NamespaceEnters(s, o, d, depth); }
    if Adds(s, o, d, depth) { AddsFacts(s, o, d, depth); }
  }

  /**
   A DIE whose children are entered keeps the stacks in agreement exactly when it
   writes over no scope and pushes what it made, nothing for an unregistered one, or
   a namespace just when it entered one.
   */
  lemma EnterIff(s: State, o: Options, d: Dies, depth: nat)
    requires d.Die? && ValidTag(d.info.tag) && Agrees(s, depth) && Enters(s, o, d, depth)
    ensures Agrees(Inside(s, o, d, depth), depth + 1) <==> Sound(s, o, d, depth)
    ensures Adds(s, o, d, depth) || !Told(s, o, d, depth).1 ==>
      && Inside(s, o, d, depth).stack == s.stack + [Made(s, o, d, depth)]
      && !Replaces(s, o, d, depth)
  {
    hide Scopes, Paths, Register, AddElement, Read, Told, StackBehind, OverwritesScope, Stale, Made;
    var r, added := Read(s, o, d, depth), Told(s, o, d, depth).1;
    ReadFacts(s, o, d, depth);
    BehindFacts(s, o, d, depth);
    AddsOrNot(s, o, d, depth);
    var e := if added && r.elements != [] then Some(Pushed(r)) else None;
    ScopesPush(r.stack, e);
    PathsPush(r.stack, e);
  }

  /** What adding, or not being registered, says about the current type and the writes. */
  lemma AddsOrNot(s: State, o: Options, d: Dies, depth: nat)
    requires d.Die? && ValidTag(d.info.tag) && Agrees(s, depth)
    ensures !Told(s, o, d, depth).1 || Adds(s, o, d, depth) ==>
      StackBehind(s, o, d, depth) == s.stack && !Overwrites(s, o, d, depth) && !OverwritesScope(s, o, d, depth)
    ensures !Told(s, o, d, depth).1 ==> Made(s, o, d, depth) == None
    ensures Adds(s, o, d, depth) ==>
      && Told(s, o, d, depth).1 && Told(s, o, d, depth).0.elements != []
      && Made(s, o, d, depth).Some?
      && (Told(s, o, d, depth).0.current == NsStart <==> IsNs(Made(s, o, d, depth)))
      && Made(s, o, d, depth).value.name == d.info.name
      && (IsNs(Made(s, o, d, depth)) <==> d.info.tag.NamespaceTag?)
    ensures Stale(s, o, d, depth) <==>
      Told(s, o, d, depth).1 && !Adds(s, o, d, depth) && Told(s, o, d, depth).0.elements != []
      && Told(s, o, d, depth).0.current == NsStart
  {
    hide Scopes, Paths, Register, AddElement;
    if Adds(s, o, d, depth) { AddsFacts(s, o, d, depth); }
  }

  /** Popping undoes what entering pushed, whatever the pushed entry has become since. */
  lemma PopRestores(t: State, depth: nat)
    requires Agrees(t, depth + 1)
    ensures Agrees(PopStack(t), depth) && PopStack(t).stack == t.stack[..depth]
  {
    hide Scopes, Paths;
    var below, e := t.stack[..depth], t.stack[depth];
    assert below + [e] == t.stack;
    ScopesPush(below, e);
    PathsPush(below, e);
    if IsNs(e) { assert t.nsStack[..|t.nsStack| - 1] == Paths(below); }
  }

  // ----- the walk -----

  /** The two stacks are the same but for their tops. */
  predicate SameBelow(a: seq<Option<Elem>>, b: seq<Option<Elem>>)
  {
    |a| == |b| && (a != [] ==> a[..|a| - 1] == b[..|b| - 1])
  }

  /** What a sound DIE does to the stacks, in front of its children or behind it. */
  lemma SoundFacts(s: State, o: Options, d: Dies, depth: nat)
    requires d.Die? && ValidTag(d.info.tag) && Agrees(s, depth)
    ensures var at := if Enters(s, o, d, depth) then Inside(s, o, d, depth) else Read(s, o, d, depth);
      var at' := if Enters(s, o, d, depth) then depth + 1 else depth;
      && (Agrees(at, at') <==> Sound(s, o, d, depth))
      && (Agrees(at, at') ==> |at.stack| == at' && at.stack[..depth] == StackBehind(s, o, d, depth))
    ensures SameBelow(s.stack, StackBehind(s, o, d, depth)) && |s.stack| == depth
  {
    hide Scopes, Paths, Register, AddElement, Read, Told, Sound;
    ReadFacts(s, o, d, depth);
    if Enters(s, o, d, depth) { EnterIff(s, o, d, depth); } else { PassIff(s, o, d, depth); }
  }

  lemma SameTrans(a: seq<Option<Elem>>, b: seq<Option<Elem>>, c: seq<Option<Elem>>)
    requires SameBelow(a, b) && SameBelow(b, c)
    ensures SameBelow(a, c)
  {
  }

  /** The stacks agree at every boundary of the walk. */
  ghost predicate AgreeThroughout(s: State, o: Options, d: Dies, depth: nat, above: seq<Option<Elem>>)
  {
    forall b :: b in Boundaries(s, o, d, depth, above) ==> Agrees(b.state, b.depth)
  }

  lemma AgreeSplit(s: State, o: Options, d: Dies, depth: nat, above: seq<Option<Elem>>)
    ensures AgreeThroughout(s, o, d, depth, above) <==>
      && Agrees(s, depth)
      && (d.Die? && Enters(s, o, d, depth) ==>
           AgreeThroughout(Inside(s, o, d, depth), o, d.children, depth + 1, above + [Made(s, o, d, depth)]))
      && (d.Die? ==> AgreeThroughout(After(s, o, d, depth), o, d.rest, depth, above))
  {
    hide Agrees, Enters, Inside, Read, Told, Made, After;
    var here := Boundary(s, depth, above);
    assert here in Boundaries(s, o, d, depth, above);
  }

  /**
   At every DIE boundary of a balanced list the stack is as deep as the DIE, the
   count is that of the scopes on it, and the namespace stack follows it, exactly
   when every DIE is sound; and then the list leaves the stacks as it found them, but
   for what a parameter writes over the top.
   */
  lemma {:induction false} WalkAgrees(s: State, o: Options, d: Dies, depth: nat, above: seq<Option<Elem>>)
    requires Agrees(s, depth) && ValidDies(d)
    ensures AgreeThroughout(s, o, d, depth, above) <==> AllSound(s, o, d, depth)
    ensures AllSound(s, o, d, depth) ==> Agrees(Walk(s, o, d, depth), depth) && SameBelow(s.stack, Walk(s, o, d, depth).stack)
    decreases d
  {
    hide Agrees, Enters, Inside, Read, Told, Made, PopStack, Sound, StackBehind, Boundaries, SameBelow, AgreeThroughout;
    AgreeSplit(s, o, d, depth, above);
    if d.Nil? {
      assert SameBelow(s.stack, s.stack) by { SameAsItself(s.stack); }
    } else {
      var i, after := Inside(s, o, d, depth), After(s, o, d, depth);
      var inner := above + [Made(s, o, d, depth)];
      SoundFacts(s, o, d, depth);
      if Enters(s, o, d, depth) {
        AgreeSplit(i, o, d.children, depth + 1, inner);
        if Sound(s, o, d, depth) {
          WalkAgrees(i, o, d.children, depth + 1, inner);
          if AllSound(i, o, d.children, depth + 1) { AfterChildren(s, o, d, depth); }
        }
      } else if Agrees(after, depth) {
        assert after.stack[..depth] == after.stack;
      }
      AgreeSplit(after, o, d.rest, depth, above);
      if Agrees(after, depth) { WalkAgrees(after, o, d.rest, depth, above); }
      if AllSound(s, o, d, depth) { SameTrans(s.stack, after.stack, Walk(after, o, d.rest, depth).stack); }
    }
  }

  lemma SameAsItself(a: seq<Option<Elem>>)
    ensures SameBelow(a, a)
  {
  }

  /** Behind the children of a sound DIE the stack is what it was in front of them. */
  lemma AfterChildren(s: State, o: Options, d: Dies, depth: nat)
    requires d.Die? && ValidTag(d.info.tag) && Agrees(s, depth) && Enters(s, o, d, depth) && Sound(s, o, d, depth)
    requires var i := Inside(s, o, d, depth);
      var w := Walk(i, o, d.children, depth + 1);
      Agrees(w, depth + 1) && SameBelow(i.stack, w.stack)
    ensures var after := After(s, o, d, depth);
      Agrees(after, depth) && after.stack == StackBehind(s, o, d, depth)
  {
    hide Agrees, Enters, Inside, Read, Told, PopStack, Sound, StackBehind, Walk;
    SoundFacts(s, o, d, depth);
    PopRestores(Walk(Inside(s, o, d, depth), o, d.children, depth + 1), depth);
  }

  // ----- when only element-adding DIEs have children -----

  /** A namespace or block on the stack has the level of the depth it was made at. */
  predicate LevelsOk(stack: seq<Option<Elem>>)
  {
    forall k :: 0 <= k < |stack| && IsScope(stack[k]) ==> stack[k].value.level == k - Scopes(stack[..k])
  }

  lemma LevelsPush(stack: seq<Option<Elem>>, e: Option<Elem>)
    requires LevelsOk(stack) && (IsScope(e) ==> e.value.level == |stack| - Scopes(stack))
    ensures LevelsOk(stack + [e])
  {
    var t := stack + [e];
    forall k | 0 <= k < |t| && IsScope(t[k]) ensures t[k].value.level == k - Scopes(t[..k]) {
      assert t[..k] == stack[..k];
      if k == |stack| { assert stack[..k] == stack; }
    }
  }

  lemma LevelsBelow(stack: seq<Option<Elem>>, n: nat)
    requires LevelsOk(stack) && n <= |stack|
    ensures LevelsOk(stack[..n])
  {
    forall k | 0 <= k < n && IsScope(stack[..n][k]) ensures stack[..n][k].value.level == k - Scopes(stack[..n][..k]) {
      assert stack[..n][..k] == stack[..k];
      assert IsScope(stack[k]);
    }
  }

  /** A DIE writes over the top only as a registered parameter, whose level fits the top, or as a variant. */
  lemma OverwrittenTop(s: State, o: Options, d: Dies, depth: nat)
    requires d.Die? && ValidTag(d.info.tag) && Overwrites(s, o, d, depth) && |s.stack| > 0
    requires KindOf(d.info.tag).Some? ==> !Adds(s, o, d, depth)
    ensures Top(s.stack).Some?
    ensures Top(s.stack).value.kind == VariantType || Top(s.stack).value.level == depth - s.nsCount - 1
  {
    hide AddElement, Adds;
    if KindOf(d.info.tag).Some? {
      ToldIsAdded(s, o, d, depth);
      NoParameterAdded(s, KindOf(d.info.tag).value, d.info.id, d.info.name, depth);
    }
  }

  /** An element that is added is no parameter: the current type is one only where nothing could be added. */
  lemma NoParameterAdded(s: State, kind: Kind, id: nat, name: string, depth: nat)
    requires kind != FormalParam && s.stack != []
    ensures var t := AddElement(s, kind, id, name, depth); t.current != FormalParam || t.elements == []
  {
    hide NewVar, LosesVar, CanHaveMethods;
  }

  /** The top that a parameter writes over is no scope: its level would be one more. */
  lemma NoScopeOverwritten(s: State, o: Options, d: Dies, depth: nat)
    requires d.Die? && ValidTag(d.info.tag) && Agrees(s, depth) && LevelsOk(s.stack)
    ensures !OverwritesScope(s, o, d, depth)
    ensures LevelsOk(StackBehind(s, o, d, depth))
  {
    hide Register, Paths, Scopes;
    ToldFacts(s, o, d, depth);
    AddsOrNot(s, o, d, depth);
    if Overwrites(s, o, d, depth) {
      var n := depth - 1;
      var below, e := s.stack[..n], Told(s, o, d, depth).0.recent;
      OverwrittenTop(s, o, d, depth);
      assert below + [s.stack[n]] == s.stack && s.stack[n := e] == below + [e];
      ScopesPush(below, s.stack[n]);
      LevelsBelow(s.stack, n);
      LevelsPush(below, e);
    }
  }

  /** The entry pushed for an adding or unregistered DIE has its level. */
  lemma InsideLevels(s: State, o: Options, d: Dies, depth: nat)
    requires d.Die? && ValidTag(d.info.tag) && Agrees(s, depth) && LevelsOk(s.stack) && Enters(s, o, d, depth)
    requires Told(s, o, d, depth).1 ==> Adds(s, o, d, depth)
    ensures Sound(s, o, d, depth) && Agrees(Inside(s, o, d, depth), depth + 1)
    ensures LevelsOk(Inside(s, o, d, depth).stack)
    ensures Inside(s, o, d, depth).stack == s.stack + [Made(s, o, d, depth)]
    ensures !Replaces(s, o, d, depth) && !Stale(s, o, d, depth)
  {
    hide Register, Paths, Scopes, Read, Inside, AddElement;
    AddsOrNot(s, o, d, depth);
    EnterIff(s, o, d, depth);
    if Adds(s, o, d, depth) { AddsFacts(s, o, d, depth); }
    LevelsPush(s.stack, Made(s, o, d, depth));
  }

  /** What passing a DIE does when scopes have their levels. */
  lemma PassLevels(s: State, o: Options, d: Dies, depth: nat)
    requires d.Die? && ValidTag(d.info.tag) && Agrees(s, depth) && LevelsOk(s.stack) && !Enters(s, o, d, depth)
    ensures Sound(s, o, d, depth) <==> !Stale(s, o, d, depth)
    ensures var r := Read(s, o, d, depth);
      && r.stack == StackBehind(s, o, d, depth) && LevelsOk(r.stack)
      && (Agrees(r, depth) <==> !Stale(s, o, d, depth))
  {
    hide Register, Paths, Scopes, Read, AddElement, Agrees, OverwritesScope, Stale, StackBehind, Enters, LevelsOk;
    NoScopeOverwritten(s, o, d, depth);
    PassIff(s, o, d, depth);
    ReadFacts(s, o, d, depth);
  }

  /**
   When only unregistered or element-adding DIEs have children, a walk is sound
   exactly when no DIE enters a stale namespace: no parameter writes over a scope.
   */
  lemma {:induction false} AddingParentsAreSound(s: State, o: Options, d: Dies, depth: nat)
    requires Agrees(s, depth) && LevelsOk(s.stack) && ValidDies(d) && ParentsAdd(s, o, d, depth)
    ensures AllSound(s, o, d, depth) <==> NoneStale(s, o, d, depth)
    ensures AllSound(s, o, d, depth) ==> LevelsOk(Walk(s, o, d, depth).stack)
    decreases d
  {
    hide Agrees, LevelsOk, Enters, Inside, Read, Told, Made, PopStack, Sound, StackBehind, Stale, Adds, SameBelow;
    if d.Die? {
      var i, after := Inside(s, o, d, depth), After(s, o, d, depth);
      if Enters(s, o, d, depth) {
        InsideLevels(s, o, d, depth);
        AddingParentsAreSound(i, o, d.children, depth + 1);
        if AllSound(i, o, d.children, depth + 1) {
          WalkAgrees(i, o, d.children, depth + 1, []);
          AfterChildren(s, o, d, depth);
          NoScopeOverwritten(s, o, d, depth);
        }
      } else {
        PassLevels(s, o, d, depth);
      }
      if Agrees(after, depth) && LevelsOk(after.stack) { AddingParentsAreSound(after, o, d.rest, depth); }
    }
  }

  // ----- the path of the ancestors -----

  /** The stack at a boundary is the path of its ancestors' elements. */
  predicate OnPath(b: Boundary)
  {
    && b.state.stack == b.above && |b.above| == b.depth
    && b.state.nsCount == Scopes(b.above)
    && b.state.nsStack == Paths(b.above)
  }

  ghost predicate OnPathThroughout(s: State, o: Options, d: Dies, depth: nat, above: seq<Option<Elem>>)
  {
    forall b :: b in Boundaries(s, o, d, depth, above) ==> OnPath(b)
  }

  lemma OnPathSplit(s: State, o: Options, d: Dies, depth: nat, above: seq<Option<Elem>>)
    ensures OnPathThroughout(s, o, d, depth, above) <==>
      && OnPath(Boundary(s, depth, above))
      && (d.Die? && Enters(s, o, d, depth) ==>
           OnPathThroughout(Inside(s, o, d, depth), o, d.children, depth + 1, above + [Made(s, o, d, depth)]))
      && (d.Die? ==> OnPathThroughout(After(s, o, d, depth), o, d.rest, depth, above))
  {
    hide OnPath, Enters, Inside, Read, Told, Made, After;
    assert Boundary(s, depth, above) in Boundaries(s, o, d, depth, above);
  }

  lemma OnPathHere(s: State, depth: nat, above: seq<Option<Elem>>)
    requires Agrees(s, depth)
    ensures OnPath(Boundary(s, depth, above)) <==> s.stack == above
  {
  }

  /** Behind a DIE without children the stack is still the path exactly when no parameter replaced its top. */
  lemma PassOnPath(s: State, o: Options, d: Dies, depth: nat)
    requires d.Die? && ValidTag(d.info.tag) && Agrees(s, depth) && LevelsOk(s.stack) && !Enters(s, o, d, depth)
    ensures var r := Read(s, o, d, depth);
      && (OnPath(Boundary(r, depth, s.stack)) <==> !Stale(s, o, d, depth) && !Replaces(s, o, d, depth))
      && (OnPath(Boundary(r, depth, s.stack)) ==> Agrees(r, depth) && r.stack == s.stack)
  {
    hide Scopes, Paths, Register, AddElement, Enters, LevelsOk, Made, PostProcess, Read;
    PassLevels(s, o, d, depth);
    ReadFacts(s, o, d, depth);
    ToldFacts(s, o, d, depth);
    assert StackBehind(s, o, d, depth) == s.stack <==> !Replaces(s, o, d, depth);
  }

  /**
   When only unregistered or element-adding DIEs have children, the stack at every
   boundary is the path of what the ancestors added exactly when no DIE enters a stale
   namespace and, at every located parameter, the recent element is none or the one on top.
   */
  lemma {:induction false} StackIsAncestorPath(s: State, o: Options, d: Dies, depth: nat)
    requires Agrees(s, depth) && LevelsOk(s.stack) && ValidDies(d) && ParentsAdd(s, o, d, depth)
    ensures OnPathThroughout(s, o, d, depth, s.stack) <==> NoneStale(s, o, d, depth) && NoneReplaces(s, o, d, depth)
    decreases d
  {
    hide Agrees, LevelsOk, OnPath, Enters, Inside, Read, Told, Made, PopStack, StackBehind, Stale, Replaces, Adds, Sound,
         SameBelow, OnPathThroughout, Walk;
    OnPathHere(s, depth, s.stack);
    OnPathSplit(s, o, d, depth, s.stack);
    if d.Die? {
      var i, after := Inside(s, o, d, depth), After(s, o, d, depth);
      OnPathSplit(after, o, d.rest, depth, s.stack);
      if Enters(s, o, d, depth) {
        InsideLevels(s, o, d, depth);
        StackIsAncestorPath(i, o, d.children, depth + 1);
        if NoneStale(i, o, d.children, depth + 1) {
          AddingParentsAreSound(i, o, d.children, depth + 1);
          WalkAgrees(i, o, d.children, depth + 1, []);
          AfterChildren(s, o, d, depth);
          AddsOrNot(s, o, d, depth);
          StackIsAncestorPath(after, o, d.rest, depth);
        }
      } else {
        PassOnPath(s, o, d, depth);
        if OnPath(Boundary(after, depth, s.stack)) { StackIsAncestorPath(after, o, d.rest, depth); }
      }
    }
  }

  /**
   So an element made at a boundary has the depth less the namespaces and blocks
   around it as its level, the parent's entry as its owner and, unless it is a method,
   the innermost namespace around it as its own.
   */
  lemma ElementsSeeTheirPath(s: State, o: Options, d: Dies, depth: nat, kind: Kind, id: nat, name: string)
    requires Agrees(s, depth) && LevelsOk(s.stack) && ValidDies(d) && ParentsAdd(s, o, d, depth)
    requires NoneStale(s, o, d, depth) && NoneReplaces(s, o, d, depth)
    ensures forall b :: b in Boundaries(s, o, d, depth, s.stack) ==>
      NewElem(b.state, kind, id, name, b.depth)
      == Elem(kind, id, name, b.depth - Scopes(b.above), Top(b.above),
              if kind == Method then None else Some(TopNs(Paths(b.above))))
  {
    hide Agrees, Boundaries, ParentsAdd, Scopes, Paths;
    StackIsAncestorPath(s, o, d, depth);
  }

  // ----- units -----

  /** The next unit starts in agreement exactly when no namespace was left open. */
  lemma NextUnit(s: State)
    ensures Agrees(ProcessUnit(s), 0) <==> s.nsStack == []
  {
    NoScopes();
  }

  /** A balanced unit leaves no namespace open, so the walk of every later unit starts in agreement too. */
  lemma UnitAfterUnit(s: State, o: Options, d: Dies)
    requires Agrees(s, 0) && ValidDies(d) && AllSound(s, o, d, 0)
    ensures Agrees(ProcessUnit(Walk(s, o, d, 0)), 0)
  {
    hide Walk, AllSound;
    WalkAgrees(s, o, d, 0, []);
    NoScopes();
    assert Walk(s, o, d, 0).stack == [];
    NextUnit(Walk(s, o, d, 0));
  }

  // ----- where it breaks -----

  /** An empty namespace and, after it, a variant without children. */
  function EmptyNamespaceThenVariant(id: nat, name: string): Dies
  {
    Die(Info(NamespaceTag, id, name, true, false, false, false), Nil,
        Die(Info(VariantTag, id + 1, "", false, false, false, false), Nil, Nil))
  }

  lemma EmptyNamespace(s: State, o: Options, d: Dies, depth: nat)
    requires d.Die? && d.info.tag.NamespaceTag? && d.info.hasChildren && d.children.Nil? && Agrees(s, depth)
    ensures Enters(s, o, d, depth) && Sound(s, o, d, depth) && Adds(s, o, d, depth)
    ensures var t := After(s, o, d, depth);
      Agrees(t, depth) && t.stack == s.stack && t.current == NsStart && t.elements != []
  {
    hide Scopes, Paths, AddElement, Agrees;
    NamespaceAdds(s, o, d, depth);
    NamespaceEnters(s, o, d, depth);
    AddsFacts(s, o, d, depth);
    AddsOrNot(s, o, d, depth);
    EnterIff(s, o, d, depth);
    ReadFacts(s, o, d, depth);
    var i := Inside(s, o, d, depth);
    assert Walk(i, o, d.children, depth + 1) == i;
    AfterChildren(s, o, d, depth);
  }

  lemma ListIsValid(id: nat, name: string)
    ensures ValidDies(EmptyNamespaceThenVariant(id, name))
  {
    assert ValidDies(EmptyNamespaceThenVariant(id, name).rest);
  }

  /** The variant behind the namespace is stale. */
  lemma VariantIsStale(s: State, o: Options, id: nat, name: string, depth: nat)
    requires Agrees(s, depth) && Top(s.stack).Some? && Top(s.stack).value.kind == VariantType
    ensures var d := EmptyNamespaceThenVariant(id, name);
      var t := After(s, o, d, depth);
      && Enters(s, o, d, depth) && Sound(s, o, d, depth) && Adds(s, o, d, depth)
      && Agrees(t, depth) && Stale(t, o, d.rest, depth) && !Enters(t, o, d.rest, depth)
  {
    hide Scopes, Paths, Agrees, AddElement, PostProcess, After, Enters, Adds, Sound;
    EmptyNamespace(s, o, EmptyNamespaceThenVariant(id, name), depth);
    VariantStale(After(s, o, EmptyNamespaceThenVariant(id, name), depth), o,
                 EmptyNamespaceThenVariant(id, name).rest, depth);
  }

  lemma VariantStale(t: State, o: Options, d: Dies, depth: nat)
    requires d.Die? && d.info.tag.VariantTag? && !d.info.hasChildren && t.current == NsStart && t.elements != []
    requires Top(t.stack).Some? && Top(t.stack).value.kind == VariantType
    ensures Stale(t, o, d, depth) && !Enters(t, o, d, depth)
  {
    hide AddElement, PostProcess, GetParam;
  }

  /**
   In a variant part the stacks fall out of agreement over this list, although only
   an element-adding DIE has children: the variant enters the namespace again.
   */
  lemma VariantEntersNamespaceAgain(s: State, o: Options, id: nat, name: string, depth: nat)
    requires Agrees(s, depth) && Top(s.stack).Some? && Top(s.stack).value.kind == VariantType
    ensures ValidDies(EmptyNamespaceThenVariant(id, name))
    ensures ParentsAdd(s, o, EmptyNamespaceThenVariant(id, name), depth)
    ensures !AllSound(s, o, EmptyNamespaceThenVariant(id, name), depth)
    ensures !Agrees(Walk(s, o, EmptyNamespaceThenVariant(id, name), depth), depth)
  {
    var d := EmptyNamespaceThenVariant(id, name);
    ListIsValid(id, name);
    VariantIsStale(s, o, id, name, depth);
    hide Scopes, Paths, Agrees, AddElement, PostProcess, Enters, Stale, Adds, Inside, Told;
    var t := After(s, o, d, depth);
    assert !Sound(t, o, d.rest, depth);
    PassIff(t, o, d.rest, depth);
    assert Walk(t, o, d.rest, depth) == Read(t, o, d.rest, depth);
    assert ParentsAdd(t, o, d.rest, depth);
  }

  /** The builder as constructed, and inside a first DIE that is not registered. */
  function Initial(): State { State([], [], 0, None, [], NoType, false, false) }

  function InFirst(): State { State([None], [], 0, None, [], NoType, false, false) }

  function Unit(dies: Dies): Dies { Die(Info(OtherTag, 1, "", true, false, false, false), dies, Nil) }

  lemma UnitEntered(o: Options, dies: Dies)
    ensures Enters(Initial(), o, Unit(dies), 0) && Inside(Initial(), o, Unit(dies), 0) == InFirst()
    ensures Agrees(Initial(), 0) && Made(Initial(), o, Unit(dies), 0) == None && !Told(Initial(), o, Unit(dies), 0).1
  {
    NoScopes();
  }

  /** A structure with a variant part that holds that list. */
  function StructureOf(list: Dies): Dies
  {
    Die(Info(TypeTag(StructureType), 2, "", true, false, false, false), PartOf(list), Nil)
  }

  function PartOf(list: Dies): Dies
  {
    Die(Info(TypeTag(VariantType), 3, "", true, false, false, false), list, Nil)
  }

  function InStructure(): State
  {
    var e := Elem(StructureType, 2, "", 1, None, Some([]));
    State([None, Some(e)], [], 0, None, [e], StructureType, false, true)
  }

  function InPart(): State
  {
    var e := Elem(StructureType, 2, "", 1, None, Some([]));
    var v := Elem(VariantType, 3, "", 2, Some(e), Some([]));
    State([None, Some(e), Some(v)], [], 0, None, [e, v], VariantType, false, true)
  }

  /** Entering a fresh type with children: its element goes on the stack. */
  lemma TypeEntered(s: State, o: Options, d: Dies, depth: nat, t: State)
    requires d.Die? && d.info.hasChildren && !d.info.known && !d.info.located
    requires Told(s, o, d, depth) == (t, true) && t.current != NsStart && t.elements != [] && t.recent.None?
    ensures Enters(s, o, d, depth)
    ensures var last := Some(t.elements[|t.elements| - 1]);
      !IsScope(last) ==> Inside(s, o, d, depth) == t.(stack := t.stack + [last], regged := true)
  {
    hide Told, GetParam;
  }

  lemma StructureTold(o: Options, list: Dies)
    ensures Told(InFirst(), o, StructureOf(list), 1) == (InStructure().(stack := [None], regged := false), true)
  {
    hide AddVariable, AddFunction, AddInner, TopFunc;
    var e := InStructure().elements[0];
    assert InFirst().elements + [e] == [e] && NewElem(InFirst(), StructureType, 2, "", 1) == e;
  }

  lemma PartTold(o: Options, list: Dies)
    ensures Told(InStructure(), o, PartOf(list), 2) == (InPart().(stack := InStructure().stack), true)
  {
    hide AddVariable, AddFunction, AddOuter, TopFunc;
    var e := InPart().elements[1];
    assert InStructure().elements + [e] == InPart().elements && NewElem(InStructure(), VariantType, 3, "", 2) == e;
  }

  lemma StructureEntered(o: Options, list: Dies)
    ensures var d := StructureOf(list);
      Enters(InFirst(), o, d, 1) && Inside(InFirst(), o, d, 1) == InStructure()
  {
    hide Told, Enters, Inside;
    StructureTold(o, list);
    var t := InStructure().(stack := [None], regged := false);
    TypeEntered(InFirst(), o, StructureOf(list), 1, t);
    assert t.stack + [Some(t.elements[0])] == InStructure().stack;
  }

  lemma PartEntered(o: Options, list: Dies)
    ensures var d := PartOf(list);
      Enters(InStructure(), o, d, 2) && Inside(InStructure(), o, d, 2) == InPart()
  {
    hide Told, Enters, Inside;
    PartTold(o, list);
    var t := InPart().(stack := InStructure().stack);
    TypeEntered(InStructure(), o, PartOf(list), 2, t);
    assert t.stack + [Some(t.elements[1])] == InPart().stack;
  }

  lemma InPartAgrees()
    ensures Agrees(InPart(), 3)
    ensures Top(InPart().stack).Some? && Top(InPart().stack).value.kind == VariantType
  {
    hide Scopes, Paths;
    var e, v := InPart().stack[1], InPart().stack[2];
    var empty: seq<Option<Elem>>, one: seq<Option<Elem>>, two := [], [None], [None, e];
    NoScopes();
    ScopesPush(empty, None);
    PathsPush(empty, None);
    ScopesPush(one, e);
    PathsPush(one, e);
    ScopesPush(two, v);
    PathsPush(two, v);
    assert empty + [None] == one && one + [e] == two && two + [v] == InPart().stack;
  }

  /** A whole unit comes to such a list from the start, and its stacks fall out of agreement. */
  lemma UnitFallsOutOfAgreement(o: Options)
    ensures var d := Unit(StructureOf(EmptyNamespaceThenVariant(4, "n")));
      Agrees(Initial(), 0) && ValidDies(d) && !AgreeThroughout(Initial(), o, d, 0, [])
  {
    hide Agrees, Enters, Inside, Made, After, AgreeThroughout, AllSound, Walk, InPart, InStructure, InFirst, Initial, ParentsAdd;
    var list := EmptyNamespaceThenVariant(4, "n");
    var above1 := [] + [Made(Initial(), o, Unit(StructureOf(list)), 0)];
    var above2 := above1 + [Made(InFirst(), o, StructureOf(list), 1)];
    var above3 := above2 + [Made(InStructure(), o, PartOf(list), 2)];
    UnitEntered(o, StructureOf(list));
    StructureEntered(o, list);
    PartEntered(o, list);
    InPartAgrees();
    VariantEntersNamespaceAgain(InPart(), o, 4, "n", 3);
    WalkAgrees(InPart(), o, list, 3, above3);
    AgreeSplit(InStructure(), o, PartOf(list), 2, above2);
    AgreeSplit(InFirst(), o, StructureOf(list), 1, above1);
    AgreeSplit(Initial(), o, Unit(StructureOf(list)), 0, []);
  }

  /** A function with a nested function type, and after that a located parameter. */
  function TypeThenParameter(): Dies
  {
    Die(Info(TypeTag(SubroutineType), 3, "", false, false, false, false), Nil, Parameter())
  }

  function Parameter(): Dies { Die(Info(FormalParameterTag, 4, "p", false, false, false, true), Nil, Nil) }

  function FunctionWithType(): Dies
  {
    Die(Info(SubprogramTag, 2, "f", true, false, false, false), TypeThenParameter(), Nil)
  }

  function FunctionElem(): Elem { Elem(Subroutine, 2, "f", 1, None, Some([])) }

  function TypeElem(): Elem { Elem(SubroutineType, 3, "", 2, Some(FunctionElem()), Some([])) }

  function InFunction(): State
  {
    State([None, Some(FunctionElem())], [], 0, Some(FunctionElem()), [FunctionElem()], Subroutine, false, true)
  }

  function BehindType(): State
  {
    State([None, Some(FunctionElem())], [], 0, Some(TypeElem()), [FunctionElem(), TypeElem()], SubroutineType, false, true)
  }

  function BehindParameter(): State
  {
    State([None, Some(TypeElem())], [], 0, Some(TypeElem()), [FunctionElem(), TypeElem()], FormalParam, false, true)
  }

  lemma FunctionEntered(o: Options)
    requires o.functions
    ensures var d := FunctionWithType();
      && Enters(InFirst(), o, d, 1) && Inside(InFirst(), o, d, 1) == InFunction()
      && Made(InFirst(), o, d, 1) == Some(FunctionElem()) && Adds(InFirst(), o, d, 1)
  {
  }

  lemma TypePassed(o: Options)
    ensures var d := TypeThenParameter();
      && !Enters(InFunction(), o, d, 2) && After(InFunction(), o, d, 2) == BehindType()
  {
  }

  lemma ParameterPassed(o: Options)
    ensures var d := Parameter();
      && !Enters(BehindType(), o, d, 2) && After(BehindType(), o, d, 2) == BehindParameter()
      && Replaces(BehindType(), o, d, 2)
  {
  }

  lemma InsideIsBoundary(s: State, o: Options, d: Dies, depth: nat, above: seq<Option<Elem>>, inner: seq<Option<Elem>>, b: Boundary)
    requires d.Die? && Enters(s, o, d, depth) && inner == above + [Made(s, o, d, depth)]
    requires b in Boundaries(Inside(s, o, d, depth), o, d.children, depth + 1, inner)
    ensures b in Boundaries(s, o, d, depth, above)
  {
    hide Enters, Inside, Made, After;
  }

  lemma AfterIsBoundary(s: State, o: Options, d: Dies, depth: nat, above: seq<Option<Elem>>, b: Boundary)
    requires d.Die? && b in Boundaries(After(s, o, d, depth), o, d.rest, depth, above)
    ensures b in Boundaries(s, o, d, depth, above)
  {
    hide Enters, Inside, Made, After;
  }

  lemma HereIsBoundary(s: State, o: Options, d: Dies, depth: nat, above: seq<Option<Elem>>)
    ensures Boundary(s, depth, above) in Boundaries(s, o, d, depth, above)
  {
    hide Enters, Inside, Made, After;
  }

  lemma ParameterParents(o: Options)
    requires o.functions
    ensures ParentsAdd(Initial(), o, Unit(FunctionWithType()), 0)
  {
    UnitEntered(o, FunctionWithType());
    FunctionEntered(o);
    TypePassed(o);
    ParameterPassed(o);
    hide Enters, Inside, Made, After, Told, Adds, BehindParameter, BehindType, InFunction, InFirst, Initial;
    assert ParentsAdd(BehindType(), o, Parameter(), 2);
    assert ParentsAdd(InFunction(), o, TypeThenParameter(), 2);
    assert ParentsAdd(InFirst(), o, FunctionWithType(), 1);
  }

  lemma ParameterBoundary(o: Options, above: seq<Option<Elem>>)
    ensures Boundary(BehindParameter(), 2, above) in Boundaries(InFunction(), o, TypeThenParameter(), 2, above)
  {
    var b := Boundary(BehindParameter(), 2, above);
    TypePassed(o);
    ParameterPassed(o);
    hide Enters, Inside, Made, After, Boundaries, BehindParameter, BehindType, InFunction;
    HereIsBoundary(BehindParameter(), o, Nil, 2, above);
    AfterIsBoundary(BehindType(), o, Parameter(), 2, above, b);
    AfterIsBoundary(InFunction(), o, TypeThenParameter(), 2, above, b);
  }

  lemma FunctionBoundary(o: Options, above: seq<Option<Elem>>, b: Boundary)
    requires o.functions && b in Boundaries(InFunction(), o, TypeThenParameter(), 2, above + [Some(FunctionElem())])
    ensures b in Boundaries(InFirst(), o, FunctionWithType(), 1, above)
  {
    FunctionEntered(o);
    hide Enters, Inside, Made, After, Boundaries, InFunction, InFirst, FunctionElem;
    InsideIsBoundary(InFirst(), o, FunctionWithType(), 1, above, above + [Some(FunctionElem())], b);
  }

  lemma UnitBoundary(o: Options, dies: Dies, b: Boundary)
    requires b in Boundaries(InFirst(), o, dies, 1, [None])
    ensures b in Boundaries(Initial(), o, Unit(dies), 0, [])
  {
    hide Enters, Inside, Made, After, Boundaries, InFirst, Initial, Agrees, Told;
    UnitEntered(o, dies);
    var empty: seq<Option<Elem>> := [];
    assert empty + [None] == [None];
    InsideIsBoundary(Initial(), o, Unit(dies), 0, empty, [None], b);
  }

  /**
   In this unit, too, only unregistered or element-adding DIEs have children. Behind
   its parameter the top of the stack is the nested type instead of the function.
   */
  lemma LocatedParameterReplacesFunction(o: Options)
    requires o.functions
    ensures var d := Unit(FunctionWithType());
      && ValidDies(d) && ParentsAdd(Initial(), o, d, 0)
      && Boundary(BehindParameter(), 2, [None] + [Some(FunctionElem())]) in Boundaries(Initial(), o, d, 0, [])
      && Top(BehindParameter().stack) == Some(TypeElem()) != Some(FunctionElem())
  {
    var above := [None] + [Some(FunctionElem())];
    assert ValidDies(Unit(FunctionWithType()));
    assert Top(BehindParameter().stack) == Some(TypeElem());
    hide Boundaries, BehindParameter, FunctionElem, TypeElem, InFunction, InFirst, Initial;
    ParameterParents(o);
    ParameterBoundary(o, above);
    FunctionBoundary(o, [None], Boundary(BehindParameter(), 2, above));
    UnitBoundary(o, FunctionWithType(), Boundary(BehindParameter(), 2, above));
  }
}
