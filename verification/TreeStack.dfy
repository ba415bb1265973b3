/**
 The tree builder's two stacks: the elements around the current DIE and the
 namespaces around it, with the count of levels that do not show in names.
 */
module TreeStack {
  import opened Bytes

  datatype Kind =
    | NoType | NsStart | NsEnd | LexicalBlock
    | Subroutine | SubroutineType | Method | VarType | VariantType
    | Member | Inheritance | SubrangeType | Enumerator | FormalParam
    | ClassType | InterfaceType | StructureType | OtherType(code: nat)

  /** A namespace is known by the names that lead to it from the root. */
  type Path = seq<string>

  datatype Elem = Elem(kind: Kind, id: nat, name: string, level: int, owner: Option<Elem>, ns: Option<Path>)

  /**
   The builder between two operations, with the flag of the walk that says whether
   the DIE before was registered.
   */
  datatype State = State(
    stack: seq<Option<Elem>>, nsStack: seq<Path>, nsCount: int, recent: Option<Elem>, elements: seq<Elem>, current: Kind,
    subFiltered: bool, regged: bool)

  /** A DIE as the builder is told of it; the switches are the program's -L, -V and -f. */
  datatype Tag =
    | TypeTag(kind: Kind) | VariantTag | LexicalBlockTag | VariableTag | NamespaceTag | SubprogramTag | FormalParameterTag
    | OtherTag

  datatype Options = Options(blocks: bool, variables: bool, functions: bool)

  // ----- what the fields say -----

  function Top(stack: seq<Option<Elem>>): Option<Elem>
  {
    if stack == [] then None else stack[|stack| - 1]
  }

  function TopNs(nsStack: seq<Path>): Path
  {
    if nsStack == [] then [] else nsStack[|nsStack| - 1]
  }

  predicate IsNs(e: Option<Elem>) { e.Some? && e.value.kind == NsStart }

  predicate IsScope(e: Option<Elem>) { IsNs(e) || (e.Some? && e.value.kind == LexicalBlock) }

  /** How many entries are namespaces or lexical blocks. */
  function Scopes(stack: seq<Option<Elem>>): nat
  {
    if stack == [] then 0
    else Scopes(stack[..|stack| - 1]) + if IsScope(stack[|stack| - 1]) then 1 else 0
  }

  /** The namespaces the entries lead through, outermost first. */
  function Paths(stack: seq<Option<Elem>>): seq<Path>
  {
    if stack == [] then []
    else
      var p := Paths(stack[..|stack| - 1]);
      var e := stack[|stack| - 1];
      if IsNs(e) then p + [TopNs(p) + [e.value.name]] else p
  }

  lemma ScopesPush(stack: seq<Option<Elem>>, e: Option<Elem>)
    ensures Scopes(stack + [e]) == Scopes(stack) + if IsScope(e) then 1 else 0
  {
    assert (stack + [e])[..|stack|] == stack;
  }

  lemma PathsPush(stack: seq<Option<Elem>>, e: Option<Elem>)
    ensures Paths(stack + [e]) == if IsNs(e) then Paths(stack) + [TopNs(Paths(stack)) + [e.value.name]] else Paths(stack)
  {
    assert (stack + [e])[..|stack|] == stack;
  }

  /** The top replaced by something that is no scope. */
  lemma ReplaceTop(stack: seq<Option<Elem>>, e: Option<Elem>)
    requires stack != [] && !IsScope(e)
    ensures var n := |stack| - 1;
      && Scopes(stack[n := e]) == Scopes(stack) - (if IsScope(stack[n]) then 1 else 0)
      && Paths(stack[n := e]) == Paths(stack[..n])
      && (!IsNs(stack[n]) ==> Paths(stack) == Paths(stack[..n]))
  {
    assert stack[|stack| - 1 := e][..|stack| - 1] == stack[..|stack| - 1];
  }

  /** The function or method the entry is in. */
  function TopFunc(e: Elem): Option<Elem>
  {
    if e.kind == Method || e.kind == Subroutine then Some(e)
    else if e.owner.None? then None
    else TopFunc(e.owner.value)
  }

  // ----- operations -----

  predicate CanHaveMethods(s: State, level: int)
  {
    var top := Top(s.stack);
    && top.Some?
    && top.value.kind != NsStart && top.value.kind != SubroutineType && top.value.kind != Subroutine
    && level > 1
  }

  /** The element a tag makes, one level up for every namespace and block around it; a method has no namespace of its own. */
  function NewElem(s: State, kind: Kind, id: nat, name: string, level: int): Elem
  {
    Elem(kind, id, name, level - s.nsCount, Top(s.stack), if kind == Method then None else Some(TopNs(s.nsStack)))
  }

  /** The element a variable makes: none when it cannot be placed. */
  function NewVar(s: State, id: nat, name: string, level: int): (r: Option<Elem>)
  {
    var e := NewElem(s, VarType, id, name, level);
    var top := Top(s.stack);
    if level - s.nsCount > 1 && s.stack != [] then
      if top.None? || s.subFiltered then None
      else if TopFunc(top.value).Some? then Some(e.(owner := TopFunc(top.value)))
      else if top.value.kind == ClassType || top.value.kind == InterfaceType || top.value.kind == StructureType then Some(e)
      else None
    else if top.Some? && top.value.kind == VarType then None
    else Some(e)
  }

  /** A variable that makes no element still becomes the current type when only its function is missing. */
  predicate LosesVar(s: State, level: int)
  {
    if level - s.nsCount > 1 && s.stack != [] then Top(s.stack).None? || s.subFiltered else true
  }

  function AddVariable(s: State, id: nat, name: string, level: int): State
  {
    match NewVar(s, id, name, level)
    case None => s.(recent := None, current := if LosesVar(s, level) then NoType else VarType)
    case Some(v) => s.(recent := None, elements := s.elements + [v], current := VarType)
  }

  function AddFunction(s: State, id: nat, name: string, level: int): State
  {
    var s := s.(subFiltered := false);
    if CanHaveMethods(s, level - s.nsCount) then s.(current := Method, recent := Some(NewElem(s, Method, id, name, level)))
    else
      var e := NewElem(s, Subroutine, id, name, level);
      s.(elements := s.elements + [e], recent := Some(e), current := Subroutine)
  }

  /** Nothing to put a member or a parent class into. */
  predicate NoPlace(s: State) { s.current == NoType || s.stack == [] || s.elements == [] }

  /** A kind that belongs inside an element; only a variant part is an element itself. */
  predicate IsInner(kind: Kind) { kind == Member || kind == VariantType || kind == Inheritance || kind == Enumerator }

  function AddInner(s: State, kind: Kind, e: Elem): State
  {
    if NoPlace(s) then s
    else if kind == VariantType then s.(elements := s.elements + [e], recent := None, current := kind)
    else s.(current := kind)
  }

  function AddOuter(s: State, kind: Kind, e: Elem): State
  {
    if kind == SubrangeType then s.(current := kind)
    else s.(elements := s.elements + [e], recent := if kind == SubroutineType then Some(e) else None, current := kind)
  }

  function AddElement(s: State, kind: Kind, id: nat, name: string, level: int): State
  {
    var e := NewElem(s, kind, id, name, level);
    if kind == VarType then AddVariable(s, id, name, level)
    else if kind == Subroutine then AddFunction(s, id, name, level)
    else if IsInner(kind) then AddInner(s, kind, e)
    else AddOuter(s, kind, e)
  }

  /** Tells the builder of a DIE and says whether it is registered. */
  function Register(s: State, o: Options, tag: Tag, id: nat, name: string, hasChildren: bool, level: int): (State, bool)
  {
    match tag
    case TypeTag(kind) => (AddElement(s, kind, id, name, level), true)
    case VariantTag => (s, Top(s.stack).Some? && Top(s.stack).value.kind == VariantType)
    case LexicalBlockTag =>
      if o.blocks && hasChildren then (AddElement(s, LexicalBlock, id, name, level), true) else (s.(current := NoType), false)
    case VariableTag =>
      if o.variables then (AddElement(s, VarType, id, name, level), true) else (s.(current := NoType), false)
    case NamespaceTag =>
      if hasChildren then (AddElement(s, NsStart, id, name, level), true) else (s.(current := NoType), false)
    case SubprogramTag =>
      if o.functions then (AddElement(s, Subroutine, id, name, level), true) else (s.(current := NoType), false)
    case FormalParameterTag =>
      if s.regged then
        var top := Top(s.stack);
        (s.(current := FormalParam), top.Some? && top.value.level == level - s.nsCount - 1)
      else (s.(current := NoType), false)
    case OtherTag => (s.(current := NoType), false)
  }

  /**
   An attribute of a parameter looks for the parameter below the recent element, if
   there is one, and in doing so writes that element over the top of the stack.
   */
  function GetParam(s: State): State
  {
    if s.current != FormalParam || s.elements == [] || s.stack == [] || s.recent.None? then s
    else s.(stack := s.stack[|s.stack| - 1 := s.recent])
  }

  /** After its attributes: a namespace is entered, anything else may turn out to be a known duplicate. */
  function PostProcess(s: State, known: bool): (State, bool)
    requires s.elements != []
  {
    if s.current == NsStart then
      var n := |s.elements| - 1;
      var path := TopNs(s.nsStack) + [s.elements[n].name];
      (s.(nsStack := s.nsStack + [path], elements := s.elements[n := s.elements[n].(ns := Some(path))]), true)
    else if known && s.current == Subroutine then (s.(current := NoType, subFiltered := true), false)
    else (s, !known)
  }

  /** What goes on the stack for a registered DIE. */
  function Pushed(s: State): Elem
    requires s.elements != []
  {
    if s.recent.Some? then s.recent.value else s.elements[|s.elements| - 1]
  }

  /** Post-processing enters a namespace, its own or not, and leaves everything else on the stacks. */
  lemma PostProcessFacts(s: State, known: bool)
    requires s.elements != []
    ensures var r := PostProcess(s, known).0;
      && r.stack == s.stack && r.nsCount == s.nsCount && r.recent == s.recent
      && |r.elements| == |s.elements|
      && Pushed(r).kind == Pushed(s).kind && Pushed(r).name == Pushed(s).name
      && (s.current != NsStart ==> r.nsStack == s.nsStack && Pushed(r) == Pushed(s))
      && (s.current == NsStart ==>
           var path := TopNs(s.nsStack) + [s.elements[|s.elements| - 1].name];
           r.nsStack == s.nsStack + [path] && (s.recent.None? ==> Pushed(r) == Pushed(s).(ns := Some(path))))
  {
  }

  function Add2Stack(s: State, added: bool): State
  {
    if !added then s.(stack := s.stack + [None])
    else if s.elements == [] then s
    else
      var last := Some(s.elements[|s.elements| - 1]);
      s.(nsCount := s.nsCount + (if IsScope(last) && s.recent.None? then 1 else 0), stack := s.stack + [Some(Pushed(s))])
  }

  function PopStack(s: State): State
  {
    if s.stack == [] then s
    else
      var n := |s.stack| - 1;
      var top := s.stack[n];
      var s' := s.(stack := s.stack[..n], recent := None, nsCount := s.nsCount - if IsScope(top) then 1 else 0);
      if IsNs(top) then
        var e := Elem(NsEnd, top.value.id, top.value.name, top.value.level, top, Some(TopNs(s.nsStack)));
        s'.(elements := s.elements + [e], nsStack := if s.nsStack == [] then [] else s.nsStack[..|s.nsStack| - 1])
      else s'
  }

  /** Between units everything is forgotten but the namespace stack and the current type. */
  function ProcessUnit(s: State): State
  {
    s.(stack := [], elements := [], nsCount := 0, recent := None)
  }

  // ----- what every operation keeps -----

  /** The count of scopes is that of the stack, and the recent element is never a scope. */
  predicate Counted(s: State)
  {
    s.nsCount == Scopes(s.stack) && !IsScope(s.recent)
  }

  /** The three stacks agree: with the depth, with each other, and with the names of the namespaces around. */
  predicate Agrees(s: State, depth: nat)
  {
    && Counted(s) && |s.stack| == depth && s.nsStack == Paths(s.stack)
    && (s.elements == [] ==> forall k :: 0 <= k < |s.stack| ==> s.stack[k].None?)
  }

  datatype Op =
    | DoRegister(o: Options, tag: Tag, id: nat, name: string, hasChildren: bool, level: int)
    | DoGetParam | DoPostProcess(known: bool) | DoAdd2Stack(added: bool) | DoPopStack | DoProcessUnit | DoSetRegged(regged: bool)

  predicate ValidTag(tag: Tag)
  {
    tag.TypeTag? ==>
      tag.kind in {Member, Inheritance, SubrangeType, Enumerator, VariantType, SubroutineType, ClassType, InterfaceType, StructureType}
      || tag.kind.OtherType?
  }

  function Apply(s: State, op: Op): State
  {
    match op
    case DoRegister(o, tag, id, name, hasChildren, level) => Register(s, o, tag, id, name, hasChildren, level).0
    case DoGetParam => GetParam(s)
    case DoPostProcess(known) => if s.elements == [] then s else PostProcess(s, known).0
    case DoAdd2Stack(added) => Add2Stack(s, added)
    case DoPopStack => PopStack(s)
    case DoProcessUnit => ProcessUnit(s)
    case DoSetRegged(regged) => s.(regged := regged)
  }

  function Run(s: State, ops: seq<Op>): State
    decreases |ops|
  {
    if ops == [] then s else Run(Apply(s, ops[0]), ops[1..])
  }

  /** What adding an element leaves alone. */
  predicate KeepsStacks(s: State, s': State)
  {
    && s'.stack == s.stack && s'.nsStack == s.nsStack && s'.nsCount == s.nsCount && s'.regged == s.regged
    && (!IsScope(s.recent) ==> !IsScope(s'.recent))
    && |s.elements| <= |s'.elements|
  }

  lemma AddVariableKeeps(s: State, id: nat, name: string, level: int)
    ensures KeepsStacks(s, AddVariable(s, id, name, level)) && AddVariable(s, id, name, level).current != NsStart
  {
    hide NewVar, LosesVar;
  }

  lemma AddFunctionKeeps(s: State, id: nat, name: string, level: int)
    ensures KeepsStacks(s, AddFunction(s, id, name, level)) && AddFunction(s, id, name, level).current != NsStart
  {
    hide CanHaveMethods;
  }

  lemma AddInnerKeeps(s: State, kind: Kind, e: Elem)
    requires IsInner(kind)
    ensures KeepsStacks(s, AddInner(s, kind, e)) && (s.current != NsStart ==> AddInner(s, kind, e).current != NsStart)
  {
  }

  lemma AddElementKeepsStacks(s: State, kind: Kind, id: nat, name: string, level: int)
    ensures var s' := AddElement(s, kind, id, name, level);
      KeepsStacks(s, s') && (kind != NsStart && s.current != NsStart ==> s'.current != NsStart)
  {
    hide AddVariable, AddFunction, AddInner;
    AddVariableKeeps(s, id, name, level);
    AddFunctionKeeps(s, id, name, level);
    if IsInner(kind) { AddInnerKeeps(s, kind, NewElem(s, kind, id, name, level)); }
  }

  /** The element a kind makes, if it makes one. */
  function ElemOf(s: State, kind: Kind, id: nat, name: string, level: int): Option<Elem>
  {
    if kind == VarType then NewVar(s, id, name, level)
    else if kind == Subroutine && CanHaveMethods(s, level - s.nsCount) then Some(NewElem(s, Method, id, name, level))
    else Some(NewElem(s, kind, id, name, level))
  }

  /** An element was left behind: in the list, or as a method of the element on top. */
  predicate Added(s: State, s': State, kind: Kind)
  {
    |s'.elements| > |s.elements| || (kind == Subroutine && s'.current == Method)
  }

  /** An element that was added is the one that will be pushed, and its kind is the current type. */
  lemma AddedIsPushed(s: State, kind: Kind, id: nat, name: string, level: int)
    requires var s' := AddElement(s, kind, id, name, level); Added(s, s', kind) && s'.elements != []
    ensures var s' := AddElement(s, kind, id, name, level);
      && ElemOf(s, kind, id, name, level) == Some(Pushed(s'))
      && s'.current == Pushed(s').kind
      && (kind == NsStart <==> Pushed(s').kind == NsStart)
      && (kind == NsStart ==> s'.recent.None?)
      && Pushed(s').name == name
  {
    hide Scopes, Paths, TopFunc, LosesVar;
    if kind == VarType {
      VariableIsPushed(s, id, name, level);
    } else {
      hide NewVar;
    }
  }

  lemma VariableIsPushed(s: State, id: nat, name: string, level: int)
    requires |AddElement(s, VarType, id, name, level).elements| > |s.elements|
    ensures var s' := AddElement(s, VarType, id, name, level);
      && NewVar(s, id, name, level) == Some(Pushed(s'))
      && s'.current == VarType == Pushed(s').kind && Pushed(s').name == name
  {
    hide Scopes, Paths, TopFunc, LosesVar;
  }

  /** The next operation writes the recent element over a namespace or block. */
  predicate WritesOverScope(s: State, op: Op)
  {
    op.DoGetParam? && s.current == FormalParam && s.elements != [] && s.recent.Some? && IsScope(Top(s.stack))
  }

  lemma RegisterKeepsCount(s: State, o: Options, tag: Tag, id: nat, name: string, hasChildren: bool, level: int)
    requires Counted(s)
    ensures Counted(Register(s, o, tag, id, name, hasChildren, level).0)
  {
    hide Scopes, AddElement;
    match tag
    case TypeTag(kind) => AddElementKeepsStacks(s, kind, id, name, level);
    case LexicalBlockTag => AddElementKeepsStacks(s, LexicalBlock, id, name, level);
    case VariableTag => AddElementKeepsStacks(s, VarType, id, name, level);
    case NamespaceTag => AddElementKeepsStacks(s, NsStart, id, name, level);
    case SubprogramTag => AddElementKeepsStacks(s, Subroutine, id, name, level);
    case _ =>
  }

  lemma PushKeepsCount(s: State, added: bool)
    requires Counted(s)
    ensures Counted(Add2Stack(s, added))
  {
    hide Scopes;
    ScopesPush(s.stack, if !added || s.elements == [] then None else Some(Pushed(s)));
  }

  lemma PopKeepsCount(s: State)
    requires Counted(s)
    ensures Counted(PopStack(s))
  {
    hide Scopes;
    if s.stack != [] {
      var n := |s.stack| - 1;
      assert s.stack[..n] + [s.stack[n]] == s.stack;
      ScopesPush(s.stack[..n], s.stack[n]);
    }
  }

  lemma GetParamCounts(s: State)
    requires Counted(s)
    ensures Counted(GetParam(s)) <==> !WritesOverScope(s, DoGetParam)
  {
    hide Scopes;
    if s.stack != [] { ReplaceTop(s.stack, s.recent); }
  }

  lemma NoScopes()
    ensures Scopes([]) == 0 && Paths([]) == []
  {
  }

  /** A step keeps the count exactly when it does not write over a scope. */
  lemma StepKeepsCount(s: State, op: Op)
    requires Counted(s)
    ensures Counted(Apply(s, op)) <==> !WritesOverScope(s, op)
  {
    hide Scopes, Register, Add2Stack, PopStack, GetParam, PostProcess, Pushed;
    match op
    case DoRegister(o, tag, id, name, hasChildren, level) => RegisterKeepsCount(s, o, tag, id, name, hasChildren, level);
    case DoGetParam => GetParamCounts(s);
    case DoPostProcess(known) => if s.elements != [] { PostProcessFacts(s, known); }
    case DoAdd2Stack(added) => PushKeepsCount(s, added);
    case DoPopStack => PopKeepsCount(s);
    case DoProcessUnit => NoScopes();
    case DoSetRegged(_) =>
  }

  /** No operation of the run writes over a scope. */
  predicate SparesScopes(s: State, ops: seq<Op>)
    decreases |ops|
  {
    ops != [] ==> !WritesOverScope(s, ops[0]) && SparesScopes(Apply(s, ops[0]), ops[1..])
  }

  /**
   In every run of the builder's operations, in any order and number, the count
   taken off the levels stays, after each of them, the number of namespaces and
   blocks on the stack exactly as long as no parameter writes over one of them.
   */
  lemma {:induction false} CountFollowsStack(s: State, ops: seq<Op>)
    requires Counted(s)
    ensures (forall k :: 0 <= k <= |ops| ==> Counted(Run(s, ops[..k]))) <==> SparesScopes(s, ops)
    decreases |ops|
  {
    hide Counted, Apply, WritesOverScope;
    if ops == [] {
      assert ops[..0] == [];
    } else {
      var t, rest := Apply(s, ops[0]), ops[1..];
      StepKeepsCount(s, ops[0]);
      forall k | 0 < k <= |ops| ensures Run(s, ops[..k]) == Run(t, rest[..k - 1]) { assert ops[..k][1..] == rest[..k - 1]; }
      assert ops[..0] == [];
      assert Run(s, ops[..1]) == t by { assert rest[..0] == []; }
      if Counted(t) {
        CountFollowsStack(t, rest);
        assert forall k :: 0 <= k <= |rest| ==> Run(t, rest[..k]) == Run(s, ops[..k + 1]);
      }
    }
  }
}
