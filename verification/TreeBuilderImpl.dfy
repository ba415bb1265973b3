/** The tree builder's fields, updated in place by the operations TreeStack specifies. */
module TreeBuilderImpl {
  import opened Bytes
  import opened TreeStack

  class TreeBuilder {
    var stack: seq<Option<Elem>>
    var nsStack: seq<Path>
    var nsCount: int
    var recent: Option<Elem>
    var elements: seq<Elem>
    var current: Kind
    var subFiltered: bool
    var regged: bool

    ghost function St(): State
      reads this
    {
      State(stack, nsStack, nsCount, recent, elements, current, subFiltered, regged)
    }

    constructor ()
      ensures Agrees(St(), 0)
    {
      stack, nsStack, nsCount, recent, elements, current := [], [], 0, None, [], NoType;
      subFiltered, regged := false, false;
      new;
      NoScopes();
    }

    method CanHaveMethods(level: int) returns (can: bool)
      ensures can == TreeStack.CanHaveMethods(St(), level)
    {
      if stack == [] { return false; }
      var last := Top(stack);
      if last.None? { return false; }
      if last.value.kind == NsStart || last.value.kind == SubroutineType || last.value.kind == Subroutine { return false; }
      return level > 1;
    }

    method AddElement(kind: Kind, id: nat, name: string, depth: int)
      modifies this
      ensures St() == TreeStack.AddElement(old(St()), kind, id, name, depth)
    {
      hide TreeStack.AddVariable, TreeStack.AddFunction, TreeStack.AddInner, TreeStack.AddOuter;
      if kind == VarType {
        AddVariable(id, name, depth);
        return;
      }
      if kind == Subroutine {
        AddFunction(id, name, depth);
        return;
      }
      var element := Elem(kind, id, name, depth - nsCount, Top(stack), if kind == Method then None else Some(TopNs(nsStack)));
      if IsInner(kind) {
        AddInner(kind, element);
        return;
      }
      AddOuter(kind, element);
    }

    method AddOuter(kind: Kind, element: Elem)
      modifies this
      ensures St() == TreeStack.AddOuter(old(St()), kind, element)
    {
      if kind != SubrangeType {
        elements := elements + [element];
        recent := if kind == SubroutineType then Some(element) else None;
      }
      current := kind;
    }

    method AddInner(kind: Kind, element: Elem)
      requires IsInner(kind)
      modifies this
      ensures St() == TreeStack.AddInner(old(St()), kind, element)
    {
      if current == NoType { return; }
      if stack == [] { return; }
      if elements == [] { return; }
      if kind == VariantType { elements, recent := elements + [element], None; }
      current := kind;
    }

    method AddFunction(id: nat, name: string, depth: int)
      modifies this
      ensures St() == TreeStack.AddFunction(old(St()), id, name, depth)
    {
      hide TreeStack.CanHaveMethods, Top, TopNs;
      var level := depth - nsCount;
      var owner := Top(stack);
      subFiltered := false;
      var asMethod := CanHaveMethods(level);
      if asMethod {
        current := Method;
        recent := Some(Elem(Method, id, name, level, owner, None));
        return;
      }
      var element := Elem(Subroutine, id, name, level, owner, Some(TopNs(nsStack)));
      elements := elements + [element];
      recent := Some(element);
      current := Subroutine;
    }

    method AddVariable(id: nat, name: string, depth: int)
      modifies this
      ensures St() == TreeStack.AddVariable(old(St()), id, name, depth)
    {
      var level := depth - nsCount;
      var owner, ns := Top(stack), Some(TopNs(nsStack));
      recent := None;
      if level > 1 && stack != [] {
        if owner.None? || subFiltered {
          current := NoType;
          return;
        }
        var func := TopFunc(owner.value);
        if func.None? {
          func := owner;
          if func.value.kind != ClassType && func.value.kind != InterfaceType && func.value.kind != StructureType {
            current := VarType;
            return;
          }
        }
        elements := elements + [Elem(VarType, id, name, level, func, ns)];
      } else {
        if owner.Some? && owner.value.kind == VarType {
          current := NoType;
          return;
        }
        elements := elements + [Elem(VarType, id, name, level, owner, ns)];
      }
      current := VarType;
    }

    method RegisterNewTag(o: Options, tag: Tag, id: nat, name: string, hasChildren: bool, depth: int) returns (added: bool)
      modifies this
      ensures (St(), added) == Register(old(St()), o, tag, id, name, hasChildren, depth)
    {
      match tag {
        case TypeTag(kind) =>
          AddElement(kind, id, name, depth);
          return true;
        case VariantTag =>
          if stack == [] { return false; }
          var top := Top(stack);
          return top.Some? && top.value.kind == VariantType;
        case LexicalBlockTag =>
          if o.blocks && hasChildren {
            AddElement(LexicalBlock, id, name, depth);
            return true;
          }
        case VariableTag =>
          if o.variables {
            AddElement(VarType, id, name, depth);
            return true;
          }
        case NamespaceTag =>
          if hasChildren {
            AddElement(NsStart, id, name, depth);
            return true;
          }
        case SubprogramTag =>
          if o.functions {
            AddElement(Subroutine, id, name, depth);
            return true;
          }
        case FormalParameterTag =>
          if regged {
            current := FormalParam;
            if stack == [] { return false; }
            var top := Top(stack);
            return top.Some? && top.value.level == depth - nsCount - 1;
          }
        case OtherTag =>
      }
      current := NoType;
      return false;
    }

    /** Looks for the parameter an attribute belongs to: the reference to the top of the stack is assigned, not copied. */
    method GetParam()
      modifies this`stack
      ensures St() == TreeStack.GetParam(old(St()))
    {
      if current != FormalParam { return; }
      if elements == [] { return; }
      if stack == [] { return; }
      if recent.Some? { stack := stack[|stack| - 1 := recent]; }
    }

    method PostProcessTag(known: bool) returns (kept: bool)
      requires elements != []
      modifies this
      ensures (St(), kept) == PostProcess(old(St()), known)
    {
      var n := |elements| - 1;
      if current == NsStart {
        var path := TopNs(nsStack) + [elements[n].name];
        nsStack := nsStack + [path];
        elements := elements[n := elements[n].(ns := Some(path))];
        return true;
      }
      if known && current == Subroutine {
        current := NoType;
        subFiltered := true;
      }
      return !known;
    }

    method Add2Stack(added: bool)
      modifies this
      ensures St() == TreeStack.Add2Stack(old(St()), added)
    {
      if !added {
        stack := stack + [None];
        return;
      }
      if elements == [] { return; }
      var last := elements[|elements| - 1];
      if last.kind == NsStart && recent.None? {
        nsCount := nsCount + 1;
      } else if last.kind == LexicalBlock && recent.None? {
        nsCount := nsCount + 1;
      }
      if recent.Some? { stack := stack + [recent]; } else { stack := stack + [Some(last)]; }
    }

    method PopStack()
      modifies this
      ensures St() == TreeStack.PopStack(old(St()))
    {
      if stack == [] { return; }
      var n := |stack| - 1;
      var top := stack[n];
      if top.None? {
        stack, recent := stack[..n], None;
        return;
      }
      var last := top.value;
      if last.kind == NsStart {
        nsCount := nsCount - 1;
        elements := elements + [Elem(NsEnd, last.id, last.name, last.level, Top(stack), Some(TopNs(nsStack)))];
        if nsStack != [] { nsStack := nsStack[..|nsStack| - 1]; }
      } else if last.kind == LexicalBlock {
        nsCount := nsCount - 1;
      }
      stack, recent := stack[..n], None;
    }

    method ProcessUnit()
      modifies this
      ensures St() == TreeStack.ProcessUnit(old(St()))
    {
      if stack != [] { stack := []; }
      elements, nsCount, recent := [], 0, None;
    }
  }
}
