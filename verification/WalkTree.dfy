/**
 The walk over the bytes of a unit and the walk that drives the tree builder are one:
 when the first is given the builder's flags, both come to the same DIEs at the same
 levels.
 */
module WalkTree {
  import opened Bytes
  import opened Leb128
  import opened Abbrev
  import opened DieWalk
  import B = TreeStack
  import T = TreeWalk

  /** What the builder is told of the DIE at an offset. */
  datatype Facts = Facts(tag: nat -> B.Tag, name: nat -> string, known: nat -> bool, located: nat -> bool)

  predicate HasSibling(cx: Context, f: Forest)
    requires f.Tree?
  {
    && Value(f.code) in cx.decls
    && |cx.decls[Value(f.code)].attrs| == |f.values|
    && Sibling(cx.u, cx.decls[Value(f.code)].attrs, f.values) != 0
  }

  /** The DIEs of a forest that starts at pos, as the builder is told of them; an offset is the DIE's id. */
  function ToDies(cx: Context, k: Facts, f: Forest, pos: nat): T.Dies
  {
    if f.Nil? then T.Nil
    else
      T.Die(T.Info(k.tag(pos), pos, k.name(pos), HasChildren(cx, f), k.known(pos), HasSibling(cx, f), k.located(pos)),
            ToDies(cx, k, f.children, pos + |DieHead(f)|),
            ToDies(cx, k, f.rest, pos + |EncodeDie(cx, f)|))
  }

  /** A DIE that the builder is told of, and its state then. */
  datatype Stop = Stop(id: nat, depth: nat, state: B.State)

  function Stops(s: B.State, o: B.Options, d: T.Dies, depth: nat): seq<Stop>
    decreases d
  {
    if d.Nil? then []
    else
      [Stop(d.info.id, depth, s)]
      + (if T.Enters(s, o, d, depth) then Stops(T.Inside(s, o, d, depth), o, d.children, depth + 1) else [])
      + Stops(T.After(s, o, d, depth), o, d.rest, depth)
  }

  /** At every DIE the builder is told of, the flag of the first walk is the builder's. */
  predicate FlagsAgree(cx: Context, k: Facts, s: B.State, o: B.Options, f: Forest, pos: nat, depth: nat)
    decreases f
  {
    f.Tree? ==>
      var d := ToDies(cx, k, f, pos);
      && cx.registered(pos) == T.Read(s, o, d, depth).regged
      && (T.Enters(s, o, d, depth) ==>
           FlagsAgree(cx, k, T.Inside(s, o, d, depth), o, f.children, pos + |DieHead(f)|, depth + 1))
      && FlagsAgree(cx, k, T.After(s, o, d, depth), o, f.rest, pos + |EncodeDie(cx, f)|, depth)
  }

  /** The walks come to the same offsets at the same depths, in order. */
  predicate SamePlaces(visits: seq<Visit>, stops: seq<Stop>)
  {
    |visits| == |stops|
    && forall i :: 0 <= i < |visits| ==> visits[i].offset == stops[i].id && visits[i].level == stops[i].depth
  }

  /** Both walks leave out the children of a DIE alike. */
  lemma SameEntry(cx: Context, k: Facts, s: B.State, o: B.Options, f: Forest, pos: nat, depth: nat)
    requires f.Tree? && WellFormed(cx, f, pos)
    requires cx.registered(pos) == T.Read(s, o, ToDies(cx, k, f, pos), depth).regged
    ensures T.Enters(s, o, ToDies(cx, k, f, pos), depth) ==> !Jumps(cx, f, pos)
    ensures !T.Enters(s, o, ToDies(cx, k, f, pos), depth) && !Jumps(cx, f, pos) ==> f.children.Nil?
  {
    hide Value, T.Read, EncodeDie, DieHead, Sibling;
  }

  /** The flags of a DIE, of its children and of the DIEs after it, and the DIEs themselves. */
  lemma FlagsOf(cx: Context, k: Facts, s: B.State, o: B.Options, f: Forest, pos: nat, depth: nat)
    requires f.Tree? && FlagsAgree(cx, k, s, o, f, pos, depth)
    ensures var d := ToDies(cx, k, f, pos);
      && d.Die? && d.info.id == pos
      && d.children == ToDies(cx, k, f.children, pos + |DieHead(f)|)
      && d.rest == ToDies(cx, k, f.rest, pos + |EncodeDie(cx, f)|)
      && cx.registered(pos) == T.Read(s, o, d, depth).regged
      && (T.Enters(s, o, d, depth) ==>
           FlagsAgree(cx, k, T.Inside(s, o, d, depth), o, f.children, pos + |DieHead(f)|, depth + 1))
      && FlagsAgree(cx, k, T.After(s, o, d, depth), o, f.rest, pos + |EncodeDie(cx, f)|, depth)
  {
    hide T.Read, T.Enters, T.Inside, T.After, EncodeDie, DieHead;
  }

  lemma NothingThere(cx: Context, k: Facts, s: B.State, o: B.Options, pos: nat, depth: nat)
    ensures SamePlaces(Visits(cx, Nil, pos, depth), Stops(s, o, ToDies(cx, k, Nil, pos), depth))
  {
  }

  /** The visits among the children of a DIE, and what the builder is told there. */
  function VisitsBelow(cx: Context, f: Forest, pos: nat, depth: nat): seq<Visit>
    requires f.Tree?
  {
    if Jumps(cx, f, pos) then [] else Visits(cx, f.children, pos + |DieHead(f)|, depth + 1)
  }

  function StopsBelow(s: B.State, o: B.Options, d: T.Dies, depth: nat): seq<Stop>
    requires d.Die?
  {
    if T.Enters(s, o, d, depth) then Stops(T.Inside(s, o, d, depth), o, d.children, depth + 1) else []
  }

  lemma StopsOf(s: B.State, o: B.Options, d: T.Dies, depth: nat)
    requires d.Die?
    ensures Stops(s, o, d, depth)
      == [Stop(d.info.id, depth, s)] + StopsBelow(s, o, d, depth) + Stops(T.After(s, o, d, depth), o, d.rest, depth)
  {
    hide T.Enters, T.Inside, T.After;
  }

  lemma NoPlaces()
    ensures SamePlaces([], [])
  {
  }

  lemma Joined(v: Visit, a: seq<Visit>, b: seq<Visit>, t: Stop, c: seq<Stop>, d: seq<Stop>)
    requires v.offset == t.id && v.level == t.depth && SamePlaces(a, c) && SamePlaces(b, d)
    ensures SamePlaces([v] + a + b, [t] + c + d)
  {
  }

  lemma SameBelow(cx: Context, s: B.State, o: B.Options, f: Forest, pos: nat, d: T.Dies, depth: nat)
    requires f.Tree? && d.Die?
    requires T.Enters(s, o, d, depth) ==> !Jumps(cx, f, pos)
    requires !T.Enters(s, o, d, depth) && !Jumps(cx, f, pos) ==> f.children.Nil?
    requires T.Enters(s, o, d, depth) ==>
      SamePlaces(Visits(cx, f.children, pos + |DieHead(f)|, depth + 1), Stops(T.Inside(s, o, d, depth), o, d.children, depth + 1))
    ensures SamePlaces(VisitsBelow(cx, f, pos, depth), StopsBelow(s, o, d, depth))
  {
    hide Jumps, DieHead, Visits, Stops, T.Enters, T.Inside, SamePlaces;
    NoVisits(cx, pos + |DieHead(f)|, depth + 1);
    NoPlaces();
  }

  lemma SameFrom(cx: Context, s: B.State, o: B.Options, f: Forest, pos: nat, d: T.Dies, depth: nat)
    requires f.Tree? && d.Die? && d.info.id == pos
    requires SamePlaces(VisitsBelow(cx, f, pos, depth), StopsBelow(s, o, d, depth))
    requires SamePlaces(Visits(cx, f.rest, pos + |EncodeDie(cx, f)|, depth), Stops(T.After(s, o, d, depth), o, d.rest, depth))
    ensures SamePlaces(Visits(cx, f, pos, depth), Stops(s, o, d, depth))
  {
    hide Jumps, DieHead, EncodeDie, Value, Visits, Stops, T.Enters, T.Inside, T.After, SamePlaces;
    VisitsDown(cx, f, pos, depth);
    StopsOf(s, o, d, depth);
    Joined(Visit(pos, Value(f.code), depth), VisitsBelow(cx, f, pos, depth), Visits(cx, f.rest, pos + |EncodeDie(cx, f)|, depth),
           Stop(pos, depth, s), StopsBelow(s, o, d, depth), Stops(T.After(s, o, d, depth), o, d.rest, depth));
  }

  /**
   With the builder's flags the walk over the bytes visits exactly the DIEs that the
   builder is told of, in order, at their depths.
   */
  lemma {:induction false} SameDies(cx: Context, k: Facts, s: B.State, o: B.Options, f: Forest, pos: nat, depth: nat)
    requires WellFormed(cx, f, pos) && FlagsAgree(cx, k, s, o, f, pos, depth)
    ensures SamePlaces(Visits(cx, f, pos, depth), Stops(s, o, ToDies(cx, k, f, pos), depth))
    decreases f
  {
    hide *;
    if f.Nil? {
      NothingThere(cx, k, s, o, pos, depth);
      return;
    }
    var d := ToDies(cx, k, f, pos);
    var p, q := pos + |DieHead(f)|, pos + |EncodeDie(cx, f)|;
    WellFormedRest(cx, f, pos);
    FlagsOf(cx, k, s, o, f, pos, depth);
    SameEntry(cx, k, s, o, f, pos, depth);
    if T.Enters(s, o, d, depth) { SameDies(cx, k, T.Inside(s, o, d, depth), o, f.children, p, depth + 1); }
    SameDies(cx, k, T.After(s, o, d, depth), o, f.rest, q, depth);
    SameBelow(cx, s, o, f, pos, d, depth);
    SameFrom(cx, s, o, f, pos, d, depth);
  }

  /** Where the stacks agree throughout, they do at every DIE the builder is told of. */
  lemma {:induction false} StopsAgree(s: B.State, o: B.Options, d: T.Dies, depth: nat)
    requires B.Agrees(s, depth) && T.ValidDies(d) && T.AllSound(s, o, d, depth)
    ensures forall v :: v in Stops(s, o, d, depth) ==> B.Agrees(v.state, v.depth)
    decreases d
  {
    hide B.Agrees, T.Enters, T.Inside, T.Read, T.Told, T.Sound, T.StackBehind, T.SameBelow, T.Walk;
    if d.Die? {
      T.SoundFacts(s, o, d, depth);
      if T.Enters(s, o, d, depth) {
        StopsAgree(T.Inside(s, o, d, depth), o, d.children, depth + 1);
        T.WalkAgrees(T.Inside(s, o, d, depth), o, d.children, depth + 1, []);
        T.AfterChildren(s, o, d, depth);
      }
      StopsAgree(T.After(s, o, d, depth), o, d.rest, depth);
    }
  }

  /** So the level of each visit is the depth of the builder's stack there. */
  lemma LevelIsStackDepth(cx: Context, k: Facts, s: B.State, o: B.Options, f: Forest, pos: nat, depth: nat)
    requires WellFormed(cx, f, pos) && FlagsAgree(cx, k, s, o, f, pos, depth)
    requires B.Agrees(s, depth) && T.ValidDies(ToDies(cx, k, f, pos)) && T.AllSound(s, o, ToDies(cx, k, f, pos), depth)
    ensures var visits, stops := Visits(cx, f, pos, depth), Stops(s, o, ToDies(cx, k, f, pos), depth);
      && |visits| == |stops|
      && forall i :: 0 <= i < |visits| ==> visits[i].offset == stops[i].id && visits[i].level == |stops[i].state.stack|
  {
    hide WellFormed, FlagsAgree, T.AllSound, T.ValidDies, Visits, Stops, ToDies;
    var visits, stops := Visits(cx, f, pos, depth), Stops(s, o, ToDies(cx, k, f, pos), depth);
    SameDies(cx, k, s, o, f, pos, depth);
    StopsAgree(s, o, ToDies(cx, k, f, pos), depth);
    forall i | 0 <= i < |visits|
      ensures visits[i].offset == stops[i].id && visits[i].level == |stops[i].state.stack|
    {
      assert stops[i] in stops;
    }
  }

  // ----- the builder's flags are flags of the byte walk -----

  /** The offsets of the DIEs that the builder registers. */
  function Registered(cx: Context, k: Facts, s: B.State, o: B.Options, f: Forest, pos: nat, depth: nat): set<nat>
    decreases f
  {
    if f.Nil? then {}
    else
      var d := ToDies(cx, k, f, pos);
      (if T.Read(s, o, d, depth).regged then {pos} else {})
      + (if T.Enters(s, o, d, depth) then
           Registered(cx, k, T.Inside(s, o, d, depth), o, f.children, pos + |DieHead(f)|, depth + 1)
         else {})
      + Registered(cx, k, T.After(s, o, d, depth), o, f.rest, pos + |EncodeDie(cx, f)|, depth)
  }

  lemma {:induction false} RegisteredInside(cx: Context, k: Facts, s: B.State, o: B.Options, f: Forest, pos: nat, depth: nat)
    requires WellFormed(cx, f, pos)
    ensures forall p :: p in Registered(cx, k, s, o, f, pos, depth) ==> pos <= p < pos + |Encode(cx, f)|
    decreases f
  {
    hide Value, T.Read, T.Inside, T.After, T.Enters, EncodeDie, DieHead, Encode, HasSibling, WellFormed;
    if f.Tree? {
      var d := ToDies(cx, k, f, pos);
      var p, q := pos + |DieHead(f)|, pos + |EncodeDie(cx, f)|;
      var i, after := T.Inside(s, o, d, depth), T.After(s, o, d, depth);
      Lengths(cx, f, pos);
      WellFormedRest(cx, f, pos);
      EnteredHasChildren(s, o, d, depth);
      var here := if T.Read(s, o, d, depth).regged then {pos} else {};
      var kids := if T.Enters(s, o, d, depth) then Registered(cx, k, i, o, f.children, p, depth + 1) else {};
      var rest := Registered(cx, k, after, o, f.rest, q, depth);
      assert Registered(cx, k, s, o, f, pos, depth) == here + kids + rest;
      hide Registered;
      RegisteredInside(cx, k, i, o, f.children, p, depth + 1);
      RegisteredInside(cx, k, after, o, f.rest, q, depth);
    }
  }

  lemma EnteredHasChildren(s: B.State, o: B.Options, d: T.Dies, depth: nat)
    requires d.Die?
    ensures T.Enters(s, o, d, depth) ==> d.info.hasChildren
  {
    hide T.Read;
  }

  lemma Lengths(cx: Context, f: Forest, pos: nat)
    requires f.Tree? && WellFormed(cx, f, pos)
    ensures |Encode(cx, f)| == |EncodeDie(cx, f)| + |Encode(cx, f.rest)|
    ensures 0 < |DieHead(f)| <= |EncodeDie(cx, f)|
    ensures HasChildren(cx, f) ==> |DieHead(f)| + |Encode(cx, f.children)| < |EncodeDie(cx, f)|
  {
    EncodeLength(cx, f);
    CodeNotEmpty(cx, f, pos);
    if HasChildren(cx, f) { DieLength(cx, f); }
  }

  /** Flags that hold exactly where the builder registers a DIE are the builder's. */
  lemma {:induction false} RegisteredAreFlags(cx: Context, k: Facts, s: B.State, o: B.Options, f: Forest, pos: nat, depth: nat)
    requires WellFormed(cx, f, pos)
    requires forall p :: pos <= p < pos + |Encode(cx, f)| ==>
      (cx.registered(p) <==> p in Registered(cx, k, s, o, f, pos, depth))
    ensures FlagsAgree(cx, k, s, o, f, pos, depth)
    decreases f
  {
    hide Value, T.Read, T.Inside, T.After, T.Enters, EncodeDie, DieHead, Encode, HasSibling, WellFormed;
    if f.Tree? {
      var d := ToDies(cx, k, f, pos);
      var p, q := pos + |DieHead(f)|, pos + |EncodeDie(cx, f)|;
      var i, after := T.Inside(s, o, d, depth), T.After(s, o, d, depth);
      Lengths(cx, f, pos);
      WellFormedRest(cx, f, pos);
      EnteredHasChildren(s, o, d, depth);
      var here := if T.Read(s, o, d, depth).regged then {pos} else {};
      var kids := if T.Enters(s, o, d, depth) then Registered(cx, k, i, o, f.children, p, depth + 1) else {};
      var rest := Registered(cx, k, after, o, f.rest, q, depth);
      assert Registered(cx, k, s, o, f, pos, depth) == here + kids + rest;
      RegisteredInside(cx, k, i, o, f.children, p, depth + 1);
      RegisteredInside(cx, k, after, o, f.rest, q, depth);
      hide Registered;
      RegisteredAreFlags(cx, k, after, o, f.rest, q, depth);
      if T.Enters(s, o, d, depth) { RegisteredAreFlags(cx, k, i, o, f.children, p, depth + 1); }
    }
  }

  // ----- such flags exist -----

  /** The bytes of a forest do not depend on the flags. */
  lemma {:induction false} EncodeSame(cx: Context, g: nat -> bool, f: Forest)
    ensures Encode(cx.(registered := g), f) == Encode(cx, f)
    ensures f.Tree? ==> EncodeDie(cx.(registered := g), f) == EncodeDie(cx, f)
    decreases f
  {
    hide Value, DieHead;
    if f.Tree? {
      EncodeSame(cx, g, f.children);
      EncodeSame(cx, g, f.rest);
      assert DieTail(cx.(registered := g), f) == DieTail(cx, f);
      assert EncodeDie(cx.(registered := g), f) == EncodeDie(cx, f);
    }
  }

  lemma {:induction false} WellFormedSame(cx: Context, g: nat -> bool, f: Forest, pos: nat)
    requires WellFormed(cx, f, pos)
    ensures WellFormed(cx.(registered := g), f, pos)
    decreases f
  {
    hide Value, DieHead, EncodeDie, Sibling, ValuesFit;
    if f.Tree? {
      EncodeSame(cx, g, f);
      WellFormedSame(cx, g, f.children, pos + |DieHead(f)|);
      WellFormedSame(cx, g, f.rest, pos + |EncodeDie(cx, f)|);
    }
  }

  lemma {:induction false} ToDiesSame(cx: Context, g: nat -> bool, k: Facts, f: Forest, pos: nat)
    ensures ToDies(cx.(registered := g), k, f, pos) == ToDies(cx, k, f, pos)
    decreases f
  {
    hide Value, DieHead, EncodeDie, Sibling;
    if f.Tree? {
      EncodeSame(cx, g, f);
      ToDiesSame(cx, g, k, f.children, pos + |DieHead(f)|);
      ToDiesSame(cx, g, k, f.rest, pos + |EncodeDie(cx, f)|);
    }
  }

  lemma {:induction false} RegisteredSame(
    cx: Context, g: nat -> bool, k: Facts, s: B.State, o: B.Options, f: Forest, pos: nat, depth: nat)
    ensures Registered(cx.(registered := g), k, s, o, f, pos, depth) == Registered(cx, k, s, o, f, pos, depth)
    decreases f
  {
    hide Value, T.Read, T.Inside, T.After, T.Enters, EncodeDie, DieHead, ToDies;
    if f.Tree? {
      var d := ToDies(cx, k, f, pos);
      EncodeSame(cx, g, f);
      ToDiesSame(cx, g, k, f, pos);
      DiesOf(cx, k, f, pos);
      RegisteredSame(cx, g, k, T.Inside(s, o, d, depth), o, f.children, pos + |DieHead(f)|, depth + 1);
      RegisteredSame(cx, g, k, T.After(s, o, d, depth), o, f.rest, pos + |EncodeDie(cx, f)|, depth);
    }
  }

  lemma DiesOf(cx: Context, k: Facts, f: Forest, pos: nat)
    ensures ToDies(cx, k, f, pos).Die? <==> f.Tree?
  {
  }

  /** The walk over the bytes, told exactly what the builder registers. */
  function Following(cx: Context, k: Facts, s: B.State, o: B.Options, f: Forest, pos: nat, depth: nat): Context
  {
    var registered := Registered(cx, k, s, o, f, pos, depth);
    cx.(registered := (p: nat) => p in registered)
  }

  /**
   Whatever flags a context has, replacing them by what the builder registers over the
   same bytes gives the builder's flags, so both walks come to the same DIEs.
   */
  lemma BuilderDrivesWalk(cx: Context, k: Facts, s: B.State, o: B.Options, f: Forest, pos: nat, depth: nat)
    requires WellFormed(cx, f, pos)
    ensures var cx' := Following(cx, k, s, o, f, pos, depth);
      && WellFormed(cx', f, pos) && Encode(cx', f) == Encode(cx, f)
      && FlagsAgree(cx', k, s, o, f, pos, depth)
      && SamePlaces(Visits(cx', f, pos, depth), Stops(s, o, ToDies(cx, k, f, pos), depth))
  {
    hide WellFormed, Encode, FlagsAgree, SamePlaces, Visits, Stops, ToDies, Registered;
    var cx' := Following(cx, k, s, o, f, pos, depth);
    WellFormedSame(cx, cx'.registered, f, pos);
    EncodeSame(cx, cx'.registered, f);
    ToDiesSame(cx, cx'.registered, k, f, pos);
    RegisteredSame(cx, cx'.registered, k, s, o, f, pos, depth);
    assert cx' == cx.(registered := cx'.registered);
    RegisteredAreFlags(cx', k, s, o, f, pos, depth);
    SameDies(cx', k, s, o, f, pos, depth);
  }
}
