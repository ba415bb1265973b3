/**
 The plugin's lookup of recorded function-pointer names: names are recorded per
 basic block, and a block with a single predecessor inherits from it.
 */
module BlockChain {
  import opened Bytes

  const ENTRY_BLOCK := 0
  const EXIT_BLOCK := 1

  /** A function's basic blocks in iteration order, and the source of each incoming edge. */
  datatype Cfg = Cfg(blocks: seq<int>, preds: map<int, seq<int>>)

  ghost predicate WellFormed(g: Cfg) { forall b :: b in g.blocks ==> b in g.preds }

  // ----- paths and dominance -----

  /** p starts at the entry block and follows edges of g. */
  ghost predicate IsPath(g: Cfg, p: seq<int>)
  {
    && p != [] && p[0] == ENTRY_BLOCK
    && forall k :: 0 < k < |p| ==> p[k] in g.preds && p[k - 1] in g.preds[p[k]]
  }

  ghost predicate PathTo(g: Cfg, p: seq<int>, b: int) { IsPath(g, p) && p[|p| - 1] == b }

  ghost predicate Reachable(g: Cfg, b: int) { exists p :: PathTo(g, p, b) }

  /** Every path from the entry to b goes through a. */
  ghost predicate Dominates(g: Cfg, a: int, b: int) { forall p :: PathTo(g, p, b) ==> a in p }

  // ----- the parent map and its chains -----

  /** A block other than entry and exit whose only incoming edge comes from another block. */
  predicate HasParent(g: Cfg, b: int)
  {
    b in g.blocks && b != ENTRY_BLOCK && b != EXIT_BLOCK && b in g.preds && |g.preds[b]| == 1 && g.preds[b][0] != b
  }

  ghost predicate IsParentMap(g: Cfg, parents: map<int, int>)
  {
    forall b :: (b in parents <==> HasParent(g, b)) && (b in parents ==> parents[b] == g.preds[b][0])
  }

  /** The block k steps up the chain from b, if the chain is that long. */
  ghost function Up(parents: map<int, int>, b: int, k: nat): Option<int>
    decreases k
  {
    if k == 0 then Some(b)
    else if b in parents then Up(parents, parents[b], k - 1)
    else None
  }

  /** Dropping the last block of a path to b leaves a path to b's parent. */
  lemma PathToParent(g: Cfg, parents: map<int, int>, p: seq<int>, b: int)
    requires IsParentMap(g, parents) && PathTo(g, p, b) && b in parents
    ensures |p| > 1 && PathTo(g, p[..|p| - 1], parents[b])
  {
    assert p[|p| - 2] in g.preds[p[|p| - 1]];
  }

  /** A path to b shortened by k blocks is a path to the chain ancestor k steps up. */
  lemma {:induction false} PathToAncestor(g: Cfg, parents: map<int, int>, p: seq<int>, b: int, k: nat)
    requires IsParentMap(g, parents) && PathTo(g, p, b)
    requires Up(parents, b, k).Some?
    ensures k < |p| && PathTo(g, p[..|p| - k], Up(parents, b, k).value)
    decreases k
  {
    if k == 0 {
      assert p[..|p|] == p;
    } else {
      PathToParent(g, parents, p, b);
      var init := p[..|p| - 1];
      PathToAncestor(g, parents, init, parents[b], k - 1);
      assert init[..|init| - (k - 1)] == p[..|p| - k];
    }
  }

  /** Every chain ancestor of a block dominates it. */
  lemma AncestorDominates(g: Cfg, parents: map<int, int>, b: int, k: nat)
    requires IsParentMap(g, parents) && Up(parents, b, k).Some?
    ensures Dominates(g, Up(parents, b, k).value, b)
  {
    forall p | PathTo(g, p, b) ensures Up(parents, b, k).value in p {
      PathToAncestor(g, parents, p, b, k);
      assert p[|p| - k - 1] == p[..|p| - k][|p| - k - 1];
    }
  }

  /** No reachable block is its own chain ancestor. */
  lemma {:induction false} ChainIsAcyclic(g: Cfg, parents: map<int, int>, p: seq<int>, b: int, k: nat)
    requires IsParentMap(g, parents) && PathTo(g, p, b) && k > 0
    ensures Up(parents, b, k) != Some(b)
    decreases |p|
  {
    if Up(parents, b, k).Some? {
      PathToAncestor(g, parents, p, b, k);
      if Up(parents, b, k).value == b { ChainIsAcyclic(g, parents, p[..|p| - k], b, k); }
    }
  }

  // ----- which chains end -----

  /** The chain from b never ends. */
  ghost predicate Endless(parents: map<int, int>, b: int) { forall k: nat :: Up(parents, b, k).Some? }

  /** Following only predecessors from c comes back to c. */
  ghost predicate OnCycle(parents: map<int, int>, c: int) { exists j: nat :: j > 0 && Up(parents, c, j) == Some(c) }

  lemma {:induction false} UpPlus(parents: map<int, int>, b: int, j: nat, k: nat)
    requires Up(parents, b, j).Some?
    ensures Up(parents, b, j + k) == Up(parents, Up(parents, b, j).value, k)
    decreases j
  {
    if j > 0 { UpPlus(parents, parents[b], j - 1, k); }
  }

  /** A chain that is long enough is long enough for everything shorter. */
  lemma {:induction false} UpShorter(parents: map<int, int>, b: int, j: nat, k: nat)
    requires Up(parents, b, k).Some? && j <= k
    ensures Up(parents, b, j).Some?
    ensures j < k ==> Up(parents, b, j).value in parents
    decreases j
  {
    if j > 0 { UpShorter(parents, parents[b], j - 1, k - 1); }
  }

  lemma {:induction false} CycleIsEndless(parents: map<int, int>, c: int, j: nat, k: nat)
    requires j > 0 && Up(parents, c, j) == Some(c)
    ensures Up(parents, c, k).Some?
    decreases k
  {
    if k < j {
      UpShorter(parents, c, k, j);
    } else {
      CycleIsEndless(parents, c, j, k - j);
      UpPlus(parents, c, j, k - j);
    }
  }

  /** Different members of a set are no more than the set has. */
  lemma {:induction false} Pigeonhole(xs: seq<int>, all: set<int>)
    requires forall i :: 0 <= i < |xs| ==> xs[i] in all
    requires forall i, j :: 0 <= i < j < |xs| ==> xs[i] != xs[j]
    ensures |xs| <= |all|
    decreases |xs|
  {
    if xs != [] { Pigeonhole(xs[..|xs| - 1], all - {xs[|xs| - 1]}); }
  }

  ghost function Block(parents: map<int, int>, b: int, k: nat): int
  {
    if Up(parents, b, k).Some? then Up(parents, b, k).value else b
  }

  /** A chain longer than there are blocks with a parent comes to some block twice. */
  lemma ChainRepeats(parents: map<int, int>, b: int) returns (i: nat, j: nat)
    requires Up(parents, b, |parents| + 1).Some?
    ensures i < j && Up(parents, b, i) == Up(parents, b, j) && Up(parents, b, i).Some?
  {
    var n := |parents| + 1;
    var chain := seq(n, k requires 0 <= k < n => Block(parents, b, k));
    forall k | 0 <= k < n ensures Up(parents, b, k) == Some(chain[k]) && chain[k] in parents.Keys { UpShorter(parents, b, k, n); }
    if forall x, y :: 0 <= x < y < n ==> chain[x] != chain[y] {
      Pigeonhole(chain, parents.Keys);
    } else {
      var x, y :| 0 <= x < y < n && chain[x] == chain[y];
      i, j := x, y;
    }
  }

  /**
   The chain from a block never ends exactly when one of its ancestors, or the block
   itself, lies on a cycle of blocks each of which is the next one's only predecessor.
   */
  lemma EndlessIff(parents: map<int, int>, b: int)
    ensures Endless(parents, b) <==> exists k: nat :: Up(parents, b, k).Some? && OnCycle(parents, Up(parents, b, k).value)
  {
    if Endless(parents, b) {
      assert Up(parents, b, |parents| + 1).Some?;
      var i, j := ChainRepeats(parents, b);
      UpPlus(parents, b, i, j - i);
      assert OnCycle(parents, Up(parents, b, i).value);
    } else if k: nat :| Up(parents, b, k).Some? && OnCycle(parents, Up(parents, b, k).value) {
      var c := Up(parents, b, k).value;
      var j: nat :| j > 0 && Up(parents, c, j) == Some(c);
      forall m: nat ensures Up(parents, b, m).Some? {
        CycleIsEndless(parents, c, j, m);
        UpPlus(parents, b, k, m);
        UpShorter(parents, b, m, k + m);
      }
    }
  }

  /** So the chain from a block that the entry reaches ends. */
  lemma ReachableChainEnds(g: Cfg, parents: map<int, int>, b: int)
    requires IsParentMap(g, parents) && Reachable(g, b)
    ensures !Endless(parents, b)
  {
    var p :| PathTo(g, p, b);
    if Up(parents, b, |p|).Some? { PathToAncestor(g, parents, p, b, |p|); }
  }

  /** Two unreachable blocks that are each other's only predecessor form a chain without end. */
  lemma {:induction false} UnreachableChainIsEndless(k: nat)
    ensures IsParentMap(Cfg([ENTRY_BLOCK, EXIT_BLOCK, 2, 3], map[0 := [], 1 := [0], 2 := [3], 3 := [2]]), map[2 := 3, 3 := 2])
    ensures Up(map[2 := 3, 3 := 2], 2, k).Some? && Up(map[2 := 3, 3 := 2], 3, k).Some?
    decreases k
  {
    if k > 0 { UnreachableChainIsEndless(k - 1); }
  }

  // ----- the plugin's state -----

  /** The name recorded nearest to b on its chain, k steps up. */
  ghost predicate NearestAt(parents: map<int, int>, known: map<(int, int), string>, uid: int, b: int, k: nat)
  {
    && Up(parents, b, k).Some? && (uid, Up(parents, b, k).value) in known
    && forall j :: 0 <= j < k ==> Up(parents, b, j).Some? && (uid, Up(parents, b, j).value) !in known
  }

  /** A name for uid is recorded k steps up the chain from b. */
  ghost predicate RecordedAt(parents: map<int, int>, known: map<(int, int), string>, uid: int, b: int, k: nat)
  {
    Up(parents, b, k).Some? && (uid, Up(parents, b, k).value) in known
  }

  /** Nothing is recorded within k steps. */
  ghost predicate NotYet(parents: map<int, int>, known: map<(int, int), string>, uid: int, b: int, k: nat)
  {
    forall j: nat :: j <= k ==> Up(parents, b, j).Some? && !RecordedAt(parents, known, uid, b, j)
  }

  /** The lookup comes k steps up the chain, finds nothing there and goes on. */
  ghost predicate GoesOn(parents: map<int, int>, known: map<(int, int), string>, uid: int, b: int, k: nat)
  {
    && Up(parents, b, k).Some? && (uid, Up(parents, b, k).value) !in known
    && Up(parents, b, k).value in parents
  }

  /** The lookup never ends exactly when the chain does not and no name is recorded on it. */
  lemma LookupIsEndlessIff(parents: map<int, int>, known: map<(int, int), string>, uid: int, b: int)
    ensures (forall k: nat :: GoesOn(parents, known, uid, b, k))
      <==> Endless(parents, b) && forall k: nat :: !RecordedAt(parents, known, uid, b, k)
  {
    hide Up;
    if forall k: nat :: GoesOn(parents, known, uid, b, k) {
      forall k: nat ensures Up(parents, b, k).Some? && !RecordedAt(parents, known, uid, b, k) {
        assert GoesOn(parents, known, uid, b, k);
      }
    }
    if Endless(parents, b) && forall k: nat :: !RecordedAt(parents, known, uid, b, k) {
      forall k: nat ensures GoesOn(parents, known, uid, b, k) {
        assert !RecordedAt(parents, known, uid, b, k) && Up(parents, b, k).Some? && Up(parents, b, k + 1).Some?;
        if Up(parents, b, k).value !in parents { ChainEnds(parents, b, k, k + 1); }
      }
    }
  }

  lemma StillAhead(parents: map<int, int>, known: map<(int, int), string>, uid: int, b: int, k: nat, last: nat)
    requires NotYet(parents, known, uid, b, k)
    requires Up(parents, b, last).None? || RecordedAt(parents, known, uid, b, last)
    ensures k < last
  {
  }

  class Plugin {
    var blocks: map<int, int>
    var known: map<(int, int), string>
    var bbIndex: int

    constructor ()
      ensures blocks == map[] && known == map[]
    {
      blocks, known, bbIndex := map[], map[], 0;
    }

    /** Rebuilds the parent map for a function and forgets the recorded names. */
    method FillBlocks(g: Cfg) returns (count: nat)
      requires WellFormed(g)
      modifies this`blocks, this`known
      ensures IsParentMap(g, blocks) && known == map[]
      ensures count == |Inner(g.blocks)|
    {
      blocks, known := map[], map[];
      count := 0;
      for i := 0 to |g.blocks|
        invariant known == map[]
        invariant count == |Inner(g.blocks[..i])|
        invariant forall b :: b in blocks <==> b in g.blocks[..i] && HasParent(g, b)
        invariant forall b :: b in blocks ==> blocks[b] == g.preds[b][0]
      {
        var b := g.blocks[i];
        assert g.blocks[..i + 1] == g.blocks[..i] + [b];
        if b == ENTRY_BLOCK || b == EXIT_BLOCK { continue; }
        count := count + 1;
        if |g.preds[b]| != 1 { continue; }
        var idx := g.preds[b][0];
        if idx == b { continue; }
        blocks := blocks[b := idx];
      }
      assert g.blocks[..|g.blocks|] == g.blocks;
    }

    /** Records the name of a function-pointer type in the current block. */
    method StoreAux(uid: int, txt: string)
      modifies this`known
      ensures known == old(known)[(uid, bbIndex) := txt]
    {
      known := known[(uid, bbIndex) := txt];
    }

    /**
     The name recorded for uid in the current block or its nearest chain ancestor
     that has one. The block it was recorded in dominates the current block. The
     lookup ends because a name is found or the chain does; LookupIsEndlessIff says
     that it goes on for ever in all other cases.
     */
    method FindUid(uid: int, ghost g: Cfg) returns (r: Option<string>)
      requires IsParentMap(g, blocks)
      requires Endless(blocks, bbIndex) ==> exists k: nat :: RecordedAt(blocks, known, uid, bbIndex, k)
      ensures r.Some? ==> exists k: nat ::
        && NearestAt(blocks, known, uid, bbIndex, k)
        && r.value == known[(uid, Up(blocks, bbIndex, k).value)]
        && Dominates(g, Up(blocks, bbIndex, k).value, bbIndex)
      ensures r.None? ==> forall k: nat ::
        Up(blocks, bbIndex, k).Some? ==> (uid, Up(blocks, bbIndex, k).value) !in known
    {
      var key := bbIndex;
      ghost var last: nat :| Up(blocks, bbIndex, last).None? || RecordedAt(blocks, known, uid, bbIndex, last);
      ghost var k: nat := 0;
      if (uid, key) in known {
        AncestorDominates(g, blocks, bbIndex, 0);
        assert NearestAt(blocks, known, uid, bbIndex, 0);
        return Some(known[(uid, key)]);
      }
      StillAhead(blocks, known, uid, bbIndex, k, last);
      while true
        invariant Up(blocks, bbIndex, k) == Some(key)
        invariant NotYet(blocks, known, uid, bbIndex, k)
        invariant k < last
        decreases last - k
      {
        if key !in blocks { break; }
        UpOnce(blocks, bbIndex, k);
        key, k := blocks[key], k + 1;
        if (uid, key) in known {
          AncestorDominates(g, blocks, bbIndex, k);
          assert NearestAt(blocks, known, uid, bbIndex, k);
          return Some(known[(uid, key)]);
        }
        StillAhead(blocks, known, uid, bbIndex, k, last);
      }
      forall j: nat | Up(blocks, bbIndex, j).Some? ensures (uid, Up(blocks, bbIndex, j).value) !in known {
        if j > k { ChainEnds(blocks, bbIndex, k, j); }
      }
      r := None;
    }
  }

  /** The blocks other than entry and exit. */
  function Inner(blocks: seq<int>): seq<int>
  {
    if blocks == [] then []
    else
      var rest := Inner(blocks[..|blocks| - 1]);
      var b := blocks[|blocks| - 1];
      if b == ENTRY_BLOCK || b == EXIT_BLOCK then rest else rest + [b]
  }

  lemma {:induction false} UpOnce(parents: map<int, int>, b: int, k: nat)
    requires Up(parents, b, k).Some? && Up(parents, b, k).value in parents
    ensures Up(parents, b, k + 1) == Some(parents[Up(parents, b, k).value])
    decreases k
  {
    if k > 0 { UpOnce(parents, parents[b], k - 1); }
  }

  lemma {:induction false} ChainEnds(parents: map<int, int>, b: int, k: nat, j: nat)
    requires Up(parents, b, k).Some? && Up(parents, b, k).value !in parents && k < j
    ensures Up(parents, b, j) == None
    decreases k
  {
    if k > 0 { ChainEnds(parents, parents[b], k - 1, j - 1); }
  }
}
