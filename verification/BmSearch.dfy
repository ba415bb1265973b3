/**
 Boyer-Moore search over bytes: the last-occurrence table, the strong
 good-suffix table, and the scan that jumps by the larger of the two shifts.
 */
module BmSearch {
  import opened Bytes

  // ----- what the tables and the result mean -----

  /** The pattern p lies in mem at position h. */
  ghost predicate OccursAt(p: seq<byte>, mem: seq<byte>, h: int)
  {
    0 <= h && h + |p| <= |mem| && mem[h..h + |p|] == p
  }

  /** r is the first occurrence of p in mem, or None when there is none. */
  ghost predicate IsFirst(p: seq<byte>, mem: seq<byte>, r: Option<nat>)
  {
    match r
    case Some(h) => OccursAt(p, mem, h) && forall k :: 0 <= k < h ==> !OccursAt(p, mem, k)
    case None => forall k :: !OccursAt(p, mem, k)
  }

  /** last is the largest index of c in s, or -1 when c is not in s. */
  ghost predicate IsLastIndex(s: seq<byte>, c: int, last: int)
  {
    && -1 <= last < |s|
    && (last >= 0 ==> s[last] == c)
    && forall k :: last < k < |s| ==> s[k] != c
  }

  /**
   Shifting the pattern right by d keeps every byte after position j in
   agreement with itself, and puts a byte different from p[j] at position j.
   Positions that fall off the left end of the pattern are unconstrained.
   */
  ghost predicate Realigns(p: seq<byte>, j: nat, d: int)
    requires j < |p|
  {
    && 0 < d
    && (forall k :: j < k < |p| && 0 <= k - d ==> p[k - d] == p[k])
    && (0 <= j - d ==> p[j - d] != p[j])
  }

  /** d is the smallest positive shift that realigns the suffix after j. */
  ghost predicate IsGoodShift(p: seq<byte>, j: nat, d: int)
    requires j < |p|
  {
    Realigns(p, j, d) && forall e :: 0 < e < d ==> !Realigns(p, j, e)
  }

  // ----- the source's suffix test -----

  predicate SuffixMatch(needle: seq<byte>, offset: nat, suffixLen: nat)
    requires offset <= |needle| && suffixLen < |needle|
  {
    var n := |needle|;
    if offset > suffixLen then
      && needle[offset - suffixLen - 1] != needle[n - suffixLen - 1]
      && needle[n - suffixLen..] == needle[offset - suffixLen..offset]
    else
      needle[n - offset..] == needle[..offset]
  }

  /** The test at an offset short of the end says exactly that the shift realigns. */
  lemma SuffixMatchIsRealign(p: seq<byte>, offset: nat, suffixLen: nat)
    requires offset < |p| && suffixLen < |p|
    ensures SuffixMatch(p, offset, suffixLen) <==> Realigns(p, |p| - suffixLen - 1, |p| - offset)
  {
    var n, j, d := |p|, |p| - suffixLen - 1, |p| - offset;
    if offset > suffixLen {
      var tail, block := p[n - suffixLen..], p[offset - suffixLen..offset];
      if Realigns(p, j, d) {
        assert forall m :: 0 <= m < suffixLen ==> tail[m] == p[j + 1 + m] && block[m] == p[j + 1 + m - d];
        assert tail == block;
      }
      if SuffixMatch(p, offset, suffixLen) {
        forall k | j < k < n && 0 <= k - d ensures p[k - d] == p[k] {
          assert tail[k - j - 1] == p[k] && block[k - j - 1] == p[k - d];
        }
      }
    } else {
      var tail, head := p[n - offset..], p[..offset];
      if Realigns(p, j, d) {
        assert forall m :: 0 <= m < offset ==> tail[m] == p[d + m] && head[m] == p[d + m - d];
        assert tail == head;
      }
      if SuffixMatch(p, offset, suffixLen) {
        forall k | j < k < n && 0 <= k - d ensures p[k - d] == p[k] {
          assert tail[k - d] == p[k] && head[k - d] == p[k - d];
        }
      }
    }
  }

  // ----- no jump passes over an occurrence -----

  lemma OccurrenceBytes(p: seq<byte>, mem: seq<byte>, h: int, k: int)
    requires OccursAt(p, mem, h) && 0 <= k < |p|
    ensures mem[h + k] == p[k]
  {
    assert mem[h..h + |p|][k] == p[k];
  }

  /** An occurrence to the right of a mismatch at j realigns the pattern. */
  lemma OccurrenceRealigns(p: seq<byte>, mem: seq<byte>, h: nat, j: nat, g: int)
    requires j < |p| && h + |p| <= |mem|
    requires forall k :: j < k < |p| ==> p[k] == mem[h + k]
    requires p[j] != mem[h + j]
    requires h < g && OccursAt(p, mem, g)
    ensures Realigns(p, j, g - h)
  {
    var d := g - h;
    forall k | j < k < |p| && 0 <= k - d ensures p[k - d] == p[k] {
      OccurrenceBytes(p, mem, g, k - d);
    }
    if 0 <= j - d { OccurrenceBytes(p, mem, g, j - d); }
  }

  lemma GoodSuffixSafe(p: seq<byte>, mem: seq<byte>, h: nat, j: nat, shift: int, g: int)
    requires j < |p| && h + |p| <= |mem|
    requires forall k :: j < k < |p| ==> p[k] == mem[h + k]
    requires p[j] != mem[h + j]
    requires IsGoodShift(p, j, shift)
    requires h < g < h + shift
    ensures !OccursAt(p, mem, g)
  {
    if OccursAt(p, mem, g) { OccurrenceRealigns(p, mem, h, j, g); }
  }

  lemma BadCharacterSafe(p: seq<byte>, mem: seq<byte>, h: nat, j: nat, last: int, g: int)
    requires j < |p| && h + |p| <= |mem|
    requires IsLastIndex(p[..|p| - 1], mem[h + j], last)
    requires h < g < h + j - last
    ensures !OccursAt(p, mem, g)
  {
    var k := j - (g - h);
    assert p[..|p| - 1][k] != mem[h + j];
    if OccursAt(p, mem, g) { OccurrenceBytes(p, mem, g, k); }
  }

  /** The jump taken after a mismatch at j skips no position where p occurs. */
  lemma NoOccurrenceSkipped(p: seq<byte>, mem: seq<byte>, h: nat, j: nat, shift: int, last: int)
    requires j < |p| && h + |p| <= |mem|
    requires forall k :: j < k < |p| ==> p[k] == mem[h + k]
    requires p[j] != mem[h + j]
    requires IsGoodShift(p, j, shift)
    requires IsLastIndex(p[..|p| - 1], mem[h + j], last)
    ensures forall g :: h <= g < h + Max(shift, j - last) ==> !OccursAt(p, mem, g)
  {
    forall g | h <= g < h + Max(shift, j - last) ensures !OccursAt(p, mem, g) {
      if g == h {
        if OccursAt(p, mem, h) { OccurrenceBytes(p, mem, h, j); }
      } else if g < h + shift {
        GoodSuffixSafe(p, mem, h, j, shift, g);
      } else {
        BadCharacterSafe(p, mem, h, j, last, g);
      }
    }
  }

  function Max(a: int, b: int): int { if a < b then b else a }

  /** A smallest realigning shift always lies in 1..|p|: shifting by |p| clears the pattern. */
  lemma GoodShiftInRange(p: seq<byte>, j: nat, d: int)
    requires j < |p| && IsGoodShift(p, j, d)
    ensures 1 <= d <= |p|
  {
    assert Realigns(p, j, |p|);
  }

  /** The largest offset that matches gives the smallest shift; it lies in 1..|p|. */
  method ShiftFor(p: seq<byte>, suffixLen: nat) returns (shift: nat)
    requires suffixLen < |p|
    ensures IsGoodShift(p, |p| - suffixLen - 1, shift)
    ensures 1 <= shift <= |p|
  {
    var offs := |p|;
    ghost var j := |p| - suffixLen - 1;
    while offs != 0 && !SuffixMatch(p, offs, suffixLen)
      invariant 0 <= offs <= |p|
      invariant forall e :: 0 < e < |p| - offs ==> !Realigns(p, j, e)
    {
      if offs < |p| { SuffixMatchIsRealign(p, offs, suffixLen); }
      offs := offs - 1;
    }
    assert !SuffixMatch(p, |p|, suffixLen) && SuffixMatch(p, 0, suffixLen);
    SuffixMatchIsRealign(p, offs, suffixLen);
    shift := |p| - offs;
  }

  // ----- the search object -----

  class BmSearch {
    var occ: array<int>
    var pattern: array?<byte>
    var plen: nat
    var skip: array?<nat>

    /** The fields are set up for a search: both tables describe the pattern. */
    ghost predicate Ready()
      reads this, occ, pattern, skip
    {
      && occ.Length == 0x100
      && pattern != null && skip != null
      && 1 <= plen == pattern.Length == skip.Length
      && (forall c :: 0 <= c < 0x100 ==> IsLastIndex(pattern[..plen - 1], c, occ[c]))
      && forall j :: 0 <= j < plen ==> IsGoodShift(pattern[..], j, skip[j])
    }

    constructor Empty()
      ensures pattern == null && skip == null && plen == 0
      ensures occ.Length == 0x100 && fresh(occ)
    {
      occ := new int[0x100];
      pattern, skip, plen := null, null, 0;
    }

    constructor (p: array<byte>)
      requires p.Length >= 1
      ensures Ready() && pattern == p
      ensures fresh(occ) && fresh(skip)
    {
      occ := new int[0x100];
      pattern, skip, plen := p, null, p.Length;
      new;
      Make();
    }

    /** Fills both tables; the pattern and its length are already stored. */
    method Make()
      requires occ.Length == 0x100
      requires pattern != null && 1 <= plen == pattern.Length
      modifies this`skip, occ
      ensures Ready() && fresh(skip)
    {
      MakeOcc();
      MakeSkip();
    }

    method MakeOcc()
      requires occ.Length == 0x100
      requires pattern != null && 1 <= plen == pattern.Length
      modifies occ
      ensures forall c :: 0 <= c < 0x100 ==> IsLastIndex(pattern[..plen - 1], c, occ[c])
    {
      for i := 0 to 0x100
        invariant forall c :: 0 <= c < i ==> occ[c] == -1
      {
        occ[i] := -1;
      }
      ghost var p := pattern[..];
      for i := 0 to plen - 1
        invariant pattern[..] == p
        invariant forall c :: 0 <= c < 0x100 ==> IsLastIndex(p[..i], c, occ[c])
      {
        occ[pattern[i]] := i;
        assert p[..i + 1] == p[..i] + [p[i]];
      }
      assert pattern[..plen - 1] == p[..plen - 1];
    }

    method MakeSkip()
      requires occ.Length == 0x100
      requires pattern != null && 1 <= plen == pattern.Length
      modifies this`skip
      ensures skip != null && fresh(skip) && skip.Length == plen
      ensures forall j :: 0 <= j < plen ==> IsGoodShift(pattern[..], j, skip[j])
    {
      var table := new nat[plen];
      ghost var p := pattern[..];
      for i := 0 to plen
        invariant pattern[..] == p
        invariant forall j :: plen - i <= j < plen ==> IsGoodShift(p, j, table[j])
      {
        table[plen - i - 1] := ShiftFor(pattern[..], i);
      }
      skip := table;
    }

    /** Replaces the pattern and rebuilds the tables. */
    method Set(p: array<byte>)
      requires occ.Length == 0x100
      requires p.Length >= 1
      modifies this, occ
      ensures Ready() && pattern == p && occ == old(occ) && fresh(skip)
    {
      skip := null;
      pattern, plen := p, p.Length;
      Make();
    }

    /** The first occurrence of the pattern in mem; None before a pattern is set. */
    method Search(mem: seq<byte>) returns (r: Option<nat>)
      requires pattern != null && skip != null ==> Ready() && |mem| >= plen
      ensures pattern == null || skip == null ==> r == None
      ensures pattern != null && skip != null ==> IsFirst(pattern[..], mem, r)
    {
      if skip == null || pattern == null {
        return None;
      }
      ghost var p := pattern[..];
      assert pattern[..plen - 1] == p[..plen - 1];
      var hpos := 0;
      while hpos <= |mem| - plen
        invariant 0 <= hpos
        invariant forall k :: 0 <= k < hpos ==> !OccursAt(p, mem, k)
        decreases |mem| - hpos
      {
        var i := plen - 1;
        while pattern[i] == mem[i + hpos]
          invariant 0 <= i < plen
          invariant forall k :: i < k < plen ==> p[k] == mem[hpos + k]
          decreases i
        {
          if i == 0 {
            assert mem[hpos..hpos + plen] == p;
            return Some(hpos);
          }
          i := i - 1;
        }
        NoOccurrenceSkipped(p, mem, hpos, i, skip[i], occ[mem[i + hpos]]);
        hpos := hpos + Max(skip[i], i - occ[mem[i + hpos]]);
      }
      return None;
    }
  }
}
