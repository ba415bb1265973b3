/** Decoding a range list: the entries of an encoded list give the ranges it denotes. */
module RangeList {
  import opened Bytes
  import opened Leb128
  import opened FieldBytes
  import opened Uleb
  import opened Forms
  import opened Abbrev
  import opened RngLists

  const DW_RLE_end_of_list := 0x00
  const DW_RLE_base_addressx := 0x01
  const DW_RLE_startx_endx := 0x02
  const DW_RLE_startx_length := 0x03
  const DW_RLE_offset_pair := 0x04
  const DW_RLE_base_address := 0x05
  const DW_RLE_start_end := 0x06
  const DW_RLE_start_length := 0x07

  // ----- entries, sections 2.17.3 and 7.28 of DWARF 5 -----

  /** An entry other than the end of the list; numbers and addresses are as encoded. */
  datatype Entry =
    | BaseAddressx(index: seq<byte>)
    | StartxEndx(start: seq<byte>, end: seq<byte>)
    | StartxLength(start: seq<byte>, length: seq<byte>)
    | OffsetPair(start: seq<byte>, end: seq<byte>)
    | BaseAddress(address: seq<byte>)
    | StartEnd(start: seq<byte>, end: seq<byte>)
    | StartLength(start: seq<byte>, length: seq<byte>)

  datatype Range = Range(begin: word, end: word)

  /** What a list is read with: the address size, the byte order, and the address section with the place of its index 0. */
  datatype Reader = Reader(addrSize: nat, lsb: bool, origin: nat, addrs: seq<byte>)

  /** A number of the address section; zero when it is not inside or has no proper size. */
  function FetchAddr(addrs: seq<byte>, pos: nat, size: nat, lsb: bool): word
  {
    if pos + size > |addrs| || size !in {1, 2, 4, 8} then 0 else ReadFixed(Unit(size, lsb), addrs, pos, size)
  }

  /** The address with an index. */
  function IndexedAddr(r: Reader, index: nat): word { FetchAddr(r.addrs, index * r.addrSize + r.origin, r.addrSize, r.lsb) }

  predicate IsAddress(size: nat, bs: seq<byte>) { |bs| == size }

  predicate Valid(size: nat, e: Entry)
  {
    match e
    case BaseAddressx(i) => ShortLeb(i)
    case StartxEndx(a, b) => ShortLeb(a) && ShortLeb(b)
    case StartxLength(a, n) => ShortLeb(a) && ShortLeb(n)
    case OffsetPair(a, b) => ShortLeb(a) && ShortLeb(b)
    case BaseAddress(a) => IsAddress(size, a)
    case StartEnd(a, b) => IsAddress(size, a) && IsAddress(size, b)
    case StartLength(a, n) => IsAddress(size, a) && ShortLeb(n)
  }

  function EncodeEntry(e: Entry): seq<byte>
  {
    match e
    case BaseAddressx(i) => [DW_RLE_base_addressx] + (i + [])
    case StartxEndx(a, b) => [DW_RLE_startx_endx] + (a + b)
    case StartxLength(a, n) => [DW_RLE_startx_length] + (a + n)
    case OffsetPair(a, b) => [DW_RLE_offset_pair] + (a + b)
    case BaseAddress(a) => [DW_RLE_base_address] + (a + [])
    case StartEnd(a, b) => [DW_RLE_start_end] + (a + b)
    case StartLength(a, n) => [DW_RLE_start_length] + (a + n)
  }

  /** The operands, the second empty when there is only one. */
  function Operands(e: Entry): (seq<byte>, seq<byte>)
  {
    match e
    case BaseAddressx(i) => (i, [])
    case StartxEndx(a, b) => (a, b)
    case StartxLength(a, n) => (a, n)
    case OffsetPair(a, b) => (a, b)
    case BaseAddress(a) => (a, [])
    case StartEnd(a, b) => (a, b)
    case StartLength(a, n) => (a, n)
  }

  function Encode(es: seq<Entry>): seq<byte>
  {
    if es == [] then [] else EncodeEntry(es[0]) + Encode(es[1..])
  }

  function Plus(a: int, b: int): word { (a + b) % WORD_SIZE }

  /** The base address behind an entry. */
  function NextBase(r: Reader, e: Entry, base: word): word
    requires Valid(r.addrSize, e) && r.addrSize <= 8
  {
    match e
    case BaseAddressx(i) => IndexedAddr(r, Value(i))
    case BaseAddress(a) => Address(r, a)
    case _ => base
  }

  function Address(r: Reader, bs: seq<byte>): word
    requires IsAddress(r.addrSize, bs) && r.addrSize <= 8
  {
    assert bs[0..0 + |bs|] == bs;
    ReadFixed(Unit(r.addrSize, r.lsb), bs, 0, |bs|)
  }

  /** The range an entry denotes under a base address. */
  function RangeOf(r: Reader, e: Entry, base: word): seq<Range>
    requires Valid(r.addrSize, e) && r.addrSize <= 8
  {
    match e
    case StartxEndx(a, b) => [Range(IndexedAddr(r, Value(a)), IndexedAddr(r, Value(b)))]
    case StartxLength(a, n) => [Range(IndexedAddr(r, Value(a)), Plus(IndexedAddr(r, Value(a)), Value(n)))]
    case OffsetPair(a, b) => [Range(Plus(base, Value(a)), Plus(base, Value(b)))]
    case StartEnd(a, b) => [Range(Address(r, a), Address(r, b))]
    case StartLength(a, n) => [Range(Address(r, a), Plus(Address(r, a), Value(n)))]
    case _ => []
  }

  predicate ValidEntries(size: nat, es: seq<Entry>) { forall k :: 0 <= k < |es| ==> Valid(size, es[k]) }

  /** The ranges of a list, in order, each under the base address in force at its entry. */
  function Denoted(r: Reader, es: seq<Entry>, base: word): seq<Range>
    requires ValidEntries(r.addrSize, es) && r.addrSize <= 8
  {
    if es == [] then []
    else RangeOf(r, es[0], base) + Denoted(r, es[1..], NextBase(r, es[0], base))
  }

  /** An offset pair comes before any base address. */
  predicate UsesInitialBase(es: seq<Entry>)
  {
    es != [] && (es[0].OffsetPair? || (!es[0].BaseAddressx? && !es[0].BaseAddress? && UsesInitialBase(es[1..])))
  }

  lemma PlusDiffers(a: word, b: word, n: nat)
    requires a != b
    ensures Plus(a, n) != Plus(b, n)
  {
    var x, y := Plus(a, n), Plus(b, n);
    assert a + n == (a + n) / WORD_SIZE * WORD_SIZE + x && b + n == (b + n) / WORD_SIZE * WORD_SIZE + y;
  }

  /**
   A list denotes the same ranges under two initial base addresses exactly when no
   offset pair comes before its first base address.
   */
  lemma {:induction false} InitialBaseMatters(r: Reader, es: seq<Entry>, a: word, b: word)
    requires ValidEntries(r.addrSize, es) && r.addrSize <= 8 && a != b
    ensures Denoted(r, es, a) == Denoted(r, es, b) <==> !UsesInitialBase(es)
    decreases |es|
  {
    hide Value, Plus, Address, IndexedAddr;
    if es != [] {
      var e, rest := es[0], es[1..];
      assert Valid(r.addrSize, e);
      var da, db := Denoted(r, rest, NextBase(r, e, a)), Denoted(r, rest, NextBase(r, e, b));
      if e.OffsetPair? {
        PlusDiffers(a, b, Value(e.start));
        assert Denoted(r, es, a)[0] != Denoted(r, es, b)[0];
      } else if !e.BaseAddressx? && !e.BaseAddress? {
        InitialBaseMatters(r, rest, a, b);
        var same := RangeOf(r, e, a);
        assert same == RangeOf(r, e, b);
        assert (same + da)[|same|..] == da && (same + db)[|same|..] == db;
      }
    }
  }

  // ----- where index 0 is -----

  /** The same list read in another section, or with another place of index 0. */
  function ReadIn(r: Reader, addrs: seq<byte>): Reader { r.(addrs := addrs) }

  function ReadFrom(r: Reader, origin: nat): Reader { r.(origin := origin) }

  /** An address that is looked up shows in the ranges. */
  predicate UsesIndex(es: seq<Entry>)
  {
    && es != []
    && (es[0].StartxEndx? || es[0].StartxLength? || (es[0].BaseAddressx? && UsesInitialBase(es[1..])) || UsesIndex(es[1..]))
  }

  /** A section of zeros but for a one at a place, long enough for a number there and at another place. */
  function Marked(at: nat, other: nat, size: nat): (r: seq<byte>)
    ensures |r| == at + other + size + 1 && r[at] == 1 && forall k :: 0 <= k < |r| && k != at ==> r[k] == 0
  {
    seq(at + other + size + 1, k requires 0 <= k => if k == at then 1 else 0)
  }

  lemma {:induction false} ZeroValue(bs: seq<byte>)
    requires forall k :: 0 <= k < |bs| ==> bs[k] == 0
    ensures LeValue(bs) == 0
    decreases |bs|
  {
    if bs != [] { ZeroValue(bs[1..]); }
  }

  lemma {:induction false} ReverseZeros(bs: seq<byte>)
    requires forall k :: 0 <= k < |bs| ==> bs[k] == 0
    ensures forall k :: 0 <= k < |bs| ==> Reverse(bs)[k] == 0
    decreases |bs|
  {
    if bs != [] { ReverseZeros(bs[1..]); }
  }

  lemma {:induction false} LastCounts(bs: seq<byte>)
    requires bs != [] && bs[|bs| - 1] != 0
    ensures LeValue(bs) != 0
    decreases |bs|
  {
    if |bs| > 1 { LastCounts(bs[1..]); }
  }

  /** The mark is read at its place, in either byte order, and not at a later one. */
  lemma MarkIsRead(at: nat, other: nat, size: nat, lsb: bool)
    requires at < other && size in {1, 2, 4, 8}
    ensures FetchAddr(Marked(at, other, size), at, size, lsb) != 0
    ensures FetchAddr(Marked(at, other, size), other, size, lsb) == 0
  {
    hide LeValue, Reverse;
    var m := Marked(at, other, size);
    var there, later := m[at..at + size], m[other..other + size];
    assert there[0] == 1 && forall k :: 0 <= k < |later| ==> later[k] == 0;
    ReverseZeros(later);
    ZeroValue(if lsb then later else Reverse(later));
    FirstCounts(there, lsb);
  }

  lemma FirstCounts(bs: seq<byte>, lsb: bool)
    requires bs != [] && bs[0] == 1
    ensures FileValue(bs, lsb) != 0
  {
    if !lsb { LastCounts(Reverse(bs)); }
  }

  /** Some section has different addresses with one index behind two places of index 0. */
  lemma IndexTellsOrigins(r: Reader, b: nat, index: nat) returns (addrs: seq<byte>)
    requires r.addrSize in {1, 2, 4, 8} && b != r.origin
    ensures IndexedAddr(ReadIn(r, addrs), index) != IndexedAddr(ReadFrom(ReadIn(r, addrs), b), index)
  {
    hide FetchAddr, Marked;
    var p, q := index * r.addrSize + r.origin, index * r.addrSize + b;
    if p < q {
      addrs := Marked(p, q, r.addrSize);
      MarkIsRead(p, q, r.addrSize, r.lsb);
    } else {
      addrs := Marked(q, p, r.addrSize);
      MarkIsRead(q, p, r.addrSize, r.lsb);
    }
  }

  lemma HeadsAlike(r: Reader, r': Reader, e: Entry, a: word, a': word)
    requires Valid(r.addrSize, e) && r.addrSize == r'.addrSize <= 8
    ensures |RangeOf(r, e, a)| == |RangeOf(r', e, a')|
  {
    hide Value, Plus, Address, IndexedAddr;
  }

  lemma TailsDiffer<X>(x: seq<X>, y: seq<X>, u: seq<X>, v: seq<X>)
    requires |x| == |y| && u != v
    ensures x + u != y + v
  {
    assert (x + u)[|x|..] == u && (y + v)[|y|..] == v;
  }

  /** A list that uses the initial base address tells two of them apart, wherever index 0 is. */
  lemma {:induction false} InitialBaseShows(r: Reader, r': Reader, es: seq<Entry>, a: word, a': word)
    requires ValidEntries(r.addrSize, es) && r.addrSize == r'.addrSize <= 8 && a != a' && UsesInitialBase(es)
    ensures Denoted(r, es, a) != Denoted(r', es, a')
    decreases |es|
  {
    hide Value, Plus, Address, IndexedAddr;
    var e, rest := es[0], es[1..];
    assert Valid(r.addrSize, e);
    if e.OffsetPair? {
      PlusDiffers(a, a', Value(e.start));
      assert Denoted(r, es, a)[0] != Denoted(r', es, a')[0];
    } else {
      InitialBaseShows(r, r', rest, a, a');
      HeadsAlike(r, r', e, a, a');
      TailsDiffer(RangeOf(r, e, a), RangeOf(r', e, a'), Denoted(r, rest, a), Denoted(r', rest, a'));
    }
  }

  /** A list that uses an index tells two places of index 0 apart in some section, whatever the initial base addresses. */
  lemma {:induction false} OriginShows(r: Reader, b: nat, es: seq<Entry>) returns (addrs: seq<byte>)
    requires ValidEntries(r.addrSize, es) && r.addrSize in {1, 2, 4, 8} && b != r.origin && UsesIndex(es)
    ensures forall a, a' :: Denoted(ReadIn(r, addrs), es, a) != Denoted(ReadFrom(ReadIn(r, addrs), b), es, a')
    decreases |es|
  {
    hide Value, Plus, Address, IndexedAddr;
    var e, rest := es[0], es[1..];
    assert Valid(r.addrSize, e);
    if e.StartxEndx? || e.StartxLength? {
      addrs := IndexTellsOrigins(r, b, Value(e.start));
      var c, s := ReadIn(r, addrs), ReadFrom(ReadIn(r, addrs), b);
      forall a, a' ensures Denoted(c, es, a) != Denoted(s, es, a') {
        assert Denoted(c, es, a)[0].begin != Denoted(s, es, a')[0].begin;
      }
    } else if e.BaseAddressx? && UsesInitialBase(rest) {
      addrs := IndexTellsOrigins(r, b, Value(e.index));
      var c, s := ReadIn(r, addrs), ReadFrom(ReadIn(r, addrs), b);
      InitialBaseShows(c, s, rest, IndexedAddr(c, Value(e.index)), IndexedAddr(s, Value(e.index)));
      forall a, a' ensures Denoted(c, es, a) != Denoted(s, es, a') {
        HeadsAlike(c, s, e, a, a');
        TailsDiffer(RangeOf(c, e, a), RangeOf(s, e, a'), Denoted(c, rest, NextBase(c, e, a)), Denoted(s, rest, NextBase(s, e, a')));
      }
    } else {
      addrs := OriginShows(r, b, rest);
      var c, s := ReadIn(r, addrs), ReadFrom(ReadIn(r, addrs), b);
      forall a, a' ensures Denoted(c, es, a) != Denoted(s, es, a') {
        HeadsAlike(c, s, e, a, a');
        TailsDiffer(RangeOf(c, e, a), RangeOf(s, e, a'), Denoted(c, rest, NextBase(c, e, a)), Denoted(s, rest, NextBase(s, e, a')));
      }
    }
  }

  /** A list that uses no index denotes the same ranges wherever index 0 is. */
  lemma {:induction false} NoIndexNoOrigin(r: Reader, b: nat, es: seq<Entry>, a: word)
    requires ValidEntries(r.addrSize, es) && r.addrSize <= 8 && !UsesIndex(es)
    ensures Denoted(r, es, a) == Denoted(ReadFrom(r, b), es, a)
    decreases |es|
  {
    hide Value, Plus, IndexedAddr;
    if es != [] {
      var e, rest, s := es[0], es[1..], ReadFrom(r, b);
      assert Valid(r.addrSize, e);
      var x, y := NextBase(r, e, a), NextBase(s, e, a);
      if x != y { InitialBaseMatters(r, rest, x, y); }
      NoIndexNoOrigin(r, b, rest, y);
    }
  }

  /**
   The decoder starts from base address zero and counts indexes from behind the
   section's header; the unit has its own base address, and counts from its address
   base. A list gives the unit's ranges in every address section exactly when no offset
   pair uses the unit's base address, unless that is zero, and no looked-up address
   shows, unless the address base is behind the header.
   */
  lemma DecodedAsTheUnitMeans(r: Reader, es: seq<Entry>, addrBase: nat, unitBase: word)
    requires ValidEntries(r.addrSize, es) && r.addrSize in {1, 2, 4, 8}
    ensures (forall addrs :: Denoted(ReadIn(r, addrs), es, 0) == Denoted(ReadFrom(ReadIn(r, addrs), addrBase), es, unitBase))
      <==> (unitBase == 0 || !UsesInitialBase(es)) && (addrBase == r.origin || !UsesIndex(es))
  {
    hide Denoted, UsesInitialBase, UsesIndex;
    if addrBase != r.origin && UsesIndex(es) {
      var addrs := OriginShows(r, addrBase, es);
      assert Denoted(ReadIn(r, addrs), es, 0) != Denoted(ReadFrom(ReadIn(r, addrs), addrBase), es, unitBase);
    } else if unitBase != 0 && UsesInitialBase(es) {
      InitialBaseShows(ReadIn(r, []), ReadFrom(ReadIn(r, []), addrBase), es, 0, unitBase);
    } else {
      forall addrs ensures Denoted(ReadIn(r, addrs), es, 0) == Denoted(ReadFrom(ReadIn(r, addrs), addrBase), es, unitBase) {
        var c := ReadIn(r, addrs);
        if addrBase != r.origin { NoIndexNoOrigin(c, addrBase, es, 0); } else { assert ReadFrom(c, addrBase) == c; }
        if unitBase != 0 { InitialBaseMatters(ReadFrom(c, addrBase), es, 0, unitBase); }
      }
    }
  }

  lemma MarkedAt24()
    ensures var m := Marked(24, 0, 7); FetchAddr(m, 8, 8, true) == 0 && FetchAddr(m, 24, 8, true) == 1
  {
    hide LeValue, Marked;
    var m := Marked(24, 0, 7);
    ZeroValue(m[8..16]);
    ZeroValue(m[25..32]);
    OneMore(m[24..32], m[25..32]);
  }

  lemma OneMore(bs: seq<byte>, rest: seq<byte>)
    requires bs == [1] + rest && LeValue(rest) == 0
    ensures LeValue(bs) == 1
  {
    assert bs[1..] == rest;
  }

  lemma OneByteValue(b: byte)
    requires b < 128
    ensures ShortLeb([b]) && Value([b]) == b
  {
    assert [b][..0] == [];
    assert Pow128(0) == 1;
  }

  /**
   24 zero bytes and a one: index 0 of the second contribution to the address section
   is read behind the first header, not under the unit's address base.
   */
  lemma SecondContribution()
    ensures var r := Reader(8, true, 8, Marked(24, 0, 7));
      var es := [StartxLength([0], [4])];
      && ValidEntries(8, es)
      && Denoted(r, es, 0) == [Range(0, 4)]
      && Denoted(ReadFrom(r, 24), es, 0) == [Range(1, 5)]
  {
    hide Value, ShortLeb, FetchAddr, Marked;
    var r := Reader(8, true, 8, Marked(24, 0, 7));
    var es := [StartxLength([0], [4])];
    OneByteValue(0);
    OneByteValue(4);
    MarkedAt24();
    assert Valid(8, es[0]) && es[1..] == [];
    assert Denoted(r, es, 0) == RangeOf(r, es[0], 0) + [];
    assert Denoted(ReadFrom(r, 24), es, 0) == RangeOf(ReadFrom(r, 24), es[0], 0) + [];
  }

  // ----- decoding -----

  /** The first entry of what is left: its tag, its operands and what follows. */
  lemma FirstEntry(r: Reader, s: seq<byte>, pos: nat, es: seq<Entry>)
    requires es != [] && ValidEntries(r.addrSize, es) && At(s, pos, Encode(es))
    ensures pos < |s| && s[pos] == EncodeEntry(es[0])[0] && Valid(r.addrSize, es[0]) && ValidEntries(r.addrSize, es[1..])
    ensures var (a, b) := Operands(es[0]);
      var p := pos + 1 + |a| + |b|;
      && At(s, pos + 1, a) && At(s, pos + 1 + |a|, b)
      && At(s, p, Encode(es[1..])) && p + |Encode(es[1..])| == pos + |Encode(es)|
      && p <= |s|
  {
    hide At, Valid, EncodeEntry, Operands;
    var (a, b) := Operands(es[0]);
    EntryParts(es[0]);
    var tag := EncodeEntry(es[0])[0];
    AtSplit(s, pos, EncodeEntry(es[0]), Encode(es[1..]));
    AtSplit(s, pos, [tag], a + b);
    AtSplit(s, pos + 1, a, b);
    FirstAt(s, pos, [tag]);
    InBounds(s, pos + 1 + |a|, b);
  }

  lemma EntryParts(e: Entry)
    ensures EncodeEntry(e) == [EncodeEntry(e)[0]] + (Operands(e).0 + Operands(e).1)
  {
  }

  lemma InBounds(s: seq<byte>, pos: nat, bs: seq<byte>)
    requires At(s, pos, bs)
    ensures pos + |bs| <= |s|
  {
  }

  method ReadNumber(s: seq<byte>, pos: nat, ba: nat, ghost bs: seq<byte>) returns (v: word, pos': nat, ba': nat)
    requires pos + ba == |s| && At(s, pos, bs) && ShortLeb(bs)
    ensures v == Value(bs) && pos' == pos + |bs| && pos' + ba' == |s|
  {
    hide At, IsLeb, LebBytes, Value;
    LebAt(s, pos, bs);
    v, pos', ba' := Uleb128(s, pos, ba);
  }

  method ReadAddress(r: Reader, s: seq<byte>, pos: nat, ba: nat, ghost bs: seq<byte>) returns (v: word, pos': nat, ba': nat)
    requires pos + ba == |s| && At(s, pos, bs) && IsAddress(r.addrSize, bs) && (r.addrSize == 4 || r.addrSize == 8)
    ensures v == Address(r, bs) && pos' == pos + |bs| && pos' + ba' == |s|
  {
    hide FileValue;
    assert bs[0..0 + |bs|] == bs;
    var u := Unit(r.addrSize, r.lsb);
    v := if r.addrSize == 4 then ReadFixed(u, s, pos, 4) else ReadFixed(u, s, pos, 8);
    pos', ba' := pos + r.addrSize, ba - r.addrSize;
  }

  /** One entry behind its tag: the new base address, and the range if it gives one. */
  method DecodeEntry(r: Reader, tag: byte, s: seq<byte>, pos: nat, ba: nat, base: word, ghost e: Entry)
    returns (ok: bool, base': word, out: seq<Range>, pos': nat, ba': nat)
    requires pos + ba == |s| && (r.addrSize == 4 || r.addrSize == 8)
    requires Valid(r.addrSize, e) && tag == EncodeEntry(e)[0]
    requires At(s, pos, Operands(e).0) && At(s, pos + |Operands(e).0|, Operands(e).1)
    ensures ok && base' == NextBase(r, e, base) && out == RangeOf(r, e, base)
    ensures pos' == pos + |Operands(e).0| + |Operands(e).1| && pos' + ba' == |s|
  {
    hide At, IsLeb, LebBytes, Value, Address, ShortLeb, IndexedAddr;
    ghost var (a, b) := Operands(e);
    InBounds(s, pos + |a|, b);
    ok, base', out, pos', ba' := true, base, [], pos, ba;
    var begin, end, length;
    if tag == DW_RLE_base_addressx {
      begin, pos', ba' := ReadNumber(s, pos', ba', a);
      base' := IndexedAddr(r, begin);
    } else if tag == DW_RLE_startx_endx {
      begin, pos', ba' := ReadNumber(s, pos', ba', a);
      end, pos', ba' := ReadNumber(s, pos', ba', b);
      out := [Range(IndexedAddr(r, begin), IndexedAddr(r, end))];
    } else if tag == DW_RLE_startx_length {
      begin, pos', ba' := ReadNumber(s, pos', ba', a);
      begin := IndexedAddr(r, begin);
      length, pos', ba' := ReadNumber(s, pos', ba', b);
      out := [Range(begin, Plus(begin, length))];
    } else if tag == DW_RLE_offset_pair {
      begin, pos', ba' := ReadNumber(s, pos', ba', a);
      end, pos', ba' := ReadNumber(s, pos', ba', b);
      out := [Range(Plus(base, begin), Plus(base, end))];
    } else if tag == DW_RLE_base_address {
      base', pos', ba' := ReadAddress(r, s, pos', ba', a);
    } else if tag == DW_RLE_start_end {
      begin, pos', ba' := ReadAddress(r, s, pos', ba', a);
      if ba' < r.addrSize { return false, base, [], pos', ba'; }
      end, pos', ba' := ReadAddress(r, s, pos', ba', b);
      out := [Range(begin, end)];
    } else {
      begin, pos', ba' := ReadAddress(r, s, pos', ba', a);
      length, pos', ba' := ReadNumber(s, pos', ba', b);
      out := [Range(begin, Plus(begin, length))];
    }
  }

  /**
   Decodes the list at an offset inside a context: entries, and then the end of the
   context, an end-of-list entry or an unknown tag. The ranges of the list, under a
   base address that starts as zero, are appended to those already found; only the
   end-of-list entry makes it succeed, and only with some range to show.
   */
  method GetRanges(r: Reader, s: seq<byte>, off: int, c: Ctx, found: seq<Range>, ghost es: seq<Entry>)
    returns (ok: bool, ranges: seq<Range>)
    requires Selects(c, off) && c.end <= |s| && (r.addrSize == 4 || r.addrSize == 8)
    requires ValidEntries(r.addrSize, es) && At(s[..c.end], off, Encode(es))
    requires var p := off + |Encode(es)|; p == c.end || (p < c.end && (s[p] == DW_RLE_end_of_list || s[p] > DW_RLE_start_length))
    ensures ranges == found + Denoted(r, es, 0)
    ensures var p := off + |Encode(es)|; ok <==> p < c.end && s[p] == DW_RLE_end_of_list && ranges != []
  {
    hide At, LebBytes, Value, Address, ShortLeb, Valid, IndexedAddr, NextBase, RangeOf, EncodeEntry;
    var t := s[..c.end];
    var next, base, ba := off, 0, c.end - off;
    ghost var left := es;
    ranges := found;
    while next < c.end
      invariant off <= next <= c.end && next + ba == c.end
      invariant ValidEntries(r.addrSize, left) && At(t, next, Encode(left)) && next + |Encode(left)| == off + |Encode(es)|
      invariant ranges + Denoted(r, left, base) == found + Denoted(r, es, 0)
      decreases ba
    {
      var tag := t[next];
      if left != [] {
        FirstEntry(r, t, next, left);
        TagKnown(left[0]);
      }
      next, ba := next + 1, ba - 1;
      if tag == DW_RLE_end_of_list { return ranges != [], ranges; }
      if tag > DW_RLE_start_length { return false, ranges; }
      var out;
      ghost var e := left[0];
      ghost var was, rest := ranges, left[1..];
      ok, base, out, next, ba := DecodeEntry(r, tag, t, next, ba, base, e);
      if !ok { return; }
      ranges := ranges + out;
      left := rest;
    }
    if left != [] { FirstEntry(r, t, next, left); }
    ok := false;
  }

  /** The address section's header, behind which indexes are counted, is longer when the context's offsets are wide. */
  function ReaderOf(c: Ctx, lsb: bool, addrs: seq<byte>): Reader
  {
    Reader(c.addrSize, lsb, if c.offsetSize == 4 then 8 else 16, addrs)
  }

  predicate ListAt(r: Reader, s: seq<byte>, off: int, c: Ctx, es: seq<Entry>)
    requires Selects(c, off) && c.end <= |s|
  {
    && (r.addrSize == 4 || r.addrSize == 8) && r.addrSize == c.addrSize
    && ValidEntries(r.addrSize, es) && At(s[..c.end], off, Encode(es))
    && var p := off + |Encode(es)|;
       p == c.end || (p < c.end && (s[p] == DW_RLE_end_of_list || s[p] > DW_RLE_start_length))
  }

  /** The context of an offset: the first that selects it. */
  method FindContext(contexts: seq<Ctx>, off: int) returns (c: Option<Ctx>)
    ensures c.Some? ==> c.value in contexts && Selects(c.value, off)
    ensures c.None? <==> forall k :: 0 <= k < |contexts| ==> !Selects(contexts[k], off)
  {
    for i := 0 to |contexts|
      invariant forall k :: 0 <= k < i ==> !Selects(contexts[k], off)
    {
      if off >= contexts[i].start && off < contexts[i].end { return Some(contexts[i]); }
    }
    return None;
  }

  /** The ranges of the list at an offset of the section, if some context has it. */
  method GetRnglistx(contexts: seq<Ctx>, s: seq<byte>, off: int, lsb: bool, addrs: seq<byte>, found: seq<Range>,
                     ghost es: seq<Entry>)
    returns (ok: bool, ranges: seq<Range>)
    requires Ordered(contexts, 0, |s|)
    requires forall k :: 0 <= k < |contexts| && Selects(contexts[k], off) ==>
      ListAt(ReaderOf(contexts[k], lsb, addrs), s, off, contexts[k], es)
    ensures (forall k :: 0 <= k < |contexts| ==> !Selects(contexts[k], off)) ==> !ok && ranges == found
    ensures forall k :: 0 <= k < |contexts| && Selects(contexts[k], off) ==>
      && ListAt(ReaderOf(contexts[k], lsb, addrs), s, off, contexts[k], es)
      && ranges == found + Denoted(ReaderOf(contexts[k], lsb, addrs), es, 0)
      && (ok <==> off + |Encode(es)| < contexts[k].end && s[off + |Encode(es)|] == DW_RLE_end_of_list && ranges != [])
  {
    hide Encode, Denoted;
    if s == [] { return false, found; }
    if off < 0 || off >= |s| { return false, found; }
    var ctx := FindContext(contexts, off);
    if ctx.None? { return false, found; }
    ok, ranges := GetRanges(ReaderOf(ctx.value, lsb, addrs), s, off, ctx.value, found, es);
  }

  lemma TagKnown(e: Entry)
    ensures DW_RLE_end_of_list < EncodeEntry(e)[0] <= DW_RLE_start_length
  {
  }
}
