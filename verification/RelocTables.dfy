/** The classifier tables of the two machines that have in-place relocations. */
module RelocTables {
  import opened Bytes
  import opened FieldBytes
  import opened Reloc
  import opened RelocGroups

  const RISCV := Tables(
    none := {0},
    abs32 := {1}, pcrel32 := {57}, abs64 := {2}, pcrel64 := {},
    abs24 := {}, abs16 := {55}, abs8 := {54}, abs6 := {53},
    sub32 := {39}, add32 := {35}, sub64 := {40}, add64 := {36},
    sub16 := {38}, add16 := {34}, sub8 := {37}, add8 := {33},
    sub6 := {52}, add6 := {}, partialInplace := {})

  const LOONGARCH := Tables(
    none := {},
    abs32 := {1}, pcrel32 := {99}, abs64 := {2}, pcrel64 := {},
    abs24 := {}, abs16 := {}, abs8 := {}, abs6 := {},
    sub32 := {55}, add32 := {50}, sub64 := {56}, add64 := {51},
    sub16 := {53}, add16 := {48}, sub8 := {52}, add8 := {47},
    sub6 := {106}, add6 := {105}, partialInplace := {})

  /** The ADD and SUB types of a table for fields of n bytes. */
  function AddType(tab: Tables, n: nat): set<nat>
  {
    if n == 8 then tab.add64 else if n == 4 then tab.add32 else if n == 2 then tab.add16 else tab.add8
  }

  function SubType(tab: Tables, n: nat): set<nat>
  {
    if n == 8 then tab.sub64 else if n == 4 then tab.sub32 else if n == 2 then tab.sub16 else tab.sub8
  }

  lemma PairsClassify(tab: Tables, n: nat, a: nat, b: nat)
    requires tab == RISCV || tab == LOONGARCH
    requires n == 1 || n == 2 || n == 4 || n == 8
    requires a in AddType(tab, n) && b in SubType(tab, n)
    ensures Classify(tab, a) == Some(Kind(n, true, false)) && Classify(tab, b) == Some(Kind(n, true, true))
    ensures !IsSixBit(tab, a) && a !in tab.pcrel32 && a !in tab.pcrel64
    ensures !IsSixBit(tab, b) && b !in tab.pcrel32 && b !in tab.pcrel64
  {
    if tab == RISCV { RiscvPairs(n, a, b); } else { LoongArchPairs(n, a, b); }
  }

  lemma RiscvPairs(n: nat, a: nat, b: nat)
    requires n == 1 || n == 2 || n == 4 || n == 8
    requires a in AddType(RISCV, n) && b in SubType(RISCV, n)
    ensures Classify(RISCV, a) == Some(Kind(n, true, false)) && Classify(RISCV, b) == Some(Kind(n, true, true))
    ensures !IsSixBit(RISCV, a) && a != 57 && !IsSixBit(RISCV, b) && b != 57
  {
  }

  lemma LoongArchPairs(n: nat, a: nat, b: nat)
    requires n == 1 || n == 2 || n == 4 || n == 8
    requires a in AddType(LOONGARCH, n) && b in SubType(LOONGARCH, n)
    ensures Classify(LOONGARCH, a) == Some(Kind(n, true, false)) && Classify(LOONGARCH, b) == Some(Kind(n, true, true))
    ensures !IsSixBit(LOONGARCH, a) && a != 99 && !IsSixBit(LOONGARCH, b) && b != 99
  {
  }

  /**
   On RISC-V and LoongArch an ADD and a SUB type of one width pair up. In any section
   whose entries are apart or meet, and in any order, a field that has one of each and
   no other entry holds old + A1 + S1 + A2 - S2.
   */
  lemma PairsCompose(t: Target, syms: seq<Symbol>, sec: seq<byte>, es: seq<Entry>, i: nat, j: nat, n: nat)
    requires Grouped(t, syms, sec, es) && i < |es| && j < |es| && i != j
    requires forall k :: 0 <= k < |es| && k != i && k != j ==> es[k].offset != es[i].offset
    requires t.tables == RISCV || t.tables == LOONGARCH
    requires n == 1 || n == 2 || n == 4 || n == 8
    requires TypeOf(t, es[i]) in AddType(t.tables, n) && TypeOf(t, es[j]) in SubType(t.tables, n)
    requires !IsUleb(t, es[i]) && !IsUleb(t, es[j])
    requires es[i].offset == es[j].offset && InSection(|sec|, es[i].offset, n)
    requires SymbolOk(syms, es[i].sym) && SymbolOk(syms, es[j].sym)
    ensures var add, sub := es[i], es[j];
      ByteGet(FieldOf(ApplyAll(t, syms, sec, es), add, n), n, t.lsb) ==
        (ByteGet(FieldOf(sec, add, n), n, t.lsb)
         + OwnAddend(t, add) + syms[add.sym].addr + OwnAddend(t, sub) - syms[sub.sym].addr)
        % Pow256(n)
  {
    hide Classify, AddType, SubType, IsSixBit, TypeOf, ByteGet, Pow256, ApplyAll, FieldOf, Grouped;
    PairsClassify(t.tables, n, TypeOf(t, es[i]), TypeOf(t, es[j]));
    assert Additive(t, syms, |sec|, es[i]) && Additive(t, syms, |sec|, es[j]);
    PairComposes(t, syms, sec, es, i, j);
  }

  /** Such a pair by itself is a section whose entries meet. */
  lemma PairAlone(t: Target, syms: seq<Symbol>, sec: seq<byte>, add: Entry, sub: Entry, n: nat)
    requires t.tables == RISCV || t.tables == LOONGARCH
    requires n == 1 || n == 2 || n == 4 || n == 8
    requires TypeOf(t, add) in AddType(t.tables, n) && TypeOf(t, sub) in SubType(t.tables, n)
    requires !IsUleb(t, add) && !IsUleb(t, sub)
    requires add.offset == sub.offset && InSection(|sec|, add.offset, n)
    requires SymbolOk(syms, add.sym) && SymbolOk(syms, sub.sym)
    ensures Grouped(t, syms, sec, [add, sub])
  {
    hide Classify, AddType, SubType, IsSixBit, TypeOf, Apart;
    PairsClassify(t.tables, n, TypeOf(t, add), TypeOf(t, sub));
    assert Compatible(t, syms, sec, add, sub);
  }
}
