# DWARF and binary analysis tools: verified models

This project models the parts of the repository that do the hard work, and
proves what they are for. Each model follows its source branch by branch, in
the form the source has: objects with fields become classes, loops become
methods with loops, and each such method is proved against a function whose
properties the lemmas state.

* **Byte search** (`BmSearch`): the two Boyer-Moore tables and the scan.
* **Symbol-id server** (`SymServer`, `SymServerSafety`, `SymServerDb`,
  `SymServerImpl`): any number of caching clients, the server threads behind
  them and the database writer. Each block under one lock is one atomic step, and
  the steps interleave in every way.
* **DWARF readers** (`Uleb`, `Forms`, `Abbrev`, `DieWalk`, `Cfa`, `RngLists`,
  `RangeList`, `Deferred`): numbers, attribute values, abbreviation tables, the
  walk over the serialised tree, call frame programs, range lists, and attributes
  whose base stands elsewhere in the same DIE.
* **Tree builder** (`TreeStack`, `TreeBuilderImpl`, `TreeWalk`, `WalkTree`): the stack of
  elements, the stack of namespaces and the counted scopes, over the walk of a whole
  unit, and the tie between that walk and the one over the bytes.
* **Relocations** (`Leb128`, `UlebField`, `FieldBytes`, `Reloc`, `RelocGroups`,
  `RelocTables`): the exact 64-bit LEB128 reader, the rewrite of a number in place, and
  the loop that patches a section, with entries whose fields are apart or add up.
* **Two analyses** (`BlockChain`, `LocFold`): names inherited along chains of basic
  blocks, and counting constant-foldable location operations.

`Bytes` and `Bits` hold bytes, words and the bitwise operations the others use.

Some properties one would expect do not hold of the code. There the model keeps
the code, a lemma gives an input that shows it, and the exact condition is proved:

* An attribute kept with a parameter writes the recent element over the top of the
  element stack, because the code assigns through a reference to the top. The stack is
  the path of the ancestors exactly when, at every such parameter, there is no recent
  element or it is the one on top (`TreeWalk.StackIsAncestorPath`); a function with a
  nested function type in front of a located parameter shows the other case
  (`TreeWalk.LocatedParameterReplacesFunction`). In any order of the operations, the
  counted scopes stay right exactly as long as no such write hits a scope
  (`TreeStack.CountFollowsStack`).
* A registered DIE that sets no type of its own, such as a variant behind an empty
  namespace, enters the namespace a second time. The stacks agree at every DIE of a
  unit exactly when every DIE is sound (`TreeWalk.WalkAgrees`), and where only
  unregistered or element-adding DIEs have children that means that no DIE is stale
  (`TreeWalk.AddingParentsAreSound`); a whole unit shows the other case
  (`TreeWalk.UnitFallsOutOfAgreement`).
* Strings delayed in a unit without a string base are still pending in the next unit.
  There such a string replaces the unit's own text of the field exactly when that unit
  has none, or has one that needs no base in front of its base; so the order of the
  attributes matters exactly then, if the strings differ (`Deferred.DelayedOutlivesUnit`,
  `Deferred.DeferredIsEager`, `Deferred.OrderIsIrrelevant`).
* A `low_pc` of form `DW_FORM_addrx1` to `DW_FORM_addrx4` in front of
  `DW_AT_addr_base` becomes zero, so the base address depends on the attribute
  order there, and only there (`Deferred.DeferredIsEager`,
  `Deferred.FixedIndexDependsOnOrder`).
* The chain of single predecessors never ends exactly when some block on it lies on a
  cycle of blocks each of which is the next one's only predecessor; a reachable block's
  chain ends (`BlockChain.EndlessIff`, `BlockChain.ReachableChainEnds`,
  `BlockChain.UnreachableChainIsEndless`). The lookup of a name goes on for ever exactly
  when the chain does and no name is recorded on it (`BlockChain.LookupIsEndlessIff`).
* A 3-byte number in big-endian order reads back only if its two low bytes are
  equal (`FieldBytes.GetInvertsPut`).
* A ULEB128 number of five bytes is read right exactly when it is below 2^31
  (`Uleb.Uleb128`).
* A range list is decoded under an initial base address of zero, not that of the
  compilation unit; the difference shows exactly when an offset pair comes before
  any base address (`RangeList.InitialBaseMatters`).
* An indexed address in a range list is counted from behind the header of the address
  section, not from the unit's `DW_AT_addr_base` (DWARF 5, section 7.28), which the
  reader of indexed addresses uses. A list decodes to the unit's ranges in every address
  section exactly when the two places are one or no looked-up address shows, and, as
  above, the unit's base address is zero or not used (`RangeList.DecodedAsTheUnitMeans`).
  A unit of the second contribution shows the other case (`RangeList.SecondContribution`).
* The string reader does not advance over a form it does not accept,
  `DW_FORM_strx` among them (`Forms.FormStringValue`).

## Model

| member | source | states |
|---|---|---|
| BmSearch.SuffixMatchIsRealign | perl/Elf-Reader/bm_search.cc:6-13 | the suffix test at an offset succeeds exactly when shifting the pattern to end there keeps the matched suffix in agreement and brings a different byte, or the edge of the pattern, under the mismatch |
| BmSearch.OccurrenceRealigns | perl/Elf-Reader/bm_search.cc:76-87 | an occurrence right of a mismatch is at a distance that realigns the pattern |
| BmSearch.GoodSuffixSafe | perl/Elf-Reader/bm_search.cc:85-86 | no occurrence starts inside a jump by the good-suffix shift |
| BmSearch.BadCharacterSafe | perl/Elf-Reader/bm_search.cc:85-86 | no occurrence starts inside a jump by the bad-character shift |
| BmSearch.NoOccurrenceSkipped | perl/Elf-Reader/bm_search.cc:85-86 | the larger of the two shifts passes over no occurrence |
| BmSearch.GoodShiftInRange | perl/Elf-Reader/bm_search.cc:40-46 | a smallest realigning shift lies in 1..plen |
| BmSearch.ShiftFor | perl/Elf-Reader/bm_search.cc:42-45 | the loop over offsets finds the smallest positive shift that realigns the matched suffix, in 1..plen |
| BmSearch.BmSearch.constructor | perl/Elf-Reader/bm_search.cc:22-27 | a search object with both tables built for the pattern |
| BmSearch.BmSearch.Empty | perl/Elf-Reader/bm_search.cc:15-20 | a search object without a pattern |
| BmSearch.BmSearch.Make | perl/Elf-Reader/bm_search.cc:29-48 | afterwards both tables describe the pattern |
| BmSearch.BmSearch.MakeOcc | perl/Elf-Reader/bm_search.cc:33-36 | each entry is the last index of its byte before the final position, or -1 |
| BmSearch.BmSearch.MakeSkip | perl/Elf-Reader/bm_search.cc:37-46 | each entry is the smallest realigning shift for a mismatch at its position |
| BmSearch.BmSearch.Set | perl/Elf-Reader/bm_search.cc:50-60 | replaces the pattern and rebuilds both tables |
| BmSearch.BmSearch.Search | perl/Elf-Reader/bm_search.cc:71-89 | terminates with the first position of the pattern, or none exactly when it occurs nowhere; none before a pattern is set |
| SymServerSafety.CacheBlockKeepsIds | gptest/thrift/server.cpp:108-134 | a block under the cache lock keeps the name map injective and within 1..max_id, changes no id, and prepares a reply with the server's id |
| SymServerSafety.StepKeepsIds | gptest/thrift/server.cpp:108-199 | every step of the system keeps names, caches, stored references and replies consistent |
| SymServerSafety.IdsAreConsistent | gptest/thrift/server.cpp:108-199 | on every interleaving: the map is injective, an assigned id never changes, two returned ids are equal exactly when the names are, every client cache is part of the server's map and every stored reference carries the server's id |
| SymServerSafety.StepKeepsQueue | gptest/thrift/server.cpp:29-43 | executed jobs followed by queued ones stay the enqueue history, and a closed writer leaves no queue |
| SymServerSafety.StepKeepsThreads | gptest/thrift/server.cpp:59-97 | a thread's pushed and pending jobs stay what it issued, in order |
| SymServerSafety.StepKeepsFresh | gptest/thrift/server.cpp:124-133 | the inserts issued so far are for the ids allocated since the start, each once, in order |
| SymServerSafety.JobsAreConserved | gptest/thrift/server.cpp:29-97 | in every reachable state executed plus queued jobs are the enqueue history, each thread's jobs keep their order, and the queue is empty once the database is closed |
| SymServerSafety.FreshIdHasOneInsert | gptest/thrift/server.cpp:130-133 | every id allocated since the start has exactly one symbol insert, pending in its thread, queued or executed |
| SymServerDb.ClearRows | gptest/thrift/server.cpp:73-87 | the two deletes of a function remove its reference and error rows and no others |
| SymServerDb.AddRows | gptest/thrift/server.cpp:136-179 | the jobs of a submission add its references and errors in order to its own rows only |
| SymServerDb.StepKeepsRows | gptest/thrift/server.cpp:108-179 | with one client, the rows once all issued jobs are done stay those of the last submission |
| SymServerDb.DrainedRowsAreLastSubmission | gptest/pers_rpc.cpp:28-51 | with one client, whenever no job is left the rows of each function are those of its last submission, or none if it was checked since |
| SymServerImpl.ServiceHandler.DbPush | gptest/thrift/server.cpp:88-92 | appends one job |
| SymServerImpl.ServiceHandler.AddSym | gptest/thrift/server.cpp:59-72 | queues the insert of a name with its id |
| SymServerImpl.ServiceHandler.ClearFunc | gptest/thrift/server.cpp:73-87 | queues the reference delete, then the error delete |
| SymServerImpl.ServiceHandler.CheckStored | gptest/sqlite_cmn.inc:34-44 | says whether the name's id is a stored function, with id 0 for an unknown name |
| SymServerImpl.ServiceHandler.CheckSymShared | gptest/thrift/server.cpp:184-188 | the first block of check_sym is the state machine's step |
| SymServerImpl.ServiceHandler.CheckSymUnique | gptest/thrift/server.cpp:189-197 | the second block looks again, else allocates and asks for one insert |
| SymServerImpl.ServiceHandler.CheckFunctionShared | gptest/thrift/server.cpp:113-121 | the first block of check_function is the state machine's step |
| SymServerImpl.ServiceHandler.CheckFunctionUnique | gptest/thrift/server.cpp:122-133 | the second block skips a function stored meanwhile, returns a known id, or allocates one |
| SymServerImpl.ServiceHandler.StoreFunc | gptest/thrift/server.cpp:138-141 | the locked block of add_func marks the function stored and fixes the jobs to push |
| SymServerImpl.ServiceHandler.PushFunc | gptest/thrift/server.cpp:142-178 | pushes update, errors and references in that order |
| SymServerImpl.ServiceHandler.Drain | gptest/thrift/server.cpp:30-43 | one round of the writer runs the whole queue in order and closes only on quit |
| BlockChain.PathToAncestor | gptest/gptest.cpp:1689-1698 | every path to a block, cut short by the chain's length, is a path to its chain ancestor |
| BlockChain.AncestorDominates | gptest/gptest.cpp:1689-1698 | every chain ancestor of a block dominates it |
| BlockChain.ChainIsAcyclic | gptest/gptest.cpp:2527-2547 | no block reachable from the entry is its own chain ancestor |
| BlockChain.EndlessIff | gptest/gptest.cpp:1689-1698 | for every parent map and block, the chain never ends exactly when it comes to a cycle of only predecessors |
| BlockChain.ReachableChainEnds | gptest/gptest.cpp:1689-1698 | the chain from a block that the entry reaches ends |
| BlockChain.UnreachableChainIsEndless | gptest/gptest.cpp:1689-1698 | two unreachable blocks that are each other's only predecessor have chains without end |
| BlockChain.LookupIsEndlessIff | gptest/gptest.cpp:1683-1700 | the lookup never ends exactly when the chain does not and no name is recorded on it |
| BlockChain.Plugin.FillBlocks | gptest/gptest.cpp:2527-2547 | the parent map holds exactly the blocks with one other predecessor, names are forgotten, and the count is that of inner blocks |
| BlockChain.Plugin.StoreAux | gptest/gptest.cpp:1282-1283 | records a name for the current block only |
| BlockChain.Plugin.FindUid | gptest/gptest.cpp:1683-1700 | whenever the chain ends or a name is recorded on it, terminates with the name recorded in the current block or its nearest chain ancestor, which dominates it; nothing exactly when none of them has it |
| LocFold.CalcRedundantLocs | TreeBuilder.cc:115-142 | the total is 2 for each counted unary and 3 for each counted binary operation |
| LocFold.FoldPreservesStack | TreeBuilder.cc:115-142 | replacing each counted group by the constant it computes leaves the final stack of every expression unchanged, failures included |
| LocFold.TopIsKnown | TreeBuilder.cc:117-139 | the top `state` stack entries are always the last folded constants |
| LocFold.FoldedLength | TreeBuilder.cc:127-138 | folding removes one operation per counted unary and two per counted binary one |
| LocFold.FoldIsComplete | TreeBuilder.cc:94-142 | no operation of a counted kind is left with only constants as operands |
| Leb128.TakeIsExact | Elf_reloc.cc:851-866 | one byte advances the 64-bit result as the value, and the lost bits say exactly whether the value still fits |
| Leb128.SignExtends | Elf_reloc.cc:871-872 | the final sign extension gives the signed value, and the test for lost bits is the signed range |
| Leb128.ReadLeb128 | Elf_reloc.cc:835-878 | counts the bytes through the terminator, sets bit 0 exactly when there is none and bit 1, for a terminated number, exactly when the value does not fit; the result is the value modulo 2^64 for over-long encodings too |
| UlebField.RewriteReadsBack | Elf_reloc.cc:909-941 | an accepted rewrite changes only the n bytes read, leaves a number of n bytes, and re-reading gives old plus delta modulo 2^(7n) |
| UlebField.RewriteTwice | Elf_reloc.cc:909-941 | two rewrites of a field are one by the sum |
| UlebField.AddThenSub | Elf_reloc.cc:923-926 | ADD S1 then SUB S2 leaves old plus the difference modulo 2^(7n) |
| UlebField.RewriteInPlace | Elf_reloc.cc:900-942 | the loop writes exactly the specified rewrite, and nothing for a bad number or symbol |
| UlebField.WriteField | Elf_reloc.cc:928-938 | the byte loop writes the padded encoding of its size |
| FieldBytes.GetInvertsPut | ElfFile.cc:399-414 | reading inverts writing for sizes 1, 2, 4, 8 in both orders and 3 little-endian; for 3 big-endian exactly when the two low bytes are equal |
| FieldBytes.BytePut | Elf_reloc.cc:1132-1150 | writes the low bytes of the value in file order at one place, and nothing beyond 8 bytes |
| Reloc.Locality | Elf_reloc.cc:1175-1302 | what an entry writes depends only on the bytes of its own field |
| Reloc.DisjointFields | Elf_reloc.cc:1175-1302 | after entries with disjoint fields each field holds what its entry alone writes, and every other byte is unchanged |
| Reloc.OrderIrrelevant | Elf_reloc.cc:1175-1302 | disjoint entries give the same section in every order |
| Reloc.FieldReadsAsFormula | Elf_reloc.cc:1263-1301 | each accepted field reads back as the value computed from the old section, with the exact exception for 3-byte big-endian fields |
| Reloc.ValueIsFormula | Elf_reloc.cc:1263-1301 | wrapped 64-bit arithmetic gives S + A, S + A - P or A - S modulo the field's size |
| Reloc.FieldHoldsFormula | Elf_reloc.cc:1263-1301 | after disjoint entries every whole-byte field holds its classifier's formula modulo 2^(8n) |
| Reloc.SixBitKeepsTop | Elf_reloc.cc:1287-1297 | the value computed for a 6-bit relocation keeps the top two bits and adds or subtracts in the other six |
| Reloc.SixBitField | Elf_reloc.cc:1263-1297 | after disjoint entries the byte of a 6-bit relocation has its old top two bits and S + A or A - S in the other six |
| RelocGroups.GroupsHold | Elf_reloc.cc:1175-1302 | where any two entries are apart or are in-place additions to one field, each field holds its old number plus the sum of its own entries, every other entry's bytes are what it alone writes, and the rest is unchanged |
| RelocGroups.GroupedOrderIrrelevant | Elf_reloc.cc:1175-1302 | such entries, any number of them to a field, give the same section in every order |
| RelocGroups.FieldIsSum | Elf_reloc.cc:1203-1301 | a field of in-place entries reads as old plus the signed sum of their S and A modulo 2^(8n), a 6-bit one so in its low six bits with the top two kept |
| RelocGroups.PairComposes | Elf_reloc.cc:1203-1301 | two in-place entries alone on a field, anywhere among others and in either order, compose to old plus both amounts |
| Reloc.Relocator.ApplyEntry | Elf_reloc.cc:1181-1301 | one entry writes its patch over the section, and skipped entries write nothing |
| Reloc.Relocator.ApplyDebugRelocs | Elf_reloc.cc:1175-1302 | the loop applies the entries one after the other to the section in place |
| RelocTables.PairsClassify | Elf_reloc.cc:572-746 | on RISC-V and LoongArch the ADD and SUB types of a width are in-place types of that size with opposite signs |
| RelocTables.PairsCompose | Elf_reloc.cc:572-746 | an ADD and a SUB of one width alone on a field compose to old + A1 + S1 + A2 - S2 in any section whose entries are apart or add up, in any order |
| RelocTables.PairAlone | Elf_reloc.cc:572-746 | such a pair by itself is such a section |
| Uleb.UlebFront | ElfFile.cc:320-340 | a number in front of anything is read whole and alone |
| Uleb.Uleb128 | ElfFile.cc:320-340 | the cursor ends behind the number and stays consistent with the bytes left; the value is right for encodings of at most four bytes, and for five bytes exactly when it is below 2^31 |
| Uleb.Sleb128 | ElfFile.cc:342-359 | the signed reader moves the cursor alike, and reads the signed value of encodings of at most four bytes |
| Forms.FormLenLocal | ElfFile.cc:1335-1487 | a complete value has the same length whatever follows it |
| Forms.PassData | ElfFile.cc:1335-1487 | moves past exactly the value of every form it knows, keeps position plus bytes available constant, and leaves the cursor alone for others |
| Forms.PassString | ElfFile.cc:1335-1487 | moves past a string and its terminating zero |
| Forms.FormDataValue | ElfFile.cc:2185-2280 | moves past exactly the same bytes, and reads each form's number: fixed sizes in file order, flags, constants, indexed addresses and numbers of at most four bytes |
| Forms.ReadAddrx | ElfFile.cc:2185-2280 | the indexed address forms look up the index they hold |
| Forms.FormStringValue | ElfFile.cc:2394-2471 | moves past exactly the same bytes on the forms it accepts and says where the string is; it loses its place exactly on other forms whose value is not empty, always on DW_FORM_strx |
| Forms.Consume | ElfFile.cc:3262-3266 | whichever reader takes a value, the cursor ends behind it |
| Forms.ConsumeDie | ElfFile.cc:3244-3267 | the cursor after a whole DIE does not depend on which attributes were read and how |
| Abbrev.SectionPointsToAttrs | ElfFile.cc:2490-2507 | the position kept for a declaration leads to its attribute list |
| Abbrev.ReadAttr | ElfFile.cc:3248-3254 | reads an attribute's name and form and passes the constant of DW_FORM_implicit_const |
| Abbrev.SkipAttrs | ElfFile.cc:2508-2513 | passes exactly the attributes of a declaration |
| Abbrev.CompilationUnit.LoadAbbrevTags | ElfFile.cc:2474-2516 | a table with distinct codes loads as exactly its declarations; a repeated code fails and leaves nothing; an offset outside the section fails and leaves the old table |
| DieWalk.LoadedDescribes | ElfFile.cc:2474-2516 | a loaded table gives the walk the declarations it was encoded from |
| DieWalk.VisitsAreUnskipped | ElfFile.cc:3212-3289 | the visits are the preorder of all DIEs less the descendants of those jumped from, and each level is the number of ancestors |
| DieWalk.JumpTaken | ElfFile.cc:3272-3284 | the jump test succeeds exactly for unregistered parents with a sibling attribute, and lands behind the whole DIE |
| DieWalk.CloseList | ElfFile.cc:3216-3223 | a null entry closes the innermost list of children |
| DieWalk.EnterChildren | ElfFile.cc:3285-3289 | behind the head of a parent its children come next |
| DieWalk.Walker.ReadValues | ElfFile.cc:3244-3267 | passes every value of a DIE and keeps the last sibling attribute |
| DieWalk.Walker.WalkDie | ElfFile.cc:3226-3289 | visits one DIE and goes on behind it or into its children as specified |
| DieWalk.Walker.WalkUnit | ElfFile.cc:3212-3292 | for every forest encoded by the table, visits exactly the specified DIEs at their levels, and ends with the cursor at the unit's end and level 0; an undeclared code is the only failure |
| TreeStack.StepKeepsCount | TreeBuilder.cc:692-755 | a builder operation keeps the level correction equal to the namespaces and blocks on the stack exactly when it does not write a parameter's element over one of them |
| TreeStack.CountFollowsStack | TreeBuilder.cc:692-755 | so it is after every operation of a run in any order, exactly as long as none does |
| TreeStack.AddedIsPushed | TreeBuilder.cc:885-1033 | an element just added is the one that its children will be pushed under |
| TreeBuilderImpl.TreeBuilder.AddElement | TreeBuilder.cc:885-1033 | level, owner, namespace (none for a method), recent element and current type of every kind of element |
| TreeBuilderImpl.TreeBuilder.AddInner | TreeBuilder.cc:892-960 | the same for members, parents, enumerators and variant parts, which need an element to be in |
| TreeBuilderImpl.TreeBuilder.AddOuter | TreeBuilder.cc:1020-1032 | the same for the types that stand for themselves, with subranges changing the current type alone |
| TreeBuilderImpl.TreeBuilder.AddFunction | TreeBuilder.cc:1004-1030 | the same for functions, which become methods of the element on top or elements of their own |
| TreeBuilderImpl.TreeBuilder.AddVariable | TreeBuilder.cc:961-1003 | the same for variables, which may find no place |
| TreeBuilderImpl.TreeBuilder.CanHaveMethods | TreeBuilder.cc:757-766 | a function becomes a method below an element that is no namespace or function |
| TreeBuilderImpl.TreeBuilder.RegisterNewTag | ElfFile.cc:2524-2594 | which tags are registered under which switches, and what they add |
| TreeBuilderImpl.TreeBuilder.GetParam | TreeBuilder.cc:1102-1116 | an attribute kept with a parameter writes the recent element over the top of the stack |
| TreeBuilderImpl.TreeBuilder.PostProcessTag | TreeBuilder.cc:413-443 | a namespace is entered; a known duplicate is dropped |
| TreeBuilderImpl.TreeBuilder.Add2Stack | TreeBuilder.cc:692-721 | what goes on the stack in front of the children |
| TreeBuilderImpl.TreeBuilder.PopStack | TreeBuilder.cc:723-755 | what leaves the stacks behind them |
| TreeBuilderImpl.TreeBuilder.ProcessUnit | TreeBuilder.cc:629-655 | what is forgotten between units |
| TreeWalk.PassIff | ElfFile.cc:3236-3270 | a DIE whose children are not entered keeps the stacks in agreement exactly when it neither enters a stale namespace nor writes over a scope |
| TreeWalk.EnterIff | ElfFile.cc:3285-3289 | entering its children keeps them in agreement exactly when the DIE writes over no scope and is unregistered, adds an element, or pushes a namespace just when it entered a stale one |
| TreeWalk.PopRestores | TreeBuilder.cc:723-755 | popping undoes what entering pushed, whatever the entry was replaced by |
| TreeWalk.WalkAgrees | ElfFile.cc:3212-3289 | at every DIE boundary of a balanced unit stack depth equals the level, the count equals the scopes on the stack, and the namespace stack is the path of names, exactly when every DIE is sound; then only the top of the stack can change over the unit |
| TreeWalk.NoScopeOverwritten | TreeBuilder.cc:779-797 | the top that a registered parameter writes over is never a namespace or block: its level would not fit |
| TreeWalk.AddingParentsAreSound | ElfFile.cc:3285-3289 | when only unregistered or element-adding DIEs have children, all DIEs are sound exactly when none enters a stale namespace |
| TreeWalk.StackIsAncestorPath | TreeBuilder.cc:692-755 | then the stack at every boundary is the path of the ancestors' elements exactly when, besides, at every located parameter the recent element is none or the one on top |
| TreeWalk.ElementsSeeTheirPath | TreeBuilder.cc:885-1033 | under that condition an element gets the depth less its namespaces and blocks, its parent's entry and, unless it is a method, its innermost namespace |
| TreeWalk.NextUnit | TreeBuilder.cc:629-655 | the next unit starts in agreement exactly when no namespace was left open |
| TreeWalk.UnitAfterUnit | TreeBuilder.cc:629-655 | a balanced unit leaves none open |
| TreeWalk.VariantEntersNamespaceAgain | TreeBuilder.cc:413-441 | in a variant part, an empty namespace and a variant break the agreement although only element-adding DIEs have children |
| TreeWalk.UnitFallsOutOfAgreement | TreeBuilder.cc:413-441 | a whole unit that does so from the builder's first state |
| TreeWalk.LocatedParameterReplacesFunction | TreeBuilder.cc:1102-1116 | a whole unit in which, behind a located parameter, the function on the stack is replaced by the type nested in it |
| WalkTree.SameDies | ElfFile.cc:3212-3289 | with the builder's flags the walk over the bytes visits exactly the DIEs the builder is told of, in order, at their depths |
| WalkTree.LevelIsStackDepth | ElfFile.cc:3212-3289 | where all DIEs are sound, the level of each visit is the depth of the builder's stack there |
| WalkTree.RegisteredAreFlags | ElfFile.cc:3236-3270 | flags that hold exactly at the DIEs the builder registers are the builder's at every DIE it is told of |
| WalkTree.RegisteredSame | ElfFile.cc:3236-3270 | which DIEs the builder registers does not depend on the flags of the walk over the bytes |
| WalkTree.BuilderDrivesWalk | ElfFile.cc:3212-3289 | so for every well-formed unit, whatever the flags were, the walk told what the builder registers has the builder's flags and both come to the same DIEs at the same depths |
| Cfa.OperandsAt | ElfFile.cc:656-724 | the operands of a valid instruction stand one behind the other after its opcode |
| Cfa.PassOperands | ElfFile.cc:656-724 | each case passes exactly the operands of its instructions |
| Cfa.ParseDfa | ElfFile.cc:650-728 | for every program of listed instructions, the bytes taken as opcodes are the instruction starts, and the result is the operand of the first DW_CFA_def_cfa_offset, or failure when there is none |
| RngLists.ContextsAreOrdered | ElfFile.cc:863-907 | whatever the bytes, the contexts lie in the section, sorted and disjoint |
| RngLists.OneContext | ElfFile.cc:863-907 | an offset selects at most one context |
| RngLists.UnitsGiveContexts | ElfFile.cc:863-907 | a section of well-formed units gives exactly their contexts, in order |
| RngLists.RangeSection.ParseRnglists | ElfFile.cc:863-907 | the loop terminates and collects those contexts; it fails on a bad unit or when there are none |
| RngLists.RangeSection.ReadUnit | ElfFile.cc:871-900 | accepts a unit exactly when it fits and has no segments, with its header's context |
| RangeList.FindContext | ElfFile.cc:778-785 | finds a context exactly when one selects the offset |
| RangeList.DecodeEntry | ElfFile.cc:793-855 | one entry gives the range it denotes and the new base address |
| RangeList.GetRanges | ElfFile.cc:786-859 | an encoded list decodes to exactly the ranges it denotes under the running base, with indexes counted from behind the section's header, in order; it succeeds only at an end-of-list entry with some range |
| RangeList.GetRnglistx | ElfFile.cc:774-860 | the same from an offset, and failure when no context has it |
| RangeList.InitialBaseMatters | ElfFile.cc:788-825 | the initial base address changes the result exactly when an offset pair precedes every base address |
| RangeList.OriginShows | ElfFile.cc:799-830 | a list that shows a looked-up address denotes other ranges in some section when index 0 is elsewhere |
| RangeList.NoIndexNoOrigin | ElfFile.cc:799-830 | a list that shows none denotes the same ranges wherever index 0 is |
| RangeList.DecodedAsTheUnitMeans | ElfFile.cc:774-860 | the exact condition on a list, the unit's base address and its address base under which the decoded ranges are the unit's in every address section |
| RangeList.SecondContribution | ElfFile.cc:799-811 | a list of a unit of the second contribution whose index is read behind the first header |
| Deferred.AppliedText | ElfFile.h:184-192 | applying the delayed strings gives each field its last one and touches nothing else |
| Deferred.StepFuture | ElfFile.cc:2768-2817 | what each attribute does to the text a field will hold once the base is known, with or without a string pending for it |
| Deferred.StepAddr | ElfFile.cc:2753-2767 | each attribute keeps what the base address will be, but for a fixed index before its base |
| Deferred.DeferredIsEager | ElfFile.cc:2753-2817 | from any state earlier units leave: name, directory and producer are those resolved with the base known, or exactly when it wins the carried string, the base address likewise with its exact condition, and nothing stays delayed |
| Deferred.TextsAreEager | ElfFile.cc:2768-2817 | the texts are the eager ones exactly when no carried string that differs wins |
| Deferred.OrderIsIrrelevant | ElfFile.cc:2753-2817 | exactly when two orders of the attributes give a field the same text, and the unit the same base address |
| Deferred.FixedIndexDependsOnOrder | ElfFile.cc:2913-2931 | a DIE whose two orders give different base addresses |
| Deferred.DelayedOutlivesUnit | ElfFile.h:179-183 | without a string base the next unit starts with what was pending and then the indexed strings, in order |
| Deferred.StaleNameWins | ElfFile.h:184-192 | behind any such unit, its last index for a field replaces the next unit's own text under the stated condition |
| Deferred.CompileUnit.ApplyDlist | ElfFile.h:184-192 | the loop assigns the delayed strings oldest first and forgets them |
| Deferred.CompileUnit.LogText | ElfFile.cc:2785-2817 | a string attribute is assigned or delayed |
| Deferred.CompileUnit.LogAttribute | ElfFile.cc:2753-2931 | each attribute's effect on the fields |
| Deferred.CompileUnit.LogDie | ElfFile.cc:3244-3267 | the attributes of a DIE one after the other |

## Left out

- File loading, ELFIO, zlib, SQLite statements, Thrift transport, the compiler's tree and RTL interface, logging, option parsing and all rendering: input and output or foreign calls.
- Lookup tables, `perl/Interval-Tree`, `maxlique.ctf`, `nfilter.cc`, `lditer.cc` and `perl/chk.pl`: they would only add easy members.
- BmSearch.BmSearch.Search: memory shorter than the pattern, an empty pattern, failed allocation and a caller changing the pattern afterwards are not modelled; the subtractions are unsigned there.
- SymServerSafety.IdsAreConsistent: ids of the starting cache are positive, because 0 means an unknown name, and the id counter does not overflow its int.
- SymServerSafety.JobsAreConserved: safety only; that the writer wakes and finishes is not claimed.
- SymServerDb.DrainedRowsAreLastSubmission: one client only; with several, another client's jobs may come in between, and the code does not order them.
- SymServerImpl.ServiceHandler.PushFunc: one call by itself; in the state machine other threads push between its jobs.
- Reloc.Relocator.ApplyDebugRelocs: the classifiers are tables of types given as a parameter, and only those of RISC-V and LoongArch are written out. The target-specific handling of CUDA, MSP430, MN10300 and RL78, and finding the sections to patch, are left out.
- FieldBytes.BytePut: signed reads are left out.
- Uleb.Uleb128: the value of an encoding of more than five bytes is left open, because the code shifts an int by its width or more; the cursor is exact for all.
- Uleb.Sleb128: the value of an encoding of more than four bytes is left open for the same reason.
- Forms.FormDataValue: DW_FORM_sdata is read as an unsigned number, as the code does; the exit on an unknown form is a missing value. Four bytes of an address are read whatever its size, so they must be there. The reader of range attributes consumes the same bytes and is left out.
- Forms.PassData: a block whose length takes more than four bytes is left out.
- Abbrev.CompilationUnit.LoadAbbrevTags: truncated tables are left out; the code does not check for them.
- DieWalk.Walker.WalkUnit: the unit header, 64-bit headers among them, has been read; whether the builder keeps a DIE is a parameter, which WalkTree ties to the builder; a sibling attribute other than zero is correct and unit-relative. Only codes undeclared at level 0 are covered as failures.
- DieWalk.Walker.ReadValues: a value is only given to a reader that accepts its form; what the other attributes mean is left out.
- TreeWalk.WalkAgrees: which DIEs are known duplicates, and which have an attribute kept with a parameter, are parameters. Namespaces are known by the names they had when they were entered; a later attribute that renames an element on the stack is left out. A null stack top under a variant or member, or an empty stack under a parameter's attribute, which the code would dereference, has no effect.
- TreeBuilderImpl.TreeBuilder.AddElement: the members, parents, enumerators, parameters and variables collected inside an element are left out, but for the write over the stack that looking up a parameter does.
- RngLists.RangeSection.ParseRnglists: a header cut off by the end of the section is left out; the code reads past the end.
- RangeList.GetRanges: address sizes 4 and 8 and operands of at most four bytes. The older `.debug_ranges` lists are left out.
- Cfa.ParseDfa: lengths and results of at most four bytes.
- Deferred.DeferredIsEager: the Go package name is left out, because it depends on the language attribute coming first, and so are the delayed line tables.
- BlockChain.Plugin.FillBlocks: the compiler's control flow graph is a list of blocks with the sources of their edges.
