# Reaching definitions of the CAT pass, in Dafny

This project models the reaching-definitions analysis that the LLVM function
pass `CAT` runs over every function (`src/CatPass.cpp`). It also proves what
that analysis computes.

The program under analysis manipulates opaque "CAT variables" through five
API calls: `CAT_new`, `CAT_add`, `CAT_sub`, `CAT_set` and `CAT_get`. The pass
keeps one `DFA_SET` record per reachable instruction. The record holds four
growable bit-vectors: GEN, KILL, IN and OUT. Bit `j` stands for the
instruction with dense index `j`.

- **Pass 1** walks the reachable blocks in program order. It gives each
  instruction the next index. It puts that index into GEN for a call to
  `CAT_new`, `CAT_add`, `CAT_sub` or `CAT_set`. It compares the call with every
  earlier record through `isKilledBy` and marks KILL on both sides of each hit.
- **Pass 2** repeats sweeps over the same instructions, in the same order,
  until a sweep changes no OUT. A block's first instruction adds the OUT of
  each predecessor block's terminator to its IN. Any other instruction adds
  the OUT of the instruction before it. OUT then gains GEN and
  `(IN ^ KILL) & IN`.

The Dafny modules follow the pieces of the pass:

| module | file | models |
|---|---|---|
| `BitSets` | `bitsets.dfy` | LLVM `BitVector` as `seq<bool>`: resize, set, `^=`, `&=`, the union loop, and the `==` the pass uses to detect change |
| `Ir` | `ir.dfy` | the function being analysed: blocks in program order, instructions, predecessor lists, reachability; the dense index of each reachable instruction |
| `Cat` | `cat.dfy` | the `CAT_API::API` table, `std::find` over it, and `CAT::isKilledBy` |
| `DfaSets` | `dfaset.dfy` | `DFA_SET` and its two `add` operations |
| `GenKill` | `genkill.dfy` | Pass 1 |
| `InOut` | `inout.dfy` | Pass 2 |
| `Pass` | `pass.dfy` | `CAT::runOnFunction` |

### Main results

- Record `k` belongs to the reachable instruction with dense index `k`.
  Indices follow program order. Unreachable blocks get none.
- After Pass 1, GEN of `k` is `{k}` exactly for the four defining calls.
- After Pass 1, KILL is symmetric, irreflexive and bounded by the number of
  records.
- `(IN ^ KILL) & IN` is exactly `IN - KILL` for vectors of any lengths.
- The test `comp != OUT` holds exactly when OUT gained a bit.
- Every sweep only adds bits.
- The do-while loop terminates. Its measure is the set of (record, bit) pairs
  still missing from OUT.
- The result satisfies the data-flow equations as inequalities:
  `Inflow(k) <= IN(k)` and `GEN(k) + (IN(k) - KILL(k)) <= OUT(k)`.
- The result is the **least** such solution: any solution with the same GEN
  and KILL contains it.

### Notes on the code

- **The difference operation.** `(IN ^ KILL) & IN` equals `IN - KILL` for
  every pair of vectors, not only when KILL is contained in IN, whatever the
  lengths (`BitSets.Minus`). `&=` clears every bit that IN lacks, and where
  IN has a bit, `IN ^ KILL` is exactly `!KILL`.
- **What `isKilledBy` checks.** `isKilledBy(L, R)` never looks at L's callee.
  Any call whose argument 0 is the same call result as R's is killed, and so
  is that call result itself; `CAT_get` calls and calls to functions outside
  the API included.
- **Self-kills.** `isKilledBy(I, I)` holds for every call whose argument 0 is
  a call result (`Cat.SelfKill`). An instruction stays out of its own KILL
  only because Pass 1 compares each new instruction with strictly earlier
  records (`GenKill.KillSymmetric`).
- **Direction of the kill query.** Pass 1 asks only whether the earlier
  record is killed by the new instruction, and marks both sides on a hit
  (`GenKill.Kills`).
- **No other kill rules.** Calls outside the API, whatever they do to a
  handle, kill nothing; there is no aliasing and no handling of merges.

## Model

| member | source | states |
|---|---|---|
| BitSets.SetBit | src/CatPass.cpp:53-56 | growing to `i + 1` when shorter and then setting bit `i` yields a vector as long as the longer of the two, whose set bits are the old ones plus `i`; the "ends in a set bit" shape is kept |
| BitSets.Grow | src/CatPass.cpp:54 | `resize` to a larger size keeps the old bits as a prefix and adds only clear bits |
| BitSets.Union | src/CatPass.cpp:82-88 | adding the set bits of `v` one at a time, lowest first, yields exactly the union of the set bits, never longer than the longer operand |
| BitSets.Xor | src/CatPass.cpp:249 | `^=` grows to the longer length and holds the symmetric difference of the two sets of bits |
| BitSets.And | src/CatPass.cpp:250 | `&=` keeps the left length and holds the intersection of the two sets of bits |
| BitSets.Minus | src/CatPass.cpp:248-250 | `(IN ^ KILL) & IN` holds exactly the bits of IN not in KILL, for all inputs |
| BitSets.NormalEqual | src/CatPass.cpp:253 | two vectors built by setting bits that hold the same bits are equal as `BitVector`s, length included |
| BitSets.ChangedMeansGained | src/CatPass.cpp:253-255 | if OUT only gained bits and `comp != OUT`, some bit is new |
| Ir.Terminator | src/CatPass.cpp:233-234 | a terminator exists only for a non-empty block of the function; a reachable block's terminator is the instruction at the dense index of the block's last position, and an unreachable block's last position has no index |
| Ir.TerminatorRecord | src/CatPass.cpp:231-234 | when instruction identities are distinct, record `k` holds block `q`'s terminator exactly when `q` is reachable and non-empty and `k` indexes its last position, so the search finds the terminator of every reachable predecessor and of no unreachable one |
| Ir.SitesComplete | src/CatPass.cpp:184-189 | an instruction gets an index exactly when its block is reachable; unreachable code is skipped |
| Ir.SitesOrdered | src/CatPass.cpp:184-212 | dense indices follow program order, so each instruction has one index |
| Ir.SitesConsecutive | src/CatPass.cpp:242-245 | an instruction that is not first in its block has a non-zero index, and index - 1 is the previous instruction of the same block |
| Ir.Instrs | src/CatPass.cpp:184-191 | the instruction at dense index `k` is the one at the `k`-th reachable position |
| Cat.Find | src/CatPass.cpp:196 | the result is the first position of the name in the table, or the table length when the name is absent |
| Cat.IsDefinition | src/CatPass.cpp:196-197 | passing the `find` test implies a call to a name in the API table other than CAT_get |
| Cat.DefinitionCallees | src/CatPass.cpp:19 | passing the `find` test (found, and not at position 3) means exactly: a call to CAT_add, CAT_sub, CAT_new or CAT_set |
| Cat.IsKilledBy | src/CatPass.cpp:142-164 | L is killed by R exactly when R is a call whose argument 0 is a call result h, and L either is h or is a call whose own argument 0 is h; in every other case (line 163) the answer is false |
| Cat.LiteralKillsNothing | src/CatPass.cpp:144-146 | when R's argument 0 is not a call (a literal, say) or R is not a call, R kills nothing |
| Cat.HandleKilledByWriter | src/CatPass.cpp:148-150 | the call producing a handle is killed by every call whose argument 0 is that handle |
| Cat.KillBetweenRedefinitions | src/CatPass.cpp:142-164 | for two calls writing through call results, neither the other's argument: L is killed by R exactly when both write the same handle, so the relation is symmetric there |
| Cat.SelfKill | src/CatPass.cpp:142-164 | an instruction kills itself exactly when its argument 0 is a call result |
| DfaSets.Fresh | src/CatPass.cpp:191 | a new record belongs to the given instruction and all four vectors hold no bits |
| DfaSets.Add | src/CatPass.cpp:50-80 | for a valid set id, the named vector has length at least `i + 1` and its set bits are the old ones plus `i`; the other three vectors are unchanged; an invalid id changes nothing |
| DfaSets.AddVec | src/CatPass.cpp:82-88 | the named vector becomes the union with `v`, and the other vectors are unchanged |
| GenKill.FreshScanned | src/CatPass.cpp:191-199 | a new record has GEN = {index} for a defining call, otherwise empty, and empty KILL, IN and OUT |
| GenKill.KillScanStep | src/CatPass.cpp:201-205 | one comparison adds earlier index `i` to the new record's KILL exactly when `i` is killed by the new call |
| GenKill.ExtendScanned | src/CatPass.cpp:201-204 | an earlier record gains the new index in KILL exactly when the new defining call kills it, and is otherwise unchanged |
| GenKill.KillScan | src/CatPass.cpp:200-206 | for a defining call, comparing it with every earlier record leaves all records, old and new, exactly as the declarative GEN/KILL definition says for the longer instruction list |
| GenKill.Record | src/CatPass.cpp:190-210 | processing one instruction keeps every record exactly as the declarative GEN/KILL definition says, for the longer instruction list |
| GenKill.ScanBlock | src/CatPass.cpp:189-211 | processing a reachable block's instructions keeps that property, for the list extended by the block |
| GenKill.ScanIfReachable | src/CatPass.cpp:184-189 | a block the dominator tree does not reach adds nothing; a reachable one extends the records by its instructions, keeping the GEN/KILL definition |
| GenKill.PassOne | src/CatPass.cpp:184-212 | after Pass 1 there is one record per reachable instruction in index order; each GEN is {k} exactly for a defining call; each KILL holds exactly the indices related to `k` by a kill of the later instruction; IN and OUT are empty |
| GenKill.GenExact | src/CatPass.cpp:193-199 | GEN of `k` is `{k}` exactly for CAT_add/sub/new/set and empty for CAT_get and everything else |
| GenKill.KillSymmetric | src/CatPass.cpp:201-206 | `j` is in KILL of `k` exactly when `k` is in KILL of `j`; no record is in its own KILL; every GEN and KILL bit is below the record count |
| InOut.InflowFirst | src/CatPass.cpp:230-240 | the first instruction of a block receives the OUT of every record whose instruction terminates a predecessor block |
| InOut.InflowNext | src/CatPass.cpp:242-245 | any other instruction receives exactly the OUT of index - 1 |
| InOut.EntryInflow | src/CatPass.cpp:230-240 | a first instruction whose predecessors have no indexed terminator (an entry block, say) receives nothing |
| InOut.BitsBelowCount | src/CatPass.cpp:215-261 | every bit of every vector lies below the instruction count |
| InOut.TerminatesSingle | src/CatPass.cpp:234 | a record matches predecessor `q` exactly when its instruction is `q`'s terminator |
| InOut.FromPredsStep | src/CatPass.cpp:233-238 | scanning one more record adds its OUT exactly when it is a predecessor's terminator |
| InOut.FromPredsAppend | src/CatPass.cpp:231-239 | the contribution of a predecessor list grows by one predecessor's contribution per element |
| InOut.InFromBlock | src/CatPass.cpp:233-238 | the record loop for one predecessor adds the OUT of its terminator's record to IN; nothing else changes |
| InOut.InFromPreds | src/CatPass.cpp:231-239 | the predecessor loop adds the OUT of every predecessor terminator's record to IN; nothing else changes |
| InOut.Visit | src/CatPass.cpp:226-255 | IN becomes IN + Inflow; OUT becomes OUT + GEN + (new IN - KILL); instruction, GEN and KILL are unchanged; bounds are kept; the change flag holds exactly when OUT gained a bit |
| InOut.InflowMonotone | src/CatPass.cpp:230-245 | larger OUT sets never shrink what an instruction receives |
| InOut.VisitLeast | src/CatPass.cpp:226-251 | a visit keeps the state below every solution that extends the start state |
| InOut.VisitSolved | src/CatPass.cpp:226-251 | a visit that changes no OUT leaves the visited record, and every earlier one, solving its equations |
| InOut.SweepStep | src/CatPass.cpp:226-258 | visiting one more record keeps the sweep's invariant, and the flag is the "or" of the per-record change tests |
| InOut.BlockIndices | src/CatPass.cpp:219-226 | the instructions of a reachable block take consecutive indices, and the next block starts right after them |
| InOut.SweepBlock | src/CatPass.cpp:224-259 | one block's loop keeps the sweep's invariant and advances the index past the block |
| InOut.Sweep | src/CatPass.cpp:217-260 | after one sweep the records only grew; `out_has_changed` holds exactly when some OUT grew; when none did, every record solves its equations |
| InOut.MissingShrinks | src/CatPass.cpp:215-261 | a sweep that grew some OUT strictly shrinks the set of (record, bit) pairs missing from OUT |
| InOut.MissingSame | src/CatPass.cpp:253-261 | a sweep that grew no OUT leaves that set unchanged |
| InOut.GrewTransitive | src/CatPass.cpp:216-261 | growth across sweeps composes |
| InOut.FixedPoint | src/CatPass.cpp:215-261 | the do-while loop terminates with records grown from the input, solving the equations, and below every solution that extends the input |
| Pass.PassOneShaped | src/CatPass.cpp:183-212 | Pass 1's records are in bounds with empty IN and OUT, so every solution with the same GEN and KILL lies above them |
| Pass.RunOnFunction | src/CatPass.cpp:174-274 | record `k` is the reachable instruction of index `k`, with Pass 1's GEN and KILL; IN and OUT form the least solution of the reaching-definitions equations; the pass reports no modification |

## Left out

- `DFA_SET::print` and all `errs()` output (src/CatPass.cpp:77, 90-132, 181, 263-266): it is output only. The invalid-set-id message is dropped, and `DfaSets.Add` returns the record unchanged.
- Pass registration, `doInitialization` and `getAnalysisUsage` (src/CatPass.cpp:166-170, 276-298): they are host plumbing.
- The dominator-tree query (src/CatPass.cpp:175, 186, 221): each block carries a `reachable` flag that stands in for `DT.getNode(&B) != NULL`. Dominance is not computed.
- `new`/`delete` of the records (src/CatPass.cpp:191, 268-271): records are values in a sequence. Writing through `DFA[index]` is a sequence update.
- Indirect calls, where `getCalledFunction()` is null (src/CatPass.cpp:194): every call has a callee name.
- Calls without arguments: `getArgOperand(0)` has no operand to return. The model treats such calls like a call whose argument 0 is not a call (`arg0 == None`).
- Instruction identity: the code compares instruction addresses; the model compares `Instr` values, whose `id` stands for the address. `Ir.DistinctIds` states that distinct positions hold distinct ids. `Ir.TerminatorRecord` needs it to rule out an unreachable predecessor's terminator matching some record; the fixed-point results hold for every function, with or without it.
- Predecessor lists are block positions. A position outside the function, or an empty block, has no terminator. A well-formed LLVM function has neither.
- Integer widths: `index`, the loop counters and `i + 1` are `int`/`size_t` in the code and unbounded here. Overflow needs more than 2^31 instructions.
- InOut.FixedPoint: termination is proved with the shrinking set of missing (record, bit) pairs, which has at most n² elements. No explicit bound on the number of sweeps is stated.
