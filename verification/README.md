# Verified model of the Yosys kernel's core algorithms

Yosys keeps several small cores in which a fast or lowered form must equal a simple meaning.  This
project models those cores in Dafny and proves that they do.

- **Hash tables and union-find** (`Hashlib.dfy`, `Mfp.dfy`).  `dict` and `pool` keep each bucket's
  chain as integers inside a dense vector, and erase by swapping in the last entry.  After any history
  of operations the chains are exact and the table answers as the mathematical map does.  `idict` gives
  stable indices.  `mfp` is modelled twice: as the sequential structure, and as a step relation in
  which any number of concurrent `ifind` calls read and write relaxed atomics; the source's informal
  argument is proved over every interleaving.
- **Memory contents** (`MemContents.dfy`, `MemInits.dfy`, `MemLoad.dfy`, `MemEmit.dfy`).  A sorted list of
  non-touching ranges behaves as a partial function from addresses to words under every insert,
  reserve and clear.  `coalesce_inits` and the compaction before emission leave the image unchanged.
- **Constants and their compilers** (`Bits.dfy`, `Calc.dfy`, `CalcMeaning.dfy`, `UndefinedPowers.dfy`, `Functional.dfy`, `ConstEval.dfy`,
  `FunctionalAlu.dfy`, `Muxes.dfy`, `FunctionalMux.dfy`, `CellAigs.dfy`, `CellEdges.dfy`,
  `ArithEdges.dfy`).  The constant evaluator computes integer arithmetic at every width; the functional
  lowering agrees with every defined bit of it under every completion of the undefined ones; the
  and-inverter graphs compute their cells after structural hashing, folding and dead-node removal; and
  the edge database of shifts, sums, negation and bitwise cells holds exactly the influences.
- **Graphs and state machines** (`ComputeGraph.dfy`, `ForwardBuf.dfy`, `DriverTools.dfy`,
  `DriverOrientation.dfy`, `Ff.dfy`, `BitPattern.dfy`).  Packed argument lists, buffer removal, bit
  numbering, orientation of undirected connections by breadth-first search, flip-flop rewrites that
  keep every trace, and cube subtraction in a pool that is changed while it is iterated over.
- **Formats and sums** (`Fmt.dfy`, `FmtGrammar.dfy`, `FmtDecimal.dfy`, `Macc.dfy`, `MaccCell.dfy`).  Printing and
  parsing of format strings against a grammar that is written out, decimal rendering, and simplification of multiply-accumulate cells.

Objects that the source changes in place are classes, and each of their methods is tied to a function
or predicate of the old state; the lemmas are about those.  Vectors and ordered maps are sequences held
in fields.  A bit vector is a sequence of any length, least significant bit first; integers are
unbounded unless a wrap-around is written out.  An expression of the functional IR has a value under
every assignment to the inputs, and lowering steps are methods that promise that value.

Where the code and its documentation or a natural expectation part, the model follows the code and the
exact condition is proved:

- Turning an asynchronous load into set and clear lines is right if and only if no reset coincides with
  a load of the other value (`FfRewrites.LoadAsSetClearExact`).
- `Macc::optimize` makes an addend of the second port of a product whose first port is empty; it is
  right on an input if and only if what such terms add vanishes at the output's width
  (`Maccs.KeepsExactly`).  It also drops undefined constants; a list of constants keeps its value if and
  only if no constant is undefined and that surplus vanishes, or the output has no bits, or `eval` meets
  none of the undefined bits and the value is 0 (`Maccs.Macc.OptimizeConstants`).
- The `$alu` lowering reads its two signedness parameters jointly, the reference loop one by one; they
  agree if and only if that makes no difference (`AluSimplifier.AluSignsMatter`).
- `MemContents(Mem*)` loads inits that are marked removed, and stores at absolute addresses.  Its
  contents at `start_offset + a` are `get_init_data` at `a` if and only if no removed init is exposed,
  and index by index if and only if the image agrees with its own shift by the offset
  (`MemLoad.FromMemIsInitData`).
- `const_pow` answers 0 for a base that reads as 0 before it looks for undefined bits.  The answer holds
  for every completion if and only if the base is defined or the power of its lowest undefined bit falls
  off the result (`UndefinedPowers.PowExact`).
- A format part of kind UNICHAR is printed in a form that the parser rejects (`Fmts.RoundTrip`).
- `BitPatternPool::has_all` looks for one covering pattern; on every pool that can arise this is
  coverage by the pool as a whole (`BitPattern.BitPatternPool.HasAll`).

## Model

| member | source | states |
|---|---|---|
| Hashlib.UnlinkKeepsWired | kernel/hashlib.h:450-468 | Taking one entry out of its chain by relinking its predecessor (or the bucket head) leaves every bucket chain a repeat-free list of exactly the live entries that hash there. |
| Hashlib.MoveKeepsWired | kernel/hashlib.h:470-492 | Redirecting the one link to the last entry, and copying that entry into the freed slot, keeps every bucket chain exact although index order is broken. |
| Hashlib.LinkKeepsWired | kernel/hashlib.h:437-448 | One round of rehashing: pushing entry n onto the front of its bucket makes the chains exact for one more entry. |
| Hashlib.NoDupBound | kernel/hashlib.h:512-522 | A chain without repeats is no longer than the entry vector, so every chain walk ends. |
| Hashlib.EraseAtIsMapRemoval | kernel/hashlib.h:450-497 | Overwriting slot i by the last entry and popping removes exactly that key from the map the entries stand for, and no key becomes double. |
| Hashlib.AppendIsMapInsertion | kernel/hashlib.h:532-554 | Appending an entry with a new key adds exactly that key and value to the map. |
| Hashlib.HashTable.DoRehash | kernel/hashlib.h:437-448 | Rebuilds exact chains from any entry vector with distinct keys; no entry moves. |
| Hashlib.HashTable.DoLookupInternal | kernel/hashlib.h:512-522 | The chain walk returns an entry with the key, or -1 only if no entry has it; it terminates. |
| Hashlib.HashTable.DoLookup | kernel/hashlib.h:499-510 | The same through the rehashing lookup, which also yields the bucket for a following insert or erase. |
| Hashlib.HashTable.DoLookupNoRehash | kernel/hashlib.h:524-530 | -1 exactly for missing keys, without changing the table. |
| Hashlib.HashTable.DoInsert | kernel/hashlib.h:532-554 | Appends one entry and keeps the chains exact, whether or not the table had to be rebuilt. |
| Hashlib.HashTable.FindPredecessor | kernel/hashlib.h:454-466 | The walk finds the entry whose link leads to the erased one, or the entry itself if it heads the chain. |
| Hashlib.HashTable.DoErase | kernel/hashlib.h:450-497 | Erases by swapping in the last entry: the entries become those of EraseAt, the chains stay exact. |
| Hashlib.HashTable.Insert | kernel/hashlib.h:684-692 | An existing key keeps its value; a new one is added; the other keys are untouched. |
| Hashlib.HashTable.Erase | kernel/hashlib.h:744-749 | Removes exactly the key, and says whether it was there. |
| Hashlib.HashTable.EraseIterator | kernel/hashlib.h:1157-1162 | Erasing during iteration, which runs downwards, continues at the next lower index; all lower entries stay in place. |
| Hashlib.HashTable.Count | kernel/hashlib.h:758-763 | 1 exactly for the keys of the map. |
| Hashlib.HashTable.At | kernel/hashlib.h:790-806 | The map's value, or None where the source throws. |
| Hashlib.HashTable.Find | kernel/hashlib.h:772-788 | The map's value or None; rehashing changes no entry. |
| Hashlib.HashTable.Run | kernel/hashlib.h:404-405 | Over every sequence of inserts, erases, lookups and rehashes the contents pass through the values of the mathematical map, operation by operation, and every answer is that map's. |
| Hashlib.KeysAppend | kernel/hashlib.h:1290-1297 | Appending an entry appends its key to the index order. |
| Hashlib.IndexTable.IndexOf | kernel/hashlib.h:1290-1297 | Gives a key the index of its first use, adding it at the end if it is new; no other index changes. |
| Hashlib.IndexTable.IndexAt | kernel/hashlib.h:1299-1306 | The index of a known key, None exactly for unknown ones. |
| Hashlib.IndexTable.KeyAt | kernel/hashlib.h:1331-1334 | The key with a given index. |
| Forest.RootIsOfLinks | kernel/hashlib.h:1398-1411 | The root of an element does not depend on the ranking that shows the links acyclic. |
| Forest.CompressedKeepsRoot | kernel/hashlib.h:1412-1434 | If every link keeps its target or jumps to its root, no element's root changes. |
| Forest.MergeRoots | kernel/hashlib.h:1438-1445 | Hanging one root under another moves exactly that class. |
| Forest.PromoteRoots | kernel/hashlib.h:1447-1459 | Pointing a whole chain at i makes i the root of exactly its own class. |
| UnionFind.Mfp.Ifind | kernel/hashlib.h:1412-1434 | Returns the root; exactly the elements on the way to it are linked to it directly, and no root changes. |
| UnionFind.Mfp.Imerge | kernel/hashlib.h:1436-1445 | i's class gets the root of j's; all others keep theirs. |
| UnionFind.Mfp.Ipromote | kernel/hashlib.h:1447-1459 | i becomes the root of its class, and exactly the elements on the way to the old root are linked to it; all other classes keep their root. |
| UnionFind.Mfp.IndexOf | kernel/hashlib.h:1381-1391 | A new key becomes the root of its own class; old indices and roots stay. |
| UnionFind.Mfp.Find | kernel/hashlib.h:1465-1471 | The representative key of a known key's class, and an unknown key itself. |
| UnionFind.Mfp.Merge | kernel/hashlib.h:1473-1476 | Joins two keys' classes under the second one's root, adding unknown keys first. |
| ConcurrentFind.StepKeepsInv | kernel/hashlib.h:1412-1434 | One action of one call, whose relaxed load may return any value ever stored in the cell, keeps the invariant, leaves the other calls alone and lowers the caller's remaining work. |
| ConcurrentFind.ExecutionKeepsInv | kernel/hashlib.h:1398-1411 | The invariant holds after every interleaving of any number of calls, with a bound on each call's own actions. |
| ConcurrentFind.ConcurrentFindCorrect | kernel/hashlib.h:1398-1411 | For any acyclic parents, any number of concurrent calls and any interleaving: each cell has only ever held its original parent or its root, every finished call returned the original root, and each call takes at most 3 * depth + 3 actions of its own. |
| ConcurrentFind.ConcurrentFindProgress | kernel/hashlib.h:1412-1434 | A call that has not returned can always take another action. |
| ConcurrentFind.LaterReadersSeeSameClasses | kernel/hashlib.h:1398-1411 | Whatever mixture of stored values a later operation finds, the links are acyclic and every root is the original one. |
| BitPattern.MatchIffMeet | kernel/bitpattern.h:110-121 | Two cubes match exactly if they share a point. |
| BitPattern.WithinIffPoints | kernel/bitpattern.h:150-168 | The bitwise containment test is containment of point sets. |
| BitPattern.SplitsCoverRest | kernel/bitpattern.h:176-187 | The cubes inserted for a matching pattern cover exactly the pattern without the taken cube. |
| BitPattern.WithinSplit | kernel/bitpattern.h:176-187 | A cube inside the pattern that misses the taken cube lies inside one of the splits. |
| BitPattern.TakeKeepsComplete | kernel/bitpattern.h:170-193 | Taking a cube keeps the property that what the pool covers at all, one member covers. |
| BitPattern.TakeStepPoint | kernel/bitpattern.h:176-190 | Replacing one matching pattern by its splits, while iterating over the same pool, changes no point outside the cube. |
| BitPattern.TakeDone | kernel/bitpattern.h:170-193 | When all positions are visited the pool has exactly its old points without the cube's. |
| BitPattern.BitPatternPool.FromSignal | kernel/bitpattern.h:67-80 | The pool of a case signal contains exactly the points that agree with its constant bits. |
| BitPattern.BitPatternPool.AllPatterns | kernel/bitpattern.h:85-95 | The pool of a width contains every point. |
| BitPattern.BitPatternPool.HasAny | kernel/bitpattern.h:132-141 | True exactly if the pool and the cube share a point. |
| BitPattern.BitPatternPool.HasAll | kernel/bitpattern.h:150-168 | True exactly if the pool covers the cube as a whole, although the code looks for one covering member. |
| BitPattern.BitPatternPool.Take | kernel/bitpattern.h:170-193 | Removes exactly the cube's points from the pool and returns true exactly if some pattern met the cube. |
| BitPattern.BitPatternPool.TakeAll | kernel/bitpattern.h:195-201 | Empties the pool, and says whether it was nonempty. |
| BitPattern.SigToBits | kernel/bitpattern.h:100-108 | Normalising a signal keeps its set of points. |
| Multiples.QuotIsDivision | kernel/mem.h:246-256 | Word counts and alignment by repeated subtraction are the quotient and divisibility by the word size. |
| Multiples.TimesIsProduct | kernel/mem.h:255-256 | A bit offset is the product of the word number and the word size. |
| MemContents.GetAt | kernel/mem.h:238-243 | In a list of nonempty, disjoint, non-touching ranges each stored word is found at its address. |
| MemContents.ReplacedGet | kernel/mem.cc:1820-1899 | Replacing a stretch of ranges changes only what the replaced and the new ranges cover. |
| MemContents.ClearedGet | kernel/mem.cc:1820-1851 | Truncating, splitting and erasing the ranges that meet an interval undefines exactly its words and keeps the invariants. |
| MemContents.MergedWord | kernel/mem.cc:1867-1877 | A lower range grown up to and joined with an upper one holds the words of both, undefined between them. |
| MemContents.StolenWord | kernel/mem.cc:1884-1891 | A range re-inserted with a lower start holds its old words. |
| MemContents.MemContents.RangeAt | kernel/mem.cc:1782-1800 | The position of the range holding the address, or of the first one past it. |
| MemContents.MemContents.At | kernel/mem.cc:1802-1808 | The stored word, or the default value. |
| MemContents.MemContents.CountRange | kernel/mem.cc:1810-1818 | The number of defined addresses in the interval. |
| MemContents.MemContents.ClearRange | kernel/mem.cc:1820-1851 | Undefines exactly the interval and keeps the representation invariants. |
| MemContents.MemContents.ReserveRange | kernel/mem.cc:1853-1899 | Makes one range cover the interval; each word outside it is as before, and each inside is as before or undefined in all its bits. |
| MemContents.MemContents.InsertConcatenated | kernel/mem.cc:1901-1910 | Overrides exactly the words it is given; each is made of the constant's bits at its place, and zeros past the constant's end. |
| MemContents.MemContents.InsertRange | kernel/mem.h:321-328 | Overrides exactly a run of words, each bit by bit that of the word given, and zero past its end. |
| MemContents.MemContents.RangeWrite | kernel/mem.cc:1912-1918 | Writes one word and no other: the given bits up to the data width, and zeros past their end. |
| MemContents.Pow2Bound | kernel/mem.h:234-235 | Addresses of at most 31 bits leave room for an end address in the 32-bit address type. |
| MemContents.ContainsIsInRange | kernel/mem.cc:1762-1766 | The wrapping subtraction tests exactly membership in the range. |
| MemInits.OverlayBit | kernel/mem.cc:464-475 | Writing the enabled bits at the relative offset overrides exactly the bits the init covers, also for inits that stick out at either end. |
| MemInits.ImageOfLast | kernel/mem.cc:464-475 | The image at a bit is what the last live init that covers and enables it holds there. |
| MemInits.ImageOfNone | kernel/mem.cc:464-475 | A bit that no live init covers and enables is undefined. |
| MemInits.IntTimesIsProduct | kernel/mem.cc:448 | The offset of an init relative to a chunk is the product of the signed address difference and the word size. |
| MemInits.MergeChunks | kernel/mem.cc:390-415 | Merging an init with all chunks it overlaps or touches keeps the chunk index sorted and apart. |
| MemInits.MergedImage | kernel/mem.cc:445-460 | Replacing the inits of a chunk by one fully enabled init with their merged image changes no bit of the memory image. |
| MemInits.EnabledImage | kernel/mem.cc:435-444 | Enabling all bits of a chunk's only init, its disabled bits undefined, changes no bit of the image. |
| MemInits.Mem.GetInitData | kernel/mem.cc:464-475 | Each bit of the result is what the last live init that covers and enables it holds there, and undefined where none does. |
| MemInits.Mem.CoalesceInits | kernel/mem.cc:375-462 | The image is unchanged at every address; live inits end up disjoint, not touching, and fully enabled. |
| MemLoad.FromMem | kernel/mem.cc:1706-1731 | The contents loaded from a memory are the image of all its inits at their absolute addresses. |
| MemLoad.LoadInit | kernel/mem.cc:1712-1729 | One init overrides exactly the bits it enables; others keep what was there. |
| MemLoad.RevivedExactly | kernel/mem.cc:1706-1731 | The image with the removed marks ignored differs from the memory image at a bit if and only if some removed init is exposed there: it writes the bit, no later init does, and the earlier ones leave another value. |
| MemLoad.FromMemIsInitData | kernel/mem.cc:1706-1731 | For every memory, start offset and removed marks: the contents at start_offset + a agree with get_init_data at a, for all bits, if and only if no removed init is exposed; index by index, at a itself, if and only if the image agrees with its own shift by the offset. |
| MemLoad.RemovedInitIsLoaded | kernel/mem.cc:1706-1731 | The constructor's contents for a concrete memory with one removed init: the word is there, although get_init_data leaves it undefined. |
| MemLoad.OffsetIsIgnored | kernel/mem.cc:1706-1731 | A concrete memory with start offset 1 whose contents differ from get_init_data at index 0. |
| MemEmit.MemPorts.Compact | kernel/mem.cc:56-117 | Before emission exactly the live ports and inits are left, in order; transparency, collision and priority between any two ports that are left are as before, and so is the memory image. |
| MemEmit.SwapDown | kernel/mem.cc:90-101 | The swapping loop puts the kept entries in order in place. |
| MemEmit.CompactMask | kernel/mem.cc:103-116 | The copying loop compacts a mask in place. |
| MemEmit.KeptImage | kernel/mem.cc:98-101 | Dropping removed inits changes no bit of the memory image. |
| Bits.CeilLog2IsLeast | kernel/utils.h:266-278 | ceil_log2 is the least exponent whose power of two reaches x. |
| Bits.ExtendIs | kernel/calc.cc:29-37 | Extending or truncating is reduction of the two's complement value to the new width. |
| Calc.BigIsValue | kernel/calc.cc:39-63 | On defined bits the integer read from a constant is its two's complement value. |
| Calc.Const2Big | kernel/calc.cc:39-63 | The loop computes that integer and notices exactly the undefined constants. |
| Calc.Big2Const | kernel/calc.cc:65-95 | The loop writes the low bits in two's complement, for negative numbers too. |
| Calc.TruncIsDivision | kernel/calc.cc:463-488 | Quotient and remainder of $div and $mod are division rounding toward zero. |
| Calc.FloorIsDivision | kernel/calc.cc:490-533 | Those of $divfloor and $modfloor round down; the remainder has the divisor's sign. |
| Calc.DivisionUnique | kernel/calc.cc:463-533 | Either rounding determines quotient and remainder. |
| Calc.NegativePower | kernel/calc.cc:549-555 | A negative exponent gives 1 / a^-b rounded toward zero, as section 11.4.3 of IEEE 1800-2017 has it. |
| Calc.PowerStep | kernel/calc.cc:572-577 | One square-and-multiply step keeps y * a^b modulo 2^len. |
| Calc.PowerModTwo | kernel/calc.cc:557-581 | The loop computes base^exponent modulo 2^len. |
| Calc.ConstAdd | kernel/calc.cc:441-446 | The low result bits of the integer sum of the operands' values; all undefined if an input is. |
| Calc.ConstSub | kernel/calc.cc:448-453 | The low result bits of the integer difference; all undefined if an input is. |
| Calc.ConstMul | kernel/calc.cc:455-460 | The low result bits of the integer product; all undefined if an input is. |
| Calc.ConstDiv | kernel/calc.cc:463-474 | For any quotient and remainder that round toward zero, exactly the quotient's low bits; all undefined for a zero divisor or an undefined input only. |
| Calc.ConstMod | kernel/calc.cc:477-488 | For any such quotient and remainder, exactly the remainder's low bits, also for a negative divisor. |
| Calc.ConstDivfloor | kernel/calc.cc:490-510 | For any quotient and remainder that round down, exactly the quotient's low bits, for every sign combination and nonzero divisor. |
| Calc.ConstModfloor | kernel/calc.cc:512-533 | For any such quotient and remainder, exactly the remainder's low bits. |
| Calc.ConstPow | kernel/calc.cc:535-584 | The power at the result width for every defined input; undefined for 0 to a negative power. |
| Calc.ConstNeg | kernel/calc.cc:602-608 | The negative at the result width. |
| Calc.ConstOrder | kernel/calc.cc:338-436 | Bit 0 is the integer comparison of defined inputs, and undefined if an input is; the bits above it are 0. |
| Calc.ConstEq | kernel/calc.cc:358-380 | Bit 0 is 0 if and only if no completions of the extended operands are equal, 1 if and only if all are, and otherwise undefined; the bits above it are 0. |
| Calc.ConstNe | kernel/calc.cc:382-390 | The other way round: 1 if and only if no completions are equal, 0 if and only if all are. |
| Calc.MatchedExact | kernel/calc.cc:358-380 | The loop's answer, 0 at the first defined difference and else undefined if a bit is, is exactly what holds of every completion. |
| Calc.ConstShiftWorker | kernel/calc.cc:277-300 | Result bit i is bit i plus the signed offset of the operand, or what is shifted in, for an amount of any width. |
| Calc.ConstShift | kernel/calc.cc:302-336 | Extension of A, direction and vacant bits of each of the six shift cells; an undefined amount makes everything undefined. |
| Calc.CellEval | kernel/celltypes.h:350-430 | Dispatch of two-operand cells: operands are signed only if both are, except for shifts. |
| CalcMeaning.SumMeaning | kernel/calc.cc:441-460 | $add, $sub and $mul on defined operands of any widths and signedness are the sum, difference and product of their values. |
| CalcMeaning.TruncMeaning | kernel/calc.cc:463-488 | Any q and r that divide the values rounding toward zero are exactly what $div and $mod give. |
| CalcMeaning.FloorMeaning | kernel/calc.cc:490-533 | Any q and r that divide them rounding down are exactly what $divfloor and $modfloor give. |
| CalcMeaning.PowMeaning | kernel/calc.cc:535-584 | $pow gives the power, and for a negative exponent any quotient of 1 by the positive power that rounds toward zero. |
| CalcMeaning.OrderMeaning | kernel/calc.cc:338-436 | Each of the four orders on defined operands is the comparison of the values, with its operator written out, in bit 0 of an otherwise zero result. |
| CalcMeaning.EqualMeaning | kernel/calc.cc:358-390 | $eq and $ne on defined operands compare the values, although the code compares extended bits. |
| CalcMeaning.EqualUndefined | kernel/calc.cc:358-390 | With undefined bits, $eq and $ne are defined exactly where every completion of the extended operands gives that answer. |
| CalcMeaning.LeftShiftMeaning | kernel/calc.cc:302-319 | Each bit of $shl and $sshl: the bit of A that many places lower, A's extension, or 0. |
| CalcMeaning.RightShiftMeaning | kernel/calc.cc:309-324 | Each bit of $shr and $sshr; a signed arithmetic shift repeats A's last bit without end. |
| CalcMeaning.EitherShiftMeaning | kernel/calc.cc:326-336 | Each bit of $shift and $shiftx, whose amount may be signed; $shiftx is undefined past A. |
| FunctionalIR.FSlice | kernel/functional.h:468-474 | Slicing, and the shortcut for the whole word. |
| FunctionalIR.FExtend | kernel/functional.h:475-486 | Extension or truncation, whichever node is built. |
| FunctionalIR.FUnary | kernel/functional.h:499-518 | Reductions of a single bit are built as the bit itself, which has the same value. |
| CellSimplifier.AbsOf | kernel/functional.cc:149-157 | The magnitude, read as unsigned, also for the most negative value. |
| CellSimplifier.AmountTruncated | kernel/functional.cc:163-176 | Truncating a shift amount to clog2(width) bits loses nothing unless it is out of range. |
| CellSimplifier.HandleShift | kernel/functional.cc:158-177 | The shift by the full amount, for amounts of any width and one-bit operands too. |
| CellSimplifier.SignedDiv | kernel/functional.cc:364-369 | From unsigned division, negation and a multiplexer: the truncated quotient for every nonzero divisor, including most negative over -1. |
| CellSimplifier.SignedMod | kernel/functional.cc:370-373 | The remainder of the truncated quotient, with the dividend's sign, at the result width. |
| CellSimplifier.SignedDivFloor | kernel/functional.cc:374-387 | The quotient rounded down at the result width, for every sign combination and nonzero divisor. |
| CellSimplifier.SignedModFloor | kernel/functional.cc:388-399 | The remainder of the quotient rounded down, with the divisor's sign. |
| CellSimplifier.FloorByMagnitude | kernel/functional.cc:374-387 | A negative floored quotient is the complement of (|a| - 1) / |b|. |
| CellSimplifier.HandleDivision | kernel/functional.cc:358-404 | The division family at every combination of operand and output widths, signed and unsigned. |
| CellSimplifier.HandleAddSubMul | kernel/functional.cc:250-266 | Sum, difference and product at every width. |
| CellSimplifier.HandlePow | kernel/functional.cc:189-203 | The integer power for every base and exponent, from the unsigned reading of the exponent and a correction for negative ones; 0 for 0 to a negative power. |
| CellSimplifier.SquareAndMultiply | kernel/functional.cc:189-196 | The chain of squarings and multiplexed products is the power to the unsigned exponent. |
| CellSimplifier.PowerBit | kernel/functional.cc:191-196 | One exponent bit of that chain. |
| CellSimplifier.ReadUnsigned | kernel/functional.cc:197-202 | What the power to the unsigned reading of a negative exponent has to be corrected to. |
| CellSimplifier.HandleCompare | kernel/functional.cc:276-294 | Comparisons at the wider operand's width, zero-extended to the output. |
| CellSimplifier.HandleShiftCell | kernel/functional.cc:322-345 | The six shift cells as offsets into the extended operand. |
| CellSimplifier.HandleBidirectional | kernel/functional.cc:334-345 | $shift and $shiftx with signed B: a negative amount shifts left by its magnitude. |
| CellSimplifier.Handle | kernel/functional.cc:250-406 | Main theorem: for 19 of the 20 cell types at all widths and signedness parameters, and every completion of undefined input bits, the lowered expression agrees with every defined bit of the constant evaluator; for $pow, wherever the evaluator is conservative, which PowExact shows to be the exact condition. |
| UndefinedPowers.PowExact | kernel/calc.cc:535-584 | The power of constants with undefined bits agrees with every completion if and only if it is not given early, or the base is defined, or the lowest undefined bit of the base times the exponent as read reaches the result width. |
| UndefinedPowers.EarlyButRight | kernel/calc.cc:544-548 | Where the early answer 0 is right: every completion of the base is a multiple of a power of two whose power falls off the result. |
| UndefinedPowers.EarlyAndWrong | kernel/calc.cc:544-548 | Where it is not: the base with just its lowest undefined bit set, to the exponent as read, sets a bit of the result. |
| UndefinedPowers.CompletionMultiple | kernel/calc.cc:39-63 | Completions of a constant that reads as 0 are multiples of the weight of its lowest undefined bit, signed or not. |
| UndefinedPowers.UndefinedBase | kernel/calc.cc:544-548 | A concrete undefined base whose power the evaluator calls 0, though one completion gives 1. |
| CellSimplifier.ArithmeticCompletes | kernel/calc.cc:441-584 | A vector that is the integer result agrees with the evaluator's constant, for powers under the exact condition. |
| CellSimplifier.ShiftCompletes | kernel/calc.cc:277-336 | The same for shifts with undefined bits in either operand. |
| CellSimplifier.EqualCompletes | kernel/calc.cc:358-390 | The same for equality, where a defined difference decides even if other bits are undefined. |
| Carry.RippleIsSum | kernel/consteval.h:284-311 | The ripple chain is a + b + c, its last carry the bit beyond. |
| Carry.CarryIsOverflow | kernel/consteval.h:284-311 | The carry into bit i is 1 if and only if the sum of the i lower bits does not fit them. |
| Carry.LookAheadIsCarry | kernel/functional.cc:245-247 | Adding g and p | g has exactly the generate/propagate carries. |
| ConstEval.EvalAlu | kernel/consteval.h:257-312 | X[i] is the xor of the extended bits i and BI if these three are defined, and undefined otherwise; with all inputs defined, Y is the integer sum of A, B or its complement, and CI at the output width and CO[i] says whether the sum up to bit i overflows; with any input undefined, Y and CO are all undefined. |
| ConstEval.EvalAluBit | kernel/consteval.h:290-309 | One round: the xor output where its three inputs are defined, and a full adder on the conditionally inverted B unless some input of the cell is undefined. |
| ConstEval.AluOnBits | kernel/consteval.h:257-312 | On defined operands the three outputs are those of the extended operands' bits. |
| ConstEval.EvalLcu | kernel/consteval.h:92-127 | The lookahead recurrence for every bit. |
| ConstEval.AluConstIsSound | kernel/consteval.h:257-312 | Every completion of the inputs gives outputs that agree with the reference. |
| AluSimplifier.HandleAlu | kernel/functional.cc:229-244 | One wide addition gives all outputs of $alu. |
| AluSimplifier.CarriesRecovered | kernel/functional.cc:238-243 | (a + b + c) ^ a ^ b without its lowest bit is the vector of carries out. |
| AluSimplifier.HandleLcu | kernel/functional.cc:245-247 | The same addition on g and p | g gives the $lcu recurrence. |
| AluSimplifier.AluAgrees | kernel/functional.cc:229-244 | The lowering agrees with the reference loop on Y, X and every CO bit where the signedness parameters are equal or do not matter. |
| AluSimplifier.AluSignsMatter | kernel/functional.cc:440-441 | Exactly there: otherwise some operands give different X outputs, since one side needs both parameters and the other reads them one by one. |
| Muxes.ConstBmux | kernel/calc.cc:640-659 | The halving loop is selection from the top select bit down. |
| Muxes.BmuxExact | kernel/calc.cc:640-659 | With undefined select bits an output bit is v exactly if every completion of the select finds v, else undefined. |
| Muxes.ConstDemux | kernel/calc.cc:661-689 | Word n of the result for every select number n. |
| Muxes.DemuxExact | kernel/calc.cc:661-689 | An output bit is v exactly if every completion of the select routes v there, else undefined. |
| Muxes.BmuxOfDemux | kernel/calc.cc:640-689 | With a defined select, selecting undoes routing. |
| MuxSimplifier.HandleBmux | kernel/functional.cc:204-212 | The recursive tree of multiplexers picks the selected word, from any offset. |
| MuxSimplifier.HandleBmuxCell | kernel/functional.cc:423-426 | It agrees with every defined bit of const_bmux. |
| MuxSimplifier.HandleDemux | kernel/functional.cc:427-435 | A shift by select times width agrees with every defined bit of const_demux. |
| MuxSimplifier.DemuxWidths | kernel/functional.cc:428-431 | The amount's width is enough for every shift amount. |
| Aigs.AigMaker.Node2Index | kernel/cellaigs.cc:78-92 | Structural hashing: the node with its parents ordered, stored once. |
| Aigs.AigMaker.MeaningOf | kernel/cellaigs.cc:78-92 | What a stored node says about its value. |
| Aigs.AigMaker.Inport | kernel/cellaigs.cc:101-114 | A port bit, sign- or zero-extended, inverted on demand. |
| Aigs.AigMaker.AndGate | kernel/cellaigs.cc:137-179 | Conjunction under every input, through folding of equal, opposite and constant operands. |
| Aigs.AigMaker.XorGate | kernel/cellaigs.cc:196-199 | Exclusive or, from three shared gates. |
| Aigs.AigMaker.MuxGate | kernel/cellaigs.cc:216-219 | Selection, from four shared gates. |
| Aigs.AigMaker.Adder | kernel/cellaigs.cc:221-234 | The chain of full adders is the ripple sum with its carries. |
| Aigs.AigMaker.AddSub | kernel/cellaigs.cc:373-387 | $add and $sub on integers, for every nonzero signed port width. |
| Aigs.AigMaker.Compare | kernel/cellaigs.cc:389-407 | The four orders, read off the top bit of a difference one bit wider than both operands. |
| Aigs.AigMaker.Equality | kernel/cellaigs.cc:428-440 | $eq and $ne on integers. |
| Aigs.AigMaker.Alu | kernel/cellaigs.cc:409-426 | X, Y and CO of the reference $alu. |
| Aigs.DifferenceSign | kernel/cellaigs.cc:392-402 | With equal signedness that top bit is the order, with or without the carry in. |
| Aigs.AdderComputes | kernel/cellaigs.cc:373-387 | Two's complement subtraction by inversion, at any width. |
| Aigs.EqualExtended | kernel/cellaigs.cc:428-440 | Extended to the wider port, operands are equal exactly if their values are. |
| Aigs.SameValue | kernel/cellaigs.cc:487-515 | Renumbering the used nodes keeps every node's value. |
| Aigs.OptimizedLive | kernel/cellaigs.cc:487-515 | After it every node drives an output or is a parent. |
| Aigs.Optimize | kernel/cellaigs.cc:487-515 | Dead-node removal keeps every output on every input, leaves no dead node, and makes no two nodes alike. |
| Aigs.BuildAig | kernel/cellaigs.cc:256-516 | Main theorem: the finished graph of each modelled cell computes the cell on every input, every node in it drives an output or is a parent, and no node is stored twice. |
| CellEdges.YBitIs | kernel/calc.cc:277-336 | Where a bit of a shift's output comes from. |
| CellEdges.EdgeAExact | kernel/celledges.cc:203-248 | The range of A bits that gets an edge is exactly the set of A bits that can reach Y[i]. |
| CellEdges.EdgeBExact | kernel/celledges.cc:250-306 | The tests on each B bit hold exactly for the bits whose toggling can change where Y[i] comes from. |
| CellEdges.ShiftOp | kernel/celledges.cc:175-308 | For all six shift cells, both signednesses and all widths with 1 <= B width <= 30: the edges are exactly the influences. |
| CellEdges.StraddleExists | kernel/celledges.cc:250-306 | An amount with a clear bit k on either side of a boundary exists whenever the masked test says so. |
| ArithEdges.InfluenceNeedsEdgeA | kernel/celledges.cc:82-105 | No influence of A through $add or $sub is missing, whatever the widths and signs. |
| ArithEdges.InfluenceNeedsEdgeB | kernel/celledges.cc:82-105 | No influence of B through $add or $sub is missing, whatever the widths and signs. |
| ArithEdges.BeyondReach | kernel/celledges.cc:89-92 | An unsigned sum has at most one more bit than its operands. |
| ArithEdges.EdgeShowsA | kernel/celledges.cc:82-105 | Every edge from A is realised by concrete operands, for nonempty operands of one sign. |
| ArithEdges.EdgeShowsB | kernel/celledges.cc:82-105 | Every edge from B is realised by concrete operands, for nonempty operands of one sign. |
| ArithEdges.ArithBinaryOp | kernel/celledges.cc:82-105 | The loop adds every influence, and for nonempty operands of one sign nothing else. |
| ArithEdges.NegNeedsEdge | kernel/celledges.cc:68-80 | An influence of $neg comes from a bit that is not above; the negative of one signed bit is 0 or 1. |
| ArithEdges.ArithNegOp | kernel/celledges.cc:68-80 | The edges of $neg are exactly its influences. |
| ArithEdges.LogicExactA | kernel/celledges.cc:40-66 | Which bit of an operand a bitwise output reads. |
| ArithEdges.BitwiseBinaryOp | kernel/celledges.cc:40-66 | The edges of $and, $or, $xor and $xnor are exactly their influences. |
| DriveBitIds.IdsInjective | kernel/drivertools.cc:558-600 | Different bits have different numbers. |
| DriveBitIds.FoundRange | kernel/drivertools.cc:602-621 | The bit at the greatest stored start not above a number, moved by the difference, is the bit with that number. |
| DriveBitIds.DriverMap.IdFromDriveBit | kernel/drivertools.cc:558-600 | Numbers a bit, reserving its whole wire or port at first sight; no number ever changes. |
| DriveBitIds.DriverMap.DriveBitFromId | kernel/drivertools.cc:602-621 | The exact inverse, for every number handed out. |
| DriveBitIds.DriverMap.RoundTrip | kernel/drivertools.cc:558-621 | Numbering a bit and looking the number up gives the bit back. |
| DriverOrientation.AddEdge | kernel/drivertools.cc:443-450 | Adds exactly one edge to the graph, in whichever of its three stores there is room. |
| DriverOrientation.Clear | kernel/drivertools.cc:480-485 | Removes exactly a bit's outgoing edges. |
| DriverOrientation.SearchDone | kernel/drivertools.cc:790-811 | When the breadth-first search ends it has found exactly the component, with exact distances. |
| DriverOrientation.Discovered | kernel/drivertools.cc:796-809 | A bit found now is one step further than the bit being scanned. |
| DriverOrientation.DriverMap.Component | kernel/drivertools.cc:766-788 | The first search finds exactly the undirected component and its drivers. |
| DriverOrientation.DriverMap.OrientFrom | kernel/drivertools.cc:790-811 | One search adds an edge next -> current exactly where next is one step further from the driver. |
| DriverOrientation.DriverMap.OrientUndirected | kernel/drivertools.cc:758-813 | On every map that connections can build: adds exactly the edges between neighbours that lead one step nearer to a driver of the component, a bit that can drive or has a directed driver, or to any of its bits if it has none. |
| DriverOrientation.DriverMap.ConnectUndirected | kernel/drivertools.cc:646-650 | Stores an ambiguous connection in both directions, and keeps the connections mutual. |
| DriverOrientation.DriverMap.ConnectDirectedMerge | kernel/drivertools.cc:623-639 | The driven bit and what it stood for are represented by the driver, which takes over its directed and undirected connections; the connections stay mutual. |
| DriverOrientation.DriverMap.Add | kernel/drivertools.cc:663-704 | By the modes of the two representatives: only a bit of no mode is merged away, into one that uses no value, which takes over its connections; the one directed connection added leads from the bit whose driver the modes name to that driver; and the connection is ambiguous, in both directions, exactly where the modes name none. Merged bits stay merged and ambiguous connections mutual. |
| DriverOrientation.MutualMerge | kernel/drivertools.cc:623-639 | Merging one representative into another keeps every ambiguous connection present in the reverse direction, between representatives. |
| DriverOrientation.MutualIsSymmetric | kernel/drivertools.h:1171-1175 | So the graph between representatives that the searches walk is symmetric. |
| DriverOrientation.OneDriver | kernel/drivertools.h:1177-1181 | With one driver the edges are exactly those one step nearer to it. |
| DriverOrientation.NeverDouble | kernel/drivertools.h:1177-1181 | No connection is oriented both ways. |
| DriverOrientation.Acyclic | kernel/drivertools.cc:758-813 | No chain of oriented edges returns to its start. |
| DriverOrientation.ReachesDriver | kernel/drivertools.cc:758-813 | In a symmetric graph every bit of the component has a chain of oriented edges to the driver. |
| DriverOrientation.DriverMap.EachReachesDriver | kernel/drivertools.h:1171-1181 | The same in every map that connections have built, where symmetry is an invariant. |
| ComputeGraphs.ComputeGraph.Add | kernel/compute_graph.h:212-218 | A new node without arguments; no other changes. |
| ComputeGraphs.ComputeGraph.AppendArg | kernel/compute_graph.h:141-149 | Extends one node's argument list and no other, in place or after moving the list. |
| ComputeGraphs.ComputeGraph.MoveArgs | kernel/compute_graph.h:172-179 | Moving a list changes no node's arguments. |
| ComputeGraphs.ComputeGraph.CompactArgs | kernel/compute_graph.h:271-282 | Each list starts where the one before it ends, the first at 0, and the vector ends with the last; no list changes. |
| ComputeGraphs.ComputeGraph.Permute | kernel/compute_graph.h:299-331 | Keeps the listed nodes in order, each with its function and its arguments renamed in order, renames every key, and moves every attribute with its node. |
| ComputeGraphs.ComputeGraph.PermuteOnto | kernel/compute_graph.h:284-297 | The same, with the inverse permutation computed from the list. |
| ComputeGraphs.RenameCalls | kernel/compute_graph.h:299-331 | Packing and renaming together give the permuted calls. |
| ForwardBuf.AliasValue | kernel/functional.cc:772-801 | A node and the kept node it stands for have the same value. |
| ForwardBuf.ForwardedSorted | kernel/functional.cc:772-801 | What is left has no buffers and keeps arguments before users. |
| ForwardBuf.ForwardedValue | kernel/functional.cc:772-801 | Each kept node has its old value in the new graph, under every meaning of the functions. |
| ForwardBuf.ForwardKeepsValue | kernel/functional.cc:772-801 | Whatever stands for a node has that node's value. |
| ForwardBuf.Forward | kernel/functional.cc:765-801 | The loop and the permutation produce that graph; no buffer is left, it is still sorted and packed, and each kept node bears the last public name among the nodes it stands for, or their last name if none is public. |
| ForwardBuf.GroupMerged | kernel/functional.cc:765-791 | Merging a buffer's name into its target's keeps the choice of the preferred name. |
| ForwardBuf.ForwardKeepsKeys | kernel/functional.cc:772-801 | Every keyed output and next state keeps its value. |
| FfSemantics.SameTrace | kernel/ff.h:36-58 | Flip-flops that start alike and step alike give the same outputs on every run, whatever wires they drive. |
| FfSemantics.RegisterHolds | kernel/ff.h:36-58 | A step starts from what the last one left in the register, whichever wires of the design the bits drive. |
| FfRewrites.ResetAsLoadSame | kernel/ff.cc:455-463 | A reset is a load of a constant. |
| FfRewrites.ResetAsSetClearSame | kernel/ff.cc:465-480 | A reset is per-bit set and clear lines. |
| FfRewrites.LoadAsSetClearBit | kernel/ff.cc:482-508 | Turning a load into set and clear changes a bit exactly where a reset coincides with a load of the other value. |
| FfRewrites.LoadAsSetClearExact | kernel/ff.cc:482-508 | So the rewrite is right if and only if that never happens. |
| FfRewrites.ReorderedSame | kernel/ff.cc:510-581 | Clock enable and synchronous reset in the other order, with the combined control signal. |
| FfRewrites.WithoutCeSame | kernel/ff.cc:583-602 | A clock enable is a choice between the register and the data. |
| FfRewrites.WithoutSrstSame | kernel/ff.cc:604-622 | A synchronous reset is a choice between its value and the data. |
| FfRewrites.FlippedLinesBit | kernel/ff.cc:799-842 | The rewired set and clear lines of a flipped bit: set and clear trade places, the former clear still wins. |
| FfRewrites.FlippedBit | kernel/ff.cc:786-861 | The flipped register is the register xor the mask, step by step. |
| FfRewrites.FlippedSame | kernel/ff.cc:786-861 | The inverters behind the register hide the flip: start value and every step of the output are as before. |
| FfRewrites.SlicedBit | kernel/ff.cc:336-397 | Bit k of a slice behaves as the bit it was taken from. |
| FfRewrites.RewritesKeepTraces | kernel/ff.cc:455-622 | Each rewrite gives the same outputs on every input trace; the load rewrite if there is no reset. |
| FfRewrites.FfData.ArstToAload | kernel/ff.cc:455-463 | Afterwards there is no asynchronous reset but a load, on the reset's signal and level, of its constant bit by bit; every other input is unchanged, and so is the behaviour. |
| FfRewrites.FfData.ArstToSr | kernel/ff.cc:465-480 | Afterwards there is no asynchronous reset but set and clear lines of its polarity: the reset's signal sets the bits whose reset value is 1 and clears the others, the opposite lines are inactive constants; every other input is unchanged, and so is the behaviour. |
| FfRewrites.FfData.AloadToSr | kernel/ff.cc:482-508 | Afterwards there is no load but set and clear lines that are active exactly where the load was, by the bit's data, for both polarities and for fine and coarse cells; every other input is unchanged, and the behaviour is the same if and only if no reset meets a load of the other value. |
| FfRewrites.FfData.ConvertCeOverSrst | kernel/ff.cc:510-581 | In each of the eight polarity cases, and in the early return, the behaviour stays the same, both inputs stay, and they have the wanted order if both exist. |
| FfRewrites.FfData.UnmapCe | kernel/ff.cc:583-602 | Unmaps a shadowing synchronous reset first; the behaviour stays the same. |
| FfRewrites.FfData.UnmapSrst | kernel/ff.cc:604-622 | Unmaps a shadowing clock enable first; the behaviour stays the same. |
| FfRewrites.FfData.UnmapCeSrst | kernel/ff.h:208-211 | Neither input is left and the behaviour is the same, whichever of them shadowed the other. |
| FfRewrites.FfData.FlipBits | kernel/ff.cc:786-861 | Exactly the chosen bits are inverted in the register, from its initial value on, and inverted again at the output; the controls stay and so does the behaviour. An empty set changes nothing. |
| FfRewrites.FfData.Slice | kernel/ff.cc:336-397 | The new flip-flop has the chosen bits, in the chosen order and with repeats, of every vector that belongs to a present feature, on their old wires, and the same controls. |
| Fmts.RoundTrip | kernel/fmt.cc:32-265 | Reading back what was printed gives the parts in normal form, with their argument split, for every literal, padding character and width; and fails exactly if a UNICHAR part was printed. |
| FmtGrammars.ReadsExactly | kernel/fmt.cc:56-171 | A substitution is read if and only if its text is one of the forms that the grammar spells out (with or without a sign character, options, width, or as a sized UNICHAR) and the arguments suffice; it then means what the grammar says of that form and takes as many arguments as its size says. |
| FmtGrammars.ReadExactly | kernel/fmt.cc:32-178 | A format is read if and only if it is a list of literal characters, braces doubled, and such substitutions whose sizes fit the arguments; it then reads as the parts that list denotes. |
| FmtGrammars.ReadsSpelling | kernel/fmt.cc:56-171 | Every spelled substitution reads as its meaning. |
| FmtGrammars.WasSpelled | kernel/fmt.cc:56-171 | Whatever substitution is read is spelled in one of the forms. |
| Fmts.SignMayBeLeftOut | kernel/fmt.cc:136-151 | For every legal integer part with sign MINUS, the printed substitution without its '-' still reads, wherever it stands in a format, as that part with sign MINUS, and takes exactly its arguments. |
| Fmts.ReadsSizedUnichar | kernel/fmt.cc:86-90 | The form {n:U}, which is never printed, reads as a UNICHAR part of the next n arguments. |
| Fmts.DocumentedExample | docs/source/cell/word_debug.rst:112-113 | The documentation's first example reads as it says, with sign MINUS. |
| Fmts.SpellingMeans | kernel/fmt.cc:208-255 | What is printed of a substitution spells that part, with a space where it has no padding. |
| Fmts.ReadsPart | kernel/fmt.cc:56-171 | A printed substitution reads back as itself and takes exactly its arguments. |
| Fmts.ReadsLiteral | kernel/fmt.cc:39-45 | Text with doubled braces reads as itself. |
| FmtTexts.ReadsNumber | kernel/fmt.cc:60-76 | Digits read back as the number they denote. |
| FmtTexts.DecimalNumber | kernel/fmt.cc:218-218 | A number's decimal text denotes it. |
| Fmts.NormalIsFixed | kernel/fmt.cc:32-265 | Normal lists of parts are unchanged by printing and reading. |
| Fmts.NormalIsNormal | kernel/fmt.cc:32-265 | What comes back is always normal. |
| Fmts.ReadIsNormal | kernel/fmt.cc:32-178 | Whatever is read has nonempty, never adjacent literals and only the fields its kind sets. |
| Fmts.ReadPrintRead | kernel/fmt.cc:32-265 | What was read once, and can be printed, prints and reads back as itself. |
| Fmts.RejectsUnichar | kernel/fmt.cc:203-206 | The form printed for a UNICHAR part has no size, so reading fails. |
| Fmts.Fmt.EmitRtlil | kernel/fmt.cc:180-265 | The loops print the parts one after the other, and list their arguments in that order. |
| Fmts.Fmt.EmitBody | kernel/fmt.cc:217-257 | The text of a substitution is its spelling, and its padding character is a space if the part has none. |
| Fmts.Fmt.ParseRtlil | kernel/fmt.cc:32-178 | Succeeds if and only if the format is written as the grammar allows with sizes that the arguments fit, and then the parts are those it denotes; no sign character counts as MINUS. |
| Fmts.Fmt.ParseSubstitution | kernel/fmt.cc:56-171 | Reads exactly the substitutions of the grammar, as what they mean, and leaves the arguments they do not take. |
| Fmts.Fmt.ParseFlags | kernel/fmt.cc:136-166 | Each sign character sets its sign and is passed; any other character leaves the sign as it is, and reading goes on with the options there. |
| FmtDecimals.RequiredDecimalPlaces | kernel/fmt.cc:267-282 | The text of every value of the size fits the places, and that of some value fills them. |
| FmtDecimals.UnsignedPlaces | kernel/fmt.cc:267-282 | Counting the digits of 2^size, which is one more than any value, is still tight: no power of two is round. |
| FmtDecimals.NegatedMagnitude | kernel/fmt.cc:745-748 | One more bit is enough for the magnitude of every negative value. |
| FmtDecimals.RenderDecimal | kernel/fmt.cc:743-832 | Sign and digits are the value in decimal; when grouped, an underscore precedes each group of three. |
| Maccs.DropRedundant | kernel/macc.h:60-70 | Dropping a repeated sign bit or a leading zero keeps the value. |
| Maccs.ExchangedValue | kernel/macc.h:45-46 | Exchanging the ports keeps a product, but makes an addend of the second port if the first is empty. |
| Maccs.Accumulates | kernel/macc.h:48-57 | A constant term is added modulo 2^width whatever its signedness. |
| Maccs.KeepsExactly | kernel/macc.h:34-83 | Simplifying is right on an input if and only if what the terms with an empty first port add vanishes at the output's width; always if there is no such term. |
| Maccs.MisplacedChanges | kernel/macc.h:34-83 | A concrete product with an empty first port that changes from 0 to 1. |
| Maccs.Macc.Optimize | kernel/macc.h:34-83 | With every constant term defined, keeps the result on every input but for that surplus; an undefined one takes all constants with it and the terms with wires keep their value. Leaves no constant term but the last and no redundant top bit. |
| Maccs.Macc.Eval | kernel/macc.h:263-286 | Known exactly for constant terms; all undefined if an undefined bit is met, in a product any bit, in an addend one below the output's width; otherwise the sum at that width, however the other undefined bits are read. |
| Maccs.EvaluatedNext | kernel/macc.h:263-286 | One round of the evaluation keeps that description. |
| Maccs.Macc.OptimizeConstants | kernel/macc.h:34-83 | A list of constants evaluates to the same before and after simplifying if and only if: with every bit defined, the surplus of misplaced terms vanishes; with an undefined bit met, the output has no bits; with only undefined bits that are not met, the value is 0. |
| Maccs.KeepsConstantsExactly | kernel/macc.h:34-83 | The same of any two lists related as the simplification relates them. |
| Maccs.Macc.Trim | kernel/macc.h:60-70 | The trimming loops cut off top bits only, until the top bit is not a repeated sign bit or a leading zero, and keep the value and what is constant. |
| MaccCells.PartitionTotal | kernel/macc.h:199-261 | Listing products before addends keeps what is computed. |
| MaccCells.PartitionKeepsAll | kernel/macc.h:207-228 | Products and addends together are exactly the terms, as a multiset. |
| MaccCells.PortAt | kernel/macc.h:156-170 | The concatenated port is cut at the right places. |
| MaccCells.FieldReads | kernel/macc.h:160-161 | A 16-bit width field reads back as the width. |
| MaccCells.ToCell | kernel/macc.h:199-261 | The parameters and ports are those of the products and addends: one negation bit, sign bit and 16-bit width for each term, and a single undefined bit where there are none, so no parameter is empty; no term is lost. |
| MaccCells.FromCell | kernel/macc.h:139-197 | Rebuilds the terms from them. |
| MaccCells.RoundTrip | kernel/macc.h:139-261 | Through a cell and back: the same terms, products first, and the same result on every input. |

## Left out

- Hashlib.HashTable: hash functions, the prime table and its exceptions, `sort`, copying and moving; the hash is an arbitrary function of the key, and a bucket count is any positive number that grows enough.
- Hashlib.IndexTable.IndexOf: the deduplication of equal keys is by the equality of the key type.
- UnionFind.Mfp: `promote` and `lookup` by key, which add nothing to the operations on indices; the ranking that shows the links acyclic is a ghost field.
- MemContents.MemContents.InsertConcatenated: an empty constant is excluded, because the source then writes through the end iterator that the reservation of an empty interval returns.
- MemContents.MemContents.ReserveRange: addresses are below the limit as the callers' assertions demand; the address type has 32 bits and its width is at most 31 bits.
- MemLoad.FromMem: inits that do not fit the address space are excluded, which the source asserts through the insertion; a memory of one word is excluded, because its address width is 0, which the constructor asserts against.
- MemInits.Mem.CoalesceInits: attributes of the inits and the bit width of addresses; an address is an integer.
- MemEmit.MemPorts.Compact: ports have only an identity and their masks; the cells that `emit` then builds are not modelled.
- Memory ports: transparency, reset and collision emulation, which need a clocked multi-port semantics.
- Calc.ConstPow: the default result length of 1024 bits for a negative `result_len`; every operation takes its result length.
- Calc.CellEval: one-operand and logic cells other than `$neg`, `$and`, `$or`, `$xor` and `$xnor`, whose semantics is one loop each.
- CellSimplifier.Handle: for `$pow` the claim is restricted to inputs on which `const_pow` is conservative, because it is false on the others; `UndefinedPowers.PowExact` is the exact condition. The power of 0 to a negative exponent, which has no value, is 0 in the lowering and undefined in the evaluator.
- CellSimplifier.HandleDivision: division by zero, which the evaluator leaves undefined, may give any value.
- CellSimplifier.HandleShiftCell: `$shiftx` bits past the operand are undefined in the evaluator and zero in the lowering.
- FunctionalIR: shared nodes are modelled as trees, with the same values; memory nodes, states and outputs are inputs of the expression; `$pmux`, `$fa`, `$lut` and the bitwise cells are not lowered.
- Aigs.AigMaker.Compare: operands of different signedness are excluded, as the cell checker does; a signed port of width 0 has no bit to repeat and is excluded too.
- Aigs.BuildAig: the bitwise, reduction, multiplexer and single-gate cells, which are one gate per bit.
- CellEdges.ShiftOp: a B width above the source's cap of 30, and overflow of its C integers for operands of about 2^30 bits; the parameters are those the cell checker admits (kernel/rtlil.cc:1828-1850).
- ArithEdges.ArithBinaryOp: for an empty operand or operands of different signedness only the direction that matters for correctness is proved: no influence is missing.
- ArithEdges.BitwiseBinaryOp: operands of one signedness and at least one bit, on defined bits.
- Edges of reductions, comparisons, multiplexers, memories and flip-flops: each is every input bit of a port, or one bit.
- DriverOrientation.DriverMap.OrientUndirected: the cached `oriented_present` is not consulted before a search, as in the source, where the callers do that.
- DriverOrientation.DriverMap.Add: the modes of the bits are an arbitrary function, and `same_driver` is the map from merged bits to their representatives that `UnionFind` proves `mfp` to keep; connections of vectors are connections of their bits.
- DriverOrientation.AddEdge: the three stores of a graph are a value that the operation returns; `pop_edge` is not used and not modelled.
- DriveBitIds.DriverMap.IdFromDriveBit: marker bits; the source's test for a single-bit port at offset 0 compares the next free number, which starts at 6, with 0 and so never holds, and the model follows it.
- DriverMap::add over a module, and the queries built on it: they rest on the ownership code of modules and cells, which is not part of this model.
- ForwardBuf.Forward: every name is public or generated, as the identifier class demands; the order comes from `topological_sort`, whose component search is in a header that is not part of this model; that the graph is sorted is a hypothesis.
- ComputeGraphs.ComputeGraph: attributes other than the sparse one, which move with their nodes.
- FfRewrites: signals are two-valued, so undefined bits in reset and initial values, and the handling of `val_init` by the init-value bookkeeping, are not modelled; new gates are expressions; cells are not emitted.
- FfRewrites.FfData: the has, polarity and signal fields of one control input are one record field, and likewise those of the set and clear lines.
- FfRewrites.FfData.AloadToSr: with a reset present the traces may differ, exactly as `LoadAsSetClearExact` says.
- Fmts.RoundTrip: numbers are unbounded, so sizes and widths beyond the machine word are not modelled.
- FmtDecimals.RenderDecimal: undefined bits, the plus and space sign modes, base prefixes, zero padding with grouping, and padding to the width.
- Fmt: `parse_verilog`, `emit_verilog`, and rendering of binary, octal, hexadecimal and text parts.
- MaccCells.RoundTrip: ports of 65536 bits or more, whose width does not fit its field; the older `$macc` form.
- BitPattern.BitPatternPool: patterns are compared by their bits; the cached hash of a pattern is an arbitrary function of it.
