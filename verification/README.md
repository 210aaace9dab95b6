# Verified models of ObelISK

This project models the parts of ObelISK whose correctness is hard to see and proves that they do
what the rest of the system relies on. `dafny verify dfyconfig.toml` checks all of it.

**The TLSF allocator** (`obelisk/core/libc/tlsf.c`), on its 32-bit target. The pool is a class over
word-addressed memory: headers, link words and area records are memory words, and the matrix, both
bitmap levels and the area list are fields. Ghost state says which blocks, areas and free lists the
memory stands for, and `Valid()` ties the two together. Every operation is an imperative method; its
contract speaks of the live allocations and their contents (`Allocations()`). `Valid()` also holds of
pools in which a header has lost the remark that its predecessor is free, as `add_new_area` may leave
them; `Tight` says that none has, and then free neighbours are always joined.

- `TlsfBits`, `TlsfMapping`: `ms_bit`, `ls_bit` and the two size mappings.
- `TlsfBlocks`: physical blocks tiling the areas, and the elementary changes to them.
- `TlsfLists`: the doubly linked free lists in memory and the bitmaps over the matrix.
- `TlsfState`: how memory words stand for headers, and what writes leave alone.
- `TlsfAreas`, `TlsfMerge`, `TlsfProgress`: fresh areas, joining them, the pass of `add_new_area`.
- `Tlsf`: the class `Pool` with `Malloc`, `Free`, `Realloc`, `InitMemoryPool`, `AddNewArea`.
- `TlsfWalk`, `TlsfRun`: what a valid pool looks like, and whole runs against an ideal heap.
- `TlsfGap`: a run after which two free blocks lie side by side.

**Kconfig expressions** (`obelisk/scripts/kconfig/expr.c`): `KconfigExpr` (values, equality),
`KconfigEqual` (what counts as equal), `KconfigTransform` (normal form, comparisons), `KconfigJoin`,
`KconfigReduced` (superfluous operands), `KconfigDups` (their elimination), `KconfigPrint` (printing and
reading back, by tokens), `KconfigParens` (parentheses), `KconfigText` (the same by characters, with the
lexer). An assignment gives every symbol a tristate and a text; booleans are never m. The passes over
pairs of operands work on one expression and name an operand by the way to it, so that both arguments
may lie in the same expression, as in the source.

**Smaller parts**: `SymbolDeps` (recursive dependencies), `Heap` (timer heap), `Numerals` and `NumeralText`
(`strtoul`, `strtol`, `__ltostr`), `ConfString` (string values in configuration files), `Options` (a shared
datatype).

## Findings

The code is modelled as it is. Where it does less than one would expect, the exact condition is proved.

- `add_new_area` leaves two neighbouring free blocks unjoined exactly when the area before the new one
  ends with a free block and precedes, in the area list, the area behind the new one: the second merge
  writes `PREV_USED` over the flag that the first one kept (`Tlsf.Pool.AddNewArea`). Three additions to
  a fresh pool are enough for that (`TlsfGap.LoseFlag`). Allocations do not suffer from it: every run,
  such additions included, keeps them apart with their contents (`TlsfRun.Run`), and `malloc_ex`,
  `free_ex` and `realloc_ex` work on and lose no further flag.
- What `add_new_area` returns is the length of the free block from the new area's block on, not from
  its start, if it was joined with a free block before it.
- `init_memory_pool` stays inside the pool exactly when the pool size is 0 to 3 modulo 8, because the
  start of the first area is rounded and its length is not (`TlsfAreas.FirstAreaFits`). For a pool that
  carries the signature already it returns the size of an information block.
- The class of a search is in the matrix exactly for requests up to 0x3F000000 and from 0xFC000041 on,
  where the sum of `MAPPING_SEARCH` wraps and the rounded size is 0. So it is in the matrix with a size
  that covers the request exactly up to 0x3F000000 (`TlsfMapping.SearchInMatrix`).
- `expr_eliminate_dups` may turn m into n or y, but never changes a definite value, under any
  assignment (`KconfigDups.EliminateDups`, `KconfigDups.ContradictionValue`). Expressions that
  are m and become n or y are given (`KconfigDups.MaybeDecided`).
- `expr_eq` takes expressions without constants for equal exactly when they are the same up to order and
  grouping of operands (`KconfigEqual.ExprEqExact`). Constants other than m are never cancelled, so that a
  conjunction or disjunction of two quoted constants is not equal to itself
  (`KconfigEqual.ConstantsMatter`).
- `expr_trans_compare` compares with y or n not the value of an expression, but its value with bare
  symbols that are m read as the other of the two; it is right exactly when that makes no difference to
  the comparison (`KconfigTransform.TransCompareExact`). So it is wrong at !FOO and right at !!FOO and
  !(!FOO && BAR) for FOO=m and BAR=y (`KconfigTransform.TransComparePair`,
  `KconfigTransform.TransCompareInner`).
- `expr_trans_bool` turns definite values into m where m gets through from a rewritten FOO!=n; with m
  promoted to y it is right exactly for the expressions that are not n or are not reached by such an m
  (`KconfigTransform.TransBoolRight`). So it is wrong at !(FOO!=n) exactly for FOO=m, and never at
  !!(FOO!=n) (`KconfigTransform.TransBoolNot`).
- `expr_print` drops the quotes of constants. The lexer reads the printed text as it was meant exactly when
  all names are single words (`KconfigText.LexedExact`); STR="a b" becomes a syntax error
  (`KconfigText.SpacesMatter`). With single words, an expression comes back, up to grouping, exactly when
  its symbols are those that their bare names stand for (`KconfigText.ReadBack`); its value is kept also
  for constants whose names are not declared (`KconfigText.ReadBackValue`), and may change otherwise
  (`KconfigText.QuotesMatter`).
- A string value survives the configuration file exactly when it has no newline and its line, up to the
  closing quote, is at most 1023 characters long (`ConfString.WrittenThenRead`).

## Model

| member | source | states |
|---|---|---|
| TlsfBits.TableIsLogarithm | obelisk/core/libc/tlsf.c:255-280 | every entry of the 256-entry table is the floor of the binary logarithm, and entry 0 is -1 |
| TlsfBits.MsBit | obelisk/core/libc/tlsf.c:291-298 | for a non-zero 32-bit number the result k satisfies 2^k <= x < 2^(k+1) |
| TlsfBits.LsBit | obelisk/core/libc/tlsf.c:282-289 | x & -x and the table give the position of the lowest set bit; no set bit is below it |
| TlsfMapping.MappingInsert | obelisk/core/libc/tlsf.c:330-340 | the size lies between the floor and the ceiling of its class, and the class is in the matrix exactly for sizes below 2^30 |
| TlsfMapping.MappingSearch | obelisk/core/libc/tlsf.c:310-328 | for every 32-bit request: up to 0xFC000000 the rounded size is the floor of its class, not below the request, and exceeds it by less than 1/32; beyond, where the sum wraps, it is 0, and the class is in the matrix again from 0xFC000041 on |
| TlsfMapping.ClassesOrdered | obelisk/core/libc/tlsf.c:330-340 | classes in matrix order hold sizes in order |
| TlsfMapping.SearchExact | obelisk/core/libc/tlsf.c:310-340 | a block falls into the class of the search or a later one if and only if it has at least the rounded size |
| TlsfMapping.SearchInMatrix | obelisk/core/libc/tlsf.c:704-707 | for every 32-bit request: the class of the search is in the matrix if and only if the request is at most 0x3F000000 or at least 0xFC000041; beyond 0xFC000000 the rounded size is 0; in the matrix and large enough exactly up to 0x3F000000 |
| TlsfMapping.RequestWraps | obelisk/core/libc/tlsf.c:148-148 | the last seven 32-bit request sizes are rounded to 0 |
| TlsfBlocks.UseTiled | obelisk/core/libc/tlsf.c:748-751 | marking a free block used keeps the areas tiled and the boundary tags right |
| TlsfBlocks.ReleaseTiled | obelisk/core/libc/tlsf.c:788-793 | marking a block free keeps the tiling, if it follows no free block and comes before none, or the remark about that is lost |
| TlsfBlocks.JoinTiled | obelisk/core/libc/tlsf.c:771-787 | adding the next block to a block keeps the tiling |
| TlsfBlocks.SplitTiled | obelisk/core/libc/tlsf.c:735-747 | cutting a block in two keeps the tiling |
| TlsfBlocks.NewAreaTiled | obelisk/core/libc/tlsf.c:429-448 | a fresh area on memory of its own keeps the tiling |
| TlsfBlocks.BridgeTiled | obelisk/core/libc/tlsf.c:528-567 | two touching areas become one, the sentinel between them a block over the second area's first block |
| TlsfLists.UnlinkLinked | obelisk/core/libc/tlsf.c:376-391 | taking a block out of the middle, the head or the end of its list keeps all lists doubly linked and complete |
| TlsfLists.LinkLinked | obelisk/core/libc/tlsf.c:393-401 | putting a block at the head of a list keeps all lists doubly linked and complete |
| TlsfLists.FreeListExact | obelisk/core/libc/tlsf.c:362-401 | following the links from a head visits exactly the listed blocks of that class, each once |
| TlsfLists.EmptiedBitmaps | obelisk/core/libc/tlsf.c:362-391 | clearing bits when a list empties keeps both bitmap levels exact |
| TlsfLists.FilledBitmaps | obelisk/core/libc/tlsf.c:398-400 | setting bits when a list is filled keeps both bitmap levels exact |
| TlsfLists.FindSuitableFirst | obelisk/core/libc/tlsf.c:343-359 | the bitmap search finds the first non-empty list at or after the given class, and fails exactly if there is none |
| TlsfState.SearchIsScan | obelisk/core/libc/tlsf.c:343-359 | the bitmap search fails exactly when a scan of all free blocks finds none of the rounded size, and otherwise finds a list head of at least that size such that no other such block is of a smaller class |
| TlsfState.Decode | obelisk/core/libc/tlsf.c:152-161 | size, free bit and previous-free bit are read back from a size word as they were put in |
| TlsfState.AllocatedView | obelisk/core/libc/tlsf.c:732-752 | serving a request adds one allocation and leaves the contents of all others and the area list alone |
| TlsfState.FreedView | obelisk/core/libc/tlsf.c:758-794 | freeing removes one allocation and leaves the contents of all others and the area list alone |
| TlsfState.ResizedPrefix | obelisk/core/libc/tlsf.c:821-868 | resizing in place keeps the first bytes up to the smaller of both sizes |
| TlsfAreas.FirstAreaFits | obelisk/core/libc/tlsf.c:489-490 | the first area stays inside the pool if and only if the pool size is 0 to 3 modulo 8 |
| TlsfAreas.NewAreaSound | obelisk/core/libc/tlsf.c:429-448 | the words written by process_area stand for a tiled area whose sentinel header alone is ahead of its time |
| Tlsf.Pool.ExtractBlockHdr | obelisk/core/libc/tlsf.c:362-373 | the head leaves its list; lists and bitmaps stay in agreement and only link words of listed blocks change |
| Tlsf.Pool.ExtractBlock | obelisk/core/libc/tlsf.c:376-391 | any listed block leaves its list, with the same guarantees |
| Tlsf.Pool.InsertBlock | obelisk/core/libc/tlsf.c:393-401 | a block enters the list of its class, with the same guarantees |
| Tlsf.Pool.Release | obelisk/core/libc/tlsf.c:758-794 | after coalescing with both neighbours the freed extent is one free block, filed and announced to the block behind it, even if other headers are not right yet; the freed header still tells how far that block goes from there |
| Tlsf.Pool.Allocate | obelisk/core/libc/tlsf.c:732-752 | the head of a list is served whole or split, the rest is filed, all headers are right, and less than a smallest block is given away |
| Tlsf.Pool.Malloc | obelisk/core/libc/tlsf.c:696-755 | NULL exactly when a scan finds no free block of the rounded size, and then nothing changes; otherwise one new allocation out of a fitting block of the smallest class, of the rounded size exactly unless the rest is too small for a block, all others with their contents, invariant kept; no remark is lost |
| Tlsf.Pool.Free | obelisk/core/libc/tlsf.c:758-794 | NULL does nothing; otherwise exactly that allocation disappears, all others keep their contents, invariant kept; no remark is lost |
| Tlsf.Pool.Shrink | obelisk/core/libc/tlsf.c:821-844 | the block is cut to the size, together with a free successor, unless the rest is too small for a block, and the rest is filed again |
| Tlsf.Pool.Grow | obelisk/core/libc/tlsf.c:845-868 | the block takes in its free successor, is cut to the size unless the rest is too small for a block, and the rest is filed again |
| Tlsf.Pool.ResizeInPlace | obelisk/core/libc/tlsf.c:817-868 | succeeds exactly when the block, or the block with its free successor's payload, has the size; the new size is determined; contents kept, other allocations untouched |
| Tlsf.Pool.Copy | obelisk/core/libc/tlsf.c:874-876 | the first words of one allocation become those of another, nothing else changes |
| Tlsf.Pool.Realloc | obelisk/core/libc/tlsf.c:797-880 | all four cases of pointer and size; NULL for a non-zero size exactly when the block cannot grow and a scan finds nothing, and then nothing changes; the pointer stays exactly when the block can hold the size where it is, and the block is then cut to size; otherwise it moves to a new allocation as `malloc_ex` makes it; the contents up to the smaller size survive, and all other allocations keep theirs; no remark is lost |
| Tlsf.Pool.ProcessArea | obelisk/core/libc/tlsf.c:429-448 | an information block, one block and a sentinel; nothing outside the area changes |
| Tlsf.Pool.InitMemoryPool | obelisk/core/libc/tlsf.c:457-501 | -1 and no change for the rejected cases; no change for a pool with the signature; otherwise a valid pool without allocations, one area in the list and one free block whose size is returned, inside the given memory exactly if its size is 0 to 3 modulo 8 |
| Tlsf.Pool.MergeAfter | obelisk/core/libc/tlsf.c:528-545 | the new area and the one behind it become one area, the list loses the latter, allocations keep their contents |
| Tlsf.Pool.MergeBefore | obelisk/core/libc/tlsf.c:549-567 | the area before and the new one become one area, with the previous-free flag kept |
| Tlsf.Pool.JoinAreas | obelisk/core/libc/tlsf.c:522-570 | the loop over the list joins the new area with every area that touches it; the list is the old one in its order without those, and it is known where the block to be freed starts and how far it will go |
| Tlsf.Pool.AddNewArea | obelisk/core/libc/tlsf.c:504-579 | the invariant holds and all allocations keep their contents; the areas cover the old ones and the new one exactly; the list is the new area followed by the others in their order without those joined; the result is the length of the free extent from the new block on; free neighbours are left unjoined in the flag-losing order and, if they were all joined before, only then |
| TlsfMerge.FusedNextTiled | obelisk/core/libc/tlsf.c:537-542 | the first merge keeps the tiling |
| TlsfMerge.FusedPrevTiled | obelisk/core/libc/tlsf.c:558-564 | the second merge keeps the tiling |
| TlsfMerge.StepView | obelisk/core/libc/tlsf.c:528-567 | writes to headers and area records reach no payload of a live allocation |
| TlsfMerge.ForgetTiled | obelisk/core/libc/tlsf.c:537-539 | a lost remark leaves the tiling valid in its weaker form |
| TlsfMerge.LeftLost | obelisk/core/libc/tlsf.c:537-539 | once the flag is lost, memory shows two neighbouring free blocks, the second denying the first |
| TlsfProgress.ExtendedExact | obelisk/core/libc/tlsf.c:519-579 | joined areas contain a byte exactly if an old area or the new one does, and no two areas touch |
| TlsfProgress.ProgressDone | obelisk/core/libc/tlsf.c:522-570 | after the pass the areas are those joined with all that touch the new one, and the flag is lost exactly in the order described |
| TlsfProgress.ExtentDone | obelisk/core/libc/tlsf.c:522-570 | after the pass the block to be freed starts at the new area's block or the sentinel before it, and ends behind the new area or behind the free block that follows |
| TlsfGap.AddApart | obelisk/core/libc/tlsf.c:504-579 | an area that touches no other becomes an area of its own at the head of the list |
| TlsfGap.GapLosesFlag | obelisk/core/libc/tlsf.c:528-567 | in a pool without allocations the gap between two areas, of which the earlier one was added last, is in the flag-losing order |
| TlsfGap.AddThree | obelisk/core/libc/tlsf.c:504-579 | in any pool without allocations, an area, one before it and the gap between them leave two free blocks side by side |
| TlsfGap.LoseFlag | obelisk/core/libc/tlsf.c:457-579 | the same from the initialisation of a pool on |
| TlsfWalk.WalkVisits | obelisk/core/libc/tlsf.c:146-146 | following headers from a block visits exactly the later blocks of its area |
| TlsfWalk.WalkAscends | obelisk/core/libc/tlsf.c:146-146 | in the order of their addresses, so none twice |
| TlsfWalk.WalkBytes | obelisk/core/libc/tlsf.c:429-448 | conservation: headers and payloads from a block to the sentinel add up to the bytes in between |
| TlsfWalk.AllFreed | obelisk/core/libc/tlsf.c:768-793 | an area without live allocations and lost remarks is one free block over all of its room |
| TlsfWalk.HeadersExact | obelisk/core/libc/tlsf.c:768-793 | in memory, the header behind a block says that the block is free and where it starts only if that is so; unless it has lost that remark, it says so whenever it is so, and its own block is not free then |
| TlsfWalk.FreeBlocksListed | obelisk/core/libc/tlsf.c:362-401 | each list holds exactly the free blocks whose size MAPPING_INSERT maps to it, once |
| TlsfWalk.LiveApart | obelisk/core/libc/tlsf.c:732-755 | live allocations do not overlap, headers included |
| TlsfRun.ValidTiling | obelisk/core/libc/tlsf.c:429-448 | in every valid pool the blocks of an area follow each other up to the sentinel and account for every byte |
| TlsfRun.ValidLists | obelisk/core/libc/tlsf.c:343-401 | in every valid pool the lists are exact and both bitmap levels tell which are empty |
| TlsfRun.ValidHeaders | obelisk/core/libc/tlsf.c:152-161 | in every valid pool what the boundary tags say is so, and without lost remarks they say all of it |
| TlsfRun.ValidLive | obelisk/core/libc/tlsf.c:704-755 | in every valid pool live allocations lie in an area behind its first block |
| TlsfRun.Perform | obelisk/core/libc/tlsf.c:504-880 | one client operation on the pool, extension by an area included, is one step of an ideal heap of separate buffers, in which only the named buffer changes and buffers are of the rounded size or cut to size; only extensions change the areas, and only those that fill a gap in the order of the list can lose a remark |
| TlsfRun.Run | obelisk/core/libc/tlsf.c:504-880 | every run is a run of the ideal heap, with separate buffers after every step; the areas and their list are those that the extensions make; no remark is lost unless an extension fills a gap in the order of the list, and without lost remarks each area is one free block when nothing is held any more |
| TlsfRun.AlwaysSeparate | obelisk/core/libc/tlsf.c:732-755 | in every valid pool, lost remarks or not, live allocations do not overlap |
| TlsfRun.Session | obelisk/core/libc/tlsf.c:457-501 | the same from initialisation on; after a run without extensions that ends with everything freed, the one free block has the size it had at first |
| KconfigExpr.EliminateYn | obelisk/scripts/kconfig/expr.c:235-316 | the result has no more nodes than the argument |
| KconfigExpr.EliminateYnValue | obelisk/scripts/kconfig/expr.c:235-316 | the value is preserved under every assignment |
| KconfigExpr.NoneLeft | obelisk/scripts/kconfig/expr.c:235-316 | no operand y or n is left, and without any nothing changes |
| KconfigExpr.ShrinkableShrinks | obelisk/scripts/kconfig/expr.c:632-634 | an operand y or n makes the result strictly smaller |
| KconfigExpr.CancelSound | obelisk/scripts/kconfig/expr.c:135-166 | cancelling leaves both sides inside a common context |
| KconfigExpr.EliminateEqSound | obelisk/scripts/kconfig/expr.c:168-188 | if what is left on both sides has the same value, so have the originals |
| KconfigExpr.ExprEqSound | obelisk/scripts/kconfig/expr.c:193-233 | expressions taken for equal have the same value under every assignment; the mutual recursion ends |
| KconfigEqual.CancelExact | obelisk/scripts/kconfig/expr.c:135-166 | without constants: cancelling leaves on each side exactly the operands, with multiplicity, that it has more of than the other |
| KconfigEqual.EliminateEqExact | obelisk/scripts/kconfig/expr.c:168-188 | without constants, for any two expressions: exactly the operands in common go, and the unit is left if and only if all operands are among those of the other side |
| KconfigEqual.ExprEqExact | obelisk/scripts/kconfig/expr.c:193-233 | without constants, two expressions count as equal if and only if they are the same up to order and grouping of operands, at all levels |
| KconfigEqual.ConstantsMatter | obelisk/scripts/kconfig/expr.c:147-149 | an operator over two quoted constants does not count as equal to itself |
| KconfigTransform.Transform | obelisk/scripts/kconfig/expr.c:640-775 | the weight in which a negation doubles does not increase, so that re-entering after De Morgan's laws ends |
| KconfigTransform.TransformValue | obelisk/scripts/kconfig/expr.c:640-775 | the value is preserved under every assignment |
| KconfigTransform.TransformNormal | obelisk/scripts/kconfig/expr.c:640-775 | negation only before symbols that are not built in, and no boolean compared with y, m or n |
| KconfigTransform.TransformTwice | obelisk/scripts/kconfig/expr.c:640-775 | a second pass changes nothing |
| KconfigTransform.TransformOnce | obelisk/scripts/kconfig/expr.c:640-775 | the rewriting, which enters again after each law, gives what one pass with a flag for negation gives |
| KconfigTransform.TransBoolBlurs | obelisk/scripts/kconfig/expr.c:321-345 | the value of the rewritten expression: m where m gets through from a rewritten comparison whose symbol is m, the old value elsewhere |
| KconfigTransform.TransBoolRight | obelisk/scripts/kconfig/expr.c:321-345 | with m promoted to y the value is preserved if and only if it is not n or no such m gets through |
| KconfigTransform.TransBoolValue | obelisk/scripts/kconfig/expr.c:321-345 | so it is right in negation normal form, under every assignment |
| KconfigTransform.TransBoolNot | obelisk/scripts/kconfig/expr.c:325-339 | !(FOO!=n) is right if and only if FOO is not m, and !!(FOO!=n) always |
| KconfigTransform.TransCompareReads | obelisk/scripts/kconfig/expr.c:881-940 | for every expression, what is compared with y or n is the value with every bare symbol read as one of the two, by its text |
| KconfigTransform.TransCompareExact | obelisk/scripts/kconfig/expr.c:881-940 | for every expression, the comparison is right if and only if that reading makes no difference to it |
| KconfigTransform.TransCompareInner | obelisk/scripts/kconfig/expr.c:912-913 | for FOO=m and BAR=y it is right at !(!FOO && BAR), although the negated expression is m |
| KconfigTransform.TransComparePair | obelisk/scripts/kconfig/expr.c:912-913 | for FOO=m it is right at !!FOO and wrong at !FOO |
| KconfigTransform.NotFreeRight | obelisk/scripts/kconfig/expr.c:881-940 | it is right for expressions over booleans and tristates without negation, under every assignment |
| KconfigTransform.DefiniteRight | obelisk/scripts/kconfig/expr.c:942-981 | it is right for all expressions over booleans and tristates under assignments without m |
| KconfigJoin.JoinValue | obelisk/scripts/kconfig/expr.c:350-506 | a joined operand has the value of the two operands together, under every assignment |
| KconfigJoin.ExtractEqSound | obelisk/scripts/kconfig/expr.c:830-879 | both expressions are what they have in common together with what is left of them |
| KconfigReduced.JoinExact | obelisk/scripts/kconfig/expr.c:350-506 | two operands are joined if and only if they are alike or one of the listed pairs about one boolean or tristate |
| KconfigReduced.ExtractAll | obelisk/scripts/kconfig/expr.c:830-879 | without constants, nothing is left of an expression if and only if all its operands are among those of the other |
| KconfigDups.Dups1 | obelisk/scripts/kconfig/expr.c:508-558 | no growth, unchanged if nothing was counted, and otherwise an operand y or n is left; the recursion over aliased operands ends |
| KconfigDups.Dups1Value | obelisk/scripts/kconfig/expr.c:508-558 | the value is preserved under every assignment |
| KconfigDups.Dups2 | obelisk/scripts/kconfig/expr.c:560-614 | as for the first pass, with the comparison against inner nodes that the missing return causes |
| KconfigDups.ContradictionValue | obelisk/scripts/kconfig/expr.c:578-611 | replacing a contradicting operand decides the whole, and changes its value if and only if that was m |
| KconfigDups.Dups2Settles | obelisk/scripts/kconfig/expr.c:560-614 | definite values are kept under every assignment |
| KconfigDups.FinishedReduced | obelisk/scripts/kconfig/expr.c:508-614 | if neither pass rewrites anything, then at every level no two operands are alike or make up one of the listed pairs, and no compound operand is refuted by the others |
| KconfigDups.EliminateDups | obelisk/scripts/kconfig/expr.c:616-638 | the loop ends and keeps definite values under every assignment; in the result no two operands at any level are alike or make up one of the listed pairs, no compound operand is refuted by the others, and without constants before there are none after, unless the whole is y or n |
| KconfigDups.KeepsDefinite | obelisk/scripts/kconfig/expr.c:616-638 | without m the value is preserved exactly |
| KconfigDups.ContraryFires | obelisk/scripts/kconfig/expr.c:560-614 | the second pass reaches a contradiction between an operand and two later ones and decides the whole |
| KconfigDups.MaybeDecided | obelisk/scripts/kconfig/expr.c:579-634 | "FOO or BAR, and not FOO and not BAR" becomes n and "FOO and BAR, or not FOO or not BAR" becomes y in one round, although they can be m |
| KconfigPrint.PrintedThenRead | obelisk/scripts/kconfig/expr.c:1015-1079 | reading back a printed expression gives the same operands grouped to the left, with equal value under every assignment |
| KconfigPrint.ReadOr | obelisk/scripts/kconfig/zconf.tab.c:1657-1695 | the grammar reads the minimally parenthesised body of any expression, whatever follows it |
| KconfigPrint.TokensBack | obelisk/scripts/kconfig/expr.c:983-1079 | for all symbols: what the tokens are read back as, and that it is the original up to grouping if and only if bare names stand for the symbols |
| KconfigParens.PrintedParentheses | obelisk/scripts/kconfig/expr.c:983-1079 | one pair of parentheses for every operator directly below ! and every disjunction directly below a conjunction, and no other |
| KconfigParens.FewestParentheses | obelisk/scripts/kconfig/expr.c:983-1079 | whatever the grammar reads as the same expression, up to grouping, has at least as many |
| KconfigText.TextSpelled | obelisk/scripts/kconfig/expr.c:1015-1079 | the text is the tokens one after the other, with blanks around the two operators only |
| KconfigText.LexedWords | obelisk/scripts/kconfig/lex.zconf.c:1058-1190 | every word that the lexer finds in any text is one: not empty, of letters, digits, _, -, / and ., no keyword and not three dashes |
| KconfigText.LexedExact | obelisk/scripts/kconfig/expr.c:1015-1079 | the text that is printed is lexed into the tokens it stands for if and only if all names are such words |
| KconfigText.ReadBack | obelisk/scripts/kconfig/expr.c:983-1079 | with such names, by characters: what is read back, and that it is the original up to grouping if and only if bare names stand for the symbols |
| KconfigPrint.SameMeaningExact | obelisk/scripts/kconfig/expr.c:1025-1047 | a bare name means the same as the symbol under every assignment if and only if it stands for it or is an undeclared constant's |
| KconfigText.ReadBackValue | obelisk/scripts/kconfig/expr.c:983-1079 | with such names, if bare names mean the same, what is read back has the same value under every assignment |
| KconfigText.QuotesMatter | obelisk/scripts/kconfig/expr.c:1025-1047 | STR="FOO" with FOO a declared boolean is y and is read back as n |
| KconfigText.SpacesMatter | obelisk/scripts/kconfig/expr.c:1035-1039 | STR="a b", with any two words, is a syntax error without its quotes |
| SymbolDeps.Checker.CheckDeps | obelisk/scripts/kconfig/symbol.c:790-829 | flags are restored, a finished symbol comes after all it depends on or is on a report, and a symbol handed upwards lies on the path under examination |
| SymbolDeps.Checker.CheckExpr | obelisk/scripts/kconfig/symbol.c:760-788 | all symbols of an expression are dealt with, or a cycle is being reported |
| SymbolDeps.Checker.CheckAll | obelisk/scripts/kconfig/zconf.tab.c:1962-1964 | every report names a true cycle without repetitions, no symbol is on two reports, every cycle meets a reported one, and so something is reported if and only if there is a cycle; the search ends on every graph |
| SymbolDeps.OrderedAcyclic | obelisk/scripts/kconfig/symbol.c:790-829 | an order in which dependencies come first, some symbols apart, leaves no cycle that does not meet those |
| Heap.Heap.Insert | obelisk/core/libc/heap.c:55-64 | heap order and sentinel kept, the node added to the multiset |
| Heap.Heap.GetMin | obelisk/core/libc/heap.c:71-77 | -1 for the empty heap, otherwise the least key |
| Heap.Heap.Extract | obelisk/core/libc/heap.c:84-116 | nothing for the empty heap; otherwise the item of a node of least key, which alone leaves the multiset |
| Heap.Heap.Drain | obelisk/core/libc/heap.c:84-116 | extracting until empty gives all nodes in the order of their keys |
| Heap.RisingStep | obelisk/core/libc/heap.c:60-61 | a step up keeps heap order around the hole and the nodes, and stops at the sentinel at the latest |
| Heap.SinkingStep | obelisk/core/libc/heap.c:100-110 | a step down to the smaller child keeps heap order around the hole and the nodes |
| Numerals.SplitStep | obelisk/core/libc/stdlib.c:91-95 | adding a digit in two parts is exact, and the high part exceeds 24 bits exactly if the number exceeds 32 |
| Numerals.Accumulate | obelisk/core/libc/stdlib.c:84-98 | the loop stops at the first character that is no digit, with the number, or with the overflow flag exactly if it does not fit |
| Numerals.StrToUL | obelisk/core/libc/stdlib.c:51-109 | result and end pointer are those of Read, which the following rows characterise for every string and base |
| NumeralText.ReadNumeral | obelisk/core/libc/stdlib.c:51-136 | spaces, a sign, a prefix and digits, whatever follows: strtoul gives the number, saturated or negated modulo 2^32, strtol the number with its sign brought into the range of a long, both with the end behind the digits; 0x counts in bases 16 and 0, a leading 0 means base 8 in base 0, and 10 otherwise |
| NumeralText.ReadNothing | obelisk/core/libc/stdlib.c:99-102 | without a digit behind spaces and sign: 0, and the end is the start |
| NumeralText.ReadInvalid | obelisk/core/libc/stdlib.c:69-73 | another base: 0, and the end is not set |
| NumeralText.AllStrings | obelisk/core/libc/stdlib.c:58-83 | every string is of one of these forms |
| NumeralText.UnsignedExact | obelisk/core/libc/stdlib.c:103-108 | the saturated or negated number: ULONG_MAX beyond it, and otherwise the number itself, or what adds up with it to 0 modulo 2^32 |
| NumeralText.ClampNearest | obelisk/core/libc/stdlib.c:128-135 | the range of a long is kept by taking the nearest long |
| Numerals.ReadDigits | obelisk/core/libc/stdlib.c:84-108 | a digit string of any length in base 2 to 36 is read completely: its value if it fits, ULONG_MAX otherwise |
| Numerals.StrToL | obelisk/core/libc/stdlib.c:113-136 | for every string: spaces, a sign, a prefix and digits; the number with its sign, whatever its size, is brought into the range of a long, and the end is behind the digits; 0 and the start without a digit |
| Numerals.ReadNegative | obelisk/core/libc/stdlib.c:122-135 | digits with a minus are read as the nearest 32-bit number |
| Numerals.ReadPositive | obelisk/core/libc/stdlib.c:122-135 | and so are digits without |
| Numerals.LToStr | obelisk/core/libc/stdarg.c:67-95 | the low digits that fit, and a zero behind them; in base 1 zeros fill the room |
| Numerals.PrintedThenRead | obelisk/core/libc/stdarg.c:67-95 | every 32-bit number in every base from 2 to 36 and both cases of letters is read back from its digits |
| Numerals.DigitsForm | obelisk/core/libc/stdarg.c:84-90 | digits and letters of the asked case only, and no zero in front but for the number 0 |
| Numerals.DigitsFit | obelisk/core/libc/stdarg.c:84-90 | 32 digits are enough for every 32-bit number in every base |
| Numerals.PrintAndRead | obelisk/core/libc/stdarg.c:67-95 | strtoul on the buffer that __ltostr has filled gives the number back and stops at the final zero, for every buffer with room for the digits, such as 33 bytes |
| ConfString.WriteValue | obelisk/scripts/kconfig/confdata.c:455-469 | the loop puts a backslash before every quote and backslash and changes nothing else |
| ConfString.ReadValue | obelisk/scripts/kconfig/confdata.c:206-216 | the loop in place yields the value up to the right closing quote, or fails exactly if there is none |
| ConfString.EscapeThenUnquote | obelisk/scripts/kconfig/confdata.c:203-222 | reading undoes writing, whatever follows the closing quote |
| ConfString.ReadSpelling | obelisk/scripts/kconfig/confdata.c:203-222 | any way of writing a value with backslashes is read as that value |
| ConfString.OnlySpellings | obelisk/scripts/kconfig/confdata.c:203-222 | and whatever is read is written in such a way |
| ConfString.EscapeShortest | obelisk/scripts/kconfig/confdata.c:455-469 | the way in which values are written is the shortest |
| ConfString.WrittenThenRead | obelisk/scripts/kconfig/confdata.c:132-222 | a written line, read into the line buffer, gives name and value back if and only if the value has no newline and the line up to the closing quote has at most 1023 characters; otherwise it gives no value |

## Left out

- Tlsf.Pool.AddNewArea: requires memory apart from all areas and a joined area below 2^30 bytes.
- Tlsf.Pool.InitMemoryPool: requires a first area below 2^30 bytes, and memory behind it where it goes beyond the pool.
- Tlsf.Pool.Malloc: requires a request of at most 0x3F000000 bytes; beyond that the source indexes past the matrix or serves a block that does not cover the request.
- Tlsf.Pool.Realloc: requires the same of its size.
- Tlsf.Pool.Free: requires a live pointer or NULL, as the source does.
- Memory is addressed by word: a `memset` or `memcpy` of a length that is not a multiple of 4 is not modelled below the word.
- The control structure at the start of the pool is the object's fields, not memory words.
- TLSF locks, statistics, growth by mmap and sbrk, `calloc_ex`, `destroy_memory_pool` and the debug printers: switched off or thin.
- Expression nodes are values: `expr_copy`, `expr_free`, the sharing of nodes and the global `trans_count` outside one call are not modelled, and update in place is modelled by replacing the operand on its path.
- KconfigEqual.ExprEqExact: for expressions without constants other than m as operands; with them it does not hold (`KconfigEqual.ConstantsMatter`). KconfigEqual.EliminateEqExact and KconfigReduced.ExtractAll likewise.
- NULL expressions, E_CHOICE and E_RANGE nodes and the messages on standard output.
- `expr_contains_symbol`, `expr_depends_symbol`: plain recursion.
- `sym_calc_value`, `sym_calc_visibility`: used only as the source of what an assignment may be.
- The lexer apart from what follows the first word of a line: commands, help texts and end of file.
- SymbolDeps.Checker.CheckAll: takes the symbols in any order and requires that it includes every symbol with dependencies; the hash table is not modelled.
- `heap_create`, `heap_destroy`: the heap starts with the sentinel in place and enough slots.
- Numerals.LToStr: requires room for a digit for the number 0; with one byte of room the source writes before the buffer.
- `__lltostr`, `atoi` and the rest of stdlib.c and stdarg.c: the same loops or easy ones.
- `conf_read_simple`, `conf_write`: only lines with string values; a name holds no equals sign and no newline.
- Drivers, scheduler services, the other containers of the C library, the front ends and the Java viewer.
