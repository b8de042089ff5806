# Nextrieve: a verified model of its core algorithms

Nextrieve is a full-text indexing and retrieval system written in C. This Dafny project models seven of
its algorithmic cores, one group of modules each, and proves that they do what the system relies on.
Machine words are 32 bits wide throughout, as the C code assumes.

`dafny verify dfyconfig.toml` checks the whole project.

## What is modelled

**Constraint compiler** (`Words`, `ConstraintTree`, `Parser`, `Optimiser`, `Emission`, `Emitter`,
`Machine`, `EmissionMeaning`, `Compile`). A recursive-descent parser, a clustering optimiser that
flattens, sorts and merges, a generator of short-circuit jump code with forward references threaded
through the code buffer, and the interpreter's instruction set. `ConstraintTree.Eval` is a plain evaluator
that knows nothing of jumps or masks. The parser is proved equal to a grammar, the optimiser to preserve
meaning, the emitter to resolve every reference, and the interpreter, run on the emitted words, to give the
evaluator's answer on every document.

**Heap allocator** (`HeapLayout`, `Bins`, `Allocator`). Boundary tags over one contiguous arena, coalescing,
fast bins, sorted bins, the bin map and the best-fit search. `HeapLayout.Arena` is the invariant on memory;
every step of malloc, free and consolidation keeps it, over whole runs of a client.

**Block store** (`Pigeonhole`, `Pages`, `PageMaps`, `Blocks`, `BlockSets`, `CachedPages`, `FreeList`,
`Records`, `StoreStates`, `BlockStore`, `BlockMap`, `IndexRuns`). A block of 2048 bytes is proved to be a map
from (record, fragment) to bytes, and so is any collection of blocks between which fragments move. The free
list, the cached blocks and the record tables stay consistent while fragments start, grow, move and are
written out; after closing and reloading, every lookup leads to exactly the bytes that were written.

**Attribute store** (`Primes`, `Probing`, `DocumentChains`, `DuplicateAttribute`, `UniqueAttribute`,
`MultiValueAttribute`). Double hashing over prime table sizes, chains of documents with the same value,
values that only one existing document may have, and packed runs of several values.

**String automaton** (`Automaton`). Construction by border search, and leftmost search.

**Gap coder** (`BitStream`, `GapBound`). The unary and binary block code over packed words, round trips from
any bit position, and the closed-form bound on the size of a coded list.

**Caching server** (`HandOut`, `ServerTables`, `Subservers`, `ServerRuns`, `ResultCache`). Which server gets a
request, conservation of requests over queues, places and failing servers, and a hash table that agrees with
a list in order of use.

`Collections` holds what all of them need of options and sequences.

Programs that change things step by step are classes and methods with loops; each is proved against a
specification on values. Ghost fields say where things are: `place` in the allocator and the request tables,
`docs` and `idxs` for document chains, `sym` and `defs` for emitted code, `owner` for runs of blocks.

`ServerRuns.Run`, `RunClient`, `RunBlocks` and `IndexAndSearch` drive an object through an arbitrary sequence of
steps, return the states in between, and ensure the specification of each step at every index: `EventStep`,
`ClientStep`, `Served` and `ActionStep`. `ResultCache.Run` and the `Build` methods tie the end of a run to a
function of its steps.

## Where the code does not keep its promise

- Deleting a document clears its own flag word only (src/ntvindex.c:1436-1442), while the compiler drops the
  existence test whenever some flag test must have found a set bit, in whichever word
  (src/ntvcompile.c:1186-1220). `Compile.DeletedSelected` is a query that selects a deleted document;
  `Compile.DeletedDocuments` says exactly which queries are right about all of them, and
  `Compile.QuerySelectsExisting` that all is well when the words of all mentioned groups are cleared.
- The optimiser's cluster table grows by one increment of ten entries at a time, whatever index is asked for
  (src/ntvcompile.c:1833-1850). `Optimiser.Fits` is computed from the parse tree alone, and
  `Optimiser.Optimiser.OptimiseNode` stays within the table if and only if it holds; `Optimiser.ShallowFits`
  and `Optimiser.DeepOverruns` say what that means for nesting.
- `in (1,2,)` is accepted: the grammar that `Parser.ParserMeetsGrammar` characterises has the trailing comma.
- `prime` is announced as the next larger prime (src/ntvhash.c:31); it gives 1 for 0 and 3 for 1
  (`Primes.Prime`).
- `dishoutwork` is to find servers that are not busy and give them work (src/ncssubservers.c:731-736). It does
  not move on past a server that has been given up (src/ncssubservers.c:773-774), and it takes as many steps as
  there are servers, one for each request and one for each full server it passes. `HandOut.Served` says exactly
  which servers get work in a round: those with a free place, with no dead server and no refused connection at
  or before them, and with requests and steps enough to fill all servers before them.
  `HandOut.StarvesBehindDead` and `HandOut.StarvesForSteps` are live servers with free places that get nothing
  while a request waits. The test for servers that are too loaded (src/ncssubservers.c:776-783) never holds
  (`HandOut.NeverTooLoaded`).
- Rehashing the result cache loses the order of use (src/ncscache.c:489-501), so entries used lately may be
  the first to go: the order becomes that of the old hash chains (`ResultCache.ResultCache.Rehash`).

## Model

| member | source | states |
|---|---|---|
| `Parser.NumbersComplete` | src/ntvcompile.c:435-449 | A spelled list of numbers, with or without the trailing comma the code accepts, parses back to exactly those numbers and stops in front of the closing parenthesis. |
| `Parser.NumbersSound` | src/ntvcompile.c:435-449 | Whatever list the parser returns is spelled, up to a trailing comma, by exactly the tokens it consumed. |
| `Parser.FactorSound` | src/ntvcompile.c:590-731 | A factor that parses is a phrase of the grammar: the phrase spells the consumed tokens, its tree is the one returned, and it passes every type check of the parser. |
| `Parser.FactorComplete` | src/ntvcompile.c:590-731 | Every well-typed factor phrase parses to its own tree and leaves the tokens behind it. |
| `Parser.TermComplete` | src/ntvcompile.c:418-430 | Every well-typed run of AND parses to its right-grouped tree and leaves the tokens behind it. |
| `Parser.BoolSound` | src/ntvcompile.c:733-771 | A constraint that parses is spelled by the consumed tokens, with AND binding tighter than OR and both grouping to the right. |
| `Parser.ParserMeetsGrammar` | src/ntvcompile.c:2073-2084 | The parser returns a tree for a token sequence if and only if some well-typed sentence of the grammar spells exactly that sequence and has that tree. |
| `Parser.GrammarUnambiguous` | src/ntvcompile.c:418-771 | Two well-typed sentences with the same tokens have the same tree. |
| `Optimiser.InsertStops` | src/ntvcompile.c:1852-1885 | Insertion happens at the first list member the branch does not go behind: it is merged there when that member is a mergeable flag test on the same word, and put in front otherwise. |
| `Optimiser.InsertMeaning` | src/ntvcompile.c:1857-1885 | Inserting a branch, merged or not, changes a cluster's truth value on a document by exactly that branch: OR masks in OR clusters, AND masks in AND clusters. |
| `Optimiser.RebuildMeaning` | src/ntvcompile.c:1893-1923 | The left-deep tree rebuilt from a cluster list has the truth value of the list. |
| `Optimiser.CollectMeaning` | src/ntvcompile.c:1938-1961 | Flattening a run of AND or OR nodes into a list adds exactly the run's truth value. |
| `Optimiser.OptimisedMeaning` | src/ntvcompile.c:1930-2002 | The optimiser preserves the truth value of every well-typed tree on every document. |
| `Optimiser.InsertKeepsSorted` | src/ntvcompile.c:1854-1877 | Insertion keeps a cluster list in node-type order with at most one mergeable flag test for each flag word. |
| `Optimiser.CollectKeepsSorted` | src/ntvcompile.c:1930-1961 | So does collecting a whole run. |
| `Optimiser.OptimisedReady` | src/ntvcompile.c:1986-1997 | The optimised tree is well typed, every flag mask in it is non-zero, and no flag identifier is left standing alone. |
| `Optimiser.OptimisedBounded` | src/ntvcompile.c:1998-2000 | Optimising neither adds nor drops an in() list that the emitter would refuse. |
| `Optimiser.ShallowFits` | src/ntvcompile.c:1833-1850 | Trees in which at most ten clusters are open at once never write beyond the cluster table. |
| `Optimiser.DeepOverruns` | src/ntvcompile.c:1833-1852 | Alternating AND and OR eleven or more levels deep always does: the table grows by one increment only. |
| `Optimiser.Optimiser.InsertBranch` | src/ntvcompile.c:1826-1886 | The in-place insertion refines the value-level one, grows the table as the code does, and reports exactly the insertions that fall outside it; other clusters are untouched. |
| `Optimiser.Optimiser.NewSubTree` | src/ntvcompile.c:1893-1923 | The loop builds the left-deep tree of the cluster's list. |
| `Optimiser.Optimiser.OptimiseNode` | src/ntvcompile.c:1930-2002 | Working over the shared cluster table, the optimiser returns the tree of the specification, succeeds if and only if the table is large enough, and leaves the clusters of enclosing runs as they were. |
| `Emitter.Emitter.GetLabel` | src/ntvcompile.c:1069-1092 | A new label is undefined, unreferenced and different from all others. |
| `Emitter.Emitter.OutputLabel` | src/ntvcompile.c:1007-1036 | A reference to an undefined label becomes the new head of that label's chain; the branch for a label already defined is dead; all chains and resolved operands stay right. |
| `Emitter.Emitter.DefineLabel` | src/ntvcompile.c:936-952 | Walking the chain fills in exactly the operands that waited for this label, with the current address, and no other word. |
| `Emitter.Emitter.OutputOperand` | src/ntvcompile.c:1126-1153 | The operand word is the literal, the attribute index, or a reference to the label of a string that is stored later. |
| `Emitter.Emitter.EmitRel` | src/ntvcompile.c:1490-1603 | The emitted comparison jumps to the target its context asks for, with the operator inverted unless the context is OR. |
| `Emitter.Emitter.EmitLike` | src/ntvcompile.c:1604-1622 | As for comparisons; the pattern operand refers to the label of the compiled pattern. |
| `Emitter.Emitter.EmitFlags` | src/ntvcompile.c:1639-1696 | The four flag opcodes and their negations, on the document word or a group word. |
| `Emitter.Emitter.StoreInNode` | src/ntvcompile.c:1277-1294 | The list is noted under a new label, and is refused if and only if its largest value exceeds the limit. |
| `Emitter.Emitter.EmitIn` | src/ntvcompile.c:1697-1721 | The in() test with its largest value, the label of its bitmap and its target; it fails exactly for a refused list. |
| `Emitter.Emitter.EvalAnd` | src/ntvcompile.c:1445-1459 | AND nodes: an OR operand that must not jump out true gets a label of its own, defined right behind it. |
| `Emitter.Emitter.EvalOr` | src/ntvcompile.c:1460-1474 | OR nodes, dually. |
| `Emitter.Emitter.EvalNot` | src/ntvcompile.c:1475-1489 | NOT nodes: targets are exchanged and the context inverted. |
| `Emitter.Emitter.EvalExp` | src/ntvcompile.c:1427-1722 | For every tree and context the code at the old end of the buffer is what the jump contract prescribes; emission fails exactly when some in() list is refused. |
| `Emitter.Emitter.EmitItem` | src/ntvcompile.c:1359-1420 | A data node's words are stored at the address of its label; a pattern becomes the new head of the clean-up chain. |
| `Emitter.Emitter.EmitInBitmaps` | src/ntvcompile.c:1301-1420 | Afterwards every noted list, string and pattern is stored at its label, and nothing emitted before has changed. |
| `Emitter.Emitter.EmitRoot` | src/ntvcompile.c:1724-1736 | The whole tree, the existence test unless a flag was tested already, and the two results. |
| `Emitter.Emitter.Emit` | src/ntvcompile.c:1427-1740 | When emission ends, every operand holds the address of its label, which lies ahead of it; every datum is in place; the clean-up chain from word 0 visits each compiled pattern once. |
| `Emitter.SetBits` | src/ntvcompile.c:1255-1270 | In the bitmap, the bit of a value up to the maximum is set if and only if the value is listed. |
| `Emitter.FindRange` | src/ntvcompile.c:1226-1248 | The smallest and largest listed values; ULONG_MAX and 0 for an empty list. |
| `Emitter.RootComplete` | src/ntvcompile.c:936-952 | A program whose code and data are laid out has no unresolved operand left. |
| `Emission.RefsCovered` | src/ntvcompile.c:1427-1740 | Every operand in the code of a tree refers to a label that the tree, or its caller, defines. |
| `EmissionMeaning.RelStep` | src/ntvsearch.c:1637-2093 | One comparison instruction, in any addressing mode, jumps exactly when its context's condition on the compared values holds. |
| `EmissionMeaning.InStep` | src/ntvsearch.c:2202-2230 | An in() instruction tests membership in the list through the bitmap. |
| `EmissionMeaning.FlagStep` | src/ntvsearch.c:2126-2193 | A flag instruction tests the masked word. |
| `EmissionMeaning.NodeMeaning` | src/ntvcompile.c:1427-1722 | The jump contract: in any nesting of AND, OR and NOT, running a node's code ends at the address that its context and the plain evaluator's answer determine, within as many steps as it has words. |
| `EmissionMeaning.RootMeaning` | src/ntvsearch.c:1619-1636 | A finished program answers, from address 1, on every document within as many steps as it has words: the evaluator's answer, and false without the existence bit unless the tests were taken to imply it. |
| `Compile.CompileQuery` | src/ntvcompile.c:2024-2117 | The whole pipeline: rejected, overrunning, a plain mask or a finished program, each exactly when the parser, the cluster table, the optimised tree and the list bound say so. |
| `Compile.QueryMeaning` | src/ntvcompile.c:2076-2096 | A compiled query selects a document if and only if the constraint holds of it and either it exists or the program was emitted without an existence test. |
| `Compile.TestedNeedsFlag` | src/ntvcompile.c:1186-1220 | When the existence test is omitted and the constraint is true, some flag word that the constraint mentions is not zero. |
| `Compile.OptimisedMentions` | src/ntvcompile.c:1930-2002 | The optimised tree mentions the same flag groups as the constraint. |
| `Compile.QuerySelectsExisting` | src/ntvcompile.c:1186-1220 | On every document that exists, or all of whose mentioned flag words are zero, a query selects exactly the existing documents that satisfy the constraint. |
| `Compile.DeletedDocument` | src/ntvindex.c:1436-1442 | For a document deleted by clearing only its own flag word, the query is right if and only if not both the existence test was omitted and the constraint is true. |
| `Compile.DeletedDocuments` | src/ntvindex.c:1436-1442 | A query selects no document deleted by clearing its own flag word, whatever else the document has, if and only if the program was emitted with an existence test or the constraint cannot hold of any document whose own word is zero. |
| `Compile.DeletedNotSelected` | src/ntvindex.c:1436-1442 | Such a document is never selected when all flags the constraint mentions live in that word. |
| `Compile.DeletedSelected` | src/ntvindex.c:1436-1442 | A deleted document that is still selected: the query asks for one flag of group 0. |
| `HeapLayout.ChunkTells` | src/dlmalloc.c:2511-2544 | At any chunk of a settled arena: the in-use bit behind it tells whether it is free; a free chunk borders neither top nor another free chunk and repeats its size at its end; chunks do not overlap. |
| `HeapLayout.WalkTiles` | src/dlmalloc.c:2461-2504 | Walking headers from the base meets every chunk once, end to end, and arrives at top: chunks tile the arena. |
| `HeapLayout.MergeBack` | src/dlmalloc.c:3640-3646 | A clear in-use bit means the footer leads to a free chunk, and merging with it keeps the arena in order. |
| `HeapLayout.MergeForward` | src/dlmalloc.c:3648-3657 | Absorbing the free chunk behind keeps the arena in order, and the one behind that is neither free nor top. |
| `HeapLayout.CloseFree` | src/dlmalloc.c:3665-3673 | Writing header, footer and the cleared bit turns the merged chunk into a proper free chunk. |
| `HeapLayout.CloseTop` | src/dlmalloc.c:3683-3688 | A chunk that borders top becomes part of it. |
| `HeapLayout.TakeWhole` | src/dlmalloc.c:3360-3366 | Handing out a whole free chunk only has to set the bit behind it. |
| `HeapLayout.SplitFree` | src/dlmalloc.c:3511-3526 | Splitting a free chunk leaves a used chunk and a proper free remainder that was no chunk before. |
| `HeapLayout.SplitTop` | src/dlmalloc.c:3546-3558 | Splitting top leaves a used chunk and a new top. |
| `Bins.BinIndexMonotone` | src/dlmalloc.c:2146-2155 | Larger chunks never go into lower bins. |
| `Bins.SmallBinExact` | src/dlmalloc.c:2136-2144 | A small bin holds chunks of one size. |
| `Bins.RemoveKeeps` | src/dlmalloc.c:2108-2113 | Taking a chunk off its list keeps every other free chunk in exactly one list, and large bins in order. |
| `Bins.InsertKeeps` | src/dlmalloc.c:3380-3400 | Inserting a chunk at its place keeps every free chunk in exactly one list, and large bins in order. |
| `Allocator.MallocState.constructor` | src/dlmalloc.c:2384-2411 | A fresh arena: one top chunk, nothing handed out, all bins empty. |
| `Allocator.MallocState.Unlink` | src/dlmalloc.c:2108-2113 | Removes exactly the given chunk from the bins. |
| `Allocator.MallocState.Coalesce` | src/dlmalloc.c:3636-3688 | Merging a chunk with its free neighbours and binning it, or merging it into top, restores the whole invariant and changes no chunk in use. |
| `Allocator.MallocState.ConsolidateBin` | src/dlmalloc.c:3794-3840 | Empties one fast bin, freeing each of its chunks. |
| `Allocator.MallocState.Consolidate` | src/dlmalloc.c:3752-3842 | Empties all fast bins; the chunks in use and their sizes stay the same; only the unsorted list gains chunks. |
| `Allocator.MallocState.FindBin` | src/dlmalloc.c:3455-3490 | Led by the bin map, finds the first bin from an index on that is not empty, or none; bits it clears belong to empty bins. |
| `Allocator.MallocState.SortedPosition` | src/dlmalloc.c:3380-3394 | The place in a large bin that keeps sizes descending, although the code compares whole size fields. |
| `Allocator.MallocState.BinLast` | src/dlmalloc.c:3356-3401 | Moves the last unsorted chunk into the one bin for its size and marks that bin. |
| `Allocator.MallocState.SortUnsorted` | src/dlmalloc.c:3324-3401 | Goes through the unsorted list until it is empty, a chunk fits exactly, or the last remainder is split for a small request. |
| `Allocator.MallocState.ScanLarge` | src/dlmalloc.c:3410-3442 | If the bin for a large request holds a chunk that fits, the smallest that fits is handed out; otherwise nothing changes. |
| `Allocator.MallocState.ScanBins` | src/dlmalloc.c:3455-3528 | Hands out a best fit from the higher bins, or shows that no free chunk fits. |
| `Allocator.MallocState.PopFast` | src/dlmalloc.c:3256-3263 | Hands out a fast chunk of exactly the requested size if there is one. |
| `Allocator.MallocState.TakeSmall` | src/dlmalloc.c:3273-3290 | Hands out a chunk of exactly the requested size from its small bin if there is one. |
| `Allocator.MallocState.UseTop` | src/dlmalloc.c:3530-3577 | Splits top if it is large enough; asks the system for more only when it is not and no fast chunks are left to consolidate. |
| `Allocator.MallocState.Extend` | src/dlmalloc.c:2869-2976 | Memory granted contiguously extends top by whole pages, the request is served from where top began, and less than a page beyond a minimal chunk is left; refused, nothing changes. |
| `Allocator.MallocState.Malloc` | src/dlmalloc.c:3213-3578 | A granted request hands out one chunk that was not in use, large enough and less than MINSIZE larger, and changes no other chunk in use; served from the bins, it is a smallest sufficient free chunk of the arena as it is, or as it is with its fast chunks merged and all chunks in use the same, the last-remainder split being the one exception; memory beyond the bins is touched only when no free chunk fits. |
| `Allocator.MallocState.Free` | src/dlmalloc.c:3585-3735 | A null pointer changes nothing. A chunk in use is exactly the one taken out of use, with the whole invariant kept: a small chunk goes to a fast bin and nothing else changes; a larger one is merged, and only the unsorted list gains chunks. |
| `Allocator.MallocState.Trim` | src/dlmalloc.c:3152-3206 | Gives whole pages of top back, so that a minimal chunk and at most one page more remain, and touches nothing else; refused, nothing changes. |
| `Allocator.BestInBin` | src/dlmalloc.c:3410-3528 | A chunk that fits, at the place where the search finds it, is a smallest sufficient one among all binned chunks. |
| `Allocator.NoneInBins` | src/dlmalloc.c:3461-3468 | When the search ends without a bin, no binned chunk fits. |
| `Allocator.LiveApart` | src/dlmalloc.c:1838-1900 | The blocks given to clients lie in different chunks and do not overlap each other or a size field in use. |
| `Allocator.RunClient` | src/dlmalloc.c:3213-3735 | In any run of a client every request changes the live blocks as it should: an allocation adds one new block of the size asked for, or fails for a size out of range or for want of memory; a release takes away its block, and a null one nothing. At no moment do two live blocks overlap, and in the end exactly they are in use. |
| `Pages.KeysUnique` | src/ntvblkbuf.c:2596-2632 | In a sorted block no two slots have the same record and fragment. |
| `Pages.SearchStep` | src/ntvblkbuf.c:2359-2380 | One comparison of the binary search rules out one side of the slots, whatever the key. |
| `Pages.AddedValid` | src/ntvblkbuf.c:2577-2631 | A new record keeps addresses descending and above the header and the slot numbers a sorted permutation; it takes its bytes and one slot entry. |
| `Pages.AddedData` | src/ntvblkbuf.c:2577-2695 | It stores its data and leaves every other record's alone. |
| `Pages.OverwrittenData` | src/ntvblkbuf.c:2692-2695 | Overwriting within a record changes that part of that record and nothing else. |
| `Pages.DeletedValid` | src/ntvblkbuf.c:3042-3071 | Deleting shifts slots, addresses and permutation consistently and frees the record's bytes and its slot entry. |
| `Pages.DeletedData` | src/ntvblkbuf.c:3046-3056 | The shifted bytes are those of the same records as before. |
| `Pages.GrownValid` | src/ntvblkbuf.c:2903-2915 | Growth or shrinkage in place keeps the block in order. |
| `Pages.GrownData` | src/ntvblkbuf.c:2906-2915 | It keeps the old bytes of the record, or those that fit, and every other record's. |
| `PageMaps.AddedMap` | src/ntvblkbuf.c:2561-2632 | Seen as a map from (record, fragment) to bytes, adding a record adds its key only. |
| `PageMaps.OverwrittenMap` | src/ntvblkbuf.c:2633-2695 | Overwriting replaces part of one value. |
| `PageMaps.DeletedMap` | src/ntvblkbuf.c:2972-3080 | Deleting removes one key. |
| `PageMaps.GrownMap` | src/ntvblkbuf.c:2840-2923 | Growing or shrinking in place changes one value to one with the same beginning. |
| `Blocks.Block.Find` | src/ntvblkbuf.c:2359-2380 | The binary search finds the record if and only if the block has it. |
| `Blocks.Block.Place` | src/ntvblkbuf.c:2596-2624 | The other binary search finds where a new key belongs. |
| `Blocks.Block.Read` | src/ntvblkbuf.c:2330-2426 | Returns the requested bytes of the record, cut off at its end. |
| `Blocks.Block.Add` | src/ntvblkbuf.c:2577-2631 | Adds a record in place, as specified by the relation on values. |
| `Blocks.Block.Overwrite` | src/ntvblkbuf.c:2633-2695 | Overwrites bytes from an offset on in exactly the slot that has the key, and no others; whether they stay within the record is not checked, as in the code. |
| `Blocks.Block.Delete` | src/ntvblkbuf.c:2972-3077 | Deletes exactly the record with the key, if it is there. |
| `Blocks.Block.Resize` | src/ntvblkbuf.c:2903-2915 | Gives a record another size in place. |
| `Blocks.Apply` | src/ntvblkbuf.c:2545-3080 | One operation is done if and only if the record and the room allow it; then it takes exactly its cost in room and changes the map as specified; else nothing happens. |
| `Blocks.Relocate` | src/ntvblkbuf.c:2867-2880 | Growth by moving to another block keeps the old bytes, fills up with zeros, and changes nothing else in either block. |
| `BlockSets.PatchedParts` | src/ntvblkbuf.c:2545-3080 | Changing one key in one block's part of the map changes that key of the whole map and no other block's part. |
| `BlockSets.Serve` | src/ntvblkbuf.c:2545-3080 | One operation on a collection of blocks is done if and only if the fragment's own block, or for a new or moving one the target block, has the room; then the one map, the place of each fragment and the room of each block change as specified; else nothing does. |
| `BlockSets.RunBlocks` | src/ntvblkbuf.c:2545-3080 | Any run of writes, growth in place or by moving, and deletions on any number of blocks refines one map from (record, fragment) to bytes, step by step; which steps are done, where each fragment is and the room of each block follow from the map and the places alone. |
| `BlockSets.ReadBack` | src/ntvblkbuf.c:2330-2426 | Every fragment reads back from the block where it is, and is in no other. |
| `FreeList.RemoveAgrees` | src/ntvblkbuf.c:977-990 | Removing an entry from both views keeps them holding the same entries. |
| `FreeList.AddAgrees` | src/ntvblkbuf.c:1048-1061 | So does adding one. |
| `FreeList.FreeList.Drop` | src/ntvblkbuf.c:977-990 | Removes the entry of a block if there is one, and no other. |
| `FreeList.FreeList.AddToFree` | src/ntvblkbuf.c:1002-1067 | Records a block's room, or forgets the block when the room is below the tolerance; an existing entry keeps its area. |
| `FreeList.FreeList.Get` | src/ntvblkbuf.c:1077-1143 | Returns a best fit of the area and deducts the room, or nothing if and only if none fits. |
| `Records.OneLiveFragment` | src/ntvblkbuf.c:1269-1273 | Each record has at most one fragment in the cache: its last one, in the block the record table names. |
| `Records.LiveData` | src/ntvblkbuf.c:2554-2632 | The block named for a record with a live fragment is cached and holds exactly the bytes of that fragment. |
| `Records.StartedKeeps` | src/ntvblkbuf.c:2561-2632 | Starting a fragment in a block keeps the record tables, the blocks' contents and the bytes of all fragments consistent. |
| `Records.RewrittenKeeps` | src/ntvblkbuf.c:2692-2695 | So does changing the bytes or the size of one. |
| `Records.EndedKeeps` | src/ntvblkbuf.c:3042-3079 | So does taking one out of its block. |
| `Records.BlockOut` | src/ntvblkbuf.c:1254-1305 | So does writing out a block and advancing its records. |
| `Records.LogStep` | src/ntvblkbuf.c:1275-1280 | Logging a record's last fragment keeps each earlier fragment logged exactly once with a block that holds its bytes. |
| `Records.DiskStep` | src/ntvblkbuf.c:1298-1305 | Writing the next block disturbs nothing that was logged before. |
| `StoreStates.StartsStep` | src/ntvblkbuf.c:2561-2632 | The whole invariant of the store, free list included, survives a fragment started where room was found, and the map of bytes gains that fragment. |
| `StoreStates.PatchStep` | src/ntvblkbuf.c:2633-2695 | It survives a write within a fragment, which replaces that part of its bytes in the map. |
| `StoreStates.SizeStep` | src/ntvblkbuf.c:2900-2923 | It survives growth in place with the block's room recorded anew, which keeps the bytes that fit. |
| `StoreStates.EndStep` | src/ntvblkbuf.c:3042-3079 | It survives a fragment taken out with the block's room recorded anew. |
| `StoreStates.OutStep` | src/ntvblkbuf.c:1375-1431 | It survives a block written out and struck off the free list. |
| `StoreStates.FullAlone` | src/ntvblkbuf.c:2700-2708 | A fragment of the largest size has its block to itself and leaves no room in it, so flushing it closes no other record's fragment. |
| `BlockStore.Store.NewRecord` | src/ntvindex.c:1850-1855 | A new record has one fragment, not yet begun. |
| `BlockStore.Store.CacheBlockOut` | src/ntvblkbuf.c:1254-1305 | Every record with a fragment in the block is logged with the final block number and moves on; the block goes to the next place on disk. |
| `BlockStore.Store.WriteOut` | src/ntvblkbuf.c:1375-1431 | The block leaves cache and free list for disk, exactly its records move on, and everything else stays in order. |
| `BlockStore.Store.FindRoom` | src/ntvblkbuf.c:2561-2572 | A best fitting block of the area, or a new block if and only if none fits; the free list already counts the new fragment. |
| `BlockStore.Store.Place` | src/ntvblkbuf.c:2574-2631 | The fragment is entered with its bytes where room was found: the overflow guard of the code never fires. |
| `BlockStore.Store.Write` | src/ntvblkbuf.c:2545-2697 | The map from fragments to bytes changes as a write specifies: the first write starts the record's last fragment with those bytes, later ones replace a part of it; no other record moves but those of an evicted block. |
| `BlockStore.Store.Delete` | src/ntvblkbuf.c:2972-3080 | Exactly that fragment leaves its block and the map of bytes, and the block's room is recorded. |
| `BlockStore.Store.Grow` | src/ntvblkbuf.c:2764-2924 | The fragment gets its new size in place or elsewhere and keeps the bytes that fit; all other bytes stay, and free list and tables are still exact. |
| `BlockStore.Store.FlushFull` | src/ntvblkbuf.c:2700-2708 | Flushing a full fragment moves its record on, and no other. |
| `BlockStore.Store.FlushAll` | src/ntvblkbuf.c:1440-1458 | Every cached block is written, every live fragment logged. |
| `BlockStore.Store.Close` | src/ntvblkbuf.c:3101-3159 | Afterwards every fragment of every record is logged exactly once, with a written block that holds exactly its bytes; records whose last fragment was never begun do not count it. |
| `StoreStates.CountsDown` | src/ntvblkbuf.c:3131-3138 | Taking off the fragments never begun makes the log complete. |
| `BlockMap.RunKeeps` | src/ntvblkbuf.c:578-586 | Reserving a run for a record with several fragments keeps all runs apart. |
| `BlockMap.PlacesDiffer` | src/ntvblkbuf.c:588-595 | Different fragments have different places in the table of runs. |
| `BlockMap.Searcher.Enter` | src/ntvblkbuf.c:564-596 | Entering a block for one fragment makes the tables those of the log with that entry added. |
| `BlockMap.Searcher.EnterRun` | src/ntvblkbuf.c:458-537 | An entry that stands for a run of fragments in consecutive blocks enters each of them. |
| `BlockMap.Searcher.Check` | src/ntvblkbuf.c:603-640 | The final check passes if and only if the log has a block for every fragment of every record. |
| `BlockMap.Searcher.Load` | src/ntvblkbuf.c:409-640 | Any log, with or without entries for runs, loads if and only if all entries are within the tables and every fragment of every record has a block; then the lookup of a fragment gives the block of the last entry for it. |
| `IndexRuns.CompleteLoads` | src/ntvblkbuf.c:409-640 | The log of a closed store loads if and only if every record has been written to. |
| `IndexRuns.FragRead` | src/ntvblkbuf.c:2330-2426 | Where a lookup leads to the bytes of a fragment, reading returns the requested part of them, cut off at their end. |
| `IndexRuns.CloseAndLoad` | src/ntvblkbuf.c:3101-3159 | Close and reload end to end: every lookup leads to exactly the bytes of the fragment, unless the 31-bit numbers do not suffice; the load gives up exactly when a record was never written to. |
| `IndexRuns.Perform` | src/ntvblkbuf.c:2545-3159 | Each action of an indexer changes the records' fragments and bytes as specified, and other records at most by closing their last fragments when a block had to leave the cache. |
| `IndexRuns.IndexAndSearch` | src/ntvblkbuf.c:2545-3159 | Any run of new records, writes, growth with and without moving, evictions and full fragments goes as specified step by step; after closing and reloading, lookups lead to exactly the bytes that the steps gave each fragment. |
| `Primes.PrimeAbove` | src/ntvhash.c:31-49 | There is a prime above every number, so the search ends. |
| `Primes.TrialDivision` | src/ntvhash.c:41-45 | An odd number without odd divisors up to its root is prime. |
| `Primes.Prime` | src/ntvhash.c:32-49 | For 2 and above the least larger prime; 0 gives 1 and 1 gives 3. |
| `Primes.NoEarlyReturn` | src/ntvattr.c:498-499 | No smaller multiple of a step comes back to the start of a table of prime size. |
| `Primes.ProbesDiffer` | src/ntvattr.c:498-499 | As many probes as there are slots look at different slots. |
| `Probing.VisitsEverySlot` | src/ntvattr.c:443-452 | The probe sequence of any value visits every slot of a table of prime size. |
| `Probing.EmptyMeansAbsent` | src/ntvattr.c:484-485 | If a search ends at an empty slot, the value is in no slot. |
| `Probing.PutKeepsSound` | src/ntvattr.c:1687-1688 | Filling the slot where a search ended keeps every value findable. |
| `Probing.OneSlotPerValue` | src/ntvattr.c:472-500 | A value is in one slot only. |
| `DocumentChains.AddDirect` | src/ntvattr.c:1727-1727 | The first document of a value goes into the slot itself. |
| `DocumentChains.AddSecond` | src/ntvattr.c:1733-1751 | The second starts a chain of two, disjoint from all others. |
| `DocumentChains.AddFront` | src/ntvattr.c:1755-1768 | A further one becomes the head of its chain. |
| `DocumentChains.AddBehindHead` | src/ntvattr.c:1001-1034 | When rehashing it goes behind the head; chains stay disjoint and end in 0. |
| `DuplicateAttribute.DuplicateAttribute.Find` | src/ntvattr.c:723-800 | The search ends, at an empty slot if and only if no document has the value, and else at the value's slot. |
| `DuplicateAttribute.DuplicateAttribute.Documents` | src/ntvattr.c:735-776 | The slot and its chain list exactly the documents with the value, each once. |
| `DuplicateAttribute.DuplicateAttribute.SetValue` | src/ntvattr.c:1709-1772 | The last document gets the value, the index being extended, or rebuilt when it is time. |
| `DuplicateAttribute.DuplicateAttribute.Rehash` | src/ntvattr.c:937-1037 | The rebuilt index covers all documents and has more than four slots for each value. |
| `DuplicateAttribute.DuplicateAttribute.Reinsert` | src/ntvattr.c:954-1036 | One step of the rebuilding covers one more document. |
| `DuplicateAttribute.SlotHasAll` | src/ntvattr.c:755-776 | The documents of a value's slot are all documents with the value. |
| `DuplicateAttribute.Build` | src/ntvattr.c:1709-1772 | After any run of new documents and values, searching any value yields exactly the documents that have it. |
| `UniqueAttribute.UniqueAttribute.Find` | src/ntvattr.c:472-507 | The search always ends, at the slot of the value or at an empty one. |
| `UniqueAttribute.UniqueAttribute.SetValue` | src/ntvattr.c:1670-1706 | The last document takes the value over: any document that had it is deleted, no other is, and existing documents stay unique. |
| `UniqueAttribute.UniqueAttribute.Rehash` | src/ntvattr.c:648-719 | The rebuilt table names every existing document, and its fill limit is above the number of values and within the table. |
| `UniqueAttribute.UniqueAttribute.Holder` | src/ntvattr.c:504-507 | No existing document but the one named where the search ends can have the value. |
| `UniqueAttribute.NamesUnique` | src/ntvattr.c:694-706 | A sound table makes existing documents unique by value. |
| `UniqueAttribute.NameDocument` | src/ntvattr.c:1680-1703 | Naming a new document in the slot where its value's search ends keeps the table sound. |
| `UniqueAttribute.Build` | src/ntvattr.c:1670-1706 | After any run of new documents, values and deletions, each value has at most one existing document: the last one it was given to, unless deleted. |
| `MultiValueAttribute.MultiValueAttribute.AddValue` | src/ntvattr.c:1622-1656 | One more value for the last document, and every other document's run untouched. |
| `MultiValueAttribute.MultiValueAttribute.Values` | src/ntvattr.c:1452-1465 | Decoding a document's entry yields its values in order. |
| `MultiValueAttribute.Extended` | src/ntvattr.c:1629-1653 | The three cases of an addition: none before, one before, a run already. |
| `MultiValueAttribute.Build` | src/ntvattr.c:1622-1656 | After any run, every document decodes to exactly the values given to it, in order. |
| `Automaton.StepKeeps` | src/ntvdfa.c:136-167 | A right transition keeps the state the longest beginning of the pattern that ends the text read. |
| `Automaton.Automaton.LongestBorder` | src/ntvdfa.c:159-166 | The inner loop finds the longest border that the letter extends, or none. |
| `Automaton.Automaton.BackwardState` | src/ntvdfa.c:137-167 | After the loop over a state's letters all its transitions are right. |
| `Automaton.StringAutom` | src/ntvdfa.c:60-170 | The automaton built recognises the pattern, whatever its characters: up to the first one that no indexed text has, all transitions are right. |
| `Automaton.Automaton.Search` | src/ntvdfa.c:252-266 | The search returns the leftmost occurrence in the text before its terminator, and nothing if and only if there is none, also for patterns with characters that no text has. |
| `BitStream.Stream.EncodeBit` | src/ntvbitio.h:36-44 | Writes one bit at the position and changes no other bit of the buffer. |
| `BitStream.Stream.EncodeUnary` | src/ntvbitio.h:137-146 | Writes the unary code, counts its bits. |
| `BitStream.Stream.EncodeBinary` | src/ntvbitio.h:201-215 | Writes the low bits, the highest first, counts them. |
| `BitStream.Stream.EncodeBlock` | src/ntvbitio.h:303-317 | Writes the block code of a gap: quotient in unary, remainder in binary. |
| `BitStream.Stream.EncodeList` | src/ntvbitio.h:303-317 | Writes the codes of a list of gaps one after the other; the counter grows by exactly the bits emitted. |
| `BitStream.Stream.DecodeUnary` | src/ntvbitio.h:148-159 | Reads a unary code back and stops behind it. |
| `BitStream.UnaryAhead` | src/ntvbitio.h:148-159 | Wherever a one lies ahead, the bits up to the first one are a unary code, so decoding a unary code is right from there. |
| `BitStream.Stream.DecodeBinary` | src/ntvbitio.h:218-235 | Reads a number of bits as their value plus one. |
| `BitStream.Stream.DecodeBlock` | src/ntvbitio.h:319-327 | Reads a gap back. |
| `BitStream.Stream.DecodeList` | src/ntvbitio.h:319-327 | Reads a list of gaps back. |
| `BitStream.BlockValue` | src/ntvbitio.h:287-327 | A gap is its quotient shifted left plus the value of the remainder's bits plus one. |
| `BitStream.NumberOfBinary` | src/ntvbitio.h:186-235 | The value of the bits of a number is the number. |
| `BitStream.RoundTrip` | src/ntvbitio.h:287-327 | From any bit position, encoding any positive gaps and decoding from there returns them and ends at the same position; all other bits keep their values. |
| `GapBound.FloorLog2` | src/ntvbitio.h:115-120 | The integer logarithm, -1 for 0. |
| `GapBound.CeilLog2` | src/ntvbitio.h:107-112 | The least exponent whose power of two is not below the number. |
| `GapBound.CodeBound` | src/ntvbinstuff.c:53-58 | Any positive gaps with a bounded sum take at most as many bits as the closed form says, for any block size. |
| `GapBound.InitW` | src/ntvbinstuff.c:45-50 | The block size is a power of two: the largest not above the mean gap less one, or 1. |
| `GapBound.BoundFor` | src/ntvbinstuff.c:53-58 | The code's formula equals the closed form when the block size is a power of two. |
| `GapBound.FewBlocks` | src/ntvbinstuff.c:45-66 | With that block size there are at most two whole blocks per gap. |
| `GapBound.Bound` | src/ntvbinstuff.c:61-66 | With the chosen block size, any such gaps are coded within the bound, which is at most 3 plus the logarithm of the block size for each gap. |
| `ServerTables.AssignKeeps` | src/ncssubservers.c:646-726 | A query put into a free place and at the end of the sending chain keeps the server's table in order. |
| `ServerTables.SentKeeps` | src/ncssubservers.c:1438-1457 | A query sent in full leaves the head of the chain. |
| `ServerTables.AnswerKeeps` | src/ncssubservers.c:1183-1185 | An answered query leaves its place. |
| `ServerTables.PlacedAssigned` | src/ncssubservers.c:646-683 | A request that moves from the queue to a place is still in exactly one place. |
| `ServerTables.PlacedRequeued` | src/ncssubservers.c:509-516 | So is one that goes back to the queue. |
| `ServerTables.PlacedAnswered` | src/ncssubservers.c:1173-1185 | An answered request is nowhere any more. |
| `ServerTables.PlacedDeleted` | src/ncssubservers.c:415-427 | Nor is a deleted one. |
| `ServerTables.ServersLose` | src/ncssubservers.c:517-533 | Giving a server up leaves the totals equal to what they count, over live servers only. |
| `HandOut.Served` | src/ncssubservers.c:737-800 | In a round a server gets work if and only if it has a free place, no server at or before it is dead or fails to be connected to, and requests and steps suffice to fill all servers before it. |
| `HandOut.StarvesBehindDead` | src/ncssubservers.c:773-774 | A live server with a free place that gets nothing while a request waits, because the one before it is dead. |
| `HandOut.StarvesForSteps` | src/ncssubservers.c:758-800 | The same with all servers live: passing a full server takes one of the steps. |
| `HandOut.NeverTooLoaded` | src/ncssubservers.c:776-783 | The test for servers that are too loaded never holds of one that is not full. |
| `Subservers.SubServerCollection.constructor` | src/ncssubservers.c:310-338 | No requests, and totals that fit the servers. |
| `Subservers.SubServerCollection.PossiblyDead` | src/ncssubservers.c:485-534 | All queries of the server, and no others, go back to the head of the queue, the server joins the dead list, and all counters stay right. |
| `Subservers.SubServerCollection.Assign` | src/ncssubservers.c:646-726 | The head of the queue, and nothing else, moves to a free place of the server and to the end of what is to be sent. |
| `Subservers.SubServerCollection.SendWork` | src/ncssubservers.c:636-728 | The same, unless a needed connection fails at once: then everything the server held is queued again. |
| `Subservers.SubServerCollection.TakeTurn` | src/ncssubservers.c:758-800 | One step of the round: a full server is passed, a dead one stops it, and the test for too much load is dead. |
| `Subservers.SubServerCollection.DishOutWork` | src/ncssubservers.c:737-827 | Each server gets exactly the requests that the specification of a call gives it; no request is lost or duplicated; unless a connection fails, requests leave the queue at its head only and none is taken off a server; the division is by a positive total. |
| `Subservers.SubServerCollection.Revive` | src/ncssubservers.c:804-816 | The server given up first is counted among the live ones again. |
| `Subservers.SubServerCollection.StartReq` | src/ncssubservers.c:364-388 | Exactly the new request is accepted. |
| `Subservers.SubServerCollection.DeleteReq` | src/ncssubservers.c:401-432 | Exactly the queued requests with the key go, the others keep their order, and those being served stay where they are. |
| `Subservers.SubServerCollection.QuerySent` | src/ncssubservers.c:1438-1457 | The first query of the chain becomes sent and the next one its head. |
| `Subservers.SubServerCollection.ExtractResult` | src/ncssubservers.c:1153-1185 | A result for an active query removes exactly that request; the code gives up if and only if the place is out of range or empty. |
| `ServerRuns.Conservation` | src/ncssubservers.c:364-1216 | In any run in which each step is as specified, a request is accepted if and only if it is open, delivered or forgotten while queued; it is only one of these, and it is delivered once. |
| `ServerRuns.Run` | src/ncssubservers.c:364-1216 | Driving the servers through any events, in which servers answer only queries they were sent and connections fail at any step, is such a run: the requests accepted are those of the Start events in order, and each delivery or deletion is that of its Result or Forget event. |
| `ResultCache.AgreeAdded` | src/ncscache.c:205-221 | Adding an entry to its bucket and to the list keeps them holding the same entries. |
| `ResultCache.AgreeRemoved` | src/ncscache.c:265-278 | So does removing one. |
| `ResultCache.WithoutLast` | src/ncscache.c:443-443 | Deleting the least recently used entry shortens the list at its end. |
| `ResultCache.ResultCache.Lookup` | src/ncscache.c:156-197 | Finds an entry if and only if there is one, and moves it to the front. |
| `ResultCache.ResultCache.Add` | src/ncscache.c:205-221 | A new entry is in its bucket, at the front of the list, and counted. |
| `ResultCache.ResultCache.Delete` | src/ncscache.c:257-284 | Removes exactly that entry from both, and counts down. |
| `ResultCache.ResultCache.Rehash` | src/ncscache.c:470-504 | A larger table with the same entries, each in its new bucket; the order of use is the old chains from the last to the first, each from its end. |
| `ResultCache.ResultCache.LookupAdd` | src/ncscache.c:514-549 | Returns the entry for a request, new if and only if there was none, as the most recently used one; the others keep their order unless the table was rehashed. |
| `ResultCache.ResultCache.Cleanup` | src/ncscache.c:434-462 | Keeps exactly the most recently used entries up to the limit. |
| `ResultCache.Run` | src/ncscache.c:156-549 | After any run, chains and list hold the same entries, one per key; they are entries asked for and not dropped since, and without clean-ups all of those. |

## Left out

- Allocator.MallocState.Locate: bins are sequences, and this search stands for the links of a doubly linked list that lead to a chunk at once.
- Allocator.MallocState.Extend: covers a system that extends the arena contiguously or refuses; several regions, mmap, memalign, realloc and mallopt are not modelled, and the arena starts after its first extension.
- Allocator.MallocState.Free: mmapped chunks are not modelled; a chunk is freed only while it is in use.
- Automaton.StringAutom: states are unbounded integers instead of shorts, the pattern is not empty, the characters that texts do have are numbered injectively, and unionautom, which reads a negative index, is not modelled.
- BitStream.Stream.DecodeUnary: needs a one bit ahead, anywhere; without one the code reads past the buffer.
- Blocks.Block.Overwrite: the bytes stay within the block; the code does not check even that.
- BlockStore.Store.Write: callers keep within the fragment, which the code does not check; the frequency area and the block to evict are parameters, since the code computes them from floating-point frequencies and from recency; a cached block is a value that each operation reads into a `Blocks.Block`, changes there in place, and puts back.
- BlockStore.Store.Grow: the code's other way out, moving some other record, is dead and left out.
- DuplicateAttribute.DuplicateAttribute.SetValue: a document gets its value once, in an index created in this run and holding fewer than 2^28 documents; a reloaded index never updates its fill limit.
- UniqueAttribute.UniqueAttribute.SetValue: a document gets its value once, while it exists.
- MultiValueAttribute.MultiValueAttribute.AddValue: attributes without an index of values; the keyed ones use the same runs.
- GapBound.Bound: numbers are unbounded, and encodings that carry their own frequencies are left out.
- Primes.Prime: numbers are unbounded, so the overflow of the squared limit near 2^32 does not occur; the integer square root stands for the floating-point one.
- The lexer, error message texts and the assembler listing: tokens are the parser's input, an error is a result.
- UTF-8 decoding, collation and pattern matching: functions of the compiler's environment.
- Growth of code, label and tree buffers by reallocation, and stale pointers into them: buffers are sequences.
- Hash chains and rehashing of the free list, and FCHUNK and VCHUNK paging: a map and growable sequences.
- Slot entries of a block are two sequences beside its bytes, instead of lying in the same 2048 bytes; the room they take is counted.
- Flushing a fragment that is not full, cache pinning and priming, and reopening an index to append to it.
- String and floating-point keys, value checks and multi-value keyed hash tables of the attribute store.
- Sockets, parsing of servers' answers, results and usage counts of cache entries.
- Scoring, searching by word, XML scanning, files and threads.
