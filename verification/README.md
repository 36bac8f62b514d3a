# Verified models of the reveldb data structures and parsers

reveldb is a network front end for LevelDB written in C. This project models the parts of it that
carry the algorithmic weight, in the form the C gives them, and proves what they are for:

* **The boundary-tag allocator** (`src/nedmalloc/malloc.c.h`, the mspace functions). `Mspace` is the
  `malloc_state` with the words of its segment; `Malloc` and `Free` update heads, size words, links, bit
  maps, `dv` and `top` word by word. The words are given their meaning by chunks that tile the segment,
  rings for the small bins and bitwise tries for the large ones (`Chunks`, `Ring`, `Trie`, `TrieHeap`,
  `TrieWalk`, `Bins`). Everything is proved of values first; the class methods then show that their writes
  are those values. `Choice` says which chunk a request must get, `Space` and `Freeing` carry the invariant
  through each branch, and `Client` runs any sequence of calls.
* **The red-black tree** (`src/rbtree.c`) and the **registry of databases** on it (`src/reveldb.c`).
  `RbTree.RbRoot` works on node objects with parent pointers; a tree and a path with a hole (`RbShape`) say
  what they represent. The registry refines a map from names to nodes.
* **The top-down splay tree** with subtree sizes (`src/splaytree.c`), refining a map from keys to data; `SplayDepth`
  shows that every splay folds the path it searched to half its length.
* **The JSON parser and printer** (`src/cJSON.c`). `JsonText` defines what is printed and what is read; the printer
  writes into buffers of precomputed length, the parser moves a position over the text. What reading means is defined
  beside it as a concrete syntax, without any reading function: numerals (`JsonNumbers`), string literals
  (`JsonStrings`), documents with space between their tokens (`JsonGrammar`). `JsonGrammar.SpacedReads` and
  `JsonFound.ReadIsSpaced` say that exactly these texts are read, as exactly these values, `JsonRefused.ReadExactly`
  which texts fail.
* **The glob matcher, the query state machine and the percent decoder** of `src/evhttpx/evhttpx.c`, and the
  **second percent decoder** of `src/utility.c`. `QueryText` says which query texts are refused and which list each
  other text is.
* **The growable string** (`src/tstring.c`).

Where the repository's comments and its code part, the model follows the code:

* `src/nedmalloc/malloc.c.h:140-149` allows small requests to deviate from best fit when no chunk fits exactly. The
  code also deviates when one does: with no chunk in the request's own bin and one in the next, `dv` is passed over
  even if it has exactly the size. `Choice.SmallBestFit` says exactly when a small request is given a best fit,
  `NotBest.PassesOverDv` is a client that is not given it, `Choice.LargeBestFit` shows that large requests always are.
* `compare(i,j)` in `src/splaytree.c:68-70` is documented as the sign of the comparison. It is that exactly when the
  difference fits an int: `SplayPath.CompareSign` says so both ways, `SplayPath.CompareFails` gives a pair.
* `src/cJSON.c:282` joins a surrogate pair with `|` where section 2.2 of RFC 2781 adds.
  `JsonRoundTrip.CombinedWhenRight` gives the exact condition, `JsonRoundTrip.CombinedWrong` a pair it gets wrong.

Expectations the code does not meet, each with its exact condition:

* A query whose last key or value is empty loses its last pair: `QueryText.ParseWhole`, and
  `QueryText.LosesEmptyValue` for the text `a=`.
* The two percent decoders agree exactly on the texts without plus signs whose percent signs are each followed by two
  digits: `UrlDecode.DecodersAgree`, `UrlDecode.DecodersAgreeOnly`, and `UrlDecode.DecodersPart` for `+`, `%2` and
  `%zz`.
* A request for exactly `topsize` bytes is refused, since top never becomes empty: `Choice.FailsOnlyWhenFull`.

Contracts that carry a large predicate through a method write it as an equation, `Valid() == true`: the same
statement, taken as one fact. Names of C variables are kept where a statement of the C is modelled.

## Model

| member | source | states |
|---|---|---|
| Bitmap.NegIsNegation | src/nedmalloc/malloc.c.h:3164 | the two's complement used by least_bit and left_bits is subtraction from zero |
| Bitmap.LeastMarked | src/nedmalloc/malloc.c.h:3164-3180 | for every non-zero map, isolating its least bit and converting it to an index yields the least marked bin |
| Bitmap.MarksAbove | src/nedmalloc/malloc.c.h:3167 | left_bits(idx2bit(i)) & m keeps exactly the marks above i |
| Bitmap.ShiftedMarks | src/nedmalloc/malloc.c.h:5486-5490 | the two low bits of smallmap >> idx are the marks of idx and idx + 1; the shifted map is zero exactly when no bin from idx on is marked |
| Bitmap.NextMarked | src/nedmalloc/malloc.c.h:5506-5508 | the index computed for a small request is the next marked bin: marked, above idx, with none marked between |
| TreeIndex.HighestBitCorrect | src/nedmalloc/malloc.c.h:3122-3128 | the four masking steps find the highest set bit of every 16-bit number |
| TreeIndex.TreeIndexRange | src/nedmalloc/malloc.c.h:3115-3146 | every size lies between the least size of its bin and that of the next |
| TreeIndex.TreeIndexUnique | src/nedmalloc/malloc.c.h:3115-3146 | and in no other bin's range |
| TreeIndex.TreeIndexMonotone | src/nedmalloc/malloc.c.h:3115-3131 | a larger bin index means larger sizes |
| TreeIndex.SteerStep | src/nedmalloc/malloc.c.h:3138-3141 | the top bit of the shifted size tells the half of the bin's span the size lies in, and one more shift steers on inside that half |
| Ring.Insert | src/nedmalloc/malloc.c.h:3828-3844 | four link writes put a chunk into a circular list at its place, all other order kept |
| Ring.Remove | src/nedmalloc/malloc.c.h:3847-3864 | two link writes take exactly one chunk out of a circular list |
| Trie.OneSizeAtDepthZero | src/nedmalloc/malloc.c.h:2628-2657 | two aligned sizes that agree in every bit read are equal: the descent ends before the bits run out |
| Trie.InsertOk | src/nedmalloc/malloc.c.h:3901-3950 | inserting keeps every node on the bit path of its size and one ring for each size |
| Trie.ReplaceByLeaf | src/nedmalloc/malloc.c.h:3983-4037 | a node replaced by a leaf cut from below it leaves a trie of the same chunks without that node |
| TrieWalk.BitsLeft | src/nedmalloc/malloc.c.h:3917-3922 | at a node of another size there are bits left to read |
| TrieWalk.DescentEnd | src/nedmalloc/malloc.c.h:3915-3948 | both ends of the descent, a missing child or an equal size, leave a trie holding the new chunk |
| TrieWalk.HeadDeparts | src/nedmalloc/malloc.c.h:3969-4036 | when the parented member of a ring leaves, another member takes its parent and children |
| TrieWalk.InnerDeparts | src/nedmalloc/malloc.c.h:3969-4036 | when a lone node with children leaves, a leaf from below takes its place and the memory represents the smaller trie |
| TrieWalk.LeafDeparts | src/nedmalloc/malloc.c.h:3969-4036 | when a lone leaf leaves, its place is empty and nothing else changes |
| Bins.SmallInserted | src/nedmalloc/malloc.c.h:3828-3844 | the writes of insert_small_chunk keep all bins in order and add one chunk, in front, to the bin of its size |
| Bins.SmallRemoved | src/nedmalloc/malloc.c.h:3847-3884 | the writes of both unlink forms keep all bins in order and remove that chunk; the bit is cleared exactly when the bin becomes empty |
| Bins.OnlyInSmall | src/nedmalloc/malloc.c.h:3622-3679 | a chunk in a small bin is in no other bin |
| Bins.OnlyInTree | src/nedmalloc/malloc.c.h:3560-3679 | a chunk in a tree bin is in no other bin |
| Chunks.PreviousFree | src/nedmalloc/malloc.c.h:5631-5643 | a clear pinuse bit means the chunk before is free and begins prev_foot bytes earlier |
| Chunks.FreeHasPinuse | src/nedmalloc/malloc.c.h:3523-3543 | the chunk before a free chunk is in use |
| Chunks.TakeWholeOk | src/nedmalloc/malloc.c.h:3317-3319 | handing out a whole free chunk keeps the chunks tiling the segment and every tag true |
| Chunks.SplitFreeOk | src/nedmalloc/malloc.c.h:5518-5520 | handing out the front of a free chunk keeps the tiling and every tag true |
| Chunks.SplitTopOk | src/nedmalloc/malloc.c.h:5564-5569 | cutting a chunk off top keeps the tiling and every tag true |
| Chunks.MergeOk | src/nedmalloc/malloc.c.h:5641-5691 | merging a freed chunk with free neighbours keeps the tiling and every tag true, and leaves no two free chunks adjacent |
| Chunks.GrowTopOk | src/nedmalloc/malloc.c.h:5661-5664 | growing top downwards keeps the tiling and every tag true |
| Chunks.FreeTagsOk | src/nedmalloc/malloc.c.h:5613-5713 | freeing a live chunk keeps all tags in order, ends its life and changes no other live chunk |
| Chunks.Conservation | src/nedmalloc/malloc.c.h:3681-3710 | bytes in live chunks, in free chunks with dv, and in top add up to the segment in every state |
| Chunks.LiveDisjoint | src/nedmalloc/malloc.c.h:3546-3557 | a live chunk shares no byte with any other chunk and lies inside the segment |
| Chunks.LiveDeterminesAll | src/nedmalloc/malloc.c.h:2391-2426 | two heaps with the same live chunks have the same free chunks and the same top: coalescing leaves no freedom |
| Chunks.FreeUndoesMalloc | src/nedmalloc/malloc.c.h:5476-5713 | after an allocation and the release of what it gave, chunks, sizes and top are as before, whichever branches were taken |
| Chunks.FreesCommute | src/nedmalloc/malloc.c.h:5613-5713 | releasing two chunks in either order leaves the same chunks |
| Chunks.AllFreed | src/nedmalloc/malloc.c.h:5613-5713 | with nothing live there are no chunks left and top is the whole segment |
| BestFit.WrapTest | src/nedmalloc/malloc.c.h:4613-4625 | the unsigned test trem < rsize, rsize starting at -nb, accepts exactly the chunks that fit and are smaller than the candidate: never one too small |
| BestFit.PathTurns | src/nedmalloc/malloc.c.h:4621-4638 | each turn along the bits of nb keeps the best fit of the whole bin at the candidate, on the rest of the path, or in the last right subtree passed by |
| BestFit.MinSearchStep | src/nedmalloc/malloc.c.h:4650-4657 | each turn down the leftmost path keeps the least size at the candidate or below |
| BinSearch.NextBin | src/nedmalloc/malloc.c.h:4640-4648 | when nothing fits in the bin of nb, the best of all is the least chunk of the next marked bin, or there is none |
| BinSearch.FirstBin | src/nedmalloc/malloc.c.h:4686-4689 | for a small request the least large chunk is in the first marked tree bin |
| BinSearch.BestOfAll | src/nedmalloc/malloc.c.h:4611-4657 | the best of the first bin with a fit is the best of all bins |
| Choice.PickFront | src/nedmalloc/malloc.c.h:5488-5526 | the front of the least marked small bin from idx on is the chunk the allocator promises |
| Choice.PickFirst | src/nedmalloc/malloc.c.h:5528-5531 | with the small bins from idx on empty and dv too small, the least large chunk is the best fit of all |
| Choice.PickDv | src/nedmalloc/malloc.c.h:5501-5562 | dv serves a small request only when no small bin holds an all but exact fit |
| Choice.PickLarge | src/nedmalloc/malloc.c.h:4659-4660 | the comparison with the wrapped dvsize - nb lets the tree chunk win exactly when dv does not fit or is larger |
| Choice.RequestSizeRange | src/nedmalloc/malloc.c.h:2497-2506 | the padded size is a multiple of the alignment, has room for the request and its overhead, exceeds it by no more than padding demands, and does not overflow |
| Choice.FailsOnlyWhenFull | src/nedmalloc/malloc.c.h:5534-5577 | corollary of the contract of malloc: null if and only if the request is over the limit, or no free chunk fits and top is no larger than the padded size |
| Choice.LargeBestFit | src/nedmalloc/malloc.c.h:140-149 | a large request that is not left to top gets a smallest free chunk that fits, dv included |
| Choice.SmallBestFit | src/nedmalloc/malloc.c.h:140-149 | a small request that is not left to top gets a smallest free chunk that fits if and only if its own bin is marked; or the next one is and dv does not fit exactly; or neither is and no binned chunk that fits is smaller than a dv that fits |
| NotBest.PassesOverDv | src/nedmalloc/malloc.c.h:5488-5499 | a run of malloc and free on a new mspace after which dv has exactly the padded size of the request, and a chunk of eight bytes more is handed out |
| Choice.ServedMemory | src/nedmalloc/malloc.c.h:3546-3557 | memory handed out is 8-aligned, large enough, inside the segment and disjoint from every chunk live before, which all stay as they were |
| Freeing.IntoDv | src/nedmalloc/malloc.c.h:5645-5651 | a freed chunk behind dv with a chunk in use on its other side: dv grows over it, all in order |
| Freeing.IntoTop | src/nedmalloc/malloc.c.h:5661-5672 | a freed chunk in front of top joins it with what is free before it, even if that was dv |
| Freeing.OntoDv | src/nedmalloc/malloc.c.h:5673-5678 | a freed chunk in front of dv becomes the start of dv |
| Freeing.WithNext | src/nedmalloc/malloc.c.h:5679-5688 | a freed chunk in front of a binned one merges with it and with what is free before it |
| Freeing.Alone | src/nedmalloc/malloc.c.h:5690-5691 | with a chunk in use behind, the freed chunk and what is free before it become one |
| Mspace.Mspace.constructor | src/nedmalloc/malloc.c.h:5378-5400 | a new mspace satisfies the whole invariant with no chunks, bins or dv: all its room behind the aligned malloc_state is top |
| Mspace.CreateMspaceWithBase | src/nedmalloc/malloc.c.h:5420-5431 | null exactly when the capacity is too small or too near the end of the address space, else a new mspace over that memory |
| Mspace.Mspace.InsertSmallChunk | src/nedmalloc/malloc.c.h:3828-3844 | the bins stay in order and hold one chunk more |
| Mspace.Mspace.UnlinkSmallChunk | src/nedmalloc/malloc.c.h:3847-3864 | the bins stay in order and hold all but that chunk |
| Mspace.Mspace.UnlinkFirstSmallChunk | src/nedmalloc/malloc.c.h:3867-3882 | the chunk at the front of a marked bin, of the bin's size, is out of the bins, which stay in order |
| Mspace.Mspace.ReplaceDv | src/nedmalloc/malloc.c.h:3887-3895 | a loose chunk becomes dv and the old dv goes to its bin; the whole invariant holds |
| Mspace.Mspace.FindInsertionPoint | src/nedmalloc/malloc.c.h:3915-3948 | the descent, which terminates, ends at a node of the size or at the missing child where that size belongs |
| Mspace.Mspace.InsertLargeChunk | src/nedmalloc/malloc.c.h:3901-3950 | all tries, rings, roots and bits stay in order and hold one chunk more |
| Mspace.Mspace.CutRightmostLeaf | src/nedmalloc/malloc.c.h:3984-3997 | the leaf found by the descent is cut off, the rest of the trie standing |
| Mspace.Mspace.UnlinkLargeChunk | src/nedmalloc/malloc.c.h:3969-4038 | all tries, rings, roots and bits stay in order and hold all but that chunk |
| Mspace.Mspace.SearchPath | src/nedmalloc/malloc.c.h:4617-4639 | the walk ends with an exact fit or where the search for the least may go on |
| Mspace.Mspace.SearchLeftmost | src/nedmalloc/malloc.c.h:4650-4657 | the leftmost walk ends with the best fit |
| Mspace.Mspace.FindLarge | src/nedmalloc/malloc.c.h:4611-4657 | the candidate is null exactly when no large chunk fits, else a smallest one that fits, with its remainder |
| Mspace.Mspace.FindFirst | src/nedmalloc/malloc.c.h:4682-4697 | the candidate is the smallest of all large chunks |
| Mspace.Mspace.TmallocLarge | src/nedmalloc/malloc.c.h:4611-4679 | best fit over all free chunks when a tree chunk beats dv; null exactly when dv is as good, or nothing fits; the invariant is kept |
| Mspace.Mspace.TmallocSmall | src/nedmalloc/malloc.c.h:4682-4717 | the smallest chunk that fits is handed out, its remainder becoming dv; the invariant is kept |
| Mspace.Mspace.FromSmallBins | src/nedmalloc/malloc.c.h:5481-5533 | the small branch hands out the promised chunk or leaves everything alone, the request being dv's or nothing fitting |
| Mspace.Mspace.FromTreeBins | src/nedmalloc/malloc.c.h:5536-5542 | the same for large requests |
| Mspace.Mspace.SplitDv | src/nedmalloc/malloc.c.h:5547-5552 | dv's front is handed out, its rest is dv; the invariant is kept |
| Mspace.Mspace.ExhaustDv | src/nedmalloc/malloc.c.h:5553-5558 | dv is handed out whole; the invariant is kept |
| Mspace.Mspace.TakeTop | src/nedmalloc/malloc.c.h:5564-5574 | top's front is handed out; the invariant is kept |
| Mspace.Mspace.Malloc | src/nedmalloc/malloc.c.h:5476-5592 | for every valid heap and every request: the whole invariant is kept; the result is the promised chunk, handed out whole or cut to the padded size as its size demands, with every tag and dv as they must be then, its size less than MIN_CHUNK_SIZE above the padded one, all other live chunks untouched; or null with nothing changed and nothing that fits |
| Mspace.Mspace.FreeIntoDv | src/nedmalloc/malloc.c.h:5648-5652 | the branch keeps the invariant, the tags becoming those of that chunk freed, and dv what it must be |
| Mspace.Mspace.FreeIntoTop | src/nedmalloc/malloc.c.h:5661-5672 | the branch keeps the invariant, the tags becoming those of that chunk freed, and dv what it must be |
| Mspace.Mspace.FreeOntoDv | src/nedmalloc/malloc.c.h:5673-5678 | the branch keeps the invariant, the tags becoming those of that chunk freed, and dv what it must be |
| Mspace.Mspace.FreeWithNext | src/nedmalloc/malloc.c.h:5679-5703 | the branch keeps the invariant, the tags becoming those of that chunk freed, and dv what it must be |
| Mspace.Mspace.FreeAlone | src/nedmalloc/malloc.c.h:5690-5703 | the branch keeps the invariant, the tags becoming those of that chunk freed, and dv what it must be |
| Mspace.Mspace.Free | src/nedmalloc/malloc.c.h:5613-5713 | for every valid heap and every live chunk: the whole invariant is kept, the new tags are those of the chunk merged with its free neighbours or top, and dv is extended, lost to top or left alone accordingly; null does nothing |
| Client.Run | src/nedmalloc/malloc.c.h:5476-5713 | for any sequence of malloc and free: one state for each operation, each related to the one before by what malloc or free promises of that operation and its answer, skipped operations changing nothing; in every state the invariant holds and the client holds exactly the live chunks; the last state is the mspace's |
| Client.BlocksApart | src/nedmalloc/malloc.c.h:3546-3557 | in every state of any run the blocks held are aligned, inside the segment, and share no byte |
| Client.BlockIsNew | src/nedmalloc/malloc.c.h:5476-5592 | in any run malloc never answers with a block held at that time |
| Client.Balanced | src/nedmalloc/malloc.c.h:3681-3710 | in every state of any run live, free and top bytes are the segment |
| Client.AllReturned | src/nedmalloc/malloc.c.h:5613-5713 | whenever in a run the client holds nothing, there is one top, no chunk, no dv and nothing in the bins |
| RbShape.PlugRep | include/reveldb/util/rbtree.h:138-168 | memory represents a tree exactly when it represents a subtree and its surroundings: links and parent links agree everywhere |
| RbShape.RotatePlug | src/rbtree.c:41-85 | the writes of a rotation turn the represented tree at that node and keep every link consistent |
| RbShape.RotateInOrder | src/rbtree.c:41-85 | a rotation changes no order |
| RbColor.Grandparent | src/rbtree.c:91-93 | a red parent has a black parent: gparent is never null |
| RbColor.PushedOk | src/rbtree.c:99-106 | recolouring at a red uncle moves the one red-red edge two levels up |
| RbColor.RaisedOk | src/rbtree.c:109-120 | with a black uncle the rotations end the repair |
| RbColor.Sibling | src/rbtree.c:161-168 | the sibling of a node one black short is never null, nor are a red sibling's children |
| RbColor.PassedUp | src/rbtree.c:169-175 | a black sibling with black children turned red passes the missing black to the parent |
| RbColor.MendedOk | src/rbtree.c:185-190 | a red far nephew lets one rotation restore all rules |
| RbColor.HeightBound | src/reveldb.c:60-78 | the height of a red-black tree is at most twice the binary logarithm of its size plus one |
| RbErase.CutColors | src/rbtree.c:279-296 | replacing a node by its only child breaks no rule, or leaves exactly one black missing there |
| RbErase.SpliceOk | src/rbtree.c:243-274 | the splice of the in-order successor leaves a consistent tree with the successor in the erased node's place |
| RbErase.SpliceOrder | src/rbtree.c:243-274 | the splice loses the erased node and nothing else |
| RbErase.ErasedOrder | src/rbtree.c:232-297 | what is left is the old in-order sequence without the node |
| RbTree.RbRoot.RotateLeft | src/rbtree.c:41-62 | the pointers after the statements are those of the rotated tree, root pointer included |
| RbTree.RbRoot.RotateRight | src/rbtree.c:64-85 | the same to the other side |
| RbTree.RbRoot.LinkNode | include/reveldb/util/rbtree.h:206-213 | a red leaf stands at the missing child chosen, or at the root |
| RbTree.RbRoot.InsertColor | src/rbtree.c:87-150 | from any tree whose only fault may be the new red node under a red parent: terminates with a red-black tree of the same order |
| RbTree.RbRoot.InsertTurn | src/rbtree.c:91-147 | each turn keeps the order and leaves at most one red-red edge, nearer to the root or none |
| RbTree.RbRoot.InsertAt | src/rbtree.c:87-150 | linking and rebalancing give a red-black tree with the node in order where it was hung |
| RbTree.RbRoot.EraseColor | src/rbtree.c:152-230 | from any tree one black short at one place: terminates with a red-black tree of the same order |
| RbTree.RbRoot.FixLeft | src/rbtree.c:159-192 | each turn for a left child keeps the order and mends the tree, or moves the missing black up or to a red node |
| RbTree.RbRoot.FixRight | src/rbtree.c:193-226 | the same for a right child |
| RbTree.RbRoot.Erase | src/rbtree.c:232-297 | for every red-black tree and every node of it: a red-black tree with consistent parents whose in-order sequence is the old one without the node |
| RbTree.RbRoot.FirstNode | src/rbtree.c:370-380 | the first node in order, null for the empty tree |
| RbTree.RbRoot.LastNode | src/rbtree.c:382-392 | the last node in order, null for the empty tree |
| RbTree.RbRoot.Next | src/rbtree.c:394-420 | the node after the given one in order, null after the last |
| RbTree.RbRoot.Prev | src/rbtree.c:422-444 | the node before the given one in order, null before the first |
| RbTree.RbRoot.WalkForward | src/rbtree.c:370-420 | the walk by rb_next visits every node exactly once, in order, and ends |
| RbTree.RbRoot.WalkBackward | src/rbtree.c:382-444 | the walk by rb_prev visits the reverse |
| RbWalk.StepsInverse | src/rbtree.c:394-444 | the two steps undo each other wherever both are defined |
| RbTree.RbRoot.ReplaceNode | src/rbtree.c:446-465 | the new node stands in order where the victim stood, in a red-black tree |
| Registry.StrcmpTransitive | src/reveldb.c:68 | strcmp orders names transitively |
| Registry.StrcmpEqual | src/reveldb.c:68-75 | and is zero exactly for equal names |
| Registry.StrcmpFirst | src/reveldb.c:68 | the first character in which two names differ decides, and before it the end of the shorter one |
| Registry.ContentsExact | src/reveldb.c:60-103 | the map read off an ordered tree holds every node under its name and nothing else |
| Registry.SearchDb | src/reveldb.c:60-78 | returns the node registered under the name or null, in at most as many steps as the tree is high |
| Registry.InsertDb | src/reveldb.c:80-103 | returns 1 exactly when the name was absent, the map then gaining just this node; otherwise 0 and the map unchanged |
| Registry.EraseDb | src/rbtree.c:232-297 | erasing a registered node removes its name from the map and nothing else |
| Registry.Run | src/reveldb.c:60-103 | any run of inserts, searches and erasures answers as the map does, the tree staying red-black and ordered throughout |
| Registry.SearchSteps | src/reveldb.c:60-78 | with n databases no search looks at more than 2*log2(n+1) nodes |
| SplayPath.CompareSign | src/splaytree.c:68-70 | the wrapped difference has the sign of the comparison if and only if the difference fits an int |
| SplayPath.CompareFails | src/splaytree.c:68-70 | INT_MIN compares as greater than 1 |
| SplayShape.RotateOk | src/splaytree.c:92-96 | a rotation on the way down keeps order, nodes and sizes, on either side |
| SplayShape.LinkOk | src/splaytree.c:99-102 | linking into a spine keeps the middle tree and both spines in order, and the counted weight right |
| SplayDepth.FoldZigRight | src/splaytree.c:91-102 | a turn to the left with its rotation takes two nodes off the search path for one link of a spine |
| SplayDepth.FoldRight | src/splaytree.c:99-102 | a turn without one is paid for by the turn to the other side, or the end, behind it |
| SplayDepth.PathHalved | src/splaytree.c:87-142 | assembled, every node of a search path of d nodes is within the top d / 2 + 2 levels |
| SplayRepair.RepairStep | src/splaytree.c:130-137 | one turn of a counting-down loop gives one spine node its true size |
| SplayRepair.AssembledOk | src/splaytree.c:139-142 | the four assembling writes make one tree of the corrected spines and the root |
| Splay.SplayTree.Descend | src/splaytree.c:87-120 | the loop terminates with everything passed on the right sides in the spines, in order, at the key's node or at a neighbour of where it belongs; each spine has at most half as many links as the search path has nodes |
| Splay.SplayTree.RepairRight | src/splaytree.c:130-133 | the loop makes every size field along that spine right |
| Splay.SplayTree.RepairLeft | src/splaytree.c:134-137 | the loop makes every size field along that spine right |
| Splay.SplayTree.Splay | src/splaytree.c:77-145 | for every ordered, correctly sized tree: the same nodes in the same order, every size right, everything left of the root below the key and everything right of it above, and every node of a search path of d nodes within the top d / 2 + 2 levels |
| SplayMap.RootDecides | src/splaytree.c:155-189 | after a splay the key is in the tree if and only if it is at the root |
| SplayMap.RootNext | src/splaytree.c:77-145 | no key lies strictly between the sought one and the root's |
| SplayMap.NoRightChild | src/splaytree.c:193-194 | the left subtree splayed by the deleted key has a root without right child, so the join loses nothing |
| Splay.SplayTree.Insert | src/splaytree.c:147-178 | the map gains the key with its data, or is unchanged, the old data kept, if the key was there |
| Splay.SplayTree.Delete | src/splaytree.c:180-204 | the map loses the key and nothing else, every size field right, tsize - 1 included |
| Splay.SplayTree.Run | src/splaytree.c:147-204 | any run of insertions and deletions from empty answers to a finite map |
| JsonPrinter.EscapedLength | src/cJSON.c:335-342 | the first loop computes exactly the length of the escaped text |
| JsonPrinter.PrintString | src/cJSON.c:325-388 | the buffer of the computed length takes the quoted text with the escapes of section 7 of RFC 8259 and its terminator, without a write outside it |
| JsonPrinter.PrintNumber | src/cJSON.c:192-215 | every 32-bit integer and its terminator fit the 21 bytes |
| JsonPrinter.CollectElems | src/cJSON.c:583-592 | the entries are the printed children, and the length is the sum the array needs |
| JsonPrinter.PrintArray | src/cJSON.c:559-637 | the buffer of the computed length takes every byte written, terminator included, at every depth in both formats |
| JsonPrinter.CollectMembers | src/cJSON.c:733-745 | names and entries are the printed ones, and the length is the sum the object needs |
| JsonPrinter.PrintObject | src/cJSON.c:702-806 | the same for objects, with names, tabs and line ends |
| JsonPrinter.PrintValue | src/cJSON.c:481-512 | the buffer holds the text of the value |
| JsonPrinter.PrintItem | src/cJSON.c:432-442 | the same at depth zero, formatted or not |
| Chars.HexTable | src/cJSON.c:268-278 | the sixteen digits, letters in either case, have their values, and no other character is one |
| JsonNumbers.NumeralReads | src/cJSON.c:150-189 | every numeral, its sign, digits, fraction and exponent in either sign, reads as its value, up to where it ends |
| JsonNumbers.NumeralFound | src/cJSON.c:150-189 | whatever is read as a number is a numeral, and the number its value |
| JsonNumbers.ValueInDigits | src/cJSON.c:160-183 | the value times ten for each digit behind the point and for a negative exponent is all digits as one number, times ten to a positive exponent, in whole numbers |
| JsonStrings.LiteralReads | src/cJSON.c:220-322 | every text that spells a string in the sense of section 7 of RFC 8259, each character as it stands, by its escape of two characters or by a code, reads as that string |
| JsonStrings.BodyFound | src/cJSON.c:220-322 | whatever is read as a string is spelled by what stands before the quote, or the end of the text |
| JsonStrings.EscapeSpells | src/cJSON.c:325-388 | what is printed spells the string and keeps to section 7 of RFC 8259 |
| JsonStrings.EscapeTable | src/cJSON.c:350-384 | by code numbers: 8, 9, 10, 12, 13, 34 and 92 have escapes of two characters, the rest below 32 is printed in four digits, everything else as it stands |
| JsonStrings.Utf8Is | src/cJSON.c:285-307 | the bytes of a code point have the forms of section 3 of RFC 3629, and their bits read back are the code point |
| JsonGrammar.DocReads | src/cJSON.c:445-699 | every document, at every depth, with any run of characters up to the blank between its tokens, is read as what it means, up to where it ends |
| JsonGrammar.SpacedReads | src/cJSON.c:405-429 | so every text of a value is read as that value, behind any leading space, whatever follows that cannot continue a number |
| JsonFound.ReadIsSpaced | src/cJSON.c:405-699 | and only texts of a value are read as it, but that a string at the very end may lack its quote |
| JsonRefused.BodyUnspecified | src/cJSON.c:220-322 | the bytes of a literal are unspecified if and only if it goes well up to a backslash at the end of the text, or to a `\u` without four digits |
| JsonRefused.ReadExactly | src/cJSON.c:405-699 | a text gives a value if and only if it begins with a document; a text that gives none fails, unless it holds such a literal |
| JsonRoundTrip.QuoteRead | src/cJSON.c:220-388 | every NUL-free string printed reads back, whatever text follows |
| JsonRoundTrip.DocOfIs | src/cJSON.c:445-806 | what is printed is the text of the value with exactly the spaces, tabs and line ends of the format: a blank behind an array's comma, each member in a line indented by its depth, a tab behind its colon |
| JsonRoundTrip.TabsAre | src/cJSON.c:779-802 | as many tabs as the depth says |
| JsonRoundTrip.PrintRead | src/cJSON.c:220-806 | reading a printed value gives it back and stops right behind it, at every depth, in both formats, whatever follows that cannot continue a number |
| JsonRoundTrip.RoundTrip | src/cJSON.c:415-442 | for every value of null, booleans, 32-bit integers, NUL-free strings, arrays and objects, parsing the print gives the value |
| JsonRoundTrip.CombinedWhenRight | src/cJSON.c:282 | the joined surrogates are the code point of section 2.2 of RFC 2781 if and only if bit 16 of the twenty-bit offset is clear |
| JsonRoundTrip.CombinedWrong | src/cJSON.c:282 | U+20000 is read as U+10000 |
| JsonParser.SkipSpace | src/cJSON.c:406-412 | everything up to the first character above 32 is passed, never beyond the end |
| JsonParser.CountString | src/cJSON.c:236-240 | the length loop's count, or the news that it ran off the end of the text |
| JsonParser.ParseString | src/cJSON.c:220-322 | the text up to the closing quote with its escapes replaced, in a buffer of the counted length that is never overrun; a text running off its end is reported as undefined |
| JsonParser.ParseNumber | src/cJSON.c:150-189 | the exact decimal value of sign, digits, fraction and exponent |
| JsonParser.ParseValue | src/cJSON.c:445-478 | agrees with the reading function on every NUL-free text, failures included |
| JsonParser.ParseArray | src/cJSON.c:515-556 | the same for arrays |
| JsonParser.ParseObject | src/cJSON.c:640-699 | the same for objects |
| JsonParser.Parse | src/cJSON.c:415-429 | the result of reading the text behind its leading space: the value, failure, or undefined |
| JsonParser.PrintThenParse | src/cJSON.c:415-442 | the buffers in between included, printing and parsing is the identity |
| Glob.MatchesIsSplits | src/evhttpx/evhttpx.c:533-593 | matching by recursion on the pattern is the same as cutting the text into pieces, any piece for a star |
| Glob.StarSkips | src/evhttpx/evhttpx.c:547-566 | a star matches exactly when the rest of the pattern matches some suffix |
| Glob.Collapse | src/evhttpx/evhttpx.c:548-551 | two stars match what one does |
| Glob.MatchStar | src/evhttpx/evhttpx.c:547-566 | trying the non-empty suffixes only is enough |
| Glob.GlobMatch | src/evhttpx/evhttpx.c:533-593 | returns true if and only if the text splits into pieces matching the pattern, and terminates |
| Query.ParseQuery | src/evhttpx/evhttpx.c:2358-2551 | on every text, whatever it holds, the buffers give what the machine on values gives, no write leaves them, and the index guard never fires |
| QueryText.ParseNone | src/evhttpx/evhttpx.c:2358-2551 | exactly these texts are refused: slashes and then something else than a question mark; a percent sign with one digit and a character that is none; one without digits so near to the end of a short text that the check of the buffer fires |
| QueryText.ParseJoin | src/evhttpx/evhttpx.c:2358-2551 | behind nothing, a question mark, or slashes and a question mark, a list of pairs with '&' or ';' between each two comes back in order as C strings, but for a last pair with an empty key or value |
| QueryText.EveryText | src/evhttpx/evhttpx.c:2358-2551 | every text that is not refused is such a list behind such a prefix, or slashes alone, which give no pairs |
| QueryText.UpToNulIs | src/evhttpx/evhttpx.c:2074-2116 | a key or value is received up to its first zero byte |
| QueryText.ParseVerbatim | src/evhttpx/evhttpx.c:2358-2551 | a list of well-formed pairs comes back verbatim, but for a last pair with an empty half |
| QueryText.ParseWhole | src/evhttpx/evhttpx.c:2538-2540 | it comes back whole if and only if its last pair has both a key and a value |
| QueryText.LosesEmptyValue | src/evhttpx/evhttpx.c:2538-2540 | the text "a=" yields no pair |
| QueryText.TwoPairs | src/evhttpx/evhttpx.c:2473-2487 | "?a=1;b=2" yields two pairs |
| QueryText.RefusedTexts | src/evhttpx/evhttpx.c:2358-2551 | "%4g=1", "%z" and "/x" are refused |
| UrlDecode.UnescapeInverts | src/evhttpx/evhttpx.c:2280-2356 | the state machine undoes every percent-encoding in the sense of section 2.1 of RFC 3986 |
| UrlDecode.ByteByPlace | src/utility.c:177-191 | the first digit counts sixteen times, the second once |
| UrlDecode.UnescapeParts | src/evhttpx/evhttpx.c:2305-2352 | what the machine makes of each part of a text, percent signs without two digits included |
| UrlDecode.EncodingsAreWellFormed | src/evhttpx/evhttpx.c:2305-2352 | every encoding has two digits behind each percent sign |
| UrlDecode.WellFormedEncodes | src/evhttpx/evhttpx.c:2305-2352 | every text with two digits behind each percent sign is an encoding of what the machine reads in it |
| UrlDecode.DecodersAgree | src/utility.c:154-207 | on plus-free, well-formed texts both decoders give the same |
| UrlDecode.NeverLonger | src/utility.c:170-204 | on no text does the state machine give more characters than the loop |
| UrlDecode.DecodersAgreeOnly | src/utility.c:154-207 | on every other text they differ |
| UrlDecode.DecodersPart | src/utility.c:193-199 | "+", "%2" and "%zz" are three texts on which they differ |
| UrlDecode.DecodeInverts | src/utility.c:154-207 | so the loop undoes every percent-encoding without plus signs |
| UrlDecode.DecodeParts | src/utility.c:170-204 | what the loop makes of each part of a text: plus signs are blanks, and percent signs without two digits stand for themselves |
| UrlDecode.UnescapeString | src/evhttpx/evhttpx.c:2280-2356 | -1 without a buffer, else 0 and the bytes of the machine on values, which fit a buffer of the length of the text |
| UrlDecode.SafeUrldecode | src/utility.c:154-207 | the buffer takes the decoded bytes and the terminator |
| TString.NearestPower | src/tstring.c:84-96 | the least doubling of base that reaches num, without leaving 32 bits; the largest unsigned number where doubling would |
| TString.SelfInserted | src/tstring.c:363-391 | the three copies put the slice into the gap as it was before any of them, wherever it lies |
| TString.OtherInserted | src/tstring.c:392-407 | the same for bytes from elsewhere |
| TString.InsertedAt | src/tstring.c:343-411 | where each byte of the result comes from; a negative place is the end |
| TString.Memcpy | src/tstring.c:378-391 | the two copies that may not overlap never do: each call meets the precondition |
| TString.EncodedDecodes | src/tstring.c:650-696 | every 32-bit character is encoded without loss |
| TString.FirstByte | src/tstring.c:650-696 | the first byte tells the length |
| TString.UnicharIsUtf8 | src/tstring.c:650-696 | up to the last code point the encoding is the one the JSON reader writes |
| TString.TString.constructor | src/tstring.c:110-122 | an empty, terminated string |
| TString.TString.MaybeExpand | src/tstring.c:98-108 | room for n more bytes and a terminator, the content kept whether or not the buffer moves |
| TString.TString.InsertLen | src/tstring.c:343-411 | the result is old[..pos] + val + old[pos..], val a slice of the same buffer or not, terminated and inside its allocation |
| TString.TString.InsertC | src/tstring.c:616-635 | the same for one byte |
| TString.TString.InsertUnichar | src/tstring.c:649-701 | the same for the bytes of a character |
| TString.TString.OverwriteLen | src/tstring.c:734-756 | the bytes replace those at pos and may reach beyond the old end |
| TString.TString.Erase | src/tstring.c:770-789 | exactly the bytes named are gone |
| TString.TString.SetSize | src/tstring.c:311-322 | the length asked for, the bytes both lengths share unchanged |
| TString.TString.Truncate | src/tstring.c:289-296 | at most the first bytes asked for remain, unchanged |

## Left out

- Everything over libraries that are not part of this model: LevelDB, sockets, SSL, event loops, request callbacks
  (`src/rpc.c`, `src/rest.c`), hooks and virtual hosts.
- `src/iter.c`, `src/snapshot.c`, `src/writebatch.c`: their registries repeat that of `src/reveldb.c`.
- `_rpc_levenshtein`, configuration files, logging, memory statistics, printf-style string functions, case mapping:
  they would only add easy members, or compute something else than their names say.
- Mspace.Mspace.Malloc: system memory is never obtained, as if sys_alloc failed; MAX_REQUEST and above fail at once.
- Mspace.Mspace.Free: corruption checks, footers, locks, trimming and the release of unused segments are not modelled;
  the caller must pass a live chunk or null.
- Mspace.Mspace.constructor: the end of the memory is a multiple of 8, and the malloc_state fits behind the alignment of
  the base; without the first the C keeps a top size whose low bits fall on the flags.
- Mspace.CreateMspaceWithBase: the same two conditions on its memory.
- Heads are a size and two bits in a record, not one word; likewise a tree node's parent and colour.
- Reallocation, aligned allocation and the functions over several mspaces.
- TreeIndex.TreeIndexRange: the portable computation; the one for GNU C on x86 truncates to 32 bits, and agrees only below
  2^40.
- `src/rbtree.c:299-368`, the augmentation callbacks.
- Splay.SplayTree.Run: keys come from one window of 2^31 values, so that all differences fit an int; `Near` states the
  condition for single operations. Beyond it the C standard leaves the subtraction undefined, and `Wrap32` takes it to
  wrap. The caller's variable for the root is a field of the class.
- JsonParser.ParseNumber: arithmetic is exact where the C rounds to doubles, and the int copy of the value is not kept.
- JsonPrinter.PrintNumber: integers of 32 bits; the floating formats are not modelled.
- JsonParser.ParseString: `\u` without four hexadecimal digits, or an escape that reaches beyond the terminator, is
  Undefined, and nothing is said about it. With one to three digits sscanf("%4x") reads those and the position still
  skips four characters, so that the length loop and the copying loop may end the string at different places; with none
  the variable stays unset; blanks, signs and 0x, which sscanf accepts as well, are not modelled.
- JSON items are values, not linked records; entries and names under construction are texts, and freeing them is not
  modelled. Allocation always succeeds, as it does everywhere here.
- Glob.GlobMatch: null arguments.
- Query.ParseQuery: the collected list is a sequence; allocation failure is not modelled.
- UrlDecode.UnescapeString: a null pointer to the buffer's pointer; the pointer given back, which the C leaves unmoved.
- TString.TString.InsertLen: lengths stay below 2^31; a negative length needs a value that is not empty, as the C asserts; a
  source inside the string does not reach beyond its end.
- TString.TString.OverwriteLen: the value comes from outside the string; from inside it, the buffer may be moved away from
  under it, and memcpy be asked to overlap.
- TString.TString.SetSize: bytes added by growing are whatever the buffer holds.
- TString.TString.Truncate: a negative length, which the C does not refuse but has no string for.
- `tstring_append`, `tstring_prepend` and their variants, which call the insertions modelled.
