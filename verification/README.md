# Verified models of a C data-structure library

A Dafny model of the hard cores of a C library of data structures that is built on a
vendored string library: the string engine, the AVL tree, the radix map, the ternary
search tree, two ring buffers, array sorts, the hash map and substring search. Code that
changes memory is modelled by classes and by methods over arrays; each method is proved
against a function or predicate of the old state, and what the library promises is proved
about those.

| files | what they model |
|---|---|
| `Bstring`, `Search`, `Replace` | the mutable string, `binstr`, `findreplaceengine` |
| `Stream`, `StreamSplit` | `bStream`: line and block reads, unread, splitting a stream |
| `Splits`, `SplitJoin` | splitting a string at bytes or at a string, joining |
| `AvlShape`, `Avl`, `AvlRuns`, `TreeRuns` | the AVL tree as a value, as linked nodes, and over runs of both |
| `Radix`, `RadixMap` | stable sorting by digits; the radix-sorted map |
| `TstShape`, `Tstree`, `Tracer` | the ternary search tree; means along a chain of ancestors |
| `Ring`, `RingRuns` | a bounded byte queue, the looped ring and the mirrored ring; runs of both rings |
| `DArraySorts`, `Darray`, `HashShape`, `Hashmap` | quicksort, heapsort, the growable array, the hash map |
| `Horspool` | substring search with a skip table |
| `Orders`, `Wrappers` | comparison callbacks; shared types |

## How things are modelled

- Text and streams are byte sequences; a `Bstring` is its block with `slen` and `mlen`.
- Comparison callbacks are pure functions whose results form a total preorder
  (`Orders.TotalPreorder`). Keys, data and values are abstract types.
- Linked nodes: a ghost tree names the heap node of every place (`Avl.Linked`,
  `Tstree.Linked`); the methods take that tree as a ghost parameter. What the operations
  do to the tree as a value is stated by the functions of `AvlShape` and `TstShape`, and
  the properties are proved about those functions.
- The reader behind a `bStream` is a source of bytes with the sizes of the chunks it will
  give. Nothing is assumed of the sizes, and every size a reader may give occurs
  (`Stream.EveryChunk`), so every contract in `Stream` holds for every chunking.
- Integers are mathematical, with the ranges the code relies on as preconditions. The
  32-bit overflows that `findreplaceengine` and `bjoinblk` test for are modelled as error
  results. Doubles are `real`.

## Where code and documentation disagree

- `bsreada` is documented to read `n` bytes, or what is left. With an empty buffer and
  room in the destination it returns after one call of the reader
  (src/lcthw/bstrlib.c:2250-2263). `Stream.ReadUpTo` states exactly how many bytes come, as
  a function of the reader's sizes. `Stream.PromiseKept` proves that the promise holds for
  every reader exactly when this short cut is not taken, or one byte is asked for, or at
  most one is left; `Stream.ShortRead` is a call that falls short.
- `bsplitstr` is documented to divide at every occurrence of the separator. Its loop goes
  on one byte behind each separator, so a separator that follows at once stays in the
  text. `Splits.SkippingIsExact` proves that the pieces are all pieces exactly when none of
  the inner ones is empty; `Splits.SkippingMisses` is a case where they are not. Joining
  gives the text back in every case (`Splits.JoinOfStringSplit`).
- `bsplitstrcb` is documented to iterate the whole string once for an empty separator
  (src/lcthw/bstrlib.c:2742-2743). It makes one call for every byte (2761-2765), as
  `Splits.SinglesExact` proves.
- A zero-length `RingBuffer_read` on a full looped ring moves the start to the front of the
  block, which turns the contents round unless they start there. `RingRuns.LoopedRun` is the
  ring over every run, this included. `RingRuns.GuardIsExact` proves that the ring is the
  queue throughout a run, whatever the bytes, exactly when no zero-length read finds it full
  and off the front; on `RingRuns.TurnedRun` they part.
- The code behind the returns in `AVL_node_delete` (src/bstree.c:423-428) is never reached:
  deletion does not rebalance. `AvlShape.DeleteAvl` proves that a delete on a balanced tree
  keeps the balance exactly when the key is absent, or the root of the whole tree is
  unlinked, or the parent of the unlinked node has subtrees of equal height
  (`AvlShape.Keeps`). `AvlShape.StaleHeight` and `AvlShape.LostBalance` are trees on which it
  fails. Order, links and contents hold for all runs, and `AvlShape.Rotate` shows that later
  sets meet stale heights safely.
- The skip table of the Horspool search has no entry for byte 255: a window that ends in
  that byte and does not match is searched again for ever. `Horspool.StopsIff` proves that
  the search ends exactly when it meets no such window; `Horspool.Endless` is a search that
  does not end, `Horspool.MatchFirst` one that ends although the byte is there.

## Model

| member | source | states |
|---|---|---|
| Bstrings.SnapUpSize | src/lcthw/bstrlib.c:79-100 | never less than asked for, and within an int if the request is |
| Bstrings.Bstring.Balloc | src/lcthw/bstrlib.c:107-170 | the block has at least the length asked for, never shrinks, and the string is kept |
| Bstrings.Bstring.ConcatBlock | src/lcthw/bstrlib.c:355-382 | appends exactly the other string, which may be in the string's own block, and the closing zero |
| Bstrings.Bstring.Copy | src/lcthw/bstrlib.c:449-484 | a new string of the same bytes |
| Bstrings.Bstring.Delete | src/lcthw/bstrlib.c:1039-1061 | removes exactly the bytes asked for, as far as there are any, from any position; refuses a negative length |
| Bstrings.Bstring.InsertBlock | src/lcthw/bstrlib.c:1540-1583 | puts the block, which may be in the string's own, at any position, filling the gap past the end; refused exactly where the length is no int |
| Search.SkipMismatch | src/lcthw/bstrlib.c:1135-1142 | a byte that is not the needle's next one moves the earliest possible end of every occurrence |
| Search.GappedRestarts | src/lcthw/bstrlib.c:1158-1167 | a match with gaps excludes every occurrence before the restart at `i - j`, which lies behind the old start |
| Search.FindGreedily | src/lcthw/bstrlib.c:1124-1172 | the unrolled loop with its re-entry finds the first occurrence or none, and terminates |
| Search.Binstr | src/lcthw/bstrlib.c:1097-1173 | the least index at or after `pos` where the needle occurs; BSTR_ERR exactly when there is none |
| Replace.SkipToStop | src/lcthw/bstrlib.c:1691-1706 | text before the next match is copied as it is |
| Replace.Overwrite | src/lcthw/bstrlib.c:1691-1698 | equal lengths: the result of replacing every leftmost non-overlapping match of the old text |
| Replace.Compact | src/lcthw/bstrlib.c:1700-1726 | shorter replacement: the same, and nothing is overwritten before it is searched or moved |
| Replace.GrownLength | src/lcthw/bstrlib.c:1744-1777 | the replaced text is longer by the number of matches times the difference |
| Replace.ReplacedLength | src/lcthw/bstrlib.c:1744-1777 | the length of the result, in plain numbers, for a replacement that is not shorter |
| Replace.MatchesAreFew | src/lcthw/bstrlib.c:1744-1777 | matches do not overlap: their number times their length is at most what is searched |
| Replace.FitsInNumbers | src/lcthw/bstrlib.c:1744-1777 | a longer replacement succeeds exactly with fewer than 2^27 matches and a result that fits an int with its terminator; below 2^27 bytes of text only the result counts |
| Replace.CollectMatches | src/lcthw/bstrlib.c:1744-1777 | the growable index holds all matches in order with room for the closing entry, or reports a limit |
| Replace.MatchToPlace | src/lcthw/bstrlib.c:1783-1796 | where each match and the text behind it stand in the result |
| Replace.SpreadMatches | src/lcthw/bstrlib.c:1782-1797 | the backward moves build the result in the same block |
| Replace.Expand | src/lcthw/bstrlib.c:1740-1804 | longer replacement: the result, or an error exactly when it does not fit 32-bit ints or the index limit |
| Replace.FindReplaceEngine | src/lcthw/bstrlib.c:1660-1804 | text before `pos` kept, every match from there on replaced, in all three modes, also where an argument shares the block; the exact error cases leave the string alone |
| Stream.Core.Read | src/lcthw/bstrlib.c:2130-2141 | what is assumed of the read callback: bytes in order, in chunks of any sizes |
| Stream.EveryChunk | src/lcthw/bstrlib.c:2130-2141 | every size from one to what is asked for and unread is given by some reader, and none but these; zero or less exactly at the end |
| Stream.BStream.Open | src/lcthw/bstrlib.c:2041-2053 | a new stream delivers what the reader holds |
| Stream.LineLenMeaning | src/lcthw/bstrlib.c:2092-2097 | a line ends in its only terminator, or is all there is |
| Stream.Bsreadlna | src/lcthw/bstrlib.c:2098-2154 | appends exactly the first line and leaves the rest as the stream, however the reader cuts its data |
| Stream.Bsreadlnsa | src/lcthw/bstrlib.c:2163-2225 | the same for a set of terminators |
| Stream.BuildCharField | src/lcthw/bstrlib.c:1376-1384 | the set of the bytes of the string; an error for the empty one |
| Stream.ReadUpTo | src/lcthw/bstrlib.c:2235-2291 | appends a prefix of the stream and leaves the rest; exactly one chunk of the reader on the short cut, else `n` bytes or all that is left |
| Stream.PromiseKept | src/lcthw/bstrlib.c:2227-2234 | the documented `n` bytes come from every reader exactly when the short cut is not taken, or `n` is one, or at most one byte is left |
| Stream.AnyAmount | src/lcthw/bstrlib.c:2250-2263 | on the short cut some reader makes it any amount from one byte to the promised number, and none makes it less or more |
| Stream.ShortRead | src/lcthw/bstrlib.c:2250-2263 | three bytes pending and asked for, one delivered |
| Stream.Unread | src/lcthw/bstrlib.c:2347-2350 | puts the string in front of the stream, or refuses it exactly where the buffer's length is no int |
| StreamSplit.PiecesExact | src/lcthw/bstrlib.c:2477-2502 | the pieces are the separator-free stretches, each at its offset, with one separator between neighbours |
| StreamSplit.SplittingStops | src/lcthw/bstrlib.c:2487-2495 | a negative answer ends the splitting and leaves the stream where the next piece starts |
| StreamSplit.SplittingIsUntil | src/lcthw/bstrlib.c:2477-2502 | the calls are those for the pieces, up to the first negative answer |
| StreamSplit.Bssplitscb | src/lcthw/bstrlib.c:2459-2506 | the callback gets exactly the pieces of the stream, independent of the chunks and the unreading |
| Splits.JoinOfSplit | src/lcthw/bstrlib.c:2676-2692 | splitting at a byte and joining with it gives the text back |
| Splits.SplitOfJoin | src/lcthw/bstrlib.c:2676-2692 | joining separator-free entries and splitting gives the entries back |
| Splits.JoinOfCuts | src/lcthw/bstrlib.c:2770-2780 | splitting at a string of several bytes and joining gives the text back |
| Splits.CutsExact | src/lcthw/bstrlib.c:2770-2780 | each piece runs from its offset to the first separator the search meets, the next one starts behind that, the last one ends with the string |
| Splits.SkippingIsExact | src/lcthw/bstrlib.c:2770-2778 | the extra step behind a separator loses nothing exactly when no inner piece is empty |
| Splits.SkippingMisses | src/lcthw/bstrlib.c:2770-2778 | two separators in a row: the second stays in the text |
| Splits.SinglesExact | src/lcthw/bstrlib.c:2761-2765 | for the empty separator one call for every byte, in order, with its offset |
| SplitJoin.BstrList.Bscb | src/lcthw/bstrlib.c:2788-2810 | appends a copy of the part, growing the table when it is full |
| StreamSplit.UntilMeaning | src/lcthw/bstrlib.c:2682-2691 | of the calls intended, all up to and including the first one answered negatively are made |
| SplitJoin.NextCall | src/lcthw/bstrlib.c:2682-2691 | one call collects its piece; a negative answer is returned at once |
| SplitJoin.Bsplitcb | src/lcthw/bstrlib.c:2676-2692 | makes the calls for exactly the pieces from `pos` on, until a negative answer, which it returns; an error outside the string |
| SplitJoin.Bsplitscb | src/lcthw/bstrlib.c:2710-2736 | the same for a set of bytes; one call for the whole string for the empty set |
| SplitJoin.Bsplitstrcb | src/lcthw/bstrlib.c:2754-2781 | the same for the separators it looks at, and for single bytes with the empty separator |
| SplitJoin.Bsplit | src/lcthw/bstrlib.c:2817-2838 | a new list of the pieces of the whole string |
| SplitJoin.Bsplitstr | src/lcthw/bstrlib.c:2845-2866 | a new list of the pieces as `bsplitstrcb` makes them |
| Splits.JoinOfStringSplit | src/lcthw/bstrlib.c:2754-2781 | for every separator string, splitting and joining gives the text back |
| SplitJoin.JoinLength | src/lcthw/bstrlib.c:2378-2405 | the length the join needs |
| SplitJoin.Bjoinblk | src/lcthw/bstrlib.c:2369-2426 | the entries with the block in between, or NULL exactly when that does not fit an int |
| AvlShape.RotateOrdered | src/bstree.c:122-149 | rebalancing keeps search order and contents, whatever the stored heights |
| AvlShape.RotateInOrder | src/bstree.c:122-149 | rebalancing keeps the in-order sequence, whatever the keys and stored heights |
| AvlShape.Rotate | src/bstree.c:122-149 | the children a rotation needs are there even when heights are stale |
| AvlShape.InsertOrdered | src/bstree.c:196-215 | a set keeps the search order and adds exactly one entry |
| AvlShape.InsertInOrder | src/bstree.c:196-215 | in the in-order sequence a set puts its entry in front of the first one whose key is not smaller |
| AvlShape.RotateAvl | src/bstree.c:122-149 | one single or double rotation rebalances a node that is off by two |
| AvlShape.InsertAvl | src/bstree.c:196-215 | a set on a balanced tree leaves it balanced, with true heights, at most one level higher |
| AvlShape.AvlIsFull | src/bstree.c:122-149 | a balanced tree of height h holds at least Fib(h + 2) - 1 entries |
| AvlShape.SearchIsLogarithmic | src/bstree.c:257-275 | two to half the number of nodes a search visits is at most one more than the number of entries |
| AvlShape.FibDoubles | src/bstree.c:122-149 | the Fibonacci numbers that bound the entries grow exponentially |
| AvlShape.FindCorrect | src/bstree.c:257-275 | a search finds an entry with an equal key exactly when there is one |
| AvlShape.LaterIsFound | src/bstree.c:196-275 | of two equal keys set one after the other behind a smaller one a search finds the later |
| AvlShape.DeleteOrdered | src/bstree.c:386-432 | a delete removes the entry a search finds and nothing else, and keeps the order |
| AvlShape.DeleteInOrder | src/bstree.c:386-432 | in the in-order sequence a delete takes out the entry a search finds, at its place |
| AvlShape.DeleteAvl | src/bstree.c:386-432 | a delete keeps the balance exactly when the parent of the unlinked node, if any, has subtrees of equal height |
| AvlShape.StaleHeight | src/bstree.c:402-428 | two nodes, of which the root keeps the height it no longer has |
| AvlShape.LostBalance | src/bstree.c:402-428 | four nodes, of which the root is left with subtrees two levels apart |
| Avl.RightRotate | src/bstree.c:76-98 | the three nodes are linked as the rotated tree, parent links included; the parent's other fields are kept |
| Avl.LeftRotate | src/bstree.c:99-121 | the same to the other side |
| Avl.AVLTree.Rotate | src/bstree.c:122-149 | the links become those of the rebalanced tree and the root follows |
| Avl.AVLTree.SetNode | src/bstree.c:196-215 | the recursion links exactly one new node where the value says |
| Avl.AVLTree.ReplaceInParent | src/bstree.c:356-367 | the parent's link, or the root, leads to the replacement, which points back |
| Avl.AVLTree.UnlinkSuccessor | src/bstree.c:404-409 | the entries change places and the successor is unlinked from the right subtree |
| Avl.AVLTree.DeleteTopNode | src/bstree.c:402-422 | all four cases of unlinking a node |
| Avl.AVLTree.DeleteNode | src/bstree.c:386-432 | the recursion unlinks the node of the entry found, and returns it |
| Avl.FindMin | src/bstree.c:336-341 | the leftmost node |
| Avl.AVLTree.Set | src/bstree.c:227-237 | exactly one entry more, in front of the first one whose key is not smaller; links, order and root are kept, and balance if there was balance |
| Avl.AVLTree.GetNode | src/bstree.c:257-275 | the node a search of the value finds, in as many visits |
| Avl.AVLTree.Get | src/bstree.c:282-289 | the data of the entry the search finds, one with an equal key, NULL exactly when there is none; on a balanced tree in logarithmically many visits |
| Avl.AVLTree.Delete | src/bstree.c:474-484 | exactly one entry with the key less, the others in their order, and its data returned, or nothing changed when there is none; balance kept exactly under the condition of `DeleteAvl` |
| AvlRuns.SetsOnly | src/bstree.c:196-237 | over every run of sets: balanced, in order, exactly the entries given, searches logarithmic |
| AvlRuns.CarefulRun | src/bstree.c:196-237 | over every run of sets and balance-keeping deletes: balanced, searches logarithmic; any other delete then loses the balance |
| AvlRuns.AnyRun | src/bstree.c:356-432 | over every run of sets and deletes: in order, and as many entries per key as a multimap has |
| TreeRuns.RunTree | src/bstree.c:227-237 | the linked nodes after every run of sets and deletes: validly linked, the value of `AvlRuns.Run`, per key what a multimap has; balanced after sets alone |
| Radix.DistributionStable | src/radixmap.c:28-53 | buckets one after the other are a stable sort by the digit |
| Radix.NextDigit | src/radixmap.c:54-61 | a stable sort by the next digit of what is sorted by the lower ones is sorted by both |
| Radix.Unique | src/radixmap.c:28-61 | there is only one stable sort |
| Radix.StableIsPermutation | src/radixmap.c:28-61 | a stable sort is a permutation |
| RadixMap.LowSplits | src/radixmap.c:27-61 | the low bytes of a 32-bit key are its next byte in front of the lower ones |
| RadixMap.PlaceOf | src/radixmap.c:46-51 | the place computed from the counts is the element's place in the result |
| RadixMap.RadixSort | src/radixmap.c:28-53 | one pass leaves a stable sort by one byte in the range, and nothing else changed |
| RadixMap.Map.Sort | src/radixmap.c:54-61 | four passes between two arrays leave the suffix a stable sort by the whole key |
| RadixMap.Map.Find | src/radixmap.c:62-79 | an element with the key, NULL exactly when there is none |
| RadixMap.Map.SortKey | src/radixmap.c:84-102 | the suffix start is no later than the insertion point |
| RadixMap.Map.Add | src/radixmap.c:80-107 | the element stands behind all of smaller or equal keys, all else is as before; UINT32_MAX is refused |
| RadixMap.Map.Delete | src/radixmap.c:108-119 | exactly the chosen element is gone, the others keep their order |
| RadixMap.RunBalances | src/radixmap.c:80-119 | over every run of adds and deletes: sorted, no reserved key, exactly what was added and not taken out |
| RadixMap.AddsSort | src/radixmap.c:80-107 | over every run of adds: the stable sort of what was added |
| TstShape.InsertLookup | src/tstree.c:9-34 | an insert changes the lookup of no other key, and of its own only if that was new |
| TstShape.InsertFruitful | src/tstree.c:9-34 | a node without a value keeps a middle child |
| TstShape.InsertBounded | src/tstree.c:9-34 | the search order of the first characters is kept |
| TstShape.BuildIsMap | src/tstree.c:9-37 | over every run of inserts the tree is the finite map in which the first write wins |
| TstShape.TraversalIsComplete | src/tstree.c:351-363 | a traversal visits exactly the stored entries, each once |
| TstShape.ExtensionsFirst | src/tstree.c:351-363 | every proper extension of a stored key is visited before the key |
| TstShape.KindsAscend | src/tstree.c:351-363 | below every node the keys under low come first, then those under high, the extensions of its own key, and that key |
| TstShape.TrailOfBuild | src/tstree.c:9-37 | over every run of inserts the middle links below a query start with the first key inserted that extends it; there are none exactly when no key does |
| TstShape.NearestOfBuild | src/tstree.c:166-192 | over every run of inserts the value found is that of the shortest stored key that extends the query and is a prefix of the first inserted one that does |
| Tstree.InsertBase | src/tstree.c:9-37 | the nodes become those of the tree with the key inserted; the old nodes stay in it |
| Tstree.Search | src/tstree.c:111-133 | the value looked up; the root's for the empty key |
| Tstree.WalkDown | src/tstree.c:166-186 | to the node of the query, or off the tree with the longest stored proper prefix |
| Tstree.SearchPrefix | src/tstree.c:166-192 | the value of the shortest stored extension along the middle links, the query's own first; else that of the longest stored proper prefix; else NULL |
| Tstree.Traverse | src/tstree.c:351-363 | the callback gets the values of the entries in the order of the visits |
| Tracer.Down | src/tstree.c:262-276 | the old mean of each next node is taken out, once, up to the first node without statistics |
| Tracer.Up | src/tstree.c:279-292 | the new means go in from the end upwards, down to the last node without statistics |
| Tracer.MeanIsMean | src/tstree.c:271-289 | the mean times the number of samples is the sum, and it is zero without samples |
| Tracer.UpdateTracer | src/tstree.c:253-297 | the exact new sums, wherever statistics are missing; when only the last node may have none, in the fields: every ancestor's n, its sum less the next node's sum over n, and its sum of squares less that quotient squared, are conserved |
| Tracer.Propagate | src/tstree.c:253-297 | the two passes around the replacement of the last statistics, wherever others are missing |
| Tracer.Conserved | src/tstree.c:253-292 | the two passes conserve what each ancestor's sums hold besides the next node's mean, on every complete chain |
| Fifo.NothingLost | src/ringbuffer.c:51-110 | over every run of the queue bytes come out in the order written, none lost or duplicated, within the capacity |
| Fifo.RefusedIff | src/ringbuffer.c:51-110 | a write is refused exactly when it does not fit, a read when there is less than it asks for; else each is done in full |
| Fifo.RunIsExact | src/ringbuffer.c:51-110 | over every run: exactly the writes that fit are accepted, and the reads that can be met deliver them from the front |
| RingRuns.RunLooped | src/ringbuffer.c:51-88 | after every run the looped ring holds, starts and has delivered what `LoopedRun` says, and what the queue does if the run is guarded |
| RingRuns.GuardIsExact | src/ringbuffer.c:51-88 | ring and queue agree throughout, for all bytes of these lengths, exactly when no zero-length read finds the ring full and off the front |
| RingRuns.Parts | src/ringbuffer.c:82-85 | where the guard fails there are bytes of these lengths on which they part |
| RingRuns.TurnedRun | src/ringbuffer.c:82-85 | a run of four operations that leaves [3, 2] where the queue has [2, 3] |
| RingRuns.RunMirrored | src/ringbuffer.c:89-110 | over every run the mirrored ring holds and delivers what the queue does |
| Ring.Appended | src/ringbuffer.c:51-69 | bytes written behind the contents, going round, are appended to them |
| Ring.LoopedRing.Write | src/ringbuffer.c:51-69 | the write of the bounded queue: all or nothing; an empty ring starts at the front |
| Ring.LoopedRing.Read | src/ringbuffer.c:70-88 | the read of the queue, turned by a zero-length read on a full ring; and where the ring starts then |
| Ring.ZeroRead | src/ringbuffer.c:82-85 | turning full contents keeps them, whatever they are, exactly when the ring starts at the front |
| Ring.MirroredRing.Write | src/ringbuffer.c:89-97 | the same write through the double mapping |
| Ring.MirroredRing.Read | src/ringbuffer.c:98-110 | the same read, cursors taken back below the length |
| DArraySorts.Partition | src/darray_algos.c:8-21 | a permutation of the range divided by its last element |
| DArraySorts.Quicksort | src/darray_algos.c:8-25 | the range is permuted and sorted, all else untouched |
| DArraySorts.DominatedStep | src/darray_algos.c:26-50 | lifting the larger child over its parent keeps every element below one further in front |
| DArraySorts.BuildMaxheap | src/darray_algos.c:26-50 | one pass, for either parity, permutes and puts the greatest element first |
| DArraySorts.Heapsort | src/darray_algos.c:51-59 | a sorted permutation of the first elements |
| DArraySorts.SortsAgree | src/darray_algos.c:8-59 | the results of the two sorts agree place by place, up to ties |
| Darray.DArray.Expand | src/darray.c:50-67 | a larger block with the same elements in front |
| Darray.DArray.Push | src/darray.c:83-91 | appends, growing the block when it is full |
| Darray.DArray.PushSort | src/darray.c:103-116 | the element stands right behind the last smaller one, all else in order |
| HashShape.PutProper | src/hashmap.c:107-125 | a set keeps the bucket in strict key order, with only keys hashing to it |
| HashShape.PutGet | src/hashmap.c:107-140 | a set changes the lookup of the keys equal to its own and of no other |
| HashShape.BuildIsMap | src/hashmap.c:107-140 | over every run of sets the table is the finite map in which the last write wins |
| HashShape.Probe | src/hashmap.c:89-106 | what a probe tells about where the key can be |
| Hashmap.PlaceIsRank | src/darray.c:103-116 | sorting a node in puts it where the binary search looks |
| Hashmap.Hashmap.FindBucket | src/hashmap.c:72-88 | the bucket of the key's hash, made if asked for |
| Hashmap.Hashmap.GetNode | src/hashmap.c:89-106 | the index of the entry with an equal key, -1 exactly when there is none |
| Hashmap.Hashmap.Set | src/hashmap.c:107-125 | the table with the key set: overwritten in place or sorted in |
| Hashmap.Hashmap.Get | src/hashmap.c:126-140 | the lookup of the table |
| Horspool.SetupSkipchars | src/string_algos.c:6-14 | for each byte but 255 the distance from the needle's end to its last place, or the needle's length |
| Horspool.SkipIsSafe | src/string_algos.c:26-28 | no occurrence begins inside a skip |
| Horspool.StopsIff | src/string_algos.c:15-33 | the search ends exactly when it meets no window that ends in byte 255 and does not match |
| Horspool.NoneToMeet | src/string_algos.c:15-33 | it is enough that no byte at which a window can end is 255 |
| Horspool.MatchFirst | src/string_algos.c:22-26 | it is not necessary: a match can come first |
| Horspool.Endless | src/string_algos.c:22-29 | a search that never ends |
| Horspool.BaseSearch | src/string_algos.c:15-33 | wherever the search ends: the leftmost occurrence that ends before the last byte, NULL exactly when there is none, in the rounds of `After` |

## Left out

- Allocation failure and `NULL` arguments; arguments are valid strings.
- Replace.FindReplaceEngine: an argument that shares the block and lies wholly in front of `pos`, which the source does not copy, is not modelled.
- Bstrings.SnapUpSize: the bit smearing is modelled as the least power of two above the request.
- Bstrings.Bstring.Balloc: the choice between `realloc` and `malloc` and the tighter second attempt are not modelled.
- Bstrings.Bstring.ConcatBlock: the refusal of lengths whose sum overflows an int is not modelled.
- `binstrcaseless`, `bfindreplacecaseless`: `findreplaceengine` is modelled with `binstr` as its search.
- Stream.ReadUpTo: promises all `n` bytes only where the code reads them, see above.
- Stream.Core.Read: a reader that returns zero or less before its end is not modelled; it never returns more than asked for.
- StreamSplit.Bssplitscb: the callback is a pure function, so it cannot move the stream; the stream's length is at most INT_MAX - 256.
- SplitJoin.Bsplitcb: the callback collects its pieces and answers by a pure function; a callback that changes the string is not modelled. Tables are smaller than 2^30 entries.
- SplitJoin.Bjoinblk: the product of the entry count and the separator length is computed without wrapping; the source's division test refuses exactly the products that wrap.
- `bssplitstrcb`: it hands out the rest of the buffer unsplit at the end of the stream.
- `BSTree_*`: the same tree without parent repair on rotation; only easier members than the AVL tree.
- Freeing the unlinked AVL node, traversal and destruction of the trees.
- RadixMap.Map.Add: requires a free place in the array, which the source does not check; capacities are at most 2^30, as indices are ints and two are added.
- `RadixMap_destroy`, and the `counter` field, which nothing uses.
- Tstree.InsertBase: keys are not empty and values not `NULL`; the `root` argument, which the source only assigns locally, is dropped. Characters are signed.
- `TSTree_delete`, the delimiter variants and `TSTree_possible_match_by_prefix`: unfinished, or partial traversals.
- Tracer.UpdateTracer: the list is a sequence of nodes with distinct statistics; the old last statistics are not freed.
- Ring.LoopedRing.Read: lengths are not negative, and the first copy of a wrapping read takes only the bytes up to the end of the block, as the second copy rewrites the rest.
- Ring.MirroredRing.CopyIn: the double mapping itself is modelled as the block indexed round its end.
- `RingBuffer_gets`: its wrap test is the opposite of that of `RingBuffer_read`.
- `mergesort`: its merge does not produce a permutation.
- Darray.DArray.Push: array sizes are within an int.
- Hashmap.Hashmap.Set: the map's comparison and the one the buckets are sorted with agree in sign; keys that compare equal hash equally; the bucket table is a plain array of ten.
- `Hashmap_delete`: it moves the last entry into the hole, which does not keep buckets in order. `Hashmap_traverse` would only add easy members.
- Horspool.SetupSkipchars: needle bytes are below 128, as the setup indexes with signed chars.
- Horspool.BaseSearch: has no result where the search does not end; `StopsIff` says where that is.
- `String_find`, `StringScanner_scan`: the first builds its table for the first needle only, the second subtracts an absolute offset.
- Hash functions, statistics, lists, stacks, queues, the suffix tree, the server and its programs: easy members, or input and output.
