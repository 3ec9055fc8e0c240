# Static Huffman codec, modelled and proved in Dafny

This project models the Go package `huffman` (huffman/huffman.go): a static
Huffman codec for bytes over a fixed alphabet of 257 symbols, the 256 byte
values plus an end-of-stream symbol (256). A codec holds a fixed arena of 513
nodes and a 1024-entry decode table. `Init` builds a code tree from a
frequency table, either the caller's or the built-in `FreqTable`. It then
assigns each leaf its code and fills the decode table. `Compress` packs the
codes of the input bytes, then the end-of-stream code, LSB-first into bytes.
It always writes one final partial byte. `Decompress` reads the bits back with
a 24-bit refill, the 10-bit table and a bit-by-bit walk of the tree, and stops
at the end-of-stream leaf.

The model keeps the Go code's imperative form:

- `Codec.Huffman` is a class. Its fields are the `nodes` and `decodeLut` arrays, `startNode` and `numNodes`.
- Every Go function is a method: `bubbleSort`, `constructTree`, `Init`, `Compress` and `Decompress` keep their loops, with invariants, and `setBits` stays recursive.
- Go pointers into the arena are indices. A nil decode-table entry is -1.
- The two panics of `Compress` and the three errors of `Decompress` are `Fail` outcomes.

Each method is proved against specification functions over sequences:

- `Walk`: the node a path of bits leads to.
- `FirstLeaf` and `LutTarget`: what a decode-table entry holds.
- `Symbols` and `Encoding`: the bit stream of an input, as `seq<bool>`, LSB-first.
- `Unpack`: the bits of a byte buffer.

The lemmas prove the properties of these functions: unique paths, prefix-free codes, the decode table agreeing with the tree, and the round trip.

Files:

- `bits.dfy`, module `Bits`:
  - the bit-level vocabulary: `BitsOf`, `Shr`, `Or`, `Unpack`;
  - the 64-bit unsigned subtraction `Sub64`;
  - the arithmetic lemmas behind the accumulators.
- `sort.dfy`, module `Sorting`: `bubbleSort` over an array of construct nodes, proved a stable descending permutation and equal to the reference insertion sort `StableSorted`.
- `tree.dfy`, module `HuffmanTree`:
  - the constants (huffman/huffman.go:5-14), the node layout and the arena shape;
  - walks, codes, decode-table targets and the bit stream of an input;
  - the tree lemmas.
- `codec.dfy`, module `Codec`: `FreqTable`, the class `Huffman` with tree construction, `Init`, `Compress` and `Decompress`, and the round trip.

Behaviour of the code worth noting:

- `Compress` does not return an error when the output buffer is too small; it panics. It panics with "Unexpected end of output buffer" when a full byte lands in the last slot, and with an index out of range on an empty buffer.
- `Decompress` refills only once per symbol, never during the bit-by-bit walk.
- A decode-table entry holds the first leaf met within 10 bits, not only a leaf reached after exactly 10 bits.
- Errors from `Decompress` come with the count -1.

## Model

| member | source | states |
|---|---|---|
| Bits.Sub64 | huffman/huffman.go:282-296 | Go's `uint` subtraction: always below 2^64, and the plain difference when it does not go below zero |
| Sorting.SwapNext | huffman/huffman.go:62-64 | exchanging neighbours `i` and `i+1` leaves every other position as it was |
| Sorting.Swap | huffman/huffman.go:62-64 | the array prefix becomes `SwapNext` of the old one; the rest of the array is untouched |
| Sorting.Step | huffman/huffman.go:61-66 | one comparison keeps the pass invariant (the entry at `i+1` is the lightest seen in the pass) and keeps the list a stable permutation of the original |
| Sorting.Pass | huffman/huffman.go:59-68 | after a pass, the range the next pass leaves alone is sorted and holds no entry heavier than those before it; a pass without a swap leaves the whole list sorted; the list stays a stable permutation of the original |
| Sorting.SwapKeepsStable | huffman/huffman.go:61 | swapping only neighbours of different frequency keeps equal-frequency entries in their original relative order |
| Sorting.PassesDone | huffman/huffman.go:58-69 | a pass without a swap leaves the list sorted non-increasing |
| Sorting.BubbleSort | huffman/huffman.go:53-70 | the result is sorted non-increasing by frequency, is a permutation of the input, keeps equal-frequency entries in input order, and is exactly the reference stable sort `StableSorted` of the input |
| Sorting.InsertSorted | huffman/huffman.go:53-70 | inserting an entry into a non-increasing list before the first entry not heavier than it keeps the list non-increasing |
| Sorting.InsertFilter | huffman/huffman.go:53-70 | that insertion puts the entry ahead of every equal-frequency entry, as if it were prepended: the order among equal frequencies is kept |
| Sorting.StableSortedFacts | huffman/huffman.go:53-70 | the reference sort `StableSorted` yields a non-increasing, stable permutation of its input |
| Sorting.IsStableSorted | huffman/huffman.go:53-70 | any non-increasing, stable permutation of a list is its reference sort `StableSorted`, the order the tie-break comment at line 112 relies on |
| Sorting.StableSortUnique | huffman/huffman.go:53-70 | two orders of the same entries that are both sorted and both stable are equal, so the sort's result is fully determined by its input (the tie-break comment at line 112) |
| HuffmanTree.SymbolsConcat | huffman/huffman.go:210-224 | the bits of a concatenated input are the bits of its parts, one after the other |
| HuffmanTree.PrefixFree | huffman/huffman.go:72-84 | no symbol's code is a prefix of another symbol's code |
| HuffmanTree.UniquePath | huffman/huffman.go:111-126 | two walks from the same node that reach the same node followed the same path: the arena is a tree |
| HuffmanTree.ParentOnce | huffman/huffman.go:115-118 | a node hangs from exactly one slot of one internal node |
| HuffmanTree.CodeIsPath | huffman/huffman.go:72-84 | any path from the root to a leaf is that leaf's code, at least one bit long; bit `d` is set exactly when the path takes slot 1 at depth `d` |
| HuffmanTree.ReachAll | huffman/huffman.go:111-126 | every node of the arena lies below the root |
| HuffmanTree.FirstLeafOnCode | huffman/huffman.go:146-158 | the table walk of bits that start with a leaf's code stops at that leaf |
| HuffmanTree.FirstLeafInternal | huffman/huffman.go:147-163 | a table walk that meets only internal nodes stores the node it ends on |
| HuffmanTree.FirstLeafFound | huffman/huffman.go:143-164 | the table walk from an internal node never yields nil |
| HuffmanTree.FirstLeafPath | huffman/huffman.go:146-163 | the table walk stops after `j` bits at the node those bits reach, and before the tenth bit only at a leaf |
| HuffmanTree.LutEntry | huffman/huffman.go:143-164 | every table entry is a node; a leaf entry has a code of 1 to 10 bits equal to the low bits of the index; an internal entry has `NumBits` 0 and is the node the index's 10 low bits reach from the root |
| HuffmanTree.LookupCode | huffman/huffman.go:257-275 | for held bits that start with a leaf's code, the table gives that leaf when the code has at most 10 bits, and otherwise the internal node after 10 bits, from which the rest of the code leads to the leaf |
| HuffmanTree.DescendNext | huffman/huffman.go:290-306 | one step of the bit-by-bit walk follows the next bit of the code and drops it from `bits` and `bitCount`; it stops exactly at the end of the code |
| Codec.SetBitsStep | huffman/huffman.go:73-78 | the code passed to a child is its parent's code extended by one bit, 1 for slot 1 and 0 for slot 0 |
| Codec.SortedLightest | huffman/huffman.go:113-117 | after the descending sort, the last entry is the lightest and the one before it the second-lightest |
| Codec.MergeStart | huffman/huffman.go:92-108 | the 257 leaves with their starting weights, the end-of-stream leaf weighing 1, satisfy the merge invariant |
| Codec.MergeIds | huffman/huffman.go:115-119 | after a merge, every node id appears exactly once, either as a child of an internal node or as an active entry |
| Codec.MergeEntries | huffman/huffman.go:116-119 | the two entries merged are the two lightest; the merged entry carries their weight sum, and no entry left is lighter than the heavier of the two |
| Codec.MergeNodes | huffman/huffman.go:115-119 | the new node has slot 0 on the lightest and slot 1 on the second-lightest entry, weighs their sum, and weighs at least as much as the node built before it |
| Codec.MergeRound | huffman/huffman.go:111-123 | one round of sort and merge keeps the merge invariant |
| Codec.MergeDone | huffman/huffman.go:111-126 | when one entry is left, the arena is a tree rooted at node 512 in which every other node is a child exactly once |
| Codec.AllCoded | huffman/huffman.go:129 | if every leaf below the root has a valid code, all 257 symbols have one |
| Codec.Huffman.constructor | huffman/huffman.go:23-28 | a new codec is the zero value `Huffman{}`, with every table entry nil |
| Codec.Huffman.SetBits | huffman/huffman.go:72-84 | every leaf below the node gets the code of its path from the root; the tree and the symbols are unchanged, and nodes outside the subtree, as well as every node whose `NumBits` was 0, keep their values |
| Codec.Huffman.PlaceLeaves | huffman/huffman.go:92-106 | leaves 0..256 get both slots 0xFFFF, `NumBits` 0xFFFFFFFF and symbol `byte(i)`; the active list holds each leaf with weight `frequencies[i]`, or 1 for end-of-stream; the leaves keep their `Bits`, and nodes 257..512 are untouched |
| Codec.Huffman.JoinLastTwo | huffman/huffman.go:115-119 | the new internal node takes the last two active entries as children, and the second-last entry becomes the new node with their summed weight; the last entry and those after it are untouched |
| Codec.Huffman.SortAndJoin | huffman/huffman.go:113-122 | one round: the active list becomes exactly its stable non-increasing sort `StableSorted` (sorted, stable, a permutation, the two lightest last), and the last two are then merged into node `NumNodes` |
| Codec.Huffman.MergeAll | huffman/huffman.go:108-123 | the merge loop stops after 256 merges with 513 nodes and the merge invariant, and the links of the arena are exactly `GreedyTree(frequencies)`; every node keeps its `Bits` and `Symbol` |
| Codec.JoinedKeeps | huffman/huffman.go:115-119 | a merge round writes neither `Bits` nor `Symbol` of any node |
| Codec.GreedyStart | huffman/huffman.go:92-108 | the leaves and the starting entries are where the greedy merge `GreedyTree` starts |
| Codec.GreedyRound | huffman/huffman.go:111-123 | one round of the merge loop, with the entries stably sorted, is one round of the greedy merge `Greedy` |
| Codec.GreedyDone | huffman/huffman.go:111-123 | after the last round, the arena's links are `GreedyTree(frequencies)` |
| Codec.Huffman.ConstructTree | huffman/huffman.go:86-130 | `NumNodes` 513 and root node 512; the arena is a tree where each non-root node is a child exactly once; its links are exactly the greedy tree `GreedyTree(frequencies)`; every symbol has a valid code and decodes to its own byte; node weights add up as greedy merging makes them; the internal nodes keep their `Bits` and `Symbol` |
| HuffmanTree.SameShapeSameCode | huffman/huffman.go:72-84 | two arenas with the same links give every symbol the same `Bits` and `NumBits` |
| Codec.SameTreeSameCodec | huffman/huffman.go:111-113 | two initialised codecs with the same tree have the same code for every symbol, the same leaf bytes and the same decode table; with `Init`'s contract, the codec is a function of the frequency table alone |
| Codec.Huffman.Reset | huffman/huffman.go:134 | the codec becomes the zero value |
| Codec.Huffman.FillEntry | huffman/huffman.go:144-163 | table entry `i` becomes the node the table walk of `i` stops at; the other entries are unchanged |
| Codec.Huffman.BuildLut | huffman/huffman.go:143-164 | every table entry is the node the table walk of its index stops at |
| Codec.Huffman.Init | huffman/huffman.go:132-166 | the codec is valid (tree, codes and table agree), and its tree is `GreedyTree` of the given frequencies, or of `FreqTable` when none is given; the internal nodes keep the `Bits` 0 and `Symbol` 0 the reset gave them |
| Codec.Emit | huffman/huffman.go:193-201 | writing `bits & 0xff` and shifting it out keeps the bytes written plus the bits held equal to the stream loaded |
| Codec.Flush | huffman/huffman.go:232-233 | the final byte completes the stream, padded with zero bits |
| Codec.Huffman.Load | huffman/huffman.go:185-188 | loading a symbol appends its code to the stream held |
| Codec.Huffman.Write | huffman/huffman.go:192-202 | writing out whole bytes keeps the stream and leaves the output from the new write position on untouched; it panics exactly when a byte would land in the last slot, or on an empty output buffer |
| Codec.Huffman.Send | huffman/huffman.go:212-219 | loading then writing a symbol appends its code to the stream, with the same error conditions |
| Codec.Huffman.Feed | huffman/huffman.go:211-219 | one round of the compress loop sends the previous symbol and fetches the next one |
| Codec.Huffman.Pump | huffman/huffman.go:205-220 | the compress loop sends every input byte but the last, and holds the last |
| Codec.Huffman.LoadInput | huffman/huffman.go:204-225 | all input bytes are sent, or the panic that occurs is the one the total length dictates |
| Codec.Huffman.Finish | huffman/huffman.go:231-236 | the final byte is written, the result is the stream length div 8 plus 1, and the output past it is untouched |
| Codec.Huffman.Compress | huffman/huffman.go:168-237 | it succeeds exactly when (total code bits) div 8 < len(output), returning that plus 1, and then the output is the codes of the input and of end-of-stream, LSB-first, zero-padded; an empty buffer panics with index out of range, a short one with end of output buffer; on success the output past the returned size is untouched |
| Codec.Huffman.Refill | huffman/huffman.go:263-268 | the refill ORs whole bytes in above the held bits until 24 bits are held or the input ends; the held bits plus the unread input are unchanged; the count grows by 8 per byte read and, if any byte was read, stays below 32 |
| Codec.FillStep | huffman/huffman.go:265-267 | one refilled byte lands above the held bits |
| Codec.Prefetch | huffman/huffman.go:257-275 | once 10 bits are held, a refill does not change their low 10 bits, so the node fetched at {A} is the one {C} would fetch |
| Codec.Huffman.Lookup | huffman/huffman.go:257-273 | the node looked up is the table entry for the low 10 bits after the refill |
| Codec.ReadCode | huffman/huffman.go:279-307 | when the held bits start with a code of at most 24 bits, the table entry is the leaf with its remaining bits, or an internal node from which the rest of the code is held |
| Codec.Huffman.Descend | huffman/huffman.go:289-307 | the bit-by-bit walk along a code held in `bits` ends at that code's leaf, with the code's bits removed |
| Codec.Huffman.WalkDown | huffman/huffman.go:284-307 | after an internal table entry, the 10 bits are dropped and the walk finds the leaf whose code starts the stream |
| Codec.Huffman.Resolve | huffman/huffman.go:279-307 | a leaf entry drops its code's bits; otherwise the walk continues; either way the leaf whose code starts the stream is found and exactly its bits are consumed |
| Codec.Huffman.NextSymbol | huffman/huffman.go:257-307 | a nil table entry stops with "No node found"; on a valid codec, the symbol whose code starts the stream is decoded and its bits consumed |
| Codec.Expect | huffman/huffman.go:279-311 | when the codes of the input's bytes and of end-of-stream are at most 24 bits, the symbol met next in the stream of the input is its next byte, or end-of-stream once all bytes are decoded |
| Codec.Advance | huffman/huffman.go:311-320 | decoding a byte that is not end-of-stream leaves the stream of the rest of the input |
| Codec.Huffman.DecodeAll | huffman/huffman.go:256-321 | the decode loop reports only the three Go errors; on the compressed stream of an input whose bytes, and end-of-stream, have codes of at most 24 bits, it returns that input when it fits the buffer, and "unexpected end of output" otherwise; on success the output past the returned count is untouched |
| Codec.Huffman.Decompress | huffman/huffman.go:239-325 | on a zero codec it fails with "No node found", on a valid one never; it fails only with the three Go errors and never returns more than the buffer holds; when the codes of the bytes of `original` and of end-of-stream are at most 24 bits, on input that starts with the compressed stream of `original`, it returns `len(original)` and the bytes of `original` when they fit, the end-of-stream check coming before the capacity check, and otherwise fails with "unexpected end of output"; on success the output past the returned count is untouched |
| Codec.RoundTrip | huffman/huffman_test.go:23-79 | for a valid codec in which the codes of the input's bytes and of end-of-stream are at most 24 bits, compressing into a large enough buffer and decompressing into a buffer of the input's length returns the input |

## Left out

- Codec.Huffman.SetBits: `Bits` is an unbounded natural number, so the wrap-around of `1<<depth` at depth 64 (huffman/huffman.go:74) is not modelled.
- Codec.Huffman.Compress: the accumulator `bits` is unbounded, where Go's `uint` would drop bits held past 64. The content of the output is stated only when every code's bits fit its length, which holds for every codec built by `Init`.
- Codec.Huffman.Decompress: the round trip is stated only when the codes of the bytes decoded and of end-of-stream are at most 24 bits. The bit-by-bit walk never refills, so a longer code can fail with "unexpected end of input" even though input remains. On malformed input, the unguarded subtractions of `bitCount` wrap around as Go's `uint` does (`Sub64`), while `bits` is unbounded.
- Codec.Huffman.Decompress: the method requires a codec that is either the zero value or initialised, the two states a caller can reach.
- Codec.RoundTrip: the hypothesis that the codes of the input's bytes and of end-of-stream are at most 24 bits is not proved for `FreqTable` or for frequencies counted from the input. That would need the concrete tree.
- Codec.Huffman.Compress and Codec.Huffman.Decompress take `input` as a value, so an output buffer that overlaps the input slice (aliasing) is not modelled.
- Codec.Huffman.ConstructTree: weights are unbounded natural numbers. Two Go `int` wrap-arounds are therefore not modelled: the conversion `int(frequencies[i])` (huffman/huffman.go:101), which turns a frequency of 2^63 or more into a negative weight, and the overflow when summing very large weights. The contents of `FreqTable` are data only; no property of the specific tree it yields is proved.
- `byte(bits & 0xff)`, `bits & LUTMASK` and `byte(i)` are written as remainders, which agree for natural numbers.
- Go's `panic`, `fmt.Errorf` and the -1 count of a failed `Decompress` are the `Fail` outcomes of the model.
- The `node == nil` check of the table build (huffman/huffman.go:151-153) is not modelled, because the address of an array element is never nil.
- The random buffers of the tests (`crypto/rand`) are not modelled. Only the round trip they check is stated (`Codec.RoundTrip`).
