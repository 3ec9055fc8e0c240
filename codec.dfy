/** The codec object of huffman/huffman.go: a fixed arena of nodes, the
    decode table and the operations that fill them (`Init`) and use them
    (`Compress`, `Decompress`). */
module Codec {
  import opened Bits
  import opened Sorting
  import opened HuffmanTree

  datatype Option<T> = None | Some(value: T)

  /** The ways the Go functions fail: the first two are panics of
      `Compress`, the other three the errors `Decompress` returns. */
  datatype Error =
    | OutOfOutputBuffer
    | IndexOutOfRange
    | NoNodeFound
    | UnexpectedEndOfInput
    | UnexpectedEndOfOutput

  /** The `(int, error)` pair of `Compress` and `Decompress`. */
  datatype Outcome = Ok(size: nat) | Fail(error: Error)

  /** The built-in symbol frequencies used when `Init` is given none; the
      last entry is the end-of-stream symbol, whose weight `constructTree`
      replaces by 1. */
  const FreqTable: seq<nat> := [
    0x4000_0000, 4545, 2657, 431, 1950, 919, 444, 482, 2244, 617, 838, 542, 715, 1814, 304, 240, 754, 212, 647, 186,
    283, 131, 146, 166, 543, 164, 167, 136, 179, 859, 363, 113, 157, 154, 204, 108, 137, 180, 202, 176,
    872, 404, 168, 134, 151, 111, 113, 109, 120, 126, 129, 100, 41, 20, 16, 22, 18, 18, 17, 19,
    16, 37, 13, 21, 362, 166, 99, 78, 95, 88, 81, 70, 83, 284, 91, 187, 77, 68, 52, 68,
    59, 66, 61, 638, 71, 157, 50, 46, 69, 43, 11, 24, 13, 19, 10, 12, 12, 20, 14, 9,
    20, 20, 10, 10, 15, 15, 12, 12, 7, 19, 15, 14, 13, 18, 35, 19, 17, 14, 8, 5,
    15, 17, 9, 15, 14, 18, 8, 10, 2173, 134, 157, 68, 188, 60, 170, 60, 194, 62, 175, 71,
    148, 67, 167, 78, 211, 67, 156, 69, 1674, 90, 174, 53, 147, 89, 181, 51, 174, 63, 163, 80,
    167, 94, 128, 122, 223, 153, 218, 77, 200, 110, 190, 73, 174, 69, 145, 66, 277, 143, 141, 60,
    136, 53, 180, 57, 142, 57, 158, 61, 166, 112, 152, 92, 26, 22, 21, 28, 20, 26, 30, 21,
    32, 27, 20, 17, 23, 21, 30, 22, 22, 21, 27, 25, 17, 27, 23, 18, 39, 26, 15, 21,
    12, 18, 18, 27, 20, 18, 15, 19, 11, 17, 33, 12, 18, 15, 19, 18, 16, 26, 17, 18,
    9, 10, 25, 22, 22, 17, 20, 16, 6, 16, 15, 20, 14, 18, 24, 335, 1517
  ]

  /** The weight a leaf starts with. */
  function LeafWeight(frequencies: seq<nat>, k: nat): (r: nat)
    requires |frequencies| == MaxSymbols && k < MaxSymbols
  {
    if k == EofSymbol then 1 else frequencies[k]
  }

  /** The starting weights of all leaves. */
  ghost function LeafWeights(frequencies: seq<nat>): (r: seq<nat>)
    requires |frequencies| == MaxSymbols
    ensures |r| == MaxSymbols && forall k :: 0 <= k < MaxSymbols ==> r[k] == LeafWeight(frequencies, k)
  {
    seq(MaxSymbols, k requires 0 <= k < MaxSymbols => LeafWeight(frequencies, k))
  }

  /** The weights of the nodes `0..hi-1` as `constructTree` adds them up:
      leaves weigh their frequency, an internal node the sum of its
      children, its `1` child weighs at least as much as its `0` child, and
      the internal nodes were built in order of non-decreasing weight, as
      the greedy merge of the two lightest entries does. */
  ghost predicate Weighted(nodes: seq<Node>, w: seq<nat>, frequencies: seq<nat>, hi: nat)
  {
    |frequencies| == MaxSymbols && MaxSymbols <= hi <= |nodes| && |w| == hi &&
    (forall k :: 0 <= k < MaxSymbols ==> w[k] == LeafWeight(frequencies, k)) &&
    (forall k {:trigger nodes[k]} :: MaxSymbols <= k < hi ==>
       nodes[k].leaf0 < k && nodes[k].leaf1 < k &&
       w[k] == w[nodes[k].leaf0] + w[nodes[k].leaf1] &&
       w[nodes[k].leaf0] <= w[nodes[k].leaf1] &&
       (k > MaxSymbols ==> w[k - 1] <= w[k]))
  }

  /** The leaf slots as `constructTree` sets them up. */
  ghost predicate LeafSlots(nodes: seq<Node>, hi: nat)
    requires hi <= |nodes|
  {
    forall k :: 0 <= k < hi ==>
      nodes[k].numBits == 0xFFFF_FFFF && nodes[k].symbol == (k % 256) as byte &&
      nodes[k].leaf0 == NoLeaf && nodes[k].leaf1 == NoLeaf
  }

  /** The internal nodes `MaxSymbols..hi-1` as built so far: each points to
      two nodes built before it. */
  ghost predicate Built(nodes: seq<Node>, hi: nat)
    requires hi <= |nodes|
  {
    forall k :: MaxSymbols <= k < hi ==>
      nodes[k].numBits == 0 && nodes[k].leaf0 < k && nodes[k].leaf1 < k
  }

  /** The entries left carry nodes built so far, with their weights. */
  ghost predicate Active(s: seq<ConstructNode>, w: seq<nat>)
  {
    forall e :: e in s ==> e.nodeId < |w| && e.frequency == w[e.nodeId]
  }

  /** No entry left is lighter than `x`. */
  ghost predicate Lighter(s: seq<ConstructNode>, x: nat)
  {
    forall e :: e in s ==> e.frequency >= x
  }

  /** What the merge loop of `constructTree` keeps, with `n` nodes built
      and the entries `left` still to merge: the leaves are set up, each
      node built so far is counted once, either as an entry or as a child,
      the newest node is an entry, the weights add up, and no entry is
      lighter than the heavier child of the newest node. */
  ghost predicate Merging(nodes: seq<Node>, left: seq<ConstructNode>, w: seq<nat>, frequencies: seq<nat>, n: nat)
  {
    |nodes| == MaxNodes && MaxSymbols <= n <= MaxNodes && |left| == MaxNodes + 1 - n &&
    LeafSlots(nodes, MaxSymbols) && Built(nodes, n) &&
    ChildIds(Links(nodes), MaxSymbols, n) + multiset(Ids(left)) == Range(0, n) &&
    Weighted(nodes, w, frequencies, n) && Active(left, w) &&
    (n > MaxSymbols ==> n - 1 in multiset(Ids(left)) && Lighter(left, w[nodes[n - 1].leaf1]))
  }

  /** The table `Init` builds from: the caller's, or `FreqTable` when
      the caller passes nil. */
  function TableOf(frequencies: Option<seq<nat>>): (r: seq<nat>)
    requires frequencies.Some? ==> |frequencies.value| == MaxSymbols
    ensures |r| == MaxSymbols && (frequencies.Some? ==> r == frequencies.value)
  {
    if frequencies.None? then FreqTable else frequencies.value
  }

  /** The entries `constructTree` starts the merge loop with: one per
      symbol, carrying its starting weight. */
  function Leaves(frequencies: seq<nat>): (r: seq<ConstructNode>)
    requires |frequencies| == MaxSymbols
    ensures |r| == MaxSymbols && forall k :: 0 <= k < MaxSymbols ==> r[k].nodeId == k
  {
    seq(MaxSymbols, k requires 0 <= k < MaxSymbols => ConstructNode(k, LeafWeight(frequencies, k)))
  }

  /** The link a merge round gives its new node: the lightest entry of
      `sorted` as child 0, the next lightest as child 1. */
  function JoinLink(sorted: seq<ConstructNode>): (r: Link)
    requires |sorted| >= 2
  {
    Link(false, sorted[|sorted| - 1].nodeId, sorted[|sorted| - 2].nodeId)
  }

  /** The shape the merge loop of `constructTree` builds, stated without
      arrays: from the links `built` of the nodes made so far and the
      entries `left`, each round stably sorts the entries by non-increasing
      weight, joins the last two under a new node and puts that node in
      their place. */
  ghost function Greedy(built: seq<Link>, left: seq<ConstructNode>): (r: seq<Link>)
    requires MaxSymbols <= |built| <= MaxNodes && |left| == MaxNodes + 1 - |built|
    ensures |r| == MaxNodes && r[..|built|] == built
    decreases MaxNodes - |built|
  {
    if |built| == MaxNodes then built
    else
      var sorted := StableSorted(left);
      var r := Greedy(built + [JoinLink(sorted)], Merged(sorted, |built|));
      assert r[..|built|] == (r[..|built| + 1])[..|built|];
      r
  }

  /** The tree `constructTree` builds from `frequencies`: 257 leaves and
      the 256 internal nodes of the greedy merge. */
  ghost function GreedyTree(frequencies: seq<nat>): (r: seq<Link>)
    requires |frequencies| == MaxSymbols
  {
    Greedy(seq(MaxSymbols, _ => Link(true, NoLeaf, NoLeaf)), Leaves(frequencies))
  }

  /** With `n` nodes built and the entries `left` still to merge, the
      greedy merge goes on to build `GreedyTree(frequencies)`. */
  ghost predicate OnGreedyPath(links: seq<Link>, left: seq<ConstructNode>, frequencies: seq<nat>, n: nat)
  {
    |links| == MaxNodes && |frequencies| == MaxSymbols &&
    MaxSymbols <= n <= MaxNodes && |left| == MaxNodes + 1 - n &&
    Greedy(links[..n], left) == GreedyTree(frequencies)
  }

  class Huffman {
    const nodes: array<Node>
    /** The decode table; -1 stands for a nil entry. */
    const decodeLut: array<int>
    /** Index of the root, -1 for nil. */
    var startNode: int
    var numNodes: int
    /** The weights the last `Init` gave the nodes. */
    ghost var weight: seq<nat>

    /** The fixed sizes of the two arrays. */
    ghost predicate Sized()
    {
      nodes.Length == MaxNodes && decodeLut.Length == LutSize && nodes != decodeLut as object
    }

    /** The zero value `Huffman{}`. */
    ghost predicate Zero()
      reads this, nodes, decodeLut
    {
      Sized() && startNode == -1 && numNodes == 0 &&
      (forall k :: 0 <= k < MaxNodes ==> nodes[k] == ZeroNode) &&
      (forall i :: 0 <= i < LutSize ==> decodeLut[i] == -1)
    }

    /** What decoding relies on in an initialised codec: the arena is
        linked as a tree, every leaf decodes to its own byte and the decode
        table agrees with the tree. */
    ghost predicate Decoding()
      reads this, nodes, decodeLut
    {
      Sized() && Linked(Links(nodes[..])) &&
      (forall v :: 0 <= v < MaxSymbols ==> nodes[v].symbol == (v % 256) as byte) &&
      (forall i :: 0 <= i < LutSize ==> decodeLut[i] == LutTarget(Links(nodes[..]), i))
    }

    /** What decoding meets in the zero value: a table of nil entries. */
    ghost predicate Blank()
      reads this, decodeLut
    {
      Sized() && forall i :: 0 <= i < LutSize ==> decodeLut[i] == -1
    }

    /** An initialised codec: the arena holds a code tree rooted at the
        last node, every symbol's code leads to it, every leaf decodes to
        its own byte and the decode table agrees with the tree. */
    ghost predicate Valid()
      reads this, nodes, decodeLut
    {
      Sized() && numNodes == MaxNodes && startNode == Root &&
      Arena(Links(nodes[..])) && Codes(nodes[..]) &&
      (forall v :: 0 <= v < MaxSymbols ==> nodes[v].symbol == (v % 256) as byte) &&
      (forall i :: 0 <= i < LutSize ==> decodeLut[i] == LutTarget(Links(nodes[..]), i))
    }

    constructor()
      ensures Zero()
    {
      nodes := new Node[MaxNodes](_ => ZeroNode);
      decodeLut := new int[LutSize](_ => -1);
      startNode := -1;
      numNodes := 0;
      weight := [];
    }

    /** setBits: gives every leaf below `k` the path to it as its code; `bits`
        and `depth` are the path from the root to `k`. */
    method SetBits(k: nat, bits: nat, depth: nat)
      requires Sized() && k < MaxNodes && Linked(Links(nodes[..]))
      requires bits < Pow2(depth) && Walk(Links(nodes[..]), Root, BitsOf(bits, depth)) == k
      modifies nodes
      ensures Links(nodes[..]) == old(Links(nodes[..]))
      ensures forall v :: 0 <= v < MaxNodes ==> nodes[v].symbol == old(nodes[v].symbol)
      ensures forall v :: v in Reach(Links(nodes[..]), k) && v < MaxSymbols ==>
                CodeOk(Links(nodes[..]), v, nodes[v])
      ensures forall v :: 0 <= v < MaxNodes && v !in Reach(Links(nodes[..]), k) ==>
                nodes[v] == old(nodes[v])
      ensures forall v :: 0 <= v < MaxNodes && old(nodes[v].numBits) == 0 ==> nodes[v] == old(nodes[v])
      decreases k
    {
      ghost var links := Links(nodes[..]);
      ghost var path := BitsOf(bits, depth);
      assert links[k] == LinkOf(nodes[k]);
      if nodes[k].leaf1 != NoLeaf {
        var c := nodes[k].leaf1;
        SetBitsStep(links, path, k, bits, depth, true);
        SetBits(c, Or(bits, Pow2(depth)), depth + 1);
      }
      assert Links(nodes[..])[k] == LinkOf(nodes[k]);
      if nodes[k].leaf0 != NoLeaf {
        var c := nodes[k].leaf0;
        SetBitsStep(links, path, k, bits, depth, false);
        SetBits(c, bits, depth + 1);
      }
      if nodes[k].numBits != 0 {
        ghost var before := nodes[..];
        nodes[k] := nodes[k].(bits := bits, numBits := depth);
        assert Links(nodes[..]) == Links(before);
      }
      ReachBelow(links, k);
    }

    /** constructTree: the 257 symbols become leaves; then, while more than
        one entry is left, the entries are sorted by non-increasing weight
        and the two lightest become the children of a new internal node,
        which takes their place with their summed weight. The last node
        built is the root, and `setBits` then gives every symbol its code. */
    method ConstructTree(frequencies: seq<nat>)
      requires Sized() && |frequencies| == MaxSymbols
      modifies this, nodes
      ensures numNodes == MaxNodes && startNode == Root
      ensures Arena(Links(nodes[..])) && Codes(nodes[..])
      ensures forall v :: 0 <= v < MaxSymbols ==> nodes[v].symbol == (v % 256) as byte
      ensures Weighted(nodes[..], weight, frequencies, MaxNodes)
      ensures Links(nodes[..]) == GreedyTree(frequencies)
      ensures forall k :: MaxSymbols <= k < MaxNodes ==> nodes[k].bits == old(nodes[k].bits) && nodes[k].symbol == old(nodes[k].symbol)
    {
      var nodesLeft := new ConstructNode[MaxSymbols];
      PlaceLeaves(nodesLeft, frequencies);
      ghost var placed := nodes[..];
      ghost var arena, left, w, n := MergeAll(nodesLeft, frequencies);
      assert KeepsData(placed, arena);
      MergeDone(arena, left, w, frequencies, n);
      startNode := numNodes - 1;
      ghost var unset := nodes[..];
      SetBits(startNode, 0, 0);
      WeightedKeep(unset, nodes[..], w, frequencies, MaxNodes);
      AllCoded(nodes[..]);
      weight := w;
    }

    /** The merge loop of constructTree: merge the two lightest entries
        until one is left. The arena is then a tree over all 513 nodes. */
    method MergeAll(nodesLeft: array<ConstructNode>, ghost frequencies: seq<nat>)
      returns (ghost arena: seq<Node>, ghost left: seq<ConstructNode>, ghost w: seq<nat>, ghost n: nat)
      requires Sized() && nodesLeft.Length == MaxSymbols == |frequencies|
      requires LeafSlots(nodes[..], MaxSymbols)
      requires forall k :: 0 <= k < MaxSymbols ==> nodesLeft[k] == ConstructNode(k, LeafWeight(frequencies, k))
      modifies `numNodes, nodes, nodesLeft
      ensures n == numNodes == MaxNodes && nodes[..] == arena
      ensures Merging(arena, left, w, frequencies, n)
      ensures Links(arena) == GreedyTree(frequencies)
      ensures KeepsData(old(nodes[..]), nodes[..])
    {
      numNodes := MaxSymbols;
      var numNodesLeft := MaxSymbols;
      arena, left, w, n := nodes[..], nodesLeft[..], LeafWeights(frequencies), MaxSymbols;
      ghost var start := arena;
      MergeStart(arena, left, frequencies);
      assert nodesLeft[..numNodesLeft] == left;
      GreedyStart(arena, left, frequencies);
      while numNodesLeft > 1
        invariant 1 <= numNodesLeft <= MaxSymbols && n == numNodes == MaxNodes + 1 - numNodesLeft
        invariant nodes[..] == arena && nodesLeft[..numNodesLeft] == left
        invariant Merging(arena, left, w, frequencies, n)
        invariant OnGreedyPath(Links(arena), left, frequencies, n)
        invariant KeepsData(start, arena)
      {
        ghost var sorted := SortAndJoin(nodesLeft, numNodesLeft);
        arena, left, w, n := MergeStep(start, arena, left, sorted, w, frequencies, n);
        numNodes := numNodes + 1;
        numNodesLeft := numNodesLeft - 1;
      }
      GreedyDone(Links(arena), left, frequencies);
    }

    /** The leaf set-up of constructTree: slot `k` becomes the leaf of
        symbol `k` and entry `k` carries its weight, 1 for the end of
        stream marker. */
    method PlaceLeaves(nodesLeft: array<ConstructNode>, frequencies: seq<nat>)
      requires Sized() && nodesLeft.Length == MaxSymbols == |frequencies|
      modifies nodes, nodesLeft
      ensures LeafSlots(nodes[..], MaxSymbols)
      ensures forall k :: 0 <= k < MaxSymbols ==> nodesLeft[k] == ConstructNode(k, LeafWeight(frequencies, k))
      ensures forall k :: 0 <= k < MaxSymbols ==> nodes[k].bits == old(nodes[k].bits)
      ensures forall k :: MaxSymbols <= k < MaxNodes ==> nodes[k] == old(nodes[k])
    {
      var i := 0;
      while i < MaxSymbols
        invariant 0 <= i <= MaxSymbols
        invariant LeafSlots(nodes[..], i)
        invariant forall k :: 0 <= k < MaxSymbols ==> nodes[k].bits == old(nodes[k].bits)
        invariant forall k :: i <= k < MaxNodes ==> nodes[k] == old(nodes[k])
        invariant forall k :: 0 <= k < i ==> nodesLeft[k] == ConstructNode(k, LeafWeight(frequencies, k))
      {
        nodes[i] := nodes[i].(numBits := 0xFFFF_FFFF, symbol := (i % 256) as byte, leaf0 := NoLeaf, leaf1 := NoLeaf);
        nodesLeft[i] := ConstructNode(i, if i == EofSymbol then 1 else frequencies[i]);
        i := i + 1;
      }
    }

    /** The body of the merge loop of constructTree: sort the first
        `size` entries, make the two lightest the children of node
        `numNodes`, and put that node in their place with their summed
        weight. */
    method SortAndJoin(nodesLeft: array<ConstructNode>, size: nat) returns (ghost sorted: seq<ConstructNode>)
      requires Sized() && 2 <= size <= nodesLeft.Length && 0 <= numNodes < MaxNodes
      modifies nodes, nodesLeft
      ensures |sorted| == size && LightestLast(sorted) && multiset(sorted) == multiset(old(nodesLeft[..size]))
      ensures SortedDesc(sorted) && StableTo(sorted, old(nodesLeft[..size]))
      ensures sorted == StableSorted(old(nodesLeft[..size]))
      ensures nodes[..] == Joined(old(nodes[..]), numNodes, sorted)
      ensures nodesLeft[..size - 1] == Merged(sorted, numNodes)
      ensures nodesLeft[size..] == old(nodesLeft[size..])
      ensures KeepsData(old(nodes[..]), nodes[..])
    {
      BubbleSort(nodesLeft, size);
      sorted := nodesLeft[..size];
      ghost var tail := nodesLeft[size - 1..];
      SortedLightest(sorted);
      assert nodes[..] == old(nodes[..]);
      JoinLastTwo(nodesLeft, size);
      assert nodesLeft[size..] == tail[1..];
      JoinedKeeps(old(nodes[..]), numNodes, sorted);
    }

    /** The two last entries become the children of node `numNodes`,
        which takes their place with their summed weight. */
    method JoinLastTwo(nodesLeft: array<ConstructNode>, size: nat)
      requires Sized() && 2 <= size <= nodesLeft.Length && 0 <= numNodes < MaxNodes
      modifies nodes, nodesLeft
      ensures nodes[..] == Joined(old(nodes[..]), numNodes, old(nodesLeft[..size]))
      ensures nodesLeft[..size - 1] == Merged(old(nodesLeft[..size]), numNodes)
      ensures nodesLeft[size - 1..] == old(nodesLeft[size - 1..])
    {
      var lo, hi := nodesLeft[size - 1], nodesLeft[size - 2];
      nodes[numNodes] := nodes[numNodes].(numBits := 0, leaf0 := lo.nodeId, leaf1 := hi.nodeId);
      nodesLeft[size - 2] := ConstructNode(numNodes, lo.frequency + hi.frequency);
      assert nodesLeft[..size - 1] == old(nodesLeft[..size - 2]) + [nodesLeft[size - 2]];
    }

    /** Init: start again from the zero value, build the tree from
        `frequencies`, or from `FreqTable` when they are nil, and fill the
        decode table from the tree. */
    method Init(frequencies: Option<seq<nat>>)
      requires Sized()
      requires frequencies.Some? ==> |frequencies.value| == MaxSymbols
      modifies this, nodes, decodeLut
      ensures Valid()
      ensures Weighted(nodes[..], weight, TableOf(frequencies), MaxNodes)
      ensures Links(nodes[..]) == GreedyTree(TableOf(frequencies))
      ensures forall k :: MaxSymbols <= k < MaxNodes ==> nodes[k].bits == 0 && nodes[k].symbol == 0
    {
      Reset();
      var table := TableOf(frequencies);
      ConstructTree(table);
      BuildLut();
    }

    /** `*self = Huffman{}`. */
    method Reset()
      requires Sized()
      modifies this, nodes, decodeLut
      ensures Zero()
    {
      forall k | 0 <= k < MaxNodes {
        nodes[k] := ZeroNode;
      }
      forall i | 0 <= i < LutSize {
        decodeLut[i] := -1;
      }
      startNode, numNodes := -1, 0;
      weight := [];
    }

    /** The decode table loop of Init: entry `i` looks up the `LutBits` low
        bits of `i` from the root. */
    method BuildLut()
      requires Sized() && startNode == Root && Linked(Links(nodes[..]))
      modifies decodeLut
      ensures forall i :: 0 <= i < LutSize ==> decodeLut[i] == LutTarget(Links(nodes[..]), i)
    {
      for i := 0 to LutSize
        invariant forall j :: 0 <= j < i ==> decodeLut[j] == LutTarget(Links(nodes[..]), j)
      {
        FillEntry(i);
      }
    }

    /** One entry of the decode table: walk from the root one bit of `i` at
        a time and store the first leaf met, or the node reached after
        `LutBits` steps. */
    method FillEntry(i: nat)
      requires Sized() && i < LutSize && startNode == Root && Linked(Links(nodes[..]))
      modifies decodeLut
      ensures decodeLut[i] == LutTarget(Links(nodes[..]), i)
      ensures forall j :: 0 <= j < LutSize && j != i ==> decodeLut[j] == old(decodeLut[j])
    {
      ghost var links := Links(nodes[..]);
      var bits := i;
      var node := startNode;
      var k := 0;
      while k < LutBits
        invariant 0 <= k <= LutBits && MaxSymbols <= node < MaxNodes
        invariant FirstLeaf(links, node, BitsOf(bits, LutBits - k)) == LutTarget(links, i)
        invariant forall j :: 0 <= j < LutSize ==> decodeLut[j] == old(decodeLut[j])
      {
        assert links[node] == LinkOf(nodes[node]);
        ghost var path := BitsOf(bits, LutBits - k);
        assert path == [bits % 2 == 1] + BitsOf(bits / 2, LutBits - k - 1);
        assert path[1..] == BitsOf(bits / 2, LutBits - k - 1);
        node := nodes[node].Leaf(bits % 2 == 1);
        assert Shr(bits, 1) == bits / 2;
        bits := Shr(bits, 1);
        assert links[node] == LinkOf(nodes[node]);
        if nodes[node].numBits != 0 {
          decodeLut[i] := node;
          return;
        }
        k := k + 1;
      }
      if k == LutBits {
        decodeLut[i] := node;
      }
    }

    /** Compress: the codes of the input bytes and then of the end-of-stream
        symbol, packed least significant bit first, and the last partial
        byte padded with zeros. The output size is the number of whole bytes
        of that stream plus one; a buffer too short for it panics. */
    method Compress(input: seq<byte>, output: array<byte>) returns (r: Outcome)
      requires Sized()
      modifies output
      ensures output.Length == 0 ==> r == Fail(IndexOutOfRange)
      ensures output.Length > 0 ==>
                r == if |Encoding(nodes[..], input)| / 8 < output.Length
                     then Ok(|Encoding(nodes[..], input)| / 8 + 1) else Fail(OutOfOutputBuffer)
      ensures r.Ok? && Fits(nodes[..]) ==>
                8 * r.size > |Encoding(nodes[..], input)| &&
                Unpack(output[..r.size]) == Encoding(nodes[..], input) + Zeros(8 * r.size - |Encoding(nodes[..], input)|)
      ensures r.Ok? ==> r.size <= output.Length && output[r.size..] == old(output[r.size..])
    {
      ghost var ns := nodes[..];
      ghost var fits := Fits(ns);
      var e, iDst, bits, bitcount := LoadInput(input, output, fits);
      assert nodes[..] == ns;
      if e.None? {
        bits, bitcount := Load(bits, bitcount, EofSymbol, output[..iDst], Symbols(ns, input), fits);
        e, iDst, bits, bitcount := Write(output, iDst, bits, bitcount, Encoding(ns, input), fits);
      }
      if e.Some? {
        r := Fail(e.value);
      } else {
        r := Finish(output, iDst, bits, bitcount, Encoding(ns, input), fits);
      }
      assert nodes[..] == ns;
    }

    /** Steps {A} to {C} of compress: the codes of the input bytes go out,
        each symbol loaded before the next one is fetched. */
    method LoadInput(input: seq<byte>, output: array<byte>, ghost fits: bool)
      returns (e: Option<Error>, iDst: nat, bits: nat, bitcount: nat)
      requires Sized() && (fits ==> Fits(nodes[..]))
      modifies output
      ensures e.Some? ==> e == Some(if output.Length == 0 then IndexOutOfRange else OutOfOutputBuffer)
      ensures e == Some(OutOfOutputBuffer) ==> |Encoding(nodes[..], input)| / 8 >= output.Length
      ensures e.None? ==> bitcount < 8 && (iDst < output.Length || iDst == 0 == output.Length)
      ensures e.None? ==> Packed(output[..iDst], bits, bitcount, Symbols(nodes[..], input), fits)
      ensures iDst <= output.Length && forall j :: iDst <= j < output.Length ==> output[j] == old(output[j])
    {
      ghost var ns := nodes[..];
      iDst, bits, bitcount := 0, 0, 0;
      e := None;
      assert output[..0] == [] && input[..0] == [];
      if |input| != 0 {
        var symbol;
        e, iDst, bits, bitcount, symbol := Pump(input, output, fits);
        if e.Some? {
          return;
        }
        SymbolsNext(ns, input, |input| - 1);
        e, iDst, bits, bitcount := Send(output, iDst, bits, bitcount, symbol as nat, Symbols(ns, input[..|input| - 1]), fits);
        assert input[..|input|] == input;
        if e.Some? {
          SentBefore(ns, input, |input|);
        }
      }
    }

    /** Steps {A} to {C} of compress: every byte of a non-empty input but
        the last is loaded and written; the last is returned, loaded but
        not yet written. */
    method Pump(input: seq<byte>, output: array<byte>, ghost fits: bool)
      returns (e: Option<Error>, iDst: nat, bits: nat, bitcount: nat, symbol: byte)
      requires Sized() && (fits ==> Fits(nodes[..])) && |input| > 0
      modifies output
      ensures e.Some? ==> e == Some(if output.Length == 0 then IndexOutOfRange else OutOfOutputBuffer)
      ensures e == Some(OutOfOutputBuffer) ==> |Encoding(nodes[..], input)| / 8 >= output.Length
      ensures e.None? ==> symbol == input[|input| - 1]
      ensures e.None? ==> bitcount < 8 && (iDst < output.Length || iDst == 0 == output.Length)
      ensures e.None? ==> Packed(output[..iDst], bits, bitcount, Symbols(nodes[..], input[..|input| - 1]), fits)
      ensures iDst <= output.Length && forall j :: iDst <= j < output.Length ==> output[j] == old(output[j])
    {
      ghost var ns := nodes[..];
      iDst, bits, bitcount := 0, 0, 0;
      e := None;
      assert output[..0] == [] && input[..0] == [];
      var iSrc := 0;
      symbol := input[iSrc];
      iSrc := iSrc + 1;
      while iSrc != |input|
        invariant 1 <= iSrc <= |input| && symbol == input[iSrc - 1] && e.None?
        invariant bitcount < 8 && (iDst < output.Length || iDst == 0 == output.Length)
        invariant Packed(output[..iDst], bits, bitcount, Symbols(ns, input[..iSrc - 1]), fits)
        invariant forall j :: iDst <= j < output.Length ==> output[j] == old(output[j])
      {
        e, iDst, bits, bitcount, symbol := Feed(input, iSrc, output, iDst, bits, bitcount, symbol, fits);
        iSrc := iSrc + 1;
        if e.Some? {
          return;
        }
      }
    }

    /** One round of the loop of compress: {B} loads `symbol`, the byte
        before `iSrc`, {C} fetches the byte at `iSrc`, and the bits are
        written out. */
    method Feed(input: seq<byte>, iSrc: nat, output: array<byte>, iDst: nat, bits: nat, bitcount: nat, symbol: byte, ghost fits: bool)
      returns (e: Option<Error>, iDst': nat, bits': nat, bitcount': nat, symbol': byte)
      requires Sized() && (fits ==> Fits(nodes[..]))
      requires 1 <= iSrc < |input| && symbol == input[iSrc - 1]
      requires bitcount < 8 && (iDst < output.Length || iDst == 0 == output.Length)
      requires Packed(output[..iDst], bits, bitcount, Symbols(nodes[..], input[..iSrc - 1]), fits)
      modifies output
      ensures e.Some? ==> e == Some(if output.Length == 0 then IndexOutOfRange else OutOfOutputBuffer)
      ensures e == Some(OutOfOutputBuffer) ==> |Encoding(nodes[..], input)| / 8 >= output.Length
      ensures e.None? ==> symbol' == input[iSrc]
      ensures e.None? ==> bitcount' < 8 && (iDst' < output.Length || iDst' == 0 == output.Length)
      ensures e.None? ==> Packed(output[..iDst'], bits', bitcount', Symbols(nodes[..], input[..iSrc]), fits)
      ensures iDst <= iDst' <= output.Length && forall j :: iDst' <= j < output.Length ==> output[j] == old(output[j])
    {
      ghost var ns := nodes[..];
      SymbolsNext(ns, input, iSrc - 1);
      bits', bitcount' := Load(bits, bitcount, symbol as nat, output[..iDst], Symbols(ns, input[..iSrc - 1]), fits);
      symbol' := input[iSrc];
      e, iDst', bits', bitcount' := Write(output, iDst, bits', bitcount', Symbols(ns, input[..iSrc]), fits);
      if e.Some? {
        SentBefore(ns, input, iSrc);
      }
    }

    /** The end of compress: the pending bits, fewer than 8, go out as one
        last byte. */
    method Finish(output: array<byte>, iDst: nat, bits: nat, bitcount: nat, ghost sent: seq<bool>, ghost fits: bool)
      returns (r: Outcome)
      requires iDst < output.Length || iDst == 0 == output.Length
      requires bitcount < 8 && Packed(output[..iDst], bits, bitcount, sent, fits)
      modifies output
      ensures output.Length == 0 ==> r == Fail(IndexOutOfRange)
      ensures output.Length > 0 ==> r == Ok(|sent| / 8 + 1)
      ensures r.Ok? ==> 8 * r.size > |sent| && (fits ==> Unpack(output[..r.size]) == sent + Zeros(8 * r.size - |sent|))
      ensures r.Ok? ==> r.size == iDst + 1 && forall j :: r.size <= j < output.Length ==> output[j] == old(output[j])
    {
      if iDst >= output.Length {
        return Fail(IndexOutOfRange);
      }
      ghost var before := output[..iDst];
      output[iDst] := (bits % 256) as byte;
      assert output[..iDst + 1] == before + [output[iDst]];
      Flush(before, output[iDst], bits, bitcount, sent, fits);
      r := Ok(iDst + 1);
    }

    /** One symbol of compress: LOADSYMBOL, then WRITE. */
    method Send(output: array<byte>, iDst: nat, bits: nat, bitcount: nat, sym: nat, ghost sent: seq<bool>, ghost fits: bool)
      returns (e: Option<Error>, iDst': nat, bits': nat, bitcount': nat)
      requires Sized() && sym < MaxSymbols && (fits ==> Fits(nodes[..]))
      requires iDst < output.Length || iDst == 0 == output.Length
      requires Packed(output[..iDst], bits, bitcount, sent, fits)
      modifies output
      ensures e.Some? ==> e.value == IndexOutOfRange || e.value == OutOfOutputBuffer
      ensures e == Some(IndexOutOfRange) <==> output.Length == 0 && |sent + Code(nodes[sym])| >= 8
      ensures e == Some(OutOfOutputBuffer) <==> output.Length > 0 && |sent + Code(nodes[sym])| / 8 >= output.Length
      ensures e.None? ==> bitcount' < 8 && (iDst' < output.Length || iDst' == 0 == output.Length)
      ensures e.None? ==> Packed(output[..iDst'], bits', bitcount', sent + Code(nodes[sym]), fits)
      ensures iDst <= iDst' <= output.Length && forall j :: iDst' <= j < output.Length ==> output[j] == old(output[j])
    {
      bits', bitcount' := Load(bits, bitcount, sym, output[..iDst], sent, fits);
      e, iDst', bits', bitcount' := Write(output, iDst, bits', bitcount', sent + Code(nodes[sym]), fits);
    }

    /** HUFFMAN_MACRO_LOADSYMBOL: the code of `sym` goes above the pending
        bits. */
    method Load(bits: nat, bitcount: nat, sym: nat, ghost out: seq<byte>, ghost sent: seq<bool>, ghost fits: bool)
      returns (bits': nat, bitcount': nat)
      requires Sized() && sym < MaxSymbols && (fits ==> Fits(nodes[..]))
      requires Packed(out, bits, bitcount, sent, fits)
      ensures Packed(out, bits', bitcount', sent + Code(nodes[sym]), fits)
    {
      bits' := Or(bits, Shl(nodes[sym].bits, bitcount));
      bitcount' := bitcount + nodes[sym].numBits;
      if fits {
        Append(bits, nodes[sym].bits, bitcount, nodes[sym].numBits);
      }
    }

    /** HUFFMAN_MACRO_WRITE: whole bytes move from the pending bits to the
        output. Writing past the end panics with an index out of range;
        filling the output to its end panics with "Unexpected end of output
        buffer". */
    method Write(output: array<byte>, iDst: nat, bits: nat, bitcount: nat, ghost sent: seq<bool>, ghost fits: bool)
      returns (e: Option<Error>, iDst': nat, bits': nat, bitcount': nat)
      requires iDst < output.Length || iDst == 0 == output.Length
      requires Packed(output[..iDst], bits, bitcount, sent, fits)
      modifies output
      ensures e.Some? ==> e.value == IndexOutOfRange || e.value == OutOfOutputBuffer
      ensures e == Some(IndexOutOfRange) <==> output.Length == 0 && |sent| >= 8
      ensures e == Some(OutOfOutputBuffer) <==> output.Length > 0 && |sent| / 8 >= output.Length
      ensures e.None? ==> bitcount' < 8 && (iDst' < output.Length || iDst' == 0 == output.Length)
      ensures e.None? ==> Packed(output[..iDst'], bits', bitcount', sent, fits)
      ensures iDst <= iDst' <= output.Length && forall j :: iDst' <= j < output.Length ==> output[j] == old(output[j])
    {
      iDst', bits', bitcount' := iDst, bits, bitcount;
      while bitcount' >= 8
        invariant iDst' < output.Length || iDst' == 0 == output.Length
        invariant iDst <= iDst' && forall j :: iDst' <= j < output.Length ==> output[j] == old(output[j])
        invariant 8 * iDst' + bitcount' == |sent|
        invariant Packed(output[..iDst'], bits', bitcount', sent, fits)
        decreases bitcount'
      {
        if iDst' >= output.Length {
          return Some(IndexOutOfRange), iDst', bits', bitcount';
        }
        ghost var before := output[..iDst'];
        output[iDst'] := (bits' % 256) as byte;
        assert output[..iDst' + 1] == before + [output[iDst']];
        Emit(before, output[iDst'], bits', bitcount', sent, fits);
        iDst' := iDst' + 1;
        if iDst' == output.Length {
          return Some(OutOfOutputBuffer), iDst', bits', bitcount';
        }
        bits' := Shr(bits', 8);
        bitcount' := bitcount' - 8;
      }
      e := None;
    }

    /** Decompress: decode symbol after symbol until the end-of-stream
        symbol. A codec that was never initialised finds no node. Given the
        stream `Compress` makes for `original`, where the codes of the bytes
        of `original` and of end-of-stream are at most `RefillBits` long, it
        restores `original`, or runs out of output. */
    method Decompress(input: seq<byte>, output: array<byte>, ghost original: seq<byte>) returns (r: Outcome)
      requires Valid() || Zero()
      modifies output
      ensures Zero() ==> r == Fail(NoNodeFound)
      ensures Valid() ==> r != Fail(NoNodeFound)
      ensures r.Fail? ==> r.error == NoNodeFound || r.error == UnexpectedEndOfInput || r.error == UnexpectedEndOfOutput
      ensures r.Ok? ==> r.size <= output.Length
      ensures Valid() && ShortCodes(nodes[..], original) && Encoding(nodes[..], original) <= Unpack(input) ==>
                if |original| <= output.Length then r == Ok(|original|) && output[..|original|] == original
                else r == Fail(UnexpectedEndOfOutput)
      ensures r.Ok? ==> output[r.size..] == old(output[r.size..])
    {
      ghost var ok := Valid();
      ghost var good := ok && ShortCodes(nodes[..], original) && Encoding(nodes[..], original) <= Unpack(input);
      r := DecodeAll(input, output, original, ok, good);
    }

    /** The loop of decompress, one symbol per round; `ok` says whether the
        codec is initialised, `good` whether the input is the stream of
        `original` and the codes met in it are at most `RefillBits` long. */
    method DecodeAll(input: seq<byte>, output: array<byte>, ghost original: seq<byte>, ghost ok: bool, ghost good: bool)
      returns (r: Outcome)
      requires if ok then Decoding() else Blank()
      requires good ==> ok && Codes(nodes[..]) && ShortCodes(nodes[..], original) && Encoding(nodes[..], original) <= Unpack(input)
      modifies output
      ensures !ok ==> r == Fail(NoNodeFound)
      ensures ok ==> r != Fail(NoNodeFound)
      ensures r.Fail? ==> r.error == NoNodeFound || r.error == UnexpectedEndOfInput || r.error == UnexpectedEndOfOutput
      ensures r.Ok? ==> r.size <= output.Length
      ensures good ==>
                if |original| <= output.Length then r == Ok(|original|) && output[..|original|] == original
                else r == Fail(UnexpectedEndOfOutput)
      ensures r.Ok? ==> output[r.size..] == old(output[r.size..])
    {
      ghost var ns := nodes[..];
      var iDst: nat, iSrc: nat := 0, 0;
      var bits: nat, bitCount: nat := 0, 0;
      assert input[0..] == input && original[0..] == original;
      while true
        invariant iDst <= output.Length && iSrc <= |input| && bits < Pow2(bitCount) && bitCount < WordSize
        invariant if ok then Decoding() else Blank()
        invariant good ==> iDst <= |original| && output[..iDst] == original[..iDst]
        invariant forall j :: iDst <= j < output.Length ==> output[j] == old(output[j])
        invariant good ==> Encoding(ns, original[iDst..]) <= BitsOf(bits, bitCount) + Unpack(input[iSrc..])
        decreases output.Length - iDst
      {
        ghost var stream := BitsOf(bits, bitCount) + Unpack(input[iSrc..]);
        ghost var v := EofSymbol;
        if good {
          v := Expect(ns, original, iDst, stream);
        }
        var step := NextSymbol(input, iSrc, bits, bitCount, ok, v);
        if step.Stop? {
          return Fail(step.error);
        }
        iSrc, bits, bitCount := step.iSrc, step.bits, step.bitCount;
        if step.node == EofSymbol {
          assert output[iDst..] == old(output[iDst..]);
          return Ok(iDst);
        }
        if iDst == output.Length {
          return Fail(UnexpectedEndOfOutput);
        }
        var symbol := nodes[step.node].symbol;
        ghost var before := output[..iDst];
        Store(output, iDst, symbol);
        if good {
          Advance(ns, original, iDst, stream, BitsOf(bits, bitCount) + Unpack(input[iSrc..]), v);
          assert symbol == (v % 256) as byte;
          Grown(before, symbol, original, iDst);
        }
        iDst := iDst + 1;
      }
    }

    /** Steps {A} to {D} of decompress: look the next node up in the table,
        before the refill when at least `LutBits` bits are held and after it
        otherwise; drop a leaf's code from the bits held, or walk the rest
        of the way down from an internal node. */
    method NextSymbol(input: seq<byte>, iSrc: nat, bits: nat, bitCount: nat, ghost ok: bool, ghost v: nat)
      returns (s: DecodeStep)
      requires if ok then Decoding() else Blank()
      requires iSrc <= |input| && bits < Pow2(bitCount) && bitCount < WordSize
      ensures !ok ==> s == Stop(NoNodeFound)
      ensures ok ==> s != Stop(NoNodeFound)
      ensures s.Stop? ==> s.error == NoNodeFound || s.error == UnexpectedEndOfInput
      ensures s.Decoded? ==>
                ok && s.node < MaxSymbols && iSrc <= s.iSrc <= |input| &&
                s.bits < Pow2(s.bitCount) && s.bitCount < WordSize
      ensures ok && v < MaxSymbols && nodes[v].numBits <= RefillBits && Walk(Links(nodes[..]), Root, Code(nodes[v])) == v &&
              Code(nodes[v]) <= BitsOf(bits, bitCount) + Unpack(input[iSrc..]) ==>
                s.Decoded? && s.node == v &&
                BitsOf(s.bits, s.bitCount) + Unpack(input[s.iSrc..]) ==
                (BitsOf(bits, bitCount) + Unpack(input[iSrc..]))[nodes[v].numBits..]
    {
      var node, iSrc', bits', bitCount' := Lookup(input, iSrc, bits, bitCount);
      if node == -1 {
        if ok {
          FirstLeafFound(Links(nodes[..]), Root, BitsOf(bits' % LutSize, LutBits));
        }
        return Stop(NoNodeFound);
      }
      s := Resolve(node, input, iSrc', bits', bitCount', v);
    }

    /** Step {C} of decompress once the table entry `node` for the bits
        held is found: a leaf's code is dropped from the bits held; an
        internal node is left to step {D}. */
    method Resolve(node: int, input: seq<byte>, iSrc: nat, bits: nat, bitCount: nat, ghost v: nat)
      returns (s: DecodeStep)
      requires Decoding() && node != -1 && node == decodeLut[bits % LutSize]
      requires iSrc <= |input| && bits < Pow2(bitCount) && bitCount < WordSize
      requires bitCount >= RefillBits || iSrc == |input|
      ensures s.Stop? ==> s.error == UnexpectedEndOfInput
      ensures s.Decoded? ==>
                s.node < MaxSymbols && s.iSrc == iSrc && s.bits < Pow2(s.bitCount) && s.bitCount < WordSize
      ensures v < MaxSymbols && nodes[v].numBits <= RefillBits && Walk(Links(nodes[..]), Root, Code(nodes[v])) == v &&
              Code(nodes[v]) <= BitsOf(bits, bitCount) + Unpack(input[iSrc..]) ==>
                s.Decoded? && s.node == v &&
                BitsOf(s.bits, s.bitCount) + Unpack(input[iSrc..]) ==
                (BitsOf(bits, bitCount) + Unpack(input[iSrc..]))[nodes[v].numBits..]
    {
      assert node == LutTarget(Links(nodes[..]), bits % LutSize);
      if nodes[node].numBits == 0 {
        s := WalkDown(node, input, iSrc, bits, bitCount, v);
        return;
      }
      ghost var links := Links(nodes[..]);
      assert node == LutTarget(links, bits % LutSize);
      assert links[node] == LinkOf(nodes[node]);
      ghost var good := v < MaxSymbols && nodes[v].numBits <= RefillBits && Walk(links, Root, Code(nodes[v])) == v &&
                        Code(nodes[v]) <= BitsOf(bits, bitCount) + Unpack(input[iSrc..]);
      if good {
        ReadCode(links, Code(nodes[v]), v, bits, bitCount, input[iSrc..]);
      }
      var n := nodes[node].numBits;
      ShrFits(bits, bitCount, n);
      s := Decoded(node, iSrc, Shr(bits, n), Sub64(bitCount, n));
    }

    /** Step {D} of decompress: from the internal table entry `node`, walk
        down with the bits after the first `LutBits`. */
    method WalkDown(node: int, input: seq<byte>, iSrc: nat, bits: nat, bitCount: nat, ghost v: nat)
      returns (s: DecodeStep)
      requires Sized() && Linked(Links(nodes[..])) && 0 <= node < MaxNodes && nodes[node].numBits == 0
      requires node == LutTarget(Links(nodes[..]), bits % LutSize)
      requires iSrc <= |input| && bits < Pow2(bitCount) && bitCount < WordSize
      requires bitCount >= RefillBits || iSrc == |input|
      ensures s.Stop? ==> s.error == UnexpectedEndOfInput
      ensures s.Decoded? ==>
                s.node < MaxSymbols && s.iSrc == iSrc && s.bits < Pow2(s.bitCount) && s.bitCount < WordSize
      ensures v < MaxSymbols && nodes[v].numBits <= RefillBits && Walk(Links(nodes[..]), Root, Code(nodes[v])) == v &&
              Code(nodes[v]) <= BitsOf(bits, bitCount) + Unpack(input[iSrc..]) ==>
                s.Decoded? && s.node == v &&
                BitsOf(s.bits, s.bitCount) + Unpack(input[iSrc..]) ==
                (BitsOf(bits, bitCount) + Unpack(input[iSrc..]))[nodes[v].numBits..]
    {
      ghost var links := Links(nodes[..]);
      assert links[node] == LinkOf(nodes[node]);
      ghost var good := v < MaxSymbols && nodes[v].numBits <= RefillBits && Walk(links, Root, Code(nodes[v])) == v &&
                        Code(nodes[v]) <= BitsOf(bits, bitCount) + Unpack(input[iSrc..]);
      ghost var c := if v < MaxSymbols then Code(nodes[v]) else [];
      if good {
        ReadCode(links, c, v, bits, bitCount, input[iSrc..]);
        assert !links[LutTarget(links, bits % LutSize)].isLeaf;
        assert BitsOf(Shr(Shr(bits, LutBits), |c| - LutBits), Sub64(bitCount, LutBits) - (|c| - LutBits)) + Unpack(input[iSrc..]) == (BitsOf(bits, bitCount) + Unpack(input[iSrc..]))[|c|..];
      }
      ShrFits(bits, bitCount, LutBits);
      s := Descend(node, iSrc, Shr(bits, LutBits), Sub64(bitCount, LutBits), if good then c[LutBits..] else []);
      if good {
        assert s.bits == Shr(Shr(bits, LutBits), |c| - LutBits) && s.bitCount == Sub64(bitCount, LutBits) - (|c| - LutBits);
        assert c == Code(nodes[v]) && |c| == nodes[v].numBits;
        assert BitsOf(s.bits, s.bitCount) + Unpack(input[iSrc..]) == (BitsOf(bits, bitCount) + Unpack(input[iSrc..]))[|c|..];
      }
    }

    /** Steps {A} to {C} of decompress: the table entry for the bits held,
        looked up before the refill when at least `LutBits` bits are held
        and after it otherwise; either way it is the entry for the bits
        held after the refill. */
    method Lookup(input: seq<byte>, iSrc: nat, bits: nat, bitCount: nat)
      returns (node: int, iSrc': nat, bits': nat, bitCount': nat)
      requires Sized() && iSrc <= |input| && bits < Pow2(bitCount) && bitCount < WordSize
      ensures node == decodeLut[bits' % LutSize]
      ensures iSrc <= iSrc' <= |input| && bitCount' < WordSize && bits' < Pow2(bitCount')
      ensures bitCount' >= RefillBits || iSrc' == |input|
      ensures BitsOf(bits', bitCount') + Unpack(input[iSrc'..]) == BitsOf(bits, bitCount) + Unpack(input[iSrc..])
    {
      node := -1;
      if bitCount >= LutBits {
        node := decodeLut[bits % LutSize];
      }
      iSrc', bits', bitCount' := Refill(input, iSrc, bits, bitCount);
      if bitCount >= LutBits {
        Prefetch(bits, bitCount, bits', bitCount', Unpack(input[iSrc..]), Unpack(input[iSrc'..]));
      }
      if node == -1 {
        node := decodeLut[bits' % LutSize];
      }
    }

    /** Step {B} of decompress: whole input bytes go above the bits held
        until at least `RefillBits` bits are held or the input is used up. */
    method Refill(input: seq<byte>, iSrc: nat, bits: nat, bitCount: nat)
      returns (iSrc': nat, bits': nat, bitCount': nat)
      requires iSrc <= |input| && bits < Pow2(bitCount) && bitCount < WordSize
      ensures iSrc <= iSrc' <= |input| && bitCount <= bitCount' < WordSize && bits' < Pow2(bitCount')
      ensures bitCount' >= RefillBits || iSrc' == |input|
      ensures bitCount' == bitCount + 8 * (iSrc' - iSrc) && (bitCount' == bitCount || bitCount' < RefillBits + 8)
      ensures BitsOf(bits', bitCount') + Unpack(input[iSrc'..]) == BitsOf(bits, bitCount) + Unpack(input[iSrc..])
    {
      iSrc', bits', bitCount' := iSrc, bits, bitCount;
      while bitCount' < RefillBits && iSrc' != |input|
        invariant Held(input, iSrc, bits, bitCount, iSrc', bits', bitCount')
        decreases |input| - iSrc'
      {
        FillStep(input, iSrc, bits, bitCount, iSrc', bits', bitCount');
        bits' := Or(bits', Shl(input[iSrc'] as nat, bitCount'));
        iSrc' := iSrc' + 1;
        bitCount' := bitCount' + 8;
      }
    }

    /** The bit-by-bit walk of decompress below an internal node: one child
        per bit until a leaf; running out of bits on the way is the error
        "unexpected end of input". Following the path `q` held in `bits`
        leads to the leaf at its end. */
    method Descend(node: nat, iSrc: nat, bits: nat, bitCount: nat, ghost q: seq<bool>) returns (s: DecodeStep)
      requires Sized() && Linked(Links(nodes[..])) && MaxSymbols <= node < MaxNodes
      requires bits < Pow2(bitCount) && bitCount < WordSize
      ensures s.Stop? ==> s.error == UnexpectedEndOfInput
      ensures s.Decoded? ==> s.node < MaxSymbols && s.iSrc == iSrc && s.bits < Pow2(s.bitCount) && s.bitCount < WordSize
      ensures q <= BitsOf(bits, bitCount) && 0 <= Walk(Links(nodes[..]), node, q) < MaxSymbols ==>
                s.Decoded? && s.node == Walk(Links(nodes[..]), node, q) &&
                s.bits == Shr(bits, |q|) && s.bitCount == bitCount - |q|
    {
      ghost var links := Links(nodes[..]);
      ghost var good := q <= BitsOf(bits, bitCount) && 0 <= Walk(links, node, q) < MaxSymbols;
      var n: nat, b: nat, c: nat := node, bits, bitCount;
      ghost var j := 0;
      assert q[..0] == [];
      while true
        invariant MaxSymbols <= n < MaxNodes && b < Pow2(c) && c < WordSize
        invariant good ==> j < |q| && n == Walk(links, node, q[..j]) && b == Shr(bits, j) && c == bitCount - j
        decreases n
      {
        assert links[n] == LinkOf(nodes[n]);
        if good {
          DescendNext(links, node, q, j, bits, bitCount, n, b, c);
        }
        n := nodes[n].Leaf(b % 2 == 1);
        ShrFits(b, c, 1);
        c := Sub64(c, 1);
        b := Shr(b, 1);
        j := j + 1;
        assert links[n] == LinkOf(nodes[n]);
        if nodes[n].numBits != 0 {
          return Decoded(n, iSrc, b, c);
        }
        if c == 0 {
          return Stop(UnexpectedEndOfInput);
        }
      }
    }
  }

  /** `output[i] = b`, as one step that keeps the bytes before `i`. */
  method Store(output: array<byte>, i: nat, b: byte)
    requires i < output.Length
    modifies output
    ensures output[..i + 1] == old(output[..i]) + [b] && output[i] == b
    ensures forall j :: 0 <= j < output.Length && j != i ==> output[j] == old(output[j])
  {
    output[i] := b;
    assert output[..i + 1] == old(output[..i]) + [output[i]];
  }

  lemma {:induction false} Grown(before: seq<byte>, b: byte, s: seq<byte>, j: nat)
    requires j < |s| && before == s[..j] && b == s[j]
    ensures before + [b] == s[..j + 1]
  {
  }

  /** Every symbol's bits fit in its code length: true of the zero value
      and of every built tree. */
  ghost predicate Fits(nodes: seq<Node>)
  {
    |nodes| == MaxNodes && forall v :: 0 <= v < MaxSymbols ==> nodes[v].bits < Pow2(nodes[v].numBits)
  }

  /** The state of the compressor: the bytes written, `out`, and the
      `bitcount` bits pending in `bits` make up the stream `sent` loaded so
      far. The count always adds up; the bits do when the codes fit. */
  ghost predicate Packed(out: seq<byte>, bits: nat, bitcount: nat, sent: seq<bool>, fits: bool)
  {
    8 * |out| + bitcount == |sent| &&
    (fits ==> bits < Pow2(bitcount) && Unpack(out) + BitsOf(bits, bitcount) == sent)
  }

  /** Writing `byte(bits & 0xff)` and shifting it out keeps the stream. */
  lemma {:induction false} Emit(out: seq<byte>, b: byte, bits: nat, bitcount: nat, sent: seq<bool>, fits: bool)
    requires Packed(out, bits, bitcount, sent, fits) && bitcount >= 8 && b as nat == bits % 256
    ensures Packed(out + [b], Shr(bits, 8), bitcount - 8, sent, fits)
  {
    if fits {
      TakeByte(bits, bitcount);
      UnpackAppend(out, b);
      Assoc(Unpack(out), BitsOf(b as nat, 8), BitsOf(Shr(bits, 8), bitcount - 8));
    }
  }

  /** The last `byte(bits)` carries the pending bits padded with zeros. */
  lemma {:induction false} Flush(out: seq<byte>, b: byte, bits: nat, bitcount: nat, sent: seq<bool>, fits: bool)
    requires Packed(out, bits, bitcount, sent, fits) && bitcount < 8 && b as nat == bits % 256
    ensures 8 * (|out| + 1) > |sent|
    ensures fits ==> Unpack(out + [b]) == sent + Zeros(8 * (|out| + 1) - |sent|)
  {
    if fits {
      LastByte(bits, bitcount);
      UnpackAppend(out, b);
      assert 8 * (|out| + 1) - |sent| == 8 - bitcount;
      Assoc(Unpack(out), BitsOf(bits, bitcount), Zeros(8 - bitcount));
    }
  }

  lemma {:induction false} SymbolsNext(nodes: seq<Node>, s: seq<byte>, j: nat)
    requires |nodes| == MaxNodes && j < |s|
    ensures Symbols(nodes, s[..j + 1]) == Symbols(nodes, s[..j]) + Code(nodes[s[j] as nat])
  {
    assert s[..j + 1] == s[..j] + [s[j]];
    SymbolsAppend(nodes, s[..j], s[j]);
  }

  /** The codes of a prefix of the input are no longer than the whole
      stream. */
  lemma {:induction false} SentBefore(nodes: seq<Node>, s: seq<byte>, j: nat)
    requires |nodes| == MaxNodes && j <= |s|
    ensures |Symbols(nodes, s[..j])| / 8 <= |Encoding(nodes, s)| / 8
  {
    assert s == s[..j] + s[j..];
    SymbolsConcat(nodes, s[..j], s[j..]);
  }

  /** Decompress refills up to this many bits held. */
  const RefillBits: nat := 24

  /** The codes decompress meets in the stream of `s`, those of its bytes
      and of end-of-stream, are at most `RefillBits` long, so that the bits
      held after a refill always contain a whole code. Symbols that do not
      occur in `s` may have longer codes. */
  ghost predicate ShortCodes(nodes: seq<Node>, s: seq<byte>)
  {
    |nodes| == MaxNodes && nodes[EofSymbol].numBits <= RefillBits &&
    forall j :: 0 <= j < |s| ==> nodes[s[j] as nat].numBits <= RefillBits
  }

  /** One step of decompress: the node found, with the input position and
      the bits held after it, or the error that stops decoding. */
  datatype DecodeStep = Decoded(node: nat, iSrc: nat, bits: nat, bitCount: nat) | Stop(error: Error)

  /** The next symbol decompress meets in the stream of `s` from its `j`th
      byte on: that byte, or end-of-stream when nothing is left; its code,
      short and valid, starts the stream. */
  lemma {:induction false} Expect(nodes: seq<Node>, s: seq<byte>, j: nat, stream: seq<bool>) returns (v: nat)
    requires Codes(nodes) && ShortCodes(nodes, s) && j <= |s| && Encoding(nodes, s[j..]) <= stream
    ensures v == if j < |s| then s[j] as nat else EofSymbol
    ensures v < MaxSymbols && nodes[v].numBits <= RefillBits
    ensures Walk(Links(nodes), Root, Code(nodes[v])) == v && Code(nodes[v]) <= stream
  {
    v := if j < |s| then s[j] as nat else EofSymbol;
    assert CodeOk(Links(nodes), v, nodes[v]);
    if j < |s| {
      assert s[j..][0] == s[j] && s[j..][1..] == s[j + 1..];
      var c := Code(nodes[v]);
      assert Encoding(nodes, s[j..]) == c + Encoding(nodes, s[j + 1..]);
      PrefixParts(c, Encoding(nodes, s[j + 1..]), stream);
    } else {
      assert s[j..] == [];
      assert Encoding(nodes, s[j..]) == Code(nodes[EofSymbol]);
    }
  }

  /** Once a byte's code is dropped from the stream, what is left is the
      stream of the bytes after it. */
  lemma {:induction false} Advance(nodes: seq<Node>, s: seq<byte>, j: nat, stream: seq<bool>, stream': seq<bool>, v: nat)
    requires |nodes| == MaxNodes && j <= |s| && Encoding(nodes, s[j..]) <= stream
    requires v == (if j < |s| then s[j] as nat else EofSymbol) && v != EofSymbol
    requires stream' == stream[nodes[v].numBits..]
    ensures j < |s| && (v % 256) as byte == s[j] && Encoding(nodes, s[j + 1..]) <= stream'
  {
    assert s[j..][0] == s[j] && s[j..][1..] == s[j + 1..];
    var c := Code(nodes[v]);
    assert Encoding(nodes, s[j..]) == c + Encoding(nodes, s[j + 1..]);
    PrefixParts(c, Encoding(nodes, s[j + 1..]), stream);
  }

  lemma {:induction false} PrefixParts(a: seq<bool>, b: seq<bool>, t: seq<bool>)
    requires a + b <= t
    ensures a <= t && b <= t[|a|..]
  {
    assert t[..|a|] == (a + b)[..|a|] == a;
    assert t[|a|..][..|b|] == (a + b)[|a|..] == b;
  }

  /** Step {A} of decompress looks the table up before the refill; the
      index it uses is the one step {C} would use after it, because the
      refill only adds bits above the `LutBits` or more already held. */
  lemma {:induction false} Prefetch(bits: nat, bitCount: nat, bits': nat, bitCount': nat, rest: seq<bool>, rest': seq<bool>)
    requires LutBits <= bitCount <= bitCount'
    requires BitsOf(bits', bitCount') + rest' == BitsOf(bits, bitCount) + rest
    ensures bits' % LutSize == bits % LutSize
  {
    var held, held' := BitsOf(bits, bitCount), BitsOf(bits', bitCount');
    assert held'[..LutBits] == (held' + rest')[..LutBits] == (held + rest)[..LutBits] == held[..LutBits];
    BitsPrefix(bits', bitCount', LutBits);
    BitsPrefix(bits, bitCount, LutBits);
    assert Pow2(10) == 1024;
    BitsMask(bits', LutBits);
    BitsMask(bits, LutBits);
    BitsInjective(bits' % LutSize, bits % LutSize, LutBits);
  }

  /** The state of the refill loop: `c` bits held in `b`, at least the
      `bitCount` held before it, and the stream they start with the rest
      of the input from `i` on is the one decoding had before it. */
  ghost predicate Held(input: seq<byte>, iSrc: nat, bits: nat, bitCount: nat, i: nat, b: nat, c: nat)
  {
    iSrc <= i <= |input| && bitCount <= c < WordSize && b < Pow2(c) &&
    c == bitCount + 8 * (i - iSrc) && (c == bitCount || c < RefillBits + 8) &&
    BitsOf(b, c) + Unpack(input[i..]) == BitsOf(bits, bitCount) + Unpack(input[iSrc..])
  }

  /** One refill step, `bits |= uint(b) << bitCount`: the byte's bits
      follow those held, so the stream is unchanged. */
  lemma {:induction false} FillStep(input: seq<byte>, iSrc: nat, bits: nat, bitCount: nat, i: nat, b: nat, c: nat)
    requires Held(input, iSrc, bits, bitCount, i, b, c) && c < RefillBits && i < |input|
    ensures Held(input, iSrc, bits, bitCount, i + 1, Or(b, Shl(input[i] as nat, c)), c + 8)
  {
    var x := input[i] as nat;
    assert Pow2(8) == 256;
    Append(b, x, c, 8);
    UnpackFrom(input, i);
    Assoc(BitsOf(b, c), BitsOf(x, 8), Unpack(input[i + 1..]));
  }

  /** Steps {C} and {D} of decompress on a stream that starts with the
      code `c` of leaf `v`, at most `RefillBits` long, after a refill: a
      table entry that is a leaf is `v`, and dropping its code from the bits
      held drops it from the stream; an internal entry is the node from
      which the rest of `c`, held after dropping `LutBits` bits, leads to
      `v`, and dropping that rest too drops all of `c`. */
  lemma {:induction false} ReadCode(links: seq<Link>, c: seq<bool>, v: nat, bits: nat, bitCount: nat, rest: seq<byte>)
    requires Linked(links) && v < MaxSymbols && Walk(links, Root, c) == v
    requires bits < Pow2(bitCount) && bitCount < WordSize
    requires c <= BitsOf(bits, bitCount) + Unpack(rest) && |c| <= RefillBits
    requires bitCount >= RefillBits || rest == []
    ensures 0 <= LutTarget(links, bits % LutSize) < MaxNodes
    ensures links[LutTarget(links, bits % LutSize)].isLeaf ==>
              LutTarget(links, bits % LutSize) == v &&
              BitsOf(Shr(bits, |c|), Sub64(bitCount, |c|)) + Unpack(rest) == (BitsOf(bits, bitCount) + Unpack(rest))[|c|..]
    ensures !links[LutTarget(links, bits % LutSize)].isLeaf ==>
              |c| > LutBits && Walk(links, LutTarget(links, bits % LutSize), c[LutBits..]) == v &&
              c[LutBits..] <= BitsOf(Shr(bits, LutBits), Sub64(bitCount, LutBits)) &&
              BitsOf(Shr(Shr(bits, LutBits), |c| - LutBits), Sub64(bitCount, LutBits) - (|c| - LutBits)) + Unpack(rest) ==
              (BitsOf(bits, bitCount) + Unpack(rest))[|c|..]
  {
    HeldCode(c, bits, bitCount, rest);
    LookupCode(links, c, v, bits, bitCount);
    if |c| <= LutBits {
      DropHeld(c, bits, bitCount, rest);
    } else {
      DescendHeld(c, bits, bitCount, rest);
    }
  }

  /** A code at most `RefillBits` long that starts the stream is among the
      bits held after a refill. */
  lemma {:induction false} HeldCode(c: seq<bool>, bits: nat, bitCount: nat, rest: seq<byte>)
    requires c <= BitsOf(bits, bitCount) + Unpack(rest) && |c| <= RefillBits
    requires bitCount >= RefillBits || rest == []
    ensures c <= BitsOf(bits, bitCount)
  {
    var held := BitsOf(bits, bitCount);
    if rest == [] {
      assert held + Unpack(rest) == held;
    } else {
      assert (held + Unpack(rest))[..|c|] == held[..|c|];
    }
  }

  /** Dropping a leaf's code from the bits held drops it from the stream. */
  lemma {:induction false} DropHeld(c: seq<bool>, bits: nat, bitCount: nat, rest: seq<byte>)
    requires c <= BitsOf(bits, bitCount) && bitCount < WordSize
    ensures BitsOf(Shr(bits, |c|), Sub64(bitCount, |c|)) + Unpack(rest) ==
            (BitsOf(bits, bitCount) + Unpack(rest))[|c|..]
  {
    var held := BitsOf(bits, bitCount);
    BitsShift(bits, |c|, bitCount - |c|);
    assert (held + Unpack(rest))[|c|..] == held[|c|..] + Unpack(rest);
  }

  /** Dropping `LutBits` bits and then the rest of a longer code drops the
      whole code from the stream. */
  lemma {:induction false} DescendHeld(c: seq<bool>, bits: nat, bitCount: nat, rest: seq<byte>)
    requires c <= BitsOf(bits, bitCount) && |c| > LutBits && bitCount < WordSize
    ensures c[LutBits..] <= BitsOf(Shr(bits, LutBits), Sub64(bitCount, LutBits))
    ensures BitsOf(Shr(Shr(bits, LutBits), |c| - LutBits), Sub64(bitCount, LutBits) - (|c| - LutBits)) + Unpack(rest) ==
            (BitsOf(bits, bitCount) + Unpack(rest))[|c|..]
  {
    var held := BitsOf(bits, bitCount);
    BitsShift(bits, LutBits, bitCount - LutBits);
    var after := BitsOf(Shr(bits, LutBits), bitCount - LutBits);
    assert after == held[LutBits..];
    BitsShift(Shr(bits, LutBits), |c| - LutBits, bitCount - |c|);
    assert after[|c| - LutBits..] == held[|c|..];
    assert (held + Unpack(rest))[|c|..] == held[|c|..] + Unpack(rest);
  }

  /** The weights depend on the shape of the arena only, which `setBits`
      leaves alone. */
  lemma {:induction false} WeightedKeep(a: seq<Node>, b: seq<Node>, w: seq<nat>, frequencies: seq<nat>, hi: nat)
    requires Links(a) == Links(b) && Weighted(a, w, frequencies, hi)
    ensures Weighted(b, w, frequencies, hi)
  {
    forall k | MaxSymbols <= k < hi
      ensures b[k].leaf0 == a[k].leaf0 && b[k].leaf1 == a[k].leaf1
    {
      assert Links(a)[k] == Links(b)[k];
    }
  }

  /** The two children of a node on the path `bits`, `depth` get the paths
      that `setBits` passes down. */
  lemma {:induction false} SetBitsStep(links: seq<Link>, path: seq<bool>, k: nat, bits: nat, depth: nat, bit: bool)
    requires Linked(links) && k < MaxNodes && !links[k].isLeaf
    requires bits < Pow2(depth) && path == BitsOf(bits, depth) && Walk(links, Root, path) == k
    ensures var b := if bit then Or(bits, Pow2(depth)) else bits;
            b < Pow2(depth + 1) && BitsOf(b, depth + 1) == path + [bit] &&
            Walk(links, Root, BitsOf(b, depth + 1)) == links[k].Child(bit)
  {
    ChildCode(bits, depth, bit);
    WalkAppend(links, Root, path, bit);
  }

  /** The code `setBits` gives the `bit` child extends its parent's code
      by `bit`. */
  lemma {:induction false} ChildCode(bits: nat, depth: nat, bit: bool)
    requires bits < Pow2(depth)
    ensures var b := if bit then Or(bits, Pow2(depth)) else bits;
            b < Pow2(depth + 1) && BitsOf(b, depth + 1) == BitsOf(bits, depth) + [bit]
  {
    if bit {
      OrDisjoint(bits, 1, depth);
      BitsAdd(bits, 1, depth, 1);
      assert BitsOf(1, 1) == [true];
    } else {
      BitsPad(bits, depth, 1);
      assert Zeros(1) == [false];
    }
  }

  /** Entries numbered in order carry the ids `0..|s|-1`. */
  lemma {:induction false} IdsInOrder(s: seq<ConstructNode>)
    requires forall k :: 0 <= k < |s| ==> s[k].nodeId == k
    ensures multiset(Ids(s)) == Range(0, |s|)
  {
    if s != [] {
      var last := s[|s| - 1];
      assert s == s[..|s| - 1] + [last];
      IdsConcat(s[..|s| - 1], [last]);
      assert Ids([last]) == [last.nodeId];
      IdsInOrder(s[..|s| - 1]);
      RangeStep(0, |s| - 1);
    }
  }

  /** The start of the merge loop: every leaf is an entry of its own. */
  lemma {:induction false} LeavesStart(s: seq<ConstructNode>, frequencies: seq<nat>)
    requires |s| == MaxSymbols && |frequencies| == MaxSymbols
    requires forall k :: 0 <= k < MaxSymbols ==> s[k] == ConstructNode(k, LeafWeight(frequencies, k))
    ensures multiset(Ids(s)) == Range(0, MaxSymbols)
    ensures Active(s, LeafWeights(frequencies))
  {
    IdsInOrder(s);
  }

  /** Merging the last two entries of `sorted` into a new node `n` moves
      their ids from the entries to the children of `n`, and `n` becomes an
      entry: every node is still counted once. */
  lemma {:induction false} MergeIds(links: seq<Link>, after: seq<Link>, sorted: seq<ConstructNode>, n: nat)
    requires |links| == MaxNodes == |after| && MaxSymbols <= n < MaxNodes && |sorted| >= 2
    requires forall j :: 0 <= j < n ==> after[j] == links[j]
    requires after[n].child0 == sorted[|sorted| - 1].nodeId && after[n].child1 == sorted[|sorted| - 2].nodeId
    requires ChildIds(links, MaxSymbols, n) + multiset(Ids(sorted)) == Range(0, n)
    ensures ChildIds(after, MaxSymbols, n + 1) + multiset(Ids(Merged(sorted, n))) == Range(0, n + 1)
    ensures n in multiset(Ids(Merged(sorted, n)))
  {
    var m := |sorted|;
    var front := sorted[..m - 2];
    var lo, hi := sorted[m - 1].nodeId, sorted[m - 2].nodeId;
    var e := ConstructNode(n, sorted[m - 1].frequency + sorted[m - 2].frequency);
    var children, entries := ChildIds(links, MaxSymbols, n), multiset(Ids(front));
    ChildIdsExtend(links, after, n);
    assert ChildIds(after, MaxSymbols, n + 1) == children + multiset{lo, hi};
    TwoIds(sorted);
    assert children + (entries + multiset{hi, lo}) == Range(0, n);
    MergedIds(sorted, n);
    RangeStep(0, n);
    MoveTwo(children, entries, lo, hi, n, Range(0, n));
  }

  /** Counting one more internal node counts its two children. */
  lemma {:induction false} ChildIdsExtend(links: seq<Link>, after: seq<Link>, n: nat)
    requires MaxSymbols <= n < |links| == |after|
    requires forall j :: 0 <= j < n ==> after[j] == links[j]
    ensures ChildIds(after, MaxSymbols, n + 1) == ChildIds(links, MaxSymbols, n) + multiset{after[n].child0, after[n].child1}
  {
    ChildIdsFrame(links, after, MaxSymbols, n);
  }

  lemma {:induction false} MergedIds(sorted: seq<ConstructNode>, n: nat)
    requires |sorted| >= 2
    ensures multiset(Ids(Merged(sorted, n))) == multiset(Ids(sorted[..|sorted| - 2])) + multiset{n}
  {
    IdsAppend(sorted[..|sorted| - 2], ConstructNode(n, sorted[|sorted| - 1].frequency + sorted[|sorted| - 2].frequency));
  }

  lemma {:induction false} IdsAppend(s: seq<ConstructNode>, e: ConstructNode)
    ensures multiset(Ids(s + [e])) == multiset(Ids(s)) + multiset{e.nodeId}
  {
    IdsConcat(s, [e]);
    assert Ids([e]) == [e.nodeId] + Ids([]);
  }

  /** The bookkeeping of one merge: two ids move from the entries to the
      children and a new id joins the entries. */
  lemma {:induction false} MoveTwo(children: multiset<nat>, entries: multiset<nat>, lo: nat, hi: nat, n: nat, all: multiset<nat>)
    requires children + (entries + multiset{hi, lo}) == all
    ensures (children + multiset{lo, hi}) + (entries + multiset{n}) == all + multiset{n}
  {
    assert multiset{hi, lo} == multiset{lo, hi};
  }

  /** The ids of a sequence are the ids of all but its last two entries and
      the ids of those two. */
  lemma {:induction false} TwoIds(sorted: seq<ConstructNode>)
    requires |sorted| >= 2
    ensures var m := |sorted|;
            multiset(Ids(sorted)) == multiset(Ids(sorted[..m - 2])) + multiset{sorted[m - 2].nodeId, sorted[m - 1].nodeId}
  {
    var m := |sorted|;
    var front := sorted[..m - 2];
    var pair := [sorted[m - 2], sorted[m - 1]];
    assert sorted == front + pair;
    IdsConcat(front, pair);
    assert pair[1..] == [sorted[m - 1]];
    assert Ids([sorted[m - 1]]) == [sorted[m - 1].nodeId] + Ids([]);
    assert Ids(pair) == [sorted[m - 2].nodeId, sorted[m - 1].nodeId];
  }

  lemma {:induction false} MergeStart(nodes: seq<Node>, left: seq<ConstructNode>, frequencies: seq<nat>)
    requires |nodes| == MaxNodes && LeafSlots(nodes, MaxSymbols)
    requires |left| == MaxSymbols && |frequencies| == MaxSymbols
    requires forall k :: 0 <= k < MaxSymbols ==> left[k] == ConstructNode(k, LeafWeight(frequencies, k))
    ensures Merging(nodes, left, LeafWeights(frequencies), frequencies, MaxSymbols)
  {
    LeavesStart(left, frequencies);
  }

  /** The last two entries are the two lightest, the last the lighter. */
  ghost predicate LightestLast(s: seq<ConstructNode>)
  {
    |s| >= 2 && s[|s| - 1].frequency <= s[|s| - 2].frequency &&
    forall j :: 0 <= j < |s| - 2 ==> s[j].frequency >= s[|s| - 2].frequency
  }

  lemma {:induction false} SortedLightest(s: seq<ConstructNode>)
    requires SortedDesc(s) && |s| >= 2
    ensures LightestLast(s)
  {
  }

  /** The arena once the last two entries of `sorted` are made the children
      of node `n`. */
  function Joined(nodes: seq<Node>, n: nat, sorted: seq<ConstructNode>): (r: seq<Node>)
    requires n < |nodes| && |sorted| >= 2
    ensures |r| == |nodes|
  {
    nodes[n := nodes[n].(numBits := 0, leaf0 := sorted[|sorted| - 1].nodeId, leaf1 := sorted[|sorted| - 2].nodeId)]
  }

  /** The entries once the last two of `sorted` are replaced by node `n`. */
  function Merged(sorted: seq<ConstructNode>, n: nat): (r: seq<ConstructNode>)
    requires |sorted| >= 2
    ensures |r| == |sorted| - 1
  {
    sorted[..|sorted| - 2] + [ConstructNode(n, sorted[|sorted| - 1].frequency + sorted[|sorted| - 2].frequency)]
  }

  /** The weights once node `n` is built from the last two entries. */
  function Reweighed(w: seq<nat>, sorted: seq<ConstructNode>): (r: seq<nat>)
    requires |sorted| >= 2
    ensures |r| == |w| + 1
  {
    w + [sorted[|sorted| - 1].frequency + sorted[|sorted| - 2].frequency]
  }

  /** One round of the merge loop keeps `Merging`. */
  lemma {:induction false} MergeStep(start: seq<Node>, nodes: seq<Node>, before: seq<ConstructNode>, sorted: seq<ConstructNode>,
                                     w: seq<nat>, frequencies: seq<nat>, n: nat)
    returns (after: seq<Node>, left: seq<ConstructNode>, w': seq<nat>, n': nat)
    requires Merging(nodes, before, w, frequencies, n) && n < MaxNodes
    requires OnGreedyPath(Links(nodes), before, frequencies, n) && KeepsData(start, nodes)
    requires multiset(sorted) == multiset(before) && LightestLast(sorted) && sorted == StableSorted(before)
    ensures after == Joined(nodes, n, sorted) && left == Merged(sorted, n) && w' == Reweighed(w, sorted) && n' == n + 1
    ensures Merging(after, left, w', frequencies, n')
    ensures OnGreedyPath(Links(after), left, frequencies, n') && KeepsData(start, after)
  {
    MergeRound(nodes, before, sorted, w, frequencies, n);
    after, left, w', n' := Joined(nodes, n, sorted), Merged(sorted, n), Reweighed(w, sorted), n + 1;
    GreedyRound(nodes, before, sorted, frequencies, n, after, left);
    JoinedKeeps(nodes, n, sorted);
    KeepsDataTrans(start, nodes, after);
  }

  lemma {:induction false} MergeRound(nodes: seq<Node>, before: seq<ConstructNode>, sorted: seq<ConstructNode>,
                                      w: seq<nat>, frequencies: seq<nat>, n: nat)
    requires Merging(nodes, before, w, frequencies, n) && n < MaxNodes
    requires multiset(sorted) == multiset(before) && LightestLast(sorted)
    ensures Merging(Joined(nodes, n, sorted), Merged(sorted, n), Reweighed(w, sorted), frequencies, n + 1)
  {
    var after := Joined(nodes, n, sorted);
    assert |sorted| == |multiset(sorted)| == |multiset(before)| == |before|;
    var floor := 0;
    if n > MaxSymbols {
      floor := w[nodes[n - 1].leaf1];
    }
    MergeEntries(before, sorted, w, n, floor);
    IdsPermutation(before, sorted);
    LinksUpdate(nodes, n, after[n]);
    MergeIds(Links(nodes), Links(after), sorted, n);
    MergeNodes(nodes, w, frequencies, n, sorted);
  }

  /** The merge loop starts where `GreedyTree` does. */
  lemma {:induction false} GreedyStart(nodes: seq<Node>, left: seq<ConstructNode>, frequencies: seq<nat>)
    requires |nodes| == MaxNodes && |frequencies| == MaxSymbols && LeafSlots(nodes, MaxSymbols)
    requires |left| == MaxSymbols && forall k :: 0 <= k < MaxSymbols ==> left[k] == ConstructNode(k, LeafWeight(frequencies, k))
    ensures OnGreedyPath(Links(nodes), left, frequencies, MaxSymbols)
  {
    assert left == Leaves(frequencies);
    assert Links(nodes)[..MaxSymbols] == seq(MaxSymbols, _ => Link(true, NoLeaf, NoLeaf));
  }

  /** One merge round of the arena, with the entries stably sorted, is one
      round of `Greedy`. */
  lemma {:induction false} GreedyRound(nodes: seq<Node>, left: seq<ConstructNode>, sorted: seq<ConstructNode>,
                                       frequencies: seq<nat>, n: nat, after: seq<Node>, left': seq<ConstructNode>)
    requires OnGreedyPath(Links(nodes), left, frequencies, n) && n < MaxNodes
    requires sorted == StableSorted(left)
    requires after == Joined(nodes, n, sorted) && left' == Merged(sorted, n)
    ensures OnGreedyPath(Links(after), left', frequencies, n + 1)
  {
    assert Links(after)[..n + 1] == Links(nodes)[..n] + [JoinLink(sorted)];
  }

  /** Once all nodes are built, the arena is the greedy tree. */
  lemma {:induction false} GreedyDone(links: seq<Link>, left: seq<ConstructNode>, frequencies: seq<nat>)
    requires OnGreedyPath(links, left, frequencies, MaxNodes)
    ensures links == GreedyTree(frequencies)
  {
    assert links[..MaxNodes] == links;
  }

  /** Two initialised codecs whose arenas have the same shape, such as two
      built by `Init` from the same table, give every symbol the same code
      and have the same decode table: the tree, and so the compressed
      format, is a function of the frequencies alone. */
  lemma {:induction false} SameTreeSameCodec(h: Huffman, g: Huffman)
    requires h.Valid() && g.Valid() && Links(h.nodes[..]) == Links(g.nodes[..])
    ensures forall v :: 0 <= v < MaxSymbols ==>
              h.nodes[v].bits == g.nodes[v].bits && h.nodes[v].numBits == g.nodes[v].numBits &&
              h.nodes[v].symbol == g.nodes[v].symbol
    ensures h.decodeLut[..] == g.decodeLut[..]
  {
    forall v | 0 <= v < MaxSymbols
      ensures h.nodes[v].bits == g.nodes[v].bits && h.nodes[v].numBits == g.nodes[v].numBits
    {
      SameShapeSameCode(h.nodes[..], g.nodes[..], v);
    }
  }

  /** `b` keeps the `Bits` and `Symbol` of every node of `a`: the merge
      loop writes only `NumBits` and `Leafs`. */
  ghost predicate KeepsData(a: seq<Node>, b: seq<Node>)
  {
    |a| == |b| && forall k :: 0 <= k < |a| ==> b[k].bits == a[k].bits && b[k].symbol == a[k].symbol
  }

  /** A join writes neither `Bits` nor `Symbol`. */
  lemma {:induction false} JoinedKeeps(nodes: seq<Node>, n: nat, sorted: seq<ConstructNode>)
    requires n < |nodes| && |sorted| >= 2
    ensures KeepsData(nodes, Joined(nodes, n, sorted))
  {
  }

  lemma {:induction false} KeepsDataTrans(a: seq<Node>, b: seq<Node>, c: seq<Node>)
    requires KeepsData(a, b) && KeepsData(b, c)
    ensures KeepsData(a, c)
  {
  }

  /** Replacing one node changes only that node's link. */
  lemma LinksUpdate(nodes: seq<Node>, n: nat, x: Node)
    requires n < |nodes|
    ensures forall j :: 0 <= j < |nodes| && j != n ==> Links(nodes[n := x])[j] == Links(nodes)[j]
  {
  }

  /** The entries after a merge carry their weights, and none is lighter
      than the heavier of the two entries just merged. */
  lemma {:induction false} MergeEntries(before: seq<ConstructNode>, sorted: seq<ConstructNode>, w: seq<nat>, n: nat, floor: nat)
    requires Active(before, w) && |w| == n && Lighter(before, floor)
    requires multiset(sorted) == multiset(before) && LightestLast(sorted)
    ensures var m := |sorted|;
            sorted[m - 1].nodeId < n && sorted[m - 2].nodeId < n &&
            sorted[m - 1].frequency == w[sorted[m - 1].nodeId] &&
            sorted[m - 2].frequency == w[sorted[m - 2].nodeId] &&
            floor <= sorted[m - 1].frequency
    ensures Active(Merged(sorted, n), Reweighed(w, sorted)) &&
            Lighter(Merged(sorted, n), sorted[|sorted| - 2].frequency)
  {
    var m := |sorted|;
    var left, w' := Merged(sorted, n), Reweighed(w, sorted);
    assert sorted[m - 1] in multiset(before) && sorted[m - 2] in multiset(before);
    forall e | e in left
      ensures e.nodeId < |w'| && e.frequency == w'[e.nodeId] && e.frequency >= sorted[m - 2].frequency
    {
      if e != left[m - 2] {
        var j :| 0 <= j < m - 2 && sorted[j] == e;
        assert e in multiset(before);
      }
    }
  }

  /** The arena after a merge: the new node has the two entries as
      children and weighs their sum, which is no less than the weight of
      the node built before it. */
  lemma {:induction false} MergeNodes(nodes: seq<Node>, w: seq<nat>, frequencies: seq<nat>, n: nat, sorted: seq<ConstructNode>)
    requires |nodes| == MaxNodes && MaxSymbols <= n < MaxNodes && |sorted| >= 2
    requires LeafSlots(nodes, MaxSymbols) && Built(nodes, n) && Weighted(nodes, w, frequencies, n)
    requires var lo, hi := sorted[|sorted| - 1], sorted[|sorted| - 2];
             lo.nodeId < n && hi.nodeId < n && lo.frequency == w[lo.nodeId] && hi.frequency == w[hi.nodeId] &&
             lo.frequency <= hi.frequency &&
             (n > MaxSymbols ==> w[nodes[n - 1].leaf1] <= lo.frequency)
    ensures var after := Joined(nodes, n, sorted);
            LeafSlots(after, MaxSymbols) && Built(after, n + 1) &&
            Weighted(after, Reweighed(w, sorted), frequencies, n + 1) &&
            Reweighed(w, sorted)[after[n].leaf1] == sorted[|sorted| - 2].frequency
  {
    var after, w' := Joined(nodes, n, sorted), Reweighed(w, sorted);
    forall k | MaxSymbols <= k < n + 1
      ensures after[k].leaf0 < k && after[k].leaf1 < k &&
              w'[k] == w'[after[k].leaf0] + w'[after[k].leaf1] &&
              w'[after[k].leaf0] <= w'[after[k].leaf1] &&
              (k > MaxSymbols ==> w'[k - 1] <= w'[k])
    {
      if k < n {
        assert after[k] == nodes[k];
        if k > MaxSymbols {
          assert nodes[k - 1] == nodes[k - 1];
        }
      } else if k > MaxSymbols {
        assert nodes[k - 1] == nodes[k - 1];
      }
    }
  }

  /** After the last round the arena is a tree rooted at the last node. */
  lemma {:induction false} MergeDone(nodes: seq<Node>, left: seq<ConstructNode>, w: seq<nat>, frequencies: seq<nat>, n: nat)
    requires Merging(nodes, left, w, frequencies, n) && n == MaxNodes
    ensures Arena(Links(nodes)) && Weighted(nodes, w, frequencies, MaxNodes)
    ensures forall v :: 0 <= v < MaxSymbols ==> nodes[v].symbol == (v % 256) as byte
  {
    var links := Links(nodes);
    assert left == [left[0]];
    assert Ids(left) == [left[0].nodeId] + Ids([]);
    assert left[0].nodeId == Root;
    RangeStep(0, Root);
    var children := ChildIds(links, MaxSymbols, MaxNodes);
    Cancel(children, Range(0, Root), Root);
  }

  /** Once every symbol below the root has its code, every symbol has. */
  lemma {:induction false} AllCoded(nodes: seq<Node>)
    requires |nodes| == MaxNodes && Arena(Links(nodes))
    requires forall v :: v in Reach(Links(nodes), Root) && v < MaxSymbols ==> CodeOk(Links(nodes), v, nodes[v])
    ensures Codes(nodes)
  {
    forall v | 0 <= v < MaxSymbols
      ensures CodeOk(Links(nodes), v, nodes[v])
    {
      ReachAll(Links(nodes), v);
    }
  }

  lemma {:induction false} Cancel(a: multiset<nat>, b: multiset<nat>, x: nat)
    requires a + multiset{x} == b + multiset{x}
    ensures a == b
  {
    assert a == (a + multiset{x}) - multiset{x};
    assert b == (b + multiset{x}) - multiset{x};
  }

  /** The round trip of the package's tests: compress `input` into
      `buffer`, then decompress the bytes written into an output buffer of
      the input's length. With an initialised codec in which the codes
      of the input's bytes and of end-of-stream are at most `RefillBits`
      long, and a buffer large enough for the stream, the input comes back
      whole. */
  method RoundTrip(h: Huffman, input: seq<byte>, buffer: array<byte>, output: array<byte>) returns (r: Outcome)
    requires h.Valid() && ShortCodes(h.nodes[..], input)
    requires buffer != output && output.Length == |input|
    requires |Encoding(h.nodes[..], input)| / 8 < buffer.Length
    modifies buffer, output
    ensures r == Ok(|input|) && output[..] == input
  {
    CodesFit(h.nodes[..]);
    var c := h.Compress(input, buffer);
    ghost var e := Encoding(h.nodes[..], input);
    assert e <= e + Zeros(8 * c.size - |e|);
    r := h.Decompress(buffer[..c.size], output, input);
    assert output[..] == output[..|input|];
  }

  /** Valid codes fit their lengths. */
  lemma {:induction false} CodesFit(nodes: seq<Node>)
    requires Codes(nodes)
    ensures Fits(nodes)
  {
    forall v | 0 <= v < MaxSymbols
      ensures nodes[v].bits < Pow2(nodes[v].numBits)
    {
      assert CodeOk(Links(nodes), v, nodes[v]);
    }
  }
}
