/** The node arena of the codec and what it means as a code tree
    (huffman/huffman.go:5-28). Slots 0..255 hold the byte symbols, slot 256
    the end-of-stream symbol, slots 257..512 the internal nodes in the order
    they were built; the last one built, slot 512, is the root. A pointer of
    the Go code is an index into this arena here. */
module HuffmanTree {
  import opened Bits

  const EofSymbol: nat := 256
  const MaxSymbols: nat := EofSymbol + 1
  const MaxNodes: nat := MaxSymbols * 2 - 1
  const LutBits: nat := 10
  const LutSize: nat := 1024
  /** The child slot value that marks "no child". */
  const NoLeaf: nat := 0xFFFF
  /** Index of the node built last, which `constructTree` makes the root. */
  const Root: nat := MaxNodes - 1

  /** A node of the arena: its code (`bits`, `numBits`), its two children
      and the byte it decodes to. A node whose `numBits` is 0 is internal. */
  datatype Node = Node(bits: nat, numBits: nat, leaf0: nat, leaf1: nat, symbol: byte)
  {
    function Leaf(bit: bool): (r: nat)
    {
      if bit then leaf1 else leaf0
    }
  }

  /** A node of the zero value `Huffman{}`. */
  const ZeroNode := Node(0, 0, 0, 0, 0)

  /** The part of a node that the tree shape depends on. */
  datatype Link = Link(isLeaf: bool, child0: nat, child1: nat)
  {
    function Child(bit: bool): (r: nat)
    {
      if bit then child1 else child0
    }
  }

  function LinkOf(n: Node): (r: Link)
  {
    Link(n.numBits != 0, n.leaf0, n.leaf1)
  }

  function Links(s: seq<Node>): (r: seq<Link>)
    ensures |r| == |s|
  {
    seq(|s|, i requires 0 <= i < |s| => LinkOf(s[i]))
  }

  /** The bits of a node's code, in the order they are sent. */
  function Code(n: Node): (r: seq<bool>)
    ensures |r| == n.numBits
  {
    BitsOf(n.bits, n.numBits)
  }

  /** The node reached from `k` by following `path`, one child per bit, or
      -1 when the walk leaves the arena or tries to step out of a leaf. */
  function Walk(links: seq<Link>, k: int, path: seq<bool>): (r: int)
    ensures -1 <= r < |links|
    decreases |path|
  {
    if !(0 <= k < |links|) then -1
    else if path == [] then k
    else if links[k].isLeaf then -1
    else Walk(links, links[k].Child(path[0]), path[1..])
  }

  /** The node the decode table stores for a path: the first leaf met on
      the path, or the node reached at its end (huffman/huffman.go:146-163). */
  function FirstLeaf(links: seq<Link>, k: int, path: seq<bool>): (r: int)
    ensures -1 <= r < |links|
    decreases |path|
  {
    if !(0 <= k < |links|) then -1
    else if path == [] then k
    else
      var c := links[k].Child(path[0]);
      if c >= |links| then -1
      else if links[c].isLeaf then c
      else FirstLeaf(links, c, path[1..])
  }

  /** Entry `i` of the decode table: the lookup of the low `LutBits` bits of
      `i`, least significant bit first, from the root. */
  function LutTarget(links: seq<Link>, i: nat): (r: int)
  {
    FirstLeaf(links, Root, BitsOf(i, LutBits))
  }

  /** Every node 0..511 once as a child: the children of the internal nodes
      `lo..hi-1`, with their multiplicities. */
  function ChildIds(links: seq<Link>, lo: nat, hi: nat): (r: multiset<nat>)
    requires lo <= hi <= |links|
    decreases hi - lo
  {
    if lo == hi then multiset{}
    else ChildIds(links, lo, hi - 1) + multiset{links[hi - 1].child0, links[hi - 1].child1}
  }

  /** Each of `lo..hi-1` once. */
  function Range(lo: nat, hi: nat): (r: multiset<nat>)
  {
    multiset(seq(if lo <= hi then hi - lo else 0, i requires 0 <= i => lo + i))
  }

  /** The shape `constructTree` builds: symbols are leaves without
      children, every internal node points to two nodes built before it,
      and every node but the root is the child of exactly one internal
      node. */
  ghost predicate Arena(links: seq<Link>)
  {
    Linked(links) && ChildIds(links, MaxSymbols, MaxNodes) == Range(0, Root)
  }

  /** The first three parts of `Arena`: leaves first, then internal nodes
      pointing back. */
  ghost predicate Linked(links: seq<Link>)
  {
    |links| == MaxNodes &&
    (forall k :: 0 <= k < MaxSymbols ==> links[k] == Link(true, NoLeaf, NoLeaf)) &&
    (forall k :: MaxSymbols <= k < MaxNodes ==>
       !links[k].isLeaf && links[k].child0 < k && links[k].child1 < k)
  }

  /** The nodes below `k`, `k` included. */
  function Reach(links: seq<Link>, k: nat): (r: set<nat>)
    decreases k
  {
    if k >= |links| then {}
    else if links[k].isLeaf then {k}
    else
      {k} + (if links[k].child0 < k then Reach(links, links[k].child0) else {})
          + (if links[k].child1 < k then Reach(links, links[k].child1) else {})
  }

  /** `n` carries a code of `v`: its bits fit its length and lead from the
      root to `v`. */
  ghost predicate CodeOk(links: seq<Link>, v: nat, n: Node)
  {
    n.bits < Pow2(n.numBits) && Walk(links, Root, Code(n)) == v
  }

  /** The code of every symbol, end-of-stream included, is valid. */
  ghost predicate Codes(nodes: seq<Node>)
  {
    |nodes| == MaxNodes &&
    forall v :: 0 <= v < MaxSymbols ==> CodeOk(Links(nodes), v, nodes[v])
  }

  /** The codes of the bytes of `s`, one after the other. */
  function Symbols(nodes: seq<Node>, s: seq<byte>): (r: seq<bool>)
    requires |nodes| == MaxNodes
  {
    if s == [] then [] else Code(nodes[s[0] as nat]) + Symbols(nodes, s[1..])
  }

  /** What `Compress` emits for `s`, before the final padding. */
  function Encoding(nodes: seq<Node>, s: seq<byte>): (r: seq<bool>)
    requires |nodes| == MaxNodes
  {
    Symbols(nodes, s) + Code(nodes[EofSymbol])
  }

  lemma {:induction false} SymbolsConcat(nodes: seq<Node>, a: seq<byte>, b: seq<byte>)
    requires |nodes| == MaxNodes
    ensures Symbols(nodes, a + b) == Symbols(nodes, a) + Symbols(nodes, b)
  {
    if a != [] {
      assert (a + b)[0] == a[0] && (a + b)[1..] == a[1..] + b;
      SymbolsConcat(nodes, a[1..], b);
    } else {
      assert a + b == b;
    }
  }

  lemma {:induction false} SymbolsAppend(nodes: seq<Node>, s: seq<byte>, x: byte)
    requires |nodes| == MaxNodes
    ensures Symbols(nodes, s + [x]) == Symbols(nodes, s) + Code(nodes[x as nat])
  {
    SymbolsConcat(nodes, s, [x]);
    assert Symbols(nodes, [x]) == Code(nodes[x as nat]) + Symbols(nodes, []);
  }

  // ---------------------------------------------------------------- walks

  /** Walking `p + q` is walking `p`, then `q` from where `p` ended. */
  lemma {:induction false} WalkConcat(links: seq<Link>, k: int, p: seq<bool>, q: seq<bool>)
    ensures Walk(links, k, p + q) == Walk(links, Walk(links, k, p), q)
    decreases |p|
  {
    if !(0 <= k < |links|) {
    } else if p == [] {
      assert p + q == q;
    } else if links[k].isLeaf {
      assert (p + q) != [];
    } else {
      assert (p + q)[0] == p[0] && (p + q)[1..] == p[1..] + q;
      WalkConcat(links, links[k].Child(p[0]), p[1..], q);
    }
  }

  /** One more bit is one more step. */
  lemma {:induction false} WalkAppend(links: seq<Link>, k: int, p: seq<bool>, b: bool)
    requires 0 <= Walk(links, k, p) && !links[Walk(links, k, p)].isLeaf
    ensures Walk(links, k, p + [b]) == Walk(links, links[Walk(links, k, p)].Child(b), [])
  {
    WalkConcat(links, k, p, [b]);
    assert [b][1..] == [];
  }

  /** A walk that goes on after `p` passed only internal nodes up to it. */
  lemma {:induction false} WalkThrough(links: seq<Link>, k: int, p: seq<bool>, q: seq<bool>)
    requires q != [] && 0 <= Walk(links, k, p + q)
    ensures 0 <= Walk(links, k, p) && !links[Walk(links, k, p)].isLeaf
  {
    WalkConcat(links, k, p, q);
  }

  /** A walk that ends on a leaf cannot be extended: no code of a leaf is a
      proper prefix of another walk, the decoder's prefix property. */
  lemma {:induction false} LeafEndsWalk(links: seq<Link>, k: int, a: seq<bool>, b: seq<bool>)
    requires 0 <= Walk(links, k, a) && links[Walk(links, k, a)].isLeaf
    requires a <= b && 0 <= Walk(links, k, b)
    ensures a == b
  {
    var q := b[|a|..];
    assert b == a + q;
    if q != [] {
      WalkThrough(links, k, a, q);
    }
  }

  /** The codes are prefix-free: the code of one symbol never starts the
      code of another. */
  lemma {:induction false} PrefixFree(nodes: seq<Node>, v: nat, w: nat)
    requires Codes(nodes) && Arena(Links(nodes))
    requires v < MaxSymbols && w < MaxSymbols && v != w
    ensures !(Code(nodes[v]) <= Code(nodes[w]))
  {
    var links := Links(nodes);
    if Code(nodes[v]) <= Code(nodes[w]) {
      assert links[v].isLeaf;
      LeafEndsWalk(links, Root, Code(nodes[v]), Code(nodes[w]));
      assert false;
    }
  }

  /** The decode table finds the leaf whose code starts the looked-up bits. */
  lemma {:induction false} FirstLeafOnCode(links: seq<Link>, k: int, c: seq<bool>, path: seq<bool>)
    requires 0 <= k < |links| && !links[k].isLeaf
    requires c != [] && c <= path
    requires 0 <= Walk(links, k, c) && links[Walk(links, k, c)].isLeaf
    ensures FirstLeaf(links, k, path) == Walk(links, k, c)
    decreases |c|
  {
    var ch := links[k].Child(c[0]);
    assert path[0] == c[0];
    if |c| > 1 {
      assert ch < |links| && !links[ch].isLeaf;
      assert c[1..] <= path[1..];
      FirstLeafOnCode(links, ch, c[1..], path[1..]);
    }
  }

  /** A path that passes only internal nodes is looked up to where it ends. */
  lemma {:induction false} FirstLeafInternal(links: seq<Link>, k: int, p: seq<bool>)
    requires 0 <= k < |links| && !links[k].isLeaf
    requires 0 <= Walk(links, k, p) && !links[Walk(links, k, p)].isLeaf
    ensures FirstLeaf(links, k, p) == Walk(links, k, p)
    decreases |p|
  {
    if p != [] {
      var ch := links[k].Child(p[0]);
      assert ch < |links| && !links[ch].isLeaf;
      FirstLeafInternal(links, ch, p[1..]);
    }
  }

  /** From an internal node, the lookup always finds a node. */
  lemma {:induction false} FirstLeafFound(links: seq<Link>, k: nat, path: seq<bool>)
    requires Linked(links) && MaxSymbols <= k < MaxNodes
    ensures 0 <= FirstLeaf(links, k, path)
    decreases |path|
  {
    if path != [] {
      var c := links[k].Child(path[0]);
      if !links[c].isLeaf {
        FirstLeafFound(links, c, path[1..]);
      }
    }
  }

  /** The decode table entry for bits that start with the code `c` of leaf
      `v`: the leaf itself when the code is at most `LutBits` long, and
      otherwise the internal node after its first `LutBits` bits, from
      which the rest of the code leads to `v`. */
  lemma {:induction false} LookupCode(links: seq<Link>, c: seq<bool>, v: nat, bits: nat, bitCount: nat)
    requires Linked(links) && v < MaxSymbols && Walk(links, Root, c) == v
    requires c <= BitsOf(bits, bitCount) && bits < Pow2(bitCount)
    ensures |c| <= LutBits ==> LutTarget(links, bits % LutSize) == v
    ensures |c| > LutBits ==>
              var u := Walk(links, Root, c[..LutBits]);
              LutTarget(links, bits % LutSize) == u && MaxSymbols <= u < MaxNodes &&
              Walk(links, u, c[LutBits..]) == v
  {
    var held := BitsOf(bits, bitCount);
    var path := BitsOf(bits, LutBits);
    assert Pow2(10) == 1024;
    BitsMask(bits, LutBits);
    assert LutTarget(links, bits % LutSize) == FirstLeaf(links, Root, path);
    if bitCount >= LutBits {
      BitsPrefix(bits, bitCount, LutBits);
      assert path == held[..LutBits];
    } else {
      BitsPad(bits, bitCount, LutBits - bitCount);
      assert path == held + Zeros(LutBits - bitCount);
    }
    if |c| <= LutBits {
      assert c <= path;
      assert c != [];
      FirstLeafOnCode(links, Root, c, path);
    } else {
      assert c == c[..LutBits] + c[LutBits..];
      assert path == c[..LutBits];
      WalkThrough(links, Root, c[..LutBits], c[LutBits..]);
      FirstLeafInternal(links, Root, c[..LutBits]);
      WalkConcat(links, Root, c[..LutBits], c[LutBits..]);
    }
  }

  /** One step of the bit-by-bit walk of decompress follows the next bit
      of the code being read. */
  lemma {:induction false} DescendStep(links: seq<Link>, k: nat, q: seq<bool>, j: nat, bits: nat, bitCount: nat)
    requires Linked(links) && k < MaxNodes && q <= BitsOf(bits, bitCount) && j < |q|
    requires 0 <= Walk(links, k, q[..j]) && !links[Walk(links, k, q[..j])].isLeaf
    ensures (Shr(bits, j) % 2 == 1) == q[j]
    ensures Walk(links, k, q[..j + 1]) == links[Walk(links, k, q[..j])].Child(q[j])
    ensures Shr(Shr(bits, j), 1) == Shr(bits, j + 1)
  {
    BitsShift(bits, j, bitCount - j);
    assert BitsOf(Shr(bits, j), bitCount - j)[0] == BitsOf(bits, bitCount)[j];
    assert q[..j + 1] == q[..j] + [q[j]];
    WalkAppend(links, k, q[..j], q[j]);
    ShrStep(bits, j);
  }

  /** One step of the walk below the table: from the node `n` reached by
      the first `j` bits of `q`, the child for bit `j` is the node the
      first `j + 1` bits reach; it is a leaf exactly when `q` is used up. */
  lemma {:induction false} DescendNext(links: seq<Link>, k: nat, q: seq<bool>, j: nat, bits: nat, bitCount: nat,
                                       n: nat, b: nat, c: nat)
    requires Linked(links) && k < MaxNodes && q <= BitsOf(bits, bitCount) && 0 <= Walk(links, k, q) < MaxSymbols
    requires j < |q| && n == Walk(links, k, q[..j]) && MaxSymbols <= n && b == Shr(bits, j) && c == bitCount - j
    requires bitCount < WordSize
    ensures links[n].Child(b % 2 == 1) == Walk(links, k, q[..j + 1])
    ensures Shr(b, 1) == Shr(bits, j + 1) && Sub64(c, 1) == bitCount - (j + 1)
    ensures links[links[n].Child(b % 2 == 1)].isLeaf ==> q[..j + 1] == q
    ensures !links[links[n].Child(b % 2 == 1)].isLeaf ==> j + 1 < |q|
  {
    DescendStep(links, k, q, j, bits, bitCount);
    var m := links[n].Child(b % 2 == 1);
    if links[m].isLeaf {
      LeafEndsWalk(links, k, q[..j + 1], q);
    } else {
      assert q[..|q|] == q;
    }
  }


  // ------------------------------------------------------------ the arena

  lemma {:induction false} RangeHas(lo: nat, hi: nat, x: nat)
    ensures x in Range(lo, hi) <==> lo <= x < hi
  {
    var s := seq(if lo <= hi then hi - lo else 0, i requires 0 <= i => lo + i);
    if lo <= x < hi {
      assert s[x - lo] == x;
    }
  }

  lemma {:induction false} RangeStep(lo: nat, hi: nat)
    requires lo <= hi
    ensures Range(lo, hi + 1) == Range(lo, hi) + multiset{hi}
  {
    var s := seq(hi - lo, i requires 0 <= i => lo + i);
    assert seq(hi + 1 - lo, i requires 0 <= i => lo + i) == s + [hi];
  }

  /** A child id comes from one of the nodes counted. */
  lemma {:induction false} ChildIdsHas(links: seq<Link>, lo: nat, hi: nat, v: nat) returns (p: nat)
    requires lo <= hi <= |links| && v in ChildIds(links, lo, hi)
    ensures lo <= p < hi && (links[p].child0 == v || links[p].child1 == v)
    decreases hi - lo
  {
    assert lo < hi;
    var rest, last := ChildIds(links, lo, hi - 1), links[hi - 1];
    assert ChildIds(links, lo, hi) == rest + multiset{last.child0, last.child1};
    if v in rest {
      p := ChildIdsHas(links, lo, hi - 1, v);
    } else {
      assert v in multiset{last.child0, last.child1};
      p := hi - 1;
    }
  }

  /** The counted children depend only on the nodes counted. */
  lemma {:induction false} ChildIdsFrame(links: seq<Link>, other: seq<Link>, lo: nat, hi: nat)
    requires lo <= hi <= |links| && hi <= |other|
    requires forall j :: lo <= j < hi ==> links[j] == other[j]
    ensures ChildIds(links, lo, hi) == ChildIds(other, lo, hi)
    decreases hi - lo
  {
    if lo < hi {
      ChildIdsFrame(links, other, lo, hi - 1);
      ChildIdsLast(links, other, lo, hi);
    }
  }

  lemma {:induction false} ChildIdsLast(links: seq<Link>, other: seq<Link>, lo: nat, hi: nat)
    requires lo < hi <= |links| && hi <= |other| && links[hi - 1] == other[hi - 1]
    requires ChildIds(links, lo, hi - 1) == ChildIds(other, lo, hi - 1)
    ensures ChildIds(links, lo, hi) == ChildIds(other, lo, hi)
  {
  }

  /** Nodes hang below nodes built after them. */
  lemma {:induction false} ReachBelow(links: seq<Link>, k: nat)
    ensures forall v :: v in Reach(links, k) ==> v <= k
    decreases k
  {
    if k < |links| && !links[k].isLeaf {
      if links[k].child0 < k {
        ReachBelow(links, links[k].child0);
      }
      if links[k].child1 < k {
        ReachBelow(links, links[k].child1);
      }
    }
  }

  /** What is below a node below `r` is below `r`. */
  lemma {:induction false} ReachTrans(links: seq<Link>, r: nat, p: nat)
    requires p in Reach(links, r)
    ensures Reach(links, p) <= Reach(links, r)
    decreases r
  {
    if p != r {
      var c0, c1 := links[r].child0, links[r].child1;
      if c0 < r && p in Reach(links, c0) {
        ReachTrans(links, c0, p);
      } else {
        ReachTrans(links, c1, p);
      }
    }
  }

  /** Every node hangs below the root: the tree spans the whole arena. */
  lemma {:induction false} ReachAll(links: seq<Link>, v: nat)
    requires Arena(links) && v < MaxNodes
    ensures v in Reach(links, Root)
    decreases Root - v
  {
    if v < Root {
      RangeHas(0, Root, v);
      var p := ChildIdsHas(links, MaxSymbols, MaxNodes, v);
      ReachAll(links, p);
      assert v in Reach(links, p);
      ReachTrans(links, Root, p);
    }
  }

  /** A multiset of the ids `lo..hi-1` holds no id twice. */
  lemma {:induction false} RangeOnce(lo: nat, hi: nat, x: nat)
    ensures Range(lo, hi)[x] <= 1
    decreases hi
  {
    if lo < hi {
      RangeOnce(lo, hi - 1, x);
      RangeStep(lo, hi - 1);
      RangeHas(lo, hi - 1, x);
    } else {
      assert seq(0, i requires 0 <= i => lo + i) == [];
    }
  }

  /** How often `v` is a child of the node `l`. */
  function Hits(l: Link, v: nat): (r: nat)
  {
    (if l.child0 == v then 1 else 0) + (if l.child1 == v then 1 else 0)
  }

  /** How often `v` is a child of the nodes `lo..hi-1`. */
  function Count(links: seq<Link>, lo: nat, hi: nat, v: nat): (r: nat)
    requires lo <= hi <= |links|
    decreases hi - lo
  {
    if lo == hi then 0 else Count(links, lo, hi - 1, v) + Hits(links[hi - 1], v)
  }

  lemma {:induction false} ChildIdsCount(links: seq<Link>, lo: nat, hi: nat, v: nat)
    requires lo <= hi <= |links|
    ensures ChildIds(links, lo, hi)[v] == Count(links, lo, hi, v)
    decreases hi - lo
  {
    if lo < hi {
      ChildIdsCount(links, lo, hi - 1, v);
      var last := links[hi - 1];
      assert multiset{last.child0, last.child1}[v] == Hits(last, v);
    }
  }

  /** The children of one counted node are counted. */
  lemma {:induction false} CountAt(links: seq<Link>, lo: nat, hi: nat, a: nat, v: nat)
    requires lo <= a < hi <= |links|
    ensures Count(links, lo, hi, v) >= Hits(links[a], v)
    decreases hi
  {
    if a < hi - 1 {
      CountAt(links, lo, hi - 1, a, v);
    }
  }

  /** Counting more nodes counts every child at least as often. */
  lemma {:induction false} CountGrow(links: seq<Link>, lo: nat, m: nat, hi: nat, v: nat)
    requires lo <= m <= hi <= |links|
    ensures Count(links, lo, m, v) <= Count(links, lo, hi, v)
    decreases hi
  {
    if m < hi {
      CountGrow(links, lo, m, hi - 1, v);
    }
  }

  /** A child of two different counted nodes is counted twice. */
  lemma {:induction false} CountTwice(links: seq<Link>, lo: nat, hi: nat, a: nat, c: nat, v: nat)
    requires lo <= a < c < hi <= |links| && Hits(links[a], v) >= 1 && Hits(links[c], v) >= 1
    ensures Count(links, lo, hi, v) >= 2
  {
    CountAt(links, lo, c, a, v);
    CountGrow(links, lo, c + 1, hi, v);
  }

  /** In the arena every node has one parent, and hangs from one of its
      slots only. */
  lemma {:induction false} ParentOnce(links: seq<Link>, a: nat, b: bool, c: nat, b': bool)
    requires Arena(links) && MaxSymbols <= a < MaxNodes && MaxSymbols <= c < MaxNodes
    requires links[a].Child(b) == links[c].Child(b')
    ensures a == c && b == b'
  {
    var v := links[a].Child(b);
    RangeOnce(0, Root, v);
    ChildIdsCount(links, MaxSymbols, MaxNodes, v);
    if a == c && b != b' {
      CountAt(links, MaxSymbols, MaxNodes, a, v);
      assert false;
    } else if a < c {
      CountTwice(links, MaxSymbols, MaxNodes, a, c, v);
      assert false;
    } else if c < a {
      CountTwice(links, MaxSymbols, MaxNodes, c, a, v);
      assert false;
    }
  }

  /** A walk of at least one step ends below where it started. */
  lemma {:induction false} WalkBelow(links: seq<Link>, k: int, q: seq<bool>)
    requires Linked(links) && q != [] && 0 <= Walk(links, k, q)
    ensures Walk(links, k, q) < k
    decreases |q|
  {
    var ch := links[k].Child(q[0]);
    if q[1..] != [] {
      WalkBelow(links, ch, q[1..]);
    }
  }

  /** Two walks from the same node that reach the same node took the same
      path: the arena is a tree. */
  lemma {:induction false} UniquePath(links: seq<Link>, k: int, p: seq<bool>, q: seq<bool>)
    requires Arena(links) && 0 <= Walk(links, k, p) && Walk(links, k, p) == Walk(links, k, q)
    ensures p == q
    decreases |p| + |q|
  {
    if p == [] && q != [] {
      WalkBelow(links, k, q);
      assert false;
    } else if p != [] && q == [] {
      WalkBelow(links, k, p);
      assert false;
    } else if p != [] {
      var p', b := p[..|p| - 1], p[|p| - 1];
      var q', b' := q[..|q| - 1], q[|q| - 1];
      assert p == p' + [b] && q == q' + [b'];
      WalkThrough(links, k, p', [b]);
      WalkThrough(links, k, q', [b']);
      WalkAppend(links, k, p', b);
      WalkAppend(links, k, q', b');
      ParentOnce(links, Walk(links, k, p'), b, Walk(links, k, q'), b');
      UniquePath(links, k, p', q');
    }
  }

  /** The code of a symbol is the one path from the root to its leaf: bit
      `d` is set exactly when that path takes slot 1 at depth `d`. */
  lemma {:induction false} CodeIsPath(nodes: seq<Node>, v: nat, p: seq<bool>)
    requires Codes(nodes) && Arena(Links(nodes)) && v < MaxSymbols
    requires Walk(Links(nodes), Root, p) == v
    ensures p == Code(nodes[v]) && 1 <= nodes[v].numBits
  {
    UniquePath(Links(nodes), Root, p, Code(nodes[v]));
  }

  /** Codes are fixed by the shape of the tree: two arenas with the same
      links give every symbol the same code. */
  lemma {:induction false} SameShapeSameCode(a: seq<Node>, b: seq<Node>, v: nat)
    requires Codes(a) && Codes(b) && Arena(Links(a)) && Links(a) == Links(b) && v < MaxSymbols
    ensures a[v].bits == b[v].bits && a[v].numBits == b[v].numBits
  {
    CodeIsPath(b, v, Code(a[v]));
    BitsInjective(a[v].bits, b[v].bits, a[v].numBits);
  }

  /** Where the decode table lookup for `path` stops: after `j` steps, at a
      leaf unless the whole path was walked. */
  lemma {:induction false} FirstLeafPath(links: seq<Link>, k: nat, path: seq<bool>) returns (j: nat)
    requires Linked(links) && MaxSymbols <= k < MaxNodes
    ensures j <= |path| && 0 <= FirstLeaf(links, k, path) && FirstLeaf(links, k, path) == Walk(links, k, path[..j])
    ensures j < |path| ==> links[FirstLeaf(links, k, path)].isLeaf
    decreases |path|
  {
    FirstLeafFound(links, k, path);
    if path == [] {
      j := 0;
    } else {
      var c := links[k].Child(path[0]);
      if links[c].isLeaf {
        j := 1;
        assert path[..1][1..] == [];
      } else {
        var j' := FirstLeafPath(links, c, path[1..]);
        j := j' + 1;
        assert path[..j][1..] == path[1..][..j'];
      }
    }
  }

  /** Every entry of the decode table is a node: a leaf whose code is at
      most `LutBits` long and is the low bits of the index, or else the
      internal node the `LutBits` low bits of the index lead to. */
  lemma {:induction false} LutEntry(nodes: seq<Node>, i: nat)
    requires Codes(nodes) && Arena(Links(nodes)) && i < LutSize
    ensures 0 <= LutTarget(Links(nodes), i) < MaxNodes
    ensures var t := LutTarget(Links(nodes), i);
            t < MaxSymbols ==> 1 <= nodes[t].numBits <= LutBits && nodes[t].bits == i % Pow2(nodes[t].numBits)
    ensures var t := LutTarget(Links(nodes), i);
            MaxSymbols <= t ==> nodes[t].numBits == 0 && t == Walk(Links(nodes), Root, BitsOf(i, LutBits))
  {
    var links, path := Links(nodes), BitsOf(i, LutBits);
    var j := FirstLeafPath(links, Root, path);
    var t := FirstLeaf(links, Root, path);
    assert links[t] == LinkOf(nodes[t]);
    if t < MaxSymbols {
      UniquePath(links, Root, Code(nodes[t]), path[..j]);
      assert nodes[t].numBits == j <= LutBits;
      BitsPrefix(i, LutBits, j);
      BitsMask(i, j);
      BitsInjective(nodes[t].bits, i % Pow2(j), j);
    } else {
      assert path[..|path|] == path;
    }
  }
}
