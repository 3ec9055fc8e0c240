/** The deterministic ordering used while building the tree: a bubble sort
    of the active entries by non-increasing frequency that swaps only on a
    strict `<`, so that entries of equal frequency keep their relative
    order (huffman/huffman.go:53-70). */
module Sorting {

  /** One active entry of the tree builder: the arena index of a node and
      the total frequency of the symbols below it. */
  datatype ConstructNode = ConstructNode(nodeId: nat, frequency: nat)

  ghost predicate SortedDesc(s: seq<ConstructNode>)
  {
    forall i, j :: 0 <= i < j < |s| ==> s[i].frequency >= s[j].frequency
  }

  /** The entries of `s` whose frequency is `f`, in their order in `s`. */
  function WithFrequency(s: seq<ConstructNode>, f: nat): (r: seq<ConstructNode>)
    ensures |r| <= |s|
  {
    if s == [] then []
    else (if s[0].frequency == f then [s[0]] else []) + WithFrequency(s[1..], f)
  }

  /** `t` keeps, for every frequency, the relative order of the entries of
      `s` with that frequency: `t` is a stable rearrangement of `s`. */
  ghost predicate StableTo(t: seq<ConstructNode>, s: seq<ConstructNode>)
  {
    forall f :: WithFrequency(t, f) == WithFrequency(s, f)
  }

  lemma {:induction false} WithFrequencyConcat(a: seq<ConstructNode>, b: seq<ConstructNode>, f: nat)
    ensures WithFrequency(a + b, f) == WithFrequency(a, f) + WithFrequency(b, f)
  {
    if a == [] {
      assert a + b == b;
    } else {
      var head := if a[0].frequency == f then [a[0]] else [];
      assert (a + b)[0] == a[0] && (a + b)[1..] == a[1..] + b;
      assert WithFrequency(a + b, f) == head + WithFrequency(a[1..] + b, f);
      WithFrequencyConcat(a[1..], b, f);
      assert WithFrequency(a, f) == head + WithFrequency(a[1..], f);
    }
  }

  /** `s` with the neighbours at `i` and `i + 1` exchanged. */
  function SwapNext(s: seq<ConstructNode>, i: nat): (r: seq<ConstructNode>)
    requires i + 1 < |s|
    ensures |r| == |s| && r[i] == s[i + 1] && r[i + 1] == s[i]
    ensures forall k :: 0 <= k < |s| && k != i && k != i + 1 ==> r[k] == s[k]
  {
    s[i := s[i + 1]][i + 1 := s[i]]
  }

  /** `t` is a stable permutation of `s`. */
  ghost predicate Rearranged(t: seq<ConstructNode>, s: seq<ConstructNode>)
  {
    multiset(t) == multiset(s) && StableTo(t, s)
  }

  /** Swapping two neighbours of different frequency is invisible to every
      frequency filter: the swap performed by the bubble sort is stable. */
  lemma {:induction false} SwapKeepsStable(s: seq<ConstructNode>, i: nat, start: seq<ConstructNode>)
    requires i + 1 < |s| && s[i].frequency != s[i + 1].frequency
    requires Rearranged(s, start)
    ensures Rearranged(SwapNext(s, i), start)
  {
    var t := SwapNext(s, i);
    forall f
      ensures WithFrequency(t, f) == WithFrequency(start, f)
    {
      SwapFilter(s, i, f);
    }
    assert multiset(t) == multiset(s);
  }

  lemma {:induction false} SwapFilter(s: seq<ConstructNode>, i: nat, f: nat)
    requires i + 1 < |s| && s[i].frequency != s[i + 1].frequency
    ensures WithFrequency(SwapNext(s, i), f) == WithFrequency(s, f)
  {
    var front, pair, back := s[..i], [s[i], s[i + 1]], s[i + 2..];
    var swapped := [s[i + 1], s[i]];
    assert s == front + (pair + back);
    assert SwapNext(s, i) == front + (swapped + back);
    WithFrequencyConcat(front, pair + back, f);
    WithFrequencyConcat(front, swapped + back, f);
    WithFrequencyConcat(pair, back, f);
    WithFrequencyConcat(swapped, back, f);
    PairFilter(s[i], s[i + 1], f);
  }

  lemma {:induction false} PairFilter(a: ConstructNode, b: ConstructNode, f: nat)
    requires a.frequency != b.frequency
    ensures WithFrequency([a, b], f) == WithFrequency([b, a], f)
  {
    assert [a, b][1..] == [b] && [b, a][1..] == [a];
    assert [a][1..] == [] && [b][1..] == [];
  }

  /** Dropping a common first entry keeps two arrangements stable. */
  lemma {:induction false} StableTail(s: seq<ConstructNode>, t: seq<ConstructNode>)
    requires s != [] && t != [] && s[0] == t[0] && StableTo(t, s)
    ensures StableTo(t[1..], s[1..])
  {
    forall g
      ensures WithFrequency(t[1..], g) == WithFrequency(s[1..], g)
    {
      assert WithFrequency(s, g) == (if s[0].frequency == g then [s[0]] else []) + WithFrequency(s[1..], g);
      assert WithFrequency(t, g) == (if t[0].frequency == g then [t[0]] else []) + WithFrequency(t[1..], g);
      if s[0].frequency == g {
        assert WithFrequency(s[1..], g) == WithFrequency(s, g)[1..];
        assert WithFrequency(t[1..], g) == WithFrequency(t, g)[1..];
      } else {
        assert WithFrequency(s[1..], g) == WithFrequency(s, g);
        assert WithFrequency(t[1..], g) == WithFrequency(t, g);
      }
    }
  }

  /** Two non-increasing arrangements of the same entries start with the
      same entry when they are stable with respect to each other. */
  lemma {:induction false} StableSameHead(s: seq<ConstructNode>, t: seq<ConstructNode>)
    requires s != [] && SortedDesc(s) && SortedDesc(t)
    requires multiset(s) == multiset(t) && StableTo(t, s)
    ensures t != [] && s[0] == t[0]
  {
    assert s[0] in multiset(t);
    var i :| 0 <= i < |t| && t[i] == s[0];
    assert t[0] in multiset(s);
    var j :| 0 <= j < |s| && s[j] == t[0];
    var f := s[0].frequency;
    assert t[0].frequency == f;
    assert WithFrequency(s, f) == [s[0]] + WithFrequency(s[1..], f);
    assert WithFrequency(t, f) == [t[0]] + WithFrequency(t[1..], f);
    assert WithFrequency(s, f)[0] == WithFrequency(t, f)[0];
  }

  /** The ordering is unique: two non-increasing arrangements of the same
      entries that are stable with respect to each other are equal. Any
      stable sort by non-increasing frequency therefore computes what the
      bubble sort computes, which is what makes two independently built
      trees agree. */
  lemma {:induction false} StableSortUnique(s: seq<ConstructNode>, t: seq<ConstructNode>)
    requires SortedDesc(s) && SortedDesc(t)
    requires multiset(s) == multiset(t) && StableTo(t, s)
    ensures s == t
  {
    if s == [] {
      assert |multiset(t)| == 0;
    } else {
      StableSameHead(s, t);
      StableTail(s, t);
      assert s == [s[0]] + s[1..] && t == [t[0]] + t[1..];
      assert multiset(s[1..]) == multiset(s) - multiset{s[0]};
      assert multiset(t[1..]) == multiset(t) - multiset{t[0]};
      StableSortUnique(s[1..], t[1..]);
    }
  }

  /** `x` put in front of the first entry of `t` that is not heavier than
      it: the insertion step of a stable descending insertion sort. */
  function InsertDesc(x: ConstructNode, t: seq<ConstructNode>): (r: seq<ConstructNode>)
    ensures multiset(r) == multiset(t) + multiset{x} && |r| == |t| + 1
  {
    if t == [] || t[0].frequency <= x.frequency then [x] + t
    else
      assert t == [t[0]] + t[1..];
      [t[0]] + InsertDesc(x, t[1..])
  }

  /** A reference definition of the order the bubble sort must produce:
      descending by frequency, equal frequencies in their original order. */
  function StableSorted(s: seq<ConstructNode>): (r: seq<ConstructNode>)
    ensures multiset(r) == multiset(s) && |r| == |s|
  {
    if s == [] then []
    else
      assert s == [s[0]] + s[1..];
      InsertDesc(s[0], StableSorted(s[1..]))
  }

  lemma {:induction false} InsertSorted(x: ConstructNode, t: seq<ConstructNode>)
    requires SortedDesc(t)
    ensures SortedDesc(InsertDesc(x, t))
  {
    if t != [] && t[0].frequency > x.frequency {
      var rest := InsertDesc(x, t[1..]);
      InsertSorted(x, t[1..]);
      forall e | e in rest
        ensures e.frequency <= t[0].frequency
      {
        assert e in multiset(rest);
      }
      assert InsertDesc(x, t) == [t[0]] + rest;
    }
  }

  lemma {:induction false} InsertFilter(x: ConstructNode, t: seq<ConstructNode>, f: nat)
    ensures WithFrequency(InsertDesc(x, t), f) == WithFrequency([x] + t, f)
  {
    if t != [] && t[0].frequency > x.frequency {
      var rest := t[1..];
      var mid := InsertDesc(x, rest);
      InsertFilter(x, rest, f);
      assert ([t[0]] + mid)[1..] == mid;
      assert ([x] + t)[1..] == t;
      assert ([x] + rest)[1..] == rest;
      var a := if t[0].frequency == f then [t[0]] else [];
      var b := if x.frequency == f then [x] else [];
      assert WithFrequency(InsertDesc(x, t), f) == a + (b + WithFrequency(rest, f));
      assert WithFrequency([x] + t, f) == b + (a + WithFrequency(rest, f));
      assert a == [] || b == [];
    }
  }

  /** The reference order is sorted and a stable permutation. */
  lemma {:induction false} StableSortedFacts(s: seq<ConstructNode>)
    ensures SortedDesc(StableSorted(s)) && StableTo(StableSorted(s), s)
  {
    if s != [] {
      var rest := StableSorted(s[1..]);
      StableSortedFacts(s[1..]);
      InsertSorted(s[0], rest);
      forall f
        ensures WithFrequency(StableSorted(s), f) == WithFrequency(s, f)
      {
        InsertKeeps(s, rest, f);
      }
    }
  }

  lemma {:induction false} InsertKeeps(s: seq<ConstructNode>, rest: seq<ConstructNode>, f: nat)
    requires s != [] && WithFrequency(rest, f) == WithFrequency(s[1..], f)
    ensures WithFrequency(InsertDesc(s[0], rest), f) == WithFrequency(s, f)
  {
    InsertFilter(s[0], rest, f);
    assert ([s[0]] + rest)[1..] == rest;
  }

  /** Any sorted stable permutation of `s` is the reference order. */
  lemma {:induction false} IsStableSorted(s: seq<ConstructNode>, t: seq<ConstructNode>)
    requires SortedDesc(t) && multiset(t) == multiset(s) && StableTo(t, s)
    ensures t == StableSorted(s)
  {
    StableSortedFacts(s);
    StableSortUnique(t, StableSorted(s));
  }

  /** Neighbours in `s[lo..hi]` are in non-increasing order. */
  ghost predicate DescBetween(s: seq<ConstructNode>, lo: int, hi: int)
  {
    forall p :: 0 <= lo <= p && p + 1 < hi && hi <= |s| ==> s[p].frequency >= s[p + 1].frequency
  }

  /** Every entry before `k` has at least the frequency of `s[k]`. */
  ghost predicate NoneSmallerBefore(s: seq<ConstructNode>, k: int)
  {
    forall p :: 0 <= p < k < |s| ==> s[p].frequency >= s[k].frequency
  }

  /** Neighbour order on the whole sequence is the pairwise order. */
  lemma {:induction false} DescSorted(s: seq<ConstructNode>)
    requires DescBetween(s, 0, |s|)
    ensures SortedDesc(s)
  {
    if |s| > 1 {
      assert DescBetween(s[1..], 0, |s| - 1) by {
        forall p | 0 <= p && p + 1 < |s| - 1
          ensures s[1..][p].frequency >= s[1..][p + 1].frequency
        {
          assert s[1..][p] == s[p + 1] && s[1..][p + 1] == s[p + 2];
        }
      }
      DescSorted(s[1..]);
      forall i, j | 0 <= i < j < |s|
        ensures s[i].frequency >= s[j].frequency
      {
        if i > 0 {
          assert s[i] == s[1..][i - 1] && s[j] == s[1..][j - 1];
        } else if j > 1 {
          assert s[1] == s[1..][0] && s[j] == s[1..][j - 1];
        }
      }
    }
  }

  /** What the bubble sort knows between two passes, with `n` the length
      of the part still to be bubbled: the rest is in order and no entry
      before it is smaller than its first entry, and after a pass without
      a swap everything is in order. */
  ghost predicate BetweenPasses(s: seq<ConstructNode>, n: int, changed: bool)
  {
    -1 <= n <= |s| && (changed ==> n >= 0) &&
    DescBetween(s, if n < 0 then 0 else n, |s|) && NoneSmallerBefore(s, n) &&
    (!changed ==> DescBetween(s, 0, |s|))
  }

  /** What the bubble sort knows in a pass at position `i`: in addition,
      the entry at `i` is the smallest seen so far in the pass, and if
      nothing was swapped yet the entries up to `i` are in order. */
  ghost predicate InPass(s: seq<ConstructNode>, n: int, i: nat, changed: bool)
  {
    0 <= n <= |s| && (if n > 0 then i <= n - 1 else i == 0) && (changed ==> n >= 2) &&
    DescBetween(s, n, |s|) && NoneSmallerBefore(s, n) && NoneSmallerBefore(s, i) &&
    (!changed ==> DescBetween(s, 0, i + 1))
  }

  lemma {:induction false} PassStarts(s: seq<ConstructNode>, n: int, changed: bool)
    requires BetweenPasses(s, n, changed) && changed
    ensures InPass(s, n, 0, false)
  {
  }

  /** The swap moves the smaller entry one place towards the end. */
  lemma {:induction false} PassSwaps(s: seq<ConstructNode>, n: int, i: nat, changed: bool)
    requires InPass(s, n, i, changed) && i < n - 1 && s[i].frequency < s[i + 1].frequency
    ensures InPass(SwapNext(s, i), n, i + 1, true)
  {
    var t := SwapNext(s, i);
    forall p | 0 <= p < i + 1
      ensures t[p].frequency >= t[i + 1].frequency
    {
      if p < i {
        assert t[p] == s[p];
      }
    }
    if n < |s| {
      forall p | 0 <= p < n
        ensures t[p].frequency >= t[n].frequency
      {
        if p != i && p != i + 1 {
          assert t[p] == s[p];
        }
      }
    }
    forall p | n <= p && p + 1 < |s|
      ensures t[p].frequency >= t[p + 1].frequency
    {
      assert t[p] == s[p] && t[p + 1] == s[p + 1];
    }
  }

  lemma {:induction false} PassKeeps(s: seq<ConstructNode>, n: int, i: nat, changed: bool)
    requires InPass(s, n, i, changed) && i < n - 1 && s[i].frequency >= s[i + 1].frequency
    ensures InPass(s, n, i + 1, changed)
  {
  }

  /** After a pass the smallest entry of the scanned part sits at its end. */
  lemma {:induction false} PassEnds(s: seq<ConstructNode>, n: int, i: nat, changed: bool)
    requires InPass(s, n, i, changed) && !(i < n - 1)
    ensures BetweenPasses(s, n - 1, changed)
  {
  }

  lemma {:induction false} PassesDone(s: seq<ConstructNode>, n: int)
    requires BetweenPasses(s, n, false)
    ensures SortedDesc(s)
  {
    DescSorted(s);
  }

  /** The exchange through `temp` in the body of the pass. */
  method Swap(list: array<ConstructNode>, i: nat, size: nat)
    requires i + 1 < size <= list.Length
    modifies list
    ensures list[..size] == SwapNext(old(list[..size]), i)
    ensures list[size..] == old(list[size..])
  {
    var temp := list[i];
    list[i] := list[i + 1];
    list[i + 1] := temp;
  }

  /** One step of a pass: exchange the neighbours at `i` and `i + 1` when
      the first has the strictly smaller frequency. */
  method Step(list: array<ConstructNode>, size: nat, n: int, i: nat, changed: bool,
              ghost s0: seq<ConstructNode>, ghost start: seq<ConstructNode>)
      returns (changed': bool, ghost s: seq<ConstructNode>)
    requires size <= list.Length && list[..size] == s0
    requires InPass(s0, n, i, changed) && Rearranged(s0, start) && i < n - 1
    modifies list
    ensures list[..size] == s && list[size..] == old(list[size..])
    ensures InPass(s, n, i + 1, changed') && Rearranged(s, start)
  {
    s, changed' := s0, changed;
    if list[i].frequency < list[i + 1].frequency {
      PassSwaps(s, n, i, changed);
      SwapKeepsStable(s, i, start);
      Swap(list, i, size);
      s, changed' := SwapNext(s, i), true;
    } else {
      PassKeeps(s, n, i, changed);
    }
  }

  /** One pass over `list[:n]`: swap every neighbour pair that is out of
      order and report whether any swap happened. */
  method Pass(list: array<ConstructNode>, size: nat, n: int, ghost s0: seq<ConstructNode>, ghost start: seq<ConstructNode>)
      returns (changed: bool, ghost s: seq<ConstructNode>)
    requires size <= list.Length && list[..size] == s0
    requires BetweenPasses(s0, n, true) && Rearranged(s0, start)
    modifies list
    ensures list[..size] == s && list[size..] == old(list[size..])
    ensures BetweenPasses(s, n - 1, changed) && Rearranged(s, start)
  {
    ghost var rest := list[size..];
    s := s0;
    PassStarts(s, n, true);
    changed := false;
    var i := 0;
    while i < n - 1
      invariant list[..size] == s && list[size..] == rest
      invariant InPass(s, n, i, changed) && Rearranged(s, start)
    {
      changed, s := Step(list, size, n, i, changed, s, start);
      i := i + 1;
    }
    PassEnds(s, n, i, changed);
  }

  /** bubbleSort on the slice `list[:size]`: repeated passes of adjacent
      swaps, each pass one entry shorter, until a pass swaps nothing. */
  method BubbleSort(list: array<ConstructNode>, size: nat)
    requires size <= list.Length
    modifies list
    ensures SortedDesc(list[..size])
    ensures multiset(list[..size]) == multiset(old(list[..size]))
    ensures StableTo(list[..size], old(list[..size]))
    ensures list[..size] == StableSorted(old(list[..size]))
    ensures list[size..] == old(list[size..])
  {
    var n: int := size;
    var changed := true;
    ghost var start, rest := list[..size], list[size..];
    ghost var s := start;
    while changed
      invariant list[..size] == s && list[size..] == rest
      invariant BetweenPasses(s, n, changed)
      invariant Rearranged(s, start)
      decreases if changed then n + 1 else 0
    {
      changed, s := Pass(list, size, n, s, start);
      n := n - 1;
    }
    PassesDone(s, n);
    IsStableSorted(start, s);
  }

  /** The node ids of the entries of `s`, in order. */
  function Ids(s: seq<ConstructNode>): (r: seq<nat>)
    ensures |r| == |s|
  {
    if s == [] then [] else [s[0].nodeId] + Ids(s[1..])
  }

  lemma {:induction false} IdsConcat(a: seq<ConstructNode>, b: seq<ConstructNode>)
    ensures Ids(a + b) == Ids(a) + Ids(b)
  {
    if a == [] {
      assert a + b == b;
    } else {
      assert (a + b)[0] == a[0] && (a + b)[1..] == a[1..] + b;
      IdsConcat(a[1..], b);
    }
  }

  /** Taking one entry out of `t` takes its id out of the ids. */
  lemma {:induction false} IdsRemove(t: seq<ConstructNode>, j: nat)
    requires j < |t|
    ensures multiset(Ids(t)) == multiset(Ids(t[..j] + t[j + 1..])) + multiset{t[j].nodeId}
  {
    var x := t[j];
    assert t == t[..j] + ([x] + t[j + 1..]);
    IdsConcat(t[..j], [x] + t[j + 1..]);
    IdsConcat([x], t[j + 1..]);
    IdsConcat(t[..j], t[j + 1..]);
    assert Ids([x]) == [x.nodeId];
  }

  /** Where the first entry of `s` sits in a rearrangement `t` of it. */
  lemma {:induction false} FindFirst(s: seq<ConstructNode>, t: seq<ConstructNode>) returns (j: nat)
    requires s != [] && multiset(s) == multiset(t)
    ensures j < |t| && t[j] == s[0]
    ensures multiset(s[1..]) == multiset(t[..j] + t[j + 1..])
  {
    var x := s[0];
    assert x in multiset(s);
    j :| 0 <= j < |t| && t[j] == x;
    assert s == [x] + s[1..];
    assert t == t[..j] + [x] + t[j + 1..];
    assert multiset(t[..j] + t[j + 1..]) == multiset(t) - multiset{x};
  }

  /** Rearranging the entries rearranges their ids: sorting neither loses
      nor duplicates a node. */
  lemma {:induction false} IdsPermutation(s: seq<ConstructNode>, t: seq<ConstructNode>)
    requires multiset(s) == multiset(t)
    ensures multiset(Ids(s)) == multiset(Ids(t))
    decreases |s|
  {
    if s != [] {
      var j := FindFirst(s, t);
      IdsRemove(t, j);
      IdsPermutation(s[1..], t[..j] + t[j + 1..]);
      assert Ids(s) == [s[0].nodeId] + Ids(s[1..]);
    }
  }
}
