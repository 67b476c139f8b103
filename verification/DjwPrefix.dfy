/** `djw_build_prefix`: length-limited Huffman code lengths, by rescaling the weights until they fit. */
module DjwPrefix {
  import opened DjwHeap
  import opened Kraft
  import opened DjwTree
  import opened DjwOptimal

  // ---------------------------------------------------------------- weights

  function Sum(w: seq<nat>): nat {
    if w == [] then 0 else Sum(w[..|w| - 1]) + w[|w| - 1]
  }

  /** The number of symbols with a weight. */
  function Used(w: seq<nat>): (r: nat)
    ensures r <= |w|
  {
    if w == [] then 0 else Used(w[..|w| - 1]) + if w[|w| - 1] == 0 then 0 else 1
  }

  /** How far the weights exceed 2, all together; every rescaling that matters lowers it. */
  function Excess(w: seq<nat>): nat {
    if w == [] then 0 else Excess(w[..|w| - 1]) + if w[|w| - 1] <= 2 then 0 else w[|w| - 1] - 2
  }

  function Rescaled(w: seq<nat>): (r: seq<nat>)
    ensures |r| == |w|
  {
    seq(|w|, i requires 0 <= i < |w| => w[i] / 2 + 1)
  }

  lemma {:induction false} ExcessRescaled(w: seq<nat>)
    ensures Excess(Rescaled(w)) <= Excess(w)
    ensures Excess(Rescaled(w)) < Excess(w) || forall i :: 0 <= i < |w| ==> w[i] <= 2
  {
    if w != [] {
      var v := w[..|w| - 1];
      ExcessRescaled(v);
      assert Rescaled(w)[..|w| - 1] == Rescaled(v);
      if Excess(Rescaled(w)) == Excess(w) {
        forall i | 0 <= i < |w| ensures w[i] <= 2 {
          if i < |w| - 1 { assert w[i] == v[i]; }
        }
      }
    }
  }

  lemma {:induction false} UsedAll(w: seq<nat>)
    requires forall i :: 0 <= i < |w| ==> w[i] > 0
    ensures Used(w) == |w|
  {
    if w != [] { UsedAll(w[..|w| - 1]); }
  }

  lemma {:induction false} UsedNone(w: seq<nat>)
    requires forall i :: 0 <= i < |w| ==> w[i] == 0
    ensures Used(w) == 0
  {
    if w != [] { UsedNone(w[..|w| - 1]); }
  }

  lemma {:induction false} UsedPositive(w: seq<nat>, k: nat)
    requires k < |w| && w[k] > 0
    ensures Used(w) >= 1
    ensures Used(w) == 1 ==> forall i :: 0 <= i < |w| && i != k ==> w[i] == 0
  {
    var n := |w| - 1;
    if k < n {
      UsedPositive(w[..n], k);
      if Used(w) == 1 {
        forall i | 0 <= i < |w| && i != k ensures w[i] == 0 {
          if i < n { assert w[..n][i] == w[i]; }
        }
      }
    } else if Used(w) == 1 {
      forall i | 0 <= i < n ensures w[i] == 0 {
        if w[i] > 0 { UsedPositive(w[..n], i); }
      }
    }
  }

  lemma {:induction false} UsedOneMore(w: seq<nat>, s: nat)
    requires s < |w| && w[s] == 0
    ensures Used(w[s := 1]) == Used(w) + 1
  {
    var n := |w| - 1;
    if s < n {
      UsedOneMore(w[..n], s);
      assert w[s := 1][..n] == w[..n][s := 1];
    } else {
      assert w[s := 1][..n] == w[..n];
    }
  }

  lemma {:induction false} SumSmall(w: seq<nat>)
    requires forall i :: 0 <= i < |w| ==> w[i] <= 2
    ensures Sum(w) <= 2 * |w|
  {
    if w != [] { SumSmall(w[..|w| - 1]); }
  }

  // ---------------------------------------------------------------- one tree

  ghost predicate BagIsRoots(bag: multiset<nat>, e: seq<HeapEn>) {
    forall i: nat :: bag[i] == if IsRoot(e, i) then 1 else 0
  }

  lemma LightestTwo(bag: multiset<nat>, e: seq<HeapEn>, h1: nat, h2: nat)
    requires BagIsRoots(bag, e) && h1 in bag && h2 in bag - multiset{h1}
    requires forall c: nat :: c in bag ==> c < |e| && !Less(e[c], e[h1])
    requires forall c: nat :: c in bag - multiset{h1} ==> !Less(e[c], e[h2])
    ensures Lightest(e, h1, h2)
  {
    assert IsRoot(e, h1) && IsRoot(e, h2) && h1 != h2;
    forall c: nat | IsRoot(e, c) && c != h1 && c != h2 ensures !Less(e[c], e[h2]) {
      assert c in bag - multiset{h1};
    }
  }

  lemma JoinBag(bag: multiset<nat>, e: seq<HeapEn>, h1: nat, h2: nat)
    requires BagIsRoots(bag, e) && IsRoot(e, h1) && IsRoot(e, h2) && h1 != h2
    ensures BagIsRoots(bag - multiset{h1} - multiset{h2} + multiset{|e|}, Join(e, h1, h2))
  {
    JoinRoots(e, h1, h2);
    forall i: nat
      ensures (bag - multiset{h1} - multiset{h2} + multiset{|e|})[i] == if IsRoot(Join(e, h1, h2), i) then 1 else 0
    {
      assert bag[i] == if IsRoot(e, i) then 1 else 0;
    }
  }

  /** Everything that is true between two merges. */
  ghost predicate Building(heap: seq<nat>, ents: seq<HeapEn>, last: nat, size: nat, w: seq<nat>) {
    && |w| < size <= |ents| && 1 <= last < |heap| && IsHeap(heap, ents, last) && heap[0] == 0
    && ents[0].freq == 0 && ents[0].depth == 0
    && Forest(ents[..size], |w|) && Heavy(ents[..size]) && RootSum(ents[..size], size) == Sum(w)
    && LeavesWeigh(ents[..size], w) && Greedy(ents[..size], |w|) && BagIsRoots(Bag(heap, last), ents[..size])
  }

  /** Resets the tree and puts every weighted symbol into the heap. */
  method InitialHeap(heap: array<nat>, ents: array<HeapEn>, asize: nat, ghost w: seq<nat>) returns (heapLast: nat)
    requires |w| == asize < heap.Length && asize < ents.Length && LeavesWeigh(ents[..], w)
    modifies heap, ents
    ensures heapLast == Used(w) && LeavesWeigh(ents[..], w)
    ensures heapLast > 0 ==> Building(heap[..], ents[..], heapLast, asize + 1, w)
  {
    heapLast := 0;
    heap[0] := 0;
    ents[0] := ents[0].(depth := 0, freq := 0);
    Reset(heap[..], ents[..], w);
    hide *;
    for i := 0 to asize
      invariant heap[0] == 0 && ents[0].freq == 0 && ents[0].depth == 0
      invariant LeavesSet(ents[..], w, i)
      invariant heapLast == Used(w[..i]) <= i && IsHeap(heap[..], ents[..], heapLast)
      invariant BagIsLeaves(Bag(heap[..], heapLast), w[..i])
    {
      heapLast := AddLeaf(heap, ents, heapLast, i, w);
    }
    assert w[..asize] == w;
    AllSet(ents[..], w);
    if heapLast > 0 {
      Leaves(heap[..], ents[..], heapLast, w);
    }
  }

  /** The first `n` symbols are reset, the others still carry their weight. */
  ghost predicate LeavesSet(ents: seq<HeapEn>, w: seq<nat>, n: nat) {
    && n <= |w| < |ents|
    && (forall k :: 1 <= k <= n ==> ents[k] == HeapEn(0, w[k - 1], 0))
    && (forall k :: n < k <= |w| ==> ents[k].freq == w[k - 1])
  }

  method AddLeaf(heap: array<nat>, ents: array<HeapEn>, heapLast0: nat, i: nat, ghost w: seq<nat>)
    returns (heapLast: nat)
    requires i < |w| < heap.Length && heapLast0 <= i && LeavesSet(ents[..], w, i)
    requires heap[0] == 0 && ents[0].freq == 0 && ents[0].depth == 0
    requires IsHeap(heap[..], ents[..], heapLast0) && heapLast0 == Used(w[..i])
    requires BagIsLeaves(Bag(heap[..], heapLast0), w[..i])
    modifies heap, ents
    ensures heap[0] == 0 && ents[0].freq == 0 && ents[0].depth == 0
    ensures LeavesSet(ents[..], w, i + 1) && heapLast <= i + 1 && heapLast == Used(w[..i + 1])
    ensures IsHeap(heap[..], ents[..], heapLast)
    ensures BagIsLeaves(Bag(heap[..], heapLast), w[..i + 1])
  {
    hide IsHeap, Bag, BagIsLeaves;
    heapLast := heapLast0;
    ghost var before := ents[..];
    ents[i + 1] := ents[i + 1].(depth := 0, parent := 0);
    assert ents[..] == before[i + 1 := ents[i + 1]] && before[i + 1].freq == w[i];
    UntouchedHeap(heap[..], before, ents[..], heapLast, w[..i], i + 1);
    assert w[..i + 1][..i] == w[..i];
    BagOneMore(Bag(heap[..], heapLast), w, i);
    if ents[i + 1].freq != 0 {
      heapLast := heapLast + 1;
      HeapInsert(heap, ents, heapLast, i + 1);
    }
  }

  lemma BagOneMore(bag: multiset<nat>, w: seq<nat>, i: nat)
    requires i < |w| && BagIsLeaves(bag, w[..i])
    ensures BagIsLeaves(if w[i] > 0 then bag + multiset{i + 1} else bag, w[..i + 1])
  {
  }

  /** Before any merge the heap holds exactly the weighted symbols. */
  ghost predicate BagIsLeaves(bag: multiset<nat>, w: seq<nat>) {
    forall i: nat :: bag[i] == if 1 <= i <= |w| && w[i - 1] > 0 then 1 else 0
  }

  lemma Reset(heap: seq<nat>, ents: seq<HeapEn>, w: seq<nat>)
    requires |heap| > 0 && heap[0] == 0 && LeavesWeigh(ents, w)
    ensures IsHeap(heap, ents, 0) && BagIsLeaves(Bag(heap, 0), w[..0]) && LeavesSet(ents, w, 0) && Used(w[..0]) == 0
  {
    forall k | 0 < k <= |w| ensures ents[k].freq == w[k - 1] {
      assert ents[(k - 1) + 1].freq == w[k - 1];
    }
  }

  lemma AllSet(ents: seq<HeapEn>, w: seq<nat>)
    requires LeavesSet(ents, w, |w|)
    ensures LeavesWeigh(ents, w)
  {
  }

  lemma UntouchedHeap(heap: seq<nat>, ents: seq<HeapEn>, ents': seq<HeapEn>, last: nat, w: seq<nat>, k: nat)
    requires IsHeap(heap, ents, last) && BagIsLeaves(Bag(heap, last), w) && |w| < k < |ents| == |ents'|
    requires ents' == ents[k := ents'[k]]
    ensures IsHeap(heap, ents', last)
  {
    forall i {:trigger heap[i]} | 1 <= i <= last ensures heap[i] != k {
      assert heap[1..last + 1][i - 1] == heap[i];
      assert heap[i] in Bag(heap, last);
    }
    HeapFrame(heap, ents, ents', last);
  }

  lemma Leaves(heap: seq<nat>, ents: seq<HeapEn>, last: nat, w: seq<nat>)
    requires 1 <= last && IsHeap(heap, ents, last) && heap[0] == 0
    requires |w| < |ents| && ents[0].freq == 0 && ents[0].depth == 0
    requires LeavesSet(ents, w, |w|)
    requires BagIsLeaves(Bag(heap, last), w)
    ensures Building(heap, ents, last, |w| + 1, w)
  {
    var e := ents[..|w| + 1];
    assert Forest(e, |w|);
    LeavesHeavy(e, |w|);
    LeavesSum(e, w, |w|);
    assert w[..|w|] == w;
    forall i: nat ensures Bag(heap, last)[i] == if IsRoot(e, i) then 1 else 0 {
    }
  }

  lemma LeavesHeavy(e: seq<HeapEn>, n: nat)
    requires forall k :: 1 <= k < |e| ==> e[k].depth == 0
    ensures Heavy(e)
  {
    forall r: nat | IsRoot(e, r) ensures MinWeight(e[r].depth) <= e[r].freq {
      assert e[r].depth == 0;
    }
  }

  lemma {:induction false} LeavesSum(e: seq<HeapEn>, w: seq<nat>, n: nat)
    requires n <= |w| < |e| && e[0].freq == 0
    requires forall k :: 1 <= k <= |w| ==> e[k] == HeapEn(0, w[k - 1], 0)
    ensures RootSum(e, n + 1) == Sum(w[..n])
  {
    if n > 0 {
      LeavesSum(e, w, n - 1);
      assert w[..n][..n - 1] == w[..n - 1];
    } else {
      assert RootSum(e, 0) == 0;
    }
  }

  /** Takes the two lightest roots out of the heap. */
  method TakeTwo(heap: array<nat>, ents: array<HeapEn>, heapLast: nat, ghost e: seq<HeapEn>, ghost bag: multiset<nat>)
    returns (h1: nat, h2: nat)
    requires 2 <= heapLast < heap.Length && IsHeap(heap[..], ents[..], heapLast) && heap[0] == 0
    requires e <= ents[..] && bag == Bag(heap[..], heapLast) && BagIsRoots(bag, e)
    modifies heap
    ensures heap[0] == 0 && IsHeap(heap[..], ents[..], heapLast - 2)
    ensures Bag(heap[..], heapLast - 2) == bag - multiset{h1} - multiset{h2}
    ensures forall c: nat :: c in bag ==> c < |e|
    ensures Lightest(e, h1, h2)
  {
    hide *;
    BagBound(heap[..], ents[..], heapLast, e);
    LeastOfBag(heap[..], ents[..], heapLast, e, bag);
    h1 := HeapExtract(heap, ents, heapLast - 1);
    LeastOfBag(heap[..], ents[..], heapLast - 1, e, bag);
    h2 := HeapExtract(heap, ents, heapLast - 2);
    LightestTwo(bag, e, h1, h2);
  }

  /** The two lightest trees become one. */
  method MergeTwo(heap: array<nat>, ents: array<HeapEn>, heapLast: nat, entsSize: nat, ghost w: seq<nat>)
    requires Building(heap[..], ents[..], heapLast, entsSize, w) && heapLast >= 2 && entsSize < ents.Length
    modifies heap, ents
    ensures Building(heap[..], ents[..], heapLast - 1, entsSize + 1, w)
  {
    hide *;
    ghost var e := ents[..entsSize];
    HeapOfBuilding(heap[..], ents[..], heapLast, entsSize, w);
    ghost var bag := Bag(heap[..], heapLast);
    var h1, h2 := TakeTwo(heap, ents, heapLast, e, bag);
    LightestAreRoots(e, h1, h2);
    assert e[h1] == ents[h1];
    ghost var was := ents[..];
    NewParent(ents, entsSize, h1, h2);
    RestFrame(heap[..], was, ents[..], heapLast - 2, entsSize);
    HeapInsert(heap, ents, heapLast - 1, entsSize);
    JoinBag(bag, e, h1, h2);
    Joined(heap[..], ents[..], heapLast - 1, entsSize, w, e, h1, h2);
  }

  lemma HeapOfBuilding(heap: seq<nat>, ents: seq<HeapEn>, last: nat, size: nat, w: seq<nat>)
    requires Building(heap, ents, last, size, w)
    ensures |w| < size <= |ents| && 1 <= last < |heap| && IsHeap(heap, ents, last) && heap[0] == 0
    ensures ents[0].freq == 0 && ents[0].depth == 0
    ensures BagIsRoots(Bag(heap, last), ents[..size])
    ensures Forest(ents[..size], |w|) && Heavy(ents[..size]) && RootSum(ents[..size], size) == Sum(w)
    ensures LeavesWeigh(ents[..size], w) && Greedy(ents[..size], |w|)
  {
  }

  lemma Joined(heap: seq<nat>, ents: seq<HeapEn>, last: nat, size: nat, w: seq<nat>,
               e: seq<HeapEn>, h1: nat, h2: nat)
    requires |e| == size < |ents| && |w| < size && Lightest(e, h1, h2) && IsRoot(e, h1) && IsRoot(e, h2) && h1 != h2
    requires Forest(e, |w|) && Heavy(e) && RootSum(e, size) == Sum(w) && LeavesWeigh(e, w)
    requires Greedy(e, |w|) && ents[..size + 1] == Join(e, h1, h2)
    requires 1 <= last < |heap| && IsHeap(heap, ents, last) && heap[0] == 0
    requires ents[0].freq == 0 && ents[0].depth == 0
    requires BagIsRoots(Bag(heap, last), ents[..size + 1])
    ensures Building(heap, ents, last, size + 1, w)
  {
    hide Linked, InnerNodes, Heavy, RootSum, LeavesWeigh, Join, Lightest, IsHeap, Bag, IsRoot, BagIsRoots, Greedy;
    JoinGreedy(e, |w|, h1, h2);
    JoinForest(e, w, h1, h2);
    JoinHeavy(e, h1, h2);
    JoinRootSum(e, h1, h2);
  }

  lemma LightestAreRoots(e: seq<HeapEn>, h1: nat, h2: nat)
    requires Lightest(e, h1, h2)
    ensures IsRoot(e, h1) && IsRoot(e, h2) && h1 != h2 && h1 < |e| && h2 < |e| && e[h1].freq > 0
  {
  }

  /** Appends the parent of `h1` and `h2` and links them to it. */
  method NewParent(ents: array<HeapEn>, size: nat, h1: nat, h2: nat)
    requires size < ents.Length && h1 < size && h2 < size && h1 != h2
    modifies ents
    ensures ents[..size + 1] == Join(old(ents[..size]), h1, h2)
    ensures forall i :: 0 <= i < size ==> ents[i].freq == old(ents[i].freq) && ents[i].depth == old(ents[i].depth)
    ensures ents[size].freq == old(ents[h1].freq) + old(ents[h2].freq)
  {
    ents[size] := HeapEn(1 + (if ents[h1].depth >= ents[h2].depth then ents[h1].depth else ents[h2].depth),
                         ents[h1].freq + ents[h2].freq, 0);
    ents[h1] := ents[h1].(parent := size);
    ents[h2] := ents[h2].(parent := size);
  }

  lemma JoinForest(e: seq<HeapEn>, w: seq<nat>, h1: nat, h2: nat)
    requires Forest(e, |w|) && LeavesWeigh(e, w) && IsRoot(e, h1) && IsRoot(e, h2) && h1 != h2
    ensures Forest(Join(e, h1, h2), |w|) && LeavesWeigh(Join(e, h1, h2), w)
  {
    JoinLinked(e, |w|, h1, h2);
    JoinInnerNodes(e, |w|, h1, h2);
    JoinLeaves(e, w, h1, h2);
    hide Linked, InnerNodes, Join, LeavesWeigh;
  }

  lemma JoinLeaves(e: seq<HeapEn>, w: seq<nat>, h1: nat, h2: nat)
    requires LeavesWeigh(e, w) && IsRoot(e, h1) && IsRoot(e, h2) && h1 != h2
    ensures LeavesWeigh(Join(e, h1, h2), w)
  {
  }

  lemma BagBound(heap: seq<nat>, ents: seq<HeapEn>, last: nat, e: seq<HeapEn>)
    requires IsHeap(heap, ents, last) && BagIsRoots(Bag(heap, last), e)
    ensures forall c: nat :: c in Bag(heap, last) ==> c < |e|
  {
    forall c: nat | c in Bag(heap, last) ensures c < |e| {
      assert Bag(heap, last)[c] > 0;
    }
  }

  lemma LeastOfBag(heap: seq<nat>, ents: seq<HeapEn>, last: nat, e: seq<HeapEn>, bag: multiset<nat>)
    requires IsHeap(heap, ents, last) && 1 <= last && e <= ents
    requires forall c: nat :: c in bag ==> c < |e|
    requires Bag(heap, last) <= bag
    ensures heap[1] in Bag(heap, last)
    ensures forall c: nat :: c in Bag(heap, last) ==> c < |e| && heap[1] < |e| && !Less(e[c], e[heap[1]])
  {
    assert heap[1..last + 1][0] == heap[1];
    forall c: nat | c in Bag(heap, last) ensures c < |e| && heap[1] < |e| && !Less(e[c], e[heap[1]]) {
      RootIsLeastInBag(heap, ents, last, c);
      assert c in bag && heap[1] in bag;
    }
  }

  lemma RestFrame(heap: seq<nat>, ents: seq<HeapEn>, ents': seq<HeapEn>, last: nat, size: nat)
    requires IsHeap(heap, ents, last) && |ents| == |ents'|
    requires forall c: nat :: c in Bag(heap, last) ==> c < size
    requires forall i :: 0 <= i < size && i < |ents| ==>
      ents'[i].freq == ents[i].freq && ents'[i].depth == ents[i].depth
    ensures IsHeap(heap, ents', last)
  {
    forall i {:trigger heap[i]} | 1 <= i <= last ensures heap[i] < size {
      assert heap[1..last + 1][i - 1] == heap[i];
      assert heap[i] in Bag(heap, last);
    }
    HeapFrame(heap, ents, ents', last);
  }

  /** Merges until one tree is left. */
  method BuildTree(heap: array<nat>, ents: array<HeapEn>, heapLast0: nat, asize: nat, ghost w: seq<nat>)
    returns (entsSize: nat)
    requires |w| == asize && Building(heap[..], ents[..], heapLast0, asize + 1, w)
    requires 2 <= heapLast0 <= asize && 2 * asize <= ents.Length
    modifies heap, ents
    ensures asize + 1 < entsSize <= ents.Length && Building(heap[..], ents[..], 1, entsSize, w)
    ensures OnlyRoot(ents[..entsSize])
  {
    hide Building, OnlyRoot;
    entsSize := asize + 1;
    var heapLast := heapLast0;
    while heapLast > 1
      invariant 1 <= heapLast <= heapLast0 && entsSize + heapLast == asize + 1 + heapLast0
      invariant Building(heap[..], ents[..], heapLast, entsSize, w)
    {
      MergeTwo(heap, ents, heapLast, entsSize, w);
      heapLast := heapLast - 1;
      entsSize := entsSize + 1;
    }
    LastIsRoot(heap[..], ents[..], entsSize, w);
  }

  lemma LastIsRoot(heap: seq<nat>, ents: seq<HeapEn>, size: nat, w: seq<nat>)
    requires Building(heap, ents, 1, size, w) && |w| + 1 < size
    ensures OnlyRoot(ents[..size])
  {
    HeapOfBuilding(heap, ents, 1, size, w);
    LoneRoot(heap, ents[..size], w);
  }

  lemma LoneRoot(heap: seq<nat>, e: seq<HeapEn>, w: seq<nat>)
    requires 1 < |heap| && |w| + 1 < |e| && BagIsRoots(Bag(heap, 1), e)
    requires Forest(e, |w|)
    ensures OnlyRoot(e)
  {
    var size := |e|;
    assert Bag(heap, 1) == multiset{heap[1]} by { assert heap[1..2] == [heap[1]]; }
    assert e[size - 1].freq > 0;
    assert IsRoot(e, size - 1);
    forall r: nat | IsRoot(e, r) ensures r == size - 1 {
      assert Bag(heap, 1)[r] == 1 && Bag(heap, 1)[size - 1] == 1;
    }
  }

  /** If the tree of `w` is too deep, some weight exceeds 2. */
  lemma DeepMeansHeavy(e: seq<HeapEn>, w: seq<nat>, i: nat, maxlen: nat)
    requires Forest(e, |w|) && Heavy(e) && RootSum(e, |e|) == Sum(w) && OnlyRoot(e)
    requires 1 <= i < |e| && e[i].freq > 0 && Dist(e, |w|, i) > maxlen && DepthFits(|w|, maxlen)
    ensures (exists k :: 0 <= k < |w| && w[k] > 2) && MinWeight(maxlen + 1) <= Sum(w)
  {
    var root := |e| - 1;
    DistBelowRoot(e, |w|, i);
    MinWeightMonotone(maxlen + 1, e[root].depth);
    assert MinWeight(e[root].depth) <= e[root].freq;
    RootSumAtLeast(e, |e|, root);
    if forall k :: 0 <= k < |w| ==> w[k] <= 2 {
      SumSmall(w);
      assert false;
    }
  }

  // ---------------------------------------------------------------- code lengths

  /** Counts the links from entry `i` up to the root. */
  method CountParents(ents: array<HeapEn>, i: nat, ghost size: nat, ghost asize: nat) returns (b: nat)
    requires 1 <= i < size <= ents.Length && Linked(ents[..size], asize)
    ensures b == Dist(ents[..size], asize, i)
  {
    b := 0;
    var p := ents[i].parent;
    ghost var e := ents[..size];
    assert e[i] == ents[i];
    while p != 0
      invariant p == 0 || 1 <= p < size
      invariant Dist(e, asize, i) == b + if p == 0 then 0 else 1 + Dist(e, asize, p)
      decreases if p == 0 then 0 else size - p
    {
      assert e[p] == ents[p];
      b := b + 1;
      p := ents[p].parent;
    }
  }

  ghost predicate TooLong(clen: seq<nat>, maxlen: nat) {
    exists i :: 0 <= i < |clen| && clen[i] > maxlen
  }

  lemma OneMoreLength(clen: seq<nat>, freq: seq<nat>, e: seq<HeapEn>, asize: nat, b: nat, maxlen: nat)
    requires LengthsOf(clen, e, asize) && |clen| < asize && |clen| < |freq|
    requires b == if e[|clen| + 1].freq == 0 then 0 else Dist(e, asize, |clen| + 1)
    ensures LengthsOf(clen + [b], e, asize)
    ensures Cost(clen + [b], freq[..|clen| + 1])
            == Cost(clen, freq[..|clen|]) + if e[|clen| + 1].freq == 0 then 0 else Bits(b, freq[|clen|])
    ensures TooLong(clen + [b], maxlen) <==> TooLong(clen, maxlen) || b > maxlen
  {
    if TooLong(clen, maxlen) {
      var i :| 0 <= i < |clen| && clen[i] > maxlen;
      assert (clen + [b])[i] > maxlen;
    }
    if b > maxlen { assert (clen + [b])[|clen|] > maxlen; }
    assert (clen + [b])[..|clen|] == clen && freq[..|clen| + 1][..|clen|] == freq[..|clen|];
  }

  /** The length of one symbol's code, whether it is too long, and what the symbol adds to the size. */
  method OneLength(ents: array<HeapEn>, i: nat, freq: nat, maxlen: nat, ghost size: nat, ghost asize: nat)
    returns (b: nat, long: bool, bits: nat)
    requires 1 <= i < size <= ents.Length && Linked(ents[..size], asize)
    ensures b == if ents[..size][i].freq == 0 then 0 else Dist(ents[..size], asize, i)
    ensures long <==> b > maxlen
    ensures bits == if ents[..size][i].freq == 0 then 0 else Bits(b, freq)
  {
    assert ents[..size][i] == ents[i];
    b, long, bits := 0, false, 0;
    if ents[i].freq != 0 {
      b := CountParents(ents, i, size, asize);
      if b > maxlen {
        long := true;
      }
      bits := Bits(b, freq);
    }
  }

  /** Fills `clen` and reports whether some length exceeds `maxlen`. */
  method CodeLengths(ents: array<HeapEn>, clen: array<nat>, freq: seq<nat>, maxlen: nat, ghost size: nat)
    returns (overflow: bool, totalBits: nat)
    requires |freq| == clen.Length < size <= ents.Length && Linked(ents[..size], |freq|)
    modifies clen
    ensures LengthsOf(clen[..], ents[..size], |freq|) && totalBits == Cost(clen[..], freq)
    ensures overflow <==> TooLong(clen[..], maxlen)
  {
    hide *;
    overflow, totalBits := false, 0;
    ghost var e := ents[..size];
    ghost var done: seq<nat> := [];
    NoLengths(e, freq, maxlen);
    for i := 1 to clen.Length + 1
      invariant |done| == i - 1 && forall k :: 0 <= k < i - 1 ==> clen[k] == done[k]
      invariant LengthsOf(done, e, |freq|) && totalBits == Cost(done, freq[..|done|])
      invariant overflow <==> TooLong(done, maxlen)
    {
      var b, long, bits := OneLength(ents, i, freq[i - 1], maxlen, size, |freq|);
      overflow := overflow || long;
      totalBits := totalBits + bits;
      OneMoreLength(done, freq, e, |freq|, b, maxlen);
      clen[i - 1] := b;
      done := done + [b];
    }
    assert clen[..] == done && freq[..|freq|] == freq;
  }

  lemma NoLengths(e: seq<HeapEn>, freq: seq<nat>, maxlen: nat)
    requires Linked(e, |freq|)
    ensures !TooLong([], maxlen)
    ensures LengthsOf([], e, |freq|) && Cost([], freq[..0]) == 0
  {
  }

  method Rescale(ents: array<HeapEn>, asize: nat, ghost w: seq<nat>)
    requires |w| == asize < ents.Length && LeavesWeigh(ents[..], w)
    modifies ents
    ensures LeavesWeigh(ents[..], Rescaled(w))
  {
    for i := 1 to asize + 1
      invariant forall k :: 0 <= k < i - 1 ==> ents[k + 1].freq == Rescaled(w)[k]
      invariant forall k :: i - 1 <= k < asize ==> ents[k + 1].freq == w[k]
    {
      assert ents[(i - 1) + 1].freq == w[i - 1];
      ents[i] := ents[i].(freq := ents[i].freq / 2 + 1);
    }
  }

  /** What the coder needs of code lengths for a text with frequencies `freq`. */
  ghost predicate GoodLengths(clen: seq<nat>, freq: seq<nat>, maxlen: nat) {
    && |clen| == |freq|
    && (forall i :: 0 <= i < |clen| ==> clen[i] <= maxlen)
    && (forall i :: 0 <= i < |clen| && freq[i] > 0 ==> clen[i] > 0)
    && KraftSum(clen) == 1.0
  }

  lemma LengthsAreGood(clen: seq<nat>, e: seq<HeapEn>, w: seq<nat>, maxlen: nat)
    requires |w| == |clen| && |w| + 1 < |e| && LengthsOf(clen, e, |w|)
    requires Forest(e, |w|) && OnlyRoot(e) && LeavesWeigh(e, w)
    requires !TooLong(clen, maxlen)
    ensures GoodLengths(clen, w, maxlen)
  {
    TreeIsComplete(clen, e, |w|);
  }

  /** Both ways back to `again`: the lone symbol gets company, or heavy weights get lighter. */
  lemma RescaleProgress(w: seq<nat>, freq: seq<nat>)
    requires |w| == |freq| >= 2 && exists k :: 0 <= k < |w| && w[k] > 2
    ensures Used(Rescaled(w)) == |w| && Excess(Rescaled(w)) < Excess(w)
    ensures forall i :: 0 <= i < |freq| && freq[i] > 0 ==> Rescaled(w)[i] > 0
    ensures forall i :: 0 <= i < |freq| ==> 2 * Rescaled(w)[i] - 2 <= w[i] < 2 * Rescaled(w)[i]
  {
    ExcessRescaled(w);
    UsedAll(Rescaled(w));
  }

  lemma FakeProgress(w: seq<nat>, freq: seq<nat>)
    requires |w| == |freq| >= 2 && exists i :: 0 <= i < |freq| && freq[i] > 0
    requires forall i :: 0 <= i < |freq| && freq[i] > 0 ==> w[i] > 0
    ensures Used(w) > 0
    ensures var s := if freq[0] != 0 then |freq| - 1 else 0;
            Used(w) == 1 ==> Used(w[s := 1]) == 2
  {
    var k :| 0 <= k < |freq| && freq[k] > 0;
    UsedPositive(w, k);
    var s := if freq[0] != 0 then |freq| - 1 else 0;
    if Used(w) == 1 {
      if freq[0] != 0 { assert w[0] > 0; }
      UsedOneMore(w, s);
    }
  }

  lemma LongPath(clen: seq<nat>, e: seq<HeapEn>, asize: nat, maxlen: nat) returns (i: nat)
    requires LengthsOf(clen, e, asize) && TooLong(clen, maxlen)
    ensures 1 <= i < |e| && e[i].freq > 0 && Linked(e, asize) && Dist(e, asize, i) > maxlen
  {
    hide Dist;
    var k :| 0 <= k < |clen| && clen[k] > maxlen;
    i := k + 1;
  }

  lemma TooDeep(clen: seq<nat>, e: seq<HeapEn>, w: seq<nat>, maxlen: nat)
    requires Forest(e, |w|) && Heavy(e) && RootSum(e, |e|) == Sum(w) && OnlyRoot(e)
    requires LengthsOf(clen, e, |w|) && TooLong(clen, maxlen) && DepthFits(|w|, maxlen)
    ensures (exists k :: 0 <= k < |w| && w[k] > 2) && MinWeight(maxlen + 1) <= Sum(w)
  {
    hide *;
    var i := LongPath(clen, e, |w|, maxlen);
    DeepMeansHeavy(e, w, i, maxlen);
  }

  lemma Built(heap: seq<nat>, ents: seq<HeapEn>, size: nat, w: seq<nat>)
    requires Building(heap, ents, 1, size, w)
    ensures size <= |ents| && Forest(ents[..size], |w|) && Linked(ents[..size], |w|)
    ensures Heavy(ents[..size]) && RootSum(ents[..size], |ents[..size]|) == Sum(w)
    ensures LeavesWeigh(ents[..size], w) && LeavesWeigh(ents, w) && Greedy(ents[..size], |w|)
  {
    hide Linked, InnerNodes, Heavy, RootSum, IsHeap, BagIsRoots, Bag, Greedy;
    var e := ents[..size];
    forall i | 0 <= i < |w| ensures ents[i + 1].freq == w[i] {
      assert e[i + 1] == ents[i + 1];
    }
  }

  /** One attempt: a tree for weights `w`; on overflow some weight exceeds 2 and all of them are rescaled. */
  method TryLengths(heap: array<nat>, ents: array<HeapEn>, clen: array<nat>, freq: seq<nat>, maxlen: nat,
                    heapLast: nat, ghost w: seq<nat>)
    returns (overflow: bool, totalBits: nat)
    requires |w| == |freq| == clen.Length && clen != heap && DepthFits(|w|, maxlen)
    requires Building(heap[..], ents[..], heapLast, |w| + 1, w) && 2 <= heapLast <= |w| && 2 * |w| <= ents.Length
    modifies heap, ents, clen
    ensures LeavesWeigh(ents[..], w) && Best(clen[..], w) && totalBits == Cost(clen[..], freq)
    ensures overflow <==> TooLong(clen[..], maxlen)
    ensures overflow <==> Overlong(w, maxlen)
    ensures overflow ==> (exists k :: 0 <= k < |w| && w[k] > 2) && MinWeight(maxlen + 1) <= Sum(w)
    ensures !overflow ==> GoodLengths(clen[..], w, maxlen)
  {
    hide *;
    var entsSize := BuildTree(heap, ents, heapLast, |freq|, w);
    ghost var e := ents[..entsSize];
    Built(heap[..], ents[..], entsSize, w);
    overflow, totalBits := CodeLengths(ents, clen, freq, maxlen, entsSize);
    LinkedForest(e, |w|);
    TreeFits(clen[..], e, w, maxlen);
    if overflow {
      TooDeep(clen[..], e, w, maxlen);
    } else {
      LengthsAreGood(clen[..], e, w, maxlen);
    }
  }

  /** The lengths are best, and too long just if those of every cheapest code are. */
  lemma TreeFits(clen: seq<nat>, e: seq<HeapEn>, w: seq<nat>, maxlen: nat)
    requires Forest(e, |w|) && Greedy(e, |w|) && OnlyRoot(e) && |w| + 1 < |e| && LeavesWeigh(e, w)
    requires |clen| == |w| && LengthsOf(clen, e, |w|)
    ensures Best(clen, w)
    ensures TooLong(clen, maxlen) <==> Overlong(w, maxlen)
  {
    TreeIsComplete(clen, e, |w|);
    TreeIsOptimal(clen, e, w);
    hide Cost, KraftSum, Forest, Greedy, OnlyRoot, Dist, Linked;
    assert forall i :: 0 <= i < |w| ==> e[i + 1].freq == w[i];
    assert Codes(clen, w);
    if Overlong(w, maxlen) {
      assert !AllWithin(clen, w, maxlen);
    } else {
      var c :| Codes(c, w) && Optimal(c, w) && AllWithin(c, w, maxlen);
      assert Cost(c, w) == Cost(clen, w);
      assert AllWithin(clen, w, maxlen);
    }
  }

  lemma LinkedForest(e: seq<HeapEn>, asize: nat)
    requires Forest(e, asize)
    ensures Linked(e, asize)
  {
  }

  // ---------------------------------------------------------------- all attempts

  /** The frequencies, with company for a lone symbol. */
  function Company(freq: seq<nat>): (w: seq<nat>)
    requires |freq| >= 2
    ensures |w| == |freq|
  {
    if Used(freq) == 1 then freq[(if freq[0] != 0 then |freq| - 1 else 0) := 1] else freq
  }

  /** The weights of attempt `k`: each failure rescales them. */
  function Attempt(freq: seq<nat>, k: nat): (w: seq<nat>)
    requires |freq| >= 2
    ensures |w| == |freq|
  {
    if k == 0 then Company(freq) else Rescaled(Attempt(freq, k - 1))
  }

  /** Cheapest, and of the cheapest one whose longest code is shortest. */
  ghost predicate Best(clen: seq<nat>, w: seq<nat>) {
    Optimal(clen, w) && Flattest(clen, w)
  }

  /** Whatever prefix code makes the text shortest has a code that is too long. */
  ghost predicate Overlong(w: seq<nat>, maxlen: nat) {
    forall c :: Codes(c, w) && Optimal(c, w) ==> !AllWithin(c, w, maxlen)
  }

  /** Best for the weights of an attempt, after all attempts before it failed. */
  ghost predicate BestOfAttempt(clen: seq<nat>, freq: seq<nat>, maxlen: nat, k: nat)
    requires |freq| >= 2
  {
    Best(clen, Attempt(freq, k)) && forall j :: 0 <= j < k ==> Overlong(Attempt(freq, j), maxlen)
  }

  /**
    * The best lengths of the first attempt that does not fail; for a text that is short enough, that is the first
    * attempt of all, and no prefix code makes the text shorter.
    */
  ghost predicate BestFor(clen: seq<nat>, freq: seq<nat>, maxlen: nat)
    requires |freq| >= 2
  {
    && (exists k :: BestOfAttempt(clen, freq, maxlen, k))
    && (Sum(freq) + 1 < MinWeight(maxlen + 1) ==> Optimal(clen, freq))
  }

  lemma {:induction false} SumOneMore(w: seq<nat>, s: nat)
    requires s < |w| && w[s] == 0
    ensures Sum(w[s := 1]) == Sum(w) + 1
  {
    var n := |w| - 1;
    if s < n {
      SumOneMore(w[..n], s);
      assert w[s := 1][..n] == w[..n][s := 1];
    } else {
      assert w[s := 1][..n] == w[..n];
    }
  }

  lemma LoneSymbol(freq: seq<nat>) returns (k: nat, s: nat)
    requires |freq| >= 2 && Used(freq) == 1
    ensures k < |freq| && s < |freq| && k != s && freq[k] > 0 && Company(freq) == freq[s := 1]
    ensures forall i :: 0 <= i < |freq| && i != k ==> freq[i] == 0
  {
    if forall i :: 0 <= i < |freq| ==> freq[i] == 0 {
      UsedNone(freq);
      assert false;
    }
    k :| 0 <= k < |freq| && freq[k] > 0;
    UsedPositive(freq, k);
    s := if freq[0] != 0 then |freq| - 1 else 0;
  }

  lemma CompanySum(freq: seq<nat>)
    requires |freq| >= 2
    ensures Sum(Company(freq)) <= Sum(freq) + 1
  {
    if Used(freq) == 1 {
      var k, s := LoneSymbol(freq);
      SumOneMore(freq, s);
    }
  }

  /** Only one symbol: its code has one bit, and cannot have fewer. */
  lemma LoneIsOptimal(clen: seq<nat>, freq: seq<nat>)
    requires |freq| >= 2 && Used(freq) == 1 && Optimal(clen, Company(freq))
    requires forall i :: 0 <= i < |freq| && Company(freq)[i] > 0 ==> clen[i] > 0
    ensures Optimal(clen, freq)
  {
    hide Cost, Used, Company, KraftSum;
    var k, s := LoneSymbol(freq);
    var best := OneBitEach(freq, k, s);
    CostWeight(clen, freq[s := 1], s);
    assert freq[s := 1][s := 0] == freq;
    assert Cost(clen, freq[s := 1]) <= freq[k] + 1;
    assert Bits(clen[s], 1) == clen[s];
    forall l | Codes(l, freq) ensures Cost(clen, freq) <= Cost(l, freq) {
      CostOfOne(l, freq, k);
    }
  }

  /** Two codes of one bit. */
  lemma OneBitEach(freq: seq<nat>, k: nat, s: nat) returns (l: seq<nat>)
    requires k < |freq| && s < |freq| && k != s && freq[k] > 0
    requires forall i :: 0 <= i < |freq| && i != k ==> freq[i] == 0
    ensures Codes(l, freq[s := 1]) && Cost(l, freq[s := 1]) == freq[k] + 1
  {
    var zero: seq<nat> := seq(|freq|, _ => 0);
    l := zero[k := 1][s := 1];
    KraftOneMore(zero, k);
    KraftOneMore(zero[k := 1], s);
    KraftOfNothing(zero);
    CostWeight(l, freq[s := 1], s);
    CostWeight(l, freq[s := 1][s := 0], k);
    var rest := freq[s := 1][s := 0][k := 0];
    assert forall i :: 0 <= i < |rest| ==> rest[i] == 0;
    NoWeightNoCost(l, rest);
  }

  lemma {:induction false} NoWeightNoCost(l: seq<nat>, w: seq<nat>)
    requires |l| == |w| && forall i :: 0 <= i < |w| ==> w[i] == 0
    ensures Cost(l, w) == 0
  {
    if w != [] {
      NoWeightNoCost(l[..|w| - 1], w[..|w| - 1]);
    }
  }

  lemma {:induction false} KraftOfNothing(l: seq<nat>)
    requires forall i :: 0 <= i < |l| ==> l[i] == 0
    ensures KraftSum(l) == 0.0
  {
    if l != [] { KraftOfNothing(l[..|l| - 1]); }
  }

  lemma {:induction false} KraftOneMore(l: seq<nat>, i: nat)
    requires i < |l| && l[i] == 0
    ensures KraftSum(l[i := 1]) == KraftSum(l) + 0.5
  {
    var n := |l| - 1;
    if i < n {
      KraftOneMore(l[..n], i);
      assert l[i := 1][..n] == l[..n][i := 1];
    } else {
      assert l[i := 1][..n] == l[..n];
      assert Share(1) == 0.5;
    }
  }

  lemma CostOfOne(l: seq<nat>, freq: seq<nat>, k: nat)
    requires |l| == |freq| && k < |freq| && l[k] > 0
    requires forall i :: 0 <= i < |freq| && i != k ==> freq[i] == 0
    ensures Cost(l, freq) >= freq[k]
  {
    CostWeight(l, freq, k);
    NoWeightNoCost(l, freq[k := 0]);
    assert l[k] * freq[k] >= freq[k];
  }

  /** What the last attempt proves. */
  lemma LastAttempt(clen: seq<nat>, freq: seq<nat>, maxlen: nat, k: nat)
    requires |freq| >= 2 && |clen| == |freq| && GoodLengths(clen, Attempt(freq, k), maxlen)
    requires BestOfAttempt(clen, freq, maxlen, k)
    requires k > 0 ==> MinWeight(maxlen + 1) <= Sum(Company(freq))
    ensures BestFor(clen, freq, maxlen)
  {
    hide KraftSum, Used, Sum, Optimal, Flattest, Overlong;
    CompanySum(freq);
    if Sum(freq) + 1 < MinWeight(maxlen + 1) {
      assert k == 0 && Attempt(freq, 0) == Company(freq);
      if Used(freq) == 1 {
        LoneIsOptimal(clen, freq);
      }
    }
  }

  /** The state of the loop: no attempt yet, or after `k` failures. */
  ghost predicate Trying(w: seq<nat>, freq: seq<nat>, maxlen: nat, k: nat)
    requires |freq| >= 2
  {
    && (w == Attempt(freq, k) || (k == 0 && w == freq && Used(freq) == 1))
    && (Used(w) == 1 ==> w == freq)
    && (forall j :: 0 <= j < k ==> Overlong(Attempt(freq, j), maxlen))
    && (k > 0 ==> MinWeight(maxlen + 1) <= Sum(Company(freq)))
  }

  lemma LastOfTrying(clen: seq<nat>, w: seq<nat>, freq: seq<nat>, maxlen: nat, k: nat)
    requires |freq| >= 2 && |clen| == |freq| && Trying(w, freq, maxlen, k) && Used(w) != 1
    requires Best(clen, w) && GoodLengths(clen, w, maxlen)
    ensures BestFor(clen, freq, maxlen)
  {
    hide Best, GoodLengths, BestFor, Used, Company, Attempt, Sum;
    assert w == Attempt(freq, k);
    LastAttempt(clen, freq, maxlen, k);
  }

  lemma StartTrying(freq: seq<nat>, maxlen: nat)
    requires |freq| >= 2
    ensures Trying(freq, freq, maxlen, 0)
  {
  }

  lemma AfterCompany(w: seq<nat>, freq: seq<nat>, maxlen: nat, k: nat)
    requires |freq| >= 2 && Trying(w, freq, maxlen, k) && Used(w) == 1
    ensures w == freq && Trying(Company(freq), freq, maxlen, 0)
    ensures Company(freq) == w[(if freq[0] != 0 then |freq| - 1 else 0) := 1]
  {
    var i, s := LoneSymbol(freq);
    UsedOneMore(freq, s);
  }

  lemma AfterFailure(w: seq<nat>, freq: seq<nat>, maxlen: nat, k: nat)
    requires |freq| >= 2 && Trying(w, freq, maxlen, k) && Used(w) != 1
    requires Overlong(w, maxlen) && MinWeight(maxlen + 1) <= Sum(w)
    requires Used(Rescaled(w)) == |freq|
    ensures Trying(Rescaled(w), freq, maxlen, k + 1)
  {
    hide Overlong, Used, Rescaled, Company, Sum;
    assert w == Attempt(freq, k);
    assert k == 0 ==> w == Company(freq);
  }

  /** Lengths for weights that the text's symbols have are lengths for the text. */
  lemma GoodForText(clen: seq<nat>, w: seq<nat>, freq: seq<nat>, maxlen: nat)
    requires GoodLengths(clen, w, maxlen) && |w| == |freq|
    requires forall i :: 0 <= i < |freq| && freq[i] > 0 ==> w[i] > 0
    ensures GoodLengths(clen, freq, maxlen)
  {
  }

  /** Code lengths of at most `maxlen` bits for every symbol of the text, complete in Kraft's sense. */
  method BuildPrefix(freq: seq<nat>, clen: array<nat>, maxlen: nat) returns (totalBits: nat)
    requires |freq| == clen.Length >= 2 && DepthFits(|freq|, maxlen)
    requires exists i :: 0 <= i < |freq| && freq[i] > 0
    modifies clen
    ensures GoodLengths(clen[..], freq, maxlen) && totalBits == Cost(clen[..], freq)
    ensures BestFor(clen[..], freq, maxlen)
  {
    hide Used, Excess, Building, DepthFits, GoodLengths, Trying, Best, Overlong, TooLong, BestFor, Company, Attempt, Rescaled, Sum;
    var asize := |freq|;
    var ents := new HeapEn[asize * 2](_ => HeapEn(0, 0, 0));
    var heap := new nat[asize + 1];
    for i := 0 to asize
      invariant forall k :: 0 <= k < i ==> ents[k + 1].freq == freq[k]
    {
      ents[i + 1] := ents[i + 1].(freq := freq[i]);
    }
    ghost var w, k: nat := freq, 0;
    StartTrying(freq, maxlen);
    while true
      invariant |w| == asize && LeavesWeigh(ents[..], w) && Trying(w, freq, maxlen, k)
      invariant forall i :: 0 <= i < asize && freq[i] > 0 ==> w[i] > 0
      decreases if Used(w) == 1 then 1 else 0, Excess(w)
    {
      FakeProgress(w, freq);
      var heapLast := InitialHeap(heap, ents, asize, w);
      assert heapLast != 0;
      if heapLast == 1 {
        var s := if freq[0] != 0 then asize - 1 else 0;
        ents[s + 1] := ents[s + 1].(freq := 1);
        AfterCompany(w, freq, maxlen, k);
        w, k := w[s := 1], 0;
        continue;
      }
      var overflow;
      overflow, totalBits := TryLengths(heap, ents, clen, freq, maxlen, heapLast, w);
      if !overflow {
        GoodForText(clen[..], w, freq, maxlen);
        LastOfTrying(clen[..], w, freq, maxlen, k);
        return;
      }
      RescaleProgress(w, freq);
      AfterFailure(w, freq, maxlen, k);
      Rescale(ents, asize, w);
      w, k := Rescaled(w), k + 1;
    }
  }
}
