/**
  * What merging the two lightest trees again and again builds: every inner node has exactly two children,
  * so the leaves fill the code space, and no subtree is deep unless it is heavy.
  */
module DjwTree {
  import opened DjwHeap
  import opened Kraft

  predicate IsRoot(e: seq<HeapEn>, i: nat) {
    1 <= i < |e| && e[i].freq > 0 && e[i].parent == 0
  }

  ghost predicate TwoKids(e: seq<HeapEn>, t: nat, a: nat, b: nat) {
    && 1 <= a < |e| && 1 <= b < |e| && a != b && e[a].parent == t && e[b].parent == t
    && forall i :: 1 <= i < |e| && e[i].parent == t ==> i == a || i == b
  }

  /** Entries 1 to `asize` are symbols, later ones inner nodes; links lead to later, deeper inner nodes. */
  ghost predicate Linked(e: seq<HeapEn>, asize: nat) {
    && asize < |e|
    && forall i :: 1 <= i < |e| && e[i].parent != 0 ==>
         && asize < e[i].parent < |e| && i < e[i].parent
         && e[i].freq > 0 && e[i].depth < e[e[i].parent].depth
  }

  ghost predicate InnerNodes(e: seq<HeapEn>, asize: nat) {
    forall t {:trigger e[t].freq} :: asize < t < |e| ==> e[t].freq > 0 && exists a, b :: TwoKids(e, t, a, b)
  }

  ghost predicate Forest(e: seq<HeapEn>, asize: nat) {
    Linked(e, asize) && InnerNodes(e, asize)
  }

  /** A root is as heavy as its height asks, and outweighs the taller child of every other root. */
  ghost predicate Heavy(e: seq<HeapEn>) {
    && (forall r: nat :: IsRoot(e, r) ==> MinWeight(e[r].depth) <= e[r].freq)
    && (forall r: nat, c: nat :: IsRoot(e, r) && IsRoot(e, c) && r != c && e[r].depth >= 1 ==>
          MinWeight(e[r].depth - 1) <= e[c].freq)
  }

  /** The weight of all roots together. */
  ghost function RootSum(e: seq<HeapEn>, n: nat): nat
    requires n <= |e|
  {
    if n == 0 then 0 else RootSum(e, n - 1) + if e[n - 1].parent == 0 then e[n - 1].freq else 0
  }

  /** `h1` and `h2` become the children of a new inner node. */
  function Join(e: seq<HeapEn>, h1: nat, h2: nat): (r: seq<HeapEn>)
    requires h1 < |e| && h2 < |e|
  {
    e[h1 := e[h1].(parent := |e|)][h2 := e[h2].(parent := |e|)]
    + [HeapEn(1 + (if e[h1].depth >= e[h2].depth then e[h1].depth else e[h2].depth), e[h1].freq + e[h2].freq, 0)]
  }

  /** The two lightest roots; of roots that weigh the same, the less deep ones. */
  ghost predicate Lightest(e: seq<HeapEn>, h1: nat, h2: nat) {
    && IsRoot(e, h1) && IsRoot(e, h2) && h1 != h2 && !Less(e[h2], e[h1])
    && forall c: nat :: IsRoot(e, c) && c != h1 && c != h2 ==> !Less(e[c], e[h2])
  }

  lemma JoinLinked(e: seq<HeapEn>, asize: nat, h1: nat, h2: nat)
    requires Linked(e, asize) && IsRoot(e, h1) && IsRoot(e, h2) && h1 != h2
    ensures Linked(Join(e, h1, h2), asize)
  {
    var e' := Join(e, h1, h2);
    forall i | 1 <= i < |e'| && e'[i].parent != 0
      ensures asize < e'[i].parent < |e'| && i < e'[i].parent
      ensures e'[i].freq > 0 && e'[i].depth < e'[e'[i].parent].depth
    {
      if i != h1 && i != h2 {
        assert e'[i] == e[i];
        assert e'[e[i].parent].depth == e[e[i].parent].depth;
      }
    }
  }

  lemma JoinKids(e: seq<HeapEn>, h1: nat, h2: nat, t: nat, a: nat, b: nat)
    requires TwoKids(e, t, a, b) && IsRoot(e, h1) && IsRoot(e, h2) && h1 != h2 && 0 < t < |e|
    ensures TwoKids(Join(e, h1, h2), t, a, b)
  {
  }

  lemma JoinInnerNodes(e: seq<HeapEn>, asize: nat, h1: nat, h2: nat)
    requires Linked(e, asize) && InnerNodes(e, asize) && IsRoot(e, h1) && IsRoot(e, h2) && h1 != h2
    ensures InnerNodes(Join(e, h1, h2), asize)
  {
    var e' := Join(e, h1, h2);
    forall t | asize < t < |e'| ensures e'[t].freq > 0 && exists a, b :: TwoKids(e', t, a, b) {
      if t < |e| {
        assert e[t].freq > 0;
        var a, b :| TwoKids(e, t, a, b);
        JoinKids(e, h1, h2, t, a, b);
      } else {
        NewKids(e, asize, h1, h2);
      }
    }
  }

  lemma NewKids(e: seq<HeapEn>, asize: nat, h1: nat, h2: nat)
    requires Linked(e, asize) && IsRoot(e, h1) && IsRoot(e, h2) && h1 != h2
    ensures TwoKids(Join(e, h1, h2), |e|, h1, h2)
  {
    var e' := Join(e, h1, h2);
    forall i | 1 <= i < |e'| && i != h1 && i != h2 ensures e'[i].parent != |e| {
      if i < |e| { assert e'[i] == e[i]; }
    }
  }

  lemma JoinRoots(e: seq<HeapEn>, h1: nat, h2: nat)
    requires IsRoot(e, h1) && IsRoot(e, h2) && h1 != h2
    ensures forall r: nat :: IsRoot(Join(e, h1, h2), r) <==> r == |e| || (IsRoot(e, r) && r != h1 && r != h2)
    ensures forall r: nat :: IsRoot(e, r) && r != h1 && r != h2 ==> Join(e, h1, h2)[r] == e[r]
  {
  }

  lemma JoinHeavyAlone(e: seq<HeapEn>, h1: nat, h2: nat, r: nat)
    requires Heavy(e) && Lightest(e, h1, h2) && IsRoot(Join(e, h1, h2), r)
    ensures MinWeight(Join(e, h1, h2)[r].depth) <= Join(e, h1, h2)[r].freq
  {
    JoinWeight(e, h1, h2);
    JoinRoots(e, h1, h2);
  }

  lemma JoinHeavyPair(e: seq<HeapEn>, h1: nat, h2: nat, r: nat, c: nat)
    requires Heavy(e) && Lightest(e, h1, h2)
    requires IsRoot(Join(e, h1, h2), r) && IsRoot(Join(e, h1, h2), c) && r != c
    requires Join(e, h1, h2)[r].depth >= 1
    ensures MinWeight(Join(e, h1, h2)[r].depth - 1) <= Join(e, h1, h2)[c].freq
  {
    JoinWeight(e, h1, h2);
    JoinRoots(e, h1, h2);
    var e' := Join(e, h1, h2);
    if r != |e| && c == |e| {
      assert e'[r] == e[r] && MinWeight(e[r].depth - 1) <= e[h1].freq;
    }
  }

  lemma JoinHeavy(e: seq<HeapEn>, h1: nat, h2: nat)
    requires Heavy(e) && Lightest(e, h1, h2)
    ensures Heavy(Join(e, h1, h2))
  {
    var e' := Join(e, h1, h2);
    forall r: nat | IsRoot(e', r) ensures MinWeight(e'[r].depth) <= e'[r].freq {
      JoinHeavyAlone(e, h1, h2, r);
    }
    forall r: nat, c: nat | IsRoot(e', r) && IsRoot(e', c) && r != c && e'[r].depth >= 1
      ensures MinWeight(e'[r].depth - 1) <= e'[c].freq
    {
      JoinHeavyPair(e, h1, h2, r, c);
    }
  }

  /** The growth law: a node one level up weighs at least as much as its two predecessors in height. */
  lemma JoinWeight(e: seq<HeapEn>, h1: nat, h2: nat)
    requires Heavy(e) && Lightest(e, h1, h2)
    ensures var d := if e[h1].depth >= e[h2].depth then e[h1].depth else e[h2].depth;
            MinWeight(d) <= e[h2].freq && MinWeight(d + 1) <= e[h1].freq + e[h2].freq
  {
  }

  lemma {:induction false} RootSumSame(e: seq<HeapEn>, e': seq<HeapEn>, n: nat)
    requires n <= |e| && n <= |e'|
    requires forall i :: 0 <= i < n ==> e[i].parent == e'[i].parent && e[i].freq == e'[i].freq
    ensures RootSum(e, n) == RootSum(e', n)
  {
    if n > 0 { RootSumSame(e, e', n - 1); }
  }

  lemma {:induction false} RootSumUnroot(e: seq<HeapEn>, n: nat, h: nat, p: nat)
    requires n <= |e| && IsRoot(e, h) && p != 0
    ensures RootSum(e[h := e[h].(parent := p)], n) == RootSum(e, n) - (if h < n then e[h].freq else 0)
  {
    if n > 0 { RootSumUnroot(e, n - 1, h, p); }
  }

  lemma JoinRootSum(e: seq<HeapEn>, h1: nat, h2: nat)
    requires IsRoot(e, h1) && IsRoot(e, h2) && h1 != h2
    ensures RootSum(Join(e, h1, h2), |e| + 1) == RootSum(e, |e|)
  {
    var e1 := e[h1 := e[h1].(parent := |e|)];
    var e2 := e1[h2 := e1[h2].(parent := |e|)];
    RootSumUnroot(e, |e|, h1, |e|);
    RootSumUnroot(e1, |e|, h2, |e|);
    RootSumSame(e2, Join(e, h1, h2), |e|);
  }

  lemma {:induction false} RootSumAtLeast(e: seq<HeapEn>, n: nat, r: nat)
    requires n <= |e| && IsRoot(e, r) && r < n
    ensures e[r].freq <= RootSum(e, n)
  {
    if r < n - 1 { RootSumAtLeast(e, n - 1, r); }
  }

  // ---------------------------------------------------------------- distances to the root

  /** The number of links from `i` up to its root. */
  function Dist(e: seq<HeapEn>, asize: nat, i: nat): nat
    requires Linked(e, asize) && 1 <= i < |e|
    decreases |e| - i
  {
    if e[i].parent == 0 then 0 else 1 + Dist(e, asize, e[i].parent)
  }

  ghost predicate OnlyRoot(e: seq<HeapEn>) {
    |e| > 1 && IsRoot(e, |e| - 1) && forall r: nat :: IsRoot(e, r) ==> r == |e| - 1
  }

  lemma {:induction false} DistBelowRoot(e: seq<HeapEn>, asize: nat, i: nat)
    requires Forest(e, asize) && OnlyRoot(e) && 1 <= i < |e| && e[i].freq > 0
    ensures Dist(e, asize, i) + e[i].depth <= e[|e| - 1].depth
    decreases |e| - i
  {
    if e[i].parent == 0 {
      assert IsRoot(e, i);
    } else {
      assert e[e[i].parent].freq > 0;
      DistBelowRoot(e, asize, e[i].parent);
    }
  }

  // ---------------------------------------------------------------- the Kraft sum

  /** What entry `i` takes of the code space if it was a root when the list had `t` entries. */
  ghost function Term(e: seq<HeapEn>, asize: nat, i: nat, t: nat): real
    requires Linked(e, asize) && 1 <= i < |e|
  {
    if e[i].freq > 0 && (e[i].parent == 0 || e[i].parent >= t) then Share(Dist(e, asize, i)) else 0.0
  }

  ghost function Terms(e: seq<HeapEn>, asize: nat, n: nat, t: nat): real
    requires Linked(e, asize) && 1 <= n <= |e|
  {
    if n == 1 then 0.0 else Terms(e, asize, n - 1, t) + Term(e, asize, n - 1, t)
  }

  lemma {:induction false} TermsWithoutKids(e: seq<HeapEn>, asize: nat, n: nat, t: nat, a: nat, b: nat)
    requires Linked(e, asize) && asize < t < |e| && 1 <= n <= t && TwoKids(e, t, a, b)
    ensures Terms(e, asize, n, t) == Terms(e, asize, n, t + 1)
            + (if a < n then Share(Dist(e, asize, a)) else 0.0)
            + (if b < n then Share(Dist(e, asize, b)) else 0.0)
  {
    if n > 1 {
      TermsWithoutKids(e, asize, n - 1, t, a, b);
    }
  }

  /** The roots before a merge and after it take the same code space. */
  lemma TermsStep(e: seq<HeapEn>, asize: nat, t: nat)
    requires Forest(e, asize) && asize < t < |e|
    ensures Terms(e, asize, t, t) == Terms(e, asize, t + 1, t + 1)
  {
    assert e[t].freq > 0;
    var a, b :| TwoKids(e, t, a, b);
    TermsWithoutKids(e, asize, t, t, a, b);
    hide TwoKids, InnerNodes;
    assert Dist(e, asize, a) == Dist(e, asize, t) + 1 == Dist(e, asize, b);
    assert Share(Dist(e, asize, a)) == Share(Dist(e, asize, t)) / 2.0;
  }

  lemma {:induction false} TermsConstant(e: seq<HeapEn>, asize: nat, t: nat)
    requires Forest(e, asize) && asize < t <= |e|
    ensures Terms(e, asize, t, t) == Terms(e, asize, |e|, |e|)
    decreases |e| - t
  {
    if t < |e| {
      TermsStep(e, asize, t);
      TermsConstant(e, asize, t + 1);
    }
  }

  lemma {:induction false} TermsOfRoot(e: seq<HeapEn>, asize: nat, n: nat)
    requires Linked(e, asize) && OnlyRoot(e) && 1 <= n <= |e|
    ensures Terms(e, asize, n, |e|) == if n == |e| then 1.0 else 0.0
  {
    if n > 1 {
      TermsOfRoot(e, asize, n - 1);
      assert IsRoot(e, n - 1) ==> n == |e|;
    }
  }

  /** `clen` lists the distances of the symbols that take part. */
  ghost predicate LengthsOf(clen: seq<nat>, e: seq<HeapEn>, asize: nat) {
    && Linked(e, asize) && |clen| <= asize
    && forall i :: 0 <= i < |clen| ==> clen[i] == if e[i + 1].freq == 0 then 0 else Dist(e, asize, i + 1)
  }

  lemma {:induction false} TermsAreKraft(clen: seq<nat>, e: seq<HeapEn>, asize: nat)
    requires LengthsOf(clen, e, asize)
    requires forall i :: 1 <= i <= asize && e[i].freq > 0 ==> e[i].parent > asize
    ensures Terms(e, asize, |clen| + 1, asize + 1) == KraftSum(clen)
  {
    if clen != [] {
      var n := |clen|;
      TermsAreKraft(clen[..n - 1], e, asize);
      assert Term(e, asize, n, asize + 1) == if clen[n - 1] == 0 then 0.0 else Share(clen[n - 1]);
    }
  }

  /** A single tree uses up its code space: the Kraft sum of its code lengths is 1. */
  lemma TreeIsComplete(clen: seq<nat>, e: seq<HeapEn>, asize: nat)
    requires Forest(e, asize) && OnlyRoot(e) && asize + 1 < |e| && |clen| == asize && LengthsOf(clen, e, asize)
    ensures KraftSum(clen) == 1.0
    ensures forall i :: 0 <= i < asize ==> (clen[i] == 0 <==> e[i + 1].freq == 0)
  {
    forall i | 1 <= i <= asize && e[i].freq > 0 ensures e[i].parent > asize {
      assert !IsRoot(e, i);
    }
    TermsAreKraft(clen, e, asize);
    TermsConstant(e, asize, asize + 1);
    TermsOfRoot(e, asize, |e|);
  }
}
