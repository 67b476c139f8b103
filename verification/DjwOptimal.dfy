/**
  * Why merging the two lightest again and again is best: no code lengths that a prefix code can have make the text
  * shorter than the distances in the tree do.
  */
module DjwOptimal {
  import opened DjwHeap
  import opened Kraft
  import opened DjwTree

  // ---------------------------------------------------------------- cost and code space

  /** What `freq` occurrences of a symbol with a code of `len` bits take. */
  function Bits(len: nat, freq: nat): nat {
    len * freq
  }

  /** The size in bits of a text with frequencies `freq` under code lengths `clen`. */
  function Cost(clen: seq<nat>, freq: seq<nat>): nat
    requires |clen| == |freq|
  {
    if clen == [] then 0 else
      Cost(clen[..|clen| - 1], freq[..|freq| - 1]) + Bits(clen[|clen| - 1], freq[|freq| - 1])
  }

  /** The code space that the symbols with a weight take. */
  function Space(w: seq<nat>, l: seq<nat>): real
    requires |w| == |l|
  {
    if w == [] then 0.0 else
      var n := |w| - 1;
      Space(w[..n], l[..n]) + if w[n] > 0 then Share(l[n]) else 0.0
  }

  /** Lengths that a prefix code for the symbols with a weight can have. */
  ghost predicate Codes(l: seq<nat>, w: seq<nat>) {
    |l| == |w| && (forall i :: 0 <= i < |w| && w[i] > 0 ==> l[i] > 0) && KraftSum(l) <= 1.0
  }

  /** No prefix code makes the text shorter. */
  ghost predicate Optimal(clen: seq<nat>, w: seq<nat>) {
    |clen| == |w| && forall l :: Codes(l, w) ==> Cost(clen, w) <= Cost(l, w)
  }

  lemma {:induction false} CostLength(l: seq<nat>, w: seq<nat>, i: nat, v: nat)
    requires |l| == |w| && i < |w|
    ensures Cost(l[i := v], w) == Cost(l, w) - Bits(l[i], w[i]) + Bits(v, w[i])
  {
    hide Bits;
    var n := |w| - 1;
    if i < n {
      CostLength(l[..n], w[..n], i, v);
      assert l[i := v][..n] == l[..n][i := v];
    } else {
      assert l[i := v][..n] == l[..n];
    }
  }

  lemma {:induction false} CostWeight(l: seq<nat>, w: seq<nat>, i: nat)
    requires |l| == |w| && i < |w|
    ensures Cost(l, w[i := 0]) == Cost(l, w) - Bits(l[i], w[i])
  {
    var n := |w| - 1;
    if i < n {
      CostWeight(l[..n], w[..n], i);
      assert w[i := 0][..n] == w[..n][i := 0];
    } else {
      assert w[i := 0][..n] == w[..n];
      assert Bits(l[n], 0) == 0;
    }
  }

  lemma CostSnoc(l: seq<nat>, w: seq<nat>, x: nat, v: nat)
    requires |l| == |w|
    ensures Cost(l + [x], w + [v]) == Cost(l, w) + Bits(x, v)
  {
    assert (l + [x])[..|l|] == l && (w + [v])[..|w|] == w;
  }

  lemma {:induction false} CostCons(l: seq<nat>, w: seq<nat>, x: nat)
    requires |l| == |w|
    ensures Cost([x] + l, [0] + w) == Cost(l, w)
  {
    if w == [] {
      assert [x] + l == [x] && [0] + w == [0];
      assert [x][..0] == [] && [0][..0] == [] && Bits(x, 0) == 0;
      assert Cost([], []) == 0;
    } else {
      var n := |w| - 1;
      CostCons(l[..n], w[..n], x);
      assert ([x] + l)[..n + 1] == [x] + l[..n] && ([0] + w)[..n + 1] == [0] + w[..n];
    }
  }

  /** Lengths of symbols without a weight do not count. */
  lemma {:induction false} CostSame(l: seq<nat>, l': seq<nat>, w: seq<nat>)
    requires |l| == |l'| == |w| && forall i :: 0 <= i < |w| && w[i] > 0 ==> l[i] == l'[i]
    ensures Cost(l, w) == Cost(l', w)
  {
    if w != [] {
      var n := |w| - 1;
      CostSame(l[..n], l'[..n], w[..n]);
      if w[n] == 0 { assert Bits(l[n], 0) == Bits(l'[n], 0); }
    }
  }

  lemma {:induction false} SpaceLength(w: seq<nat>, l: seq<nat>, i: nat, v: nat)
    requires |l| == |w| && i < |w| && w[i] > 0
    ensures Space(w, l[i := v]) == Space(w, l) - Share(l[i]) + Share(v)
  {
    hide Share;
    var n := |w| - 1;
    if i < n {
      SpaceLength(w[..n], l[..n], i, v);
      assert l[i := v][..n] == l[..n][i := v];
    } else {
      assert l[i := v][..n] == l[..n];
    }
  }

  lemma {:induction false} SpaceWeight(w: seq<nat>, l: seq<nat>, i: nat)
    requires |l| == |w| && i < |w| && w[i] > 0
    ensures Space(w[i := 0], l) == Space(w, l) - Share(l[i])
  {
    hide Share;
    var n := |w| - 1;
    if i < n {
      SpaceWeight(w[..n], l[..n], i);
      assert w[i := 0][..n] == w[..n][i := 0];
    } else {
      assert w[i := 0][..n] == w[..n];
    }
  }

  lemma SpaceSnoc(w: seq<nat>, l: seq<nat>, v: nat, x: nat)
    requires |l| == |w| && v > 0
    ensures Space(w + [v], l + [x]) == Space(w, l) + Share(x)
  {
    assert (l + [x])[..|l|] == l && (w + [v])[..|w|] == w;
  }

  lemma {:induction false} SpaceCons(w: seq<nat>, l: seq<nat>, x: nat)
    requires |l| == |w|
    ensures Space([0] + w, [x] + l) == Space(w, l)
  {
    if w == [] {
      assert [x] + l == [x] && [0] + w == [0];
      assert [x][..0] == [] && [0][..0] == [];
      assert Space([], []) == 0.0;
    } else {
      hide Share;
      var n := |w| - 1;
      SpaceCons(w[..n], l[..n], x);
      assert ([x] + l)[..n + 1] == [x] + l[..n] && ([0] + w)[..n + 1] == [0] + w[..n];
    }
  }

  /** The symbols with a weight take no more than all that have a code. */
  lemma {:induction false} SpaceBelowKraft(w: seq<nat>, l: seq<nat>)
    requires |l| == |w| && forall i :: 0 <= i < |w| && w[i] > 0 ==> l[i] > 0
    ensures Space(w, l) <= KraftSum(l)
  {
    if w != [] {
      hide Share;
      SpaceBelowKraft(w[..|w| - 1], l[..|w| - 1]);
    }
  }

  // ---------------------------------------------------------------- the exchange argument

  /** The longest length of a symbol other than `avoid`. */
  lemma Longest(w: seq<nat>, l: seq<nat>, avoid: nat, k: nat) returns (m: nat)
    requires |l| == |w| && k < |w| && w[k] > 0 && k != avoid
    ensures m < |w| && w[m] > 0 && m != avoid
    ensures forall i :: 0 <= i < |w| && w[i] > 0 && i != avoid ==> l[i] <= l[m]
  {
    m := k;
    for j := 0 to |w|
      invariant m < |w| && w[m] > 0 && m != avoid
      invariant forall i :: 0 <= i < j && w[i] > 0 && i != avoid ==> l[i] <= l[m]
    {
      if w[j] > 0 && j != avoid && l[j] > l[m] { m := j; }
    }
  }

  function Swap(l: seq<nat>, i: nat, j: nat): (r: seq<nat>)
    requires i < |l| && j < |l|
    ensures |r| == |l| && r[i] == l[j] && r[j] == l[i] && forall k :: 0 <= k < |l| && k != i && k != j ==> r[k] == l[k]
  {
    l[i := l[j]][j := l[i]]
  }

  lemma SwapBits(x: nat, y: nat, p: nat, q: nat)
    requires x <= y && p <= q
    ensures Bits(y, p) + Bits(x, q) <= Bits(x, p) + Bits(y, q)
    ensures Bits(y, p) + Bits(x, q) == Bits(x, p) + Bits(y, q) ==> x == y || p == q
  {
    assert (y - x) * (q - p) >= 0;
    if x < y && p < q { assert (y - x) * (q - p) > 0; }
  }

  /** Symbols stand for subtrees of depths `d`; with code lengths `l` for their roots, no leaf is below `h`. */
  ghost predicate Within(l: seq<nat>, w: seq<nat>, d: seq<nat>, h: nat) {
    |l| == |w| == |d| && forall i :: 0 <= i < |w| && w[i] > 0 ==> l[i] + d[i] <= h
  }

  /** `r` makes the text shorter than `l` does; or it makes it as long, and brings no leaf below `h`. */
  ghost predicate Better(r: seq<nat>, l: seq<nat>, w: seq<nat>, d: seq<nat>, h: nat)
    requires |r| == |l| == |w| == |d|
  {
    Cost(r, w) < Cost(l, w) || (Cost(r, w) == Cost(l, w) && (Within(l, w, d, h) ==> Within(r, w, d, h)))
  }

  /** Symbol `i` is lighter than `j`, or weighs the same and is no deeper. */
  predicate AtMost(w: seq<nat>, d: seq<nat>, i: nat, j: nat)
    requires |w| == |d| && i < |w| && j < |w|
  {
    w[i] < w[j] || (w[i] == w[j] && d[i] <= d[j])
  }

  /** Giving the lighter of two symbols the longer code makes the text no longer. */
  lemma SwapCost(w: seq<nat>, l: seq<nat>, a: nat, m: nat)
    requires |l| == |w| && a < |w| && m < |w| && 0 < w[a] <= w[m] && l[a] <= l[m]
    ensures Cost(Swap(l, a, m), w) <= Cost(l, w) && Space(w, Swap(l, a, m)) == Space(w, l)
    ensures Cost(Swap(l, a, m), w) == Cost(l, w) ==> l[a] == l[m] || w[a] == w[m]
  {
    if a == m {
      assert Swap(l, a, m) == l;
    } else {
      hide Cost, Space, Bits, Share;
      CostLength(l, w, a, l[m]);
      CostLength(l[a := l[m]], w, m, l[a]);
      SpaceLength(w, l, a, l[m]);
      SpaceLength(w, l[a := l[m]], m, l[a]);
      SwapBits(l[a], l[m], w[a], w[m]);
    }
  }

  lemma SwapBetter(w: seq<nat>, d: seq<nat>, l: seq<nat>, a: nat, m: nat, h: nat)
    requires |l| == |w| == |d| && a < |w| && m < |w| && w[a] > 0 && AtMost(w, d, a, m) && l[a] <= l[m]
    ensures Better(Swap(l, a, m), l, w, d, h) && Space(w, Swap(l, a, m)) == Space(w, l)
  {
    hide Cost, Space;
    SwapCost(w, l, a, m);
    if l[a] == l[m] { assert Swap(l, a, m) == l; }
  }

  function Times(q: nat, s: real): real {
    q as real * s
  }

  lemma AddTimes(p: nat, q: nat, s: real)
    ensures Times(p, s) + Times(q, s) == Times(p + q, s) && Times(1, s) == s && Times(0, s) == 0.0
  {
  }

  lemma TimesAtLeast(p: nat, q: nat, s: real)
    requires p <= q && s > 0.0
    ensures Times(p, s) <= Times(q, s)
  {
  }

  lemma {:induction false} ShareMultiple(l: nat, m: nat)
    requires l <= m
    ensures Share(l) == Times(Pow2(m - l), Share(m))
    decreases m
  {
    if l < m {
      ShareMultiple(l, m - 1);
      var p := Pow2(m - 1 - l) as real;
      assert Pow2(m - l) as real == 2.0 * p;
      assert 2.0 * p * (Share(m - 1) / 2.0) == p * Share(m - 1);
    }
  }

  /** When no length exceeds `m`, the space taken is a multiple of what one code of `m` bits takes. */
  lemma {:induction false} SpaceMultiple(w: seq<nat>, l: seq<nat>, m: nat) returns (q: nat)
    requires |l| == |w| && forall i :: 0 <= i < |w| && w[i] > 0 ==> l[i] <= m
    ensures Space(w, l) == Times(q, Share(m))
  {
    hide Share, Times;
    q := 0;
    AddTimes(0, 0, Share(m));
    if w != [] {
      var n := |w| - 1;
      q := SpaceMultiple(w[..n], l[..n], m);
      if w[n] > 0 {
        ShareMultiple(l[n], m);
        AddTimes(q, Pow2(m - l[n]), Share(m));
        q := q + Pow2(m - l[n]);
      }
    }
  }

  /** A multiple below 1 leaves room for one more. */
  lemma OneMoreFits(q: nat, m: nat)
    requires Times(q, Share(m)) < 1.0
    ensures Times(q, Share(m)) + Share(m) <= 1.0
  {
    ShareMultiple(0, m);
    var s, p := Share(m), Pow2(m);
    ShareOfNothing();
    hide Share, Pow2, Times;
    if q >= p { TimesAtLeast(p, q, s); }
    if q < p { TimesAtLeast(q + 1, p, s); }
    AddTimes(q, 1, s);
  }

  lemma FewerBits(x: nat, y: nat, p: nat)
    requires x < y && p > 0
    ensures Bits(x, p) < Bits(y, p)
  {
    assert (y - x) * p > 0;
  }

  /** The only longest code can be as short as the second longest. */
  lemma ShortenLongest(w: seq<nat>, l: seq<nat>, a: nat, m: nat)
    requires |l| == |w| && a < |w| && w[a] > 0 && Space(w, l) <= 1.0 && m < l[a]
    requires forall i :: 0 <= i < |w| && w[i] > 0 && i != a ==> l[i] <= m
    ensures Space(w, l[a := m]) <= 1.0 && Cost(l[a := m], w) < Cost(l, w)
  {
    hide Space, Cost, Share, Bits;
    SpaceWeight(w, l, a);
    var q := SpaceMultiple(w[a := 0], l, m);
    OneMoreFits(q, m);
    SpaceLength(w, l, a, m);
    CostLength(l, w, a, m);
    FewerBits(m, l[a], w[a]);
  }

  /** `a` and `b` are the two lightest symbols; of symbols that weigh the same, the less deep ones. */
  ghost predicate LightestPair(w: seq<nat>, d: seq<nat>, a: nat, b: nat) {
    && |w| == |d| && a < |w| && b < |w| && a != b && 0 < w[a] && 0 < w[b] && AtMost(w, d, a, b)
    && forall c :: 0 <= c < |w| && w[c] > 0 && c != a && c != b ==> AtMost(w, d, b, c)
  }

  function JoinWeights(w: seq<nat>, a: nat, b: nat): seq<nat>
    requires a < |w| && b < |w|
  {
    w[a := 0][b := 0] + [w[a] + w[b]]
  }

  function JoinDepths(d: seq<nat>, a: nat, b: nat): seq<nat>
    requires a < |d| && b < |d|
  {
    d + [1 + if d[a] >= d[b] then d[a] else d[b]]
  }

  lemma BetterThanBoth(r: seq<nat>, s: seq<nat>, l: seq<nat>, w: seq<nat>, d: seq<nat>, h: nat)
    requires |r| == |s| == |l| == |w| == |d| && Better(r, s, w, d, h) && Better(s, l, w, d, h)
    ensures Better(r, l, w, d, h)
  {
    hide Cost, Within;
  }

  /** The two lightest can be made to have the longest codes, of one length. */
  lemma LightestLongest(w: seq<nat>, d: seq<nat>, l: seq<nat>, a: nat, b: nat, h: nat) returns (r: seq<nat>)
    requires |l| == |w| && LightestPair(w, d, a, b) && Space(w, l) <= 1.0
    ensures |r| == |w| && r[a] == r[b] && Space(w, r) <= 1.0 && Better(r, l, w, d, h)
  {
    hide Space, Cost, Share, Swap, Within;
    var m := Longest(w, l, |w|, a);
    LightestAtMost(w, d, a, b, m);
    SwapBetter(w, d, l, a, m, h);
    var s := Swap(l, a, m);
    var m2 := Longest(w, s, a, b);
    LightestAtMost(w, d, a, b, m2);
    SwapBetter(w, d, s, b, m2, h);
    r := Swap(s, b, m2);
    BetterThanBoth(r, s, l, w, d, h);
    if r[a] > r[b] {
      ShortenLongest(w, r, a, r[b]);
      r := r[a := r[b]];
    }
  }

  lemma LightestAtMost(w: seq<nat>, d: seq<nat>, a: nat, b: nat, m: nat)
    requires LightestPair(w, d, a, b) && m < |w| && w[m] > 0
    ensures AtMost(w, d, a, m) && (m != a ==> AtMost(w, d, b, m))
  {
  }

  lemma HalfShare(n: nat)
    requires n > 0
    ensures Share(n - 1) == Share(n) + Share(n)
  {
  }

  lemma {:induction false} SpaceOfTwo(w: seq<nat>, l: seq<nat>, a: nat, b: nat)
    requires |l| == |w| && a < |w| && b < |w| && a != b && w[a] > 0 && w[b] > 0
    ensures Space(w, l) >= Share(l[a]) + Share(l[b])
  {
    hide Space, Share;
    SpaceWeight(w, l, a);
    SpaceWeight(w[a := 0], l, b);
    SpacePositive(w[a := 0][b := 0], l);
  }

  lemma {:induction false} SpacePositive(w: seq<nat>, l: seq<nat>)
    requires |l| == |w|
    ensures Space(w, l) >= 0.0
  {
    if w != [] { SpacePositive(w[..|w| - 1], l[..|w| - 1]); }
  }

  /** Any code can be turned into one for the joined symbols that is shorter by at least their weight. */
  lemma JoinCheaper(w: seq<nat>, d: seq<nat>, l: seq<nat>, a: nat, b: nat, h: nat) returns (r: seq<nat>)
    requires |l| == |w| && LightestPair(w, d, a, b) && Space(w, l) <= 1.0
    ensures |r| == |w| + 1 && Space(JoinWeights(w, a, b), r) <= 1.0
    ensures Cost(r, JoinWeights(w, a, b)) + w[a] + w[b] <= Cost(l, w)
    ensures Cost(r, JoinWeights(w, a, b)) + w[a] + w[b] == Cost(l, w) && Within(l, w, d, h) ==>
              Within(r, JoinWeights(w, a, b), JoinDepths(d, a, b), h)
  {
    hide Space, Cost, Share, Within;
    var s := LightestLongest(w, d, l, a, b, h);
    var m := s[a];
    SpaceOfTwo(w, s, a, b);
    if m == 0 { ShareOfNothing(); }
    HalfShare(m);
    SpaceWeight(w, s, a);
    SpaceWeight(w[a := 0], s, b);
    SpaceSnoc(w[a := 0][b := 0], s, w[a] + w[b], m - 1);
    JoinCosts(w, s, a, b);
    r := s + [m - 1];
    if Within(s, w, d, h) { JoinWithin(w, d, s, a, b, h); }
  }

  lemma JoinCosts(w: seq<nat>, s: seq<nat>, a: nat, b: nat)
    requires |s| == |w| && a < |w| && b < |w| && a != b && s[a] == s[b] > 0
    ensures Cost(s + [s[a] - 1], JoinWeights(w, a, b)) + w[a] + w[b] == Cost(s, w)
  {
    hide Cost, Bits;
    CostWeight(s, w, a);
    CostWeight(s, w[a := 0], b);
    CostSnoc(s, w[a := 0][b := 0], s[a] - 1, w[a] + w[b]);
    JoinBits(s[a], w[a], w[b]);
  }

  lemma JoinWithin(w: seq<nat>, d: seq<nat>, s: seq<nat>, a: nat, b: nat, h: nat)
    requires a < |w| && b < |w| && a != b && w[a] > 0 && w[b] > 0 && Within(s, w, d, h) && s[a] == s[b] > 0
    ensures Within(s + [s[a] - 1], JoinWeights(w, a, b), JoinDepths(d, a, b), h)
  {
    var r, w', d' := s + [s[a] - 1], JoinWeights(w, a, b), JoinDepths(d, a, b);
    forall i | 0 <= i < |w'| && w'[i] > 0 ensures r[i] + d'[i] <= h {
      if i < |w| { assert w[i] > 0; }
    }
  }

  lemma ShareOfNothing()
    ensures Share(0) == 1.0
  {
  }

  lemma JoinBits(m: nat, p: nat, q: nat)
    requires m > 0
    ensures Bits(m - 1, p + q) + p + q == Bits(m, p) + Bits(m, q)
  {
  }

  // ---------------------------------------------------------------- trees

  /** The weights of the roots when the list had `t` entries. */
  function Living(e: seq<HeapEn>, t: nat): (w: seq<nat>)
    requires t <= |e|
    ensures |w| == t
  {
    seq(t, i requires 0 <= i < t =>
      if i >= 1 && e[i].freq > 0 && (e[i].parent == 0 || e[i].parent >= t) then e[i].freq else 0)
  }

  /** The depths of the first `t` trees. */
  function Heights(e: seq<HeapEn>, t: nat): (d: seq<nat>)
    requires t <= |e|
    ensures |d| == t
  {
    seq(t, i requires 0 <= i < t => e[i].depth)
  }

  /**
    * `a` and `b` are the children of `t`, which weighs what they do and is deeper by one; when it was made they were the
    * lightest roots.
    */
  ghost predicate MergedLightest(e: seq<HeapEn>, t: nat, a: nat, b: nat) {
    && t < |e| && TwoKids(e, t, a, b) && e[t].freq == e[a].freq + e[b].freq
    && e[t].depth == 1 + (if e[a].depth >= e[b].depth then e[a].depth else e[b].depth)
    && LightestPair(Living(e, t), Heights(e, t), a, b)
  }

  ghost predicate MadeOfLightest(e: seq<HeapEn>, t: nat) {
    exists a, b :: MergedLightest(e, t, a, b)
  }

  /** Each inner node was made of the two lightest roots, beginning with leaves. */
  ghost predicate Greedy(e: seq<HeapEn>, asize: nat) {
    && (forall t :: asize < t < |e| ==> MadeOfLightest(e, t))
    && (forall i :: 0 <= i <= asize && i < |e| ==> e[i].depth == 0)
  }

  lemma LivingStays(e: seq<HeapEn>, h1: nat, h2: nat, t: nat)
    requires IsRoot(e, h1) && IsRoot(e, h2) && h1 != h2 && t <= |e|
    ensures Living(Join(e, h1, h2), t) == Living(e, t) && Heights(Join(e, h1, h2), t) == Heights(e, t)
  {
  }

  lemma OldMerge(e: seq<HeapEn>, h1: nat, h2: nat, t: nat, a: nat, b: nat)
    requires IsRoot(e, h1) && IsRoot(e, h2) && h1 != h2 && 0 < t < |e| && MergedLightest(e, t, a, b)
    ensures MergedLightest(Join(e, h1, h2), t, a, b)
  {
    LivingStays(e, h1, h2, t);
    JoinKids(e, h1, h2, t, a, b);
    hide Living, Heights, LightestPair, TwoKids;
    assert 1 <= a < |e| && 1 <= b < |e| by { KidsInRange(e, t, a, b); }
  }

  lemma KidsInRange(e: seq<HeapEn>, t: nat, a: nat, b: nat)
    requires TwoKids(e, t, a, b)
    ensures 1 <= a < |e| && 1 <= b < |e| && a != b && e[a].parent == t && e[b].parent == t
  {
  }

  lemma NewMerge(e: seq<HeapEn>, asize: nat, h1: nat, h2: nat)
    requires Linked(e, asize) && Lightest(e, h1, h2)
    ensures MergedLightest(Join(e, h1, h2), |e|, h1, h2)
  {
    NewKids(e, asize, h1, h2);
    LivingStays(e, h1, h2, |e|);
    LightestLiving(e, asize, h1, h2);
    hide Living, Heights, LightestPair, TwoKids, Linked;
  }

  lemma LightestLiving(e: seq<HeapEn>, asize: nat, h1: nat, h2: nat)
    requires Linked(e, asize) && Lightest(e, h1, h2)
    ensures LightestPair(Living(e, |e|), Heights(e, |e|), h1, h2)
  {
    var w, d := Living(e, |e|), Heights(e, |e|);
    forall c | 0 <= c < |e| && w[c] > 0 && c != h1 && c != h2 ensures AtMost(w, d, h2, c) {
      assert IsRoot(e, c);
    }
  }

  lemma LeafStays(e: seq<HeapEn>, asize: nat, h1: nat, h2: nat, i: nat)
    requires Linked(e, asize) && h1 < |e| && h2 < |e| && i <= asize
    ensures i < |e| && Join(e, h1, h2)[i].depth == e[i].depth
  {
  }

  lemma JoinGreedy(e: seq<HeapEn>, asize: nat, h1: nat, h2: nat)
    requires Linked(e, asize) && Greedy(e, asize) && Lightest(e, h1, h2)
    ensures Greedy(Join(e, h1, h2), asize)
  {
    hide Linked, MergedLightest;
    var e' := Join(e, h1, h2);
    forall i | 0 <= i <= asize && i < |e'| ensures e'[i].depth == 0 {
      LeafStays(e, asize, h1, h2, i);
    }
    forall t | asize < t < |e'| ensures MadeOfLightest(e', t) {
      if t < |e| {
        assert MadeOfLightest(e, t);
        var a, b :| MergedLightest(e, t, a, b);
        OldMerge(e, h1, h2, t, a, b);
      } else {
        NewMerge(e, asize, h1, h2);
      }
    }
  }

  /** The roots after a merge. */
  lemma LivingNext(e: seq<HeapEn>, asize: nat, t: nat, a: nat, b: nat)
    requires Linked(e, asize) && MergedLightest(e, t, a, b)
    ensures LightestPair(Living(e, t), Heights(e, t), a, b)
    ensures a < t && b < t && Living(e, t)[a] == e[a].freq && Living(e, t)[b] == e[b].freq
    ensures Living(e, t + 1) == JoinWeights(Living(e, t), a, b)
    ensures Heights(e, t + 1) == JoinDepths(Heights(e, t), a, b)
  {
    var w, w' := Living(e, t), Living(e, t + 1);
    assert w[a] > 0 && w[b] > 0;
    forall i | 0 <= i <= t ensures w'[i] == JoinWeights(w, a, b)[i] {
      if i < t && i != a && i != b && i >= 1 { assert e[i].parent != t; }
    }
  }

  /** The weights of the inner nodes from `t` on. */
  function InnerFrom(e: seq<HeapEn>, t: nat): nat
    decreases |e| - t
  {
    if t >= |e| then 0 else e[t].freq + InnerFrom(e, t + 1)
  }

  lemma MergeOf(e: seq<HeapEn>, asize: nat, t: nat) returns (a: nat, b: nat)
    requires Greedy(e, asize) && asize < t < |e|
    ensures MergedLightest(e, t, a, b)
  {
    hide MergedLightest;
    assert MadeOfLightest(e, t);
    a, b :| MergedLightest(e, t, a, b);
  }

  lemma InnerNext(e: seq<HeapEn>, t: nat, a: nat, b: nat)
    requires MergedLightest(e, t, a, b)
    ensures a < |e| && b < |e| && InnerFrom(e, t) == e[a].freq + e[b].freq + InnerFrom(e, t + 1)
  {
    hide Living, Heights, LightestPair;
  }

  lemma NoInner(e: seq<HeapEn>)
    ensures InnerFrom(e, |e|) == 0
  {
  }

  /**
    * No code for the roots of any moment costs less than the inner nodes that are still to come weigh; and if one costs
    * no more, it does not bring the leaves higher up.
    */
  lemma {:induction false} CodesCostAtLeast(e: seq<HeapEn>, asize: nat, t: nat, l: seq<nat>, h: nat)
    requires Linked(e, asize) && Greedy(e, asize) && OnlyRoot(e) && asize < t <= |e| && |l| == t
    requires Space(Living(e, t), l) <= 1.0
    ensures InnerFrom(e, t) <= Cost(l, Living(e, t))
    ensures InnerFrom(e, t) == Cost(l, Living(e, t)) && Within(l, Living(e, t), Heights(e, t), h) ==>
              e[|e| - 1].depth <= h
    decreases |e| - t
  {
    hide Space, Cost, Living, Heights, Linked, Greedy, OnlyRoot, InnerFrom, MergedLightest, LightestPair, Within;
    NoInner(e);
    if t < |e| {
      var a, b := MergeOf(e, asize, t);
      InnerNext(e, t, a, b);
      LivingNext(e, asize, t, a, b);
      var r := JoinCheaper(Living(e, t), Heights(e, t), l, a, b, h);
      CodesCostAtLeast(e, asize, t + 1, r, h);
    } else {
      RootWithin(e, l, h);
    }
  }

  lemma RootWithin(e: seq<HeapEn>, l: seq<nat>, h: nat)
    requires OnlyRoot(e)
    ensures Within(l, Living(e, |e|), Heights(e, |e|), h) ==> e[|e| - 1].depth <= h
  {
    assert Living(e, |e|)[|e| - 1] > 0;
  }

  /** The distances of the first `t` entries from the root. */
  function Depths(e: seq<HeapEn>, asize: nat, t: nat): (l: seq<nat>)
    requires Linked(e, asize) && t <= |e|
    ensures |l| == t
  {
    seq(t, i requires 0 <= i < t => if i == 0 then 0 else Dist(e, asize, i))
  }

  lemma KidDepths(e: seq<HeapEn>, asize: nat, t: nat, a: nat, b: nat)
    requires Linked(e, asize) && asize < t < |e| && TwoKids(e, t, a, b) && a < t && b < t
    ensures var l := Depths(e, asize, t);
            && l[a] == l[b] == Dist(e, asize, t) + 1
            && Depths(e, asize, t + 1) == l + [Dist(e, asize, t)]
  {
  }

  /** The tree's own code costs just what they weigh. */
  lemma {:induction false} TreeCosts(e: seq<HeapEn>, asize: nat, t: nat)
    requires Linked(e, asize) && Greedy(e, asize) && OnlyRoot(e) && asize < t <= |e|
    ensures Cost(Depths(e, asize, t), Living(e, t)) == InnerFrom(e, t)
    decreases |e| - t
  {
    hide Cost, Living, Linked, Greedy, OnlyRoot, Depths, Heights, InnerFrom, MergedLightest, LightestPair;
    NoInner(e);
    if t == |e| {
      RootCosts(e, asize);
    } else {
      var a, b := MergeOf(e, asize, t);
      InnerNext(e, t, a, b);
      LivingNext(e, asize, t, a, b);
      TreeCosts(e, asize, t + 1);
      MergeCosts(e, asize, t, a, b);
    }
  }

  lemma RootCosts(e: seq<HeapEn>, asize: nat)
    requires Linked(e, asize) && OnlyRoot(e)
    ensures Cost(Depths(e, asize, |e|), Living(e, |e|)) == 0
  {
    var l, w := Depths(e, asize, |e|), Living(e, |e|);
    forall i | 0 <= i < |e| && w[i] > 0 ensures l[i] == 0 {
      assert IsRoot(e, i);
    }
    NoCost(l, w);
  }

  lemma {:induction false} NoCost(l: seq<nat>, w: seq<nat>)
    requires |l| == |w| && forall i :: 0 <= i < |w| && w[i] > 0 ==> l[i] == 0
    ensures Cost(l, w) == 0
  {
    if w != [] {
      NoCost(l[..|w| - 1], w[..|w| - 1]);
    }
  }

  lemma MergeCosts(e: seq<HeapEn>, asize: nat, t: nat, a: nat, b: nat)
    requires Linked(e, asize) && asize < t < |e| && MergedLightest(e, t, a, b) && a < t && b < t
    requires Living(e, t)[a] == e[a].freq && Living(e, t)[b] == e[b].freq
    requires Living(e, t + 1) == JoinWeights(Living(e, t), a, b)
    ensures Cost(Depths(e, asize, t), Living(e, t))
         == Cost(Depths(e, asize, t + 1), Living(e, t + 1)) + e[a].freq + e[b].freq
  {
    hide Cost, Living, Heights, Linked, Depths, Dist, LightestPair;
    KidDepths(e, asize, t, a, b);
    var l, w := Depths(e, asize, t), Living(e, t);
    CostWeight(l, w, a);
    CostWeight(l, w[a := 0], b);
    CostSnoc(l, w[a := 0][b := 0], Dist(e, asize, t), w[a] + w[b]);
    JoinBits(Dist(e, asize, t) + 1, w[a], w[b]);
  }

  /** `e` starts with the symbols, weighted by `w`. */
  ghost predicate LeavesWeigh(e: seq<HeapEn>, w: seq<nat>) {
    |w| < |e| && forall i :: 0 <= i < |w| ==> e[i + 1].freq == w[i]
  }

  lemma LivingLeaves(e: seq<HeapEn>, w: seq<nat>)
    requires Linked(e, |w|) && LeavesWeigh(e, w)
    ensures |w| < |e| && Living(e, |w| + 1) == [0] + w
  {
    forall i | 0 <= i < |w| ensures Living(e, |w| + 1)[i + 1] == w[i] {
      assert e[i + 1].freq == w[i];
    }
  }

  /** The tree's code lengths cost what its distances do. */
  lemma LengthsCost(clen: seq<nat>, e: seq<HeapEn>, w: seq<nat>)
    requires Linked(e, |w|) && LeavesWeigh(e, w) && |clen| == |w| && LengthsOf(clen, e, |w|)
    ensures Cost(Depths(e, |w|, |w| + 1), [0] + w) == Cost(clen, w)
  {
    var l := Depths(e, |w|, |w| + 1);
    CostCons(l[1..], w, 0);
    assert [0] + l[1..] == l;
    CostSame(l[1..], clen, w);
  }

  /** No code for the weights is longer than `h`. */
  ghost predicate AllWithin(l: seq<nat>, w: seq<nat>, h: nat) {
    |l| == |w| && forall i :: 0 <= i < |w| && w[i] > 0 ==> l[i] <= h
  }

  /** No prefix code that makes the text as short has a shorter longest code. */
  ghost predicate Flattest(clen: seq<nat>, w: seq<nat>) {
    && |clen| == |w|
    && forall l, h: nat :: Codes(l, w) && Cost(l, w) == Cost(clen, w) && AllWithin(l, w, h) ==> AllWithin(clen, w, h)
  }

  lemma LeavesWithin(e: seq<HeapEn>, w: seq<nat>, l: seq<nat>, h: nat)
    requires Linked(e, |w|) && Greedy(e, |w|) && LeavesWeigh(e, w) && AllWithin(l, w, h)
    ensures |w| < |e| && Within([0] + l, [0] + w, Heights(e, |w| + 1), h)
  {
  }

  /** The tree is as deep as its root says. */
  lemma TreeWithin(clen: seq<nat>, e: seq<HeapEn>, w: seq<nat>, h: nat)
    requires Forest(e, |w|) && OnlyRoot(e) && LeavesWeigh(e, w) && |clen| == |w| && LengthsOf(clen, e, |w|)
    requires e[|e| - 1].depth <= h
    ensures AllWithin(clen, w, h)
  {
    forall i | 0 <= i < |w| && w[i] > 0 ensures clen[i] <= h {
      assert e[i + 1].freq == w[i];
      DistBelowRoot(e, |w|, i + 1);
    }
  }

  /** What the tree costs, and how deep it is, against any other code. */
  lemma TreeAgainst(clen: seq<nat>, e: seq<HeapEn>, w: seq<nat>, l: seq<nat>, h: nat)
    requires Forest(e, |w|) && Greedy(e, |w|) && OnlyRoot(e) && LeavesWeigh(e, w)
    requires |clen| == |w| && LengthsOf(clen, e, |w|) && Codes(l, w)
    ensures Cost(clen, w) <= Cost(l, w)
    ensures Cost(clen, w) == Cost(l, w) && AllWithin(l, w, h) ==> AllWithin(clen, w, h)
  {
    hide Cost, Space, Living, Linked, InnerNodes, Greedy, OnlyRoot, LeavesWeigh, LengthsOf, Depths, InnerFrom, KraftSum;
    hide Within, AllWithin, Heights;
    LivingLeaves(e, w);
    LengthsCost(clen, e, w);
    TreeCosts(e, |w|, |w| + 1);
    SpaceBelowKraft(w, l);
    SpaceCons(w, l, 0);
    CostCons(l, w, 0);
    CodesCostAtLeast(e, |w|, |w| + 1, [0] + l, h);
    if Cost(clen, w) == Cost(l, w) && AllWithin(l, w, h) {
      LeavesWithin(e, w, l, h);
      TreeWithin(clen, e, w, h);
    }
  }

  /**
    * Huffman's theorem: no prefix code for the weights is cheaper than the tree that was merged greedily; and as ties go
    * to the less deep tree, none that is as cheap has a shorter longest code.
    */
  lemma TreeIsOptimal(clen: seq<nat>, e: seq<HeapEn>, w: seq<nat>)
    requires Forest(e, |w|) && Greedy(e, |w|) && OnlyRoot(e) && LeavesWeigh(e, w)
    requires |clen| == |w| && LengthsOf(clen, e, |w|)
    ensures Optimal(clen, w) && Flattest(clen, w)
  {
    hide Cost, Forest, Greedy, OnlyRoot, LeavesWeigh, LengthsOf, KraftSum, AllWithin;
    forall l | Codes(l, w) ensures Cost(clen, w) <= Cost(l, w) {
      TreeAgainst(clen, e, w, l, 0);
    }
    forall l, h: nat | Codes(l, w) && Cost(l, w) == Cost(clen, w) && AllWithin(l, w, h) ensures AllWithin(clen, w, h) {
      TreeAgainst(clen, e, w, l, h);
    }
  }
}
