/** The binary heap of `djw_build_prefix`: slot 0 is a sentinel, the entries live in slots 1 to `last`. */
module DjwHeap {

  datatype HeapEn = HeapEn(depth: nat, freq: nat, parent: nat)

  predicate Less(a: HeapEn, b: HeapEn) {
    a.freq < b.freq || (a.freq == b.freq && a.depth < b.depth)
  }

  /** Slots 0 to `last` hold indices into `ents`. */
  ghost predicate InRange(heap: seq<nat>, ents: seq<HeapEn>, last: nat) {
    && last < |heap|
    && forall i :: 0 <= i <= last ==> heap[i] < |ents|
  }

  /** No entry is less than the one in its parent slot. */
  ghost predicate IsHeap(heap: seq<nat>, ents: seq<HeapEn>, last: nat) {
    && InRange(heap, ents, last)
    && forall i, j :: 1 <= j < i <= last && j == i / 2 ==> !Less(ents[heap[i]], ents[heap[j]])
  }

  /** The entries as a bag. */
  ghost function Bag(heap: seq<nat>, last: nat): multiset<nat>
    requires last < |heap|
  {
    multiset(heap[1..last + 1])
  }

  /** The root is a least entry. */
  lemma {:induction false} RootIsLeast(heap: seq<nat>, ents: seq<HeapEn>, last: nat, k: nat)
    requires IsHeap(heap, ents, last) && 1 <= k <= last
    ensures !Less(ents[heap[k]], ents[heap[1]])
  {
    if k > 1 { RootIsLeast(heap, ents, last, k / 2); }
  }

  lemma RootIsLeastInBag(heap: seq<nat>, ents: seq<HeapEn>, last: nat, e: nat)
    requires IsHeap(heap, ents, last) && e in Bag(heap, last)
    ensures e < |ents| && !Less(ents[e], ents[heap[1]])
  {
    var s := heap[1..last + 1];
    assert e in s;
    var k :| 0 <= k < |s| && s[k] == e;
    assert heap[k + 1] == e;
    RootIsLeast(heap, ents, last, k + 1);
  }

  /** Only the keys of the entries in the heap matter. */
  lemma HeapFrame(heap: seq<nat>, ents: seq<HeapEn>, ents': seq<HeapEn>, last: nat)
    requires IsHeap(heap, ents, last) && |ents| <= |ents'|
    requires forall i {:trigger heap[i]} :: 1 <= i <= last ==>
      ents'[heap[i]].freq == ents[heap[i]].freq && ents'[heap[i]].depth == ents[heap[i]].depth
    ensures IsHeap(heap, ents', last)
  {
  }

  function Swap(s: seq<nat>, i: nat, j: nat): (r: seq<nat>)
    requires i < |s| && j < |s|
    ensures |r| == |s|
  {
    s[i := s[j]][j := s[i]]
  }

  lemma SwapBag(s: seq<nat>, last: nat, i: nat, j: nat)
    requires last < |s| && 1 <= i < j <= last
    ensures Bag(Swap(s, i, j), last) == Bag(s, last)
  {
    var t := s[1..last + 1];
    assert Swap(s, i, j)[1..last + 1] == t[i - 1 := t[j - 1]][j - 1 := t[i - 1]];
  }

  // ---------------------------------------------------------------- sifting up

  /** A heap but for slot `p`, whose entry may be less than its ancestors. */
  ghost predicate HeapAbove(heap: seq<nat>, ents: seq<HeapEn>, last: nat, p: nat) {
    && InRange(heap, ents, last) && 1 <= p <= last
    && (forall i, j :: 1 <= j < i <= last && j == i / 2 && i != p ==> !Less(ents[heap[i]], ents[heap[j]]))
    && (forall i :: p < i <= last && i / 2 == p && 1 <= p / 2 ==> !Less(ents[heap[i]], ents[heap[p / 2]]))
  }

  lemma SiftUpStep(h: seq<nat>, ents: seq<HeapEn>, last: nat, p: nat)
    requires HeapAbove(h, ents, last, p) && 1 <= p / 2 && Less(ents[h[p]], ents[h[p / 2]])
    ensures HeapAbove(Swap(h, p / 2, p), ents, last, p / 2)
  {
    var pp := p / 2;
    var g := Swap(h, pp, p);
    assert forall i :: 0 <= i <= last ==> g[i] == (if i == p then h[pp] else if i == pp then h[p] else h[i]);
    forall i, j | 1 <= j < i <= last && j == i / 2 && i != pp ensures !Less(ents[g[i]], ents[g[j]]) {
      if j == pp && i != p {
        assert !Less(ents[h[i]], ents[h[pp]]);
      }
    }
    forall i | pp < i <= last && i / 2 == pp && 1 <= pp / 2 ensures !Less(ents[g[i]], ents[g[pp / 2]]) {
      assert !Less(ents[h[pp]], ents[h[pp / 2]]);
      if i != p { assert !Less(ents[h[i]], ents[h[pp]]); }
    }
  }

  lemma SiftUpDone(h: seq<nat>, ents: seq<HeapEn>, last: nat, p: nat)
    requires HeapAbove(h, ents, last, p) && (p == 1 || !Less(ents[h[p]], ents[h[p / 2]]))
    ensures IsHeap(h, ents, last)
  {
  }

  lemma SiftUpStart(h: seq<nat>, ents: seq<HeapEn>, last: nat, e: nat)
    requires last + 1 < |h| && IsHeap(h, ents, last) && e < |ents|
    ensures HeapAbove(h[last + 1 := e], ents, last + 1, last + 1)
    ensures Bag(h[last + 1 := e], last + 1) == Bag(h, last) + multiset{e}
  {
    var g := h[last + 1 := e];
    assert g[1..last + 2] == h[1..last + 1] + [e];
  }

  /** Inserts `e` into slot `p`, the first free one. */
  method HeapInsert(heap: array<nat>, ents: array<HeapEn>, p0: nat, e: nat)
    requires 1 <= p0 < heap.Length && IsHeap(heap[..], ents[..], p0 - 1)
    requires e < ents.Length && ents[e].freq > 0
    requires heap[0] == 0 && ents[0].freq == 0 && ents[0].depth == 0
    modifies heap
    ensures IsHeap(heap[..], ents[..], p0) && heap[0] == 0
    ensures Bag(heap[..], p0) == Bag(old(heap[..]), p0 - 1) + multiset{e}
  {
    hide HeapAbove, IsHeap, Bag;
    var p := p0;
    var pp := p / 2;
    ghost var was := heap[..];
    // The heap as it would be if `e` went into slot `p`.
    ghost var h := heap[..][p := e];
    assert 0 < |was| && p0 < |was|;
    SiftUpStart(was, ents[..], p0 - 1, e);
    AboveInRange(h, ents[..], p0, p);
    assert heap[pp] == h[pp];
    while Less(ents[e], ents[heap[pp]])
      invariant 1 <= p <= p0 && pp == p / 2 && heap[0] == 0
      invariant heap[pp] < ents.Length
      invariant |h| == heap.Length && h == heap[..][p := e]
      invariant HeapAbove(h, ents[..], p0, p)
      invariant p0 < |h| && Bag(h, p0) == Bag(was, p0 - 1) + multiset{e}
      decreases p
    {
      assert pp != 0;
      assert heap[pp] == h[pp];
      SiftUpStep(h, ents[..], p0, p);
      SwapBag(h, p0, pp, p);
      h := Swap(h, pp, p);
      heap[p] := heap[pp];
      p := pp;
      pp := p / 2;
      AboveInRange(h, ents[..], p0, p);
      assert heap[pp] == h[pp];
    }
    assert heap[pp] == h[pp];
    heap[p] := e;
    assert heap[..] == h;
    SiftUpDone(h, ents[..], p0, p);
  }

  lemma AboveInRange(h: seq<nat>, ents: seq<HeapEn>, last: nat, p: nat)
    requires HeapAbove(h, ents, last, p)
    ensures InRange(h, ents, last) && h[p / 2] < |ents|
  {
  }

  // ---------------------------------------------------------------- sifting down

  /** A heap but for slot `p`, whose entry may exceed its descendants. */
  ghost predicate HeapBelow(heap: seq<nat>, ents: seq<HeapEn>, last: nat, p: nat) {
    && InRange(heap, ents, last) && 1 <= p
    && (forall i, j :: 1 <= j < i <= last && j == i / 2 && j != p ==> !Less(ents[heap[i]], ents[heap[j]]))
    && (forall i :: p < i <= last && i / 2 == p && 1 <= p / 2 ==> !Less(ents[heap[i]], ents[heap[p / 2]]))
  }

  lemma SiftDownStep(h: seq<nat>, ents: seq<HeapEn>, last: nat, p: nat, pc: nat)
    requires HeapBelow(h, ents, last, p) && p < pc <= last && pc / 2 == p
    requires Less(ents[h[pc]], ents[h[p]])
    requires forall i :: p < i <= last && i / 2 == p ==> !Less(ents[h[i]], ents[h[pc]])
    ensures HeapBelow(Swap(h, p, pc), ents, last, pc)
  {
    var g := Swap(h, p, pc);
    assert forall i :: 0 <= i <= last ==> g[i] == (if i == pc then h[p] else if i == p then h[pc] else h[i]);
    forall i, j | 1 <= j < i <= last && j == i / 2 && j != pc ensures !Less(ents[g[i]], ents[g[j]]) {
      if i == p { assert !Less(ents[h[pc]], ents[h[j]]); }
    }
    forall i | pc < i <= last && i / 2 == pc ensures !Less(ents[g[i]], ents[g[p]]) {
      assert !Less(ents[h[i]], ents[h[pc]]);
    }
  }

  lemma SiftDownDone(h: seq<nat>, ents: seq<HeapEn>, last: nat, p: nat)
    requires HeapBelow(h, ents, last, p)
    requires forall i :: p < i <= last && i / 2 == p ==> !Less(ents[h[i]], ents[h[p]])
    ensures IsHeap(h, ents, last)
  {
  }

  lemma SiftDownStart(h: seq<nat>, ents: seq<HeapEn>, last: nat)
    requires last + 1 < |h| && IsHeap(h, ents, last + 1)
    ensures HeapBelow(h[1 := h[last + 1]], ents, last, 1)
    ensures Bag(h[1 := h[last + 1]], last) == Bag(h, last + 1) - multiset{h[1]}
  {
    var g := h[1 := h[last + 1]];
    if last == 0 {
      assert g[1..1] == [] && h[1..2] == [h[1]];
    } else {
      assert h[1..last + 2] == [h[1]] + h[2..last + 1] + [h[last + 1]];
      assert g[1..last + 1] == [h[last + 1]] + h[2..last + 1];
    }
  }

  /** The smaller child of slot `p`. */
  method SmallerChild(heap: array<nat>, ents: array<HeapEn>, last: nat, p: nat) returns (pc: nat)
    requires InRange(heap[..], ents[..], last) && 1 <= p && 2 * p <= last
    ensures p < pc <= last && pc / 2 == p
    ensures forall i :: p < i <= last && i / 2 == p ==> !Less(ents[heap[i]], ents[heap[pc]])
  {
    pc := p * 2;
    assert heap[..][pc] < ents.Length;
    if pc < last {
      assert heap[..][pc + 1] < ents.Length;
      if Less(ents[heap[pc + 1]], ents[heap[pc]]) {
        pc := pc + 1;
      }
    }
    forall i | p < i <= last && i / 2 == p ensures !Less(ents[heap[i]], ents[heap[pc]]) {
      assert i == 2 * p || i == 2 * p + 1;
    }
  }

  /** Takes the least entry out; `heapLast` is the number of entries that stay. */
  method HeapExtract(heap: array<nat>, ents: array<HeapEn>, heapLast: nat) returns (smallest: nat)
    requires heapLast + 1 < heap.Length && IsHeap(heap[..], ents[..], heapLast + 1)
    requires heap[0] == 0
    modifies heap
    ensures smallest == old(heap[1])
    ensures IsHeap(heap[..], ents[..], heapLast) && heap[0] == 0
    ensures Bag(heap[..], heapLast) == Bag(old(heap[..]), heapLast + 1) - multiset{smallest}
  {
    hide HeapBelow, IsHeap, Bag;
    smallest := heap[1];
    ghost var was := heap[..];
    SiftDownStart(was, ents[..], heapLast);
    heap[1] := heap[heapLast + 1];
    assert heap[..] == was[1 := was[heapLast + 1]];
    var p := 1;
    while 2 * p <= heapLast
      invariant 1 <= p && heap[0] == 0
      invariant HeapBelow(heap[..], ents[..], heapLast, p)
      invariant Bag(heap[..], heapLast) == Bag(was, heapLast + 1) - multiset{smallest}
      decreases heapLast - p
    {
      BelowInRange(heap[..], ents[..], heapLast, p);
      var pc := SmallerChild(heap, ents, heapLast, p);
      assert heap[..][pc] < ents.Length && heap[..][p] < ents.Length;
      if !Less(ents[heap[pc]], ents[heap[p]]) {
        NotLessTransitive(heap[..], ents[..], heapLast, p, pc);
        SiftDownDone(heap[..], ents[..], heapLast, p);
        return;
      }
      SiftDownStep(heap[..], ents[..], heapLast, p, pc);
      SwapBag(heap[..], heapLast, p, pc);
      ghost var h := Swap(heap[..], p, pc);
      var t := heap[pc];
      heap[pc] := heap[p];
      heap[p] := t;
      assert heap[..] == h;
      p := pc;
    }
    SiftDownDone(heap[..], ents[..], heapLast, p);
  }

  lemma BelowInRange(h: seq<nat>, ents: seq<HeapEn>, last: nat, p: nat)
    requires HeapBelow(h, ents, last, p)
    ensures InRange(h, ents, last)
  {
  }

  lemma NotLessTransitive(h: seq<nat>, ents: seq<HeapEn>, last: nat, p: nat, pc: nat)
    requires InRange(h, ents, last) && 1 <= p < pc <= last && !Less(ents[h[pc]], ents[h[p]])
    requires forall i :: p < i <= last && i / 2 == p ==> !Less(ents[h[i]], ents[h[pc]])
    ensures forall i :: p < i <= last && i / 2 == p ==> !Less(ents[h[i]], ents[h[p]])
  {
  }
}
