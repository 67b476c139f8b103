/** Which windows the decoder accepts, told from the flat list that a window makes by itself. */
module FlattenAccept {
  import opened Common
  import opened Vcdiff
  import opened Flatten
  import Adler

  /** A copy from below `cpylen` is not from the target, and does not go past `cpylen`. */
  predicate StaysBelow(h: Half, w: Window) {
    h.kind == Copy && h.addr < w.cpylen ==> !w.inTarget && h.addr + h.size <= w.cpylen
  }

  ghost predicate AllStayBelow(w: Window, n: nat)
    requires n <= |w.insts|
  {
    forall i :: 0 <= i < n ==> StaysBelow(w.insts[i].0, w) && StaysBelow(w.insts[i].1, w)
  }

  /** A copy inside the target starts before itself, even if it is empty. */
  predicate StartsBefore(i: Winst) {
    i.kind == Copy && i.mode == InTarget ==> i.addr < i.position
  }

  ghost predicate AllStartBefore(inst: seq<Winst>) {
    forall k :: 0 <= k < |inst| ==> StartsBefore(inst[k])
  }

  /** The list that a window makes by itself. */
  function OwnList(w: Window): Option<Appended> {
    AppendPairs(w, 0, Whole([], [], 0), |w.insts|)
  }

  /**
    * What makes a window acceptable, and `out` its target: its own list runs on the source to `out`, which has the
    * claimed length, its literal bytes are all used, copies stay where they belong, and a checksum is the right one.
    */
  ghost predicate Accepts(w: Window, src: seq<byte>, out: seq<byte>) {
    && OwnList(w).Some?
    && RunList(OwnList(w).value.whole.inst, OwnList(w).value.whole.adds, src) == Some(out)
    && |out| == w.tgtlen && OwnList(w).value.used == |w.data|
    && AllStayBelow(w, |w.insts|) && AllStartBefore(OwnList(w).value.whole.inst)
    && (w.adler32.Some? ==> w.adler32.value == Adler.Pack(Adler.After(Adler.Sums(1, 0), out)))
  }

  // ---------------------------------------------------------------- what a half-instruction puts out

  /** Byte `q` of a window's address space: its part of the source, then the target as far as it has come. */
  ghost predicate Addressed(w: Window, src: seq<byte>, out: seq<byte>, q: nat, b: byte) {
    if q < w.cpylen then !w.inTarget && w.cpyoff + q < |src| && b == src[w.cpyoff + q]
    else q - w.cpylen < |out| && b == out[q - w.cpylen]
  }

  /** Section 3 of RFC 3284: a byte repeated, the next literal bytes, or bytes of the address space, own ones included. */
  lemma HalfPutsOut(h: Half, w: Window, src: seq<byte>, e: Emitted, j: nat)
    requires EmitHalf(h, w, src, e).Some? && h.kind != Noop && j < h.size
    ensures var r := EmitHalf(h, w, src, e).value;
            var n := |e.out|;
            && e.out <= r.out && |r.out| == n + h.size
            && r.used == e.used + (if h.kind == Run then 1 else if h.kind == Add then h.size else 0)
            && match h.kind
               case Run => r.out[n + j] == w.data[e.used]
               case Add => r.out[n + j] == w.data[e.used + j]
               case Copy => Addressed(w, src, r.out[..n + j], h.addr + j, r.out[n + j])
               case Noop => true
  {
    hide Addressed;
    if h.kind == Copy { CopyPutsOut(h, w, src, e, j); }
  }

  lemma CopyPutsOut(h: Half, w: Window, src: seq<byte>, e: Emitted, j: nat)
    requires EmitHalf(h, w, src, e).Some? && h.kind == Copy && j < h.size
    ensures var r := EmitHalf(h, w, src, e).value;
            && e.out <= r.out && r.used == e.used
            && Addressed(w, src, r.out[..|e.out| + j], h.addr + j, r.out[|e.out| + j])
  {
  }

  lemma {:induction false} LiteralsOf(w: Window, winstart: nat, d: Whole, n: nat)
    requires n <= |w.insts| && AppendPairs(w, winstart, d, n).Some?
    ensures var a := AppendPairs(w, winstart, d, n).value;
            a.used <= |w.data| && a.whole.adds == d.adds + w.data[..a.used]
  {
    hide AppendHalf;
    if n > 0 {
      LiteralsOf(w, winstart, d, n - 1);
      var a := AppendPairs(w, winstart, d, n - 1).value;
      HalfLiterals(w.insts[n - 1].0, w, winstart, a, d.adds);
      HalfLiterals(w.insts[n - 1].1, w, winstart, AppendHalf(w.insts[n - 1].0, w, winstart, a).value, d.adds);
    }
  }

  lemma HalfLiterals(h: Half, w: Window, winstart: nat, a: Appended, before: seq<byte>)
    requires a.used <= |w.data| && a.whole.adds == before + w.data[..a.used] && AppendHalf(h, w, winstart, a).Some?
    ensures var r := AppendHalf(h, w, winstart, a).value;
            r.used <= |w.data| && r.whole.adds == before + w.data[..r.used]
  {
  }

  // ---------------------------------------------------------------- lists grow

  /** `b` has what `a` has, and more after it. */
  predicate Grows(a: Whole, b: Whole) {
    a.adds <= b.adds && a.inst <= b.inst
  }

  lemma HalfGrows(h: Half, w: Window, winstart: nat, a: Appended)
    requires AppendHalf(h, w, winstart, a).Some?
    ensures Grows(a.whole, AppendHalf(h, w, winstart, a).value.whole)
  {
  }

  lemma PairGrows(p: (Half, Half), w: Window, winstart: nat, a: Appended)
    requires AppendPair(p, w, winstart, a).Some?
    ensures AppendHalf(p.0, w, winstart, a).Some?
    ensures Grows(a.whole, AppendHalf(p.0, w, winstart, a).value.whole)
    ensures Grows(AppendHalf(p.0, w, winstart, a).value.whole, AppendPair(p, w, winstart, a).value.whole)
  {
    hide AppendHalf, Grows;
    HalfGrows(p.0, w, winstart, a);
    HalfGrows(p.1, w, winstart, AppendHalf(p.0, w, winstart, a).value);
  }

  lemma GrowsOn(a: Whole, b: Whole, c: Whole)
    requires Grows(a, b) && Grows(b, c)
    ensures Grows(a, c)
  {
  }

  lemma {:induction false} PairsGrow(w: Window, winstart: nat, d: Whole, m: nat, n: nat)
    requires m <= n <= |w.insts| && AppendPairs(w, winstart, d, n).Some?
    ensures AppendPairs(w, winstart, d, m).Some?
    ensures Grows(AppendPairs(w, winstart, d, m).value.whole, AppendPairs(w, winstart, d, n).value.whole)
    decreases n
  {
    if m < n {
      hide AppendPair, Grows;
      PairsGrow(w, winstart, d, m, n - 1);
      PairGrows(w.insts[n - 1], w, winstart, AppendPairs(w, winstart, d, n - 1).value);
      var a := AppendPairs(w, winstart, d, n - 1).value;
      var b := AppendHalf(w.insts[n - 1].0, w, winstart, a).value;
      GrowsOn(a.whole, b.whole, AppendPairs(w, winstart, d, n).value.whole);
      GrowsOn(AppendPairs(w, winstart, d, m).value.whole, a.whole, AppendPairs(w, winstart, d, n).value.whole);
    }
  }

  /** Of a list that runs, the beginning runs, and puts out no more. */
  lemma {:induction false} PrefixRuns(inst: seq<Winst>, n: nat, adds: seq<byte>, src: seq<byte>)
    requires n <= |inst| && RunList(inst, adds, src).Some?
    ensures RunList(inst[..n], adds, src).Some?
    ensures |RunList(inst[..n], adds, src).value| <= |RunList(inst, adds, src).value|
    decreases |inst|
  {
    hide RunOne;
    if n < |inst| {
      var m := |inst| - 1;
      PrefixRuns(inst[..m], n, adds, src);
      assert inst[..m][..n] == inst[..n];
    } else {
      assert inst[..n] == inst;
    }
  }

  // ---------------------------------------------------------------- what is acceptable is accepted

  /** What follows of the whole list for its beginning. */
  ghost predicate Ahead(a: Whole, all: Whole, src: seq<byte>, max: nat) {
    && Grows(a, all) && RunList(all.inst, all.adds, src).Some? && AllStartBefore(all.inst)
    && |RunList(all.inst, all.adds, src).value| <= max
  }

  lemma AheadOf(a: Whole, b: Whole, all: Whole, src: seq<byte>, max: nat)
    requires Grows(a, b) && Ahead(b, all, src, max)
    ensures Ahead(a, all, src, max)
  {
    hide RunList, AllStartBefore;
  }

  /** The instruction that a half-instruction appends runs where the list has come to, within the claimed length. */
  lemma NextRuns(d: Whole, i: Winst, adds: seq<byte>, all: Whole, src: seq<byte>, max: nat, out: seq<byte>)
    requires RunList(d.inst, d.adds, src) == Some(out) && d.adds <= adds
    requires Ahead(Whole(adds, d.inst + [i], d.length + i.size), all, src, max)
    ensures RunOne(i, all.adds, src, out).Some? && |out| + i.size <= max && StartsBefore(i)
  {
    hide RunOne, RunList, Execute;
    var n := |d.inst|;
    assert all.inst[..n + 1] == d.inst + [i] && all.inst[n] == i;
    assert d.adds + all.adds[|d.adds|..] == all.adds;
    RunListMoreAdds(d.inst, d.adds, all.adds[|d.adds|..], src);
    PrefixRuns(all.inst, n + 1, all.adds, src);
    RunListSnoc(d.inst, i, all.adds, src);
  }

  lemma RunAccepted(h: Half, w: Window, src: seq<byte>, a: Appended, e: Emitted, all: Whole)
    requires h.kind == Run && InStep(a, [], e, src) && AppendHalf(h, w, 0, a).Some?
    requires Ahead(AppendHalf(h, w, 0, a).value.whole, all, src, w.tgtlen)
    ensures EmitHalf(h, w, src, e).Some?
  {
    hide RunList, Ahead;
    var d := a.whole;
    assert [] + e.out == e.out;
    NextRuns(d, Winst(Run, InTarget, h.size, |d.adds|, d.length), d.adds + [w.data[a.used]], all, src, w.tgtlen, e.out);
  }

  lemma AddAccepted(h: Half, w: Window, src: seq<byte>, a: Appended, e: Emitted, all: Whole)
    requires h.kind == Add && InStep(a, [], e, src) && AppendHalf(h, w, 0, a).Some?
    requires Ahead(AppendHalf(h, w, 0, a).value.whole, all, src, w.tgtlen)
    ensures EmitHalf(h, w, src, e).Some?
  {
    hide RunList, Ahead;
    var d := a.whole;
    assert [] + e.out == e.out;
    NextRuns(d, Winst(Add, InTarget, h.size, |d.adds|, d.length), d.adds + w.data[a.used..a.used + h.size], all, src,
             w.tgtlen, e.out);
  }

  lemma CopyAccepted(h: Half, w: Window, src: seq<byte>, a: Appended, e: Emitted, all: Whole)
    requires h.kind == Copy && InStep(a, [], e, src) && AppendHalf(h, w, 0, a).Some? && StaysBelow(h, w)
    requires Ahead(AppendHalf(h, w, 0, a).value.whole, all, src, w.tgtlen)
    ensures EmitHalf(h, w, src, e).Some?
  {
    hide RunList, Ahead, CopyWithin, Execute;
    var d := a.whole;
    assert [] + e.out == e.out;
    var i := AppendHalf(h, w, 0, a).value.whole.inst[|d.inst|];
    NextRuns(d, i, d.adds, all, src, w.tgtlen, e.out);
  }

  lemma HalfAccepted(h: Half, w: Window, src: seq<byte>, a: Appended, e: Emitted, all: Whole)
    requires InStep(a, [], e, src) && AppendHalf(h, w, 0, a).Some? && StaysBelow(h, w)
    requires Ahead(AppendHalf(h, w, 0, a).value.whole, all, src, w.tgtlen)
    ensures EmitHalf(h, w, src, e).Some?
    ensures InStep(AppendHalf(h, w, 0, a).value, [], EmitHalf(h, w, src, e).value, src)
  {
    hide InStep, Ahead, AppendHalf;
    match h.kind {
      case Noop => IdleAccepted(h, w, src, e);
      case Run => RunAccepted(h, w, src, a, e, all);
      case Add => AddAccepted(h, w, src, a, e, all);
      case Copy => CopyAccepted(h, w, src, a, e, all);
    }
    HalfInStep(h, w, src, a, [], e);
  }

  lemma IdleAccepted(h: Half, w: Window, src: seq<byte>, e: Emitted)
    requires h.kind == Noop
    ensures EmitHalf(h, w, src, e) == Some(e)
  {
  }

  lemma {:induction false} PairsAccepted(w: Window, src: seq<byte>, n: nat)
    requires n <= |w.insts| && AllStayBelow(w, |w.insts|) && OwnList(w).Some?
    requires Ahead(OwnList(w).value.whole, OwnList(w).value.whole, src, w.tgtlen)
    ensures EmitPairs(w, src, n).Some? && AppendPairs(w, 0, Whole([], [], 0), n).Some?
    ensures InStep(AppendPairs(w, 0, Whole([], [], 0), n).value, [], EmitPairs(w, src, n).value, src)
  {
    hide InStep, Ahead, AppendPair, EmitHalf, AppendHalf, Grows;
    var d, all := Whole([], [], 0), OwnList(w).value.whole;
    PairsGrow(w, 0, d, n, |w.insts|);
    if n == 0 {
      NothingInStep(src);
    } else {
      PairsAccepted(w, src, n - 1);
      var p := w.insts[n - 1];
      var a, e := AppendPairs(w, 0, d, n - 1).value, EmitPairs(w, src, n - 1).value;
      var c := AppendPairs(w, 0, d, n).value;
      AheadOf(c.whole, all, all, src, w.tgtlen);
      PairAccepted(p, w, src, a, e, all);
    }
  }

  lemma NothingInStep(src: seq<byte>)
    ensures InStep(Appended(Whole([], [], 0), 0), [], Emitted([], 0), src)
  {
    NothingRuns(src);
    var nothing: seq<byte> := [];
    assert nothing + nothing == nothing;
  }

  lemma PairAccepted(p: (Half, Half), w: Window, src: seq<byte>, a: Appended, e: Emitted, all: Whole)
    requires InStep(a, [], e, src) && AppendPair(p, w, 0, a).Some? && StaysBelow(p.0, w) && StaysBelow(p.1, w)
    requires Ahead(AppendPair(p, w, 0, a).value.whole, all, src, w.tgtlen)
    ensures EmitPair(p, w, src, e).Some?
    ensures InStep(AppendPair(p, w, 0, a).value, [], EmitPair(p, w, src, e).value, src)
  {
    hide InStep, Ahead, AppendHalf, EmitHalf, Grows, StaysBelow;
    PairGrows(p, w, 0, a);
    var b := AppendHalf(p.0, w, 0, a).value;
    AheadOf(b.whole, AppendPair(p, w, 0, a).value.whole, all, src, w.tgtlen);
    HalfAccepted(p.0, w, src, a, e, all);
    HalfAccepted(p.1, w, src, b, EmitHalf(p.0, w, src, e).value, all);
  }

  // ---------------------------------------------------------------- what is accepted is acceptable

  lemma HalfAcceptable(h: Half, w: Window, src: seq<byte>, a: Appended, e: Emitted)
    requires InStep(a, [], e, src) && EmitHalf(h, w, src, e).Some? && AppendHalf(h, w, 0, a).Some?
    requires AllStartBefore(a.whole.inst)
    ensures StaysBelow(h, w) && AllStartBefore(AppendHalf(h, w, 0, a).value.whole.inst)
  {
    hide RunList, CopyWithin;
  }

  lemma PairAcceptable(p: (Half, Half), w: Window, src: seq<byte>, a: Appended, e: Emitted)
    requires InStep(a, [], e, src) && EmitPair(p, w, src, e).Some? && AllStartBefore(a.whole.inst)
    ensures StaysBelow(p.0, w) && StaysBelow(p.1, w) && AppendPair(p, w, 0, a).Some?
    ensures AllStartBefore(AppendPair(p, w, 0, a).value.whole.inst)
    ensures InStep(AppendPair(p, w, 0, a).value, [], EmitPair(p, w, src, e).value, src)
  {
    hide InStep, EmitHalf, AppendHalf, AllStartBefore, StaysBelow;
    HalfInStep(p.0, w, src, a, [], e);
    HalfAcceptable(p.0, w, src, a, e);
    var a1, e1 := AppendHalf(p.0, w, 0, a).value, EmitHalf(p.0, w, src, e).value;
    HalfInStep(p.1, w, src, a1, [], e1);
    HalfAcceptable(p.1, w, src, a1, e1);
  }

  lemma {:induction false} PairsAcceptable(w: Window, src: seq<byte>, n: nat)
    requires n <= |w.insts| && EmitPairs(w, src, n).Some?
    ensures AllStayBelow(w, n) && AppendPairs(w, 0, Whole([], [], 0), n).Some?
    ensures AllStartBefore(AppendPairs(w, 0, Whole([], [], 0), n).value.whole.inst)
    ensures InStep(AppendPairs(w, 0, Whole([], [], 0), n).value, [], EmitPairs(w, src, n).value, src)
  {
    hide InStep, EmitPair, AppendPair, StaysBelow;
    if n == 0 {
      NothingInStep(src);
    } else {
      PairsAcceptable(w, src, n - 1);
      PairAcceptable(w.insts[n - 1], w, src, AppendPairs(w, 0, Whole([], [], 0), n - 1).value,
                     EmitPairs(w, src, n - 1).value);
    }
  }

  // ---------------------------------------------------------------- both

  lemma OfNothing()
    ensures Adler.Pack(Adler.After(Adler.Sums(1, 0), [])) == 1
  {
  }

  lemma StepMeans(a: Appended, e: Emitted, src: seq<byte>)
    requires InStep(a, [], e, src)
    ensures RunList(a.whole.inst, a.whole.adds, src) == Some(e.out) && a.used == e.used
  {
    assert [] + e.out == e.out;
  }

  /** The decoder accepts a window, and puts out `out`, if and only if it is acceptable and makes `out`. */
  lemma AcceptedIffAcceptable(w: Window, src: seq<byte>, out: seq<byte>)
    ensures EmitWindow(w, src) == Some(out) <==> Accepts(w, src, out)
  {
    hide EmitPairs, AppendPairs, InStep, RunList, AllStayBelow, AllStartBefore, Adler.After, Adler.Pack;
    OfNothing();
    if EmitWindow(w, src) == Some(out) {
      PairsAcceptable(w, src, |w.insts|);
      StepMeans(OwnList(w).value, EmitPairs(w, src, |w.insts|).value, src);
    }
    if Accepts(w, src, out) {
      OwnAhead(OwnList(w).value.whole, src, w.tgtlen);
      PairsAccepted(w, src, |w.insts|);
      StepMeans(OwnList(w).value, EmitPairs(w, src, |w.insts|).value, src);
    }
  }

  lemma OwnAhead(d: Whole, src: seq<byte>, max: nat)
    requires RunList(d.inst, d.adds, src).Some? && |RunList(d.inst, d.adds, src).value| <= max && AllStartBefore(d.inst)
    ensures Ahead(d, d, src, max)
  {
  }
}
