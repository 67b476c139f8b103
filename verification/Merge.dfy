/** Composing deltas: a delta from A to B merged with one from B to C gives one from A to C. */
module Merge {
  import opened Common
  import opened Vcdiff

  /** The window table entry that a merge copies from its input unchanged. */
  datatype WinInfo = WinInfo(offset: nat, length: nat, adler32: nat)

  // ---------------------------------------------------------------- specification

  /** What `xd3_merge_inputs` demands of its input. */
  predicate MergeableInst(w: Winst, adds: nat) {
    && w.size > 0
    && match w.kind
       case Noop => false
       case Run => w.addr < adds
       case Add => w.addr + w.size <= adds
       case Copy => w.mode == InTarget ==> w.addr < w.position
  }

  ghost predicate Mergeable(input: Delta) {
    && Contiguous(input.inst, 0)
    && forall k :: 0 <= k < |input.inst| ==> MergeableInst(input.inst[k], |input.adds|)
  }

  /** What becomes of a copy of `size` bytes at `addr` of B, which is `mid` bytes long. */
  function CopyOutcome(addr: nat, size: nat, mid: nat): Status {
    if mid <= addr then InvalidInput else if addr + size <= mid then Ok else AssertionFailed
  }

  /**
    * A copy from a target window is refused, and one from past the end of B; one that begins in B and ends past it
    * runs into an assertion.
    */
  function Outcome(w: Winst, mid: nat): Status {
    if w.kind != Copy || w.mode == InTarget then Ok
    else if w.mode == InTargetWindow then InvalidInput
    else CopyOutcome(w.addr, w.size, mid)
  }

  /** An instruction is merged exactly when it is valid on B. */
  lemma MergedIffValid(w: Winst, adds: nat, mid: nat)
    requires MergeableInst(w, adds)
    ensures Outcome(w, mid) == Ok <==> ValidInst(w, adds, mid)
  {
  }

  /** Which of the two failures it is, by its fields. */
  lemma FailsHow(w: Winst, mid: nat)
    requires w.size > 0
    ensures Outcome(w, mid) == InvalidInput <==>
              w.kind == Copy && (w.mode == InTargetWindow || (w.mode == InSource && w.addr >= mid))
    ensures Outcome(w, mid) == AssertionFailed <==>
              w.kind == Copy && w.mode == InSource && w.addr < mid < w.addr + w.size
    ensures Outcome(w, mid) != Internal
  {
  }

  /** How many of `size` bytes at `addr` are inside B. */
  function Inside(addr: nat, size: nat, mid: nat): (n: nat)
    requires addr <= mid
    ensures n <= size && addr + n <= mid
  {
    Min(size, mid - addr)
  }

  /** Bytes `off .. off + take` of what `w` describes, as one instruction at `pos`. */
  function Cut(s: Delta, w: Winst, off: nat, take: nat, pos: nat, adds: seq<byte>, ghost src: nat): (r: Delta)
    requires ValidInst(w, |s.adds|, src) && off + take <= w.size
    ensures adds <= r.adds
  {
    match w.kind
    case Run => Delta(adds + [s.adds[w.addr]], [Winst(Run, InTarget, take, |adds|, pos)])
    case Add => Delta(adds + s.adds[w.addr + off..w.addr + off + take], [Winst(Add, InTarget, take, |adds|, pos)])
    case Copy => Delta(adds, [Winst(Copy, w.mode, take, w.addr + off, pos)])
  }

  predicate CopiesTarget(w: Winst) {
    w.kind == Copy && w.mode == InTarget
  }

  /** How much of `size` bytes at `addr` the instruction `w` that covers `addr` can supply. */
  function Take(w: Winst, addr: nat, size: nat): (n: nat)
    requires w.position <= addr < w.position + w.size
  {
    Min(size, w.size - (addr - w.position))
  }

  /** The first `take` of the bytes at `addr`, all supplied by instruction `k`. */
  function ResolveHead(s: Delta, k: nat, addr: nat, take: nat, pos: nat, adds: seq<byte>, ghost src: nat): (r: Delta)
    requires WellFormed(s, src) && addr + take <= End(s.inst) && k < |s.inst|
    requires s.inst[k].position <= addr && addr + take <= s.inst[k].position + s.inst[k].size
    ensures adds <= r.adds
    decreases addr + take, take, 0
  {
    var w := s.inst[k];
    assert ValidInst(w, |s.adds|, src);
    var off := addr - w.position;
    if CopiesTarget(w) then
      Resolve(s, w.addr + off, take, pos, adds, src)
    else
      Cut(s, w, off, take, pos, adds, src)
  }

  /** Instructions for bytes `addr .. addr + size` of B, placed at `pos`, given literals `adds`. */
  function Resolve(s: Delta, addr: nat, size: nat, pos: nat, adds: seq<byte>, ghost src: nat): (r: Delta)
    requires WellFormed(s, src) && addr + size <= End(s.inst)
    ensures adds <= r.adds
    decreases addr + size, size, 1
  {
    if size == 0 then Delta(adds, []) else
      var k := Cover(s.inst, addr);
      var take := Take(s.inst[k], addr, size);
      var head := ResolveHead(s, k, addr, take, pos, adds, src);
      var tail := Resolve(s, addr + take, size - take, pos + take, head.adds, src);
      Delta(tail.adds, head.inst + tail.inst)
  }

  /** One round of `xd3_merge_inputs`, on an instruction it does not refuse. */
  function MergeOne(s: Delta, input: Delta, w: Winst, acc: Delta, ghost src: nat): (r: Delta)
    requires WellFormed(s, src) && ValidInst(w, |input.adds|, End(s.inst))
    ensures acc.adds <= r.adds
  {
    match w.kind
    case Run => Delta(acc.adds + [input.adds[w.addr]], acc.inst + [w.(addr := |acc.adds|)])
    case Add => Delta(acc.adds + input.adds[w.addr..w.addr + w.size], acc.inst + [w.(addr := |acc.adds|)])
    case Copy =>
      if w.mode == InTarget then Delta(acc.adds, acc.inst + [w]) else
        var r := Resolve(s, w.addr, w.size, w.position, acc.adds, src);
        Delta(r.adds, acc.inst + r.inst)
  }

  function MergeFirst(s: Delta, input: Delta, n: nat, ghost src: nat): (r: Delta)
    requires WellFormed(s, src) && n <= |input.inst|
    requires Contiguous(input.inst, 0)
    requires forall k :: 0 <= k < n ==> ValidInst(input.inst[k], |input.adds|, End(s.inst))
  {
    if n == 0 then Delta([], []) else
      MergeOne(s, input, input.inst[n - 1], MergeFirst(s, input, n - 1, src), src)
  }

  /** The merged delta. */
  function Merged(s: Delta, input: Delta, ghost src: nat): Delta
    requires WellFormed(s, src) && WellFormed(input, End(s.inst))
  {
    MergeFirst(s, input, |input.inst|, src)
  }

  // ---------------------------------------------------------------- meaning is preserved

  /** A list that occupies `from .. to`, every instruction of which agrees with `tgt`. */
  ghost predicate Piece(d: Delta, from: nat, to: nat, src: seq<byte>, tgt: seq<byte>) {
    && Contiguous(d.inst, from)
    && to == (if d.inst == [] then from else End(d.inst))
    && forall k :: 0 <= k < |d.inst| ==> Means(d.inst[k], d.adds, src, tgt)
  }

  /** `t` repeats at `to` the `n` bytes that `u` has at `from`. */
  ghost predicate Same(t: seq<byte>, to: nat, u: seq<byte>, from: nat, n: nat) {
    && to + n <= |t| && from + n <= |u|
    && forall p :: to <= p < to + n ==> t[p] == u[p - to + from]
  }

  lemma MeansWithMoreLiterals(w: Winst, adds: seq<byte>, adds': seq<byte>, src: seq<byte>, tgt: seq<byte>)
    requires adds <= adds' && Means(w, adds, src, tgt)
    ensures Means(w, adds', src, tgt)
  {
    forall j | 0 <= j < w.size ensures tgt[w.position + j] == Value(w, j, adds', src, tgt) {
      assert tgt[w.position + j] == Value(w, j, adds, src, tgt);
    }
  }

  lemma JoinContiguous(a: seq<Winst>, b: seq<Winst>, from: nat, mid: nat)
    requires Contiguous(a, from) && Contiguous(b, mid) && mid == (if a == [] then from else End(a))
    ensures Contiguous(a + b, from)
    ensures b != [] ==> End(a + b) == End(b)
  {
    var c := a + b;
    forall i, j | 0 <= i && j == i + 1 && j < |c| ensures c[j].position == c[i].position + c[i].size {
      if |a| <= i {
        assert c[i] == b[i - |a|] && c[j] == b[j - |a|];
      }
    }
  }

  lemma JoinPieces(a: Delta, b: Delta, from: nat, mid: nat, to: nat, src: seq<byte>, tgt: seq<byte>)
    requires Piece(a, from, mid, src, tgt) && Piece(b, mid, to, src, tgt) && a.adds <= b.adds
    ensures Piece(Delta(b.adds, a.inst + b.inst), from, to, src, tgt)
  {
    var d := Delta(b.adds, a.inst + b.inst);
    JoinContiguous(a.inst, b.inst, from, mid);
    if b.inst == [] { assert d.inst == a.inst; }
    forall k | 0 <= k < |d.inst| ensures Means(d.inst[k], d.adds, src, tgt) {
      if k < |a.inst| {
        MeansWithMoreLiterals(a.inst[k], a.adds, b.adds, src, tgt);
      } else {
        assert d.inst[k] == b.inst[k - |a.inst|];
      }
    }
  }

  lemma CutMeaning(s: Delta, w: Winst, off: nat, take: nat, pos: nat, adds: seq<byte>,
                   A: seq<byte>, B: seq<byte>, C: seq<byte>)
    requires Means(w, s.adds, A, B) && !CopiesTarget(w)
    requires 0 < take && off + take <= w.size && Same(C, pos, B, w.position + off, take)
    ensures Piece(Cut(s, w, off, take, pos, adds, |A|), pos, pos + take, A, C)
  {
    var head := Cut(s, w, off, take, pos, adds, |A|);
    var h := head.inst[0];
    forall j | 0 <= j < take ensures C[pos + j] == Value(h, j, head.adds, A, C) {
      assert C[pos + j] == B[w.position + (off + j)] == Value(w, off + j, s.adds, A, B);
    }
    assert Means(h, head.adds, A, C);
  }

  /** A target copy of the source delta lets its bytes be looked up where they were copied from. */
  lemma FollowCopy(w: Winst, off: nat, take: nat, pos: nat, adds: seq<byte>, A: seq<byte>, B: seq<byte>, C: seq<byte>)
    requires Means(w, adds, A, B) && CopiesTarget(w)
    requires off + take <= w.size && Same(C, pos, B, w.position + off, take)
    ensures Same(C, pos, B, w.addr + off, take)
  {
    forall p | pos <= p < pos + take ensures C[p] == B[p - pos + (w.addr + off)] {
      var j := off + (p - pos);
      assert B[w.position + j] == Value(w, j, adds, A, B);
    }
  }

  /** The first piece and the rest. */
  lemma ResolveStep(s: Delta, addr: nat, size: nat, pos: nat, adds: seq<byte>, src: nat)
    requires WellFormed(s, src) && addr + size <= End(s.inst) && size > 0
    ensures var k := Cover(s.inst, addr);
            var take := Take(s.inst[k], addr, size);
            var head := ResolveHead(s, k, addr, take, pos, adds, src);
            var tail := Resolve(s, addr + take, size - take, pos + take, head.adds, src);
            Resolve(s, addr, size, pos, adds, src) == Delta(tail.adds, head.inst + tail.inst)
  {
    hide ResolveHead, Cut, Cover, LastStart, Take, Contiguous, ValidInst;
  }

  /**
    * Wherever C repeats bytes `addr .. addr + size` of B, the resolved list describes them from A alone.
    * Target copies of the source delta, overlapping or not, are chased through B.
    */
  lemma {:induction false} ResolveMeaning(s: Delta, addr: nat, size: nat, pos: nat, adds: seq<byte>,
                                          A: seq<byte>, B: seq<byte>, C: seq<byte>)
    requires WellFormed(s, |A|) && addr + size <= End(s.inst) && IsTarget(s, A, B)
    requires Same(C, pos, B, addr, size)
    ensures Piece(Resolve(s, addr, size, pos, adds, |A|), pos, pos + size, A, C)
    decreases addr + size, size, 2
  {
    if size > 0 {
      ResolveNonEmpty(s, addr, size, pos, adds, A, B, C);
    }
  }

  lemma {:induction false} ResolveNonEmpty(s: Delta, addr: nat, size: nat, pos: nat, adds: seq<byte>,
                                           A: seq<byte>, B: seq<byte>, C: seq<byte>)
    requires WellFormed(s, |A|) && addr + size <= End(s.inst) && IsTarget(s, A, B) && size > 0
    requires Same(C, pos, B, addr, size)
    ensures Piece(Resolve(s, addr, size, pos, adds, |A|), pos, pos + size, A, C)
    decreases addr + size, size, 1
  {
    hide ResolveHead, Resolve, Means, ValidInst, Piece, LastStart;
    var k := Cover(s.inst, addr);
    var take := Take(s.inst[k], addr, size);
    ResolveHeadMeaning(s, k, addr, take, pos, adds, A, B, C);
    var head := ResolveHead(s, k, addr, take, pos, adds, |A|);
    ResolveMeaning(s, addr + take, size - take, pos + take, head.adds, A, B, C);
    var tail := Resolve(s, addr + take, size - take, pos + take, head.adds, |A|);
    ResolveStep(s, addr, size, pos, adds, |A|);
    JoinPieces(head, tail, pos, pos + take, pos + size, A, C);
  }

  lemma {:induction false} ResolveHeadMeaning(s: Delta, k: nat, addr: nat, take: nat, pos: nat, adds: seq<byte>,
                                              A: seq<byte>, B: seq<byte>, C: seq<byte>)
    requires WellFormed(s, |A|) && addr + take <= End(s.inst) && k < |s.inst| && take > 0
    requires s.inst[k].position <= addr && addr + take <= s.inst[k].position + s.inst[k].size
    requires IsTarget(s, A, B) && Same(C, pos, B, addr, take)
    ensures Piece(ResolveHead(s, k, addr, take, pos, adds, |A|), pos, pos + take, A, C)
    decreases addr + take, take, 0
  {
    var w := s.inst[k];
    assert Means(w, s.adds, A, B);
    var off := addr - w.position;
    if CopiesTarget(w) {
      FollowCopy(w, off, take, pos, s.adds, A, B, C);
      ResolveMeaning(s, w.addr + off, take, pos, adds, A, B, C);
    } else {
      CutMeaning(s, w, off, take, pos, adds, A, B, C);
    }
  }

  lemma MergeOneMeaning(s: Delta, input: Delta, w: Winst, acc: Delta, A: seq<byte>, B: seq<byte>, C: seq<byte>)
    requires WellFormed(s, |A|) && IsTarget(s, A, B) && Means(w, input.adds, B, C)
    requires Piece(acc, 0, w.position, A, C)
    ensures Piece(MergeOne(s, input, w, acc, |A|), 0, w.position + w.size, A, C)
  {
    var r := MergeOne(s, input, w, acc, |A|);
    var piece;
    if w.kind == Copy && w.mode == InSource {
      forall p | w.position <= p < w.position + w.size ensures C[p] == B[p - w.position + w.addr] {
        var j := p - w.position;
        assert C[w.position + j] == Value(w, j, input.adds, B, C);
      }
      ResolveMeaning(s, w.addr, w.size, w.position, acc.adds, A, B, C);
      piece := Resolve(s, w.addr, w.size, w.position, acc.adds, |A|);
    } else {
      var o := r.inst[|acc.inst|];
      forall j | 0 <= j < w.size ensures C[o.position + j] == Value(o, j, r.adds, A, C) {
        assert C[w.position + j] == Value(w, j, input.adds, B, C);
      }
      assert Means(o, r.adds, A, C);
      piece := Delta(r.adds, [o]);
    }
    JoinPieces(acc, piece, 0, w.position, w.position + w.size, A, C);
  }

  lemma {:induction false} MergeFirstMeaning(s: Delta, input: Delta, n: nat, A: seq<byte>, B: seq<byte>, C: seq<byte>)
    requires WellFormed(s, |A|) && WellFormed(input, |B|) && n <= |input.inst|
    requires IsTarget(s, A, B) && IsTarget(input, B, C)
    ensures Piece(MergeFirst(s, input, n, |A|), 0, End(input.inst[..n]), A, C)
  {
    if n > 0 {
      MergeFirstMeaning(s, input, n - 1, A, B, C);
      var acc := MergeFirst(s, input, n - 1, |A|);
      var w := input.inst[n - 1];
      assert input.inst[..n][n - 1] == w;
      assert n > 1 ==> input.inst[..n - 1][n - 2] == input.inst[n - 2];
      MergeOneMeaning(s, input, w, acc, A, B, C);
    }
  }

  /** The merge of two well-formed deltas is well formed, and applying it is applying one after the other. */
  lemma MergePreservesMeaning(s: Delta, input: Delta, A: seq<byte>)
    requires WellFormed(s, |A|) && WellFormed(input, End(s.inst))
    ensures WellFormed(Merged(s, input, |A|), |A|)
    ensures Apply(Merged(s, input, |A|), A) == Apply(input, Apply(s, A))
  {
    var B := Apply(s, A);
    var C := Apply(input, B);
    ApplyIsTarget(s, A);
    ApplyIsTarget(input, B);
    MergeFirstMeaning(s, input, |input.inst|, A, B, C);
    assert input.inst[..|input.inst|] == input.inst;
    var m := Merged(s, input, |A|);
    assert Piece(m, 0, |C|, A, C);
    if m.inst == [] { assert |C| == 0; }
    assert IsTarget(m, A, C);
    assert WellFormed(m, |A|) by {
      forall k | 0 <= k < |m.inst| ensures ValidInst(m.inst[k], |m.adds|, |A|) {
        assert Means(m.inst[k], m.adds, A, C);
      }
    }
    TargetIsApply(m, A, C);
  }

  /** Merging a chain of deltas gives the same file whichever neighbours are merged first. */
  lemma MergeAssociative(s: Delta, t: Delta, u: Delta, A: seq<byte>)
    requires WellFormed(s, |A|) && WellFormed(t, End(s.inst)) && WellFormed(u, End(t.inst))
    ensures var st := Merged(s, t, |A|);
            var tu := Merged(t, u, End(s.inst));
            && WellFormed(st, |A|) && WellFormed(u, End(st.inst)) && WellFormed(tu, End(s.inst))
            && WellFormed(Merged(st, u, |A|), |A|) && WellFormed(Merged(s, tu, |A|), |A|)
            && Apply(Merged(st, u, |A|), A) == Apply(Merged(s, tu, |A|), A)
               == Apply(u, Apply(t, Apply(s, A)))
  {
    var B := Apply(s, A);
    MergePreservesMeaning(s, t, A);
    MergePreservesMeaning(t, u, B);
    MergePreservesMeaning(Merged(s, t, |A|), u, A);
    MergePreservesMeaning(s, Merged(t, u, |B|), A);
  }

  // ---------------------------------------------------------------- the code

  /** `xd3_whole_state`. */
  class WholeState {
    var adds: seq<byte>
    var inst: seq<Winst>
    var wininfo: seq<WinInfo>
    var length: nat

    constructor ()
      ensures adds == [] && inst == [] && wininfo == [] && length == 0
    {
      adds, inst, wininfo, length := [], [], [], 0;
    }

    function Contents(): Delta
      reads this
    {
      Delta(adds, inst)
    }
  }

  /** Binary search for the instruction that covers `address`. */
  method FindPosition(source: WholeState, address: nat) returns (ret: Status, instNum: nat)
    requires Contiguous(source.inst, 0) && source.length == End(source.inst)
    ensures ret == (if address < source.length then Ok else InvalidInput)
    ensures ret == Ok ==> instNum == Cover(source.inst, address)
  {
    instNum := 0;
    if address >= source.length {
      return InvalidInput, 0;
    }
    var low, high := 0, |source.inst|;
    ghost var target := Cover(source.inst, address);
    while low != high
      invariant low <= target < high <= |source.inst|
      decreases high - low
    {
      var mid := low + (high - low) / 2;
      var midLpos := source.inst[mid].position;
      if address < midLpos {
        if mid < target { PositionsGrow(source.inst, 0, mid, target); }
        high := mid;
        continue;
      }
      var midHpos := midLpos + source.inst[mid].size;
      if address >= midHpos {
        if target < mid { PositionsGrow(source.inst, 0, target, mid); }
        low := mid + 1;
        continue;
      }
      CoverUnique(source.inst, address, mid);
      return Ok, mid;
    }
    assert false;
    ret := Internal;
  }

  method MergeRun(stream: WholeState, target: WholeState, iinst: Winst)
    requires stream != target && iinst.kind == Run && iinst.addr < |target.adds|
    requires stream.length == iinst.position
    modifies stream
    ensures stream.Contents() == Delta(old(stream.adds) + [target.adds[iinst.addr]],
                                       old(stream.inst) + [iinst.(addr := |old(stream.adds)|)])
    ensures stream.length == old(stream.length) + iinst.size && stream.wininfo == old(stream.wininfo)
  {
    var oinst := iinst.(addr := |stream.adds|, position := stream.length);
    stream.inst := stream.inst + [oinst];
    stream.length := stream.length + iinst.size;
    stream.adds := stream.adds + [target.adds[iinst.addr]];
  }

  method MergeAdd(stream: WholeState, target: WholeState, iinst: Winst)
    requires stream != target && iinst.kind == Add && iinst.addr + iinst.size <= |target.adds|
    requires stream.length == iinst.position
    modifies stream
    ensures stream.Contents() == Delta(old(stream.adds) + target.adds[iinst.addr..iinst.addr + iinst.size],
                                       old(stream.inst) + [iinst.(addr := |old(stream.adds)|)])
    ensures stream.length == old(stream.length) + iinst.size && stream.wininfo == old(stream.wininfo)
  {
    var oinst := iinst.(addr := |stream.adds|, position := stream.length);
    stream.inst := stream.inst + [oinst];
    stream.length := stream.length + iinst.size;
    stream.adds := stream.adds + target.adds[iinst.addr..iinst.addr + iinst.size];
  }

  method MergeTargetCopy(stream: WholeState, iinst: Winst)
    requires stream.length == iinst.position
    modifies stream
    ensures stream.Contents() == Delta(old(stream.adds), old(stream.inst) + [iinst])
    ensures stream.length == old(stream.length) && stream.wininfo == old(stream.wininfo)
  {
    stream.inst := stream.inst + [iinst];
  }

  /** Past the end of one instruction lies the next, or the end. */
  lemma NextCovers(s: Delta, k: nat, address: nat, src: nat)
    requires WellFormed(s, src) && k < |s.inst| && address == s.inst[k].position + s.inst[k].size
    ensures address <= End(s.inst)
    ensures if address < End(s.inst) then Cover(s.inst, address) == k + 1 else k + 1 == |s.inst|
  {
    if k + 1 < |s.inst| {
      assert ValidInst(s.inst[k + 1], |s.adds|, src);
      CoverUnique(s.inst, address, k + 1);
    }
  }

  /** The body of the source-copy loop: the bytes that instruction `sinstNum` supplies. */
  method MergePiece(stream: WholeState, source: WholeState, iinst: Winst, sinstNum: nat, ghost src: nat)
    returns (thisTake: nat)
    requires stream != source && WellFormed(source.Contents(), src) && source.length == End(source.inst)
    requires iinst.kind == Copy && iinst.mode == InSource && iinst.size > 0
    requires iinst.addr < source.length && sinstNum == Cover(source.inst, iinst.addr)
    modifies stream
    ensures iinst.addr + thisTake <= source.length
    ensures thisTake == Take(source.inst[sinstNum], iinst.addr, iinst.size)
    ensures var r := ResolveHead(source.Contents(), sinstNum, iinst.addr, thisTake, iinst.position,
                                 old(stream.adds), src);
            stream.Contents() == Delta(r.adds, old(stream.inst) + r.inst)
    ensures stream.length == old(stream.length) && stream.wininfo == old(stream.wininfo)
    decreases iinst.addr + iinst.size, iinst.size, 0
  {
    hide Resolve, LastStart;
    assert sinstNum < |source.inst|;
    var sinst := source.inst[sinstNum];
    assert iinst.addr >= sinst.position;
    var sinstOffset := iinst.addr - sinst.position;
    assert sinst.size > sinstOffset;
    var sinstLeft := sinst.size - sinstOffset;
    thisTake := Min(iinst.size, sinstLeft);
    assert thisTake > 0;
    assert ValidInst(sinst, |source.adds|, src);
    NextCovers(source.Contents(), sinstNum, sinst.position + sinst.size, src);

    if sinst.kind == Run {
      stream.inst := stream.inst + [Winst(Run, InTarget, thisTake, |stream.adds|, iinst.position)];
      stream.adds := stream.adds + [source.adds[sinst.addr]];
    } else if sinst.kind == Add {
      stream.inst := stream.inst + [Winst(Add, InTarget, thisTake, |stream.adds|, iinst.position)];
      stream.adds := stream.adds + source.adds[sinst.addr + sinstOffset..sinst.addr + sinstOffset + thisTake];
    } else if sinst.mode != InTarget {
      stream.inst := stream.inst + [Winst(Copy, sinst.mode, thisTake, sinst.addr + sinstOffset, iinst.position)];
    } else {
      var tinst := Winst(Copy, iinst.mode, thisTake, sinst.addr + sinstOffset, iinst.position);
      var ret := MergeSourceCopy(stream, source, tinst, src);
      assert ret == Ok;
    }
  }

  /** `k` is the instruction that covers `address`, or one past the last when none does. */
  ghost predicate At(inst: seq<Winst>, address: nat, k: nat)
    requires Contiguous(inst, 0)
  {
    if address < End(inst) then k == Cover(inst, address) else k == |inst|
  }

  /** What one instruction supplies lies inside B. */
  lemma TakeInside(s: Delta, k: nat, addr: nat, size: nat, src: nat)
    requires WellFormed(s, src) && addr < End(s.inst) && k == Cover(s.inst, addr)
    ensures Take(s.inst[k], addr, size) == Take(s.inst[k], addr, Inside(addr, size, End(s.inst)))
  {
    NextCovers(s, k, s.inst[k].position + s.inst[k].size, src);
  }

  /** One round of the source-copy loop: a piece, then on to the next instruction. */
  method MergeRound(stream: WholeState, source: WholeState, iinst: Winst, sinstNum: nat, ghost src: nat)
    returns (next: Winst, nextNum: nat)
    requires stream != source && WellFormed(source.Contents(), src) && source.length == End(source.inst)
    requires iinst.kind == Copy && iinst.mode == InSource && iinst.size > 0
    requires iinst.addr < source.length && sinstNum == Cover(source.inst, iinst.addr)
    modifies stream
    ensures next.kind == Copy && next.mode == InSource && next.size < iinst.size
    ensures next.addr + next.size == iinst.addr + iinst.size && next.addr <= source.length
    ensures next.size > 0 ==> At(source.inst, next.addr, nextNum)
    ensures var n, n' := Inside(iinst.addr, iinst.size, source.length), Inside(next.addr, next.size, source.length);
            var rest := Resolve(source.Contents(), iinst.addr, n, iinst.position, old(stream.adds), src);
            var rest' := Resolve(source.Contents(), next.addr, n', next.position, stream.adds, src);
            rest.adds == rest'.adds && old(stream.inst) + rest.inst == stream.inst + rest'.inst
    ensures stream.length == old(stream.length) && stream.wininfo == old(stream.wininfo)
    decreases iinst.addr + iinst.size, iinst.size, 1
  {
    hide Resolve, ResolveHead, LastStart, Contiguous, ValidInst;
    ghost var s := source.Contents();
    ghost var was := stream.Contents();
    ghost var n := Inside(iinst.addr, iinst.size, source.length);
    ResolveStep(s, iinst.addr, n, iinst.position, stream.adds, src);
    var thisTake := MergePiece(stream, source, iinst, sinstNum, src);
    ghost var head := ResolveHead(s, sinstNum, iinst.addr, thisTake, iinst.position, was.adds, src);
    TakeInside(s, sinstNum, iinst.addr, iinst.size, src);
    ghost var tail := Resolve(s, iinst.addr + thisTake, n - thisTake, iinst.position + thisTake, stream.adds, src);
    assert was.inst + (head.inst + tail.inst) == was.inst + head.inst + tail.inst;
    if thisTake < iinst.size {
      NextCovers(s, sinstNum, iinst.addr + thisTake, src);
    }
    next := iinst.(position := iinst.position + thisTake, addr := iinst.addr + thisTake,
                   size := iinst.size - thisTake);
    nextNum := sinstNum + 1;
  }

  /** Rewrites a copy from B into instructions on A, calling itself for the target copies of the source delta. */
  method MergeSourceCopy(stream: WholeState, source: WholeState, iinstOrig: Winst, ghost src: nat)
    returns (ret: Status)
    requires stream != source && WellFormed(source.Contents(), src) && source.length == End(source.inst)
    requires iinstOrig.kind == Copy && iinstOrig.mode == InSource && iinstOrig.size > 0
    modifies stream
    ensures ret == CopyOutcome(iinstOrig.addr, iinstOrig.size, source.length)
    ensures ret != InvalidInput ==>
              var n := Inside(iinstOrig.addr, iinstOrig.size, source.length);
              var r := Resolve(source.Contents(), iinstOrig.addr, n, iinstOrig.position, old(stream.adds), src);
              stream.Contents() == Delta(r.adds, old(stream.inst) + r.inst)
    ensures ret == InvalidInput ==> stream.Contents() == old(stream.Contents())
    ensures stream.length == old(stream.length) && stream.wininfo == old(stream.wininfo)
    decreases iinstOrig.addr + iinstOrig.size, iinstOrig.size, 2
  {
    hide Resolve, LastStart, ValidInst, Cover;
    var iinst := iinstOrig;
    var sinstNum: nat;
    ret, sinstNum := FindPosition(source, iinst.addr);
    if ret != Ok {
      return;
    }
    ghost var s := source.Contents();
    ghost var inside := Inside(iinst.addr, iinst.size, source.length);
    ghost var whole := Resolve(s, iinst.addr, inside, iinst.position, stream.adds, src);
    while iinst.size > 0
      invariant source.Contents() == s && stream.length == old(stream.length) && stream.wininfo == old(stream.wininfo)
      invariant iinst.kind == Copy && iinst.mode == InSource && iinst.size <= iinstOrig.size
      invariant iinst.addr + iinst.size == iinstOrig.addr + iinstOrig.size && iinst.addr <= source.length
      invariant iinst.size > 0 ==> At(s.inst, iinst.addr, sinstNum)
      invariant var n := Inside(iinst.addr, iinst.size, source.length);
                var rest := Resolve(s, iinst.addr, n, iinst.position, stream.adds, src);
                whole.adds == rest.adds && old(stream.inst) + whole.inst == stream.inst + rest.inst
      decreases iinst.size
    {
      if sinstNum >= |source.inst| {
        ret := AssertionFailed;
        break;
      }
      iinst, sinstNum := MergeRound(stream, source, iinst, sinstNum, src);
    }
    ResolveNothing(s, iinst.addr, iinst.position, stream.adds, src);
  }

  lemma ResolveNothing(s: Delta, addr: nat, pos: nat, adds: seq<byte>, src: nat)
    requires WellFormed(s, src) && addr <= End(s.inst)
    ensures Resolve(s, addr, 0, pos, adds, src) == Delta(adds, [])
  {
  }

  /** One instruction of the input. */
  method MergeInst(stream: WholeState, source: WholeState, input: WholeState, iinst: Winst, ghost src: nat)
    returns (ret: Status)
    requires stream != source && stream != input && stream.length == iinst.position
    requires WellFormed(source.Contents(), src) && source.length == End(source.inst)
    requires MergeableInst(iinst, |input.adds|)
    modifies stream
    ensures ret == Outcome(iinst, source.length)
    ensures ret == Ok ==>
              && ValidInst(iinst, |input.adds|, source.length)
              && stream.Contents() == MergeOne(source.Contents(), input.Contents(), iinst, old(stream.Contents()), src)
    ensures stream.length == old(stream.length) + iinst.size && stream.wininfo == old(stream.wininfo)
  {
    ret := Ok;
    if iinst.kind == Run {
      MergeRun(stream, input, iinst);
    } else if iinst.kind == Add {
      MergeAdd(stream, input, iinst);
    } else {
      if iinst.mode == InTarget {
        MergeTargetCopy(stream, iinst);
      } else if iinst.mode == InTargetWindow {
        ret := InvalidInput;
      } else {
        ret := MergeSourceCopy(stream, source, iinst, src);
      }
      // The copy routines leave the length alone because the source copy is recursive.
      stream.length := stream.length + iinst.size;
    }
  }

  /** Instruction `k` is the first that is not merged, and why. */
  ghost predicate FirstTrouble(inst: seq<Winst>, mid: nat, k: nat, ret: Status) {
    && k < |inst| && ret != Ok && Outcome(inst[k], mid) == ret
    && forall j :: 0 <= j < k ==> Outcome(inst[j], mid) == Ok
  }

  /** Applies `input` to `source` and leaves the composed delta in `stream`. */
  method MergeInputs(stream: WholeState, source: WholeState, input: WholeState, ghost src: nat)
    returns (ret: Status)
    requires stream != source && stream != input
    requires stream.Contents() == Delta([], []) && stream.wininfo == [] && stream.length == 0
    requires WellFormed(source.Contents(), src) && source.length == End(source.inst)
    requires Mergeable(input.Contents())
    modifies stream
    ensures ret == Ok <==> WellFormed(input.Contents(), source.length)
    ensures ret != Ok ==> exists k :: FirstTrouble(input.inst, source.length, k, ret)
    ensures ret == Ok ==>
              && WellFormed(input.Contents(), source.length)
              && stream.Contents() == Merged(source.Contents(), input.Contents(), src)
              && stream.length == End(input.inst)
              && stream.wininfo == input.wininfo
  {
    ret := Ok;
    for i := 0 to |input.wininfo|
      invariant stream.Contents() == Delta([], []) && stream.length == 0
      invariant stream.wininfo == input.wininfo[..i]
    {
      stream.wininfo := stream.wininfo + [input.wininfo[i]];
    }

    hide Merged, MergeOne, ValidInst, MergeableInst, Outcome;
    ghost var s := source.Contents();
    var inputI := 0;
    while ret == Ok && inputI < |input.inst|
      invariant inputI <= |input.inst| && stream.wininfo == input.wininfo
      invariant ret != Ok ==> inputI > 0 && FirstTrouble(input.inst, source.length, inputI - 1, ret)
      invariant ret == Ok ==>
        && (forall k :: 0 <= k < inputI ==> Outcome(input.inst[k], source.length) == Ok)
        && (forall k :: 0 <= k < inputI ==> ValidInst(input.inst[k], |input.adds|, source.length))
        && stream.Contents() == MergeFirst(s, input.Contents(), inputI, src)
        && stream.length == End(input.inst[..inputI])
    {
      var iinst := input.inst[inputI];
      assert MergeableInst(iinst, |input.adds|);
      assert inputI > 0 ==> input.inst[..inputI][inputI - 1] == input.inst[inputI - 1];
      assert input.inst[..inputI + 1][inputI] == iinst;
      ret := MergeInst(stream, source, input, iinst, src);
      inputI := inputI + 1;
    }
    assert ret == Ok ==> input.inst[..|input.inst|] == input.inst;
    if ret != Ok { TroubleIsInvalid(input.Contents(), source.length, inputI - 1, ret); }
  }

  lemma TroubleIsInvalid(input: Delta, mid: nat, k: nat, ret: Status)
    requires Mergeable(input) && FirstTrouble(input.inst, mid, k, ret)
    ensures !WellFormed(input, mid)
  {
    hide ValidInst;
    assert MergeableInst(input.inst[k], |input.adds|);
    MergedIffValid(input.inst[k], |input.adds|, mid);
  }
}
