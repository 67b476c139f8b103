/** Decoding a window (`xdelta3-decode.h`), and the whole-file instruction list that merging starts from. */
module Flatten {
  import opened Common
  import opened Kraft
  import opened BitIO
  import opened Vcdiff
  import Adler
  import Merge

  // ---------------------------------------------------------------- windows

  /** A half-instruction with its size and its decoded address in the window's address space. */
  datatype Half = Half(kind: Kind, size: nat, addr: nat)

  /**
    * A window: pairs of half-instructions, literal bytes, the part of the source (or, with `inTarget`, of the target)
    * that addresses below `cpylen` name, the length it claims, and its checksum if it has one.
    */
  datatype Window = Window(insts: seq<(Half, Half)>, data: seq<byte>, inTarget: bool, cpylen: nat, cpyoff: nat,
                           tgtlen: nat, adler32: Option<nat>)

  /** What has been put out, and how many literal bytes that took. */
  datatype Emitted = Emitted(out: seq<byte>, used: nat)

  /** The checks of `xd3_decode_parse_halfinst`, at the window position `here`. */
  predicate ParseOk(h: Half, w: Window, here: nat) {
    && (h.kind == Copy ==> h.addr < here && !(h.addr < w.cpylen && h.addr + h.size > w.cpylen))
    && here + h.size <= w.cpylen + w.tgtlen
  }

  function Repeat(b: byte, n: nat): (r: seq<byte>)
    ensures |r| == n
  {
    seq(n, _ => b)
  }

  /** The effect of one half-instruction, `None` when it is refused. */
  function EmitHalf(h: Half, w: Window, src: seq<byte>, e: Emitted): (r: Option<Emitted>)
    ensures r.Some? ==> |r.value.out| == |e.out| + if h.kind == Noop then 0 else h.size
  {
    if h.kind == Noop then Some(e)
    else if !ParseOk(h, w, w.cpylen + |e.out|) then None
    else if h.kind == Run then
      if e.used < |w.data| then Some(Emitted(e.out + Repeat(w.data[e.used], h.size), e.used + 1)) else None
    else if h.kind == Add then
      if e.used + h.size <= |w.data| then
        Some(Emitted(e.out + w.data[e.used..e.used + h.size], e.used + h.size))
      else None
    else if h.addr >= w.cpylen then
      Some(Emitted(CopyWithin(e.out, h.addr - w.cpylen, h.size), e.used))
    else if w.inTarget then None
    else if h.size == 0 then Some(e)
    else
      var at := w.cpyoff + h.addr;
      if at + h.size <= |src| then Some(Emitted(e.out + src[at..at + h.size], e.used)) else None
  }

  function EmitPair(p: (Half, Half), w: Window, src: seq<byte>, e: Emitted): Option<Emitted> {
    match EmitHalf(p.0, w, src, e)
    case None => None
    case Some(e1) => EmitHalf(p.1, w, src, e1)
  }

  function EmitPairs(w: Window, src: seq<byte>, n: nat): Option<Emitted>
    requires n <= |w.insts|
  {
    if n == 0 then Some(Emitted([], 0)) else
      match EmitPairs(w, src, n - 1)
      case None => None
      case Some(e) => EmitPair(w.insts[n - 1], w, src, e)
  }

  /** The checks at the end of `xd3_decode_emit`. */
  predicate Complete(w: Window, e: Emitted) {
    && |e.out| == w.tgtlen && e.used == |w.data|
    && (w.adler32.Some? ==> w.adler32.value == ChecksumOf(e.out))
  }

  function ChecksumOf(out: seq<byte>): nat {
    if out == [] then 1 else Adler.Pack(Adler.After(Adler.Sums(1, 0), out))
  }

  /** What the decoder makes of a window, if it accepts it. */
  function EmitWindow(w: Window, src: seq<byte>): Option<seq<byte>> {
    match EmitPairs(w, src, |w.insts|)
    case None => None
    case Some(e) => if Complete(w, e) then Some(e.out) else None
  }

  // ---------------------------------------------------------------- the flat list

  /** The instructions so far with their literal bytes, and the length of the target that they make. */
  datatype Whole = Whole(adds: seq<byte>, inst: seq<Winst>, length: nat)

  /** The list after a half-instruction, and how many of the window's literal bytes are used up. */
  datatype Appended = Appended(whole: Whole, used: nat)

  /** `xd3_whole_append_inst`; `None` where it reads past the window's literal bytes, which it does not check. */
  function AppendHalf(h: Half, w: Window, winstart: nat, a: Appended): Option<Appended> {
    var d := a.whole;
    match h.kind
    case Noop => Some(a)
    case Run =>
      if a.used < |w.data| then
        Some(Appended(Whole(d.adds + [w.data[a.used]], d.inst + [Winst(Run, InTarget, h.size, |d.adds|, d.length)],
                            d.length + h.size),
                      a.used + 1))
      else None
    case Add =>
      if a.used + h.size <= |w.data| then
        Some(Appended(Whole(d.adds + w.data[a.used..a.used + h.size],
                            d.inst + [Winst(Add, InTarget, h.size, |d.adds|, d.length)], d.length + h.size),
                      a.used + h.size))
      else None
    case Copy =>
      var mode := if h.addr < w.cpylen then (if w.inTarget then InTargetWindow else InSource) else InTarget;
      var addr := if h.addr < w.cpylen then w.cpyoff + h.addr else winstart + (h.addr - w.cpylen);
      Some(Appended(Whole(d.adds, d.inst + [Winst(Copy, mode, h.size, addr, d.length)], d.length + h.size), a.used))
  }

  /** Running a flat list; an instruction of size 0 does nothing. */
  function RunList(inst: seq<Winst>, adds: seq<byte>, src: seq<byte>): Option<seq<byte>> {
    if inst == [] then Some([]) else
      match RunList(inst[..|inst| - 1], adds, src)
      case None => None
      case Some(out) => RunOne(inst[|inst| - 1], adds, src, out)
  }

  function RunOne(w: Winst, adds: seq<byte>, src: seq<byte>, out: seq<byte>): (r: Option<seq<byte>>)
    ensures r.Some? ==> w.position == |out| && |r.value| == |out| + w.size
  {
    if w.position != |out| then None
    else if w.size == 0 then Some(out)
    else if ValidInst(w, |adds|, |src|) then Some(Execute(w, adds, src, out))
    else None
  }

  lemma RunListSnoc(inst: seq<Winst>, w: Winst, adds: seq<byte>, src: seq<byte>)
    requires RunList(inst, adds, src).Some?
    ensures RunList(inst + [w], adds, src) == RunOne(w, adds, src, RunList(inst, adds, src).value)
  {
    assert (inst + [w])[..|inst|] == inst;
  }

  lemma RunOneMoreAdds(w: Winst, adds: seq<byte>, more: seq<byte>, src: seq<byte>, out: seq<byte>)
    requires RunOne(w, adds, src, out).Some?
    ensures RunOne(w, adds + more, src, out) == RunOne(w, adds, src, out)
  {
    if w.size > 0 && w.kind == Add {
      assert (adds + more)[w.addr..w.addr + w.size] == adds[w.addr..w.addr + w.size];
    }
  }

  /** Literal bytes appended later do not matter. */
  lemma {:induction false} RunListMoreAdds(inst: seq<Winst>, adds: seq<byte>, more: seq<byte>, src: seq<byte>)
    requires RunList(inst, adds, src).Some?
    ensures RunList(inst, adds + more, src) == RunList(inst, adds, src)
  {
    hide RunOne;
    if inst != [] {
      var n := |inst| - 1;
      RunListMoreAdds(inst[..n], adds, more, src);
      RunOneMoreAdds(inst[n], adds, more, src, RunList(inst[..n], adds, src).value);
    }
  }

  /** With no instruction of size 0, a list that runs is well formed, and applying it is running it. */
  lemma {:induction false} RunListIsApply(d: Delta, n: nat, src: seq<byte>)
    requires n <= |d.inst| && RunList(d.inst[..n], d.adds, src).Some?
    requires forall k :: 0 <= k < |d.inst| ==> d.inst[k].size > 0
    ensures WellFormed(Delta(d.adds, d.inst[..n]), |src|)
    ensures Apply(Delta(d.adds, d.inst[..n]), src) == RunList(d.inst[..n], d.adds, src).value
  {
    if n > 0 {
      assert d.inst[..n][..n - 1] == d.inst[..n - 1];
      RunListIsApply(d, n - 1, src);
      var before := Delta(d.adds, d.inst[..n - 1]);
      hide RunList, Execute;
      OneMoreInst(before, d.inst[n - 1], src);
      assert d.inst[..n] == d.inst[..n - 1] + [d.inst[n - 1]];
    } else {
      assert d.inst[..0] == [];
    }
  }

  /** A list grows by an instruction that starts where it ends. */
  lemma OneMoreInst(d: Delta, w: Winst, src: seq<byte>)
    requires WellFormed(d, |src|) && ValidInst(w, |d.adds|, |src|) && w.position == |Apply(d, src)|
    ensures WellFormed(Delta(d.adds, d.inst + [w]), |src|)
    ensures Apply(Delta(d.adds, d.inst + [w]), src) == Execute(w, d.adds, src, Apply(d, src))
  {
    var d' := Delta(d.adds, d.inst + [w]);
    assert forall i :: 0 <= i < |d.inst| ==> d'.inst[i] == d.inst[i];
    assert d.inst[..|d.inst|] == d.inst;
    hide Execute;
    ProducePrefix(d, w, |d.inst|, src);
  }

  lemma {:induction false} ProducePrefix(d: Delta, w: Winst, n: nat, src: seq<byte>)
    requires WellFormed(d, |src|) && WellFormed(Delta(d.adds, d.inst + [w]), |src|) && n <= |d.inst|
    ensures Produce(Delta(d.adds, d.inst + [w]), n, src) == Produce(d, n, src)
  {
    hide Execute;
    if n > 0 {
      ProducePrefix(d, w, n - 1, src);
    }
  }

  // ---------------------------------------------------------------- one half-instruction, both ways

  /** A copy inside the target so far does not notice what stands before it. */
  lemma {:induction false} CopyWithinAfter(done: seq<byte>, out: seq<byte>, a: nat, n: nat)
    requires a < |out|
    ensures CopyWithin(done + out, |done| + a, n) == done + CopyWithin(out, a, n)
    decreases n
  {
    if n > 0 {
      assert (done + out)[|done| + a] == out[a];
      assert done + out + [out[a]] == done + (out + [out[a]]);
      CopyWithinAfter(done, out + [out[a]], a + 1, n - 1);
    }
  }

  /** The list so far makes what was emitted before the window and in it. */
  ghost predicate InStep(a: Appended, done: seq<byte>, e: Emitted, src: seq<byte>) {
    && RunList(a.whole.inst, a.whole.adds, src) == Some(done + e.out)
    && a.whole.length == |done| + |e.out| && a.used == e.used
  }

  ghost predicate StaysInStep(r: Option<Appended>, done: seq<byte>, e: Emitted, src: seq<byte>) {
    r.Some? && InStep(r.value, done, e, src)
  }

  lemma InStepOne(d: Whole, more: seq<byte>, w: Winst, done: seq<byte>, e: Emitted, e': Emitted, src: seq<byte>)
    requires RunList(d.inst, d.adds, src) == Some(done + e.out) && d.length == |done| + |e.out|
    requires RunOne(w, d.adds + more, src, done + e.out) == Some(done + e'.out)
    requires |e'.out| == |e.out| + w.size
    ensures InStep(Appended(Whole(d.adds + more, d.inst + [w], d.length + w.size), e'.used), done, e', src)
  {
    hide RunList, RunOne;
    RunListMoreAdds(d.inst, d.adds, more, src);
    RunListSnoc(d.inst, w, d.adds + more, src);
  }

  lemma RunOneRun(i: Winst, adds: seq<byte>, b: byte, src: seq<byte>, out: seq<byte>)
    requires i.kind == Run && i.addr == |adds| && i.position == |out|
    ensures RunOne(i, adds + [b], src, out) == Some(out + Repeat(b, i.size))
  {
    var all := adds + [b];
    assert all[i.addr] == b;
    assert seq(i.size, _ => all[i.addr]) == Repeat(b, i.size);
    if i.size == 0 { assert out + Repeat(b, 0) == out; }
  }

  lemma RunOneAdd(i: Winst, adds: seq<byte>, more: seq<byte>, src: seq<byte>, out: seq<byte>)
    requires i.kind == Add && i.addr == |adds| && i.size == |more| && i.position == |out|
    ensures RunOne(i, adds + more, src, out) == Some(out + more)
  {
    assert (adds + more)[|adds|..|adds| + |more|] == more;
    if more == [] { assert out + [] == out; }
  }

  lemma RunInStep(h: Half, w: Window, src: seq<byte>, a: Appended, done: seq<byte>, e: Emitted)
    requires h.kind == Run && InStep(a, done, e, src) && EmitHalf(h, w, src, e).Some?
    ensures StaysInStep(AppendHalf(h, w, |done|, a), done, EmitHalf(h, w, src, e).value, src)
  {
    var e' := EmitHalf(h, w, src, e).value;
    var d := a.whole;
    var b := w.data[a.used];
    var i := Winst(Run, InTarget, h.size, |d.adds|, d.length);
    RunOneRun(i, d.adds, b, src, done + e.out);
    assert done + e.out + Repeat(b, h.size) == done + e'.out;
    hide RunList, RunOne;
    InStepOne(d, [b], i, done, e, e', src);
  }

  lemma AddInStep(h: Half, w: Window, src: seq<byte>, a: Appended, done: seq<byte>, e: Emitted)
    requires h.kind == Add && InStep(a, done, e, src) && EmitHalf(h, w, src, e).Some?
    ensures StaysInStep(AppendHalf(h, w, |done|, a), done, EmitHalf(h, w, src, e).value, src)
  {
    var e' := EmitHalf(h, w, src, e).value;
    var d := a.whole;
    var more := w.data[a.used..a.used + h.size];
    var i := Winst(Add, InTarget, h.size, |d.adds|, d.length);
    RunOneAdd(i, d.adds, more, src, done + e.out);
    hide RunList, RunOne;
    assert done + e.out + more == done + e'.out;
    InStepOne(d, more, i, done, e, e', src);
  }

  lemma CopyInStep(h: Half, w: Window, src: seq<byte>, a: Appended, done: seq<byte>, e: Emitted)
    requires h.kind == Copy && InStep(a, done, e, src) && EmitHalf(h, w, src, e).Some?
    ensures StaysInStep(AppendHalf(h, w, |done|, a), done, EmitHalf(h, w, src, e).value, src)
  {
    var e' := EmitHalf(h, w, src, e).value;
    var d := a.whole;
    CopyRuns(h, w, src, a, done, e);
    hide RunList, RunOne;
    assert d.adds + [] == d.adds;
    InStepOne(d, [], AppendHalf(h, w, |done|, a).value.whole.inst[|d.inst|], done, e, e', src);
  }

  lemma CopyRuns(h: Half, w: Window, src: seq<byte>, a: Appended, done: seq<byte>, e: Emitted)
    requires h.kind == Copy && a.whole.length == |done| + |e.out| && EmitHalf(h, w, src, e).Some?
    ensures RunOne(AppendHalf(h, w, |done|, a).value.whole.inst[|a.whole.inst|], a.whole.adds, src, done + e.out)
         == Some(done + EmitHalf(h, w, src, e).value.out)
  {
    if h.size == 0 {
      EmptyCopy(h, w, src, e);
    } else if h.addr >= w.cpylen {
      CopyWithinAfter(done, e.out, h.addr - w.cpylen, h.size);
    } else {
      var at := w.cpyoff + h.addr;
      assert done + e.out + src[at..at + h.size] == done + EmitHalf(h, w, src, e).value.out;
    }
  }

  lemma EmptyCopy(h: Half, w: Window, src: seq<byte>, e: Emitted)
    requires h.kind == Copy && h.size == 0 && EmitHalf(h, w, src, e).Some?
    ensures EmitHalf(h, w, src, e).value == e
  {
  }

  /** What the decoder accepts the list can take, and it makes the same bytes. */
  lemma HalfInStep(h: Half, w: Window, src: seq<byte>, a: Appended, done: seq<byte>, e: Emitted)
    requires InStep(a, done, e, src) && EmitHalf(h, w, src, e).Some?
    ensures StaysInStep(AppendHalf(h, w, |done|, a), done, EmitHalf(h, w, src, e).value, src)
  {
    hide InStep;
    match h.kind
    case Noop =>
    case Run => RunInStep(h, w, src, a, done, e);
    case Add => AddInStep(h, w, src, a, done, e);
    case Copy => CopyInStep(h, w, src, a, done, e);
  }

  // ---------------------------------------------------------------- windows and files

  function AppendPair(p: (Half, Half), w: Window, winstart: nat, a: Appended): Option<Appended> {
    match AppendHalf(p.0, w, winstart, a)
    case None => None
    case Some(a1) => AppendHalf(p.1, w, winstart, a1)
  }

  function AppendPairs(w: Window, winstart: nat, d: Whole, n: nat): Option<Appended>
    requires n <= |w.insts|
  {
    if n == 0 then Some(Appended(d, 0)) else
      match AppendPairs(w, winstart, d, n - 1)
      case None => None
      case Some(a) => AppendPair(w.insts[n - 1], w, winstart, a)
  }

  lemma PairInStep(p: (Half, Half), w: Window, src: seq<byte>, a: Appended, done: seq<byte>, e: Emitted)
    requires InStep(a, done, e, src) && EmitPair(p, w, src, e).Some?
    ensures StaysInStep(AppendPair(p, w, |done|, a), done, EmitPair(p, w, src, e).value, src)
  {
    hide InStep, EmitHalf, AppendHalf;
    HalfInStep(p.0, w, src, a, done, e);
    HalfInStep(p.1, w, src, AppendHalf(p.0, w, |done|, a).value, done, EmitHalf(p.0, w, src, e).value);
  }

  lemma {:induction false} PairsInStep(w: Window, src: seq<byte>, d: Whole, done: seq<byte>, n: nat)
    requires n <= |w.insts| && EmitPairs(w, src, n).Some?
    requires RunList(d.inst, d.adds, src) == Some(done) && d.length == |done|
    ensures StaysInStep(AppendPairs(w, |done|, d, n), done, EmitPairs(w, src, n).value, src)
  {
    hide InStep, EmitPair, AppendPair;
    if n == 0 {
      StartInStep(d, done, src);
    } else {
      PairsInStep(w, src, d, done, n - 1);
      PairInStep(w.insts[n - 1], w, src, AppendPairs(w, |done|, d, n - 1).value, done, EmitPairs(w, src, n - 1).value);
    }
  }

  lemma StartInStep(d: Whole, done: seq<byte>, src: seq<byte>)
    requires RunList(d.inst, d.adds, src) == Some(done) && d.length == |done|
    ensures InStep(Appended(d, 0), done, Emitted([], 0), src)
  {
    assert done + [] == done;
  }

  /** The target so far, window after window; each sees the same source. */
  function EmitAll(ws: seq<Window>, src: seq<byte>): Option<seq<byte>> {
    if ws == [] then Some([]) else
      match EmitAll(ws[..|ws| - 1], src)
      case None => None
      case Some(done) =>
        match EmitWindow(ws[|ws| - 1], src)
        case None => None
        case Some(out) => Some(done + out)
  }

  /** Where a window starts: after the lengths that the windows before it claim. */
  function WindowStart(ws: seq<Window>): nat {
    if ws == [] then 0 else WindowStart(ws[..|ws| - 1]) + ws[|ws| - 1].tgtlen
  }

  /** The whole-file list, window after window. */
  function AppendAll(ws: seq<Window>): Option<Whole> {
    if ws == [] then Some(Whole([], [], 0)) else
      var n := |ws| - 1;
      match AppendAll(ws[..n])
      case None => None
      case Some(d) =>
        match AppendPairs(ws[n], WindowStart(ws[..n]), d, |ws[n].insts|)
        case None => None
        case Some(a) => Some(a.whole)
  }

  /** Flattening preserves meaning: the list made from accepted windows runs to what the windows decode to. */
  lemma {:induction false} FlatteningPreserves(ws: seq<Window>, src: seq<byte>)
    requires EmitAll(ws, src).Some?
    ensures AppendAll(ws).Some? && RunList(AppendAll(ws).value.inst, AppendAll(ws).value.adds, src) == EmitAll(ws, src)
    ensures AppendAll(ws).value.length == |EmitAll(ws, src).value| == WindowStart(ws)
  {
    hide EmitPairs, AppendPairs;
    if ws == [] {
      NothingRuns(src);
    } else {
      var n := |ws| - 1;
      FlatteningPreserves(ws[..n], src);
      hide EmitAll, AppendAll, RunList;
      WindowFlattens(ws, src);
    }
  }

  lemma NothingRuns(src: seq<byte>)
    ensures RunList([], [], src) == Some([])
  {
  }

  lemma WindowFlattens(ws: seq<Window>, src: seq<byte>)
    requires ws != [] && EmitAll(ws, src).Some? && EmitAll(ws[..|ws| - 1], src).Some?
    requires AppendAll(ws[..|ws| - 1]).Some?
    requires var d := AppendAll(ws[..|ws| - 1]).value;
             && RunList(d.inst, d.adds, src) == EmitAll(ws[..|ws| - 1], src)
             && d.length == |EmitAll(ws[..|ws| - 1], src).value| == WindowStart(ws[..|ws| - 1])
    ensures AppendAll(ws).Some? && RunList(AppendAll(ws).value.inst, AppendAll(ws).value.adds, src) == EmitAll(ws, src)
    ensures AppendAll(ws).value.length == |EmitAll(ws, src).value| == WindowStart(ws)
  {
    hide EmitPairs, AppendPairs, RunList, ChecksumOf;
    var n := |ws| - 1;
    var done := EmitAll(ws[..n], src).value;
    PairsInStep(ws[n], src, AppendAll(ws[..n]).value, done, |ws[n].insts|);
  }

  ghost predicate Positive(d: Whole) {
    forall k :: 0 <= k < |d.inst| ==> d.inst[k].size > 0
  }

  /** So, without empty instructions, the flat list is a well-formed delta with the decoder's meaning. */
  lemma FlatListMeans(ws: seq<Window>, src: seq<byte>)
    requires EmitAll(ws, src).Some? && AppendAll(ws).Some? && Positive(AppendAll(ws).value)
    ensures var d := Delta(AppendAll(ws).value.adds, AppendAll(ws).value.inst);
            && WellFormed(d, |src|) && Apply(d, src) == EmitAll(ws, src).value
            && End(d.inst) == |EmitAll(ws, src).value|
  {
    FlatteningPreserves(ws, src);
    var w := AppendAll(ws).value;
    var d := Delta(w.adds, w.inst);
    assert d.inst[..|d.inst|] == d.inst;
    RunListIsApply(d, |d.inst|, src);
  }

  /**
    * Merging two delta files: where decoding the first from A gives B and decoding the second from B gives C, the
    * merge of their flat lists makes C from A.
    */
  lemma MergedFilesMean(first: seq<Window>, second: seq<Window>, A: seq<byte>, B: seq<byte>, C: seq<byte>)
    requires EmitAll(first, A) == Some(B) && EmitAll(second, B) == Some(C)
    requires AppendAll(first).Some? && Positive(AppendAll(first).value)
    requires AppendAll(second).Some? && Positive(AppendAll(second).value)
    ensures var s := Delta(AppendAll(first).value.adds, AppendAll(first).value.inst);
            var i := Delta(AppendAll(second).value.adds, AppendAll(second).value.inst);
            && WellFormed(s, |A|) && WellFormed(i, End(s.inst)) && WellFormed(Merge.Merged(s, i, |A|), |A|)
            && Apply(Merge.Merged(s, i, |A|), A) == C
  {
    hide EmitAll, AppendAll;
    FlatListMeans(first, A);
    FlatListMeans(second, B);
    var s := Delta(AppendAll(first).value.adds, AppendAll(first).value.inst);
    var i := Delta(AppendAll(second).value.adds, AppendAll(second).value.inst);
    Merge.MergePreservesMeaning(s, i, A);
  }

  // ---------------------------------------------------------------- blocks of the source

  /** `xd3_blksize_div`: block number and offset, for blocks of 2 to the power `shift`. */
  method BlksizeDiv(offset: nat, shift: nat) returns (blkno: nat, blkoff: nat)
    ensures Shl(blkno, shift) + blkoff == offset && blkoff < Pow2(shift)
  {
    LowAndHigh(offset, shift);
    LowIs(offset, shift);
    blkno := High(offset, shift);
    blkoff := Low(offset, shift);
  }

  /** `xd3_blksize_add`. */
  method BlksizeAdd(blkno: nat, blkoff: nat, shift: nat, add: nat) returns (blkno': nat, blkoff': nat)
    ensures Shl(blkno', shift) + blkoff' == Shl(blkno, shift) + blkoff + add && blkoff' < Pow2(shift)
  {
    hide Shl, High, Low, Pow2, LowBits;
    blkno', blkoff' := blkno, blkoff + add;
    LowAndHigh(blkoff', shift);
    LowIs(blkoff', shift);
    ShlZero(shift);
    var blkdiff := High(blkoff', shift);
    if blkdiff > 0 {
      ShlAdd(blkno, blkdiff, shift);
      blkno' := blkno' + blkdiff;
      blkoff' := Low(blkoff', shift);
    }
  }

  /** What the source callback gives for a block: all of it, or what there is. */
  function Block(src: seq<byte>, blkno: nat, shift: nat): seq<byte> {
    var from := Min(Shl(blkno, shift), |src|);
    src[from..Min(from + Pow2(shift), |src|)]
  }

  lemma SliceOfSlice(s: seq<byte>, a: nat, b: nat, c: nat, d: nat)
    requires a <= b <= |s| && c <= d <= b - a
    ensures s[a..b][c..d] == s[a + c..a + d]
  {
    forall i | 0 <= i < d - c ensures s[a..b][c..d][i] == s[a + c..a + d][i] {
    }
  }

  /** The block is too short: so is the source. */
  predicate TooShort(block: seq<byte>, shift: nat, blkoff: nat, take: nat) {
    |block| != Pow2(shift) && blkoff + take > |block|
  }

  lemma BlockIsTooShort(src: seq<byte>, blkno: nat, shift: nat, blkoff: nat, take: nat)
    requires TooShort(Block(src, blkno, shift), shift, blkoff, take) && take > 0
    ensures Shl(blkno, shift) + blkoff + take > |src|
  {
    hide Shl, Pow2;
  }

  lemma BlockHolds(src: seq<byte>, blkno: nat, shift: nat, blkoff: nat, take: nat)
    requires !TooShort(Block(src, blkno, shift), shift, blkoff, take) && take > 0
    requires blkoff < Pow2(shift) && blkoff + take <= Pow2(shift)
    ensures Shl(blkno, shift) + blkoff + take <= |src| && blkoff + take <= |Block(src, blkno, shift)|
    ensures Block(src, blkno, shift)[blkoff..blkoff + take]
         == src[Shl(blkno, shift) + blkoff..Shl(blkno, shift) + blkoff + take]
  {
    hide Shl, Pow2;
    var from := Shl(blkno, shift);
    SliceOfSlice(src, from, Min(from + Pow2(shift), |src|), blkoff, blkoff + take);
  }

  lemma BlockEnds(src: seq<byte>, blkno: nat, shift: nat, blkoff: nat, take: nat)
    requires !TooShort(Block(src, blkno, shift), shift, blkoff, take) && take > 0
    requires blkoff < Pow2(shift) && blkoff + take > Pow2(shift)
    ensures |Block(src, blkno, shift)| == Pow2(shift)
    ensures !TooShort(Block(src, blkno, shift), shift, blkoff, Pow2(shift) - blkoff)
  {
    hide Shl;
  }

  // ---------------------------------------------------------------- the decoder

  lemma {:induction false} CopyWithinSnoc(out: seq<byte>, a: nat, n: nat)
    requires a < |out|
    ensures CopyWithin(out, a, n + 1) == CopyWithin(out, a, n) + [CopyWithin(out, a, n)[a + n]]
    decreases n
  {
    if n > 0 {
      CopyWithinSnoc(out + [out[a]], a + 1, n - 1);
    }
  }

  class Decoder {
    const nextOut: array<byte>
    var availOut: nat
    var dataPos: nat
    var decPosition: nat

    constructor (w: Window)
      ensures fresh(nextOut) && nextOut.Length == w.tgtlen && At(w, Emitted([], 0)) && decPosition == w.cpylen
    {
      nextOut := new byte[w.tgtlen];
      availOut, dataPos, decPosition := 0, 0, w.cpylen;
    }

    ghost predicate At(w: Window, e: Emitted)
      reads this`availOut, this`dataPos, nextOut
    {
      nextOut.Length == w.tgtlen && availOut == |e.out| <= nextOut.Length && nextOut[..availOut] == e.out && dataPos == e.used
    }

    /** `xd3_decode_parse_halfinst`. */
    method ParseHalf(h: Half, w: Window) returns (ok: bool)
      modifies this`decPosition
      ensures ok <==> ParseOk(h, w, old(decPosition))
      ensures ok ==> decPosition == old(decPosition) + h.size
    {
      if h.kind == Copy {
        if h.addr >= decPosition {
          return false;
        }
        if h.addr < w.cpylen && h.addr + h.size > w.cpylen {
          return false;
        }
      }
      if decPosition + h.size > w.cpylen + w.tgtlen {
        return false;
      }
      decPosition := decPosition + h.size;
      ok := true;
    }

    /** Writes bytes after what has been put out. */
    method PutOut(bytes: seq<byte>, w: Window, ghost e: Emitted)
      requires At(w, e) && availOut + |bytes| <= nextOut.Length
      modifies this`availOut, nextOut
      ensures At(w, Emitted(e.out + bytes, e.used)) && availOut == old(availOut) + |bytes|
    {
      WriteBytes(nextOut, availOut, bytes);
      assert nextOut[..availOut + |bytes|] == nextOut[..availOut] + nextOut[availOut..availOut + |bytes|];
      availOut := availOut + |bytes|;
    }

    lemma AtMeans(w: Window, e: Emitted)
      requires At(w, e)
      ensures availOut == |e.out| && nextOut.Length == w.tgtlen && dataPos == e.used
    {
    }

    /** A copy from the target so far, byte by byte, so that it may read what it writes. */
    method CopyTarget(from: nat, take: nat, w: Window, ghost e: Emitted)
      requires At(w, e) && from < availOut && availOut + take <= nextOut.Length
      modifies this`availOut, nextOut
      ensures At(w, Emitted(CopyWithin(e.out, from, take), e.used))
    {
      hide CopyWithin;
      NothingCopied(e.out, from);
      for i := 0 to take
        invariant availOut == |e.out| && dataPos == e.used
        invariant nextOut[..availOut + i] == CopyWithin(e.out, from, i)
      {
        CopyWithinSnoc(e.out, from, i);
        ghost var sofar := nextOut[..availOut + i];
        assert nextOut[from + i] == sofar[from + i];
        nextOut[availOut + i] := nextOut[from + i];
        assert nextOut[..availOut + (i + 1)] == sofar + [nextOut[availOut + i]];
      }
      availOut := availOut + take;
    }

    lemma NothingCopied(out: seq<byte>, from: nat)
      requires from < |out|
      ensures CopyWithin(out, from, 0) == out
    {
    }

    /** What one block supplies of a copy: all of it, or up to the end of the block. */
    method CopyBlock(cpyoffBlocks: nat, cpyoffBlkoff: nat, addr: nat, size: nat, w: Window, src: seq<byte>, shift: nat,
                     ghost e: Emitted)
      returns (ok: bool, take: nat)
      requires At(w, e) && availOut + size <= nextOut.Length && size > 0
      requires Shl(cpyoffBlocks, shift) + cpyoffBlkoff == w.cpyoff
      modifies this`availOut, nextOut
      ensures !ok ==> w.cpyoff + addr + size > |src|
      ensures ok ==> 0 < take <= size && w.cpyoff + addr + take <= |src| && availOut == old(availOut) + take
      ensures ok ==> At(w, Emitted(e.out + src[w.cpyoff + addr..w.cpyoff + addr + take], e.used))
    {
      hide *;
      var block, blkoff := BlksizeAdd(cpyoffBlocks, cpyoffBlkoff, shift, addr);
      var curblk := Block(src, block, shift);
      ok, take := true, size;
      if TooShort(curblk, shift, blkoff, take) {
        BlockIsTooShort(src, block, shift, blkoff, take);
        return false, take;
      }
      if blkoff + take > Pow2(shift) {
        BlockEnds(src, block, shift, blkoff, take);
        take := Pow2(shift) - blkoff;
      }
      BlockHolds(src, block, shift, blkoff, take);
      PutOut(curblk[blkoff..blkoff + take], w, e);
    }

    /** A copy from the source, block by block: together one contiguous copy, and refused just when the source ends. */
    method CopySource(addr0: nat, size0: nat, w: Window, src: seq<byte>, shift: nat, ghost e: Emitted) returns (ok: bool)
      requires At(w, e) && availOut + size0 <= nextOut.Length && size0 > 0
      modifies this`availOut, nextOut
      ensures ok <==> w.cpyoff + addr0 + size0 <= |src|
      ensures ok ==> At(w, Emitted(e.out + src[w.cpyoff + addr0..w.cpyoff + addr0 + size0], e.used))
    {
      hide *;
      ghost var at := w.cpyoff + addr0;
      var cpyoffBlocks, cpyoffBlkoff := BlksizeDiv(w.cpyoff, shift);
      var addr: nat, size: nat := addr0, size0;
      NothingTaken(e.out, src, at);
      AtMeans(w, e);
      while size > 0
        invariant addr - addr0 == size0 - size && addr0 <= addr
        invariant addr > addr0 ==> at + (addr - addr0) <= |src|
        invariant At(w, Emitted(e.out + Taken(src, at, addr - addr0), e.used))
        invariant availOut + size <= nextOut.Length
        decreases size
      {
        var more, take := CopyBlock(cpyoffBlocks, cpyoffBlkoff, addr, size, w, src, shift,
                                    Emitted(e.out + Taken(src, at, addr - addr0), e.used));
        if !more {
          return false;
        }
        Joined(e.out, src, at, addr - addr0, take);
        addr, size := addr + take, size - take;
      }
      TakenAll(src, at, size0);
      ok := true;
    }

    /** `xd3_decode_output_halfinst` on a half-instruction that has been parsed. */
    method OutputHalf(h: Half, w: Window, src: seq<byte>, shift: nat, ghost e: Emitted) returns (ok: bool)
      requires h.kind != Noop && At(w, e) && ParseOk(h, w, w.cpylen + |e.out|)
      modifies this`availOut, this`dataPos, nextOut
      ensures ok <==> EmitHalf(h, w, src, e).Some?
      ensures ok ==> At(w, EmitHalf(h, w, src, e).value)
    {
      hide CopyWithin, Repeat;
      var take := h.size;
      if h.kind == Run {
        if dataPos >= |w.data| {
          return false;
        }
        PutOut(Repeat(w.data[dataPos], take), w, e);
        dataPos := dataPos + 1;
        ok := true;
      } else if h.kind == Add {
        if dataPos + take > |w.data| {
          return false;
        }
        PutOut(w.data[dataPos..dataPos + take], w, e);
        dataPos := dataPos + take;
        ok := true;
      } else if h.addr < w.cpylen {
        if w.inTarget {
          return false;
        }
        ok := true;
        if take > 0 {
          ok := CopySource(h.addr, take, w, src, shift, e);
        }
      } else {
        CopyTarget(h.addr - w.cpylen, take, w, e);
        ok := true;
      }
    }

    /** `xd3_decode_instruction` and its two outputs: both halves are parsed before the first is put out. */
    method Instruction(p: (Half, Half), w: Window, src: seq<byte>, shift: nat, ghost e: Emitted) returns (ok: bool)
      requires At(w, e) && decPosition == w.cpylen + |e.out|
      modifies this`availOut, this`dataPos, this`decPosition, nextOut
      ensures ok <==> EmitPair(p, w, src, e).Some?
      ensures ok ==> At(w, EmitPair(p, w, src, e).value) && decPosition == w.cpylen + |EmitPair(p, w, src, e).value.out|
    {
      hide ParseOk, At;
      HalvesNeed(p, w, src, e);
      ok := true;
      if p.0.kind != Noop {
        ok := ParseHalf(p.0, w);
        if !ok {
          return;
        }
      }
      if p.1.kind != Noop {
        ok := ParseHalf(p.1, w);
        if !ok {
          return;
        }
      }
      hide EmitHalf;
      ghost var e1 := e;
      if p.0.kind != Noop {
        ok := OutputHalf(p.0, w, src, shift, e);
        if !ok {
          return;
        }
        e1 := EmitHalf(p.0, w, src, e).value;
      }
      if p.1.kind != Noop {
        ok := OutputHalf(p.1, w, src, shift, e1);
      }
    }
  }

  /** What acceptance of a pair says about its halves. */
  lemma HalvesNeed(p: (Half, Half), w: Window, src: seq<byte>, e: Emitted)
    ensures p.0.kind == Noop ==> EmitHalf(p.0, w, src, e) == Some(e)
    ensures p.0.kind != Noop && EmitHalf(p.0, w, src, e).Some? ==> ParseOk(p.0, w, w.cpylen + |e.out|)
    ensures EmitHalf(p.0, w, src, e).Some? ==>
              var e1 := EmitHalf(p.0, w, src, e).value;
              && |e1.out| == |e.out| + (if p.0.kind == Noop then 0 else p.0.size)
              && (p.1.kind == Noop ==> EmitHalf(p.1, w, src, e1) == Some(e1))
              && (EmitHalf(p.1, w, src, e1).Some? ==>
                    && (p.1.kind != Noop ==> ParseOk(p.1, w, w.cpylen + |e1.out|))
                    && |EmitHalf(p.1, w, src, e1).value.out| == |e1.out| + if p.1.kind == Noop then 0 else p.1.size)
  {
    hide ParseOk, CopyWithin;
  }

  /** The first `n` bytes of the source from `at` on. */
  function Taken(src: seq<byte>, at: nat, n: nat): seq<byte> {
    if n > 0 && at + n <= |src| then src[at..at + n] else []
  }

  lemma NothingTaken(out: seq<byte>, src: seq<byte>, at: nat)
    ensures out + Taken(src, at, 0) == out
  {
  }

  lemma TakenAll(src: seq<byte>, at: nat, n: nat)
    requires n > 0 && at + n <= |src|
    ensures Taken(src, at, n) == src[at..at + n]
  {
  }

  lemma Joined(out: seq<byte>, src: seq<byte>, at: nat, n: nat, take: nat)
    requires at + n + take <= |src| && take > 0
    ensures out + Taken(src, at, n) + src[at + n..at + n + take] == out + Taken(src, at, n + take)
  {
    assert src[at..at + n] + src[at + n..at + n + take] == src[at..at + (n + take)];
  }

  lemma {:induction false} PairsPrefix(w: Window, src: seq<byte>, m: nat, n: nat)
    requires m <= n <= |w.insts| && EmitPairs(w, src, n).Some?
    ensures EmitPairs(w, src, m).Some?
    decreases n
  {
    hide EmitPair;
    if m < n { PairsPrefix(w, src, m, n - 1); }
  }

  /**
    * `xd3_decode_emit`: decodes a window, and accepts exactly what the specification does. The decoder has a copy of the
    * checksum of its own (xdelta/xdelta3.c:1084-1117), which computes the same sums.
    */
  method DecodeEmit(w: Window, src: seq<byte>, shift: nat) returns (out: Option<seq<byte>>)
    ensures out == EmitWindow(w, src)
  {
    hide EmitPair, EmitPairs;
    var d := new Decoder(w);
    NoPairs(w, src);
    for i := 0 to |w.insts|
      invariant fresh(d) && fresh(d.nextOut) && EmitPairs(w, src, i).Some?
      invariant d.At(w, EmitPairs(w, src, i).value) && d.decPosition == w.cpylen + |EmitPairs(w, src, i).value.out|
    {
      NextPair(w, src, i);
      var ok := d.Instruction(w.insts[i], w, src, shift, EmitPairs(w, src, i).value);
      if !ok {
        if EmitPairs(w, src, |w.insts|).Some? { PairsPrefix(w, src, i + 1, |w.insts|); }
        return None;
      }
    }
    ghost var e := EmitPairs(w, src, |w.insts|).value;
    if d.availOut != w.tgtlen || d.dataPos != |w.data| {
      return None;
    }
    var bytes := d.nextOut[..];
    assert bytes == e.out;
    if w.adler32.Some? {
      var sum := Adler.Adler32(1, bytes);
      Checksum(bytes);
      if sum != w.adler32.value {
        return None;
      }
    }
    out := Some(bytes);
  }

  lemma Checksum(bytes: seq<byte>)
    ensures Adler.Unpack(1) == Adler.Sums(1, 0)
    ensures ChecksumOf(bytes) == if bytes == [] then 1 else Adler.Pack(Adler.After(Adler.Unpack(1), bytes))
  {
  }

  lemma NoPairs(w: Window, src: seq<byte>)
    ensures EmitPairs(w, src, 0) == Some(Emitted([], 0))
  {
  }

  lemma NextPair(w: Window, src: seq<byte>, i: nat)
    requires i < |w.insts| && EmitPairs(w, src, i).Some?
    ensures EmitPairs(w, src, i + 1) == EmitPair(w.insts[i], w, src, EmitPairs(w, src, i).value)
  {
  }

  // ---------------------------------------------------------------- appending to the flat list

  /** `xd3_whole_append_inst`. */
  method WholeAppendInst(target: Merge.WholeState, h: Half, w: Window, winstart: nat, used: nat) returns (used': nat)
    requires h.kind != Noop
    requires AppendHalf(h, w, winstart, Appended(Whole(target.adds, target.inst, target.length), used)).Some?
    modifies target`adds, target`inst, target`length
    ensures Some(Appended(Whole(target.adds, target.inst, target.length), used'))
         == AppendHalf(h, w, winstart, Appended(old(Whole(target.adds, target.inst, target.length)), used))
  {
    used' := used;
    var position := target.length;
    target.length := target.length + h.size;
    match h.kind
    case Run =>
      target.inst := target.inst + [Winst(Run, InTarget, h.size, |target.adds|, position)];
      target.adds := target.adds + [w.data[used']];
      used' := used' + 1;
    case Add =>
      target.inst := target.inst + [Winst(Add, InTarget, h.size, |target.adds|, position)];
      target.adds := target.adds + w.data[used'..used' + h.size];
      used' := used' + h.size;
    case Copy =>
      if h.addr < w.cpylen {
        var mode := if w.inTarget then InTargetWindow else InSource;
        target.inst := target.inst + [Winst(Copy, mode, h.size, w.cpyoff + h.addr, position)];
      } else {
        target.inst := target.inst + [Winst(Copy, InTarget, h.size, winstart + (h.addr - w.cpylen), position)];
      }
  }

  /** `xd3_whole_append_window`, on a window that its literal bytes suffice for. */
  method WholeAppendWindow(target: Merge.WholeState, w: Window, winstart: nat)
    requires AppendPairs(w, winstart, Whole(target.adds, target.inst, target.length), |w.insts|).Some?
    modifies target
    ensures Whole(target.adds, target.inst, target.length)
         == AppendPairs(w, winstart, old(Whole(target.adds, target.inst, target.length)), |w.insts|).value.whole
    ensures |target.wininfo| == |old(target.wininfo)| + 1 && old(target.wininfo) <= target.wininfo
  {
    hide AppendHalf;
    ghost var d := Whole(target.adds, target.inst, target.length);
    target.wininfo := target.wininfo + [Merge.WinInfo(winstart, w.tgtlen, if w.adler32.Some? then w.adler32.value else 0)];
    var used := 0;
    for i := 0 to |w.insts|
      invariant AppendPairs(w, winstart, d, i)
             == Some(Appended(Whole(target.adds, target.inst, target.length), used))
      invariant |target.wininfo| == |old(target.wininfo)| + 1 && old(target.wininfo) <= target.wininfo
    {
      AppendsBefore(w, winstart, d, i + 1, |w.insts|);
      NoopAppends(w.insts[i], w, winstart);
      if w.insts[i].0.kind != Noop {
        used := WholeAppendInst(target, w.insts[i].0, w, winstart, used);
      }
      if w.insts[i].1.kind != Noop {
        used := WholeAppendInst(target, w.insts[i].1, w, winstart, used);
      }
    }
  }

  lemma NoopAppends(p: (Half, Half), w: Window, winstart: nat)
    ensures p.0.kind == Noop ==> forall a :: AppendHalf(p.0, w, winstart, a) == Some(a)
    ensures p.1.kind == Noop ==> forall a :: AppendHalf(p.1, w, winstart, a) == Some(a)
  {
  }

  lemma {:induction false} AppendsBefore(w: Window, winstart: nat, d: Whole, m: nat, n: nat)
    requires m <= n <= |w.insts| && AppendPairs(w, winstart, d, n).Some?
    ensures AppendPairs(w, winstart, d, m).Some?
    decreases n
  {
    hide AppendPair;
    if m < n { AppendsBefore(w, winstart, d, m, n - 1); }
  }
}
