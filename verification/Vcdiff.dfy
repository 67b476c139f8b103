/** Whole-file VCDIFF instruction lists (`xd3_winst`) and what they mean, after section 3 of RFC 3284. */
module Vcdiff {
  import opened Common

  datatype Kind = Noop | Add | Run | Copy

  /** The address space of a copy: `0`, `VCD_SOURCE` or `VCD_TARGET`. */
  datatype Mode = InTarget | InSource | InTargetWindow

  datatype Winst = Winst(kind: Kind, mode: Mode, size: nat, addr: nat, position: nat)

  /** The instructions of a whole target file together with the literal bytes they refer to. */
  datatype Delta = Delta(adds: seq<byte>, inst: seq<Winst>)

  /** Return codes; `AssertionFailed` stands for an `XD3_ASSERT` that does not hold. */
  datatype Status = Ok | InvalidInput | Internal | AssertionFailed

  /** The length of the target that a contiguous list starting at 0 describes. */
  function End(inst: seq<Winst>): nat {
    if inst == [] then 0 else inst[|inst| - 1].position + inst[|inst| - 1].size
  }

  /** Each instruction starts where its predecessor stopped; the first one starts at `from`. */
  ghost predicate Contiguous(inst: seq<Winst>, from: nat) {
    && (inst != [] ==> inst[0].position == from)
    && forall i, j :: 0 <= i < j < |inst| && j == i + 1 ==> inst[j].position == inst[i].position + inst[i].size
  }

  /** `w` stays inside `adds` literal bytes, `src` source bytes, and the target before itself. */
  predicate ValidInst(w: Winst, adds: nat, src: nat) {
    && w.size > 0
    && match w.kind
       case Noop => false
       case Run => w.addr < adds
       case Add => w.addr + w.size <= adds
       case Copy =>
         match w.mode
         case InTarget => w.addr < w.position
         case InSource => w.addr + w.size <= src
         case InTargetWindow => false
  }

  ghost predicate WellFormed(d: Delta, src: nat) {
    && Contiguous(d.inst, 0)
    && forall k :: 0 <= k < |d.inst| ==> ValidInst(d.inst[k], |d.adds|, src)
  }

  /** The byte that `w` puts `j` bytes after its position. */
  function Value(w: Winst, j: nat, adds: seq<byte>, src: seq<byte>, tgt: seq<byte>): byte
    requires ValidInst(w, |adds|, |src|) && j < w.size && w.position + w.size <= |tgt|
  {
    match w.kind
    case Run => adds[w.addr]
    case Add => adds[w.addr + j]
    case Copy => if w.mode == InSource then src[w.addr + j] else tgt[w.addr + j]
  }

  /** `tgt` holds what `w` asks for; an overlapping target copy constrains `tgt` by itself. */
  ghost predicate Means(w: Winst, adds: seq<byte>, src: seq<byte>, tgt: seq<byte>) {
    && ValidInst(w, |adds|, |src|)
    && w.position + w.size <= |tgt|
    && forall j :: 0 <= j < w.size ==> tgt[w.position + j] == Value(w, j, adds, src, tgt)
  }

  /** The declarative meaning of a delta: `tgt` satisfies every instruction. */
  ghost predicate IsTarget(d: Delta, src: seq<byte>, tgt: seq<byte>) {
    && |tgt| == End(d.inst)
    && forall k :: 0 <= k < |d.inst| ==> Means(d.inst[k], d.adds, src, tgt)
  }

  /** Appends `size` bytes one at a time, so that a copy may read what it has just written. */
  function CopyWithin(out: seq<byte>, addr: nat, size: nat): (r: seq<byte>)
    requires addr < |out|
    ensures |r| == |out| + size && out <= r
    ensures forall p :: |out| <= p < |r| ==> r[p] == r[p - |out| + addr]
    decreases size
  {
    if size == 0 then out else
      var r := CopyWithin(out + [out[addr]], addr + 1, size - 1);
      assert r[addr] == out[addr] && r[|out|] == out[addr];
      r
  }

  function Execute(w: Winst, adds: seq<byte>, src: seq<byte>, out: seq<byte>): (r: seq<byte>)
    requires ValidInst(w, |adds|, |src|) && w.position == |out|
    ensures |r| == |out| + w.size && out <= r
    ensures Means(w, adds, src, r)
  {
    match w.kind
    case Run => out + seq(w.size, _ => adds[w.addr])
    case Add => out + adds[w.addr..w.addr + w.size]
    case Copy =>
      if w.mode == InSource then out + src[w.addr..w.addr + w.size]
      else
        var r := CopyWithin(out, w.addr, w.size);
        assert forall j :: 0 <= j < w.size ==> r[w.position + j] == Value(w, j, adds, src, r);
        r
  }

  /** The target after the first `n` instructions. */
  function Produce(d: Delta, n: nat, src: seq<byte>): (r: seq<byte>)
    requires WellFormed(d, |src|) && n <= |d.inst|
    ensures |r| == End(d.inst[..n])
  {
    if n == 0 then [] else
      assert d.inst[..n][n - 1] == d.inst[n - 1];
      assert n > 1 ==> d.inst[..n - 1][n - 2] == d.inst[n - 2];
      Execute(d.inst[n - 1], d.adds, src, Produce(d, n - 1, src))
  }

  /** Decoding: run every instruction in order. */
  function Apply(d: Delta, src: seq<byte>): (r: seq<byte>)
    requires WellFormed(d, |src|)
    ensures |r| == End(d.inst)
  {
    assert d.inst[..|d.inst|] == d.inst;
    Produce(d, |d.inst|, src)
  }

  lemma {:induction false} ProduceMeans(d: Delta, n: nat, src: seq<byte>)
    requires WellFormed(d, |src|) && n <= |d.inst|
    ensures forall k :: 0 <= k < n ==> Means(d.inst[k], d.adds, src, Produce(d, n, src))
  {
    if n > 0 {
      ProduceMeans(d, n - 1, src);
      var r := Produce(d, n, src);
      var r' := Produce(d, n - 1, src);
      assert r' <= r;
      forall k | 0 <= k < n ensures Means(d.inst[k], d.adds, src, r) {
        if k < n - 1 {
          var w := d.inst[k];
          assert Means(w, d.adds, src, r');
          forall j | 0 <= j < w.size ensures r[w.position + j] == Value(w, j, d.adds, src, r) {
            assert r'[w.position + j] == Value(w, j, d.adds, src, r');
          }
        }
      }
    }
  }

  /** Running the instructions yields a target in the declarative sense. */
  lemma ApplyIsTarget(d: Delta, src: seq<byte>)
    requires WellFormed(d, |src|)
    ensures IsTarget(d, src, Apply(d, src))
  {
    ProduceMeans(d, |d.inst|, src);
  }

  /** The last of the first `n` instructions that starts at or before `address`. */
  function LastStart(inst: seq<Winst>, address: nat, n: nat): (k: nat)
    requires 0 < n <= |inst| && inst[0].position == 0
    ensures k < n && inst[k].position <= address
    ensures k + 1 < n ==> address < inst[k + 1].position
  {
    if n == 1 || inst[n - 1].position <= address then n - 1 else LastStart(inst, address, n - 1)
  }

  /** The instruction of a contiguous list that covers `address`. */
  function Cover(inst: seq<Winst>, address: nat): (k: nat)
    requires Contiguous(inst, 0) && address < End(inst)
    ensures k < |inst| && inst[k].position <= address < inst[k].position + inst[k].size
  {
    LastStart(inst, address, |inst|)
  }

  lemma {:induction false} PositionsGrow(inst: seq<Winst>, from: nat, i: nat, j: nat)
    requires Contiguous(inst, from) && i < j < |inst|
    ensures inst[i].position + inst[i].size <= inst[j].position
  {
    if i + 1 < j { PositionsGrow(inst, from, i, j - 1); }
  }

  lemma CoverUnique(inst: seq<Winst>, address: nat, k: nat)
    requires Contiguous(inst, 0) && k < |inst|
    requires inst[k].position <= address < inst[k].position + inst[k].size
    ensures address < End(inst) && Cover(inst, address) == k
  {
    if k < |inst| - 1 { PositionsGrow(inst, 0, k, |inst| - 1); }
    var c := Cover(inst, address);
    if c < k { PositionsGrow(inst, 0, c, k); }
    if k < c { PositionsGrow(inst, 0, k, c); }
  }

  /** The declarative meaning fixes every byte: an earlier byte decides each target copy. */
  lemma {:induction false} TargetByteUnique(d: Delta, src: seq<byte>, t: seq<byte>, t': seq<byte>, p: nat)
    requires WellFormed(d, |src|) && IsTarget(d, src, t) && IsTarget(d, src, t') && p < End(d.inst)
    ensures t[p] == t'[p]
  {
    var w := d.inst[Cover(d.inst, p)];
    var j := p - w.position;
    assert Means(w, d.adds, src, t) && Means(w, d.adds, src, t');
    assert t[w.position + j] == Value(w, j, d.adds, src, t);
    assert t'[w.position + j] == Value(w, j, d.adds, src, t');
    if w.kind == Copy && w.mode == InTarget {
      TargetByteUnique(d, src, t, t', w.addr + j);
    }
  }

  /** `Apply` computes the only target a well-formed delta has. */
  lemma TargetIsApply(d: Delta, src: seq<byte>, t: seq<byte>)
    requires WellFormed(d, |src|)
    ensures IsTarget(d, src, t) <==> t == Apply(d, src)
  {
    ApplyIsTarget(d, src);
    if IsTarget(d, src, t) {
      forall p | 0 <= p < |t| ensures t[p] == Apply(d, src)[p] {
        TargetByteUnique(d, src, t, Apply(d, src), p);
      }
    }
  }
}
