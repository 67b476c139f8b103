/** The image delta coder and decoder as they run: growing arrays, pointers into them, three components. */
module ImageCodec {
  import opened Common
  import opened ImageIndex
  import opened ImageDelta

  const MAX_UNITY: nat := 65535

  // ---------------------------------------------------------------- sizes

  /** Every value fits the 16-bit arrays. */
  ghost predicate Fits(code: Code) {
    && (forall i :: 0 <= i < |code.cpx| ==> code.cpx[i] <= MAX_UNITY)
    && (forall i :: 0 <= i < |code.cpy| ==> code.cpy[i] <= MAX_UNITY)
    && (forall i :: 0 <= i < |code.cpl| ==> code.cpl[i] <= MAX_UNITY)
    && (forall i :: 0 <= i < |code.inl| ==> code.inl[i] <= MAX_UNITY)
  }

  lemma CopyFits(c: Copy, base: Plane, row: seq<Block>, column: nat)
    requires Copies(c, base, row, column) && |row| <= MAX_UNITY && |base| <= MAX_UNITY
    requires forall y :: 0 <= y < |base| ==> |base[y]| <= MAX_UNITY
    ensures c.x <= MAX_UNITY && c.y <= MAX_UNITY && c.len <= MAX_UNITY
  {
  }

  lemma FitsWithCopy(code: Code, c: Copy, inLen: nat)
    requires Fits(code) && inLen <= MAX_UNITY && c.x <= MAX_UNITY && c.y <= MAX_UNITY && c.len <= MAX_UNITY
    ensures Fits(WithCopy(code, c, inLen))
  {
  }

  /** No instruction overflows 16 bits, and each entry accounts for at least one block. */
  lemma {:induction false} RowFits(env: Env, row: seq<Block>, y: nat, column: nat, inLen: nat, acc: Code)
    requires Fits(acc) && inLen <= column <= |row| <= MAX_UNITY && |env.base| <= MAX_UNITY
    requires forall y :: 0 <= y < |env.base| ==> |env.base[y]| <= MAX_UNITY
    ensures Fits(RowCode(env, row, y, column, inLen, acc))
    ensures |RowCode(env, row, y, column, inLen, acc).inl|
         <= |acc.inl| + (|row| - column) + if inLen > 0 then 1 else 0
    decreases |row| - column
  {
    hide Best, Copies;
    if column < |row| {
      var c := Best(env, row, y, column);
      if c.len > 0 {
        BestCopies(env, row, y, column);
        CopyFits(c, env.base, row, column);
        FitsWithCopy(acc, c, inLen);
        RowFits(env, row, y, column + c.len, 0, WithCopy(acc, c, inLen));
      } else {
        RowFits(env, row, y, column + 1, inLen + 1, acc.(inp := acc.inp + [row[column]]));
      }
    }
  }

  function Blocks(width: nat, height: nat): nat {
    width * height
  }

  lemma OneMoreRow(width: nat, n: nat)
    ensures Blocks(width, n + 1) == Blocks(width, n) + width
    ensures Blocks(width, 0) == 0
  {
  }

  lemma {:induction false} PlaneFits(env: Env, target: Plane, width: nat, n: nat)
    requires n <= |target| && width <= MAX_UNITY && |env.base| <= MAX_UNITY
    requires forall y :: 0 <= y < n ==> |target[y]| == width
    requires forall y :: 0 <= y < |env.base| ==> |env.base[y]| <= MAX_UNITY
    ensures Fits(PlaneCode(env, target, n, NO_CODE)) && |PlaneCode(env, target, n, NO_CODE).inl| <= Blocks(width, n)
  {
    hide RowCode, Blocks;
    if n > 0 {
      PlaneFits(env, target, width, n - 1);
      RowFits(env, target[n - 1], n - 1, 0, 0, PlaneCode(env, target, n - 1, NO_CODE));
      OneMoreRow(width, n - 1);
    } else {
      OneMoreRow(width, 0);
    }
  }

  // ---------------------------------------------------------------- three components

  type Image = p: seq<Plane> | |p| == 3 witness [[], [], []]

  /** Components of 1 to 65535 blocks each way. */
  ghost predicate Shaped(image: Image, width: seq<nat>, height: seq<nat>) {
    && |width| == |height| == 3
    && forall i :: 0 <= i < 3 ==>
         0 < width[i] <= MAX_UNITY && 0 < height[i] <= MAX_UNITY && Rect(image[i], width[i], height[i])
  }

  datatype Delta = Delta(code: Code, counter: seq<nat>)

  function ComponentCode(hash: Hash, fixFlag: bool, base: Plane, target: Plane): Code {
    PlaneCode(Env(hash, base, fixFlag), target, |target|, NO_CODE)
  }

  /** The instructions of all components in one set of arrays, and how many entries each has. */
  function ImageCode(hash: Hash, fixFlag: bool, base: Image, target: Image): Delta {
    var y := ComponentCode(hash, fixFlag, base[0], target[0]);
    var u := ComponentCode(hash, fixFlag, base[1], target[1]);
    var v := ComponentCode(hash, fixFlag, base[2], target[2]);
    Delta(Cat(Cat(y, u), v), [|y.inl|, |u.inl|, |v.inl|])
  }

  /** Replay of component `i` from where the previous one ended. */
  function Component(d: Delta, i: nat, base: Image, width: seq<nat>, c: Cursor): Option<Cursor>
    requires i < 3 && |width| == |d.counter| == 3
  {
    var from := Sum(d.counter, i);
    if from + d.counter[i] <= |d.code.inl| then
      Run(c.(ready := 0), d.code.inl[from..from + d.counter[i]], base[i], width[i], d.code)
    else None
  }

  function Sum(s: seq<nat>, n: nat): nat
    requires n <= |s|
  {
    if n == 0 then 0 else Sum(s, n - 1) + s[n - 1]
  }

  /** Replay of the first `n` components. */
  function Replay(d: Delta, n: nat, base: Image, width: seq<nat>): Option<Cursor>
    requires n <= 3 && |width| == |d.counter| == 3
  {
    if n == 0 then Some(START) else
      match Replay(d, n - 1, base, width)
      case None => None
      case Some(c) => Component(d, n - 1, base, width, c)
  }

  lemma CatBalanced(a: Code, b: Code)
    requires Balanced(a) && Balanced(b)
    ensures Balanced(Cat(a, b))
  {
  }

  lemma Restored(code: Code, base: Plane, width: nat, blocks: seq<Block>)
    requires Restores(code, base, width, blocks)
    ensures Balanced(code)
    ensures Run(START, code.inl, base, width, code) == Some(Cursor(blocks, 0, |code.inp|, |code.cpx|))
  {
  }

  /** Between what precedes and what follows, a component's instructions still restore it. */
  lemma MiddleRestores(pre: Code, code: Code, post: Code, base: Plane, width: nat, out: seq<Block>, blocks: seq<Block>)
    requires Restores(code, base, width, blocks) && Balanced(pre)
    ensures Run(Cursor(out, 0, |pre.inp|, |pre.cpx|), code.inl, base, width, Cat(Cat(pre, code), post))
         == Some(Cursor(out + blocks, 0, |Cat(pre, code).inp|, |Cat(pre, code).cpx|))
  {
    hide *;
    Restored(code, base, width, blocks);
    var c := Cursor(out, 0, |pre.inp|, |pre.cpx|);
    ShiftedStart(out, pre);
    ShiftedEnd(code, blocks, out, pre);
    RunShift(START, code.inl, base, width, code, out, pre);
    CatBalanced(pre, code);
    RunExtend(c, code.inl, base, width, Cat(pre, code), post);
  }

  lemma ShiftedStart(out: seq<Block>, pre: Code)
    ensures Shift(START, out, pre) == Cursor(out, 0, |pre.inp|, |pre.cpx|)
  {
    assert out + [] == out;
  }

  lemma ShiftedEnd(code: Code, blocks: seq<Block>, out: seq<Block>, pre: Code)
    ensures Shift(Cursor(blocks, 0, |code.inp|, |code.cpx|), out, pre)
         == Cursor(out + blocks, 0, |Cat(pre, code).inp|, |Cat(pre, code).cpx|)
  {
  }

  lemma CatAssociative(a: Code, b: Code, c: Code)
    ensures Cat(Cat(a, b), c) == Cat(a, Cat(b, c))
    ensures Cat(NO_CODE, a) == a && Cat(a, NO_CODE) == a
  {
    assert Cat(Cat(a, b), c).inp == Cat(a, Cat(b, c)).inp;
    assert Cat(Cat(a, b), c).inl == Cat(a, Cat(b, c)).inl;
    assert Cat(Cat(a, b), c).cpx == Cat(a, Cat(b, c)).cpx;
    assert Cat(Cat(a, b), c).cpy == Cat(a, Cat(b, c)).cpy;
    assert Cat(Cat(a, b), c).cpl == Cat(a, Cat(b, c)).cpl;
  }

  /** One more component, given where its instructions lie. */
  lemma NextComponent(d: Delta, i: nat, base: Image, width: seq<nat>, pre: Code, code: Code, post: Code,
                      out: seq<Block>, blocks: seq<Block>)
    requires i < 3 && |width| == |d.counter| == 3 && Balanced(pre)
    requires d.code == Cat(Cat(pre, code), post) && d.counter[i] == |code.inl| && Sum(d.counter, i) == |pre.inl|
    requires Restores(code, base[i], width[i], blocks)
    requires Replay(d, i, base, width) == Some(Cursor(out, 0, |pre.inp|, |pre.cpx|))
    ensures Replay(d, i + 1, base, width)
         == Some(Cursor(out + blocks, 0, |Cat(pre, code).inp|, |Cat(pre, code).cpx|))
  {
    MiddleRestores(pre, code, post, base[i], width[i], out, blocks);
    hide Run, Restores, Sum;
    assert d.code.inl[|pre.inl|..|pre.inl| + |code.inl|] == code.inl;
  }

  function AllBlocks(image: Image): seq<Block> {
    Flat(image[0], |image[0]|) + Flat(image[1], |image[1]|) + Flat(image[2], |image[2]|)
  }

  lemma ComponentRestored(hash: Hash, fixFlag: bool, base: Image, target: Image, width: seq<nat>, height: seq<nat>,
                          i: nat)
    requires i < 3 && Shaped(target, width, height)
    ensures Restores(ComponentCode(hash, fixFlag, base[i], target[i]), base[i], width[i],
                     Flat(target[i], |target[i]|))
  {
    hide Restores, PlaneCode, Flat;
    PlaneRestored(Env(hash, base[i], fixFlag), target[i], width[i], |target[i]|);
  }

  lemma Sums(s: seq<nat>)
    requires |s| == 3
    ensures Sum(s, 0) == 0 && Sum(s, 1) == s[0] && Sum(s, 2) == s[0] + s[1] && Sum(s, 3) == s[0] + s[1] + s[2]
  {
  }

  /**
    * Replaying the concatenated instructions restores all three components exactly, uses up every array and never
    * reads outside the base, for any base, target, hash and mode.
    */
  lemma ImageRestored(hash: Hash, fixFlag: bool, base: Image, target: Image, width: seq<nat>, height: seq<nat>)
    requires Shaped(target, width, height)
    ensures var d := ImageCode(hash, fixFlag, base, target);
            && Replay(d, 3, base, width) == Some(Cursor(AllBlocks(target), 0, |d.code.inp|, |d.code.cpx|))
            && Balanced(d.code) && Sum(d.counter, 3) == |d.code.inl|
  {
    var d := ImageCode(hash, fixFlag, base, target);
    var y := ComponentCode(hash, fixFlag, base[0], target[0]);
    var u := ComponentCode(hash, fixFlag, base[1], target[1]);
    var v := ComponentCode(hash, fixFlag, base[2], target[2]);
    hide *;
    ComponentRestored(hash, fixFlag, base, target, width, height, 0);
    ComponentRestored(hash, fixFlag, base, target, width, height, 1);
    ComponentRestored(hash, fixFlag, base, target, width, height, 2);
    ThreeParts(d, base, target, width, y, u, v);
  }

  lemma ThreeParts(d: Delta, base: Image, target: Image, width: seq<nat>, y: Code, u: Code, v: Code)
    requires |width| == 3 && d == Delta(Cat(Cat(y, u), v), [|y.inl|, |u.inl|, |v.inl|])
    requires Restores(y, base[0], width[0], Flat(target[0], |target[0]|))
    requires Restores(u, base[1], width[1], Flat(target[1], |target[1]|))
    requires Restores(v, base[2], width[2], Flat(target[2], |target[2]|))
    ensures Replay(d, 3, base, width) == Some(Cursor(AllBlocks(target), 0, |d.code.inp|, |d.code.cpx|))
    ensures Balanced(d.code) && Sum(d.counter, 3) == |d.code.inl|
  {
    hide Restores, Flat, Replay;
    Restored(y, base[0], width[0], Flat(target[0], |target[0]|));
    Restored(u, base[1], width[1], Flat(target[1], |target[1]|));
    Restored(v, base[2], width[2], Flat(target[2], |target[2]|));
    Sums(d.counter);
    CatAssociative(y, u, v);
    CatAssociative(Cat(y, u), v, NO_CODE);
    CatAssociative(d.code, NO_CODE, NO_CODE);
    NothingReplayed(d, base, width);
    NextComponent(d, 0, base, width, NO_CODE, y, Cat(u, v), [], Flat(target[0], |target[0]|));
    assert [] + Flat(target[0], |target[0]|) == Flat(target[0], |target[0]|);
    NextComponent(d, 1, base, width, y, u, v, Flat(target[0], |target[0]|), Flat(target[1], |target[1]|));
    CatBalanced(y, u);
    NextComponent(d, 2, base, width, Cat(y, u), v, NO_CODE, Flat(target[0], |target[0]|) + Flat(target[1], |target[1]|),
                  Flat(target[2], |target[2]|));
  }

  lemma NothingReplayed(d: Delta, base: Image, width: seq<nat>)
    requires |width| == |d.counter| == 3
    ensures Replay(d, 0, base, width) == Some(Cursor([], 0, 0, 0))
  {
  }

  // ---------------------------------------------------------------- the coder

  /** The arrays of one thread. */
  class Instructions {
    var cpx: seq<nat>
    var cpy: seq<nat>
    var cpl: seq<nat>
    var inl: seq<nat>
    var inp: seq<Block>

    constructor ()
      ensures Value() == NO_CODE
    {
      cpx, cpy, cpl, inl, inp := [], [], [], [], [];
    }

    function Value(): Code
      reads this
    {
      Code(cpx, cpy, cpl, inl, inp)
    }

    method AppendCopy(c: Copy, inLen: nat)
      modifies this
      ensures Value() == WithCopy(old(Value()), c, inLen)
    {
      cpx, cpy, cpl, inl := cpx + [c.x], cpy + [c.y], cpl + [c.len], inl + [inLen];
    }

    /** Appends what another thread produced. */
    method AppendAll(other: Instructions)
      modifies this
      ensures Value() == Cat(old(Value()), old(other.Value()))
    {
      cpx, cpy, cpl := cpx + other.cpx, cpy + other.cpy, cpl + other.cpl;
      inl, inp := inl + other.inl, inp + other.inp;
    }
  }

  /** The blocks that `a` from `i` and `b` from `k` have in common. */
  method MatchLength(a: seq<Block>, i: nat, b: seq<Block>, k: nat) returns (len: nat)
    ensures len == CommonRun(a, i, b, k)
  {
    len := 0;
    while i + len < |a| && k + len < |b| && a[i + len] == b[k + len]
      invariant CommonRun(a, i, b, k) == len + CommonRun(a, i + len, b, k + len)
      decreases |a| - (i + len)
    {
      len := len + 1;
    }
  }

  /** The search through the listed positions: the longest run, and of several the first. */
  method LongestMatch(list: seq<Pos>, base: Plane, row: seq<Block>, column: nat) returns (best: Copy)
    requires forall i :: 0 <= i < |list| ==> list[i].y < |base|
    ensures best == BestOf(list, base, row, column)
  {
    hide CommonRun;
    var lenmax, xmax, ymax := 0, 0, 0;
    for i := 0 to |list|
      invariant Copy(xmax, ymax, lenmax) == BestOf(list[..i], base, row, column)
    {
      assert list[..i + 1][..i] == list[..i];
      var len := MatchLength(base[list[i].y], list[i].x, row, column);
      if len > lenmax {
        lenmax, xmax, ymax := len, list[i].x, list[i].y;
      }
    }
    assert list[..|list|] == list;
    best := Copy(xmax, ymax, lenmax);
  }

  /** What the table holds when blocks are to be searched for. */
  ghost predicate Indexes(index: BlockIndex, env: Env)
    reads index
  {
    env.fixFlag ==> forall h: nat :: index.Lookup(h) == Listing(env.hash, env.base, |env.base|, h)
  }

  lemma ListedInside(env: Env, h: nat)
    ensures forall i :: 0 <= i < |Listing(env.hash, env.base, |env.base|, h)| ==>
              Listing(env.hash, env.base, |env.base|, h)[i].y < |env.base|
  {
    hide Listing, InRow;
    var list := Listing(env.hash, env.base, |env.base|, h);
    forall i | 0 <= i < |list| ensures list[i].y < |env.base| {
      ListingHas(env.hash, env.base, |env.base|, h, list[i]);
    }
  }

  /** The copy for one block, by hash or in place. */
  method FindCopy(env: Env, index: BlockIndex, row: seq<Block>, y: nat, column: nat) returns (c: Copy)
    requires column < |row| && Indexes(index, env)
    ensures c == Best(env, row, y, column)
  {
    hide Listing, BestOf, CommonRun;
    if env.fixFlag {
      var h := env.hash(row[column]);
      ListedInside(env, h);
      c := LongestMatch(index.Lookup(h), env.base, row, column);
    } else {
      var len := 0;
      if y < |env.base| {
        len := MatchLength(env.base[y], column, row, column);
      }
      c := Copy(column, y, len);
    }
  }

  /** One row. */
  method CodeRow(env: Env, index: BlockIndex, row: seq<Block>, y: nat, ins: Instructions)
    requires Indexes(index, env) && row != []
    modifies ins
    ensures ins.Value() == RowCode(env, row, y, 0, 0, old(ins.Value()))
  {
    hide Indexes, Best;
    ghost var start := ins.Value();
    var column, inLen := 0, 0;
    while column <= |row| - 1
      invariant column <= |row| && Indexes(index, env)
      invariant RowCode(env, row, y, column, inLen, ins.Value()) == RowCode(env, row, y, 0, 0, start)
      decreases |row| - column
    {
      var c := FindCopy(env, index, row, y, column);
      if c.len > 0 {
        ins.AppendCopy(c, inLen);
        inLen := 0;
        column := column + c.len;
      } else {
        ins.inp := ins.inp + [row[column]];
        inLen := inLen + 1;
        column := column + 1;
      }
    }
    if inLen > 0 {
      ins.inl := ins.inl + [inLen];
    }
  }

  /** `get_instructions_thread` over a whole component. */
  method CodePlane(env: Env, index: BlockIndex, target: Plane, width: nat, height: nat) returns (ins: Instructions)
    requires Indexes(index, env) && Rect(target, width, height) && width > 0
    ensures fresh(ins) && ins.Value() == PlaneCode(env, target, |target|, NO_CODE)
  {
    hide Indexes, RowCode;
    ins := new Instructions();
    for row := 0 to height
      invariant fresh(ins) && Indexes(index, env)
      invariant ins.Value() == PlaneCode(env, target, row, NO_CODE)
    {
      CodeRow(env, index, target[row], row, ins);
    }
  }

  /** `create_block_index` for one component; without the search mode it is left empty. */
  method CreateIndex(env: Env, width: nat, height: nat) returns (index: BlockIndex)
    requires Rect(env.base, width, height)
    ensures fresh(index) && Indexes(index, env)
  {
    index := new BlockIndex();
    if env.fixFlag {
      index.IndexPlane(env.hash, env.base, width, height);
    }
  }

  /** One component against an index of its base. */
  method CodeComponent(hash: Hash, fixFlag: bool, base: Plane, target: Plane, bw: nat, bh: nat, tw: nat, th: nat)
    returns (ins: Instructions)
    requires Rect(base, bw, bh) && Rect(target, tw, th) && tw > 0
    ensures fresh(ins) && ins.Value() == ComponentCode(hash, fixFlag, base, target)
  {
    hide PlaneCode, Indexes;
    var env := Env(hash, base, fixFlag);
    var index := CreateIndex(env, bw, bh);
    ins := CodePlane(env, index, target, tw, th);
  }

  /** `get_instructions`: codes the components and joins their arrays. */
  method GetInstructions(hash: Hash, fixFlag: bool, base: Image, target: Image,
                         bw: seq<nat>, bh: seq<nat>, tw: seq<nat>, th: seq<nat>)
    returns (d: Delta)
    requires Shaped(base, bw, bh) && Shaped(target, tw, th)
    ensures d == ImageCode(hash, fixFlag, base, target)
  {
    hide ComponentCode, Cat;
    var y := CodeComponent(hash, fixFlag, base[0], target[0], bw[0], bh[0], tw[0], th[0]);
    var u := CodeComponent(hash, fixFlag, base[1], target[1], bw[1], bh[1], tw[1], th[1]);
    var v := CodeComponent(hash, fixFlag, base[2], target[2], bw[2], bh[2], tw[2], th[2]);
    var counter := [|y.inl|, |u.inl|, |v.inl|];
    y.AppendAll(u);
    y.AppendAll(v);
    d := Delta(y.Value(), counter);
  }

  // ---------------------------------------------------------------- the decoder

  /** Copies blocks to `data` from `at` on. */
  method Put(data: array<Block>, at: nat, blocks: seq<Block>)
    requires at + |blocks| <= data.Length
    modifies data
    ensures data[..at + |blocks|] == old(data[..at]) + blocks
  {
    for k := 0 to |blocks|
      invariant data[..at + k] == old(data[..at]) + blocks[..k]
    {
      data[at + k] := blocks[k];
      assert data[..at + (k + 1)] == data[..at + k] + [blocks[k]];
      assert old(data[..at]) + blocks[..k] + [blocks[k]] == old(data[..at]) + blocks[..k + 1];
    }
    assert blocks[..|blocks|] == blocks;
  }

  /** Where the decoder stands: its pointers into the output, the literals and the copies. */
  class Restorer {
    const data: array<Block>
    var dataPtr: nat
    var ready: nat
    var inp: nat
    var copy: nat

    constructor (totalSize: nat)
      ensures fresh(data) && data.Length == totalSize && At(START)
    {
      data := new Block[totalSize];
      dataPtr, ready, inp, copy := 0, 0, 0, 0;
    }

    ghost predicate At(c: Cursor)
      reads this, data
    {
      && dataPtr <= data.Length && data[..dataPtr] == c.out
      && ready == c.ready && inp == c.lit && copy == c.cp
    }

    /** `inlen` literal blocks. */
    method Literals(inlen: nat, code: Code, ghost c: Cursor)
      requires At(c) && StepLiterals(c, inlen, code).Some?
      requires |StepLiterals(c, inlen, code).value.out| <= data.Length
      modifies this, data
      ensures At(StepLiterals(c, inlen, code).value)
    {
      if inlen > 0 {
        Put(data, dataPtr, code.inp[inp..inp + inlen]);
        dataPtr, inp, ready := dataPtr + inlen, inp + inlen, ready + inlen;
      }
    }

    /** One copy from the base. */
    method CopyRun(base: Plane, code: Code, ghost c: Cursor)
      requires At(c) && StepCopy(c, base, code).Some?
      requires |StepCopy(c, base, code).value.out| <= data.Length
      modifies this, data
      ensures At(StepCopy(c, base, code).value)
    {
      var y, x, cplen := code.cpy[copy], code.cpx[copy], code.cpl[copy];
      Put(data, dataPtr, base[y][x..x + cplen]);
      dataPtr, copy, ready := dataPtr + cplen, copy + 1, ready + cplen;
    }

    /** One entry of the insert-length array. */
    method Entry(inlen: nat, base: Plane, width: nat, code: Code, ghost c: Cursor)
      requires At(c) && Step(c, inlen, base, width, code).Some?
      requires |Step(c, inlen, base, width, code).value.out| <= data.Length
      modifies this, data
      ensures At(Step(c, inlen, base, width, code).value)
    {
      hide StepLiterals, StepCopy, At;
      StepGrows(c, inlen, base, width, code);
      Literals(inlen, code, c);
      ghost var d := StepLiterals(c, inlen, code).value;
      Position(d);
      if ready < width {
        CopyRun(base, code, d);
        d := StepCopy(d, base, code).value;
      }
      Finish(width, d);
    }

    method Finish(width: nat, ghost c: Cursor)
      requires At(c)
      modifies this`ready
      ensures At(EndStep(c, width))
    {
      if ready == width {
        ready := 0;
      }
    }

    lemma Position(c: Cursor)
      requires At(c)
      ensures ready == c.ready
    {
    }

    /** The entries of component `i`. */
    method RestoreComponent(d: Delta, i: nat, base: Image, width: seq<nat>, ghost c: Cursor, insertL: nat)
      returns (insertL': nat)
      requires i < 3 && |width| == |d.counter| == 3 && insertL == Sum(d.counter, i)
      requires At(c) && Component(d, i, base, width, c).Some?
      requires |Component(d, i, base, width, c).value.out| <= data.Length
      modifies this, data
      ensures At(Component(d, i, base, width, c).value) && insertL' == Sum(d.counter, i + 1)
    {
      hide *;
      ready := 0;
      ghost var c0 := c.(ready := 0);
      Restarted(c);
      ghost var lens := EntriesOf(d, i, base, width, c);
      insertL' := insertL;
      NothingRun(c0, lens, base[i], width[i], d.code);
      for j := 0 to d.counter[i]
        invariant insertL' == insertL + j
        invariant Run(c0, lens[..j], base[i], width[i], d.code).Some?
        invariant At(Run(c0, lens[..j], base[i], width[i], d.code).value)
      {
        RunPrefix(c0, lens, j, base[i], width[i], d.code);
        var inlen := d.code.inl[insertL'];
        insertL' := insertL' + 1;
        Entry(inlen, base[i], width[i], d.code, Run(c0, lens[..j], base[i], width[i], d.code).value);
      }
      assert lens[..d.counter[i]] == lens;
      NextSum(d.counter, i);
    }

    twostate lemma Restarted(c: Cursor)
      requires old(At(c)) && ready == 0 && data[..] == old(data[..])
      requires dataPtr == old(dataPtr) && inp == old(inp) && copy == old(copy)
      ensures At(c.(ready := 0))
    {
      assert data[..dataPtr] == data[..][..dataPtr];
    }
  }

  lemma NextSum(s: seq<nat>, i: nat)
    requires i < |s|
    ensures Sum(s, i + 1) == Sum(s, i) + s[i]
  {
  }

  ghost function EntriesOf(d: Delta, i: nat, base: Image, width: seq<nat>, c: Cursor): (lens: seq<nat>)
    requires i < 3 && |width| == |d.counter| == 3 && Component(d, i, base, width, c).Some?
    ensures |lens| == d.counter[i] && Sum(d.counter, i) + |lens| <= |d.code.inl|
    ensures forall j, k :: 0 <= j < |lens| && k == Sum(d.counter, i) + j ==> lens[j] == d.code.inl[k]
    ensures Component(d, i, base, width, c) == Run(c.(ready := 0), lens, base[i], width[i], d.code)
  {
    hide Run, Sum;
    d.code.inl[Sum(d.counter, i)..Sum(d.counter, i) + d.counter[i]]
  }

  lemma NothingRun(c: Cursor, lens: seq<nat>, base: Plane, width: nat, code: Code)
    ensures Run(c, lens[..0], base, width, code) == Some(c)
  {
  }

  lemma StepGrows(c: Cursor, n: nat, base: Plane, width: nat, code: Code)
    requires Step(c, n, base, width, code).Some?
    ensures StepLiterals(c, n, code).Some?
    ensures |c.out| <= |StepLiterals(c, n, code).value.out| <= |Step(c, n, base, width, code).value.out|
  {
  }

  /** A run passes through the runs of its prefixes. */
  lemma {:induction false} RunPrefix(c: Cursor, lens: seq<nat>, j: nat, base: Plane, width: nat, code: Code)
    requires j < |lens| && Run(c, lens, base, width, code).Some?
    ensures Run(c, lens[..j], base, width, code).Some? && Run(c, lens[..j + 1], base, width, code).Some?
    ensures Run(c, lens[..j + 1], base, width, code)
         == Step(Run(c, lens[..j], base, width, code).value, lens[j], base, width, code)
    ensures |Run(c, lens[..j + 1], base, width, code).value.out| <= |Run(c, lens, base, width, code).value.out|
  {
    hide Step;
    var n := |lens| - 1;
    if j < n {
      RunPrefix(c, lens[..n], j, base, width, code);
      assert lens[..n][..j] == lens[..j] && lens[..n][..j + 1] == lens[..j + 1];
      StepGrows(Run(c, lens[..n], base, width, code).value, lens[n], base, width, code);
    } else {
      assert lens[..j + 1] == lens;
    }
  }

  /** Blocks in all components of the given sizes. */
  function TotalSize(width: seq<nat>, height: seq<nat>): nat
    requires |width| == |height| == 3
  {
    Blocks(width[0], height[0]) + Blocks(width[1], height[1]) + Blocks(width[2], height[2])
  }

  /** `de_dedup_a_single_img`: restores all components into one buffer. */
  method DeDedup(d: Delta, base: Image, width: seq<nat>, height: seq<nat>, ghost end: seq<Cursor>)
    returns (data: array<Block>, used: Cursor)
    requires |width| == |height| == |d.counter| == 3 && |end| == 4
    requires forall i :: 0 <= i < 4 ==> Replay(d, i, base, width) == Some(end[i])
    requires |end[1].out| <= |end[2].out| <= |end[3].out| == TotalSize(width, height)
    ensures fresh(data) && data[..] == end[3].out
    ensures used.lit == end[3].lit && used.cp == end[3].cp
  {
    hide Replay, Component, Blocks;
    var r := new Restorer(Blocks(width[0], height[0]) + Blocks(width[1], height[1]) + Blocks(width[2], height[2]));
    FirstState(d, base, width);
    var insertL := 0;
    NoSum(d.counter);
    for i := 0 to 3
      invariant fresh(r) && fresh(r.data) && r.At(end[i]) && insertL == Sum(d.counter, i)
    {
      NextState(d, i, base, width);
      insertL := r.RestoreComponent(d, i, base, width, end[i], insertL);
    }
    data := r.data;
    used := Cursor([], r.ready, r.inp, r.copy);
    assert data[..] == data[..r.dataPtr];
  }

  lemma NoSum(s: seq<nat>)
    ensures Sum(s, 0) == 0
  {
  }

  lemma FirstState(d: Delta, base: Image, width: seq<nat>)
    requires |width| == |d.counter| == 3
    ensures Replay(d, 0, base, width) == Some(START)
  {
  }

  lemma NextState(d: Delta, i: nat, base: Image, width: seq<nat>)
    requires i < 3 && |width| == |d.counter| == 3
    requires Replay(d, i, base, width).Some? && Replay(d, i + 1, base, width).Some?
    ensures Replay(d, i + 1, base, width) == Component(d, i, base, width, Replay(d, i, base, width).value)
  {
  }

  // ---------------------------------------------------------------- round trip

  lemma {:induction false} FlatSize(p: Plane, width: nat, n: nat)
    requires n <= |p| && forall y :: 0 <= y < n ==> |p[y]| == width
    ensures |Flat(p, n)| == Blocks(width, n)
  {
    hide Blocks;
    if n == 0 {
      OneMoreRow(width, 0);
    } else {
      FlatSize(p, width, n - 1);
      OneMoreRow(width, n - 1);
    }
  }

  /** The row pointers that the decoder sets: row `j` starts after `j` rows. */
  function RowsOf(blocks: seq<Block>, width: nat, height: nat): (p: Plane)
    requires |blocks| == Blocks(width, height)
    ensures |p| == height
  {
    if height == 0 then [] else
      OneMoreRow(width, height - 1);
      var cut := Blocks(width, height - 1);
      RowsOf(blocks[..cut], width, height - 1) + [blocks[cut..]]
  }

  lemma {:induction false} RowsOfFlat(p: Plane, width: nat, n: nat)
    requires n <= |p| && forall y :: 0 <= y < n ==> |p[y]| == width
    ensures |Flat(p, n)| == Blocks(width, n) && RowsOf(Flat(p, n), width, n) == p[..n]
  {
    FlatSize(p, width, n);
    if n > 0 {
      FlatSize(p, width, n - 1);
      RowsOfFlat(p, width, n - 1);
      OneMoreRow(width, n - 1);
      assert Flat(p, n)[..Blocks(width, n - 1)] == Flat(p, n - 1);
      assert Flat(p, n)[Blocks(width, n - 1)..] == p[n - 1];
    }
  }

  /** The image that row pointers into one buffer make. */
  function ImageOf(blocks: seq<Block>, width: seq<nat>, height: seq<nat>): Image
    requires |width| == |height| == 3 && |blocks| == TotalSize(width, height)
  {
    var u := Blocks(width[0], height[0]);
    var v := u + Blocks(width[1], height[1]);
    [RowsOf(blocks[..u], width[0], height[0]), RowsOf(blocks[u..v], width[1], height[1]),
     RowsOf(blocks[v..], width[2], height[2])]
  }

  lemma PlaneOfFlat(image: Image, width: seq<nat>, height: seq<nat>, i: nat)
    requires i < 3 && Shaped(image, width, height)
    ensures |Flat(image[i], |image[i]|)| == Blocks(width[i], height[i])
    ensures RowsOf(Flat(image[i], |image[i]|), width[i], height[i]) == image[i]
  {
    RowsOfFlat(image[i], width[i], height[i]);
    assert image[i][..height[i]] == image[i];
  }

  lemma SplitThree(a: seq<Block>, b: seq<Block>, c: seq<Block>)
    ensures (a + b + c)[..|a|] == a && (a + b + c)[|a|..|a| + |b|] == b && (a + b + c)[|a| + |b|..] == c
  {
  }

  lemma ImageOfBlocks(image: Image, width: seq<nat>, height: seq<nat>)
    requires Shaped(image, width, height)
    ensures |AllBlocks(image)| == TotalSize(width, height) && ImageOf(AllBlocks(image), width, height) == image
  {
    PlaneOfFlat(image, width, height, 0);
    PlaneOfFlat(image, width, height, 1);
    PlaneOfFlat(image, width, height, 2);
    hide Flat, RowsOf, Blocks, Shaped;
    SplitThree(Flat(image[0], |image[0]|), Flat(image[1], |image[1]|), Flat(image[2], |image[2]|));
  }

  lemma {:induction false} RunGrows(c: Cursor, lens: seq<nat>, base: Plane, width: nat, code: Code)
    requires Run(c, lens, base, width, code).Some?
    ensures |c.out| <= |Run(c, lens, base, width, code).value.out|
  {
    hide Step;
    if lens != [] {
      var n := |lens| - 1;
      RunGrows(c, lens[..n], base, width, code);
      StepGrows(Run(c, lens[..n], base, width, code).value, lens[n], base, width, code);
    }
  }

  /** A full replay passes through the ends of the components. */
  lemma ReplayBefore(d: Delta, i: nat, base: Image, width: seq<nat>)
    requires i < 3 && |width| == |d.counter| == 3 && Replay(d, i + 1, base, width).Some?
    ensures Replay(d, i, base, width).Some?
    ensures |Replay(d, i, base, width).value.out| <= |Replay(d, i + 1, base, width).value.out|
  {
    hide Run, Sum;
    var c := Replay(d, i, base, width).value;
    var from := Sum(d.counter, i);
    RunGrows(c.(ready := 0), d.code.inl[from..from + d.counter[i]], base[i], width[i], d.code);
  }

  lemma ReplayEnds(d: Delta, base: Image, width: seq<nat>) returns (end: seq<Cursor>)
    requires |width| == |d.counter| == 3 && Replay(d, 3, base, width).Some?
    ensures |end| == 4 && forall i :: 0 <= i < 4 ==> Replay(d, i, base, width) == Some(end[i])
    ensures |end[1].out| <= |end[2].out| <= |end[3].out|
  {
    hide Replay;
    ReplayBefore(d, 2, base, width);
    ReplayBefore(d, 1, base, width);
    ReplayBefore(d, 0, base, width);
    end := [Replay(d, 0, base, width).value, Replay(d, 1, base, width).value, Replay(d, 2, base, width).value,
            Replay(d, 3, base, width).value];
  }

  /** Coding against a base and restoring from it gives the target back, whatever the base, hash and mode. */
  method RoundTrip(hash: Hash, fixFlag: bool, base: Image, target: Image,
                   bw: seq<nat>, bh: seq<nat>, tw: seq<nat>, th: seq<nat>)
    returns (d: Delta, data: array<Block>, used: Cursor)
    requires Shaped(base, bw, bh) && Shaped(target, tw, th)
    ensures d == ImageCode(hash, fixFlag, base, target)
    ensures |data[..]| == TotalSize(tw, th) && ImageOf(data[..], tw, th) == target
    ensures used.lit == |d.code.inp| && used.cp == |d.code.cpx| == |d.code.cpy| == |d.code.cpl|
    ensures |d.counter| == 3 && Sum(d.counter, 3) == |d.code.inl|
  {
    hide Replay, ImageCode, AllBlocks, ImageOf, Sum, TotalSize;
    d := GetInstructions(hash, fixFlag, base, target, bw, bh, tw, th);
    CountersOf(hash, fixFlag, base, target);
    ImageRestored(hash, fixFlag, base, target, tw, th);
    ImageOfBlocks(target, tw, th);
    ghost var end := ReplayEnds(d, base, tw);
    data, used := DeDedup(d, base, tw, th, end);
  }

  lemma CountersOf(hash: Hash, fixFlag: bool, base: Image, target: Image)
    ensures |ImageCode(hash, fixFlag, base, target).counter| == 3
  {
  }

  /** Given the base, different targets of one shape have different deltas, however each was coded. */
  lemma DeltaDetermines(hash: Hash, fixFlag: bool, hash': Hash, fixFlag': bool, base: Image, a: Image, b: Image,
                        width: seq<nat>, height: seq<nat>)
    requires Shaped(a, width, height) && Shaped(b, width, height)
    requires ImageCode(hash, fixFlag, base, a) == ImageCode(hash', fixFlag', base, b)
    ensures a == b
  {
    hide *;
    ImageRestored(hash, fixFlag, base, a, width, height);
    ImageRestored(hash', fixFlag', base, b, width, height);
    ImageOfBlocks(a, width, height);
    ImageOfBlocks(b, width, height);
  }

  // ---------------------------------------------------------------- everything fits 16 and 32 bits

  lemma FitsCat(a: Code, b: Code)
    requires Fits(a) && Fits(b)
    ensures Fits(Cat(a, b))
  {
  }

  lemma ComponentFits(hash: Hash, fixFlag: bool, base: Image, target: Image, i: nat,
                      bw: seq<nat>, bh: seq<nat>, tw: seq<nat>, th: seq<nat>)
    requires i < 3 && Shaped(base, bw, bh) && Shaped(target, tw, th)
    ensures Fits(ComponentCode(hash, fixFlag, base[i], target[i]))
    ensures |ComponentCode(hash, fixFlag, base[i], target[i]).inl| < 0x1_0000_0000
  {
    hide PlaneCode, Blocks, Fits;
    PlaneFits(Env(hash, base[i], fixFlag), target[i], tw[i], |target[i]|);
    AreaBound(tw[i], th[i]);
  }

  lemma {:induction false} AreaBound(width: nat, height: nat)
    requires width <= MAX_UNITY
    ensures Blocks(width, height) <= MAX_UNITY * height
  {
    hide Blocks;
    if height == 0 {
      OneMoreRow(width, 0);
    } else {
      AreaBound(width, height - 1);
      OneMoreRow(width, height - 1);
    }
  }

  /** No position, length or count outgrows the 16-bit arrays or the 32-bit counters. */
  lemma ImageFits(hash: Hash, fixFlag: bool, base: Image, target: Image,
                  bw: seq<nat>, bh: seq<nat>, tw: seq<nat>, th: seq<nat>)
    requires Shaped(base, bw, bh) && Shaped(target, tw, th)
    ensures var d := ImageCode(hash, fixFlag, base, target);
            Fits(d.code) && forall i :: 0 <= i < 3 ==> d.counter[i] < 0x1_0000_0000
  {
    hide Fits, ComponentCode;
    ComponentFits(hash, fixFlag, base, target, 0, bw, bh, tw, th);
    ComponentFits(hash, fixFlag, base, target, 1, bw, bh, tw, th);
    ComponentFits(hash, fixFlag, base, target, 2, bw, bh, tw, th);
    var y := ComponentCode(hash, fixFlag, base[0], target[0]);
    var u := ComponentCode(hash, fixFlag, base[1], target[1]);
    FitsCat(y, u);
    FitsCat(Cat(y, u), ComponentCode(hash, fixFlag, base[2], target[2]));
  }

  // ---------------------------------------------------------------- how many instructions there are

  /** As many positions as lengths, and a count of literals for each copy. */
  ghost predicate Sized(code: Code) {
    Balanced(code) && |code.cpx| <= |code.inl|
  }

  lemma {:induction false} RowSized(env: Env, row: seq<Block>, y: nat, column: nat, inLen: nat, acc: Code)
    requires column <= |row| && Sized(acc)
    ensures Sized(RowCode(env, row, y, column, inLen, acc))
    decreases |row| - column
  {
    hide Best;
    if column < |row| {
      var c := Best(env, row, y, column);
      if c.len > 0 {
        RowSized(env, row, y, column + c.len, 0, WithCopy(acc, c, inLen));
      } else {
        RowSized(env, row, y, column + 1, inLen + 1, acc.(inp := acc.inp + [row[column]]));
      }
    }
  }

  lemma {:induction false} PlaneSized(env: Env, target: Plane, n: nat)
    requires n <= |target|
    ensures Sized(PlaneCode(env, target, n, NO_CODE))
  {
    hide RowCode;
    if n > 0 {
      PlaneSized(env, target, n - 1);
      RowSized(env, target[n - 1], n - 1, 0, 0, PlaneCode(env, target, n - 1, NO_CODE));
    }
  }

  lemma ComponentSized(hash: Hash, fixFlag: bool, base: Image, target: Image, i: nat,
                       bw: seq<nat>, bh: seq<nat>, tw: seq<nat>, th: seq<nat>)
    requires i < 3 && Shaped(base, bw, bh) && Shaped(target, tw, th)
    ensures Sized(ComponentCode(hash, fixFlag, base[i], target[i]))
    ensures |ComponentCode(hash, fixFlag, base[i], target[i]).inl| <= Blocks(tw[i], th[i])
  {
    hide PlaneCode, Blocks, Fits, Sized;
    PlaneFits(Env(hash, base[i], fixFlag), target[i], tw[i], |target[i]|);
    PlaneSized(Env(hash, base[i], fixFlag), target[i], |target[i]|);
  }

  /** None of the four arrays has more entries than the image has blocks. */
  lemma InstructionsBound(hash: Hash, fixFlag: bool, base: Image, target: Image,
                          bw: seq<nat>, bh: seq<nat>, tw: seq<nat>, th: seq<nat>)
    requires Shaped(base, bw, bh) && Shaped(target, tw, th)
    ensures var code := ImageCode(hash, fixFlag, base, target).code;
            |code.cpx| == |code.cpy| == |code.cpl| <= |code.inl| <= TotalSize(tw, th)
  {
    hide ComponentCode, Blocks, Shaped;
    ComponentSized(hash, fixFlag, base, target, 0, bw, bh, tw, th);
    ComponentSized(hash, fixFlag, base, target, 1, bw, bh, tw, th);
    ComponentSized(hash, fixFlag, base, target, 2, bw, bh, tw, th);
  }
}
