/** Literal blocks as run/value symbols (`rejpeg.c`): zigzag order, DC differences, zero runs. */
module LiteralRle {
  import opened Common
  import opened ImageIndex

  // ---------------------------------------------------------------- zigzag order

  /** The place of each coefficient, in row-major order, in the coded order. */
  const ZZ_SEQUENCE: seq<seq<nat>> := [
    [0, 1, 5, 6, 14, 15, 27, 28],
    [2, 4, 7, 13, 16, 26, 29, 42],
    [3, 8, 12, 17, 25, 30, 41, 43],
    [9, 11, 18, 24, 31, 40, 44, 53],
    [10, 19, 23, 32, 39, 45, 52, 54],
    [20, 22, 33, 38, 46, 51, 55, 60],
    [21, 34, 37, 47, 50, 56, 59, 61],
    [35, 36, 48, 49, 57, 58, 62, 63]
  ]

  function Zz(i: nat): nat
    requires i < 64
  {
    ZZ_SEQUENCE[i / 8][i % 8]
  }

  /** The coefficient at each place of the coded order. */
  const SCAN: seq<seq<nat>> := [
    [0, 1, 8, 16, 9, 2, 3, 10],
    [17, 24, 32, 25, 18, 11, 4, 5],
    [12, 19, 26, 33, 40, 48, 41, 34],
    [27, 20, 13, 6, 7, 14, 21, 28],
    [35, 42, 49, 56, 57, 50, 43, 36],
    [29, 22, 15, 23, 30, 37, 44, 51],
    [58, 59, 52, 45, 38, 31, 39, 46],
    [53, 60, 61, 54, 47, 55, 62, 63]
  ]

  function Scan(i: nat): nat
    requires i < 64
  {
    SCAN[i / 8][i % 8]
  }

  /** The zigzag walk over the diagonals, up and down in turn (section A.3.6 of ITU-T T.81). */
  function Walk(row: nat, column: nat): int
    requires row < 8 && column < 8
    decreases if row + column < 8 then 0 else 1
  {
    var d := row + column;
    if d < 8 then d * (d + 1) / 2 + if d % 2 == 0 then column else row
    else 63 - Walk(7 - row, 7 - column)
  }

  ghost predicate TableRight(i: nat)
    requires i < 64
  {
    && Zz(i) < 64 && Scan(Zz(i)) == i && Zz(i) == Walk(i / 8, i % 8)
    && Scan(i) < 64 && Zz(Scan(i)) == i
  }

  lemma Row0(i: nat)
    requires i < 8
    ensures TableRight(i)
  {
  }

  lemma Row1(i: nat)
    requires 8 <= i < 16
    ensures TableRight(i)
  {
  }

  lemma Row2(i: nat)
    requires 16 <= i < 24
    ensures TableRight(i)
  {
  }

  lemma Row3(i: nat)
    requires 24 <= i < 32
    ensures TableRight(i)
  {
  }

  lemma Row4(i: nat)
    requires 32 <= i < 40
    ensures TableRight(i)
  {
  }

  lemma Row5(i: nat)
    requires 40 <= i < 48
    ensures TableRight(i)
  {
  }

  lemma Row6(i: nat)
    requires 48 <= i < 56
    ensures TableRight(i)
  {
  }

  lemma Row7(i: nat)
    requires 56 <= i < 64
    ensures TableRight(i)
  {
  }

  /** The table is the zigzag walk, and a permutation: each place of the coded order has its one coefficient. */
  lemma ZigzagTable(i: nat)
    requires i < 64
    ensures Zz(i) < 64 && Scan(Zz(i)) == i && Zz(i) == Walk(i / 8, i % 8)
    ensures Scan(i) < 64 && Zz(Scan(i)) == i
  {
    hide Zz, Scan, Walk;
    if i < 8 {
      Row0(i);
    } else if i < 16 {
      Row1(i);
    } else if i < 24 {
      Row2(i);
    } else if i < 32 {
      Row3(i);
    } else if i < 40 {
      Row4(i);
    } else if i < 48 {
      Row5(i);
    } else if i < 56 {
      Row6(i);
    } else {
      Row7(i);
    }
  }

  /** The coefficients in coded order. */
  function ZigzagOf(block: Block): (z: seq<int>)
    requires |block| == 64
    ensures |z| == 64
  {
    forall k | 0 <= k < 64 ensures Scan(k) < 64 { ZigzagTable(k); }
    seq(64, k requires 0 <= k < 64 => block[Scan(k)])
  }

  /** Coefficients in coded order put back. */
  function Unzigzag(z: seq<int>): (block: Block)
    requires |z| == 64
    ensures |block| == 64
  {
    forall i | 0 <= i < 64 ensures Zz(i) < 64 { ZigzagTable(i); }
    seq(64, i requires 0 <= i < 64 => z[Zz(i)])
  }

  lemma ZigzagInverts(block: Block)
    requires |block| == 64
    ensures Unzigzag(ZigzagOf(block)) == block
  {
    hide Zz, Scan;
    forall i | 0 <= i < 64 ensures Unzigzag(ZigzagOf(block))[i] == block[i] { ZigzagTable(i); }
  }

  lemma FirstStays(block: Block)
    requires |block| == 64
    ensures ZigzagOf(block)[0] == block[0]
  {
    assert Scan(0) == 0;
  }

  /** `zigzag`. */
  method Zigzag(block: Block) returns (tmp: array<int>)
    requires |block| == 64
    ensures fresh(tmp) && tmp[..] == ZigzagOf(block)
  {
    hide Zz, Scan;
    tmp := new int[64];
    for i := 0 to 64
      invariant forall k :: 0 <= k < i ==> Zz(k) < 64 && tmp[Zz(k)] == block[k]
    {
      ZigzagTable(i);
      forall k | 0 <= k < i ensures Zz(k) != Zz(i) { ZigzagTable(k); }
      tmp[Zz(i)] := block[i];
    }
    forall k | 0 <= k < 64 ensures tmp[k] == ZigzagOf(block)[k] { ZigzagTable(k); }
  }

  // ---------------------------------------------------------------- symbols

  datatype Sym = Sym(run: nat, value: int)

  /** The index of the last non-zero coefficient below `n`, or -1. */
  function LastNonzero(z: seq<int>, n: nat): (h: int)
    requires n <= |z|
    ensures -1 <= h < n && (h >= 0 ==> z[h] != 0) && forall k :: h < k < n ==> z[k] == 0
  {
    if n == 0 then -1 else if z[n - 1] != 0 then n - 1 else LastNonzero(z, n - 1)
  }

  /** The symbols of coefficients `j` up to `h`, after `zeros` zeros that are still to be counted. */
  function Runs(z: seq<int>, j: nat, h: int, zeros: nat, acc: seq<Sym>): seq<Sym>
    requires h < |z|
    decreases h - j
  {
    if j > h then acc
    else if z[j] != 0 then Runs(z, j + 1, h, 0, acc + [Sym(zeros, z[j])])
    else if zeros == 15 then Runs(z, j + 1, h, 0, acc + [Sym(15, 0)])
    else Runs(z, j + 1, h, zeros + 1, acc)
  }

  lemma {:induction false} RunsKeep(z: seq<int>, j: nat, h: int, zeros: nat, acc: seq<Sym>)
    requires h < |z|
    ensures |Runs(z, j, h, zeros, acc)| >= |acc|
    decreases h - j
  {
    if j <= h {
      if z[j] != 0 {
        RunsKeep(z, j + 1, h, 0, acc + [Sym(zeros, z[j])]);
      } else if zeros == 15 {
        RunsKeep(z, j + 1, h, 0, acc + [Sym(15, 0)]);
      } else {
        RunsKeep(z, j + 1, h, zeros + 1, acc);
      }
    }
  }

  lemma RunsNext(z: seq<int>, j: nat, h: int, zeros: nat, acc: seq<Sym>)
    requires j <= h < |z|
    ensures Runs(z, j, h, zeros, acc) ==
            if z[j] != 0 then Runs(z, j + 1, h, 0, acc + [Sym(zeros, z[j])])
            else if zeros == 15 then Runs(z, j + 1, h, 0, acc + [Sym(15, 0)])
            else Runs(z, j + 1, h, zeros + 1, acc)
    ensures (z[j] != 0 || zeros == 15) ==> |acc| + 1 <= |Runs(z, j, h, zeros, acc)|
  {
    if z[j] != 0 {
      RunsKeep(z, j + 1, h, 0, acc + [Sym(zeros, z[j])]);
    } else if zeros == 15 {
      RunsKeep(z, j + 1, h, 0, acc + [Sym(15, 0)]);
    }
  }

  lemma RunsOver(z: seq<int>, j: nat, h: int, zeros: nat, acc: seq<Sym>)
    requires h < |z| && j > h
    ensures Runs(z, j, h, zeros, acc) == acc
  {
  }

  const END_OF_BLOCK: Sym := Sym(0, 0)

  /** The coefficients of a block in coded order, the first as the difference to the previous block's. */
  function Differenced(block: Block, lastDC: int): (z: seq<int>)
    requires |block| == 64
    ensures |z| == 64
  {
    var z := ZigzagOf(block);
    z[0 := z[0] - lastDC]
  }

  function BlockSyms(z: seq<int>, acc: seq<Sym>): seq<Sym>
    requires |z| == 64
  {
    var h := LastNonzero(z, 64);
    Runs(z, 0, h, 0, acc) + if h < 63 then [END_OF_BLOCK] else []
  }

  predicate AllSize64(blocks: seq<Block>) {
    forall i :: 0 <= i < |blocks| ==> |blocks[i]| == 64
  }

  /** The DC value before block `n`. */
  function DcBefore(blocks: seq<Block>, n: nat): int
    requires n <= |blocks| && AllSize64(blocks)
  {
    if n == 0 then 0 else blocks[n - 1][0]
  }

  /** The symbols of the first `n` blocks. */
  function Syms(blocks: seq<Block>, n: nat): seq<Sym>
    requires n <= |blocks| && AllSize64(blocks)
  {
    if n == 0 then [] else BlockSyms(Differenced(blocks[n - 1], DcBefore(blocks, n - 1)), Syms(blocks, n - 1))
  }

  /** Symbols are only ever appended. */
  lemma {:induction false} RunsExtend(z: seq<int>, j: nat, h: int, zeros: nat, acc: seq<Sym>)
    requires h < |z|
    ensures acc <= Runs(z, j, h, zeros, acc)
    decreases h - j
  {
    if j <= h {
      if z[j] != 0 {
        RunsExtend(z, j + 1, h, 0, acc + [Sym(zeros, z[j])]);
      } else if zeros == 15 {
        RunsExtend(z, j + 1, h, 0, acc + [Sym(15, 0)]);
      } else {
        RunsExtend(z, j + 1, h, zeros + 1, acc);
      }
    }
  }

  lemma {:induction false} SymsExtend(blocks: seq<Block>, m: nat, n: nat)
    requires m <= n <= |blocks| && AllSize64(blocks)
    ensures Syms(blocks, m) <= Syms(blocks, n)
  {
    hide Differenced, Runs, LastNonzero;
    if m < n {
      SymsExtend(blocks, m, n - 1);
      var z := Differenced(blocks[n - 1], DcBefore(blocks, n - 1));
      RunsExtend(z, 0, LastNonzero(z, 64), 0, Syms(blocks, n - 1));
    }
  }

  // ---------------------------------------------------------------- which symbols a block gets

  /** A value other than 0, or sixteen zeros that are not the block's last ones. */
  predicate Counted(sym: Sym) {
    sym.run <= 15 && (sym.value != 0 || sym == Sym(15, 0))
  }

  /**
    * The shortest way to say it: the end of the block is there just when its last coefficient is 0, sixteen zeros stand
    * only where a value follows, and every other symbol has a value.
    */
  ghost predicate Canonical(s: seq<Sym>, full: bool) {
    && (forall i :: 0 <= i < |s| ==> if i == |s| - 1 && !full then s[i] == END_OF_BLOCK else Counted(s[i]))
    && (forall i :: 0 <= i < |s| && s[i] == Sym(15, 0) ==> i + 1 < |s| && s[i + 1] != END_OF_BLOCK)
    && s != []
  }

  ghost predicate AllCounted(r: seq<Sym>, from: nat) {
    forall i :: from <= i < |r| ==> Counted(r[i])
  }

  lemma {:induction false} RunsCounted(z: seq<int>, j: nat, h: int, zeros: nat, acc: seq<Sym>, from: nat)
    requires j <= h < |z| && z[h] != 0 && zeros <= 15 && from <= |acc| && AllCounted(acc, from)
    ensures var r := Runs(z, j, h, zeros, acc);
            from < |r| && AllCounted(r, from) && r[|r| - 1].value != 0
    decreases h - j
  {
    RunsNext(z, j, h, zeros, acc);
    if j == h {
      RunsOver(z, j + 1, h, 0, acc + [Sym(zeros, z[j])]);
    } else if z[j] != 0 {
      RunsCounted(z, j + 1, h, 0, acc + [Sym(zeros, z[j])], from);
    } else if zeros == 15 {
      RunsCounted(z, j + 1, h, 0, acc + [Sym(15, 0)], from);
    } else {
      RunsCounted(z, j + 1, h, zeros + 1, acc, from);
    }
  }

  lemma CountedIsCanonical(r: seq<Sym>, from: nat, full: bool)
    requires from <= |r| && AllCounted(r, from)
    requires if from < |r| then r[|r| - 1].value != 0 else !full
    ensures Canonical((r + if full then [] else [END_OF_BLOCK])[from..], full)
  {
  }

  /** With the symbols decoding to the block, this leaves no choice. */
  lemma BlockSymsCanonical(z: seq<int>, acc: seq<Sym>)
    requires |z| == 64
    ensures acc <= BlockSyms(z, acc) && Canonical(BlockSyms(z, acc)[|acc|..], z[63] != 0)
  {
    hide Runs, AllCounted, Canonical, LastNonzero;
    var h := LastNonzero(z, 64);
    RunsExtend(z, 0, h, 0, acc);
    NoneCounted(acc);
    if h >= 0 {
      RunsCounted(z, 0, h, 0, acc, |acc|);
    } else {
      RunsOver(z, 0, h, 0, acc);
    }
    CountedIsCanonical(Runs(z, 0, h, 0, acc), |acc|, h == 63);
  }

  lemma NoneCounted(acc: seq<Sym>)
    ensures AllCounted(acc, |acc|)
  {
  }

  // ---------------------------------------------------------------- decoding symbols

  function Zeros(n: nat): (z: seq<int>)
    ensures |z| == n && forall i :: 0 <= i < n ==> z[i] == 0
  {
    seq(n, _ => 0)
  }

  /** Blocks decoded, the part of the current one, and the last DC value. */
  datatype RleState = RleState(done: seq<Block>, cur: seq<int>, lastDC: int)

  /** Completes the block when all 64 coefficients are there. */
  function Finish(done: seq<Block>, cur: seq<int>, lastDC: int): RleState {
    if |cur| == 64 then
      RleState(done + [Unzigzag(cur[0 := cur[0] + lastDC])], [], cur[0] + lastDC)
    else RleState(done, cur, lastDC)
  }

  /** One symbol; `None` when it overruns the block. */
  function StepSym(st: RleState, sym: Sym): Option<RleState> {
    if |st.cur| >= 64 || (sym.run > 0 && |st.cur| + sym.run + 1 > 64) then None
    else if sym.run > 0 || sym.value != 0 then
      Some(Finish(st.done, st.cur + Zeros(sym.run) + [sym.value], st.lastDC))
    else
      Some(Finish(st.done, st.cur + Zeros(64 - |st.cur|), st.lastDC))
  }

  function FromSyms(syms: seq<Sym>): Option<RleState> {
    if syms == [] then Some(RleState([], [], 0)) else
      match FromSyms(syms[..|syms| - 1])
      case None => None
      case Some(st) => StepSym(st, syms[|syms| - 1])
  }

  lemma FromSymsSnoc(syms: seq<Sym>, sym: Sym)
    requires FromSyms(syms).Some?
    ensures FromSyms(syms + [sym]) == StepSym(FromSyms(syms).value, sym)
  {
    assert (syms + [sym])[..|syms|] == syms;
  }

  // ---------------------------------------------------------------- round trip

  /** The symbols so far decode to coefficients up to the pending zeros before `j`. */
  ghost predicate PendingRun(acc: seq<Sym>, done: seq<Block>, z: seq<int>, lastDC: int, j: nat, zeros: nat) {
    && |z| == 64 && zeros <= j < 64 && zeros <= 15
    && (forall k :: j - zeros <= k < j ==> z[k] == 0)
    && FromSyms(acc) == Some(RleState(done, z[..j - zeros], lastDC))
  }

  /** The symbols so far decode to a complete block. */
  ghost predicate BlockDone(acc: seq<Sym>, done: seq<Block>, z: seq<int>, lastDC: int) {
    |z| == 64 && FromSyms(acc) == Some(RleState(done + [Unzigzag(z[0 := z[0] + lastDC])], [], z[0] + lastDC))
  }

  lemma RunOfZeros(z: seq<int>, j: nat, zeros: nat)
    requires zeros <= j < |z| && forall k :: j - zeros <= k < j ==> z[k] == 0
    ensures z[..j - zeros] + Zeros(zeros) + [z[j]] == z[..j + 1]
  {
  }

  lemma PendingValue(acc: seq<Sym>, done: seq<Block>, z: seq<int>, lastDC: int, j: nat, zeros: nat)
    requires PendingRun(acc, done, z, lastDC, j, zeros) && (z[j] != 0 || zeros == 15)
    ensures j < 63 ==> PendingRun(acc + [Sym(zeros, z[j])], done, z, lastDC, j + 1, 0)
    ensures j == 63 ==> BlockDone(acc + [Sym(zeros, z[j])], done, z, lastDC)
  {
    hide FromSyms, Unzigzag;
    FromSymsSnoc(acc, Sym(zeros, z[j]));
    RunOfZeros(z, j, zeros);
    assert z[..64] == z;
  }

  lemma PendingZero(acc: seq<Sym>, done: seq<Block>, z: seq<int>, lastDC: int, j: nat, zeros: nat)
    requires PendingRun(acc, done, z, lastDC, j, zeros) && z[j] == 0 && zeros < 15 && j < 63
    ensures PendingRun(acc, done, z, lastDC, j + 1, zeros + 1)
  {
  }

  lemma PendingEnd(acc: seq<Sym>, done: seq<Block>, z: seq<int>, lastDC: int, j: nat)
    requires PendingRun(acc, done, z, lastDC, j, 0) && forall k :: j <= k < 64 ==> z[k] == 0
    ensures BlockDone(acc + [END_OF_BLOCK], done, z, lastDC)
  {
    hide FromSyms, Unzigzag;
    FromSymsSnoc(acc, END_OF_BLOCK);
    assert z[..j] + Zeros(64 - j) == z;
  }

  /** Either before coefficient `j` of a block, or past its last one. */
  ghost predicate RunState(acc: seq<Sym>, done: seq<Block>, z: seq<int>, lastDC: int, j: nat, zeros: nat) {
    if j < 64 then PendingRun(acc, done, z, lastDC, j, zeros) else BlockDone(acc, done, z, lastDC) && j == 64
  }

  lemma StepValue(acc: seq<Sym>, done: seq<Block>, z: seq<int>, lastDC: int, j: nat, zeros: nat)
    requires j < |z| == 64 && RunState(acc, done, z, lastDC, j, zeros) && (z[j] != 0 || zeros == 15)
    ensures RunState(acc + [Sym(zeros, z[j])], done, z, lastDC, j + 1, 0)
  {
    PendingValue(acc, done, z, lastDC, j, zeros);
    hide PendingRun, BlockDone;
  }

  lemma StepZero(acc: seq<Sym>, done: seq<Block>, z: seq<int>, lastDC: int, j: nat, zeros: nat)
    requires j < 63 && |z| == 64 && RunState(acc, done, z, lastDC, j, zeros) && z[j] == 0 && zeros != 15
    ensures RunState(acc, done, z, lastDC, j + 1, zeros + 1)
  {
    PendingZero(acc, done, z, lastDC, j, zeros);
    hide PendingRun, BlockDone;
  }

  /** The runs of a block decode to it, up to its last non-zero coefficient. */
  lemma {:induction false} RunsDecode(z: seq<int>, j: nat, h: int, zeros: nat, acc: seq<Sym>,
                                      done: seq<Block>, lastDC: int)
    requires |z| == 64 && -1 <= h < 64 && j <= h + 1 && (h >= 0 ==> z[h] != 0) && (j == h + 1 ==> zeros == 0)
    requires RunState(acc, done, z, lastDC, j, zeros)
    ensures RunState(Runs(z, j, h, zeros, acc), done, z, lastDC, h + 1, 0)
    decreases h - j
  {
    hide *;
    if j > h {
      RunsOver(z, j, h, zeros, acc);
    } else {
      RunsNext(z, j, h, zeros, acc);
      if z[j] != 0 {
        StepValue(acc, done, z, lastDC, j, zeros);
        RunsDecode(z, j + 1, h, 0, acc + [Sym(zeros, z[j])], done, lastDC);
      } else if zeros == 15 {
        StepValue(acc, done, z, lastDC, j, zeros);
        RunsDecode(z, j + 1, h, 0, acc + [Sym(15, 0)], done, lastDC);
      } else {
        StepZero(acc, done, z, lastDC, j, zeros);
        RunsDecode(z, j + 1, h, zeros + 1, acc, done, lastDC);
      }
    }
  }

  lemma RunStateStart(z: seq<int>, acc: seq<Sym>, done: seq<Block>, lastDC: int)
    requires |z| == 64 && FromSyms(acc) == Some(RleState(done, [], lastDC))
    ensures RunState(acc, done, z, lastDC, 0, 0)
  {
    assert z[..0] == [];
  }

  lemma RunStateEnd(z: seq<int>, acc: seq<Sym>, done: seq<Block>, lastDC: int, h: int)
    requires |z| == 64 && -1 <= h < 64 && RunState(acc, done, z, lastDC, h + 1, 0)
    requires forall k :: h < k < 64 ==> z[k] == 0
    ensures BlockDone(acc + if h < 63 then [END_OF_BLOCK] else [], done, z, lastDC)
  {
    hide PendingRun, BlockDone;
    if h < 63 {
      PendingEnd(acc, done, z, lastDC, h + 1);
    } else {
      assert acc + [] == acc;
    }
  }

  lemma BlockDecodes(z: seq<int>, acc: seq<Sym>, done: seq<Block>, lastDC: int)
    requires |z| == 64 && FromSyms(acc) == Some(RleState(done, [], lastDC))
    ensures BlockDone(BlockSyms(z, acc), done, z, lastDC)
  {
    hide RunState, BlockDone, FromSyms, Runs, LastNonzero;
    RunStateStart(z, acc, done, lastDC);
    var h := LastNonzero(z, 64);
    RunsDecode(z, 0, h, 0, acc, done, lastDC);
    RunStateEnd(z, Runs(z, 0, h, 0, acc), done, lastDC, h);
  }

  lemma DifferenceUndone(block: Block, lastDC: int)
    requires |block| == 64
    ensures var z := Differenced(block, lastDC);
            z[0] + lastDC == block[0] && Unzigzag(z[0 := z[0] + lastDC]) == block
  {
    hide ZigzagOf, Unzigzag;
    ZigzagInverts(block);
    FirstStays(block);
    assert Differenced(block, lastDC)[0 := block[0]] == ZigzagOf(block);
  }

  /** Decoding the symbols of any blocks gives the blocks: no symbol is taken for another. */
  lemma {:induction false} SymsDecode(blocks: seq<Block>, n: nat)
    requires n <= |blocks| && AllSize64(blocks)
    ensures FromSyms(Syms(blocks, n)) == Some(RleState(blocks[..n], [], DcBefore(blocks, n)))
  {
    hide BlockSyms, Differenced, Unzigzag;
    if n == 0 {
      assert blocks[..0] == [];
    } else {
      SymsDecode(blocks, n - 1);
      var dc := DcBefore(blocks, n - 1);
      var z := Differenced(blocks[n - 1], dc);
      BlockDecodes(z, Syms(blocks, n - 1), blocks[..n - 1], dc);
      DifferenceUndone(blocks[n - 1], dc);
      assert blocks[..n - 1] + [blocks[n - 1]] == blocks[..n];
    }
  }

  // ---------------------------------------------------------------- size and range of the symbols

  predicate Within(v: int, max: nat) {
    v <= max && -v <= max
  }

  /** A symbol that the coder produces from coefficients within `max`. */
  predicate SymFits(s: Sym, max: nat) {
    s.run <= 15 && Within(s.value, max)
  }

  lemma {:induction false} RunsBound(z: seq<int>, j: nat, h: int, zeros: nat, acc: seq<Sym>, max: nat)
    requires h < |z| && zeros <= 15 && j <= h + 1 && (h >= 0 ==> z[h] != 0) && (j > h ==> zeros == 0)
    requires forall k :: 0 <= k < |z| ==> Within(z[k], max)
    requires forall i :: 0 <= i < |acc| ==> SymFits(acc[i], max)
    ensures |acc| <= |Runs(z, j, h, zeros, acc)| <= |acc| + (h + 1 - j)
    ensures forall i :: 0 <= i < |Runs(z, j, h, zeros, acc)| ==> SymFits(Runs(z, j, h, zeros, acc)[i], max)
    decreases h - j
  {
    if j <= h {
      if z[j] != 0 {
        RunsBound(z, j + 1, h, 0, acc + [Sym(zeros, z[j])], max);
      } else if zeros == 15 {
        RunsBound(z, j + 1, h, 0, acc + [Sym(15, 0)], max);
      } else {
        RunsBound(z, j + 1, h, zeros + 1, acc, max);
      }
    }
  }

  /** Coefficients and DC differences within `max`. */
  ghost predicate InRange(blocks: seq<Block>, max: nat)
    requires AllSize64(blocks)
  {
    forall i :: 0 <= i < |blocks| ==>
      forall k :: 0 <= k < 64 ==> Within(Differenced(blocks[i], DcBefore(blocks, i))[k], max)
  }

  /** A block takes at least one symbol and at most 64, each with a 4-bit run. */
  lemma {:induction false} SymsBound(blocks: seq<Block>, n: nat, max: nat)
    requires n <= |blocks| && AllSize64(blocks) && InRange(blocks, max)
    ensures n <= |Syms(blocks, n)| <= 64 * n
    ensures forall i :: 0 <= i < |Syms(blocks, n)| ==> SymFits(Syms(blocks, n)[i], max)
  {
    hide Runs, Differenced;
    if n > 0 {
      SymsBound(blocks, n - 1, max);
      var z := Differenced(blocks[n - 1], DcBefore(blocks, n - 1));
      var h := LastNonzero(z, 64);
      RunsBound(z, 0, h, 0, Syms(blocks, n - 1), max);
      if h >= 0 { RunsSome(z, 0, h, 0, Syms(blocks, n - 1)); }
    }
  }

  lemma {:induction false} RunsSome(z: seq<int>, j: nat, h: int, zeros: nat, acc: seq<Sym>)
    requires 0 <= h < |z| && z[h] != 0 && j <= h
    ensures |Runs(z, j, h, zeros, acc)| > |acc|
    decreases h - j
  {
    if z[j] != 0 {
      RunsKeep(z, j + 1, h, 0, acc + [Sym(zeros, z[j])]);
    } else if zeros == 15 {
      RunsKeep(z, j + 1, h, 0, acc + [Sym(15, 0)]);
    } else {
      RunsSome(z, j + 1, h, zeros + 1, acc);
    }
  }
}
