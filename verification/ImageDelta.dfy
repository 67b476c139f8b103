/** Copy and insert instructions between two images (`idelta.c`) and their replay. */
module ImageDelta {
  import opened Common
  import opened ImageIndex

  // ---------------------------------------------------------------- finding a match

  /** The number of equal blocks from `a[i]` and `b[k]` on. */
  function CommonRun(a: seq<Block>, i: nat, b: seq<Block>, k: nat): (r: nat)
    ensures r > 0 ==> i + r <= |a| && k + r <= |b|
    decreases |a| - i
  {
    if i < |a| && k < |b| && a[i] == b[k] then 1 + CommonRun(a, i + 1, b, k + 1) else 0
  }

  /** The run is equal throughout, and cannot be extended. */
  lemma {:induction false} CommonRunIs(a: seq<Block>, i: nat, b: seq<Block>, k: nat)
    ensures var r := CommonRun(a, i, b, k);
            && (r > 0 ==> a[i..i + r] == b[k..k + r])
            && !(i + r < |a| && k + r < |b| && a[i + r] == b[k + r])
    decreases |a| - i
  {
    if i < |a| && k < |b| && a[i] == b[k] {
      CommonRunIs(a, i + 1, b, k + 1);
      var r := CommonRun(a, i, b, k);
      if r > 1 {
        assert a[i..i + r] == [a[i]] + a[i + 1..i + r];
        assert b[k..k + r] == [b[k]] + b[k + 1..k + r];
      }
    }
  }

  datatype Copy = Copy(x: nat, y: nat, len: nat)

  /** The run that starts at a listed position. */
  function RunAt(p: Pos, base: Plane, row: seq<Block>, column: nat): (r: nat)
    ensures r > 0 ==> column + r <= |row|
  {
    if p.y < |base| then CommonRun(base[p.y], p.x, row, column) else 0
  }

  /** The first listed position with the longest run. */
  function BestOf(list: seq<Pos>, base: Plane, row: seq<Block>, column: nat): (best: Copy)
    ensures best.len > 0 ==> column + best.len <= |row|
  {
    if list == [] then Copy(0, 0, 0) else
      var best := BestOf(list[..|list| - 1], base, row, column);
      var p := list[|list| - 1];
      var len := RunAt(p, base, row, column);
      if len > best.len then Copy(p.x, p.y, len) else best
  }

  /** No listed position has a longer run, and the one taken is the first that is as long. */
  lemma {:induction false} BestIsLongest(list: seq<Pos>, base: Plane, row: seq<Block>, column: nat)
    returns (at: nat)
    ensures var best := BestOf(list, base, row, column);
            && (forall i :: 0 <= i < |list| ==> RunAt(list[i], base, row, column) <= best.len)
            && (best.len > 0 ==>
                  && at < |list| && list[at] == Pos(best.x, best.y)
                  && RunAt(list[at], base, row, column) == best.len
                  && forall i :: 0 <= i < at ==> RunAt(list[i], base, row, column) < best.len)
  {
    hide CommonRun;
    at := 0;
    if list != [] {
      var n := |list| - 1;
      at := BestIsLongest(list[..n], base, row, column);
      assert forall i :: 0 <= i < n ==> list[..n][i] == list[i];
      if RunAt(list[n], base, row, column) > BestOf(list[..n], base, row, column).len {
        at := n;
      }
    }
  }

  // ---------------------------------------------------------------- instructions

  /** What one component is coded against: any hash, the base, and whether blocks are searched for by hash. */
  datatype Env = Env(hash: Hash, base: Plane, fixFlag: bool)

  /** The five instruction arrays. */
  datatype Code = Code(cpx: seq<nat>, cpy: seq<nat>, cpl: seq<nat>, inl: seq<nat>, inp: seq<Block>)

  /** The copy for the block at `column`, of length 0 when there is none. */
  function Best(env: Env, row: seq<Block>, y: nat, column: nat): (best: Copy)
    requires column < |row|
    ensures best.len > 0 ==> column + best.len <= |row|
  {
    if env.fixFlag then
      BestOf(Listing(env.hash, env.base, |env.base|, env.hash(row[column])), env.base, row, column)
    else if y < |env.base| then
      Copy(column, y, CommonRun(env.base[y], column, row, column))
    else
      Copy(column, y, 0)
  }

  /** The copy reads inside the base and reads the very blocks it stands for. */
  ghost predicate Copies(c: Copy, base: Plane, row: seq<Block>, column: nat) {
    && c.y < |base| && c.x + c.len <= |base[c.y]| && column + c.len <= |row|
    && base[c.y][c.x..c.x + c.len] == row[column..column + c.len]
  }

  lemma RunCopies(base: Plane, x: nat, y: nat, row: seq<Block>, column: nat)
    requires y < |base| && CommonRun(base[y], x, row, column) > 0
    ensures Copies(Copy(x, y, CommonRun(base[y], x, row, column)), base, row, column)
  {
    CommonRunIs(base[y], x, row, column);
  }

  lemma BestCopies(env: Env, row: seq<Block>, y: nat, column: nat)
    requires column < |row| && Best(env, row, y, column).len > 0
    ensures Copies(Best(env, row, y, column), env.base, row, column)
  {
    hide Copies, CommonRun, Listing, BestOf;
    if env.fixFlag {
      var list := Listing(env.hash, env.base, |env.base|, env.hash(row[column]));
      var at := BestIsLongest(list, env.base, row, column);
      RunCopies(env.base, list[at].x, list[at].y, row, column);
    } else {
      RunCopies(env.base, column, y, row, column);
    }
  }

  ghost predicate Occurs(block: Block, base: Plane) {
    exists y, x :: 0 <= y < |base| && 0 <= x < |base[y]| && base[y][x] == block
  }

  /** One of its occurrences is the first of a run of equal hashes. */
  ghost predicate OccursFirst(hash: Hash, block: Block, base: Plane) {
    exists y, x :: 0 <= y < |base| && 0 <= x < |base[y]| && base[y][x] == block && StartsRun(hash, base[y], x)
  }

  lemma ListedIsFirst(hash: Hash, block: Block, base: Plane, y: nat, x: nat)
    requires y < |base| && x < |base[y]| && base[y][x] == block
    ensures Pos(x, y) in Listing(hash, base, |base|, hash(block)) <==> StartsRun(hash, base[y], x)
  {
    hide Listing;
    ListingHas(hash, base, |base|, hash(block), Pos(x, y));
  }

  lemma RunAtFirst(p: Pos, base: Plane, row: seq<Block>, column: nat)
    requires column < |row|
    ensures RunAt(p, base, row, column) > 0 <==> p.y < |base| && p.x < |base[p.y]| && base[p.y][p.x] == row[column]
  {
  }

  /** Exactly when a block is inserted: when none of its occurrences in the base is the first of a run. */
  lemma InsertedIff(env: Env, row: seq<Block>, y: nat, column: nat)
    requires column < |row| && env.fixFlag
    ensures Best(env, row, y, column).len == 0 <==> !OccursFirst(env.hash, row[column], env.base)
  {
    hide Listing, BestOf, RunAt, StartsRun;
    var list := Listing(env.hash, env.base, |env.base|, env.hash(row[column]));
    var at := BestIsLongest(list, env.base, row, column);
    if Best(env, row, y, column).len > 0 {
      RunAtFirst(list[at], env.base, row, column);
      ListedIsFirst(env.hash, row[column], env.base, list[at].y, list[at].x);
    }
    if y', x :| 0 <= y' < |env.base| && 0 <= x < |env.base[y']| && env.base[y'][x] == row[column]
                && StartsRun(env.hash, env.base[y'], x) {
      ListedIsFirst(env.hash, row[column], env.base, y', x);
      RunAtFirst(Pos(x, y'), env.base, row, column);
    }
  }

  /**
    * A block is inserted just when the base component does not hold it, exactly if it is absent or one of its
    * occurrences is the first of a run.
    */
  lemma InsertedIffAbsent(env: Env, row: seq<Block>, y: nat, column: nat)
    requires column < |row| && env.fixFlag
    ensures (Best(env, row, y, column).len == 0 <==> !Occurs(row[column], env.base))
       <==> (!Occurs(row[column], env.base) || OccursFirst(env.hash, row[column], env.base))
  {
    hide Best;
    InsertedIff(env, row, y, column);
  }

  /** No other block of the base has the hash of `block`. */
  ghost predicate NoCollision(hash: Hash, block: Block, base: Plane) {
    forall y, x :: 0 <= y < |base| && 0 <= x < |base[y]| && hash(base[y][x]) == hash(block) ==> base[y][x] == block
  }

  /** Without a collision, the first block of the run that an occurrence is in is an occurrence, too. */
  lemma NoCollisionFinds(hash: Hash, block: Block, base: Plane)
    requires NoCollision(hash, block, base)
    ensures Occurs(block, base) <==> OccursFirst(hash, block, base)
  {
    if y, x :| 0 <= y < |base| && 0 <= x < |base[y]| && base[y][x] == block {
      hide StartsRun;
      var first := RunOf(hash, base[y], x);
      assert base[y][first] == block && StartsRun(hash, base[y], first);
    }
  }

  /**
    * With a collision it can be missed, whatever the hash: only the first of two neighbours that share one is listed,
    * and the second is inserted although the base holds it.
    */
  lemma CollisionHidesBlock(hash: Hash, a: Block, b: Block)
    requires a != b && hash(a) == hash(b)
    ensures Occurs(b, [[a, b]]) && Best(Env(hash, [[a, b]], true), [b], 0, 0).len == 0
  {
    hide Best;
    var base := [[a, b]];
    assert base[0][1] == b;
    if y, x :| 0 <= y < |base| && 0 <= x < |base[y]| && base[y][x] == b && StartsRun(hash, base[y], x) {
      assert false;
    }
    InsertedIff(Env(hash, base, true), [b], 0, 0);
  }

  /** A coefficient as 16 bits. */
  function Unsigned16(v: int): (r: nat)
    ensures r < 65536
  {
    v % 65536
  }

  /**
    * The hash that the program is built with. As `&` binds less tightly than `<<`, the coefficient at 1 does not count
    * at all and the one at 8 with its upper byte.
    */
  function DcHash(block: Block): nat {
    if |block| != 64 then 0 else
      Unsigned16(block[0]) % 256 * 0x100_0000 + Unsigned16(block[8]) / 256 * 256 + Unsigned16(block[9]) % 256
  }

  /** What the hash sees of a block: a byte each of three coefficients. */
  lemma DcHashSees(a: Block, b: Block)
    requires |a| == |b| == 64
    ensures DcHash(a) == DcHash(b) <==>
              && Unsigned16(a[0]) % 256 == Unsigned16(b[0]) % 256
              && Unsigned16(a[8]) / 256 == Unsigned16(b[8]) / 256
              && Unsigned16(a[9]) % 256 == Unsigned16(b[9]) % 256
    ensures DcHash(a) < 0x1_0000_0000
  {
    ThreeBytes(Unsigned16(a[0]) % 256, Unsigned16(a[8]) / 256, Unsigned16(a[9]) % 256,
               Unsigned16(b[0]) % 256, Unsigned16(b[8]) / 256, Unsigned16(b[9]) % 256);
  }

  lemma ThreeBytes(x: nat, y: nat, z: nat, x': nat, y': nat, z': nat)
    requires x < 256 && y < 256 && z < 256 && x' < 256 && y' < 256 && z' < 256
    ensures x * 0x100_0000 + y * 256 + z == x' * 0x100_0000 + y' * 256 + z' <==> x == x' && y == y' && z == z'
  {
  }

  /** Two blocks that differ in a coefficient other than those hide each other: either, next to the other, is missed. */
  lemma DcHashHidesBlock(block: Block, k: nat, v: int)
    requires |block| == 64 && k < 64 && k != 0 && k != 8 && k != 9 && v != block[k]
    ensures var a, b := block, block[k := v];
            && Occurs(b, [[a, b]]) && Best(Env(DcHash, [[a, b]], true), [b], 0, 0).len == 0
            && Occurs(a, [[b, a]]) && Best(Env(DcHash, [[b, a]], true), [a], 0, 0).len == 0
  {
    hide Best, Occurs, DcHash;
    var b := block[k := v];
    assert block[k] != b[k];
    DcHashSees(block, b);
    CollisionHidesBlock(DcHash, block, b);
    CollisionHidesBlock(DcHash, b, block);
  }

  /** The instructions of a row from `column` on, after `inLen` blocks that are still to be counted. */
  function RowCode(env: Env, row: seq<Block>, y: nat, column: nat, inLen: nat, acc: Code): Code
    requires column <= |row|
    decreases |row| - column
  {
    if column == |row| then
      if inLen > 0 then acc.(inl := acc.inl + [inLen]) else acc
    else
      var c := Best(env, row, y, column);
      if c.len > 0 then
        RowCode(env, row, y, column + c.len, 0, WithCopy(acc, c, inLen))
      else
        RowCode(env, row, y, column + 1, inLen + 1, acc.(inp := acc.inp + [row[column]]))
  }

  function WithCopy(acc: Code, c: Copy, inLen: nat): Code {
    Code(acc.cpx + [c.x], acc.cpy + [c.y], acc.cpl + [c.len], acc.inl + [inLen], acc.inp)
  }

  /** The instructions of the first `n` rows. */
  function PlaneCode(env: Env, target: Plane, n: nat, acc: Code): Code
    requires n <= |target|
  {
    if n == 0 then acc else RowCode(env, target[n - 1], n - 1, 0, 0, PlaneCode(env, target, n - 1, acc))
  }

  const NO_CODE: Code := Code([], [], [], [], [])

  // ---------------------------------------------------------------- literals of a component coded in place

  /** The blocks of a row from `column` on for which the base has another block, or none, at the same place. */
  function Changed(base: Plane, row: seq<Block>, y: nat, column: nat): seq<Block>
    requires column <= |row|
    decreases |row| - column
  {
    if column == |row| then [] else
      var same := y < |base| && column < |base[y]| && base[y][column] == row[column];
      (if same then [] else [row[column]]) + Changed(base, row, y, column + 1)
  }

  function ChangedRows(base: Plane, target: Plane, n: nat): seq<Block>
    requires n <= |target|
  {
    if n == 0 then [] else ChangedRows(base, target, n - 1) + Changed(base, target[n - 1], n - 1, 0)
  }

  lemma {:induction false} CopiedUnchanged(base: Plane, row: seq<Block>, y: nat, column: nat, n: nat)
    requires Copies(Copy(column, y, n), base, row, column)
    ensures Changed(base, row, y, column) == Changed(base, row, y, column + n)
    decreases n
  {
    if n > 0 {
      var a, b := base[y][column..column + n], row[column..column + n];
      assert a[0] == b[0];
      assert a[1..] == base[y][column + 1..column + n] && b[1..] == row[column + 1..column + n];
      CopiedUnchanged(base, row, y, column + 1, n - 1);
    }
  }

  lemma InPlaceBest(env: Env, row: seq<Block>, y: nat, column: nat)
    requires column < |row| && !env.fixFlag
    ensures var c := Best(env, row, y, column);
            && c.x == column && c.y == y
            && (c.len == 0 ==> Changed(env.base, row, y, column) == [row[column]] + Changed(env.base, row, y, column + 1))
  {
  }

  lemma {:induction false} InPlaceRow(env: Env, row: seq<Block>, y: nat, column: nat, inLen: nat, acc: Code)
    requires column <= |row| && !env.fixFlag
    ensures RowCode(env, row, y, column, inLen, acc).inp == acc.inp + Changed(env.base, row, y, column)
    decreases |row| - column
  {
    if column < |row| {
      var c := Best(env, row, y, column);
      InPlaceBest(env, row, y, column);
      hide Best, Changed, Copies;
      if c.len > 0 {
        BestCopies(env, row, y, column);
        CopiedUnchanged(env.base, row, y, column, c.len);
        InPlaceRow(env, row, y, column + c.len, 0, WithCopy(acc, c, inLen));
      } else {
        InPlaceRow(env, row, y, column + 1, inLen + 1, acc.(inp := acc.inp + [row[column]]));
      }
    }
  }

  /** Coded in place, the literals of a component are exactly its blocks that differ from the base, in order. */
  lemma {:induction false} InPlaceLiterals(env: Env, target: Plane, n: nat)
    requires n <= |target| && !env.fixFlag
    ensures PlaneCode(env, target, n, NO_CODE).inp == ChangedRows(env.base, target, n)
  {
    hide RowCode, Changed;
    if n > 0 {
      InPlaceLiterals(env, target, n - 1);
      InPlaceRow(env, target[n - 1], n - 1, 0, 0, PlaneCode(env, target, n - 1, NO_CODE));
    }
  }

  // ---------------------------------------------------------------- replay

  /** Replay state: blocks restored, blocks in the current row, literals and copies used up. */
  datatype Cursor = Cursor(out: seq<Block>, ready: nat, lit: nat, cp: nat)

  function StepLiterals(c: Cursor, n: nat, code: Code): Option<Cursor> {
    if c.lit + n <= |code.inp| then
      Some(Cursor(c.out + code.inp[c.lit..c.lit + n], c.ready + n, c.lit + n, c.cp))
    else None
  }

  /** One copy; `None` when it is missing or would read outside the base. */
  function StepCopy(c: Cursor, base: Plane, code: Code): Option<Cursor> {
    if c.cp < |code.cpx| && c.cp < |code.cpy| && c.cp < |code.cpl| then
      var x, y, len := code.cpx[c.cp], code.cpy[c.cp], code.cpl[c.cp];
      if y < |base| && x + len <= |base[y]| then
        Some(Cursor(c.out + base[y][x..x + len], c.ready + len, c.lit, c.cp + 1))
      else None
    else None
  }

  function EndStep(c: Cursor, width: nat): Cursor {
    if c.ready == width then c.(ready := 0) else c
  }

  /** One entry of the insert-length array. */
  function Step(c: Cursor, n: nat, base: Plane, width: nat, code: Code): Option<Cursor> {
    match StepLiterals(c, n, code)
    case None => None
    case Some(c1) =>
      if c1.ready < width then
        match StepCopy(c1, base, code)
        case None => None
        case Some(c2) => Some(EndStep(c2, width))
      else Some(EndStep(c1, width))
  }

  function Run(c: Cursor, lens: seq<nat>, base: Plane, width: nat, code: Code): Option<Cursor> {
    if lens == [] then Some(c) else
      match Run(c, lens[..|lens| - 1], base, width, code)
      case None => None
      case Some(d) => Step(d, lens[|lens| - 1], base, width, code)
  }

  lemma RunSnoc(c: Cursor, lens: seq<nat>, n: nat, base: Plane, width: nat, code: Code)
    requires Run(c, lens, base, width, code).Some?
    ensures Run(c, lens + [n], base, width, code) == Step(Run(c, lens, base, width, code).value, n, base, width, code)
  {
    assert (lens + [n])[..|lens|] == lens;
  }

  /** `a` with the streams of `b` after its own. */
  function Cat(a: Code, b: Code): Code {
    Code(a.cpx + b.cpx, a.cpy + b.cpy, a.cpl + b.cpl, a.inl + b.inl, a.inp + b.inp)
  }

  predicate Balanced(code: Code) {
    |code.cpx| == |code.cpy| == |code.cpl|
  }

  lemma StepExtend(c: Cursor, n: nat, base: Plane, width: nat, code: Code, more: Code)
    requires Step(c, n, base, width, code).Some? && Balanced(code)
    ensures Step(c, n, base, width, Cat(code, more)) == Step(c, n, base, width, code)
  {
    assert (code.inp + more.inp)[c.lit..c.lit + n] == code.inp[c.lit..c.lit + n];
    hide EndStep;
  }

  /** What is appended to the streams later does not change what was replayed. */
  lemma {:induction false} RunExtend(c: Cursor, lens: seq<nat>, base: Plane, width: nat, code: Code, more: Code)
    requires Run(c, lens, base, width, code).Some? && Balanced(code)
    ensures Run(c, lens, base, width, Cat(code, more)) == Run(c, lens, base, width, code)
  {
    hide Step, Cat;
    if lens != [] {
      var n := |lens| - 1;
      RunExtend(c, lens[..n], base, width, code, more);
      StepExtend(Run(c, lens[..n], base, width, code).value, lens[n], base, width, code, more);
    }
  }

  /** The same state, after `out` blocks restored with the streams of `pre`. */
  function Shift(c: Cursor, out: seq<Block>, pre: Code): Cursor {
    Cursor(out + c.out, c.ready, |pre.inp| + c.lit, |pre.cpx| + c.cp)
  }

  lemma LiteralsShift(c: Cursor, n: nat, code: Code, out: seq<Block>, pre: Code)
    requires StepLiterals(c, n, code).Some?
    ensures StepLiterals(Shift(c, out, pre), n, Cat(pre, code)) == Some(Shift(StepLiterals(c, n, code).value, out, pre))
  {
    var k := |pre.inp|;
    assert (pre.inp + code.inp)[k + c.lit..k + c.lit + n] == code.inp[c.lit..c.lit + n];
    assert out + c.out + code.inp[c.lit..c.lit + n] == out + (c.out + code.inp[c.lit..c.lit + n]);
  }

  lemma CopyShift(c: Cursor, base: Plane, code: Code, out: seq<Block>, pre: Code)
    requires StepCopy(c, base, code).Some? && Balanced(pre)
    ensures StepCopy(Shift(c, out, pre), base, Cat(pre, code)) == Some(Shift(StepCopy(c, base, code).value, out, pre))
  {
    var x, y, len := code.cpx[c.cp], code.cpy[c.cp], code.cpl[c.cp];
    assert out + c.out + base[y][x..x + len] == out + (c.out + base[y][x..x + len]);
  }

  lemma StepShift(c: Cursor, n: nat, base: Plane, width: nat, code: Code, out: seq<Block>, pre: Code)
    requires Step(c, n, base, width, code).Some? && Balanced(pre)
    ensures Step(Shift(c, out, pre), n, base, width, Cat(pre, code))
         == Some(Shift(Step(c, n, base, width, code).value, out, pre))
  {
    hide StepLiterals, StepCopy, Cat;
    LiteralsShift(c, n, code, out, pre);
    var c1 := StepLiterals(c, n, code).value;
    if c1.ready < width {
      CopyShift(c1, base, code, out, pre);
    }
  }

  /** Streams that follow others replay as they would on their own. */
  lemma {:induction false} RunShift(c: Cursor, lens: seq<nat>, base: Plane, width: nat, code: Code,
                                    out: seq<Block>, pre: Code)
    requires Run(c, lens, base, width, code).Some? && Balanced(pre)
    ensures Run(Shift(c, out, pre), lens, base, width, Cat(pre, code))
         == Some(Shift(Run(c, lens, base, width, code).value, out, pre))
  {
    hide Step, Cat, Shift;
    if lens != [] {
      var n := |lens| - 1;
      RunShift(c, lens[..n], base, width, code, out, pre);
      StepShift(Run(c, lens[..n], base, width, code).value, lens[n], base, width, code, out, pre);
    }
  }

  // ---------------------------------------------------------------- replay inverts coding

  const START: Cursor := Cursor([], 0, 0, 0)

  /** What the instructions so far restore, with `inLen` literals still uncounted before `column`. */
  ghost predicate Pending(code: Code, base: Plane, done: seq<Block>, row: seq<Block>, column: nat, inLen: nat) {
    && Balanced(code) && inLen <= column <= |row| && inLen <= |code.inp|
    && code.inp[|code.inp| - inLen..] == row[column - inLen..column]
    && Run(START, code.inl, base, |row|, code)
       == Some(Cursor(done + row[..column - inLen], if column - inLen == |row| then 0 else column - inLen,
                      |code.inp| - inLen, |code.cpx|))
  }

  lemma PendingLiteral(code: Code, base: Plane, done: seq<Block>, row: seq<Block>, column: nat, inLen: nat)
    requires Pending(code, base, done, row, column, inLen) && column < |row|
    ensures Pending(code.(inp := code.inp + [row[column]]), base, done, row, column + 1, inLen + 1)
  {
    hide Run;
    var code' := code.(inp := code.inp + [row[column]]);
    var more := NO_CODE.(inp := [row[column]]);
    RunExtend(START, code.inl, base, |row|, code, more);
    assert Cat(code, more) == code';
    assert code'.inp[|code'.inp| - (inLen + 1)..] == code.inp[|code.inp| - inLen..] + [row[column]];
  }

  /** Counting the pending literals restores them. */
  lemma LiteralsRestore(code: Code, done: seq<Block>, row: seq<Block>, column: nat, inLen: nat, c: Cursor)
    requires inLen <= column <= |row| && inLen <= |code.inp|
    requires code.inp[|code.inp| - inLen..] == row[column - inLen..column]
    requires c.out == done + row[..column - inLen] && c.lit == |code.inp| - inLen
    ensures StepLiterals(c, inLen, code)
         == Some(Cursor(done + row[..column], c.ready + inLen, |code.inp|, c.cp))
  {
    assert code.inp[|code.inp| - inLen..] == code.inp[|code.inp| - inLen..|code.inp|];
    assert done + row[..column - inLen] + row[column - inLen..column] == done + row[..column];
  }

  lemma CopyRestores(code: Code, base: Plane, done: seq<Block>, row: seq<Block>, column: nat, c: Copy, d: Cursor)
    requires Copies(c, base, row, column) && Balanced(code) && d.cp + 1 == |code.cpx|
    requires code.cpx[d.cp] == c.x && code.cpy[d.cp] == c.y && code.cpl[d.cp] == c.len
    requires d.out == done + row[..column]
    ensures StepCopy(d, base, code)
         == Some(Cursor(done + row[..column + c.len], d.ready + c.len, d.lit, |code.cpx|))
  {
    assert done + row[..column] + row[column..column + c.len] == done + row[..column + c.len];
  }

  lemma PendingCopy(code: Code, base: Plane, done: seq<Block>, row: seq<Block>, column: nat, inLen: nat, c: Copy)
    requires Pending(code, base, done, row, column, inLen) && column < |row|
    requires Copies(c, base, row, column) && c.len > 0
    ensures Pending(WithCopy(code, c, inLen), base, done, row, column + c.len, 0)
  {
    hide Run, StepLiterals, StepCopy, Copies;
    var code' := WithCopy(code, c, inLen);
    CopyInside(c, base, row, column);
    var d := ExtendPending(code, base, done, row, column, inLen, Code([c.x], [c.y], [c.len], [inLen], []));
    assert Cat(code, Code([c.x], [c.y], [c.len], [inLen], [])) == code';
    RunSnoc(START, code.inl, inLen, base, |row|, code');
    LiteralsRestore(code', done, row, column, inLen, d);
    var d1 := StepLiterals(d, inLen, code').value;
    CopyRestores(code', base, done, row, column, c, d1);
  }

  lemma CopyInside(c: Copy, base: Plane, row: seq<Block>, column: nat)
    requires Copies(c, base, row, column)
    ensures column + c.len <= |row|
  {
  }

  lemma ExtendPending(code: Code, base: Plane, done: seq<Block>, row: seq<Block>, column: nat, inLen: nat, more: Code)
    returns (d: Cursor)
    requires Pending(code, base, done, row, column, inLen)
    ensures Run(START, code.inl, base, |row|, Cat(code, more)) == Some(d)
    ensures d == Cursor(done + row[..column - inLen], if column - inLen == |row| then 0 else column - inLen,
                        |code.inp| - inLen, |code.cpx|)
  {
    hide Run;
    RunExtend(START, code.inl, base, |row|, code, more);
    d := Run(START, code.inl, base, |row|, code).value;
  }

  lemma PendingFlush(code: Code, base: Plane, done: seq<Block>, row: seq<Block>, inLen: nat)
    requires Pending(code, base, done, row, |row|, inLen) && inLen > 0
    ensures Pending(code.(inl := code.inl + [inLen]), base, done, row, |row|, 0)
  {
    hide Run, StepLiterals, StepCopy;
    var code' := code.(inl := code.inl + [inLen]);
    var d := ExtendPending(code, base, done, row, |row|, inLen, NO_CODE.(inl := [inLen]));
    assert Cat(code, NO_CODE.(inl := [inLen])) == code';
    RunSnoc(START, code.inl, inLen, base, |row|, code');
    LiteralsRestore(code', done, row, |row|, inLen, d);
  }

  /** Replaying the instructions of a row restores it. */
  lemma {:induction false} RowRestored(env: Env, row: seq<Block>, y: nat, column: nat, inLen: nat, acc: Code,
                                       done: seq<Block>)
    requires Pending(acc, env.base, done, row, column, inLen)
    ensures Pending(RowCode(env, row, y, column, inLen, acc), env.base, done, row, |row|, 0)
    decreases |row| - column
  {
    hide Pending, Best, WithCopy;
    PendingRange(acc, env.base, done, row, column, inLen);
    if column == |row| {
      if inLen > 0 { PendingFlush(acc, env.base, done, row, inLen); }
    } else {
      var c := Best(env, row, y, column);
      if c.len > 0 {
        BestCopies(env, row, y, column);
        PendingCopy(acc, env.base, done, row, column, inLen, c);
        RowRestored(env, row, y, column + c.len, 0, WithCopy(acc, c, inLen), done);
      } else {
        PendingLiteral(acc, env.base, done, row, column, inLen);
        RowRestored(env, row, y, column + 1, inLen + 1, acc.(inp := acc.inp + [row[column]]), done);
      }
    }
  }

  lemma PendingRange(code: Code, base: Plane, done: seq<Block>, row: seq<Block>, column: nat, inLen: nat)
    requires Pending(code, base, done, row, column, inLen)
    ensures inLen <= column <= |row|
  {
  }

  /** The blocks of the first `n` rows, one after another. */
  function Flat(p: Plane, n: nat): seq<Block>
    requires n <= |p|
  {
    if n == 0 then [] else Flat(p, n - 1) + p[n - 1]
  }

  ghost predicate Restores(code: Code, base: Plane, width: nat, blocks: seq<Block>) {
    && Balanced(code)
    && Run(START, code.inl, base, width, code) == Some(Cursor(blocks, 0, |code.inp|, |code.cpx|))
  }

  lemma NextRow(code: Code, base: Plane, done: seq<Block>, row: seq<Block>)
    requires Restores(code, base, |row|, done) && row != []
    ensures Pending(code, base, done, row, 0, 0)
  {
    hide Run;
    assert done + row[..0] == done;
  }

  lemma RowOver(code: Code, base: Plane, done: seq<Block>, row: seq<Block>)
    requires Pending(code, base, done, row, |row|, 0)
    ensures Restores(code, base, |row|, done + row)
  {
    hide Run;
    assert row[..|row|] == row;
  }

  /** A component's instructions restore it, use up every array, and read nothing outside the base. */
  lemma {:induction false} PlaneRestored(env: Env, target: Plane, width: nat, n: nat)
    requires n <= |target| && width > 0 && forall y :: 0 <= y < n ==> |target[y]| == width
    ensures Restores(PlaneCode(env, target, n, NO_CODE), env.base, width, Flat(target, n))
  {
    hide Pending, RowCode, Restores;
    if n == 0 {
      NothingToRestore(env.base, width);
    } else {
      PlaneRestored(env, target, width, n - 1);
      var before := PlaneCode(env, target, n - 1, NO_CODE);
      NextRow(before, env.base, Flat(target, n - 1), target[n - 1]);
      RowRestored(env, target[n - 1], n - 1, 0, 0, before, Flat(target, n - 1));
      RowOver(PlaneCode(env, target, n, NO_CODE), env.base, Flat(target, n - 1), target[n - 1]);
    }
  }

  lemma NothingToRestore(base: Plane, width: nat)
    ensures Restores(NO_CODE, base, width, [])
  {
  }
}
