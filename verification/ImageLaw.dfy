/**
  * What the instructions between two images are, told without the search that finds them: which blocks are copied, from
  * where and how far, and which are literals.
  */
module ImageLaw {
  import opened Common
  import opened ImageIndex
  import opened ImageDelta
  import ImageCodec

  /** The `n` blocks from `x` on in row `y` of the base are those from `column` on in `row`. */
  predicate EqualRun(base: Plane, y: nat, x: nat, row: seq<Block>, column: nat, n: nat) {
    && y < |base| && x + n <= |base[y]| && column + n <= |row|
    && base[y][x..x + n] == row[column..column + n]
  }

  /**
    * Where a copy may start: in search mode where the left neighbour has another hash or there is none, otherwise at the
    * same place only.
    */
  predicate MayStart(env: Env, y: nat, column: nat, y': nat, x': nat) {
    && y' < |env.base| && x' < |env.base[y']|
    && if env.fixFlag then StartsRun(env.hash, env.base[y'], x') else y' == y && x' == column
  }

  /** Row by row, and from left to right in a row. */
  predicate ScanBefore(y: nat, x: nat, y': nat, x': nat) {
    y < y' || (y == y' && x < x')
  }

  /** From where a copy may start there is none longer, and none as long that starts earlier. */
  ghost predicate FirstLongest(env: Env, row: seq<Block>, y: nat, column: nat, c: Copy) {
    forall y': nat, x': nat, n: nat :: MayStart(env, y, column, y', x') && EqualRun(env.base, y', x', row, column, n) ==>
      n < c.len || (n == c.len && !ScanBefore(y', x', c.y, c.x))
  }

  ghost predicate RightCopy(env: Env, row: seq<Block>, y: nat, column: nat, c: Copy) {
    && c.len > 0 && MayStart(env, y, column, c.y, c.x) && EqualRun(env.base, c.y, c.x, row, column, c.len)
    && FirstLongest(env, row, y, column, c)
  }

  /** The block is nowhere that a copy may start. */
  ghost predicate RightLiteral(env: Env, row: seq<Block>, y: nat, column: nat)
    requires column < |row|
  {
    forall y': nat, x': nat :: MayStart(env, y, column, y', x') ==> env.base[y'][x'] != row[column]
  }

  // ---------------------------------------------------------------- a row as a list of tokens

  datatype Token = Literal(block: Block) | Copied(copy: Copy)

  function Width(t: Token): nat {
    if t.Literal? then 1 else t.copy.len
  }

  ghost predicate RightToken(env: Env, row: seq<Block>, y: nat, column: nat, t: Token)
    requires column < |row|
  {
    match t
    case Literal(block) => block == row[column] && RightLiteral(env, row, y, column)
    case Copied(c) => RightCopy(env, row, y, column, c)
  }

  /** The tokens fill the row from `column` on, each right for the column that those before it lead to. */
  ghost predicate RowLaw(env: Env, row: seq<Block>, y: nat, column: nat, ts: seq<Token>)
    decreases |ts|
  {
    if ts == [] then column == |row|
    else
      && column < |row| && RightToken(env, row, y, column, ts[0])
      && RowLaw(env, row, y, column + Width(ts[0]), ts[1..])
  }

  /** The arrays that tokens make: with each copy the number of literals before it, and those left at the end. */
  function Arrays(ts: seq<Token>, inLen: nat): Code {
    if ts == [] then NO_CODE.(inl := if inLen > 0 then [inLen] else [])
    else
      match ts[0]
      case Literal(block) => Cat(NO_CODE.(inp := [block]), Arrays(ts[1..], inLen + 1))
      case Copied(c) => Cat(Code([c.x], [c.y], [c.len], [inLen], []), Arrays(ts[1..], 0))
  }

  // ---------------------------------------------------------------- listings are in scan order

  ghost predicate InScanOrder(list: seq<Pos>) {
    forall i, j :: 0 <= i < j < |list| ==> ScanBefore(list[i].y, list[i].x, list[j].y, list[j].x)
  }

  ghost predicate AllBelow(list: seq<Pos>, y: nat, x: nat) {
    forall i :: 0 <= i < |list| ==> ScanBefore(list[i].y, list[i].x, y, x)
  }

  lemma {:induction false} RowListingInOrder(hash: Hash, row: seq<Block>, y: nat, n: nat, h: nat)
    requires n <= |row|
    ensures InScanOrder(RowListing(hash, row, y, n, h)) && AllBelow(RowListing(hash, row, y, n, h), y, n)
    ensures forall i :: 0 <= i < |RowListing(hash, row, y, n, h)| ==> RowListing(hash, row, y, n, h)[i].y == y
  {
    if n > 0 {
      RowListingInOrder(hash, row, y, n - 1, h);
    }
  }

  lemma OrderJoins(a: seq<Pos>, b: seq<Pos>, y: nat)
    requires InScanOrder(a) && InScanOrder(b) && AllBelow(a, y, 0)
    requires forall i :: 0 <= i < |b| ==> b[i].y == y
    ensures InScanOrder(a + b)
  {
  }

  lemma {:induction false} ListingInOrder(hash: Hash, base: Plane, rows: nat, h: nat)
    requires rows <= |base|
    ensures InScanOrder(Listing(hash, base, rows, h)) && AllBelow(Listing(hash, base, rows, h), rows, 0)
  {
    if rows > 0 {
      hide RowListing;
      var y := rows - 1;
      ListingInOrder(hash, base, y, h);
      RowListingInOrder(hash, base[y], y, |base[y]|, h);
      OrderJoins(Listing(hash, base, y, h), RowListing(hash, base[y], y, |base[y]|, h), y);
    }
  }

  // ---------------------------------------------------------------- the search finds the right copy

  /** Equal blocks from a place on are as many as the search counts, at most. */
  lemma {:induction false} RunReaches(base: Plane, y: nat, x: nat, row: seq<Block>, column: nat, n: nat)
    requires EqualRun(base, y, x, row, column, n)
    ensures n <= CommonRun(base[y], x, row, column)
    decreases n
  {
    if n > 0 {
      var a, b := base[y][x..x + n], row[column..column + n];
      assert a[0] == b[0] && a[1..] == base[y][x + 1..x + n] && b[1..] == row[column + 1..column + n];
      RunReaches(base, y, x + 1, row, column + 1, n - 1);
    }
  }

  lemma EqualAsCounted(base: Plane, y: nat, x: nat, row: seq<Block>, column: nat)
    requires y < |base| && CommonRun(base[y], x, row, column) > 0
    ensures EqualRun(base, y, x, row, column, CommonRun(base[y], x, row, column))
  {
    CommonRunIs(base[y], x, row, column);
  }

  /** Equal blocks where a copy may start are counted at a listed position. */
  lemma StartIsListed(env: Env, row: seq<Block>, y: nat, column: nat, y': nat, x': nat, n: nat) returns (i: nat)
    requires column < |row| && env.fixFlag && n > 0
    requires MayStart(env, y, column, y', x') && EqualRun(env.base, y', x', row, column, n)
    ensures var list := Listing(env.hash, env.base, |env.base|, env.hash(row[column]));
            i < |list| && list[i] == Pos(x', y') && n <= RunAt(list[i], env.base, row, column)
  {
    hide Listing, StartsRun, CommonRun;
    var list := Listing(env.hash, env.base, |env.base|, env.hash(row[column]));
    RunReaches(env.base, y', x', row, column, n);
    assert env.base[y'][x'..x' + n][0] == row[column..column + n][0];
    ListedIsFirst(env.hash, row[column], env.base, y', x');
    i :| 0 <= i < |list| && list[i] == Pos(x', y');
  }

  lemma ListedMayStart(env: Env, row: seq<Block>, y: nat, column: nat, p: Pos)
    requires column < |row| && env.fixFlag && RunAt(p, env.base, row, column) > 0
    requires p in Listing(env.hash, env.base, |env.base|, env.hash(row[column]))
    ensures MayStart(env, y, column, p.y, p.x)
    ensures EqualRun(env.base, p.y, p.x, row, column, RunAt(p, env.base, row, column))
  {
    hide Listing, StartsRun, CommonRun, EqualRun;
    RunAtFirst(p, env.base, row, column);
    ListedIsFirst(env.hash, row[column], env.base, p.y, p.x);
    EqualAsCounted(env.base, p.y, p.x, row, column);
  }

  lemma SearchIsRight(env: Env, row: seq<Block>, y: nat, column: nat)
    requires column < |row| && env.fixFlag && Best(env, row, y, column).len > 0
    ensures RightCopy(env, row, y, column, Best(env, row, y, column))
  {
    hide Listing, BestOf, RunAt, MayStart, EqualRun;
    var list, c := Listing(env.hash, env.base, |env.base|, env.hash(row[column])), Best(env, row, y, column);
    var at := BestIsLongest(list, env.base, row, column);
    ListedMayStart(env, row, y, column, list[at]);
    forall y': nat, x': nat, n: nat | MayStart(env, y, column, y', x') && EqualRun(env.base, y', x', row, column, n)
      ensures n < c.len || (n == c.len && !ScanBefore(y', x', c.y, c.x))
    {
      if n > 0 {
        var i := StartIsListed(env, row, y, column, y', x', n);
        ListingInOrder(env.hash, env.base, |env.base|, env.hash(row[column]));
      }
    }
  }

  lemma InPlaceIsRight(env: Env, row: seq<Block>, y: nat, column: nat)
    requires column < |row| && !env.fixFlag && Best(env, row, y, column).len > 0
    ensures RightCopy(env, row, y, column, Best(env, row, y, column))
  {
    hide CommonRun;
    var c := Best(env, row, y, column);
    EqualAsCounted(env.base, y, column, row, column);
    forall y': nat, x': nat, n: nat | MayStart(env, y, column, y', x') && EqualRun(env.base, y', x', row, column, n)
      ensures n < c.len || (n == c.len && !ScanBefore(y', x', c.y, c.x))
    {
      RunReaches(env.base, y', x', row, column, n);
    }
  }

  lemma InPlaceNone(env: Env, row: seq<Block>, y: nat, column: nat)
    requires column < |row| && !env.fixFlag && Best(env, row, y, column).len == 0
    ensures RightLiteral(env, row, y, column)
  {
  }

  lemma NoneIsLiteral(env: Env, row: seq<Block>, y: nat, column: nat)
    requires column < |row| && Best(env, row, y, column).len == 0
    ensures RightLiteral(env, row, y, column)
  {
    hide StartsRun, Listing, BestOf;
    if env.fixFlag {
      InsertedIff(env, row, y, column);
    } else {
      InPlaceNone(env, row, y, column);
    }
  }

  /** The copy that is found is right; and if none is found, a literal is. */
  lemma BestIsRight(env: Env, row: seq<Block>, y: nat, column: nat)
    requires column < |row|
    ensures var c := Best(env, row, y, column);
            if c.len > 0 then RightCopy(env, row, y, column, c) else RightLiteral(env, row, y, column)
  {
    hide Best, RightCopy, RightLiteral;
    if Best(env, row, y, column).len == 0 {
      NoneIsLiteral(env, row, y, column);
    } else if env.fixFlag {
      SearchIsRight(env, row, y, column);
    } else {
      InPlaceIsRight(env, row, y, column);
    }
  }

  /** There is only one right copy, and none where a literal is right. */
  lemma RightIsUnique(env: Env, row: seq<Block>, y: nat, column: nat, c: Copy, c': Copy)
    requires column < |row| && RightCopy(env, row, y, column, c)
    ensures RightCopy(env, row, y, column, c') ==> c' == c
    ensures !RightLiteral(env, row, y, column)
  {
    hide StartsRun;
    assert env.base[c.y][c.x..c.x + c.len][0] == row[column..column + c.len][0];
  }

  // ---------------------------------------------------------------- rows

  lemma CopyTaken(env: Env, row: seq<Block>, y: nat, column: nat, c: Copy)
    requires column < |row| && RightCopy(env, row, y, column, c)
    ensures Best(env, row, y, column) == c
  {
    hide Best, RightCopy, RightLiteral;
    BestIsRight(env, row, y, column);
    RightIsUnique(env, row, y, column, c, Best(env, row, y, column));
  }

  lemma LiteralTaken(env: Env, row: seq<Block>, y: nat, column: nat)
    requires column < |row| && RightLiteral(env, row, y, column)
    ensures Best(env, row, y, column).len == 0
  {
    hide Best, RightCopy, RightLiteral;
    BestIsRight(env, row, y, column);
    if Best(env, row, y, column).len > 0 {
      RightIsUnique(env, row, y, column, Best(env, row, y, column), Best(env, row, y, column));
    }
  }

  lemma CatAssoc(a: Code, b: Code, c: Code)
    ensures Cat(Cat(a, b), c) == Cat(a, Cat(b, c))
  {
    assert (a.cpx + b.cpx) + c.cpx == a.cpx + (b.cpx + c.cpx);
    assert (a.cpy + b.cpy) + c.cpy == a.cpy + (b.cpy + c.cpy);
    assert (a.cpl + b.cpl) + c.cpl == a.cpl + (b.cpl + c.cpl);
    assert (a.inl + b.inl) + c.inl == a.inl + (b.inl + c.inl);
    assert (a.inp + b.inp) + c.inp == a.inp + (b.inp + c.inp);
  }

  /** Whatever tokens obey the law, the instructions of the row are theirs. */
  lemma {:induction false} RowCodeIsLawful(env: Env, row: seq<Block>, y: nat, column: nat, inLen: nat, acc: Code,
                                           ts: seq<Token>)
    requires column <= |row| && RowLaw(env, row, y, column, ts)
    ensures RowCode(env, row, y, column, inLen, acc) == Cat(acc, Arrays(ts, inLen))
    decreases |ts|
  {
    hide Best, RightCopy, RightLiteral, Cat;
    if ts == [] {
      NothingLeft(acc, inLen);
    } else {
      TokenFits(env, row, y, column, ts[0]);
      var one, acc' := TokenArrays(ts[0], acc, inLen);
      if ts[0].Copied? {
        CopyTaken(env, row, y, column, ts[0].copy);
        RowCodeIsLawful(env, row, y, column + Width(ts[0]), 0, acc', ts[1..]);
        CatAssoc(acc, one, Arrays(ts[1..], 0));
      } else {
        LiteralTaken(env, row, y, column);
        RowCodeIsLawful(env, row, y, column + 1, inLen + 1, acc', ts[1..]);
        CatAssoc(acc, one, Arrays(ts[1..], inLen + 1));
      }
    }
  }

  lemma NothingLeft(acc: Code, inLen: nat)
    ensures Cat(acc, Arrays([], inLen)) == if inLen > 0 then acc.(inl := acc.inl + [inLen]) else acc
  {
  }

  lemma TokenFits(env: Env, row: seq<Block>, y: nat, column: nat, t: Token)
    requires column < |row| && RightToken(env, row, y, column, t)
    ensures 0 < Width(t) && column + Width(t) <= |row|
  {
  }

  lemma TokenArrays(t: Token, acc: Code, inLen: nat) returns (one: Code, acc': Code)
    ensures one == if t.Literal? then NO_CODE.(inp := [t.block])
                   else Code([t.copy.x], [t.copy.y], [t.copy.len], [inLen], [])
    ensures acc' == if t.Literal? then acc.(inp := acc.inp + [t.block]) else WithCopy(acc, t.copy, inLen)
    ensures acc' == Cat(acc, one)
  {
    one := if t.Literal? then NO_CODE.(inp := [t.block]) else Code([t.copy.x], [t.copy.y], [t.copy.len], [inLen], []);
    acc' := if t.Literal? then acc.(inp := acc.inp + [t.block]) else WithCopy(acc, t.copy, inLen);
  }

  /** Some tokens do obey it. */
  lemma {:induction false} LawCanBeObeyed(env: Env, row: seq<Block>, y: nat, column: nat) returns (ts: seq<Token>)
    requires column <= |row|
    ensures RowLaw(env, row, y, column, ts)
    decreases |row| - column
  {
    hide Best, RightCopy, RightLiteral;
    if column == |row| {
      ts := [];
    } else {
      BestIsRight(env, row, y, column);
      var c := Best(env, row, y, column);
      var t := if c.len > 0 then Copied(c) else Literal(row[column]);
      TokenFits(env, row, y, column, t);
      var rest := LawCanBeObeyed(env, row, y, column + Width(t));
      ts := [t] + rest;
      assert ts[1..] == rest;
    }
  }

  // ---------------------------------------------------------------- components

  ghost predicate PlaneLaw(env: Env, target: Plane, tss: seq<seq<Token>>) {
    |tss| == |target| && forall y :: 0 <= y < |target| ==> RowLaw(env, target[y], y, 0, tss[y])
  }

  function PlaneArrays(tss: seq<seq<Token>>, n: nat): Code
    requires n <= |tss|
  {
    if n == 0 then NO_CODE else Cat(PlaneArrays(tss, n - 1), Arrays(tss[n - 1], 0))
  }

  lemma {:induction false} PlaneCodeIsLawful(env: Env, target: Plane, tss: seq<seq<Token>>, n: nat)
    requires PlaneLaw(env, target, tss) && n <= |target|
    ensures PlaneCode(env, target, n, NO_CODE) == PlaneArrays(tss, n)
  {
    hide RowLaw, RowCode, Cat, Arrays;
    if n > 0 {
      PlaneCodeIsLawful(env, target, tss, n - 1);
      RowCodeIsLawful(env, target[n - 1], n - 1, 0, 0, PlaneCode(env, target, n - 1, NO_CODE), tss[n - 1]);
    }
  }

  lemma {:induction false} LawfulPlane(env: Env, target: Plane, n: nat) returns (tss: seq<seq<Token>>)
    requires n <= |target|
    ensures |tss| == n && forall y :: 0 <= y < n ==> RowLaw(env, target[y], y, 0, tss[y])
  {
    hide RowLaw;
    tss := [];
    if n > 0 {
      tss := LawfulPlane(env, target, n - 1);
      var ts := LawCanBeObeyed(env, target[n - 1], n - 1, 0);
      tss := tss + [ts];
    }
  }

  /** The instructions of a component are those that the law demands: there are such, and no others. */
  lemma InstructionsAreLawful(env: Env, target: Plane, code: Code)
    ensures PlaneCode(env, target, |target|, NO_CODE) == code
       <==> exists tss :: PlaneLaw(env, target, tss) && PlaneArrays(tss, |target|) == code
  {
    hide RowLaw, PlaneCode, PlaneArrays;
    var tss := LawfulPlane(env, target, |target|);
    PlaneCodeIsLawful(env, target, tss, |target|);
    if tss' :| PlaneLaw(env, target, tss') && PlaneArrays(tss', |target|) == code {
      PlaneCodeIsLawful(env, target, tss', |target|);
    }
  }

  // ---------------------------------------------------------------- what follows

  /** No block of the row is hidden by its left neighbours wherever the base has it. */
  ghost predicate NoneHidden(env: Env, row: seq<Block>) {
    forall k :: 0 <= k < |row| ==> OccursFirst(env.hash, row[k], env.base)
  }

  lemma FirstIsCopied(env: Env, row: seq<Block>, y: nat, column: nat)
    requires env.fixFlag && column < |row| && OccursFirst(env.hash, row[column], env.base)
    ensures !RightLiteral(env, row, y, column)
  {
  }

  lemma {:induction false} NoLiteralInRow(env: Env, row: seq<Block>, y: nat, column: nat, inLen: nat, ts: seq<Token>)
    requires env.fixFlag && NoneHidden(env, row) && RowLaw(env, row, y, column, ts)
    ensures Arrays(ts, inLen).inp == []
    decreases |ts|
  {
    hide RightCopy, RightLiteral, OccursFirst;
    if ts != [] {
      FirstIsCopied(env, row, y, column);
      NoLiteralInRow(env, row, y, column + Width(ts[0]), 0, ts[1..]);
    }
  }

  lemma {:induction false} NoLiteralInRows(env: Env, target: Plane, tss: seq<seq<Token>>, n: nat)
    requires env.fixFlag && PlaneLaw(env, target, tss) && n <= |target|
    requires forall y :: 0 <= y < |target| ==> NoneHidden(env, target[y])
    ensures PlaneArrays(tss, n).inp == []
  {
    hide RowLaw, NoneHidden, Arrays;
    if n > 0 {
      NoLiteralInRows(env, target, tss, n - 1);
      NoLiteralInRow(env, target[n - 1], n - 1, 0, 0, tss[n - 1]);
    }
  }

  /** In search mode a component without a hidden block is coded without a literal, wherever its blocks stand. */
  lemma NoLiteral(env: Env, target: Plane)
    requires env.fixFlag && forall y :: 0 <= y < |target| ==> NoneHidden(env, target[y])
    ensures PlaneCode(env, target, |target|, NO_CODE).inp == []
  {
    hide NoneHidden, RowLaw, PlaneArrays, PlaneCode;
    var code := PlaneCode(env, target, |target|, NO_CODE);
    InstructionsAreLawful(env, target, code);
    var tss :| PlaneLaw(env, target, tss) && PlaneArrays(tss, |target|) == code;
    NoLiteralInRows(env, target, tss, |target|);
  }

  // ---------------------------------------------------------------- images

  /** `whole` is three streams one after another. */
  predicate Joined<T(==)>(whole: seq<T>, a: seq<T>, b: seq<T>, c: seq<T>) {
    whole == a + b + c
  }

  /** The arrays of an image are the lawful ones of its three components, in order, with the entries of each counted. */
  lemma ImageIsLawful(hash: Hash, fixFlag: bool, base: ImageCodec.Image, target: ImageCodec.Image)
    returns (a: Code, b: Code, c: Code)
    ensures exists tss :: PlaneLaw(Env(hash, base[0], fixFlag), target[0], tss) && PlaneArrays(tss, |target[0]|) == a
    ensures exists tss :: PlaneLaw(Env(hash, base[1], fixFlag), target[1], tss) && PlaneArrays(tss, |target[1]|) == b
    ensures exists tss :: PlaneLaw(Env(hash, base[2], fixFlag), target[2], tss) && PlaneArrays(tss, |target[2]|) == c
    ensures var d := ImageCodec.ImageCode(hash, fixFlag, base, target);
            && d.counter == [|a.inl|, |b.inl|, |c.inl|] && Joined(d.code.inl, a.inl, b.inl, c.inl)
            && Joined(d.code.inp, a.inp, b.inp, c.inp) && Joined(d.code.cpl, a.cpl, b.cpl, c.cpl)
            && Joined(d.code.cpx, a.cpx, b.cpx, c.cpx) && Joined(d.code.cpy, a.cpy, b.cpy, c.cpy)
  {
    hide PlaneLaw, PlaneArrays, PlaneCode;
    a := PlaneCode(Env(hash, base[0], fixFlag), target[0], |target[0]|, NO_CODE);
    b := PlaneCode(Env(hash, base[1], fixFlag), target[1], |target[1]|, NO_CODE);
    c := PlaneCode(Env(hash, base[2], fixFlag), target[2], |target[2]|, NO_CODE);
    InstructionsAreLawful(Env(hash, base[0], fixFlag), target[0], a);
    InstructionsAreLawful(Env(hash, base[1], fixFlag), target[1], b);
    InstructionsAreLawful(Env(hash, base[2], fixFlag), target[2], c);
  }
}
