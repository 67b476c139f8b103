/** Which instructions a merge makes: where copies from B are cut, what their pieces are, and where literals go. */
module MergeShape {
  import opened Common
  import opened Vcdiff
  import opened Merge

  // ---------------------------------------------------------------- where a byte comes from

  /** The instruction of `s` that makes a byte of its target once target copies are followed, and the place in it. */
  datatype Origin = Origin(inst: nat, offset: nat)

  function OriginOf(s: Delta, q: nat, ghost src: nat): (o: Origin)
    requires WellFormed(s, src) && q < End(s.inst)
    ensures o.inst < |s.inst| && o.offset < s.inst[o.inst].size && !CopiesTarget(s.inst[o.inst])
    decreases q
  {
    var k := Cover(s.inst, q);
    var w := s.inst[k];
    assert ValidInst(w, |s.adds|, src);
    if CopiesTarget(w) then OriginOf(s, w.addr + (q - w.position), src) else Origin(k, q - w.position)
  }

  /** An instruction begins at byte `q`, or at a byte that `q` is a copy of. */
  predicate Break(s: Delta, q: nat, ghost src: nat)
    requires WellFormed(s, src) && q < End(s.inst)
    decreases q
  {
    var w := s.inst[Cover(s.inst, q)];
    assert ValidInst(w, |s.adds|, src);
    q == w.position || (CopiesTarget(w) && Break(s, w.addr + (q - w.position), src))
  }

  // ---------------------------------------------------------------- the pieces of a copy

  /** The piece is what makes its first byte: of the same kind, and a copy from the same place. */
  ghost predicate FromOrigin(s: Delta, piece: Winst, q: nat, src: nat)
    requires WellFormed(s, src) && q < End(s.inst)
  {
    var o := OriginOf(s, q, src);
    var w := s.inst[o.inst];
    piece.kind == w.kind && (w.kind == Copy ==> piece.mode == w.mode && piece.addr == w.addr + o.offset)
  }

  /** Nothing begins inside the piece. */
  ghost predicate Unbroken(s: Delta, q: nat, size: nat, src: nat)
    requires WellFormed(s, src) && q + size <= End(s.inst)
  {
    forall j :: q < j < q + size ==> !Break(s, j, src)
  }

  /**
    * A piece for the bytes of B from `q` on. It is cut off before only if something begins there or, with `first`, the
    * copy does.
    */
  ghost predicate RightPiece(s: Delta, piece: Winst, q: nat, first: bool, src: nat)
    requires WellFormed(s, src)
  {
    && piece.size > 0 && q + piece.size <= End(s.inst) && FromOrigin(s, piece, q, src)
    && (first || Break(s, q, src)) && Unbroken(s, q, piece.size, src)
  }

  /** One piece of the copy of `size` bytes from `addr` to `pos`. */
  ghost predicate PieceOf(s: Delta, piece: Winst, addr: nat, size: nat, pos: nat, src: nat)
    requires WellFormed(s, src)
  {
    && pos <= piece.position && piece.position + piece.size <= pos + size
    && RightPiece(s, piece, addr + (piece.position - pos), piece.position == pos, src)
  }

  ghost predicate AllPieces(s: Delta, r: seq<Winst>, addr: nat, size: nat, pos: nat, src: nat)
    requires WellFormed(s, src)
  {
    forall i :: 0 <= i < |r| ==> PieceOf(s, r[i], addr, size, pos, src)
  }

  /** The list covers `from .. to` without a gap. */
  ghost predicate Tiles(r: seq<Winst>, from: nat, to: nat) {
    Contiguous(r, from) && to == if r == [] then from else End(r)
  }

  lemma JoinTiles(a: seq<Winst>, b: seq<Winst>, from: nat, mid: nat, to: nat)
    requires Tiles(a, from, mid) && Tiles(b, mid, to)
    ensures Tiles(a + b, from, to)
  {
    JoinContiguous(a, b, from, mid);
    if b == [] { assert a + b == a; }
  }

  lemma JoinAllPieces(s: Delta, a: seq<Winst>, b: seq<Winst>, addr: nat, take: nat, size: nat, pos: nat, src: nat)
    requires WellFormed(s, src) && 0 < take <= size && addr + size <= End(s.inst)
    requires AllPieces(s, a, addr, take, pos, src) && AllPieces(s, b, addr + take, size - take, pos + take, src)
    requires take < size ==> Break(s, addr + take, src)
    ensures AllPieces(s, a + b, addr, size, pos, src)
  {
    hide FromOrigin, Break, Unbroken, WellFormed;
    forall i | 0 <= i < |a + b| ensures PieceOf(s, (a + b)[i], addr, size, pos, src) {
      if i < |a| {
        assert (a + b)[i] == a[i];
      } else {
        assert (a + b)[i] == b[i - |a|];
      }
    }
  }

  /** Inside an instruction that copies the target, a byte breaks off where the byte it copies does. */
  lemma Followed(s: Delta, k: nat, q: nat, src: nat)
    requires WellFormed(s, src) && k < |s.inst| && CopiesTarget(s.inst[k])
    requires s.inst[k].position <= q < s.inst[k].position + s.inst[k].size
    ensures q < End(s.inst)
    ensures var q' := s.inst[k].addr + (q - s.inst[k].position);
            && q' < q && OriginOf(s, q, src) == OriginOf(s, q', src)
            && (q > s.inst[k].position ==> (Break(s, q, src) <==> Break(s, q', src)))
  {
    CoverUnique(s.inst, q, k);
    assert ValidInst(s.inst[k], |s.adds|, src);
  }

  lemma FollowPiece(s: Delta, k: nat, piece: Winst, addr: nat, take: nat, pos: nat, src: nat)
    requires WellFormed(s, src) && k < |s.inst| && CopiesTarget(s.inst[k])
    requires s.inst[k].position <= addr && addr + take <= s.inst[k].position + s.inst[k].size
    requires PieceOf(s, piece, s.inst[k].addr + (addr - s.inst[k].position), take, pos, src)
    ensures PieceOf(s, piece, addr, take, pos, src)
  {
    hide WellFormed, OriginOf, Break;
    var q := addr + (piece.position - pos);
    Followed(s, k, q, src);
    Followed(s, k, q + piece.size - 1, src);
    forall j | q < j < q + piece.size ensures !Break(s, j, src) {
      Followed(s, k, j, src);
    }
  }

  /** Inside any other instruction nothing breaks off but at its start. */
  lemma NotFollowed(s: Delta, k: nat, q: nat, src: nat)
    requires WellFormed(s, src) && k < |s.inst| && !CopiesTarget(s.inst[k])
    requires s.inst[k].position <= q < s.inst[k].position + s.inst[k].size
    ensures q < End(s.inst) && OriginOf(s, q, src) == Origin(k, q - s.inst[k].position)
    ensures Break(s, q, src) <==> q == s.inst[k].position
  {
    CoverUnique(s.inst, q, k);
  }

  lemma CutIs(s: Delta, k: nat, addr: nat, take: nat, pos: nat, adds: seq<byte>, src: nat) returns (x: Winst)
    requires WellFormed(s, src) && addr + take <= End(s.inst) && k < |s.inst| && !CopiesTarget(s.inst[k])
    requires s.inst[k].position <= addr && addr + take <= s.inst[k].position + s.inst[k].size
    ensures ResolveHead(s, k, addr, take, pos, adds, src).inst == [x]
    ensures x.position == pos && x.size == take && x.kind == s.inst[k].kind
    ensures x.kind == Copy ==> x.mode == s.inst[k].mode && x.addr == s.inst[k].addr + (addr - s.inst[k].position)
  {
    hide Resolve;
    assert ValidInst(s.inst[k], |s.adds|, src);
    x := ResolveHead(s, k, addr, take, pos, adds, src).inst[0];
  }

  /** One instruction that is no target copy makes one piece. */
  lemma CutPiece(s: Delta, k: nat, addr: nat, take: nat, pos: nat, adds: seq<byte>, src: nat)
    requires WellFormed(s, src) && k < |s.inst| && !CopiesTarget(s.inst[k]) && take > 0
    requires s.inst[k].position <= addr && addr + take <= s.inst[k].position + s.inst[k].size <= End(s.inst)
    ensures var r := ResolveHead(s, k, addr, take, pos, adds, src);
            AllPieces(s, r.inst, addr, take, pos, src) && Tiles(r.inst, pos, pos + take)
  {
    hide WellFormed, Break, OriginOf, ResolveHead;
    var x := CutIs(s, k, addr, take, pos, adds, src);
    NotFollowed(s, k, addr, src);
    forall j | addr < j < addr + take ensures !Break(s, j, src) {
      NotFollowed(s, k, j, src);
    }
  }

  /** A copy from B is cut exactly where something begins in it, and each piece is what makes its bytes. */
  lemma {:induction false} ResolvePieces(s: Delta, addr: nat, size: nat, pos: nat, adds: seq<byte>, src: nat)
    requires WellFormed(s, src) && addr + size <= End(s.inst)
    ensures var r := Resolve(s, addr, size, pos, adds, src);
            AllPieces(s, r.inst, addr, size, pos, src) && Tiles(r.inst, pos, pos + size)
    decreases addr + size, size, 2
  {
    if size == 0 {
      NoPieces(s, addr, pos, adds, src);
    } else {
      SomePieces(s, addr, size, pos, adds, src);
    }
  }

  lemma {:induction false} SomePieces(s: Delta, addr: nat, size: nat, pos: nat, adds: seq<byte>, src: nat)
    requires WellFormed(s, src) && addr + size <= End(s.inst) && size > 0
    ensures var r := Resolve(s, addr, size, pos, adds, src);
            AllPieces(s, r.inst, addr, size, pos, src) && Tiles(r.inst, pos, pos + size)
    decreases addr + size, size, 1
  {
    hide ResolveHead, Resolve, AllPieces, Tiles, Break, WellFormed, LastStart, Cover, End, ValidInst;
    var k := CoverOf(s, addr, src);
    var take := Take(s.inst[k], addr, size);
    HeadPieces(s, k, addr, take, pos, adds, src);
    var head := ResolveHead(s, k, addr, take, pos, adds, src);
    ResolvePieces(s, addr + take, size - take, pos + take, head.adds, src);
    var tail := Resolve(s, addr + take, size - take, pos + take, head.adds, src);
    ResolveStep(s, addr, size, pos, adds, src);
    if take < size { NextBreaks(s, k, addr + take, src); }
    JoinAllPieces(s, head.inst, tail.inst, addr, take, size, pos, src);
    JoinTiles(head.inst, tail.inst, pos, pos + take, pos + size);
  }

  lemma CoverOf(s: Delta, addr: nat, src: nat) returns (k: nat)
    requires WellFormed(s, src) && addr < End(s.inst)
    ensures Contiguous(s.inst, 0) && k == Cover(s.inst, addr) && k < |s.inst|
    ensures s.inst[k].position <= addr < s.inst[k].position + s.inst[k].size
  {
    k := Cover(s.inst, addr);
  }

  lemma NoPieces(s: Delta, addr: nat, pos: nat, adds: seq<byte>, src: nat)
    requires WellFormed(s, src) && addr <= End(s.inst)
    ensures var r := Resolve(s, addr, 0, pos, adds, src);
            AllPieces(s, r.inst, addr, 0, pos, src) && Tiles(r.inst, pos, pos)
  {
  }

  lemma NextBreaks(s: Delta, k: nat, q: nat, src: nat)
    requires WellFormed(s, src) && k < |s.inst| && q == s.inst[k].position + s.inst[k].size && q < End(s.inst)
    ensures Break(s, q, src)
  {
    NextCovers(s, k, q, src);
  }

  lemma {:induction false} HeadPieces(s: Delta, k: nat, addr: nat, take: nat, pos: nat, adds: seq<byte>, src: nat)
    requires WellFormed(s, src) && addr + take <= End(s.inst) && k < |s.inst| && take > 0
    requires s.inst[k].position <= addr && addr + take <= s.inst[k].position + s.inst[k].size
    ensures var r := ResolveHead(s, k, addr, take, pos, adds, src);
            AllPieces(s, r.inst, addr, take, pos, src) && Tiles(r.inst, pos, pos + take)
    decreases addr + take, take, 0
  {
    hide PieceOf, Resolve, Cut, Tiles;
    var w := s.inst[k];
    assert ValidInst(w, |s.adds|, src);
    if CopiesTarget(w) {
      var from := w.addr + (addr - w.position);
      ResolvePieces(s, from, take, pos, adds, src);
      var r := Resolve(s, from, take, pos, adds, src).inst;
      forall i | 0 <= i < |r| ensures PieceOf(s, r[i], addr, take, pos, src) {
        FollowPiece(s, k, r[i], addr, take, pos, src);
      }
    } else {
      InsideTarget(s, k, src);
      CutPiece(s, k, addr, take, pos, adds, src);
    }
  }

  lemma InsideTarget(s: Delta, k: nat, src: nat)
    requires WellFormed(s, src) && k < |s.inst|
    ensures s.inst[k].position + s.inst[k].size <= End(s.inst)
  {
    NextCovers(s, k, s.inst[k].position + s.inst[k].size, src);
  }

  // ---------------------------------------------------------------- the whole list

  /** `x` is made from instruction `c` of the input: a piece of it if it copies from B, otherwise it is taken over. */
  ghost predicate MadeFrom(s: Delta, input: Delta, x: Winst, c: nat, src: nat)
    requires WellFormed(s, src)
  {
    && c < |input.inst|
    && var w := input.inst[c];
       if w.kind == Copy && w.mode == InSource then PieceOf(s, x, w.addr, w.size, w.position, src)
       else x == if w.kind == Copy then w else w.(addr := x.addr)
  }

  ghost predicate MadeFromFirst(s: Delta, input: Delta, x: Winst, n: nat, src: nat)
    requires WellFormed(s, src)
  {
    exists c: nat :: c < n && MadeFrom(s, input, x, c, src)
  }

  ghost predicate AllMade(s: Delta, input: Delta, r: seq<Winst>, n: nat, src: nat)
    requires WellFormed(s, src)
  {
    forall i :: 0 <= i < |r| ==> MadeFromFirst(s, input, r[i], n, src)
  }

  lemma TakenOver(s: Delta, input: Delta, n: nat, acc: Delta, src: nat)
    requires WellFormed(s, src) && n < |input.inst| && ValidInst(input.inst[n], |input.adds|, End(s.inst))
    requires !(input.inst[n].kind == Copy && input.inst[n].mode == InSource)
    ensures var w := input.inst[n];
            var r := MergeOne(s, input, w, acc, src);
            exists x :: r.inst == acc.inst + [x] && x == (if w.kind == Copy then w else w.(addr := x.addr))
  {
    var w := input.inst[n];
    var r := MergeOne(s, input, w, acc, src);
    var x := r.inst[|acc.inst|];
    assert r.inst == acc.inst + [x];
  }

  lemma OneMade(s: Delta, input: Delta, n: nat, acc: Delta, src: nat) returns (r: seq<Winst>)
    requires WellFormed(s, src) && n < |input.inst| && ValidInst(input.inst[n], |input.adds|, End(s.inst))
    ensures MergeOne(s, input, input.inst[n], acc, src).inst == acc.inst + r
    ensures AllMade(s, input, r, n + 1, src)
    ensures Tiles(r, input.inst[n].position, input.inst[n].position + input.inst[n].size)
  {
    hide WellFormed, PieceOf, Resolve;
    var w := input.inst[n];
    if w.kind == Copy && w.mode == InSource {
      ResolvePieces(s, w.addr, w.size, w.position, acc.adds, src);
      r := Resolve(s, w.addr, w.size, w.position, acc.adds, src).inst;
      forall i | 0 <= i < |r| ensures MadeFromFirst(s, input, r[i], n + 1, src) {
        assert MadeFrom(s, input, r[i], n, src);
      }
    } else {
      TakenOver(s, input, n, acc, src);
      var x :| && MergeOne(s, input, w, acc, src).inst == acc.inst + [x]
               && x == (if w.kind == Copy then w else w.(addr := x.addr));
      r := [x];
      assert MadeFrom(s, input, x, n, src);
    }
  }

  lemma StillMade(s: Delta, input: Delta, a: seq<Winst>, b: seq<Winst>, n: nat, src: nat)
    requires WellFormed(s, src) && AllMade(s, input, a, n, src) && AllMade(s, input, b, n + 1, src)
    ensures AllMade(s, input, a + b, n + 1, src)
  {
    hide WellFormed, MadeFrom;
    forall i | 0 <= i < |a + b| ensures MadeFromFirst(s, input, (a + b)[i], n + 1, src) {
      if i < |a| {
        assert MadeFromFirst(s, input, a[i], n, src);
      } else {
        assert (a + b)[i] == b[i - |a|];
      }
    }
  }

  lemma EndOfFirst(inst: seq<Winst>, n: nat)
    requires n < |inst| && Contiguous(inst, 0)
    ensures End(inst[..n]) == inst[n].position && End(inst[..n + 1]) == inst[n].position + inst[n].size
  {
    assert inst[..n + 1][n] == inst[n];
    if n > 0 {
      assert inst[..n][n - 1] == inst[n - 1];
      assert inst[(n - 1) + 1].position == inst[n - 1].position + inst[n - 1].size;
    }
  }

  lemma {:induction false} FirstMade(s: Delta, input: Delta, n: nat, src: nat)
    requires WellFormed(s, src) && WellFormed(input, End(s.inst)) && n <= |input.inst|
    ensures var m := MergeFirst(s, input, n, src);
            AllMade(s, input, m.inst, n, src) && Tiles(m.inst, 0, End(input.inst[..n]))
    decreases n
  {
    hide MergeOne, MadeFromFirst, ValidInst;
    if n == 0 {
      assert MergeFirst(s, input, 0, src).inst == [];
    } else {
      FirstMade(s, input, n - 1, src);
      hide AllMade, Tiles;
      var acc := MergeFirst(s, input, n - 1, src);
      var r := OneMade(s, input, n - 1, acc, src);
      StillMade(s, input, acc.inst, r, n - 1, src);
      EndOfFirst(input.inst, n - 1);
      JoinTiles(acc.inst, r, 0, input.inst[n - 1].position, End(input.inst[..n]));
    }
  }

  /**
    * What the merged list is: it covers the target without a gap, and each instruction is one of the input taken over, or
    * a piece of a copy from B, cut exactly where something begins in B.
    */
  lemma MergedList(s: Delta, input: Delta, src: nat)
    requires WellFormed(s, src) && WellFormed(input, End(s.inst))
    ensures var m := Merged(s, input, src);
            AllMade(s, input, m.inst, |input.inst|, src) && Tiles(m.inst, 0, End(input.inst))
  {
    hide MergeFirst, AllMade, Tiles;
    FirstMade(s, input, |input.inst|, src);
    assert input.inst[..|input.inst|] == input.inst;
  }

  // ---------------------------------------------------------------- literals

  /** How many literal bytes an instruction has of its own. */
  function Literals(w: Winst): nat {
    if w.kind == Run then 1 else if w.kind == Add then w.size else 0
  }

  /** The instructions have the literal bytes from `a` to `b`, in order and each its own. */
  predicate Placed(inst: seq<Winst>, a: nat, b: nat) {
    if inst == [] then a == b
    else (Literals(inst[0]) > 0 ==> inst[0].addr == a) && Placed(inst[1..], a + Literals(inst[0]), b)
  }

  lemma {:induction false} JoinPlaced(x: seq<Winst>, y: seq<Winst>, a: nat, b: nat, c: nat)
    requires Placed(x, a, b) && Placed(y, b, c)
    ensures Placed(x + y, a, c)
  {
    if x == [] {
      assert x + y == y;
    } else {
      JoinPlaced(x[1..], y, a + Literals(x[0]), b, c);
      assert (x + y)[1..] == x[1..] + y;
    }
  }

  lemma OnePlaced(x: Winst, a: nat)
    requires Literals(x) > 0 ==> x.addr == a
    ensures Placed([x], a, a + Literals(x))
  {
    assert [x][1..] == [];
  }

  lemma {:induction false} ResolvePlaced(s: Delta, addr: nat, size: nat, pos: nat, adds: seq<byte>, src: nat)
    requires WellFormed(s, src) && addr + size <= End(s.inst)
    ensures var r := Resolve(s, addr, size, pos, adds, src);
            Placed(r.inst, |adds|, |r.adds|)
    decreases addr + size, size, 2
  {
    if size > 0 {
      SomePlaced(s, addr, size, pos, adds, src);
    } else {
      ResolveNothing(s, addr, pos, adds, src);
    }
  }

  lemma {:induction false} SomePlaced(s: Delta, addr: nat, size: nat, pos: nat, adds: seq<byte>, src: nat)
    requires WellFormed(s, src) && addr + size <= End(s.inst) && size > 0
    ensures var r := Resolve(s, addr, size, pos, adds, src);
            Placed(r.inst, |adds|, |r.adds|)
    decreases addr + size, size, 1
  {
    hide ResolveHead, Resolve, Placed, WellFormed, LastStart, Cover, End, ValidInst;
    var k := CoverOf(s, addr, src);
    var take := Take(s.inst[k], addr, size);
    HeadPlaced(s, k, addr, take, pos, adds, src);
    var head := ResolveHead(s, k, addr, take, pos, adds, src);
    ResolvePlaced(s, addr + take, size - take, pos + take, head.adds, src);
    var tail := Resolve(s, addr + take, size - take, pos + take, head.adds, src);
    ResolveStep(s, addr, size, pos, adds, src);
    JoinPlaced(head.inst, tail.inst, |adds|, |head.adds|, |tail.adds|);
  }

  lemma {:induction false} HeadPlaced(s: Delta, k: nat, addr: nat, take: nat, pos: nat, adds: seq<byte>, src: nat)
    requires WellFormed(s, src) && addr + take <= End(s.inst) && k < |s.inst| && take > 0
    requires s.inst[k].position <= addr && addr + take <= s.inst[k].position + s.inst[k].size
    ensures var r := ResolveHead(s, k, addr, take, pos, adds, src);
            Placed(r.inst, |adds|, |r.adds|)
    decreases addr + take, take, 0
  {
    hide Resolve, Placed;
    var w := s.inst[k];
    assert ValidInst(w, |s.adds|, src);
    if CopiesTarget(w) {
      ResolvePlaced(s, w.addr + (addr - w.position), take, pos, adds, src);
    } else {
      OnePlaced(ResolveHead(s, k, addr, take, pos, adds, src).inst[0], |adds|);
    }
  }

  lemma MergeOnePlaced(s: Delta, input: Delta, w: Winst, acc: Delta, src: nat)
    requires WellFormed(s, src) && ValidInst(w, |input.adds|, End(s.inst)) && Placed(acc.inst, 0, |acc.adds|)
    ensures var r := MergeOne(s, input, w, acc, src);
            Placed(r.inst, 0, |r.adds|)
  {
    hide Resolve, Placed, WellFormed;
    if w.kind == Copy && w.mode == InSource {
      ResolvePlaced(s, w.addr, w.size, w.position, acc.adds, src);
      var r := Resolve(s, w.addr, w.size, w.position, acc.adds, src);
      JoinPlaced(acc.inst, r.inst, 0, |acc.adds|, |r.adds|);
    } else {
      var x := MergeOne(s, input, w, acc, src).inst[|acc.inst|];
      OnePlaced(x, |acc.adds|);
      JoinPlaced(acc.inst, [x], 0, |acc.adds|, |acc.adds| + Literals(x));
    }
  }

  lemma {:induction false} FirstPlaced(s: Delta, input: Delta, n: nat, src: nat)
    requires WellFormed(s, src) && WellFormed(input, End(s.inst)) && n <= |input.inst|
    ensures var m := MergeFirst(s, input, n, src);
            Placed(m.inst, 0, |m.adds|)
    decreases n
  {
    hide MergeOne, ValidInst;
    if n > 0 {
      hide Placed;
      FirstPlaced(s, input, n - 1, src);
      MergeOnePlaced(s, input, input.inst[n - 1], MergeFirst(s, input, n - 1, src), src);
    }
  }

  /** The merged delta has no literal byte that is not of just one of its instructions, and has them in order. */
  lemma MergedLiterals(s: Delta, input: Delta, src: nat)
    requires WellFormed(s, src) && WellFormed(input, End(s.inst))
    ensures var m := Merged(s, input, src);
            Placed(m.inst, 0, |m.adds|)
  {
    hide MergeFirst, Placed;
    FirstPlaced(s, input, |input.inst|, src);
  }
}
