/** The block index of a base image component (`index.c`) and what a lookup in it proves. */
module ImageIndex {
  import opened Common

  /** The 64 coefficients of one block. */
  type Block = seq<int>

  /** One component of an image: rows of blocks. */
  type Plane = seq<seq<Block>>

  /** Any function of a block's contents. */
  type Hash = Block -> nat

  datatype Pos = Pos(x: nat, y: nat)

  predicate Rect(p: Plane, width: nat, height: nat) {
    |p| == height && forall y :: 0 <= y < height ==> |p[y]| == width
  }

  /** The block at `x` is the first of its row, or its hash differs from its left neighbour's. */
  predicate StartsRun(hash: Hash, row: seq<Block>, x: nat)
    requires x < |row|
  {
    x == 0 || hash(row[x]) != hash(row[x - 1])
  }

  /** The positions among the first `n` of row `y` that are listed under `h`. */
  function RowListing(hash: Hash, row: seq<Block>, y: nat, n: nat, h: nat): seq<Pos>
    requires n <= |row|
  {
    if n == 0 then [] else
      RowListing(hash, row, y, n - 1, h)
      + if StartsRun(hash, row, n - 1) && hash(row[n - 1]) == h then [Pos(n - 1, y)] else []
  }

  /** The positions in the first `rows` rows that are listed under `h`, in scan order. */
  function Listing(hash: Hash, base: Plane, rows: nat, h: nat): seq<Pos>
    requires rows <= |base|
  {
    if rows == 0 then [] else
      Listing(hash, base, rows - 1, h)
      + RowListing(hash, base[rows - 1], rows - 1, |base[rows - 1]|, h)
  }

  // ---------------------------------------------------------------- what a listing means

  ghost predicate InRow(hash: Hash, row: seq<Block>, n: nat, h: nat, x: nat)
    requires n <= |row|
  {
    x < n && hash(row[x]) == h && StartsRun(hash, row, x)
  }

  lemma {:induction false} RowListingHas(hash: Hash, row: seq<Block>, y: nat, n: nat, h: nat, p: Pos)
    requires n <= |row|
    ensures p in RowListing(hash, row, y, n, h) <==> p.y == y && InRow(hash, row, n, h, p.x)
  {
    if n > 0 {
      RowListingHas(hash, row, y, n - 1, h, p);
    }
  }

  ghost predicate InPlane(hash: Hash, base: Plane, rows: nat, h: nat, p: Pos)
    requires rows <= |base|
  {
    p.y < rows && InRow(hash, base[p.y], |base[p.y]|, h, p.x)
  }

  /** Exactly the first block of every equal-hash run is listed, under its own hash. */
  lemma {:induction false} ListingHas(hash: Hash, base: Plane, rows: nat, h: nat, p: Pos)
    requires rows <= |base|
    ensures p in Listing(hash, base, rows, h) <==> InPlane(hash, base, rows, h, p)
  {
    hide InRow, RowListing;
    if rows > 0 {
      ListingHas(hash, base, rows - 1, h, p);
      RowListingHas(hash, base[rows - 1], rows - 1, |base[rows - 1]|, h, p);
    }
  }

  /** Every block belongs to a run of equal hashes whose first block is listed. */
  lemma {:induction false} RunOf(hash: Hash, row: seq<Block>, x: nat) returns (first: nat)
    requires x < |row|
    ensures first <= x && InRow(hash, row, |row|, hash(row[x]), first)
    ensures forall k :: first <= k <= x ==> hash(row[k]) == hash(row[x])
  {
    first := x;
    if !StartsRun(hash, row, x) {
      first := RunOf(hash, row, x - 1);
    }
  }

  /** The hash occurs nowhere in the component. */
  ghost predicate HashAbsent(hash: Hash, base: Plane, h: nat) {
    forall y, x :: 0 <= y < |base| && 0 <= x < |base[y]| ==> hash(base[y][x]) != h
  }

  /** Skipping equal neighbours loses nothing: nothing is listed under a hash just when no block has it. */
  lemma MissMeansAbsent(hash: Hash, base: Plane, h: nat)
    ensures Listing(hash, base, |base|, h) == [] <==> HashAbsent(hash, base, h)
  {
    hide Listing, InRow;
    var list := Listing(hash, base, |base|, h);
    if list != [] {
      ListingHas(hash, base, |base|, h, list[0]);
      ListedHashes(hash, base, h, list[0]);
    } else {
      forall y, x | 0 <= y < |base| && 0 <= x < |base[y]| ensures hash(base[y][x]) != h {
        var first := RunOf(hash, base[y], x);
        ListingHas(hash, base, |base|, h, Pos(first, y));
        assert Pos(first, y) !in list;
      }
    }
  }

  lemma ListedHashes(hash: Hash, base: Plane, h: nat, p: Pos)
    requires InPlane(hash, base, |base|, h, p)
    ensures p.y < |base| && p.x < |base[p.y]| && hash(base[p.y][p.x]) == h
  {
  }

  /** So a block whose lookup misses is nowhere in the component, whatever the hash function. */
  lemma MissedBlockIsNew(hash: Hash, base: Plane, block: Block, y: nat, x: nat)
    requires Listing(hash, base, |base|, hash(block)) == []
    requires y < |base| && x < |base[y]|
    ensures base[y][x] != block
  {
    MissMeansAbsent(hash, base, hash(block));
  }

  // ---------------------------------------------------------------- building it

  class BlockIndex {
    var table: map<nat, seq<Pos>>

    constructor ()
      ensures table == map[]
    {
      table := map[];
    }

    /** The list found under `h`, empty when there is none. */
    function Lookup(h: nat): seq<Pos>
      reads this
    {
      if h in table then table[h] else []
    }

    /** The index lists what the first `rows` rows and `n` blocks of the next one give. */
    ghost predicate Lists(hash: Hash, base: Plane, rows: nat, n: nat)
      requires rows <= |base| && n <= if rows < |base| then |base[rows]| else 0
      reads this
    {
      forall h: nat :: Lookup(h) ==
        Listing(hash, base, rows, h) + if rows < |base| then RowListing(hash, base[rows], rows, n, h) else []
    }

    /** Appends to the list under `h`, which it creates if need be. */
    method Insert(h: nat, p: Pos)
      modifies this
      ensures Lookup(h) == old(Lookup(h)) + [p]
      ensures forall g: nat :: g != h ==> Lookup(g) == old(Lookup(g))
    {
      table := table[h := Lookup(h) + [p]];
    }

    /** One block of the scan. */
    method IndexBlock(hash: Hash, base: Plane, row: nat, column: nat, tmp: nat, flag: bool) returns (tmp': nat)
      requires row < |base| && column < |base[row]|
      requires flag <==> column == 0
      requires column > 0 ==> tmp == hash(base[row][column - 1])
      requires Lists(hash, base, row, column)
      modifies this
      ensures tmp' == hash(base[row][column])
      ensures Lists(hash, base, row, column + 1)
    {
      hide Listing;
      tmp' := tmp;
      var h := hash(base[row][column]);
      if h != tmp || flag {
        Insert(h, Pos(column, row));
        tmp' := h;
      }
      forall g: nat
        ensures Lookup(g) == Listing(hash, base, row, g) + RowListing(hash, base[row], row, column + 1, g)
      {
        assert old(Lookup(g)) == Listing(hash, base, row, g) + RowListing(hash, base[row], row, column, g);
      }
    }

    /** `index_sub_thread` over a whole component. */
    method IndexPlane(hash: Hash, base: Plane, width: nat, height: nat)
      requires Rect(base, width, height) && table == map[]
      modifies this
      ensures forall h: nat :: Lookup(h) == Listing(hash, base, height, h)
    {
      hide RowListing;
      NothingYet(hash, base);
      for row := 0 to height
        invariant Lists(hash, base, row, 0)
      {
        var tmp, flag := 0, true;
        for column := 0 to width
          invariant flag <==> column == 0
          invariant column > 0 ==> tmp == hash(base[row][column - 1])
          invariant Lists(hash, base, row, column)
        {
          tmp := IndexBlock(hash, base, row, column, tmp, flag);
          flag := false;
        }
        RowDone(hash, base, row);
      }
    }

    lemma NothingYet(hash: Hash, base: Plane)
      requires table == map[]
      ensures Lists(hash, base, 0, 0)
    {
    }

    lemma RowDone(hash: Hash, base: Plane, row: nat)
      requires row < |base| && Lists(hash, base, row, |base[row]|)
      ensures Lists(hash, base, row + 1, 0)
    {
      forall h: nat
        ensures Lookup(h) == Listing(hash, base, row + 1, h)
                  + if row + 1 < |base| then RowListing(hash, base[row + 1], row + 1, 0, h) else []
      {
      }
    }
  }
}
