/** The whole path of one image: instructions against a base, coded literals, and back. */
module ImageEndToEnd {
  import opened Common
  import opened ImageIndex
  import opened ImageDelta
  import opened ImageCodec
  import opened LiteralRle
  import opened LiteralVli
  import R = Rejpeg

  /** Coefficients as a JPEG image has them: no difference of two DC values needs more than 12 bits. */
  ghost predicate GoodBlock(b: Block) {
    && |b| == 64 && Within(b[0], 2047)
    && forall k :: 0 <= k < 64 ==> Within(b[k], 4095)
  }

  ghost predicate GoodBlocks(blocks: seq<Block>) {
    forall i :: 0 <= i < |blocks| ==> GoodBlock(blocks[i])
  }

  lemma GoodDifference(block: Block, lastDC: int, k: nat)
    requires GoodBlock(block) && Within(lastDC, 2047) && k < 64
    ensures Within(Differenced(block, lastDC)[k], MAX_VALUE)
  {
    hide Zz, Scan;
    FirstStays(block);
    ZigzagTable(k);
  }

  lemma GoodInRange(blocks: seq<Block>)
    requires GoodBlocks(blocks)
    ensures AllSize64(blocks) && InRange(blocks, MAX_VALUE)
  {
    GoodSizes(blocks);
    hide Differenced, GoodBlocks;
    forall i | 0 <= i < |blocks|
      ensures forall k :: 0 <= k < 64 ==> Within(Differenced(blocks[i], DcBefore(blocks, i))[k], MAX_VALUE)
    {
      GoodDc(blocks, i);
      hide GoodBlock;
      forall k | 0 <= k < 64 ensures Within(Differenced(blocks[i], DcBefore(blocks, i))[k], MAX_VALUE) {
        GoodDifference(blocks[i], DcBefore(blocks, i), k);
      }
    }
  }

  lemma GoodSizes(blocks: seq<Block>)
    requires GoodBlocks(blocks)
    ensures AllSize64(blocks)
  {
  }

  lemma GoodDc(blocks: seq<Block>, i: nat)
    requires GoodBlocks(blocks) && i < |blocks|
    ensures AllSize64(blocks) && GoodBlock(blocks[i]) && Within(DcBefore(blocks, i), 2047)
  {
    GoodSizes(blocks);
    if i > 0 { assert GoodBlock(blocks[i - 1]); }
  }

  // ---------------------------------------------------------------- the literals are blocks of the target

  lemma {:induction false} RowLiterals(env: Env, row: seq<Block>, y: nat, column: nat, inLen: nat, acc: Code)
    requires column <= |row| && GoodBlocks(row) && GoodBlocks(acc.inp)
    ensures GoodBlocks(RowCode(env, row, y, column, inLen, acc).inp)
    ensures |RowCode(env, row, y, column, inLen, acc).inp| <= |acc.inp| + |row| - column
    decreases |row| - column
  {
    hide Best, GoodBlock;
    if column < |row| {
      var c := Best(env, row, y, column);
      if c.len > 0 {
        RowLiterals(env, row, y, column + c.len, 0, WithCopy(acc, c, inLen));
      } else {
        RowLiterals(env, row, y, column + 1, inLen + 1, acc.(inp := acc.inp + [row[column]]));
      }
    }
  }

  lemma {:induction false} PlaneLiterals(env: Env, target: Plane, width: nat, n: nat)
    requires n <= |target| && forall y :: 0 <= y < n ==> |target[y]| == width && GoodBlocks(target[y])
    ensures GoodBlocks(PlaneCode(env, target, n, NO_CODE).inp)
    ensures |PlaneCode(env, target, n, NO_CODE).inp| <= Blocks(width, n)
  {
    hide RowCode, Blocks, GoodBlocks;
    if n == 0 {
      OneMoreRow(width, 0);
      NoBlocks();
    } else {
      PlaneLiterals(env, target, width, n - 1);
      RowLiterals(env, target[n - 1], n - 1, 0, 0, PlaneCode(env, target, n - 1, NO_CODE));
      OneMoreRow(width, n - 1);
    }
  }

  lemma NoBlocks()
    ensures GoodBlocks([])
  {
  }

  ghost predicate GoodImage(image: Image) {
    forall i, y :: 0 <= i < 3 && 0 <= y < |image[i]| ==> GoodBlocks(image[i][y])
  }

  lemma ComponentLiterals(hash: Hash, fixFlag: bool, base: Image, target: Image, i: nat, tw: seq<nat>, th: seq<nat>)
    requires i < 3 && Shaped(target, tw, th) && GoodImage(target)
    ensures GoodBlocks(ComponentCode(hash, fixFlag, base[i], target[i]).inp)
    ensures |ComponentCode(hash, fixFlag, base[i], target[i]).inp| <= Blocks(tw[i], th[i])
  {
    hide PlaneCode, Blocks, GoodBlocks;
    PlaneLiterals(Env(hash, base[i], fixFlag), target[i], tw[i], |target[i]|);
  }

  lemma JoinGood(a: seq<Block>, b: seq<Block>)
    requires GoodBlocks(a) && GoodBlocks(b)
    ensures GoodBlocks(a + b)
  {
    hide GoodBlock;
  }

  lemma ImageLiterals(hash: Hash, fixFlag: bool, base: Image, target: Image, tw: seq<nat>, th: seq<nat>)
    requires Shaped(target, tw, th) && GoodImage(target)
    ensures GoodBlocks(ImageCode(hash, fixFlag, base, target).code.inp)
    ensures |ImageCode(hash, fixFlag, base, target).code.inp| <= TotalSize(tw, th)
  {
    hide ComponentCode, Blocks, GoodBlocks, GoodImage, Shaped;
    ComponentLiterals(hash, fixFlag, base, target, 0, tw, th);
    ComponentLiterals(hash, fixFlag, base, target, 1, tw, th);
    ComponentLiterals(hash, fixFlag, base, target, 2, tw, th);
    var y := ComponentCode(hash, fixFlag, base[0], target[0]);
    var u := ComponentCode(hash, fixFlag, base[1], target[1]);
    JoinGood(y.inp, u.inp);
    JoinGood(y.inp + u.inp, ComponentCode(hash, fixFlag, base[2], target[2]).inp);
  }

  // ---------------------------------------------------------------- the instruction arrays

  /** What 16-bit values are stored as: entropy coded, when that works within their own size. */
  function PackedArray(values: seq<nat>, codec: R.Entropy): R.Tail
    requires Words16(values)
  {
    R.TailIn(R.WordBytes(values), 2 * |values|, codec).value
  }

  /** One array of `compress_delta_ins`. */
  method CompressArray(values: seq<nat>, codec: R.Entropy) returns (t: R.Tail)
    requires Words16(values)
    ensures t == PackedArray(values, codec)
  {
    var data := R.WordBytes(values);
    var packed := codec.compress(data, |data|);
    if |packed| > 0 {
      t := R.Tail(1, packed);
    } else {
      t := R.Tail(0, data);
    }
  }

  /** An array is stored coded just when the coder manages it in the array's own size. */
  lemma PackedIs(values: seq<nat>, codec: R.Entropy)
    requires Words16(values)
    ensures var t, coded := PackedArray(values, codec), codec.compress(R.WordBytes(values), 2 * |values|);
            && (t.flag == 1 <==> coded != [])
            && t.bytes == if coded != [] then coded else R.WordBytes(values)
  {
    PackedIsSome(values, codec);
  }

  lemma PackedMeans(values: seq<nat>, codec: R.Entropy)
    requires Words16(values) && codec.Sound()
    ensures var t := PackedArray(values, codec);
            && (t.flag == 0 || t.flag == 1) && (t.flag == 0 ==> t.bytes == R.WordBytes(values))
            && (t.flag == 1 ==> forall n: nat :: codec.decompress(t.bytes, n) ==
                                                 if 2 * |values| <= n then Some(R.WordBytes(values)) else None)
  {
    hide R.WordBytes, R.Entropy.Sound, R.TailIn;
    PackedIsSome(values, codec);
    R.TailMeans(R.WordBytes(values), 2 * |values|, codec);
  }

  lemma PackedIsSome(values: seq<nat>, codec: R.Entropy)
    requires Words16(values)
    ensures R.TailIn(R.WordBytes(values), 2 * |values|, codec).Some?
  {
  }

  /** One array of `decompress_delta_ins`, which has room for `size` values. */
  method DecompressArray(t: R.Tail, size: nat, codec: R.Entropy, ghost values: seq<nat>)
    returns (result: Option<seq<nat>>)
    requires Words16(values) && codec.Sound() && t == PackedArray(values, codec)
    ensures result == if t.flag == 0 || |values| <= size then Some(values) else None
  {
    hide R.WordBytes, R.Entropy.Sound, PackedArray, R.BytesWords;
    PackedMeans(values, codec);
    R.WordBytesRoundTrip(values);
    var data := Some(t.bytes);
    if t.flag != 0 {
      data := codec.decompress(t.bytes, 2 * size);
    }
    match data
    case None => result := None;
    case Some(bytes) => result := Some(R.BytesWords(bytes, |bytes| / 2));
  }

  // ---------------------------------------------------------------- end to end

  /** What is stored of an image besides its base: which arrays are entropy coded, the arrays, counters, literals. */
  datatype Stored = Stored(flag: nat, cpx: seq<byte>, cpy: seq<byte>, cpl: seq<byte>, inl: seq<byte>, counter: seq<nat>,
                           literals: Option<seq<byte>>)

  /** A delta that can be stored. */
  ghost predicate StorableDelta(d: Delta) {
    && R.Storable(d.code.inp)
    && Words16(d.code.cpx) && Words16(d.code.cpy) && Words16(d.code.cpl) && Words16(d.code.inl)
  }

  /** The four flags in one byte. */
  function FlagByte(x: R.Tail, y: R.Tail, l: R.Tail, n: R.Tail): nat {
    8 * x.flag + 4 * y.flag + 2 * l.flag + n.flag
  }

  function StoredArrays(x: R.Tail, y: R.Tail, l: R.Tail, n: R.Tail, counter: seq<nat>, literals: Option<seq<byte>>): Stored {
    Stored(FlagByte(x, y, l, n), x.bytes, y.bytes, l.bytes, n.bytes, counter, literals)
  }

  ghost function StoredForm(d: Delta, codec: R.Entropy): Stored
    requires StorableDelta(d) && codec.Sound()
  {
    StoredArrays(PackedArray(d.code.cpx, codec), PackedArray(d.code.cpy, codec), PackedArray(d.code.cpl, codec),
                 PackedArray(d.code.inl, codec), d.counter,
                 if d.code.inp == [] then None else Some(R.CodedBlocks(d.code.inp, codec)))
  }

  /** Codes the literals and the instruction arrays of a delta. */
  method Store(d: Delta, codec: R.Entropy) returns (s: Stored)
    requires StorableDelta(d) && codec.Sound()
    ensures s == StoredForm(d, codec)
  {
    hide R.Storable, R.CodedBlocks, R.Entropy.Sound, PackedArray;
    var buf, tries := R.RejpegImage(d.code.inp, codec);
    var x := CompressArray(d.code.cpx, codec);
    var y := CompressArray(d.code.cpy, codec);
    var l := CompressArray(d.code.cpl, codec);
    var n := CompressArray(d.code.inl, codec);
    s := StoredArrays(x, y, l, n, d.counter, buf);
  }

  /** Reads the literals back. */
  method LoadLiterals(literals: Option<seq<byte>>, codec: R.Entropy, ghost blocks: seq<Block>)
    returns (result: Option<seq<Block>>)
    requires R.Storable(blocks) && codec.Sound()
    requires literals == if blocks == [] then None else Some(R.CodedBlocks(blocks, codec))
    ensures result == if R.Readable(blocks, codec) then Some(blocks) else None
  {
    hide R.Storable, R.CodedBlocks, R.Entropy.Sound, R.StoredTail, R.LengthsOf, R.LengthRoom;
    match literals
    case None => result := Some([]);
    case Some(bytes) => result := R.DecodeMyjpeg(bytes, codec, blocks);
  }

  lemma FlagBits(x: R.Tail, y: R.Tail, l: R.Tail, n: R.Tail)
    requires x.flag < 2 && y.flag < 2 && l.flag < 2 && n.flag < 2
    ensures var f := FlagByte(x, y, l, n);
            f / 8 % 2 == x.flag && f / 4 % 2 == y.flag && f / 2 % 2 == l.flag && f % 2 == n.flag
  {
  }

  /** No array has more than `size` entries. */
  ghost predicate AtMost(code: Code, size: nat) {
    |code.cpx| <= size && |code.cpy| <= size && |code.cpl| <= size && |code.inl| <= size
  }

  /** Reads the instruction arrays back, each into room for `size` values, which is enough. */
  method LoadArrays(s: Stored, size: nat, codec: R.Entropy, ghost d: Delta)
    returns (x: Option<seq<nat>>, y: Option<seq<nat>>, l: Option<seq<nat>>, n: Option<seq<nat>>)
    requires StorableDelta(d) && codec.Sound() && s == StoredForm(d, codec) && AtMost(d.code, size)
    ensures x == Some(d.code.cpx) && y == Some(d.code.cpy) && l == Some(d.code.cpl) && n == Some(d.code.inl)
  {
    hide R.Storable, R.CodedBlocks, R.Entropy.Sound, PackedArray, FlagByte, Words16;
    PackedMeans(d.code.cpx, codec);
    PackedMeans(d.code.cpy, codec);
    PackedMeans(d.code.cpl, codec);
    PackedMeans(d.code.inl, codec);
    FlagBits(PackedArray(d.code.cpx, codec), PackedArray(d.code.cpy, codec), PackedArray(d.code.cpl, codec),
             PackedArray(d.code.inl, codec));
    x := DecompressArray(R.Tail(s.flag / 8 % 2, s.cpx), size, codec, d.code.cpx);
    y := DecompressArray(R.Tail(s.flag / 4 % 2, s.cpy), size, codec, d.code.cpy);
    l := DecompressArray(R.Tail(s.flag / 2 % 2, s.cpl), size, codec, d.code.cpl);
    n := DecompressArray(R.Tail(s.flag % 2, s.inl), size, codec, d.code.inl);
  }

  /** Reads a delta back; `size` is the number of the image's blocks. */
  method Load(s: Stored, size: nat, codec: R.Entropy, ghost d: Delta) returns (result: Option<Delta>)
    requires StorableDelta(d) && codec.Sound() && s == StoredForm(d, codec) && AtMost(d.code, size)
    ensures result == if R.Readable(d.code.inp, codec) then Some(d) else None
  {
    hide R.Storable, R.CodedBlocks, R.Entropy.Sound, R.Readable, PackedArray, AtMost, FlagByte, Words16;
    var inp := LoadLiterals(s.literals, codec, d.code.inp);
    var x, y, l, n := LoadArrays(s, size, codec, d);
    if inp.Some? && x.Some? && y.Some? && l.Some? && n.Some? {
      result := Some(Delta(Code(x.value, y.value, l.value, n.value, inp.value), s.counter));
    } else {
      result := None;
    }
  }

  /** The literals of a target. */
  function Literals(hash: Hash, fixFlag: bool, base: Image, target: Image): seq<Block> {
    ImageCode(hash, fixFlag, base, target).code.inp
  }

  lemma LiteralsStorable(hash: Hash, fixFlag: bool, base: Image, target: Image, tw: seq<nat>, th: seq<nat>)
    requires Shaped(target, tw, th) && GoodImage(target) && 256 * TotalSize(tw, th) < 0x8000_0000
    ensures R.Storable(Literals(hash, fixFlag, base, target))
    ensures |Literals(hash, fixFlag, base, target)| <= TotalSize(tw, th)
  {
    hide ImageCode, TotalSize, Shaped, GoodImage, InRange, GoodBlocks;
    ImageLiterals(hash, fixFlag, base, target, tw, th);
    GoodInRange(Literals(hash, fixFlag, base, target));
  }

  lemma DeltaStorable(hash: Hash, fixFlag: bool, base: Image, target: Image,
                      bw: seq<nat>, bh: seq<nat>, tw: seq<nat>, th: seq<nat>)
    requires Shaped(base, bw, bh) && Shaped(target, tw, th)
    requires R.Storable(Literals(hash, fixFlag, base, target))
    ensures StorableDelta(ImageCode(hash, fixFlag, base, target))
    ensures AtMost(ImageCode(hash, fixFlag, base, target).code, TotalSize(tw, th))
  {
    hide ImageCode, TotalSize, Shaped, R.Storable;
    ImageFits(hash, fixFlag, base, target, bw, bh, tw, th);
    InstructionsBound(hash, fixFlag, base, target, bw, bh, tw, th);
  }

  /**
    * A target coded against a base, stored, loaded and replayed is the target again, exactly when its literals can be
    * read back: the decoder gives their length bytes the room that they need.
    */
  method RoundTrip(hash: Hash, fixFlag: bool, base: Image, target: Image, codec: R.Entropy,
                   bw: seq<nat>, bh: seq<nat>, tw: seq<nat>, th: seq<nat>)
    returns (stored: Stored, restored: Option<Image>)
    requires Shaped(base, bw, bh) && Shaped(target, tw, th) && GoodImage(target) && codec.Sound()
    requires 256 * TotalSize(tw, th) < 0x8000_0000
    ensures R.Storable(Literals(hash, fixFlag, base, target)) && StorableDelta(ImageCode(hash, fixFlag, base, target))
    ensures stored == StoredForm(ImageCode(hash, fixFlag, base, target), codec)
    ensures restored == if R.Readable(Literals(hash, fixFlag, base, target), codec) then Some(target) else None
  {
    hide *;
    LiteralsStorable(hash, fixFlag, base, target, tw, th);
    LiteralsAre(hash, fixFlag, base, target);
    DeltaStorable(hash, fixFlag, base, target, bw, bh, tw, th);
    ThreeSizes(target, tw, th);
    var d := GetInstructions(hash, fixFlag, base, target, bw, bh, tw, th);
    stored := Store(d, codec);
    var loaded := Load(stored, TotalSize(tw, th), codec, d);
    if loaded.Some? {
      restored := Replayed(loaded.value, hash, fixFlag, base, target, tw, th);
    } else {
      restored := None;
    }
  }

  lemma ThreeSizes(image: Image, width: seq<nat>, height: seq<nat>)
    requires Shaped(image, width, height)
    ensures |width| == |height| == 3
  {
  }

  lemma LiteralsAre(hash: Hash, fixFlag: bool, base: Image, target: Image)
    ensures Literals(hash, fixFlag, base, target) == ImageCode(hash, fixFlag, base, target).code.inp
  {
  }

  /** Replays a delta into an image. */
  method Replayed(d: Delta, ghost hash: Hash, ghost fixFlag: bool, base: Image, ghost target: Image, tw: seq<nat>, th: seq<nat>)
    returns (restored: Option<Image>)
    requires Shaped(target, tw, th) && d == ImageCode(hash, fixFlag, base, target)
    ensures restored == Some(target)
  {
    hide Replay, ImageCode, AllBlocks, ImageOf, Sum, TotalSize;
    CountersOf(hash, fixFlag, base, target);
    ImageRestored(hash, fixFlag, base, target, tw, th);
    ImageOfBlocks(target, tw, th);
    ghost var end := ReplayEnds(d, base, tw);
    var data, used := DeDedup(d, base, tw, th, end);
    restored := Some(ImageOf(data[..], tw, th));
  }

  // ---------------------------------------------------------------- when an image is lost

  /** A row of `n` blocks of one colour, and chroma of one block. */
  function PlainImage(n: nat, dc: int): Image {
    [[R.Plain(n, dc)], [R.Plain(1, dc)], [R.Plain(1, dc)]]
  }

  /** Against a base of another colour every block of a row is a literal. */
  lemma {:induction false} PlainRowChanged(n: nat, dc: int, other: int, column: nat)
    requires column <= n && dc != other
    ensures Changed([R.Plain(1, other)], R.Plain(n, dc), 0, column) == R.Plain(n - column, dc)
    decreases n - column
  {
    if column == n {
    } else {
      PlainRowChanged(n, dc, other, column + 1);
      assert R.PlainBlock(dc)[0] == dc && R.PlainBlock(other)[0] == other;
      assert [R.PlainBlock(dc)] + R.Plain(n - column - 1, dc) == R.Plain(n - column, dc);
    }
  }

  lemma PlainComponent(hash: Hash, n: nat, dc: int, other: int, i: nat)
    requires i < 3 && dc != other
    ensures ComponentCode(hash, false, PlainImage(1, other)[i], PlainImage(n, dc)[i]).inp
         == R.Plain(if i == 0 then n else 1, dc)
  {
    var m := if i == 0 then n else 1;
    InPlaceLiterals(Env(hash, [R.Plain(1, other)], false), [R.Plain(m, dc)], 1);
    PlainRowChanged(m, dc, other, 0);
    hide PlaneCode, Changed;
    assert [] + R.Plain(m, dc) == R.Plain(m, dc);
  }

  lemma PlainLiterals(hash: Hash, n: nat, dc: int, other: int)
    requires dc != other
    ensures Literals(hash, false, PlainImage(1, other), PlainImage(n, dc)) == R.Plain(n + 2, dc)
  {
    hide ComponentCode;
    PlainComponent(hash, n, dc, other, 0);
    PlainComponent(hash, n, dc, other, 1);
    PlainComponent(hash, n, dc, other, 2);
    assert R.Plain(n, dc) + R.Plain(1, dc) + R.Plain(1, dc) == R.Plain(n + 2, dc);
  }

  /**
    * Such images exist: a row of 2046 blocks or more of one colour other than grey is lost against a base of another
    * colour, with a sound coder.
    */
  lemma PlainImageCanBeLost(hash: Hash, n: nat, dc: int, other: int) returns (codec: R.Entropy)
    requires 2046 <= n <= 65535 && dc != other && dc != 0 && Within(dc, 2047)
    ensures codec.Sound() && R.Storable(Literals(hash, false, PlainImage(1, other), PlainImage(n, dc)))
    ensures !R.Readable(Literals(hash, false, PlainImage(1, other), PlainImage(n, dc)), codec)
    ensures Shaped(PlainImage(1, other), [1, 1, 1], [1, 1, 1]) && Shaped(PlainImage(n, dc), [n, 1, 1], [1, 1, 1])
    ensures GoodImage(PlainImage(n, dc)) && 256 * TotalSize([n, 1, 1], [1, 1, 1]) < 0x8000_0000
  {
    hide *;
    PlainLiterals(hash, n, dc, other);
    PlainImageIsGood(n, dc);
    PlainImageIsShaped(n, dc, other);
    WithinMore(dc);
    codec := R.PlainCanBeLost(n + 2, dc);
  }

  /** A grey one comes back with every sound coder. */
  lemma GreyImageComesBack(hash: Hash, n: nat, other: int, codec: R.Entropy)
    requires 0 < n <= 65535 && other != 0 && codec.Sound()
    ensures R.Storable(Literals(hash, false, PlainImage(1, other), PlainImage(n, 0)))
    ensures R.Readable(Literals(hash, false, PlainImage(1, other), PlainImage(n, 0)), codec)
  {
    hide *;
    PlainLiterals(hash, n, 0, other);
    R.GreyIsReadable(n + 2, codec);
  }

  lemma WithinMore(dc: int)
    requires Within(dc, 2047)
    ensures Within(dc, MAX_VALUE)
  {
  }

  lemma PlainImageIsShaped(n: nat, dc: int, other: int)
    requires 0 < n <= 65535
    ensures Shaped(PlainImage(1, other), [1, 1, 1], [1, 1, 1]) && Shaped(PlainImage(n, dc), [n, 1, 1], [1, 1, 1])
    ensures 256 * TotalSize([n, 1, 1], [1, 1, 1]) < 0x8000_0000
  {
  }

  lemma PlainImageIsGood(n: nat, dc: int)
    requires 0 < n && Within(dc, 2047)
    ensures GoodImage(PlainImage(n, dc))
  {
  }
}
