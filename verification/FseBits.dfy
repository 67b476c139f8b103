/** The last-in first-out bit stream (`fse/lib/bitstream.h`) on a 64-bit machine. */
module FseBits {
  import opened Common
  import opened Kraft
  import opened Arith
  import opened BitIO

  // ---------------------------------------------------------------- numbers as bits, lowest first

  /** Numbers below a power of two are determined by their bits. */
  lemma {:induction false} BitsDetermine(x: nat, y: nat, n: nat)
    requires y < Pow2(n) && LowBits(y, n) == LowBits(x, n)
    ensures y == Low(x, n)
  {
    if n > 0 {
      LowBitsCons(x, n - 1);
      LowBitsCons(y, n - 1);
      assert LowBits(x, n)[0] == LowBits(y, n)[0];
      assert LowBits(x, n)[1..] == LowBits(x / 2, n - 1) && LowBits(y, n)[1..] == LowBits(y / 2, n - 1);
      BitsDetermine(x / 2, y / 2, n - 1);
    }
  }

  /** Bits from the middle on are the bits of the shifted number. */
  lemma {:induction false} LowBitsSplit(x: nat, m: nat, n: nat)
    ensures LowBits(x, m + n) == LowBits(x, m) + LowBits(High(x, m), n)
  {
    hide LowBits;
    if m == 0 {
      LowBitsCons(x, 0);
      assert [] + LowBits(x, n) == LowBits(x, n);
    } else {
      LowBitsSplit(x / 2, m - 1, n);
      LowBitsCons(x, m - 1);
      LowBitsCons(x, m + n - 1);
      assert [x % 2 == 1] + (LowBits(x / 2, m - 1) + LowBits(High(x, m), n))
          == [x % 2 == 1] + LowBits(x / 2, m - 1) + LowBits(High(x, m), n);
    }
  }

  lemma {:induction false} LowBitsZero(n: nat)
    ensures LowBits(0, n) == Falses(n)
  {
    if n > 0 { LowBitsZero(n - 1); }
  }

  /** A left shift puts clear bits below. */
  lemma {:induction false} LowBitsShl(x: nat, m: nat, n: nat)
    ensures LowBits(Shl(x, m), m + n) == Falses(m) + LowBits(x, n)
  {
    hide LowBits, Shl;
    if m == 0 {
      ShlOnce(x);
      assert Falses(0) + LowBits(x, n) == LowBits(x, n);
    } else {
      LowBitsShl(x, m - 1, n);
      ShlNext(x, m - 1);
      DoubleAndHalf(Shl(x, m - 1));
      LowBitsCons(Shl(x, m), m + n - 1);
      assert [false] + (Falses(m - 1) + LowBits(x, n)) == Falses(m) + LowBits(x, n);
    }
  }

  lemma ShlOnce(x: nat)
    ensures Shl(x, 0) == x
  {
  }

  /** A number put above another that fits below: their bits one after the other. */
  lemma {:induction false} LowBitsOr(c: nat, v: nat, m: nat, n: nat)
    requires c < Pow2(m)
    ensures LowBits(Shl(v, m) + c, m + n) == LowBits(c, m) + LowBits(v, n)
  {
    hide LowBits, Shl;
    if m == 0 {
      ShlOnce(v);
      LowBitsCons(c, 0);
      assert [] + LowBits(v, n) == LowBits(v, n);
    } else {
      LowBitsOr(c / 2, v, m - 1, n);
      ShlNext(v, m - 1);
      HalfOfBoth(Shl(v, m - 1), c);
      LowBitsCons(Shl(v, m) + c, m + n - 1);
      LowBitsCons(c, m - 1);
      assert [c % 2 == 1] + (LowBits(c / 2, m - 1) + LowBits(v, n))
          == [c % 2 == 1] + LowBits(c / 2, m - 1) + LowBits(v, n);
    }
  }

  lemma HalfOfBoth(y: nat, c: nat)
    ensures (2 * y + c) / 2 == y + c / 2 && (2 * y + c) % 2 == c % 2
  {
  }

  lemma {:induction false} HighTwice(x: nat, m: nat, n: nat)
    ensures High(High(x, m), n) == High(x, m + n)
  {
    if m > 0 { HighTwice(x / 2, m - 1, n); }
  }

  /** The `n` lowest bytes of a number, lowest first: `MEM_writeLEST` and `MEM_readLEST` with `n == 8`. */
  function Bytes(x: nat, n: nat): (r: seq<byte>)
    ensures |r| == n
  {
    if n == 0 then [] else [x % 256] + Bytes(x / 256, n - 1)
  }

  function FromBytes(s: seq<byte>): nat {
    if s == [] then 0 else s[0] as int + 256 * FromBytes(s[1..])
  }

  lemma EightBits(x: nat)
    ensures LowBits(x, 8) == LowBits(x % 256, 8) && High(x, 8) == x / 256
  {
    HighIsQuotient(x, 8);
    PowersOfTwo();
    var y := x % 256;
    hide LowBits, High, Pow2;
    LowIs(x, 8);
    LowOf256(x);
  }

  lemma LowOf256(x: nat)
    ensures Low(x, 8) == x % 256
  {
    LowAndHigh(x, 8);
    LowIs(x, 8);
    PowersOfTwo();
    hide Low, High, Shl, LowBits, Pow2;
    Shl8(High(x, 8));
    DivisionUnique(x, 256, High(x, 8), Low(x, 8));
  }

  lemma {:induction false} BytesBits(x: nat, n: nat)
    ensures Unpack(Bytes(x, n)) == LowBits(x, 8 * n)
  {
    hide *;
    if n == 0 {
      LowBitsCons(x, 0);
      NoBytes(x);
    } else {
      BytesBits(x / 256, n - 1);
      EightBits(x);
      LowBitsSplit(x, 8, 8 * (n - 1));
      BytesCons(x, n - 1);
      UnpackCons(x % 256, Bytes(x / 256, n - 1));
    }
  }

  lemma UnpackCons(b: byte, rest: seq<byte>)
    ensures Unpack([b] + rest) == LowBits(b, 8) + Unpack(rest)
  {
    assert ([b] + rest)[1..] == rest;
  }

  lemma {:induction false} FromBytesBits(s: seq<byte>)
    ensures LowBits(FromBytes(s), 8 * |s|) == Unpack(s) && FromBytes(s) < Pow2(8 * |s|)
  {
    hide *;
    FromNothing();
    if s == [] {
      LowBitsCons(0, 0);
    } else {
      FromBytesBits(s[1..]);
      FromCons(s);
      EightBits(FromBytes(s));
      LowBitsSplit(FromBytes(s), 8, 8 * (|s| - 1));
      ByteOnTop(FromBytes(s[1..]), s[0], |s| - 1);
      UnpackCons(s[0], s[1..]);
      assert [s[0]] + s[1..] == s;
    }
  }

  lemma FromNothing()
    ensures FromBytes([]) == 0 && Unpack([]) == [] && Pow2(0) == 1
  {
  }

  lemma FromCons(s: seq<byte>)
    requires s != []
    ensures FromBytes(s) == s[0] as int + 256 * FromBytes(s[1..])
  {
  }

  lemma ByteOnTop(x: nat, b: byte, n: nat)
    requires x < Pow2(8 * n)
    ensures (b + 256 * x) % 256 == b && (b + 256 * x) / 256 == x && b + 256 * x < Pow2(8 * (n + 1))
  {
    PowersOfTwo();
    Pow2Sum(8 * n, 8);
  }

  // ---------------------------------------------------------------- writing

  const WORD: nat := 8

  /** The encoder holds `stream`: whole bytes in `written`, the rest in the container. */
  ghost predicate Holds(written: seq<byte>, container: nat, bitPos: nat, stream: seq<bool>) {
    && container < Pow2(bitPos)
    && stream == Unpack(written) + LowBits(container, bitPos)
  }

  lemma HoldsLength(written: seq<byte>, container: nat, bitPos: nat, stream: seq<bool>)
    requires Holds(written, container, bitPos, stream)
    ensures |stream| == 8 * |written| + bitPos
  {
  }

  lemma HoldsMore(written: seq<byte>, container: nat, bitPos: nat, stream: seq<bool>, value: nat, n: nat)
    requires Holds(written, container, bitPos, stream)
    ensures LowClear(Shl(Low(value, n), bitPos), bitPos) && container < Pow2(bitPos)
    ensures Holds(written, Shl(Low(value, n), bitPos) + container, bitPos + n, stream + LowBits(value, n))
  {
    hide *;
    UseHolds(written, container, bitPos, stream);
    ShlIsClear(Low(value, n), bitPos);
    LowIs(value, n);
    ShlFits(Low(value, n), container, n, bitPos);
    LowBitsOr(container, Low(value, n), bitPos, n);
    MakeHolds(written, Shl(Low(value, n), bitPos) + container, bitPos + n, stream + LowBits(value, n)) by {
      assert Unpack(written) + (LowBits(container, bitPos) + LowBits(value, n))
          == Unpack(written) + LowBits(container, bitPos) + LowBits(value, n);
    }
  }

  lemma {:induction false} BytesSplit(x: nat, m: nat, n: nat)
    ensures Bytes(x, m + n) == Bytes(x, m) + Bytes(High(x, 8 * m), n)
  {
    hide High, Bytes;
    if m == 0 {
      NoBytes(x);
      HighZero(x);
      assert [] + Bytes(x, n) == Bytes(x, n);
    } else {
      BytesSplit(x / 256, m - 1, n);
      EightBits(x);
      HighTwice(x, 8, 8 * (m - 1));
      BytesCons(x, m - 1);
      BytesCons(x, m + n - 1);
      assert [x % 256] + (Bytes(x / 256, m - 1) + Bytes(High(x, 8 * m), n))
          == [x % 256] + Bytes(x / 256, m - 1) + Bytes(High(x, 8 * m), n);
    }
  }

  lemma NoBytes(x: nat)
    ensures Bytes(x, 0) == [] && Unpack([]) == []
  {
  }

  lemma BytesCons(x: nat, n: nat)
    ensures Bytes(x, n + 1) == [x % 256] + Bytes(x / 256, n)
  {
  }

  /** Whole bytes move from the container to what is written. */
  lemma HoldsFlushed(written: seq<byte>, container: nat, bitPos: nat, stream: seq<bool>)
    requires Holds(written, container, bitPos, stream)
    ensures Holds(written + Bytes(container, bitPos / 8), High(container, 8 * (bitPos / 8)), bitPos % 8, stream)
  {
    hide *;
    var n, r := bitPos / 8, bitPos % 8;
    UseHolds(written, container, bitPos, stream);
    HighFits(container, r, 8 * n);
    BytesBits(container, n);
    UnpackAppend(written, Bytes(container, n));
    LowBitsSplit(container, 8 * n, r);
    assert Unpack(written) + (LowBits(container, 8 * n) + LowBits(High(container, 8 * n), r))
        == Unpack(written) + LowBits(container, 8 * n) + LowBits(High(container, 8 * n), r);
    MakeHolds(written + Bytes(container, n), High(container, 8 * n), r, stream);
  }

  lemma UseHolds(written: seq<byte>, container: nat, bitPos: nat, stream: seq<bool>)
    requires Holds(written, container, bitPos, stream)
    ensures container < Pow2(bitPos) && stream == Unpack(written) + LowBits(container, bitPos)
  {
  }

  lemma MakeHolds(written: seq<byte>, container: nat, bitPos: nat, stream: seq<bool>)
    requires container < Pow2(bitPos) && stream == Unpack(written) + LowBits(container, bitPos)
    ensures Holds(written, container, bitPos, stream)
  {
  }

  class CStream {
    const buffer: array<byte>
    var bitContainer: nat
    var bitPos: nat
    var ptr: nat
    var endPtr: nat
    ghost var stream: seq<bool>
    ghost var lost: bool

    /** `BIT_initCStream`, for a buffer that is large enough. */
    constructor (dst: array<byte>)
      requires dst.Length > WORD
      ensures buffer == dst && Valid() && stream == [] && bitPos == 0 && endPtr == dst.Length - WORD
    {
      buffer := dst;
      bitContainer, bitPos, ptr := 0, 0, 0;
      endPtr := dst.Length - WORD;
      stream, lost := [], false;
      new;
      HoldsNothing();
      assert buffer[..0] == [];
    }

    /** Unless the buffer has overflowed, all bits of the stream are in it and the container. */
    ghost predicate Valid()
      reads this, buffer
    {
      && bitPos < 64 && 0 < endPtr == buffer.Length - WORD && ptr <= endPtr
      && (lost ==> ptr == endPtr && |stream| >= 8 * endPtr)
      && (!lost ==> Holds(buffer[..ptr], bitContainer, bitPos, stream))
    }

    /** `BIT_addBits`; the register must have room. */
    method AddBits(value: nat, nbBits: nat)
      requires Valid() && nbBits <= 31 && bitPos + nbBits < 64
      modifies this`bitContainer, this`bitPos, this`stream
      ensures Valid() && bitPos == old(bitPos) + nbBits && stream == old(stream) + LowBits(value, nbBits)
    {
      hide Holds, Low, LowBits, Shl, LowClear, Pow2;
      if !lost {
        HoldsMore(buffer[..ptr], bitContainer, bitPos, stream, value, nbBits);
      }
      bitContainer := PutBits(bitContainer, Low(value, nbBits), bitPos, lost);
      bitPos := bitPos + nbBits;
      stream := stream + LowBits(value, nbBits);
    }

    /** `BIT_flushBits`: writes the whole register, then keeps the bits of its last, incomplete byte. */
    method FlushBits()
      requires Valid()
      modifies this`bitContainer, this`bitPos, this`ptr, this`lost, buffer
      ensures Valid() && bitPos == old(bitPos) % 8 && lost == (old(lost) || 8 * endPtr + 8 <= |stream|)
      ensures !lost ==> buffer[ptr] == bitContainer % 256 && 8 * ptr + bitPos == |stream|
    {
      hide *;
      UseValid();
      ghost var written := buffer[..ptr];
      var nbBytes := bitPos / 8;
      if !lost {
        HoldsFlushed(written, bitContainer, bitPos, stream);
        HoldsLength(written, bitContainer, bitPos, stream);
      }
      WriteBytes(buffer, ptr, Bytes(bitContainer, 8));
      Written(buffer[..], ptr, bitContainer, nbBytes, written);
      ptr := ptr + nbBytes;
      if ptr > endPtr {
        ptr := endPtr;
        lost := true;
      }
      bitContainer := High(bitContainer, 8 * nbBytes);
      bitPos := bitPos % 8;
      MakeValid();
      if !lost { HoldsLength(buffer[..ptr], bitContainer, bitPos, stream); }
    }

    /** `BIT_closeCStream`: the end mark, then the last bytes; 0 when the stream does not fit. */
    method Close() returns (size: nat)
      requires Valid() && bitPos + 1 < 64
      modifies this`bitContainer, this`bitPos, this`ptr, this`stream, this`lost, buffer
      ensures size == 0 <==> |old(stream)| + 1 >= 8 * endPtr
      ensures size > 0 ==> size <= buffer.Length && IsClosed(buffer[..size], old(stream))
    {
      hide *;
      ghost var s := stream;
      AddBits(1, 1);
      OneBit();
      FlushBits();
      UseValid();
      if ptr >= endPtr {
        return 0;
      }
      size := ptr + if bitPos > 0 then 1 else 0;
      ClosedBytes(buffer[..], ptr, bitContainer, bitPos, s);
    }

    lemma UseValid()
      requires Valid()
      ensures bitPos < 64 && 0 < endPtr == buffer.Length - 8 && ptr <= endPtr
      ensures lost ==> ptr == endPtr && |stream| >= 8 * endPtr
      ensures !lost ==> Holds(buffer[..ptr], bitContainer, bitPos, stream)
    {
      hide Holds;
    }

    lemma MakeValid()
      requires bitPos < 64 && 0 < endPtr == buffer.Length - 8 && ptr <= endPtr
      requires lost ==> ptr == endPtr && |stream| >= 8 * endPtr
      requires !lost ==> Holds(buffer[..ptr], bitContainer, bitPos, stream)
      ensures Valid()
    {
      hide Holds;
    }
  }

  /** `container |= v << bitPos`; after an overflow the register means nothing. */
  function PutBits(container: nat, v: nat, bitPos: nat, ghost lost: bool): nat
    requires !lost ==> LowClear(Shl(v, bitPos), bitPos) && container < Pow2(bitPos)
  {
    Shl(v, bitPos) + container
  }

  lemma HoldsNothing()
    ensures Holds([], 0, 0, [])
  {
  }

  /** What the register's bytes leave behind `ptr`. */
  lemma Written(buffer: seq<byte>, ptr: nat, container: nat, n: nat, written: seq<byte>)
    requires n < 8 && ptr + 8 <= |buffer| && buffer[..ptr] == written && buffer[ptr..ptr + 8] == Bytes(container, 8)
    ensures buffer[..ptr + n] == written + Bytes(container, n)
    ensures buffer[ptr + n] == High(container, 8 * n) % 256
  {
    BytesSplit(container, n, 8 - n);
    hide High, Bytes;
    BytesCons(High(container, 8 * n), 7 - n);
    assert buffer[ptr..ptr + n] == buffer[ptr..ptr + 8][..n] == Bytes(container, n);
    assert buffer[..ptr + n] == buffer[..ptr] + buffer[ptr..ptr + n];
    assert buffer[ptr + n] == buffer[ptr..ptr + 8][n] == Bytes(High(container, 8 * n), 8 - n)[0];
  }

  lemma OneBit()
    ensures LowBits(1, 1) == [true]
  {
    LowBitsCons(1, 0);
  }

  /** A closed stream: its bits, the end mark, and clear bits up to the end of the byte. */
  ghost predicate IsClosed(src: seq<byte>, stream: seq<bool>) {
    && src != [] && 8 * |src| - 8 <= |stream| < 8 * |src|
    && Unpack(src) == stream + [true] + Falses(8 * |src| - |stream| - 1)
  }

  lemma ClosedBytes(buffer: seq<byte>, ptr: nat, container: nat, bitPos: nat, stream: seq<bool>)
    requires ptr < |buffer| && bitPos < 8 && 8 * ptr + bitPos == |stream| + 1
    requires Holds(buffer[..ptr], container, bitPos, stream + [true]) && buffer[ptr] == container % 256
    ensures IsClosed(buffer[..ptr + if bitPos > 0 then 1 else 0], stream)
  {
    hide LowBits, High, Unpack, Pow2;
    if bitPos == 0 {
      LowBitsCons(container, 0);
      assert Unpack(buffer[..ptr]) + [] == Unpack(buffer[..ptr]);
      assert stream + [true] + Falses(0) == stream + [true];
    } else {
      var n := 8 - bitPos;
      UnpackSnoc(buffer[..ptr], buffer[ptr]);
      assert buffer[..ptr + 1] == buffer[..ptr] + [buffer[ptr]];
      EightBits(container);
      LowBitsSplit(container, bitPos, n);
      HighNothing(container, bitPos);
      LowBitsZero(n);
      assert Unpack(buffer[..ptr]) + (LowBits(container, bitPos) + Falses(n))
          == Unpack(buffer[..ptr]) + LowBits(container, bitPos) + Falses(n);
    }
  }

  // ---------------------------------------------------------------- reading

  /** `BIT_highbit32`: the place of the highest set bit. */
  function HighBit(v: nat): nat
    requires v > 0
  {
    if v == 1 then 0 else 1 + HighBit(v / 2)
  }

  /** The end mark is the highest set bit of the last byte. */
  lemma {:induction false} HighBitIs(v: nat, n: nat, w: seq<bool>)
    requires v < Pow2(n) && |w| < n && LowBits(v, n) == w + [true] + Falses(n - |w| - 1)
    ensures v > 0 && HighBit(v) == |w|
  {
    LowBitsCons(v, n - 1);
    LowIs(v / 2, n - 1);
    assert LowBits(v, n)[1..] == LowBits(v / 2, n - 1);
    if w == [] {
      assert LowBits(v, n)[0] == true;
      assert LowBits(v / 2, n - 1) == Falses(n - 1);
      LowBitsZero(n - 1);
      BitsDetermine(0, v / 2, n - 1);
      BitsDetermine(0, 0, n - 1);
    } else {
      assert (w + [true] + Falses(n - |w| - 1))[1..] == w[1..] + [true] + Falses(n - |w| - 1);
      HighBitIs(v / 2, n - 1, w[1..]);
    }
  }

  /** The last byte of a closed stream. */
  lemma LastByte(src: seq<byte>, stream: seq<bool>)
    requires IsClosed(src, stream)
    ensures src[|src| - 1] != 0 && HighBit(src[|src| - 1]) == |stream| - 8 * (|src| - 1) < 8
  {
    var n := |src| - 1;
    var b := src[n];
    UnpackSnoc(src[..n], b);
    assert src[..n] + [b] == src;
    PowersOfTwo();
    hide Unpack, LowBits;
    var w := stream[8 * n..];
    assert Unpack(src)[8 * n..] == LowBits(b, 8);
    assert (stream + [true] + Falses(8 * |src| - |stream| - 1))[8 * n..] == w + [true] + Falses(8 - |w| - 1);
    HighBitIs(b, 8, w);
  }

  datatype Reload = Unfinished | EndOfBuffer | Completed | Overflow

  lemma {:induction false} UnpackSlice(src: seq<byte>, p: nat, n: nat)
    requires p + n <= |src|
    ensures Unpack(src[p..p + n]) == Unpack(src)[8 * p..8 * (p + n)]
  {
    hide *;
    var a, b, c := src[..p], src[p..p + n], src[p + n..];
    UnpackAppend(a + b, c);
    UnpackAppend(a, b);
    assert a + b + c == src;
    MiddlePart(Unpack(a), Unpack(b), Unpack(c));
  }

  lemma MiddlePart(a: seq<bool>, b: seq<bool>, c: seq<bool>)
    ensures (a + b + c)[|a|..|a| + |b|] == b
  {
  }

  /** `left` is unread, and the register holds its end: all from byte `ptr` on, above `consumed` used-up bits. */
  ghost predicate Loaded(src: seq<byte>, ptr: nat, container: nat, consumed: nat, left: seq<bool>) {
    && consumed <= 64 && |left| == 8 * ptr + 64 - consumed && left <= Unpack(src)
    && LowBits(container, 64)[..64 - consumed] == left[8 * ptr..]
    && if |src| < 8 then ptr == 0 else ptr + 8 <= |src|
  }

  lemma LoadedRange(src: seq<byte>, ptr: nat, container: nat, consumed: nat, left: seq<bool>)
    requires Loaded(src, ptr, container, consumed, left)
    ensures consumed <= 64 && |left| == 8 * ptr + 64 - consumed
    ensures if |src| < 8 then ptr == 0 else ptr + 8 <= |src|
  {
  }

  /** Loading the register from any place from which it reaches the end of what is left. */
  lemma LoadAt(src: seq<byte>, ptr: nat, consumed: nat, left: seq<bool>)
    requires ptr + 8 <= |src| && consumed <= 64 && |left| == 8 * ptr + 64 - consumed && left <= Unpack(src)
    ensures Loaded(src, ptr, FromBytes(src[ptr..ptr + 8]), consumed, left)
  {
    hide *;
    FromBytesBits(src[ptr..ptr + 8]);
    UnpackSlice(src, ptr, 8);
    PrefixSlice(Unpack(src), left, 8 * ptr);
    MakeLoaded(src, ptr, FromBytes(src[ptr..ptr + 8]), consumed, left);
  }

  lemma PrefixSlice(bits: seq<bool>, left: seq<bool>, at: nat)
    requires left <= bits && at <= |left| <= at + 64 <= |bits|
    ensures bits[at..at + 64][..|left| - at] == left[at..]
  {
  }

  lemma MakeLoaded(src: seq<byte>, ptr: nat, container: nat, consumed: nat, left: seq<bool>)
    requires consumed <= 64 && |left| == 8 * ptr + 64 - consumed && left <= Unpack(src) && ptr + 8 <= |src|
    requires |LowBits(container, 64)| == 64 && LowBits(container, 64)[..64 - consumed] == left[8 * ptr..]
    ensures Loaded(src, ptr, container, consumed, left)
  {
    hide Unpack, LowBits;
  }

  /** A stream shorter than the register. */
  lemma LoadShort(src: seq<byte>, left: seq<bool>)
    requires |src| < 8 && left <= Unpack(src)
    ensures Loaded(src, 0, FromBytes(src), 64 - |left|, left)
  {
    hide *;
    FromBytesBits(src);
    LowBitsSplit(FromBytes(src), 8 * |src|, 64 - 8 * |src|);
    ShortLoaded(src, FromBytes(src), left, LowBits(High(FromBytes(src), 8 * |src|), 64 - 8 * |src|));
  }

  lemma ShortLoaded(src: seq<byte>, container: nat, left: seq<bool>, rest: seq<bool>)
    requires |src| < 8 && left <= Unpack(src) && |Unpack(src)| == 8 * |src|
    requires LowBits(container, 64) == Unpack(src) + rest
    ensures Loaded(src, 0, container, 64 - |left|, left)
  {
    hide Unpack, LowBits;
  }

  /** The shifts pick the bits just below the used-up ones. */
  lemma Looked(container: nat, consumed: nat, n: nat)
    requires consumed + n <= 64 && n <= 31
    ensures var y := Low(Shl(container, if consumed == 64 then 0 else consumed), 64);
            && High(High(y, 1), 63 - n) < Pow2(n)
            && LowBits(High(High(y, 1), 63 - n), n) == LowBits(container, 64)[64 - consumed - n..64 - consumed]
  {
    hide *;
    if consumed == 64 {
      TopBits(Shl(container, 0), 0);
      LowBitsCons(High(High(Low(Shl(container, 0), 64), 1), 63), 0);
    } else {
      TopBits(Shl(container, consumed), n);
      LowBitsShl(container, consumed, 64 - consumed);
      LowBitsSplit(container, 64 - consumed, consumed);
      SliceOf(Falses(consumed), LowBits(container, 64 - consumed), LowBits(High(container, 64 - consumed), consumed), n);
    }
  }

  /** The `n` top bits of a 64-bit register. */
  lemma TopBits(x: nat, n: nat)
    requires n <= 31
    ensures High(High(Low(x, 64), 1), 63 - n) < Pow2(n)
    ensures LowBits(High(High(Low(x, 64), 1), 63 - n), n) == LowBits(x, 64)[64 - n..]
  {
    hide *;
    var y := Low(x, 64);
    LowIs(x, 64);
    HighTwice(y, 1, 63 - n);
    HighFits(y, n, 64 - n);
    LowBitsSplit(y, 64 - n, n);
  }

  lemma SliceOf(f: seq<bool>, a: seq<bool>, b: seq<bool>, n: nat)
    requires n <= |a|
    ensures (f + a)[|f| + |a| - n..] == (a + b)[|a| - n..|a|]
  {
  }

  class DStream {
    const src: seq<byte>
    var bitContainer: nat
    var bitsConsumed: nat
    var ptr: nat
    ghost var left: seq<bool>

    ghost predicate Valid()
      reads this
    {
      Loaded(src, ptr, bitContainer, bitsConsumed, left)
    }

    /** `BIT_initDStream` on a closed stream. */
    constructor (closed: seq<byte>, ghost stream: seq<bool>)
      requires IsClosed(closed, stream)
      ensures Valid() && src == closed && left == stream
    {
      src := closed;
      left := stream;
      LastByte(closed, stream);
      var lastByte := closed[|closed| - 1];
      if |closed| >= 8 {
        ptr := |closed| - 8;
        bitContainer := FromBytes(closed[|closed| - 8..|closed|]);
        bitsConsumed := 8 - HighBit(lastByte);
      } else {
        ptr := 0;
        bitContainer := FromBytes(closed);
        bitsConsumed := 8 - HighBit(lastByte) + (8 - |closed|) * 8;
      }
      new;
      hide Unpack, LowBits, FromBytes, Loaded;
      StreamFirst(closed, stream);
      if |closed| >= 8 {
        LoadAt(closed, |closed| - 8, bitsConsumed, stream);
      } else {
        LoadShort(closed, stream);
      }
    }

    /** `BIT_readBits`: the next bits from the end, as the number that they were written as. */
    method ReadBits(nbBits: nat) returns (value: nat)
      requires Valid() && nbBits <= 31 && bitsConsumed + nbBits <= 64
      modifies this`bitsConsumed, this`left
      ensures Valid() && nbBits <= |old(left)| && left == old(left)[..|old(left)| - nbBits]
      ensures value < Pow2(nbBits) && LowBits(value, nbBits) == old(left)[|old(left)| - nbBits..]
    {
      hide LowBits, High, Low, Shl, Unpack, Pow2;
      var y := Low(Shl(bitContainer, if bitsConsumed == 64 then 0 else bitsConsumed), 64);
      value := High(High(y, 1), 63 - nbBits);
      Looked(bitContainer, bitsConsumed, nbBits);
      TakenFromTop(LowBits(bitContainer, 64), left, 8 * ptr, bitsConsumed, nbBits);
      bitsConsumed := bitsConsumed + nbBits;
      left := left[..|left| - nbBits];
    }

    /** `BIT_reloadDStream`: what is left does not change, and afterwards enough of it is in the register. */
    method ReloadStream() returns (status: Reload)
      requires Valid()
      modifies this`ptr, this`bitContainer, this`bitsConsumed
      ensures Valid() && status != Overflow
      ensures status == Unfinished ==> bitsConsumed <= 7
      ensures status == EndOfBuffer ==> ptr == 0 && bitsConsumed < 64
      ensures status == Completed <==> old(left) == []
      ensures bitsConsumed + Min(31, |left|) <= 64
    {
      LoadedRange(src, ptr, bitContainer, bitsConsumed, left);
      LeftIsPrefix(src, ptr, bitContainer, bitsConsumed, left);
      hide Loaded, FromBytes, Unpack;
      if bitsConsumed > 64 {
        return Overflow;
      }
      if ptr >= 8 {
        ptr := ptr - bitsConsumed / 8;
        bitsConsumed := bitsConsumed % 8;
        bitContainer := FromBytes(src[ptr..ptr + 8]);
        LoadAt(src, ptr, bitsConsumed, left);
        return Unfinished;
      }
      if ptr == 0 {
        if bitsConsumed < 64 {
          return EndOfBuffer;
        }
        return Completed;
      }
      var nbBytes := bitsConsumed / 8;
      status := Unfinished;
      if ptr < nbBytes {
        nbBytes := ptr;
        status := EndOfBuffer;
      }
      ptr := ptr - nbBytes;
      bitsConsumed := bitsConsumed - nbBytes * 8;
      bitContainer := FromBytes(src[ptr..ptr + 8]);
      LoadAt(src, ptr, bitsConsumed, left);
    }

    /** `BIT_endOfDStream`: exactly when everything has been read. */
    method EndOfStream() returns (end: bool)
      requires Valid()
      ensures end <==> left == []
    {
      LoadedRange(src, ptr, bitContainer, bitsConsumed, left);
      hide Loaded;
      end := ptr == 0 && bitsConsumed == 64;
    }
  }

  lemma StreamFirst(src: seq<byte>, stream: seq<bool>)
    requires IsClosed(src, stream)
    ensures stream <= Unpack(src)
  {
    hide Unpack;
  }

  lemma LeftIsPrefix(src: seq<byte>, ptr: nat, container: nat, consumed: nat, left: seq<bool>)
    requires Loaded(src, ptr, container, consumed, left)
    ensures left <= Unpack(src)
  {
    hide Unpack, LowBits;
  }

  lemma TakenFromTop(bits: seq<bool>, left: seq<bool>, at: nat, consumed: nat, n: nat)
    requires |bits| == 64 && consumed + n <= 64 && |left| == at + 64 - consumed && bits[..64 - consumed] == left[at..]
    ensures bits[64 - consumed - n..64 - consumed] == left[|left| - n..]
    ensures bits[..64 - consumed - n] == left[..|left| - n][at..]
  {
    assert left[at..][64 - consumed - n..] == left[|left| - n..];
    assert bits[..64 - consumed][64 - consumed - n..] == bits[64 - consumed - n..64 - consumed];
    assert left[..|left| - n][at..] == left[at..][..64 - consumed - n];
    assert bits[..64 - consumed][..64 - consumed - n] == bits[..64 - consumed - n];
  }

  // ---------------------------------------------------------------- last in, first out

  /** What a writer does: adds a value's low bits, or flushes. */
  datatype Op = Add(value: nat, nbBits: nat) | Flush

  /** The register never overflows, and has room for the end mark at the end. */
  ghost predicate Disciplined(ops: seq<Op>, bitPos: nat) {
    if ops == [] then bitPos + 1 < 64 else
      match ops[0]
      case Add(_, n) => n <= 31 && bitPos + n < 64 && Disciplined(ops[1..], bitPos + n)
      case Flush => Disciplined(ops[1..], bitPos % 8)
  }

  /** The bits of all values added. */
  function StreamOf(ops: seq<Op>): seq<bool> {
    if ops == [] then [] else
      var s := StreamOf(ops[..|ops| - 1]);
      match ops[|ops| - 1]
      case Add(v, n) => s + LowBits(v, n)
      case Flush => s
  }

  /** The values as a reader gets them: what the added bits make, last first. */
  function Backwards(ops: seq<Op>): seq<nat> {
    if ops == [] then [] else
      var rest := Backwards(ops[..|ops| - 1]);
      match ops[|ops| - 1]
      case Add(v, n) => [Low(v, n)] + rest
      case Flush => rest
  }

  lemma StreamSnoc(ops: seq<Op>, i: nat)
    requires i < |ops|
    ensures StreamOf(ops[..i + 1]) == match ops[i] case Add(v, n) => StreamOf(ops[..i]) + LowBits(v, n)
                                                 case Flush => StreamOf(ops[..i])
    ensures Backwards(ops[..i + 1]) == match ops[i] case Add(v, n) => [Low(v, n)] + Backwards(ops[..i])
                                                  case Flush => Backwards(ops[..i])
  {
    assert ops[..i + 1][..i] == ops[..i];
  }

  /** Writes everything and closes. */
  method WriteAll(ops: seq<Op>, capacity: nat) returns (buffer: array<byte>, size: nat)
    requires capacity > WORD && Disciplined(ops, 0)
    ensures fresh(buffer) && buffer.Length == capacity
    ensures size == 0 <==> |StreamOf(ops)| + 1 >= 8 * (capacity - WORD)
    ensures size > 0 ==> size <= capacity && IsClosed(buffer[..size], StreamOf(ops))
  {
    hide LowBits, IsClosed;
    buffer := new byte[capacity];
    var w := new CStream(buffer);
    assert ops[..0] == [] && ops[0..] == ops;
    for i := 0 to |ops|
      invariant fresh(w) && w.buffer == buffer && w.endPtr == capacity - WORD && w.Valid()
      invariant w.stream == StreamOf(ops[..i]) && Disciplined(ops[i..], w.bitPos)
    {
      hide StreamOf;
      StreamSnoc(ops, i);
      assert ops[i..][1..] == ops[i + 1..];
      match ops[i]
      case Add(v, n) => w.AddBits(v, n);
      case Flush => w.FlushBits();
    }
    assert ops[..|ops|] == ops && ops[|ops|..] == [];
    size := w.Close();
  }

  /** Reads everything back, reloading before each value. */
  method ReadAll(src: seq<byte>, ops: seq<Op>) returns (values: seq<nat>, end: bool)
    requires IsClosed(src, StreamOf(ops)) && Disciplined(ops, 0)
    ensures values == Backwards(ops) && end
  {
    hide LowBits, IsClosed, Low, Loaded, Pow2, Disciplined;
    var r := new DStream(src, StreamOf(ops));
    values := [];
    var i: nat := |ops|;
    assert ops[..|ops|] == ops;
    while i > 0
      invariant fresh(r) && r.Valid() && i <= |ops| && r.left == StreamOf(ops[..i])
      invariant values + Backwards(ops[..i]) == Backwards(ops)
    {
      i := i - 1;
      StreamSnoc(ops, i);
      hide StreamOf, Backwards;
      match ops[i]
      case Add(v, n) =>
        SmallAdd(ops, 0, i);
        var status := r.ReloadStream();
        var value := r.ReadBits(n);
        BitsDetermine(v, value, n);
        assert values + ([Low(v, n)] + Backwards(ops[..i])) == values + [Low(v, n)] + Backwards(ops[..i]);
        values := values + [value];
      case Flush =>
    }
    assert ops[..0] == [] && values + [] == values;
    end := r.EndOfStream();
  }

  lemma {:induction false} SmallAdd(ops: seq<Op>, bitPos: nat, i: nat)
    requires Disciplined(ops, bitPos) && i < |ops| && ops[i].Add?
    ensures ops[i].nbBits <= 31
  {
    if i > 0 {
      match ops[0]
      case Add(_, n) => SmallAdd(ops[1..], bitPos + n, i - 1);
      case Flush => SmallAdd(ops[1..], bitPos % 8, i - 1);
    }
  }

  /** What is written and closed without overflow is read back in reverse, up to the exact end of the stream. */
  method RoundTrip(ops: seq<Op>, capacity: nat) returns (closed: seq<byte>, values: seq<nat>, end: bool)
    requires capacity > WORD && Disciplined(ops, 0)
    ensures closed != [] <==> |StreamOf(ops)| + 1 < 8 * (capacity - WORD)
    ensures closed != [] ==> |closed| <= capacity && IsClosed(closed, StreamOf(ops))
    ensures closed != [] ==> values == Backwards(ops) && end
  {
    hide StreamOf, Backwards, Disciplined, IsClosed;
    closed, values, end := [], [], false;
    var buffer, size := WriteAll(ops, capacity);
    if size > 0 {
      closed := buffer[..size];
      values, end := ReadAll(closed, ops);
    }
  }
}
