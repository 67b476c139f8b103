/** The bit stream of the secondary coders: bytes fill from their lowest bit, values go out highest bit first. */
module BitIO {
  import opened Common
  import opened Kraft
  import opened Arith

  /** The `n` lowest bits of `b`, lowest first. */
  function LowBits(b: nat, n: nat): (r: seq<bool>)
    ensures |r| == n
  {
    if n == 0 then [] else [b % 2 == 1] + LowBits(b / 2, n - 1)
  }

  /** All bits of a string of bytes, in stream order. */
  function Unpack(bytes: seq<byte>): (r: seq<bool>)
    ensures |r| == 8 * |bytes|
  {
    if bytes == [] then [] else LowBits(bytes[0], 8) + Unpack(bytes[1..])
  }

  /** `v` in `n` bits, highest first. */
  function ValueBits(n: nat, v: nat): (r: seq<bool>)
    ensures |r| == n
  {
    if n == 0 then [] else ValueBits(n - 1, v / 2) + [v % 2 == 1]
  }

  /** The value of a string of bits, highest first. */
  function BitsValue(s: seq<bool>): (v: nat)
    ensures v < Pow2(|s|)
  {
    if s == [] then 0 else 2 * BitsValue(s[..|s| - 1]) + if s[|s| - 1] then 1 else 0
  }

  lemma {:induction false} ValueOfBits(n: nat, v: nat)
    requires v < Pow2(n)
    ensures BitsValue(ValueBits(n, v)) == v
  {
    if n > 0 {
      ValueOfBits(n - 1, v / 2);
      assert ValueBits(n, v)[..n - 1] == ValueBits(n - 1, v / 2);
    }
  }

  lemma {:induction false} BitsOfValue(s: seq<bool>)
    ensures ValueBits(|s|, BitsValue(s)) == s
  {
    if s != [] {
      BitsOfValue(s[..|s| - 1]);
    }
  }

  lemma LowBitsCons(b: nat, n: nat)
    ensures LowBits(b, n + 1) == [b % 2 == 1] + LowBits(b / 2, n)
    ensures LowBits(b, 0) == []
  {
  }

  lemma HalfOfSum(b: nat, p: nat)
    ensures (b + 2 * p) / 2 == b / 2 + p && (b + 2 * p) % 2 == b % 2
  {
  }

  lemma LowBitsStep(b: nat, c: nat, k: nat, x: bool)
    requires b % 2 == c % 2 && LowBits(c / 2, k + 1) == LowBits(b / 2, k) + [x]
    ensures LowBits(c, k + 2) == LowBits(b, k + 1) + [x]
  {
    LowBitsCons(c, k + 1);
    LowBitsCons(b, k);
    hide LowBits;
    assert [b % 2 == 1] + LowBits(b / 2, k) + [x] == [b % 2 == 1] + (LowBits(b / 2, k) + [x]);
  }

  lemma {:induction false} LowBitsSnoc(b: nat, k: nat)
    requires b < Pow2(k)
    ensures LowBits(b, k + 1) == LowBits(b, k) + [false]
    ensures LowBits(b + Pow2(k), k + 1) == LowBits(b, k) + [true]
  {
    hide LowBits;
    if k > 0 {
      LowBitsSnoc(b / 2, k - 1);
      HalfOfSum(b, Pow2(k - 1));
      LowBitsStep(b, b, k - 1, false);
      LowBitsStep(b, b + Pow2(k), k - 1, true);
    } else {
      LowBitsCons(0, 0);
      LowBitsCons(1, 0);
    }
  }

  lemma {:induction false} UnpackSnoc(bytes: seq<byte>, b: byte)
    ensures Unpack(bytes + [b]) == Unpack(bytes) + LowBits(b, 8)
  {
    hide LowBits;
    if bytes == [] {
      assert [b][1..] == [];
    } else {
      UnpackSnoc(bytes[1..], b);
      assert (bytes + [b])[1..] == bytes[1..] + [b];
    }
  }

  /** `b` without its `k` lowest bits. */
  function High(b: nat, k: nat): nat {
    if k == 0 then b else High(b / 2, k - 1)
  }

  lemma {:induction false} HighIsQuotient(b: nat, k: nat)
    ensures High(b, k) == b / Pow2(k)
  {
    if k > 0 {
      HighIsQuotient(b / 2, k - 1);
      HalveThenDivide(b, Pow2(k - 1));
    }
  }

  lemma {:induction false} HighStep(b: nat, k: nat)
    ensures High(b, k + 1) == High(b, k) / 2
  {
    if k > 0 { HighStep(b / 2, k - 1); }
  }

  lemma {:induction false} HighNothing(b: nat, k: nat)
    requires b < Pow2(k)
    ensures High(b, k) == 0
  {
    if k > 0 { HighNothing(b / 2, k - 1); }
  }

  lemma {:induction false} LowBitsAt(b: nat, n: nat, k: nat)
    requires k < n
    ensures LowBits(b, n)[k] <==> High(b, k) % 2 == 1
  {
    if k > 0 { LowBitsAt(b / 2, n - 1, k - 1); }
  }

  /** Of `n` bits of a value, the first is the highest. */
  lemma {:induction false} ValueBitsAt(n: nat, v: nat, k: nat)
    requires k < n
    ensures ValueBits(n, v)[k] <==> v / Pow2(n - 1 - k) % 2 == 1
  {
    HighIsQuotient(v, n - 1 - k);
    if k < n - 1 {
      ValueBitsAt(n - 1, v / 2, k);
      HighIsQuotient(v / 2, n - 2 - k);
    }
  }

  lemma {:induction false} UnpackByte(bytes: seq<byte>, i: nat)
    requires i < |bytes|
    ensures Unpack(bytes)[8 * i..8 * i + 8] == LowBits(bytes[i], 8)
  {
    if i > 0 {
      UnpackByte(bytes[1..], i - 1);
      assert Unpack(bytes)[8 * i..8 * i + 8] == Unpack(bytes[1..])[8 * (i - 1)..8 * (i - 1) + 8];
    }
  }

  /** Of the bits of a byte in the stream, the first is the lowest. */
  lemma UnpackAt(bytes: seq<byte>, i: nat, k: nat)
    requires i < |bytes| && k < 8
    ensures Unpack(bytes)[8 * i + k] <==> bytes[i] / Pow2(k) % 2 == 1
  {
    hide LowBits, Unpack;
    UnpackByte(bytes, i);
    assert Unpack(bytes)[8 * i..8 * i + 8][k] == LowBits(bytes[i], 8)[k];
    LowBitsAt(bytes[i], 8, k);
    HighIsQuotient(bytes[i], k);
  }

  /** `x << n`, with no bit lost. */
  function Shl(x: nat, n: nat): nat {
    if n == 0 then x else 2 * Shl(x, n - 1)
  }

  lemma {:induction false} ShlAdd(x: nat, y: nat, n: nat)
    ensures Shl(x + y, n) == Shl(x, n) + Shl(y, n)
  {
    if n > 0 { ShlAdd(x, y, n - 1); }
  }

  lemma {:induction false} ShlTwice(x: nat, m: nat, n: nat)
    ensures Shl(Shl(x, m), n) == Shl(x, m + n)
  {
    if n > 0 { ShlTwice(x, m, n - 1); }
  }

  lemma {:induction false} ShlZero(n: nat)
    ensures Shl(0, n) == 0
  {
    if n > 0 { ShlZero(n - 1); }
  }

  lemma ShlNext(x: nat, n: nat)
    ensures Shl(x, n + 1) == 2 * Shl(x, n)
  {
  }

  /** The lowest `n` bits are clear. */
  ghost predicate LowClear(w: nat, n: nat) {
    n == 0 || (w % 2 == 0 && LowClear(w / 2, n - 1))
  }

  /** `w | x` where `w` has its lowest `n` bits clear and `x` has no other. */
  function Or(w: nat, x: nat, ghost n: nat): nat
    requires LowClear(w, n) && x < Pow2(n)
  {
    w + x
  }

  lemma DoubleAndHalf(y: nat)
    ensures 2 * y % 2 == 0 && 2 * y / 2 == y
  {
  }

  lemma {:induction false} ShlIsClear(x: nat, n: nat)
    ensures LowClear(Shl(x, n), n)
  {
    hide Shl;
    if n > 0 {
      ShlIsClear(x, n - 1);
      ShlNext(x, n - 1);
      DoubleAndHalf(Shl(x, n - 1));
    }
  }

  lemma {:induction false} ClearZero(n: nat)
    ensures LowClear(0, n)
  {
    if n > 0 { ClearZero(n - 1); }
  }

  function Falses(n: nat): (r: seq<bool>)
    ensures |r| == n
  {
    seq(n, _ => false)
  }

  lemma Shl8(x: nat)
    ensures Shl(x, 8) == 256 * x
  {
    hide Shl;
    Shl4(x);
    ShlTwice(x, 4, 4);
    Shl4(Shl(x, 4));
  }

  lemma Shl4(x: nat)
    ensures Shl(x, 4) == 16 * x
  {
    assert Shl(x, 1) == 2 * Shl(x, 0);
    assert Shl(x, 2) == 2 * Shl(x, 1);
    assert Shl(x, 3) == 2 * Shl(x, 2);
  }

  lemma Pow2Next(n: nat)
    ensures Pow2(n + 1) == 2 * Pow2(n)
  {
  }

  lemma {:induction false} Pow2Sum(a: nat, b: nat)
    ensures Pow2(a + b) == Pow2(a) * Pow2(b)
  {
    if b > 0 { Pow2Sum(a, b - 1); }
  }

  lemma {:induction false} UnpackAppend(a: seq<byte>, b: seq<byte>)
    ensures Unpack(a + b) == Unpack(a) + Unpack(b)
  {
    hide LowBits;
    if a == [] {
      assert a + b == b;
    } else {
      UnpackAppend(a[1..], b);
      assert (a + b)[1..] == a[1..] + b;
      assert LowBits(a[0], 8) + (Unpack(a[1..]) + Unpack(b)) == LowBits(a[0], 8) + Unpack(a[1..]) + Unpack(b);
    }
  }

  lemma {:induction false} ShlFits(a: nat, b: nat, m: nat, n: nat)
    requires a < Pow2(m) && b < Pow2(n)
    ensures Shl(a, n) + b < Pow2(m + n)
  {
    if n > 0 { ShlFits(a, b / 2, m, n - 1); }
  }

  lemma {:induction false} HighFits(x: nat, m: nat, n: nat)
    requires x < Pow2(m + n)
    ensures High(x, n) < Pow2(m)
  {
    if n > 0 { HighFits(x / 2, m, n - 1); }
  }

  /** The `n` lowest bits of `x`, as a number. */
  function Low(x: nat, n: nat): nat {
    if n == 0 then 0 else x % 2 + 2 * Low(x / 2, n - 1)
  }

  lemma {:induction false} LowIs(x: nat, n: nat)
    ensures Low(x, n) < Pow2(n) && LowBits(Low(x, n), n) == LowBits(x, n)
  {
    if n > 0 { LowIs(x / 2, n - 1); }
  }

  /** A number is its low bits and its high ones. */
  lemma {:induction false} LowAndHigh(x: nat, n: nat)
    ensures x == Low(x, n) + Shl(High(x, n), n)
  {
    if n > 0 { LowAndHigh(x / 2, n - 1); }
  }

  lemma PowersOfTwo()
    ensures Pow2(0) == 1 && Pow2(1) == 2 && Pow2(2) == 4 && Pow2(3) == 8 && Pow2(4) == 16
    ensures Pow2(5) == 32 && Pow2(6) == 64 && Pow2(7) == 128 && Pow2(8) == 256
  {
    assert Pow2(4) == 16 && Pow2(6) == 64;
  }

  /** `b & m` is not zero, for a power of two `m`. */
  predicate TestBit(b: nat, m: nat)
    requires m > 0
  {
    b / m % 2 == 1
  }

  /** `b | m`, for a power of two `m`. */
  function SetBit(b: nat, m: nat): nat
    requires m > 0
  {
    if TestBit(b, m) then b else b + m
  }

  lemma TestBitIsHigh(b: nat, k: nat)
    ensures TestBit(b, Pow2(k)) <==> High(b, k) % 2 == 1
  {
    HighIsQuotient(b, k);
  }

  lemma HighZero(b: nat)
    ensures High(b, 0) == b
  {
  }

  lemma NoBits()
    ensures LowBits(0, 0) == []
  {
  }

  /** The mask is `0x80` exactly at bit 7, and `0x100` exactly past it. */
  lemma MaskAndIndex(k: nat)
    requires k <= 8
    ensures Pow2(k) == 0x80 <==> k == 7
    ensures Pow2(k) == 0x100 <==> k == 8
    ensures Pow2(k + 1) == 2 * Pow2(k)
    ensures k < 8 ==> Pow2(k + 1) <= 256
  {
    PowersOfTwo();
    if k < 7 { Pow2Monotone(k, 6); }
  }

  lemma MaskIsOne(j: nat)
    ensures Pow2(j) == 1 <==> j == 0
  {
    if j > 0 { assert Pow2(j) == 2 * Pow2(j - 1); }
  }

  /** Setting a clear bit above all others. */
  lemma SetNextBit(b: nat, k: nat, bit: bool)
    requires b < Pow2(k)
    ensures var b' := if bit then SetBit(b, Pow2(k)) else b;
            b' < Pow2(k + 1) && LowBits(b', k + 1) == LowBits(b, k) + [bit]
  {
    TestBitIsHigh(b, k);
    HighNothing(b, k);
    LowBitsSnoc(b, k);
  }

  // ---------------------------------------------------------------- writing

  class BitWriter {
    var out: seq<byte>
    var curByte: nat
    var curMask: nat
    ghost var k: nat

    /** The mask is bit `k` of the current byte, whose bits from `k` on are clear. */
    ghost predicate Valid()
      reads this
    {
      k < 8 && curMask == Pow2(k) && curByte < Pow2(k)
    }

    /** Everything written so far. */
    ghost function Bits(): seq<bool>
      reads this
    {
      Unpack(out) + LowBits(curByte, k)
    }

    constructor (prefix: seq<byte>)
      ensures Valid() && out == prefix && Bits() == Unpack(prefix)
    {
      out, curByte, curMask, k := prefix, 0, 1, 0;
    }

    method EncodeBit(bit: bool)
      requires Valid()
      modifies this
      ensures Valid() && Bits() == old(Bits()) + [bit] && old(out) <= out
    {
      hide LowBits, Unpack, SetBit, TestBit;
      PowersOfTwo();
      SetNextBit(curByte, k, bit);
      MaskAndIndex(k);
      ghost var was := LowBits(curByte, k);
      if bit {
        curByte := SetBit(curByte, curMask);
      }
      if curMask == 0x80 {
        UnpackSnoc(out, curByte);
        NoBits();
        assert Unpack(out) + (was + [bit]) == Unpack(out) + was + [bit];
        out := out + [curByte];
        curMask, curByte := 1, 0;
        k := 0;
      } else {
        curMask := curMask * 2;
        k := k + 1;
      }
    }

    method EncodeBits(nbits: nat, value: nat)
      requires Valid() && nbits > 0 && value < Pow2(nbits)
      modifies this
      ensures Valid() && Bits() == old(Bits()) + ValueBits(nbits, value) && old(out) <= out
    {
      hide LowBits, Unpack, TestBit, High, Valid, Bits;
      var mask := Pow2(nbits);
      ghost var j: nat := nbits;
      HighNothing(value, nbits);
      MaskIsOne(nbits);
      NoValueBits();
      while mask != 1
        invariant Valid() && j <= nbits && mask == Pow2(j) && (mask == 1 <==> j == 0)
        invariant Bits() == old(Bits()) + ValueBits(nbits - j, High(value, j)) && old(out) <= out
        decreases j
      {
        MaskIsOne(j - 1);
        mask := mask / 2;
        j := j - 1;
        HighStep(value, j);
        TestBitIsHigh(value, j);
        ghost var bits := Bits();
        EncodeBit(TestBit(value, mask));
        assert Bits() == old(Bits()) + ValueBits(nbits - j, High(value, j));
      }
      HighZero(value);
    }

    /** Writes out a byte that has bits in it; the rest of it stays clear. */
    method Flush()
      requires Valid()
      modifies this`out
      ensures old(Bits()) <= Unpack(out) && |Unpack(out)| < |old(Bits())| + 8
      ensures old(out) <= out
    {
      hide Unpack, LowBits;
      MaskIsOne(k);
      NoBits();
      if curMask != 1 {
        PowersOfTwo();
        Pow2Monotone(k, 8);
        UnpackSnoc(out, curByte);
        LowBitsPrefix(curByte, k, 8);
        out := out + [curByte];
      }
    }
  }

  lemma {:induction false} LowBitsPrefix(b: nat, k: nat, n: nat)
    requires k <= n
    ensures LowBits(b, k) <= LowBits(b, n)
  {
    if k > 0 { LowBitsPrefix(b / 2, k - 1, n - 1); }
  }

  // ---------------------------------------------------------------- reading

  class BitReader {
    const input: seq<byte>
    var pos: nat
    var curByte: nat
    var curMask: nat
    ghost var k: nat

    /** Bits `k` to 7 of the current byte are still to be read; mask `0x100` says there are none. */
    ghost predicate Valid()
      reads this
    {
      k <= 8 && curMask == Pow2(k) && pos <= |input|
    }

    /** Everything still to be read. */
    ghost function Rest(): seq<bool>
      reads this
      requires Valid()
    {
      LowBits(curByte, 8)[k..] + Unpack(input[pos..])
    }

    constructor (input: seq<byte>)
      ensures Valid() && this.input == input && Rest() == Unpack(input)
    {
      this.input, pos, curByte, curMask, k := input, 0, 0, 0x100, 8;
      new;
      PowersOfTwo();
      assert input[0..] == input;
    }

    lemma NothingLeft()
      requires Valid() && curMask == 0x100 && pos == |input|
      ensures Rest() == []
    {
      MaskAndIndex(k);
    }

    lemma SomethingLeft()
      requires Valid() && !(curMask == 0x100 && pos == |input|)
      ensures |Rest()| > 0
    {
      MaskAndIndex(k);
    }

    lemma PosInRange()
      requires Valid()
      ensures pos <= |input|
    {
    }

    lemma BytesLeft()
      requires Valid()
      ensures 8 * (|input| - pos) <= |Rest()|
    {
    }

    /** One bit, fetching a byte when the current one is used up. */
    method NextBit() returns (ok: bool, bit: bool)
      requires Valid()
      modifies this`pos, this`curByte, this`curMask, this`k
      ensures Valid() && (ok <==> |old(Rest())| > 0)
      ensures ok ==> old(Rest()) == [bit] + Rest()
    {
      hide LowBits, Unpack, TestBit;
      MaskAndIndex(k);
      if curMask == 0x100 {
        RestAtByteEnd(curByte, input, pos);
        if pos == |input| {
          return false, false;
        }
        curByte := input[pos];
        pos := pos + 1;
        curMask, k := 1, 0;
        assert Rest() == old(Rest());
        MaskAndIndex(k);
      }
      RestSplit(curByte, k, Unpack(input[pos..]));
      bit := TestBit(curByte, curMask);
      curMask := curMask * 2;
      k := k + 1;
      ok := true;
    }

    method DecodeBits(nbits: nat) returns (ok: bool, value: nat)
      requires Valid() && nbits > 0
      modifies this`pos, this`curByte, this`curMask, this`k
      ensures Valid() && (ok <==> |old(Rest())| >= nbits)
      ensures ok ==> value < Pow2(nbits) && old(Rest()) == ValueBits(nbits, value) + Rest()
    {
      hide *;
      ghost var before := Rest();
      var vmask := Pow2(nbits);
      ghost var j: nat := nbits;
      ghost var high: nat := 0;
      value := 0;
      NoValueBits();
      MaskIsOne(nbits);
      while vmask != 1
        invariant Valid() && j <= nbits && vmask == Pow2(j) && (vmask == 1 <==> j == 0)
        invariant value == Scaled(high, vmask) && high < Pow2(nbits - j)
        invariant before == ValueBits(nbits - j, high) + Rest()
        decreases j
      {
        MaskIsOne(j - 1);
        HalfMask(j);
        vmask := vmask / 2;
        var bit;
        ok, bit := NextBit();
        if !ok {
          return false, 0;
        }
        ValueBitsSnoc(nbits - j, high, bit);
        AddMask(high, vmask, bit);
        if bit {
          value := value + vmask;
        }
        high := 2 * high + if bit then 1 else 0;
        j := j - 1;
      }
      ok := true;
    }
  }

  /** A value in units of the mask. */
  function Scaled(high: nat, mask: nat): (r: nat)
    ensures mask == 1 ==> r == high
    ensures high == 0 ==> r == 0
  {
    high * mask
  }

  lemma HalfMask(j: nat)
    requires j > 0
    ensures Pow2(j) == 2 * Pow2(j - 1)
  {
  }

  /** What was written in `n` bits is what is read. */
  lemma ReadBack(n: nat, v: nat, v': nat, rest: seq<bool>, rest': seq<bool>)
    requires v < Pow2(n) && v' < Pow2(n) && ValueBits(n, v) + rest == ValueBits(n, v') + rest'
    ensures v == v' && rest == rest'
  {
    hide Pow2, ValueBits, BitsValue;
    ValueOfBits(n, v);
    ValueOfBits(n, v');
    assert (ValueBits(n, v) + rest)[..n] == ValueBits(n, v);
    assert (ValueBits(n, v') + rest')[..n] == ValueBits(n, v');
    assert (ValueBits(n, v) + rest)[n..] == rest;
    assert (ValueBits(n, v') + rest')[n..] == rest';
  }

  lemma NoValueBits()
    ensures ValueBits(0, 0) == [] && Pow2(0) == 1
  {
  }

  lemma ValueBitsSnoc(n: nat, high: nat, bit: bool)
    requires high < Pow2(n)
    ensures var high' := 2 * high + if bit then 1 else 0;
            ValueBits(n + 1, high') == ValueBits(n, high) + [bit] && high' < Pow2(n + 1)
  {
  }

  lemma AddMask(high: nat, mask: nat, bit: bool)
    ensures Scaled(high, 2 * mask) + (if bit then mask else 0) == Scaled(2 * high + (if bit then 1 else 0), mask)
  {
    assert high * (2 * mask) == (2 * high) * mask;
    Distribute(2 * high, 1, mask);
  }

  /** With every bit of the current byte used, what is left starts with the next byte. */
  lemma RestAtByteEnd(b: nat, input: seq<byte>, pos: nat)
    requires pos <= |input|
    ensures LowBits(b, 8)[8..] == []
    ensures pos == |input| ==> Unpack(input[pos..]) == []
    ensures pos < |input| ==> Unpack(input[pos..]) == LowBits(input[pos], 8)[0..] + Unpack(input[pos + 1..])
  {
    if pos < |input| {
      assert input[pos..][1..] == input[pos + 1..];
      assert LowBits(input[pos], 8)[0..] == LowBits(input[pos], 8);
    }
  }

  lemma RestSplit(b: nat, k: nat, rest: seq<bool>)
    requires k < 8
    ensures LowBits(b, 8)[k..] + rest == [TestBit(b, Pow2(k))] + (LowBits(b, 8)[k + 1..] + rest)
  {
    LowBitsAt(b, 8, k);
    TestBitIsHigh(b, k);
    var low := LowBits(b, 8);
    assert low[k..] == [low[k]] + low[k + 1..];
  }
}
