/** Variable-length integers packed into 16-bit words from the top (`rejpeg.c`). */
module LiteralVli {
  import opened Kraft
  import opened BitIO

  // ---------------------------------------------------------------- shifts as strings of bits

  /** Bits after bits: shift and add. */
  lemma {:induction false} ValueOfAppend(a: seq<bool>, b: seq<bool>)
    ensures BitsValue(a + b) == Shl(BitsValue(a), |b|) + BitsValue(b)
  {
    if b == [] {
      assert a + b == a;
    } else {
      var n := |b| - 1;
      ValueOfAppend(a, b[..n]);
      assert (a + b)[..|a + b| - 1] == a + b[..n];
    }
  }

  lemma {:induction false} ValueOfFalses(n: nat)
    ensures BitsValue(Falses(n)) == 0
  {
    if n > 0 {
      ValueOfFalses(n - 1);
      assert Falses(n)[..n - 1] == Falses(n - 1);
    }
  }

  lemma LastBitOff(s: seq<bool>)
    requires s != []
    ensures BitsValue(s) / 2 == BitsValue(s[..|s| - 1])
  {
  }

  lemma HighHalf(x: nat, n: nat)
    ensures High(x, 0) == x && High(x, n + 1) == High(x / 2, n)
  {
  }

  lemma {:induction false} HighOfAppend(a: seq<bool>, b: seq<bool>)
    ensures High(BitsValue(a + b), |b|) == BitsValue(a)
  {
    hide BitsValue, High;
    HighHalf(BitsValue(a + b), 0);
    if b == [] {
      assert a + b == a;
    } else {
      var n := |b| - 1;
      HighOfAppend(a, b[..n]);
      assert (a + b)[..|a + b| - 1] == a + b[..n];
      LastBitOff(a + b);
      HighHalf(BitsValue(a + b), n);
    }
  }

  /** Adding bits at the place of clear ones; as the bits there are clear, this is what `|=` does. */
  lemma OrBits(p: seq<bool>, b: seq<bool>, n: nat)
    ensures BitsValue(p + b + Falses(n)) == BitsValue(p + Falses(|b| + n)) + Shl(BitsValue(b), n)
  {
    hide BitsValue, Shl;
    ValueOfAppend(p + b, Falses(n));
    ValueOfAppend(p, b);
    ValueOfAppend(p, Falses(|b| + n));
    ValueOfFalses(n);
    ValueOfFalses(|b| + n);
    ShlAdd(Shl(BitsValue(p), |b|), BitsValue(b), n);
    ShlTwice(BitsValue(p), |b|, n);
  }

  lemma Shl16(x: nat)
    ensures Shl(x, 16) == 65536 * x
  {
    ShlTwice(x, 8, 8);
    hide Shl;
    Shl8(x);
    Shl8(Shl(x, 8));
  }

  lemma PowerOf16()
    ensures Pow2(16) == 65536 && Pow2(12) == 4096 && Pow2(11) == 2048 && Pow2(10) == 1024 && Pow2(9) == 512
  {
    PowersOfTwo();
    assert Pow2(9) == 2 * Pow2(8);
    assert Pow2(10) == 2 * Pow2(9);
    assert Pow2(11) == 2 * Pow2(10);
    assert Pow2(12) == 2 * Pow2(11);
    assert Pow2(13) == 2 * Pow2(12);
    assert Pow2(14) == 2 * Pow2(13);
    assert Pow2(15) == 2 * Pow2(14);
  }

  lemma Modulo(q: nat, r: nat)
    requires r < 65536
    ensures (65536 * q + r) % 65536 == r
  {
  }

  /** A 16-bit left shift drops the bits above and fills with clear ones. */
  lemma ShiftOut(a: seq<bool>, b: seq<bool>, n: nat)
    requires |b| + n == 16
    ensures Shl(BitsValue(a + b), n) % 65536 == BitsValue(b + Falses(n))
  {
    hide BitsValue, Shl, Pow2;
    var x, y := BitsValue(a), BitsValue(b);
    ValueOfAppend(a, b);
    ShlAdd(Shl(x, |b|), y, n);
    ShlTwice(x, |b|, n);
    Shl16(x);
    ValueOfAppend(b, Falses(n));
    ValueOfFalses(n);
    PowerOf16();
    Modulo(x, BitsValue(b + Falses(n)));
  }

  // ---------------------------------------------------------------- a value as length and bits

  const MAX_VALUE: nat := 4095

  predicate Codable(v: int) {
    v <= MAX_VALUE && -v <= MAX_VALUE
  }

  /** The number of bits of a value's magnitude. */
  function BitLength(v: int): (n: nat)
    requires Codable(v)
    ensures n <= 12 && (n == 0 <==> v == 0)
  {
    var number := if v < 0 then -v else v;
    if number == 0 then 0
    else if number == 1 then 1
    else if number <= 3 then 2
    else if number <= 7 then 3
    else if number <= 15 then 4
    else if number <= 31 then 5
    else if number <= 63 then 6
    else if number <= 127 then 7
    else if number <= 255 then 8
    else if number <= 511 then 9
    else if number <= 1023 then 10
    else if number <= 2047 then 11
    else 12
  }

  /** The length is the least that the magnitude fits. */
  lemma LengthFits(v: int)
    requires Codable(v) && v != 0
    ensures var m := if v < 0 then -v else v;
            Pow2(BitLength(v)) == 2 * Pow2(BitLength(v) - 1) && Pow2(BitLength(v) - 1) <= m < Pow2(BitLength(v))
  {
    PowersOfTwo();
    PowerOf16();
  }

  /** `x ^ (0xffff >> (16 - n))`: all `n` bits of `x` flipped. */
  function Flip(x: nat, n: nat): (r: nat)
    requires x < Pow2(n)
    ensures r < Pow2(n)
  {
    Pow2(n) - 1 - x
  }

  /** The bits of a value, those of a negative one flipped. */
  function ValueToBits(v: int): (bits: nat)
    requires Codable(v) && v != 0
    ensures bits < Pow2(BitLength(v))
  {
    LengthFits(v);
    if v > 0 then v else Flip(-v, BitLength(v))
  }

  /** As section F.1.2.1 of ITU-T T.81 has it: a negative value goes as the low bits of one less. */
  lemma ValueBitsAre(v: int)
    requires Codable(v) && v != 0
    ensures ValueToBits(v) == if v > 0 then v else v - 1 + Pow2(BitLength(v))
    ensures v > 0 <==> ValueToBits(v) >= Pow2(BitLength(v) - 1)
  {
    LengthFits(v);
  }

  /** The value of `n` bits: positive when the top bit is set. */
  function BitsToValue(bits: nat, n: nat): int
    requires 0 < n && bits < Pow2(n)
  {
    if High(bits, n - 1) > 0 then bits else 0 - Flip(bits, n)
  }

  lemma TopBit(bits: nat, n: nat)
    requires 0 < n && bits < Pow2(n)
    ensures High(bits, n - 1) > 0 <==> bits >= Pow2(n - 1)
  {
    if bits < Pow2(n - 1) {
      HighNothing(bits, n - 1);
    } else {
      HighIsQuotient(bits, n - 1);
    }
  }

  lemma ValueRoundTrip(v: int)
    requires Codable(v) && v != 0
    ensures BitsToValue(ValueToBits(v), BitLength(v)) == v
  {
    LengthFits(v);
    TopBit(ValueToBits(v), BitLength(v));
  }

  function OneValue(v: int): (r: seq<bool>)
    requires Codable(v)
    ensures |r| == BitLength(v)
  {
    if v == 0 then [] else ValueBits(BitLength(v), ValueToBits(v))
  }

  lemma OneValueIs(v: int)
    requires Codable(v) && v != 0
    ensures OneValue(v) == ValueBits(BitLength(v), ValueToBits(v))
    ensures BitsValue(OneValue(v)) == ValueToBits(v)
  {
    ValueOfBits(BitLength(v), ValueToBits(v));
  }

  predicate AllCodable(values: seq<int>) {
    forall i :: 0 <= i < |values| ==> Codable(values[i])
  }

  /** The bits of all values. */
  function Stream(values: seq<int>): (r: seq<bool>)
    requires AllCodable(values)
    ensures |r| <= 12 * |values|
  {
    if values == [] then [] else Stream(values[..|values| - 1]) + OneValue(values[|values| - 1])
  }

  predicate Words16(words: seq<nat>) {
    forall k :: 0 <= k < |words| ==> words[k] < 65536
  }

  /** The bits of 16-bit words, each from the top. */
  function WordBits(words: seq<nat>): (r: seq<bool>)
    ensures |r| == 16 * |words|
  {
    if words == [] then [] else WordBits(words[..|words| - 1]) + ValueBits(16, words[|words| - 1])
  }

  lemma WordBitsSnoc(words: seq<nat>, w: nat)
    ensures WordBits(words + [w]) == WordBits(words) + ValueBits(16, w)
  {
    assert (words + [w])[..|words|] == words;
  }

  lemma {:induction false} WordBitsCons(words: seq<nat>)
    requires words != []
    ensures WordBits(words) == ValueBits(16, words[0]) + WordBits(words[1..])
  {
    hide ValueBits;
    var n := |words| - 1;
    if n == 0 {
      assert words[..0] == [] && words[1..] == [];
      assert WordBits(words[..0]) == [];
    } else {
      WordBitsCons(words[..n]);
      assert words[..n][1..] == words[1..][..n - 1];
      assert words[1..][n - 1] == words[n];
      assert ValueBits(16, words[0]) + WordBits(words[1..][..n - 1]) + ValueBits(16, words[n])
          == ValueBits(16, words[0]) + (WordBits(words[1..][..n - 1]) + ValueBits(16, words[n]));
    }
  }

  lemma {:induction false} StreamCons(values: seq<int>)
    requires AllCodable(values) && values != []
    ensures Stream(values) == OneValue(values[0]) + Stream(values[1..])
  {
    hide OneValue;
    var n := |values| - 1;
    if n == 0 {
      assert values[..0] == [] && values[1..] == [];
    } else {
      StreamCons(values[..n]);
      assert values[..n][1..] == values[1..][..n - 1];
      assert values[1..][n - 1] == values[n];
      assert OneValue(values[0]) + Stream(values[1..][..n - 1]) + OneValue(values[n])
          == OneValue(values[0]) + (Stream(values[1..][..n - 1]) + OneValue(values[n]));
    }
  }

  // ---------------------------------------------------------------- the words of a stream

  /** How many words these bits begin, and one if there are none. */
  function WordCount(bits: nat): (n: nat)
    ensures n > 0 && bits <= 16 * n && (n == 1 || 16 * n <= bits + 15)
  {
    if bits == 0 then 1 else (bits + 15) / 16
  }

  /** Bits in groups of 16, each as a number. */
  function Chunks(bits: seq<bool>, n: nat): (words: seq<nat>)
    requires |bits| == 16 * n
    ensures |words| == n
  {
    if n == 0 then [] else Chunks(bits[..16 * (n - 1)], n - 1) + [BitsValue(bits[16 * (n - 1)..])]
  }

  lemma ChunksSnoc(bits: seq<bool>, last: seq<bool>, n: nat)
    requires |bits| == 16 * n && |last| == 16
    ensures Chunks(bits + last, n + 1) == Chunks(bits, n) + [BitsValue(last)]
  {
    hide BitsValue;
    assert (bits + last)[..16 * n] == bits && (bits + last)[16 * n..] == last;
  }

  lemma LastChunk(bits: seq<bool>, n: nat)
    requires |bits| == 16 * (n + 1)
    ensures bits[..16 * n] + bits[16 * n..] == bits && |bits[16 * n..]| == 16
  {
  }

  lemma WordOfBits(last: seq<bool>)
    requires |last| == 16
    ensures BitsValue(last) < 65536 && ValueBits(16, BitsValue(last)) == last
  {
    BitsOfValue(last);
    PowerOf16();
  }

  lemma NoChunks(bits: seq<bool>)
    requires bits == []
    ensures WordBits(Chunks(bits, 0)) == bits && Words16(Chunks(bits, 0)) && WordBits([]) == [] && Chunks([], 0) == []
  {
  }

  lemma OneMoreWord(words: seq<nat>, w: nat)
    requires Words16(words) && w < 65536
    ensures Words16(words + [w])
  {
  }

  lemma OneMoreChunk(bits: seq<bool>, last: seq<bool>, n: nat)
    requires |bits| == 16 * n && |last| == 16
    requires WordBits(Chunks(bits, n)) == bits && Words16(Chunks(bits, n))
    ensures WordBits(Chunks(bits + last, n + 1)) == bits + last
    ensures Words16(Chunks(bits + last, n + 1))
  {
    hide *;
    WordOfBits(last);
    ChunksSnoc(bits, last, n);
    WordBitsSnoc(Chunks(bits, n), BitsValue(last));
    OneMoreWord(Chunks(bits, n), BitsValue(last));
  }

  /** Each bit has its place in exactly one word. */
  lemma {:induction false} WordBitsOfChunks(bits: seq<bool>, n: nat)
    requires |bits| == 16 * n
    ensures WordBits(Chunks(bits, n)) == bits && Words16(Chunks(bits, n))
  {
    hide *;
    if n == 0 {
      NoChunks(bits);
    } else {
      LastChunk(bits, n - 1);
      WordBitsOfChunks(bits[..16 * (n - 1)], n - 1);
      OneMoreChunk(bits[..16 * (n - 1)], bits[16 * (n - 1)..], n - 1);
    }
  }

  lemma ChunksOfOneMore(words: seq<nat>, w: nat)
    requires Chunks(WordBits(words), |words|) == words && w < 65536
    ensures Chunks(WordBits(words + [w]), |words| + 1) == words + [w]
  {
    hide *;
    PowerOf16();
    ValueOfBits(16, w);
    WordBitsSnoc(words, w);
    ChunksSnoc(WordBits(words), ValueBits(16, w), |words|);
  }

  /** And the words of their bits are themselves. */
  lemma {:induction false} ChunksOfWordBits(words: seq<nat>)
    requires Words16(words)
    ensures Chunks(WordBits(words), |words|) == words
  {
    hide *;
    if words == [] {
      NoChunks([]);
    } else {
      var n := |words| - 1;
      FirstWords(words, n);
      ChunksOfWordBits(words[..n]);
      ChunksOfOneMore(words[..n], words[n]);
      TakeOneMore(words, n);
      assert words[..n + 1] == words;
    }
  }

  lemma FirstWords(words: seq<nat>, n: nat)
    requires Words16(words) && n < |words|
    ensures Words16(words[..n]) && words[n] < 65536
  {
  }

  function Padding(bits: nat): nat {
    16 * WordCount(bits) - bits
  }

  /** The words that hold a stream: its bits from the top, and clear ones after the last. */
  function WordsOf(stream: seq<bool>): (words: seq<nat>)
    ensures |words| == WordCount(|stream|)
  {
    Chunks(stream + Falses(Padding(|stream|)), WordCount(|stream|))
  }

  lemma WordsHold(stream: seq<bool>)
    ensures stream <= WordBits(WordsOf(stream)) && Words16(WordsOf(stream))
  {
    hide Chunks, WordBits;
    WordBitsOfChunks(stream + Falses(Padding(|stream|)), WordCount(|stream|));
  }

  // ---------------------------------------------------------------- packing

  /** The words hold `stream`: all words before `dataPos`, and the one there but for its `emptyBits` low bits. */
  ghost predicate Packed(words: seq<nat>, dataPos: nat, emptyBits: nat, stream: seq<bool>) {
    && dataPos < |words| && emptyBits <= 16 && |stream| == 16 * dataPos + 16 - emptyBits
    && (forall k :: dataPos < k < |words| ==> words[k] == 0)
    && WordBits(words[..dataPos]) == stream[..16 * dataPos]
    && words[dataPos] == BitsValue(stream[16 * dataPos..] + Falses(emptyBits))
  }

  lemma WordIsClear(p: seq<bool>, n: nat)
    ensures LowClear(BitsValue(p + Falses(n)), n)
  {
    ValueOfAppend(p, Falses(n));
    ValueOfFalses(n);
    ShlIsClear(BitsValue(p), n);
  }

  lemma BitsFit(b: seq<bool>, n: nat)
    ensures Shl(BitsValue(b), n) == BitsValue(b + Falses(n)) < Pow2(|b| + n)
  {
    ValueOfAppend(b, Falses(n));
    ValueOfFalses(n);
  }

  lemma PackedClear(words: seq<nat>, dataPos: nat, emptyBits: nat, stream: seq<bool>)
    requires Packed(words, dataPos, emptyBits, stream)
    ensures dataPos < |words| && emptyBits <= 16 && LowClear(words[dataPos], emptyBits)
  {
    WordIsClear(stream[16 * dataPos..], emptyBits);
  }

  lemma StreamParts(stream: seq<bool>, b: seq<bool>, n: nat)
    requires n <= |stream|
    ensures (stream + b)[n..] == stream[n..] + b && (stream + b)[..n] == stream[..n]
  {
  }

  /** Bits that fit the current word. */
  lemma PutFits(words: seq<nat>, dataPos: nat, emptyBits: nat, stream: seq<bool>, b: seq<bool>)
    requires Packed(words, dataPos, emptyBits, stream) && |b| <= emptyBits
    ensures Packed(words[dataPos := words[dataPos] + Shl(BitsValue(b), emptyBits - |b|)], dataPos, emptyBits - |b|,
                   stream + b)
  {
    hide *;
    UsePacked(words, dataPos, emptyBits, stream);
    ghost var n := emptyBits - |b|;
    ghost var p := stream[16 * dataPos..];
    OrBits(p, b, n);
    StreamParts(stream, b, 16 * dataPos);
    ghost var w := words[dataPos] + Shl(BitsValue(b), n);
    Replaced(words, dataPos, w);
    MakePacked(words[dataPos := w], dataPos, n, stream + b);
  }

  lemma UsePacked(words: seq<nat>, dataPos: nat, emptyBits: nat, stream: seq<bool>)
    requires Packed(words, dataPos, emptyBits, stream)
    ensures dataPos < |words| && emptyBits <= 16 && |stream| == 16 * dataPos + 16 - emptyBits
    ensures forall k :: dataPos < k < |words| ==> words[k] == 0
    ensures WordBits(words[..dataPos]) == stream[..16 * dataPos]
    ensures words[dataPos] == BitsValue(stream[16 * dataPos..] + Falses(emptyBits))
  {
  }

  lemma MakePacked(words: seq<nat>, dataPos: nat, emptyBits: nat, stream: seq<bool>)
    requires dataPos < |words| && emptyBits <= 16 && |stream| == 16 * dataPos + 16 - emptyBits
    requires forall k :: dataPos < k < |words| ==> words[k] == 0
    requires WordBits(words[..dataPos]) == stream[..16 * dataPos]
    requires words[dataPos] == BitsValue(stream[16 * dataPos..] + Falses(emptyBits))
    ensures Packed(words, dataPos, emptyBits, stream)
  {
  }

  lemma Replaced(words: seq<nat>, n: nat, w: nat)
    requires n < |words|
    ensures words[n := w][..n] == words[..n]
    ensures forall k :: n < k < |words| ==> words[n := w][k] == words[k]
  {
  }

  /** A full word is one of the finished ones. */
  lemma NextWord(words: seq<nat>, dataPos: nat, stream: seq<bool>)
    requires Packed(words, dataPos, 0, stream) && dataPos + 1 < |words|
    ensures Packed(words, dataPos + 1, 16, stream)
  {
    var p := stream[16 * dataPos..];
    assert p + Falses(0) == p;
    BitsOfValue(p);
    hide BitsValue, ValueBits, WordBits;
    WordBitsSnoc(words[..dataPos], words[dataPos]);
    assert words[..dataPos + 1] == words[..dataPos] + [words[dataPos]];
    assert stream[..16 * dataPos] + p == stream[..16 * (dataPos + 1)];
    ValueOfFalses(16);
    assert stream[16 * (dataPos + 1)..] + Falses(16) == Falses(16);
  }

  /** The two parts of bits that do not fit. */
  lemma SplitBits(b: seq<bool>, e: nat)
    requires e < |b|
    ensures High(BitsValue(b), |b| - e) == BitsValue(b[..e])
    ensures |b| <= 16 ==> Shl(BitsValue(b), 16 - (|b| - e)) % 65536 == Shl(BitsValue(b[e..]), 16 - (|b| - e))
  {
    hide High, BitsValue, Shl;
    HighOfAppend(b[..e], b[e..]);
    assert b[..e] + b[e..] == b;
    if |b| <= 16 {
      ShiftOut(b[..e], b[e..], 16 - (|b| - e));
      BitsFit(b[e..], 16 - (|b| - e));
    }
  }

  lemma PackedEmpty(words: seq<nat>)
    requires words != [] && forall k :: 0 <= k < |words| ==> words[k] == 0
    ensures Packed(words, 0, 16, [])
  {
    ValueOfFalses(16);
    assert [] + Falses(16) == Falses(16);
    assert words[..0] == [];
  }

  /** What remains of the last word is padding. */
  lemma PackedIs(words: seq<nat>, dataPos: nat, emptyBits: nat, stream: seq<bool>)
    requires Packed(words, dataPos, emptyBits, stream)
    ensures dataPos < |words| && WordBits(words[..dataPos + 1]) == stream + Falses(emptyBits)
    ensures words[dataPos] < 65536
  {
    hide *;
    UsePacked(words, dataPos, emptyBits, stream);
    ghost var p := stream[16 * dataPos..] + Falses(emptyBits);
    BitsOfValue(p);
    FitsBits(p);
    PowerOf16();
    WordBitsSnoc(words[..dataPos], words[dataPos]);
    TakeOneMore(words, dataPos);
    FalsesJoin(emptyBits, 0);
    PutTogether(stream, 16 * dataPos, Falses(emptyBits));
  }

  lemma TakeOneMore(words: seq<nat>, n: nat)
    requires n < |words|
    ensures words[..n + 1] == words[..n] + [words[n]]
  {
  }

  lemma PutTogether(stream: seq<bool>, n: nat, f: seq<bool>)
    requires n <= |stream|
    ensures stream[..n] + (stream[n..] + f) == stream + f
  {
  }

  /** `data[dataPos] |= x`. */
  method OrInto(data: array<nat>, dataPos: nat, x: nat, emptyBits: nat, ghost stream: seq<bool>, ghost b: seq<bool>)
    requires Packed(data[..], dataPos, emptyBits, stream) && |b| <= emptyBits
    requires x == Shl(BitsValue(b), emptyBits - |b|)
    modifies data
    ensures Packed(data[..], dataPos, emptyBits - |b|, stream + b)
    ensures forall k :: 0 <= k < data.Length && old(data[k]) < 65536 ==> data[k] < 65536
  {
    hide Packed, BitsValue, Shl, LowClear, Pow2;
    PackedClear(data[..], dataPos, emptyBits, stream);
    BitsFit(b, emptyBits - |b|);
    PutFits(data[..], dataPos, emptyBits, stream, b);
    data[dataPos] := Or(data[dataPos], x, emptyBits);
    assert data[..] == old(data[..])[dataPos := old(data[dataPos]) + x];
    SmallWord(data[..], dataPos, emptyBits - |b|, stream + b);
  }

  /** Adds the bits of one value to the words. */
  method PutValue(number: int, data: array<nat>, dataPos: nat, emptyBits: nat, ghost stream: seq<bool>)
    returns (dataPos': nat, emptyBits': nat)
    requires Codable(number) && Packed(data[..], dataPos, emptyBits, stream)
    requires |stream| + BitLength(number) <= 16 * data.Length
    modifies data
    ensures Packed(data[..], dataPos', emptyBits', stream + OneValue(number))
    ensures emptyBits' == 16 ==> emptyBits == 16 && dataPos' == dataPos
    ensures forall k :: 0 <= k < data.Length && old(data[k]) < 65536 ==> data[k] < 65536
  {
    hide Packed, BitLength, OneValue, BitsValue, Shl, High, LowClear, Pow2, ValueToBits, ValueBits, Falses;
    dataPos', emptyBits' := dataPos, emptyBits;
    PackedRange(data[..], dataPos, emptyBits, stream);
    NothingAdded(number, stream);
    if number != 0 {
      OneValueIs(number);
      ghost var b := OneValue(number);
      var bitLength := BitLength(number);
      var bits := ValueToBits(number);
      if emptyBits >= bitLength {
        emptyBits' := emptyBits - bitLength;
        OrInto(data, dataPos, Shl(bits, emptyBits'), emptyBits, stream, b);
      } else {
        bitLength := bitLength - emptyBits;
        SplitBits(b, emptyBits);
        NoShift(BitsValue(b[..emptyBits]));
        OrInto(data, dataPos, High(bits, bitLength), emptyBits, stream, b[..emptyBits]);
        NextWord(data[..], dataPos, stream + b[..emptyBits]);
        emptyBits' := 16 - bitLength;
        dataPos' := dataPos + 1;
        OrInto(data, dataPos', Shl(bits, emptyBits') % 65536, 16, stream + b[..emptyBits], b[emptyBits..]);
        JoinParts(stream, b, emptyBits);
      }
    }
  }

  lemma JoinParts(stream: seq<bool>, b: seq<bool>, n: nat)
    requires n <= |b|
    ensures stream + b[..n] + b[n..] == stream + b
  {
  }

  lemma NoShift(x: nat)
    ensures Shl(x, 0) == x
  {
  }

  lemma NothingAdded(number: int, stream: seq<bool>)
    requires Codable(number)
    ensures number == 0 ==> OneValue(number) == [] && stream + OneValue(number) == stream
    ensures BitLength(number) <= 12 && (BitLength(number) == 0 <==> number == 0) && |OneValue(number)| == BitLength(number)
  {
  }

  lemma PackedRange(words: seq<nat>, dataPos: nat, emptyBits: nat, stream: seq<bool>)
    requires Packed(words, dataPos, emptyBits, stream)
    ensures dataPos < |words| && emptyBits <= 16 && |stream| == 16 * dataPos + 16 - emptyBits
  {
  }

  lemma SmallWord(words: seq<nat>, dataPos: nat, emptyBits: nat, stream: seq<bool>)
    requires Packed(words, dataPos, emptyBits, stream)
    ensures dataPos < |words| && words[dataPos] < 65536
  {
    PackedIs(words, dataPos, emptyBits, stream);
  }

  lemma StreamSnoc(values: seq<int>, v: int)
    requires AllCodable(values) && Codable(v)
    ensures AllCodable(values + [v]) && Stream(values + [v]) == Stream(values) + OneValue(v)
  {
    assert (values + [v])[..|values|] == values;
  }

  lemma {:induction false} StreamPrefix(values: seq<int>, n: nat)
    requires AllCodable(values) && n < |values|
    ensures AllCodable(values[..n]) && AllCodable(values[..n + 1]) && Codable(values[n])
    ensures Stream(values[..n + 1]) == Stream(values[..n]) + OneValue(values[n])
    ensures |Stream(values[..n])| + BitLength(values[n]) <= |Stream(values)|
    decreases |values| - n
  {
    hide OneValue;
    StreamSnoc(values[..n], values[n]);
    assert values[..n + 1] == values[..n] + [values[n]];
    if n + 1 < |values| {
      StreamPrefix(values, n + 1);
    } else {
      assert values[..n + 1] == values;
    }
  }

  /**
    * `vliEncode`: puts the bit length of each value in the low half of its length byte, and its bits in `data`, which
    * must be clear and large enough.
    */
  method VliEncode(length: array<nat>, value: array<int>, size: nat, data: array<nat>) returns (valLen: nat)
    requires length != data && size <= length.Length && size <= value.Length && data.Length > 0
    requires AllCodable(value[..size]) && |Stream(value[..size])| <= 16 * data.Length
    requires forall k :: 0 <= k < data.Length ==> data[k] == 0
    modifies length, data
    ensures forall i :: 0 <= i < size ==> length[i] == old(length[i]) * 16 + BitLength(value[i])
    ensures size == 0 <==> valLen == 0
    ensures valLen <= data.Length && (size > 0 ==> data[..valLen] == WordsOf(Stream(value[..size])))
  {
    hide Packed, Stream, BitLength, WordBits, Falses, OneValue, ValueBits, BitsValue;
    ghost var values := value[..size];
    var dataPos, emptyBits := 0, 16;
    EmptyStream(values);
    PackedEmpty(data[..]);
    for i := 0 to size
      invariant AllCodable(values[..i])
      invariant Packed(data[..], dataPos, emptyBits, Stream(values[..i]))
      invariant emptyBits == 16 ==> dataPos == 0
      invariant Words16(data[..])
      invariant forall k :: 0 <= k < i ==> length[k] == old(length[k]) * 16 + BitLength(value[k])
      invariant forall k :: i <= k < size ==> length[k] == old(length[k])
    {
      StreamPrefix(values, i);
      var number := value[i];
      length[i] := length[i] * 16 + BitLength(number);
      dataPos, emptyBits := PutValue(number, data, dataPos, emptyBits, Stream(values[..i]));
    }
    assert values[..size] == values;
    PackedRange(data[..], dataPos, emptyBits, Stream(values));
    PackedWords(data[..], dataPos, emptyBits, Stream(values));
    assert data[..][..dataPos + 1] == data[..dataPos + 1];
    valLen := if size > 0 then dataPos + 1 else 0;
  }

  /** Words that are packed are the words of the stream. */
  lemma PackedWords(words: seq<nat>, dataPos: nat, emptyBits: nat, stream: seq<bool>)
    requires Packed(words, dataPos, emptyBits, stream) && (emptyBits == 16 ==> dataPos == 0) && Words16(words)
    ensures dataPos < |words| && words[..dataPos + 1] == WordsOf(stream)
  {
    PackedRange(words, dataPos, emptyBits, stream);
    hide Packed, Chunks, WordBits, Falses;
    PackedIs(words, dataPos, emptyBits, stream);
    ChunksOfWordBits(words[..dataPos + 1]);
    LastWord(dataPos, emptyBits, |stream|);
  }

  lemma LastWord(dataPos: nat, emptyBits: nat, bits: nat)
    requires emptyBits <= 16 && bits == 16 * dataPos + 16 - emptyBits && (emptyBits == 16 ==> dataPos == 0)
    ensures WordCount(bits) == dataPos + 1 && Padding(bits) == emptyBits
  {
  }

  lemma EmptyStream(values: seq<int>)
    ensures AllCodable(values[..0]) && Stream(values[..0]) == []
  {
  }

  // ---------------------------------------------------------------- unpacking

  /** `left` is still to be read: `fullBits` of it are at the top of `dataTmp`, the rest in the words from `pos` on. */
  ghost predicate Reading(words: seq<nat>, pos: nat, dataTmp: nat, fullBits: nat, left: seq<bool>) {
    && pos <= |words| && fullBits <= 16 && |left| == fullBits + 16 * (|words| - pos)
    && left[fullBits..] == WordBits(words[pos..])
    && dataTmp == BitsValue(left[..fullBits] + Falses(16 - fullBits))
  }

  /** Bits that are all in the current word. */
  lemma TakeFits(words: seq<nat>, pos: nat, dataTmp: nat, fullBits: nat, left: seq<bool>, b: seq<bool>)
    requires Reading(words, pos, dataTmp, fullBits, left) && b <= left && |b| <= fullBits
    ensures High(dataTmp, 16 - |b|) == BitsValue(b)
    ensures Reading(words, pos, Shl(dataTmp, |b|) % 65536, fullBits - |b|, left[|b|..])
  {
    hide *;
    UseReading(words, pos, dataTmp, fullBits, left);
    var n, m := |b|, 16 - fullBits;
    var rem := left[n..fullBits];
    var f := Falses(m);
    FalsesJoin(m, n);
    TakeParts(left, b, fullBits, rem, f, Falses(n));
    HighOfAppend(b, rem + f);
    ShiftOut(b, rem + f, n);
    MakeReading(words, pos, Shl(dataTmp, n) % 65536, fullBits - n, left[n..]);
  }

  lemma TakeParts(left: seq<bool>, b: seq<bool>, fullBits: nat, rem: seq<bool>, f: seq<bool>, g: seq<bool>)
    requires b <= left && |b| <= fullBits <= |left| && rem == left[|b|..fullBits]
    ensures left[..fullBits] + f == b + (rem + f)
    ensures rem + f + g == rem + (f + g)
    ensures left[|b|..][..fullBits - |b|] == rem
    ensures left[|b|..][fullBits - |b|..] == left[fullBits..]
  {
  }

  lemma UseReading(words: seq<nat>, pos: nat, dataTmp: nat, fullBits: nat, left: seq<bool>)
    requires Reading(words, pos, dataTmp, fullBits, left)
    ensures pos <= |words| && fullBits <= 16 && |left| == fullBits + 16 * (|words| - pos)
    ensures left[fullBits..] == WordBits(words[pos..])
    ensures dataTmp == BitsValue(left[..fullBits] + Falses(16 - fullBits))
  {
  }

  lemma MakeReading(words: seq<nat>, pos: nat, dataTmp: nat, fullBits: nat, left: seq<bool>)
    requires pos <= |words| && fullBits <= 16 && |left| == fullBits + 16 * (|words| - pos)
    requires left[fullBits..] == WordBits(words[pos..])
    requires dataTmp == BitsValue(left[..fullBits] + Falses(16 - fullBits))
    ensures Reading(words, pos, dataTmp, fullBits, left)
  {
  }

  lemma FalsesJoin(m: nat, n: nat)
    ensures |Falses(m)| == m && |Falses(n)| == n && Falses(m) + Falses(n) == Falses(m + n)
  {
  }

  /** The bits left in the current word, which come first, and the next word. */
  lemma Refill(words: seq<nat>, pos: nat, dataTmp: nat, fullBits: nat, left: seq<bool>)
    requires Reading(words, pos, dataTmp, fullBits, left) && fullBits < |left|
    requires Words16(words)
    ensures High(dataTmp, 16 - fullBits) == BitsValue(left[..fullBits])
    ensures pos < |words| && Reading(words, pos + 1, words[pos], 16, left[fullBits..])
  {
    HighOfAppend(left[..fullBits], Falses(16 - fullBits));
    PowerOf16();
    ValueOfBits(16, words[pos]);
    hide High, BitsValue, WordBits, ValueBits;
    WordBitsCons(words[pos..]);
    assert words[pos..][1..] == words[pos + 1..];
    var next := left[fullBits..];
    assert next[..16] == ValueBits(16, words[pos]) && next[16..] == WordBits(words[pos + 1..]);
    assert next[..16] + Falses(0) == next[..16];
  }

  /** Takes `n` bits; `b` is what they are. */
  method TakeBits(words: seq<nat>, pos: nat, dataTmp: nat, fullBits: nat, n: nat,
                  ghost left: seq<bool>, ghost b: seq<bool>)
    returns (bits: nat, pos': nat, dataTmp': nat, fullBits': nat)
    requires Reading(words, pos, dataTmp, fullBits, left) && b <= left && |b| == n && 0 < n <= 12
    requires Words16(words)
    ensures bits == BitsValue(b) && Reading(words, pos', dataTmp', fullBits', left[n..])
  {
    hide Reading, High, BitsValue, Shl, LowClear, Pow2;
    bits, pos', dataTmp', fullBits' := 0, pos, dataTmp, fullBits;
    var lengthTmp := n;
    ghost var todo, left' := b, left;
    ReadingRange(words, pos, dataTmp, fullBits, left);
    ClearZero(n);
    if fullBits < lengthTmp {
      Refill(words, pos, dataTmp, fullBits, left);
      bits := High(dataTmp, 16 - fullBits);
      lengthTmp := lengthTmp - fullBits;
      bits := Shl(bits, lengthTmp);
      fullBits' := 16;
      dataTmp' := words[pos];
      pos' := pos + 1;
      left', todo := left[fullBits..], b[fullBits..];
      assert left[..fullBits] == b[..fullBits] && b[..fullBits] + todo == b;
      ShlIsClear(BitsValue(b[..fullBits]), lengthTmp);
      ValueOfAppend(b[..fullBits], todo);
    }
    TakeFits(words, pos', dataTmp', fullBits', left', todo);
    FitsBits(todo);
    bits := Or(bits, High(dataTmp', 16 - lengthTmp), lengthTmp);
    fullBits' := fullBits' - lengthTmp;
    dataTmp' := Shl(dataTmp', lengthTmp) % 65536;
    assert left'[|todo|..] == left[n..];
  }

  lemma FitsBits(b: seq<bool>)
    ensures BitsValue(b) < Pow2(|b|)
  {
  }

  lemma ReadingRange(words: seq<nat>, pos: nat, dataTmp: nat, fullBits: nat, left: seq<bool>)
    requires Reading(words, pos, dataTmp, fullBits, left)
    ensures fullBits <= 16 && fullBits <= |left|
  {
  }

  lemma ReadingStarts(words: seq<nat>)
    requires words != [] && Words16(words)
    ensures Reading(words, 1, words[0], 16, WordBits(words))
  {
    PowerOf16();
    ValueOfBits(16, words[0]);
    hide BitsValue, WordBits, ValueBits;
    WordBitsCons(words);
    var left := WordBits(words);
    assert left[..16] == ValueBits(16, words[0]) && left[16..] == WordBits(words[1..]);
    assert left[..16] + Falses(0) == left[..16];
  }

  /** The stream of the values from `i` on is the next one's bits, then the rest. */
  lemma NextValue(values: seq<int>, i: nat, left: seq<bool>)
    requires AllCodable(values) && i < |values| && Stream(values[i..]) <= left
    ensures OneValue(values[i]) <= left && |OneValue(values[i])| == BitLength(values[i])
    ensures Stream(values[i + 1..]) <= left[BitLength(values[i])..]
  {
    hide OneValue, Stream;
    StreamCons(values[i..]);
    assert values[i..][1..] == values[i + 1..];
    var rest := Stream(values[i + 1..]);
    var n := BitLength(values[i]);
    assert left[n..][..|rest|] == Stream(values[i..])[n..];
  }

  /** A value is known from its bits. */
  lemma OneValueDetermines(v: int, w: int)
    requires Codable(v) && Codable(w) && BitLength(v) == BitLength(w) && OneValue(v) == OneValue(w)
    ensures v == w
  {
    hide *;
    NothingAdded(v, []);
    NothingAdded(w, []);
    if v != 0 {
      OneValueIs(v);
      OneValueIs(w);
      ValueRoundTrip(v);
      ValueRoundTrip(w);
    }
  }

  lemma LastParts(a: seq<bool>, b: seq<bool>, a': seq<bool>, b': seq<bool>)
    requires a + b == a' + b' && |b| == |b'|
    ensures a == a' && b == b'
  {
    assert |a| == |a'|;
    assert (a + b)[..|a|] == a && (a' + b')[..|a|] == a';
    assert (a + b)[|a|..] == b && (a' + b')[|a|..] == b';
  }

  /** Values are known from their bit lengths and their stream. */
  lemma {:induction false} StreamDetermines(v: seq<int>, w: seq<int>)
    requires |v| == |w| && AllCodable(v) && AllCodable(w)
    requires forall i :: 0 <= i < |v| ==> BitLength(v[i]) == BitLength(w[i])
    requires Stream(v) == Stream(w)
    ensures v == w
  {
    hide OneValue, BitLength;
    if v != [] {
      var n := |v| - 1;
      LastParts(Stream(v[..n]), OneValue(v[n]), Stream(w[..n]), OneValue(w[n]));
      StreamDetermines(v[..n], w[..n]);
      OneValueDetermines(v[n], w[n]);
      assert v[..n] + [v[n]] == v && w[..n] + [w[n]] == w;
    }
  }

  /** The length of a stream is the sum of the bit lengths. */
  lemma {:induction false} StreamLength(v: seq<int>, w: seq<int>)
    requires |v| == |w| && AllCodable(v) && AllCodable(w)
    requires forall i :: 0 <= i < |v| ==> BitLength(v[i]) == BitLength(w[i])
    ensures |Stream(v)| == |Stream(w)|
  {
    hide OneValue, BitLength;
    if v != [] {
      StreamLength(v[..|v| - 1], w[..|w| - 1]);
    }
  }

  /** `vliDecode`: reads back the values whose bit lengths are in the low halves of the length bytes. */
  method VliDecode(length: seq<nat>, words: seq<nat>, ghost values: seq<int>) returns (buf: seq<int>)
    requires |length| == |values| && values != [] && AllCodable(values)
    requires forall i :: 0 <= i < |values| ==> length[i] % 16 == BitLength(values[i])
    requires words != [] && Words16(words) && Stream(values) <= WordBits(words)
    ensures buf == values
  {
    hide Reading, Stream, BitLength, WordBits, Falses, OneValue, ValueBits, BitsValue, ValueToBits, BitsToValue, Pow2;
    buf := [];
    var fullBits, pos := 16, 1;
    var dataTmp := words[0];
    ghost var left := WordBits(words);
    ReadingStarts(words);
    assert values[0..] == values;
    for i := 0 to |length|
      invariant buf == values[..i]
      invariant Reading(words, pos, dataTmp, fullBits, left) && Stream(values[i..]) <= left
    {
      NextValue(values, i, left);
      NothingAdded(values[i], left);
      var n := length[i] % 16;
      var v := 0;
      if n > 0 {
        OneValueIs(values[i]);
        ValueRoundTrip(values[i]);
        var bits;
        bits, pos, dataTmp, fullBits := TakeBits(words, pos, dataTmp, fullBits, n, left, OneValue(values[i]));
        v := BitsToValue(bits, n);
      }
      left := left[n..];
      buf := buf + [v];
      assert values[..i + 1] == values[..i] + [values[i]];
    }
    assert values[..|length|] == values;
  }
}
