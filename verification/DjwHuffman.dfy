/** The DJW secondary coder with a single group of codes: `xd3_encode_huff` and `xd3_decode_huff`. */
module DjwHuffman {
  import opened Common
  import opened Kraft
  import opened BitIO
  import opened DjwOptimal
  import opened DjwPrefix
  import opened DjwCodes
  import opened DjwMtf

  const MAX_CODELEN: nat := 20
  const MAX_CLCLEN: nat := 15
  const TOTAL_CODES: nat := 22
  const EXTRA_12OFFSET: nat := 7
  const ALPHABET_SIZE: nat := 256
  const EFFICIENCY_BITS: nat := 16

  lemma Constants()
    ensures MAX_CODELEN == 20 && MAX_CLCLEN == 15 && TOTAL_CODES == 22 && EXTRA_12OFFSET == 7
    ensures ALPHABET_SIZE == 256 && EFFICIENCY_BITS == 16
  {
  }

  /** The initial table: 0, the basic code lengths, then the extra ones. */
  function ClenMtf(): (t: seq<nat>)
    ensures |t| == 21
  {
    [0, 4, 5, 6, 7, 8, 9, 10, 3, 11, 2, 12, 13, 1, 14, 15, 16, 17, 18, 19, 20]
  }

  lemma ClenMtfLists(clen: seq<nat>)
    requires forall i :: 0 <= i < |clen| ==> clen[i] <= MAX_CODELEN
    ensures Listed(clen, ClenMtf())
  {
    var t := ClenMtf();
    assert t[0] == 0 && t[13] == 1 && t[10] == 2 && t[8] == 3 && t[1] == 4 && t[2] == 5 && t[3] == 6;
    assert t[4] == 7 && t[5] == 8 && t[6] == 9 && t[7] == 10 && t[9] == 11 && t[11] == 12 && t[12] == 13;
    assert t[14] == 14 && t[15] == 15 && t[16] == 16 && t[17] == 17 && t[18] == 18 && t[19] == 19 && t[20] == 20;
  }

  // ---------------------------------------------------------------- the format

  /** How many code-length code lengths are sent: trailing zeros past the first 7 are not. */
  function NumToEncode(clclen: seq<nat>, n: nat): (r: nat)
    requires n <= |clclen| && EXTRA_12OFFSET <= n
    ensures EXTRA_12OFFSET <= r <= n
    ensures forall k :: r <= k < n ==> clclen[k] == 0
    ensures r > EXTRA_12OFFSET ==> clclen[r - 1] != 0
  {
    if n > EXTRA_12OFFSET && clclen[n - 1] == 0 then NumToEncode(clclen, n - 1) else n
  }

  function LengthBits(lens: seq<nat>): seq<bool> {
    if lens == [] then [] else LengthBits(lens[..|lens| - 1]) + ValueBits(4, lens[|lens| - 1])
  }

  /** The code lengths of the code lengths. */
  function ClclenBits(clclen: seq<nat>): seq<bool>
    requires |clclen| == TOTAL_CODES
  {
    var num := NumToEncode(clclen, TOTAL_CODES);
    ValueBits(4, num - EXTRA_12OFFSET) + LengthBits(clclen[..num])
  }

  lemma {:induction false} LengthBitsSize(lens: seq<nat>)
    ensures |LengthBits(lens)| == 4 * |lens|
  {
    hide ValueBits;
    if lens != [] { LengthBitsSize(lens[..|lens| - 1]); }
  }

  /** Four bits for the count, and four each for the least number of lengths, but 7, past which all are zero. */
  lemma ClclenSize(clclen: seq<nat>, r: nat)
    requires |clclen| == TOTAL_CODES && EXTRA_12OFFSET <= r <= TOTAL_CODES
    ensures |ClclenBits(clclen)| == 4 + 4 * r <==>
              && (forall k :: r <= k < TOTAL_CODES ==> clclen[k] == 0)
              && (r > EXTRA_12OFFSET ==> clclen[r - 1] != 0)
  {
    hide ValueBits, LengthBits;
    LengthBitsSize(clclen[..NumToEncode(clclen, TOTAL_CODES)]);
  }

  /** The code lengths, coded by `clclen`. */
  ghost predicate GoodPrefix(clen: seq<nat>, clclen: seq<nat>) {
    && (forall i :: 0 <= i < |clen| ==> clen[i] <= MAX_CODELEN)
    && |clclen| == TOTAL_CODES && (forall i :: 0 <= i < |clclen| ==> clclen[i] <= MAX_CLCLEN)
    && Listed(clen, ClenMtf()) && AllCoded(clclen, Encode(clen, ClenMtf(), 0))
  }

  ghost function PrefixBits(clen: seq<nat>, clclen: seq<nat>): seq<bool>
    requires GoodPrefix(clen, clclen)
  {
    ClclenBits(clclen) + TokenBits(clclen, Encode(clen, ClenMtf(), 0))
  }

  /** `bits` are the coded form of `data` and less than a byte of padding. */
  ghost predicate Coded(bits: seq<bool>, data: seq<byte>, clen: seq<nat>, clclen: seq<nat>, pad: seq<bool>) {
    && |clen| == ALPHABET_SIZE && GoodPrefix(clen, clclen) && AllCoded(clen, data)
    && |pad| < 8
    && bits == ValueBits(3, 0) + (PrefixBits(clen, clclen) + (TokenBits(clen, data) + pad))
  }

  // ---------------------------------------------------------------- frequencies

  function Freqs(data: seq<byte>): (freq: seq<nat>)
    ensures |freq| == ALPHABET_SIZE
    ensures forall b :: 0 <= b < ALPHABET_SIZE ==> (freq[b] > 0 <==> b in data)
  {
    if data == [] then seq(ALPHABET_SIZE, _ => 0) else
      var f := Freqs(data[..|data| - 1]);
      f[data[|data| - 1] := f[data[|data| - 1]] + 1]
  }

  lemma {:induction false} CostOneMore(clen: seq<nat>, freq: seq<nat>, b: nat)
    requires |clen| == |freq| && b < |freq|
    ensures Cost(clen, freq[b := freq[b] + 1]) == Cost(clen, freq) + clen[b]
  {
    var n := |clen| - 1;
    if b < n {
      CostOneMore(clen[..n], freq[..n], b);
      assert freq[b := freq[b] + 1][..n] == freq[..n][b := freq[b] + 1];
    } else {
      assert freq[b := freq[b] + 1][..n] == freq[..n];
      assert Bits(clen[n], freq[n] + 1) == Bits(clen[n], freq[n]) + clen[n];
    }
  }

  lemma {:induction false} CostNothing(clen: seq<nat>, freq: seq<nat>)
    requires |clen| == |freq| && forall i :: 0 <= i < |freq| ==> freq[i] == 0
    ensures Cost(clen, freq) == 0
  {
    if clen != [] { CostNothing(clen[..|clen| - 1], freq[..|freq| - 1]); }
  }

  lemma {:induction false} TokenBitsSnoc(clen: seq<nat>, tokens: seq<nat>, t: nat)
    requires (forall k :: 0 <= k < |tokens| ==> tokens[k] < |clen|) && t < |clen|
    ensures TokenBits(clen, tokens + [t]) == TokenBits(clen, tokens) + CodeBits(clen, t)
  {
    hide CodeBits;
    if tokens == [] {
      assert [t][1..] == [];
    } else {
      TokenBitsSnoc(clen, tokens[1..], t);
      assert (tokens + [t])[1..] == tokens[1..] + [t];
      Reassociate(CodeBits(clen, tokens[0]), TokenBits(clen, tokens[1..]), CodeBits(clen, t));
    }
  }

  /** The size that the code lengths promise is the size that the codes take. */
  lemma {:induction false} CostIsLength(clen: seq<nat>, data: seq<byte>)
    requires |clen| == ALPHABET_SIZE
    ensures |TokenBits(clen, data)| == Cost(clen, Freqs(data))
  {
    if data == [] {
      CostNothing(clen, Freqs(data));
    } else {
      var d := data[..|data| - 1];
      var b := data[|data| - 1];
      CostIsLength(clen, d);
      CostOneMore(clen, Freqs(d), b);
      TokenBitsSnoc(clen, d, b);
      assert d + [b] == data;
    }
  }

  lemma {:induction false} SumOneMoreByte(freq: seq<nat>, b: nat)
    requires b < |freq|
    ensures Sum(freq[b := freq[b] + 1]) == Sum(freq) + 1
  {
    var n := |freq| - 1;
    if b < n {
      SumOneMoreByte(freq[..n], b);
      assert freq[b := freq[b] + 1][..n] == freq[..n][b := freq[b] + 1];
    } else {
      assert freq[b := freq[b] + 1][..n] == freq[..n];
    }
  }

  lemma {:induction false} SumOfFreqs(data: seq<byte>)
    ensures Sum(Freqs(data)) == |data|
  {
    if data == [] {
      SumNothing(Freqs(data));
    } else {
      var d := data[..|data| - 1];
      SumOfFreqs(d);
      SumOneMoreByte(Freqs(d), data[|data| - 1]);
    }
  }

  lemma {:induction false} SumNothing(freq: seq<nat>)
    requires forall i :: 0 <= i < |freq| ==> freq[i] == 0
    ensures Sum(freq) == 0
  {
    if freq != [] { SumNothing(freq[..|freq| - 1]); }
  }

  lemma LongestFirstTree()
    ensures MinWeight(MAX_CODELEN + 1) == 28657
  {
    assert MinWeight(2) == 3 && MinWeight(3) == 5 && MinWeight(4) == 8 && MinWeight(5) == 13;
    assert MinWeight(6) == 21 && MinWeight(7) == 34 && MinWeight(8) == 55 && MinWeight(9) == 89;
    assert MinWeight(10) == 144 && MinWeight(11) == 233 && MinWeight(12) == 377 && MinWeight(13) == 610;
    assert MinWeight(14) == 987 && MinWeight(15) == 1597 && MinWeight(16) == 2584 && MinWeight(17) == 4181;
    assert MinWeight(18) == 6765 && MinWeight(19) == 10946 && MinWeight(20) == 17711;
  }

  /** Below 28656 bytes, no prefix code makes the text shorter than the coder's does. */
  lemma NoShorterCode(clen: seq<nat>, data: seq<byte>, l: seq<nat>)
    requires |data| < 28656 && BestFor(clen, Freqs(data), MAX_CODELEN)
    requires |clen| == |l| == ALPHABET_SIZE && Codes(l, Freqs(data))
    ensures |TokenBits(clen, data)| <= |TokenBits(l, data)|
  {
    hide TokenBits, Freqs, Codes, Cost, Sum, BestOfAttempt, KraftSum;
    SumOfFreqs(data);
    LongestFirstTree();
    CostIsLength(clen, data);
    CostIsLength(l, data);
  }

  // ---------------------------------------------------------------- encoding

  /** `djw_count_freqs`. */
  method CountFreqs(data: seq<byte>) returns (freq: array<nat>)
    ensures fresh(freq) && freq[..] == Freqs(data)
  {
    freq := new nat[ALPHABET_SIZE](_ => 0);
    assert freq[..] == Freqs(data[..0]);
    for i := 0 to |data|
      invariant freq[..] == Freqs(data[..i])
    {
      assert data[..i + 1][..i] == data[..i];
      freq[data[i]] := freq[data[i]] + 1;
    }
    assert data[..|data|] == data;
  }

  lemma {:induction false} TokensInRange(syms: seq<nat>, table: seq<nat>, run: nat)
    requires Listed(syms, table) && table != []
    ensures forall k :: 0 <= k < |Encode(syms, table, run)| ==> Encode(syms, table, run)[k] <= |table|
    ensures syms != [] ==> Encode(syms, table, run) != []
    ensures run > 0 ==> Encode(syms, table, run) != []
  {
    hide MoveToFront, Runs;
    if syms == [] {
      EncodeNothing(table, run);
    } else if Index(table, syms[0]) == 0 {
      EncodeSame(syms, table, run);
      TokensInRange(syms[1..], table, run + 1);
    } else {
      EncodeMoved(syms, table, run);
      TokensInRange(syms[1..], MoveToFront(table, Index(table, syms[0])), 0);
    }
  }

  /** A symbol that occurs has a code, and Kraft's inequality makes it fit. */
  lemma OccurringAreCoded(clen: seq<nat>, freq: seq<nat>, maxlen: nat, tokens: seq<nat>)
    requires GoodLengths(clen, freq, maxlen)
    requires forall k :: 0 <= k < |tokens| ==> tokens[k] < |freq| && freq[tokens[k]] > 0
    ensures AllCoded(clen, tokens)
  {
    hide Code;
    forall k | 0 <= k < |tokens|
      ensures tokens[k] < |clen| && clen[tokens[k]] > 0 && Code(clen, tokens[k]) < Pow2(clen[tokens[k]])
    {
      CodeFits(clen, tokens[k]);
    }
  }

  /** Writes the codes of `tokens`. */
  method WriteTokens(writer: BitWriter, clen: seq<nat>, codes: array<nat>, tokens: seq<nat>)
    requires writer.Valid() && codes.Length == |clen| && AllCoded(clen, tokens)
    requires forall i :: 0 <= i < |clen| && clen[i] > 0 ==> codes[i] == Code(clen, i)
    modifies writer
    ensures writer.Valid() && writer.Bits() == old(writer.Bits()) + TokenBits(clen, tokens)
    ensures old(writer.out) <= writer.out
  {
    hide Code, TokenBits, CodeBits, ValueBits;
    ghost var before := writer.Bits();
    NoTokens(clen, before, tokens);
    for i := 0 to |tokens|
      invariant writer.Valid() && old(writer.out) <= writer.out
      invariant writer.Bits() == before + TokenBits(clen, tokens[..i])
    {
      assert tokens[..i + 1] == tokens[..i] + [tokens[i]];
      TokenBitsSnoc(clen, tokens[..i], tokens[i]);
      CodeBitsAre(clen, tokens[i]);
      Reassociate(before, TokenBits(clen, tokens[..i]), CodeBits(clen, tokens[i]));
      writer.EncodeBits(clen[tokens[i]], codes[tokens[i]]);
    }
    assert tokens[..|tokens|] == tokens;
  }

  lemma NoTokens(clen: seq<nat>, before: seq<bool>, tokens: seq<nat>)
    ensures TokenBits(clen, tokens[..0]) == [] && before + TokenBits(clen, tokens[..0]) == before
  {
  }

  lemma CodeBitsAre(clen: seq<nat>, i: nat)
    requires i < |clen|
    ensures CodeBits(clen, i) == ValueBits(clen[i], Code(clen, i))
  {
  }

  /** Writes code lengths, four bits each. */
  method WriteLengths(writer: BitWriter, lens: seq<nat>)
    requires writer.Valid() && forall i :: 0 <= i < |lens| ==> lens[i] < 16
    modifies writer
    ensures writer.Valid() && writer.Bits() == old(writer.Bits()) + LengthBits(lens)
    ensures old(writer.out) <= writer.out
  {
    hide LengthBits, ValueBits;
    ghost var before := writer.Bits();
    PowersOfTwo();
    NoLengthBits(before, lens);
    for i := 0 to |lens|
      invariant writer.Valid() && old(writer.out) <= writer.out
      invariant writer.Bits() == before + LengthBits(lens[..i])
    {
      LengthBitsSnoc(lens, i);
      Reassociate(before, LengthBits(lens[..i]), ValueBits(4, lens[i]));
      writer.EncodeBits(4, lens[i]);
    }
    assert lens[..|lens|] == lens;
  }

  lemma NoLengthBits(before: seq<bool>, lens: seq<nat>)
    ensures LengthBits(lens[..0]) == [] && before + LengthBits(lens[..0]) == before
  {
  }

  lemma LengthBitsSnoc(lens: seq<nat>, i: nat)
    requires i < |lens|
    ensures LengthBits(lens[..i + 1]) == LengthBits(lens[..i]) + ValueBits(4, lens[i])
  {
    assert lens[..i + 1][..i] == lens[..i];
  }

  /** How often each of the coded symbols occurs. */
  function Counts(tokens: seq<nat>): (freq: seq<nat>)
    ensures |freq| == TOTAL_CODES
  {
    seq(TOTAL_CODES, t => multiset(tokens)[t])
  }

  /** Finds code lengths for the coded code lengths. */
  method ClclenFor(ghost tokens: seq<nat>, clfreq: array<nat>, clclen: array<nat>, clcode: array<nat>)
    requires clfreq.Length == clclen.Length == clcode.Length == TOTAL_CODES
    requires clfreq != clclen && clclen != clcode && tokens != []
    requires forall k :: 0 <= k < |tokens| ==> tokens[k] < TOTAL_CODES
    requires forall t :: 0 <= t < clfreq.Length ==> clfreq[t] == multiset(tokens)[t]
    modifies clclen, clcode
    ensures AllCoded(clclen[..], tokens) && forall i :: 0 <= i < clclen.Length ==> clclen[i] <= MAX_CLCLEN
    ensures BestFor(clclen[..], Counts(tokens), MAX_CLCLEN)
    ensures forall i :: 0 <= i < clclen.Length && clclen[i] > 0 ==> clcode[i] == Code(clclen[..], i)
  {
    forall k | 0 <= k < |tokens| ensures clfreq[..][tokens[k]] > 0 {
      assert tokens[k] in multiset(tokens);
    }
    hide Code, AllCoded, DepthFits, KraftSum, BestFor;
    AlphabetsFit(8);
    ghost var freq := clfreq[..];
    assert freq == Counts(tokens);
    assert freq[tokens[0]] > 0;
    var bits := BuildPrefix(clfreq[..], clclen, MAX_CLCLEN);
    OccurringAreCoded(clclen[..], freq, MAX_CLCLEN, tokens);
    forall i | 0 <= i < clclen.Length ensures clclen[i] <= MAX_CLCLEN {
      assert clclen[..][i] == clclen[i];
    }
    BuildCodes(clcode, clclen[..]);
  }

  /** Writes the code-length code lengths, without trailing zeros past the first 7. */
  method WriteClclen(writer: BitWriter, clclen: seq<nat>)
    requires writer.Valid() && |clclen| == TOTAL_CODES && forall i :: 0 <= i < |clclen| ==> clclen[i] <= MAX_CLCLEN
    modifies writer
    ensures writer.Valid() && writer.Bits() == old(writer.Bits()) + ClclenBits(clclen)
    ensures old(writer.out) <= writer.out
  {
    hide LengthBits, ValueBits;
    var num := TOTAL_CODES;
    while num > EXTRA_12OFFSET && clclen[num - 1] == 0
      invariant EXTRA_12OFFSET <= num <= TOTAL_CODES
      invariant NumToEncode(clclen, num) == NumToEncode(clclen, TOTAL_CODES)
    {
      num := num - 1;
    }
    PowersOfTwo();
    ghost var before := writer.Bits();
    writer.EncodeBits(4, num - EXTRA_12OFFSET);
    WriteLengths(writer, clclen[..num]);
    Reassociate(before, ValueBits(4, num - EXTRA_12OFFSET), LengthBits(clclen[..num]));
  }

  /** Codes the code lengths and finds a code for the result. */
  method CodeLengthsOfLengths(clen: seq<nat>, mtfsym: array<nat>, clclen: array<nat>, clcode: array<nat>)
    returns (mcount: nat)
    requires clen != [] && |clen| <= mtfsym.Length && clclen.Length == clcode.Length == TOTAL_CODES
    requires mtfsym != clclen && mtfsym != clcode && clclen != clcode
    requires forall i :: 0 <= i < |clen| ==> clen[i] <= MAX_CODELEN
    modifies mtfsym, clclen, clcode
    ensures mcount <= mtfsym.Length && PrefixFor(clen, clclen[..])
    ensures mtfsym[..mcount] == Encode(clen, ClenMtf(), 0)
    ensures forall i :: 0 <= i < clclen.Length && clclen[i] > 0 ==> clcode[i] == Code(clclen[..], i)
  {
    hide *;
    Constants();
    ClenMtfLists(clen);
    var clmtf := InitMtf();
    var clfreq := new nat[TOTAL_CODES];
    mcount := ComputeMtf12(clen, clmtf, mtfsym, clfreq);
    TokensInRange(clen, ClenMtf(), 0);
    ClclenFor(mtfsym[..mcount], clfreq, clclen, clcode);
    PrefixIsGood(clen, clclen[..]);
  }

  /** The second code is the best of its attempts for the coded code lengths. */
  ghost predicate PrefixFor(clen: seq<nat>, clclen: seq<nat>) {
    GoodPrefix(clen, clclen) && BestFor(clclen, Counts(Encode(clen, ClenMtf(), 0)), MAX_CLCLEN)
  }

  lemma PrefixIsGood(clen: seq<nat>, clclen: seq<nat>)
    requires forall i :: 0 <= i < |clen| ==> clen[i] <= MAX_CODELEN
    requires |clclen| == TOTAL_CODES && forall i :: 0 <= i < |clclen| ==> clclen[i] <= MAX_CLCLEN
    requires Listed(clen, ClenMtf()) && AllCoded(clclen, Encode(clen, ClenMtf(), 0))
    requires BestFor(clclen, Counts(Encode(clen, ClenMtf(), 0)), MAX_CLCLEN)
    ensures PrefixFor(clen, clclen)
  {
    hide BestFor, AllCoded, Encode, Listed, ClenMtf;
  }

  lemma PrefixForIsGood(clen: seq<nat>, clclen: seq<nat>)
    requires PrefixFor(clen, clclen)
    ensures GoodPrefix(clen, clclen) && |clclen| == TOTAL_CODES && Listed(clen, ClenMtf())
    ensures AllCoded(clclen, Encode(clen, ClenMtf(), 0))
    ensures forall i :: 0 <= i < |clclen| ==> clclen[i] <= MAX_CLCLEN
  {
  }

  /** `djw_init_clen_mtf_1_2`. */
  method InitMtf() returns (mtf: array<nat>)
    ensures fresh(mtf) && mtf.Length == 21 && mtf[..] == ClenMtf()
  {
    var t := ClenMtf();
    mtf := new nat[21](i requires 0 <= i < 21 => t[i]);
  }

  /** `djw_encode_prefix`: the code lengths, moved to front, run coded and coded once more. */
  method EncodePrefix(writer: BitWriter, clen: seq<nat>) returns (ghost lens: seq<nat>)
    requires writer.Valid() && clen != [] && |clen| <= ALPHABET_SIZE
    requires forall i :: 0 <= i < |clen| ==> clen[i] <= MAX_CODELEN
    modifies writer
    ensures PrefixFor(clen, lens) && GoodPrefix(clen, lens) && writer.Valid()
    ensures writer.Bits() == old(writer.Bits()) + PrefixBits(clen, lens)
    ensures old(writer.out) <= writer.out
  {
    hide Encode, Listed, Code, TokenBits, ClclenBits, ClenMtf, BestFor, PrefixFor;
    var mtfsym := new nat[ALPHABET_SIZE];
    var clclen := new nat[TOTAL_CODES];
    var clcode := new nat[TOTAL_CODES];
    var mcount := CodeLengthsOfLengths(clen, mtfsym, clclen, clcode);
    lens := clclen[..];
    PrefixForIsGood(clen, lens);
    ghost var before := writer.Bits();
    WriteClclen(writer, clclen[..]);
    WriteTokens(writer, clclen[..], clcode, mtfsym[..mcount]);
    Reassociate(before, ClclenBits(lens), TokenBits(lens, Encode(clen, ClenMtf(), 0)));
  }

  datatype HuffStatus = HuffOk | NoSecond | InvalidInput | MultiGroup

  /** Code lengths and codes for the bytes of `data`. */
  method CodesFor(data: seq<byte>) returns (lens: array<nat>, codes: array<nat>, outputBits: nat)
    requires data != []
    ensures fresh(lens) && fresh(codes) && lens != codes && lens.Length == codes.Length == ALPHABET_SIZE
    ensures AllCoded(lens[..], data) && outputBits == |TokenBits(lens[..], data)|
    ensures BestFor(lens[..], Freqs(data), MAX_CODELEN)
    ensures forall i :: 0 <= i < ALPHABET_SIZE ==> lens[i] <= MAX_CODELEN
    ensures forall i :: 0 <= i < ALPHABET_SIZE && lens[i] > 0 ==> codes[i] == Code(lens[..], i)
  {
    hide TokenBits, Code, AllCoded, DepthFits, KraftSum, Cost, BestFor;
    var freq := CountFreqs(data);
    ghost var f := freq[..];
    assert f[data[0]] > 0;
    AlphabetsFit(8);
    lens := new nat[ALPHABET_SIZE];
    codes := new nat[ALPHABET_SIZE];
    outputBits := BuildPrefix(freq[..], lens, MAX_CODELEN);
    OccurringAreCoded(lens[..], f, MAX_CODELEN, data);
    CostIsLength(lens[..], data);
    forall i | 0 <= i < ALPHABET_SIZE ensures lens[i] <= MAX_CODELEN {
      assert lens[..][i] == lens[i];
    }
    BuildCodes(codes, lens[..]);
  }

  /**
    * Coding `data` behind `had` bytes saves fewer than 2 bytes: without the prefix already, or with the whole bytes of
    * what precedes the data.
    */
  ghost predicate SavesTooLittle(data: seq<byte>, had: nat, clen: seq<nat>, clclen: seq<nat>)
    requires AllCoded(clen, data)
  {
    var bits := |TokenBits(clen, data)| + EFFICIENCY_BITS;
    || bits >= 8 * |data|
    || (PrefixFor(clen, clclen) && bits + 8 * (had + (3 + |PrefixBits(clen, clclen)|) / 8) >= 8 * |data|)
  }

  /** Giving up is for no more than 2 bytes; otherwise the output page with the coded form is shorter than the data. */
  lemma WorthCoding(data: seq<byte>, had: nat, clen: seq<nat>, clclen: seq<nat>, bits: seq<bool>, pad: seq<bool>)
    requires AllCoded(clen, data) && PrefixFor(clen, clclen) && Coded(bits, data, clen, clclen, pad) && |bits| % 8 == 0
    ensures if SavesTooLittle(data, had, clen, clclen) then had + |bits| / 8 + 2 >= |data|
            else had + |bits| / 8 < |data|
  {
    hide AllCoded, PrefixFor, GoodPrefix, TokenBits, PrefixBits, ValueBits;
    assert |ValueBits(3, 0)| == 3;
    assert |bits| == 3 + (|PrefixBits(clen, clclen)| + (|TokenBits(clen, data)| + |pad|));
  }

  /** What the writer has put out is the whole bytes of what it was given. */
  lemma WholeBytes(writer: BitWriter, had: nat, bits: nat)
    requires writer.Valid() && |writer.Bits()| == 8 * had + bits
    ensures |writer.out| == had + bits / 8
  {
  }

  lemma GivenUpFirst(data: seq<byte>, had: nat, clen: seq<nat>, clclen: seq<nat>)
    requires AllCoded(clen, data) && |TokenBits(clen, data)| + EFFICIENCY_BITS >= 8 * |data|
    ensures SavesTooLittle(data, had, clen, clclen)
  {
  }

  lemma SecondTest(data: seq<byte>, had: nat, clen: seq<nat>, clclen: seq<nat>)
    requires AllCoded(clen, data) && PrefixFor(clen, clclen)
    requires |TokenBits(clen, data)| + EFFICIENCY_BITS < 8 * |data|
    ensures SavesTooLittle(data, had, clen, clclen) <==>
              |TokenBits(clen, data)| + 8 * (had + (3 + |PrefixBits(clen, clclen)|) / 8) + EFFICIENCY_BITS >= 8 * |data|
  {
  }

  /**
    * `xd3_encode_huff` with one group. `out` is the output page with what it already holds; the coder gives up
    * when it would save too little, unless told to go on.
    */
  method EncodeHuff(data: seq<byte>, out: seq<byte>, inefficient: bool)
    returns (ret: HuffStatus, out': seq<byte>, ghost clen: seq<nat>, ghost clclen: seq<nat>, ghost pad: seq<bool>)
    requires data != []
    ensures ret == HuffOk || ret == NoSecond
    ensures |clen| == ALPHABET_SIZE && AllCoded(clen, data) && BestFor(clen, Freqs(data), MAX_CODELEN)
    ensures ret == NoSecond <==> !inefficient && SavesTooLittle(data, |out|, clen, clclen)
    ensures ret == HuffOk ==> out <= out' && PrefixFor(clen, clclen) && Coded(Unpack(out'[|out|..]), data, clen, clclen, pad)
    ensures ret == HuffOk && !inefficient ==> |out'| < |data|
  {
    hide *;
    Constants();
    clclen, pad := [], [];
    var lens, code, outputBits := CodesFor(data);
    clen := lens[..];
    assert |clen| == ALPHABET_SIZE;
    var writer := new BitWriter(out);
    ghost var start := writer.Bits();
    PowersOfTwo();
    writer.EncodeBits(3, 0);
    if outputBits + EFFICIENCY_BITS >= 8 * |data| && !inefficient {
      GivenUpFirst(data, |out|, clen, clclen);
      return NoSecond, out, clen, clclen, pad;
    }
    clclen := EncodePrefix(writer, lens[..]);
    WholeBytes(writer, |out|, 3 + |PrefixBits(clen, clclen)|);
    if !inefficient { SecondTest(data, |out|, clen, clclen); }
    if outputBits + 8 * |writer.out| + EFFICIENCY_BITS >= 8 * |data| && !inefficient {
      return NoSecond, out, clen, clclen, pad;
    }
    WriteTokens(writer, lens[..], code, data);
    ghost var bits := writer.Bits();
    InRange(clen, data);
    JoinThree(start, ValueBits(3, 0), PrefixBits(clen, clclen), TokenBits(clen, data));
    writer.Flush();
    ret, out' := HuffOk, writer.out;
    pad := Unpack(out')[|bits|..];
    Padded(out, out', ValueBits(3, 0), PrefixBits(clen, clclen), TokenBits(clen, data), pad);
    IsCoded(Unpack(out'[|out|..]), data, clen, clclen, pad);
    WorthCoding(data, |out|, clen, clclen, Unpack(out'[|out|..]), pad);
  }

  lemma InRange(clen: seq<nat>, tokens: seq<nat>)
    requires AllCoded(clen, tokens)
    ensures forall k :: 0 <= k < |tokens| ==> tokens[k] < |clen|
  {
  }

  lemma IsCoded(bits: seq<bool>, data: seq<byte>, clen: seq<nat>, clclen: seq<nat>, pad: seq<bool>)
    requires |clen| == ALPHABET_SIZE && GoodPrefix(clen, clclen) && AllCoded(clen, data) && |pad| < 8
    requires bits == ValueBits(3, 0) + (PrefixBits(clen, clclen) + (TokenBits(clen, data) + pad))
    ensures Coded(bits, data, clen, clclen, pad)
  {
  }

  lemma JoinThree(a: seq<bool>, b: seq<bool>, c: seq<bool>, d: seq<bool>)
    ensures a + b + c + d == a + (b + (c + d))
  {
  }

  lemma Padded(out: seq<byte>, out': seq<byte>, a: seq<bool>, b: seq<bool>, c: seq<bool>, pad: seq<bool>)
    requires out <= out' && Unpack(out) + (a + (b + c)) <= Unpack(out')
    requires pad == Unpack(out')[|Unpack(out) + (a + (b + c))|..]
    ensures Unpack(out'[|out|..]) == a + (b + (c + pad))
  {
    hide Unpack;
    UnpackAppend(out, out'[|out|..]);
    assert out + out'[|out|..] == out';
    var body := a + (b + c);
    assert Unpack(out') == Unpack(out) + body + pad;
    assert Unpack(out') == Unpack(out) + Unpack(out'[|out|..]);
    assert Unpack(out) + body + pad == Unpack(out) + (body + pad);
    Cancel(Unpack(out), Unpack(out'[|out|..]), body + pad);
    assert body + pad == a + (b + (c + pad));
  }

  // ---------------------------------------------------------------- decoding

  lemma {:induction false} LengthBitsCons(lens: seq<nat>)
    requires lens != []
    ensures LengthBits(lens) == ValueBits(4, lens[0]) + LengthBits(lens[1..])
  {
    hide ValueBits;
    var n := |lens| - 1;
    if n == 0 {
      assert LengthBits(lens[..0]) == [] && LengthBits(lens[1..]) == [];
    } else {
      LengthBitsCons(lens[..n]);
      assert lens[..n][1..] == lens[1..][..n - 1];
      Reassociate(ValueBits(4, lens[0]), LengthBits(lens[1..][..n - 1]), ValueBits(4, lens[n]));
    }
  }

  /** Reads `num` lengths of four bits. */
  method ReadLengths(reader: BitReader, num: nat, lens: array<nat>, ghost want: seq<nat>, ghost rest: seq<bool>)
    returns (ok: bool)
    requires reader.Valid() && num <= lens.Length
    modifies reader`pos, reader`curByte, reader`curMask, reader`k, lens
    ensures reader.Valid()
    ensures ok ==> forall i :: 0 <= i < num ==> lens[i] < 16
    ensures ok ==> forall i :: num <= i < lens.Length ==> lens[i] == old(lens[i])
    ensures |want| == num && (forall i :: 0 <= i < num ==> want[i] < 16)
            && old(reader.Rest()) == LengthBits(want) + rest ==>
              ok && lens[..num] == want && reader.Rest() == rest
  {
    hide *;
    PowersOfTwo();
    ghost var good := |want| == num && (forall i :: 0 <= i < num ==> want[i] < 16)
                      && reader.Rest() == LengthBits(want) + rest;
    assert want[0..] == want;
    for i := 0 to num
      invariant reader.Valid() && forall k :: 0 <= k < i ==> lens[k] < 16
      invariant forall k :: num <= k < lens.Length ==> lens[k] == old(lens[k])
      invariant good ==> reader.Rest() == LengthBits(want[i..]) + rest && lens[..i] == want[..i]
    {
      ghost var bits := reader.Rest();
      ghost var left := if good then want[i..] else [];
      if good {
        assert left[1..] == want[i + 1..] && left[0] == want[i];
        LengthBitsCons(left);
        Reassociate(ValueBits(4, want[i]), LengthBits(left[1..]), rest);
        BitsAreThere(ValueBits(4, want[i]), LengthBits(left[1..]) + rest);
      }
      var value;
      ok, value := reader.DecodeBits(4);
      if !ok {
        return;
      }
      if good {
        ReadBack(4, want[i], value, LengthBits(left[1..]) + rest, reader.Rest());
      }
      lens[i] := value;
    }
    ok := true;
    if good {
      assert want[num..] == [] && want[..num] == want;
      NoLengthBits(rest, want[num..]);
      assert want[num..][..0] == want[num..] && [] + rest == rest;
    }
  }

  lemma BitsAreThere(a: seq<bool>, b: seq<bool>)
    ensures |a + b| == |a| + |b| >= |a|
  {
  }

  ghost predicate ClclenShape(clclen: seq<nat>) {
    |clclen| == TOTAL_CODES && forall i :: 0 <= i < |clclen| ==> clclen[i] <= MAX_CLCLEN
  }

  /** `djw_decode_clclen`: builds the decoder for the code lengths. */
  method DecodeClclen(reader: BitReader, inorder: array<nat>, base: array<nat>, limit: array<int>,
                      ghost clclen: seq<nat>, ghost rest: seq<bool>)
    returns (ok: bool, minLen: nat, maxLen: nat, mtf: array<nat>, ghost cl: seq<nat>)
    requires reader.Valid() && inorder.Length == TOTAL_CODES && base.Length == 17 && limit.Length == 17
    requires inorder != base
    modifies reader`pos, reader`curByte, reader`curMask, reader`k, inorder, base, limit
    ensures reader.Valid() && fresh(mtf) && mtf.Length == 21
    ensures ok ==> |cl| == TOTAL_CODES && TablesFor(cl, inorder[..], base[..], limit[..], minLen, maxLen)
                   && mtf[..] == ClenMtf()
    ensures |clclen| == TOTAL_CODES && ClclenShape(clclen) && old(reader.Rest()) == ClclenBits(clclen) + rest ==>
              ok && cl == clclen && reader.Rest() == rest
  {
    hide *;
    Constants();
    ghost var bits := reader.Rest();
    ghost var good := |clclen| == TOTAL_CODES && ClclenShape(clclen) && bits == ClclenBits(clclen) + rest;
    ghost var num := if good then NumToEncode(clclen, TOTAL_CODES) else EXTRA_12OFFSET;
    ghost var after := if good then ClclenSplit(clclen, rest) else [];
    mtf := InitMtf();
    minLen, maxLen, cl := 0, 0, [];
    PowersOfTwo();
    if good {
      BitsAreThere(ValueBits(4, num - EXTRA_12OFFSET), after);
    }
    var numCodes;
    ok, numCodes := reader.DecodeBits(4);
    if !ok {
      return;
    }
    if good { ReadBack(4, num - EXTRA_12OFFSET, numCodes, after, reader.Rest()); }
    numCodes := numCodes + EXTRA_12OFFSET;
    var clClen := new nat[TOTAL_CODES](_ => 0);
    ok := ReadLengths(reader, numCodes, clClen, if good then clclen[..num] else [], rest);
    if !ok {
      return;
    }
    cl := clClen[..];
    if good { LengthsRead(clclen, cl, num); }
    SmallLengths(cl, numCodes);
    minLen, maxLen := BuildDecoder(clClen[..], MAX_CLCLEN, inorder, base, limit);
  }

  ghost function ClclenSplit(clclen: seq<nat>, rest: seq<bool>): (after: seq<bool>)
    requires ClclenShape(clclen)
    ensures EXTRA_12OFFSET <= NumToEncode(clclen, TOTAL_CODES) <= |clclen|
    ensures after == LengthBits(clclen[..NumToEncode(clclen, TOTAL_CODES)]) + rest
    ensures ClclenBits(clclen) + rest == ValueBits(4, NumToEncode(clclen, TOTAL_CODES) - EXTRA_12OFFSET) + after
    ensures forall i :: 0 <= i < NumToEncode(clclen, TOTAL_CODES) ==> clclen[i] < 16
  {
    hide LengthBits, ValueBits;
    var num := NumToEncode(clclen, TOTAL_CODES);
    Reassociate(ValueBits(4, num - EXTRA_12OFFSET), LengthBits(clclen[..num]), rest);
    LengthBits(clclen[..num]) + rest
  }

  /** Four bits never spell a length above the limit. */
  lemma SmallLengths(cl: seq<nat>, num: nat)
    requires num <= |cl| && forall i :: 0 <= i < num ==> cl[i] < 16
    requires forall i :: num <= i < |cl| ==> cl[i] == 0
    ensures forall i :: 0 <= i < |cl| ==> cl[i] <= MAX_CLCLEN
  {
  }

  /** The lengths that were not sent are zero. */
  lemma LengthsRead(clclen: seq<nat>, cl: seq<nat>, num: nat)
    requires |clclen| == |cl| == TOTAL_CODES && num == NumToEncode(clclen, TOTAL_CODES)
    requires cl[..num] == clclen[..num] && forall i :: num <= i < |cl| ==> cl[i] == 0
    ensures cl == clclen
  {
    forall i | 0 <= i < |cl| ensures cl[i] == clclen[i] {
      if i < num { assert cl[..num][i] == clclen[..num][i]; }
    }
  }

  /** Decodes `n` bytes. */
  method DecodeData(reader: BitReader, inorder: array<nat>, base: array<nat>, limit: array<int>,
                    minLen: nat, maxLen: nat, n: nat, ghost clen: seq<nat>, ghost data: seq<byte>, ghost rest: seq<bool>)
    returns (ok: bool, output: seq<byte>)
    requires reader.Valid() && TablesFor(clen, inorder[..], base[..], limit[..], minLen, maxLen)
    requires |clen| == ALPHABET_SIZE
    modifies reader`pos, reader`curByte, reader`curMask, reader`k
    ensures reader.Valid() && (ok ==> |output| == n)
    ensures AllCoded(clen, data) && |data| == n && old(reader.Rest()) == TokenBits(clen, data) + rest ==>
              ok && output == data && reader.Rest() == rest
  {
    hide TablesFor, TokenBits, CodeBits, Code;
    ghost var good := AllCoded(clen, data) && |data| == n && reader.Rest() == TokenBits(clen, data) + rest;
    output := [];
    assert data[0..] == data;
    while |output| < n
      invariant reader.Valid() && |output| <= n
      invariant good ==> output == data[..|output|]
                         && reader.Rest() == TokenBits(clen, data[|output|..]) + rest
      decreases n - |output|
    {
      ghost var i := |output|;
      ghost var left: seq<byte> := if good then data[i..] else [];
      if good {
        assert left[1..] == data[i + 1..] && left[0] == data[i];
        FirstToken(clen, left, rest);
      }
      var ret, sym := DecodeSymbol(reader, inorder, base, limit, minLen, maxLen, ALPHABET_SIZE, clen);
      if ret != Decoded {
        return false, output;
      }
      if good {
        Cancel(CodeBits(clen, left[0]), TokenBits(clen, left[1..]) + rest, reader.Rest());
      }
      output := output + [sym];
    }
    ok := true;
    if good {
      assert data[|output|..] == [] && data[..n] == data;
      NothingCoded(clen, rest, data[|output|..]);
    }
  }

  lemma NothingCoded(clen: seq<nat>, rest: seq<bool>, none: seq<nat>)
    requires none == []
    ensures TokenBits(clen, none) + rest == rest
  {
  }

  /** The code lengths of the bytes, and the tables made from them. */
  method DecodePrefix(reader: BitReader, inorder: array<nat>, base: array<nat>, limit: array<int>,
                      ghost clen: seq<nat>, ghost clclen: seq<nat>, ghost rest: seq<bool>)
    returns (ok: bool, minLen: nat, maxLen: nat, ghost lens: seq<nat>)
    requires reader.Valid() && inorder.Length == ALPHABET_SIZE && base.Length == TOTAL_CODES
    requires limit.Length == TOTAL_CODES && inorder != base
    modifies reader`pos, reader`curByte, reader`curMask, reader`k, inorder, base, limit
    ensures reader.Valid()
    ensures ok ==> |lens| == ALPHABET_SIZE && TablesFor(lens, inorder[..], base[..], limit[..], minLen, maxLen)
    ensures |clen| == ALPHABET_SIZE && GoodPrefix(clen, clclen)
            && old(reader.Rest()) == PrefixBits(clen, clclen) + rest ==>
              ok && lens == clen && reader.Rest() == rest
  {
    hide *;
    Constants();
    ghost var good := |clen| == ALPHABET_SIZE && GoodPrefix(clen, clclen)
                      && reader.Rest() == PrefixBits(clen, clclen) + rest;
    ghost var after := if good then PrefixSplit(clen, clclen, rest) else [];
    var clInorder := new nat[TOTAL_CODES];
    var clBase := new nat[17];
    var clLimit := new int[17];
    minLen, maxLen, lens := 0, 0, [];
    var clMin, clMax, mtf;
    ghost var cl;
    ok, clMin, clMax, mtf, cl := DecodeClclen(reader, clInorder, clBase, clLimit, clclen, after);
    if !ok {
      return;
    }
    if good { PrefixHolds(clen, clclen, rest); }
    var values := new nat[ALPHABET_SIZE];
    ok := Decode12(reader, clInorder, clBase, clLimit, clMin, clMax, mtf, ALPHABET_SIZE, values, cl, clen, rest);
    if !ok {
      return;
    }
    assert values[..ALPHABET_SIZE] == values[..];
    lens := values[..];
    TableValues(lens);
    minLen, maxLen := BuildDecoder(values[..], MAX_CODELEN, inorder, base, limit);
  }

  ghost function PrefixSplit(clen: seq<nat>, clclen: seq<nat>, rest: seq<bool>): (after: seq<bool>)
    requires GoodPrefix(clen, clclen)
    ensures PrefixBits(clen, clclen) + rest == ClclenBits(clclen) + after
    ensures |clclen| == TOTAL_CODES && ClclenShape(clclen)
    ensures Holds(after, clclen, rest, clen, ClenMtf())
  {
    hide TokenBits, ClclenBits, Encode;
    Reassociate(ClclenBits(clclen), TokenBits(clclen, Encode(clen, ClenMtf(), 0)), rest);
    TokenBits(clclen, Encode(clen, ClenMtf(), 0)) + rest
  }

  lemma PrefixHolds(clen: seq<nat>, clclen: seq<nat>, rest: seq<bool>)
    requires GoodPrefix(clen, clclen)
    ensures Holds(PrefixSplit(clen, clclen, rest), clclen, rest, clen, ClenMtf())
  {
  }

  /** Whatever is decoded is a code length, because the table holds nothing else. */
  lemma TableValues(lens: seq<nat>)
    requires forall k :: 0 <= k < |lens| ==> lens[k] in multiset(ClenMtf())
    ensures forall k :: 0 <= k < |lens| ==> lens[k] <= MAX_CODELEN
  {
    hide ClenMtf;
    ghost var t := ClenMtf();
    forall k | 0 <= k < |lens| ensures lens[k] <= MAX_CODELEN {
      var i :| 0 <= i < |t| && t[i] == lens[k];
      TableEntry(i);
    }
  }

  lemma TableEntry(i: nat)
    requires i < 21
    ensures ClenMtf()[i] <= MAX_CODELEN
  {
  }

  /** `xd3_decode_huff` for one group; more groups are reported as such. */
  method DecodeHuff(input: seq<byte>, outputBytes: nat,
                    ghost data: seq<byte>, ghost clen: seq<nat>, ghost clclen: seq<nat>, ghost pad: seq<bool>)
    returns (ret: HuffStatus, output: seq<byte>, used: nat)
    ensures outputBytes == 0 ==> ret == InvalidInput
    ensures ret == HuffOk ==> |output| == outputBytes && used <= |input|
    ensures Coded(Unpack(input), data, clen, clclen, pad) && |data| == outputBytes > 0 ==>
              ret == HuffOk && output == data && used == |input|
  {
    hide *;
    Constants();
    ret, output, used := InvalidInput, [], 0;
    if outputBytes == 0 {
      return;
    }
    ghost var good := Coded(Unpack(input), data, clen, clclen, pad) && |data| == outputBytes;
    ghost var after2 := if good then DataBits(clen, data, pad, Unpack(input), clclen) else [];
    ghost var after1 := if good then PrefixAnd(clen, clclen, after2) else [];
    var reader := new BitReader(input);
    PowersOfTwo();
    if good { BitsAreThere(ValueBits(3, 0), after1); }
    var ok, groups := reader.DecodeBits(3);
    if !ok {
      return;
    }
    if good { ReadBack(3, 0, groups, after1, reader.Rest()); }
    groups := groups + 1;
    if groups > 1 {
      ret := MultiGroup;
      return;
    }
    var inorder := new nat[ALPHABET_SIZE];
    var base := new nat[TOTAL_CODES];
    var limit := new int[TOTAL_CODES];
    var minLen, maxLen;
    ghost var lens;
    ok, minLen, maxLen, lens := DecodePrefix(reader, inorder, base, limit, clen, clclen, after2);
    if !ok {
      return;
    }
    ok, output := DecodeData(reader, inorder, base, limit, minLen, maxLen, outputBytes, lens, data, pad);
    if ok {
      ret := HuffOk;
    }
    used := reader.pos;
    reader.PosInRange();
    reader.BytesLeft();
  }

  ghost function DataBits(clen: seq<nat>, data: seq<byte>, pad: seq<bool>, bits: seq<bool>, clclen: seq<nat>): (r: seq<bool>)
    requires Coded(bits, data, clen, clclen, pad)
    ensures AllCoded(clen, data) && r == TokenBits(clen, data) + pad && |pad| < 8
    ensures |clen| == ALPHABET_SIZE && GoodPrefix(clen, clclen)
    ensures bits == ValueBits(3, 0) + PrefixAnd(clen, clclen, r)
  {
    TokenBits(clen, data) + pad
  }

  ghost function PrefixAnd(clen: seq<nat>, clclen: seq<nat>, rest: seq<bool>): (r: seq<bool>)
    requires GoodPrefix(clen, clclen)
    ensures r == PrefixBits(clen, clclen) + rest
  {
    PrefixBits(clen, clclen) + rest
  }

  // ---------------------------------------------------------------- the coded form is unambiguous

  lemma {:induction false} LengthBitsDetermine(a: seq<nat>, b: seq<nat>, restA: seq<bool>, restB: seq<bool>)
    requires |a| == |b| && forall i :: 0 <= i < |a| ==> a[i] <= MAX_CLCLEN && b[i] <= MAX_CLCLEN
    requires LengthBits(a) + restA == LengthBits(b) + restB
    ensures a == b && restA == restB
  {
    hide ValueBits, LengthBits;
    if a != [] {
      LengthBitsCons(a);
      LengthBitsCons(b);
      PowersOfTwo();
      Reassociate(ValueBits(4, a[0]), LengthBits(a[1..]), restA);
      Reassociate(ValueBits(4, b[0]), LengthBits(b[1..]), restB);
      ReadBack(4, a[0], b[0], LengthBits(a[1..]) + restA, LengthBits(b[1..]) + restB);
      LengthBitsDetermine(a[1..], b[1..], restA, restB);
      FirstAnd(a, b);
    } else {
      NoLengthBits([], a);
      assert LengthBits(a) == [] && LengthBits(b) == [];
      assert [] + restA == restA && [] + restB == restB;
    }
  }

  lemma ClclenDetermined(a: seq<nat>, b: seq<nat>, restA: seq<bool>, restB: seq<bool>)
    requires ClclenShape(a) && ClclenShape(b) && ClclenBits(a) + restA == ClclenBits(b) + restB
    ensures a == b && restA == restB
  {
    hide ValueBits, LengthBits, NumToEncode;
    var m, n := NumToEncode(a, TOTAL_CODES), NumToEncode(b, TOTAL_CODES);
    PowersOfTwo();
    Reassociate(ValueBits(4, m - EXTRA_12OFFSET), LengthBits(a[..m]), restA);
    Reassociate(ValueBits(4, n - EXTRA_12OFFSET), LengthBits(b[..n]), restB);
    ReadBack(4, m - EXTRA_12OFFSET, n - EXTRA_12OFFSET, LengthBits(a[..m]) + restA, LengthBits(b[..n]) + restB);
    LengthBitsDetermine(a[..m], b[..m], restA, restB);
    LengthsRead(a, b, m);
  }

  lemma PrefixDetermined(a: seq<nat>, clA: seq<nat>, restA: seq<bool>, b: seq<nat>, clB: seq<nat>, restB: seq<bool>)
    requires GoodPrefix(a, clA) && GoodPrefix(b, clB) && |a| == |b|
    requires PrefixBits(a, clA) + restA == PrefixBits(b, clB) + restB
    ensures a == b && clA == clB && restA == restB
  {
    hide *;
    var afterA, afterB := PrefixSplit(a, clA, restA), PrefixSplit(b, clB, restB);
    ClclenDetermined(clA, clB, afterA, afterB);
    MtfTable();
    HoldsDetermines(afterA, clA, a, b, restA, restB, ClenMtf());
  }

  lemma MtfTable()
    ensures ClenMtf() != []
  {
  }

  /** Bits are the coded form of one string of a given length at most, whatever code lengths were used for it. */
  lemma CodedDetermines(bits: seq<bool>, a: seq<byte>, clenA: seq<nat>, clclenA: seq<nat>, padA: seq<bool>,
                        b: seq<byte>, clenB: seq<nat>, clclenB: seq<nat>, padB: seq<bool>)
    requires Coded(bits, a, clenA, clclenA, padA) && Coded(bits, b, clenB, clclenB, padB) && |a| == |b|
    ensures a == b && clenA == clenB && clclenA == clclenB && padA == padB
  {
    hide *;
    var restA, restB := DataBits(clenA, a, padA, bits, clclenA), DataBits(clenB, b, padB, bits, clclenB);
    Cancel(ValueBits(3, 0), PrefixAnd(clenA, clclenA, restA), PrefixAnd(clenB, clclenB, restB));
    PrefixDetermined(clenA, clclenA, restA, clenB, clclenB, restB);
    TokensDetermined(clenA, a, b, padA, padB);
  }

  /** What the coder writes, the decoder reads back, byte for byte and to the end. */
  method RoundTrip(data: seq<byte>, out: seq<byte>, inefficient: bool)
    returns (ret: HuffStatus, coded: seq<byte>, output: seq<byte>, unused: nat,
             ghost clen: seq<nat>, ghost clclen: seq<nat>, ghost pad: seq<bool>)
    requires data != []
    ensures AllCoded(clen, data) && BestFor(clen, Freqs(data), MAX_CODELEN)
    ensures ret == if !inefficient && SavesTooLittle(data, |out|, clen, clclen) then NoSecond else HuffOk
    ensures ret == HuffOk ==> out <= coded && PrefixFor(clen, clclen) && Coded(Unpack(coded[|out|..]), data, clen, clclen, pad)
    ensures ret == HuffOk ==> output == data && unused == 0
  {
    ret, coded, clen, clclen, pad := EncodeHuff(data, out, inefficient);
    output, unused := [], 0;
    if ret == HuffOk {
      var used;
      ret, output, used := DecodeHuff(coded[|out|..], |data|, data, clen, clclen, pad);
      unused := |coded[|out|..]| - used;
    }
  }
}
