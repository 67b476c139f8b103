/** Canonical codes: `djw_build_codes`, `djw_build_decoder` and `djw_decode_symbol`. */
module DjwCodes {
  import opened Common
  import opened Kraft
  import opened BitIO

  // ---------------------------------------------------------------- specification

  /** The number of symbols with a code of `l` bits. */
  function Count(clen: seq<nat>, l: nat): (r: nat)
    ensures r <= |clen|
  {
    if clen == [] then 0 else Count(clen[..|clen| - 1], l) + if clen[|clen| - 1] == l then 1 else 0
  }

  /** The first code of `l` bits. */
  function First(clen: seq<nat>, l: nat): nat {
    if l <= 1 then 0 else 2 * (First(clen, l - 1) + Count(clen, l - 1))
  }

  /** The number of symbols with a code shorter than `l` bits. */
  function Before(clen: seq<nat>, l: nat): nat {
    if l <= 1 then 0 else Before(clen, l - 1) + Count(clen, l - 1)
  }

  /** The position of symbol `i` among the symbols with codes as long as its own. */
  function Rank(clen: seq<nat>, i: nat): nat
    requires i < |clen|
  {
    Count(clen[..i], clen[i])
  }

  function Code(clen: seq<nat>, i: nat): nat
    requires i < |clen|
  {
    First(clen, clen[i]) + Rank(clen, i)
  }

  /** The bits that stand for symbol `i`. */
  function CodeBits(clen: seq<nat>, i: nat): seq<bool>
    requires i < |clen|
  {
    ValueBits(clen[i], Code(clen, i))
  }

  // ---------------------------------------------------------------- codes fit their lengths

  lemma {:induction false} CountPrefix(clen: seq<nat>, i: nat, l: nat)
    requires i <= |clen|
    ensures Count(clen[..i], l) <= Count(clen, l)
    ensures i < |clen| && clen[i] == l ==> Count(clen[..i], l) < Count(clen, l)
    decreases |clen|
  {
    var n := |clen| - 1;
    if i <= n {
      CountPrefix(clen[..n], i, l);
      assert clen[..n][..i] == clen[..i];
      if i < n { assert clen[..n][i] == clen[i]; }
    } else {
      assert clen[..i] == clen;
    }
  }

  lemma RankInRange(clen: seq<nat>, i: nat)
    requires i < |clen|
    ensures Rank(clen, i) < Count(clen, clen[i])
  {
    CountPrefix(clen, i, clen[i]);
  }

  /** The code space of the symbols with codes of 1 to `l` bits. */
  ghost function SpaceUpTo(clen: seq<nat>, l: nat): (r: real)
    ensures 0.0 <= r <= KraftSum(clen)
  {
    if clen == [] then 0.0 else
      var c := clen[|clen| - 1];
      SpaceUpTo(clen[..|clen| - 1], l) + if 0 < c <= l then Share(c) else 0.0
  }

  /** The code space of `n` codes of `l` bits. */
  ghost function Portion(n: nat, l: nat): real {
    n as real * Share(l)
  }

  lemma PortionAdd(n: nat, m: nat, l: nat)
    ensures Portion(n + m, l) == Portion(n, l) + Portion(m, l)
  {
    assert (n + m) as real == n as real + m as real;
    assert (n as real + m as real) * Share(l) == n as real * Share(l) + m as real * Share(l);
  }

  lemma PortionDouble(n: nat, l: nat)
    requires l > 0
    ensures Portion(2 * n, l) == Portion(n, l - 1)
  {
    assert (2 * n) as real == 2.0 * n as real;
    var s := Share(l - 1);
    assert 2.0 * n as real * (s / 2.0) == n as real * s;
  }

  lemma PortionOne(l: nat)
    ensures Portion(1, l) == Share(l) && Portion(0, l) == 0.0
  {
  }

  lemma {:induction false} SpaceStep(clen: seq<nat>, l: nat)
    requires l > 0
    ensures SpaceUpTo(clen, l) == SpaceUpTo(clen, l - 1) + Portion(Count(clen, l), l)
  {
    hide Portion, Share;
    PortionOne(l);
    if clen != [] {
      SpaceStep(clen[..|clen| - 1], l);
      PortionAdd(Count(clen[..|clen| - 1], l), 1, l);
    }
  }

  lemma {:induction false} NoSpace(clen: seq<nat>)
    ensures SpaceUpTo(clen, 0) == 0.0
  {
    if clen != [] { NoSpace(clen[..|clen| - 1]); }
  }

  /** The codes of up to `l` bits, padded to `l` bits, are as many as their share of the code space says. */
  lemma {:induction false} CodesFillSpace(clen: seq<nat>, l: nat)
    requires l > 0
    ensures Portion(First(clen, l) + Count(clen, l), l) == SpaceUpTo(clen, l)
  {
    hide Portion, Count, SpaceUpTo, Share;
    SpaceStep(clen, l);
    PortionAdd(First(clen, l), Count(clen, l), l);
    if l == 1 {
      NoSpace(clen);
      PortionOne(1);
    } else {
      CodesFillSpace(clen, l - 1);
      PortionDouble(First(clen, l - 1) + Count(clen, l - 1), l);
    }
  }

  lemma PortionWhole(l: nat)
    ensures Portion(Pow2(l), l) == 1.0
  {
    ShareTimesPow2(l);
  }

  lemma {:induction false} AtMostPow2(n: nat, l: nat)
    requires Portion(n, l) <= 1.0
    ensures n <= Pow2(l)
  {
    if l > 0 {
      PortionAdd(2 * (n / 2), n % 2, l);
      PortionDouble(n / 2, l);
      AtMostPow2(n / 2, l - 1);
      if n / 2 == Pow2(l - 1) && n % 2 == 1 {
        PortionWhole(l - 1);
        assert false;
      }
    }
  }

  /** Code lengths that respect Kraft's inequality give codes that fit them. */
  lemma CodesFit(clen: seq<nat>, l: nat)
    requires KraftSum(clen) <= 1.0 && l > 0
    ensures First(clen, l) + Count(clen, l) <= Pow2(l)
  {
    hide Portion, Count, First;
    CodesFillSpace(clen, l);
    AtMostPow2(First(clen, l) + Count(clen, l), l);
  }

  lemma CodeFits(clen: seq<nat>, i: nat)
    requires KraftSum(clen) <= 1.0 && i < |clen| && clen[i] > 0
    ensures Code(clen, i) < Pow2(clen[i])
  {
    RankInRange(clen, i);
    CodesFit(clen, clen[i]);
  }

  // ---------------------------------------------------------------- no code is a prefix of another

  /** A code of `l + d` bits, cut to `l` bits, lies past all codes of `l` bits. */
  lemma {:induction false} LongerCodesLieHigher(clen: seq<nat>, l: nat, d: nat, code: nat)
    requires l > 0 && d > 0 && First(clen, l + d) <= code
    ensures First(clen, l) + Count(clen, l) <= High(code, d)
  {
    if d > 1 {
      LongerCodesLieHigher(clen, l, d - 1, code / 2);
    } else {
      assert High(code, 1) == code / 2 by { assert High(code / 2, 0) == code / 2; }
    }
  }

  lemma {:induction false} RanksDiffer(clen: seq<nat>, i: nat, j: nat)
    requires i < j < |clen| && clen[i] == clen[j]
    ensures Rank(clen, i) < Rank(clen, j)
  {
    CountPrefix(clen[..j], i, clen[i]);
    assert clen[..j][..i] == clen[..i];
  }

  lemma {:induction false} ValueBitsPrefix(n: nat, v: nat, m: nat)
    requires m <= n
    ensures ValueBits(n, v)[..m] == ValueBits(m, High(v, n - m))
  {
    if m < n {
      ValueBitsPrefix(n - 1, v / 2, m);
      assert ValueBits(n, v)[..m] == ValueBits(n - 1, v / 2)[..m];
    }
  }

  /** What it takes for one code to begin with another. */
  lemma PrefixMeansHigh(clen: seq<nat>, i: nat, j: nat)
    requires KraftSum(clen) <= 1.0 && i < |clen| && j < |clen| && clen[i] > 0 && clen[j] > 0
    requires CodeBits(clen, i) <= CodeBits(clen, j)
    ensures clen[i] <= clen[j] && Code(clen, i) == High(Code(clen, j), clen[j] - clen[i])
  {
    hide Code, KraftSum, ValueBits, BitsValue, High;
    assert clen[i] <= clen[j];
    var c := High(Code(clen, j), clen[j] - clen[i]);
    CodeFits(clen, i);
    CodeFits(clen, j);
    ValueBitsPrefix(clen[j], Code(clen, j), clen[i]);
    HighFits(Code(clen, j), clen[i], clen[j] - clen[i]);
    ValueOfBits(clen[i], Code(clen, i));
    ValueOfBits(clen[i], c);
    assert CodeBits(clen, j)[..clen[i]] == CodeBits(clen, i);
  }

  lemma PrefixFree(clen: seq<nat>, i: nat, j: nat)
    requires KraftSum(clen) <= 1.0 && i < |clen| && j < |clen| && i != j && clen[i] > 0 && clen[j] > 0
    ensures !(CodeBits(clen, i) <= CodeBits(clen, j))
  {
    hide KraftSum, CodeBits, Count, First;
    if CodeBits(clen, i) <= CodeBits(clen, j) {
      PrefixMeansHigh(clen, i, j);
      var d := clen[j] - clen[i];
      if d > 0 {
        LongerCodesLieHigher(clen, clen[i], d, Code(clen, j));
        RankInRange(clen, i);
      } else if i < j {
        RanksDiffer(clen, i, j);
      } else {
        RanksDiffer(clen, j, i);
      }
    }
  }

  // ---------------------------------------------------------------- which code a symbol gets

  /** Symbol `k` has a code, and comes before symbol `i` by length and then by number. */
  predicate Sooner(clen: seq<nat>, k: nat, i: nat)
    requires k < |clen| && i < |clen|
  {
    0 < clen[k] && (clen[k] < clen[i] || (clen[k] == clen[i] && k < i))
  }

  /** The code space of those among the first `n` symbols that come before symbol `i`. */
  ghost function SpaceBefore(clen: seq<nat>, n: nat, i: nat): real
    requires n <= |clen| && i < |clen|
  {
    if n == 0 then 0.0 else SpaceBefore(clen, n - 1, i) + if Sooner(clen, n - 1, i) then Share(clen[n - 1]) else 0.0
  }

  lemma {:induction false} SpaceBeforeSplits(clen: seq<nat>, n: nat, i: nat)
    requires n <= |clen| && i < |clen| && clen[i] > 0
    ensures SpaceBefore(clen, n, i)
         == SpaceUpTo(clen[..n], clen[i] - 1) + Portion(Count(clen[..if n < i then n else i], clen[i]), clen[i])
  {
    hide Portion, Share;
    PortionOne(clen[i]);
    if n > 0 {
      SpaceBeforeSplits(clen, n - 1, i);
      assert clen[..n][..n - 1] == clen[..n - 1];
      if n <= i {
        CountStep(clen, n - 1, clen[i]);
        PortionAdd(Count(clen[..n - 1], clen[i]), 1, clen[i]);
      }
    }
  }

  /**
    * As a binary fraction, a symbol's code is the code space of all symbols before it. So there is no gap, and the order
    * of the codes is by length and then by symbol.
    */
  lemma CodeIsSpaceBefore(clen: seq<nat>, i: nat)
    requires i < |clen| && clen[i] > 0
    ensures Portion(Code(clen, i), clen[i]) == SpaceBefore(clen, |clen|, i)
  {
    hide Portion, SpaceUpTo, Share, Count, First, SpaceBefore;
    var l := clen[i];
    SpaceBeforeSplits(clen, |clen|, i);
    assert clen[..|clen|] == clen;
    PortionAdd(First(clen, l), Rank(clen, i), l);
    CodesFillSpace(clen, l);
    SpaceStep(clen, l);
    PortionAdd(First(clen, l), Count(clen, l), l);
  }

  // ---------------------------------------------------------------- building codes

  lemma {:induction false} CountNone(clen: seq<nat>, l: nat)
    requires forall i :: 0 <= i < |clen| ==> clen[i] != l
    ensures Count(clen, l) == 0
  {
    if clen != [] { CountNone(clen[..|clen| - 1], l); }
  }

  lemma {:induction false} FirstIsZero(clen: seq<nat>, l: nat)
    requires forall i :: 0 <= i < |clen| ==> clen[i] == 0 || l <= clen[i]
    ensures First(clen, l) == 0 && Before(clen, l) == 0
  {
    if l > 1 {
      FirstIsZero(clen, l - 1);
      CountNone(clen, l - 1);
    }
  }

  lemma CountStep(clen: seq<nat>, i: nat, l: nat)
    requires i < |clen|
    ensures Count(clen[..i + 1], l) == Count(clen[..i], l) + if clen[i] == l then 1 else 0
  {
    assert clen[..i + 1][..i] == clen[..i];
  }

  /** The shortest and the longest code, starting from the widest possible range. */
  method MinMax(clen: seq<nat>) returns (minClen: nat, maxClen: nat)
    requires forall i :: 0 <= i < |clen| ==> clen[i] <= 20
    ensures forall i :: 0 <= i < |clen| && clen[i] > 0 ==> minClen <= clen[i] <= maxClen
    ensures 0 < minClen <= 20 && (forall i :: 0 <= i < |clen| ==> clen[i] <= maxClen)
  {
    minClen, maxClen := 20, 0;
    for i := 0 to |clen|
      invariant 0 < minClen <= 20
      invariant forall k :: 0 <= k < i && clen[k] > 0 ==> minClen <= clen[k]
      invariant forall k :: 0 <= k < i ==> clen[k] <= maxClen
    {
      if clen[i] > 0 && clen[i] < minClen {
        minClen := clen[i];
      }
      maxClen := Max(maxClen, clen[i]);
    }
  }

  /** Numbers the codes of `l` bits in symbol order, starting from `code0`. */
  method NumberLength(codes: array<nat>, clen: seq<nat>, l: nat, code0: nat) returns (code: nat)
    requires codes.Length == |clen| && code0 == First(clen, l) && l > 0
    modifies codes
    ensures code == First(clen, l) + Count(clen, l)
    ensures forall k :: 0 <= k < |clen| && clen[k] != l ==> codes[k] == old(codes[k])
    ensures forall k :: 0 <= k < |clen| && clen[k] == l ==> codes[k] == Code(clen, k)
  {
    hide First, Count;
    code := code0;
    CountStart(clen, l);
    for i := 0 to |clen|
      invariant code == First(clen, l) + Count(clen[..i], l)
      invariant forall k :: 0 <= k < |clen| && clen[k] != l ==> codes[k] == old(codes[k])
      invariant forall k :: 0 <= k < i && clen[k] == l ==> codes[k] == Code(clen, k)
    {
      CountStep(clen, i, l);
      if clen[i] == l {
        codes[i] := code;
        code := code + 1;
      }
    }
    assert clen[..|clen|] == clen;
  }

  /** Numbers the codes of each length. */
  method BuildCodes(codes: array<nat>, clen: seq<nat>)
    requires codes.Length == |clen| && forall i :: 0 <= i < |clen| ==> clen[i] <= 20
    modifies codes
    ensures forall i :: 0 <= i < |clen| && clen[i] > 0 ==> codes[i] == Code(clen, i)
  {
    hide *;
    var minClen, maxClen := MinMax(clen);
    var code := 0;
    FirstIsZero(clen, minClen);
    var l := minClen;
    while l <= maxClen
      invariant minClen <= l && code == First(clen, l)
      invariant forall k :: 0 <= k < |clen| && 0 < clen[k] < l ==> codes[k] == Code(clen, k)
    {
      code := NumberLength(codes, clen, l, code);
      code := 2 * code;
      FirstStep(clen, l);
      l := l + 1;
    }
  }

  lemma CountStart(clen: seq<nat>, l: nat)
    ensures Count(clen[..0], l) == 0
  {
  }

  lemma FirstStep(clen: seq<nat>, l: nat)
    requires l > 0
    ensures First(clen, l + 1) == 2 * (First(clen, l) + Count(clen, l))
    ensures Before(clen, l + 1) == Before(clen, l) + Count(clen, l)
  {
  }

  // ---------------------------------------------------------------- building the decoder

  /** The tables `inorder`, `base` and `limit` of the decoder. */
  ghost predicate TablesFor(clen: seq<nat>, inorder: seq<nat>, base: seq<nat>, limit: seq<int>,
                            minLen: nat, maxLen: nat) {
    && |inorder| >= |clen| && maxLen < |base| && maxLen < |limit| && minLen > 0
    && (forall i :: 0 <= i < |clen| && clen[i] > 0 ==> minLen <= clen[i] <= maxLen)
    && First(clen, minLen) == 0
    && (forall l :: minLen <= l <= maxLen ==> limit[l] == First(clen, l) + Count(clen, l) - 1)
    && (forall l :: minLen <= l <= maxLen ==> base[l] + Before(clen, l) == First(clen, l))
    && (forall i :: 0 <= i < |clen| && clen[i] > 0 ==>
          Before(clen, clen[i]) + Rank(clen, i) < |inorder|
          && inorder[Before(clen, clen[i]) + Rank(clen, i)] == i)
  }

  /** Counts the code lengths. */
  method CountLengths(clen: seq<nat>, nrClen: array<nat>, absMax: nat)
    requires absMax < nrClen.Length && forall i :: 0 <= i < |clen| ==> clen[i] <= absMax
    modifies nrClen
    ensures forall l :: 0 <= l <= absMax ==> nrClen[l] == Count(clen, l)
  {
    for l := 0 to absMax + 1
      invariant forall k :: 0 <= k < l ==> nrClen[k] == 0
    {
      nrClen[l] := 0;
    }
    for i := 0 to |clen|
      invariant forall l :: 0 <= l <= absMax ==> nrClen[l] == Count(clen[..i], l)
    {
      forall l ensures Count(clen[..i + 1], l) == Count(clen[..i], l) + if clen[i] == l then 1 else 0 {
        if l >= 0 { CountStep(clen, i, l); }
      }
      nrClen[clen[i]] := nrClen[clen[i]] + 1;
    }
    assert clen[..|clen|] == clen;
  }

  /** Where symbol `i` stands among all symbols ordered by code. */
  function Slot(clen: seq<nat>, i: nat): nat
    requires i < |clen|
  {
    Before(clen, clen[i]) + Rank(clen, i)
  }

  lemma {:induction false} BeforeMonotone(clen: seq<nat>, l: nat, m: nat)
    requires 0 < l < m
    ensures Before(clen, l) + Count(clen, l) <= Before(clen, m)
  {
    if l + 1 < m { BeforeMonotone(clen, l, m - 1); }
  }

  lemma {:induction false} BeforeSnoc(clen: seq<nat>, l: nat)
    requires clen != []
    ensures Before(clen, l) == Before(clen[..|clen| - 1], l) + if 0 < clen[|clen| - 1] < l then 1 else 0
  {
    if l > 1 { BeforeSnoc(clen, l - 1); }
  }

  lemma {:induction false} BeforeBound(clen: seq<nat>, l: nat)
    ensures Before(clen, l) <= |clen|
  {
    if clen != [] {
      BeforeSnoc(clen, l);
      BeforeBound(clen[..|clen| - 1], l);
    } else {
      BeforeEmpty(l);
    }
  }

  lemma {:induction false} BeforeEmpty(l: nat)
    ensures Before([], l) == 0
  {
    if l > 1 { BeforeEmpty(l - 1); }
  }

  lemma SlotInRange(clen: seq<nat>, i: nat)
    requires i < |clen| && clen[i] > 0
    ensures Slot(clen, i) < |clen|
  {
    RankInRange(clen, i);
    BeforeBound(clen, clen[i] + 1);
    FirstStep(clen, clen[i]);
  }

  lemma SlotsDiffer(clen: seq<nat>, i: nat, j: nat)
    requires i < j < |clen| && clen[i] > 0 && clen[j] > 0
    ensures Slot(clen, i) != Slot(clen, j)
  {
    RankInRange(clen, i);
    RankInRange(clen, j);
    if clen[i] == clen[j] {
      RanksDiffer(clen, i, j);
    } else if clen[i] < clen[j] {
      BeforeMonotone(clen, clen[i], clen[j]);
    } else {
      BeforeMonotone(clen, clen[j], clen[i]);
    }
  }

  lemma {:induction false} BeforeAtMostFirst(clen: seq<nat>, l: nat)
    ensures Before(clen, l) <= First(clen, l)
  {
    if l > 1 { BeforeAtMostFirst(clen, l - 1); }
  }

  /** The least and greatest code lengths in use; `absMax + 1` and 0 when there are none. */
  method Extremes(nrClen: array<nat>, clen: seq<nat>, absMax: nat) returns (minLen: nat, maxLen: nat)
    requires absMax < nrClen.Length && forall i :: 0 <= i < |clen| ==> clen[i] <= absMax
    requires forall l :: 0 <= l <= absMax ==> nrClen[l] == Count(clen, l)
    ensures 0 < minLen <= absMax + 1 && maxLen <= absMax
    ensures forall i :: 0 <= i < |clen| && clen[i] > 0 ==> minLen <= clen[i] <= maxLen
  {
    forall i | 0 <= i < |clen| ensures Count(clen, clen[i]) > 0 {
      RankInRange(clen, i);
    }
    minLen := 1;
    while minLen <= absMax && nrClen[minLen] == 0
      invariant 0 < minLen <= absMax + 1
      invariant forall i :: 0 <= i < |clen| && clen[i] > 0 ==> minLen <= clen[i]
    {
      minLen := minLen + 1;
    }
    maxLen := absMax;
    while maxLen != 0 && nrClen[maxLen] == 0
      invariant maxLen <= absMax
      invariant forall i :: 0 <= i < |clen| && clen[i] > 0 ==> clen[i] <= maxLen
    {
      maxLen := maxLen - 1;
    }
  }

  ghost predicate LimitsUpTo(clen: seq<nat>, base: seq<nat>, limit: seq<int>, tmpBase: seq<nat>,
                             minLen: nat, to: nat) {
    && to <= |base| && to <= |limit| && to <= |tmpBase|
    && forall l {:trigger limit[l]} {:trigger base[l]} {:trigger tmpBase[l]} :: minLen <= l < to ==>
         && limit[l] == First(clen, l) + Count(clen, l) - 1
         && tmpBase[l] == Before(clen, l)
         && base[l] + Before(clen, l) == First(clen, l)
  }

  /** Fills BASE and LIMIT; without any code only the first entries are written, from a count nobody set. */
  method FillLimits(clen: seq<nat>, nrClen: array<nat>, tmpBase: array<nat>, base: array<nat>, limit: array<int>,
                    absMax: nat, minLen: nat, maxLen: nat)
    requires nrClen != tmpBase && nrClen != base && base != tmpBase
    requires forall l :: 0 <= l <= absMax ==> absMax < nrClen.Length && nrClen[l] == Count(clen, l)
    requires 0 < minLen <= absMax + 1 && maxLen <= absMax && First(clen, minLen) == 0 && Before(clen, minLen) == 0
    requires absMax + 1 < nrClen.Length && absMax + 1 < tmpBase.Length
    requires absMax + 1 < base.Length && absMax + 1 < limit.Length
    modifies tmpBase, base, limit
    ensures LimitsUpTo(clen, base[..], limit[..], tmpBase[..], minLen, maxLen + 1)
  {
    hide First, Count, Before;
    tmpBase[minLen] := 0;
    base[minLen] := 0;
    var nr: int := nrClen[minLen];
    limit[minLen] := nr - 1;
    var i := minLen + 1;
    while i <= maxLen
      invariant minLen < i && (i <= maxLen + 1 || i == minLen + 1)
      invariant LimitsUpTo(clen, base[..], limit[..], tmpBase[..], minLen, if i <= maxLen then i else maxLen + 1)
    {
      assert limit[..][i - 1] == limit[i - 1] && tmpBase[..][i - 1] == tmpBase[i - 1];
      assert nrClen[i - 1] == Count(clen, i - 1) && nrClen[i] == Count(clen, i);
      FirstStep(clen, i - 1);
      BeforeAtMostFirst(clen, i);
      var lastLimit := (limit[i - 1] + 1) * 2;
      tmpBase[i] := tmpBase[i - 1] + nrClen[i - 1];
      limit[i] := lastLimit + nrClen[i] - 1;
      base[i] := lastLimit - tmpBase[i];
      i := i + 1;
    }
  }

  /** Sorts the symbols by code. */
  method FillInorder(clen: seq<nat>, inorder: array<nat>, tmpBase: array<nat>, absMax: nat)
    requires inorder != tmpBase && |clen| <= inorder.Length && absMax < tmpBase.Length
    requires forall i :: 0 <= i < |clen| ==> clen[i] <= absMax
    requires forall i :: 0 <= i < |clen| && clen[i] > 0 ==> tmpBase[clen[i]] == Before(clen, clen[i])
    modifies inorder, tmpBase
    ensures forall k :: 0 <= k < |clen| && clen[k] > 0 ==> Slot(clen, k) < inorder.Length && inorder[Slot(clen, k)] == k
  {
    hide Before, Slot, Count;
    forall k | 0 <= k < |clen| && clen[k] > 0 ensures Slot(clen, k) < inorder.Length {
      SlotInRange(clen, k);
    }
    forall l: nat ensures Count(clen[..0], l) == 0 {
      CountStart(clen, l);
    }
    for i := 0 to |clen|
      invariant forall k :: 0 <= k < |clen| && clen[k] > 0 ==>
        tmpBase[clen[k]] == Before(clen, clen[k]) + Count(clen[..i], clen[k])
      invariant forall k :: 0 <= k < i && clen[k] > 0 ==> inorder[Slot(clen, k)] == k
    {
      forall l: nat ensures Count(clen[..i + 1], l) == Count(clen[..i], l) + if clen[i] == l then 1 else 0 {
        CountStep(clen, i, l);
      }
      var l := clen[i];
      if l != 0 {
        SlotIs(clen, i);
        forall k | 0 <= k < i && clen[k] > 0 ensures Slot(clen, k) != Slot(clen, i) {
          SlotsDiffer(clen, k, i);
        }
        inorder[tmpBase[l]] := i;
        tmpBase[l] := tmpBase[l] + 1;
      }
    }
  }

  lemma SlotIs(clen: seq<nat>, i: nat)
    requires i < |clen|
    ensures Slot(clen, i) == Before(clen, clen[i]) + Count(clen[..i], clen[i])
  {
  }

  method BuildDecoder(clen: seq<nat>, absMax: nat, inorder: array<nat>, base: array<nat>, limit: array<int>)
    returns (minLen: nat, maxLen: nat)
    requires |clen| > 0 && absMax <= 20 && forall i :: 0 <= i < |clen| ==> clen[i] <= absMax
    requires |clen| <= inorder.Length && absMax + 1 < base.Length && absMax + 1 < limit.Length && inorder != base
    modifies inorder, base, limit
    ensures TablesFor(clen, inorder[..], base[..], limit[..], minLen, maxLen)
  {
    hide First, Count, Before, Slot;
    var nrClen := new nat[22];
    var tmpBase := new nat[22];
    CountLengths(clen, nrClen, absMax);
    minLen, maxLen := Extremes(nrClen, clen, absMax);
    FirstIsZero(clen, minLen);
    FillLimits(clen, nrClen, tmpBase, base, limit, absMax, minLen, maxLen);
    forall i | 0 <= i < |clen| && clen[i] > 0 ensures tmpBase[clen[i]] == Before(clen, clen[i]) {
      assert tmpBase[..][clen[i]] == tmpBase[clen[i]];
    }
    FillInorder(clen, inorder, tmpBase, absMax);
    TablesFilled(clen, inorder[..], base[..], limit[..], minLen, maxLen);
  }

  lemma TablesFilled(clen: seq<nat>, inorder: seq<nat>, base: seq<nat>, limit: seq<int>, minLen: nat, maxLen: nat)
    requires |clen| <= |inorder| && maxLen < |base| && maxLen < |limit| && minLen > 0
    requires forall i :: 0 <= i < |clen| && clen[i] > 0 ==> minLen <= clen[i] <= maxLen
    requires First(clen, minLen) == 0
    requires forall l :: minLen <= l <= maxLen ==> limit[l] == First(clen, l) + Count(clen, l) - 1
    requires forall l :: minLen <= l <= maxLen ==> base[l] + Before(clen, l) == First(clen, l)
    requires forall k :: 0 <= k < |clen| && clen[k] > 0 ==> Slot(clen, k) < |inorder| && inorder[Slot(clen, k)] == k
    ensures TablesFor(clen, inorder, base, limit, minLen, maxLen)
  {
  }

  // ---------------------------------------------------------------- decoding a symbol

  datatype DecodeStatus = Decoded | EndOfInput | Corrupt

  /** Symbol `i` has a code that fits, and `bits` start with it. */
  predicate Candidate(clen: seq<nat>, i: nat, bits: seq<bool>) {
    i < |clen| && clen[i] > 0 && Code(clen, i) < Pow2(clen[i]) && CodeBits(clen, i) <= bits
  }

  /** The symbol with a given code. */
  function Symbol(clen: seq<nat>, l: nat, rank: nat): (i: nat)
    requires rank < Count(clen, l)
    ensures i < |clen| && clen[i] == l && Rank(clen, i) == rank
  {
    var n := |clen| - 1;
    if clen[n] == l && Count(clen[..n], l) == rank then n else
      var i := Symbol(clen[..n], l, rank);
      assert clen[..n][..i] == clen[..i];
      i
  }

  /** A candidate that the bits read so far do not exceed: they are its code, cut short. */
  lemma CandidateValue(clen: seq<nat>, i: nat, bits: seq<bool>, n: nat)
    requires Candidate(clen, i, bits) && n <= clen[i] && n <= |bits|
    ensures BitsValue(bits[..n]) == High(Code(clen, i), clen[i] - n)
  {
    hide Code, ValueBits, BitsValue, High;
    var c := High(Code(clen, i), clen[i] - n);
    HighFits(Code(clen, i), n, clen[i] - n);
    ValueBitsPrefix(clen[i], Code(clen, i), n);
    ValueOfBits(n, c);
    assert CodeBits(clen, i)[..n] == bits[..n];
  }

  /** Reading stops at the length of a candidate's code and not before. */
  lemma CandidateStops(clen: seq<nat>, i: nat, bits: seq<bool>, n: nat)
    requires Candidate(clen, i, bits) && 0 < n <= clen[i] && n <= |bits|
    ensures var code := BitsValue(bits[..n]);
            if n == clen[i] then code == Code(clen, i) && code < First(clen, n) + Count(clen, n)
            else First(clen, n) + Count(clen, n) <= code
  {
    hide First, Count, BitsValue, Rank;
    CandidateValue(clen, i, bits, n);
    if n == clen[i] {
      HighZero(Code(clen, i));
      RankInRange(clen, i);
    } else {
      LongerCodesLieHigher(clen, n, clen[i] - n, Code(clen, i));
    }
  }

  /** Same length and same code mean same symbol. */
  lemma CodeDetermines(clen: seq<nat>, i: nat, j: nat)
    requires i < |clen| && j < |clen| && clen[i] == clen[j] && Code(clen, i) == Code(clen, j)
    ensures i == j
  {
    if i < j { RanksDiffer(clen, i, j); }
    if j < i { RanksDiffer(clen, j, i); }
  }

  /** A value within the codes of `n` bits names a symbol. */
  lemma Found(clen: seq<nat>, inorder: seq<nat>, base: seq<nat>, limit: seq<int>, minLen: nat, maxLen: nat,
              read: seq<bool>) returns (sym: nat)
    requires TablesFor(clen, inorder, base, limit, minLen, maxLen) && minLen <= |read| <= maxLen
    requires First(clen, |read|) <= BitsValue(read) <= limit[|read|]
    ensures base[|read|] <= BitsValue(read)
    ensures var offset := BitsValue(read) - base[|read|];
            offset < |inorder| && offset < |clen| && inorder[offset] == sym
    ensures sym < |clen| && clen[sym] == |read| && Code(clen, sym) == BitsValue(read)
    ensures CodeBits(clen, sym) == read
  {
    hide First, Before, BitsValue, ValueBits;
    var n := |read|;
    sym := Symbol(clen, n, BitsValue(read) - First(clen, n));
    BitsOfValue(read);
    SlotInRange(clen, sym);
  }

  /** No code of up to `n` bits can be read. */
  ghost predicate AllLonger(clen: seq<nat>, all: seq<bool>, n: nat) {
    forall i: nat :: Candidate(clen, i, all) ==> n < clen[i]
  }

  /**
    * Reads bits until they are a code. It finds a symbol exactly if some code begins what is left to read,
    * then that symbol, and takes no more than its code.
    */
  method DecodeSymbol(reader: BitReader, inorder: array<nat>, base: array<nat>, limit: array<int>,
                      minLen: nat, maxLen: nat, maxSym: nat, ghost clen: seq<nat>)
    returns (ret: DecodeStatus, sym: nat)
    requires reader.Valid() && TablesFor(clen, inorder[..], base[..], limit[..], minLen, maxLen)
    requires |clen| <= maxSym + 1
    modifies reader`pos, reader`curByte, reader`curMask, reader`k
    ensures reader.Valid()
    ensures ret == Decoded ==>
              && Candidate(clen, sym, old(reader.Rest()))
              && old(reader.Rest()) == CodeBits(clen, sym) + reader.Rest()
    ensures forall i: nat :: Candidate(clen, i, old(reader.Rest())) ==> ret == Decoded && sym == i
  {
    hide *;
    ghost var all := reader.Rest();
    ghost var read: seq<bool> := [];
    var code, bits := 0, 0;
    ret, sym := Corrupt, 0;
    Start(clen, all);
    while true
      invariant reader.Valid() && all == read + reader.Rest()
      invariant bits == |read| <= maxLen && code == BitsValue(read)
      invariant First(clen, bits + 1) <= 2 * code && AllLonger(clen, all, bits)
      decreases |reader.Rest()|
    {
      if reader.curMask == 0x100 && reader.pos == |reader.input| {
        reader.NothingLeft();
        NoneAtEnd(clen, all, bits);
        ret := EndOfInput;
        return;
      }
      if bits == maxLen {
        NoneAtMax(clen, inorder[..], base[..], limit[..], minLen, maxLen, all);
        return;
      }
      reader.SomethingLeft();
      var ok, bit := reader.NextBit();
      bits := bits + 1;
      code := 2 * code + if bit then 1 else 0;
      ReadOne(read, bit);
      read := read + [bit];
      Bounds(clen, inorder[..], base[..], limit[..], minLen, maxLen, bits);
      if bits >= minLen && code <= limit[bits] {
        ghost var found := Stop(clen, inorder[..], base[..], limit[..], minLen, maxLen, all, read);
        if base[bits] <= code {
          var offset := code - base[bits];
          if offset <= maxSym {
            ret, sym := Decoded, inorder[offset];
            return;
          }
        }
        assert false;
        return;
      }
      NotYet(clen, inorder[..], base[..], limit[..], minLen, maxLen, all, read);
    }
  }

  /** Within the codes of the length read, the tables lead to the only candidate. */
  lemma Stop(clen: seq<nat>, inorder: seq<nat>, base: seq<nat>, limit: seq<int>, minLen: nat, maxLen: nat,
             all: seq<bool>, read: seq<bool>) returns (sym: nat)
    requires TablesFor(clen, inorder, base, limit, minLen, maxLen) && minLen <= |read| <= maxLen
    requires |read| < |limit| && First(clen, |read|) <= BitsValue(read) <= limit[|read|]
    requires read <= all && read != [] && AllLonger(clen, all, |read| - 1)
    ensures |read| < |base| && base[|read|] <= BitsValue(read)
    ensures var offset := BitsValue(read) - base[|read|];
            offset < |inorder| && offset < |clen| && inorder[offset] == sym
    ensures Candidate(clen, sym, all) && CodeBits(clen, sym) == read
    ensures forall i: nat :: Candidate(clen, i, all) ==> i == sym
  {
    sym := Found(clen, inorder, base, limit, minLen, maxLen, read);
    OnlyCandidate(clen, all, read, sym);
  }

  lemma Start(clen: seq<nat>, all: seq<bool>)
    ensures BitsValue([]) == 0 && First(clen, 1) == 0
    ensures AllLonger(clen, all, 0)
  {
  }

  /** One more bit doubles the value, so that it stays at or above the first code of its length. */
  lemma ReadOne(read: seq<bool>, bit: bool)
    ensures BitsValue(read + [bit]) == 2 * BitsValue(read) + if bit then 1 else 0
  {
    assert (read + [bit])[..|read|] == read;
  }

  lemma NoneAtEnd(clen: seq<nat>, all: seq<bool>, bits: nat)
    requires bits == |all| && AllLonger(clen, all, bits)
    ensures forall i: nat :: !Candidate(clen, i, all)
  {
  }

  lemma NoneAtMax(clen: seq<nat>, inorder: seq<nat>, base: seq<nat>, limit: seq<int>, minLen: nat, maxLen: nat,
                  all: seq<bool>)
    requires TablesFor(clen, inorder, base, limit, minLen, maxLen)
    requires AllLonger(clen, all, maxLen)
    ensures forall i: nat :: !Candidate(clen, i, all)
  {
  }

  lemma Bounds(clen: seq<nat>, inorder: seq<nat>, base: seq<nat>, limit: seq<int>, minLen: nat, maxLen: nat, n: nat)
    requires TablesFor(clen, inorder, base, limit, minLen, maxLen) && n <= maxLen
    ensures n < |limit| && n < |base|
  {
  }

  /** Reading stops with the one candidate there is. */
  lemma OnlyCandidate(clen: seq<nat>, all: seq<bool>, read: seq<bool>, sym: nat)
    requires read <= all && read != [] && sym < |clen| && clen[sym] == |read| && CodeBits(clen, sym) == read
    requires Code(clen, sym) == BitsValue(read)
    requires AllLonger(clen, all, |read| - 1)
    ensures Candidate(clen, sym, all)
    ensures forall i: nat :: Candidate(clen, i, all) ==> i == sym
  {
    hide First, Count, Code, BitsValue, CodeBits;
    assert Candidate(clen, sym, all);
    assert all[..|read|] == read;
    RankBound(clen, sym);
    forall i: nat | Candidate(clen, i, all) ensures i == sym {
      CandidateStops(clen, i, all, |read|);
      if clen[i] == |read| { CodeDetermines(clen, i, sym); }
    }
  }

  lemma RankBound(clen: seq<nat>, i: nat)
    requires i < |clen|
    ensures Code(clen, i) < First(clen, clen[i]) + Count(clen, clen[i])
  {
    RankInRange(clen, i);
  }

  /** If the bits read so far are no code, every candidate is longer. */
  lemma NotYet(clen: seq<nat>, inorder: seq<nat>, base: seq<nat>, limit: seq<int>, minLen: nat, maxLen: nat,
               all: seq<bool>, read: seq<bool>)
    requires TablesFor(clen, inorder, base, limit, minLen, maxLen) && 0 < |read| <= maxLen && read <= all
    requires !(|read| >= minLen && BitsValue(read) <= limit[|read|])
    requires AllLonger(clen, all, |read| - 1)
    ensures AllLonger(clen, all, |read|)
    ensures First(clen, |read| + 1) <= 2 * BitsValue(read)
  {
    hide BitsValue, Count, Before, Rank;
    var n := |read|;
    assert all[..n] == read;
    FirstStep(clen, n);
    if n < minLen {
      FirstIsZero(clen, n + 1);
    }
    forall i: nat | Candidate(clen, i, all) ensures n < clen[i] {
      CandidateStops(clen, i, all, n);
    }
  }

  // ---------------------------------------------------------------- no two readings

  lemma ShorterCandidate(clen: seq<nat>, i: nat, j: nat, bits: seq<bool>)
    requires Candidate(clen, i, bits) && Candidate(clen, j, bits) && clen[i] <= clen[j]
    ensures i == j
  {
    hide First, Count, Code, BitsValue;
    var n := clen[i];
    assert n <= |bits|;
    CandidateStops(clen, i, bits, n);
    CandidateStops(clen, j, bits, n);
    if clen[j] == n { CodeDetermines(clen, i, j); }
  }

  /** Bits start with the code of one symbol at most, whatever the code lengths. */
  lemma CandidateUnique(clen: seq<nat>, i: nat, j: nat, bits: seq<bool>)
    requires Candidate(clen, i, bits) && Candidate(clen, j, bits)
    ensures i == j
  {
    hide Candidate;
    CandidateIs(clen, i, bits);
    CandidateIs(clen, j, bits);
    if clen[i] <= clen[j] {
      ShorterCandidate(clen, i, j, bits);
    } else {
      ShorterCandidate(clen, j, i, bits);
    }
  }

  lemma CandidateIs(clen: seq<nat>, i: nat, bits: seq<bool>)
    requires Candidate(clen, i, bits)
    ensures i < |clen|
  {
  }
}
