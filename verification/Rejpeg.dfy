/** The coded form of an image's literal blocks (`rejpeg.c`), written and read back. */
module Rejpeg {
  import opened Common
  import opened ImageIndex
  import opened LiteralRle
  import opened LiteralVli

  // ---------------------------------------------------------------- rleEncode

  /** The first `n` entries of the arrays are these symbols. */
  ghost predicate Hold(length: array<nat>, value: array<int>, syms: seq<Sym>)
    reads length, value
  {
    && |syms| <= length.Length && |syms| <= value.Length
    && forall i :: 0 <= i < |syms| ==> length[i] == syms[i].run && value[i] == syms[i].value
  }

  /** Stores one symbol. */
  method Emit(length: array<nat>, value: array<int>, at: nat, run: nat, v: int, ghost syms: seq<Sym>)
    requires Hold(length, value, syms) && at == |syms| < length.Length == value.Length
    modifies length, value
    ensures Hold(length, value, syms + [Sym(run, v)])
  {
    value[at] := v;
    length[at] := run;
  }

  /** The index of the last non-zero coefficient. */
  method FindLast(ptr: array<int>) returns (h: int)
    requires ptr.Length == 64
    ensures h == LastNonzero(ptr[..], 64)
  {
    h := 63;
    while h >= 0
      invariant -1 <= h <= 63 && LastNonzero(ptr[..], 64) == LastNonzero(ptr[..], h + 1)
    {
      if ptr[h] != 0 {
        break;
      }
      h := h - 1;
    }
  }

  /** The symbols of one block, whose coefficients are in coded order. */
  method EncodeBlock(ptr: array<int>, length: array<nat>, value: array<int>, lenLen: nat, ghost syms: seq<Sym>)
    returns (lenLen': nat)
    requires ptr.Length == 64 && length.Length == value.Length && ptr != value
    requires Hold(length, value, syms) && lenLen == |syms| && |BlockSyms(ptr[..], syms)| <= length.Length
    modifies length, value
    ensures Hold(length, value, BlockSyms(old(ptr[..]), syms)) && lenLen' == |BlockSyms(old(ptr[..]), syms)|
  {
    hide Hold, Runs, LastNonzero;
    ghost var z := ptr[..];
    lenLen' := lenLen;
    var h := FindLast(ptr);
    var zeroCounter, j := 0, 0;
    ghost var acc := syms;
    while j <= h
      invariant j <= h + 1 && Hold(length, value, acc) && lenLen' == |acc| && ptr[..] == z
      invariant Runs(z, j, h, zeroCounter, acc) == Runs(z, 0, h, 0, syms)
      decreases h + 1 - j
    {
      RunsNext(z, j, h, zeroCounter, acc);
      if ptr[j] != 0 {
        Emit(length, value, lenLen', zeroCounter, ptr[j], acc);
        acc, lenLen' := acc + [Sym(zeroCounter, z[j])], lenLen' + 1;
        zeroCounter := 0;
      } else if zeroCounter == 15 {
        Emit(length, value, lenLen', 15, 0, acc);
        acc, lenLen' := acc + [Sym(15, 0)], lenLen' + 1;
        zeroCounter := 0;
      } else {
        zeroCounter := zeroCounter + 1;
      }
      j := j + 1;
    }
    RunsOver(z, j, h, zeroCounter, acc);
    if h < 63 {
      Emit(length, value, lenLen', 0, 0, acc);
      lenLen' := lenLen' + 1;
    } else {
      assert acc + [] == acc;
    }
  }

  /** Later blocks only add symbols. */
  lemma {:induction false} SymsGrow(blocks: seq<Block>, m: nat, n: nat)
    requires m <= n <= |blocks| && AllSize64(blocks)
    ensures |Syms(blocks, m)| <= |Syms(blocks, n)|
  {
    hide Differenced, Runs, LastNonzero;
    if m < n {
      SymsGrow(blocks, m, n - 1);
      var z := Differenced(blocks[n - 1], DcBefore(blocks, n - 1));
      RunsKeep(z, 0, LastNonzero(z, 64), 0, Syms(blocks, n - 1));
    }
  }

  /** One block after the others: zigzag, DC difference, symbols. */
  method EncodeNext(blocks: seq<Block>, i: nat, lastDC: int, length: array<nat>, value: array<int>, lenLen: nat)
    returns (lenLen': nat, thisDC: int)
    requires AllSize64(blocks) && i < |blocks| && lastDC == DcBefore(blocks, i)
    requires length.Length == value.Length && |Syms(blocks, |blocks|)| <= length.Length
    requires Hold(length, value, Syms(blocks, i)) && lenLen == |Syms(blocks, i)|
    modifies length, value
    ensures Hold(length, value, Syms(blocks, i + 1)) && lenLen' == |Syms(blocks, i + 1)|
    ensures thisDC == DcBefore(blocks, i + 1)
  {
    hide BlockSyms, Hold, ZigzagOf;
    SymsGrow(blocks, i + 1, |blocks|);
    FirstStays(blocks[i]);
    var ptr := Zigzag(blocks[i]);
    thisDC := ptr[0];
    ptr[0] := thisDC - lastDC;
    assert ptr[..] == Differenced(blocks[i], lastDC);
    lenLen' := EncodeBlock(ptr, length, value, lenLen, Syms(blocks, i));
  }

  /** `rleEncode`: at most 64 symbols a block, which the arrays have room for. */
  method RleEncode(blocks: seq<Block>) returns (length: array<nat>, value: array<int>, lenLen: nat)
    requires AllSize64(blocks) && InRange(blocks, MAX_VALUE)
    ensures fresh(length) && fresh(value) && length.Length == value.Length == 64 * |blocks|
    ensures Hold(length, value, Syms(blocks, |blocks|)) && lenLen == |Syms(blocks, |blocks|)|
  {
    length, value, lenLen := new nat[64 * |blocks|], new int[64 * |blocks|], 0;
    var lastDC := 0;
    SymsBound(blocks, |blocks|, MAX_VALUE);
    NoSyms(length, value, blocks);
    hide Syms, Hold, InRange, DcBefore;
    for i := 0 to |blocks|
      invariant Hold(length, value, Syms(blocks, i)) && lenLen == |Syms(blocks, i)| && lastDC == DcBefore(blocks, i)
    {
      lenLen, lastDC := EncodeNext(blocks, i, lastDC, length, value, lenLen);
    }
  }

  lemma NoSyms(length: array<nat>, value: array<int>, blocks: seq<Block>)
    requires AllSize64(blocks)
    ensures Hold(length, value, Syms(blocks, 0)) && |Syms(blocks, 0)| == 0 && DcBefore(blocks, 0) == 0
  {
  }

  // ---------------------------------------------------------------- rleDecode

  /** The symbols that length bytes and values stand for. */
  function SymsOf(length: seq<nat>, value: seq<int>): (syms: seq<Sym>)
    requires |length| == |value|
    ensures |syms| == |length|
  {
    seq(|length|, i requires 0 <= i < |length| => Sym(length[i] / 16, value[i]))
  }

  lemma {:induction false} FromSymsPrefix(syms: seq<Sym>, i: nat)
    requires i < |syms| && FromSyms(syms).Some?
    ensures FromSyms(syms[..i]).Some? && FromSyms(syms[..i + 1]).Some?
    ensures FromSyms(syms[..i + 1]) == StepSym(FromSyms(syms[..i]).value, syms[i])
    ensures |FromSyms(syms[..i]).value.done| <= i && |FromSyms(syms[..i]).value.cur| < 64
    decreases |syms| - i
  {
    hide StepSym;
    var n := |syms| - 1;
    if i < n {
      assert syms[..i + 1][..i] == syms[..i];
      FromSymsPrefix(syms, i + 1);
      assert FromSyms(syms[..i + 1]) == StepSym(FromSyms(syms[..i]).value, syms[i]);
      StepDone(FromSyms(syms[..i]).value, syms[i]);
    } else {
      assert syms[..i + 1] == syms;
      StepDone(FromSyms(syms[..i]).value, syms[i]);
    }
    DoneBound(syms[..i]);
  }

  lemma StepDone(st: RleState, sym: Sym)
    requires StepSym(st, sym).Some?
    ensures |st.cur| < 64 && |StepSym(st, sym).value.done| <= |st.done| + 1
  {
    hide Unzigzag;
  }

  lemma {:induction false} DoneBound(syms: seq<Sym>)
    requires FromSyms(syms).Some?
    ensures |FromSyms(syms).value.done| <= |syms|
  {
    hide StepSym;
    if syms != [] {
      DoneBound(syms[..|syms| - 1]);
      StepDone(FromSyms(syms[..|syms| - 1]).value, syms[|syms| - 1]);
    }
  }

  /** Where the decoder stands: the current block's coefficients end at `dctPtr`, and what follows is clear. */
  ghost predicate Standing(dct: seq<int>, dctPtr: nat, blockLeft: nat, zigzagged: seq<Block>, lastDC: int, st: RleState) {
    && |st.cur| < 64 && blockLeft == 64 - |st.cur| && dctPtr == 64 * |st.done| + |st.cur| <= |dct|
    && dct[dctPtr - |st.cur|..dctPtr] == st.cur
    && (forall k :: dctPtr <= k < |dct| ==> dct[k] == 0)
    && zigzagged == st.done && lastDC == st.lastDC
  }

  /** Completes the block when `blockLeft` has come to 0. */
  method FinishBlock(dct: array<int>, dctPtr: nat, blockLeft: nat, zigzagged: seq<Block>, lastDC: int,
                     ghost done: seq<Block>, ghost cur: seq<int>)
    returns (blockLeft': nat, zigzagged': seq<Block>, lastDC': int)
    requires 0 < |cur| <= 64 && blockLeft == 64 - |cur| && dctPtr == 64 * |done| + |cur| <= dct.Length
    requires dct[dctPtr - |cur|..dctPtr] == cur && zigzagged == done
    requires forall k :: dctPtr <= k < dct.Length ==> dct[k] == 0
    modifies dct
    ensures Standing(dct[..], dctPtr, blockLeft', zigzagged', lastDC', Finish(done, cur, lastDC))
  {
    hide Unzigzag;
    blockLeft', zigzagged', lastDC' := blockLeft, zigzagged, lastDC;
    if blockLeft == 0 {
      blockLeft' := 64;
      dct[dctPtr - 64] := dct[dctPtr - 64] + lastDC;
      lastDC' := dct[dctPtr - 64];
      assert dct[dctPtr - 64..dctPtr] == cur[0 := cur[0] + lastDC];
      zigzagged' := zigzagged + [Unzigzag(dct[dctPtr - 64..dctPtr])];
    }
  }

  /** One symbol. */
  method DecodeSym(dct: array<int>, dctPtr: nat, blockLeft: nat, zigzagged: seq<Block>, lastDC: int,
                   run: nat, v: int, ghost st: RleState)
    returns (dctPtr': nat, blockLeft': nat, zigzagged': seq<Block>, lastDC': int)
    requires Standing(dct[..], dctPtr, blockLeft, zigzagged, lastDC, st) && 64 * |st.done| + 64 <= dct.Length
    requires StepSym(st, Sym(run, v)).Some?
    modifies dct
    ensures Standing(dct[..], dctPtr', blockLeft', zigzagged', lastDC', StepSym(st, Sym(run, v)).value)
  {
    hide Finish;
    dctPtr', blockLeft' := dctPtr, blockLeft;
    ghost var cur := st.cur;
    ghost var from := dctPtr - |cur|;
    if run > 0 || v != 0 {
      dctPtr' := dctPtr + run;
      dct[dctPtr'] := v;
      dctPtr' := dctPtr' + 1;
      blockLeft' := blockLeft - (run + 1);
      cur := cur + Zeros(run) + [v];
    } else {
      dctPtr' := dctPtr + blockLeft;
      blockLeft' := 0;
      cur := cur + Zeros(64 - |cur|);
    }
    CurrentIs(old(dct[..]), dct[..], from, st.cur, dctPtr', cur);
    blockLeft', zigzagged', lastDC' := FinishBlock(dct, dctPtr', blockLeft', zigzagged, lastDC, st.done, cur);
  }

  lemma CurrentIs(before: seq<int>, after: seq<int>, from: nat, was: seq<int>, to: nat, cur: seq<int>)
    requires from + |was| <= to == from + |cur| <= |after| == |before| && before[from..from + |was|] == was
    requires forall i :: 0 <= i < |was| ==> cur[i] == was[i] && after[from + i] == before[from + i]
    requires forall i, k :: |was| <= i < |cur| && k == from + i ==> after[k] == cur[i]
    ensures after[from..to] == cur
  {
    forall i | 0 <= i < |cur| ensures after[from..to][i] == cur[i] {
      if i < |was| { assert before[from..from + |was|][i] == was[i]; }
    }
  }

  /** `rleDecode`. */
  method RleDecode(length: seq<nat>, value: seq<int>) returns (blocks: seq<Block>)
    requires |length| == |value| && FromSyms(SymsOf(length, value)).Some?
    ensures blocks == FromSyms(SymsOf(length, value)).value.done
  {
    hide FromSyms, StepSym, Standing;
    ghost var syms := SymsOf(length, value);
    var dct := new int[64 * |length|](_ => 0);
    var dctPtr, blockLeft, lastDC := 0, 64, 0;
    blocks := [];
    StartStanding(dct[..], syms);
    for i := 0 to |length|
      invariant FromSyms(syms[..i]).Some?
      invariant Standing(dct[..], dctPtr, blockLeft, blocks, lastDC, FromSyms(syms[..i]).value)
    {
      FromSymsPrefix(syms, i);
      dctPtr, blockLeft, blocks, lastDC := DecodeSym(dct, dctPtr, blockLeft, blocks, lastDC, length[i] / 16, value[i],
                                                     FromSyms(syms[..i]).value);
    }
    assert syms[..|length|] == syms;
    StandingDone(dct[..], dctPtr, blockLeft, blocks, lastDC, FromSyms(syms).value);
  }

  lemma StartStanding(dct: seq<int>, syms: seq<Sym>)
    requires forall k :: 0 <= k < |dct| ==> dct[k] == 0
    ensures FromSyms(syms[..0]).Some? && Standing(dct, 0, 64, [], 0, FromSyms(syms[..0]).value)
  {
  }

  lemma StandingDone(dct: seq<int>, dctPtr: nat, blockLeft: nat, zigzagged: seq<Block>, lastDC: int, st: RleState)
    requires Standing(dct, dctPtr, blockLeft, zigzagged, lastDC, st)
    ensures zigzagged == st.done
  {
  }

  // ---------------------------------------------------------------- the format

  /** The entropy coder (`entropy_compress`), unknown but for what its callers rely on. */
  datatype Entropy = Entropy(compress: (seq<byte>, nat) -> seq<byte>,
                             decompress: (seq<byte>, nat) -> Option<seq<byte>>)
  {
    /**
      * It returns nothing or what fits; nothing for one byte repeated; else at least two bytes, two fewer than it was
      * given. Decoding inverts it whenever the output has room.
      */
    ghost predicate Sound() {
      && (forall s, cap :: |compress(s, cap)| <= cap && (Uniform(s) ==> compress(s, cap) == []))
      && (forall s, cap :: compress(s, cap) != [] ==> 2 <= |compress(s, cap)| < |s| - 1)
      && forall s, cap :: compress(s, cap) != [] ==>
           forall room :: decompress(compress(s, cap), room) == if |s| <= room then Some(s) else None
    }

    /** What it codes shrinks to no less than 1024th. */
    ghost predicate Moderate() {
      forall s, cap :: compress(s, cap) != [] ==> |s| <= 1024 * |compress(s, cap)|
    }
  }

  /** All bytes are the same. */
  ghost predicate Uniform(s: seq<byte>) {
    forall i :: 0 <= i < |s| ==> s[i] == s[0]
  }

  /** A 32-bit number, lowest byte first. */
  function Le32(v: nat): (s: seq<byte>)
    requires v < 0x1_0000_0000
    ensures |s| == 4
  {
    [v % 256, v / 256 % 256, v / 65536 % 256, v / 16777216]
  }

  function FromLe32(s: seq<byte>): nat
    requires |s| == 4
  {
    s[0] as int + 256 * s[1] as int + 65536 * s[2] as int + 16777216 * s[3] as int
  }

  lemma Le32RoundTrip(v: nat)
    requires v < 0x1_0000_0000
    ensures FromLe32(Le32(v)) == v
    ensures var s := Le32(v);
            s[0] as int + 256 * s[1] as int + 65536 * s[2] as int + 16777216 * s[3] as int == v
  {
  }

  /** 16-bit words, each lowest byte first. */
  function WordBytes(words: seq<nat>): (s: seq<byte>)
    requires Words16(words)
    ensures |s| == 2 * |words|
  {
    if words == [] then [] else
      var w := words[|words| - 1];
      WordBytes(words[..|words| - 1]) + [w % 256, w / 256]
  }

  lemma {:induction false} WordBytesAt(words: seq<nat>, i: nat)
    requires Words16(words) && i < |words|
    ensures WordBytes(words)[2 * i] as int + 256 * WordBytes(words)[2 * i + 1] as int == words[i]
  {
    if i < |words| - 1 { WordBytesAt(words[..|words| - 1], i); }
  }

  function BytesWords(s: seq<byte>, n: nat): (words: seq<nat>)
    requires |s| == 2 * n
    ensures |words| == n
  {
    if n == 0 then [] else
      var w: nat := s[2 * n - 2] as int + 256 * s[2 * n - 1] as int;
      BytesWords(s[..2 * n - 2], n - 1) + [w]
  }

  lemma {:induction false} WordBytesRoundTrip(words: seq<nat>)
    requires Words16(words)
    ensures BytesWords(WordBytes(words), |words|) == words
  {
    if words != [] {
      var n := |words|;
      WordBytesRoundTrip(words[..n - 1]);
      assert WordBytes(words)[..2 * n - 2] == WordBytes(words[..n - 1]);
    }
  }

  /** A length byte: run above, bit length of the value below. */
  function LengthByte(sym: Sym): (b: byte)
    requires SymFits(sym, MAX_VALUE)
    ensures Codable(sym.value) && b / 16 == sym.run && b % 16 == BitLength(sym.value)
  {
    sym.run * 16 + BitLength(sym.value)
  }

  function LengthBytes(syms: seq<Sym>): (s: seq<byte>)
    requires forall i :: 0 <= i < |syms| ==> SymFits(syms[i], MAX_VALUE)
    ensures |s| == |syms|
  {
    seq(|syms|, i requires 0 <= i < |syms| && SymFits(syms[i], MAX_VALUE) => LengthByte(syms[i]))
  }

  function Values(syms: seq<Sym>): (v: seq<int>)
    ensures |v| == |syms|
  {
    seq(|syms|, i requires 0 <= i < |syms| => syms[i].value)
  }

  /** Value size, values, flag, length size, lengths. */
  function Layout(words: seq<nat>, flag: byte, tail: seq<byte>): (buf: seq<byte>)
    requires Words16(words) && 2 * |words| < 0x1_0000_0000 && |tail| < 0x1_0000_0000
    ensures |buf| == 9 + 2 * |words| + |tail|
  {
    Le32(2 * |words|) + WordBytes(words) + [flag] + Le32(|tail|) + tail
  }

  // ---------------------------------------------------------------- what is stored

  /** Blocks that can be coded: 12 bits suffice for every value, and 32 bits for every size. */
  ghost predicate Storable(blocks: seq<Block>) {
    AllSize64(blocks) && InRange(blocks, MAX_VALUE) && 256 * |blocks| < 0x8000_0000
  }

  ghost predicate AllFit(syms: seq<Sym>) {
    forall i :: 0 <= i < |syms| ==> SymFits(syms[i], MAX_VALUE)
  }

  /** All symbols of the blocks. */
  ghost function SymsOfAll(blocks: seq<Block>): (syms: seq<Sym>)
    requires Storable(blocks)
    ensures AllFit(syms) && |blocks| <= |syms| <= 64 * |blocks|
  {
    SymsBound(blocks, |blocks|, MAX_VALUE);
    Syms(blocks, |blocks|)
  }

  /** Their length bytes. */
  ghost function LengthsOf(blocks: seq<Block>): (s: seq<byte>)
    requires Storable(blocks)
    ensures |blocks| <= |s| <= 64 * |blocks|
  {
    LengthBytes(SymsOfAll(blocks))
  }

  lemma SymsCodable(syms: seq<Sym>)
    requires AllFit(syms)
    ensures AllCodable(Values(syms)) && |Stream(Values(syms))| <= 12 * |syms|
  {
    hide Stream;
  }

  /** The words of their values, at most 48 a block. */
  ghost function WordsFor(blocks: seq<Block>): (words: seq<nat>)
    requires Storable(blocks) && blocks != []
    ensures Words16(words) && |words| <= 48 * |blocks|
  {
    SymsCodable(SymsOfAll(blocks));
    WordsHold(Stream(Values(SymsOfAll(blocks))));
    WordsOf(Stream(Values(SymsOfAll(blocks))))
  }

  /** How length bytes are stored: 1 and their entropy coded form, or 0 and the bytes themselves. */
  datatype Tail = Tail(flag: byte, bytes: seq<byte>)

  /** In `room` bytes: coded when the coder manages to, otherwise as they are when they fit. */
  function TailIn(lengths: seq<byte>, room: nat, codec: Entropy): Option<Tail> {
    var packed := codec.compress(lengths, room);
    if packed != [] then Some(Tail(1, packed))
    else if |lengths| <= room then Some(Tail(0, lengths))
    else None
  }

  /** What a buffer leaves for the length bytes. */
  ghost function RoomFor(blocks: seq<Block>, bufSize: nat): nat
    requires Storable(blocks) && blocks != [] && 128 * |blocks| <= bufSize
  {
    bufSize - 9 - 2 * |WordsFor(blocks)|
  }

  ghost function TailAt(blocks: seq<Block>, bufSize: nat, codec: Entropy): Option<Tail>
    requires Storable(blocks) && blocks != [] && 128 * |blocks| <= bufSize
  {
    TailIn(LengthsOf(blocks), RoomFor(blocks, bufSize), codec)
  }

  /** The lengths fit the second buffer even as they are. */
  lemma SecondSucceeds(blocks: seq<Block>, codec: Entropy)
    requires Storable(blocks) && blocks != []
    ensures TailAt(blocks, 256 * |blocks|, codec).Some?
  {
    hide Storable, LengthsOf, WordsFor;
  }

  /** What becomes of the length bytes: a buffer of 128 bytes a block is tried first, then one of twice that. */
  ghost function StoredTail(blocks: seq<Block>, codec: Entropy): Tail
    requires Storable(blocks) && blocks != []
  {
    match TailAt(blocks, 128 * |blocks|, codec)
    case Some(tail) => tail
    case None =>
      SecondSucceeds(blocks, codec);
      TailAt(blocks, 256 * |blocks|, codec).value
  }

  /**
    * The lengths are stored coded just when the coder manages it in what 128 bytes a block leave, or in what 256 leave
    * after the lengths themselves did not fit.
    */
  lemma StoredTailIs(blocks: seq<Block>, codec: Entropy)
    requires Storable(blocks) && blocks != []
    ensures var lengths, used := LengthsOf(blocks), 9 + 2 * |WordsFor(blocks)|;
            var first := codec.compress(lengths, 128 * |blocks| - used);
            var second := codec.compress(lengths, 256 * |blocks| - used);
            && (StoredTail(blocks, codec).flag == 1 <==>
                  first != [] || (second != [] && |lengths| + used > 128 * |blocks|))
            && StoredTail(blocks, codec).bytes ==
                 if first != [] then first
                 else if second != [] && |lengths| + used > 128 * |blocks| then second else lengths
  {
    hide Storable, LengthsOf, WordsFor;
    SecondSucceeds(blocks, codec);
  }

  lemma TailMeans(lengths: seq<byte>, room: nat, codec: Entropy)
    requires codec.Sound() && TailIn(lengths, room, codec).Some?
    ensures var t := TailIn(lengths, room, codec).value;
            && |t.bytes| <= room && (t.flag == 0 || t.flag == 1)
            && (t.flag == 0 ==> t.bytes == lengths)
            && (t.flag == 1 ==> 2 <= |t.bytes| < |lengths| && !Uniform(lengths))
            && (t.flag == 1 ==> forall n: nat :: codec.decompress(t.bytes, n) ==
                                                 if |lengths| <= n then Some(lengths) else None)
  {
  }

  /** The stored lengths can be had back, given room. */
  lemma StoredTailMeans(blocks: seq<Block>, codec: Entropy)
    requires Storable(blocks) && blocks != [] && codec.Sound()
    ensures var t := StoredTail(blocks, codec);
            && |t.bytes| <= 256 * |blocks| && (t.flag == 0 || t.flag == 1)
            && (t.flag == 0 ==> t.bytes == LengthsOf(blocks))
            && (t.flag == 1 ==> 2 <= |t.bytes| < |LengthsOf(blocks)| && !Uniform(LengthsOf(blocks)))
            && (t.flag == 1 ==> forall n: nat :: codec.decompress(t.bytes, n) ==
                                                 if |LengthsOf(blocks)| <= n then Some(LengthsOf(blocks)) else None)
  {
    hide Storable, LengthsOf, WordsFor, TailIn, Entropy.Sound;
    SecondSucceeds(blocks, codec);
    if TailAt(blocks, 128 * |blocks|, codec).Some? {
      TailMeans(LengthsOf(blocks), RoomFor(blocks, 128 * |blocks|), codec);
    } else {
      TailMeans(LengthsOf(blocks), RoomFor(blocks, 256 * |blocks|), codec);
    }
  }

  /** The coded form of blocks. */
  ghost function CodedBlocks(blocks: seq<Block>, codec: Entropy): (buf: seq<byte>)
    requires Storable(blocks) && blocks != [] && codec.Sound()
  {
    StoredTailMeans(blocks, codec);
    Layout(WordsFor(blocks), StoredTail(blocks, codec).flag, StoredTail(blocks, codec).bytes)
  }

  // ---------------------------------------------------------------- writing

  /** `rleEncode` and `vliEncode`: the length bytes and the words of values. */
  method EncodeLiterals(blocks: seq<Block>) returns (lengths: seq<byte>, words: seq<nat>)
    requires Storable(blocks) && blocks != []
    ensures lengths == LengthsOf(blocks) && words == WordsFor(blocks)
  {
    hide Syms, InRange, AllCodable, Stream, WordsOf, BitLength;
    var length, value, lenLen := RleEncode(blocks);
    ghost var syms := SymsOfAll(blocks);
    SymsCodable(syms);
    assert value[..lenLen] == Values(syms);
    EnoughWords(|Stream(Values(syms))|, |syms|, |blocks|);
    var data := new nat[48 * |blocks|](_ => 0);
    var valLen := VliEncode(length, value, lenLen, data);
    words := data[..valLen];
    LengthsSet(length, syms);
    lengths := ToBytes(length, lenLen, syms);
  }

  lemma EnoughWords(bits: nat, syms: nat, blocks: nat)
    requires bits <= 12 * syms && syms <= 64 * blocks
    ensures bits <= 16 * (48 * blocks)
  {
  }

  lemma LengthsSet(length: array<nat>, syms: seq<Sym>)
    requires |syms| <= length.Length && AllFit(syms)
    requires forall i :: 0 <= i < |syms| ==> Codable(syms[i].value) && length[i] == syms[i].run * 16 + BitLength(syms[i].value)
    ensures forall i :: 0 <= i < |syms| ==> length[i] == LengthByte(syms[i])
  {
    hide BitLength;
  }

  /** The length bytes as bytes. */
  method ToBytes(length: array<nat>, lenLen: nat, ghost syms: seq<Sym>) returns (lengths: seq<byte>)
    requires lenLen == |syms| <= length.Length && AllFit(syms)
    requires forall i :: 0 <= i < lenLen ==> length[i] == LengthByte(syms[i])
    ensures lengths == LengthBytes(syms)
  {
    hide LengthByte, SymFits;
    lengths := [];
    for i := 0 to lenLen
      invariant |lengths| == i && forall k :: 0 <= k < i ==> lengths[k] == LengthByte(syms[k])
    {
      lengths := lengths + [length[i]];
    }
    assert lengths == LengthBytes(syms);
  }

  /** `recompressed_by_myjpeg`: fails exactly when the lengths neither compress into the room left nor fit it. */
  method Recompress(blocks: seq<Block>, bufSize: nat, codec: Entropy) returns (ok: bool, buf: seq<byte>)
    requires Storable(blocks) && blocks != [] && codec.Sound() && 128 * |blocks| <= bufSize < 0x8000_0000
    ensures ok <==> TailAt(blocks, bufSize, codec).Some?
    ensures ok ==> var t := TailAt(blocks, bufSize, codec).value;
                   |t.bytes| < 0x1_0000_0000 && buf == Layout(WordsFor(blocks), t.flag, t.bytes) && |buf| <= bufSize
  {
    hide Storable, LengthsOf, WordsFor, Layout;
    var lengths, vals := EncodeLiterals(blocks);
    ok, buf := false, [];
    var size := 4 + 2 * |vals| + 5;
    var packed := codec.compress(lengths, bufSize - size);
    if |packed| > 0 {
      ok, buf := true, Layout(vals, 1, packed);
    } else if |lengths| <= bufSize - size {
      ok, buf := true, Layout(vals, 0, lengths);
    }
  }

  /** `rejpeg_a_single_img`: tries 128 bytes a block, then twice that, which always is enough. No literals, no buffer. */
  method RejpegImage(blocks: seq<Block>, codec: Entropy) returns (buf: Option<seq<byte>>, tries: nat)
    requires Storable(blocks) && codec.Sound()
    ensures blocks == [] ==> buf == None && tries == 0
    ensures blocks != [] ==> buf == Some(CodedBlocks(blocks, codec)) && |buf.value| <= 256 * |blocks|
    ensures blocks != [] ==> tries == if TailAt(blocks, 128 * |blocks|, codec).Some? then 1 else 2
  {
    hide Storable, Layout, Entropy.Sound, TailAt, WordsFor;
    var bfSize := 128 * |blocks|;
    buf, tries := None, 0;
    while bfSize > 0
      invariant buf == None && (blocks == [] ==> bfSize == 0)
      invariant tries == 0 ==> bfSize == 128 * |blocks|
      invariant tries == 1 ==> bfSize == 256 * |blocks| && blocks != [] && TailAt(blocks, 128 * |blocks|, codec) == None
      invariant tries < 2 && (blocks == [] ==> tries == 0)
      decreases 2 - tries
    {
      FitsSigned(blocks);
      SecondSucceeds(blocks, codec);
      var ok, bytes := Recompress(blocks, bfSize, codec);
      tries := tries + 1;
      if ok {
        buf := Some(bytes);
        break;
      }
      bfSize := bfSize * 2;
    }
  }

  lemma FitsSigned(blocks: seq<Block>)
    requires Storable(blocks)
    ensures 256 * |blocks| < 0x8000_0000
  {
  }

  // ---------------------------------------------------------------- reading it back

  /** Room for the lengths when they are entropy coded: 1024 times their coded size, in 32 bits. */
  function LengthRoom(lenSize: nat): nat {
    lenSize * 1024 % 0x1_0000_0000
  }

  /** Whether the decoder gives the lengths of these blocks the room that they need. */
  ghost predicate Readable(blocks: seq<Block>, codec: Entropy)
    requires Storable(blocks)
  {
    blocks == []
    || StoredTail(blocks, codec).flag == 0
    || |LengthsOf(blocks)| <= LengthRoom(|StoredTail(blocks, codec).bytes|)
  }

  /** `decode_myjpeg`; `None` stands for lengths that did not decompress. */
  method DecodeMyjpeg(inD: seq<byte>, codec: Entropy, ghost blocks: seq<Block>) returns (result: Option<seq<Block>>)
    requires Storable(blocks) && blocks != [] && codec.Sound() && inD == CodedBlocks(blocks, codec)
    ensures result == if Readable(blocks, codec) then Some(blocks) else None
  {
    hide *;
    LayoutParts(blocks, codec);
    StoredTailMeans(blocks, codec);
    var valSize := FromLe32(inD[..4]);
    var ptr := 4 + valSize;
    var vals := BytesWords(inD[4..ptr], valSize / 2);
    var ifCmpd := inD[ptr];
    var lenSize := FromLe32(inD[ptr + 1..ptr + 5]);
    var len := inD[ptr + 5..];
    var lengths := Some(len);
    if ifCmpd != 0 {
      lengths := codec.decompress(len, LengthRoom(lenSize));
    }
    ReadableMeans(blocks, codec);
    match lengths
    case None => result := None;
    case Some(length) =>
      LiteralsAre(blocks);
      var value := VliDecode(length, vals, Values(SymsOfAll(blocks)));
      SymbolsAre(blocks);
      var out := RleDecode(length, value);
      result := Some(out);
  }

  lemma ReadableMeans(blocks: seq<Block>, codec: Entropy)
    requires Storable(blocks) && blocks != []
    ensures Readable(blocks, codec) <==>
              StoredTail(blocks, codec).flag == 0
              || |LengthsOf(blocks)| <= LengthRoom(|StoredTail(blocks, codec).bytes|)
  {
    hide Storable, StoredTail, LengthsOf, LengthRoom;
  }

  /** Where the parts of the coded form are. */
  lemma LayoutParts(blocks: seq<Block>, codec: Entropy)
    requires Storable(blocks) && blocks != [] && codec.Sound()
    ensures var inD, words, t := CodedBlocks(blocks, codec), WordsFor(blocks), StoredTail(blocks, codec);
            && |inD| == 9 + 2 * |words| + |t.bytes|
            && FromLe32(inD[..4]) == 2 * |words|
            && BytesWords(inD[4..4 + 2 * |words|], |words|) == words
            && inD[4 + 2 * |words|] == t.flag
            && FromLe32(inD[4 + 2 * |words| + 1..4 + 2 * |words| + 5]) == |t.bytes|
            && inD[4 + 2 * |words| + 5..] == t.bytes
  {
    hide *;
    UseLayout(blocks, codec);
    var words, t := WordsFor(blocks), StoredTail(blocks, codec);
    Le32RoundTrip(2 * |words|);
    Le32RoundTrip(|t.bytes|);
    WordBytesRoundTrip(words);
    FiveParts(Le32(2 * |words|), WordBytes(words), [t.flag], Le32(|t.bytes|), t.bytes);
  }

  lemma UseLayout(blocks: seq<Block>, codec: Entropy)
    requires Storable(blocks) && blocks != [] && codec.Sound()
    ensures var words, t := WordsFor(blocks), StoredTail(blocks, codec);
            && 2 * |words| < 0x1_0000_0000 && |t.bytes| < 0x1_0000_0000
            && CodedBlocks(blocks, codec) == Le32(2 * |words|) + WordBytes(words) + [t.flag] + Le32(|t.bytes|) + t.bytes
  {
    hide Le32, WordBytes, WordsFor, StoredTail, LengthsOf, InRange;
    StoredTailMeans(blocks, codec);
  }

  lemma FiveParts(a: seq<byte>, b: seq<byte>, c: seq<byte>, d: seq<byte>, e: seq<byte>)
    requires |a| == 4 && |c| == 1 && |d| == 4
    ensures var all := a + b + c + d + e;
            && all[..4] == a && all[4..4 + |b|] == b && all[4 + |b|] == c[0]
            && all[4 + |b| + 1..4 + |b| + 5] == d && all[4 + |b| + 5..] == e
  {
  }

  /** The length bytes have the lengths of the values, whose bits the words hold. */
  lemma LiteralsAre(blocks: seq<Block>)
    requires Storable(blocks) && blocks != []
    ensures var length, values, words := LengthsOf(blocks), Values(SymsOfAll(blocks)), WordsFor(blocks);
            && |length| == |values| && values != [] && AllCodable(values)
            && (forall i :: 0 <= i < |values| ==> length[i] % 16 == BitLength(values[i]))
            && words == WordsOf(Stream(values))
            && words != [] && Words16(words) && Stream(values) <= WordBits(words)
  {
    hide Syms, InRange, BitLength, Stream, WordBits, LengthByte, WordsOf;
    SymsCodable(SymsOfAll(blocks));
    WordsHold(Stream(Values(SymsOfAll(blocks))));
  }

  lemma SymbolsAre(blocks: seq<Block>)
    requires Storable(blocks)
    ensures |LengthsOf(blocks)| == |Values(SymsOfAll(blocks))|
    ensures SymsOf(LengthsOf(blocks), Values(SymsOfAll(blocks))) == SymsOfAll(blocks)
    ensures FromSyms(SymsOfAll(blocks)) == Some(RleState(blocks, [], DcBefore(blocks, |blocks|)))
  {
    hide Syms, BitLength, FromSyms, LengthByte;
    SymsDecode(blocks, |blocks|);
    assert blocks[..|blocks|] == blocks;
    assert SymsOf(LengthsOf(blocks), Values(SymsOfAll(blocks))) == SymsOfAll(blocks);
  }

  /** Writing literal blocks and reading them back: they come back exactly when the lengths get room enough. */
  method RoundTrip(blocks: seq<Block>, codec: Entropy) returns (buf: seq<byte>, result: Option<seq<Block>>)
    requires Storable(blocks) && blocks != [] && codec.Sound()
    ensures buf == CodedBlocks(blocks, codec)
    ensures result == if Readable(blocks, codec) then Some(blocks) else None
  {
    hide *;
    var coded, tries := RejpegImage(blocks, codec);
    buf := coded.value;
    result := DecodeMyjpeg(buf, codec, blocks);
  }

  // ---------------------------------------------------------------- when blocks can be read back

  /** A coder that packs `s` into two bytes, and gives up on everything else. */
  function Terse(s: seq<byte>): Entropy {
    Entropy((t: seq<byte>, cap: nat) => if t == s && 2 <= cap then [0, 0] else [],
            (c: seq<byte>, room: nat) => if c == [0, 0] && |s| <= room then Some(s) else None)
  }

  lemma TerseIsSound(s: seq<byte>)
    requires |s| > 3 && !Uniform(s)
    ensures Terse(s).Sound()
  {
  }

  lemma TerseRoom(blocks: seq<Block>)
    requires Storable(blocks) && blocks != []
    ensures StoredTail(blocks, Terse(LengthsOf(blocks))) == Tail(1, [0, 0])
  {
    hide Storable, LengthsOf, WordsFor;
  }

  /**
    * Exactly when blocks can be read back whichever sound coder is used: when they have at most 2048 length bytes, or
    * all of these are the same. Otherwise there is a coder that packs them into 2 bytes, for which the decoder makes
    * room for just 2048.
    */
  lemma ReadableWithAnyCoder(blocks: seq<Block>)
    requires Storable(blocks)
    ensures |LengthsOf(blocks)| <= 2048 || Uniform(LengthsOf(blocks))
       <==> forall codec: Entropy :: codec.Sound() ==> Readable(blocks, codec)
  {
    if |LengthsOf(blocks)| <= 2048 || Uniform(LengthsOf(blocks)) {
      forall codec: Entropy | codec.Sound() ensures Readable(blocks, codec) {
        FewOrUniform(blocks, codec);
      }
    } else {
      TerseIsSound(LengthsOf(blocks));
      ManyCanFail(blocks);
    }
  }

  /** Few length bytes are always read back, and one byte repeated is, however often: it is stored as it is. */
  lemma FewOrUniform(blocks: seq<Block>, codec: Entropy)
    requires Storable(blocks) && codec.Sound() && (|LengthsOf(blocks)| <= 2048 || Uniform(LengthsOf(blocks)))
    ensures Readable(blocks, codec)
  {
    hide StoredTail, LengthsOf, Storable, Uniform;
    if blocks != [] {
      StoredTailMeans(blocks, codec);
      RoomBound(|StoredTail(blocks, codec).bytes|);
    }
  }

  lemma RoomBound(size: nat)
    ensures 2 <= size < 0x40_0000 ==> LengthRoom(size) == 1024 * size
    ensures LengthRoom(2) == 2048
  {
  }

  lemma ManyCanFail(blocks: seq<Block>)
    requires Storable(blocks) && |LengthsOf(blocks)| > 2048 && !Uniform(LengthsOf(blocks))
    ensures Terse(LengthsOf(blocks)).Sound() && !Readable(blocks, Terse(LengthsOf(blocks)))
  {
    hide StoredTail, LengthsOf, Storable, Uniform;
    TerseIsSound(LengthsOf(blocks));
    TerseRoom(blocks);
    RoomBound(2);
  }

  /** A guard for callers: a coder that is not too good, and fewer than four million length bytes. */
  lemma ReadableWithModerateCoder(blocks: seq<Block>, codec: Entropy)
    requires Storable(blocks) && codec.Sound() && codec.Moderate() && |LengthsOf(blocks)| < 0x40_0000
    ensures Readable(blocks, codec)
  {
    hide StoredTail, LengthsOf, Storable;
    if blocks != [] {
      StoredTailMeans(blocks, codec);
      StoredTailModerate(blocks, codec);
      RoomBound(|StoredTail(blocks, codec).bytes|);
    }
  }

  lemma StoredTailModerate(blocks: seq<Block>, codec: Entropy)
    requires Storable(blocks) && blocks != [] && codec.Moderate()
    ensures var t := StoredTail(blocks, codec);
            t.flag == 1 ==> |LengthsOf(blocks)| <= 1024 * |t.bytes|
  {
    hide Storable, LengthsOf, WordsFor;
    SecondSucceeds(blocks, codec);
  }

  // ---------------------------------------------------------------- blocks of one colour

  /** A block of one colour; 0 is grey. */
  function PlainBlock(dc: int): (block: Block)
    ensures |block| == 64
  {
    [dc] + Zeros(63)
  }

  function Plain(n: nat, dc: int): (blocks: seq<Block>)
    ensures |blocks| == n && AllSize64(blocks)
  {
    seq(n, _ => PlainBlock(dc))
  }

  lemma PlainDifference(dc: int, before: int, k: nat)
    requires k < 64
    ensures Differenced(PlainBlock(dc), before)[k] == if k == 0 then dc - before else 0
  {
    hide Scan, Zz;
    FirstStays(PlainBlock(dc));
    ZigzagTable(k);
    ZigzagTable(0);
    if k > 0 { ScanOfLater(k); }
  }

  /** Only the first place of the coded order holds the first coefficient. */
  lemma ScanOfLater(k: nat)
    requires 0 < k < 64
    ensures 0 < Scan(k) < 64
  {
    ZigzagTable(k);
    assert Zz(0) == 0;
  }

  lemma PlainIsStorable(n: nat, dc: int)
    requires 256 * n < 0x8000_0000 && Within(dc, MAX_VALUE)
    ensures Storable(Plain(n, dc))
  {
    hide Differenced;
    forall i | 0 <= i < n
      ensures forall k :: 0 <= k < 64 ==>
                Within(Differenced(Plain(n, dc)[i], DcBefore(Plain(n, dc), i))[k], MAX_VALUE)
    {
      forall k | 0 <= k < 64 ensures Within(Differenced(Plain(n, dc)[i], DcBefore(Plain(n, dc), i))[k], MAX_VALUE) {
        PlainDifference(dc, DcBefore(Plain(n, dc), i), k);
      }
    }
  }

  /** One symbol for the DC difference, if there is one, and the end of the block. */
  lemma PlainBlockSyms(dc: int, before: int, acc: seq<Sym>)
    ensures BlockSyms(Differenced(PlainBlock(dc), before), acc)
         == (if dc == before then acc else acc + [Sym(0, dc - before)]) + [END_OF_BLOCK]
  {
    hide Differenced;
    var z := Differenced(PlainBlock(dc), before);
    forall k | 0 <= k < 64 ensures z[k] == if k == 0 then dc - before else 0 { PlainDifference(dc, before, k); }
    var h := LastNonzero(z, 64);
    assert z[0] == dc - before;
    if dc == before {
      assert h == -1;
    } else {
      assert h == 0;
      RunsNext(z, 0, 0, 0, acc);
      RunsOver(z, 1, 0, 0, acc + [Sym(0, z[0])]);
    }
  }

  lemma {:induction false} GreySyms(n: nat, m: nat)
    requires m <= n
    ensures Syms(Plain(n, 0), m) == seq(m, _ => END_OF_BLOCK)
  {
    hide BlockSyms, Differenced, PlainBlock;
    if m > 0 {
      GreySyms(n, m - 1);
      GreyDc(n, m - 1);
      PlainBlockSyms(0, 0, Syms(Plain(n, 0), m - 1));
    }
  }

  lemma GreyDc(n: nat, i: nat)
    requires i < n
    ensures DcBefore(Plain(n, 0), i) == 0
  {
  }

  /** Grey blocks have one length byte, repeated, and so can be read back with every sound coder. */
  lemma GreyIsReadable(n: nat, codec: Entropy)
    requires 256 * n < 0x8000_0000 && codec.Sound()
    ensures Storable(Plain(n, 0)) && Readable(Plain(n, 0), codec)
  {
    PlainIsStorable(n, 0);
    GreyLengths(n);
    FewOrUniform(Plain(n, 0), codec);
  }

  lemma GreyLengths(n: nat)
    requires Storable(Plain(n, 0))
    ensures Uniform(LengthsOf(Plain(n, 0)))
  {
    hide Storable, Syms, LengthBytes, Uniform, Plain;
    GreySyms(n, n);
    SameSyms(SymsOfAll(Plain(n, 0)));
  }

  lemma SameSyms(syms: seq<Sym>)
    requires AllFit(syms) && forall i :: 0 <= i < |syms| ==> syms[i] == syms[0]
    ensures Uniform(LengthBytes(syms))
  {
    hide LengthByte;
  }

  /** Those of any other colour have one that differs from all others. */
  lemma PlainLengths(n: nat, dc: int)
    requires Storable(Plain(n, dc)) && n > 0 && dc != 0
    ensures !Uniform(LengthsOf(Plain(n, dc)))
  {
    var blocks := Plain(n, dc);
    FirstSyms(n, dc);
    hide Storable, Syms, PlainBlock;
    var syms := SymsOfAll(blocks);
    assert syms[0] == Sym(0, dc) && syms[1] == END_OF_BLOCK;
    var lengths := LengthsOf(blocks);
    assert lengths[0] == LengthByte(syms[0]) && lengths[1] == LengthByte(syms[1]);
  }

  lemma FirstSyms(n: nat, dc: int)
    requires n > 0 && dc != 0
    ensures [Sym(0, dc), END_OF_BLOCK] <= Syms(Plain(n, dc), n)
  {
    hide BlockSyms, Differenced, PlainBlock;
    PlainBlockSyms(dc, 0, []);
    assert Syms(Plain(n, dc), 0) == [];
    assert Syms(Plain(n, dc), 1) == [Sym(0, dc), END_OF_BLOCK];
    SymsExtend(Plain(n, dc), 1, n);
  }

  /** 2048 blocks of such a colour, or more, are lost with a sound coder that packs their length bytes into two. */
  lemma PlainCanBeLost(n: nat, dc: int) returns (codec: Entropy)
    requires 2048 <= n && 256 * n < 0x8000_0000 && Within(dc, MAX_VALUE) && dc != 0
    ensures codec.Sound() && Storable(Plain(n, dc)) && Plain(n, dc) != [] && !Readable(Plain(n, dc), codec)
  {
    hide LengthsOf, Readable, Terse, Entropy.Sound, Storable, Uniform;
    PlainIsStorable(n, dc);
    PlainLengths(n, dc);
    ManyLengths(n, dc);
    ManyCanFail(Plain(n, dc));
    codec := Terse(LengthsOf(Plain(n, dc)));
  }

  lemma ManyLengths(n: nat, dc: int)
    requires Storable(Plain(n, dc)) && n > 0 && dc != 0
    ensures |LengthsOf(Plain(n, dc))| > n
  {
    PlainCount(n, dc, n);
  }

  /** A symbol for each block, and one more. */
  lemma {:induction false} PlainCount(n: nat, dc: int, m: nat)
    requires 0 < m <= n && dc != 0
    ensures |Syms(Plain(n, dc), m)| == m + 1
  {
    hide BlockSyms, Differenced, PlainBlock;
    if m == 1 {
      PlainBlockSyms(dc, 0, []);
      assert Syms(Plain(n, dc), 0) == [];
    } else {
      PlainCount(n, dc, m - 1);
      PlainDc(n, dc, m - 1);
      PlainBlockSyms(dc, dc, Syms(Plain(n, dc), m - 1));
    }
  }

  lemma PlainDc(n: nat, dc: int, i: nat)
    requires 0 < i < n
    ensures DcBefore(Plain(n, dc), i) == dc
  {
  }

  // ---------------------------------------------------------------- the coded form is unambiguous

  lemma SameTail(a: seq<Block>, b: seq<Block>, codec: Entropy)
    requires Storable(a) && Storable(b) && a != [] && b != [] && codec.Sound()
    requires StoredTail(a, codec) == StoredTail(b, codec)
    ensures LengthsOf(a) == LengthsOf(b)
  {
    hide StoredTail, LengthsOf, Storable;
    StoredTailMeans(a, codec);
    StoredTailMeans(b, codec);
    var t := StoredTail(a, codec);
    if t.flag == 1 {
      var room := |LengthsOf(a)| + |LengthsOf(b)|;
      assert codec.decompress(t.bytes, room) == Some(LengthsOf(a)) == Some(LengthsOf(b));
    }
  }

  lemma SameStream(a: seq<int>, b: seq<int>)
    requires |a| == |b| && AllCodable(a) && AllCodable(b)
    requires forall i :: 0 <= i < |a| ==> BitLength(a[i]) == BitLength(b[i])
    requires WordsOf(Stream(a)) == WordsOf(Stream(b))
    ensures a == b
  {
    hide *;
    StreamLength(a, b);
    WordsHold(Stream(a));
    WordsHold(Stream(b));
    StreamDetermines(a, b);
  }

  /** Different literals have different coded forms, whatever the coder. */
  lemma CodedDetermines(a: seq<Block>, b: seq<Block>, codec: Entropy)
    requires Storable(a) && Storable(b) && a != [] && b != [] && codec.Sound()
    requires CodedBlocks(a, codec) == CodedBlocks(b, codec)
    ensures a == b
  {
    hide *;
    LayoutParts(a, codec);
    LayoutParts(b, codec);
    assert StoredTail(a, codec) == StoredTail(b, codec);
    SameTail(a, b, codec);
    LiteralsAre(a);
    LiteralsAre(b);
    SameStream(Values(SymsOfAll(a)), Values(SymsOfAll(b)));
    SymbolsAre(a);
    SymbolsAre(b);
  }
}
