/** Variable-length integers of VCDIFF (section 2 of RFC 3284): seven bits a byte, highest first. */
module VcdiffInt {
  import opened Common
  import Arith

  datatype Width = W32 | W64

  /** One past the largest number of the width. */
  function Limit(w: Width): nat {
    match w
    case W32 => 0x1_0000_0000
    case W64 => 0x1_0000_0000_0000_0000
  }

  /** A partial value that meets the overflow mask: its seven top bits are not all clear. */
  predicate Overflows(w: Width, part: nat) {
    part >= match w case W32 => 0x200_0000 case W64 => 0x200_0000_0000_0000
  }

  lemma OverflowIs(w: Width, part: nat, low: nat)
    requires low < 128
    ensures Overflows(w, part) <==> part * 128 + low >= Limit(w)
  {
  }

  // ---------------------------------------------------------------- the format

  /** The leading digits of a number, each marked as followed by another. */
  function Lead(num: nat): seq<byte> {
    if num == 0 then [] else Lead(num / 128) + [num % 128 + 128]
  }

  /** A number as bytes; only the last is unmarked. */
  function Encoding(num: nat): (s: seq<byte>)
    ensures s != []
  {
    Lead(num / 128) + [num % 128]
  }

  /** What digits stand for. */
  function ValueOf(s: seq<byte>): nat {
    if s == [] then 0 else ValueOf(s[..|s| - 1]) * 128 + s[|s| - 1] % 128
  }

  /** All bytes but the last are marked. */
  ghost predicate IsInteger(s: seq<byte>) {
    s != [] && s[|s| - 1] < 128 && forall i :: 0 <= i < |s| - 1 ==> s[i] >= 128
  }

  lemma {:induction false} LeadIs(num: nat)
    ensures ValueOf(Lead(num)) == num && forall i :: 0 <= i < |Lead(num)| ==> Lead(num)[i] >= 128
  {
    hide Lead, ValueOf;
    if num == 0 {
      LeadZero();
    } else {
      LeadIs(num / 128);
      LeadStep(num);
      Digits(num);
      ValueAppend(Lead(num / 128), num % 128 + 128);
    }
  }

  lemma LeadZero()
    ensures Lead(0) == [] && ValueOf([]) == 0
  {
  }

  lemma Digits(num: nat)
    ensures num / 128 * 128 + (num % 128 + 128) % 128 == num && 128 <= num % 128 + 128 < 256
  {
  }

  lemma LeadStep(num: nat)
    requires num > 0
    ensures Lead(num) == Lead(num / 128) + [num % 128 + 128]
  {
  }

  lemma ValueAppend(s: seq<byte>, b: byte)
    ensures ValueOf(s + [b]) == ValueOf(s) * 128 + b % 128
  {
    assert (s + [b])[..|s|] == s;
  }

  lemma EncodingIs(num: nat)
    ensures IsInteger(Encoding(num)) && ValueOf(Encoding(num)) == num
  {
    LeadIs(num / 128);
    hide Lead, ValueOf;
    ValueAppend(Lead(num / 128), num % 128);
  }

  /** 128 to the power `n`. */
  function Pow128(n: nat): (r: nat)
    ensures r > 0
  {
    if n == 0 then 1 else 128 * Pow128(n - 1)
  }

  lemma DivideTwice(a: nat, c: nat)
    requires c > 0
    ensures a / 128 / c == a / (128 * c)
  {
    var h := a / 128;
    var q, r := h / c, h % c;
    assert h == q * c + r;
    assert 128 * (q * c) == q * (128 * c);
    Arith.DivisionUnique(a, 128 * c, q, 128 * r + a % 128);
  }

  /** The digits from the last: each is worth 128 times the next, and all but the last are marked. */
  lemma {:induction false} LeadDigit(num: nat, i: nat)
    requires i < |Lead(num)|
    ensures Lead(num)[|Lead(num)| - 1 - i] == num / Pow128(i) % 128 + 128
  {
    if i > 0 {
      LeadDigit(num / 128, i - 1);
      DivideTwice(num, Pow128(i - 1));
    }
  }

  lemma EncodingDigit(num: nat, i: nat)
    requires i < |Encoding(num)|
    ensures Encoding(num)[|Encoding(num)| - 1 - i] == num / Pow128(i) % 128 + if i > 0 then 128 else 0
  {
    if i > 0 {
      LeadDigit(num / 128, i - 1);
      DivideTwice(num, Pow128(i - 1));
    }
  }

  lemma {:induction false} LeadShortest(s: seq<byte>, num: nat)
    requires ValueOf(s) == num && forall i :: 0 <= i < |s| ==> s[i] >= 128
    ensures |Lead(num)| <= |s| && (|Lead(num)| == |s| ==> Lead(num) == s)
  {
    hide Lead, ValueOf;
    LeadZero();
    if s != [] && num > 0 {
      var n := |s| - 1;
      LastDigit(s);
      LeadShortest(s[..n], ValueOf(s[..n]));
      LeadStep(num);
      assert s == s[..n] + [s[n]];
    }
  }

  lemma LastDigit(s: seq<byte>)
    requires s != []
    ensures ValueOf(s) / 128 == ValueOf(s[..|s| - 1]) && ValueOf(s) % 128 == s[|s| - 1] % 128
  {
  }

  /** Of the byte strings that are one number, the encoding is the shortest. */
  lemma EncodingShortest(s: seq<byte>, num: nat)
    requires IsInteger(s) && ValueOf(s) == num
    ensures |Encoding(num)| <= |s| && (|Encoding(num)| == |s| ==> Encoding(num) == s)
  {
    hide Lead;
    var n := |s| - 1;
    LeadShortest(s[..n], ValueOf(s[..n]));
    assert num / 128 == ValueOf(s[..n]) && num % 128 == s[n];
    assert s == s[..n] + [s[n]];
  }

  /** `xd3_sizeof_uint32_t` and `xd3_sizeof_uint64_t`. */
  function SizeOf(w: Width, num: nat): nat {
    if num < 0x80 then 1
    else if num < 0x4000 then 2
    else if num < 0x20_0000 then 3
    else if num < 0x1000_0000 then 4
    else if w == W32 || num < 0x8_0000_0000 then 5
    else if num < 0x400_0000_0000 then 6
    else if num < 0x2_0000_0000_0000 then 7
    else if num < 0x100_0000_0000_0000 then 8
    else if num < 0x8000_0000_0000_0000 then 9
    else 10
  }

  lemma SizeStep(w: Width, num: nat)
    requires 128 <= num < Limit(w)
    ensures num / 128 < Limit(w) && SizeOf(w, num) == SizeOf(w, num / 128) + 1
  {
  }

  /** The size is that of the encoding, at most 10 bytes. */
  lemma {:induction false} SizeIsRight(w: Width, num: nat)
    requires num < Limit(w)
    ensures |Encoding(num)| == SizeOf(w, num) <= 10
  {
    if num < 128 {
      assert Lead(0) == [];
    } else {
      SizeIsRight(w, num / 128);
      SizeStep(w, num);
      hide SizeOf;
      assert |Lead(num / 128)| == |Lead(num / 128 / 128)| + 1;
    }
  }

  /** The size needed more than this number of digits exactly above this bound. */
  lemma {:induction false} ValueGrows(s: seq<byte>, i: nat)
    requires i <= |s|
    ensures ValueOf(s[..i]) <= ValueOf(s)
  {
    if i < |s| {
      ValueGrows(s[..|s| - 1], i);
      assert s[..|s| - 1][..i] == s[..i];
    } else {
      assert s[..i] == s;
    }
  }

  // ---------------------------------------------------------------- writing

  /** `EMIT_INTEGER_TYPE`: fills a buffer of 10 bytes from its end. */
  method EmitInteger(w: Width, num0: nat) returns (output: seq<byte>)
    requires num0 < Limit(w)
    ensures output == Encoding(num0) && |output| == SizeOf(w, num0)
  {
    var buf := new byte[10];
    var bufi := 10;
    var num := num0;
    SizeIsRight(w, num0);
    bufi := bufi - 1;
    buf[bufi] := num % 128 + 128;
    num := num / 128;
    ghost var digits := 1;
    while num != 0
      invariant 0 <= bufi <= 9 && |Lead(num)| + (10 - bufi) == |Encoding(num0)|
      invariant buf[9] == num0 % 128 + 128
      invariant Lead(num) + buf[bufi..9] == Lead(num0 / 128)
    {
      hide Encoding;
      ghost var tail := buf[bufi..9];
      bufi := bufi - 1;
      buf[bufi] := num % 128 + 128;
      assert buf[bufi + 1..9] == tail;
      assert buf[bufi..9] == [buf[bufi]] + tail;
      assert Lead(num / 128) + ([num % 128 + 128] + tail) == Lead(num / 128) + [num % 128 + 128] + tail;
      num := num / 128;
    }
    buf[9] := buf[9] % 128;
    assert buf[bufi..] == buf[bufi..9] + [buf[9]];
    output := buf[bufi..];
  }

  // ---------------------------------------------------------------- reading

  datatype Read = Ok(value: nat, next: nat) | EndOfInput | TooLarge

  /** How far the integer at `pos` goes: to its first unmarked byte. */
  function Length(s: seq<byte>, pos: nat): (r: Option<nat>)
    requires pos <= |s|
    ensures r.Some? ==> 0 < r.value && pos + r.value <= |s| && s[pos + r.value - 1] < 128
    ensures r.Some? ==> forall k :: pos <= k < pos + r.value - 1 ==> s[k] >= 128
    ensures r.None? ==> forall k :: pos <= k < |s| ==> s[k] >= 128
    decreases |s| - pos
  {
    if pos == |s| then None
    else if s[pos] < 128 then Some(1)
    else match Length(s, pos + 1) case None => None case Some(n) => Some(n + 1)
  }

  lemma ValueSnoc(s: seq<byte>, from: nat, to: nat)
    requires from <= to < |s|
    ensures ValueOf(s[from..to + 1]) == ValueOf(s[from..to]) * 128 + s[to] % 128
  {
    assert s[from..to + 1][..to - from] == s[from..to];
  }

  lemma ValueBefore(s: seq<byte>, from: nat, mid: nat, to: nat)
    requires from <= mid <= to <= |s|
    ensures ValueOf(s[from..mid]) <= ValueOf(s[from..to])
  {
    ValueGrows(s[from..to], mid - from);
    assert s[from..to][..mid - from] == s[from..mid];
  }

  /**
    * `READ_INTEGER_TYPE`: accepts exactly the complete integers that fit the width, with their exact value. An integer
    * that does not fit is refused before a bit of it is lost; so is input that ends first.
    */
  method ReadInteger(w: Width, s: seq<byte>, pos: nat) returns (r: Read)
    requires pos <= |s|
    ensures match Length(s, pos)
            case Some(n) =>
              if ValueOf(s[pos..pos + n]) < Limit(w) then r == Ok(ValueOf(s[pos..pos + n]), pos + n) else r == TooLarge
            case None => !r.Ok?
  {
    hide *;
    ghost var len := Length(s, pos);
    var val: nat, inp: nat := 0, pos;
    NothingRead(s, pos);
    while true
      invariant pos <= inp <= |s| && val == ValueOf(s[pos..inp])
      invariant len.Some? ==> inp < pos + len.value <= |s|
      invariant len == Later(Length(s, inp), inp - pos)
      decreases |s| - inp
    {
      if inp == |s| {
        NoLength(s, inp);
        return EndOfInput;
      }
      var next := s[inp];
      LengthStep(s, inp, inp - pos);
      OverflowIs(w, val, next % 128);
      ValueSnoc(s, pos, inp);
      if len.Some? { ValueBefore(s, pos, inp + 1, pos + len.value); }
      if Overflows(w, val) {
        return TooLarge;
      }
      inp := inp + 1;
      val := val * 128 + next as int % 128;
      if next < 128 {
        return Ok(val, inp);
      }
    }
  }

  /** A length, counted from `n` bytes earlier. */
  function Later(len: Option<nat>, n: nat): Option<nat> {
    match len
    case None => None
    case Some(m) => Some(m + n)
  }

  lemma NothingRead(s: seq<byte>, pos: nat)
    requires pos <= |s|
    ensures ValueOf(s[pos..pos]) == 0 && Later(Length(s, pos), 0) == Length(s, pos)
    ensures Length(s, pos).Some? ==> 0 < Length(s, pos).value && pos + Length(s, pos).value <= |s|
  {
  }

  lemma NoLength(s: seq<byte>, pos: nat)
    requires pos == |s|
    ensures Length(s, pos) == None && Later(None, 0) == None
    ensures forall n :: Later(Length(s, pos), n) == None
  {
  }

  lemma LengthStep(s: seq<byte>, pos: nat, n: nat)
    requires pos < |s|
    ensures s[pos] < 128 ==> Later(Length(s, pos), n) == Some(n + 1)
    ensures s[pos] >= 128 ==> Later(Length(s, pos), n) == Later(Length(s, pos + 1), n + 1)
    ensures s[pos] >= 128 && Length(s, pos).Some? ==> Length(s, pos).value > 1
    ensures Later(Length(s, pos), n).Some? <==> Length(s, pos).Some?
    ensures Length(s, pos).Some? ==> Later(Length(s, pos), n).value == Length(s, pos).value + n
  {
  }

  /** Reading gives back what was written, and stops after it. */
  lemma ReadBack(num: nat, rest: seq<byte>)
    ensures Length(Encoding(num) + rest, 0) == Some(|Encoding(num)|)
    ensures ValueOf((Encoding(num) + rest)[..|Encoding(num)|]) == num
  {
    EncodingIs(num);
    LengthOf(Encoding(num), rest, 0);
    assert (Encoding(num) + rest)[..|Encoding(num)|] == Encoding(num);
  }

  lemma {:induction false} LengthOf(s: seq<byte>, rest: seq<byte>, pos: nat)
    requires IsInteger(s) && pos < |s|
    ensures Length(s + rest, pos) == Some(|s| - pos)
    decreases |s| - pos
  {
    if pos + 1 < |s| { LengthOf(s, rest, pos + 1); }
  }

  /** What is written is read back, whatever follows it. */
  method RoundTrip(w: Width, num: nat, rest: seq<byte>) returns (bytes: seq<byte>, r: Read)
    requires num < Limit(w)
    ensures bytes == Encoding(num) && |bytes| == SizeOf(w, num)
    ensures r == Ok(num, |bytes|)
  {
    bytes := EmitInteger(w, num);
    ReadBack(num, rest);
    r := ReadInteger(w, bytes + rest, 0);
  }

  /** No number's encoding begins with another's. */
  lemma EncodingDetermines(a: nat, b: nat, restA: seq<byte>, restB: seq<byte>)
    requires Encoding(a) + restA == Encoding(b) + restB
    ensures a == b && restA == restB
  {
    ReadBack(a, restA);
    ReadBack(b, restB);
    hide Encoding, Length, ValueOf;
    var n := |Encoding(a)|;
    assert (Encoding(a) + restA)[n..] == restA && (Encoding(b) + restB)[n..] == restB;
  }

  // ---------------------------------------------------------------- reading as input comes

  /** The value so far of digits whose end has not come, or refused. */
  datatype Partial = Part(value: nat) | Done(value: nat, used: nat) | Refused

  /** Reading `s` with `part` already read. */
  function Resume(w: Width, part: nat, s: seq<byte>): Partial
    decreases |s|
  {
    if s == [] then Part(part)
    else if Overflows(w, part) then Refused
    else if s[0] < 128 then Done(part * 128 + s[0] % 128, 1)
    else match Resume(w, part * 128 + s[0] % 128, s[1..])
      case Part(v) => Part(v)
      case Done(v, n) => Done(v, n + 1)
      case Refused => Refused
  }

  class Stream {
    var decPart: nat
    var nextIn: nat

    constructor ()
      ensures decPart == 0 && nextIn == 0
    {
      decPart, nextIn := 0, 0;
    }

    /** `DECODE_INTEGER_TYPE` on the input there is; what has been read is kept for the next call. */
    method DecodeInteger(w: Width, input: seq<byte>) returns (r: Partial)
      modifies this
      ensures r == Resume(w, old(decPart), input)
      ensures r.Part? ==> decPart == r.value && nextIn == |input|
      ensures r.Done? ==> decPart == 0 && nextIn == r.used
    {
      nextIn := 0;
      ghost var before := decPart;
      assert input[0..] == input;
      while nextIn < |input|
        invariant nextIn <= |input|
        invariant Resume(w, before, input) == match Resume(w, decPart, input[nextIn..])
                                              case Part(v) => Part(v)
                                              case Done(v, n) => Done(v, n + nextIn)
                                              case Refused => Refused
      {
        var next := input[nextIn];
        assert input[nextIn..][1..] == input[nextIn + 1..];
        nextIn := nextIn + 1;
        if Overflows(w, decPart) {
          return Refused;
        }
        decPart := decPart * 128 + next % 128;
        if next < 128 {
          r := Done(decPart, nextIn);
          decPart := 0;
          return;
        }
      }
      r := Part(decPart);
    }
  }

  /** Splitting the input anywhere gives the same result: what one call leaves, the next one takes up. */
  lemma {:induction false} ResumeSplits(w: Width, part: nat, a: seq<byte>, b: seq<byte>)
    ensures Resume(w, part, a + b) == match Resume(w, part, a)
                                      case Part(v) =>
                                        (match Resume(w, v, b)
                                         case Part(u) => Part(u)
                                         case Done(u, n) => Done(u, |a| + n)
                                         case Refused => Refused)
                                      case Done(v, n) => Done(v, n)
                                      case Refused => Refused
    decreases |a|
  {
    if a == [] {
      assert a + b == b;
    } else {
      assert (a + b)[1..] == a[1..] + b;
      ResumeSplits(w, part * 128 + a[0] % 128, a[1..], b);
    }
  }

  /** A complete integer of value `total` is accepted if it fits, and refused otherwise; nothing else is accepted. */
  ghost predicate Agrees(w: Width, len: Option<nat>, total: nat, r: Partial) {
    match len
    case Some(n) => r == if total < Limit(w) then Done(total, n) else Refused
    case None => !r.Done?
  }

  function Total(s: seq<byte>, from: nat, pos: nat): nat
    requires from <= pos <= |s|
  {
    match Length(s, pos)
    case Some(n) => ValueOf(s[from..pos + n])
    case None => 0
  }

  /** Reading all input at once and reading it as it comes agree. */
  lemma {:induction false} ResumeIsRead(w: Width, s: seq<byte>, from: nat, pos: nat)
    requires from <= pos <= |s| && forall k :: from <= k < pos ==> s[k] >= 128
    ensures Agrees(w, Length(s, pos), Total(s, from, pos), Resume(w, ValueOf(s[from..pos]), s[pos..]))
    decreases |s| - pos
  {
    hide *;
    if pos == |s| {
      NoLength(s, pos);
      AgreesAtEnd(w, s, from);
    } else {
      if s[pos] >= 128 {
        ResumeIsRead(w, s, from, pos + 1);
      }
      AgreesStep(w, s, from, pos);
    }
  }

  lemma AgreesAtEnd(w: Width, s: seq<byte>, from: nat)
    requires from <= |s|
    ensures Agrees(w, Length(s, |s|), Total(s, from, |s|), Resume(w, ValueOf(s[from..|s|]), s[|s|..]))
  {
    hide ValueOf;
  }

  lemma AgreesStep(w: Width, s: seq<byte>, from: nat, pos: nat)
    requires from <= pos < |s|
    requires s[pos] >= 128 ==>
               Agrees(w, Length(s, pos + 1), Total(s, from, pos + 1), Resume(w, ValueOf(s[from..pos + 1]), s[pos + 1..]))
    ensures Agrees(w, Length(s, pos), Total(s, from, pos), Resume(w, ValueOf(s[from..pos]), s[pos..]))
  {
    hide ValueOf, Limit, Overflows, Resume;
    ResumeStep(w, ValueOf(s[from..pos]), s, pos);
    ValueSnoc(s, from, pos);
    OverflowIs(w, ValueOf(s[from..pos]), s[pos] % 128);
    if Length(s, pos).Some? { ValueBefore(s, from, pos + 1, pos + Length(s, pos).value); }
  }

  lemma ResumeStep(w: Width, part: nat, s: seq<byte>, pos: nat)
    requires pos < |s|
    ensures Resume(w, part, s[pos..]) ==
            if Overflows(w, part) then Refused
            else if s[pos] < 128 then Done(part * 128 + s[pos] % 128, 1)
            else match Resume(w, part * 128 + s[pos] % 128, s[pos + 1..])
              case Part(v) => Part(v)
              case Done(v, n) => Done(v, n + 1)
              case Refused => Refused
  {
    assert s[pos..][1..] == s[pos + 1..];
  }
}
