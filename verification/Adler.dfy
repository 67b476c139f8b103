/** Adler-32 with the modulus taken seldom (`rabin/adler32.c`), against section 2.2 of RFC 1950. */
module Adler {
  import opened Arith
  import opened Common

  const BASE: nat := 65521
  const NMAX: nat := 5552

  /** A 32-bit register: assigning to one proves that nothing is lost. */
  type U32 = x: int | 0 <= x < 0x1_0000_0000

  /** The two sums. */
  datatype Sums = Sums(a: nat, b: nat)

  predicate Reduced(s: Sums) {
    s.a < BASE && s.b < BASE
  }

  /** One byte, each sum reduced at once. */
  function Step(s: Sums, x: byte): (r: Sums)
    ensures Reduced(r)
  {
    var a := (s.a + x) % BASE;
    Sums(a, (s.b + a) % BASE)
  }

  /** The sums after bytes, as the standard defines them. */
  function After(s: Sums, bytes: seq<byte>): (r: Sums)
    ensures Reduced(s) ==> Reduced(r)
  {
    if bytes == [] then s else Step(After(s, bytes[..|bytes| - 1]), bytes[|bytes| - 1])
  }

  function Pack(s: Sums): nat {
    s.a + 65536 * s.b
  }

  function Unpack(adler: nat): Sums {
    Sums(adler % 65536, adler / 65536 % 65536)
  }

  lemma PackUnpack(s: Sums)
    requires Reduced(s)
    ensures Pack(s) < 0x1_0000_0000 && Unpack(Pack(s)) == s
  {
  }

  // ---------------------------------------------------------------- the checksum

  function Triangle(k: nat): nat {
    if k == 0 then 0 else Triangle(k - 1) + k
  }

  lemma {:induction false} TriangleIs(k: nat)
    ensures 2 * Triangle(k) == k * (k + 1)
  {
    if k > 0 {
      TriangleIs(k - 1);
      assert k * (k + 1) == (k - 1) * k + 2 * k;
    }
  }

  lemma {:induction false} TriangleGrows(k: nat, n: nat)
    requires k <= n
    ensures Triangle(k) <= Triangle(n)
    decreases n
  {
    if k < n { TriangleGrows(k, n - 1); }
  }

  /** How large the sums can get in `k` bytes from reduced ones. */
  function Bound(k: nat): nat {
    (k + 1) * (BASE - 1) + 255 * Triangle(k)
  }

  lemma BoundFits(k: nat)
    requires k <= NMAX
    ensures Bound(k) < 0x1_0000_0000 && BASE - 1 + 255 * k < 0x1_0000_0000
  {
    TriangleIs(NMAX);
    TriangleGrows(k, NMAX);
    hide Triangle;
  }

  lemma BoundStep(k: nat)
    ensures Bound(k + 1) == Bound(k) + (BASE - 1 + 255 * (k + 1)) && Bound(0) == BASE - 1
  {
  }

  /** The deferred sums: unreduced, but the same modulo the base, and within their bounds. */
  ghost predicate Deferred(a: nat, b: nat, s: Sums, k: nat) {
    a % BASE == s.a && b % BASE == s.b && a <= BASE - 1 + 255 * k && b <= Bound(k)
  }

  lemma DeferredStep(a: nat, b: nat, s: Sums, k: nat, x: byte)
    requires Deferred(a, b, s, k) && k < NMAX
    ensures a + x < 0x1_0000_0000 && b + (a + x) < 0x1_0000_0000
    ensures Deferred(a + x, b + (a + x), Step(s, x), k + 1)
  {
    BoundStep(k);
    BoundFits(k + 1);
    hide Bound;
    AddMod(a, x);
    AddMod(b, a + x);
    AddMod(s.b, a + x);
    AddMod(a + x, s.b);
  }

  lemma AddMod(x: nat, y: nat)
    ensures (x % BASE + y) % BASE == (x + y) % BASE && (x + y % BASE) % BASE == (x + y) % BASE
  {
  }

  /** Adds the bytes from `from` to `to`, at most `NMAX`, then reduces. */
  method SumChunk(buf: seq<byte>, from: nat, to: nat, a0: U32, b0: U32, ghost s: Sums) returns (a: U32, b: U32)
    requires from <= to <= |buf| && to - from <= NMAX && Reduced(s)
    requires a0 == After(s, buf[..from]).a && b0 == After(s, buf[..from]).b
    ensures a == After(s, buf[..to]).a && b == After(s, buf[..to]).b
  {
    hide Bound, After;
    a, b := a0, b0;
    StillReduced(s, buf[..from]);
    BoundStep(0);
    for i := from to to
      invariant Deferred(a, b, After(s, buf[..i]), i - from)
    {
      DeferredStep(a, b, After(s, buf[..i]), i - from, buf[i]);
      AfterNext(s, buf, i);
      a := a + buf[i];
      b := b + a;
    }
    a := a % BASE;
    b := b % BASE;
  }

  lemma StillReduced(s: Sums, bytes: seq<byte>)
    requires Reduced(s)
    ensures Reduced(After(s, bytes))
  {
  }

  lemma AfterNext(s: Sums, buf: seq<byte>, i: nat)
    requires i < |buf|
    ensures After(s, buf[..i + 1]) == Step(After(s, buf[..i]), buf[i])
  {
    assert buf[..i + 1][..i] == buf[..i];
  }

  /** `adler32`; no bytes give 1, whatever the start. */
  method Adler32(adler: U32, buf: seq<byte>) returns (r: U32)
    requires Reduced(Unpack(adler))
    ensures buf == [] ==> r == 1
    ensures buf != [] ==> r == Pack(After(Unpack(adler), buf))
  {
    if buf == [] {
      return 1;
    }
    ghost var s := Unpack(adler);
    var sum2: U32 := adler / 65536 % 65536;
    var sum1: U32 := adler % 65536;
    var pos := 0;
    assert buf[..0] == [];
    while |buf| - pos >= NMAX
      invariant pos <= |buf| && sum1 == After(s, buf[..pos]).a && sum2 == After(s, buf[..pos]).b
    {
      hide After;
      sum1, sum2 := SumChunk(buf, pos, pos + NMAX, sum1, sum2, s);
      pos := pos + NMAX;
    }
    if |buf| - pos > 0 {
      hide After;
      sum1, sum2 := SumChunk(buf, pos, |buf|, sum1, sum2, s);
    }
    assert buf[..|buf|] == buf;
    StillReduced(s, buf);
    PackUnpack(After(s, buf));
    r := sum1 + 65536 * sum2;
  }

  // ---------------------------------------------------------------- the base

  /** The base is a prime. */
  lemma BaseIsPrime(d: nat, q: nat)
    requires d * q == BASE
    ensures d == 1 || q == 1
  {
  }

  /** It is the largest one below 65536. */
  lemma BaseIsLargest(n: nat) returns (d: nat)
    requires BASE < n < 65536
    ensures 2 <= d < n && n % d == 0
  {
    if n % 2 == 0 {
      d := 2;
    } else if n == 65525 {
      d := 5;
    } else if n == 65527 {
      d := 7;
    } else if n == 65531 {
      d := 19;
    } else if n == 65533 {
      d := 13;
    } else {
      assert n == 65523 || n == 65529 || n == 65535;
      d := 3;
    }
  }

  // ---------------------------------------------------------------- combining

  /** The plain sums: of the bytes, and of the sums of their prefixes. */
  function Plain(bytes: seq<byte>): Sums {
    if bytes == [] then Sums(0, 0) else
      var p := Plain(bytes[..|bytes| - 1]);
      var a := p.a + bytes[|bytes| - 1];
      Sums(a, p.b + a)
  }

  predicate Same(x: int, y: int) {
    (x - y) % BASE == 0
  }

  lemma SameIsEqual(x: nat, y: nat)
    requires Same(x, y) && x < BASE && y < BASE
    ensures x == y
  {
  }

  lemma SameSums(x: int, y: int, u: int, v: int)
    requires Same(x, y) && Same(u, v)
    ensures Same(x + u, y + v) && Same(x - u, y - v) && Same(y, x)
  {
    var k, m := (x - y) / BASE, (u - v) / BASE;
    IsMultiple(x - y, k);
    IsMultiple(u - v, m);
    Multiple(k + m);
    Multiple(k - m);
    Multiple(0 - k);
    hide Same;
    MakeSame(x + u, y + v, k + m);
    MakeSame(x - u, y - v, k - m);
    MakeSame(y, x, 0 - k);
  }

  lemma IsMultiple(d: int, k: int)
    requires d % BASE == 0 && k == d / BASE
    ensures d == k * BASE
  {
  }

  lemma MakeSame(x: int, y: int, k: int)
    requires x - y == k * BASE
    ensures Same(x, y)
  {
    Multiple(k);
  }

  lemma SameTrans(x: int, y: int, z: int)
    requires Same(x, y) && Same(y, z)
    ensures Same(x, z)
  {
    SameSums(x, y, y, z);
  }

  lemma SameMod(x: nat)
    ensures Same(x % BASE, x) && Same(x, x)
  {
  }

  function Times(n: nat, a: nat): nat {
    n * a
  }

  /** The sums from any start, in terms of the plain ones. */
  lemma {:induction false} AfterIs(s: Sums, bytes: seq<byte>)
    requires Reduced(s)
    ensures Same(After(s, bytes).a, s.a + Plain(bytes).a)
    ensures Same(After(s, bytes).b, s.b + Times(|bytes|, s.a) + Plain(bytes).b)
  {
    hide *;
    if bytes == [] {
      AfterNothing(s, bytes);
    } else {
      var n := |bytes| - 1;
      AfterIs(s, bytes[..n]);
      AfterStep(s, bytes);
      PlainStep(bytes);
      OneMoreTime(n, s.a);
      var before, x := After(s, bytes[..n]), bytes[n];
      SameMod(x);
      SameMod(before.a + x);
      SameSums(before.a, s.a + Plain(bytes[..n]).a, x, x);
      SameTrans(After(s, bytes).a, before.a + x, s.a + Plain(bytes[..n]).a + x);
      SameMod(before.b + After(s, bytes).a);
      SameSums(before.b, s.b + Times(n, s.a) + Plain(bytes[..n]).b, After(s, bytes).a, s.a + Plain(bytes).a);
      SameTrans(After(s, bytes).b, before.b + After(s, bytes).a,
                s.b + Times(n, s.a) + Plain(bytes[..n]).b + (s.a + Plain(bytes).a));
    }
  }

  lemma AfterNothing(s: Sums, none: seq<byte>)
    requires none == []
    ensures Same(After(s, none).a, s.a + Plain(none).a)
    ensures Same(After(s, none).b, s.b + Times(|none|, s.a) + Plain(none).b)
  {
  }

  lemma AfterStep(s: Sums, bytes: seq<byte>)
    requires bytes != []
    ensures After(s, bytes) == Step(After(s, bytes[..|bytes| - 1]), bytes[|bytes| - 1])
    ensures After(s, bytes).a == (After(s, bytes[..|bytes| - 1]).a + bytes[|bytes| - 1]) % BASE
    ensures After(s, bytes).b == (After(s, bytes[..|bytes| - 1]).b + After(s, bytes).a) % BASE
  {
  }

  lemma PlainStep(bytes: seq<byte>)
    requires bytes != []
    ensures Plain(bytes).a == Plain(bytes[..|bytes| - 1]).a + bytes[|bytes| - 1]
    ensures Plain(bytes).b == Plain(bytes[..|bytes| - 1]).b + Plain(bytes).a
  {
  }

  lemma OneMoreTime(n: nat, a: nat)
    ensures Times(n + 1, a) == Times(n, a) + a
  {
  }

  lemma {:induction false} AfterAppend(s: Sums, a: seq<byte>, b: seq<byte>)
    ensures After(s, a + b) == After(After(s, a), b)
  {
    if b == [] {
      assert a + b == a;
    } else {
      AfterAppend(s, a, b[..|b| - 1]);
      assert (a + b)[..|a + b| - 1] == a + b[..|b| - 1];
      hide After, Step;
      AfterStep(s, a + b);
      AfterStep(After(s, a), b);
    }
  }

  /** The bytes all together. */
  function Total(bytes: seq<byte>): nat {
    if bytes == [] then 0 else bytes[0] + Total(bytes[1..])
  }

  /** Each byte as often as bytes are left when it comes. */
  function Weighted(bytes: seq<byte>): nat {
    if bytes == [] then 0 else |bytes| * bytes[0] + Weighted(bytes[1..])
  }

  lemma {:induction false} TotalsAppend(s: seq<byte>, x: byte)
    ensures Total(s + [x]) == Total(s) + x && Weighted(s + [x]) == Weighted(s) + Total(s) + x
  {
    if s == [] {
      assert [] + [x] == [x] && [x][1..] == [];
    } else {
      TotalsAppend(s[1..], x);
      assert (s + [x])[1..] == s[1..] + [x];
      assert (|s| + 1) * s[0] == |s| * s[0] + s[0];
    }
  }

  lemma {:induction false} PlainIs(bytes: seq<byte>)
    ensures Plain(bytes) == Sums(Total(bytes), Weighted(bytes))
  {
    hide Total, Weighted;
    if bytes == [] {
      NoTotals(bytes);
    } else {
      var s := bytes[..|bytes| - 1];
      PlainIs(s);
      TotalsAppend(s, bytes[|bytes| - 1]);
      assert s + [bytes[|bytes| - 1]] == bytes;
    }
  }

  lemma NoTotals(none: seq<byte>)
    requires none == []
    ensures Total(none) == 0 && Weighted(none) == 0
  {
  }

  /** Both sums in closed form. */
  lemma ChecksumIs(bytes: seq<byte>)
    ensures After(Sums(1, 0), bytes)
         == Sums((1 + Total(bytes)) % BASE, (|bytes| + Weighted(bytes)) % BASE)
  {
    hide After, Plain, Total, Weighted, Same, Times;
    var s := Sums(1, 0);
    AfterIs(s, bytes);
    PlainIs(bytes);
    TimesOne(|bytes|);
    StillReduced(s, bytes);
    SameReduced(After(s, bytes).a, 1 + Total(bytes));
    SameReduced(After(s, bytes).b, |bytes| + Weighted(bytes));
  }

  lemma SameReduced(x: nat, y: nat)
    requires Same(x, y) && x < BASE
    ensures x == y % BASE
  {
    SameMod(y);
    SameTrans(y % BASE, y, y);
    SameSums(x, y, 0, 0);
    SameSums(y % BASE, y, 0, 0);
    SameTrans(x, y, y % BASE);
    SameIsEqual(x, y % BASE);
  }

  lemma RemainderTimes(n: nat, a: nat)
    ensures Same(Times(n % BASE, a), Times(n, a)) && n % BASE < BASE
  {
    var q, r := n / BASE, n % BASE;
    Distribute(q * BASE, r, a);
    assert n == q * BASE + r;
    assert q * BASE * a == q * a * BASE;
    Multiple(q * a);
  }

  lemma Multiple(k: int)
    ensures k * BASE % BASE == 0
  {
  }

  lemma ProductFits(x: nat, y: nat)
    requires x < BASE && y < BASE
    ensures x * y < 0x1_0000_0000
  {
    Distribute(BASE - 1, x, y);
    NotNegative(BASE - 1 - x, y);
  }

  lemma NotNegative(x: nat, y: nat)
    ensures x * y >= 0
  {
  }

  /** `adler32_combine`: the checksum of two strings from theirs, without the strings. */
  method Combine(adler1: U32, adler2: U32, len2: nat, ghost first: seq<byte>, ghost second: seq<byte>) returns (r: U32)
    requires adler1 == Pack(After(Sums(1, 0), first)) && adler2 == Pack(After(Sums(1, 0), second)) && len2 == |second|
    ensures r == Pack(After(Sums(1, 0), first + second))
  {
    hide After, Pack, Unpack, Same, Times;
    ghost var s, t := After(Sums(1, 0), first), After(Sums(1, 0), second);
    StillReduced(Sums(1, 0), first);
    StillReduced(Sums(1, 0), second);
    Parts(adler1, s);
    Parts(adler2, t);
    RemainderTimes(len2, s.a);
    ProductFits(len2 % BASE, s.a);
    var rem: U32 := len2 % BASE;
    var sum1: U32 := adler1 % 65536;
    TimesIs(rem, sum1);
    var product: U32 := rem * sum1;
    var sum2: U32 := product % BASE;
    ghost var reduced := sum2;
    sum1 := sum1 + (adler2 % 65536 + BASE - 1);
    sum2 := sum2 + (adler1 / 65536 % 65536 + adler2 / 65536 % 65536 + BASE - rem);
    sum1, sum2 := Lower(sum1, sum2);
    Joined(first, second, sum1, sum2, rem, product, reduced);
    PackUnpack(Sums(sum1, sum2));
    Packed(sum1, sum2);
    r := sum1 + 65536 * sum2;
  }

  /** The subtractions that bring both sums below the base. */
  method Lower(a: U32, b: U32) returns (sum1: U32, sum2: U32)
    requires a < 3 * BASE && b < 4 * BASE
    ensures sum1 < BASE && Same(sum1, a) && sum2 < BASE && Same(sum2, b)
  {
    sum1, sum2 := a, b;
    if sum1 >= BASE {
      sum1 := sum1 - BASE;
    }
    if sum1 >= BASE {
      sum1 := sum1 - BASE;
    }
    if sum2 >= 2 * BASE {
      sum2 := sum2 - 2 * BASE;
    }
    if sum2 >= BASE {
      sum2 := sum2 - BASE;
    }
  }

  lemma Packed(a: nat, b: nat)
    ensures Pack(Sums(a, b)) == a + 65536 * b
  {
  }

  lemma Parts(adler: nat, s: Sums)
    requires adler == Pack(s) && Reduced(s)
    ensures adler % 65536 == s.a && adler / 65536 % 65536 == s.b
  {
    PackUnpack(s);
  }

  lemma TimesIs(n: nat, a: nat)
    ensures Times(n, a) == n * a
  {
  }

  lemma Joined(first: seq<byte>, second: seq<byte>, sum1: nat, sum2: nat, rem: nat, product: nat, reduced: nat)
    requires sum1 < BASE && sum2 < BASE && rem == |second| % BASE && reduced == product % BASE
    requires Same(product, Times(|second|, After(Sums(1, 0), first).a))
    requires Same(sum1, After(Sums(1, 0), first).a + After(Sums(1, 0), second).a + BASE - 1)
    requires Same(sum2, reduced + After(Sums(1, 0), first).b + After(Sums(1, 0), second).b + BASE - rem)
    ensures After(Sums(1, 0), first + second) == Sums(sum1, sum2)
  {
    hide After, Plain, Times, Same;
    var n := |second|;
    var s, t, p := After(Sums(1, 0), first), After(Sums(1, 0), second), Plain(second);
    StillReduced(Sums(1, 0), first);
    AfterAppend(Sums(1, 0), first, second);
    StillReduced(s, second);
    AfterIs(s, second);
    AfterIs(Sums(1, 0), second);
    TimesOne(n);
    FirstSum(sum1, After(s, second).a, s.a, t.a, p.a);
    SecondSum(sum2, After(s, second).b, s.b, t.b, p.b, n, rem, product, reduced, Times(n, s.a));
  }

  lemma TimesOne(n: nat)
    ensures Times(n, 1) == n
  {
  }

  lemma FirstSum(sum1: nat, want: nat, s: nat, t: nat, p: nat)
    requires sum1 < BASE && want < BASE && Same(sum1, s + t + BASE - 1) && Same(t, 1 + p) && Same(want, s + p)
    ensures sum1 == want
  {
  }

  lemma SecondSum(sum2: nat, want: nat, s: nat, t: nat, p: nat, n: nat, rem: nat, product: nat, reduced: nat, times: nat)
    requires sum2 < BASE && want < BASE && rem == n % BASE && reduced == product % BASE && Same(product, times)
    requires Same(sum2, reduced + s + t + BASE - rem) && Same(t, 0 + n + p) && Same(want, s + times + p)
    ensures sum2 == want
  {
  }
}
