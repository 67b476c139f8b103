/** The rolling hash (`rabin/rabin.c`): arithmetic on polynomials over GF(2), one bit a coefficient. */
module Rabin {
  import opened Common
  import opened Kraft
  import opened BitIO

  // ---------------------------------------------------------------- addition

  /** The sum of two polynomials: `a ^ b`. */
  function Xor(a: nat, b: nat): nat
    decreases a + b
  {
    if a == 0 && b == 0 then 0 else 2 * Xor(a / 2, b / 2) + if a % 2 != b % 2 then 1 else 0
  }

  lemma XorStep(a: nat, b: nat)
    ensures Xor(a, b) / 2 == Xor(a / 2, b / 2)
    ensures Xor(a, b) % 2 == if a % 2 != b % 2 then 1 else 0
  {
  }

  lemma {:induction false} XorZero(a: nat)
    ensures Xor(a, 0) == a && Xor(0, a) == a
  {
    if a > 0 { XorZero(a / 2); }
  }

  lemma {:induction false} XorSelf(a: nat)
    ensures Xor(a, a) == 0
  {
    if a > 0 { XorSelf(a / 2); }
  }

  lemma {:induction false} XorCommutes(a: nat, b: nat)
    ensures Xor(a, b) == Xor(b, a)
    decreases a + b
  {
    if a + b > 0 { XorCommutes(a / 2, b / 2); }
  }

  lemma SameBits(x: nat, y: nat)
    requires x / 2 == y / 2 && x % 2 == y % 2
    ensures x == y
  {
  }

  lemma {:induction false} XorAssociates(a: nat, b: nat, c: nat)
    ensures Xor(Xor(a, b), c) == Xor(a, Xor(b, c))
    decreases a + b + c
  {
    if a + b + c == 0 {
      XorZero(0);
    } else {
      hide Xor;
      XorAssociates(a / 2, b / 2, c / 2);
      XorStep(a, b);
      XorStep(b, c);
      XorStep(Xor(a, b), c);
      XorStep(a, Xor(b, c));
      SameBits(Xor(Xor(a, b), c), Xor(a, Xor(b, c)));
    }
  }

  /** Adding pairwise, in either order. */
  lemma XorSwap(a: nat, b: nat, c: nat, d: nat)
    ensures Xor(Xor(a, b), Xor(c, d)) == Xor(Xor(a, c), Xor(b, d))
  {
    hide Xor;
    XorAssociates(a, b, Xor(c, d));
    XorAssociates(b, c, d);
    XorCommutes(b, c);
    XorAssociates(c, b, d);
    XorAssociates(a, c, Xor(b, d));
  }

  lemma XorDouble(a: nat, b: nat)
    ensures Xor(2 * a, 2 * b) == 2 * Xor(a, b)
  {
    if a + b == 0 {
      XorZero(0);
    } else {
      XorStep(2 * a, 2 * b);
    }
  }

  lemma {:induction false} XorBound(a: nat, b: nat, n: nat)
    requires a < Pow2(n) && b < Pow2(n)
    ensures Xor(a, b) < Pow2(n)
  {
    if n == 0 {
      XorZero(0);
    } else {
      XorBound(a / 2, b / 2, n - 1);
      hide Xor;
      XorStep(a, b);
    }
  }

  lemma {:induction false} XorShl(a: nat, b: nat, n: nat)
    ensures Xor(Shl(a, n), Shl(b, n)) == Shl(Xor(a, b), n)
  {
    if n > 0 {
      XorShl(a, b, n - 1);
      hide Xor;
      XorDouble(Shl(a, n - 1), Shl(b, n - 1));
    }
  }

  /** Adding below the lowest bit of `Shl(a, n)` is the same as `|` and `+`. */
  lemma {:induction false} XorDisjoint(a: nat, b: nat, n: nat)
    requires b < Pow2(n)
    ensures Xor(Shl(a, n), b) == Shl(a, n) + b
  {
    if n == 0 {
      XorZero(a);
    } else {
      XorDisjoint(a, b / 2, n - 1);
      hide Xor, Shl;
      ShlNext(a, n - 1);
      XorStep(Shl(a, n), b);
      SameBits(Xor(Shl(a, n), b), Shl(a, n) + b);
    }
  }

  lemma {:induction false} ShlBelow(a: nat, m: nat, n: nat)
    requires a < Pow2(m)
    ensures Shl(a, n) < Pow2(m + n)
  {
    if n > 0 { ShlBelow(a, m, n - 1); }
  }

  lemma {:induction false} ShlAbove(a: nat, n: nat)
    requires a > 0
    ensures Shl(a, n) >= Pow2(n)
  {
    if n > 0 { ShlAbove(a, n - 1); }
  }

  /** `x` is its high part above its low one. */
  lemma {:induction false} HighLow(x: nat, n: nat)
    ensures Shl(High(x, n), n) <= x < Shl(High(x, n), n) + Pow2(n)
  {
    if n > 0 {
      HighLow(x / 2, n - 1);
      hide High, Shl, Pow2;
      HighNext(x, n - 1);
      ShlNext(High(x, n), n - 1);
      Pow2Next(n - 1);
    }
  }

  lemma HighNext(x: nat, n: nat)
    ensures High(x, n + 1) == High(x / 2, n)
  {
  }

  /** A sum keeps the leading terms that only one summand has. */
  lemma {:induction false} XorKeepsTop(a: nat, b: nat, n: nat)
    requires a >= Pow2(n) && b < Pow2(n)
    ensures Xor(a, b) >= Pow2(n)
  {
    if n == 0 {
      XorZero(a);
    } else {
      XorKeepsTop(a / 2, b / 2, n - 1);
      hide Xor;
      XorStep(a, b);
    }
  }

  /** Equal leading terms cancel. */
  lemma {:induction false} XorCancelsTop(a: nat, b: nat, n: nat)
    requires Pow2(n) <= a < Pow2(n + 1) && Pow2(n) <= b < Pow2(n + 1)
    ensures Xor(a, b) < Pow2(n)
  {
    if n == 0 {
      XorSelf(1);
    } else {
      Pow2Next(n);
      XorCancelsTop(a / 2, b / 2, n - 1);
      hide Xor;
      XorStep(a, b);
    }
  }

  // ---------------------------------------------------------------- multiples and remainders

  /** The product of two polynomials. */
  function Mul(q: nat, p: nat): nat {
    if q == 0 then 0 else Xor(if q % 2 == 1 then p else 0, 2 * Mul(q / 2, p))
  }

  lemma MulStep(q: nat, p: nat)
    ensures Mul(q, p) == Xor(if q % 2 == 1 then p else 0, 2 * Mul(q / 2, p))
  {
    if q == 0 { XorZero(0); }
  }

  lemma {:induction false} MulAdds(q: nat, r: nat, p: nat)
    ensures Mul(Xor(q, r), p) == Xor(Mul(q, p), Mul(r, p))
    decreases q + r
  {
    if q + r == 0 {
      XorZero(0);
    } else {
      hide Xor, Mul;
      MulAdds(q / 2, r / 2, p);
      XorStep(q, r);
      MulStep(q, p);
      MulStep(r, p);
      MulStep(Xor(q, r), p);
      var q0 := if q % 2 == 1 then p else 0;
      var r0 := if r % 2 == 1 then p else 0;
      XorSwap(q0, 2 * Mul(q / 2, p), r0, 2 * Mul(r / 2, p));
      XorDouble(Mul(q / 2, p), Mul(r / 2, p));
      XorSelf(p);
      XorZero(p);
      XorZero(0);
    }
  }

  lemma {:induction false} MulShl(q: nat, p: nat, n: nat)
    ensures Mul(Shl(q, n), p) == Shl(Mul(q, p), n)
  {
    if n > 0 {
      MulShl(q, p, n - 1);
      hide Mul;
      MulStep(Shl(q, n), p);
      XorZero(2 * Mul(Shl(q, n - 1), p));
    }
  }

  lemma MulOne(p: nat)
    ensures Mul(1, p) == p
  {
    MulStep(1, p);
    XorZero(p);
  }

  /** A non-zero multiple has at least the degree of `p`. */
  lemma {:induction false} MulAbove(q: nat, p: nat, n: nat)
    requires q > 0 && Pow2(n) <= p < Pow2(n + 1)
    ensures Mul(q, p) >= Pow2(n)
  {
    if q == 1 {
      MulOne(p);
    } else {
      MulAbove(q / 2, p, n);
      hide Mul, Xor, Pow2;
      Pow2Next(n);
      MulStep(q, p);
      var low := if q % 2 == 1 then p else 0;
      XorKeepsTop(2 * Mul(q / 2, p), low, n + 1);
      XorCommutes(2 * Mul(q / 2, p), low);
    }
  }

  /** `x` and `y` differ by a multiple of `p`. */
  ghost predicate Congruent(x: nat, y: nat, p: nat) {
    exists q :: Mul(q, p) == Xor(x, y)
  }

  lemma CongruentSelf(x: nat, p: nat)
    ensures Congruent(x, x, p)
  {
    XorSelf(x);
    assert Mul(0, p) == 0;
  }

  lemma CongruentSums(x: nat, y: nat, x': nat, y': nat, p: nat)
    requires Congruent(x, y, p) && Congruent(x', y', p)
    ensures Congruent(Xor(x, x'), Xor(y, y'), p)
  {
    var q :| Mul(q, p) == Xor(x, y);
    var q' :| Mul(q', p) == Xor(x', y');
    hide Mul, Xor;
    MulAdds(q, q', p);
    XorSwap(x, x', y, y');
    assert Mul(Xor(q, q'), p) == Xor(Xor(x, x'), Xor(y, y'));
  }

  lemma CongruentShl(x: nat, y: nat, n: nat, p: nat)
    requires Congruent(x, y, p)
    ensures Congruent(Shl(x, n), Shl(y, n), p)
  {
    var q :| Mul(q, p) == Xor(x, y);
    hide Mul, Xor, Shl;
    MulShl(q, p, n);
    XorShl(x, y, n);
    assert Mul(Shl(q, n), p) == Xor(Shl(x, n), Shl(y, n));
  }

  lemma CongruentTrans(x: nat, y: nat, z: nat, p: nat)
    requires Congruent(x, y, p) && Congruent(y, z, p)
    ensures Congruent(x, z, p)
  {
    hide Congruent, Xor;
    CongruentSums(x, y, y, z, p);
    CancelMiddle(x, y, z, p);
  }

  lemma CancelMiddle(x: nat, y: nat, z: nat, p: nat)
    requires Congruent(Xor(x, y), Xor(y, z), p)
    ensures Congruent(x, z, p)
  {
    var q :| Mul(q, p) == Xor(Xor(x, y), Xor(y, z));
    hide Mul, Xor;
    XorCommutes(x, y);
    XorSwap(y, x, y, z);
    XorSelf(y);
    XorZero(Xor(x, z));
    assert Mul(q, p) == Xor(x, z);
  }

  lemma CongruentSym(x: nat, y: nat, p: nat)
    requires Congruent(x, y, p)
    ensures Congruent(y, x, p)
  {
    var q :| Mul(q, p) == Xor(x, y);
    XorCommutes(x, y);
    assert Mul(q, p) == Xor(y, x);
  }

  /** `r` is the remainder of `x`: congruent, and of a lower degree than `p`. */
  ghost predicate IsRem(x: nat, r: nat, p: nat, n: nat) {
    r < Pow2(n) && Congruent(x, r, p)
  }

  /** There is only one remainder. */
  lemma RemUnique(x: nat, r: nat, s: nat, p: nat, n: nat)
    requires Pow2(n) <= p < Pow2(n + 1) && IsRem(x, r, p, n) && IsRem(x, s, p, n)
    ensures r == s
  {
    CongruentSym(x, r, p);
    CongruentTrans(r, x, s, p);
    var q :| Mul(q, p) == Xor(r, s);
    hide Mul, Congruent;
    XorBound(r, s, n);
    if q > 0 {
      MulAbove(q, p, n);
    } else {
      MulZero(p);
      XorNothing(r, s);
    }
  }

  lemma MulZero(p: nat)
    ensures Mul(0, p) == 0
  {
  }

  lemma {:induction false} XorNothing(r: nat, s: nat)
    requires Xor(r, s) == 0
    ensures r == s
    decreases r + s
  {
    if r + s > 0 { XorNothing(r / 2, s / 2); }
  }

  // ---------------------------------------------------------------- degree and remainder

  const POLYNOMIAL: nat := 0x3DA3358B4DC173
  const POLYNOMIAL_DEGREE: nat := 53
  const POL_SHIFT: nat := POLYNOMIAL_DEGREE - 8

  /** The degree; -1 for the zero polynomial. */
  function Deg(x: nat): (d: int)
    ensures d >= -1 && (d == -1 <==> x == 0)
  {
    if x == 0 then -1 else 1 + Deg(x / 2)
  }

  /** The degree is where the leading term is. */
  lemma {:induction false} DegIs(x: nat)
    requires x > 0
    ensures Deg(x) >= 0 && Pow2(Deg(x)) <= x < Pow2(Deg(x) + 1)
  {
    if x > 1 { DegIs(x / 2); }
  }

  lemma {:induction false} DegUnique(x: nat, n: nat)
    requires Pow2(n) <= x < Pow2(n + 1)
    ensures Deg(x) == n
  {
    if n > 0 {
      DegUnique(x / 2, n - 1);
    }
  }

  lemma {:induction false} TopBitTest(p: nat, k: nat)
    requires p < Pow2(k + 1)
    ensures High(p, k) % 2 == 1 <==> p >= Pow2(k)
  {
    if k > 0 { TopBitTest(p / 2, k - 1); }
  }

  /** `deg`: tries the 64 bits from the top. */
  method DegOf(p: nat) returns (d: int)
    requires p < Pow2(64)
    ensures d == Deg(p)
  {
    hide Deg, Pow2, TestBit, High;
    d := -1;
    var mask := Pow2(63);
    var i := 0;
    while i < 64
      invariant i <= 64 && d == -1 && p < Pow2(64 - i) && (i < 64 ==> mask == Pow2(63 - i))
    {
      Pow2Next(63 - i);
      TestBitIsHigh(p, 63 - i);
      TopBitTest(p, 63 - i);
      if TestBit(p, mask) {
        DegUnique(p, 63 - i);
        d := 63 - i;
        break;
      }
      if i < 63 { Pow2Next(62 - i); }
      mask := mask / 2;
      i := i + 1;
    }
    if d == -1 { DegOfZero(p); }
  }

  lemma DegOfZero(p: nat)
    requires p < Pow2(0)
    ensures Deg(p) == -1
  {
  }

  /** One step of the long division lowers the degree and keeps the residue. */
  lemma ModStep(x: nat, p: nat, shift: nat)
    requires p > 0 && Deg(x) == Deg(p) + shift
    ensures Shl(p, shift) < Pow2(Deg(x) + 1)
    ensures Xor(x, Shl(p, shift)) < Pow2(Deg(x)) <= x && Congruent(x, Xor(x, Shl(p, shift)), p)
  {
    hide Deg, Shl, Xor, Congruent, Pow2;
    DegIs(x);
    DegIs(p);
    ShlBelow(p, Deg(p) + 1, shift);
    ShlAtLeast(p, Deg(p), shift);
    XorCancelsTop(x, Shl(p, shift), Deg(x));
    MultipleVanishes(x, p, shift);
  }

  lemma {:induction false} ShlAtLeast(a: nat, m: nat, n: nat)
    requires a >= Pow2(m)
    ensures Shl(a, n) >= Pow2(m + n)
  {
    if n > 0 { ShlAtLeast(a, m, n - 1); }
  }

  lemma MultipleVanishes(x: nat, p: nat, shift: nat)
    ensures Congruent(x, Xor(x, Shl(p, shift)), p)
  {
    hide Xor, Mul, Shl;
    var y := Shl(p, shift);
    MulOne(p);
    MulShl(1, p, shift);
    XorAssociates(x, x, y);
    XorSelf(x);
    XorZero(y);
    assert Mul(Shl(1, shift), p) == Xor(x, Xor(x, y));
  }

  /** `mod`. */
  method Mod(x0: nat, p: nat, ghost n: nat) returns (x: nat)
    requires x0 < Pow2(64) && Pow2(n) <= p < Pow2(n + 1) && n < 64
    ensures IsRem(x0, x, p, n)
  {
    hide Deg, Pow2, Shl, Xor, Congruent;
    x := x0;
    CongruentSelf(x, p);
    DegUnique(p, n);
    Pow2Monotone(n + 1, 64);
    var dx := DegOf(x);
    var dp := DegOf(p);
    while dx >= dp
      invariant x < Pow2(64) && dx == Deg(x) && dp == Deg(p) == n && Congruent(x0, x, p)
      decreases x
    {
      var shift := dx - dp;
      ModStep(x, p, shift);
      CongruentTrans(x0, x, Xor(x, Shl(p, shift)), p);
      x := Xor(x, Shl(p, shift));
      dx := DegOf(x);
    }
    LowDegree(x, n);
  }

  lemma LowDegree(x: nat, n: nat)
    requires Deg(x) < n
    ensures x < Pow2(n)
  {
    if x > 0 {
      DegIs(x);
      Pow2Monotone(Deg(x) + 1, n);
    }
  }

  lemma PolynomialDegree()
    ensures Pow2(53) <= POLYNOMIAL < Pow2(54) && Pow2(8) == 256
  {
    PowersOfTwo();
    hide Pow2;
    Pow2Sum(8, 8);
    Pow2Sum(16, 16);
    Pow2Sum(32, 16);
    Pow2Sum(48, 5);
    Pow2Next(53);
  }

  // ---------------------------------------------------------------- the window as a polynomial

  /** Bytes as one polynomial, the first byte leading. */
  function Poly(bytes: seq<byte>): nat {
    if bytes == [] then 0 else Shl(Poly(bytes[..|bytes| - 1]), 8) + bytes[|bytes| - 1]
  }

  lemma PolySnoc(bytes: seq<byte>, b: byte)
    ensures Poly(bytes + [b]) == Shl(Poly(bytes), 8) + b == Xor(Shl(Poly(bytes), 8), b)
  {
    assert (bytes + [b])[..|bytes|] == bytes;
    PowersOfTwo();
    XorDisjoint(Poly(bytes), b, 8);
  }

  /** The first byte's share, which sliding it out removes. */
  lemma {:induction false} PolyCons(o: byte, rest: seq<byte>)
    ensures Poly([o] + rest) == Xor(Shl(o, 8 * |rest|), Poly(rest))
  {
    hide Xor, Shl, Poly;
    if rest == [] {
      PolySnoc([], o);
      EmptyPoly();
      ShlNothing(o);
      assert [] + [o] == [o] + rest;
      XorZero(o);
      ShlZero(8);
    } else {
      var n := |rest| - 1;
      var r, b := rest[..n], rest[n];
      PolyCons(o, r);
      PolySnoc([o] + r, b);
      PolySnoc(r, b);
      assert [o] + r + [b] == [o] + rest && r + [b] == rest;
      XorShl(Shl(o, 8 * n), Poly(r), 8);
      ShlTwice(o, 8 * n, 8);
      XorAssociates(Shl(o, 8 * |rest|), Shl(Poly(r), 8), b);
    }
  }

  lemma EmptyPoly()
    ensures Poly([]) == 0
  {
  }

  lemma ShlNothing(x: nat)
    ensures Shl(x, 0) == x
  {
  }

  // ---------------------------------------------------------------- tables

  /** What the tables hold for windows of `winsize` bytes. */
  ghost predicate Tables(outTable: seq<nat>, modTable: seq<nat>, winsize: nat) {
    && winsize > 0 && |outTable| == |modTable| == 256
    && (forall b :: 0 <= b < 256 ==> IsOut(outTable[b], b, winsize))
    && forall b :: 0 <= b < 256 ==> IsMod(modTable[b], b)
  }

  ghost predicate IsOut(t: nat, b: nat, winsize: nat)
    requires winsize > 0
  {
    IsRem(Shl(b, 8 * (winsize - 1)), t, POLYNOMIAL, 53)
  }

  /** The remainder of the byte above the polynomial, below the byte itself. */
  ghost predicate IsMod(t: nat, b: nat) {
    exists a :: t == Shl(b, 53) + a && IsRem(Shl(b, 53), a, POLYNOMIAL, 53)
  }

  /** `append_byte`. */
  method AppendByte(hash: nat, b: byte) returns (r: nat)
    requires hash < Pow2(53)
    ensures IsRem(Shl(hash, 8) + b, r, POLYNOMIAL, 53)
  {
    hide Pow2, Shl, IsRem;
    PolynomialDegree();
    ByteAppended(hash, b);
    r := Mod(Shl(hash, 8) + b, POLYNOMIAL, 53);
  }

  lemma ByteAppended(hash: nat, b: byte)
    requires hash < Pow2(53)
    ensures Shl(hash, 8) + b < Pow2(61) < Pow2(64)
    ensures Shl(hash, 8) + b == Xor(Shl(hash, 8), b)
  {
    PowersOfTwo();
    XorDisjoint(hash, b, 8);
    hide Xor, Pow2;
    ShlFits(hash, b, 53, 8);
    Pow2Next(61);
    Pow2Next(62);
    Pow2Next(63);
    Positive(61);
  }

  lemma Positive(n: nat)
    ensures Pow2(n) > 0
  {
  }

  /** A zero byte shifts. */
  lemma ZeroByte(x: nat, hash: nat, r: nat)
    requires IsRem(x, hash, POLYNOMIAL, 53) && IsRem(Shl(hash, 8), r, POLYNOMIAL, 53)
    ensures IsRem(Shl(x, 8), r, POLYNOMIAL, 53)
  {
    hide Congruent, Pow2, Shl;
    CongruentShl(x, hash, 8, POLYNOMIAL);
    CongruentTrans(Shl(x, 8), Shl(hash, 8), r, POLYNOMIAL);
  }

  /** The hash of a byte and `winsize - 1` zero bytes. */
  method OutEntry(b: byte, winsize: nat) returns (hash: nat)
    requires winsize > 0
    ensures IsOut(hash, b, winsize)
  {
    hide Shl, IsRem, Pow2;
    Positive(53);
    hash := AppendByte(0, b);
    FirstByte(b);
    for i := 0 to winsize - 1
      invariant IsRem(Shl(b, 8 * i), hash, POLYNOMIAL, 53)
    {
      RemBelow(Shl(b, 8 * i), hash);
      ghost var before := hash;
      hash := AppendByte(hash, 0);
      ZeroByte(Shl(b, 8 * i), before, hash);
      ShlTwice(b, 8 * i, 8);
    }
  }

  lemma FirstByte(b: byte)
    ensures Shl(0, 8) + b == Shl(b, 0)
  {
    ShlZero(8);
  }

  lemma RemBelow(x: nat, r: nat)
    requires IsRem(x, r, POLYNOMIAL, 53)
    ensures r < Pow2(53)
  {
  }

  method ModEntry(b: byte) returns (t: nat)
    ensures IsMod(t, b)
  {
    hide Shl, IsRem, Pow2;
    PolynomialDegree();
    ShlBelow(b, 8, 53);
    Pow2Next(61);
    Pow2Next(62);
    Pow2Next(63);
    var a := Mod(Shl(b, 53), POLYNOMIAL, 53);
    t := Shl(b, 53) + a;
  }

  /** `calc_tables`. */
  method CalcTables(winsize: nat, outTable: array<nat>, modTable: array<nat>)
    requires winsize > 0 && outTable.Length == modTable.Length == 256 && outTable != modTable
    modifies outTable, modTable
    ensures Tables(outTable[..], modTable[..], winsize)
  {
    hide IsOut, IsMod;
    for b := 0 to 256
      invariant forall k :: 0 <= k < b ==> IsOut(outTable[k], k, winsize)
    {
      outTable[b] := OutEntry(b, winsize);
    }
    for b := 0 to 256
      invariant forall k :: 0 <= k < 256 ==> IsOut(outTable[k], k, winsize)
      invariant forall k :: 0 <= k < b ==> IsMod(modTable[k], k)
    {
      modTable[b] := ModEntry(b);
    }
  }

  // ---------------------------------------------------------------- the rolling hash

  /** The table lookup is the long division: the eight top bits cancel and their remainder takes their place. */
  lemma LookupReduces(digest: nat, b: byte, t: nat)
    requires digest < Pow2(53) && IsMod(t, High(digest, 45))
    ensures IsRem(Shl(digest, 8) + b, Xor(Shl(digest, 8) + b, t), POLYNOMIAL, 53)
  {
    hide *;
    var i := High(digest, 45);
    var x := Shl(digest, 8) + b;
    var a := EntryRemainder(t, i);
    LowPart(digest, b, a, t);
    CongruentSelf(x, POLYNOMIAL);
    CongruentZero(Shl(i, 53), a);
    XorZero(x);
    CongruentSums(x, x, 0, Xor(Shl(i, 53), a), POLYNOMIAL);
    XorDisjoint(i, a, 53);
    MakeRem(x, Xor(x, t));
  }

  lemma EntryRemainder(t: nat, i: nat) returns (a: nat)
    requires IsMod(t, i)
    ensures t == Shl(i, 53) + a && a < Pow2(53) && Congruent(Shl(i, 53), a, POLYNOMIAL)
  {
    hide Shl, Pow2, Congruent;
    a :| t == Shl(i, 53) + a && IsRem(Shl(i, 53), a, POLYNOMIAL, 53);
  }

  lemma MakeRem(x: nat, r: nat)
    requires r < Pow2(53) && Congruent(x, r, POLYNOMIAL)
    ensures IsRem(x, r, POLYNOMIAL, 53)
  {
    hide Pow2, Congruent;
  }

  lemma UseRem(x: nat, r: nat)
    requires IsRem(x, r, POLYNOMIAL, 53)
    ensures r < Pow2(53) && Congruent(x, r, POLYNOMIAL)
  {
    hide Pow2, Congruent;
  }

  /** A multiple is congruent to zero. */
  lemma CongruentZero(x: nat, a: nat)
    requires Congruent(x, a, POLYNOMIAL)
    ensures Congruent(0, Xor(x, a), POLYNOMIAL)
  {
    var q :| Mul(q, POLYNOMIAL) == Xor(x, a);
    XorZero(Xor(x, a));
    assert Mul(q, POLYNOMIAL) == Xor(0, Xor(x, a));
  }

  lemma SplitDigest(digest: nat, b: byte)
    requires digest < Pow2(53)
    ensures High(digest, 45) < 256
    ensures Shl(High(digest, 45), 53) <= Shl(digest, 8) + b < Shl(High(digest, 45), 53) + Pow2(53)
  {
    hide *;
    PolynomialDegree();
    HighLow(digest, 45);
    HighFits(digest, 8, 45);
    ShlTwice(High(digest, 45), 45, 8);
    var l := digest - Shl(High(digest, 45), 45);
    ShlAdd(Shl(High(digest, 45), 45), l, 8);
    ShlFits(l, b, 45, 8);
  }

  lemma LowPart(digest: nat, b: byte, a: nat, t: nat)
    requires digest < Pow2(53) && a < Pow2(53) && t == Shl(High(digest, 45), 53) + a
    ensures Xor(Shl(digest, 8) + b, t) < Pow2(53)
  {
    hide *;
    SplitDigest(digest, b);
    var top := Shl(High(digest, 45), 53);
    var l := Shl(digest, 8) + b - top;
    XorDisjoint(High(digest, 45), l, 53);
    XorDisjoint(High(digest, 45), a, 53);
    XorSwap(top, l, top, a);
    XorSelf(top);
    XorZero(Xor(l, a));
    XorBound(l, a, 53);
  }

  /** A digest and the window it is the hash of, oldest byte first. */
  ghost predicate HashOf(window: seq<byte>, digest: nat) {
    IsRem(Poly(window), digest, POLYNOMIAL, 53)
  }

  /** Taking out the oldest byte. */
  lemma SlideOut(window: seq<byte>, digest: nat, t: nat)
    requires window != [] && HashOf(window, digest) && IsOut(t, window[0], |window|)
    ensures HashOf(window[1..], Xor(digest, t))
  {
    hide *;
    var o, rest := window[0], window[1..];
    assert [o] + rest == window;
    var s := Shl(o, 8 * |rest|);
    UseHash(window, digest);
    UseOut(t, o, |window|);
    PolyCons(o, rest);
    XorBound(digest, t, 53);
    CongruentSums(Poly(window), digest, s, t, POLYNOMIAL);
    XorCommutes(s, Poly(rest));
    XorAssociates(Poly(rest), s, s);
    XorSelf(s);
    XorZero(Poly(rest));
    MakeHash(rest, Xor(digest, t));
  }

  lemma UseOut(t: nat, b: nat, winsize: nat)
    requires winsize > 0 && IsOut(t, b, winsize)
    ensures t < Pow2(53) && Congruent(Shl(b, 8 * (winsize - 1)), t, POLYNOMIAL)
  {
    hide Shl, Pow2, Congruent;
  }

  /** Putting in a new one. */
  lemma SlideIn(rest: seq<byte>, digest: nat, b: byte, r: nat)
    requires HashOf(rest, digest) && IsRem(Shl(digest, 8) + b, r, POLYNOMIAL, 53)
    ensures HashOf(rest + [b], r)
  {
    hide *;
    UseHash(rest, digest);
    UseRem(Shl(digest, 8) + b, r);
    ByteAppended(digest, b);
    PolySnoc(rest, b);
    CongruentShl(Poly(rest), digest, 8, POLYNOMIAL);
    CongruentSelf(b, POLYNOMIAL);
    CongruentSums(Shl(Poly(rest), 8), Shl(digest, 8), b, b, POLYNOMIAL);
    CongruentTrans(Poly(rest + [b]), Shl(digest, 8) + b, r, POLYNOMIAL);
    MakeHash(rest + [b], r);
  }

  lemma UseHash(window: seq<byte>, digest: nat)
    requires HashOf(window, digest)
    ensures digest < Pow2(53) && Congruent(Poly(window), digest, POLYNOMIAL)
  {
    hide Poly, Pow2, Congruent;
  }

  lemma MakeHash(window: seq<byte>, digest: nat)
    requires digest < Pow2(53) && Congruent(Poly(window), digest, POLYNOMIAL)
    ensures HashOf(window, digest)
  {
    hide Poly, Pow2, Congruent;
  }

  /** The digest is a function of the window alone. */
  lemma SameWindowSameDigest(window: seq<byte>, d: nat, e: nat)
    requires HashOf(window, d) && HashOf(window, e)
    ensures d == e
  {
    PolynomialDegree();
    hide Poly, Congruent, Pow2;
    RemUnique(Poly(window), d, e, POLYNOMIAL, 53);
  }

  lemma NextPos(p: nat, n: nat)
    requires p < n
    ensures (p + 1) % n == if p + 1 == n then 0 else p + 1
  {
  }

  /** One byte written at the oldest place, the window is one byte on. */
  lemma Moved(w: seq<byte>, p: nat, w': seq<byte>, p': nat, h: seq<byte>, b: byte)
    requires p < |w| && w' == w[..p] + [b] + w[p + 1..] && h == w[p..] + w[..p]
    requires p' == if p + 1 == |w| then 0 else p + 1
    ensures p' < |w'| == |w| && w'[p'..] + w'[..p'] == h[1..] + [b]
  {
    var head, tail := w[..p], w[p + 1..];
    assert w[p..] == [w[p]] + tail;
    assert h[1..] == tail + head;
    if p + 1 == |w| {
      assert tail == [] && w' == head + [b];
      assert w'[0..] + w'[..0] == w';
    } else {
      assert w'[p + 1..] == tail && w'[..p + 1] == head + [b];
      assert tail + (head + [b]) == tail + head + [b];
    }
  }

  lemma Written(w: seq<byte>, p: nat, b: byte)
    requires p < |w|
    ensures w[p := b] == w[..p] + [b] + w[p + 1..]
  {
  }

  class RabinHash {
    const window: array<byte>
    var wpos: nat
    var count: nat
    var digest: nat

    constructor (winsize: nat)
      ensures fresh(window) && window.Length == winsize
    {
      window := new byte[winsize];
      wpos, count, digest := 0, 0, 0;
    }

    /** The bytes in the window, oldest first. */
    ghost function History(): (h: seq<byte>)
      requires wpos <= window.Length
      reads this, window
      ensures |h| == window.Length
    {
      window[wpos..] + window[..wpos]
    }

    /** The digest is the remainder of the window. */
    ghost predicate Valid()
      reads this, window
    {
      wpos < window.Length && digest < Pow2(53) && HashOf(History(), digest)
    }

    /** `rabin_append`. */
    method Append(b: byte, modTable: array<nat>)
      requires digest < Pow2(53) && modTable.Length == 256
      requires forall i :: 0 <= i < 256 ==> IsMod(modTable[i], i)
      modifies this`digest
      ensures IsRem(Shl(old(digest), 8) + b, digest, POLYNOMIAL, 53)
    {
      hide IsMod, IsRem, High, Shl, Pow2, Xor;
      SplitDigest(digest, b);
      var index := High(digest, POL_SHIFT);
      LookupReduces(digest, b, modTable[index]);
      digest := Shl(digest, 8);
      digest := digest + b;
      digest := Xor(digest, modTable[index]);
    }

    /** `rabin_slide`: the window moves by one byte and the digest stays its remainder. */
    method Slide(b: byte, outTable: array<nat>, modTable: array<nat>)
      requires Valid() && Tables(outTable[..], modTable[..], window.Length)
      modifies this, window
      ensures Valid() && History() == old(History())[1..] + [b]
    {
      hide *;
      InUse();
      ghost var h := History();
      ghost var w, p := window[..], wpos;
      var out := window[wpos];
      TablesAt(outTable[..], modTable[..], window.Length, out);
      SlideOut(h, digest, outTable[out]);
      window[wpos] := b;
      digest := Xor(digest, outTable[out]);
      wpos := (wpos + 1) % window.Length;
      ghost var d := digest;
      UseHash(h[1..], d);
      Append(b, modTable);
      SlideIn(h[1..], d, b, digest);
      NextPos(p, |w|);
      Written(w, p, b);
      Moved(w, p, window[..], wpos, h, b);
      Again(h[1..] + [b]);
    }

    lemma InUse()
      requires Valid()
      ensures wpos < window.Length == |History()| && digest < Pow2(53) && HashOf(History(), digest)
      ensures History() == window[..][wpos..] + window[..][..wpos] && History()[0] == window[wpos]
    {
      hide HashOf, Pow2;
    }

    lemma Again(h: seq<byte>)
      requires wpos < window.Length && h == window[..][wpos..] + window[..][..wpos] && HashOf(h, digest)
      ensures Valid() && History() == h
    {
      UseHash(h, digest);
      hide HashOf, Pow2;
    }

    /** `rabin_reset`: an all-zero window, then the byte 1. */
    method Reset(outTable: array<nat>, modTable: array<nat>)
      requires Tables(outTable[..], modTable[..], window.Length)
      modifies this, window
      ensures Valid() && |History()| == window.Length
      ensures forall i :: 0 <= i < window.Length - 1 ==> History()[i] == 0
      ensures History()[window.Length - 1] == 1
    {
      hide IsOut, IsMod, HashOf, Pow2;
      for i := 0 to window.Length
        invariant forall k :: 0 <= k < i ==> window[k] == 0
      {
        window[i] := 0;
      }
      digest, wpos, count := 0, 0, 0;
      HashOfZeros(History());
      Positive(53);
      Slide(1, outTable, modTable);
    }

    /** Slides a run of bytes, as `rabin_slide_a_block` does with 128. */
    method SlideBlock(block: seq<byte>, outTable: array<nat>, modTable: array<nat>)
      requires Valid() && Tables(outTable[..], modTable[..], window.Length)
      modifies this, window
      ensures Valid() && History() == (old(History()) + block)[|block|..]
      ensures |block| >= window.Length ==> HashOf(block[|block| - window.Length..], digest)
    {
      hide IsOut, IsMod, HashOf, Pow2, Tables;
      ghost var h := History();
      for i := 0 to |block|
        invariant Valid() && Tables(outTable[..], modTable[..], window.Length)
        invariant History() == (h + block[..i])[i..]
      {
        Slide(block[i], outTable, modTable);
        assert (h + block[..i])[i..][1..] + [block[i]] == (h + block[..i + 1])[i + 1..];
      }
      assert block[..|block|] == block;
      if |block| >= window.Length {
        assert (h + block)[|block|..] == block[|block| - window.Length..];
      }
    }
  }

  lemma TablesAt(outTable: seq<nat>, modTable: seq<nat>, winsize: nat, b: byte)
    requires Tables(outTable, modTable, winsize)
    ensures |outTable| == |modTable| == 256 && winsize > 0 && IsOut(outTable[b], b, winsize)
    ensures forall i :: 0 <= i < 256 ==> IsMod(modTable[i], i)
  {
  }

  lemma HashBelow(window: seq<byte>, digest: nat)
    requires HashOf(window, digest)
    ensures digest < Pow2(53)
  {
  }

  lemma HashOfZeros(window: seq<byte>)
    requires forall i :: 0 <= i < |window| ==> window[i] == 0
    ensures HashOf(window, 0)
  {
    hide Poly, Congruent;
    PolyOfZeros(window);
    CongruentSelf(0, POLYNOMIAL);
    Positive(53);
  }

  lemma {:induction false} PolyOfZeros(window: seq<byte>)
    requires forall i :: 0 <= i < |window| ==> window[i] == 0
    ensures Poly(window) == 0
  {
    if window != [] {
      PolyOfZeros(window[..|window| - 1]);
      ShlZero(8);
    }
  }
}
