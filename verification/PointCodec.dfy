/** The 32-byte encoding of curve points, section 5.1.2 of RFC 8032, as libdotnet/Ed25519.cpp
    writes and reads it: Normalize, EncodePoint, RecoverX and DecodePoint. */
module PointCodec {
  import opened Wrappers
  import opened Bytes
  import opened Field25519
  import opened Edwards
  import opened EdwardsGroup

  // 2^252 - 2, the exponent of the square root.
  const ROOT_EXPONENT: nat := 7237005577332262213973186563042994240829374041602535252466099000494570602494

  /** Ed25519::EncodePoint: y, least significant byte first, with the parity of x in the top bit. */
  function EncodePoint(a: Affine): (b: seq<byte>)
    requires 0 <= a.y
    ensures |b| == 32
  {
    var buf := ToLE(a.y, 32);
    if a.x % 2 == 1 then buf[31 := SetTopBit(buf[31])] else buf
  }

  /** x | 0x80 */
  function SetTopBit(x: byte): byte {
    if x < 128 then x + 128 else x
  }

  /** Ed25519::RecoverX, given BN_mod_inverse. */
  function RecoverX(y: int, inverse: int -> int): int {
    var xx := (y * y - 1) * inverse(D * (y * y) + 1);
    var x := Power(xx, ROOT_EXPONENT) % Q;
    var r := if (x * x - xx) % Q != 0 then x * I % Q else x;
    if r % 2 == 1 then Q - r else r
  }

  /** Ed25519::DecodePoint. */
  function DecodePoint(buf: seq<byte>, inverse: int -> int): Point
    requires |buf| == 32
  {
    var high := buf[31] >= 128;
    var y := LE(buf[31 := buf[31] % 128]);
    var x := RecoverX(y, inverse);
    var r := if (x % 2 == 1) != high then Q - x else x;
    Point(r, y, Some(1), Some(r * y % Q))
  }

  /** Ed25519::Normalize. */
  function Normalize(p: Point, inverse: int -> int): Affine {
    if p.z.Some? then
      var y := inverse(p.z.value);
      Affine(p.x * y % Q, p.y * y % Q)
    else Affine(p.x, p.y)
  }

  /** BN_mod_inverse returns the reduced inverse of every unit. */
  ghost predicate ModInverse(inverse: int -> int) {
    forall a :: Unit(a) ==> Cong(a * inverse(a), 1) && 0 <= inverse(a) < Q
  }

  /** Normalizing any extended representation of a point gives the point itself. */
  lemma NormalizeRepresents(p: Point, a: Affine, inverse: int -> int)
    requires ModInverse(inverse) && Represents(p, a) && Member(a) && (p.z.None? ==> 0 <= p.x < Q && 0 <= p.y < Q)
    ensures Normalize(p, inverse) == a
  {
    hide Cong, OnCurve;
    var z := p.Z();
    if p.z.Some? {
      var i := inverse(z);
      Same(i, i);
      Divide(p.x, a.x, z, i);
      Divide(p.y, a.y, z, i);
      ReducedEqual(p.x * i % Q, a.x);
      ReducedEqual(p.y * i % Q, a.y);
    } else {
      assert a.x * 1 == a.x && a.y * 1 == a.y;
      ReducedEqual(p.x, a.x);
      ReducedEqual(p.y, a.y);
    }
  }

  lemma Divide(p: int, a: int, z: int, i: int)
    requires Cong(p, a * z) && Cong(z * i, 1)
    ensures Cong(p * i % Q, a) && 0 <= p * i % Q < Q
  {
    hide Cong;
    Same(i, i); Same(a, a);
    Times(p, a * z, i, i);
    Times(a, a, z * i, 1);
    assert a * z * i == a * (z * i) by { Regroup(a, z, i); }
    Chain(p * i, a * (z * i), a);
    Reduced(p * i);
    Chain(p * i % Q, p * i, a);
  }

  // ---------------------------------------------------------------------------------------
  // Decoding inverts encoding
  // ---------------------------------------------------------------------------------------

  lemma {:induction false} TopByte(y: int)
    requires 0 <= y < Q
    ensures ToLE(y, 32)[31] < 128 && LE(ToLE(y, 32)) == y
  {
    hide ToLE, LE, Pow256;
    var s := ToLE(y, 32);
    LEToLE(y, 32);
    LEBound(s[..31]);
    Pow256Values();
    Pow256Add(31, 1);
    ModulusIs();
    ModUnique(y, Pow256(32), 0, y);
    LEStep(s, 31);
    assert s[..32] == s;
    ShiftIsProduct(s[31], 31);
    TopDigit(LE(s[..31]), s[31], Pow256(31));
  }

  /** Section 5.1.2 of RFC 8032 as a number: the parity of x is bit 255. */
  lemma {:induction false} EncodingIs(a: Affine)
    requires Member(a)
    ensures LE(EncodePoint(a)) == a.y + a.x % 2 * (128 * Pow256(31))
  {
    hide LE, ToLE, Pow256, Shift;
    TopByte(a.y);
    var s, e := ToLE(a.y, 32), EncodePoint(a);
    assert s[..32] == s && e[..32] == e && e[..31] == s[..31];
    LEStep(s, 31); LEStep(e, 31);
    ShiftIsProduct(s[31], 31); ShiftIsProduct(e[31], 31);
    if a.x % 2 == 1 {
      MoreByTop(s[31], Pow256(31));
    }
  }

  lemma MoreByTop(x: int, p: int)
    ensures (x + 128) * p == x * p + 128 * p
  {
  }

  lemma TopDigit(low: int, top: int, p: int)
    requires 0 <= low < p && 256 * p == 0x1_0000_0000_0000_0000_0000_0000_0000_0000 * 0x1_0000_0000_0000_0000_0000_0000_0000_0000
    requires low + top * p < Q
    ensures top < 128
  {
    ModulusIs();
    if top >= 128 {
      MulMono(128, top, p);
    }
  }

  /** x^2 (1 + d y^2) == y^2 - 1 on the curve, so the quotient that RecoverX forms is x^2. */
  lemma RootArgument(a: Affine, inverse: int -> int)
    requires FieldFacts() && ModInverse(inverse) && OnCurve(a)
    ensures Cong((a.y * a.y - 1) * inverse(D * (a.y * a.y) + 1), a.x * a.x)
  {
    var u := D * (a.y * a.y) + 1;
    RootDenominator(a.y);
    hide Cong;
    CurveSolved(a);
    var i := inverse(u);
    Same(i, i); Same(a.x * a.x, a.x * a.x);
    Times(a.y * a.y - 1, a.x * a.x * u, i, i);
    Times(a.x * a.x, a.x * a.x, u * i, 1);
    assert a.x * a.x * u * i == a.x * a.x * (u * i) by { Regroup(a.x * a.x, u, i); }
    Chain((a.y * a.y - 1) * i, a.x * a.x * (u * i), a.x * a.x);
  }

  lemma CurveSolved(a: Affine)
    requires OnCurve(a)
    ensures Cong(a.y * a.y - 1, a.x * a.x * (D * (a.y * a.y) + 1))
  {
    hide Cong;
    var xx, yy := a.x * a.x, a.y * a.y;
    Regroup4(a.x, a.y, a.x, a.y);
    Same(xx - 1, xx - 1);
    Plus(yy - xx, 1 + D * (xx * yy), xx - 1, xx - 1);
    assert xx * (D * yy + 1) == D * (xx * yy) + xx by { Swap(xx, D, yy); Spread(xx, D * yy, 1); assert D * (yy * xx) == D * (xx * yy); }
  }

  /** d y^2 + 1 is never zero, since -1 is a square and d is not. */
  lemma RootDenominator(y: int)
    requires FieldFacts()
    ensures Unit(D * (y * y) + 1)
  {
    if Cong(D * (y * y) + 1, 0) {
      SquareRootOfMinusOne();
      MinusSquare(D * (y * y), I * I);
      SquareTimesD(y, I);
      assert Cong(y, 0);
      ZeroSquare(y);
    } else {
      NonzeroIsUnit(D * (y * y) + 1);
    }
  }

  lemma MinusSquare(t: int, s: int)
    requires Cong(t + 1, 0) && Cong(s, -1)
    ensures Cong(s, t)
  {
    hide Cong;
    Same(-1, -1);
    Plus(t + 1, 0, -1, -1);
    Flip(t, -1);
    Chain(s, -1, t);
  }

  lemma ZeroSquare(y: int)
    requires Cong(y, 0)
    ensures Cong(D * (y * y) + 1, 1)
  {
    hide Cong;
    Times(y, 0, y, 0);
    Same(D, D); Same(1, 1);
    Times(D, D, y * y, 0);
    Plus(D * (y * y), 0, 1, 1);
  }

  /** The candidate root squares to the argument or its negative. */
  lemma {:induction false} RootUpToSign(xx: int, s: int)
    requires PrimeField() && Cong(xx, s * s)
    ensures var x := Power(xx, ROOT_EXPONENT) % Q; Cong(x * x, s * s) || Cong(x * x, -(s * s))
  {
    hide Cong, Power;
    var e, x := ROOT_EXPONENT, Power(xx, ROOT_EXPONENT);
    PowerCong(xx, s * s, e);
    PowerSquare(s, e);
    ReducedProduct(x, x);
    Times(x, Power(s, 2 * e), x, Power(s, 2 * e));
    PowerAdd(s, 2 * e, 2 * e);
    var g := Power(s, (Q - 1) / 2);
    ModulusIs();
    assert 4 * e == (Q - 1) / 2 + 2;
    PowerAdd(s, (Q - 1) / 2, 2);
    SecondPower(s);
    PlusOrMinusOne(s);
    Chain(x % Q * (x % Q), x * x, g * (s * s));
    Same(s * s, s * s);
    if Cong(g, 1) {
      Times(g, 1, s * s, s * s);
      Chain(x % Q * (x % Q), g * (s * s), s * s);
    } else if Cong(g, -1) {
      Times(g, -1, s * s, s * s);
      assert -1 * (s * s) == -(s * s);
      Chain(x % Q * (x % Q), g * (s * s), -(s * s));
    } else {
      Times(s, 0, s, 0);
      Same(g, g);
      Times(g, g, s * s, 0);
      Flip(s * s, 0);
      Chain(g * (s * s), 0, s * s);
      Chain(x % Q * (x % Q), g * (s * s), s * s);
    }
  }

  lemma {:induction false} SecondPower(s: int)
    ensures Power(s, 2) == s * s
  {
    assert Power(s, 0) == 1;
    assert Power(s, 1) == s;
  }

  /** Euler's criterion: the middle power of a nonzero number is a square root of one. */
  lemma {:induction false} PlusOrMinusOne(s: int)
    requires PrimeField()
    ensures var g := Power(s, (Q - 1) / 2); Cong(g, 1) || Cong(g, -1) || Cong(s, 0)
  {
    hide Power;
    var g := Power(s, (Q - 1) / 2);
    if !Cong(s, 0) {
      assert Cong(Power(s, Q - 1), 1);
      ModulusIs();
      PowerAdd(s, (Q - 1) / 2, (Q - 1) / 2);
      SquareIsOne(g);
    }
  }

  lemma SquareIsOne(g: int)
    requires PrimeField() && Cong(g * g, 1)
    ensures Cong(g, 1) || Cong(g, -1)
  {
    hide Cong, PrimeField;
    Same(1, 1); Same(-1, -1);
    Minus(g * g, 1, 1, 1);
    assert (g - 1) * (g + 1) == g * g - 1;
    NoZeroDivisors(g - 1, g + 1);
    if Cong(g - 1, 0) {
      Plus(g - 1, 0, 1, 1);
    } else {
      Plus(g + 1, 0, -1, -1);
    }
  }

  lemma SameSquare(r: int, s: int)
    requires PrimeField() && Cong(r * r, s * s)
    ensures Cong(r, s) || Cong(r, -s)
  {
    hide Cong, PrimeField;
    Same(s * s, s * s); Same(s, s); Same(-s, -s);
    Minus(r * r, s * s, s * s, s * s);
    assert (r - s) * (r + s) == r * r - s * s;
    NoZeroDivisors(r - s, r + s);
    if Cong(r - s, 0) {
      Plus(r - s, 0, s, s);
    } else {
      Plus(r + s, 0, -s, -s);
    }
  }

  /** RecoverX returns the even one of the two square roots. */
  lemma RecoverXIsRoot(a: Affine, inverse: int -> int)
    requires FieldFacts() && ModInverse(inverse) && Member(a)
    ensures RecoverX(a.y, inverse) == if a.x % 2 == 0 then a.x else Q - a.x
  {
    RootArgument(a, inverse);
    var xx := (a.y * a.y - 1) * inverse(D * (a.y * a.y) + 1);
    RootUpToSign(xx, a.x);
    var x := Power(xx, ROOT_EXPONENT) % Q;
    SquareRootOfMinusOne();
    CorrectSign(x, xx, a.x);
    var r := if (x * x - xx) % Q != 0 then x * I % Q else x;
    SameSquare(r, a.x);
    EvenRoot(r, a.x);
  }

  lemma CorrectSign(x: int, xx: int, s: int)
    requires Cong(xx, s * s) && (Cong(x * x, s * s) || Cong(x * x, -(s * s))) && 0 <= x < Q && Cong(I * I, -1)
    ensures var r := if (x * x - xx) % Q != 0 then x * I % Q else x;
      Cong(r * r, s * s) && 0 <= r < Q
  {
    TestMeans(x, xx, s);
    if (x * x - xx) % Q != 0 {
      TimesRoot(x, s, I);
    }
  }

  /** The residue test of RecoverX decides whether x is a root already. */
  lemma TestMeans(x: int, xx: int, s: int)
    requires Cong(xx, s * s)
    ensures (x * x - xx) % Q == 0 <==> Cong(x * x, s * s)
  {
    VanishingMod(x * x - xx);
    hide Cong;
    if Cong(x * x - xx, 0) {
      TestHolds(x, xx, s);
    }
    if Cong(x * x, s * s) {
      Minus(x * x, s * s, xx, s * s);
      Same(s * s - s * s, 0);
    }
  }

  lemma VanishingMod(a: int)
    ensures a % Q == 0 <==> Cong(a, 0)
  {
    ModOf(0, 0, 0);
  }

  lemma TestHolds(x: int, xx: int, s: int)
    requires Cong(xx, s * s) && Cong(x * x - xx, 0)
    ensures Cong(x * x, s * s)
  {
    hide Cong;
    Plus(x * x - xx, 0, xx, s * s);
  }

  lemma TimesRoot(x: int, s: int, i: int)
    requires Cong(x * x, -(s * s)) && Cong(i * i, -1)
    ensures var r := x * i % Q; Cong(r * r, s * s) && 0 <= r < Q
  {
    hide Cong;
    Reduced(x * i);
    ReducedProduct(x * i, x * i);
    Regroup4(x, i, x, i);
    Times(x * x, -(s * s), i * i, -1);
    assert -(s * s) * -1 == s * s;
    Chain(x * i % Q * (x * i % Q), x * x * (i * i), s * s);
  }

  /** Two reduced roots are equal or add up to q, and exactly one of a nonzero pair is even. */
  lemma EvenRoot(r: int, s: int)
    requires 0 <= r < Q && 0 <= s < Q && (Cong(r, s) || Cong(r, -s))
    ensures (if r % 2 == 1 then Q - r else r) == if s % 2 == 0 then s else Q - s
  {
    ModulusIs();
    hide Cong;
    if Cong(r, s) {
      ReducedEqual(r, s);
    } else if s == 0 {
      Same(-s, 0);
      Chain(r, -s, 0);
      ReducedEqual(r, 0);
    } else {
      CongFrom(-s, Q - s, -1);
      Chain(r, -s, Q - s);
      ReducedEqual(r, Q - s);
    }
  }

  /** Decoding inverts encoding, for every point of the curve. */
  lemma DecodeEncode(a: Affine, inverse: int -> int)
    requires FieldFacts() && ModInverse(inverse) && Member(a)
    ensures var p := DecodePoint(EncodePoint(a), inverse);
      p == Point(a.x, a.y, Some(1), Some(a.x * a.y % Q)) && Represents(p, a)
  {
    hide RecoverX, ToLE, LE, FieldFacts;
    TopByte(a.y);
    RecoverXIsRoot(a, inverse);
    var s := ToLE(a.y, 32);
    var b := EncodePoint(a);
    TopBitSet(s, a.x % 2 == 1);
    assert b == if a.x % 2 == 1 then s[31 := SetTopBit(s[31])] else s;
    EvenChoice(a.x);
    DecodedRepresents(a);
    hide Represents, EncodePoint;
  }

  lemma TopBitSet(s: seq<byte>, high: bool)
    requires |s| == 32 && s[31] < 128
    ensures var b := if high then s[31 := SetTopBit(s[31])] else s; (b[31] >= 128 <==> high) && b[31 := b[31] % 128] == s
  {
  }

  lemma EvenChoice(x: int)
    requires 0 <= x < Q
    ensures (if x % 2 == 0 then x else Q - x) % 2 == 0
  {
    ModulusIs();
  }

  lemma DecodedRepresents(a: Affine)
    ensures Represents(Point(a.x, a.y, Some(1), Some(a.x * a.y % Q)), a)
  {
    assert Inverts(1, 1);
    Reduced(a.x * a.y);
  }
}
