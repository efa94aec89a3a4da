/** Arithmetic modulo q = 2^255 - 19, the field of libdotnet/Ed25519.cpp. Numbers are unbounded,
    as OpenSSL's are: congruence modulo q, not equality, is what the curve formulas preserve. */
module Field25519 {

  import Bytes

  type Modulus = x: int | x > 3 witness 5

  /** BN_set_bit (q, 255): a one bit in the last of 32 bytes. */
  const BIT_255: seq<Bytes.byte> := Bytes.Zeros(31) + [128]

  /** The solver never meets the 77 digits of the modulus, except where ModulusIs is called. */
  const Q: Modulus := (BitValue(); Bytes.LE(BIT_255) - 19)

  lemma BitValue()
    ensures Bytes.LE(BIT_255) == 57896044618658097711785492504343953926634992332820282019728792003956564819968
  {
    var zeros := Bytes.Zeros(31);
    assert BIT_255 == zeros + [128];
    Bytes.LESnoc(zeros, 128);
    Bytes.LEZeros(zeros);
    Bytes.ShiftIsProduct(128, 31);
    Bytes.Pow256Values();
    Bytes.Pow256Add(16, 8); Bytes.Pow256Add(24, 4); Bytes.Pow256Add(28, 2); Bytes.Pow256Add(30, 1);
  }

  lemma ModulusIs()
    ensures Q == 57896044618658097711785492504343953926634992332820282019728792003956564819949
  {
    BitValue();
  }

  predicate Cong(a: int, b: int) {
    a % Q == b % Q
  }

  lemma Divide(a: int) returns (k: int)
    ensures a == Q * k + a % Q
  {
    k := a / Q;
  }

  lemma ModOf(a: int, k: int, r: int)
    requires a == Q * k + r && 0 <= r < Q
    ensures a % Q == r
  {
    Bytes.ModUnique(a, Q, k, r);
  }

  lemma CongFrom(a: int, b: int, k: int)
    requires a == b + Q * k
    ensures Cong(a, b)
  {
    var j := Divide(b);
    assert a == Q * (j + k) + b % Q;
    ModOf(a, j + k, b % Q);
  }

  /** A congruence between known numbers, with its quotient. */
  lemma CongNumbers(a: int, b: int, k: int)
    requires a == b + 57896044618658097711785492504343953926634992332820282019728792003956564819949 * k
    ensures Cong(a, b)
  {
    ModulusIs();
    CongFrom(a, b, k);
  }

  lemma CongTo(a: int, b: int) returns (k: int)
    requires Cong(a, b)
    ensures a == b + Q * k
  {
    var i := Divide(a);
    var j := Divide(b);
    k := i - j;
  }

  lemma Same(a: int, b: int)
    requires a == b
    ensures Cong(a, b)
  {
  }

  lemma Flip(a: int, b: int)
    requires Cong(a, b)
    ensures Cong(b, a)
  {
  }

  lemma Chain(a: int, b: int, c: int)
    requires Cong(a, b) && Cong(b, c)
    ensures Cong(a, c)
  {
  }

  lemma Reduced(a: int)
    ensures Cong(a % Q, a) && 0 <= a % Q < Q
  {
    ModOf(a % Q, 0, a % Q);
  }

  lemma Plus(a: int, b: int, c: int, d: int)
    requires Cong(a, b) && Cong(c, d)
    ensures Cong(a + c, b + d)
  {
    var i := CongTo(a, b);
    var j := CongTo(c, d);
    CongFrom(a + c, b + d, i + j);
  }

  lemma Minus(a: int, b: int, c: int, d: int)
    requires Cong(a, b) && Cong(c, d)
    ensures Cong(a - c, b - d)
  {
    var i := CongTo(a, b);
    var j := CongTo(c, d);
    CongFrom(a - c, b - d, i - j);
  }

  lemma Times(a: int, b: int, c: int, d: int)
    requires Cong(a, b) && Cong(c, d)
    ensures Cong(a * c, b * d)
  {
    hide Cong;
    var i := CongTo(a, b);
    var j := CongTo(c, d);
    TimesAlgebra(b, d, i, j);
    CongFrom(a * c, b * d, b * j + i * d + Q * (i * j));
  }

  lemma TimesAlgebra(b: int, d: int, i: int, j: int)
    ensures (b + Q * i) * (d + Q * j) == b * d + Q * (b * j + i * d + Q * (i * j))
  {
  }

  /** a has a multiplicative inverse. */
  ghost predicate Unit(a: int) {
    exists y :: Inverts(a, y)
  }

  predicate Inverts(a: int, y: int) {
    Cong(a * y, 1)
  }

  /** Cancelling a unit factor. */
  lemma Cancel(u: int, a: int, b: int)
    requires Unit(u) && Cong(u * a, u * b)
    ensures Cong(a, b)
  {
    hide Cong;
    var y :| Inverts(u, y);
    CancelBy(u, y, a, b);
  }

  lemma CancelBy(u: int, y: int, a: int, b: int)
    requires Inverts(u, y) && Cong(u * a, u * b)
    ensures Cong(a, b)
  {
    var one := u * y;
    assert Cong(one, 1);
    hide Cong;
    Same(y, y); Same(a, a); Same(b, b);
    Times(y, y, u * a, u * b);
    Times(one, 1, a, a);
    Times(one, 1, b, b);
    assert y * (u * a) == one * a && y * (u * b) == one * b by { Regroup(y, u, a); Regroup(y, u, b); }
    Flip(one * a, 1 * a);
    Chain(a, one * a, one * b);
    Chain(a, one * b, b);
  }

  lemma Regroup(y: int, u: int, a: int)
    ensures y * (u * a) == (u * y) * a
  {
  }

  lemma UnitTimes(a: int, b: int)
    requires Unit(a) && Unit(b)
    ensures Unit(a * b)
  {
    var x :| Inverts(a, x);
    var y :| Inverts(b, y);
    Times(a * x, 1, b * y, 1);
    assert (a * x) * (b * y) == (a * b) * (x * y) by { Regroup4(a, x, b, y); }
    assert Inverts(a * b, x * y);
  }

  lemma Regroup4(a: int, x: int, b: int, y: int)
    ensures (a * x) * (b * y) == (a * b) * (x * y)
  {
  }

  lemma UnitCong(a: int, b: int)
    requires Unit(a) && Cong(a, b)
    ensures Unit(b)
  {
    var x :| Inverts(a, x);
    Same(x, x);
    Times(a, b, x, x);
    assert Inverts(b, x);
  }

  lemma Regroup3(a: int, b: int, x: int)
    ensures (a * b) * x == a * (b * x) && (a * b) * x == b * (a * x)
  {
  }

  /** BN_mod_inverse: the inverse in 0 .. q-1, and zero where there is none. */
  ghost function Inverse(a: int): (y: int)
    ensures 0 <= y < Q && (Unit(a) ==> Cong(a * y, 1))
  {
    if Unit(a) then
      ReducedInverse(a);
      var y :| 0 <= y < Q && Inverts(a, y);
      y
    else 0
  }

  lemma ReducedInverse(a: int)
    requires Unit(a)
    ensures exists y :: 0 <= y < Q && Inverts(a, y)
  {
    var y :| Inverts(a, y);
    Reduced(y);
    Same(a, a);
    Times(a, a, y % Q, y);
    Chain(a * (y % Q), a * y, 1);
    assert Inverts(a, y % Q);
  }

  lemma ReducedEqual(a: int, b: int)
    requires 0 <= a < Q && 0 <= b < Q && Cong(a, b)
    ensures a == b
  {
    ModOf(a, 0, a);
    ModOf(b, 0, b);
  }

  function Power(b: int, e: nat): int {
    if e == 0 then 1 else b * Power(b, e - 1)
  }

  lemma {:induction false} PowerAdd(b: int, m: nat, n: nat)
    ensures Power(b, m + n) == Power(b, m) * Power(b, n)
    decreases n
  {
    if n > 0 {
      PowerAdd(b, m, n - 1);
      Regroup3(Power(b, m), Power(b, n - 1), b);
    }
  }

  lemma {:induction false} PowerSquare(b: int, n: nat)
    ensures Power(b * b, n) == Power(b, 2 * n)
  {
    if n > 0 {
      PowerSquare(b, n - 1);
      assert Power(b, 2 * n) == b * Power(b, 2 * n - 1);
      assert Power(b, 2 * n - 1) == b * Power(b, 2 * n - 2);
      Regroup(b, b, Power(b, 2 * (n - 1)));
    }
  }

  lemma {:induction false} PowerCong(a: int, b: int, n: nat)
    requires Cong(a, b)
    ensures Cong(Power(a, n), Power(b, n))
  {
    hide Cong;
    if n == 0 {
      Same(1, 1);
    } else {
      PowerCong(a, b, n - 1);
      Times(a, b, Power(a, n - 1), Power(b, n - 1));
    }
  }

  /** The fact about the number q itself that the field rests on, Fermat's little theorem. */
  ghost predicate PrimeField() {
    forall x :: !Cong(x, 0) ==> Cong(Power(x, Q - 1), 1)
  }

  lemma NonzeroIsUnit(x: int)
    requires PrimeField() && !Cong(x, 0)
    ensures Unit(x)
  {
    hide Cong;
    LastFactor(x, Q - 1);
    assert Inverts(x, Power(x, Q - 2));
  }

  lemma LastFactor(x: int, n: nat)
    requires n > 0
    ensures Power(x, n) == x * Power(x, n - 1)
  {
  }

  lemma NoZeroDivisors(a: int, b: int)
    requires PrimeField() && Cong(a * b, 0)
    ensures Cong(a, 0) || Cong(b, 0)
  {
    if !Cong(a, 0) {
      NonzeroIsUnit(a);
      assert a * 0 == 0;
      Cancel(a, b, 0);
    }
  }
}
