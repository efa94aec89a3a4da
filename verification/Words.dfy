/** 32-bit machine words. The models compute with natural numbers; here their wrapping addition, exclusive
    or, conjunction and rotation are those of bit vectors. */
module Words {
  import opened Bytes

  /** The low 32 bits of x. */
  function Word(x: nat): bv32 {
    if x == 0 then 0 else With(Word(x / 2), x % 2 == 1)
  }

  /** v shifted left by one, with b as its new lowest bit. */
  function With(v: bv32, b: bool): bv32 {
    (v << 1) | if b then 1 else 0
  }

  function Half(v: bv32): bv32 {
    v >> 1
  }

  predicate Odd(v: bv32) {
    v & 1 == 1
  }

  /** The number that the low n bits of v spell. */
  function Number(v: bv32, n: nat): nat {
    if n == 0 then 0 else 2 * Number(Half(v), n - 1) + if Odd(v) then 1 else 0
  }

  lemma {:induction false} WordZero()
    ensures Word(0) == With(Word(0), false) == 0
  {
  }

  lemma {:induction false} WordStep(x: nat)
    ensures Word(x) == With(Word(x / 2), x % 2 == 1)
  {
    hide With;
    WordZero();
  }

  lemma {:induction false} WordDouble(x: nat)
    ensures Word(2 * x) == With(Word(x), false) && Word(2 * x + 1) == With(Word(x), true)
  {
    hide Word, With;
    Halves(x);
    WordStep(2 * x); WordStep(2 * x + 1);
  }

  lemma Halves(x: nat)
    ensures 2 * x / 2 == x && 2 * x % 2 == 0 && (2 * x + 1) / 2 == x && (2 * x + 1) % 2 == 1
  {
  }

  // ---------------------------------------------------------------------------------------
  // Addition and multiples of powers of two
  // ---------------------------------------------------------------------------------------

  function Sum(v: bv32, w: bv32): bv32 {
    v + w
  }

  lemma SumIs(v: bv32, w: bv32)
    ensures Sum(v, w) == v + w
  {
  }

  lemma {:induction false} WordNext(x: nat)
    ensures Word(x + 1) == Sum(Word(x), 1)
    decreases x
  {
    hide Word, With, Sum;
    var h := x / 2;
    WordDouble(h);
    NextBit(Word(h));
    if x % 2 == 1 {
      WordDouble(h + 1);
      WordNext(h);
    }
  }

  lemma NextBit(v: bv32)
    ensures Sum(With(v, false), 1) == With(v, true) && Sum(With(v, true), 1) == With(Sum(v, 1), false)
  {
  }

  lemma {:induction false} WordPlus(x: nat, y: nat)
    ensures Word(x + y) == Sum(Word(x), Word(y))
    decreases x
  {
    hide Word, With, Sum;
    if x == 0 {
      WordZero();
      SumZero(Word(y));
    } else {
      WordPlus(x - 1, y);
      WordNext(x - 1 + y); WordNext(x - 1);
      SumNext(Word(x - 1), Word(y));
    }
  }

  lemma SumZero(v: bv32)
    ensures Sum(0, v) == v && Sum(v, 0) == v
  {
  }

  // One equation at a time: the solver only reorders sums that are written out.
  lemma SumNext(v: bv32, w: bv32)
    ensures Sum(Sum(v, w), 1) == Sum(Sum(v, 1), w)
  {
    hide Sum;
    SumOfSum(v, w, 1); SumOfSum(v, 1, w); SumReorders(v, w);
  }

  lemma SumOfSum(v: bv32, w: bv32, u: bv32)
    ensures Sum(Sum(v, w), u) == Sum(v + w, u)
  {
    hide Sum;
    SumIs(v, w);
  }

  lemma SumReorders(v: bv32, w: bv32)
    ensures Sum(v + w, 1) == Sum(v + 1, w)
  {
    hide Sum;
    SumLeft(v, w); SumRight(v, w);
  }

  lemma SumLeft(v: bv32, w: bv32)
    ensures Sum(v + w, 1) == v + w + 1
  {
    hide Sum;
    SumIs(v + w, 1);
  }

  lemma SumRight(v: bv32, w: bv32)
    ensures Sum(v + 1, w) == v + w + 1
  {
  }

  function Left(v: bv32, n: nat): bv32 {
    if n == 0 then v else With(Left(v, n - 1), false)
  }

  lemma {:induction false} WordTimes(x: nat, n: nat)
    ensures Word(x * Pow2(n)) == Left(Word(x), n)
    decreases n
  {
    hide Word, With;
    if n == 0 {
      assert x * 1 == x;
    } else {
      WordTimes(x, n - 1);
      WordDouble(x * Pow2(n - 1));
      Twice(x, Pow2(n - 1));
    }
  }

  lemma Twice(x: nat, p: nat)
    ensures x * (2 * p) == 2 * (x * p)
  {
  }

  /** Only the low 32 bits matter. */
  lemma {:induction false} WordWraps(x: nat)
    ensures Word(x % 0x1_0000_0000) == Word(x)
    decreases x
  {
    hide Word, Sum;
    if x >= 0x1_0000_0000 {
      OneTurn(x);
      WordWraps(x - 0x1_0000_0000);
      WordPlus(0x1_0000_0000, x - 0x1_0000_0000);
      WordTop();
      SumZero(Word(x - 0x1_0000_0000));
    }
  }

  lemma OneTurn(x: nat)
    requires x >= 0x1_0000_0000
    ensures x % 0x1_0000_0000 == (x - 0x1_0000_0000) % 0x1_0000_0000
  {
  }

  lemma {:induction false} WordTop()
    ensures Word(0x1_0000_0000) == 0
  {
    hide Word, Left;
    Pow2Byte();
    WordTimes(1, 32);
    LeftLeft(Word(1), 16, 16);
    Left16(Word(1)); Left16(Left(Word(1), 16));
  }

  // ---------------------------------------------------------------------------------------
  // Halving, and words back to numbers
  // ---------------------------------------------------------------------------------------

  /** n one bits. */
  function Ones(n: nat): bv32 {
    if n == 0 then 0 else With(Ones(n - 1), true)
  }

  predicate Within(v: bv32, m: bv32) {
    v | m == m
  }

  lemma {:induction false} WordBound(x: nat, n: nat)
    requires x < Pow2(n)
    ensures Within(Word(x), Ones(n))
    decreases n
  {
    if n == 0 {
      ZeroWithin();
    } else {
      hide Word, With, Within;
      WordBound(x / 2, n - 1);
      WordStep(x);
      BitWithin(Word(x / 2), Ones(n - 1), x % 2 == 1);
    }
  }

  lemma ZeroWithin()
    ensures Within(0, 0)
  {
  }

  lemma BitWithin(v: bv32, m: bv32, b: bool)
    requires Within(v, m)
    ensures Within(With(v, b), With(m, true))
  {
    hide With, Within;
    if b { OneWithin(v, m); } else { NoneWithin(v, m); }
  }

  lemma OneWithin(v: bv32, m: bv32)
    requires Within(v, m)
    ensures Within(With(v, true), With(m, true))
  {
  }

  lemma NoneWithin(v: bv32, m: bv32)
    requires Within(v, m)
    ensures Within(With(v, false), With(m, true))
  {
  }

  lemma {:induction false} AllOnes()
    ensures Ones(31) == 0x7fff_ffff
  {
    assert Ones(2) == 0x3 && Ones(4) == 0xf && Ones(6) == 0x3f && Ones(8) == 0xff;
    assert Ones(10) == 0x3ff && Ones(12) == 0xfff && Ones(14) == 0x3fff && Ones(16) == 0xffff;
    assert Ones(18) == 0x3_ffff && Ones(20) == 0xf_ffff && Ones(22) == 0x3f_ffff && Ones(24) == 0xff_ffff;
    assert Ones(26) == 0x3ff_ffff && Ones(28) == 0xfff_ffff && Ones(30) == 0x3fff_ffff;
  }

  lemma HalfWith(v: bv32, b: bool)
    requires Within(v, 0x7fff_ffff)
    ensures Half(With(v, b)) == v
  {
  }

  lemma OddWith(v: bv32, b: bool)
    ensures Odd(With(v, b)) == b
  {
  }

  lemma {:induction false} WordHalf(x: nat)
    requires x < Pow2(32)
    ensures Half(Word(x)) == Word(x / 2) && Odd(Word(x)) == (x % 2 == 1)
  {
    hide Word, With, Within, Half, Odd, Ones;
    assert Pow2(32) == 2 * Pow2(31);
    WordStep(x);
    WordBound(x / 2, 31);
    AllOnes();
    HalfWith(Word(x / 2), x % 2 == 1);
    OddWith(Word(x / 2), x % 2 == 1);
  }

  lemma {:induction false} Pow2Grows(n: nat)
    requires n <= 32
    ensures Pow2(n) <= Pow2(32)
    decreases 32 - n
  {
    if n < 32 {
      Pow2Grows(n + 1);
    }
  }

  /** A number below 2^32 is its word. */
  lemma {:induction false} NumberWord(x: nat, n: nat)
    requires n <= 32 && x < Pow2(n)
    ensures Number(Word(x), n) == x
    decreases n
  {
    if n > 0 {
      hide Word, Half, Odd;
      Pow2Grows(n);
      WordHalf(x);
      NumberWord(x / 2, n - 1);
    }
  }

  function Right(v: bv32, n: nat): bv32 {
    if n == 0 then v else Half(Right(v, n - 1))
  }

  lemma {:induction false} WordDiv(x: nat, n: nat)
    requires x < Pow2(32)
    ensures Word(x / Pow2(n)) == Right(Word(x), n)
    decreases n
  {
    hide Word, Half;
    if n == 0 {
      assert x / 1 == x;
    } else {
      WordDiv(x, n - 1);
      HalfOfQuotient(x, Pow2(n - 1));
      QuotientBound(x, Pow2(n - 1));
      WordHalf(x / Pow2(n - 1));
    }
  }

  lemma HalfOfQuotient(x: nat, p: nat)
    requires p > 0
    ensures x / p / 2 == x / (2 * p)
  {
    var a, r := x / p, x % p;
    assert x == (2 * p) * (a / 2) + (a % 2 * p + r) by { QuotientParts(x, p, a, r); }
    MulMono(a % 2, 1, p); MulMono(0, a % 2, p);
    ModUnique(x, 2 * p, a / 2, a % 2 * p + r);
  }

  lemma QuotientBound(x: nat, p: nat)
    requires p > 0
    ensures 0 <= x / p <= x
  {
    MulMono(1, p, x / p);
  }

  lemma QuotientParts(x: nat, p: nat, a: nat, r: nat)
    requires x == p * a + r
    ensures x == (2 * p) * (a / 2) + (a % 2 * p + r)
  {
    var h, b := a / 2, a % 2;
    assert p * (2 * h + b) == (2 * p) * h + b * p;
  }

  // ---------------------------------------------------------------------------------------
  // The operations
  // ---------------------------------------------------------------------------------------

  function Differ(v: bv32, w: bv32): bv32 {
    v ^ w
  }

  function Both(v: bv32, w: bv32): bv32 {
    v & w
  }

  lemma {:induction false} WordXor(x: nat, y: nat)
    ensures Word(Xor(x, y)) == Differ(Word(x), Word(y))
    decreases x + y
  {
    hide With, Differ, Xor;
    if x == 0 && y == 0 {
      XorZero(0);
      NoBits();
    } else {
      hide Word;
      WordXor(x / 2, y / 2);
      XorStep(x, y);
      WordStep(x); WordStep(y);
      XorParity(x, y);
      WordStep(Xor(x, y));
      XorWith(Word(x / 2), Word(y / 2), x % 2 == 1, y % 2 == 1);
    }
  }

  lemma {:induction false} NoBits()
    ensures Differ(Word(0), Word(0)) == Word(0)
  {
  }

  lemma {:induction false} XorParity(x: nat, y: nat)
    ensures Xor(x, y) / 2 == Xor(x / 2, y / 2) && (Xor(x, y) % 2 == 1 <==> (x % 2 == 1) != (y % 2 == 1))
  {
    hide Xor;
    XorStep(x, y);
  }

  lemma XorWith(v: bv32, w: bv32, b: bool, c: bool)
    ensures Differ(With(v, b), With(w, c)) == With(Differ(v, w), b != c)
  {
    if b && c {} else if b {} else if c {} else {}
  }

  lemma {:induction false} WordAnd(x: nat, y: nat)
    ensures Word(And(x, y)) == Both(Word(x), Word(y))
    decreases x
  {
    hide With, Both;
    if x == 0 || y == 0 {
      NoneCommon(Word(x), Word(y));
    } else {
      hide Word;
      WordAnd(x / 2, y / 2);
      WordStep(x); WordStep(y);
      AndParity(x, y);
      WordStep(And(x, y));
      AndWith(Word(x / 2), Word(y / 2), x % 2 == 1, y % 2 == 1);
    }
  }

  lemma {:induction false} NoneCommon(v: bv32, w: bv32)
    ensures Both(Word(0), w) == 0 == Both(v, Word(0)) && Word(0) == 0
  {
  }

  lemma {:induction false} AndParity(x: nat, y: nat)
    requires x > 0 && y > 0
    ensures And(x, y) / 2 == And(x / 2, y / 2) && (And(x, y) % 2 == 1 <==> x % 2 == 1 && y % 2 == 1)
  {
  }

  lemma AndWith(v: bv32, w: bv32, b: bool, c: bool)
    ensures Both(With(v, b), With(w, c)) == With(Both(v, w), b && c)
  {
    hide With, Both;
    if b && c { BothOnes(v, w); } else if b { LeftOne(v, w); } else if c { RightOne(v, w); } else { BothZeros(v, w); }
  }

  lemma BothOnes(v: bv32, w: bv32)
    ensures Both(With(v, true), With(w, true)) == With(Both(v, w), true)
  {
  }

  lemma LeftOne(v: bv32, w: bv32)
    ensures Both(With(v, true), With(w, false)) == With(Both(v, w), false)
  {
  }

  lemma RightOne(v: bv32, w: bv32)
    ensures Both(With(v, false), With(w, true)) == With(Both(v, w), false)
  {
  }

  lemma BothZeros(v: bv32, w: bv32)
    ensures Both(With(v, false), With(w, false)) == With(Both(v, w), false)
  {
  }

  lemma {:induction false} LeftLeft(v: bv32, m: nat, n: nat)
    ensures Left(v, m + n) == Left(Left(v, m), n)
  {
    hide With;
    if n > 0 { LeftLeft(v, m, n - 1); }
  }

  lemma {:induction false} RightRight(v: bv32, m: nat, n: nat)
    ensures Right(v, m + n) == Right(Right(v, m), n)
  {
    hide Half;
    if n > 0 { RightRight(v, m, n - 1); }
  }

  lemma {:induction false} Left3(v: bv32)
    ensures Left(v, 3) == v << 3
  {
    assert Left(v, 1) == v << 1;
    assert Left(v, 2) == v << 2;
  }

  lemma {:induction false} Left4(v: bv32)
    ensures Left(v, 4) == v << 4
  {
    Left3(v);
  }

  lemma {:induction false} Left7(v: bv32)
    ensures Left(v, 7) == v << 7
  {
    hide Left;
    Left4(v); Left3(Left(v, 4));
    LeftLeft(v, 4, 3);
  }

  lemma {:induction false} Left8(v: bv32)
    ensures Left(v, 8) == v << 8
  {
    hide Left;
    Left4(v); Left4(Left(v, 4));
    LeftLeft(v, 4, 4);
  }

  lemma {:induction false} Left12(v: bv32)
    ensures Left(v, 12) == v << 12
  {
    hide Left;
    Left8(v); Left4(Left(v, 8));
    LeftLeft(v, 8, 4);
  }

  lemma {:induction false} Left16(v: bv32)
    ensures Left(v, 16) == v << 16
  {
    hide Left;
    Left8(v); Left8(Left(v, 8));
    LeftLeft(v, 8, 8);
  }

  lemma {:induction false} Right4(v: bv32)
    ensures Right(v, 4) == v >> 4
  {
    assert Right(v, 1) == v >> 1;
    assert Right(v, 2) == v >> 2;
    assert Right(v, 3) == v >> 3;
  }

  lemma {:induction false} Right1(v: bv32)
    ensures Right(v, 1) == v >> 1
  {
    OneHalf(v);
    HalfIs(v);
    hide *;
  }

  lemma {:induction false} OneHalf(v: bv32)
    ensures Right(v, 1) == Half(v)
  {
    hide Half;
    assert Right(v, 0) == v;
  }

  lemma HalfIs(v: bv32)
    ensures Half(v) == v >> 1
  {
  }

  lemma {:induction false} Right8(v: bv32)
    ensures Right(v, 8) == v >> 8
  {
    hide Right;
    Right4(v); Right4(Right(v, 4));
    RightRight(v, 4, 4);
  }

  lemma {:induction false} Right16(v: bv32)
    ensures Right(v, 16) == v >> 16
  {
    hide Right;
    Right8(v); Right8(Right(v, 8));
    RightRight(v, 8, 8);
  }

  lemma {:induction false} Right20(v: bv32)
    ensures Right(v, 20) == v >> 20
  {
    hide Right;
    Right16(v); Right4(Right(v, 16));
    RightRight(v, 16, 4);
  }

  lemma {:induction false} Right24(v: bv32)
    ensures Right(v, 24) == v >> 24
  {
    hide Right;
    Right16(v); Right8(Right(v, 16));
    RightRight(v, 16, 8);
  }

  lemma {:induction false} Right25(v: bv32)
    ensures Right(v, 25) == v >> 25
  {
    hide Right;
    Right24(v); Right1(Right(v, 24));
    RightRight(v, 24, 1);
  }

  lemma {:induction false} Rotate7(v: bv32)
    ensures Sum(Left(v, 7), Right(v, 25)) == v.RotateLeft(7)
  {
    hide Left, Right;
    Left7(v); Right25(v);
  }

  lemma {:induction false} Rotate8(v: bv32)
    ensures Sum(Left(v, 8), Right(v, 24)) == v.RotateLeft(8)
  {
    hide Left, Right;
    Left8(v); Right24(v);
  }

  lemma {:induction false} Rotate12(v: bv32)
    ensures Sum(Left(v, 12), Right(v, 20)) == v.RotateLeft(12)
  {
    hide Left, Right;
    Left12(v); Right20(v);
  }

  lemma {:induction false} Rotate16(v: bv32)
    ensures Sum(Left(v, 16), Right(v, 16)) == v.RotateLeft(16)
  {
    hide Left, Right;
    Left16(v); Right16(v);
  }

  // ---------------------------------------------------------------------------------------
  // Bits of numbers
  // ---------------------------------------------------------------------------------------

  function Bit(x: nat, i: nat): nat {
    x / Pow2(i) % 2
  }

  /** The bits of v below place m, and those of u from there on. */
  lemma SplitBits(u: nat, v: nat, m: nat, i: nat)
    requires v < Pow2(m)
    ensures u * Pow2(m) >= 0
    ensures Bit(u * Pow2(m) + v, i) == if i < m then Bit(v, i) else Bit(u, i - m)
  {
    hide Pow2;
    MulMono(0, u, Pow2(m));
    if i < m {
      assert Pow2(m - i) == 2 * Pow2(m - i - 1) by { Pow2Next(m - i - 1); }
      Pow2Add(i, m - i);
      LowPlaces(u, v, Pow2(i), Pow2(m - i - 1));
    } else {
      Pow2Add(m, i - m);
      ModUnique(u * Pow2(m) + v, Pow2(m), u, v);
      DivDiv(u * Pow2(m) + v, Pow2(m), Pow2(i - m));
    }
  }

  lemma Pow2Next(n: nat)
    ensures Pow2(n + 1) == 2 * Pow2(n)
  {
  }

  lemma LowPlaces(u: nat, v: nat, p: nat, q: nat)
    requires p > 0
    ensures u * (p * (2 * q)) >= 0 && (u * (p * (2 * q)) + v) / p % 2 == v / p % 2
  {
    var x, h := u * (p * (2 * q)) + v, u * q;
    assert u * (p * (2 * q)) == p * (2 * (u * q));
    MulMono(0, u, q); MulMono(0, 2 * h, p);
    ModUnique(x, p, 2 * h + v / p, v % p);
    ModUnique(2 * h + v / p, 2, h + v / p / 2, v / p % 2);
  }

  // ---------------------------------------------------------------------------------------
  // Words as written in hexadecimal
  // ---------------------------------------------------------------------------------------

  function Digit(d: nat): bv32 {
    if d == 0 then 0 else if d == 1 then 1 else if d == 2 then 2 else if d == 3 then 3
    else if d == 4 then 4 else if d == 5 then 5 else if d == 6 then 6 else if d == 7 then 7
    else if d == 8 then 8 else if d == 9 then 9 else if d == 10 then 10 else if d == 11 then 11
    else if d == 12 then 12 else if d == 13 then 13 else if d == 14 then 14 else 15
  }

  function Append(v: bv32, d: nat): bv32 {
    (v << 4) | Digit(d)
  }

  lemma {:induction false} LowDigits()
    ensures Word(0) == 0 && Word(1) == 1 && Word(2) == 2 && Word(3) == 3
    ensures Word(4) == 4 && Word(5) == 5 && Word(6) == 6 && Word(7) == 7
  {
  }

  lemma {:induction false} HighDigits()
    ensures Word(8) == 8 && Word(9) == 9 && Word(10) == 10 && Word(11) == 11
    ensures Word(12) == 12 && Word(13) == 13 && Word(14) == 14 && Word(15) == 15
  {
  }

  lemma {:induction false} DigitWord(d: nat)
    requires d < 16
    ensures Word(d) == Digit(d)
  {
    hide Word;
    LowDigits(); HighDigits();
  }

  lemma {:induction false} AppendDigit(x: nat, d: nat)
    requires d < 16
    ensures Word(16 * x + d) == Append(Word(x), d)
  {
    hide Word, Sum, Append, Digit;
    WordPlus(16 * x, d);
    WordSixteen(x);
    DigitWord(d);
    AppendIs(Word(x), d);
  }

  lemma {:induction false} WordSixteen(x: nat)
    ensures Word(16 * x) == Word(x) << 4
  {
    hide Word, Left;
    assert Pow2(4) == 16;
    WordTimes(x, 4);
    Left4(Word(x));
  }

  lemma AppendIs(v: bv32, d: nat)
    requires d < 16
    ensures Append(v, d) == Sum(v << 4, Digit(d))
  {
    DigitSmall(d);
    hide Digit;
  }

  lemma DigitSmall(d: nat)
    ensures Digit(d) & 15 == Digit(d)
  {
  }

  /** Eight hexadecimal digits. */
  lemma {:induction false} EightDigits(a: nat, b: nat, c: nat, d: nat, e: nat, f: nat, g: nat, h: nat)
    requires a < 16 && b < 16 && c < 16 && d < 16 && e < 16 && f < 16 && g < 16 && h < 16
    ensures Word(16 * (16 * (16 * (16 * (16 * (16 * (16 * a + b) + c) + d) + e) + f) + g) + h)
      == Append(Append(Append(Append(Append(Append(Append(Digit(a), b), c), d), e), f), g), h)
  {
    hide Word, Append, Digit;
    var x := 16 * (16 * (16 * a + b) + c) + d;
    var y := 16 * (16 * (16 * x + e) + f) + g;
    DigitWord(a);
    AppendDigit(a, b); AppendDigit(16 * a + b, c); AppendDigit(16 * (16 * a + b) + c, d);
    AppendDigit(x, e); AppendDigit(16 * x + e, f); AppendDigit(16 * (16 * x + e) + f, g);
    AppendDigit(y, h);
  }

  /** Below 2^32 the word says which number it is. */
  lemma {:induction false} WordInjective(x: u32, y: u32)
    requires Word(x) == Word(y)
    ensures x == y
  {
    hide Word, Number;
    Pow2Byte();
    NumberWord(x, 32); NumberWord(y, 32);
  }
}
