/** ChaCha20 on machine words, as RFC 8439 defines it: the rounds of module ChaCha20 are these, and give the
    values of the standard's sections 2.1.1 and 2.3.2. */
module ChaCha20Words {
  import opened Bytes
  import opened ChaCha20
  import W = Words

  /** The four words of a quarter round, and the sixteen of a state by columns. */
  datatype Quad = Quad(a: bv32, b: bv32, c: bv32, d: bv32)
  datatype Grid = Grid(c0: Quad, c1: Quad, c2: Quad, c3: Quad)

  /** Section 2.1. */
  function Quarter(w: Quad): Quad {
    SecondHalf(FirstHalf(w))
  }

  function FirstHalf(w: Quad): Quad {
    var a := W.Sum(w.a, w.b);
    var d := (w.d ^ a).RotateLeft(16);
    var c := W.Sum(w.c, d);
    Quad(a, (w.b ^ c).RotateLeft(12), c, d)
  }

  function SecondHalf(w: Quad): Quad {
    var a := W.Sum(w.a, w.b);
    var d := (w.d ^ a).RotateLeft(8);
    var c := W.Sum(w.c, d);
    Quad(a, (w.b ^ c).RotateLeft(7), c, d)
  }

  function Columns(g: Grid): Grid {
    Grid(Quarter(g.c0), Quarter(g.c1), Quarter(g.c2), Quarter(g.c3))
  }

  /** Row r moves left by r places, so that diagonals become columns. */
  function Skewed(g: Grid): Grid {
    Grid(Quad(g.c0.a, g.c1.b, g.c2.c, g.c3.d), Quad(g.c1.a, g.c2.b, g.c3.c, g.c0.d),
      Quad(g.c2.a, g.c3.b, g.c0.c, g.c1.d), Quad(g.c3.a, g.c0.b, g.c1.c, g.c2.d))
  }

  function Straight(g: Grid): Grid {
    Grid(Quad(g.c0.a, g.c3.b, g.c2.c, g.c1.d), Quad(g.c1.a, g.c0.b, g.c3.c, g.c2.d),
      Quad(g.c2.a, g.c1.b, g.c0.c, g.c3.d), Quad(g.c3.a, g.c2.b, g.c1.c, g.c0.d))
  }

  /** Section 2.3: a column round, then a diagonal round. */
  function TwoRounds(g: Grid): Grid {
    Straight(Columns(Skewed(Columns(g))))
  }

  function Rounds(g: Grid, n: nat): Grid {
    if n == 0 then g else TwoRounds(Rounds(g, n - 1))
  }

  function Words(s: State, a: nat, b: nat, c: nat, d: nat): Quad
    requires a < 16 && b < 16 && c < 16 && d < 16
  {
    Quad(W.Word(s[a]), W.Word(s[b]), W.Word(s[c]), W.Word(s[d]))
  }

  function GridOf(s: State): Grid {
    Grid(Words(s, 0, 4, 8, 12), Words(s, 1, 5, 9, 13), Words(s, 2, 6, 10, 14), Words(s, 3, 7, 11, 15))
  }

  // ---------------------------------------------------------------------------------------
  // The rounds are those of the standard
  // ---------------------------------------------------------------------------------------

  lemma WordAdd32(x: u32, y: u32)
    ensures W.Word(Add32(x, y)) == W.Sum(W.Word(x), W.Word(y))
  {
    hide W.Word, W.Sum;
    WrappedSum(x, y);
  }

  lemma WordXor32(x: u32, y: u32)
    ensures W.Word(Xor32(x, y)) == W.Differ(W.Word(x), W.Word(y))
  {
    hide W.Word, W.Differ;
    W.WordXor(x, y);
  }

  function Rotated(v: bv32, n: nat): bv32 {
    if n == 7 then v.RotateLeft(7) else if n == 8 then v.RotateLeft(8)
    else if n == 12 then v.RotateLeft(12) else v.RotateLeft(16)
  }

  lemma {:induction false} WordRotl32(x: u32, n: nat)
    requires n == 7 || n == 8 || n == 12 || n == 16
    ensures W.Word(Rotl32(x, n)) == Rotated(W.Word(x), n)
  {
    hide *;
    RotlIs(x, n);
    Pow2Byte();
    W.WordTimes(x, n);
    W.WordDiv(x, 32 - n);
    RotatedParts(W.Word(x), n);
    WrappedSum(x * Pow2(n), x / Pow2(32 - n));
  }

  lemma RotlIs(x: u32, n: nat)
    requires n <= 32
    ensures Rotl32(x, n) == (x * Pow2(n) + x / Pow2(32 - n)) % TWO_32
  {
  }

  lemma {:induction false} WrappedSum(x: nat, y: nat)
    ensures W.Word((x + y) % TWO_32) == W.Sum(W.Word(x), W.Word(y))
  {
    hide W.Word, W.Sum;
    W.WordPlus(x, y);
    W.WordWraps(x + y);
  }

  lemma {:induction false} RotatedParts(v: bv32, n: nat)
    requires n == 7 || n == 8 || n == 12 || n == 16
    ensures W.Sum(W.Left(v, n), W.Right(v, 32 - n)) == Rotated(v, n)
  {
    hide W.Sum, W.Left, W.Right;
    W.Rotate7(v); W.Rotate8(v); W.Rotate12(v); W.Rotate16(v);
  }

  lemma MixIs(s: State, a: nat, b: nat, d: nat, n: nat)
    requires a < 16 && b < 16 && d < 16 && a != d && a != b && b != d
    requires n == 7 || n == 8 || n == 12 || n == 16
    ensures var r := Mix(s, a, b, d, n);
      && W.Word(r[a]) == W.Sum(W.Word(s[a]), W.Word(s[b]))
      && W.Word(r[d]) == Rotated(W.Differ(W.Word(s[d]), W.Word(r[a])), n)
      && forall i :: 0 <= i < 16 && i != a && i != d ==> r[i] == s[i]
  {
    hide W.Word, W.Sum, W.Differ, Rotated, Add32, Xor32, Rotl32;
    var x := Add32(s[a], s[b]);
    WordAdd32(s[a], s[b]);
    WordXor32(s[d], x);
    WordRotl32(Xor32(s[d], x), n);
  }

  lemma FirstHalfIs(w: Quad)
    ensures var r := FirstHalf(w);
      && r.a == W.Sum(w.a, w.b) && r.d == Rotated(W.Differ(w.d, r.a), 16)
      && r.c == W.Sum(w.c, r.d) && r.b == Rotated(W.Differ(w.b, r.c), 12)
  {
    hide W.Sum, W.Differ, Rotated, FirstHalf;
    FirstSum(w); FirstTurn(w); FirstNextSum(w); FirstNextTurn(w);
  }

  lemma FirstSum(w: Quad)
    ensures FirstHalf(w).a == W.Sum(w.a, w.b)
  {
    hide W.Sum;
  }

  lemma FirstTurn(w: Quad)
    ensures FirstHalf(w).d == Rotated(W.Differ(w.d, FirstHalf(w).a), 16)
  {
  }

  lemma FirstNextSum(w: Quad)
    ensures FirstHalf(w).c == W.Sum(w.c, FirstHalf(w).d)
  {
    hide W.Sum;
  }

  lemma FirstNextTurn(w: Quad)
    ensures FirstHalf(w).b == Rotated(W.Differ(w.b, FirstHalf(w).c), 12)
  {
  }

  lemma SecondHalfIs(w: Quad)
    ensures var r := SecondHalf(w);
      && r.a == W.Sum(w.a, w.b) && r.d == Rotated(W.Differ(w.d, r.a), 8)
      && r.c == W.Sum(w.c, r.d) && r.b == Rotated(W.Differ(w.b, r.c), 7)
  {
    hide W.Sum, W.Differ, Rotated, SecondHalf;
    SecondSum(w); SecondTurn(w); SecondNextSum(w); SecondNextTurn(w);
  }

  lemma SecondSum(w: Quad)
    ensures SecondHalf(w).a == W.Sum(w.a, w.b)
  {
    hide W.Sum;
  }

  lemma SecondTurn(w: Quad)
    ensures SecondHalf(w).d == Rotated(W.Differ(w.d, SecondHalf(w).a), 8)
  {
  }

  lemma SecondNextSum(w: Quad)
    ensures SecondHalf(w).c == W.Sum(w.c, SecondHalf(w).d)
  {
    hide W.Sum;
  }

  lemma SecondNextTurn(w: Quad)
    ensures SecondHalf(w).b == Rotated(W.Differ(w.b, SecondHalf(w).c), 7)
  {
  }

  lemma FirstMixes(s: State, a: nat, b: nat, c: nat, d: nat)
    requires a < 16 && b < 16 && c < 16 && d < 16 && a != b && a != c && a != d && b != c && b != d && c != d
    ensures var r := Mix(Mix(s, a, b, d, 16), c, d, b, 12);
      && Words(r, a, b, c, d) == FirstHalf(Words(s, a, b, c, d))
      && forall i :: 0 <= i < 16 && i != a && i != b && i != c && i != d ==> r[i] == s[i]
  {
    hide W.Word, W.Sum, W.Differ, Mix, Rotated, FirstHalf;
    FirstHalfIs(Words(s, a, b, c, d));
    MixIs(s, a, b, d, 16);
    MixIs(Mix(s, a, b, d, 16), c, d, b, 12);
  }

  lemma SecondMixes(s: State, a: nat, b: nat, c: nat, d: nat)
    requires a < 16 && b < 16 && c < 16 && d < 16 && a != b && a != c && a != d && b != c && b != d && c != d
    ensures var r := Mix(Mix(s, a, b, d, 8), c, d, b, 7);
      && Words(r, a, b, c, d) == SecondHalf(Words(s, a, b, c, d))
      && forall i :: 0 <= i < 16 && i != a && i != b && i != c && i != d ==> r[i] == s[i]
  {
    hide W.Word, W.Sum, W.Differ, Mix, Rotated, SecondHalf;
    SecondHalfIs(Words(s, a, b, c, d));
    MixIs(s, a, b, d, 8);
    MixIs(Mix(s, a, b, d, 8), c, d, b, 7);
  }

  /** The quarter round on four places of a state is the one on their words, and moves nothing else. */
  lemma QuarterRoundIs(s: State, a: nat, b: nat, c: nat, d: nat)
    requires a < 16 && b < 16 && c < 16 && d < 16 && a != b && a != c && a != d && b != c && b != d && c != d
    ensures var r := QuarterRound(s, a, b, c, d);
      && Words(r, a, b, c, d) == Quarter(Words(s, a, b, c, d))
      && forall i :: 0 <= i < 16 && i != a && i != b && i != c && i != d ==> r[i] == s[i]
  {
    hide Words, Mix, FirstHalf, SecondHalf;
    FirstMixes(s, a, b, c, d);
    SecondMixes(Mix(Mix(s, a, b, d, 16), c, d, b, 12), a, b, c, d);
  }

  lemma ColumnsAre(s: State)
    ensures var r := QuarterRound(QuarterRound(QuarterRound(QuarterRound(s, 0, 4, 8, 12), 1, 5, 9, 13), 2, 6, 10, 14), 3, 7, 11, 15);
      GridOf(r) == Columns(GridOf(s))
  {
    hide QuarterRound, Quarter, W.Word;
    var s1 := QuarterRound(s, 0, 4, 8, 12);
    var s2 := QuarterRound(s1, 1, 5, 9, 13);
    var s3 := QuarterRound(s2, 2, 6, 10, 14);
    QuarterRoundIs(s, 0, 4, 8, 12); QuarterRoundIs(s1, 1, 5, 9, 13);
    QuarterRoundIs(s2, 2, 6, 10, 14); QuarterRoundIs(s3, 3, 7, 11, 15);
  }

  lemma DiagonalsAre(s: State)
    ensures var r := QuarterRound(QuarterRound(QuarterRound(QuarterRound(s, 0, 5, 10, 15), 1, 6, 11, 12), 2, 7, 8, 13), 3, 4, 9, 14);
      GridOf(r) == Straight(Columns(Skewed(GridOf(s))))
  {
    hide QuarterRound, Quarter, W.Word;
    var s1 := QuarterRound(s, 0, 5, 10, 15);
    var s2 := QuarterRound(s1, 1, 6, 11, 12);
    var s3 := QuarterRound(s2, 2, 7, 8, 13);
    QuarterRoundIs(s, 0, 5, 10, 15); QuarterRoundIs(s1, 1, 6, 11, 12);
    QuarterRoundIs(s2, 2, 7, 8, 13); QuarterRoundIs(s3, 3, 4, 9, 14);
  }

  /** All rounds of the block function, on every state. */
  lemma {:induction false} RoundsAre(s: State, n: nat)
    ensures GridOf(DoubleRounds(s, n)) == Rounds(GridOf(s), n)
    decreases n
  {
    hide QuarterRound, Columns, Straight, Skewed, GridOf;
    if n > 0 {
      RoundsAre(s, n - 1);
      var t := DoubleRounds(s, n - 1);
      ColumnsAre(t);
      DiagonalsAre(QuarterRound(QuarterRound(QuarterRound(QuarterRound(t, 0, 4, 8, 12), 1, 5, 9, 13), 2, 6, 10, 14), 3, 7, 11, 15));
    }
  }

  /** Every bit of a rotated word comes from n places below, around the end. */
  lemma RotlBits(x: u32, n: nat, i: nat)
    requires n <= 32 && i < 32
    ensures W.Bit(Rotl32(x, n), (i + n) % 32) == W.Bit(x, i)
  {
    hide W.Bit, Rotl32, Pow2;
    var p, r := Pow2(n), Pow2(32 - n);
    var hi, lo := x / r, x % r;
    Pow2Byte();
    Pow2Add(n, 32 - n);
    RotlSplit(x, n);
    W.SplitBits(hi, lo, 32 - n, i);
    W.SplitBits(lo, hi, n, (i + n) % 32);
  }

  lemma RotlSplit(x: u32, n: nat)
    requires n <= 32
    ensures var hi, lo := x / Pow2(32 - n), x % Pow2(32 - n);
      0 <= hi < Pow2(n) && x == hi * Pow2(32 - n) + lo && Rotl32(x, n) == lo * Pow2(n) + hi
  {
    hide Pow2;
    Pow2Byte();
    Pow2Add(n, 32 - n);
    Swapped(x, Pow2(n), Pow2(32 - n));
  }

  lemma Swapped(x: nat, p: nat, r: nat)
    requires p > 0 && r > 0 && p * r == TWO_32 && x < TWO_32
    ensures var hi, lo := x / r, x % r;
      0 <= hi < p && x == hi * r + lo && (x * p + hi) % TWO_32 == lo * p + hi
  {
    var hi, lo := x / r, x % r;
    assert hi * r == r * hi;
    if hi >= p { MulMono(p, hi, r); }
    MulMono(lo, r - 1, p); MulMono(0, lo, p);
    assert (r - 1) * p == p * r - p;
    assert (hi * r + lo) * p == (p * r) * hi + lo * p;
    ModUnique(x * p + hi, TWO_32, hi, lo * p + hi);
  }

  // ---------------------------------------------------------------------------------------
  // The quarter round can be undone
  // ---------------------------------------------------------------------------------------

  /** The steps backwards, with right rotations and subtraction. */
  function Unquarter(w: Quad): Quad {
    UndoFirst(UndoSecond(w))
  }

  function UndoSecond(w: Quad): Quad {
    var b := w.b.RotateRight(7) ^ w.c;
    Quad(Minus(w.a, b), b, Minus(w.c, w.d), w.d.RotateRight(8) ^ w.a)
  }

  function UndoFirst(w: Quad): Quad {
    var b := w.b.RotateRight(12) ^ w.c;
    Quad(Minus(w.a, b), b, Minus(w.c, w.d), w.d.RotateRight(16) ^ w.a)
  }

  function Minus(v: bv32, w: bv32): bv32 {
    v - w
  }

  lemma SumMinus(v: bv32, w: bv32)
    ensures Minus(W.Sum(v, w), w) == v
  {
    hide W.Sum, Minus;
    MinusOfSum(v, w);
    MinusSum(v, w);
  }

  lemma MinusOfSum(v: bv32, w: bv32)
    ensures Minus(W.Sum(v, w), w) == Minus(v + w, w)
  {
    hide W.Sum, Minus;
    W.SumIs(v, w);
  }

  lemma MinusSum(v: bv32, w: bv32)
    ensures Minus(v + w, w) == v
  {
  }

  lemma FirstUndone(w: Quad)
    ensures UndoFirst(FirstHalf(w)) == w
  {
    hide W.Sum, Minus;
    SumMinus(w.a, w.b);
    SumMinus(w.c, FirstHalf(w).d);
  }

  lemma SecondUndone(w: Quad)
    ensures UndoSecond(SecondHalf(w)) == w
  {
    hide W.Sum, Minus;
    SumMinus(w.a, w.b);
    SumMinus(w.c, SecondHalf(w).d);
  }

  lemma QuarterUndone(w: Quad)
    ensures Unquarter(Quarter(w)) == w
  {
    hide FirstHalf, SecondHalf, UndoFirst, UndoSecond;
    FirstUndone(w);
    SecondUndone(FirstHalf(w));
  }

  // ---------------------------------------------------------------------------------------
  // The examples of the standard
  // ---------------------------------------------------------------------------------------

  /** Section 2.1.1. */
  lemma Section211()
    ensures Quarter(Quad(0x11111111, 0x01020304, 0x9b8d6f43, 0x01234567)) == Quad(0xea2a92f4, 0xcb1cf8ce, 0x4581472e, 0x5881c4bb)
  {
  }

  // Section 2.3.2: the state before, in the middle of and after the twenty rounds, by columns.
  const BEFORE := Grid(Quad(0x61707865, 0x03020100, 0x13121110, 0x00000001),
      Quad(0x3320646e, 0x07060504, 0x17161514, 0x09000000),
      Quad(0x79622d32, 0x0b0a0908, 0x1b1a1918, 0x4a000000),
      Quad(0x6b206574, 0x0f0e0d0c, 0x1f1e1d1c, 0x00000000))
  const MIDDLE := Grid(Quad(0xc53318c5, 0x26d7cf73, 0xae2ca8db, 0x9e5ec228),
      Quad(0xca325d96, 0x6088d379, 0x42f67c72, 0x7d85a9f3),
      Quad(0x7e7d11cb, 0xc0f0e9bd, 0x71669aca, 0x201d0756),
      Quad(0x3404e2ca, 0xe310cdb9, 0x975c171d, 0x63fa6953))
  const AFTER := Grid(Quad(0x837778ab, 0xc4f2d0c7, 0x335271c2, 0xd19c12b4),
      Quad(0xe238d763, 0xfc62bb2f, 0xf29489f3, 0xb04e16de),
      Quad(0xa67ae21e, 0x8fa018fc, 0xeabda8fc, 0x9e83d0cb),
      Quad(0x5950bb2f, 0x3f5ec7b7, 0x82e46ebd, 0x4e3c50a2))

  lemma FirstRounds()
    ensures TwoRounds(TwoRounds(TwoRounds(TwoRounds(TwoRounds(BEFORE))))) == MIDDLE
  {
  }

  lemma LastRounds()
    ensures TwoRounds(TwoRounds(TwoRounds(TwoRounds(TwoRounds(MIDDLE))))) == AFTER
  {
  }

  lemma {:induction false} FiveRounds(g: Grid, n: nat)
    ensures Rounds(g, n + 5) == TwoRounds(TwoRounds(TwoRounds(TwoRounds(TwoRounds(Rounds(g, n))))))
  {
    hide TwoRounds;
    assert Rounds(g, n + 1) == TwoRounds(Rounds(g, n)) && Rounds(g, n + 2) == TwoRounds(Rounds(g, n + 1));
    assert Rounds(g, n + 3) == TwoRounds(Rounds(g, n + 2)) && Rounds(g, n + 4) == TwoRounds(Rounds(g, n + 3));
  }

  lemma {:induction false} TenRounds()
    ensures Rounds(BEFORE, 10) == AFTER
  {
    hide TwoRounds;
    FiveRounds(BEFORE, 0); FiveRounds(BEFORE, 5);
    FirstRounds(); LastRounds();
  }

  const START: State := [0x61707865, 0x3320646e, 0x79622d32, 0x6b206574, 0x03020100, 0x07060504, 0x0b0a0908, 0x0f0e0d0c,
      0x13121110, 0x17161514, 0x1b1a1918, 0x1f1e1d1c, 0x00000001, 0x09000000, 0x4a000000, 0x00000000]
  const END: State := [0x837778ab, 0xe238d763, 0xa67ae21e, 0x5950bb2f, 0xc4f2d0c7, 0xfc62bb2f, 0x8fa018fc, 0x3f5ec7b7,
      0x335271c2, 0xf29489f3, 0xeabda8fc, 0x82e46ebd, 0xd19c12b4, 0xb04e16de, 0x9e83d0cb, 0x4e3c50a2]

  lemma WordsAre(s: State, a: nat, b: nat, c: nat, d: nat, t: State)
    requires a < 16 && b < 16 && c < 16 && d < 16
    ensures Words(s, a, b, c, d) == Words(t, a, b, c, d) <==> s[a] == t[a] && s[b] == t[b] && s[c] == t[c] && s[d] == t[d]
  {
    hide W.Word;
    if Words(s, a, b, c, d) == Words(t, a, b, c, d) {
      W.WordInjective(s[a], t[a]); W.WordInjective(s[b], t[b]); W.WordInjective(s[c], t[c]); W.WordInjective(s[d], t[d]);
    }
  }

  /** Different states have different words. */
  lemma GridsDiffer(s: State, t: State)
    ensures GridOf(s) == GridOf(t) <==> s == t
  {
    hide Words;
    WordsAre(s, 0, 4, 8, 12, t); WordsAre(s, 1, 5, 9, 13, t); WordsAre(s, 2, 6, 10, 14, t); WordsAre(s, 3, 7, 11, 15, t);
  }

  lemma {:induction false} Before0()
    ensures W.Word(0x61707865) == 0x61707865 && W.Word(0x03020100) == 0x03020100
    ensures W.Word(0x13121110) == 0x13121110 && W.Word(0x00000001) == 0x00000001
  {
    hide W.Word;
    W.EightDigits(6, 1, 7, 0, 7, 8, 6, 5);
    W.EightDigits(0, 3, 0, 2, 0, 1, 0, 0);
    W.EightDigits(1, 3, 1, 2, 1, 1, 1, 0);
    W.EightDigits(0, 0, 0, 0, 0, 0, 0, 1);
  }

  lemma {:induction false} Before1()
    ensures W.Word(0x3320646e) == 0x3320646e && W.Word(0x07060504) == 0x07060504
    ensures W.Word(0x17161514) == 0x17161514 && W.Word(0x09000000) == 0x09000000
  {
    hide W.Word;
    W.EightDigits(3, 3, 2, 0, 6, 4, 6, 14);
    W.EightDigits(0, 7, 0, 6, 0, 5, 0, 4);
    W.EightDigits(1, 7, 1, 6, 1, 5, 1, 4);
    W.EightDigits(0, 9, 0, 0, 0, 0, 0, 0);
  }

  lemma {:induction false} Before2()
    ensures W.Word(0x79622d32) == 0x79622d32 && W.Word(0x0b0a0908) == 0x0b0a0908
    ensures W.Word(0x1b1a1918) == 0x1b1a1918 && W.Word(0x4a000000) == 0x4a000000
  {
    hide W.Word;
    W.EightDigits(7, 9, 6, 2, 2, 13, 3, 2);
    W.EightDigits(0, 11, 0, 10, 0, 9, 0, 8);
    W.EightDigits(1, 11, 1, 10, 1, 9, 1, 8);
    W.EightDigits(4, 10, 0, 0, 0, 0, 0, 0);
  }

  lemma {:induction false} Before3()
    ensures W.Word(0x6b206574) == 0x6b206574 && W.Word(0x0f0e0d0c) == 0x0f0e0d0c
    ensures W.Word(0x1f1e1d1c) == 0x1f1e1d1c && W.Word(0x00000000) == 0x00000000
  {
    hide W.Word;
    W.EightDigits(6, 11, 2, 0, 6, 5, 7, 4);
    W.EightDigits(0, 15, 0, 14, 0, 13, 0, 12);
    W.EightDigits(1, 15, 1, 14, 1, 13, 1, 12);
    W.EightDigits(0, 0, 0, 0, 0, 0, 0, 0);
  }

  lemma {:induction false} After0()
    ensures W.Word(0x837778ab) == 0x837778ab && W.Word(0xc4f2d0c7) == 0xc4f2d0c7
    ensures W.Word(0x335271c2) == 0x335271c2 && W.Word(0xd19c12b4) == 0xd19c12b4
  {
    hide W.Word;
    W.EightDigits(8, 3, 7, 7, 7, 8, 10, 11);
    W.EightDigits(12, 4, 15, 2, 13, 0, 12, 7);
    W.EightDigits(3, 3, 5, 2, 7, 1, 12, 2);
    W.EightDigits(13, 1, 9, 12, 1, 2, 11, 4);
  }

  lemma {:induction false} After1()
    ensures W.Word(0xe238d763) == 0xe238d763 && W.Word(0xfc62bb2f) == 0xfc62bb2f
    ensures W.Word(0xf29489f3) == 0xf29489f3 && W.Word(0xb04e16de) == 0xb04e16de
  {
    hide W.Word;
    W.EightDigits(14, 2, 3, 8, 13, 7, 6, 3);
    W.EightDigits(15, 12, 6, 2, 11, 11, 2, 15);
    W.EightDigits(15, 2, 9, 4, 8, 9, 15, 3);
    W.EightDigits(11, 0, 4, 14, 1, 6, 13, 14);
  }

  lemma {:induction false} After2()
    ensures W.Word(0xa67ae21e) == 0xa67ae21e && W.Word(0x8fa018fc) == 0x8fa018fc
    ensures W.Word(0xeabda8fc) == 0xeabda8fc && W.Word(0x9e83d0cb) == 0x9e83d0cb
  {
    hide W.Word;
    W.EightDigits(10, 6, 7, 10, 14, 2, 1, 14);
    W.EightDigits(8, 15, 10, 0, 1, 8, 15, 12);
    W.EightDigits(14, 10, 11, 13, 10, 8, 15, 12);
    W.EightDigits(9, 14, 8, 3, 13, 0, 12, 11);
  }

  lemma {:induction false} After3()
    ensures W.Word(0x5950bb2f) == 0x5950bb2f && W.Word(0x3f5ec7b7) == 0x3f5ec7b7
    ensures W.Word(0x82e46ebd) == 0x82e46ebd && W.Word(0x4e3c50a2) == 0x4e3c50a2
  {
    hide W.Word;
    W.EightDigits(5, 9, 5, 0, 11, 11, 2, 15);
    W.EightDigits(3, 15, 5, 14, 12, 7, 11, 7);
    W.EightDigits(8, 2, 14, 4, 6, 14, 11, 13);
    W.EightDigits(4, 14, 3, 12, 5, 0, 10, 2);
  }

  lemma StartIs()
    ensures GridOf(START) == BEFORE
  {
    hide W.Word;
    Before0(); Before1(); Before2(); Before3();
  }

  lemma EndIs()
    ensures GridOf(END) == AFTER
  {
    hide W.Word;
    After0(); After1(); After2(); After3();
  }

  /** Section 2.3.2: key 00, 01, .. 1f, counter 1 and the nonce there. */
  lemma Section232()
    ensures var key: seq<byte>, nonce: seq<byte> := seq(32, i requires 0 <= i < 32 => i), [0, 0, 0, 9, 0, 0, 0, 0x4a, 0, 0, 0, 0];
      KeyBlock(InitState(key, nonce, 1)) == Serialize([0xe4e7f110, 0x15593bd1, 0x1fdd0f50, 0xc47120a3, 0xc7f4d1c7, 0x0368c033, 0x9aaa2204, 0x4e6cd4c3,
      0x466482d2, 0x09aa9f07, 0x05d7c214, 0xa2028bd9, 0xd19c12b5, 0xb94e16de, 0xe883d0cb, 0x4e3c50a2])
  {
    var key: seq<byte>, nonce: seq<byte> := seq(32, i requires 0 <= i < 32 => i), [0, 0, 0, 9, 0, 0, 0, 0x4a, 0, 0, 0, 0];
    StartState(key, nonce);
    hide InitState, GridOf, Serialize, DoubleRounds;
    StartIs();
    RoundsAre(START, 10);
    TenRounds();
    EndIs();
    GridsDiffer(DoubleRounds(START, 10), END);
    KeyBlockUnfold(START);
    FeedForward();
  }

  lemma StartState(key: seq<byte>, nonce: seq<byte>)
    requires key == seq(32, i requires 0 <= i < 32 => i) && nonce == [0, 0, 0, 9, 0, 0, 0, 0x4a, 0, 0, 0, 0]
    ensures InitState(key, nonce, 1) == START
  {
  }

  lemma FeedForward()
    ensures AddState(END, START) == [0xe4e7f110, 0x15593bd1, 0x1fdd0f50, 0xc47120a3, 0xc7f4d1c7, 0x0368c033, 0x9aaa2204, 0x4e6cd4c3,
      0x466482d2, 0x09aa9f07, 0x05d7c214, 0xa2028bd9, 0xd19c12b5, 0xb94e16de, 0xe883d0cb, 0x4e3c50a2]
  {
  }
}
