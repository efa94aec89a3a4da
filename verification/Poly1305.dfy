/** The one-time authenticator of libdotnet/Poly1305.h: 17-limb radix-256 arithmetic modulo
    2^130-5 with lazy reduction, a masked final subtraction, and block buffering.
    Its reference is section 2.5 of RFC 8439. */
module Poly1305 {
  import opened Bytes

  const P: int := 0x3_ffff_ffff_ffff_ffff_ffff_ffff_ffff_fffb
  const TWO_128: int := 0x1_0000_0000_0000_0000_0000_0000_0000_0000
  const TWO_136: int := 0x100_0000_0000_0000_0000_0000_0000_0000_0000

  // ---------------------------------------------------------------------------------------
  // The reference: Horner evaluation over 16-byte blocks, each with a one byte appended.
  // ---------------------------------------------------------------------------------------

  /** The multiplier r: 22 bits of the first key half are cleared. */
  function Clamp(key: seq<byte>): (r: seq<byte>)
    requires |key| >= 16
    ensures |r| == 16
  {
    [key[0], key[1], key[2], key[3] % 16,
     key[4] - key[4] % 4, key[5], key[6], key[7] % 16,
     key[8] - key[8] % 4, key[9], key[10], key[11] % 16,
     key[12] - key[12] % 4, key[13], key[14], key[15] % 16]
  }

  /** Where the last, possibly partial, block of a non-empty n-byte message starts. */
  function LastBlock(n: nat): (k: nat)
    requires n > 0
    ensures k < n <= k + 16 && k % 16 == 0
  {
    (n - 1) / 16 * 16
  }

  function Accumulate(r: nat, m: seq<byte>): (acc: nat)
    ensures acc < P
    decreases |m|
  {
    if m == [] then 0 else
      var k := LastBlock(|m|);
      LEBound(m[k..] + [1]);
      ((Accumulate(r, m[..k]) + LE(m[k..] + [1])) * r) % P
  }

  /** The 16-byte tag of message m under a 32-byte key. */
  function Mac(key: seq<byte>, m: seq<byte>): (tag: seq<byte>)
    requires |key| >= 32
    ensures |tag| == 16
  {
    LEBound(Clamp(key)); LEBound(key[16..32]);
    ToLE(Accumulate(LE(Clamp(key)), m) + LE(key[16..32]), 16)
  }

  // The closed form: the sum of c_i * r^(n-i) over the n block numbers c_0 .. c_{n-1}.

  function Pow(r: int, n: nat): int {
    if n == 0 then 1 else r * Pow(r, n - 1)
  }

  function BlockCount(m: seq<byte>): nat {
    (|m| + 15) / 16
  }

  function BlockNumber(m: seq<byte>, i: nat): int
    requires i < BlockCount(m)
  {
    LE(m[16 * i..if 16 * i + 16 <= |m| then 16 * i + 16 else |m|] + [1])
  }

  function Terms(r: int, m: seq<byte>, n: nat, top: nat): int
    requires n <= BlockCount(m) && n <= top
  {
    if n == 0 then 0 else Terms(r, m, n - 1, top) + BlockNumber(m, n - 1) * Pow(r, top - (n - 1))
  }

  lemma {:induction false} TermsScale(r: int, m: seq<byte>, n: nat, top: nat)
    requires n <= BlockCount(m) && n <= top
    ensures Terms(r, m, n, top + 1) == Terms(r, m, n, top) * r
  {
    if n > 0 {
      TermsScale(r, m, n - 1, top);
      assert Pow(r, top + 1 - (n - 1)) == r * Pow(r, top - (n - 1));
      ScaleStep(Terms(r, m, n - 1, top), BlockNumber(m, n - 1), Pow(r, top - (n - 1)), r);
    }
  }

  lemma ScaleStep(t: int, c: int, p: int, r: int)
    ensures t * r + c * (r * p) == (t + c * p) * r
  {
    assert c * p * r == c * (r * p);
  }

  lemma {:induction false} TermsPrefix(r: int, m: seq<byte>, k: nat, n: nat, top: nat)
    requires k <= |m| && k % 16 == 0 && n <= k / 16 && n <= top
    ensures n <= BlockCount(m[..k]) && n <= BlockCount(m)
    ensures Terms(r, m[..k], n, top) == Terms(r, m, n, top)
  {
    if n > 0 {
      TermsPrefix(r, m, k, n - 1, top);
      assert m[..k][16 * (n - 1)..16 * (n - 1) + 16] == m[16 * (n - 1)..16 * (n - 1) + 16];
    }
  }

  /** Horner's rule computes the polynomial of section 2.5: every block number times its power of r. */
  lemma {:induction false} AccumulateIsPolynomial(r: nat, m: seq<byte>)
    ensures Accumulate(r, m) == Terms(r, m, BlockCount(m), BlockCount(m)) % P
    decreases |m|
  {
    if m != [] {
      var k := LastBlock(|m|);
      AccumulateIsPolynomial(r, m[..k]);
      HornerStep(r, m, k, BlockCount(m));
    }
  }

  /** The tag as a number: the polynomial at the clamped key half, modulo 2^130 - 5, plus the other half,
      modulo 2^128. */
  lemma {:induction false} MacIs(key: seq<byte>, m: seq<byte>)
    requires |key| >= 32
    ensures LE(Mac(key, m))
      == (Terms(LE(Clamp(key)), m, BlockCount(m), BlockCount(m)) % (Pow2(130) - 5) + LE(key[16..32])) % 0x1_0000_0000_0000_0000_0000_0000_0000_0000
  {
    hide LE, ToLE, Terms, Accumulate, Clamp, Pow256;
    LEBound(Clamp(key)); LEBound(key[16..32]);
    AccumulateIsPolynomial(LE(Clamp(key)), m);
    LEToLE(Accumulate(LE(Clamp(key)), m) + LE(key[16..32]), 16);
    Pow256Values();
    ModulusIs();
  }

  lemma {:induction false} ModulusIs()
    ensures P == Pow2(130) - 5
  {
    Pow2Byte();
    hide Pow2;
    Pow2Add(32, 32); Pow2Add(64, 64); Pow2Add(128, 2);
    TwoBits();
  }

  lemma {:induction false} TwoBits()
    ensures Pow2(2) == 4
  {
  }

  /** Clamping is a bitwise conjunction of the number. */
  lemma {:induction false} ClampIs(key: seq<byte>)
    requires |key| >= 16
    ensures LE(key[..16]) >= 0 && LE(Clamp(key)) == And(LE(key[..16]), 0x0fff_fffc_0fff_fffc_0fff_fffc_0fff_ffff)
  {
    hide LE, And;
    var k, c := key[..16], Clamp(key);
    LEBound(k); LEBound(c); LEBound(MASK);
    forall i | 0 <= i < 16 ensures c[i] == And(k[i], MASK[i]) {
      ClampByte(k[i]);
    }
    AndBytes(k, MASK, c);
    MaskIs();
  }

  const MASK: seq<byte> := [255, 255, 255, 15, 252, 255, 255, 15, 252, 255, 255, 15, 252, 255, 255, 15]

  lemma {:induction false} MaskIs()
    ensures LE(MASK) == 0x0fff_fffc_0fff_fffc_0fff_fffc_0fff_ffff
  {
    FourBytes(255, 255, 255, 15);
    FourBytes(252, 255, 255, 15);
    var a: seq<byte>, b: seq<byte> := [255, 255, 255, 15], [252, 255, 255, 15];
    FourGroups(a, b);
    assert MASK == a + b + b + b;
  }

  lemma {:induction false} FourGroups(a: seq<byte>, b: seq<byte>)
    requires |a| == |b| == 4
    ensures LE(a + b + b + b)
      == LE(a) + LE(b) * 0x1_0000_0000 + LE(b) * 0x1_0000_0000_0000_0000 + LE(b) * 0x1_0000_0000_0000_0000_0000_0000
  {
    hide LE, Shift, Pow256;
    LEConcat(a, b); LEConcat(a + b, b); LEConcat(a + b + b, b);
    ShiftIsProduct(LE(b), 4); ShiftIsProduct(LE(b), 8); ShiftIsProduct(LE(b), 12);
    Pow256Add(8, 4);
    Pow256Values();
  }

  lemma {:induction false} FourBytes(a: byte, b: byte, c: byte, d: byte)
    ensures LE([a, b, c, d]) == a + 0x100 * b + 0x1_0000 * c + 0x100_0000 * d
  {
    var s: seq<int> := [a, b, c, d];
    assert LE(s[..0]) == 0 && s[..4] == s;
    LEStep(s, 0); LEStep(s, 1); LEStep(s, 2); LEStep(s, 3);
    ShiftIsProduct(b, 1); ShiftIsProduct(c, 2); ShiftIsProduct(d, 3);
    assert Pow256(1) == 0x100 && Pow256(2) == 0x1_0000 && Pow256(3) == 0x100_0000;
  }

  lemma {:induction false} ClampByte(x: byte)
    ensures And(x, 255) == x && And(x, 15) == x % 16 && And(x, 252) == x - x % 4
  {
    AndMask(x, 8);
    AndCommutes(x, 255);
    assert Pow2(8) == 256;
    LowNibble(x);
    HighBits(x);
  }

  lemma {:induction false} AndCommutes(x: nat, y: nat)
    ensures And(x, y) == And(y, x)
    decreases x
  {
    if x != 0 && y != 0 { AndCommutes(x / 2, y / 2); }
  }

  lemma {:induction false} LowNibble(x: byte)
    ensures And(x, 15) == x % 16
  {
    hide And;
    assert Pow2(4) == 16;
    AndJoin(x % 16, x / 16, 15, 0, 4);
    AndMask(x % 16, 4);
    AndCommutes(x % 16, 15);
    AndStep(x / 16, 0);
  }

  lemma {:induction false} AndStep(x: nat, y: nat)
    ensures And(x, y) == (x % 2) * (y % 2) + 2 * And(x / 2, y / 2) && (y == 0 ==> And(x, y) == 0)
  {
  }

  lemma {:induction false} HighBits(x: byte)
    ensures And(x, 252) == x - x % 4
  {
    hide And;
    assert Pow2(2) == 4 && Pow2(6) == 64;
    AndJoin(x % 4, x / 4, 0, 63, 2);
    AndStep(x % 4, 0);
    AndMask(x / 4, 6);
    AndCommutes(x / 4, 63);
  }

  /** Byte by byte. */
  lemma {:induction false} AndBytes(a: seq<byte>, b: seq<byte>, c: seq<byte>)
    requires |a| == |b| == |c| && forall i :: 0 <= i < |a| ==> c[i] == And(a[i], b[i])
    ensures LE(a) >= 0 && LE(b) >= 0 && LE(c) == And(LE(a), LE(b))
    decreases |a|
  {
    hide And;
    LEBound(a); LEBound(b);
    if a == [] {
      AndStep(0, 0);
    } else {
      var x, y, z := a[1..], b[1..], c[1..];
      AndBytes(x, y, z);
      LEBound(x); LEBound(y);
      FirstByte(a); FirstByte(b); FirstByte(c);
      AndJoin(a[0], LE(x), b[0], LE(y), 8);
      assert Pow2(8) == 256;
    }
  }

  lemma {:induction false} FirstByte(s: seq<byte>)
    requires s != []
    ensures LE(s) == s[0] + 256 * LE(s[1..])
  {
    assert s == [s[0]] + s[1..];
    LEConcat([s[0]], s[1..]);
    assert [s[0]][..0] == [];
    assert LE([s[0]]) == s[0] && Shift(LE(s[1..]), 1) == 256 * LE(s[1..]);
  }

  lemma {:induction false} AndJoin(a: nat, x: nat, b: nat, y: nat, n: nat)
    requires a < Pow2(n) && b < Pow2(n)
    ensures And(a + Pow2(n) * x, b + Pow2(n) * y) == And(a, b) + Pow2(n) * And(x, y)
    decreases n
  {
    hide And;
    if n == 0 {
      AndStep(0, 0);
    } else {
      var p := Pow2(n - 1);
      AndJoin(a / 2, x, b / 2, y, n - 1);
      AndStep(a, b);
      HalfJoin(a, p, x); HalfJoin(b, p, y);
      AndStep(a + 2 * p * x, b + 2 * p * y);
      TwiceProduct(p, And(x, y));
      hide Pow2;
    }
  }

  lemma {:induction false} HornerStep(r: nat, m: seq<byte>, k: nat, n: nat)
    requires m != [] && k == LastBlock(|m|) && n == BlockCount(m)
    requires Accumulate(r, m[..k]) == Terms(r, m[..k], BlockCount(m[..k]), BlockCount(m[..k])) % P
    ensures Accumulate(r, m) == Terms(r, m, n, n) % P
  {
    LastBlockNumber(m, k);
    TermsLast(r, m, k, n);
    ModMulAdd(Terms(r, m[..k], n - 1, n - 1), LE(m[k..] + [1]), r);
  }

  lemma LastBlockNumber(m: seq<byte>, k: nat)
    requires m != [] && k == LastBlock(|m|)
    ensures k == 16 * (BlockCount(m) - 1) && BlockCount(m[..k]) == BlockCount(m) - 1
    ensures BlockNumber(m, BlockCount(m) - 1) == LE(m[k..] + [1])
  {
    assert m[k..|m|] == m[k..];
  }

  lemma TermsLast(r: int, m: seq<byte>, k: nat, n: nat)
    requires m != [] && k == LastBlock(|m|) && n == BlockCount(m)
    requires BlockCount(m[..k]) == n - 1
    ensures Terms(r, m, n, n) == (Terms(r, m[..k], n - 1, n - 1) + BlockNumber(m, n - 1)) * r
  {
    hide Terms, BlockNumber;
    TermsPrefix(r, m, k, n - 1, n - 1);
    TermsScale(r, m, n - 1, n - 1);
    TopTerm(r, m, n);
  }

  lemma TopTerm(r: int, m: seq<byte>, n: nat)
    requires 0 < n <= BlockCount(m)
    requires Terms(r, m, n - 1, n) == Terms(r, m, n - 1, n - 1) * r
    ensures Terms(r, m, n, n) == (Terms(r, m, n - 1, n - 1) + BlockNumber(m, n - 1)) * r
  {
    assert Pow(r, 0) == 1;
    assert Pow(r, 1) == r;
  }

  lemma ModMulAdd(t: int, c: int, r: int)
    ensures ((t % P + c) * r) % P == ((t + c) * r) % P
  {
    var q := t / P;
    calc {
      (t + c) * r;
      (P * q + (t % P + c)) * r;
      P * (q * r) + (t % P + c) * r;
    }
    ModShift((t % P + c) * r, q * r);
  }

  lemma ModShift(a: int, k: int)
    ensures (P * k + a) % P == a % P
  {
    ModUnique(P * k + a, P, k + a / P, a % P);
  }

  // ---------------------------------------------------------------------------------------
  // Limb arithmetic: poly1305::Block
  // ---------------------------------------------------------------------------------------

  lemma Widths()
    ensures Pow256(16) == TWO_128 && Pow256(17) == TWO_136
  {
    Pow256Values();
  }

  lemma {:induction false} Shift16(x: int)
    ensures Shift(x, 16) == x * TWO_128
  {
    ShiftIsProduct(x, 16);
    Widths();
  }

  /** Block::operator+=, addition modulo 2^136. */
  method BlockAdd(data: array<byte>, other: array<byte>)
    requires data.Length == 17 && other.Length == 17
    modifies data
    ensures LE(data[..]) == (LE(old(data[..])) + LE(old(other[..]))) % TWO_136
  {
    var u: u16 := 0;
    ghost var a, b := data[..], other[..];
    for i := 0 to 17
      invariant u <= 1
      invariant forall k :: i <= k < 17 ==> data[k] == a[k] && other[k] == b[k]
      invariant LE(data[..i]) + Shift(u, i) == LE(a[..i]) + LE(b[..i])
    {
      ghost var before := data[..i];
      ghost var v := u;
      u := u + data[i] + other[i];
      data[i] := u % 256;
      u := u / 256;
      AddStep(a, b, before, data[i], u, v, i);
      assert data[..i + 1] == before + [data[i]];
    }
    assert data[..17] == data[..] && a[..17] == a && b[..17] == b;
    DropTopCarry(data[..], u, LE(a) + LE(b));
  }

  lemma AddStep(a: seq<int>, b: seq<int>, before: seq<int>, d: int, u: int, carry: int, i: nat)
    requires i < |a| && i < |b| && |before| == i
    requires carry + a[i] + b[i] == d + 256 * u
    requires LE(before) + Shift(carry, i) == LE(a[..i]) + LE(b[..i])
    ensures LE(before + [d]) + Shift(u, i + 1) == LE(a[..i + 1]) + LE(b[..i + 1])
  {
    LEStep(a, i); LEStep(b, i);
    ShiftAdd(a[i], b[i], i);
    CarryStep(before, d, u, carry, a[i] + b[i]);
  }

  lemma {:induction false} DropTopCarry(d: seq<byte>, u: int, sum: int)
    requires |d| == 17 && LE(d) + Shift(u, 17) == sum
    ensures LE(d) == sum % TWO_136
  {
    LEBound(d);
    Widths();
    ShiftIsProduct(u, 17);
    ModUnique(sum, TWO_136, u, LE(d));
  }

  /** One limb of a carry chain: the digit stays, the carry moves up one place. */
  lemma CarryStep(before: seq<int>, d: int, u: int, carry: int, x: int)
    requires carry + x == d + 256 * u
    ensures LE(before + [d]) + Shift(u, |before| + 1)
         == LE(before) + Shift(carry, |before|) + Shift(x, |before|)
  {
    var n := |before|;
    LESnoc(before, d);
    ShiftOnce(u, n);
    ShiftAdd(d, 256 * u, n);
    ShiftAdd(carry, x, n);
  }

  // The largest column of the 17-limb product: 17 * 255 * 255 * 320.
  const MAX_COLUMN: int := 353736000

  /** First pass of operator%=: sixteen digits of the product, and the carry into limb 16. */
  method CarryIn(data: array<byte>, other: array<u32>) returns (u: u32)
    requires data.Length == 17 && other.Length == 17
    requires forall k :: 0 <= k < 16 ==> other[k] <= MAX_COLUMN
    modifies data
    ensures u <= 0x200_0000
    ensures LE(data[..16]) + Shift(u, 16) == LE(other[..16])
  {
    u := 0;
    ghost var v := other[..];
    for i := 0 to 16
      invariant u <= 0x200_0000
      invariant LE(data[..i]) + Shift(u, i) == LE(v[..i])
    {
      ghost var before, w := data[..i], u;
      u := u + other[i];
      data[i] := u % 256;
      u := u / 256;
      assert data[..i + 1] == before + [data[i]];
      LEStep(v, i);
      CarryStep(before, data[i], u, w, v[i]);
    }
    assert v[..16] == other[..16];
  }

  /** Second pass of operator%=: the folded top is added to the low sixteen digits. */
  method FoldIn(data: array<byte>, five: u32) returns (u: u32)
    requires data.Length == 17 && five < 0x8000_0000
    modifies data
    ensures data[16] == old(data[16])
    ensures LE(data[..16]) + Shift(u, 16) == LE(old(data[..16])) + five
  {
    u := five;
    ghost var low := data[..16];
    for i := 0 to 16
      invariant u <= five && data[16] == old(data[16])
      invariant forall k :: i <= k < 16 ==> data[k] == low[k]
      invariant LE(data[..i]) + Shift(u, i) == LE(low[..i]) + five
    {
      ghost var before, w := data[..i], u;
      u := u + data[i];
      data[i] := u % 256;
      u := u / 256;
      assert data[..i + 1] == before + [data[i]];
      LEStep(low, i);
      CarryStep(before, data[i], u, w, low[i]);
    }
    assert low[..16] == low;
  }

  /** Block::operator%=, the partial reduction of a 17-column product. */
  method BlockReduce(data: array<byte>, other: array<u32>)
    requires data.Length == 17 && other.Length == 17
    requires forall k :: 0 <= k < 17 ==> other[k] <= MAX_COLUMN
    modifies data
    ensures LE(data[..]) % P == LE(old(other[..])) % P
    ensures data[16] <= 4
  {
    hide LE, Shift;
    ghost var v := other[..];
    var u := CarryIn(data, other);
    assert v[..16] == other[..16];
    u := u + other[16];
    ghost var low, top := data[..16], u;
    data[16] := u % 4;
    assert data[..16] == low;
    u := u / 4;
    u := u + u * 4;
    u := FoldIn(data, u);
    ghost var d := data[..16];
    FoldedTop(v, low, d, top, u);
    data[16] := data[16] + u % 256;
    assert data[..] == d + [top % 4 + u];
  }

  lemma FoldedTop(v: seq<int>, low: seq<byte>, d: seq<byte>, top: nat, u: nat)
    requires |v| == 17 && |low| == 16 && |d| == 16 && top <= MAX_COLUMN + 0x200_0000
    requires LE(low) + Shift(top - v[16], 16) == LE(v[..16])
    requires LE(d) + Shift(u, 16) == LE(low) + top / 4 * 5
    ensures u <= 1
    ensures LE(d + [top % 4 + u]) % P == LE(v) % P
  {
    hide LE, Shift;
    Shift16(u); Shift16(top - v[16]); Shift16(v[16]); Shift16(top % 4 + u);
    Widths();
    LEBound(low); LEBound(d);
    LEStep(v, 16);
    assert v[..17] == v;
    var s := d + [top % 4 + u];
    LESnoc(d, top % 4 + u);
    FoldAlgebra(LE(v), LE(v[..16]), v[16], LE(low), LE(d), LE(s), top, u);
    ModShift(LE(s), top / 4);
  }

  lemma FoldAlgebra(v: int, vlow: int, vtop: int, low: int, d: int, s: int, top: int, u: int)
    requires v == vlow + vtop * TWO_128 && low + (top - vtop) * TWO_128 == vlow
    requires d + u * TWO_128 == low + top / 4 * 5 && s == d + (top % 4 + u) * TWO_128
    ensures v == P * (top / 4) + s
  {
  }

  /** The masked byte select of the freeze: data[i] ^= neg & (orig[i] ^ data[i]). */
  function Select(neg: byte, d: byte, o: byte): nat {
    Xor(d, And(neg, Xor(o, d)))
  }

  lemma SelectMeaning(d: byte, o: byte)
    ensures Select(0, d, o) == d && Select(255, d, o) == o
  {
    hide Pow2, Xor, And;
    Pow2Byte();
    AndNothing(Xor(o, d));
    XorBound(o, d, 8);
    AndMask(Xor(o, d), 8);
    XorCommutes(o, d);
    XorCommutes(Xor(o, d), d);
    XorInvolutive(o, d);
    XorZero(d);
  }

  lemma {:induction false} AndNothing(x: nat)
    ensures And(0, x) == 0
  {
  }

  /** Block::operator~, the constant-time final subtraction: for a value below 2p it is reduction modulo p. */
  method BlockFreeze(data: array<byte>)
    requires data.Length == 17 && data[16] <= 4
    modifies data
    ensures LE(data[..]) == LE(old(data[..])) % P
  {
    hide LE;
    var minusp := new byte[17](i => if i == 0 then 5 else if i == 16 then 0xfc else 0);
    var orig := new byte[17](i requires 0 <= i < 17 reads data => data[i]);
    ghost var h := data[..];
    assert orig[..] == h;
    MinusP(minusp[..]);
    BlockAdd(data, minusp);
    ghost var s := data[..];
    var neg: byte := if data[16] / 128 == 1 then 255 else 0;
    for i := 0 to 17
      invariant orig[..] == h
      invariant forall k :: i <= k < 17 ==> data[k] == s[k]
      invariant forall k :: 0 <= k < i ==> data[k] == if neg == 0 then s[k] else h[k]
    {
      SelectMeaning(data[i], orig[i]);
      data[i] := Select(neg, data[i], orig[i]);
    }
    FreezeChoice(h, s);
    assert data[..] == if neg == 0 then s else h;
  }

  lemma {:induction false} MinusP(s: seq<byte>)
    requires |s| == 17 && s[0] == 5 && s[16] == 0xfc && forall i :: 1 <= i < 16 ==> s[i] == 0
    ensures LE(s) == TWO_136 - P
  {
    Widths();
    assert s[..17] == s;
    LEStep(s, 16); LEStep(s, 0);
    assert s[..16] == s[..1] + s[1..16];
    LEConcat(s[..1], s[1..16]);
    LEZeros(s[1..16]);
    ShiftZeroOne(1);
    Shift16(0xfc);
    assert s[..0] == [];
  }

  lemma {:induction false} FreezeChoice(h: seq<byte>, s: seq<byte>)
    requires |h| == 17 && |s| == 17 && h[16] <= 4
    requires LE(s) == (LE(h) + (TWO_136 - P)) % TWO_136
    ensures s[16] / 128 == 1 ==> LE(h) % P == LE(h)
    ensures s[16] / 128 != 1 ==> LE(h) % P == LE(s)
  {
    hide LE, Shift, Pow256;
    Widths();
    LEStep(h, 16); LEStep(s, 16);
    Shift16(h[16]); Shift16(s[16]);
    assert h[..17] == h && s[..17] == s;
    LEBound(h[..16]); LEBound(s[..16]);
    assert LE(h) < 5 * TWO_128 < 2 * P;
    if LE(h) < P {
      ModUnique(LE(h), P, 0, LE(h));
      ModUnique(LE(h) + (TWO_136 - P), TWO_136, 0, LE(h) + (TWO_136 - P));
    } else {
      ModUnique(LE(h), P, 1, LE(h) - P);
      ModUnique(LE(h) + (TWO_136 - P), TWO_136, 1, LE(h) - P);
    }
  }

  // The 17-column product: column i collects every h[j] * r[i-j], and the wrapped terms 320 times.

  function Coefficient(r: seq<int>, i: int, j: int): int
    requires |r| == 17 && 0 <= i < 17 && 0 <= j < 17
  {
    if j <= i then r[i - j] else 320 * r[i + 17 - j]
  }

  function Column(h: seq<int>, r: seq<int>, i: int, n: nat): int
    requires |h| == 17 && |r| == 17 && 0 <= i < 17 && n <= 17
  {
    if n == 0 then 0 else Column(h, r, i, n - 1) + h[n - 1] * Coefficient(r, i, n - 1)
  }

  lemma {:induction false} ColumnBound(h: seq<byte>, r: seq<byte>, i: int, n: nat)
    requires |h| == 17 && |r| == 17 && 0 <= i < 17 && n <= 17
    ensures 0 <= Column(h, r, i, n) <= n * 20808000
  {
    if n > 0 {
      ColumnBound(h, r, i, n - 1);
      var c := Coefficient(r, i, n - 1);
      assert 0 <= c <= 255 * 320;
      MulMono(0, h[n - 1], c);
      MulMono(h[n - 1], 255, c);
    }
  }

  /** The digits of 256^j * r, wrapped at 2^136 with factor 320. */
  function Row(r: seq<int>, j: int, m: nat): seq<int>
    requires |r| == 17 && 0 <= j < 17 && m <= 17
  {
    seq(m, i requires 0 <= i < m => Coefficient(r, i, j))
  }

  function Columns(h: seq<int>, r: seq<int>, n: nat, m: nat): seq<int>
    requires |h| == 17 && |r| == 17 && n <= 17 && m <= 17
  {
    seq(m, i requires 0 <= i < m => Column(h, r, i, n))
  }

  lemma {:induction false} ShiftScale(x: int, y: int, n: nat)
    ensures Shift(x * y, n) == x * Shift(y, n)
  {
    ShiftIsProduct(x * y, n); ShiftIsProduct(y, n);
    assert (x * y) * Pow256(n) == x * (y * Pow256(n));
  }

  lemma ColumnsSnoc(h: seq<int>, r: seq<int>, n: nat, k: nat)
    requires |h| == 17 && |r| == 17 && n <= 17 && k < 17
    ensures LE(Columns(h, r, n, k + 1)) == LE(Columns(h, r, n, k)) + Shift(Column(h, r, k, n), k)
  {
    hide LE, Shift, Column;
    assert Columns(h, r, n, k + 1) == Columns(h, r, n, k) + [Column(h, r, k, n)];
    LESnoc(Columns(h, r, n, k), Column(h, r, k, n));
  }

  lemma RowSnoc(r: seq<int>, j: nat, k: nat)
    requires |r| == 17 && j < 17 && k < 17
    ensures LE(Row(r, j, k + 1)) == LE(Row(r, j, k)) + Shift(Coefficient(r, k, j), k)
  {
    hide LE, Shift, Coefficient;
    assert Row(r, j, k + 1) == Row(r, j, k) + [Coefficient(r, k, j)];
    LESnoc(Row(r, j, k), Coefficient(r, k, j));
  }

  lemma ColumnTerm(h: seq<int>, r: seq<int>, n: nat, k: nat)
    requires |h| == 17 && |r| == 17 && n < 17 && k < 17
    ensures Shift(Column(h, r, k, n + 1), k)
         == Shift(Column(h, r, k, n), k) + h[n] * Shift(Coefficient(r, k, n), k)
  {
    hide Shift, Coefficient;
    ShiftAdd(Column(h, r, k, n), h[n] * Coefficient(r, k, n), k);
    ShiftScale(h[n], Coefficient(r, k, n), k);
  }

  /** One more multiplier limb adds h[n] copies of its row to the columns. */
  lemma {:induction false} AddRow(h: seq<int>, r: seq<int>, n: nat, m: nat)
    requires |h| == 17 && |r| == 17 && n < 17 && m <= 17
    ensures LE(Columns(h, r, n + 1, m)) == LE(Columns(h, r, n, m)) + h[n] * LE(Row(r, n, m))
  {
    if m == 0 {
      assert LE([]) == 0;
    } else {
      hide *;
      AddRow(h, r, n, m - 1);
      AddRowStep(h, r, n, m - 1, m);
    }
  }

  lemma AddRowStep(h: seq<int>, r: seq<int>, n: nat, k: nat, m: nat)
    requires |h| == 17 && |r| == 17 && n < 17 && k < 17 && m == k + 1
    requires LE(Columns(h, r, n + 1, k)) == LE(Columns(h, r, n, k)) + h[n] * LE(Row(r, n, k))
    ensures LE(Columns(h, r, n + 1, m)) == LE(Columns(h, r, n, m)) + h[n] * LE(Row(r, n, m))
  {
    hide *;
    ColumnsSnoc(h, r, n + 1, k);
    ColumnsSnoc(h, r, n, k);
    RowSnoc(r, n, k);
    ColumnTerm(h, r, n, k);
    AddTerm(LE(Columns(h, r, n + 1, k)), LE(Columns(h, r, n, k)), Shift(Column(h, r, k, n), k), Shift(Column(h, r, k, n + 1), k),
      h[n], LE(Row(r, n, k)), Shift(Coefficient(r, k, n), k));
  }

  lemma AddTerm(after: int, before: int, x: int, y: int, a: int, b: int, c: int)
    requires after == before + a * b && y == x + a * c
    ensures after + y == before + x + a * (b + c)
  {
    Distribute(a, b, c);
  }

  lemma Distribute(a: int, b: int, c: int)
    ensures a * (b + c) == a * b + a * c
  {
  }

  lemma {:induction false} LEScale(x: int, s: seq<int>, t: seq<int>)
    requires |s| == |t| && forall k :: 0 <= k < |s| ==> t[k] == x * s[k]
    ensures LE(t) == x * LE(s)
    decreases |s|
  {
    if s != [] {
      var n := |s| - 1;
      LEScale(x, s[..n], t[..n]);
      ShiftScale(x, s[n], n);
      Distribute(x, LE(s[..n]), Shift(s[n], n));
    }
  }

  /** A row is the shifted multiplier modulo 2^130-5: its digits above limb 16 come back 320-fold. */
  lemma {:induction false} RowIsShift(r: seq<int>, j: nat)
    requires |r| == 17 && j < 17
    ensures Shift(LE(r), j) == LE(Row(r, j, 17)) + P * (64 * LE(r[17 - j..]))
  {
    hide LE, Shift;
    var low, high := r[..17 - j], r[17 - j..];
    var row := Row(r, j, 17);
    assert r == low + high;
    LEConcat(low, high);
    ShiftAdd(LE(low), Shift(LE(high), 17 - j), j);
    ShiftShift(LE(high), 17 - j, j);
    assert row == row[..j] + row[j..];
    LEConcat(row[..j], row[j..]);
    assert row[j..] == low;
    LEScale(320, high, row[..j]);
    ShiftIsProduct(LE(high), 17);
    Widths();
  }

  /** The value that the wrapped columns drop: a multiple of 2^130-5. */
  function Dropped(h: seq<int>, r: seq<int>, n: nat): int
    requires |h| == 17 && |r| == 17 && n <= 17
  {
    if n == 0 then 0 else Dropped(h, r, n - 1) + h[n - 1] * (64 * LE(r[17 - (n - 1)..]))
  }

  lemma {:induction false} ProductColumns(h: seq<int>, r: seq<int>, n: nat)
    requires |h| == 17 && |r| == 17 && n <= 17
    ensures LE(h[..n]) * LE(r) == LE(Columns(h, r, n, 17)) + P * Dropped(h, r, n)
  {
    if n == 0 {
      LEZeros(Columns(h, r, 0, 17));
    } else {
      var j := n - 1;
      ProductColumns(h, r, j);
      LEStep(h, j);
      AddRow(h, r, j, 17);
      RowIsShift(r, j);
      ShiftIsProduct(h[j], j); ShiftIsProduct(LE(r), j);
      ProductStep(LE(h[..j]), LE(r), h[j], Pow256(j), LE(Row(r, j, 17)), 64 * LE(r[17 - j..]));
      Distribute(P, Dropped(h, r, j), h[j] * (64 * LE(r[17 - j..])));
    }
  }

  lemma ProductStep(h: int, r: int, x: int, p: int, row: int, k: int)
    requires r * p == row + P * k
    ensures (h + x * p) * r == h * r + x * row + P * (x * k)
  {
    calc {
      (h + x * p) * r;
      h * r + x * p * r;
      { assert x * p * r == x * (r * p); }
      h * r + x * (row + P * k);
      { Distribute(x, row, P * k); }
      h * r + x * row + x * (P * k);
    }
  }

  /** The columns of the product represent h * r modulo 2^130-5. */
  lemma {:induction false} ColumnsAreProduct(h: seq<int>, r: seq<int>)
    requires |h| == 17 && |r| == 17
    ensures LE(Columns(h, r, 17, 17)) % P == (LE(h) * LE(r)) % P
  {
    ProductColumns(h, r, 17);
    assert h[..17] == h;
    ModShift(LE(Columns(h, r, 17, 17)), Dropped(h, r, 17));
  }

  // ---------------------------------------------------------------------------------------
  // Streaming: struct Poly1305
  // ---------------------------------------------------------------------------------------

  /** Absorbing whole blocks from the front, each completed by limb hi. */
  function Absorb(acc: nat, r: nat, m: seq<byte>, hi: byte): nat
    decreases |m|
  {
    if |m| < 16 then acc else
      LEBound(m[..16] + [hi]);
      Absorb(((acc + LE(m[..16] + [hi])) * r) % P, r, m[16..], hi)
  }

  lemma {:induction false} AbsorbNothing(acc: nat, r: nat, hi: byte)
    ensures Absorb(acc, r, [], hi) == acc
  {
  }

  lemma {:induction false} AbsorbOne(acc: nat, r: nat, m: seq<byte>, hi: byte)
    requires |m| >= 16
    ensures ((acc + LE(m[..16] + [hi])) * r) % P >= 0
    ensures Absorb(acc, r, m, hi) == Absorb(((acc + LE(m[..16] + [hi])) * r) % P, r, m[16..], hi)
  {
  }

  lemma {:induction false} AccumulateBlock(r: nat, a: seq<byte>, block: seq<byte>)
    requires |a| % 16 == 0 && 0 < |block| <= 16
    ensures Accumulate(r, a + block) == ((Accumulate(r, a) + LE(block + [1])) * r) % P
  {
    hide LE;
    var b := a + block;
    assert LastBlock(|b|) == |a| && b[..|a|] == a && b[|a|..] == block;
  }

  lemma {:induction false} AbsorbAccumulate(r: nat, a: seq<byte>, m: seq<byte>)
    requires |a| % 16 == 0 && |m| % 16 == 0
    ensures Absorb(Accumulate(r, a), r, m, 1) == Accumulate(r, a + m)
    decreases |m|
  {
    hide *;
    if m == [] {
      assert a + m == a;
      AbsorbNothing(Accumulate(r, a), r, 1);
    } else {
      AccumulateBlock(r, a, m[..16]);
      AbsorbOne(Accumulate(r, a), r, m, 1);
      AbsorbAccumulate(r, a + m[..16], m[16..]);
      assert a + m[..16] + m[16..] == a + m;
    }
  }

  /** What an accumulator h and a buffered tail remember of everything fed so far. */
  ghost predicate Holds(h: seq<byte>, tail: seq<byte>, r: nat, fed: seq<byte>) {
    && |h| == 17 && h[16] <= 4
    && |tail| <= |fed| && (|fed| - |tail|) % 16 == 0 && tail == fed[|fed| - |tail|..]
    && LE(h) % P == Accumulate(r, fed[..|fed| - |tail|])
  }

  lemma HoldsNothing(h: seq<byte>, r: nat)
    requires |h| == 17 && forall i :: 0 <= i < 17 ==> h[i] == 0
    ensures Holds(h, [], r, [])
  {
    LEZeros(h);
  }

  lemma HoldsMore(h: seq<byte>, tail: seq<byte>, r: nat, fed: seq<byte>, x: seq<byte>)
    requires Holds(h, tail, r, fed)
    ensures Holds(h, tail + x, r, fed + x)
  {
    hide LE, Accumulate;
    SuffixAppend(fed, |fed| - |tail|, x);
    assert |fed + x| - |tail + x| == |fed| - |tail|;
  }

  lemma {:induction false} HoldsBlocks(before: seq<byte>, after: seq<byte>, tail: seq<byte>, r: nat, fed: seq<byte>)
    requires Holds(before, tail, r, fed) && |tail| % 16 == 0
    requires |after| == 17 && after[16] <= 4 && LE(after) % P == Absorb(LE(before) % P, r, tail, 1)
    ensures Holds(after, [], r, fed)
  {
    hide LE, Accumulate, Absorb;
    var full := fed[..|fed| - |tail|];
    AbsorbAccumulate(r, full, tail);
    assert full + tail == fed;
    assert fed[..|fed| - 0] == fed;
    assert fed[|fed| - 0..] == [];
  }

  class Poly1305 {
    const h: array<byte>
    const msg: array<byte>
    const hr: array<u32>
    const buffer: array<byte>
    const r: seq<byte>
    const pad: seq<byte>
    var leftover: nat
    var final: byte
    ghost const key: seq<byte>
    ghost var fed: seq<byte>  // every byte given to Update so far

    ghost predicate Shape() {
      && h.Length == 17 && msg.Length == 17 && hr.Length == 17 && buffer.Length == 16
      && h != msg && h != buffer && msg != buffer
      && |key| >= 32 && r == Clamp(key) + [0] && pad == key[16..32] + [0]
    }

    ghost predicate Buffered()
      reads this, h, buffer
    {
      Shape() && final == 0 && leftover <= 16 && Holds(h[..], buffer[..leftover], R(), fed)
    }

    ghost predicate Valid()
      reads this, h, buffer
    {
      Buffered() && leftover < 16
    }

    ghost function R(): nat
      requires Shape()
    {
      LEBound(Clamp(key));
      LE(Clamp(key))
    }

    constructor (k: seq<byte>)
      requires |k| >= 32
      ensures Valid() && fresh(h) && fresh(msg) && fresh(hr) && fresh(buffer)
      ensures fed == [] && key == k
    {
      hide LE, Accumulate, Clamp, Holds;
      key := k;
      r, pad := Clamp(k) + [0], k[16..32] + [0];
      h, msg := new byte[17](_ => 0), new byte[17](_ => 0);
      hr, buffer := new u32[17](_ => 0), new byte[16](_ => 0);
      leftover, final, fed := 0, 0, [];
      new;
      HoldsNothing(h[..], R());
      assert buffer[..0] == [];
    }

    /** One iteration of Blocks: h := (h + block) * r, partially reduced. */
    method OneBlock(buf: array<byte>, off: nat)
      requires Shape() && h[16] <= 4 && final <= 1
      requires off + 16 <= buf.Length && buf != h && buf != msg
      modifies h, msg, hr
      ensures h[16] <= 4
      ensures LE(h[..]) % P == ((LE(old(h[..])) % P + LE(buf[off..off + 16] + [1 - final])) * R()) % P
    {
      ghost var block := buf[off..off + 16] + [1 - final];
      Copy(buf, off, msg, 0, 16);
      msg[16] := 1 - final;
      assert msg[..] == block;
      ghost var before := h[..];
      BlockAdd(h, msg);
      ghost var sum := h[..];
      Multiply();
      assert h[..] == sum;
      BlockReduce(h, hr);
      assert block[16] == 1 - final;
      BlockStep(before, block, sum, Clamp(key), LE(h[..]));
    }

    /** hr := h * r, column by column. */
    method Multiply()
      requires Shape()
      modifies hr
      ensures hr[..] == Columns(h[..], r, 17, 17)
      ensures forall k :: 0 <= k < 17 ==> hr[k] <= MAX_COLUMN
    {
      for i := 0 to 17
        invariant hr[..i] == Columns(h[..], r, 17, i)
        invariant forall k :: 0 <= k < i ==> hr[k] <= MAX_COLUMN
      {
        ghost var done := hr[..i];
        var u := MultiplyColumn(i);
        hr[i] := u;
        assert hr[..i + 1] == done + [u];
      }
      assert hr[..17] == hr[..];
    }

    method MultiplyColumn(i: nat) returns (u: u32)
      requires Shape() && i < 17
      ensures u == Column(h[..], r, i, 17) && u <= MAX_COLUMN
    {
      u := 0;
      for j := 0 to i + 1
        invariant u == Column(h[..], r, i, j)
      {
        ColumnBound(h[..], r, i, j + 1);
        u := u + Product(h[j], r[i - j]);
      }
      for j := i + 1 to 17
        invariant u == Column(h[..], r, i, j)
      {
        ColumnBound(h[..], r, i, j + 1);
        var v: u32 := Product(h[j], r[i + 17 - j]);
        v := v * 256 + v * 64;
        Wrapped(h[j], r[i + 17 - j], v);
        u := u + v;
      }
      ColumnBound(h[..], r, i, 17);
    }

    method Blocks(buf: array<byte>, off: nat, sz: nat)
      requires Shape() && h[16] <= 4 && final <= 1
      requires off + sz <= buf.Length && buf != h && buf != msg
      modifies h, msg, hr
      ensures h[16] <= 4
      ensures LE(h[..]) % P == Absorb(LE(old(h[..])) % P, R(), buf[off..off + sz], 1 - final)
    {
      var o, s := off, sz;
      ghost var goal := Absorb(LE(h[..]) % P, R(), buf[off..off + sz], 1 - final);
      while s >= 16
        invariant o + s == off + sz && h[16] <= 4
        invariant goal == Absorb(LE(h[..]) % P, R(), buf[o..o + s], 1 - final)
      {
        assert buf[o..o + s][..16] == buf[o..o + 16] && buf[o..o + s][16..] == buf[o + 16..o + s];
        OneBlock(buf, o);
        o, s := o + 16, s - 16;
      }
    }

    method Update(buf: array<byte>, off: nat, sz: nat)
      requires Valid() && off + sz <= buf.Length && buf != h && buf != msg && buf != buffer
      modifies this, h, msg, hr, buffer
      ensures Valid() && fed == old(fed) + buf[off..off + sz]
    {
      hide *;
      var want := 0;
      if leftover > 0 {
        want := FillBuffer(buf, off, sz);
        if leftover > 0 { return; }
        AppendSlices(old(fed), buf, off, off + want, off + sz);
      }
      UpdateAligned(buf, off + want, sz - want);
    }

    /** The rest of Update, once no partial block is buffered. */
    method UpdateAligned(buf: array<byte>, off: nat, sz: nat)
      requires Valid() && leftover == 0
      requires off + sz <= buf.Length && buf != h && buf != msg && buf != buffer
      modifies this, h, msg, hr, buffer
      ensures Valid() && fed == old(fed) + buf[off..off + sz]
    {
      hide *;
      var want := 0;
      if sz >= 16 {
        want := WholeBlocks(buf, off, sz);
        AppendSlices(old(fed), buf, off, off + want, off + sz);
      }
      if sz - want > 0 {
        TopUp(buf, off + want, sz - want);
        ConsumeBuffer();
      }
    }

    /** First section of Update: top up a partial block. */
    method FillBuffer(buf: array<byte>, off: nat, sz: nat) returns (want: nat)
      requires Valid() && leftover > 0 && off + sz <= buf.Length && buf != h && buf != msg && buf != buffer
      modifies this, h, msg, hr, buffer
      ensures Valid() && want <= sz && (leftover == 0 || want == sz)
      ensures fed == old(fed) + buf[off..off + want]
    {
      hide *;
      want := RoomLeft(sz);
      TopUp(buf, off, want);
      ConsumeBuffer();
    }

    method RoomLeft(sz: nat) returns (want: nat)
      requires Valid()
      ensures want <= sz && leftover + want <= 16 && (leftover + want == 16 || want == sz)
    {
      want := 16 - leftover;
      if want > sz { want := sz; }
    }

    /** memcpy behind the bytes already buffered. */
    method TopUp(buf: array<byte>, off: nat, want: nat)
      requires Valid() && leftover + want <= 16 && off + want <= buf.Length
      requires buf != h && buf != msg && buf != buffer
      modifies this, buffer
      ensures Buffered() && leftover == old(leftover) + want && fed == old(fed) + buf[off..off + want]
    {
      hide LE, Accumulate, Clamp, Holds;
      ghost var x := buf[off..off + want];
      HoldsMore(h[..], buffer[..leftover], R(), fed, x);
      Copy(buf, off, buffer, leftover, want);
      leftover := leftover + want;
      assert buffer[..leftover] == old(buffer[..leftover]) + x;
      fed := fed + x;
    }

    /** A full buffer is one more block. */
    method ConsumeBuffer()
      requires Buffered()
      modifies this, h, msg, hr
      ensures Valid() && leftover == (if old(leftover) == 16 then 0 else old(leftover)) && fed == old(fed)
    {
      hide LE, Accumulate, Clamp, Holds, Absorb;
      if leftover < 16 { return; }
      HoldsShape(h[..], buffer[..16], R(), fed);
      ghost var before := h[..];
      Blocks(buffer, 0, 16);
      assert buffer[0..16] == buffer[..16];
      HoldsBlocks(before, h[..], buffer[..16], R(), fed);
      leftover := 0;
      assert buffer[..0] == [];
    }

    /** Second section: whole blocks straight from the input. */
    method WholeBlocks(buf: array<byte>, off: nat, sz: nat) returns (want: nat)
      requires Valid() && leftover == 0 && off + sz <= buf.Length && buf != h && buf != msg && buf != buffer
      modifies this, h, msg, hr
      ensures Valid() && leftover == 0 && want <= sz < want + 16
      ensures fed == old(fed) + buf[off..off + want]
    {
      hide LE, Accumulate, Clamp, Holds, Absorb;
      want := sz / 16 * 16;
      ghost var x, before := buf[off..off + want], h[..];
      assert buffer[..0] == [];
      HoldsShape(before, [], R(), fed);
      HoldsMore(before, [], R(), fed, x);
      assert [] + x == x;
      Blocks(buf, off, want);
      fed := fed + x;
      HoldsBlocks(before, h[..], x, R(), fed);
      assert buffer[..0] == [];
    }

    /** First section of Finish: a partial block is completed by a one byte and zeros. */
    method FinishBuffer()
      requires Valid()
      modifies this, h, msg, hr, buffer
      ensures fed == old(fed) && Shape() && h[16] <= 4
      ensures LE(h[..]) % P == Accumulate(R(), fed)
    {
      hide LE, Accumulate, Clamp, Absorb, Holds;
      ghost var before, tail := h[..], buffer[..leftover];
      HoldsShape(before, tail, R(), fed);
      if leftover > 0 {
        PadBuffer();
        final := 1;
        FinalBlock(before, tail, R(), fed, buffer[0..16]);
        Blocks(buffer, 0, 16);
      } else {
        HoldsAll(before, R(), fed);
      }
    }

    method PadBuffer()
      requires Shape() && 0 < leftover < 16
      modifies buffer
      ensures buffer[..leftover] == old(buffer[..leftover]) && buffer[leftover] == 1
      ensures forall k :: leftover < k < 16 ==> buffer[k] == 0
    {
      var idx := leftover;
      buffer[idx] := 1;
      idx := idx + 1;
      while idx < 16
        invariant leftover < idx <= 16
        invariant buffer[..leftover] == old(buffer[..leftover]) && buffer[leftover] == 1
        invariant forall k :: leftover < k < idx ==> buffer[k] == 0
      {
        buffer[idx] := 0;
        idx := idx + 1;
      }
    }

    method Finish(out: array<byte>, off: nat)
      requires Valid() && off + 16 <= out.Length && out != h && out != msg && out != buffer
      modifies this, h, msg, hr, buffer, out
      ensures out[..] == old(out[..off]) + Mac(key, fed) + old(out[off + 16..]) && fed == old(fed)
    {
      hide LE, Accumulate, Clamp;
      FinishBuffer();
      BlockFreeze(h);
      var padBlock := new byte[17](i requires 0 <= i < 17 => pad[i]);
      assert padBlock[..] == pad;
      BlockAdd(h, padBlock);
      TagBytes(h[..], Accumulate(R(), fed), key[16..32], pad);
      Copy(h, 0, out, off, 16);
      assert h[0..16] == h[..16];
    }
  }

  function Product(a: byte, b: byte): (p: u32)
    ensures p == a * b && p <= 65025
  {
    MulMono(0, a, b); MulMono(a, 255, b);
    a * b
  }

  lemma Wrapped(a: byte, b: byte, v: int)
    requires v == 320 * Product(a, b)
    ensures v == a * (320 * b)
  {
    assert 320 * (a * b) == a * (320 * b);
  }

  lemma {:induction false} BlockStep(before: seq<byte>, block: seq<byte>, sum: seq<byte>, k: seq<byte>, result: int)
    requires |before| == 17 && before[16] <= 4 && |block| == 17 && block[16] <= 1
    requires |sum| == 17 && |k| == 16
    requires LE(sum) == (LE(before) + LE(block)) % TWO_136
    requires result % P == LE(Columns(sum, k + [0], 17, 17)) % P
    ensures result % P == ((LE(before) % P + LE(block)) * LE(k)) % P
  {
    hide *;
    NoWrap(before, block);
    ColumnsAreProduct(sum, k + [0]);
    LESnoc(k, 0);
    ShiftZeroOne(16);
    assert LE(k + [0]) == LE(k);
    assert LE(sum) == LE(before) + LE(block);
    ModMulAdd(LE(before), LE(block), LE(k));
  }

  lemma {:induction false} NoWrap(before: seq<byte>, block: seq<byte>)
    requires |before| == 17 && before[16] <= 4 && |block| == 17 && block[16] <= 1
    ensures (LE(before) + LE(block)) % TWO_136 == LE(before) + LE(block)
  {
    SmallTop(before); SmallTop(block);
    ModUnique(LE(before) + LE(block), TWO_136, 0, LE(before) + LE(block));
  }

  lemma {:induction false} SmallTop(s: seq<byte>)
    requires |s| == 17
    ensures LE(s) == LE(s[..16]) + s[16] * TWO_128 && 0 <= LE(s[..16]) < TWO_128
  {
    LEStep(s, 16);
    assert s[..17] == s;
    Shift16(s[16]);
    LEBound(s[..16]);
    Widths();
  }

  /** A final partial block padded with 1 and zeros in the buffer is the partial block with 1 appended. */
  lemma {:induction false} PaddedBlock(tail: seq<byte>, block: seq<byte>)
    requires |tail| < |block|
    requires block[..|tail|] == tail && block[|tail|] == 1
    requires forall k :: |tail| < k < |block| ==> block[k] == 0
    ensures LE(block) == LE(tail + [1])
  {
    var zeros := block[|tail| + 1..];
    assert block == (tail + [1]) + zeros;
    LEConcat(tail + [1], zeros);
    LEZeros(zeros);
    ShiftZeroOne(|tail| + 1);
  }

  lemma HoldsShape(h: seq<byte>, tail: seq<byte>, r: nat, fed: seq<byte>)
    requires Holds(h, tail, r, fed)
    ensures |h| == 17 && h[16] <= 4
  {
  }

  lemma {:induction false} HoldsAll(h: seq<byte>, r: nat, fed: seq<byte>)
    requires Holds(h, [], r, fed)
    ensures LE(h) % P == Accumulate(r, fed)
  {
    assert fed[..|fed| - 0] == fed;
  }

  lemma {:induction false} FinalBlock(h: seq<byte>, tail: seq<byte>, r: nat, fed: seq<byte>, block: seq<byte>)
    requires Holds(h, tail, r, fed) && 0 < |tail| < 16 == |block|
    requires block[..|tail|] == tail && block[|tail|] == 1
    requires forall k :: |tail| < k < 16 ==> block[k] == 0
    ensures LE(h) % P >= 0
    ensures Absorb(LE(h) % P, r, block, 0) == Accumulate(r, fed)
  {
    hide LE, Accumulate;
    assert block[..16] == block && block[16..] == [];
    var head := fed[..|fed| - |tail|];
    PaddedBlock(tail, block + [0]);
    AccumulateBlock(r, head, tail);
    assert head + tail == fed;
  }

  /** Adding the pad and dropping limb 16 leaves the tag bytes. */
  lemma TagBytes(sum: seq<byte>, acc: nat, s: seq<byte>, pad: seq<byte>)
    requires |sum| == 17 && acc < P && |s| == 16 && pad == s + [0]
    requires LE(sum) == (acc + LE(pad)) % TWO_136
    ensures 0 <= LE(s) && sum[..16] == ToLE(acc + LE(s), 16)
  {
    hide LE, ToLE, Pow256;
    SmallTop(sum); SmallTop(pad);
    assert pad[..16] == s;
    LEBound(s);
    Widths();
    ModUnique(acc + LE(pad), TWO_136, 0, acc + LE(pad));
    ModUnique(acc + LE(s), TWO_128, sum[16], LE(sum[..16]));
    LEToLE(acc + LE(s), 16);
    LEInjective(sum[..16], ToLE(acc + LE(s), 16));
  }
}
