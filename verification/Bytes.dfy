/** Bytes, fixed-width integers and the little- and big-endian number codecs
    (libdotnet/DotNetEndian.h) that every other module builds on. */
module Bytes {

  type byte = x: int | 0 <= x < 256
  type u16 = x: int | 0 <= x < 0x1_0000
  type u32 = x: int | 0 <= x < 0x1_0000_0000
  type u64 = x: int | 0 <= x < 0x1_0000_0000_0000_0000

  function Pow256(n: nat): (p: nat)
    ensures p >= 1
  {
    if n == 0 then 1 else 256 * Pow256(n - 1)
  }

  /** x * 256^n, kept free of products so that limb arithmetic stays linear. */
  function Shift(x: int, n: nat): int {
    if n == 0 then x else 256 * Shift(x, n - 1)
  }

  lemma {:induction false} ShiftAdd(x: int, y: int, n: nat)
    ensures Shift(x + y, n) == Shift(x, n) + Shift(y, n)
  {
    if n > 0 { ShiftAdd(x, y, n - 1); }
  }

  lemma {:induction false} ShiftOnce(x: int, n: nat)
    ensures Shift(256 * x, n) == Shift(x, n + 1)
  {
    if n > 0 { ShiftOnce(x, n - 1); }
  }

  lemma {:induction false} ShiftShift(x: int, m: nat, n: nat)
    ensures Shift(Shift(x, m), n) == Shift(x, m + n)
  {
    if n > 0 { ShiftShift(x, m, n - 1); }
  }

  lemma {:induction false} ShiftIsProduct(x: int, n: nat)
    ensures Shift(x, n) == x * Pow256(n)
  {
    if n > 0 {
      ShiftIsProduct(x, n - 1);
      assert 256 * (x * Pow256(n - 1)) == x * (256 * Pow256(n - 1));
    }
  }

  lemma {:induction false} ShiftMono(x: int, y: int, n: nat)
    requires x <= y
    ensures Shift(x, n) <= Shift(y, n)
  {
    if n > 0 { ShiftMono(x, y, n - 1); }
  }

  lemma {:induction false} ShiftZeroOne(n: nat)
    ensures Shift(0, n) == 0 && Shift(1, n) == Pow256(n)
  {
    if n > 0 { ShiftZeroOne(n - 1); }
  }

  /** The number whose radix-256 digits, least significant first, are s. Digits may be any integers. */
  function LE(s: seq<int>): int {
    if s == [] then 0 else LE(s[..|s| - 1]) + Shift(s[|s| - 1], |s| - 1)
  }

  lemma LEStep(s: seq<int>, i: nat)
    requires i < |s|
    ensures LE(s[..i + 1]) == LE(s[..i]) + Shift(s[i], i)
  {
    assert s[..i + 1][..i] == s[..i];
  }

  lemma {:induction false} LESnoc(s: seq<int>, d: int)
    ensures LE(s + [d]) == LE(s) + Shift(d, |s|)
  {
    assert (s + [d])[..|s|] == s;
  }

  lemma {:induction false} LEConcat(a: seq<int>, b: seq<int>)
    ensures LE(a + b) == LE(a) + Shift(LE(b), |a|)
    decreases |b|
  {
    if b == [] {
      assert a + b == a;
      ShiftZeroOne(|a|);
    } else {
      var c, x := b[..|b| - 1], b[|b| - 1];
      assert (a + b)[..|a + b| - 1] == a + c;
      LEConcat(a, c);
      ShiftShift(x, |c|, |a|);
      ShiftAdd(LE(c), Shift(x, |c|), |a|);
    }
  }

  lemma {:induction false} Pow256Add(m: nat, n: nat)
    ensures Pow256(m + n) == Pow256(m) * Pow256(n)
    decreases n
  {
    if n == 0 {
      assert Pow256(m) * 1 == Pow256(m);
    } else {
      Pow256Add(m, n - 1);
      assert 256 * (Pow256(m) * Pow256(n - 1)) == Pow256(m) * (256 * Pow256(n - 1));
    }
  }

  lemma Pow256Values()
    ensures Pow256(1) == 0x100 && Pow256(2) == 0x1_0000 && Pow256(4) == 0x1_0000_0000
    ensures Pow256(8) == 0x1_0000_0000_0000_0000
    ensures Pow256(16) == 0x1_0000_0000_0000_0000_0000_0000_0000_0000
    ensures Pow256(17) == 0x100_0000_0000_0000_0000_0000_0000_0000_0000
    ensures Pow256(32) == Pow256(16) * Pow256(16)
  {
    assert Pow256(1) == 256 && Pow256(2) == 256 * Pow256(1);
    hide Pow256;
    Pow256Add(2, 2); Pow256Add(4, 4); Pow256Add(8, 8); Pow256Add(16, 16); Pow256Add(16, 1);
  }

  lemma {:induction false} LEBound(s: seq<byte>)
    ensures 0 <= LE(s) < Pow256(|s|)
    decreases |s|
  {
    if s != [] {
      var n := |s| - 1;
      LEBound(s[..n]);
      ShiftMono(0, s[n], n);
      ShiftMono(s[n], 255, n);
      ShiftAdd(255, 1, n);
      ShiftZeroOne(n);
      ShiftOnce(1, n);
      ShiftZeroOne(n + 1);
    }
  }

  lemma {:induction false} LEZeros(s: seq<int>)
    requires forall k :: 0 <= k < |s| ==> s[k] == 0
    ensures LE(s) == 0
    decreases |s|
  {
    if s != [] {
      LEZeros(s[..|s| - 1]);
      ShiftZeroOne(|s| - 1);
    }
  }

  /** n mod 256^k in k bytes, least significant first. */
  function ToLE(n: nat, k: nat): (s: seq<byte>)
    ensures |s| == k
  {
    if k == 0 then [] else ToLE(n, k - 1) + [n / Pow256(k - 1) % 256]
  }

  lemma {:induction false} LEToLE(n: nat, k: nat)
    ensures LE(ToLE(n, k)) == n % Pow256(k)
    decreases k
  {
    if k == 0 {
    } else {
      var t, p := ToLE(n, k), Pow256(k - 1);
      assert t[..k - 1] == ToLE(n, k - 1);
      LEToLE(n, k - 1);
      ShiftIsProduct(n / p % 256, k - 1);
      ModSplit(n, p);
    }
  }

  lemma ModSplit(n: nat, p: nat)
    requires p > 0
    ensures n % (256 * p) == n % p + n / p % 256 * p
  {
    var a, r := n / p, n % p;
    var b, c := a / 256, a % 256;
    MulMono(c, 255, p);
    calc {
      n;
      p * (256 * b + c) + r;
      p * (256 * b) + p * c + r;
      (256 * p) * b + (c * p + r);
    }
    ModUnique(n, 256 * p, b, c * p + r);
  }

  lemma MulMono(a: int, b: int, m: int)
    requires a <= b && 0 <= m
    ensures a * m <= b * m
  {
  }

  /** Quotient and remainder are unique. */
  lemma QuotientRemainder(m: int, q: int, s: int, k: int, r: int)
    requires 0 <= s < m && 0 <= r < m && m * q + s == m * k + r
    ensures q == k && s == r
  {
    assert (k - q) * m == s - r;
    if q < k {
      MulMono(1, k - q, m);
    } else if k < q {
      MulMono(k - q, -1, m);
    }
  }

  lemma ModUnique(n: int, m: int, k: int, r: int)
    requires m > 0 && n == m * k + r && 0 <= r < m
    ensures n % m == r && n / m == k
  {
    QuotientRemainder(m, n / m, n % m, k, r);
  }

  /** Equal-length byte strings with the same number are the same string. */
  lemma {:induction false} LEInjective(s: seq<byte>, t: seq<byte>)
    requires |s| == |t| && LE(s) == LE(t)
    ensures s == t
    decreases |s|
  {
    if s != [] {
      var n := |s| - 1;
      LEBound(s[..n]); LEBound(t[..n]);
      ShiftIsProduct(s[n], n); ShiftIsProduct(t[n], n);
      QuotientRemainder(Pow256(n), s[n], LE(s[..n]), t[n], LE(t[..n]));
      LEInjective(s[..n], t[..n]);
      assert s == s[..n] + [s[n]] && t == t[..n] + [t[n]];
    }
  }

  function Reverse<T>(s: seq<T>): (r: seq<T>)
    ensures |r| == |s| && forall k :: 0 <= k < |s| ==> r[k] == s[|s| - 1 - k]
  {
    if s == [] then [] else [s[|s| - 1]] + Reverse(s[..|s| - 1])
  }

  /** Big-endian fields, as read by bufbe16toh/bufbe32toh/bufbe64toh and written by htobe*buf. */
  function BE(s: seq<int>): int {
    if s == [] then 0 else 256 * BE(s[..|s| - 1]) + s[|s| - 1]
  }

  function ToBE(n: nat, k: nat): (s: seq<byte>)
    ensures |s| == k
  {
    if k == 0 then [] else ToBE(n / 256, k - 1) + [n % 256]
  }

  /** Big-endian is little-endian from the other end. */
  lemma {:induction false} BEIsLE(s: seq<int>)
    ensures BE(s) == LE(Reverse(s))
    decreases |s|
  {
    if s != [] {
      var n := |s| - 1;
      var r := Reverse(s[..n]);
      BEIsLE(s[..n]);
      assert Reverse(s) == [s[n]] + r;
      LEConcat([s[n]], r);
      assert [s[n]][..0] == [];
      assert LE([s[n]]) == s[n] && Shift(LE(r), 1) == 256 * LE(r);
    }
  }

  lemma {:induction false} BEToBE(n: nat, k: nat)
    ensures BE(ToBE(n, k)) == n % Pow256(k)
    decreases k
  {
    if k > 0 {
      assert ToBE(n, k)[..k - 1] == ToBE(n / 256, k - 1);
      BEToBE(n / 256, k - 1);
      ModSplitLow(n, Pow256(k - 1));
    }
  }

  lemma ModSplitLow(n: nat, p: nat)
    requires p > 0
    ensures n % (256 * p) == 256 * (n / 256 % p) + n % 256
  {
    var a := n / 256;
    var b, c := a / p, a % p;
    calc {
      n;
      256 * (p * b + c) + n % 256;
      (256 * p) * b + (256 * c + n % 256);
    }
    ModUnique(n, 256 * p, b, 256 * c + n % 256);
  }

  lemma {:induction false} BEBound(s: seq<byte>)
    ensures 0 <= BE(s) < Pow256(|s|)
    decreases |s|
  {
    if s != [] {
      BEBound(s[..|s| - 1]);
    }
  }

  lemma {:induction false} BERoundTrip(n: nat, k: nat)
    requires n < Pow256(k)
    ensures BE(ToBE(n, k)) == n
  {
    BEToBE(n, k);
    ModUnique(n, Pow256(k), 0, n);
  }

  lemma {:induction false} ToBEBE(s: seq<byte>)
    ensures 0 <= BE(s) && ToBE(BE(s), |s|) == s
    decreases |s|
  {
    BEBound(s);
    if s != [] {
      var n := |s| - 1;
      BEBound(s[..n]);
      ToBEBE(s[..n]);
      assert BE(s) / 256 == BE(s[..n]) && BE(s) % 256 == s[n];
      assert s == s[..n] + [s[n]];
    }
  }

  /** Bitwise exclusive or of two naturals, bit by bit. */
  function Xor(a: nat, b: nat): (c: nat)
    decreases a + b
  {
    if a == 0 then b
    else if b == 0 then a
    else (a % 2 + b % 2) % 2 + 2 * Xor(a / 2, b / 2)
  }

  /** The low bit and the rest of an exclusive or. */
  lemma {:induction false} XorStep(a: nat, b: nat)
    ensures Xor(a, b) == (a % 2 + b % 2) % 2 + 2 * Xor(a / 2, b / 2)
  {
  }

  lemma {:induction false} XorZero(a: nat)
    ensures Xor(a, 0) == a && Xor(0, a) == a
  {
  }

  lemma {:induction false} XorInvolutive(a: nat, b: nat)
    ensures Xor(Xor(a, b), b) == a
    decreases a + b
  {
    hide Xor;
    if a == 0 && b == 0 {
      XorZero(0);
    } else {
      XorStep(a, b);
      XorStep(Xor(a, b), b);
      XorInvolutive(a / 2, b / 2);
    }
  }

  lemma HalfJoin(a: nat, p: nat, x: nat)
    ensures a + 2 * p * x >= 0 && (a + 2 * p * x) / 2 == a / 2 + p * x && (a + 2 * p * x) % 2 == a % 2 && (2 * p) * x == 2 * p * x
  {
    MulMono(0, x, p);
    assert 2 * p * x == 2 * (p * x);
    ModUnique(a + 2 * (p * x), 2, a / 2 + p * x, a % 2);
  }

  lemma TwiceProduct(p: nat, z: nat)
    ensures 2 * (p * z) == (2 * p) * z
  {
  }

  /** Low and high parts separately. */
  lemma {:induction false} XorJoin(a: nat, x: nat, b: nat, y: nat, n: nat)
    requires a < Pow2(n) && b < Pow2(n)
    ensures Xor(a + Pow2(n) * x, b + Pow2(n) * y) == Xor(a, b) + Pow2(n) * Xor(x, y)
    decreases n
  {
    hide Xor;
    if n == 0 {
      XorZero(0);
    } else {
      var p := Pow2(n - 1);
      XorJoin(a / 2, x, b / 2, y, n - 1);
      XorStep(a, b);
      HalfJoin(a, p, x); HalfJoin(b, p, y);
      XorStep(a + 2 * p * x, b + 2 * p * y);
      TwiceProduct(p, Xor(x, y));
      hide Pow2;
    }
  }

  lemma {:induction false} XorCommutes(a: nat, b: nat)
    ensures Xor(a, b) == Xor(b, a)
    decreases a + b
  {
    if a != 0 && b != 0 {
      XorCommutes(a / 2, b / 2);
    }
  }

  /** Bitwise and of two naturals. */
  function And(a: nat, b: nat): (c: nat)
    decreases a
  {
    if a == 0 || b == 0 then 0 else (a % 2) * (b % 2) + 2 * And(a / 2, b / 2)
  }

  /** A mask of n one bits keeps every n-bit number. */
  lemma {:induction false} AndMask(x: nat, n: nat)
    requires x < Pow2(n)
    ensures And(Pow2(n) - 1, x) == x
    decreases n
  {
    if n > 0 && x > 0 {
      assert (Pow2(n) - 1) / 2 == Pow2(n - 1) - 1 && (Pow2(n) - 1) % 2 == 1;
      AndMask(x / 2, n - 1);
    }
  }

  function Pow2(n: nat): (p: nat)
    ensures p >= 1
  {
    if n == 0 then 1 else 2 * Pow2(n - 1)
  }

  lemma {:induction false} Pow2Add(m: nat, n: nat)
    ensures Pow2(m + n) == Pow2(m) * Pow2(n)
    decreases n
  {
    if n > 0 {
      Pow2Add(m, n - 1);
      assert 2 * (Pow2(m) * Pow2(n - 1)) == Pow2(m) * (2 * Pow2(n - 1));
    } else {
      assert Pow2(m) * 1 == Pow2(m);
    }
  }

  lemma DivDiv(x: nat, p: nat, q: nat)
    requires p > 0 && q > 0
    ensures p * q > 0 && x / p / q == x / (p * q)
  {
    var y, r := x / p, x % p;
    var z, s := y / q, y % q;
    assert y == q * z + s;
    MulMono(s, q - 1, p);
    calc {
      x;
      p * y + r;
      p * (q * z + s) + r;
      (p * q) * z + (s * p + r);
    }
    assert (q - 1) * p == p * q - p;
    MulMono(1, q, p);
    ModUnique(x, p * q, z, s * p + r);
  }

  lemma {:induction false} XorBound(a: nat, b: nat, n: nat)
    requires a < Pow2(n) && b < Pow2(n)
    ensures Xor(a, b) < Pow2(n)
    decreases n
  {
    if n > 0 {
      hide Xor;
      XorStep(a, b);
      XorBound(a / 2, b / 2, n - 1);
    }
  }

  lemma Pow2Byte()
    ensures Pow2(8) == 256 && Pow2(16) == 0x1_0000 && Pow2(32) == 0x1_0000_0000
  {
    assert Pow2(4) == 16;
    assert Pow2(8) == 256;
    assert Pow2(12) == 4096;
    assert Pow2(16) == 0x1_0000;
    assert Pow2(20) == 0x10_0000;
    assert Pow2(24) == 0x100_0000;
    assert Pow2(28) == 0x1000_0000;
  }

  lemma {:induction false} XorFits(a: nat, b: nat)
    ensures a < 256 && b < 256 ==> Xor(a, b) < 256
    ensures a < 0x1_0000 && b < 0x1_0000 ==> Xor(a, b) < 0x1_0000
    ensures a < 0x1_0000_0000 && b < 0x1_0000_0000 ==> Xor(a, b) < 0x1_0000_0000
  {
    Pow2Byte();
    if a < 256 && b < 256 { XorBound(a, b, 8); }
    if a < 0x1_0000 && b < 0x1_0000 { XorBound(a, b, 16); }
    if a < 0x1_0000_0000 && b < 0x1_0000_0000 { XorBound(a, b, 32); }
  }

  function XorByte(a: byte, b: byte): (c: byte) {
    XorFits(a, b);
    Xor(a, b)
  }

  /** Bytewise exclusive or of two strings of the same length. */
  function XorSeq(a: seq<byte>, b: seq<byte>): (c: seq<byte>)
    requires |a| == |b|
    ensures |c| == |a| && forall k :: 0 <= k < |a| ==> c[k] == XorByte(a[k], b[k])
  {
    seq(|a|, k requires 0 <= k < |a| => XorByte(a[k], b[k]))
  }

  lemma XorSeqInvolutive(a: seq<byte>, b: seq<byte>)
    requires |a| == |b|
    ensures XorSeq(XorSeq(a, b), b) == a
  {
    forall k | 0 <= k < |a| ensures XorSeq(XorSeq(a, b), b)[k] == a[k] {
      XorInvolutive(a[k], b[k]);
    }
  }

  function Zeros(n: nat): (s: seq<byte>)
    ensures |s| == n && forall k :: 0 <= k < n ==> s[k] == 0
  {
    seq(n, _ => 0)
  }

  /** memcpy into a different array. */
  method Copy(src: array<byte>, from: nat, dst: array<byte>, to: nat, n: nat)
    requires src != dst && from + n <= src.Length && to + n <= dst.Length
    modifies dst
    ensures dst[..] == old(dst[..to]) + src[from..from + n] + old(dst[to + n..])
  {
    for i := 0 to n
      invariant dst[..to] == old(dst[..to]) && dst[to + n..] == old(dst[to + n..])
      invariant dst[to..to + i] == src[from..from + i]
    {
      dst[to + i] := src[from + i];
      assert dst[to..to + i + 1] == dst[to..to + i] + [dst[to + i]];
    }
  }

  lemma AppendSlices(f: seq<byte>, buf: array<byte>, a: nat, b: nat, c: nat)
    requires a <= b <= c <= buf.Length
    ensures f + buf[a..b] + buf[b..c] == f + buf[a..c]
  {
    assert buf[a..c] == buf[a..b] + buf[b..c];
  }

  lemma SuffixAppend<T>(f: seq<T>, k: nat, x: seq<T>)
    requires k <= |f|
    ensures (f + x)[k..] == f[k..] + x && (f + x)[..k] == f[..k]
  {
  }

  lemma XorSeqConcat(a: seq<byte>, b: seq<byte>, c: seq<byte>, d: seq<byte>)
    requires |a| == |c| && |b| == |d|
    ensures XorSeq(a + b, c + d) == XorSeq(a, c) + XorSeq(b, d)
  {
  }

  lemma DropSlice<T>(s: seq<T>, a: nat, b: nat, c: nat)
    requires b <= c && a + c <= |s|
    ensures s[a..][b..c] == s[a + b..a + c]
  {
  }

  lemma SubSlice<T>(s: seq<T>, a: nat, c: nat, i: nat, j: nat)
    requires a <= c <= |s| && i <= j <= c - a
    ensures s[a..c][i..j] == s[a + i..a + j]
  {
    var t, u := s[a..c][i..j], s[a + i..a + j];
    forall k | 0 <= k < j - i ensures t[k] == u[k] { assert t[k] == s[a..c][i + k]; }
  }

  lemma TakeSlice<T>(s: seq<T>, a: nat, b: nat, c: nat)
    requires b <= c <= a <= |s|
    ensures s[..a][b..c] == s[b..c]
  {
  }

  lemma DropDrop<T>(s: seq<T>, a: nat, b: nat)
    requires a + b <= |s|
    ensures s[a..][b..] == s[a + b..]
  {
  }

  lemma JoinSlice<T>(s: seq<T>, a: nat, b: nat, c: nat)
    requires a <= b <= c <= |s|
    ensures s[a..c] == s[a..b] + s[b..c]
  {
  }
}
