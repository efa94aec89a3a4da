/** libdotnet/Base.cpp: Base64 with '-' and '~' for the last two digits, and unpadded lower-case
    Base32 through 32-bit accumulators that are never masked. */
module Base {
  import opened Wrappers
  import opened Bytes

  /** Characters are single bytes. */
  type Char = byte

  // ---------------------------------------------------------------------------------------
  // Bits
  // ---------------------------------------------------------------------------------------

  /** Bitwise or. */
  function Or(a: nat, b: nat): (c: nat)
    decreases a
  {
    if a == 0 then b else (if a % 2 == 1 || b % 2 == 1 then 1 else 0) + 2 * Or(a / 2, b / 2)
  }

  /** Bits that do not overlap add up. */
  lemma {:induction false} OrLow(a: nat, b: nat, n: nat)
    requires b < Pow2(n)
    ensures Or(a * Pow2(n), b) == a * Pow2(n) + b
    decreases n
  {
    if n == 0 {
      OrZero(a);
    } else {
      var p := Pow2(n - 1);
      var x := a * (2 * p);
      assert x == 2 * (a * p);
      OrLow(a, b / 2, n - 1);
      if x == 0 {
        assert a == 0 || p == 0;
      } else {
        assert x / 2 == a * p && x % 2 == 0;
      }
    }
  }

  lemma {:induction false} OrZero(a: nat)
    ensures Or(a, 0) == a
  {
    if a > 0 { OrZero(a / 2); }
  }

  /** x without its k low bits. */
  function Drop(x: nat, k: nat): (y: nat) {
    Quotient(x, Pow2(k))
  }

  function Quotient(x: nat, p: nat): (q: nat)
    requires p > 0
  {
    x / p
  }

  lemma DropDropBits(x: nat, j: nat, k: nat)
    ensures Drop(Drop(x, j), k) == Drop(x, j + k)
  {
    hide Pow2;
    Pow2Add(j, k);
    DivDiv(x, Pow2(j), Pow2(k));
  }

  /** The w bits above the low k, put behind everything above them. */
  lemma {:induction false} TakeBits(x: nat, k: nat, w: nat)
    ensures Pow2(w) * Drop(x, k + w) + Drop(x, k) % Pow2(w) == Drop(x, k)
  {
    hide Pow2;
    DropDropBits(x, k, w);
  }

  /** Bits below the word size survive a wrap-around. */
  lemma {:induction false} WrapKeeps(x: nat, k: nat, w: nat)
    requires k + w <= 32
    ensures Drop(x % 0x1_0000_0000, k) % Pow2(w) == Drop(x, k) % Pow2(w)
  {
    hide Pow2;
    Pow2Byte();
    var n := 32 - k - w;
    Pow2Add(k, w + n);
    Pow2Add(w, n);
    DivOfMod(x, Pow2(k), Pow2(w + n));
    ModOfMod(Drop(x, k), Pow2(w), Pow2(n));
  }

  lemma DivOfMod(x: nat, p: nat, q: nat)
    requires p > 0 && q > 0
    ensures p * q > 0 && x % (p * q) / p == x / p % q
  {
    DivDiv(x, p, q);
    var y, r := x / p, x % p;
    var z, s := y / q, y % q;
    assert y == q * z + s;
    calc {
      x;
      p * (q * z + s) + r;
      (p * q) * z + (p * s + r);
    }
    MulMono(s, q - 1, p);
    assert s * p == p * s && (q - 1) * p == p * q - p;
    ModUnique(x, p * q, z, p * s + r);
    ModUnique(p * s + r, p, s, r);
  }

  lemma ModOfMod(x: nat, p: nat, q: nat)
    requires p > 0 && q > 0
    ensures p * q > 0 && x % (p * q) % p == x % p
  {
    DivDiv(x, p, q);
    var z, s := x / (p * q), x % (p * q);
    var t, u := s / p, s % p;
    calc {
      x;
      (p * q) * z + s;
      p * (q * z) + (p * t + u);
      p * (q * z + t) + u;
    }
    ModUnique(x, p, q * z + t, u);
  }

  /** Shifting in w bits leaves what was above alone. */
  lemma {:induction false} DropShifted(x: nat, d: nat, k: nat, w: nat)
    requires d < Pow2(w)
    ensures Drop(x * Pow2(w) + d, k + w) == Drop(x, k)
  {
    hide Pow2;
    ModUnique(x * Pow2(w) + d, Pow2(w), x, d);
    DropDropBits(x * Pow2(w) + d, w, k);
  }

  /** The accumulator step: (tmp << w) | d on 32 bits. */
  lemma {:induction false} Accumulate(x: nat, d: nat, w: nat)
    requires d < Pow2(w) && w <= 32
    ensures Or(x % 0x1_0000_0000 * Pow2(w) % 0x1_0000_0000, d) == (x * Pow2(w) + d) % 0x1_0000_0000
  {
    hide Pow2, Or;
    Pow2Byte();
    Pow2Add(w, 32 - w);
    ShiftWrap(x, Pow2(w), Pow2(32 - w), d);
    OrLow(x % 0x1_0000_0000 % Pow2(32 - w), d, w);
  }

  lemma ShiftWrap(x: nat, p: nat, q: nat, d: nat)
    requires p * q == 0x1_0000_0000 && p > 0 && q > 0 && d < p
    ensures x % 0x1_0000_0000 * p % 0x1_0000_0000 == x % 0x1_0000_0000 % q * p
    ensures (x * p + d) % 0x1_0000_0000 == x % 0x1_0000_0000 % q * p + d
  {
    Swap(p, q);
    ModOfMod(x, q, p);
    ShiftMod(x % 0x1_0000_0000, p, q, 0);
    ShiftMod(x, p, q, d);
  }

  lemma Swap(p: int, q: int)
    ensures p * q == q * p
  {
  }

  lemma ShiftMod(x: nat, p: nat, q: nat, d: nat)
    requires p > 0 && q > 0 && d < p
    ensures p * q > 0 && (x * p + d) % (p * q) == x % q * p + d
  {
    var z, s := x / q, x % q;
    MulMono(s, q - 1, p);
    MulMono(1, q, p);
    LessOne(p, q);
    Expand(q, z, s, p);
    ModUnique(x * p + d, p * q, z, s * p + d);
  }

  lemma LessOne(p: int, q: int)
    ensures (q - 1) * p == p * q - p
  {
  }

  lemma Expand(q: int, z: int, s: int, p: int)
    ensures (q * z + s) * p == (p * q) * z + s * p
  {
    Swap(p, q);
    assert q * z * p == q * p * z;
  }

  // ---------------------------------------------------------------------------------------
  // Base32
  // ---------------------------------------------------------------------------------------

  /** a to z, then 2 to 7. */
  function Letter32(d: nat): (c: Char)
    requires d < 32
  {
    if d < 26 then d + 97 else d - 26 + 50
  }

  const ALPHABET32 := "abcdefghijklmnopqrstuvwxyz234567"

  lemma Alphabet32(d: nat)
    requires d < 32
    ensures |ALPHABET32| == 32 && Letter32(d) == ALPHABET32[d] as int
  {
  }

  function Index32(c: Char): Option<nat> {
    if 50 <= c <= 55 then Some(c - 50 + 26)
    else if 97 <= c <= 122 then Some(c - 97)
    else None
  }

  lemma IndexOfLetter(d: nat)
    requires d < 32
    ensures Index32(Letter32(d)) == Some(d)
  {
  }

  predicate Valid32(s: seq<Char>) {
    forall i :: 0 <= i < |s| ==> Index32(s[i]).Some?
  }

  /** The number that a string of valid characters spells in base 32. */
  function Number32(s: seq<Char>): nat
    requires Valid32(s)
  {
    if s == [] then 0 else 32 * Number32(s[..|s| - 1]) + Index32(s[|s| - 1]).value
  }

  lemma {:induction false} NumberSnoc(s: seq<Char>, c: Char)
    requires Valid32(s) && Index32(c).Some?
    ensures Valid32(s + [c]) && Number32(s + [c]) == 32 * Number32(s) + Index32(c).value
  {
    assert (s + [c])[..|s|] == s;
  }

  function Ceiling(a: nat, b: nat): nat
    requires b > 0
  {
    (a + b - 1) / b
  }

  /** The number of bytes and digits: each digit holds five bits, the last is padded with zeros. */
  lemma DigitCount(n: nat)
    ensures var m := Ceiling(8 * n, 5); 8 * n <= 5 * m < 8 * n + 5 && 5 * m / 8 == n
  {
    var m := Ceiling(8 * n, 5);
    assert 8 * n + 4 == 5 * m + (8 * n + 4) % 5;
  }

  function Value(s: seq<byte>): (n: nat)
    ensures n < Pow256(|s|)
  {
    BEBound(s);
    BE(s)
  }

  lemma ValueSnoc(s: seq<byte>, i: nat)
    requires i < |s|
    ensures Value(s[..i + 1]) == 256 * Value(s[..i]) + s[i]
  {
    assert s[..i + 1][..i] == s[..i];
  }

  /** What r digits of the encoding of s spell: the first 5 r bits of s, or all of them and zeros. */
  function Prefix32(s: seq<byte>, r: nat): nat {
    if 5 * r <= 8 * |s| then Drop(Value(s), 8 * |s| - 5 * r) else Value(s) * Pow2(5 * r - 8 * |s|)
  }

  /** The state of the encoder: pos bytes read, T all their bits and extra zeros, r digits written. */
  ghost predicate Encoding(s: seq<byte>, pos: nat, extra: nat, tmp: u32, bits: nat, out: seq<Char>) {
    && pos <= |s| && extra < 5 && (extra > 0 ==> pos == |s|) && bits <= 12
    && 8 * pos + extra == 5 * |out| + bits
    && tmp == Value(s[..pos]) * Pow2(extra) % 0x1_0000_0000
    && Valid32(out) && Number32(out) == Drop(Value(s[..pos]) * Pow2(extra), bits)
  }

  lemma EncodingStart(s: seq<byte>)
    requires |s| > 0
    ensures Encoding(s, 1, 0, s[0], 8, [])
  {
    assert s[..1] == [s[0]] && [s[0]][..0] == [];
    assert BE([s[0]]) == 256 * BE([s[0]][..0]) + s[0];
    assert Pow2(0) == 1 && Pow2(4) == 16 && Pow2(8) == 256;
  }

  /** (tmp << 8) | b on 32 bits. */
  function LoadByte(tmp: u32, b: byte): (c: u32)
    ensures c == (tmp * 256 + b) % 0x1_0000_0000
  {
    LoadByteIs(tmp, b);
    Or(tmp * 256 % 0x1_0000_0000, b)
  }

  lemma {:induction false} LoadByteIs(tmp: u32, b: byte)
    ensures Or(tmp * 256 % 0x1_0000_0000, b) == (tmp * 256 + b) % 0x1_0000_0000
  {
    hide Or, Pow2;
    Pow2Byte();
    Accumulate(tmp, b, 8);
  }

  lemma EncodingLoad(s: seq<byte>, pos: nat, tmp: u32, bits: nat, out: seq<Char>)
    requires Encoding(s, pos, 0, tmp, bits, out) && pos < |s| && bits < 5
    ensures Encoding(s, pos + 1, 0, LoadByte(tmp, s[pos]), bits + 8, out)
  {
    var x := Value(s[..pos]);
    assert Pow2(0) == 1 && x * 1 == x;
    hide Pow2, Or, Number32, Valid32, Drop, Value;
    Pow2Byte();
    ValueSnoc(s, pos);
    WrapAdd(x, s[pos]);
    DropShifted(x, s[pos], bits, 8);
    assert (256 * x + s[pos]) * 1 == 256 * x + s[pos];
  }

  lemma WrapAdd(x: nat, b: byte)
    ensures (x % 0x1_0000_0000 * 256 + b) % 0x1_0000_0000 == (256 * x + b) % 0x1_0000_0000
  {
    var q, r := x / 0x1_0000_0000, x % 0x1_0000_0000;
    var k, t := (r * 256 + b) / 0x1_0000_0000, (r * 256 + b) % 0x1_0000_0000;
    ModUnique(256 * x + b, 0x1_0000_0000, 256 * q + k, t);
  }

  /** tmp << k on 32 bits. */
  function ShiftLeft(tmp: u32, k: nat): u32 {
    tmp * Pow2(k) % 0x1_0000_0000
  }

  lemma EncodingPad(s: seq<byte>, tmp: u32, bits: nat, out: seq<Char>)
    requires Encoding(s, |s|, 0, tmp, bits, out) && 0 < bits < 5
    ensures Encoding(s, |s|, 5 - bits, ShiftLeft(tmp, 5 - bits), 5, out)
  {
    var x, w := Value(s[..|s|]), 5 - bits;
    assert Pow2(0) == 1 && x * 1 == x;
    hide Pow2, Or, Number32, Valid32, Drop, Value;
    Accumulate(x, 0, w);
    OrZero(tmp * Pow2(w) % 0x1_0000_0000);
    DropShifted(x, 0, bits, w);
  }

  lemma EncodingDigit(s: seq<byte>, pos: nat, extra: nat, tmp: u32, bits: nat, out: seq<Char>)
    requires Encoding(s, pos, extra, tmp, bits, out) && 5 <= bits <= 12
    ensures Encoding(s, pos, extra, tmp, bits - 5, out + [Letter32(Drop(tmp, bits - 5) % 32)])
  {
    var x := Value(s[..pos]) * Pow2(extra);
    assert Pow2(5) == 32;
    hide Pow2, Or, Number32, Drop, Value, Letter32, Index32;
    var d := Drop(tmp, bits - 5) % 32;
    WrapKeeps(x, bits - 5, 5);
    TakeBits(x, bits - 5, 5);
    IndexOfLetter(d);
    NumberSnoc(out, Letter32(d));
  }

  lemma {:induction false} EncodingEnd(s: seq<byte>, pos: nat, extra: nat, tmp: u32, bits: nat, out: seq<Char>)
    requires Encoding(s, pos, extra, tmp, bits, out)
    ensures Number32(out) == Prefix32(s, |out|)
  {
    hide Number32, Valid32;
    var n, r := |s|, |out|;
    PrefixValue(s, pos);
    if extra > 0 {
      assert s[..pos] == s;
      if bits == 0 {
        DropNothing(Value(s) * Pow2(extra));
      } else {
        PaddedDrop(Value(s), extra, bits);
      }
    } else {
      assert Pow2(0) == 1 && Value(s[..pos]) * 1 == Value(s[..pos]);
      DropDropBits(Value(s), 8 * (n - pos), bits);
    }
  }

  lemma DropNothing(x: nat)
    ensures Drop(x, 0) == x
  {
    assert Pow2(0) == 1;
  }

  lemma {:induction false} PaddedDrop(x: nat, extra: nat, bits: nat)
    ensures bits >= extra ==> Drop(x * Pow2(extra), bits) == Drop(x, bits - extra)
    ensures bits <= extra ==> Drop(x * Pow2(extra), bits) == x * Pow2(extra - bits)
  {
    hide Pow2, Drop;
    if bits >= extra { DropZeros(x, bits - extra, extra); }
    if bits <= extra {
      Pow2Add(extra - bits, bits);
      Assoc(x, Pow2(extra - bits), Pow2(bits));
      DropZeros(x * Pow2(extra - bits), 0, bits);
      DropNothing(x * Pow2(extra - bits));
    }
  }

  lemma {:induction false} DropZeros(x: nat, k: nat, w: nat)
    ensures x * Pow2(w) >= 0 && Drop(x * Pow2(w), k + w) == Drop(x, k)
  {
    hide Pow2, Drop;
    DropShifted(x, 0, k, w);
    assert x * Pow2(w) + 0 == x * Pow2(w);
  }

  lemma Assoc(x: int, p: int, q: int)
    ensures x * (p * q) == x * p * q
  {
  }

  /** The value of a prefix is the value of the whole without the later bytes. */
  lemma {:induction false} PrefixValue(s: seq<byte>, p: nat)
    requires p <= |s|
    ensures Value(s[..p]) == Drop(Value(s), 8 * (|s| - p))
    decreases |s| - p
  {
    hide Pow2, Drop;
    if p == |s| {
      assert s[..p] == s;
      DropNothing(Value(s));
    } else {
      PrefixValue(s, p + 1);
      ValueSnoc(s, p);
      hide Value;
      Pow2Byte();
      DropShifted(Value(s[..p]), s[p], 0, 8);
      DropNothing(Value(s[..p]));
      DropDropBits(Value(s), 8 * (|s| - p - 1), 8);
    }
  }

  method WriteChar(outBuf: array<Char>, i: nat, c: Char)
    requires i < outBuf.Length
    modifies outBuf
    ensures outBuf[..i + 1] == old(outBuf[..i]) + [c] && outBuf[i + 1..] == old(outBuf[i..])[1..]
  {
    outBuf[i] := c;
  }

  /** Writes at most outLen digits; all of them if there is room. */
  method ByteStreamToBase32(inBuf: seq<byte>, outBuf: array<Char>, outLen: nat) returns (ret: nat)
    requires |inBuf| > 0 && outLen <= outBuf.Length
    modifies outBuf
    ensures var m := Ceiling(8 * |inBuf|, 5); ret == if outLen < m then outLen else m
    ensures Valid32(outBuf[..ret]) && Number32(outBuf[..ret]) == Prefix32(inBuf, ret)
    ensures outBuf[ret..] == old(outBuf[ret..])
  {
    hide Encoding, Or, Pow2, Number32, Valid32, Letter32, Prefix32, Drop, LoadByte, ShiftLeft;
    ghost var before := outBuf[..];
    ret := 0;
    var pos: nat, bits: nat := 1, 8;
    var tmp: u32 := inBuf[0];
    ghost var extra: nat := 0;
    EncodingStart(inBuf);
    assert outBuf[..0] == [];
    EncodingCounts(inBuf, pos, extra, tmp, bits, outBuf[..0]);
    while ret < outLen && (bits > 0 || pos < |inBuf|)
      invariant ret <= outLen && outBuf[ret..] == before[ret..]
      invariant Encoding(inBuf, pos, extra, tmp, bits, outBuf[..ret])
      invariant pos <= |inBuf| && bits <= 8 && extra < 5 && 8 * pos + extra == 5 * ret + bits
      invariant extra > 0 ==> pos == |inBuf| && bits == 0
      decreases outLen - ret
    {
      var ind;
      ind, pos, tmp, bits, extra := NextDigit(inBuf, pos, tmp, bits, extra, outBuf[..ret]);
      WriteChar(outBuf, ret, Letter32(ind));
      DropDrop(before, ret, 1);
      ret := ret + 1;
    }
    EncodingEnd(inBuf, pos, extra, tmp, bits, outBuf[..ret]);
    EncodingCounts(inBuf, pos, extra, tmp, bits, outBuf[..ret]);
    Rounded(|inBuf|, ret, outLen, pos, bits, extra);
  }

  /** One round of the encoder: more bits if there are fewer than five, then the next digit. */
  method NextDigit(inBuf: seq<byte>, pos0: nat, tmp0: u32, bits0: nat, ghost extra0: nat, ghost out: seq<Char>)
      returns (ind: nat, pos: nat, tmp: u32, bits: nat, ghost extra: nat)
    requires Encoding(inBuf, pos0, extra0, tmp0, bits0, out) && pos0 <= |inBuf| && bits0 <= 8 && (bits0 > 0 || pos0 < |inBuf|)
    requires extra0 > 0 ==> pos0 == |inBuf| && bits0 == 0
    ensures ind < 32 && Encoding(inBuf, pos, extra, tmp, bits, out + [Letter32(ind)])
    ensures pos <= |inBuf| && bits <= 8 && (extra > 0 ==> pos == |inBuf| && bits == 0)
    ensures extra < 5 && 8 * pos + extra == 5 * (|out| + 1) + bits
  {
    hide Encoding, Or, Pow2, Number32, Valid32, Letter32, Drop, LoadByte, ShiftLeft;
    pos, tmp, bits, extra := pos0, tmp0, bits0, extra0;
    if bits < 5 {
      if pos < |inBuf| {
        EncodingLoad(inBuf, pos, tmp, bits, out);
        tmp := LoadByte(tmp, inBuf[pos]);
        pos := pos + 1;
        bits := bits + 8;
      } else {
        EncodingPad(inBuf, tmp, bits, out);
        extra := 5 - bits;
        tmp := ShiftLeft(tmp, 5 - bits);
        bits := 5;
      }
    }
    EncodingDigit(inBuf, pos, extra, tmp, bits, out);
    bits := bits - 5;
    ind := Drop(tmp, bits) % 32;
    EncodingCounts(inBuf, pos, extra, tmp, bits, out + [Letter32(ind)]);
  }

  lemma EncodingCounts(s: seq<byte>, pos: nat, extra: nat, tmp: u32, bits: nat, out: seq<Char>)
    requires Encoding(s, pos, extra, tmp, bits, out)
    ensures Valid32(out) && 8 * pos + extra == 5 * |out| + bits && extra < 5
  {
  }

  /** The loop ends with the room or with the last digit. */
  lemma Rounded(n: nat, ret: nat, outLen: nat, pos: nat, bits: nat, extra: nat)
    requires ret <= outLen && pos <= n && extra < 5 && 8 * pos + extra == 5 * ret + bits && (extra > 0 ==> pos == n && bits == 0)
    requires ret == outLen || (bits == 0 && pos == n)
    ensures var m := Ceiling(8 * n, 5); ret == if outLen < m then outLen else m
  {
    DigitCount(n);
  }


  /** The state of the decoder after the characters c: bits pending, out written. */
  ghost predicate Decoding(c: seq<Char>, tmp: u32, bits: nat, out: seq<byte>) {
    Valid32(c) && bits < 8 && 5 * |c| == 8 * |out| + bits
    && tmp == Number32(c) * 32 % 0x1_0000_0000 && Value(out) == Drop(Number32(c), bits)
  }

  lemma DecodingStart()
    ensures Decoding([], 0, 0, [])
  {
    DropNothing(0);
  }

  /** tmp |= d, where the low five bits of tmp are free. */
  function OrDigit(tmp: u32, d: nat): (c: u32)
    requires d < 32 && tmp % 32 == 0
    ensures c == tmp + d
  {
    OrDigitIs(tmp, d);
    Or(tmp, d)
  }

  lemma {:induction false} OrDigitIs(tmp: u32, d: nat)
    requires d < 32 && tmp % 32 == 0
    ensures Or(tmp, d) == tmp + d && tmp + d < 0x1_0000_0000
  {
    var k := tmp / 32;
    Pow2Five();
    hide Or, Pow2;
    assert k * 32 == tmp;
    OrLow(k, d, 5);
  }

  lemma TopBits(x: nat, d: nat)
    requires d < 32
    ensures x * 32 % 0x1_0000_0000 % 32 == 0 && (x * 32 + d) % 0x1_0000_0000 == x * 32 % 0x1_0000_0000 + d
  {
    var q, r := x / 0x800_0000, x % 0x800_0000;
    ModUnique(x * 32, 0x1_0000_0000, q, 32 * r);
    ModUnique(x * 32 + d, 0x1_0000_0000, q, 32 * r + d);
  }

  /** One more digit: its five bits come in at the bottom. */
  lemma {:induction false} DecodingDigit(c: seq<Char>, ch: Char, tmp: u32, bits: nat, out: seq<byte>)
    requires Decoding(c, tmp, bits, out) && Index32(ch).Some?
    ensures tmp % 32 == 0 && Index32(ch).value < 32 && Valid32(c + [ch])
    ensures OrDigit(tmp, Index32(ch).value) == Number32(c + [ch]) % 0x1_0000_0000
    ensures Value(out) == Drop(Number32(c + [ch]), bits + 5)
  {
    hide *;
    DecodingMeans(c, tmp, bits, out);
    IndexBound(ch);
    Pow2Five();
    var d, y := Index32(ch).value, Number32(c);
    TopBits(y, d);
    NumberSnoc(c, ch);
    DropShifted(y, d, bits, 5);
  }

  /** With eight bits or more the top eight of them are the next byte. */
  lemma DecodingByte(x: nat, t: u32, k: nat, out: seq<byte>)
    requires t == x % 0x1_0000_0000 && k < 8 && Value(out) == Drop(x, k + 8)
    ensures Value(out + [Drop(t, k) % 256]) == Drop(x, k)
  {
    Pow2Byte();
    hide Pow2, Drop, Value;
    WrapKeeps(x, k, 8);
    TakeBits(x, k, 8);
    ValueOfSnoc(out, Drop(t, k) % 256);
  }

  lemma {:induction false} DecodingStep(c: seq<Char>, ch: Char, tmp: u32, bits: nat, out: seq<byte>)
    requires Decoding(c, tmp, bits, out) && Index32(ch).Some?
    ensures tmp % 32 == 0 && Index32(ch).value < 32 && Valid32(c + [ch])
    ensures Value(out) == Drop(Number32(c + [ch]), bits + 5)
    ensures var t := OrDigit(tmp, Index32(ch).value); var n := bits + 5;
      && (n < 8 ==> Decoding(c + [ch], ShiftLeft5(t), n, out))
      && (n >= 8 ==> Decoding(c + [ch], ShiftLeft5(t), n - 8, out + [Drop(t, n - 8) % 256]))
  {
    DecodingDigit(c, ch, tmp, bits, out);
    var t, x := OrDigit(tmp, Index32(ch).value), Number32(c + [ch]);
    TimesWrap(x);
    hide Pow2, Or, Number32, Drop, Value, OrDigit, Index32, Valid32;
    if bits >= 3 { DecodingByte(x, t, bits - 3, out); }
  }

  lemma TimesWrap(x: nat)
    ensures x % 0x1_0000_0000 * 32 % 0x1_0000_0000 == x * 32 % 0x1_0000_0000
  {
    var q, r := x / 0x1_0000_0000, x % 0x1_0000_0000;
    var k, t := r * 32 / 0x1_0000_0000, r * 32 % 0x1_0000_0000;
    ModUnique(x * 32, 0x1_0000_0000, 32 * q + k, t);
  }

  lemma ValueOfSnoc(s: seq<byte>, b: byte)
    ensures Value(s + [b]) == 256 * Value(s) + b
  {
    assert (s + [b])[..|s|] == s;
  }

  /** Decodes until a character is wrong, when the answer is 0, or the room is used up. */
  method Base32ToByteStream(inBuf: seq<Char>, outBuf: array<byte>, outLen: nat) returns (ret: nat)
    requires outLen <= outBuf.Length
    modifies outBuf
    ensures Valid32(inBuf) ==> ret == if outLen < 5 * |inBuf| / 8 then outLen else 5 * |inBuf| / 8
    ensures Valid32(inBuf) ==> Value(outBuf[..ret]) == Drop(Number32(inBuf), 5 * |inBuf| - 8 * ret)
    ensures !Valid32(inBuf) && outLen >= 5 * |inBuf| / 8 ==> ret == 0
  {
    hide Decoding, Pow2, Or, Number32, Drop, Value, Index32, OrDigit, Valid32;
    var tmp: u32, bits: nat := 0, 0;
    ret := 0;
    DecodingStart();
    assert inBuf[..0] == [] && outBuf[..0] == [];
    for i := 0 to |inBuf|
      invariant ret <= outLen && Decoding(inBuf[..i], tmp, bits, outBuf[..ret])
      invariant Valid32(inBuf[..i]) && bits < 8 && 5 * i == 8 * ret + bits
    {
      assert inBuf[..i + 1] == inBuf[..i] + [inBuf[i]];
      var ch := Index32(inBuf[i]);
      if ch.None? {
        NotValid(inBuf, i);
        return 0;
      }
      DecodingStep(inBuf[..i], inBuf[i], tmp, bits, outBuf[..ret]);
      tmp := OrDigit(tmp, ch.value);
      bits := bits + 5;
      if bits >= 8 {
        if ret >= outLen {
          Enough(inBuf, i, bits - 5, ret, outBuf[..ret]);
          return;
        }
        WriteChar(outBuf, ret, Drop(tmp, bits - 8) % 256);
        bits := bits - 8;
        ret := ret + 1;
      }
      tmp := ShiftLeft5(tmp);
      DecodingCounts(inBuf[..i + 1], tmp, bits, outBuf[..ret]);
    }
    assert inBuf[..|inBuf|] == inBuf;
    DecodingMeans(inBuf, tmp, bits, outBuf[..ret]);
  }

  function ShiftLeft5(tmp: u32): u32 {
    tmp * 32 % 0x1_0000_0000
  }

  lemma DecodingCounts(c: seq<Char>, tmp: u32, bits: nat, out: seq<byte>)
    requires Decoding(c, tmp, bits, out)
    ensures Valid32(c) && bits < 8 && 5 * |c| == 8 * |out| + bits
  {
  }

  lemma {:induction false} DecodingMeans(c: seq<Char>, tmp: u32, bits: nat, out: seq<byte>)
    requires Decoding(c, tmp, bits, out)
    ensures Valid32(c) && 5 * |c| / 8 == |out| && 5 * |c| - 8 * |out| == bits && Value(out) == Drop(Number32(c), bits)
    ensures tmp == Number32(c) * 32 % 0x1_0000_0000
  {
  }

  lemma NotValid(s: seq<Char>, i: nat)
    requires i < |s| && Index32(s[i]).None?
    ensures !Valid32(s)
  {
  }

  /** What has been decoded is the leading part of the whole. */
  lemma {:induction false} Enough(s: seq<Char>, i: nat, bits: nat, ret: nat, out: seq<byte>)
    requires i < |s| && |out| == ret && 5 * i == 8 * ret + bits && bits >= 3 && Valid32(s[..i + 1])
    requires Value(out) == Drop(Number32(s[..i + 1]), bits + 5)
    ensures ret < 5 * |s| / 8
    ensures Valid32(s) ==> Value(out) == Drop(Number32(s), 5 * |s| - 8 * ret)
  {
    hide Number32, Valid32, Value, Drop;
    if Valid32(s) {
      NumberPrefix(s, i + 1);
      DropDropBits(Number32(s), 5 * (|s| - i - 1), bits + 5);
    }
  }

  lemma {:induction false} NumberPrefix(s: seq<Char>, k: nat)
    requires Valid32(s) && k <= |s|
    ensures Valid32(s[..k]) && Number32(s[..k]) == Drop(Number32(s), 5 * (|s| - k))
    decreases |s| - k
  {
    hide Drop, Pow2, Index32;
    if k == |s| {
      assert s[..k] == s;
      DropNothing(Number32(s));
    } else {
      NumberPrefix(s, k + 1);
      assert s[..k + 1][..k] == s[..k];
      IndexBound(s[k]);
      Pow2Five();
      DropShifted(Number32(s[..k]), Index32(s[k]).value, 0, 5);
      DropNothing(Number32(s[..k]));
      DropDropBits(Number32(s), 5 * (|s| - k - 1), 5);
    }
  }

  lemma Pow2Five()
    ensures Pow2(5) == 32
  {
  }

  lemma IndexBound(c: Char)
    ensures Index32(c).Some? ==> Index32(c).value < 32
  {
  }

  /** Decoding what was encoded gives the bytes back, for every non-empty input and enough room. */
  method RoundTrip32(bytes: seq<byte>) returns (text: array<Char>, back: array<byte>, n: nat)
    requires |bytes| > 0
    ensures n == |bytes| && n <= back.Length && back[..n] == bytes
  {
    hide Number32, Valid32, Value, Drop, Pow2, Prefix32;
    var m := Ceiling(8 * |bytes|, 5);
    DigitCount(|bytes|);
    text := new Char[m](_ => 0);
    var digits := ByteStreamToBase32(bytes, text, m);
    back := new byte[|bytes|](_ => 0);
    n := Base32ToByteStream(text[..digits], back, |bytes|);
    WholePrefix(bytes, m);
    SameValue(bytes, back[..n]);
  }

  lemma WholePrefix(s: seq<byte>, m: nat)
    requires 8 * |s| <= 5 * m < 8 * |s| + 8
    ensures Drop(Prefix32(s, m), 5 * m - 8 * |s|) == Value(s)
  {
    hide Drop, Value, Pow2;
    if 5 * m == 8 * |s| {
      DropNothing(Value(s));
    } else {
      PaddedDrop(Value(s), 5 * m - 8 * |s|, 5 * m - 8 * |s|);
      DropNothing(Value(s));
    }
  }

  lemma SameValue(a: seq<byte>, b: seq<byte>)
    requires |a| == |b| && Value(a) == Value(b)
    ensures a == b
  {
    ToBEBE(a);
    ToBEBE(b);
  }

  // ---------------------------------------------------------------------------------------
  // Base64
  // ---------------------------------------------------------------------------------------

  const P64: Char := 61          // '='

  /** A to Z, a to z, 0 to 9, '-' and '~'. */
  function Letter64(d: nat): (c: Char)
    requires d < 64
    ensures c != P64
  {
    if d < 26 then 65 + d else if d < 52 then 97 + d - 26 else if d < 62 then 48 + d - 52 else if d == 62 then 45 else 126
  }

  const UPPER := "ABCDEFGHIJKLMNOPQRSTUVWXYZ"
  const LOWER := "abcdefghijklmnopqrstuvwxyz"
  const ALPHABET64 := UPPER + LOWER + "0123456789-~"

  lemma Alphabet64(d: nat)
    requires d < 64
    ensures |ALPHABET64| == 64 && Letter64(d) == ALPHABET64[d] as int
  {
    if d < 26 { UpperCase(d); } else if d < 52 { Alphabet32(d - 26); LowerCase(d - 26); } else { OtherDigits(d - 52); }
  }

  lemma UpperCase(d: nat)
    requires d < 26
    ensures ALPHABET64[d] as int == 65 + d
  {
    assert UPPER[d] as int == 65 + d;
  }

  lemma LowerCase(d: nat)
    requires d < 26
    ensures LOWER[d] as int == 97 + d
  {
  }

  lemma OtherDigits(d: nat)
    requires d < 12
    ensures "0123456789-~"[d] as int == if d < 10 then 48 + d else if d == 10 then 45 else 126
  {
  }

  /** iT64: zero for the padding, 255 for what is no digit. */
  function Index64(c: Char): (d: byte) {
    if 65 <= c <= 90 then c - 65
    else if 97 <= c <= 122 then c - 97 + 26
    else if 48 <= c <= 57 then c - 48 + 52
    else if c == 45 then 62
    else if c == 126 then 63
    else if c == P64 then 0
    else 255
  }

  /** The letters of the four digits, six bits each, of the 24-bit number of three bytes; one or two bytes at
      the end are followed by zero bits and by padding characters. */
  lemma DigitsAre(a: byte, b: byte, c: byte)
    ensures var n: int := 0x1_0000 * (a as int) + 0x100 * (b as int) + c;
      Digits(a, b, c) == [Letter64(n / 0x4_0000), Letter64(n / 0x1000 % 64), Letter64(n / 64 % 64), Letter64(n % 64)]
    ensures Tail64([a]) == Digits(a, 0, 0)[..2] + [P64, P64] && Tail64([a, b]) == Digits(a, b, 0)[..3] + [P64]
  {
    hide Letter64;
    SixBits(a, b, c);
  }

  lemma SixBits(a: byte, b: byte, c: byte)
    ensures var n: int := 0x1_0000 * (a as int) + 0x100 * (b as int) + c;
      && n / 0x4_0000 == a / 4 && n / 0x1000 % 64 == a % 4 * 16 + b / 16 && n / 64 % 64 == b % 16 * 4 + c / 64 && n % 64 == c % 64
  {
    var x: int, y: int, n: int := a, b, 0x1_0000 * (a as int) + 0x100 * (b as int) + c;
    ModUnique(n, 0x4_0000, x / 4, x % 4 * 0x1_0000 + y * 0x100 + c);
    ModUnique(n, 0x1000, x * 16 + y / 16, y % 16 * 0x100 + c);
    ModUnique(x * 16 + y / 16, 64, x / 4, x % 4 * 16 + y / 16);
    ModUnique(n, 64, x * 1024 + y * 4 + c / 64, c % 64);
    ModUnique(x * 1024 + y * 4 + c / 64, 64, x * 16 + y / 16, y % 16 * 4 + c / 64);
  }

  /** The four digits of three bytes. */
  function Digits(a: byte, b: byte, c: byte): (s: seq<Char>)
    ensures |s| == 4
  {
    [Letter64(a / 4), Letter64(a % 4 * 16 + b / 16), Letter64(b % 16 * 4 + c / 64), Letter64(c % 64)]
  }

  /** The first n whole groups of three bytes. */
  function Groups(s: seq<byte>, n: nat): (r: seq<Char>)
    requires 3 * n <= |s|
    ensures |r| == 4 * n
  {
    if n == 0 then [] else Groups(s, n - 1) + Digits(s[3 * n - 3], s[3 * n - 2], s[3 * n - 1])
  }

  /** One or two bytes that are left. */
  function Tail64(s: seq<byte>): (r: seq<Char>)
    requires |s| < 3
    ensures |r| == if s == [] then 0 else 4
  {
    if s == [] then []
    else if |s| == 1 then [Letter64(s[0] / 4), Letter64(s[0] % 4 * 16), P64, P64]
    else [Letter64(s[0] / 4), Letter64(s[0] % 4 * 16 + s[1] / 16), Letter64(s[1] % 16 * 4), P64]
  }

  function Encoded64(s: seq<byte>): seq<Char> {
    Groups(s, |s| / 3) + Tail64(s[|s| / 3 * 3..])
  }

  method Put4(outBuf: array<Char>, at: nat, d: seq<Char>)
    requires |d| == 4 && at + 4 <= outBuf.Length
    modifies outBuf
    ensures outBuf[..at + 4] == old(outBuf[..at]) + d && outBuf[at + 4..] == old(outBuf[at + 4..])
  {
    outBuf[at], outBuf[at + 1], outBuf[at + 2], outBuf[at + 3] := d[0], d[1], d[2], d[3];
    assert outBuf[..at] == old(outBuf[..at]);
    assert outBuf[at..at + 4] == d;
    JoinSlice(outBuf[..], 0, at, at + 4);
  }

  /** Returns 0 when there is not enough room. */
  method ByteStreamToBase64(inBuf: seq<byte>, outBuf: array<Char>, len: nat) returns (outCount: nat)
    requires len <= outBuf.Length
    modifies outBuf
    ensures |Encoded64(inBuf)| > len ==> outCount == 0 && outBuf[..] == old(outBuf[..])
    ensures |Encoded64(inBuf)| <= len ==> outCount == |Encoded64(inBuf)| && outBuf[..outCount] == Encoded64(inBuf)
    ensures outBuf[outCount..] == old(outBuf[outCount..])
  {
    hide Letter64, Digits, Tail64;
    var n, m := |inBuf| / 3, |inBuf| % 3;
    outCount := if m == 0 then 4 * n else 4 * (n + 1);
    if outCount > len { return 0; }
    for i := 0 to n
      invariant outBuf[..4 * i] == Groups(inBuf, i) && outBuf[4 * i..] == old(outBuf[4 * i..])
    {
      DropDrop(old(outBuf[..]), 4 * i, 4);
      DropDrop(outBuf[..], 4 * i, 4);
      Put4(outBuf, 4 * i, Digits(inBuf[3 * i], inBuf[3 * i + 1], inBuf[3 * i + 2]));
    }
    if m > 0 {
      Put4(outBuf, 4 * n, Tail64(inBuf[3 * n..]));
    } else {
      EmptyTail(inBuf[3 * n..]);
    }
  }

  lemma EmptyTail(s: seq<byte>)
    requires s == []
    ensures Tail64(s) == []
  {
  }

  lemma {:induction false} OrBound(a: nat, b: nat, n: nat)
    requires a < Pow2(n) && b < Pow2(n)
    ensures Or(a, b) < Pow2(n)
    decreases n
  {
    if n > 0 && a > 0 { OrBound(a / 2, b / 2, n - 1); }
  }

  function OrByte(a: byte, b: byte): (c: byte) {
    OrByteBound(a, b);
    Or(a, b)
  }

  lemma {:induction false} OrByteBound(a: byte, b: byte)
    ensures Or(a, b) < 256
  {
    Pow2Byte();
    OrBound(a, b, 8);
  }

  /** The three bytes of four table entries, in eight-bit arithmetic. */
  function Bytes64(d0: byte, d1: byte, d2: byte, d3: byte): (s: seq<byte>)
    ensures |s| == 3
  {
    [OrByte(d0 * 4 % 256, d1 / 16), OrByte(d1 * 16 % 256, d2 / 4), OrByte(d3, d2 * 64 % 256)]
  }

  function Decoded64(s: seq<Char>, n: nat): (r: seq<byte>)
    requires 4 * n <= |s|
    ensures |r| == 3 * n
  {
    if n == 0 then []
    else Decoded64(s, n - 1) + Group64(s, n - 1)
  }

  function Paddings(s: seq<Char>): (n: nat)
    ensures n <= |s|
  {
    if s == [] || s[|s| - 1] != P64 then 0 else 1 + Paddings(s[..|s| - 1])
  }

  /** One group of the decoder: up to three bytes, stopping after a byte that reaches the end. */
  method WriteGroup(outBuf: array<byte>, pd: nat, b: seq<byte>, end: nat) returns (next: nat)
    requires |b| == 3 && pd <= end && (if pd == end then end + 1 else end) <= outBuf.Length
    modifies outBuf
    ensures next == if pd == end then end + 1 else if pd + 3 <= end then pd + 3 else end
    ensures outBuf[..next] == old(outBuf[..pd]) + b[..next - pd] && outBuf[next..] == old(outBuf[next..])
  {
    outBuf[pd] := b[0];
    if pd + 1 >= end { return pd + 1; }
    outBuf[pd + 1] := b[1];
    if pd + 2 >= end { return pd + 2; }
    outBuf[pd + 2] := b[2];
    next := pd + 3;
  }

  method CountPaddings(inBuf: seq<Char>) returns (n: nat)
    ensures n == Paddings(inBuf)
  {
    n := 0;
    var ps := |inBuf|;
    assert inBuf[..ps] == inBuf;
    while ps > 0 && inBuf[ps - 1] == P64
      invariant 0 <= ps <= |inBuf| && n + Paddings(inBuf[..ps]) == Paddings(inBuf)
    {
      assert inBuf[..ps][..ps - 1] == inBuf[..ps - 1];
      n := n + 1;
      ps := ps - 1;
    }
  }

  function Group64(s: seq<Char>, i: nat): (b: seq<byte>)
    requires 4 * i + 4 <= |s|
    ensures |b| == 3
  {
    Bytes64(Index64(s[4 * i]), Index64(s[4 * i + 1]), Index64(s[4 * i + 2]), Index64(s[4 * i + 3]))
  }

  /** The number of bytes the decoder announces; negative stands for a huge size_t. */
  function OutCount(s: seq<Char>): int {
    3 * (|s| / 4) - Paddings(s)
  }

  /** The result ends with a group, and another group follows: the decoder only looks for the end of the
      result after the first and the second byte of a group, so it begins that group as well. */
  predicate Spills(s: seq<Char>) {
    s != [] && |s| % 4 == 0 && Paddings(s) > 0 && Paddings(s) % 3 == 0
  }

  /** None stands for -1, not enough room. One byte behind the result is written exactly when the number
      of paddings is a positive multiple of three, which no encoder writes. The backward scan of the source
      does not stop at the beginning of a string of padding only; here it does. */
  method Base64ToByteStream(inBuf: seq<Char>, outBuf: array<byte>, len: nat) returns (r: Option<nat>)
    requires len <= outBuf.Length && (Spills(inBuf) && 0 <= OutCount(inBuf) <= len ==> OutCount(inBuf) < outBuf.Length)
    modifies outBuf
    ensures inBuf == [] || |inBuf| % 4 != 0 ==> r == Some(0) && outBuf[..] == old(outBuf[..])
    ensures inBuf != [] && |inBuf| % 4 == 0 ==> r == if 0 <= OutCount(inBuf) <= len then Some(OutCount(inBuf)) else None
    ensures r.Some? && inBuf != [] && |inBuf| % 4 == 0 ==> outBuf[..r.value] == Decoded64(inBuf, |inBuf| / 4)[..r.value]
    ensures r.Some? && !Spills(inBuf) ==> outBuf[r.value..] == old(outBuf[r.value..])
    ensures r.Some? && Spills(inBuf) ==>
      && r.value / 3 < |inBuf| / 4 && outBuf[r.value] == Group64(inBuf, r.value / 3)[0]
      && outBuf[r.value + 1..] == old(outBuf[r.value + 1..])
    ensures r.None? ==> outBuf[..] == old(outBuf[..])
  {
    hide Decoded64, Group64, Paddings;
    var n, m := |inBuf| / 4, |inBuf| % 4;
    if inBuf == [] || m != 0 { return Some(0); }
    var paddings := CountPaddings(inBuf);
    var outCount := 3 * n - paddings;
    if outCount < 0 || outCount > len { return None; }
    r := Some(outCount);
    ghost var all := Decoded64(inBuf, n);
    for i := 0 to n
      invariant 3 * i <= outCount
      invariant outBuf[..3 * i] == all[..3 * i] && outBuf[3 * i..] == old(outBuf[3 * i..])
    {
      DecodedPrefix(inBuf, i, n);
      var next := WriteGroup(outBuf, 3 * i, Group64(inBuf, i), outCount);
      GroupWritten(all, Group64(inBuf, i), 3 * i, next, outCount);
      Untouched(old(outBuf[..]), outBuf[..], next, outCount);
      if next < 3 * i + 3 { return; }
    }
  }

  /** Three paddings: three bytes are announced and four are written. */
  method ExtraByte() returns (out: array<byte>, r: Option<nat>)
    ensures r == Some(3) && out[..] == [0, 0, 0, 4]
  {
    hide Decoded64, Group64, Paddings;
    var text: seq<Char> := [65, 65, 65, 65, 66, P64, P64, P64];
    ThreePaddings(text);
    SecondGroup(text);
    out := new byte[4](_ => 255);
    r := Base64ToByteStream(text, out, 3);
    assert out[..] == out[..3] + [out[3]];
  }

  lemma OnePadding(s: seq<Char>)
    ensures Paddings(s + [P64]) == Paddings(s) + 1
  {
    assert (s + [P64])[..|s|] == s;
  }

  lemma ThreePaddings(text: seq<Char>)
    requires text == [65, 65, 65, 65, 66, P64, P64, P64]
    ensures Paddings(text) == 3
  {
    var s: seq<Char> := [65, 65, 65, 65, 66];
    assert Paddings(s) == 0;
    hide Paddings;
    OnePadding(s);
    OnePadding(s + [P64]);
    OnePadding(s + [P64] + [P64]);
    assert text == s + [P64] + [P64] + [P64];
  }

  lemma SecondGroup(text: seq<Char>)
    requires text == [65, 65, 65, 65, 66, P64, P64, P64]
    ensures Decoded64(text, 2)[..3] == [0, 0, 0] && Group64(text, 1)[0] == 4
  {
    assert Index64(65) == 0 && Index64(66) == 1 && Index64(P64) == 0;
    FirstBytes();
    hide OrByte, Index64, Bytes64, Decoded64;
    DecodedPrefix(text, 0, 2);
    assert Decoded64(text, 2)[0..3] == Decoded64(text, 2)[..3];
  }

  lemma FirstBytes()
    ensures Bytes64(0, 0, 0, 0) == [0, 0, 0] && Bytes64(1, 0, 0, 0)[0] == 4
  {
    hide Or;
    OrZero(0);
    OrZero(4);
  }

  lemma GroupWritten(all: seq<byte>, b: seq<byte>, at: nat, next: nat, end: nat)
    requires |b| == 3 && at + 3 <= |all| && all[at..at + 3] == b && at <= next <= at + 3 && end <= |all|
    ensures all[..at] + b[..next - at] == all[..next]
    ensures at <= end <= next ==> all[..next][..end] == all[..end]
  {
    SubSlice(all, at, at + 3, 0, next - at);
    JoinSlice(all, 0, at, next);
    assert all[0..at] == all[..at] && all[0..next] == all[..next];
    if end <= next { assert all[..next][..end] == all[..end]; }
  }

  lemma Untouched(a: seq<byte>, b: seq<byte>, next: nat, end: nat)
    requires |a| == |b| && next <= |a| && a[next..] == b[next..]
    ensures next <= end <= |a| ==> a[end..] == b[end..]
  {
    if next <= end <= |a| {
      DropDrop(a, next, end - next);
      DropDrop(b, next, end - next);
    }
  }

  lemma {:induction false} DecodedPrefix(s: seq<Char>, i: nat, n: nat)
    requires i < n && 4 * n <= |s|
    ensures Decoded64(s, n)[3 * i..3 * i + 3] == Group64(s, i)
    decreases n
  {
    hide Group64;
    if i + 1 < n { DecodedPrefix(s, i, n - 1); }
  }

  lemma IndexOfLetter64(d: nat)
    requires d < 64
    ensures Index64(Letter64(d)) == d
  {
  }

  /** Every group decodes to its bytes. */
  lemma GroupDecodes(a: byte, b: byte, c: byte)
    ensures var d := Digits(a, b, c); Bytes64(Index64(d[0]), Index64(d[1]), Index64(d[2]), Index64(d[3])) == [a, b, c]
  {
    hide OrByte, Letter64, Index64;
    IndexOfLetter64(a / 4); IndexOfLetter64(a % 4 * 16 + b / 16);
    IndexOfLetter64(b % 16 * 4 + c / 64); IndexOfLetter64(c % 64);
    FirstByte(a, b); SecondByte(b, c); ThirdByte(b, c);
  }

  lemma FirstByte(a: byte, b: byte)
    ensures OrByte(a / 4 * 4 % 256, (a % 4 * 16 + b / 16) / 16) == a
  {
    hide OrByte;
    assert a / 4 * 4 % 256 == a / 4 * 4 && (a % 4 * 16 + b / 16) / 16 == a % 4;
    Merge(a / 4, a % 4, 4, 2);
  }

  lemma SecondByte(b: byte, c: byte)
    ensures forall k: nat :: k < 4 ==> OrByte((k * 16 + b / 16) * 16 % 256, (b % 16 * 4 + c / 64) / 4) == b
  {
    hide OrByte;
    forall k: nat | k < 4
      ensures OrByte((k * 16 + b / 16) * 16 % 256, (b % 16 * 4 + c / 64) / 4) == b
    {
      assert (k * 16 + b / 16) * 16 % 256 == b / 16 * 16 && (b % 16 * 4 + c / 64) / 4 == b % 16;
      Merge(b / 16, b % 16, 16, 4);
    }
  }

  lemma ThirdByte(b: byte, c: byte)
    ensures OrByte(c % 64, (b % 16 * 4 + c / 64) * 64 % 256) == c
  {
    hide OrByte;
    assert (b % 16 * 4 + c / 64) * 64 % 256 == c / 64 * 64;
    MergeLow(c / 64, c % 64);
  }

  lemma Merge(x: byte, y: byte, p: nat, n: nat)
    requires (p == 4 && n == 2) || (p == 16 && n == 4)
    requires y < p && x * p + y < 256
    ensures OrByte(x * p, y) == x * p + y
  {
    assert Pow2(2) == 4 && Pow2(4) == 16;
    hide Or, Pow2;
    OrLow(x, y, n);
  }

  lemma {:induction false} OrCommutes(a: nat, b: nat)
    ensures Or(a, b) == Or(b, a)
    decreases a + b
  {
    if a == 0 { OrZero(b); }
    else if b == 0 { OrZero(a); }
    else { OrCommutes(a / 2, b / 2); }
  }

  lemma MergeLow(x: byte, y: byte)
    requires y < 64 && x < 4
    ensures OrByte(y, x * 64) == x * 64 + y
  {
    assert Pow2(6) == 64;
    hide Or, Pow2;
    OrLow(x, y, 6);
    OrCommutes(x * 64, y);
  }

  lemma {:induction false} GroupsDecode(s: seq<byte>, text: seq<Char>, n: nat)
    requires 3 * n <= |s| && 4 * n <= |text| && text[..4 * n] == Groups(s, n)
    ensures Decoded64(text, n) == s[..3 * n]
    decreases n
  {
    hide Bytes64, Digits, Index64;
    if n > 0 {
      var k := 4 * (n - 1);
      assert text[..k] == text[..4 * n][..k];
      GroupsDecode(s, text, n - 1);
      var d := Digits(s[3 * n - 3], s[3 * n - 2], s[3 * n - 1]);
      forall i | 0 <= i < 4 ensures text[k + i] == d[i] { assert text[k + i] == text[..4 * n][k + i]; }
      GroupDecodes(s[3 * n - 3], s[3 * n - 2], s[3 * n - 1]);
    }
  }

  /** The tail decodes as a group whose missing bytes are zero. */
  lemma TailDecodes(s: seq<byte>)
    requires 0 < |s| < 3
    ensures var d := Tail64(s); Bytes64(Index64(d[0]), Index64(d[1]), Index64(d[2]), Index64(d[3]))[..|s|] == s
  {
    var b: byte := if |s| == 2 then s[1] else 0;
    GroupDecodes(s[0], b, 0);
    var d, g := Tail64(s), Digits(s[0], b, 0);
    assert d[0] == g[0] && d[1] == g[1];
    assert Index64(d[2]) == Index64(g[2]) && Index64(d[3]) == Index64(g[3]);
  }

  lemma {:induction false} GroupsUnpadded(s: seq<byte>, n: nat)
    requires 3 * n <= |s|
    ensures Paddings(Groups(s, n)) == 0
  {
    hide Letter64;
  }

  lemma EncodedPaddings(s: seq<byte>)
    ensures |Encoded64(s)| % 4 == 0 && OutCount(Encoded64(s)) == |s|
  {
    hide Paddings, Groups, Encoded64;
    EncodedEnd(s);
    var e := Encoded64(s);
    if |s| % 3 == 0 {
      GroupsUnpadded(s, |s| / 3);
    } else {
      TrailingPaddings(e);
    }
  }

  lemma {:induction false} EncodedEnd(s: seq<byte>)
    ensures var e, k := Encoded64(s), |Encoded64(s)|;
      && k == (|s| + 2) / 3 * 4
      && (|s| % 3 == 0 ==> e == Groups(s, |s| / 3))
      && (|s| % 3 != 0 ==> e[k - 1] == P64 && (e[k - 2] == P64 <==> |s| % 3 == 1) && e[k - 3] != P64)
  {
    hide Letter64, Groups;
    var n, t := |s| / 3, s[|s| / 3 * 3..];
    var g, e := Groups(s, n), Encoded64(s);
    if t == [] { assert e == g; }
  }

  lemma {:induction false} TrailingPaddings(e: seq<Char>)
    requires |e| >= 3 && e[|e| - 1] == P64
    ensures e[|e| - 2] != P64 ==> Paddings(e) == 1
    ensures e[|e| - 2] == P64 && e[|e| - 3] != P64 ==> Paddings(e) == 2
  {
    var k := |e|;
    assert e[..k - 1][..k - 2] == e[..k - 2];
    assert e[..k - 2] != [] && e[..k - 1] != [];
    if e[k - 2] != P64 {
      assert Paddings(e[..k - 1]) == 0;
    } else if e[k - 3] != P64 {
      assert Paddings(e[..k - 2]) == 0;
      assert Paddings(e[..k - 1]) == 1;
    }
  }

  lemma EncodedDecodes(s: seq<byte>)
    ensures |Encoded64(s)| % 4 == 0 && |s| <= 3 * (|Encoded64(s)| / 4)
    ensures Decoded64(Encoded64(s), |Encoded64(s)| / 4)[..|s|] == s
  {
    hide Bytes64, Letter64, Index64, Digits;
    var n, t := |s| / 3, s[|s| / 3 * 3..];
    var e := Encoded64(s);
    assert e[..4 * n] == Groups(s, n);
    GroupsDecode(s, e, n);
    assert s == s[..3 * n] + t;
    if t != [] {
      TailDecodes(t);
      var d := Tail64(t);
      assert e[4 * n] == d[0] && e[4 * n + 1] == d[1] && e[4 * n + 2] == d[2] && e[4 * n + 3] == d[3];
      var b := Bytes64(Index64(d[0]), Index64(d[1]), Index64(d[2]), Index64(d[3]));
      assert Decoded64(e, n + 1) == Decoded64(e, n) + b;
      assert (s[..3 * n] + b)[..|s|] == s[..3 * n] + b[..|t|];
    }
  }

  lemma EncodedLength(s: seq<byte>)
    ensures |Encoded64(s)| == 4 * Ceiling(|s|, 3) && Paddings(Encoded64(s)) < 3
  {
    hide Paddings;
    EncodedPaddings(s);
  }

  /** Decoding what was encoded gives the bytes back, through the padding. */
  method RoundTrip64(bytes: seq<byte>) returns (text: array<Char>, back: array<byte>)
    requires |bytes| > 0
    ensures back[..] == bytes
  {
    hide Decoded64, Paddings, Encoded64;
    var n := Ceiling(|bytes|, 3);
    text := new Char[4 * n](_ => 0);
    var count := ByteStreamToBase64(bytes, text, 4 * n);
    EncodedLength(bytes);
    EncodedPaddings(bytes);
    EncodedDecodes(bytes);
    back := new byte[|bytes|](_ => 0);
    var r := Base64ToByteStream(text[..count], back, |bytes|);
    assert back[..] == back[..|bytes|];
  }
}
