/** HKDF, RFC 5869, over an HMAC with 32 bytes of output. */
module Hkdf {
  import opened Bytes

  type Key = s: seq<byte> | |s| == 32 witness Zeros(32)
  type Hmac = (seq<byte>, seq<byte>) -> Key   // key, text

  /** Section 2.3: T(n) = HMAC(prk, T(n - 1) | info | n), T(0) empty. */
  function T(hmac: Hmac, prk: seq<byte>, info: seq<byte>, n: nat): seq<byte> {
    if n == 0 then [] else hmac(prk, T(hmac, prk, info, n - 1) + info + [n % 256])
  }

  function Expand(hmac: Hmac, prk: seq<byte>, info: seq<byte>, n: nat): seq<byte> {
    if n == 0 then [] else Expand(hmac, prk, info, n - 1) + T(hmac, prk, info, n)
  }

  /** n blocks of output from a salt and key material, section 2.2 and 2.3. */
  function Derive(hmac: Hmac, salt: seq<byte>, ikm: seq<byte>, info: seq<byte>, n: nat): seq<byte> {
    Expand(hmac, hmac(salt, ikm), info, n)
  }

  lemma {:induction false} OneBlock(hmac: Hmac, salt: seq<byte>, ikm: seq<byte>, info: seq<byte>)
    ensures Derive(hmac, salt, ikm, info, 1) == hmac(hmac(salt, ikm), info + [1])
  {
    var prk := hmac(salt, ikm);
    assert T(hmac, prk, info, 0) + info + [1] == info + [1];
    assert Expand(hmac, prk, info, 1) == [] + T(hmac, prk, info, 1);
  }

  lemma {:induction false} TwoBlocks(hmac: Hmac, salt: seq<byte>, ikm: seq<byte>, info: seq<byte>)
    ensures var t := hmac(hmac(salt, ikm), info + [1]);
      Derive(hmac, salt, ikm, info, 2) == t + hmac(hmac(salt, ikm), t + info + [2])
  {
    var prk := hmac(salt, ikm);
    OneBlock(hmac, salt, ikm, info);
    assert T(hmac, prk, info, 0) + info + [1] == info + [1];
    assert T(hmac, prk, info, 1) == hmac(prk, info + [1]);
  }
}
