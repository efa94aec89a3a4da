/** Encrypted lease sets of libdotnet/LeaseSet.cpp: the writer that seals a lease set in two ChaCha20
    layers under a blinded key, and the reader that takes them off again. */
module EncryptedLeaseSet {
  import opened Wrappers
  import opened Bytes
  import C = ChaCha20
  import D = DnnpMessage
  import K = Hkdf

  type Key = K.Key

  /** Hashes, the blinding of libdotnet/Ed25519.cpp and the signature types: sign and verify take
      the type, and keyLength is None for a type without a verifier. */
  datatype Primitives = Primitives(
    sha256: seq<byte> -> Key,
    hmac: (seq<byte>, seq<byte>) -> Key,
    publicKey: Key -> Key,
    blindPublic: (Key, seq<byte>) -> Key,
    blindPrivate: (Key, seq<byte>) -> (Key, Key),
    keyLength: u16 -> Option<nat>,
    signatureLength: u16 -> nat,
    sign: (u16, Key, seq<byte>) -> seq<byte>,
    verify: (u16, seq<byte>, seq<byte>, seq<byte>) -> bool,
    date: u64 -> seq<byte>)

  const EDDSA: u16 := 7
  const REDDSA: u16 := 11
  const STANDARD: byte := 3
  const ENCRYPTED: byte := 5
  const META: byte := 7

  predicate BlindedType(t: u16) {
    t == EDDSA || t == REDDSA
  }

  /** Both blindings of a key pair agree, and a signature under the blinded private key verifies
      under the blinded public one; both are results about libdotnet/Ed25519.cpp. */
  ghost predicate Laws(p: Primitives) {
    && (forall a: Key, seed: seq<byte> {:trigger p.blindPrivate(a, seed)} ::
          p.blindPrivate(a, seed).1 == p.blindPublic(p.publicKey(a), seed))
    && (forall t: u16 {:trigger p.keyLength(t)} :: BlindedType(t) ==> p.keyLength(t) == Some(32) && p.signatureLength(t) == 64)
    && (forall t: u16, a: Key, seed: seq<byte>, m: seq<byte> {:trigger p.sign(t, p.blindPrivate(a, seed).0, m)} :: BlindedType(t) ==>
          |p.sign(t, p.blindPrivate(a, seed).0, m)| == 64
          && p.verify(t, p.blindPrivate(a, seed).1, m, p.sign(t, p.blindPrivate(a, seed).0, m)))
    && (forall ts: u64 {:trigger p.date(ts)} :: |p.date(ts)| == 8)
  }

  lemma SignatureVerifies(p: Primitives, t: u16, a: Key, seed: seq<byte>, m: seq<byte>)
    requires Laws(p) && BlindedType(t)
    ensures p.keyLength(t) == Some(32) && p.signatureLength(t) == 64
    ensures var (priv, pub) := p.blindPrivate(a, seed);
      |p.sign(t, priv, m)| == 64 && p.verify(t, pub, m, p.sign(t, priv, m)) && pub == p.blindPublic(p.publicKey(a), seed)
  {
  }

  // ---------------------------------------------------------------------------------------
  // Key derivation
  // ---------------------------------------------------------------------------------------

  function Ascii(s: string): (b: seq<byte>)
    ensures |b| == |s|
  {
    seq(|s|, i requires 0 <= i < |s| => s[i] as int % 256)
  }

  /** HKDF-SHA256 with 64 bytes of output. */
  function Hkdf(p: Primitives, salt: seq<byte>, ikm: seq<byte>, info: seq<byte>): (out: seq<byte>)
    ensures |out| == 64
  {
    var prk := p.hmac(salt, ikm);
    var t1 := p.hmac(prk, info + [1]);
    t1 + p.hmac(prk, t1 + info + [2])
  }

  /** Two blocks of RFC 5869. */
  lemma HkdfIs(p: Primitives, salt: seq<byte>, ikm: seq<byte>, info: seq<byte>)
    ensures Hkdf(p, salt, ikm, info) == K.Derive(p.hmac, salt, ikm, info, 2)
  {
    hide K.Derive;
    K.TwoBlocks(p.hmac, salt, ikm, info);
  }

  /** The output buffer doubles as the input of both rounds. */
  method HKDF(p: Primitives, salt: seq<byte>, ikm: seq<byte>, info: seq<byte>, out: array<byte>)
    requires out.Length == 64 && |info| < 32
    modifies out
    ensures out[..] == Hkdf(p, salt, ikm, info) == K.Derive(p.hmac, salt, ikm, info, 2)
  {
    hide K.Derive;
    HkdfIs(p, salt, ikm, info);
    var prk := p.hmac(salt, ikm);
    var l := |info|;
    D.Put(out, 0, info + [1]);
    D.Put(out, 0, p.hmac(prk, out[..l + 1]));
    ghost var t1 := p.hmac(prk, info + [1]);
    ghost var b := out[..];
    D.Put(out, 32, info + [2]);
    D.Untouched(b, out[..], 32, l + 1, 0, 32);
    JoinSlice(out[..], 0, 32, l + 33);
    assert out[..l + 33] == t1 + (info + [2]) == t1 + info + [2];
    ghost var c := out[..];
    D.Put(out, 32, p.hmac(prk, out[..l + 33]));
    D.Untouched(c, out[..], 32, 32, 0, 32);
    JoinSlice(out[..], 0, 32, 64);
  }

  /** What the reader of an encrypted lease set knows of its owner. */
  datatype BlindedPublicKey = BlindedPublicKey(publicKey: Key, sigType: u16, blindedSigType: u16)

  function KeyData(k: BlindedPublicKey): seq<byte> {
    k.publicKey + ToBE(k.sigType, 2) + ToBE(k.blindedSigType, 2)
  }

  function Subcredential(p: Primitives, k: BlindedPublicKey, blinded: seq<byte>): Key {
    p.sha256(Ascii("subcredential") + p.sha256(Ascii("credential") + KeyData(k)) + blinded)
  }

  function Alpha(p: Primitives, k: BlindedPublicKey, date: seq<byte>): seq<byte> {
    Hkdf(p, p.sha256(Ascii("DotNetGenerateAlpha") + KeyData(k)), date, Ascii("dotnetblinding1"))
  }

  function BlindedKey(p: Primitives, k: BlindedPublicKey, date: seq<byte>): Key {
    p.blindPublic(k.publicKey, Alpha(p, k, date))
  }

  const CREDENTIAL: seq<byte> := [0x63, 0x72, 0x65, 0x64, 0x65, 0x6e, 0x74, 0x69, 0x61, 0x6c]
  const SUBCREDENTIAL: seq<byte> := [0x73, 0x75, 0x62] + CREDENTIAL
  const GENERATE_ALPHA: seq<byte> := [0x44, 0x6f, 0x74, 0x4e, 0x65, 0x74, 0x47, 0x65, 0x6e, 0x65, 0x72, 0x61, 0x74, 0x65, 0x41, 0x6c, 0x70, 0x68, 0x61]
  const BLINDING: seq<byte> := [0x64, 0x6f, 0x74, 0x6e, 0x65, 0x74, 0x62, 0x6c, 0x69, 0x6e, 0x64, 0x69, 0x6e, 0x67, 0x31]
  const L1K: seq<byte> := [0x45, 0x4c, 0x53, 0x32, 0x5f, 0x4c, 0x31, 0x4b]
  const L2K: seq<byte> := [0x45, 0x4c, 0x53, 0x32, 0x5f, 0x4c, 0x32, 0x4b]

  /** Public key and both types, two bytes each, most significant first. */
  lemma KeyDataIs(k: BlindedPublicKey)
    ensures KeyData(k)
      == k.publicKey + [k.sigType / 256, k.sigType % 256, k.blindedSigType / 256, k.blindedSigType % 256]
  {
    TwoBytes(k.sigType); TwoBytes(k.blindedSigType);
  }

  lemma {:induction false} TwoBytes(n: u16)
    ensures ToBE(n, 2) == [n / 256, n % 256]
  {
    assert ToBE(n / 256, 1) == ToBE(n / 256 / 256, 0) + [n / 256 % 256];
    ModUnique(n / 256, 256, 0, n / 256);
  }

  /** The subcredential is a hash of the key data and the blinded key. */
  lemma SubcredentialIs(p: Primitives, k: BlindedPublicKey, blinded: seq<byte>)
    ensures Subcredential(p, k, blinded) == p.sha256(SUBCREDENTIAL + p.sha256(CREDENTIAL + KeyData(k)) + blinded)
  {
    assert Ascii("subcredential") == SUBCREDENTIAL && Ascii("credential") == CREDENTIAL;
  }

  /** The blinding seed of a day is 64 bytes of HKDF from the date, salted with a hash of the key data. */
  lemma AlphaIs(p: Primitives, k: BlindedPublicKey, date: seq<byte>)
    ensures Alpha(p, k, date) == K.Derive(p.hmac, p.sha256(GENERATE_ALPHA + KeyData(k)), date, BLINDING, 2)
  {
    hide K.Derive;
    assert Ascii("DotNetGenerateAlpha") == GENERATE_ALPHA && Ascii("dotnetblinding1") == BLINDING;
    HkdfIs(p, p.sha256(GENERATE_ALPHA + KeyData(k)), date, BLINDING);
  }

  // ---------------------------------------------------------------------------------------
  // The two layers
  // ---------------------------------------------------------------------------------------

  /** ChaCha20 from block 1 under the first 44 of 64 derived bytes. */
  function Layer(keys: seq<byte>, m: seq<byte>): (c: seq<byte>)
    requires |keys| == 64
    ensures |c| == |m|
  {
    C.Crypt(C.InitState(keys[..32], keys[32..44], 1), 0, m)
  }

  lemma LayerTwice(keys: seq<byte>, m: seq<byte>)
    requires |keys| == 64
    ensures Layer(keys, Layer(keys, m)) == m
  {
    C.CryptInvolutive(C.InitState(keys[..32], keys[32..44], 1), 0, m);
  }

  function SealedLayers(p: Primitives, input: seq<byte>, outerSalt: Key, innerSalt: Key, inner: seq<byte>): (c: seq<byte>)
    ensures |c| == |inner| + 65
  {
    outerSalt + Layer(Hkdf(p, outerSalt, input, Ascii("ELS2_L1K")),
      [0] + (innerSalt + Layer(Hkdf(p, innerSalt, input, Ascii("ELS2_L2K")), inner)))
  }

  function OpenedLayers(p: Primitives, input: seq<byte>, c: seq<byte>): (inner: seq<byte>)
    requires |c| >= 65
    ensures |inner| == |c| - 65
  {
    var outer := Layer(Hkdf(p, c[..32], input, Ascii("ELS2_L1K")), c[32..]);
    Layer(Hkdf(p, outer[1..33], input, Ascii("ELS2_L2K")), outer[33..])
  }

  lemma LayersOpen(p: Primitives, input: seq<byte>, outerSalt: Key, innerSalt: Key, inner: seq<byte>)
    ensures OpenedLayers(p, input, SealedLayers(p, input, outerSalt, innerSalt, inner)) == inner
  {
    hide Layer, Hkdf, Ascii;
    var k1, k2 := Hkdf(p, outerSalt, input, Ascii("ELS2_L1K")), Hkdf(p, innerSalt, input, Ascii("ELS2_L2K"));
    var outer := [0] + (innerSalt + Layer(k2, inner));
    var c := SealedLayers(p, input, outerSalt, innerSalt, inner);
    assert c[..32] == outerSalt && c[32..] == Layer(k1, outer);
    LayerTwice(k1, outer);
    assert outer[1..33] == innerSalt && outer[33..] == Layer(k2, inner);
    LayerTwice(k2, inner);
  }

  /** One layer, in place. */
  method ChaCha20(mem: array<byte>, at: nat, n: nat, keys: array<byte>)
    requires at + n <= mem.Length && keys.Length == 64 && keys != mem
    modifies mem
    ensures mem[at..at + n] == Layer(keys[..], old(mem[at..at + n]))
    ensures mem[..at] == old(mem[..at]) && mem[at + n..] == old(mem[at + n..])
  {
    hide C.Chacha20State.Valid, C.Crypt, C.InitState;
    assert keys[..][..32] == keys[..32] && keys[..][32..44] == keys[32..44];
    var state := new C.Chacha20State(keys[..32], keys[32..44], 1);
    state.Encrypt(mem, at, n);
  }

  /** Salt, then flag, inner salt and plaintext, then the two layers over each other. */
  method WriteLayers(p: Primitives, mem: array<byte>, at: nat, input: seq<byte>, outerSalt: Key, innerSalt: Key, inner: seq<byte>)
    requires at + 65 + |inner| <= mem.Length
    modifies mem
    ensures mem[at..at + 65 + |inner|] == SealedLayers(p, input, outerSalt, innerSalt, inner)
    ensures mem[..at] == old(mem[..at]) && mem[at + 65 + |inner|..] == old(mem[at + 65 + |inner|..])
  {
    hide Layer, Hkdf, Ascii, SealedLayers, K.Derive;
    var n := |inner|;
    ghost var b0 := mem[..];
    D.Put(mem, at, outerSalt);
    ghost var b1 := mem[..];
    var keys1 := new byte[64](_ => 0);
    HKDF(p, outerSalt, input, Ascii("ELS2_L1K"), keys1);
    D.Put(mem, at + 32, [0] + innerSalt + inner);
    ghost var b2 := mem[..];
    var keys2 := new byte[64](_ => 0);
    HKDF(p, innerSalt, input, Ascii("ELS2_L2K"), keys2);
    PlainInPlace(b1, b2, at, n, innerSalt, inner);
    ChaCha20(mem, at + 65, n, keys2);
    ghost var b3 := mem[..];
    ChaCha20(mem, at + 32, 33 + n, keys1);
    SealedIs(p, input, outerSalt, innerSalt, inner);
    LayersInPlace(b0, b1, b2, b3, mem[..], at, n);
  }

  /** Both layers are ChaCha20 from block 1, under key and nonce taken from HKDF outputs for their own salts;
      the inner one covers the set, the outer one a zero flag, the inner salt and the inner layer. */
  lemma LayersAre(p: Primitives, input: seq<byte>, outerSalt: Key, innerSalt: Key, inner: seq<byte>)
    ensures var k1, k2 := K.Derive(p.hmac, outerSalt, input, L1K, 2), K.Derive(p.hmac, innerSalt, input, L2K, 2);
      && |k1| == |k2| == 64
      && SealedLayers(p, input, outerSalt, innerSalt, inner)
         == outerSalt + C.Crypt(C.InitState(k1[..32], k1[32..44], 1), 0,
              [0] + innerSalt + C.Crypt(C.InitState(k2[..32], k2[32..44], 1), 0, inner))
  {
    hide K.Derive, Hkdf, C.Crypt, C.InitState;
    assert Ascii("ELS2_L1K") == L1K && Ascii("ELS2_L2K") == L2K;
    HkdfIs(p, outerSalt, input, L1K); HkdfIs(p, innerSalt, input, L2K);
    SealedIs(p, input, outerSalt, innerSalt, inner);
  }

  lemma SealedIs(p: Primitives, input: seq<byte>, outerSalt: Key, innerSalt: Key, inner: seq<byte>)
    ensures SealedLayers(p, input, outerSalt, innerSalt, inner)
      == outerSalt + Layer(Hkdf(p, outerSalt, input, Ascii("ELS2_L1K")),
           [0] + innerSalt + Layer(Hkdf(p, innerSalt, input, Ascii("ELS2_L2K")), inner))
  {
    hide Layer, Hkdf, Ascii;
    var l := Layer(Hkdf(p, innerSalt, input, Ascii("ELS2_L2K")), inner);
    assert [0] + innerSalt + l == [0] + (innerSalt + l);
  }

  lemma PlainInPlace(b1: seq<byte>, b2: seq<byte>, at: nat, n: nat, innerSalt: Key, inner: seq<byte>)
    requires |b1| == |b2| && at + 65 + n <= |b1| && n == |inner|
    requires b2[at + 32..at + 65 + n] == [0] + innerSalt + inner
    ensures b2[at + 65..at + 65 + n] == inner && b2[at + 32..at + 65] == [0] + innerSalt
  {
    var x := b2[at + 32..at + 65 + n];
    assert x[33..] == inner && x[..33] == [0] + innerSalt;
    SubSlice(b2, at + 32, at + 65 + n, 33, 33 + n);
    SubSlice(b2, at + 32, at + 65 + n, 0, 33);
  }

  lemma LayersInPlace(b0: seq<byte>, b1: seq<byte>, b2: seq<byte>, b3: seq<byte>, b4: seq<byte>, at: nat, n: nat)
    requires |b0| == |b1| == |b2| == |b3| == |b4| && at + 65 + n <= |b0|
    requires b1[..at] == b0[..at] && b1[at + 32..] == b0[at + 32..]
    requires b2[..at + 32] == b1[..at + 32] && b2[at + 65 + n..] == b1[at + 65 + n..]
    requires b3[..at + 65] == b2[..at + 65] && b3[at + 65 + n..] == b2[at + 65 + n..]
    requires b4[..at + 32] == b3[..at + 32] && b4[at + 65 + n..] == b3[at + 65 + n..]
    ensures b3[at + 32..at + 65 + n] == b2[at + 32..at + 65] + b3[at + 65..at + 65 + n]
    ensures b4[at..at + 65 + n] == b1[at..at + 32] + b4[at + 32..at + 65 + n]
    ensures b4[..at] == b0[..at] && b4[at + 65 + n..] == b0[at + 65 + n..]
  {
    TakeSlice(b3, at + 65, at + 32, at + 65); TakeSlice(b2, at + 65, at + 32, at + 65);
    JoinSlice(b3, at + 32, at + 65, at + 65 + n);
    TakeSlice(b3, at + 65, 0, at + 32); TakeSlice(b2, at + 65, 0, at + 32);
    TakeSlice(b4, at + 32, at, at + 32); TakeSlice(b1, at + 32, at, at + 32);
    TakeSlice(b4, at + 32, 0, at); TakeSlice(b1, at + 32, 0, at);
    JoinSlice(b4, at, at + 32, at + 65 + n);
    DropDrop(b1, at + 32, 33 + n); DropDrop(b0, at + 32, 33 + n);
  }

  // ---------------------------------------------------------------------------------------
  // The writer
  // ---------------------------------------------------------------------------------------

  function Header(blindedType: u16, blinded: Key, published: u64, expires: u16, lenOuter: nat): (h: seq<byte>)
    ensures |h| == 44
  {
    ToBE(blindedType, 2) + blinded + ToBE(published % 0x1_0000_0000, 4) + ToBE(expires, 2) + ToBE(0, 2) + ToBE(lenOuter % 0x1_0000, 2)
  }

  /** Seconds: the inner expiration, but not past midnight, when the blinded key changes. */
  function ExpirationTime(published: u64, innerMillis: u64): nat {
    var nextMidnight := (published / 86400 + 1) * 86400;
    if innerMillis / 1000 > nextMidnight then nextMidnight else innerMillis / 1000
  }

  /** The end of the day is the first midnight after publication; the earlier of the two counts. */
  lemma ExpirationTimeIs(published: u64, innerMillis: u64, midnight: nat)
    requires midnight % 86400 == 0 && published < midnight <= published + 86400
    ensures ExpirationTime(published, innerMillis) == if innerMillis / 1000 <= midnight then innerMillis / 1000 else midnight
  {
    ModUnique(published, 86400, midnight / 86400 - 1, published - (midnight - 86400));
  }

  function Expires(published: u64, innerMillis: u64): u16 {
    var e := ExpirationTime(published, innerMillis);
    if e > published then (e - published) % 0x1_0000 else 0
  }

  /** The local side: the inner lease set with its store type, the owner's key pair and type. */
  datatype Local = Local(storeType: byte, inner: seq<byte>, innerMillis: u64, priv: Key, sigType: u16)

  function Blinding(p: Primitives, l: Local): BlindedPublicKey {
    BlindedPublicKey(p.publicKey(l.priv), l.sigType, REDDSA)
  }

  /** The input of both derivations: subcredential and published timestamp. */
  function Input(p: Primitives, k: BlindedPublicKey, blinded: seq<byte>, published: u64): seq<byte> {
    Subcredential(p, k, blinded) + ToBE(published % 0x1_0000_0000, 4)
  }

  /** Store type, header and both layers: what is signed. */
  function Unsigned(p: Primitives, l: Local, blindedType: u16, published: u64, outerSalt: Key, innerSalt: Key): seq<byte> {
    var k := Blinding(p, l);
    var blinded := p.blindPrivate(l.priv, Alpha(p, k, p.date(published))).1;
    [ENCRYPTED] + Header(blindedType, blinded, published, Expires(published, l.innerMillis), |l.inner| + 66)
      + SealedLayers(p, Input(p, k, blinded, published), outerSalt, innerSalt, [l.storeType] + l.inner)
  }

  function Signature(p: Primitives, l: Local, blindedType: u16, published: u64, outerSalt: Key, innerSalt: Key): seq<byte> {
    var blindedPriv := p.blindPrivate(l.priv, Alpha(p, Blinding(p, l), p.date(published))).0;
    p.sign(blindedType, blindedPriv, Unsigned(p, l, blindedType, published, outerSalt, innerSalt))
  }

  /** LocalEncryptedLeaseSet2; the salts stand for the random generator. */
  method Write(p: Primitives, l: Local, blindedType: u16, published: u64, outerSalt: Key, innerSalt: Key) returns (buf: array<byte>)
    requires Laws(p) && BlindedType(blindedType)
    ensures fresh(buf)
    ensures buf[..] == Unsigned(p, l, blindedType, published, outerSalt, innerSalt)
      + Signature(p, l, blindedType, published, outerSalt, innerSalt)
  {
    hide Layer, Hkdf, Ascii, Header, SealedLayers, Alpha, Subcredential, ToBE, Expires, Laws;
    var lenInner := |l.inner| + 1;
    var lenOuter := lenInner + 33 + 32;
    buf := new byte[1 + 44 + lenOuter + 64](_ => 0);
    var k := Blinding(p, l);
    var (blindedPriv, blinded) := p.blindPrivate(l.priv, Alpha(p, k, p.date(published)));
    D.Put(buf, 0, [ENCRYPTED] + Header(blindedType, blinded, published, Expires(published, l.innerMillis), lenOuter));
    ghost var b1 := buf[..];
    WriteLayers(p, buf, 45, Input(p, k, blinded, published), outerSalt, innerSalt, [l.storeType] + l.inner);
    ghost var b2 := buf[..];
    var at := 45 + lenOuter;
    Unslice(b1, b2, lenOuter);
    assert buf[..at] == Unsigned(p, l, blindedType, published, outerSalt, innerSalt);
    SignatureVerifies(p, blindedType, l.priv, Alpha(p, k, p.date(published)), buf[..at]);
    var signature := p.sign(blindedType, blindedPriv, buf[..at]);
    D.Put(buf, at, signature);
    assert buf[..] == buf[..at] + buf[at..at + 64];
  }

  lemma Unslice(b1: seq<byte>, b2: seq<byte>, n: nat)
    requires |b1| == |b2| && 45 + n <= |b1| && b2[..45] == b1[..45]
    ensures b2[..45 + n] == b1[0..45] + b2[45..45 + n]
  {
    JoinSlice(b2, 0, 45, 45 + n);
  }

  // ---------------------------------------------------------------------------------------
  // The reader
  // ---------------------------------------------------------------------------------------

  function Field16(s: seq<byte>): (n: u16)
    requires |s| == 2
  {
    D.Field16(s)
  }

  /** What a signature is checked with. */
  datatype Verifier = Verifier(keyType: u16, key: seq<byte>)

  predicate Verifies(p: Primitives, v: Verifier, m: seq<byte>, buf: seq<byte>, at: nat) {
    at + p.signatureLength(v.keyType) <= |buf| && p.verify(v.keyType, v.key, m, buf[at..at + p.signatureLength(v.keyType)])
  }

  /** The fields before the ciphertext, and where they end. */
  datatype Fixed = Fixed(blinded: Verifier, published: u32, expires: u16, flags: u16, size: nat)

  /** buf starts behind the store type. */
  function ParseFixed(p: Primitives, buf: seq<byte>): (f: Option<Fixed>)
    ensures f.Some? ==> f.value.size < |buf|
  {
    if |buf| < 2 then None
    else
      var t := Field16(buf[..2]);
      var length := p.keyLength(t);
      if length.None? || 2 + length.value + 8 >= |buf| then None
      else
        var o := 2 + length.value;
        Some(Fixed(Verifier(t, buf[2..o]), D.Field32(buf[o..o + 4]), Field16(buf[o + 4..o + 6]), Field16(buf[o + 6..o + 8]), o + 8))
  }

  /** ProcessOfflineSignature: a transient key that has not expired, signed with the blinded one,
      and where it ends. */
  function Offline(p: Primitives, v: Verifier, buf: seq<byte>, at: nat, now: nat): (r: Option<(Verifier, nat)>)
    ensures r.Some? ==> r.value.1 < |buf|
  {
    if at + 6 >= |buf| || D.Field32(buf[at..at + 4]) < now then None
    else
      var t := Field16(buf[at + 4..at + 6]);
      var length := p.keyLength(t);
      if length.None? || at + 6 + length.value >= |buf| then None
      else
        var o := at + 6 + length.value;
        if o + p.signatureLength(v.keyType) >= |buf| || !Verifies(p, v, buf[at..o], buf, o) then None
        else Some((Verifier(t, buf[at + 6..o]), o + p.signatureLength(v.keyType)))
  }

  /** The transient key, where the flags announce one. */
  function Transient(p: Primitives, f: Fixed, buf: seq<byte>, now: nat): (r: Option<(Verifier, nat)>)
    ensures r.Some? ==> r.value.1 < |buf|
  {
    if f.flags % 2 == 1 then Offline(p, f.blinded, buf, f.size, now) else None
  }

  /** What of an encrypted lease set can be read without a key. */
  datatype Outer = Outer(blinded: Verifier, published: u32, expires: u16, cipher: seq<byte>)

  /** None also when the signature is wrong. */
  function ParseOuter(p: Primitives, buf: seq<byte>, now: nat): Option<Outer> {
    var fixed := ParseFixed(p, buf);
    if fixed.None? then None
    else
      var f := fixed.value;
      var transient := Transient(p, f, buf, now);
      if f.flags % 2 == 1 && transient.None? then None
      else
        var (v, o) := if transient.Some? then transient.value else (f.blinded, f.size);
        if o + 2 > |buf| then None
        else
          var n := Field16(buf[o..o + 2]);
          var end := o + 2 + n;
          if end > |buf| || !Verifies(p, v, [ENCRYPTED] + buf[..end], buf, end) then None
          else Some(Outer(f.blinded, f.published, f.expires, buf[o + 2..end]))
  }

  /** ReadFromBufferEncrypted with a key: the inner store type and bytes. */
  function ParseInner(p: Primitives, buf: seq<byte>, k: BlindedPublicKey, now: nat): Option<(byte, seq<byte>)> {
    var outer := ParseOuter(p, buf, now);
    if outer.None? || |outer.value.cipher| < 66 then None
    else
      var o := outer.value;
      if o.blinded.keyType == REDDSA && o.blinded.key != BlindedKey(p, k, p.date(o.published)) then None
      else
        var inner := OpenedLayers(p, Input(p, k, o.blinded.key, o.published), o.cipher);
        if inner[0] == STANDARD || inner[0] == META then Some((inner[0], inner[1..])) else None
  }

  // ---------------------------------------------------------------------------------------
  // Reading what was written
  // ---------------------------------------------------------------------------------------

  lemma HeaderParses(t: u16, blinded: Key, published: u64, expires: u16, lenOuter: u16, rest: seq<byte>)
    requires published < 0x1_0000_0000
    ensures var b := Header(t, blinded, published, expires, lenOuter) + rest;
      && Field16(b[..2]) == t && b[2..34] == blinded && D.Field32(b[34..38]) == published && Field16(b[38..40]) == expires
      && Field16(b[40..42]) == 0 && Field16(b[42..44]) == lenOuter && b[44..] == rest
  {
    hide ToBE, D.Field32, D.Field16;
    ModUnique(published, 0x1_0000_0000, 0, published); ModUnique(lenOuter, 0x1_0000, 0, lenOuter);
    D.Field16ToBE(t); D.Field16ToBE(expires); D.Field16ToBE(0); D.Field16ToBE(lenOuter); D.Field32ToBE(published);
    SixParts(ToBE(t, 2), blinded, ToBE(published, 4), ToBE(expires, 2), ToBE(0, 2), ToBE(lenOuter, 2), rest);
  }

  lemma SixParts(a: seq<byte>, b: seq<byte>, c: seq<byte>, d: seq<byte>, e: seq<byte>, f: seq<byte>, rest: seq<byte>)
    requires |a| == 2 && |b| == 32 && |c| == 4 && |d| == |e| == |f| == 2
    ensures var s := a + b + c + d + e + f + rest;
      s[..2] == a && s[2..34] == b && s[34..38] == c && s[38..40] == d && s[40..42] == e && s[42..44] == f && s[44..] == rest
  {
  }

  /** The written set reads back as an outer layer whose signature is good. */
  lemma OuterParses(p: Primitives, l: Local, blindedType: u16, published: u64, outerSalt: Key, innerSalt: Key, now: nat)
    requires Laws(p) && BlindedType(blindedType) && published < 0x1_0000_0000 && |l.inner| + 66 < 0x1_0000
    ensures var buf := Unsigned(p, l, blindedType, published, outerSalt, innerSalt) + Signature(p, l, blindedType, published, outerSalt, innerSalt);
      var blinded := p.blindPrivate(l.priv, Alpha(p, Blinding(p, l), p.date(published))).1;
      ParseOuter(p, buf[1..], now) == Some(Outer(Verifier(blindedType, blinded), published, Expires(published, l.innerMillis),
        SealedLayers(p, Input(p, Blinding(p, l), blinded, published), outerSalt, innerSalt, [l.storeType] + l.inner)))
  {
    hide Header, SealedLayers, Alpha, Input, Expires, Laws, D.Field16, D.Field32;
    var k := Blinding(p, l);
    var seed := Alpha(p, k, p.date(published));
    var blinded := p.blindPrivate(l.priv, seed).1;
    var unsigned := Unsigned(p, l, blindedType, published, outerSalt, innerSalt);
    var signature := Signature(p, l, blindedType, published, outerSalt, innerSalt);
    SignatureVerifies(p, blindedType, l.priv, seed, unsigned);
    var cipher := SealedLayers(p, Input(p, k, blinded, published), outerSalt, innerSalt, [l.storeType] + l.inner);
    var n := |l.inner| + 66;
    var header := Header(blindedType, blinded, published, Expires(published, l.innerMillis), n);
    HeaderParses(blindedType, blinded, published, Expires(published, l.innerMillis), n, cipher + signature);
    var buf := header + (cipher + signature);
    Written(header, cipher, signature);
    assert (unsigned + signature)[1..] == buf;
    assert [ENCRYPTED] + buf[..44 + n] == unsigned;
  }

  lemma Written(header: seq<byte>, cipher: seq<byte>, signature: seq<byte>)
    requires |header| == 44 && |signature| == 64
    ensures var buf := header + (cipher + signature); var end := 44 + |cipher|;
      && buf[..end] == header + cipher && buf[44..end] == cipher && buf[end..end + 64] == signature && |buf| == end + 64
      && ([ENCRYPTED] + header + cipher + signature)[1..] == buf && [ENCRYPTED] + (header + cipher) == [ENCRYPTED] + header + cipher
  {
  }

  /** A holder of the owner's blinding data gets back exactly the inner store type and bytes, if
      that is a type the reader knows, and nothing otherwise. */
  lemma InnerRecovered(p: Primitives, l: Local, blindedType: u16, published: u64, outerSalt: Key, innerSalt: Key, now: nat)
    requires Laws(p) && BlindedType(blindedType) && published < 0x1_0000_0000 && |l.inner| + 66 < 0x1_0000
    ensures var buf := Unsigned(p, l, blindedType, published, outerSalt, innerSalt) + Signature(p, l, blindedType, published, outerSalt, innerSalt);
      ParseInner(p, buf[1..], Blinding(p, l), now)
      == if l.storeType == STANDARD || l.storeType == META then Some((l.storeType, l.inner)) else None
  {
    hide Header, SealedLayers, OpenedLayers, Alpha, Input, Expires, ParseOuter, Unsigned, Signature;
    var k := Blinding(p, l);
    var seed := Alpha(p, k, p.date(published));
    var blinded := p.blindPrivate(l.priv, seed).1;
    OuterParses(p, l, blindedType, published, outerSalt, innerSalt, now);
    assert blinded == BlindedKey(p, k, p.date(published));
    hide Laws;
    var inner := [l.storeType] + l.inner;
    LayersOpen(p, Input(p, k, blinded, published), outerSalt, innerSalt, inner);
    assert inner[1..] == l.inner;
  }

  /** With the default blinded type, a key whose blinding for that day differs gets nothing. */
  lemma WrongKeyRefused(p: Primitives, l: Local, published: u64, outerSalt: Key, innerSalt: Key, k: BlindedPublicKey, now: nat)
    requires Laws(p) && published < 0x1_0000_0000 && |l.inner| + 66 < 0x1_0000
    requires BlindedKey(p, k, p.date(published)) != BlindedKey(p, Blinding(p, l), p.date(published))
    ensures var buf := Unsigned(p, l, REDDSA, published, outerSalt, innerSalt) + Signature(p, l, REDDSA, published, outerSalt, innerSalt);
      ParseInner(p, buf[1..], k, now) == None
  {
    hide Header, SealedLayers, OpenedLayers, Alpha, Input, Expires, ParseOuter, Unsigned, Signature;
    var seed := Alpha(p, Blinding(p, l), p.date(published));
    OuterParses(p, l, REDDSA, published, outerSalt, innerSalt, now);
    assert p.blindPrivate(l.priv, seed).1 == BlindedKey(p, Blinding(p, l), p.date(published));
  }

  /** Both sides work out the same expiration exactly when the inner set expires no earlier than it is
      published and less than 65536 seconds later; the writer's cap at midnight alone allows 86400. */
  lemma ExpirationAgrees(published: u64, innerMillis: u64)
    ensures published + Expires(published, innerMillis) == ExpirationTime(published, innerMillis)
      <==> published <= ExpirationTime(published, innerMillis) < published + 0x1_0000
  {
    var d := ExpirationTime(published, innerMillis) - published;
    if 0 <= d < 0x1_0000 {
      ModUnique(d, 0x1_0000, 0, d);
    }
  }

  /** Published at midnight and valid for 70000 seconds, it reads back 65536 seconds too early. */
  lemma ExpirationDiffers()
    ensures var published, innerMillis: u64 := 18000 * 86400, (18000 * 86400 + 70000) * 1000;
      published + Expires(published, innerMillis) == ExpirationTime(published, innerMillis) - 0x1_0000
  {
    var published, innerMillis: u64 := 18000 * 86400, (18000 * 86400 + 70000) * 1000;
    assert published / 86400 == 18000;
    assert ExpirationTime(published, innerMillis) == published + 70000;
  }

  class LeaseSet2 {
    var storeType: byte
    var isValid: bool
    var publishedTimestamp: u32
    var expirationTime: nat
    var transientVerifier: Option<Verifier>
    var buffer: seq<byte>

    constructor ()
      ensures storeType == ENCRYPTED && !isValid && transientVerifier.None? && buffer == []
    {
      storeType, isValid, publishedTimestamp, expirationTime, transientVerifier, buffer := ENCRYPTED, false, 0, 0, None, [];
    }

    /** With a key the set stays invalid until the inner layer has been verified; the store type and
        the buffer become those of the inner set. */
    method ReadFromBufferEncrypted(p: Primitives, buf: seq<byte>, key: Option<BlindedPublicKey>, now: nat)
      requires storeType == ENCRYPTED && !isValid && transientVerifier.None?
      modifies this
      ensures var fixed := ParseFixed(p, buf);
        if fixed.None? then unchanged(this)
        else
          && publishedTimestamp == fixed.value.published
          && expirationTime == (fixed.value.published + fixed.value.expires) % 0x1_0000_0000 * 1000
          && var transient := Transient(p, fixed.value, buf, now);
             transientVerifier == if transient.Some? then Some(transient.value.0) else None
      ensures var outer := ParseOuter(p, buf, now);
        && (outer.Some? ==> publishedTimestamp == outer.value.published)
        && (isValid <==> outer.Some? && (key.None? || |outer.value.cipher| < 32))
        && var inner := if key.Some? then ParseInner(p, buf, key.value, now) else None;
           if inner.Some? then (storeType, buffer) == inner.value else storeType == ENCRYPTED && buffer == old(buffer)
    {
      hide ParseFixed, Offline, Verifies, OpenedLayers, Input, Alpha;
      var fixed := ParseFixed(p, buf);
      if fixed.None? { return; }
      var f := fixed.value;
      var offset := f.size;
      publishedTimestamp := f.published;
      expirationTime := (f.published + f.expires) % 0x1_0000_0000 * 1000;
      if f.flags % 2 == 1 {
        var offline := Offline(p, f.blinded, buf, offset, now);
        if offline.None? { return; }
        transientVerifier, offset := Some(offline.value.0), offline.value.1;
      }
      if offset + 2 > |buf| { return; }
      var lenOuterCiphertext := Field16(buf[offset..offset + 2]);
      offset := offset + 2;
      var outerCiphertext := offset;
      offset := offset + lenOuterCiphertext;
      if offset > |buf| { return; }
      var v := if transientVerifier.Some? then transientVerifier.value else f.blinded;
      var verified := Verifies(p, v, [ENCRYPTED] + buf[..offset], buf, offset);
      isValid := verified;
      if verified && key.Some? && lenOuterCiphertext >= 32 {
        isValid := false;
        if f.blinded.keyType == REDDSA && f.blinded.key != BlindedKey(p, key.value, p.date(f.published)) { return; }
        if lenOuterCiphertext < 66 { return; }
        var inner := OpenedLayers(p, Input(p, key.value, f.blinded.key, f.published), buf[outerCiphertext..offset]);
        if inner[0] == STANDARD || inner[0] == META {
          storeType, buffer := inner[0], inner[1..];
        }
      }
    }
  }

  lemma UnsignedStarts(p: Primitives, l: Local, blindedType: u16, published: u64, outerSalt: Key, innerSalt: Key)
    ensures |Unsigned(p, l, blindedType, published, outerSalt, innerSalt)| >= 1
  {
    hide Header, SealedLayers;
  }

  /** From the writer's buffer to the reader's. */
  method Publish(p: Primitives, l: Local, published: u64, outerSalt: Key, innerSalt: Key, now: nat) returns (ls: LeaseSet2)
    requires Laws(p) && published < 0x1_0000_0000 && |l.inner| + 66 < 0x1_0000
    requires l.storeType == STANDARD || l.storeType == META
    ensures ls.storeType == l.storeType && ls.buffer == l.inner && ls.publishedTimestamp == published
  {
    hide Unsigned, Signature, ParseInner, ParseOuter, Laws, Alpha;
    var buf := Write(p, l, REDDSA, published, outerSalt, innerSalt);
    OuterParses(p, l, REDDSA, published, outerSalt, innerSalt, now);
    InnerRecovered(p, l, REDDSA, published, outerSalt, innerSalt, now);
    ls := new LeaseSet2();
    UnsignedStarts(p, l, REDDSA, published, outerSalt, innerSalt);
    assert buf[..][1..] == buf[1..];
    ls.ReadFromBufferEncrypted(p, buf[1..], Some(Blinding(p, l)), now);
  }
}
