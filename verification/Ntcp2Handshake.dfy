/** The NTCP2 handshake of libdotnet/NTCP2.cpp, a Noise XK exchange with an obfuscated ephemeral
    key and hashed padding: both establishers as they fill and read the three messages, against
    the symmetric state of the Noise Protocol Framework (revision 34, sections 5.2 and 7.5). */
module Ntcp2Handshake {
  import opened Wrappers
  import opened Bytes
  import opened Cbc
  import Aead
  import K = Hkdf

  type Key = K.Key

  datatype Primitives = Primitives(
    sha256: seq<byte> -> Key,
    hmac: (seq<byte>, seq<byte>) -> Key,   // key, text
    aes: Aes,
    dh: (Key, Key) -> Key,                 // private, public
    pub: Key -> Key)

  /** X25519 agrees, and AES decryption inverts encryption. */
  ghost predicate Laws(p: Primitives) {
    && Permutation(p.aes)
    && forall a: Key, b: Key {:trigger p.dh(a, p.pub(b))} :: p.dh(a, p.pub(b)) == p.dh(b, p.pub(a))
  }

  lemma Agree(p: Primitives, a: Key, b: Key)
    requires Laws(p)
    ensures p.dh(a, p.pub(b)) == p.dh(b, p.pub(a))
  {
  }

  // ---------------------------------------------------------------------------------------
  // Noise
  // ---------------------------------------------------------------------------------------

  /** The symmetric state: handshake hash, chaining key, cipher key and its message counter. */
  datatype Symmetric = Symmetric(h: Key, ck: Key, k: Key, n: nat)

  // SHA256("Noise_XKaesobfse+hs2+hs3_25519_ChaChaPoly_SHA256") and the SHA256 of that
  const PROTOCOL_NAME_HASH: Key := ToBE(0x72e842c545e18080d39c4493bb91d7edf228981771218c1f624e206f28d32f71, 32)
  const HH: Key := ToBE(0x49ff483fc404b9b26b11943672ff05b561270331ba89b8fc3315938757dd3d1e, 32)

  function NoiseHash(p: Primitives, s: Symmetric, data: seq<byte>): Symmetric {
    s.(h := p.sha256(s.h + data))
  }

  function NoiseKey(p: Primitives, s: Symmetric, ikm: Key): Symmetric {
    var temp := p.hmac(s.ck, ikm);
    var ck := p.hmac(temp, [1]);
    Symmetric(s.h, ck, p.hmac(temp, ck + [2]), 0)
  }

  /** MixKey (section 5.2 of the Noise framework) is an HKDF with the chaining key as salt and the secret
      as key material; chaining key and cipher key are its two halves. */
  lemma NoiseKeyIs(p: Primitives, s: Symmetric, ikm: Key)
    ensures var r := NoiseKey(p, s, ikm); r.ck + r.k == K.Derive(p.hmac, s.ck, ikm, [], 2) && r.h == s.h && r.n == 0
  {
    Halves(p, s.ck, ikm);
  }

  lemma Halves(p: Primitives, salt: seq<byte>, ikm: seq<byte>)
    ensures var t := p.hmac(p.hmac(salt, ikm), [1]);
      t + p.hmac(p.hmac(salt, ikm), t + [2]) == K.Derive(p.hmac, salt, ikm, [], 2)
  {
    hide K.Derive;
    K.TwoBlocks(p.hmac, salt, ikm, []);
    var t := p.hmac(p.hmac(salt, ikm), [1]);
    assert [] + [1] == [1] && t + [] + [2] == t + [2];
  }

  function Nonce(n: nat): (nonce: seq<byte>)
    ensures |nonce| == 12
  {
    Zeros(4) + ToLE(n, 8)
  }

  function Sealed(s: Symmetric, plaintext: seq<byte>): (c: seq<byte>)
    ensures |c| == |plaintext| + 16
  {
    Aead.Seal(s.k, Nonce(s.n), s.h, plaintext)
  }

  /** EncryptAndHash: the ciphertext becomes part of the hash. */
  function NoiseEncrypt(p: Primitives, s: Symmetric, plaintext: seq<byte>): Symmetric {
    NoiseHash(p, s, Sealed(s, plaintext)).(n := s.n + 1)
  }

  /** NTCP2 authenticates the padding of messages 1 and 2 by hashing it when there is any. */
  function NoisePadding(p: Primitives, s: Symmetric, padding: seq<byte>): Symmetric {
    if padding == [] then s else NoiseHash(p, s, padding)
  }

  function Start(): Symmetric {
    Symmetric(HH, PROTOCOL_NAME_HASH, Zeros(32), 0)
  }

  /** <- s, then -> e, es: the state that seals the options of message 1. */
  function Request(p: Primitives, rs: Key, e: Key, es: Key): Symmetric {
    NoiseKey(p, NoiseHash(p, NoiseHash(p, Start(), rs), e), es)
  }

  /** <- e, ee: the state that seals the options of message 2. */
  function Created(p: Primitives, s: Symmetric, options: seq<byte>, padding: seq<byte>, e: Key, ee: Key): Symmetric {
    NoiseKey(p, NoiseHash(p, NoisePadding(p, NoiseEncrypt(p, s, options), padding), e), ee)
  }

  /** -> s: the state that seals the static key at the start of message 3. */
  function Confirmed1(p: Primitives, s: Symmetric, options: seq<byte>, padding: seq<byte>): Symmetric {
    NoisePadding(p, NoiseEncrypt(p, s, options), padding)
  }

  /** se: the state that seals the payload of message 3. */
  function Confirmed2(p: Primitives, s: Symmetric, staticKey: Key, se: Key): Symmetric {
    NoiseKey(p, NoiseEncrypt(p, s, staticKey), se)
  }

  // ---------------------------------------------------------------------------------------
  // Options and the clock
  // ---------------------------------------------------------------------------------------

  const NTCP2_CLOCK_SKEW := 60
  const MAX_PADDING := 287 - 64

  function RequestOptions(padding: u16, m3p2Len: u16, ts: u64): (o: seq<byte>)
    ensures |o| == 16
  {
    [0, 2] + ToBE(padding, 2) + ToBE(m3p2Len, 2) + [0, 0] + ToBE(Seconds32(ts), 4) + Zeros(4)
  }

  function CreatedOptions(padding: u16, ts: u64): (o: seq<byte>)
    ensures |o| == 16
  {
    [0, 0] + ToBE(padding, 2) + Zeros(4) + ToBE(Seconds32(ts), 4) + Zeros(4)
  }

  lemma OptionsFields(padding: u16, m3p2Len: u16, ts: u64)
    ensures var o := RequestOptions(padding, m3p2Len, ts);
      o[1] == 2 && BE(o[2..4]) == padding && BE(o[4..6]) == m3p2Len && BE(o[8..12]) == Seconds32(ts)
    ensures var o := RequestOptions(padding, m3p2Len, ts); o[0] == 0 && o[6..8] == [0, 0] && o[12..] == Zeros(4)
    ensures var o := CreatedOptions(padding, ts); BE(o[2..4]) == padding && BE(o[8..12]) == Seconds32(ts)
    ensures var o := CreatedOptions(padding, ts); o[..2] == [0, 0] && o[4..8] == Zeros(4) && o[12..] == Zeros(4)
  {
    hide BE, ToBE, Pow256, Seconds32;
    Pow256Values();
    BERoundTrip(padding, 2); BERoundTrip(m3p2Len, 2); BERoundTrip(Seconds32(ts), 4);
    var o, c := RequestOptions(padding, m3p2Len, ts), CreatedOptions(padding, ts);
    assert o[2..4] == ToBE(padding, 2) == c[2..4];
    assert o[4..6] == ToBE(m3p2Len, 2);
    assert o[8..12] == ToBE(Seconds32(ts), 4) == c[8..12];
  }

  /** Seconds as the 32-bit field of a message carries them. */
  function Seconds32(ts: u64): u32 {
    ts % 0x1_0000_0000
  }

  /** The receiver's test, in the 64-bit unsigned arithmetic it is carried out in. */
  predicate Skewed(ts: u64, received: u32) {
    received < (ts - NTCP2_CLOCK_SKEW) % 0x1_0000_0000_0000_0000
    || received > (ts + NTCP2_CLOCK_SKEW) % 0x1_0000_0000_0000_0000
  }

  /** What the test amounts to: within a minute, and never in the first minute of the epoch, where
      the lower bound wraps around. */
  lemma SkewedMeans(ts: u64, received: u32)
    ensures !Skewed(ts, received) <==> 60 <= ts && ts - 60 <= received <= ts + 60
  {
    if ts < 60 {
      ModUnique(ts - 60, 0x1_0000_0000_0000_0000, -1, ts - 60 + 0x1_0000_0000_0000_0000);
    } else if ts + 60 < 0x1_0000_0000_0000_0000 {
      ModUnique(ts - 60, 0x1_0000_0000_0000_0000, 0, ts - 60);
      ModUnique(ts + 60, 0x1_0000_0000_0000_0000, 0, ts + 60);
    } else {
      ModUnique(ts - 60, 0x1_0000_0000_0000_0000, 0, ts - 60);
    }
  }

  /** Perfectly synchronized clocks pass from minute one until the 32-bit seconds run out in 2106. */
  lemma SynchronizedClocks(ts: u64)
    ensures !Skewed(ts, Seconds32(ts)) <==> 60 <= ts < 0x1_0000_0000
  {
    SkewedMeans(ts, Seconds32(ts));
    if ts < 0x1_0000_0000 {
      ModUnique(ts, 0x1_0000_0000, 0, ts);
    }
  }

  predicate RequestAccepted(o: seq<byte>, ts: u64) {
    |o| == 16 && o[1] == 2 && BE(o[4..6]) >= 16 && CreatedAccepted(o, ts)
  }

  predicate CreatedAccepted(o: seq<byte>, ts: u64) {
    |o| == 16 && 0 <= BE(o[8..12]) < 0x1_0000_0000 && !Skewed(ts, BE(o[8..12]))
  }

  /** The padding the options announce is within bounds and does come. */
  predicate Arrives(o: seq<byte>, wire: seq<byte>) {
    |o| == 16 && 0 <= BE(o[2..4]) <= MAX_PADDING && 64 + BE(o[2..4]) <= |wire|
  }

  /** The buffer holds the message and len is its length. */
  predicate Received(buf: seq<byte>, len: nat, o: seq<byte>, wire: seq<byte>) {
    Arrives(o, wire) && len == 64 + BE(o[2..4]) <= |buf| && buf[..len] == wire[..len]
  }

  predicate Announces(o: seq<byte>, padding: u16, m3p2Len: u16) {
    |o| == 16 && padding == BE(o[2..4]) && m3p2Len == BE(o[4..6])
  }

  // ---------------------------------------------------------------------------------------
  // The establisher
  // ---------------------------------------------------------------------------------------

  /** What the router context supplies. */
  datatype Context = Context(staticPriv: Key, identHash: Key, ntcp2IV: Block, routerInfo: seq<byte>)

  /** The payload of message 3: a RouterInfo block with a zero flag. */
  function RouterInfoBlock(ri: seq<byte>): (b: seq<byte>)
    ensures |b| == |ri| + 4
  {
    [2] + ToBE(|ri| + 1, 2) + [0] + ri
  }

  /** The message 3 buffer has the RouterInfo block in place. */
  predicate HoldsPayload(buf: seq<byte>, m3p2Len: u16, ri: seq<byte>) {
    m3p2Len == |ri| + 20 && |buf| == m3p2Len + 48 && buf[48..48 + m3p2Len - 16] == RouterInfoBlock(ri)
  }

  class NTCP2Establisher {
    const prim: Primitives
    const context: Context
    var ephemeralPriv: Key
    var remotePub: Key                // Y for Alice and X for Bob
    var remoteStaticKey: Key
    var remoteIdentHash: Key
    var iv: Block
    var h: Key
    var ck: Key
    var k: Key
    var m3p2Len: u16
    var sessionRequestBuffer: seq<byte>
    var sessionCreatedBuffer: seq<byte>
    var sessionConfirmedBuffer: seq<byte>
    var sessionRequestBufferLen: nat
    var sessionCreatedBufferLen: nat

    constructor (p: Primitives, c: Context, priv: Key)
      ensures prim == p && context == c && ephemeralPriv == priv
    {
      prim, context, ephemeralPriv := p, c, priv;
      remotePub, remoteStaticKey, remoteIdentHash, iv := Zeros(32), Zeros(32), Zeros(32), Zeros(16);
      h, ck, k := Zeros(32), Zeros(32), Zeros(32);
      m3p2Len := 0;
      sessionRequestBuffer, sessionCreatedBuffer, sessionConfirmedBuffer := [], [], [];
      sessionRequestBufferLen, sessionCreatedBufferLen := 0, 0;
    }

    function Pub(): Key
      reads this
    {
      prim.pub(ephemeralPriv)
    }

    /** The state the establisher holds, if n messages were sealed under its current key. */
    function State(n: nat): Symmetric
      reads this`h, this`ck, this`k
    {
      Symmetric(h, ck, k, n)
    }

    method MixKey(inputKeyMaterial: Key)
      modifies this`ck, this`k
      ensures State(0) == NoiseKey(prim, old(State(0)), inputKeyMaterial)
      ensures ck + k == K.Derive(prim.hmac, old(ck), inputKeyMaterial, [], 2)
    {
      hide K.Derive;
      Halves(prim, ck, inputKeyMaterial);
      var tempKey := prim.hmac(ck, inputKeyMaterial);
      ck := prim.hmac(tempKey, [1]);
      k := prim.hmac(tempKey, ck + [2]);
    }

    method MixHash(buf: seq<byte>)
      modifies this`h
      ensures h == NoiseHash(prim, old(State(0)), buf).h
    {
      h := prim.sha256(h + buf);
    }

    method KeyDerivationFunction1(pub: Key, priv: Key, rs: Key, epub: Key)
      modifies this`h, this`ck, this`k
      ensures State(0) == Request(prim, rs, epub, prim.dh(priv, pub))
    {
      ck := PROTOCOL_NAME_HASH;
      h := prim.sha256(HH + rs);
      MixHash(epub);
      MixKey(prim.dh(priv, pub));
    }

    method KDF1Alice()
      modifies this`h, this`ck, this`k
      ensures State(0) == Request(prim, remoteStaticKey, Pub(), prim.dh(ephemeralPriv, remoteStaticKey))
    {
      KeyDerivationFunction1(remoteStaticKey, ephemeralPriv, remoteStaticKey, Pub());
    }

    method KDF1Bob()
      modifies this`h, this`ck, this`k
      ensures State(0) == Request(prim, prim.pub(context.staticPriv), remotePub, prim.dh(context.staticPriv, remotePub))
    {
      KeyDerivationFunction1(remotePub, context.staticPriv, prim.pub(context.staticPriv), remotePub);
    }

    /** Hashes the encrypted options and the padding of a message. */
    method MixMessage(buf: seq<byte>, len: nat)
      requires 64 <= len <= |buf|
      modifies this`h
      ensures h == NoisePadding(prim, NoiseHash(prim, old(State(0)), buf[32..64]), buf[64..len]).h
    {
      MixHash(buf[32..64]);
      var paddingLength := len - 64;
      if paddingLength > 0 {
        MixHash(buf[64..64 + paddingLength]);
      }
    }

    method KeyDerivationFunction2(sessionRequest: seq<byte>, len: nat, epub: Key)
      requires 64 <= len <= |sessionRequest|
      modifies this`h, this`ck, this`k
      ensures State(0) == NoiseKey(prim,
        NoiseHash(prim, NoisePadding(prim, NoiseHash(prim, old(State(0)), sessionRequest[32..64]), sessionRequest[64..len]), epub),
        prim.dh(ephemeralPriv, remotePub))
    {
      MixMessage(sessionRequest, len);
      MixHash(epub);
      MixKey(prim.dh(ephemeralPriv, remotePub));
    }

    method KDF3Alice()
      modifies this`ck, this`k
      ensures State(0) == NoiseKey(prim, old(State(0)), prim.dh(context.staticPriv, remotePub))
    {
      MixKey(prim.dh(context.staticPriv, remotePub));
    }

    method KDF3Bob()
      modifies this`ck, this`k
      ensures State(0) == NoiseKey(prim, old(State(0)), prim.dh(ephemeralPriv, remoteStaticKey))
    {
      MixKey(prim.dh(ephemeralPriv, remoteStaticKey));
    }

    /** The RouterInfo block waits in the message 3 buffer until part 2 seals it there. */
    method FillPayload()
      requires |context.routerInfo| + 20 < 0x1_0000
      modifies this`m3p2Len, this`sessionConfirmedBuffer
      ensures m3p2Len == |context.routerInfo| + 20 && HoldsPayload(sessionConfirmedBuffer, m3p2Len, context.routerInfo)
    {
      hide RouterInfoBlock;
      var bufLen := |context.routerInfo|;
      m3p2Len := bufLen + 4 + 16;
      sessionConfirmedBuffer := Zeros(48) + RouterInfoBlock(context.routerInfo) + Zeros(16);
      MiddleSlice(Zeros(48), RouterInfoBlock(context.routerInfo), Zeros(16));
    }

    method EncryptX(padding: seq<byte>)
      modifies this`sessionRequestBuffer, this`sessionRequestBufferLen, this`iv
      ensures sessionRequestBufferLen == 64 + |padding|
      ensures sessionRequestBuffer == Encrypted(prim.aes, remoteIdentHash, old(iv), Pub()) + (Zeros(64) + padding)[32..]
      ensures iv == Encrypted(prim.aes, remoteIdentHash, old(iv), Pub())[16..]
    {
      hide Encrypted;
      sessionRequestBufferLen := |padding| + 64;
      sessionRequestBuffer := Zeros(64) + padding;
      var x := Encrypted(prim.aes, remoteIdentHash, iv, Pub());
      sessionRequestBuffer := x + sessionRequestBuffer[32..];
      iv := Last(iv, x);
    }

    /** Alice, message 1. padding and ts stand for the random generator and the clock. */
    method CreateSessionRequestMessage(padding: seq<byte>, ts: u64)
      requires |padding| < MAX_PADDING && |context.routerInfo| + 20 < 0x1_0000
      modifies this
      ensures unchanged(`ephemeralPriv, `remotePub, `remoteStaticKey, `remoteIdentHash)
      ensures State(0) == Request(prim, remoteStaticKey, Pub(), prim.dh(ephemeralPriv, remoteStaticKey))
      ensures m3p2Len == |context.routerInfo| + 20
      ensures sessionRequestBufferLen == |sessionRequestBuffer| == 64 + |padding|
      ensures sessionRequestBuffer == Encrypted(prim.aes, remoteIdentHash, old(iv), Pub())
        + Sealed(State(0), RequestOptions(|padding|, m3p2Len, ts)) + padding
      ensures iv == sessionRequestBuffer[16..32]
      ensures HoldsPayload(sessionConfirmedBuffer, m3p2Len, context.routerInfo)
    {
      hide Request, Aead.Seal, Encrypted, HoldsPayload, RequestOptions, Nonce;
      ghost var x := Encrypted(prim.aes, remoteIdentHash, iv, Pub());
      EncryptX(padding);
      KDF1Alice();
      FillPayload();
      var options := RequestOptions(|padding|, m3p2Len, ts);
      var c := Aead.Seal(k, Nonce(0), h, options);
      Assemble(x, c, padding);
      sessionRequestBuffer := sessionRequestBuffer[..32] + c + sessionRequestBuffer[64..];
    }

    /** Bob, message 1, of which the first 64 bytes have arrived. */
    method ProcessSessionRequestMessage(ts: u64) returns (ok: bool, paddingLen: u16)
      requires |sessionRequestBuffer| >= 64
      modifies this`remotePub, this`iv, this`h, this`ck, this`k, this`sessionRequestBufferLen, this`m3p2Len
      ensures remotePub == Decrypted(prim.aes, context.identHash, context.ntcp2IV, sessionRequestBuffer[..32])
      ensures iv == sessionRequestBuffer[16..32]
      ensures State(0) == Request(prim, prim.pub(context.staticPriv), remotePub, prim.dh(context.staticPriv, remotePub))
      ensures var o := Aead.Open(k, Nonce(0), h, sessionRequestBuffer[32..64]);
        && (ok <==> o.Some? && RequestAccepted(o.value, ts))
        && (ok ==> Announces(o.value, paddingLen, m3p2Len)) && (ok ==> sessionRequestBufferLen == paddingLen + 64)
    {
      hide Request, Aead.Open, Decrypted, BE, ToLE, Skewed;
      paddingLen := 0;
      var buf := sessionRequestBuffer[..32];
      remotePub := Decrypted(prim.aes, context.identHash, context.ntcp2IV, buf);
      iv := Last(context.ntcp2IV, buf);
      KDF1Bob();
      var plain := Aead.Open(k, Nonce(0), h, sessionRequestBuffer[32..64]);
      if plain.None? { return false, paddingLen; }
      OpenLength(k, Nonce(0), h, sessionRequestBuffer[32..64]);
      var options := plain.value;
      FieldBounds(options);
      if options[1] != 2 { return false, paddingLen; }
      paddingLen := BE(options[2..4]);
      sessionRequestBufferLen := paddingLen + 64;
      m3p2Len := BE(options[4..6]);
      if m3p2Len < 16 { return false, paddingLen; }
      ok := !Skewed(ts, BE(options[8..12]));
    }

    /** Bob reads message 1: 64 bytes first, then as much padding as they announce. */
    method HandleSessionRequestReceived(wire: seq<byte>, ts: u64) returns (ok: bool)
      requires |wire| >= 64
      modifies this`remotePub, this`iv, this`h, this`ck, this`k, this`sessionRequestBufferLen, this`m3p2Len, this`sessionRequestBuffer
      ensures remotePub == Decrypted(prim.aes, context.identHash, context.ntcp2IV, wire[..32]) && iv == wire[16..32]
      ensures State(0) == Request(prim, prim.pub(context.staticPriv), remotePub, prim.dh(context.staticPriv, remotePub))
      ensures var o := Aead.Open(k, Nonce(0), h, wire[32..64]);
        && (ok <==> o.Some? && RequestAccepted(o.value, ts) && Arrives(o.value, wire))
        && (ok ==> m3p2Len == BE(o.value[4..6]) && Received(sessionRequestBuffer, sessionRequestBufferLen, o.value, wire))
    {
      hide Request, Aead.Open, Decrypted, BE, Nonce, Skewed;
      sessionRequestBuffer := wire[..64] + Zeros(MAX_PADDING);
      Reread(wire, Zeros(MAX_PADDING));
      var paddingLen;
      ok, paddingLen := ProcessSessionRequestMessage(ts);
      if ok {
        ok := paddingLen <= MAX_PADDING && 64 + paddingLen <= |wire|;
        if ok && paddingLen > 0 {
          sessionRequestBuffer := sessionRequestBuffer[..64] + wire[64..64 + paddingLen] + sessionRequestBuffer[64 + paddingLen..];
        }
      }
    }

    /** Bob, message 2. */
    method CreateSessionCreatedMessage(padding: seq<byte>, ts: u64)
      requires |padding| < MAX_PADDING && 64 <= sessionRequestBufferLen <= |sessionRequestBuffer|
      modifies this`sessionCreatedBuffer, this`sessionCreatedBufferLen, this`h, this`ck, this`k
      ensures State(0) == NoiseKey(prim,
        NoiseHash(prim, NoisePadding(prim, NoiseHash(prim, old(State(0)), sessionRequestBuffer[32..64]),
          sessionRequestBuffer[64..sessionRequestBufferLen]), Pub()),
        prim.dh(ephemeralPriv, remotePub))
      ensures sessionCreatedBufferLen == |sessionCreatedBuffer| == 64 + |padding|
      ensures sessionCreatedBuffer == Encrypted(prim.aes, context.identHash, iv, Pub())
        + Sealed(State(0), CreatedOptions(|padding|, ts)) + padding
    {
      hide Aead.Seal, Encrypted, ToBE, ToLE, NoiseKey, NoisePadding, NoiseHash;
      sessionCreatedBufferLen := |padding| + 64;
      sessionCreatedBuffer := Zeros(64) + padding;
      var y := Encrypted(prim.aes, context.identHash, iv, Pub());
      sessionCreatedBuffer := y + sessionCreatedBuffer[32..];
      KeyDerivationFunction2(sessionRequestBuffer, sessionRequestBufferLen, Pub());
      var c := Aead.Seal(k, Nonce(0), h, CreatedOptions(|padding|, ts));
      Assemble(y, c, padding);
      sessionCreatedBuffer := sessionCreatedBuffer[..32] + c + sessionCreatedBuffer[64..];
    }

    /** Alice, message 2, of which the first 64 bytes have arrived. */
    method ProcessSessionCreatedMessage(ts: u64) returns (ok: bool, paddingLen: u16)
      requires |sessionCreatedBuffer| >= 64 && 64 <= sessionRequestBufferLen <= |sessionRequestBuffer|
      modifies this`sessionCreatedBufferLen, this`remotePub, this`h, this`ck, this`k
      ensures sessionCreatedBufferLen == 64
      ensures remotePub == Decrypted(prim.aes, remoteIdentHash, iv, sessionCreatedBuffer[..32])
      ensures State(0) == NoiseKey(prim,
        NoiseHash(prim, NoisePadding(prim, NoiseHash(prim, old(State(0)), sessionRequestBuffer[32..64]),
          sessionRequestBuffer[64..sessionRequestBufferLen]), remotePub),
        prim.dh(ephemeralPriv, remotePub))
      ensures var o := Aead.Open(k, Nonce(0), h, sessionCreatedBuffer[32..64]);
        && (ok <==> o.Some? && CreatedAccepted(o.value, ts))
        && (ok ==> |o.value| == 16 && paddingLen == BE(o.value[2..4]))
    {
      hide Aead.Open, Decrypted, BE, ToLE, NoiseKey, NoisePadding, NoiseHash, Skewed;
      paddingLen := 0;
      sessionCreatedBufferLen := 64;
      remotePub := Decrypted(prim.aes, remoteIdentHash, iv, sessionCreatedBuffer[..32]);
      KeyDerivationFunction2(sessionRequestBuffer, sessionRequestBufferLen, remotePub);
      var plain := Aead.Open(k, Nonce(0), h, sessionCreatedBuffer[32..64]);
      if plain.None? { return false, paddingLen; }
      OpenLength(k, Nonce(0), h, sessionCreatedBuffer[32..64]);
      var payload := plain.value;
      FieldBounds(payload);
      paddingLen := BE(payload[2..4]);
      ok := !Skewed(ts, BE(payload[8..12]));
    }

    /** Alice reads message 2 the same way. */
    method HandleSessionCreatedReceived(wire: seq<byte>, ts: u64) returns (ok: bool)
      requires |wire| >= 64 && 64 <= sessionRequestBufferLen <= |sessionRequestBuffer|
      modifies this`sessionCreatedBufferLen, this`sessionCreatedBuffer, this`remotePub, this`h, this`ck, this`k
      ensures remotePub == Decrypted(prim.aes, remoteIdentHash, iv, wire[..32])
      ensures State(0) == NoiseKey(prim,
        NoiseHash(prim, NoisePadding(prim, NoiseHash(prim, old(State(0)), sessionRequestBuffer[32..64]),
          sessionRequestBuffer[64..sessionRequestBufferLen]), remotePub),
        prim.dh(ephemeralPriv, remotePub))
      ensures var o := Aead.Open(k, Nonce(0), h, wire[32..64]);
        && (ok <==> o.Some? && CreatedAccepted(o.value, ts) && Arrives(o.value, wire))
        && (ok ==> Received(sessionCreatedBuffer, sessionCreatedBufferLen, o.value, wire))
    {
      hide Aead.Open, Decrypted, BE, NoiseKey, NoisePadding, NoiseHash, Nonce, Skewed;
      sessionCreatedBuffer := wire[..64] + Zeros(MAX_PADDING);
      Reread(wire, Zeros(MAX_PADDING));
      var paddingLen;
      ok, paddingLen := ProcessSessionCreatedMessage(ts);
      if ok {
        ok := paddingLen <= MAX_PADDING && 64 + paddingLen <= |wire|;
        if ok && paddingLen > 0 {
          sessionCreatedBuffer := sessionCreatedBuffer[..64] + wire[64..64 + paddingLen] + sessionCreatedBuffer[64 + paddingLen..];
          sessionCreatedBufferLen := sessionCreatedBufferLen + paddingLen;
        }
      }
    }

    /** Alice, message 3, part 1: her static key under nonce 1. */
    method CreateSessionConfirmedMessagePart1(nonce: seq<byte>)
      requires |nonce| == 12 && 64 <= sessionCreatedBufferLen <= |sessionCreatedBuffer| && |sessionConfirmedBuffer| >= 48
      modifies this`h, this`sessionConfirmedBuffer
      ensures h == NoisePadding(prim, NoiseHash(prim, old(State(0)), sessionCreatedBuffer[32..64]),
        sessionCreatedBuffer[64..sessionCreatedBufferLen]).h
      ensures sessionConfirmedBuffer == Aead.Seal(k, nonce, h, prim.pub(context.staticPriv)) + old(sessionConfirmedBuffer[48..])
    {
      hide Aead.Seal, NoisePadding, NoiseHash;
      MixMessage(sessionCreatedBuffer, sessionCreatedBufferLen);
      var c := Aead.Seal(k, nonce, h, prim.pub(context.staticPriv));
      sessionConfirmedBuffer := c + sessionConfirmedBuffer[48..];
    }

    /** Alice, message 3, part 2: the RouterInfo, sealed where it stands. */
    method CreateSessionConfirmedMessagePart2(nonce: seq<byte>)
      requires |nonce| == 12 && m3p2Len >= 16 && |sessionConfirmedBuffer| == 48 + m3p2Len
      modifies this`h, this`ck, this`k, this`sessionConfirmedBuffer
      ensures |sessionConfirmedBuffer| == 48 + m3p2Len && sessionConfirmedBuffer[..48] == old(sessionConfirmedBuffer[..48])
      ensures var s := NoiseKey(prim, NoiseHash(prim, old(State(0)), sessionConfirmedBuffer[..48]), prim.dh(context.staticPriv, remotePub));
        && sessionConfirmedBuffer[48..] == Aead.Seal(s.k, nonce, s.h, old(sessionConfirmedBuffer[48..48 + m3p2Len - 16]))
        && State(0) == NoiseHash(prim, s, sessionConfirmedBuffer[48..])
    {
      hide Aead.Seal;
      MixHash(sessionConfirmedBuffer[..48]);
      KDF3Alice();
      var c := Aead.Seal(k, nonce, h, sessionConfirmedBuffer[48..48 + m3p2Len - 16]);
      sessionConfirmedBuffer := sessionConfirmedBuffer[..48] + c;
      MixHash(sessionConfirmedBuffer[48..]);
    }

    /** Bob, message 3, part 1: learns Alice's static key. */
    method ProcessSessionConfirmedMessagePart1(nonce: seq<byte>) returns (ok: bool)
      requires |nonce| == 12 && 64 <= sessionCreatedBufferLen <= |sessionCreatedBuffer| && |sessionConfirmedBuffer| >= 48
      modifies this`h, this`remoteStaticKey
      ensures h == NoisePadding(prim, NoiseHash(prim, old(State(0)), sessionCreatedBuffer[32..64]),
        sessionCreatedBuffer[64..sessionCreatedBufferLen]).h
      ensures var o := Aead.Open(k, nonce, h, sessionConfirmedBuffer[..48]);
        (ok <==> o.Some?) && (ok ==> remoteStaticKey == o.value)
    {
      hide Aead.Open, NoisePadding, NoiseHash;
      MixMessage(sessionCreatedBuffer, sessionCreatedBufferLen);
      var plain := Aead.Open(k, nonce, h, sessionConfirmedBuffer[..48]);
      if plain.None? { return false; }
      OpenLength(k, nonce, h, sessionConfirmedBuffer[..48]);
      remoteStaticKey := plain.value;
      ok := true;
    }

    /** Bob, message 3, part 2. The last hash is taken over the buffer itself, after h has been
        written over the end of part 1 just before the ciphertext. */
    method ProcessSessionConfirmedMessagePart2(nonce: seq<byte>) returns (ok: bool, m3p2Buf: seq<byte>)
      requires |nonce| == 12 && m3p2Len >= 16 && |sessionConfirmedBuffer| == 48 + m3p2Len
      modifies this`h, this`ck, this`k, this`sessionConfirmedBuffer
      ensures var s := NoiseKey(prim, NoiseHash(prim, old(State(0)), old(sessionConfirmedBuffer[..48])),
          prim.dh(ephemeralPriv, remoteStaticKey));
        var o := Aead.Open(s.k, nonce, s.h, old(sessionConfirmedBuffer[48..]));
        && (ok <==> o.Some?)
        && (ok ==> m3p2Buf == o.value && State(0) == NoiseHash(prim, s, old(sessionConfirmedBuffer[48..])))
    {
      hide Aead.Open;
      MixHash(sessionConfirmedBuffer[..48]);
      KDF3Bob();
      m3p2Buf := [];
      var plain := Aead.Open(k, nonce, h, sessionConfirmedBuffer[48..]);
      if plain.None? { return false, m3p2Buf; }
      m3p2Buf := plain.value;
      ghost var was := sessionConfirmedBuffer;
      sessionConfirmedBuffer := sessionConfirmedBuffer[..16] + h + sessionConfirmedBuffer[48..];
      assert sessionConfirmedBuffer[16..16 + m3p2Len + 32] == h + was[48..];
      h := prim.sha256(sessionConfirmedBuffer[16..16 + m3p2Len + 32]);
      ok := true;
    }
  }

  /** The key, the sealed options and the padding end up side by side. */
  lemma Assemble(x: seq<byte>, c: seq<byte>, padding: seq<byte>)
    requires |x| == 32 && |c| == 32
    ensures var b := x + (Zeros(64) + padding)[32..]; b[..32] + c + b[64..] == x + c + padding
    ensures (x + c + padding)[16..32] == x[16..] && (x + c + padding)[..32] == x
    ensures (x + c + padding)[32..64] == c && (x + c + padding)[64..] == padding
  {
    assert (x + (Zeros(64) + padding)[32..])[64..] == padding;
  }

  lemma Reread(wire: seq<byte>, rest: seq<byte>)
    requires |wire| >= 64
    ensures var b := wire[..64] + rest; b[..32] == wire[..32] && b[32..64] == wire[32..64] && b[16..32] == wire[16..32]
  {
  }

  lemma MiddleSlice(a: seq<byte>, b: seq<byte>, c: seq<byte>)
    ensures (a + b + c)[|a|..|a| + |b|] == b
  {
  }

  lemma OpenLength(key: seq<byte>, nonce: seq<byte>, ad: seq<byte>, c: seq<byte>)
    requires |key| == 32 && |nonce| == 12 && |c| >= 16 && Aead.Open(key, nonce, ad, c).Some?
    ensures |Aead.Open(key, nonce, ad, c).value| == |c| - 16
  {
    hide Aead.Tag;
  }

  lemma FieldBounds(o: seq<byte>)
    requires |o| == 16
    ensures 0 <= BE(o[2..4]) < 0x1_0000 && 0 <= BE(o[4..6]) < 0x1_0000 && 0 <= BE(o[8..12]) < 0x1_0000_0000
  {
    hide BE, Pow256;
    Pow256Values();
    BEBound(o[2..4]); BEBound(o[4..6]); BEBound(o[8..12]);
  }

  // ---------------------------------------------------------------------------------------
  // Data phase keys
  // ---------------------------------------------------------------------------------------

  datatype DataKeys = DataKeys(kab: Key, kba: Key, sipkeysab: Key, sipkeysba: Key)

  /** What a session keeps of them: keys and length-obfuscation seeds, one set per direction. */
  datatype SessionKeys = SessionKeys(sendKey: Key, receiveKey: Key, sendSipKey: Key, receiveSipKey: Key,
    sendIV: seq<byte>, receiveIV: seq<byte>)

  /** HKDF (section 4.3 of the Noise framework) with two outputs. */
  function Hkdf2(p: Primitives, ck: Key, ikm: seq<byte>): (Key, Key) {
    var temp := p.hmac(ck, ikm);
    var o := p.hmac(temp, [1]);
    (o, p.hmac(temp, o + [2]))
  }

  const ASK: seq<byte> := [0x61, 0x73, 0x6b]
  const SIPHASH: seq<byte> := [0x73, 0x69, 0x70, 0x68, 0x61, 0x73, 0x68]

  /** Split, and a second derivation from the ask master for the SipHash keys. */
  function DataPhase(p: Primitives, s: Symmetric): DataKeys {
    var (kab, kba) := Hkdf2(p, s.ck, []);
    var askMaster := p.hmac(p.hmac(s.ck, []), ASK + [1]);
    var sipMaster := Hkdf2(p, askMaster, s.h + SIPHASH).0;
    var (ab, ba) := Hkdf2(p, sipMaster, []);
    DataKeys(kab, kba, ab, ba)
  }

  method KeyDerivationFunctionDataPhase(establisher: NTCP2Establisher) returns (keys: DataKeys)
    ensures keys == DataPhase(establisher.prim, establisher.State(0))
    ensures var hmac := establisher.prim.hmac;
      var sipMaster := K.Derive(hmac, K.Derive(hmac, establisher.ck, [], ASK, 1), establisher.h + SIPHASH, [], 1);
      && keys.kab + keys.kba == K.Derive(hmac, establisher.ck, [], [], 2)
      && keys.sipkeysab + keys.sipkeysba == K.Derive(hmac, sipMaster, [], [], 2)
  {
    hide K.Derive;
    DataPhaseIs(establisher.prim, establisher.State(0));
    var p := establisher.prim;
    var tempKey := p.hmac(establisher.ck, []);
    var kab := p.hmac(tempKey, [1]);
    var kba := p.hmac(tempKey, kab + [2]);
    var master := p.hmac(tempKey, ASK + [1]);
    tempKey := p.hmac(master, establisher.h + SIPHASH);
    master := p.hmac(tempKey, [1]);
    tempKey := p.hmac(master, []);
    var ab := p.hmac(tempKey, [1]);
    var ba := p.hmac(tempKey, ab + [2]);
    keys := DataKeys(kab, kba, ab, ba);
  }

  /** Everything comes from the chaining key by HKDF: the two data keys, and the SipHash keys by way of a
      key for "ask" and a key for h and "siphash". */
  lemma DataPhaseIs(p: Primitives, s: Symmetric)
    ensures var d := DataPhase(p, s);
      var sipMaster := K.Derive(p.hmac, K.Derive(p.hmac, s.ck, [], ASK, 1), s.h + SIPHASH, [], 1);
      && d.kab + d.kba == K.Derive(p.hmac, s.ck, [], [], 2)
      && d.sipkeysab + d.sipkeysba == K.Derive(p.hmac, sipMaster, [], [], 2)
  {
    hide K.Derive;
    K.OneBlock(p.hmac, s.ck, [], ASK);
    var askMaster := p.hmac(p.hmac(s.ck, []), ASK + [1]);
    K.OneBlock(p.hmac, askMaster, s.h + SIPHASH, []);
    assert [] + [1] == [1];
    var sipMaster := p.hmac(p.hmac(askMaster, s.h + SIPHASH), [1]);
    Halves(p, s.ck, []);
    Halves(p, sipMaster, []);
  }

  function AliceKeys(d: DataKeys): SessionKeys {
    SessionKeys(d.kab, d.kba, d.sipkeysab, d.sipkeysba, d.sipkeysab[16..24], d.sipkeysba[16..24])
  }

  function BobKeys(d: DataKeys): SessionKeys {
    SessionKeys(d.kba, d.kab, d.sipkeysba, d.sipkeysab, d.sipkeysba[16..24], d.sipkeysab[16..24])
  }

  /** What one side sends with, the other receives with. */
  predicate CrossMatch(a: SessionKeys, b: SessionKeys) {
    && a.sendKey == b.receiveKey && a.receiveKey == b.sendKey
    && a.sendSipKey == b.receiveSipKey && a.receiveSipKey == b.sendSipKey
    && a.sendIV == b.receiveIV && a.receiveIV == b.sendIV && |a.sendIV| == |a.receiveIV| == 8
  }

  // ---------------------------------------------------------------------------------------
  // An honest run
  // ---------------------------------------------------------------------------------------

  /** Alice knows Bob's published static key, identity and IV. */
  ghost predicate Introduced(alice: NTCP2Establisher, bob: NTCP2Establisher)
    reads alice, bob
  {
    && alice != bob && alice.prim == bob.prim && Laws(alice.prim)
    && alice.remoteStaticKey == alice.prim.pub(bob.context.staticPriv)
    && alice.remoteIdentHash == bob.context.identHash
    && |alice.context.routerInfo| + 20 < 0x1_0000
  }

  /** len bytes of a message with these sealed options and this padding. */
  predicate Holds(buf: seq<byte>, len: nat, sealed: seq<byte>, padding: seq<byte>) {
    64 <= len <= |buf| && buf[32..64] == sealed && buf[64..len] == padding
  }

  /** Both hold message 1 and its CBC chaining value. */
  ghost predicate AfterRequest(alice: NTCP2Establisher, bob: NTCP2Establisher, sealed: seq<byte>, padding: seq<byte>)
    reads alice, bob
  {
    && Introduced(alice, bob) && bob.remotePub == alice.Pub() && alice.iv == bob.iv && alice.m3p2Len == bob.m3p2Len
    && Holds(alice.sessionRequestBuffer, alice.sessionRequestBufferLen, sealed, padding)
    && Holds(bob.sessionRequestBuffer, bob.sessionRequestBufferLen, sealed, padding)
    && HoldsPayload(alice.sessionConfirmedBuffer, alice.m3p2Len, alice.context.routerInfo)
  }

  lemma SealedOpens(s: Symmetric, plaintext: seq<byte>)
    ensures Aead.Open(s.k, Nonce(s.n), s.h, Sealed(s, plaintext)) == Some(plaintext)
  {
    hide Aead.Open, Aead.Seal, Nonce;
    Aead.OpenSeal(s.k, Nonce(s.n), s.h, plaintext);
  }

  method ExchangeRequest(alice: NTCP2Establisher, bob: NTCP2Establisher, padding: seq<byte>, tsA: u64, tsB: u64)
      returns (ok: bool)
    requires Introduced(alice, bob) && alice.iv == bob.context.ntcp2IV && |padding| < MAX_PADDING
    requires !Skewed(tsB, Seconds32(tsA))
    modifies alice, bob
    ensures unchanged(alice`ephemeralPriv) && unchanged(bob`ephemeralPriv) && Introduced(alice, bob) && ok
    ensures alice.State(0) == bob.State(0)
      == Request(alice.prim, alice.remoteStaticKey, alice.Pub(), alice.prim.dh(alice.ephemeralPriv, alice.remoteStaticKey))
    ensures AfterRequest(alice, bob, Sealed(alice.State(0), RequestOptions(|padding|, |alice.context.routerInfo| + 20, tsA)), padding)
  {
    hide Request, Sealed, Aead.Open, Encrypted, Decrypted, RequestOptions, Skewed, HoldsPayload, BE, Laws, Nonce;
    ghost var p, x := alice.prim, Encrypted(alice.prim.aes, alice.remoteIdentHash, alice.iv, alice.Pub());
    alice.CreateSessionRequestMessage(padding, tsA);
    ghost var c := Sealed(alice.State(0), RequestOptions(|padding|, alice.m3p2Len, tsA));
    Assemble(x, c, padding);
    RequestUnderstood(p, alice.remoteIdentHash, bob.context.ntcp2IV, alice.ephemeralPriv, bob.context.staticPriv,
      alice.State(0), |padding|, alice.m3p2Len, tsA, tsB);
    ok := bob.HandleSessionRequestReceived(alice.sessionRequestBuffer, tsB);
    WholeMessage(alice.sessionRequestBuffer, bob.sessionRequestBuffer, 64 + |padding|);
  }

  lemma WholeMessage(wire: seq<byte>, buf: seq<byte>, len: nat)
    requires |wire| == len >= 64 && len <= |buf|
    ensures buf[..len] == wire[..len] ==> buf[32..64] == wire[32..64] && buf[64..len] == wire[64..]
    ensures wire[64..len] == wire[64..]
  {
    TakeSlice(buf, len, 32, 64); TakeSlice(buf, len, 64, len);
    assert wire[..len] == wire;
  }

  /** Bob recovers X, derives the same secret and accepts the options. */
  lemma {:induction false} RequestUnderstood(p: Primitives, ident: Key, iv: Block, e: Key, s: Key, sym: Symmetric, padding: u16, m3p2Len: u16, tsA: u64, tsB: u64)
    requires Laws(p) && !Skewed(tsB, Seconds32(tsA)) && m3p2Len >= 16 && sym.n == 0
    ensures Decrypted(p.aes, ident, iv, Encrypted(p.aes, ident, iv, p.pub(e))) == p.pub(e)
    ensures p.dh(e, p.pub(s)) == p.dh(s, p.pub(e))
    ensures var o := RequestOptions(padding, m3p2Len, tsA);
      && Aead.Open(sym.k, Nonce(0), sym.h, Sealed(sym, o)) == Some(o)
      && RequestAccepted(o, tsB) && Announces(o, padding, m3p2Len)
  {
    hide Encrypted, Decrypted, Sealed, Aead.Open, RequestOptions, Skewed, BE, Nonce;
    DecryptedEncrypted(p.aes, ident, iv, p.pub(e));
    Agree(p, e, s);
    SealedOpens(sym, RequestOptions(padding, m3p2Len, tsA));
    OptionsFields(padding, m3p2Len, tsA);
  }

  /** Both hold message 2 and each other's ephemeral key, and Alice still holds her RouterInfo block. */
  ghost predicate AfterCreated(alice: NTCP2Establisher, bob: NTCP2Establisher, sealed: seq<byte>, padding: seq<byte>)
    reads alice, bob
  {
    && Introduced(alice, bob) && alice.remotePub == bob.Pub() && bob.remotePub == alice.Pub() && alice.m3p2Len == bob.m3p2Len
    && Holds(alice.sessionCreatedBuffer, alice.sessionCreatedBufferLen, sealed, padding)
    && Holds(bob.sessionCreatedBuffer, bob.sessionCreatedBufferLen, sealed, padding)
    && HoldsPayload(alice.sessionConfirmedBuffer, alice.m3p2Len, alice.context.routerInfo)
  }

  method ExchangeCreated(alice: NTCP2Establisher, bob: NTCP2Establisher, ghost options: seq<byte>, ghost padding1: seq<byte>,
      padding: seq<byte>, tsB: u64, tsA: u64) returns (ok: bool)
    requires alice.State(0) == bob.State(0) && AfterRequest(alice, bob, Sealed(alice.State(0), options), padding1)
    requires |padding| < MAX_PADDING && !Skewed(tsA, Seconds32(tsB))
    modifies alice, bob
    ensures unchanged(alice`ephemeralPriv) && unchanged(bob`ephemeralPriv) && Introduced(alice, bob) && ok
    ensures alice.State(0) == bob.State(0)
      == Created(alice.prim, old(alice.State(0)), options, padding1, bob.Pub(), alice.prim.dh(alice.ephemeralPriv, bob.Pub()))
    ensures AfterCreated(alice, bob, Sealed(bob.State(0), CreatedOptions(|padding|, tsB)), padding)
  {
    hide NoiseKey, NoiseHash, NoisePadding, Created, Sealed, Aead.Open, Encrypted, Decrypted, CreatedOptions, Skewed,
      HoldsPayload, BE, Laws, Nonce;
    ghost var p, s, y := alice.prim, alice.State(0), Encrypted(alice.prim.aes, bob.context.identHash, bob.iv, bob.Pub());
    bob.CreateSessionCreatedMessage(padding, tsB);
    CreatedIs(p, s, options, padding1, bob.Pub(), p.dh(bob.ephemeralPriv, bob.remotePub));
    ghost var c := Sealed(bob.State(0), CreatedOptions(|padding|, tsB));
    Assemble(y, c, padding);
    CreatedUnderstood(p, bob.context.identHash, bob.iv, alice.ephemeralPriv, bob.ephemeralPriv, bob.State(0), |padding|, tsB, tsA);
    ok := alice.HandleSessionCreatedReceived(bob.sessionCreatedBuffer, tsA);
    WholeMessage(bob.sessionCreatedBuffer, alice.sessionCreatedBuffer, 64 + |padding|);
  }

  /** The code hashes the options of message 1 only when it prepares message 2. */
  lemma CreatedIs(p: Primitives, s: Symmetric, options: seq<byte>, padding: seq<byte>, e: Key, ee: Key)
    ensures Created(p, s, options, padding, e, ee)
         == NoiseKey(p, NoiseHash(p, NoisePadding(p, NoiseHash(p, s, Sealed(s, options)), padding), e), ee)
  {
    hide Sealed;
  }

  lemma {:induction false} CreatedUnderstood(p: Primitives, ident: Key, iv: Block, a: Key, b: Key, sym: Symmetric, padding: u16, tsB: u64, tsA: u64)
    requires Laws(p) && !Skewed(tsA, Seconds32(tsB)) && sym.n == 0
    ensures Decrypted(p.aes, ident, iv, Encrypted(p.aes, ident, iv, p.pub(b))) == p.pub(b)
    ensures p.dh(a, p.pub(b)) == p.dh(b, p.pub(a))
    ensures var o := CreatedOptions(padding, tsB);
      && Aead.Open(sym.k, Nonce(0), sym.h, Sealed(sym, o)) == Some(o)
      && CreatedAccepted(o, tsA) && BE(o[2..4]) == padding
  {
    hide Encrypted, Decrypted, Sealed, Aead.Open, CreatedOptions, Skewed, BE, Nonce;
    DecryptedEncrypted(p.aes, ident, iv, p.pub(b));
    Agree(p, a, b);
    SealedOpens(sym, CreatedOptions(padding, tsB));
    OptionsFields(padding, 0, tsB);
  }

  function CreateNonce(seqn: u64): (nonce: seq<byte>)
    ensures |nonce| == 12 && nonce == Nonce(seqn)
    ensures nonce[..4] == Zeros(4) && LE(nonce[4..]) == seqn
  {
    NumberFits(seqn);
    Zeros(4) + ToLE(seqn, 8)
  }

  lemma {:induction false} NumberFits(n: u64)
    ensures LE(ToLE(n, 8)) == n && (Zeros(4) + ToLE(n, 8))[4..] == ToLE(n, 8)
  {
    hide LE, ToLE, Pow256;
    LEToLE(n, 8);
    Pow256Values();
    ModUnique(n, Pow256(8), 0, n);
  }

  /** Message 3: part 1 under nonce 1, part 2 under nonce 0. */
  method ExchangeConfirmed(alice: NTCP2Establisher, bob: NTCP2Establisher, ghost options: seq<byte>, ghost padding: seq<byte>)
      returns (ok: bool, payload: seq<byte>)
    requires alice.State(0) == bob.State(0) && AfterCreated(alice, bob, Sealed(bob.State(0), options), padding)
    modifies alice, bob
    ensures unchanged(alice`ephemeralPriv) && unchanged(bob`ephemeralPriv) && ok
    ensures payload == RouterInfoBlock(alice.context.routerInfo)
    ensures bob.remoteStaticKey == alice.prim.pub(alice.context.staticPriv)
    ensures alice.State(1) == bob.State(1)
      == NoiseEncrypt(alice.prim, Confirmed2(alice.prim, Confirmed1(alice.prim, old(alice.State(0)), options, padding),
           alice.prim.pub(alice.context.staticPriv), alice.prim.dh(alice.context.staticPriv, bob.Pub())),
           RouterInfoBlock(alice.context.routerInfo))
  {
    hide NoiseKey, NoiseHash, NoisePadding, Confirmed1, Confirmed2, NoiseEncrypt, Aead.Seal, Aead.Open, RouterInfoBlock, BE, Laws, Nonce, Sealed;
    ConfirmedUnderstood(alice.prim, alice.State(0), options, padding, alice.context.staticPriv, bob.ephemeralPriv,
      RouterInfoBlock(alice.context.routerInfo));
    ghost var was := alice.sessionConfirmedBuffer;
    alice.CreateSessionConfirmedMessagePart1(CreateNonce(1));
    AfterPart1(was, alice.sessionConfirmedBuffer, Aead.Seal(alice.k, CreateNonce(1), alice.h, alice.prim.pub(alice.context.staticPriv)),
      48 + alice.m3p2Len - 16);
    alice.CreateSessionConfirmedMessagePart2(Zeros(12));
    bob.sessionConfirmedBuffer := alice.sessionConfirmedBuffer;
    ok := bob.ProcessSessionConfirmedMessagePart1(CreateNonce(1));
    payload := [];
    if ok {
      ok, payload := bob.ProcessSessionConfirmedMessagePart2(Zeros(12));
    }
  }

  lemma AfterPart1(was: seq<byte>, buf: seq<byte>, c: seq<byte>, end: nat)
    requires |c| == 48 && 48 <= end <= |was| && buf == c + was[48..]
    ensures buf[..48] == c && |buf| == |was| && buf[48..end] == was[48..end]
  {
  }

  lemma NonceZero()
    ensures Nonce(0) == Zeros(12)
  {
    forall i | 0 <= i < 8 ensures ToLE(0, 8)[i] == 0 { ZeroBytes(8); }
  }

  lemma {:induction false} ZeroBytes(k: nat)
    ensures ToLE(0, k) == Zeros(k)
  {
    if k > 0 { ZeroBytes(k - 1); }
  }

  predicate Opens(key: Key, nonce: seq<byte>, ad: seq<byte>, c: seq<byte>, plaintext: seq<byte>)
    requires |nonce| == 12 && |c| >= 16
  {
    Aead.Open(key, nonce, ad, c) == Some(plaintext)
  }

  /** Both parts of message 3 in terms of the state s that sealed the options of message 2. */
  lemma ConfirmedUnderstood(p: Primitives, s: Symmetric, options: seq<byte>, padding: seq<byte>, a: Key, b: Key, payload: seq<byte>)
    requires Laws(p) && s.n == 0
    ensures p.dh(a, p.pub(b)) == p.dh(b, p.pub(a))
    ensures var s3 := Confirmed1(p, s, options, padding);
      && s3.h == NoisePadding(p, NoiseHash(p, s, Sealed(s, options)), padding).h && s3.ck == s.ck && s3.k == s.k
      && Opens(s.k, Nonce(1), s3.h, Aead.Seal(s.k, Nonce(1), s3.h, p.pub(a)), p.pub(a))
      && var c := Aead.Seal(s.k, Nonce(1), s3.h, p.pub(a));
         var s4 := Confirmed2(p, s3, p.pub(a), p.dh(a, p.pub(b)));
      && s4 == NoiseKey(p, NoiseHash(p, Symmetric(s3.h, s.ck, s.k, 0), c), p.dh(a, p.pub(b)))
      && Opens(s4.k, Zeros(12), s4.h, Aead.Seal(s4.k, Zeros(12), s4.h, payload), payload)
      && NoiseEncrypt(p, s4, payload) == NoiseHash(p, s4, Aead.Seal(s4.k, Zeros(12), s4.h, payload)).(n := 1)
  {
    hide Aead.Seal, Aead.Open, Nonce;
    Agree(p, a, b);
    var s3 := Confirmed1(p, s, options, padding);
    assert s3.n == 1;
    SealedOpens(s3, p.pub(a));
    SealedOpens(Confirmed2(p, s3, p.pub(a), p.dh(a, p.pub(b))), payload);
    NonceZero();
  }

  /** What Bob makes of the payload of message 3. A block too short to hold its flag is not part of
      the model: the source would hand a negative length to the RouterInfo parser. */
  method ReadRouterInfo(buf: seq<byte>) returns (ri: Option<seq<byte>>)
    requires |buf| >= 4 && BE(buf[1..3]) >= 1
    ensures ri == if buf[0] == 2 && BE(buf[1..3]) <= |buf| - 3 then Some(buf[4..3 + BE(buf[1..3])]) else None
  {
    if buf[0] != 2 { return None; }
    var size := BE(buf[1..3]);
    if size > |buf| - 3 { return None; }
    ri := Some(buf[4..4 + (size - 1)]);
  }

  lemma RouterInfoReads(ri: seq<byte>)
    requires |ri| + 20 < 0x1_0000
    ensures var b := RouterInfoBlock(ri);
      |b| >= 4 && b[0] == 2 && BE(b[1..3]) == |ri| + 1 <= |b| - 3 && b[4..3 + BE(b[1..3])] == ri
  {
    hide BE, ToBE, Pow256;
    var b := RouterInfoBlock(ri);
    assert b[1..3] == ToBE(|ri| + 1, 2);
    Pow256Values();
    BERoundTrip(|ri| + 1, 2);
  }

  /** The reference transcript: a Noise XK run on the same keys, options, padding and payload. */
  function Transcript(p: Primitives, a: Key, ea: Key, s: Key, eb: Key, options1: seq<byte>, padding1: seq<byte>,
      options2: seq<byte>, padding2: seq<byte>, payload: seq<byte>): (Symmetric, Symmetric, Symmetric)
  {
    var s1 := Request(p, p.pub(s), p.pub(ea), p.dh(ea, p.pub(s)));
    var s2 := Created(p, s1, options1, padding1, p.pub(eb), p.dh(ea, p.pub(eb)));
    var s3 := Confirmed2(p, Confirmed1(p, s2, options2, padding2), p.pub(a), p.dh(a, p.pub(eb)));
    (s1, s2, NoiseEncrypt(p, s3, payload))
  }

  function Hashed(p: Primitives, h: Key, data: seq<seq<byte>>): Key
    decreases |data|
  {
    if data == [] then h else Hashed(p, p.sha256(h + data[0]), data[1..])
  }

  function Present(padding: seq<byte>): seq<seq<byte>> {
    if padding == [] then [] else [padding]
  }

  /** The transcript written out in HKDF, SHA-256 and the AEAD. Each secret goes into the keys, and every
      public byte of the three messages into the hash. */
  lemma TranscriptIs(p: Primitives, a: Key, ea: Key, s: Key, eb: Key, options1: seq<byte>, padding1: seq<byte>,
      options2: seq<byte>, padding2: seq<byte>, payload: seq<byte>)
    ensures var (s1, s2, s3) := Transcript(p, a, ea, s, eb, options1, padding1, options2, padding2, payload);
      var c1 := Aead.Seal(s1.k, Zeros(12), s1.h, options1);
      var c2 := Aead.Seal(s2.k, Zeros(12), s2.h, options2);
      var h3 := Hashed(p, s2.h, [c2] + Present(padding2));
      var part1 := Aead.Seal(s2.k, Zeros(4) + [1] + Zeros(7), h3, p.pub(a));
      var h4 := Hashed(p, h3, [part1]);
      && s1.ck + s1.k == K.Derive(p.hmac, PROTOCOL_NAME_HASH, p.dh(ea, p.pub(s)), [], 2)
      && s1.h == Hashed(p, HH, [p.pub(s), p.pub(ea)])
      && s2.ck + s2.k == K.Derive(p.hmac, s1.ck, p.dh(ea, p.pub(eb)), [], 2)
      && s2.h == Hashed(p, s1.h, [c1] + Present(padding1) + [p.pub(eb)])
      && s3.ck + s3.k == K.Derive(p.hmac, s2.ck, p.dh(a, p.pub(eb)), [], 2)
      && s3.h == Hashed(p, h4, [Aead.Seal(s3.k, Zeros(12), h4, payload)])
  {
    hide K.Derive, Aead.Seal, Hashed, Request, Created, Confirmed1, Confirmed2, NoiseEncrypt;
    var s1 := Request(p, p.pub(s), p.pub(ea), p.dh(ea, p.pub(s)));
    var s2 := Created(p, s1, options1, padding1, p.pub(eb), p.dh(ea, p.pub(eb)));
    RequestIs(p, p.pub(s), p.pub(ea), p.dh(ea, p.pub(s)));
    CreatedHashes(p, s1, options1, padding1, p.pub(eb), p.dh(ea, p.pub(eb)));
    ConfirmedHashes(p, s2, options2, padding2, p.pub(a), p.dh(a, p.pub(eb)), payload);
  }

  lemma RequestIs(p: Primitives, rs: Key, e: Key, es: Key)
    ensures var r := Request(p, rs, e, es);
      r.ck + r.k == K.Derive(p.hmac, PROTOCOL_NAME_HASH, es, [], 2) && r.h == Hashed(p, HH, [rs, e]) && r.n == 0
  {
    hide K.Derive, NoiseKey;
    NoiseKeyIs(p, NoiseHash(p, NoiseHash(p, Start(), rs), e), es);
    HashedTwo(p, HH, rs, e);
  }

  lemma CreatedHashes(p: Primitives, s: Symmetric, options: seq<byte>, padding: seq<byte>, e: Key, ee: Key)
    requires s.n == 0
    ensures var r := Created(p, s, options, padding, e, ee);
      && r.ck + r.k == K.Derive(p.hmac, s.ck, ee, [], 2) && r.n == 0
      && r.h == Hashed(p, s.h, [Aead.Seal(s.k, Zeros(12), s.h, options)] + Present(padding) + [e])
  {
    hide K.Derive, Aead.Seal, Nonce, NoiseKey;
    var c := Aead.Seal(s.k, Zeros(12), s.h, options);
    NonceZero();
    NoiseKeyIs(p, NoiseHash(p, NoisePadding(p, NoiseEncrypt(p, s, options), padding), e), ee);
    HashedPadding(p, s.h, c, padding);
    HashedAppend(p, s.h, [c] + Present(padding), e);
  }

  lemma ConfirmedHashes(p: Primitives, s: Symmetric, options: seq<byte>, padding: seq<byte>, staticKey: Key, se: Key, payload: seq<byte>)
    requires s.n == 0
    ensures var r := NoiseEncrypt(p, Confirmed2(p, Confirmed1(p, s, options, padding), staticKey, se), payload);
      var h3 := Hashed(p, s.h, [Aead.Seal(s.k, Zeros(12), s.h, options)] + Present(padding));
      var h4 := Hashed(p, h3, [Aead.Seal(s.k, Zeros(4) + [1] + Zeros(7), h3, staticKey)]);
      && r.ck + r.k == K.Derive(p.hmac, s.ck, se, [], 2)
      && r.h == Hashed(p, h4, [Aead.Seal(r.k, Zeros(12), h4, payload)])
  {
    hide K.Derive, Aead.Seal, Nonce, NoiseKey;
    NonceZero(); NonceOne();
    HashedPadding(p, s.h, Aead.Seal(s.k, Zeros(12), s.h, options), padding);
    var t2 := Confirmed1(p, s, options, padding);
    HashedOne(p, t2.h, Aead.Seal(s.k, Nonce(1), t2.h, staticKey));
    NoiseKeyIs(p, NoiseEncrypt(p, t2, staticKey), se);
    var t3 := Confirmed2(p, t2, staticKey, se);
    HashedOne(p, t3.h, Aead.Seal(t3.k, Zeros(12), t3.h, payload));
  }

  lemma {:induction false} HashedOne(p: Primitives, h: Key, x: seq<byte>)
    ensures Hashed(p, h, [x]) == p.sha256(h + x)
  {
    assert [x][1..] == [];
    assert Hashed(p, p.sha256(h + x), [x][1..]) == p.sha256(h + x);
  }

  lemma {:induction false} HashedTwo(p: Primitives, h: Key, x: seq<byte>, y: seq<byte>)
    ensures Hashed(p, h, [x, y]) == p.sha256(p.sha256(h + x) + y)
  {
    assert [x, y][1..] == [y];
    HashedOne(p, p.sha256(h + x), y);
  }

  lemma {:induction false} HashedAppend(p: Primitives, h: Key, data: seq<seq<byte>>, x: seq<byte>)
    ensures Hashed(p, h, data + [x]) == p.sha256(Hashed(p, h, data) + x)
    decreases |data|
  {
    if data == [] {
      assert data + [x] == [x];
      HashedOne(p, h, x);
    } else {
      assert (data + [x])[0] == data[0] && (data + [x])[1..] == data[1..] + [x];
      HashedAppend(p, p.sha256(h + data[0]), data[1..], x);
    }
  }

  lemma {:induction false} HashedPadding(p: Primitives, h: Key, x: seq<byte>, padding: seq<byte>)
    ensures Hashed(p, h, [x] + Present(padding)) == if padding == [] then p.sha256(h + x) else p.sha256(p.sha256(h + x) + padding)
  {
    if padding == [] {
      assert [x] + Present(padding) == [x];
      HashedOne(p, h, x);
    } else {
      assert [x] + Present(padding) == [x, padding];
      HashedTwo(p, h, x, padding);
    }
  }

  lemma NonceOne()
    ensures Nonce(1) == Zeros(4) + [1] + Zeros(7)
  {
    OneBytes(8);
  }

  lemma {:induction false} OneBytes(k: nat)
    requires k > 0
    ensures ToLE(1, k) == [1] + Zeros(k - 1)
  {
    if k > 1 {
      OneBytes(k - 1);
      assert Pow256(k - 1) >= 256;
      hide Pow256;
      ModUnique(1, Pow256(k - 1), 0, 1);
    }
  }

  /** In every honest run, whatever the padding, every check passes, both sides hold the state of
      the Noise transcript after each message, Bob learns Alice's static key and RouterInfo, and
      the data phase keys and seeds cross-match. */
  method HonestRun(alice: NTCP2Establisher, bob: NTCP2Establisher, padding1: seq<byte>, padding2: seq<byte>,
      tsA1: u64, tsB1: u64, tsB2: u64, tsA2: u64)
      returns (ok: bool, after1: Symmetric, after2: Symmetric, aliceKeys: SessionKeys, bobKeys: SessionKeys)
    requires Introduced(alice, bob) && alice.iv == bob.context.ntcp2IV
    requires |padding1| < MAX_PADDING && |padding2| < MAX_PADDING
    requires !Skewed(tsB1, Seconds32(tsA1)) && !Skewed(tsA2, Seconds32(tsB2))
    modifies alice, bob
    ensures ok && CrossMatch(aliceKeys, bobKeys)
    ensures bob.remoteStaticKey == alice.prim.pub(alice.context.staticPriv)
    ensures alice.State(1) == bob.State(1) && aliceKeys == AliceKeys(DataPhase(alice.prim, alice.State(1)))
    ensures var hmac := alice.prim.hmac;
      var sipMaster := K.Derive(hmac, K.Derive(hmac, alice.ck, [], ASK, 1), alice.h + SIPHASH, [], 1);
      && aliceKeys.sendKey + aliceKeys.receiveKey == K.Derive(hmac, alice.ck, [], [], 2)
      && aliceKeys.sendSipKey + aliceKeys.receiveSipKey == K.Derive(hmac, sipMaster, [], [], 2)
      && aliceKeys.sendIV == aliceKeys.sendSipKey[16..24] && aliceKeys.receiveIV == aliceKeys.receiveSipKey[16..24]
    ensures (after1, after2, alice.State(1)) == Transcript(alice.prim,
      alice.context.staticPriv, old(alice.ephemeralPriv), bob.context.staticPriv, old(bob.ephemeralPriv),
      RequestOptions(|padding1|, |alice.context.routerInfo| + 20, tsA1), padding1,
      CreatedOptions(|padding2|, tsB2), padding2, RouterInfoBlock(alice.context.routerInfo))
  {
    hide AfterRequest, AfterCreated, RouterInfoBlock, RequestOptions, CreatedOptions, Request, Created, Confirmed1, Confirmed2,
      NoiseEncrypt, Skewed, BE, Sealed, DataPhase, Laws, K.Derive;
    ghost var o1 := RequestOptions(|padding1|, |alice.context.routerInfo| + 20, tsA1);
    ghost var o2 := CreatedOptions(|padding2|, tsB2);
    ok := ExchangeRequest(alice, bob, padding1, tsA1, tsB1);
    after1 := bob.State(0);
    ok := ExchangeCreated(alice, bob, o1, padding1, padding2, tsB2, tsA2);
    after2 := bob.State(0);
    var payload;
    ok, payload := ExchangeConfirmed(alice, bob, o2, padding2);
    RouterInfoReads(alice.context.routerInfo);
    var ri := ReadRouterInfo(payload);
    ok := ok && ri == Some(alice.context.routerInfo);
    var forAlice := KeyDerivationFunctionDataPhase(alice);
    var forBob := KeyDerivationFunctionDataPhase(bob);
    aliceKeys, bobKeys := AliceKeys(forAlice), BobKeys(forBob);
    SameDataPhase(alice.prim, alice.State(0));
  }

  lemma SameDataPhase(p: Primitives, s: Symmetric)
    ensures DataPhase(p, s) == DataPhase(p, s.(n := 1))
  {
  }
}
