/** Garlic messages of libdotnet/Garlic.cpp: cloves inside an AES block, behind a session tag or an
    ElGamal block, printed by a routing session and taken apart by a destination. */
module Garlic {
  import opened Wrappers
  import opened Bytes
  import opened Cbc
  import T = GarlicTags
  import K = Hkdf

  type Tag = T.Tag
  type Key = K.Key

  /** sha256, the AES block function, and the ElGamal pair of the receiving destination: 222 bytes
      of data in 514 bytes of ciphertext. */
  datatype Primitives = Primitives(
    sha256: seq<byte> -> Key,
    aes: Aes,
    encrypt: seq<byte> -> seq<byte>,
    decrypt: seq<byte> -> Option<seq<byte>>)

  const ELGAMAL_BLOCK := 222
  const ELGAMAL_SIZE := 514

  ghost predicate Laws(p: Primitives) {
    && Permutation(p.aes)
    && forall b {:trigger p.encrypt(b)} :: |b| == ELGAMAL_BLOCK ==> |p.encrypt(b)| == ELGAMAL_SIZE && p.decrypt(p.encrypt(b)) == Some(b)
  }

  // ---------------------------------------------------------------------------------------
  // Printing
  // ---------------------------------------------------------------------------------------

  /** Where a clove goes. */
  datatype Delivery = Local | Destination(hash: Key) | Router(ident: Key) | Tunnel(gateway: Key, tunnelID: u32)

  datatype Clove = Clove(delivery: Delivery, message: seq<byte>, cloveID: u32, expiration: u64)

  function DeliveryType(d: Delivery): (t: byte)
    ensures t < 4
  {
    match d case Local => 0 case Destination(_) => 1 case Router(_) => 2 case Tunnel(_, _) => 3
  }

  function DeliveryBytes(d: Delivery): (s: seq<byte>)
    ensures |s| >= 1 && s[0] == DeliveryType(d) * 32
  {
    [DeliveryType(d) * 32] + (
      match d
      case Local => []
      case Destination(h) => h
      case Router(h) => h
      case Tunnel(h, id) => h + ToBE(id, 4))
  }

  function CloveBytes(c: Clove): seq<byte> {
    DeliveryBytes(c.delivery) + c.message + (ToBE(c.cloveID, 4) + ToBE(c.expiration, 8) + Zeros(3))
  }

  function ClovesBytes(cloves: seq<Clove>): seq<byte> {
    if cloves == [] then [] else CloveBytes(cloves[0]) + ClovesBytes(cloves[1..])
  }

  /** At most 255 cloves; the session never writes more than three. */
  function PayloadBytes(cloves: seq<Clove>, msgID: u32, expiration: u64): seq<byte>
    requires |cloves| < 256
  {
    [|cloves|] + ClovesBytes(cloves) + (Zeros(3) + ToBE(msgID, 4) + ToBE(expiration, 8))
  }

  function TagBytes(tags: seq<Tag>): (s: seq<byte>)
    ensures |s| == 32 * |tags|
  {
    if tags == [] then [] else TagBytes(tags[..|tags| - 1]) + tags[|tags| - 1]
  }

  function Padding16(n: nat): (k: nat)
    ensures (n + k) % 16 == 0 && k < 16
  {
    if n % 16 == 0 then 0 else 16 - n % 16
  }

  /** Tag count, tags, payload size and hash, a zero flag, the payload and padding to whole blocks.
      The padding is whatever was in the buffer. */
  function BlockBytes(p: Primitives, tags: seq<Tag>, payload: seq<byte>, padding: seq<byte>): (s: seq<byte>)
    requires |padding| == Padding16(32 * |tags| + 39 + |payload|)
    ensures |s| % 16 == 0 && |s| == 32 * |tags| + 39 + |payload| + |padding|
  {
    ToBE(|tags| % 0x1_0000, 2) + (TagBytes(tags) + BlockRest(p, payload, padding))
  }

  function BlockRest(p: Primitives, payload: seq<byte>, padding: seq<byte>): (s: seq<byte>)
    ensures |s| == 37 + |payload| + |padding|
  {
    ToBE(|payload| % 0x1_0000_0000, 4) + (p.sha256(payload) + ([0] + (payload + padding)))
  }

  /** The IV both sides derive from the tag or the pre-IV. */
  function IvOf(p: Primitives, seed: Key): Block {
    p.sha256(seed)[..16]
  }

  function TaggedBytes(p: Primitives, tag: Tag, key: Key, block: seq<byte>): (s: seq<byte>)
    requires |block| % 16 == 0
    ensures |s| == 32 + |block|
  {
    tag + Encrypted(p.aes, key, IvOf(p, tag), block)
  }

  function ElGamalBytes(p: Primitives, preIV: Key, filler: seq<byte>, key: Key, block: seq<byte>): seq<byte>
    requires |block| % 16 == 0 && |filler| == 158
  {
    p.encrypt(key + preIV + filler) + Encrypted(p.aes, key, IvOf(p, preIV), block)
  }

  /** The payload of a Garlic message. */
  function MessageBytes(body: seq<byte>): (s: seq<byte>)
    ensures |s| == |body| + 4
  {
    ToBE(|body| % 0x1_0000_0000, 4) + body
  }

  // ---------------------------------------------------------------------------------------
  // Where everything stands
  // ---------------------------------------------------------------------------------------

  /** Length, tag, and the block in CBC under the session key with the IV from the tag. */
  lemma TaggedLayout(p: Primitives, tag: Tag, key: Key, block: seq<byte>)
    requires |block| % 16 == 0 && |block| < 0xffff_0000
    ensures var m := MessageBytes(TaggedBytes(p, tag, key, block));
      BE(m[..4]) == |m| - 4 && m[4..36] == tag && m[36..] == Encrypted(p.aes, key, p.sha256(tag)[..16], block)
  {
    hide BE, ToBE, Encrypted, Pow256;
    LengthReads(TaggedBytes(p, tag, key, block));
    var m := MessageBytes(TaggedBytes(p, tag, key, block));
    assert m[4..36] == m[4..][..32] && m[36..] == m[4..][32..];
  }

  /** Length, the ElGamal block for session key and pre-IV, and the rest in CBC with the IV from the pre-IV. */
  lemma ElGamalLayout(p: Primitives, preIV: Key, filler: seq<byte>, key: Key, block: seq<byte>)
    requires |block| % 16 == 0 && |filler| == 158 && |p.encrypt(key + preIV + filler)| == ELGAMAL_SIZE && |block| < 0xffff_0000
    ensures var m := MessageBytes(ElGamalBytes(p, preIV, filler, key, block));
      BE(m[..4]) == |m| - 4 && m[4..518] == p.encrypt(key + preIV + filler) && m[518..] == Encrypted(p.aes, key, p.sha256(preIV)[..16], block)
  {
    hide BE, ToBE, Encrypted, Pow256;
    LengthReads(ElGamalBytes(p, preIV, filler, key, block));
    var m := MessageBytes(ElGamalBytes(p, preIV, filler, key, block));
    assert m[4..518] == m[4..][..514] && m[518..] == m[4..][514..];
  }

  /** Tag count, tags, payload size, hash and flag, payload. */
  lemma BlockLayout(p: Primitives, tags: seq<Tag>, payload: seq<byte>, padding: seq<byte>, i: nat)
    requires |padding| == Padding16(32 * |tags| + 39 + |payload|) && |tags| < 0x1_0000 && |payload| < 0x1_0000_0000
    ensures var b, at := BlockBytes(p, tags, payload, padding), 2 + 32 * |tags|;
      && BE(b[..2]) == |tags| && (i < |tags| ==> b[2 + 32 * i..34 + 32 * i] == tags[i])
      && BE(b[at..at + 4]) == |payload| && b[at + 4..at + 36] == p.sha256(payload) && b[at + 36] == 0
      && b[at + 37..at + 37 + |payload|] == payload
  {
    hide BE, ToBE, TagBytes, Pow256, Padding16;
    var n, m := |tags|, |payload|;
    ModUnique(n, 0x1_0000, 0, n); ModUnique(m, 0x1_0000_0000, 0, m);
    Pow256Values();
    BERoundTrip(n, 2); BERoundTrip(m, 4);
    var front, rest := TagBytes(tags), BlockRest(p, payload, padding);
    FrontParses(ToBE(n, 2), front, rest);
    RestParses(ToBE(m, 4), p.sha256(payload), payload, padding);
    var b, at := BlockBytes(p, tags, payload, padding), 2 + 32 * n;
    assert b[at..] == rest;
    DropSlice(b, at, 0, 4); DropSlice(b, at, 4, 36); DropSlice(b, at, 37, 37 + m);
    assert b[at + 36] == b[at..][36];
    if i < n {
      TagStands(tags, i);
      SubSlice(b, 2, at, 32 * i, 32 * i + 32);
    }
  }

  lemma {:induction false} TagStands(tags: seq<Tag>, i: nat)
    requires i < |tags|
    ensures TagBytes(tags)[32 * i..32 * i + 32] == tags[i]
    decreases |tags|
  {
    var n := |tags| - 1;
    if i < n {
      TagStands(tags[..n], i);
      TakeSlice(TagBytes(tags), 32 * n, 32 * i, 32 * i + 32);
      assert TagBytes(tags)[..32 * n] == TagBytes(tags[..n]);
    }
  }

  /** Number of cloves, the cloves, three zero bytes, message id and expiration. */
  lemma {:induction false} PayloadLayout(cloves: seq<Clove>, msgID: u32, expiration: u64)
    requires |cloves| < 256
    ensures var b, n := PayloadBytes(cloves, msgID, expiration), |ClovesBytes(cloves)|;
      && |b| == n + 16 && b[0] == |cloves| && b[1..n + 1] == ClovesBytes(cloves) && b[n + 1..n + 4] == [0, 0, 0]
      && BE(b[n + 4..n + 8]) == msgID && BE(b[n + 8..]) == expiration
  {
    hide BE, ToBE, ClovesBytes, Pow256;
    Pow256Values();
    BERoundTrip(msgID, 4); BERoundTrip(expiration, 8);
    var b, n := PayloadBytes(cloves, msgID, expiration), |ClovesBytes(cloves)|;
    assert b[n + 4..n + 8] == ToBE(msgID, 4) && b[n + 8..] == ToBE(expiration, 8);
  }

  /** Delivery instructions, the message, clove id, expiration and three zero bytes. */
  lemma CloveLayout(c: Clove)
    ensures var b, n := CloveBytes(c), |CloveBytes(c)|;
      && n == |DeliveryBytes(c.delivery)| + |c.message| + 15 && b[n - 15 - |c.message|..n - 15] == c.message
      && BE(b[n - 15..n - 11]) == c.cloveID && BE(b[n - 11..n - 3]) == c.expiration && b[n - 3..] == [0, 0, 0]
      && b[..n - 15 - |c.message|] == DeliveryBytes(c.delivery)
  {
    hide BE, ToBE, DeliveryBytes, Pow256;
    Pow256Values();
    BERoundTrip(c.cloveID, 4); BERoundTrip(c.expiration, 8);
    var b, n := CloveBytes(c), |CloveBytes(c)|;
    assert b[n - 15..n - 11] == ToBE(c.cloveID, 4) && b[n - 11..n - 3] == ToBE(c.expiration, 8);
  }

  /** Delivery types 0 to 3 in bits 5 and 6 of the flag. */
  lemma DeliveryLayout(d: Delivery)
    ensures var b := DeliveryBytes(d);
      match d
      case Local => b == [0]
      case Destination(h) => b == [0x20] + h
      case Router(h) => b == [0x40] + h
      case Tunnel(h, id) => b[..33] == [0x60] + h && |b| == 37 && BE(b[33..]) == id
  {
    hide BE, ToBE, Pow256;
    Pow256Values();
    if d.Tunnel? {
      BERoundTrip(d.tunnelID, 4);
      assert DeliveryBytes(d)[33..] == ToBE(d.tunnelID, 4);
    }
  }

  // ---------------------------------------------------------------------------------------
  // Taking apart
  // ---------------------------------------------------------------------------------------

  /** A message handed on, with its delivery instructions. */
  datatype Dispatch = Dispatch(delivery: Delivery, message: seq<byte>)

  function Field(s: seq<byte>): (n: nat)
  {
    BEBound(s);
    BE(s)
  }

  /** GetDNNPMessageLength: the size field of the header, capped by what is there. */
  function MessageLength(s: seq<byte>): (l: nat)
    ensures l <= |s|
  {
    if |s| < 15 then |s|
    else
      var l := Field(s[13..15]) + 16;
      if l > |s| then |s| else l
  }

  /** One clove: what is dispatched, and how many bytes it takes; None ends the loop. Reading past
      the end of the buffer, which the source does not check everywhere, ends the loop too. */
  function ParseClove(buf: seq<byte>, direct: bool): (r: (Option<Dispatch>, Option<nat>))
    ensures r.1.Some? ==> 0 < r.1.value <= |buf|
  {
    if buf == [] then (None, None)
    else
      var flag := buf[0];
      var offset := if flag >= 0x80 then 33 else 1;
      var kind := flag / 32 % 4;
      var head := if kind == 0 then 0 else 32;
      if offset + head > |buf| then (None, None)
      else
        var hash: Key := if kind == 0 then Zeros(32) else buf[offset..offset + 32];
        var at := offset + head;
        if kind == 3 then
          if at + 4 > |buf| then (None, CloveEnd(buf, at))
          else
            var rest := buf[at + 4..];
            (Some(Dispatch(Tunnel(hash, TunnelID(buf[at..at + 4])), rest[..MessageLength(rest)])), CloveEnd(buf, at + 4))
        else
          var rest := buf[at..];
          var delivery := if kind == 0 then Local else if kind == 1 then Destination(hash) else Router(hash);
          (if kind == 2 && !direct then None else Some(Dispatch(delivery, rest[..MessageLength(rest)])), CloveEnd(buf, at))
  }

  function TunnelID(s: seq<byte>): (n: u32)
    requires |s| == 4
  {
    BEBound(s);
    Pow256Values();
    BE(s)
  }

  /** Past the message at offset at, the clove id, the date and the certificate. */
  function CloveEnd(buf: seq<byte>, at: nat): (r: Option<nat>)
    requires 0 < at <= |buf|
    ensures r.Some? ==> 0 < r.value <= |buf|
  {
    var end := at + MessageLength(buf[at..]) + 15;
    if end > |buf| then None else Some(end)
  }

  function ParseCloves(buf: seq<byte>, n: nat, direct: bool): seq<Dispatch> {
    if n == 0 then []
    else
      var (d, size) := ParseClove(buf, direct);
      (if d.Some? then [d.value] else []) + (if size.None? then [] else ParseCloves(buf[size.value..], n - 1, direct))
  }

  function ParsePayload(buf: seq<byte>, direct: bool): seq<Dispatch> {
    if buf == [] then [] else ParseCloves(buf[1..], buf[0], direct)
  }

  function ReadTags(s: seq<byte>, n: nat): (tags: seq<Tag>)
    requires |s| == 32 * n
    ensures |tags| == n
  {
    if n == 0 then [] else ReadTags(s[..32 * (n - 1)], n - 1) + [s[32 * (n - 1)..]]
  }

  /** The tags of an AES block and its payload; no payload when a length or the hash is wrong. */
  function ParseBlock(p: Primitives, buf: seq<byte>): (seq<Tag>, Option<seq<byte>>) {
    if |buf| < 2 then ([], None)
    else
      var count := Field(buf[..2]);
      if count * 32 > |buf| - 2 then ([], None)
      else
        (ReadTags(buf[2..2 + 32 * count], count), ParseRest(p, buf[2 + 32 * count..]))
  }

  /** What follows the tags: payload size, its hash, a flag that announces a new session key, the
      payload itself. */
  function ParseRest(p: Primitives, rest: seq<byte>): Option<seq<byte>> {
    if |rest| < 37 then None
    else
      var size := Field(rest[..4]);
      var at := if rest[36] != 0 then 69 else 37;
      if size > |rest| || at + size > |rest| || p.sha256(rest[at..at + size]) != rest[4..36] then None
      else Some(rest[at..at + size])
  }

  // ---------------------------------------------------------------------------------------
  // Taking apart undoes printing
  // ---------------------------------------------------------------------------------------

  /** A DNNP message whose size field is right. */
  predicate Proper(m: seq<byte>) {
    |m| >= 16 && Field(m[13..15]) == |m| - 16
  }

  lemma ProperLength(m: seq<byte>, rest: seq<byte>)
    requires Proper(m)
    ensures MessageLength(m + rest) == |m| && (m + rest)[..MessageLength(m + rest)] == m
  {
    assert (m + rest)[13..15] == m[13..15];
  }

  predicate Delivers(d: Delivery, direct: bool) {
    direct || !d.Router?
  }

  lemma CloveParses(c: Clove, rest: seq<byte>, direct: bool)
    requires Proper(c.message)
    ensures var (d, size) := ParseClove(CloveBytes(c) + rest, direct);
      && d == (if Delivers(c.delivery, direct) then Some(Dispatch(c.delivery, c.message)) else None)
      && size.Some? && size.value == |CloveBytes(c)|
  {
    hide BE, Pow256, ToBE, MessageLength, Proper;
    var tail := ToBE(c.cloveID, 4) + ToBE(c.expiration, 8) + Zeros(3);
    var d := DeliveryBytes(c.delivery);
    var after := c.message + (tail + rest);
    var buf := d + after;
    assert CloveBytes(c) + rest == buf;
    ProperLength(c.message, tail + rest);
    HeadParses(c.delivery, after);
    assert buf[|d|..] == after;
    assert CloveEnd(buf, |d|).Some? && CloveEnd(buf, |d|).value == |d| + |c.message| + 15;
  }

  /** The delivery instructions read back, whatever follows. */
  lemma HeadParses(d: Delivery, after: seq<byte>)
    ensures var buf := DeliveryBytes(d) + after;
      && buf[0] < 0x80 && buf[0] / 32 % 4 == DeliveryType(d)
      && (d.Destination? ==> buf[1..33] == d.hash && buf[33..] == after)
      && (d.Router? ==> buf[1..33] == d.ident && buf[33..] == after)
      && (d.Tunnel? ==> buf[1..33] == d.gateway && TunnelID(buf[33..37]) == d.tunnelID && buf[37..] == after)
      && (d.Local? ==> buf[1..] == after)
  {
    hide BE, Pow256, ToBE;
    var buf := DeliveryBytes(d) + after;
    match d {
      case Local =>
      case Destination(h) =>
        assert buf == [32] + (h + after);
      case Router(h) =>
        assert buf == [64] + (h + after);
      case Tunnel(h, id) =>
        assert buf == [96] + (h + (ToBE(id, 4) + after));
        Pow256Values();
        BERoundTrip(id, 4);
        assert buf[33..37] == ToBE(id, 4);
    }
  }

  /** What a destination hands on: everything in order, except that clove type router is only
      served for messages that came directly. */
  function Dispatches(cloves: seq<Clove>, direct: bool): seq<Dispatch> {
    if cloves == [] then []
    else
      (if Delivers(cloves[0].delivery, direct) then [Dispatch(cloves[0].delivery, cloves[0].message)] else [])
      + Dispatches(cloves[1..], direct)
  }

  predicate AllProper(cloves: seq<Clove>) {
    forall i :: 0 <= i < |cloves| ==> Proper(cloves[i].message)
  }

  lemma {:induction false} ClovesParse(cloves: seq<Clove>, rest: seq<byte>, direct: bool)
    requires AllProper(cloves)
    ensures ParseCloves(ClovesBytes(cloves) + rest, |cloves|, direct) == Dispatches(cloves, direct)
    decreases |cloves|
  {
    hide Proper, ParseClove, CloveBytes;
    if cloves != [] {
      var c := cloves[0];
      var more := ClovesBytes(cloves[1..]) + rest;
      assert ClovesBytes(cloves) + rest == CloveBytes(c) + more;
      CloveParses(c, more, direct);
      assert (CloveBytes(c) + more)[|CloveBytes(c)|..] == more;
      ClovesParse(cloves[1..], rest, direct);
    }
  }

  lemma {:induction false} PayloadParses(cloves: seq<Clove>, msgID: u32, expiration: u64, direct: bool)
    requires AllProper(cloves) && |cloves| < 256
    ensures ParsePayload(PayloadBytes(cloves, msgID, expiration), direct) == Dispatches(cloves, direct)
  {
    hide ParseCloves, ClovesBytes, Dispatches, ToBE;
    var rest := Zeros(3) + ToBE(msgID, 4) + ToBE(expiration, 8);
    assert PayloadBytes(cloves, msgID, expiration)[1..] == ClovesBytes(cloves) + rest;
    ClovesParse(cloves, rest, direct);
  }

  lemma {:induction false} TagsRead(tags: seq<Tag>)
    ensures ReadTags(TagBytes(tags), |tags|) == tags
    decreases |tags|
  {
    if tags != [] {
      var n := |tags| - 1;
      TagsRead(tags[..n]);
      assert TagBytes(tags)[..32 * n] == TagBytes(tags[..n]) && TagBytes(tags)[32 * n..] == tags[n];
    }
  }

  lemma BlockParses(p: Primitives, tags: seq<Tag>, payload: seq<byte>, padding: seq<byte>)
    requires |tags| < 0x1_0000 && |payload| < 0x1_0000_0000 && |padding| == Padding16(32 * |tags| + 39 + |payload|)
    ensures ParseBlock(p, BlockBytes(p, tags, payload, padding)) == (tags, Some(payload))
  {
    hide *;
    var n := |tags|;
    var buf := BlockBytes(p, tags, payload, padding);
    BlockParts(p, tags, payload, padding);
    TagsRead(tags);
    RestReads(p, payload, padding);
    ParseBlockOf(p, buf, n);
  }

  lemma BlockParts(p: Primitives, tags: seq<Tag>, payload: seq<byte>, padding: seq<byte>)
    requires |tags| < 0x1_0000 && |padding| == Padding16(32 * |tags| + 39 + |payload|)
    ensures var b, at := BlockBytes(p, tags, payload, padding), 2 + 32 * |tags|;
      at <= |b| && Field(b[..2]) == |tags| && b[2..at] == TagBytes(tags) && b[at..] == BlockRest(p, payload, padding)
  {
    hide BE, ToBE, TagBytes, Pow256, Padding16, BlockRest;
    ModUnique(|tags|, 0x1_0000, 0, |tags|);
    Pow256Values();
    BERoundTrip(|tags|, 2);
    FrontParses(ToBE(|tags|, 2), TagBytes(tags), BlockRest(p, payload, padding));
  }

  lemma {:induction false} ParseBlockOf(p: Primitives, buf: seq<byte>, n: nat)
    requires |buf| >= 2 + 32 * n && Field(buf[..2]) == n
    ensures ParseBlock(p, buf) == (ReadTags(buf[2..2 + 32 * n], n), ParseRest(p, buf[2 + 32 * n..]))
  {
    hide Field, ReadTags, ParseRest;
  }

  lemma RestReads(p: Primitives, payload: seq<byte>, padding: seq<byte>)
    requires |payload| < 0x1_0000_0000
    ensures ParseRest(p, BlockRest(p, payload, padding)) == Some(payload)
  {
    hide BE, ToBE, Pow256;
    var m := |payload|;
    ModUnique(m, 0x1_0000_0000, 0, m);
    Pow256Values();
    BERoundTrip(m, 4);
    RestParses(ToBE(m, 4), p.sha256(payload), payload, padding);
  }

  lemma FrontParses(a: seq<byte>, t: seq<byte>, rest: seq<byte>)
    requires |a| == 2
    ensures var buf := a + (t + rest); buf[..2] == a && buf[2..2 + |t|] == t && buf[2 + |t|..] == rest
  {
    var buf := a + (t + rest);
    assert buf[2..] == t + rest;
    DropSlice(buf, 2, 0, |t|); DropDrop(buf, 2, |t|);
    assert (t + rest)[..|t|] == t;
  }

  lemma RestParses(a: seq<byte>, h: seq<byte>, payload: seq<byte>, padding: seq<byte>)
    requires |a| == 4 && |h| == 32
    ensures var rest := a + (h + ([0] + (payload + padding)));
      rest[..4] == a && rest[4..36] == h && rest[36] == 0 && rest[37..37 + |payload|] == payload
  {
    var t := [0] + (payload + padding);
    var u := h + t;
    var rest := a + u;
    assert rest[4..] == u && u[..32] == h && u[32..] == t && t[1..] == payload + padding;
    DropSlice(rest, 4, 0, 32);
    DropDrop(rest, 4, 32);
    DropDrop(rest, 36, 1);
    assert rest[37..] == payload + padding;
    DropSlice(rest, 37, 0, |payload|);
    assert (payload + padding)[..|payload|] == payload;
  }

  // ---------------------------------------------------------------------------------------
  // The destination
  // ---------------------------------------------------------------------------------------

  /** A known tag: when it was registered and the session key it goes with. */
  datatype Entry = Entry(creationTime: nat, key: Key)

  /** m_Tags[SessionTag (tag, ts)] = decryption, for each tag: an existing entry keeps its time but
      gets the new key. */
  function Registered(m: map<Tag, Entry>, tags: seq<Tag>, key: Key, ts: nat): map<Tag, Entry> {
    if tags == [] then m
    else
      var r := Registered(m, tags[..|tags| - 1], key, ts);
      var t := tags[|tags| - 1];
      r[t := Entry(if t in r then r[t].creationTime else ts, key)]
  }

  function Times(m: map<Tag, Entry>): map<Tag, nat> {
    map t | t in m :: m[t].creationTime
  }

  /** The times are those of the tag protocol. */
  lemma {:induction false} RegisteredTimes(m: map<Tag, Entry>, tags: seq<Tag>, key: Key, ts: nat)
    ensures Times(Registered(m, tags, key, ts)) == T.Register(Times(m), tags, ts)
    decreases |tags|
  {
    if tags != [] {
      RegisteredTimes(m, tags[..|tags| - 1], key, ts);
    }
  }

  /** CBC decryption of the whole blocks; a tail stays as it is. */
  function DecryptedBlocks(p: Primitives, key: Key, iv: Block, c: seq<byte>): seq<byte> {
    var n := |c| / 16 * 16;
    Decrypted(p.aes, key, iv, c[..n]) + c[n..]
  }

  function HandledBlock(p: Primitives, m: map<Tag, Entry>, plain: seq<byte>, key: Key, direct: bool, ts: nat): (map<Tag, Entry>, seq<Dispatch>) {
    var (tags, payload) := ParseBlock(p, plain);
    (Registered(m, tags, key, ts), if payload.Some? then ParsePayload(payload.value, direct) else [])
  }

  /** What a Garlic message does to the tags, and what it dispatches. A length beyond the payload ends
      here; the source compares it with the length of the whole message. */
  function Handled(p: Primitives, m: map<Tag, Entry>, payload: seq<byte>, direct: bool, ts: nat): (map<Tag, Entry>, seq<Dispatch>) {
    if |payload| < 36 then (m, [])
    else
      var length := Field(payload[..4]);
      var buf := payload[4..];
      if length > |buf| then (m, [])
      else
        var tag: Tag := buf[..32];
        if tag in m then
          if length >= 32 then
            HandledBlock(p, m - {tag}, DecryptedBlocks(p, m[tag].key, IvOf(p, tag), buf[32..length]), m[tag].key, direct, ts)
          else (m - {tag}, [])
        else if length >= ELGAMAL_SIZE then
          var e := p.decrypt(buf[..ELGAMAL_SIZE]);
          if e.None? || |e.value| < 64 then (m, [])
          else
            var key: Key, preIV: Key := e.value[..32], e.value[32..64];
            HandledBlock(p, m, DecryptedBlocks(p, key, IvOf(p, preIV), buf[ELGAMAL_SIZE..length]), key, direct, ts)
        else (m, [])
  }

  /** A message under a known tag: the tag is used up, the new tags are registered, the cloves are
      dispatched. */
  lemma {:induction false} TaggedUnwraps(p: Primitives, m: map<Tag, Entry>, tag: Tag, key: Key, tags: seq<Tag>, cloves: seq<Clove>,
      msgID: u32, expiration: u64, padding: seq<byte>, direct: bool, ts: nat)
    requires Laws(p) && tag in m && m[tag].key == key && AllProper(cloves) && |cloves| < 256 && |tags| < 0x1_0000
    requires |padding| == Padding16(32 * |tags| + 39 + |PayloadBytes(cloves, msgID, expiration)|)
    requires 32 * |tags| + |PayloadBytes(cloves, msgID, expiration)| < 0x1_0000_0000 - 100
    ensures Handled(p, m, MessageBytes(TaggedBytes(p, tag, key, BlockBytes(p, tags, PayloadBytes(cloves, msgID, expiration), padding))), direct, ts)
         == (Registered(m - {tag}, tags, key, ts), Dispatches(cloves, direct))
  {
    hide BE, ToBE, Pow256, BlockBytes, PayloadBytes, ParseBlock, ParsePayload, Registered, Dispatches, Encrypted, Decrypted, AllProper;
    var payload := PayloadBytes(cloves, msgID, expiration);
    var block := BlockBytes(p, tags, payload, padding);
    var body := TaggedBytes(p, tag, key, block);
    LengthReads(body);
    BlockDecrypts(p, key, IvOf(p, tag), block);
    assert body[..32] == tag && body[32..|body|] == Encrypted(p.aes, key, IvOf(p, tag), block);
    BlockParses(p, tags, payload, padding);
    PayloadParses(cloves, msgID, expiration, direct);
  }

  lemma LengthReads(body: seq<byte>)
    requires |body| < 0x1_0000_0000
    ensures var m := MessageBytes(body); Field(m[..4]) == |body| && m[4..] == body
  {
    hide BE, ToBE, Pow256;
    ModUnique(|body|, 0x1_0000_0000, 0, |body|);
    Pow256Values();
    BERoundTrip(|body|, 4);
    assert MessageBytes(body)[..4] == ToBE(|body|, 4);
  }

  lemma {:induction false} BlockDecrypts(p: Primitives, key: Key, iv: Block, block: seq<byte>)
    requires Laws(p) && |block| % 16 == 0
    ensures DecryptedBlocks(p, key, iv, Encrypted(p.aes, key, iv, block)) == block
  {
    hide Encrypted, Decrypted;
    var c := Encrypted(p.aes, key, iv, block);
    assert |c| / 16 * 16 == |c|;
    assert c[..|c|] == c && c[|c|..] == [];
    DecryptedEncrypted(p.aes, key, iv, block);
  }

  /** A message that opens a session, as long as its ciphertext does not begin like a known tag. */
  lemma {:induction false} ElGamalUnwraps(p: Primitives, m: map<Tag, Entry>, preIV: Key, filler: seq<byte>, key: Key, tags: seq<Tag>, cloves: seq<Clove>,
      msgID: u32, expiration: u64, padding: seq<byte>, direct: bool, ts: nat)
    requires Laws(p) && |filler| == 158 && AllProper(cloves) && |cloves| < 256 && |tags| < 0x1_0000
    requires |p.encrypt(key + preIV + filler)| == ELGAMAL_SIZE && p.encrypt(key + preIV + filler)[..32] !in m
    requires |padding| == Padding16(32 * |tags| + 39 + |PayloadBytes(cloves, msgID, expiration)|)
    requires 32 * |tags| + |PayloadBytes(cloves, msgID, expiration)| < 0x1_0000_0000 - 1000
    ensures Handled(p, m, MessageBytes(ElGamalBytes(p, preIV, filler, key, BlockBytes(p, tags, PayloadBytes(cloves, msgID, expiration), padding))), direct, ts)
         == (Registered(m, tags, key, ts), Dispatches(cloves, direct))
  {
    hide BE, ToBE, Pow256, BlockBytes, PayloadBytes, ParseBlock, ParsePayload, Registered, Dispatches, Encrypted, Decrypted, AllProper;
    var payload := PayloadBytes(cloves, msgID, expiration);
    var block := BlockBytes(p, tags, payload, padding);
    var body := ElGamalBytes(p, preIV, filler, key, block);
    var e := key + preIV + filler;
    LengthReads(body);
    BlockDecrypts(p, key, IvOf(p, preIV), block);
    assert body[..ELGAMAL_SIZE] == p.encrypt(e) && body[ELGAMAL_SIZE..|body|] == Encrypted(p.aes, key, IvOf(p, preIV), block);
    assert body[..32] == p.encrypt(e)[..32];
    assert e[..32] == key && e[32..64] == preIV;
    BlockParses(p, tags, payload, padding);
    PayloadParses(cloves, msgID, expiration, direct);
  }

  class GarlicDestination {
    const prim: Primitives
    var tags: map<Tag, Entry>

    constructor (p: Primitives)
      ensures prim == p && tags == map[]
    {
      prim, tags := p, map[];
    }

    method AddSessionKey(key: Key, tag: Tag, ts: nat)
      modifies this`tags
      ensures tags == Registered(old(tags), [tag], key, ts)
    {
      RegisterOne(tags, tag, key, ts);
      tags := tags[tag := Entry(if tag in tags then tags[tag].creationTime else ts, key)];
    }

    method HandleGarlicMessage(payload: seq<byte>, direct: bool, ts: nat) returns (out: seq<Dispatch>)
      modifies this`tags
      ensures (tags, out) == Handled(prim, old(tags), payload, direct, ts)
    {
      hide BE, HandledBlock, Decrypted, Registered;
      out := [];
      if |payload| < 36 { return; }
      var length := Field(payload[..4]);
      var buf := payload[4..];
      if length > |buf| { return; }
      var tag: Tag := buf[..32];
      if tag in tags {
        var key := tags[tag].key;
        tags := tags - {tag};
        if length >= 32 {
          out := HandleAESBlock(DecryptedBlocks(prim, key, IvOf(prim, tag), buf[32..length]), key, direct, ts);
        }
      } else if length >= ELGAMAL_SIZE {
        var elGamal := prim.decrypt(buf[..ELGAMAL_SIZE]);
        if elGamal.None? || |elGamal.value| < 64 { return; }
        var key: Key, preIV: Key := elGamal.value[..32], elGamal.value[32..64];
        out := HandleAESBlock(DecryptedBlocks(prim, key, IvOf(prim, preIV), buf[ELGAMAL_SIZE..length]), key, direct, ts);
      }
    }

    method HandleAESBlock(plain: seq<byte>, key: Key, direct: bool, ts: nat) returns (out: seq<Dispatch>)
      modifies this`tags
      ensures (tags, out) == HandledBlock(prim, old(tags), plain, key, direct, ts)
    {
      hide BE, ParsePayload, Registered, ReadTags;
      out := [];
      NoneRegistered(tags, key, ts);
      if |plain| < 2 { return; }
      var tagCount := Field(plain[..2]);
      var buf := plain[2..];
      if tagCount * 32 > |buf| { return; }
      ghost var was, newTags := tags, ReadTags(buf[..32 * tagCount], tagCount);
      assert newTags[..0] == [];
      for i := 0 to tagCount
        invariant tags == Registered(was, newTags[..i], key, ts)
      {
        var t: Tag := buf[32 * i..32 * i + 32];
        TagAt(buf[..32 * tagCount], tagCount, i);
        assert t == buf[..32 * tagCount][32 * i..32 * i + 32];
        RegisterNext(was, newTags, i, key, ts);
        tags := tags[t := Entry(if t in tags then tags[t].creationTime else ts, key)];
      }
      assert newTags[..tagCount] == newTags && buf[..32 * tagCount] == plain[2..2 + 32 * tagCount];
      assert buf[32 * tagCount..] == plain[2 + 32 * tagCount..];
      buf := buf[32 * tagCount..];
      if |buf| < 37 { return; }
      var payloadSize := Field(buf[..4]);
      if payloadSize > |buf| { return; }
      var payloadHash, at := buf[4..36], 36;
      if buf[at] != 0 { at := at + 32; }
      at := at + 1;
      if at + payloadSize > |buf| { return; }
      var payload := buf[at..at + payloadSize];
      if payloadHash != prim.sha256(payload) { return; }
      out := HandleGarlicPayload(payload, direct);
    }

    method HandleGarlicPayload(payload: seq<byte>, direct: bool) returns (out: seq<Dispatch>)
      ensures out == ParsePayload(payload, direct)
    {
      out := [];
      if payload == [] { return; }
      var left: nat := payload[0];
      var buf := payload[1..];
      ghost var all := ParsePayload(payload, direct);
      hide *;
      while left > 0
        invariant all == out + ParseCloves(buf, left, direct)
      {
        var d, size, rest := HandleClove(buf, direct);
        Continue(all, out, buf, left, direct, d, size, rest);
        if d.Some? { out := out + [d.value]; }
        buf := rest;
        left := if size.Some? then left - 1 else 0;
      }
      NoClove(buf, direct);
    }

    method HandleClove(buf: seq<byte>, direct: bool) returns (d: Option<Dispatch>, size: Option<nat>, rest: seq<byte>)
      ensures (d, size) == ParseClove(buf, direct) && rest == if size.Some? then buf[size.value..] else []
    {
      hide BE, TunnelID, MessageLength;
      d, size, rest := None, None, [];
      if buf == [] { return; }
      var flag, offset := buf[0], 1;
      if flag >= 0x80 { offset := offset + 32; }
      var kind := flag / 32 % 4;
      var hash: Key := Zeros(32);
      if kind != 0 {
        if offset + 32 > |buf| { return; }
        hash := buf[offset..offset + 32];
        offset := offset + 32;
      }
      if offset > |buf| { return; }
      if kind == 3 {
        if offset + 4 <= |buf| {
          var gwTunnel := TunnelID(buf[offset..offset + 4]);
          offset := offset + 4;
          d := Some(Dispatch(Tunnel(hash, gwTunnel), buf[offset..][..MessageLength(buf[offset..])]));
        }
      } else if kind != 2 || direct {
        var delivery := if kind == 0 then Local else if kind == 1 then Destination(hash) else Router(hash);
        d := Some(Dispatch(delivery, buf[offset..][..MessageLength(buf[offset..])]));
      }
      offset := offset + MessageLength(buf[offset..]) + 15;
      if offset <= |buf| { size, rest := Some(offset), buf[offset..]; }
    }

    /** The incoming half of CleanupExpiredTags. */
    method CleanupIncomingTags(ts: nat)
      modifies this`tags
      ensures Times(tags) == T.ExpireIncoming(Times(old(tags)), ts)
      ensures forall t :: t in tags ==> t in old(tags) && tags[t] == old(tags)[t]
    {
      ghost var was := tags;
      var todo := tags.Keys;
      while todo != {}
        invariant todo <= tags.Keys
        invariant forall t :: t in tags ==> t in was && tags[t] == was[t]
        invariant forall t {:trigger t in tags} {:trigger t in was} :: t in was ==>
          (t in tags <==> t in todo || !(ts > was[t].creationTime + T.INCOMING_TAGS_EXPIRATION_TIMEOUT))
      {
        var t :| t in todo;
        if ts > tags[t].creationTime + T.INCOMING_TAGS_EXPIRATION_TIMEOUT {
          tags := tags - {t};
        }
        todo := todo - {t};
      }
    }
  }

  lemma Continue(all: seq<Dispatch>, out: seq<Dispatch>, buf: seq<byte>, left: nat, direct: bool,
      d: Option<Dispatch>, size: Option<nat>, rest: seq<byte>)
    requires left > 0 && all == out + ParseCloves(buf, left, direct) && (d, size) == ParseClove(buf, direct)
    requires rest == if size.Some? then buf[size.value..] else []
    ensures all == (if d.Some? then out + [d.value] else out) + ParseCloves(rest, if size.Some? then left - 1 else 0, direct)
  {
    hide ParseClove;
  }

  lemma {:induction false} NoClove(buf: seq<byte>, direct: bool)
    ensures ParseCloves(buf, 0, direct) == []
  {
  }

  lemma {:induction false} RegisterOne(m: map<Tag, Entry>, tag: Tag, key: Key, ts: nat)
    ensures Registered(m, [tag], key, ts) == m[tag := Entry(if tag in m then m[tag].creationTime else ts, key)]
  {
    assert [tag][..0] == [];
    assert Registered(m, [tag][..0], key, ts) == m;
  }

  lemma {:induction false} NoneRegistered(m: map<Tag, Entry>, key: Key, ts: nat)
    ensures Registered(m, [], key, ts) == m
  {
  }

  lemma {:induction false} TagAt(s: seq<byte>, n: nat, i: nat)
    requires |s| == 32 * n && i < n
    ensures ReadTags(s, n)[i] == s[32 * i..32 * i + 32]
    decreases n
  {
    if i < n - 1 {
      TagAt(s[..32 * (n - 1)], n - 1, i);
    }
  }

  lemma {:induction false} RegisterNext(m: map<Tag, Entry>, tags: seq<Tag>, i: nat, key: Key, ts: nat)
    requires i < |tags|
    ensures var r := Registered(m, tags[..i], key, ts);
      Registered(m, tags[..i + 1], key, ts) == r[tags[i] := Entry(if tags[i] in r then r[tags[i]].creationTime else ts, key)]
  {
    assert tags[..i + 1][..i] == tags[..i];
  }

  // ---------------------------------------------------------------------------------------
  // The routing session
  // ---------------------------------------------------------------------------------------

  const LEASET_CONFIRMATION_TIMEOUT := 4000          // milliseconds

  datatype LeaseSetUpdateStatus = UpToDate | Updated | Submitted | DoNotSend

  /** The far end, as far as wrapping needs it. */
  datatype RoutingDestination = RoutingDestination(hash: Key, isDestination: bool)

  /** Clocks, random bytes and what the owner supplies: an inbound tunnel and the delivery status
      message already wrapped for it, and the owner's leaseset in a DatabaseStore message. */
  datatype Env = Env(ts: nat, millis: u64, msgID: u32, made: seq<Tag>, preIV: Key, filler: seq<byte>, garbage: seq<byte>,
    statusID: u32, leaseSetID: u32, messageID: u32, inbound: Option<(Key, u32)>, status: seq<byte>, leaseSet: seq<byte>)

  function Expiration(env: Env): u64 {
    (env.millis + 8000) % 0x1_0000_0000_0000_0000
  }

  /** The cloves of a message, in order. */
  function Cloves(env: Env, dest: Option<RoutingDestination>, acked: bool, leaseSet: bool, msg: Option<seq<byte>>): seq<Clove>
    requires acked ==> env.inbound.Some?
  {
    (if acked then [Clove(Tunnel(env.inbound.value.0, env.inbound.value.1), env.status, env.statusID, Expiration(env))] else [])
    + (if leaseSet then [Clove(Local, env.leaseSet, env.leaseSetID, Expiration(env))] else [])
    + (if msg.None? then []
       else [Clove(if dest.Some? && dest.value.isDestination then Destination(dest.value.hash) else Local, msg.value, env.messageID, Expiration(env))])
  }

  /** The whole Garlic message for a tag, or for none. */
  function WrappedBytes(p: Primitives, key: Key, tag: Option<Tag>, env: Env, tags: seq<Tag>, payload: seq<byte>): seq<byte>
    requires |env.garbage| >= 16 && |env.filler| == 158
  {
    var block := BlockBytes(p, tags, payload, env.garbage[..Padding16(32 * |tags| + 39 + |payload|)]);
    MessageBytes(if tag.Some? then TaggedBytes(p, tag.value, key, block) else ElGamalBytes(p, env.preIV, env.filler, key, block))
  }

  /** The leaseset has changed, or a submission has gone unconfirmed for four seconds. */
  predicate LeaseSetDue(status: LeaseSetUpdateStatus, submitted: nat, millis: u64) {
    status == Updated || (status == Submitted && millis > submitted + LEASET_CONFIRMATION_TIMEOUT)
  }

  class GarlicRoutingSession {
    const prim: Primitives
    const owner: bool
    const destination: Option<RoutingDestination>
    const sessionKey: Key
    const numTags: nat
    var sessionTags: seq<T.SessionTag>
    var unconfirmedTagsMsgs: map<u32, T.UnconfirmedTags>
    var deliveryStatusSessions: set<u32>        // the owner's entries for this session
    var leaseSetUpdateStatus: LeaseSetUpdateStatus
    var leaseSetUpdateMsgID: u32
    var leaseSetSubmissionTime: nat

    constructor (p: Primitives, dest: RoutingDestination, key: Key, n: nat, attachLeaseSet: bool)
      ensures prim == p && owner && destination == Some(dest) && sessionKey == key && numTags == n
      ensures Sender() == T.EMPTY.sender && leaseSetUpdateStatus == (if attachLeaseSet then Updated else DoNotSend)
    {
      prim, owner, destination, sessionKey, numTags := p, true, Some(dest), key, n;
      sessionTags, unconfirmedTagsMsgs, deliveryStatusSessions := [], map[], {};
      leaseSetUpdateStatus := if attachLeaseSet then Updated else DoNotSend;
      leaseSetUpdateMsgID, leaseSetSubmissionTime := 0, 0;
    }

    /** The one-time session that encrypts a single delivery status message. */
    constructor OneTime(p: Primitives, key: Key, tag: Tag, ts: nat)
      ensures prim == p && !owner && destination == None && sessionKey == key && numTags == 1
      ensures Sender() == T.EMPTY.sender.(tags := [T.SessionTag(tag, ts)]) && leaseSetUpdateStatus == DoNotSend
    {
      prim, owner, destination, sessionKey, numTags := p, false, None, key, 1;
      sessionTags, unconfirmedTagsMsgs, deliveryStatusSessions := [T.SessionTag(tag, ts)], map[], {};
      leaseSetUpdateStatus, leaseSetUpdateMsgID, leaseSetSubmissionTime := DoNotSend, 0, 0;
    }

    /** The session's state in the tag protocol. */
    function Sender(): T.Sender
      reads this
    {
      T.Sender(sessionTags, unconfirmedTagsMsgs, deliveryStatusSessions)
    }

    method TagsConfirmed(msgID: u32, ts: nat)
      modifies this`sessionTags, this`unconfirmedTagsMsgs
      ensures Sender() == T.Confirm(old(Sender()), msgID, ts)
    {
      if msgID in unconfirmedTagsMsgs {
        var tags := unconfirmedTagsMsgs[msgID];
        if ts < tags.created + T.OUTGOING_TAGS_EXPIRATION_TIMEOUT {
          var was := sessionTags;
          for i := 0 to |tags.tags|
            invariant sessionTags == was + tags.tags[..i] && unconfirmedTagsMsgs == old(unconfirmedTagsMsgs)
          {
            sessionTags := sessionTags + [tags.tags[i]];
          }
          assert tags.tags[..|tags.tags|] == tags.tags;
        }
        unconfirmedTagsMsgs := unconfirmedTagsMsgs - {msgID};
      }
    }

    method CleanupUnconfirmedTags(ts: nat) returns (ret: bool)
      modifies this`unconfirmedTagsMsgs, this`deliveryStatusSessions
      ensures owner ==> Sender() == T.ExpireUnconfirmed(old(Sender()), ts)
      ensures !owner ==> Sender() == T.ExpireUnconfirmed(old(Sender()), ts).(awaited := old(deliveryStatusSessions))
      ensures ret <==> unconfirmedTagsMsgs != old(unconfirmedTagsMsgs)
    {
      ret := false;
      var was := unconfirmedTagsMsgs;
      var todo := unconfirmedTagsMsgs.Keys;
      while todo != {}
        invariant todo <= unconfirmedTagsMsgs.Keys
        invariant unconfirmedTagsMsgs.Keys <= was.Keys && forall id :: id in unconfirmedTagsMsgs ==> unconfirmedTagsMsgs[id] == was[id]
        invariant forall id {:trigger id in unconfirmedTagsMsgs} :: id in was ==>
          (id in unconfirmedTagsMsgs <==> id in todo || !T.Overdue(was[id], ts))
        invariant deliveryStatusSessions == if owner then old(deliveryStatusSessions) - (was.Keys - unconfirmedTagsMsgs.Keys) else old(deliveryStatusSessions)
        invariant ret <==> unconfirmedTagsMsgs.Keys != was.Keys
      {
        var id :| id in todo;
        if ts >= unconfirmedTagsMsgs[id].created + T.OUTGOING_TAGS_CONFIRMATION_TIMEOUT {
          if owner { deliveryStatusSessions := deliveryStatusSessions - {id}; }
          unconfirmedTagsMsgs := unconfirmedTagsMsgs - {id};
          assert id in was.Keys;
          ret := true;
        }
        todo := todo - {id};
      }
      ExpiredKeys(T.Sender(sessionTags, was, {}), ts, unconfirmedTagsMsgs);
    }

    /** Expired tags, unconfirmed batches, and a leaseset update nobody confirmed; returns true if
        something is left. */
    method CleanupExpiredTags(ts: nat) returns (left: bool)
      modifies this`sessionTags, this`unconfirmedTagsMsgs, this`deliveryStatusSessions, this`leaseSetUpdateMsgID
      ensures var overdue := old(leaseSetUpdateMsgID) != 0 && ts * 1000 > leaseSetSubmissionTime + LEASET_CONFIRMATION_TIMEOUT;
        && Sender() == Cleaned(old(Sender()), ts, owner, if overdue then {old(leaseSetUpdateMsgID)} else {})
        && leaseSetUpdateMsgID == if overdue then 0 else old(leaseSetUpdateMsgID)
      ensures left <==> sessionTags != [] || unconfirmedTagsMsgs != map[]
    {
      hide T.Unexpired, T.ExpireUnconfirmed, T.Usable;
      var i := 0;
      ghost var was := sessionTags;
      while i < |sessionTags|
        invariant 0 <= i <= |sessionTags|
        invariant T.Unexpired(was, ts) == sessionTags[..i] + T.Unexpired(sessionTags[i..], ts)
        invariant unconfirmedTagsMsgs == old(unconfirmedTagsMsgs) && deliveryStatusSessions == old(deliveryStatusSessions)
        invariant leaseSetUpdateMsgID == old(leaseSetUpdateMsgID)
        decreases |sessionTags| - i
      {
        UnexpiredNext(sessionTags, i, ts);
        if ts >= sessionTags[i].creationTime + T.OUTGOING_TAGS_EXPIRATION_TIMEOUT {
          sessionTags := sessionTags[..i] + sessionTags[i + 1..];
        } else {
          i := i + 1;
        }
      }
      AllSeen(sessionTags, i, ts);
      var deleted := CleanupUnconfirmedTags(ts);
      if leaseSetUpdateMsgID != 0 && ts * 1000 > leaseSetSubmissionTime + LEASET_CONFIRMATION_TIMEOUT {
        if owner { deliveryStatusSessions := deliveryStatusSessions - {leaseSetUpdateMsgID}; }
        leaseSetUpdateMsgID := 0;
      }
      left := sessionTags != [] || unconfirmedTagsMsgs != map[];
    }

    /** m_NumTags random tags, stamped with the time of their making. */
    method GenerateSessionTags(env: Env) returns (tags: T.UnconfirmedTags)
      requires |env.made| >= numTags
      ensures tags == T.UnconfirmedTags(T.Stamped(env.made[..numTags], env.ts), env.ts)
    {
      var s: seq<T.SessionTag> := [];
      for i := 0 to numTags
        invariant |s| == i && forall k :: 0 <= k < i ==> s[k] == T.SessionTag(env.made[k], env.ts)
      {
        s := s + [T.SessionTag(env.made[i], env.ts)];
      }
      assert s == T.Stamped(env.made[..numTags], env.ts);
      tags := T.UnconfirmedTags(s, env.ts);
    }

    /** Skips expired tags at the front and takes the next one. */
    method TakeTag(ts: nat) returns (tag: Option<T.SessionTag>)
      modifies this`sessionTags
      ensures (tag, sessionTags) == if numTags > 0 then T.Pick(old(sessionTags), ts) else (None, old(sessionTags))
    {
      tag := None;
      if numTags > 0 {
        while sessionTags != [] && tag.None?
          invariant tag.None? ==> T.Pick(old(sessionTags), ts) == T.Pick(sessionTags, ts)
          invariant tag.Some? ==> T.Pick(old(sessionTags), ts) == (tag, sessionTags)
          decreases |sessionTags|
        {
          if ts < sessionTags[0].creationTime + T.OUTGOING_TAGS_EXPIRATION_TIMEOUT {
            tag := Some(sessionTags[0]);
          }
          sessionTags := sessionTags[1..];
        }
      }
    }

    /** CreateGarlicPayload, up to printing: who is asked to confirm, and whether the leaseset goes
        along. A leaseset submission that was not confirmed for four seconds is repeated. */
    method Attach(env: Env, newTags: Option<T.UnconfirmedTags>) returns (acked: bool, leaseSet: bool)
      requires newTags.Some? ==> owner
      modifies this`unconfirmedTagsMsgs, this`deliveryStatusSessions, this`leaseSetUpdateStatus, this`leaseSetUpdateMsgID, this`leaseSetSubmissionTime
      ensures leaseSet <==> owner && LeaseSetDue(old(leaseSetUpdateStatus), old(leaseSetSubmissionTime), env.millis)
      ensures acked <==> env.inbound.Some? && (newTags.Some? || leaseSet)
      ensures var batch := if newTags.Some? then newTags.value else T.UnconfirmedTags([], 0);
        Sender() == Without(T.Wrapped(old(Sender()), env.msgID, batch, newTags.Some?, acked),
          if leaseSet && old(leaseSetUpdateMsgID) != 0 then {old(leaseSetUpdateMsgID)} else {})
      ensures leaseSet ==> leaseSetUpdateStatus == Submitted && leaseSetUpdateMsgID == env.msgID && leaseSetSubmissionTime == env.millis
      ensures !leaseSet ==> leaseSetUpdateStatus == old(leaseSetUpdateStatus) && leaseSetUpdateMsgID == old(leaseSetUpdateMsgID)
      ensures !leaseSet ==> leaseSetSubmissionTime == old(leaseSetSubmissionTime)
    {
      acked, leaseSet := false, false;
      if owner {
        if leaseSetUpdateStatus == Submitted && env.millis > leaseSetSubmissionTime + LEASET_CONFIRMATION_TIMEOUT {
          leaseSetUpdateStatus := Updated;
        }
        if newTags.Some? || leaseSetUpdateStatus == Updated {
          if env.inbound.Some? {
            acked := true;
            if newTags.Some? && env.msgID !in unconfirmedTagsMsgs {
              unconfirmedTagsMsgs := unconfirmedTagsMsgs[env.msgID := newTags.value];
            }
            deliveryStatusSessions := deliveryStatusSessions + {env.msgID};
          }
        }
        if leaseSetUpdateStatus == Updated {
          if leaseSetUpdateMsgID != 0 { deliveryStatusSessions := deliveryStatusSessions - {leaseSetUpdateMsgID}; }
          leaseSetUpdateStatus := Submitted;
          leaseSetUpdateMsgID := env.msgID;
          leaseSetSubmissionTime := env.millis;
          leaseSet := true;
        }
      }
    }

    /** None when there is neither a tag nor a destination to encrypt for. */
    method WrapSingleMessage(msg: Option<seq<byte>>, env: Env) returns (m: Option<seq<byte>>,
        ghost tag: Option<T.SessionTag>, ghost creates: bool, ghost acked: bool, ghost leaseSet: bool)
      requires |env.made| >= numTags && |env.garbage| >= 16 && |env.filler| == 158
      modifies this
      ensures (tag, sessionTags) == if numTags > 0 then T.Pick(old(sessionTags), env.ts) else (None, old(sessionTags))
      ensures m.None? <==> tag.None? && destination.None?
      ensures m.None? ==> Sender() == old(Sender()).(tags := sessionTags)
      ensures m.Some? ==>
        && (creates <==> owner && T.CreatesTags(|sessionTags|, numTags))
        && (leaseSet <==> owner && LeaseSetDue(old(leaseSetUpdateStatus), old(leaseSetSubmissionTime), env.millis))
        && (acked <==> env.inbound.Some? && (creates || leaseSet))
        && Sender() == Without(
             T.Wrapped(old(Sender()).(tags := sessionTags), env.msgID,
               if creates then T.UnconfirmedTags(T.Stamped(env.made[..numTags], env.ts), env.ts) else T.UnconfirmedTags([], 0), creates, acked),
             if leaseSet && old(leaseSetUpdateMsgID) != 0 then {old(leaseSetUpdateMsgID)} else {})
        && m.value == WrappedBytes(prim, sessionKey, if tag.Some? then Some(tag.value.tag) else None, env,
             if creates then env.made[..numTags] else [],
             PayloadBytes(Cloves(env, destination, acked, leaseSet, msg), env.msgID, Expiration(env)))
    {
      hide BlockBytes, PayloadBytes, Encrypted, ToBE, MessageBytes;
      var found := TakeTag(env.ts);
      tag := found;
      creates, acked, leaseSet := false, false, false;
      if found.None? && destination.None? {
        return None, tag, creates, acked, leaseSet;
      }
      var createNewTags := owner && numTags != 0 && |sessionTags| <= numTags * 2 / 3;
      var newTags: Option<T.UnconfirmedTags> := None;
      if createNewTags {
        var generated := GenerateSessionTags(env);
        newTags := Some(generated);
      }
      var ack, ls := Attach(env, newTags);
      creates, acked, leaseSet := createNewTags, ack, ls;
      var payload := PayloadBytes(Cloves(env, destination, ack, ls, msg), env.msgID, Expiration(env));
      var tags := if createNewTags then env.made[..numTags] else [];
      m := Some(WrappedBytes(prim, sessionKey, if found.Some? then Some(found.value.tag) else None, env, tags, payload));
    }

    /** HandleDeliveryStatusMessage and MessageConfirmed. */
    method HandleDeliveryStatus(msgID: u32, ts: nat)
      modifies this
      ensures var known, update := msgID in old(deliveryStatusSessions), msgID == old(leaseSetUpdateMsgID);
        && (!known ==> Sender() == old(Sender()) && leaseSetUpdateStatus == old(leaseSetUpdateStatus) && leaseSetUpdateMsgID == old(leaseSetUpdateMsgID))
        && (known && update ==> Sender() == T.Acknowledge(old(Sender()), msgID, ts, false) && leaseSetUpdateStatus == UpToDate && leaseSetUpdateMsgID == 0)
        && (known && !update ==>
              var overdue := old(leaseSetUpdateMsgID) != 0 && ts * 1000 > leaseSetSubmissionTime + LEASET_CONFIRMATION_TIMEOUT;
              && leaseSetUpdateStatus == old(leaseSetUpdateStatus)
              && Sender() == Cleaned(T.Acknowledge(old(Sender()), msgID, ts, false), ts, owner, if overdue then {old(leaseSetUpdateMsgID)} else {}))
    {
      if msgID in deliveryStatusSessions {
        deliveryStatusSessions := deliveryStatusSessions - {msgID};
        TagsConfirmed(msgID, ts);
        if msgID == leaseSetUpdateMsgID {
          leaseSetUpdateStatus := UpToDate;
          leaseSetUpdateMsgID := 0;
        } else {
          var left := CleanupExpiredTags(ts);
        }
      }
    }
  }

  /** CleanupExpiredTags: without an owner there are no acknowledgements to give up. */
  function Cleaned(s: T.Sender, ts: nat, owner: bool, gone: set<u32>): T.Sender {
    if owner then Without(T.ExpireTags(s, ts), gone) else T.ExpireTags(s, ts).(awaited := s.awaited)
  }

  function Without(s: T.Sender, gone: set<u32>): T.Sender {
    s.(awaited := s.awaited - gone)
  }

  lemma ExpiredKeys(s: T.Sender, ts: nat, left: map<u32, T.UnconfirmedTags>)
    requires left.Keys <= s.unconfirmed.Keys && forall id :: id in left ==> left[id] == s.unconfirmed[id]
    requires forall id :: id in s.unconfirmed ==> (id in left <==> !T.Overdue(s.unconfirmed[id], ts))
    ensures T.ExpireUnconfirmed(s, ts).unconfirmed == left
    ensures (set id | id in s.unconfirmed && T.Overdue(s.unconfirmed[id], ts)) == s.unconfirmed.Keys - left.Keys
  {
    var gone := set id | id in s.unconfirmed && T.Overdue(s.unconfirmed[id], ts);
    assert gone == s.unconfirmed.Keys - left.Keys;
    assert (s.unconfirmed - gone).Keys == left.Keys;
  }

  lemma {:induction false} UnexpiredNext(tags: seq<T.SessionTag>, i: nat, ts: nat)
    requires i < |tags|
    ensures T.Unexpired(tags[i..], ts) ==
      (if ts >= tags[i].creationTime + T.OUTGOING_TAGS_EXPIRATION_TIMEOUT then [] else [tags[i]]) + T.Unexpired(tags[i + 1..], ts)
    ensures (tags[..i] + tags[i + 1..])[..i] == tags[..i] && (tags[..i] + tags[i + 1..])[i..] == tags[i + 1..]
    ensures tags[..i + 1] == tags[..i] + [tags[i]]
  {
    assert tags[i..][1..] == tags[i + 1..];
  }

  lemma {:induction false} AllSeen(tags: seq<T.SessionTag>, i: nat, ts: nat)
    requires i == |tags|
    ensures tags[..i] + T.Unexpired(tags[i..], ts) == tags
  {
  }

  // ---------------------------------------------------------------------------------------
  // From session to destination
  // ---------------------------------------------------------------------------------------

  lemma ProperBound(m: seq<byte>)
    requires Proper(m)
    ensures |m| < 0x1_0010
  {
    Pow256Values();
    BEBound(m[13..15]);
  }

  lemma PayloadBound(env: Env, dest: Option<RoutingDestination>, acked: bool, leaseSet: bool, msg: Option<seq<byte>>)
    requires Proper(env.status) && Proper(env.leaseSet) && (msg.Some? ==> Proper(msg.value)) && (acked ==> env.inbound.Some?)
    ensures var c := Cloves(env, dest, acked, leaseSet, msg);
      |c| <= 3 && AllProper(c) && |PayloadBytes(c, env.msgID, Expiration(env))| < 0x10_0000
  {
    hide ToBE, Proper, PayloadBytes, CloveBytes;
    ProperBound(env.status); ProperBound(env.leaseSet);
    if msg.Some? { ProperBound(msg.value); }
    var c := Cloves(env, dest, acked, leaseSet, msg);
    forall i | 0 <= i < |c| ensures Proper(c[i].message) && |c[i].message| < 0x1_0010 {}
    ClovesBound(c);
    PayloadSize(c, env.msgID, Expiration(env));
  }

  lemma {:induction false} PayloadSize(c: seq<Clove>, msgID: u32, expiration: u64)
    requires |c| < 256
    ensures |PayloadBytes(c, msgID, expiration)| == |ClovesBytes(c)| + 16
  {
    hide ToBE;
  }

  lemma CloveBound(c: Clove)
    ensures |CloveBytes(c)| <= |c.message| + 52
  {
    hide ToBE;
  }

  lemma {:induction false} ClovesBound(c: seq<Clove>)
    requires forall i :: 0 <= i < |c| ==> |c[i].message| < 0x1_0010
    ensures |ClovesBytes(c)| <= |c| * 0x1_0050
    decreases |c|
  {
    hide CloveBytes;
    if c != [] {
      CloveBound(c[0]);
      ClovesBound(c[1..]);
    }
  }

  lemma CiphertextSize(p: Primitives, key: Key, preIV: Key, filler: seq<byte>)
    requires Laws(p) && |filler| == 158
    ensures |p.encrypt(key + preIV + filler)| == ELGAMAL_SIZE
  {
  }

  /** Whatever a session wraps, the destination takes apart: it registers exactly the new tags and
      dispatches exactly the cloves, in order, by the tag path and by the ElGamal path. */
  method Exchange(session: GarlicRoutingSession, dest: GarlicDestination, msg: seq<byte>, env: Env, ts: nat, direct: bool)
      returns (out: seq<Dispatch>, ghost tag: Option<T.SessionTag>, ghost creates: bool, ghost acked: bool, ghost leaseSet: bool)
    requires session.prim == dest.prim && Laws(dest.prim) && session.destination.Some? && session.numTags < 0x1_0000
    requires |env.made| >= session.numTags && |env.garbage| >= 16 && |env.filler| == 158
    requires Proper(msg) && Proper(env.status) && Proper(env.leaseSet)
    requires var t := T.Pick(session.sessionTags, env.ts).0;
      session.numTags > 0 && t.Some? ==> t.value.tag in dest.tags && dest.tags[t.value.tag].key == session.sessionKey
    requires session.numTags == 0 || T.Pick(session.sessionTags, env.ts).0.None? ==>
      dest.prim.encrypt(session.sessionKey + env.preIV + env.filler)[..32] !in dest.tags
    modifies session, dest`tags
    ensures (tag, session.sessionTags) == if session.numTags > 0 then T.Pick(old(session.sessionTags), env.ts) else (None, old(session.sessionTags))
    ensures creates <==> session.owner && T.CreatesTags(|session.sessionTags|, session.numTags)
    ensures leaseSet <==> session.owner && LeaseSetDue(old(session.leaseSetUpdateStatus), old(session.leaseSetSubmissionTime), env.millis)
    ensures acked <==> env.inbound.Some? && (creates || leaseSet)
    ensures dest.tags == Registered(if tag.Some? then old(dest.tags) - {tag.value.tag} else old(dest.tags),
      if creates then env.made[..session.numTags] else [], session.sessionKey, ts)
    ensures var far := session.destination.value;
      out == (if acked then [Dispatch(Tunnel(env.inbound.value.0, env.inbound.value.1), env.status)] else [])
        + (if leaseSet then [Dispatch(Local, env.leaseSet)] else [])
        + [Dispatch(if far.isDestination then Destination(far.hash) else Local, msg)]
  {
    hide BlockBytes, PayloadBytes, Encrypted, MessageBytes, Handled, Registered, Dispatches, Cloves, Proper, Laws, T.Pick;
    var m;
    m, tag, creates, acked, leaseSet := session.WrapSingleMessage(Some(msg), env);
    PayloadBound(env, session.destination, acked, leaseSet, Some(msg));
    ghost var tags := if creates then env.made[..session.numTags] else [];
    ghost var cloves := Cloves(env, session.destination, acked, leaseSet, Some(msg));
    ghost var padding := env.garbage[..Padding16(32 * |tags| + 39 + |PayloadBytes(cloves, env.msgID, Expiration(env))|)];
    if tag.Some? {
      TaggedUnwraps(dest.prim, dest.tags, tag.value.tag, session.sessionKey, tags, cloves, env.msgID, Expiration(env), padding, direct, ts);
    } else {
      CiphertextSize(dest.prim, session.sessionKey, env.preIV, env.filler);
      ElGamalUnwraps(dest.prim, dest.tags, env.preIV, env.filler, session.sessionKey, tags, cloves, env.msgID, Expiration(env), padding, direct, ts);
    }
    out := dest.HandleGarlicMessage(m.value, direct, ts);
    ClovesDispatched(env, session.destination.value, acked, leaseSet, msg, direct);
  }

  /** The cloves of a message one by one: the delivery status for the inbound tunnel if it is to be
      acknowledged, the lease set for the far end itself if it is due, and last the message. */
  lemma ClovesAre(env: Env, dest: Option<RoutingDestination>, acked: bool, leaseSet: bool, msg: Option<seq<byte>>)
    requires acked ==> env.inbound.Some?
    ensures var c, i, j := Cloves(env, dest, acked, leaseSet, msg), if acked then 1 else 0, if leaseSet then 1 else 0;
      && |c| == i + j + (if msg.Some? then 1 else 0)
      && (acked ==> c[0].delivery == Tunnel(env.inbound.value.0, env.inbound.value.1) && c[0].message == env.status)
      && (leaseSet ==> c[i].delivery == Local && c[i].message == env.leaseSet)
      && (msg.Some? ==> c[i + j].message == msg.value && c[i + j].cloveID == env.messageID)
      && (msg.Some? ==> c[i + j].delivery == if dest.Some? && dest.value.isDestination then Destination(dest.value.hash) else Local)
      && forall k :: 0 <= k < |c| ==> c[k].expiration == (env.millis + 8000) % 0x1_0000_0000_0000_0000
  {
  }

  lemma {:induction false} ClovesDispatched(env: Env, far: RoutingDestination, acked: bool, leaseSet: bool, msg: seq<byte>, direct: bool)
    requires acked ==> env.inbound.Some?
    ensures Dispatches(Cloves(env, Some(far), acked, leaseSet, Some(msg)), direct)
      == (if acked then [Dispatch(Tunnel(env.inbound.value.0, env.inbound.value.1), env.status)] else [])
        + (if leaseSet then [Dispatch(Local, env.leaseSet)] else [])
        + [Dispatch(if far.isDestination then Destination(far.hash) else Local, msg)]
  {
    var c := Cloves(env, Some(far), acked, leaseSet, Some(msg));
    AllDelivered(c, direct);
    ClovesAre(env, Some(far), acked, leaseSet, Some(msg));
  }

  lemma {:induction false} AllDelivered(c: seq<Clove>, direct: bool)
    requires forall k :: 0 <= k < |c| ==> !c[k].delivery.Router?
    ensures |Dispatches(c, direct)| == |c|
    ensures forall k :: 0 <= k < |c| ==> Dispatches(c, direct)[k] == Dispatch(c[k].delivery, c[k].message)
    decreases |c|
  {
    if c != [] {
      AllDelivered(c[1..], direct);
      var d := Dispatches(c, direct);
      assert d == [Dispatch(c[0].delivery, c[0].message)] + Dispatches(c[1..], direct);
      forall k | 1 <= k < |c| ensures d[k] == Dispatch(c[k].delivery, c[k].message) { assert c[k] == c[1..][k - 1]; }
    }
  }
}
