/** The one-time session tags of libdotnet/Garlic.cpp as a protocol between a routing session and a
    destination: generation, delivery, confirmation and two different expirations. */
module GarlicTags {
  import opened Wrappers
  import opened Bytes

  type Tag = s: seq<byte> | |s| == 32 witness Zeros(32)

  const INCOMING_TAGS_EXPIRATION_TIMEOUT := 960      // seconds
  const OUTGOING_TAGS_EXPIRATION_TIMEOUT := 720
  const OUTGOING_TAGS_CONFIRMATION_TIMEOUT := 10

  datatype SessionTag = SessionTag(tag: Tag, creationTime: nat)

  datatype UnconfirmedTags = UnconfirmedTags(tags: seq<SessionTag>, created: nat)

  // ---------------------------------------------------------------------------------------
  // The sending side
  // ---------------------------------------------------------------------------------------

  /** Tags ready for use, batches waiting for their acknowledgement, and the message ids whose
      acknowledgement is still expected. */
  datatype Sender = Sender(tags: seq<SessionTag>, unconfirmed: map<u32, UnconfirmedTags>, awaited: set<u32>)

  predicate Usable(t: SessionTag, ts: nat) {
    ts < t.creationTime + OUTGOING_TAGS_EXPIRATION_TIMEOUT
  }

  /** The first unexpired tag, and the list without it and the expired ones before it. */
  function Pick(tags: seq<SessionTag>, ts: nat): (r: (Option<SessionTag>, seq<SessionTag>))
    ensures r.0.Some? ==> r.0.value in tags && Usable(r.0.value, ts)
    ensures r.0.None? ==> r.1 == [] && forall t :: t in tags ==> !Usable(t, ts)
  {
    if tags == [] then (None, [])
    else if Usable(tags[0], ts) then (Some(tags[0]), tags[1..])
    else Pick(tags[1..], ts)
  }

  /** What is left is a suffix, right behind the tag picked. */
  lemma {:induction false} PickSuffix(tags: seq<SessionTag>, ts: nat) returns (k: nat)
    ensures k <= |tags| && Pick(tags, ts).1 == tags[k..]
    ensures Pick(tags, ts).0.Some? ==> 0 < k && tags[k - 1] == Pick(tags, ts).0.value
    decreases |tags|
  {
    if tags == [] {
      k := 0;
    } else if Usable(tags[0], ts) {
      k := 1;
    } else {
      k := PickSuffix(tags[1..], ts);
      k := k + 1;
    }
  }

  function Stamped(tags: seq<Tag>, ts: nat): (s: seq<SessionTag>)
    ensures |s| == |tags| && forall i :: 0 <= i < |tags| ==> s[i] == SessionTag(tags[i], ts)
  {
    seq(|tags|, i requires 0 <= i < |tags| => SessionTag(tags[i], ts))
  }

  /** map::insert does not replace: a batch under an id already waiting is lost. */
  function Submit(s: Sender, msgID: u32, batch: UnconfirmedTags): Sender {
    s.(unconfirmed := if msgID in s.unconfirmed then s.unconfirmed else s.unconfirmed[msgID := batch])
  }

  function Confirm(s: Sender, msgID: u32, ts: nat): Sender {
    if msgID !in s.unconfirmed then s
    else
      var u := s.unconfirmed[msgID];
      s.(tags := if ts < u.created + OUTGOING_TAGS_EXPIRATION_TIMEOUT then s.tags + u.tags else s.tags,
         unconfirmed := s.unconfirmed - {msgID})
  }

  function Unexpired(tags: seq<SessionTag>, ts: nat): seq<SessionTag> {
    if tags == [] then []
    else if Usable(tags[0], ts) then [tags[0]] + Unexpired(tags[1..], ts)
    else Unexpired(tags[1..], ts)
  }

  predicate Overdue(u: UnconfirmedTags, ts: nat) {
    ts >= u.created + OUTGOING_TAGS_CONFIRMATION_TIMEOUT
  }

  function ExpireUnconfirmed(s: Sender, ts: nat): Sender {
    var gone := set id | id in s.unconfirmed && Overdue(s.unconfirmed[id], ts);
    s.(unconfirmed := s.unconfirmed - gone, awaited := s.awaited - gone)
  }

  function ExpireTags(s: Sender, ts: nat): Sender {
    ExpireUnconfirmed(s.(tags := Unexpired(s.tags, ts)), ts)
  }

  /** A delivery status message: counts only while its id is awaited. */
  function Acknowledge(s: Sender, msgID: u32, ts: nat, cleanup: bool): Sender {
    if msgID !in s.awaited then s
    else
      var c := Confirm(s.(awaited := s.awaited - {msgID}), msgID, ts);
      if cleanup then ExpireTags(c, ts) else c
  }

  // ---------------------------------------------------------------------------------------
  // The receiving side
  // ---------------------------------------------------------------------------------------

  /** m_Tags with the creation time of each key. Assigning to a key that is there keeps its time. */
  function Register(r: map<Tag, nat>, tags: seq<Tag>, ts: nat): map<Tag, nat> {
    if tags == [] then r
    else
      var m := Register(r, tags[..|tags| - 1], ts);
      var t := tags[|tags| - 1];
      if t in m then m else m[t := ts]
  }

  lemma {:induction false} RegisterAdds(r: map<Tag, nat>, tags: seq<Tag>, ts: nat)
    ensures forall t {:trigger t in Register(r, tags, ts)} :: t in Register(r, tags, ts) <==> t in r || t in tags
    ensures forall t {:trigger Register(r, tags, ts)[t]} :: t in Register(r, tags, ts) ==>
      Register(r, tags, ts)[t] == if t in r then r[t] else ts
    decreases |tags|
  {
    if tags != [] {
      RegisterAdds(r, tags[..|tags| - 1], ts);
    }
  }

  function ExpireIncoming(r: map<Tag, nat>, ts: nat): map<Tag, nat> {
    map t | t in r && !(ts > r[t] + INCOMING_TAGS_EXPIRATION_TIMEOUT) :: r[t]
  }

  // ---------------------------------------------------------------------------------------
  // The protocol
  // ---------------------------------------------------------------------------------------

  /** A garlic message on its way: the tag it is encrypted with (None for ElGamal), when it was
      wrapped, its id, the new tags inside and whether it asks for an acknowledgement. */
  datatype Packet = Packet(tag: Option<SessionTag>, sentAt: nat, msgID: u32, tags: seq<SessionTag>, acked: bool)

  /** generated and history only record what has happened: when every tag was made, and the tags sent. */
  datatype System = System(
    clock: nat,
    sender: Sender,
    receiver: map<Tag, nat>,
    wires: map<nat, Packet>,
    acks: set<u32>,
    generated: map<Tag, nat>,
    history: seq<Tag>)

  datatype Event =
    | Tick(seconds: nat)
    | Send(serial: nat, msgID: u32, made: seq<Tag>, tunnel: bool, leaseSet: bool)
    | Lose(serial: nat)
    | Deliver(serial: nat)
    | LoseAck(msgID: u32)
    | AckArrives(msgID: u32, cleanup: bool)
    | Forget(ids: set<u32>)
    | CleanSender
    | CleanReceiver

  const EMPTY := System(0, Sender([], map[], {}), map[], map[], {}, map[], [])

  function Picked(s: System, numTags: nat): (Option<SessionTag>, seq<SessionTag>) {
    if numTags > 0 then Pick(s.sender.tags, s.clock) else (None, s.sender.tags)
  }

  /** createNewTags: at most two thirds of the tags are left. */
  predicate CreatesTags(left: nat, numTags: nat) {
    numTags > 0 && left <= numTags * 2 / 3
  }

  predicate Fresh(s: System, tags: seq<Tag>) {
    (forall i :: 0 <= i < |tags| ==> tags[i] !in s.generated) && forall i, j :: 0 <= i < j < |tags| ==> tags[i] != tags[j]
  }

  /** No batch waits under the id, and no message or acknowledgement that carries it is on its way. */
  predicate Idle(s: System, id: u32) {
    id !in s.sender.unconfirmed && id !in s.acks && forall n :: n in s.wires ==> s.wires[n].msgID != id
  }

  /** New tags never repeat. With idleIDs, a message id is used again only when nothing goes by it any more. */
  predicate Enabled(s: System, e: Event, numTags: nat, idleIDs: bool) {
    match e
    case Send(n, id, made, tunnel, leaseSet) =>
      && n !in s.wires && (idleIDs ==> Idle(s, id))
      && |made| == (if CreatesTags(|Picked(s, numTags).1|, numTags) then numTags else 0) && Fresh(s, made)
    case Lose(n) => n in s.wires
    case Deliver(n) => n in s.wires
    case LoseAck(id) => id in s.acks
    case AckArrives(id, cleanup) => id in s.acks
    case _ => true
  }

  function MadeAt(tags: seq<Tag>, ts: nat): map<Tag, nat> {
    map t | t in tags :: ts
  }

  /** The sender after a message that creates tags or not, and is to be acknowledged or not. */
  function Wrapped(s: Sender, msgID: u32, batch: UnconfirmedTags, creates: bool, acked: bool): Sender {
    var submitted := if acked && creates then Submit(s, msgID, batch) else s;
    submitted.(awaited := if acked then submitted.awaited + {msgID} else submitted.awaited)
  }

  /** tunnel: an inbound tunnel is there, so the acknowledgement can be asked for. */
  function Sent(s: System, e: Event, numTags: nat): System
    requires e.Send?
  {
    var (found, left) := Picked(s, numTags);
    var creates := CreatesTags(|left|, numTags);
    var acked := e.tunnel && (creates || e.leaseSet);
    var stamped := Stamped(e.made, s.clock);
    s.(sender := Wrapped(s.sender.(tags := left), e.msgID, UnconfirmedTags(stamped, s.clock), creates, acked),
       wires := s.wires[e.serial := Packet(found, s.clock, e.msgID, stamped, acked)],
       generated := s.generated + MadeAt(e.made, s.clock),
       history := if found.Some? then s.history + [found.value.tag] else s.history)
  }

  /** HandleGarlicMessage: with an unknown tag the message is lost; a known one is used up. */
  function Arrived(s: System, n: nat): System
    requires n in s.wires
  {
    var p := s.wires[n];
    var s := s.(wires := s.wires - {n});
    if p.tag.Some? && p.tag.value.tag !in s.receiver then s
    else
      var r := if p.tag.Some? then s.receiver - {p.tag.value.tag} else s.receiver;
      s.(receiver := Register(r, Tags(p.tags), s.clock), acks := if p.acked then s.acks + {p.msgID} else s.acks)
  }

  function Tags(s: seq<SessionTag>): (t: seq<Tag>)
    ensures |t| == |s| && forall i :: 0 <= i < |s| ==> t[i] == s[i].tag
  {
    seq(|s|, i requires 0 <= i < |s| => s[i].tag)
  }

  function Next(s: System, e: Event, numTags: nat): System
    requires Enabled(s, e, numTags, false)
  {
    match e
    case Tick(n) => s.(clock := s.clock + n)
    case Send(_, _, _, _, _) => Sent(s, e, numTags)
    case Lose(n) => s.(wires := s.wires - {n})
    case Deliver(n) => Arrived(s, n)
    case LoseAck(id) => s.(acks := s.acks - {id})
    case AckArrives(id, cleanup) =>
      s.(acks := s.acks - {id}, sender := Acknowledge(s.sender, id, s.clock, cleanup))
    case Forget(ids) => s.(sender := s.sender.(awaited := s.sender.awaited - ids))
    case CleanSender => s.(sender := ExpireTags(s.sender, s.clock))
    case CleanReceiver => s.(receiver := ExpireIncoming(s.receiver, s.clock))
  }

  /** The state after a sequence of events, if each is possible in its turn. */
  function Run(events: seq<Event>, numTags: nat, idleIDs: bool): Option<System> {
    if events == [] then Some(EMPTY)
    else
      var before := Run(events[..|events| - 1], numTags, idleIDs);
      var e := events[|events| - 1];
      if before.None? || !Enabled(before.value, e, numTags, idleIDs) then None
      else Some(Next(before.value, e, numTags))
  }

  // ---------------------------------------------------------------------------------------
  // Tags are kept apart, whatever the message ids
  // ---------------------------------------------------------------------------------------

  predicate AllMade(s: System, tags: seq<SessionTag>) {
    forall k {:trigger tags[k]} :: 0 <= k < |tags| ==> tags[k].tag in s.generated && s.generated[tags[k].tag] == tags[k].creationTime
  }

  predicate Unsent(s: System, tags: seq<SessionTag>) {
    forall k {:trigger tags[k]} :: 0 <= k < |tags| ==> tags[k].tag !in s.history
  }

  predicate Distinct(tags: seq<SessionTag>) {
    forall i, j {:trigger tags[i], tags[j]} :: 0 <= i < j < |tags| ==> tags[i].tag != tags[j].tag
  }

  predicate Apart(a: seq<SessionTag>, b: seq<SessionTag>) {
    forall i, j {:trigger a[i], b[j]} :: 0 <= i < |a| && 0 <= j < |b| ==> a[i].tag != b[j].tag
  }

  predicate ToBeUsed(s: System, tags: seq<SessionTag>) {
    AllMade(s, tags) && Unsent(s, tags) && Distinct(tags)
  }

  predicate WaitingOk(s: System) {
    && (forall id {:trigger id in s.sender.unconfirmed} :: id in s.sender.unconfirmed ==>
          ToBeUsed(s, s.sender.unconfirmed[id].tags) && Apart(s.sender.unconfirmed[id].tags, s.sender.tags))
    && (forall i, j {:trigger s.sender.unconfirmed[i], s.sender.unconfirmed[j]} ::
          (i in s.sender.unconfirmed && j in s.sender.unconfirmed && i != j) ==>
          Apart(s.sender.unconfirmed[i].tags, s.sender.unconfirmed[j].tags))
  }

  predicate HistoryOk(s: System) {
    && (forall i {:trigger s.history[i]} :: 0 <= i < |s.history| ==> s.history[i] in s.generated)
    && (forall i, j {:trigger s.history[i], s.history[j]} :: 0 <= i < j < |s.history| ==> s.history[i] != s.history[j])
  }

  /** The tags in the pool, in the batches that wait and in the history are all different. */
  predicate Separate(s: System) {
    ToBeUsed(s, s.sender.tags) && WaitingOk(s) && HistoryOk(s)
  }

  predicate Sublist(a: seq<SessionTag>, b: seq<SessionTag>) {
    (forall k {:trigger a[k]} :: 0 <= k < |a| ==> a[k] in b) && (Distinct(b) ==> Distinct(a))
  }

  /** Tags may leave the pool, and batches may be dropped. */
  lemma FewerSeparate(s: System, s': System)
    requires Separate(s) && s'.generated == s.generated && s'.history == s.history && Sublist(s'.sender.tags, s.sender.tags)
    requires forall id {:trigger id in s'.sender.unconfirmed} ::
      id in s'.sender.unconfirmed ==> id in s.sender.unconfirmed && s'.sender.unconfirmed[id] == s.sender.unconfirmed[id]
    ensures Separate(s')
  {
  }

  lemma {:induction false} UnexpiredSublist(tags: seq<SessionTag>, ts: nat)
    ensures Sublist(Unexpired(tags, ts), tags)
    decreases |tags|
  {
    if tags != [] {
      var rest, r := tags[1..], Unexpired(tags[1..], ts);
      UnexpiredSublist(rest, ts);
      hide Unexpired;
      forall k | 0 <= k < |r| ensures exists i {:trigger tags[i]} :: 0 < i < |tags| && tags[i] == r[k] {
        var i :| 0 <= i < |rest| && rest[i] == r[k];
        assert tags[i + 1] == r[k];
      }
      if Distinct(tags) {
        forall i, j | 0 <= i < j < |rest| ensures rest[i].tag != rest[j].tag { assert tags[i + 1] == rest[i]; }
      }
      ConsSublist(tags, r);
    }
  }

  lemma ConsSublist(tags: seq<SessionTag>, r: seq<SessionTag>)
    requires tags != [] && (Distinct(tags) ==> Distinct(r))
    requires forall k {:trigger r[k]} :: 0 <= k < |r| ==> exists i {:trigger tags[i]} :: 0 < i < |tags| && tags[i] == r[k]
    ensures Sublist(r, tags) && Sublist([tags[0]] + r, tags)
  {
    var c := [tags[0]] + r;
    forall k | 0 <= k < |c| ensures c[k] in tags && (Distinct(tags) && k > 0 ==> c[k].tag != c[0].tag) {
      if k > 0 { assert c[k] == r[k - 1]; }
    }
    if Distinct(tags) {
      forall i, j | 0 < i < j < |c| ensures c[i].tag != c[j].tag { assert c[i] == r[i - 1] && c[j] == r[j - 1]; }
    }
  }

  /** A batch moves from those that wait to the pool. */
  lemma ConfirmSeparate(s: System, id: u32)
    requires Separate(s)
    ensures Separate(s.(sender := Confirm(s.sender, id, s.clock)))
  {
    var s' := s.(sender := Confirm(s.sender, id, s.clock));
    if s'.sender.tags == s.sender.tags {
      FewerSeparate(s, s');
    } else {
      var a, b := s.sender.tags, s.sender.unconfirmed[id].tags;
      assert s'.sender.tags == a + b;
      Joined(s, a, b);
      forall i | i in s'.sender.unconfirmed
        ensures ToBeUsed(s', s.sender.unconfirmed[i].tags) && Apart(s.sender.unconfirmed[i].tags, a + b)
      {
        ApartJoined(s.sender.unconfirmed[i].tags, a, b);
      }
    }
  }

  lemma Joined(s: System, a: seq<SessionTag>, b: seq<SessionTag>)
    requires ToBeUsed(s, a) && ToBeUsed(s, b) && Apart(b, a)
    ensures ToBeUsed(s, a + b)
  {
    forall i, j | 0 <= i < j < |a + b| ensures (a + b)[i].tag != (a + b)[j].tag {
      if i >= |a| {
        assert b[i - |a|].tag != b[j - |a|].tag;
      } else if j >= |a| {
        assert b[j - |a|].tag != a[i].tag;
      }
    }
  }

  lemma ApartJoined(c: seq<SessionTag>, a: seq<SessionTag>, b: seq<SessionTag>)
    requires Apart(c, a) && Apart(c, b)
    ensures Apart(c, a + b)
  {
  }

  lemma AcknowledgeSeparate(s: System, id: u32, cleanup: bool)
    requires Separate(s)
    ensures Separate(s.(acks := s.acks - {id}, sender := Acknowledge(s.sender, id, s.clock, cleanup)))
  {
    hide Separate, Confirm, Unexpired;
    var a := s.(sender := s.sender.(awaited := s.sender.awaited - {id}), acks := s.acks - {id});
    FewerSeparate(s, a);
    FewerSeparate(s, s.(acks := s.acks - {id}));
    ConfirmSeparate(a, id);
    var c := a.(sender := Confirm(a.sender, id, s.clock));
    UnexpiredSublist(c.sender.tags, s.clock);
    FewerSeparate(c, c.(sender := ExpireTags(c.sender, s.clock)));
  }

  /** The tag picked goes from the pool to the history. */
  lemma PickSeparate(s: System, numTags: nat)
    requires Separate(s)
    ensures var (found, left) := Picked(s, numTags);
      && Separate(s.(sender := s.sender.(tags := left), history := if found.Some? then s.history + [found.value.tag] else s.history))
      && (found.Some? ==> found.value in s.sender.tags && Usable(found.value, s.clock) && found.value.tag !in s.history)
      && Sublist(left, s.sender.tags) && (found.Some? ==> forall k :: 0 <= k < |left| ==> left[k].tag != found.value.tag)
  {
    if numTags > 0 {
      var (found, left) := Picked(s, numTags);
      var k := PickSuffix(s.sender.tags, s.clock);
      SuffixSublist(s.sender.tags, k);
      var t := s.(sender := s.sender.(tags := left));
      FewerSeparate(s, t);
      if found.Some? {
        var x := s.sender.tags[k - 1];
        forall i | 0 <= i < |left| ensures left[i].tag != x.tag { assert left[i] == s.sender.tags[k + i]; }
        SendSeparate(t, x);
      }
    } else {
      FewerSeparate(s, s);
    }
  }

  lemma SuffixSublist(tags: seq<SessionTag>, k: nat)
    requires k <= |tags|
    ensures Sublist(tags[k..], tags)
  {
    forall i | 0 <= i < |tags| - k ensures tags[k..][i] == tags[k + i] {}
  }

  lemma SendSeparate(t: System, x: SessionTag)
    requires Separate(t) && x.tag in t.generated && x.tag !in t.history
    requires forall k {:trigger t.sender.tags[k]} :: 0 <= k < |t.sender.tags| ==> t.sender.tags[k].tag != x.tag
    requires forall id {:trigger id in t.sender.unconfirmed} :: id in t.sender.unconfirmed ==> Apart(t.sender.unconfirmed[id].tags, [x])
    ensures Separate(t.(history := t.history + [x.tag]))
  {
    forall id, k | id in t.sender.unconfirmed && 0 <= k < |t.sender.unconfirmed[id].tags|
      ensures t.sender.unconfirmed[id].tags[k].tag != x.tag
    {
      assert [x][0] == x;
    }
  }

  /** New tags are recorded, and may wait as a batch of their own. */
  lemma StoreSeparate(s: System, id: u32, made: seq<Tag>, store: bool)
    requires Separate(s) && Fresh(s, made)
    ensures Separate(Stored(s, id, made, store))
  {
    var s', batch := Stored(s, id, made, store), Stamped(made, s.clock);
    FreshBatch(s, s', made);
    Recorded(s, made, s.sender.tags);
    FreshApart(s, made, s.sender.tags);
    forall i | i in s.sender.unconfirmed
      ensures ToBeUsed(s', s.sender.unconfirmed[i].tags) && Apart(batch, s.sender.unconfirmed[i].tags) && Apart(s.sender.unconfirmed[i].tags, batch)
    {
      Recorded(s, made, s.sender.unconfirmed[i].tags);
      FreshApart(s, made, s.sender.unconfirmed[i].tags);
    }
    assert HistoryOk(s');
    hide ToBeUsed, Apart, HistoryOk, Fresh, Stamped, MadeAt;
  }

  lemma FreshBatch(s: System, s': System, made: seq<Tag>)
    requires HistoryOk(s) && Fresh(s, made) && s'.history == s.history && s'.generated == s.generated + MadeAt(made, s.clock)
    ensures ToBeUsed(s', Stamped(made, s.clock))
  {
    var batch := Stamped(made, s.clock);
    forall k | 0 <= k < |batch| ensures batch[k].tag == made[k] && made[k] in made && made[k] !in s.generated {}
  }

  lemma Recorded(s: System, made: seq<Tag>, tags: seq<SessionTag>)
    requires ToBeUsed(s, tags) && Fresh(s, made)
    ensures forall s': System {:trigger ToBeUsed(s', tags)} ::
      s'.history == s.history && s'.generated == s.generated + MadeAt(made, s.clock) ==> ToBeUsed(s', tags)
  {
  }

  lemma FreshApart(s: System, made: seq<Tag>, tags: seq<SessionTag>)
    requires AllMade(s, tags) && Fresh(s, made)
    ensures Apart(Stamped(made, s.clock), tags) && Apart(tags, Stamped(made, s.clock))
  {
    var batch := Stamped(made, s.clock);
    forall k | 0 <= k < |batch| ensures batch[k].tag == made[k] && made[k] !in s.generated {}
  }

  function Stored(s: System, id: u32, made: seq<Tag>, store: bool): System {
    s.(sender := if store then Submit(s.sender, id, UnconfirmedTags(Stamped(made, s.clock), s.clock)) else s.sender,
       generated := s.generated + MadeAt(made, s.clock))
  }

  lemma SentSeparate(s: System, e: Event, numTags: nat)
    requires Separate(s) && e.Send? && Enabled(s, e, numTags, false)
    ensures Separate(Sent(s, e, numTags))
  {
    var (found, left) := Picked(s, numTags);
    var creates := CreatesTags(|left|, numTags);
    var store := e.tunnel && creates;
    var t := s.(sender := s.sender.(tags := left), history := if found.Some? then s.history + [found.value.tag] else s.history);
    PickSeparate(s, numTags);
    assert Fresh(t, e.made);
    hide Separate, Picked, Fresh;
    StoreSeparate(t, e.msgID, e.made, store);
    SublistSelf(left);
    FewerSeparate(Stored(t, e.msgID, e.made, store), Sent(s, e, numTags));
  }

  lemma SublistSelf(tags: seq<SessionTag>)
    ensures Sublist(tags, tags)
  {
  }

  lemma NextSeparate(s: System, e: Event, numTags: nat)
    requires Separate(s) && Enabled(s, e, numTags, false)
    ensures Separate(Next(s, e, numTags))
  {
    hide Separate, Sent, Acknowledge, ExpireIncoming, Unexpired, Register;
    SublistSelf(s.sender.tags);
    match e
    case Send(_, _, _, _, _) => SentSeparate(s, e, numTags);
    case AckArrives(id, cleanup) => AcknowledgeSeparate(s, id, cleanup);
    case CleanSender =>
      UnexpiredSublist(s.sender.tags, s.clock);
      FewerSeparate(s, Next(s, e, numTags));
    case _ => FewerSeparate(s, Next(s, e, numTags));
  }

  /** In every interleaving, as long as new tags are fresh; message ids may repeat. */
  lemma {:induction false} RunSeparate(events: seq<Event>, numTags: nat, idleIDs: bool)
    requires Run(events, numTags, idleIDs).Some?
    ensures Separate(Run(events, numTags, idleIDs).value)
    decreases |events|
  {
    hide Separate, Next;
    if events != [] {
      var e := events[|events| - 1];
      RunSeparate(events[..|events| - 1], numTags, idleIDs);
      NextSeparate(Run(events[..|events| - 1], numTags, idleIDs).value, e, numTags);
    } else {
      NothingYet();
    }
  }

  lemma NothingYet()
    ensures Separate(EMPTY) && Tracked(EMPTY)
  {
  }

  // ---------------------------------------------------------------------------------------
  // The receiver knows what the sender may use, if message ids are reused only when idle
  // ---------------------------------------------------------------------------------------

  /** The receiver has the tag, registered no earlier than it was made, unless it is past use. */
  predicate Known(s: System, t: SessionTag) {
    (t.tag in s.receiver && s.receiver[t.tag] >= t.creationTime)
    || s.clock > t.creationTime + INCOMING_TAGS_EXPIRATION_TIMEOUT
  }

  predicate AllKnown(s: System, tags: seq<SessionTag>) {
    forall k {:trigger tags[k]} :: 0 <= k < |tags| ==> Known(s, tags[k])
  }

  /** An acknowledgement on its way is for the batch that waits under its id. */
  predicate AcksOk(s: System) {
    forall id {:trigger id in s.acks} :: id in s.acks && id in s.sender.unconfirmed ==> AllKnown(s, s.sender.unconfirmed[id].tags)
  }

  predicate WireOk(s: System, p: Packet) {
    && p.sentAt <= s.clock && AllMade(s, p.tags)
    && (p.acked && p.msgID in s.sender.unconfirmed ==> s.sender.unconfirmed[p.msgID].tags == p.tags)
    && (p.tag.Some? ==> Usable(p.tag.value, p.sentAt) && Known(s, p.tag.value) && p.tag.value.tag in s.history)
  }

  predicate WiresOk(s: System) {
    && (forall n {:trigger n in s.wires} :: n in s.wires ==> WireOk(s, s.wires[n]))
    && (forall m, n {:trigger s.wires[m], s.wires[n]} ::
          (m in s.wires && n in s.wires && m != n && s.wires[m].tag.Some? && s.wires[n].tag.Some?) ==>
          s.wires[m].tag.value.tag != s.wires[n].tag.value.tag)
  }

  predicate ReceiverOk(s: System) {
    && (forall t {:trigger t in s.receiver} :: t in s.receiver ==> t in s.generated && s.generated[t] <= s.receiver[t])
    && (forall t {:trigger t in s.generated} :: t in s.generated ==> s.generated[t] <= s.clock)
  }

  predicate Tracked(s: System) {
    AllKnown(s, s.sender.tags) && AcksOk(s) && WiresOk(s) && ReceiverOk(s)
  }

  /** Nothing that matters to the receiver changes, but messages, batches and acknowledgements may go. */
  lemma FewerTracked(s: System, s': System)
    requires Tracked(s) && s'.generated == s.generated && s'.history == s.history && s'.receiver == s.receiver
    requires s'.clock >= s.clock && s'.acks <= s.acks && forall t {:trigger t in s'.sender.tags} :: t in s'.sender.tags ==> t in s.sender.tags
    requires forall n {:trigger n in s'.wires} :: n in s'.wires ==> n in s.wires && s'.wires[n] == s.wires[n]
    requires forall id {:trigger id in s'.sender.unconfirmed} ::
      id in s'.sender.unconfirmed ==> id in s.sender.unconfirmed && s'.sender.unconfirmed[id] == s.sender.unconfirmed[id]
    ensures Tracked(s')
  {
    forall k | 0 <= k < |s'.sender.tags| ensures Known(s', s'.sender.tags[k]) {
      assert s'.sender.tags[k] in s'.sender.tags;
      var i :| 0 <= i < |s.sender.tags| && s.sender.tags[i] == s'.sender.tags[k];
    }
    forall n | n in s'.wires ensures WireOk(s', s'.wires[n]) { assert WireOk(s, s.wires[n]); }
    forall id | id in s'.acks && id in s'.sender.unconfirmed ensures AllKnown(s', s'.sender.unconfirmed[id].tags) {
      assert AllKnown(s, s.sender.unconfirmed[id].tags);
    }
  }

  lemma CleanReceiverTracked(s: System)
    requires Tracked(s)
    ensures Tracked(s.(receiver := ExpireIncoming(s.receiver, s.clock)))
  {
    var s' := s.(receiver := ExpireIncoming(s.receiver, s.clock));
    forall t: SessionTag | Known(s, t) ensures Known(s', t) {}
    forall n | n in s.wires ensures WireOk(s', s.wires[n]) { assert WireOk(s, s.wires[n]); }
  }

  lemma ConfirmTracked(s: System, id: u32)
    requires Tracked(s) && id in s.acks
    ensures Tracked(s.(sender := Confirm(s.sender, id, s.clock)))
  {
    var s' := s.(sender := Confirm(s.sender, id, s.clock));
    if id in s.sender.unconfirmed {
      var u, n := s.sender.unconfirmed[id], |s.sender.tags|;
      assert AllKnown(s, u.tags);
      forall k | 0 <= k < |s'.sender.tags| ensures Known(s', s'.sender.tags[k]) {
        if k >= n { assert s'.sender.tags[k] == u.tags[k - n]; } else { assert s'.sender.tags[k] == s.sender.tags[k]; }
      }
      forall m | m in s.wires ensures WireOk(s', s.wires[m]) { assert WireOk(s, s.wires[m]); }
      assert AcksOk(s') && ReceiverOk(s');
    }
  }

  lemma AcknowledgeTracked(s: System, id: u32, cleanup: bool)
    requires Tracked(s) && id in s.acks
    ensures Tracked(s.(acks := s.acks - {id}, sender := Acknowledge(s.sender, id, s.clock, cleanup)))
  {
    hide Tracked, Confirm, Unexpired;
    FewerTracked(s, s.(acks := s.acks - {id}));
    var a := s.(sender := s.sender.(awaited := s.sender.awaited - {id}));
    FewerTracked(s, a);
    ConfirmTracked(a, id);
    var c := a.(sender := Confirm(a.sender, id, s.clock));
    UnexpiredIn(c.sender.tags, s.clock);
    FewerTracked(c, c.(acks := s.acks - {id}));
    FewerTracked(c, c.(acks := s.acks - {id}, sender := ExpireTags(c.sender, s.clock)));
  }

  lemma UnexpiredIn(tags: seq<SessionTag>, ts: nat)
    ensures forall t {:trigger t in Unexpired(tags, ts)} :: t in Unexpired(tags, ts) ==> t in tags
  {
    UnexpiredSublist(tags, ts);
  }

  /** A tag used up on arrival was in the history, so no tag still to be used is affected. */
  lemma TakeTracked(s: System, n: nat)
    requires Separate(s) && Tracked(s) && n in s.wires && s.wires[n].tag.Some?
    ensures Tracked(s.(wires := s.wires - {n}, receiver := s.receiver - {s.wires[n].tag.value.tag}))
  {
    var t := s.wires[n].tag.value.tag;
    var s' := s.(wires := s.wires - {n}, receiver := s.receiver - {t});
    assert WireOk(s, s.wires[n]);
    forall x: SessionTag | Known(s, x) && x.tag != t ensures Known(s', x) {}
    assert AllKnown(s', s.sender.tags);
    forall id | id in s.acks && id in s.sender.unconfirmed ensures AllKnown(s', s.sender.unconfirmed[id].tags) {
      assert Unsent(s, s.sender.unconfirmed[id].tags) && AllKnown(s, s.sender.unconfirmed[id].tags);
    }
    forall m | m in s'.wires ensures WireOk(s', s'.wires[m]) {
      assert WireOk(s, s.wires[m]);
      assert s.wires[m].tag.Some? ==> s.wires[m].tag.value.tag != s.wires[n].tag.value.tag;
    }
  }

  /** The new tags are registered and the acknowledgement, if asked for, sets out. */
  lemma RegisterTracked(s: System, p: Packet)
    requires Separate(s) && Tracked(s) && WireOk(s, p.(tag := None))
    ensures Tracked(s.(receiver := Register(s.receiver, Tags(p.tags), s.clock), acks := if p.acked then s.acks + {p.msgID} else s.acks))
  {
    var s' := s.(receiver := Register(s.receiver, Tags(p.tags), s.clock), acks := if p.acked then s.acks + {p.msgID} else s.acks);
    RegisterAdds(s.receiver, Tags(p.tags), s.clock);
    hide Register;
    forall x: SessionTag | Known(s, x) ensures Known(s', x) {}
    forall k | 0 <= k < |p.tags| ensures Known(s', p.tags[k]) { assert Tags(p.tags)[k] == p.tags[k].tag; }
    forall m | m in s.wires ensures WireOk(s', s.wires[m]) { assert WireOk(s, s.wires[m]); }
    forall t | t in s'.receiver ensures t in s.generated && s.generated[t] <= s'.receiver[t] {
      if t !in s.receiver { var k :| 0 <= k < |p.tags| && Tags(p.tags)[k] == t; }
    }
    assert AllKnown(s', s.sender.tags);
    forall id | id in s'.acks && id in s.sender.unconfirmed ensures AllKnown(s', s.sender.unconfirmed[id].tags) {
      if id in s.acks { assert AllKnown(s, s.sender.unconfirmed[id].tags); }
    }
  }

  lemma ArrivedTracked(s: System, n: nat)
    requires Separate(s) && Tracked(s) && n in s.wires
    ensures Tracked(Arrived(s, n))
  {
    var p := s.wires[n];
    assert WireOk(s, p);
    var a := s.(wires := s.wires - {n});
    FewerTracked(s, a);
    SublistSelf(s.sender.tags);
    if p.tag.Some? && p.tag.value.tag in s.receiver {
      TakeTracked(s, n);
      var b := a.(receiver := s.receiver - {p.tag.value.tag});
      FewerSeparate(s, b);
      assert WireOk(b, p.(tag := None));
      hide Separate, Tracked;
      RegisterTracked(b, p);
    } else if p.tag.None? {
      FewerSeparate(s, a);
      assert WireOk(a, p.(tag := None));
      hide Separate, Tracked;
      RegisterTracked(a, p);
    }
  }

  /** The tag picked is one the receiver knows, and no message on its way carries it. */
  lemma PickTracked(s: System, numTags: nat)
    requires Separate(s) && Tracked(s)
    ensures var (found, left) := Picked(s, numTags);
      && Tracked(s.(sender := s.sender.(tags := left), history := if found.Some? then s.history + [found.value.tag] else s.history))
      && (found.Some? ==> Usable(found.value, s.clock) && Known(s, found.value))
      && (found.Some? ==> forall m {:trigger s.wires[m]} :: m in s.wires && s.wires[m].tag.Some? ==> s.wires[m].tag.value.tag != found.value.tag)
  {
    var (found, left) := Picked(s, numTags);
    PickSeparate(s, numTags);
    var t := s.(sender := s.sender.(tags := left));
    forall x | x in left ensures x in s.sender.tags { var k :| 0 <= k < |left| && left[k] == x; }
    FewerTracked(s, t);
    var t' := t.(history := if found.Some? then s.history + [found.value.tag] else s.history);
    forall m | m in s.wires ensures WireOk(t', s.wires[m]) { assert WireOk(t, s.wires[m]); }
    if found.Some? {
      var i :| 0 <= i < |s.sender.tags| && s.sender.tags[i] == found.value;
      forall m | m in s.wires && s.wires[m].tag.Some? ensures s.wires[m].tag.value.tag != found.value.tag { assert WireOk(s, s.wires[m]); }
    }
  }

  /** A new message: its tags go on record, and into waiting if it asks for an acknowledgement. */
  lemma StoreTracked(s: System, n: nat, p: Packet, made: seq<Tag>, store: bool)
    requires Separate(s) && Tracked(s) && n !in s.wires && Idle(s, p.msgID) && Fresh(s, made)
    requires p.sentAt == s.clock && p.tags == Stamped(made, s.clock)
    requires p.tag.Some? ==> Usable(p.tag.value, s.clock) && Known(s, p.tag.value) && p.tag.value.tag in s.history
    requires forall m {:trigger s.wires[m]} :: m in s.wires && s.wires[m].tag.Some? && p.tag.Some? ==> s.wires[m].tag.value.tag != p.tag.value.tag
    ensures Tracked(Stored(s, p.msgID, made, store).(wires := s.wires[n := p]))
  {
    var s' := Stored(s, p.msgID, made, store).(wires := s.wires[n := p]);
    assert forall x: SessionTag {:trigger Known(s', x)} :: Known(s', x) <==> Known(s, x);
    forall tags {:trigger AllMade(s', tags)} | AllMade(s, tags) ensures AllMade(s', tags) {}
    forall m | m in s'.wires ensures WireOk(s', s'.wires[m]) {
      if m == n {
        forall k | 0 <= k < |p.tags| ensures p.tags[k].tag in made { assert p.tags[k].tag == made[k]; }
      } else {
        assert WireOk(s, s.wires[m]);
      }
    }
    assert AcksOk(s') && ReceiverOk(s');
  }

  lemma SentTracked(s: System, e: Event, numTags: nat)
    requires Separate(s) && Tracked(s) && e.Send? && Enabled(s, e, numTags, true)
    ensures Tracked(Sent(s, e, numTags))
  {
    var (found, left) := Picked(s, numTags);
    var creates := CreatesTags(|left|, numTags);
    var acked := e.tunnel && (creates || e.leaseSet);
    var t := s.(sender := s.sender.(tags := left), history := if found.Some? then s.history + [found.value.tag] else s.history);
    var p := Packet(found, s.clock, e.msgID, Stamped(e.made, s.clock), acked);
    PickSeparate(s, numTags);
    PickTracked(s, numTags);
    hide Separate, Tracked, Picked;
    StoreTracked(t, e.serial, p, e.made, acked && creates);
    AwaitedTracked(Stored(t, e.msgID, e.made, acked && creates).(wires := s.wires[e.serial := p]), Sent(s, e, numTags));
  }

  lemma AwaitedTracked(s: System, s': System)
    requires Tracked(s) && s' == s.(sender := s.sender.(awaited := s'.sender.awaited))
    ensures Tracked(s')
  {
    FewerTracked(s, s');
  }

  lemma NextTracked(s: System, e: Event, numTags: nat)
    requires Separate(s) && Tracked(s) && Enabled(s, e, numTags, true)
    ensures Tracked(Next(s, e, numTags))
  {
    hide Separate, Tracked, Sent, Arrived, Acknowledge, ExpireIncoming, Unexpired;
    match e
    case Send(_, _, _, _, _) => SentTracked(s, e, numTags);
    case Deliver(n) => ArrivedTracked(s, n);
    case AckArrives(id, cleanup) => AcknowledgeTracked(s, id, cleanup);
    case CleanReceiver => CleanReceiverTracked(s);
    case CleanSender =>
      UnexpiredIn(s.sender.tags, s.clock);
      FewerTracked(s, Next(s, e, numTags));
    case _ => FewerTracked(s, Next(s, e, numTags));
  }

  lemma {:induction false} RunTracked(events: seq<Event>, numTags: nat)
    requires Run(events, numTags, true).Some?
    ensures Tracked(Run(events, numTags, true).value)
    decreases |events|
  {
    hide Separate, Tracked, Next;
    if events != [] {
      var before := events[..|events| - 1];
      RunTracked(before, numTags);
      RunSeparate(before, numTags, true);
      NextTracked(Run(before, numTags, true).value, events[|events| - 1], numTags);
    } else {
      NothingYet();
    }
  }

  // ---------------------------------------------------------------------------------------
  // What the protocol promises
  // ---------------------------------------------------------------------------------------

  /** No tag is ever sent twice, whatever the message ids. */
  lemma {:induction false} NoTagTwice(events: seq<Event>, numTags: nat, i: nat, j: nat)
    requires Run(events, numTags, false).Some?
    requires var h := Run(events, numTags, false).value.history; i < j < |h|
    ensures var h := Run(events, numTags, false).value.history; h[i] != h[j]
  {
    hide Run;
    RunSeparate(events, numTags, false);
  }

  /** A message wrapped with a confirmed tag finds it at the receiver if it gets there within 241
      seconds: 960 of the receiver's minus the 719 the sender may let pass. */
  lemma {:induction false} TagIsFound(events: seq<Event>, numTags: nat, n: nat)
    requires Run(events, numTags, true).Some?
    requires var s := Run(events, numTags, true).value;
      n in s.wires && s.wires[n].tag.Some? && s.clock <= s.wires[n].sentAt + 241
    ensures var s := Run(events, numTags, true).value; s.wires[n].tag.value.tag in s.receiver
  {
    hide Run;
    RunTracked(events, numTags);
    var s := Run(events, numTags, true).value;
    assert WireOk(s, s.wires[n]);
  }

  /** So its own new tags are all registered by its delivery. */
  lemma {:induction false} DeliveryRegisters(events: seq<Event>, numTags: nat, n: nat, t: SessionTag)
    requires Run(events, numTags, true).Some?
    requires var s := Run(events, numTags, true).value;
      n in s.wires && s.clock <= s.wires[n].sentAt + 241 && t in s.wires[n].tags
    ensures t.tag in Arrived(Run(events, numTags, true).value, n).receiver
  {
    hide Run;
    var s := Run(events, numTags, true).value;
    if s.wires[n].tag.Some? { TagIsFound(events, numTags, n); }
    var p := s.wires[n];
    var k :| 0 <= k < |p.tags| && p.tags[k] == t;
    assert Tags(p.tags)[k] == t.tag;
    RegisterAdds(s.receiver, Tags(p.tags), s.clock);
    RegisterAdds(if p.tag.Some? then s.receiver - {p.tag.value.tag} else s.receiver, Tags(p.tags), s.clock);
  }

  lemma {:induction false} RunStep(events: seq<Event>, e: Event, numTags: nat, idleIDs: bool)
    requires Run(events, numTags, idleIDs).Some? && Enabled(Run(events, numTags, idleIDs).value, e, numTags, idleIDs)
    ensures Run(events + [e], numTags, idleIDs) == Some(Next(Run(events, numTags, idleIDs).value, e, numTags))
  {
    assert (events + [e])[..|events|] == events;
  }

  function NthTag(k: byte): Tag {
    [k] + Zeros(31)
  }

  lemma NthTags(j: byte, k: byte)
    requires j != k
    ensures NthTag(j) != NthTag(k)
  {
    assert NthTag(j)[0] == j && NthTag(k)[0] == k;
  }

  // Two runs of a session with a single tag at a time.

  function FirstEvent(n: nat, id: u32, k: byte): Event {
    Send(n, id, [NthTag(k)], true, false)
  }

  /** The state in which tag 0 has been offered in message 1. */
  function Offered(): System {
    var t := SessionTag(NthTag(0), 0);
    System(0, Sender([], map[1 := UnconfirmedTags([t], 0)], {1}), map[], map[0 := Packet(None, 0, 1, [t], true)],
      {}, map[NthTag(0) := 0], [])
  }

  lemma {:induction false} OfferedRun(idleIDs: bool)
    ensures Run([FirstEvent(0, 1, 0)], 1, idleIDs) == Some(Offered())
  {
    var e := FirstEvent(0, 1, 0);
    assert [] + [e] == [e];
    assert Run([], 1, idleIDs) == Some(EMPTY);
    assert Pick([], 0) == (None, []);
    RunStep([], e, 1, idleIDs);
    assert Stamped([NthTag(0)], 0) == [SessionTag(NthTag(0), 0)];
    assert map[] + MadeAt([NthTag(0)], 0) == map[NthTag(0) := 0];
    assert Next(EMPTY, e, 1) == Offered();
  }

  lemma {:induction false} OneRegistered(t: Tag, ts: nat)
    ensures Register(map[], [t], ts) == map[t := ts]
  {
    assert [t][..0] == [];
    assert Register(map[], [t][..0], ts) == map[];
  }

  /** The bound is sharp: at 242 seconds the tag may be gone. */
  lemma TagIsLost() returns (events: seq<Event>, n: nat)
    ensures Run(events, 1, true).Some?
    ensures var s := Run(events, 1, true).value;
      n in s.wires && s.wires[n].tag.Some? && s.clock == s.wires[n].sentAt + 242 && s.wires[n].tag.value.tag !in s.receiver
  {
    hide Run, Register, Pick;
    OfferedRun(true);
    var t, x := SessionTag(NthTag(0), 0), NthTag(0);
    events := [FirstEvent(0, 1, 0)];
    RunStep(events, Deliver(0), 1, true);
    events := events + [Deliver(0)];
    DeliverOne(Offered(), 0, t);
    var s2 := Offered().(wires := map[], receiver := map[x := 0], acks := {1});
    assert Run(events, 1, true) == Some(s2);
    RunStep(events, AckArrives(1, false), 1, true);
    events := events + [AckArrives(1, false)];
    var s3 := s2.(acks := {}, sender := Sender([t], map[], {}));
    ConfirmOne(t);
    assert Run(events, 1, true) == Some(s3);
    RunStep(events, Tick(719), 1, true);
    events := events + [Tick(719)];
    var s4 := s3.(clock := 719);
    LastUse(s4, t);
    NthTags(0, 1);
    RunStep(events, FirstEvent(1, 2, 1), 1, true);
    events := events + [FirstEvent(1, 2, 1)];
    var s5 := Sent(s4, FirstEvent(1, 2, 1), 1);
    RunStep(events, Tick(242), 1, true);
    events := events + [Tick(242)];
    RunStep(events, CleanReceiver, 1, true);
    events := events + [CleanReceiver];
    n := 1;
  }

  lemma DeliverOne(s: System, n: nat, t: SessionTag)
    requires s.wires == map[n := Packet(None, 0, 1, [t], true)] && s.receiver == map[] && s.acks == {}
    ensures Arrived(s, n) == s.(wires := map[], receiver := map[t.tag := s.clock], acks := {1})
  {
    assert map[n := Packet(None, 0, 1, [t], true)] - {n} == map[];
    assert {} + {1} == {1};
    assert Tags([t]) == [t.tag];
    OneRegistered(t.tag, s.clock);
  }

  /** A second batch under a message id that is still waiting goes on the wire but is not kept. */
  lemma OfferedAgain(s: System, u: SessionTag)
    requires s == Offered().(wires := map[]) && u == SessionTag(NthTag(1), 0)
    ensures Sent(s, FirstEvent(1, 1, 1), 1)
         == s.(wires := map[1 := Packet(None, 0, 1, [u], true)], generated := s.generated + map[u.tag := 0])
  {
    NoTagLeft(s);
    assert Stamped([NthTag(1)], 0) == [u];
    assert MadeAt([NthTag(1)], 0) == map[u.tag := 0];
    assert {1} + {1} == {1};
    assert map[][1 := Packet(None, 0, 1, [u], true)] == map[1 := Packet(None, 0, 1, [u], true)];
  }

  lemma ConfirmOne(t: SessionTag)
    requires t.creationTime == 0
    ensures Acknowledge(Sender([], map[1 := UnconfirmedTags([t], 0)], {1}), 1, 0, false) == Sender([t], map[], {})
  {
    assert map[1 := UnconfirmedTags([t], 0)] - {1} == map[];
    assert [] + [t] == [t];
  }

  lemma LastUse(s: System, t: SessionTag)
    requires s.sender.tags == [t] && Usable(t, s.clock)
    ensures Picked(s, 1) == (Some(t), [])
  {
    assert [t][1..] == [];
  }

  /** When an id is reused while a batch still waits under it, the acknowledgement of one message can confirm the tags of another,
      lost one: a tag is then used, without any delay, that the receiver never heard of. */
  lemma ReusedIdLosesTag() returns (events: seq<Event>, n: nat)
    ensures Run(events, 1, false).Some?
    ensures var s := Run(events, 1, false).value;
      n in s.wires && s.wires[n].tag.Some? && s.clock == s.wires[n].sentAt && s.wires[n].tag.value.tag !in s.receiver
  {
    hide Run, Register, Pick;
    OfferedRun(false);
    var t, u, x := SessionTag(NthTag(0), 0), SessionTag(NthTag(1), 0), NthTag(1);
    NthTags(0, 1); NthTags(0, 2); NthTags(1, 2);
    events := [FirstEvent(0, 1, 0)];
    RunStep(events, Lose(0), 1, false);
    events := events + [Lose(0)];
    var s2 := Offered().(wires := map[]);
    assert Run(events, 1, false) == Some(s2);
    NoTagLeft(s2);
    RunStep(events, FirstEvent(1, 1, 1), 1, false);
    events := events + [FirstEvent(1, 1, 1)];
    OfferedAgain(s2, u);
    var s3 := s2.(wires := map[1 := Packet(None, 0, 1, [u], true)], generated := s2.generated + map[x := 0]);
    assert Run(events, 1, false) == Some(s3);
    RunStep(events, Deliver(1), 1, false);
    events := events + [Deliver(1)];
    DeliverOne(s3, 1, u);
    var s4 := s3.(wires := map[], receiver := map[x := 0], acks := {1});
    assert Run(events, 1, false) == Some(s4);
    RunStep(events, AckArrives(1, false), 1, false);
    events := events + [AckArrives(1, false)];
    ConfirmOne(t);
    var s5 := s4.(acks := {}, sender := Sender([t], map[], {}));
    assert Run(events, 1, false) == Some(s5);
    LastUse(s5, t);
    RunStep(events, FirstEvent(2, 2, 2), 1, false);
    events := events + [FirstEvent(2, 2, 2)];
    n := 2;
  }

  lemma NoTagLeft(s: System)
    requires s.sender.tags == []
    ensures Picked(s, 1) == (None, [])
  {
  }
}
