/** The lease set of libdotnet/LeaseSet.cpp: its lease records on the wire, and the mark-and-sweep
    refresh of the leases other parts of the router may still hold. */
module LeaseSets {
  import opened Bytes

  type Hash = s: seq<byte> | |s| == 32 witness Zeros(32)

  const LEASE_ENDDATE_THRESHOLD := 51000             // milliseconds
  const LEASE_SIZE := 44
  const MAX_NUM_LEASES := 16
  const U64 := 0x1_0000_0000_0000_0000

  /** LeaseCmp orders leases by tunnel and gateway, so these two identify one. */
  datatype Id = Id(tunnelID: u32, gateway: Hash)

  datatype Record = Record(id: Id, endDate: u64)

  // ---------------------------------------------------------------------------------------
  // Lease records
  // ---------------------------------------------------------------------------------------

  function RecordBytes(r: Record): (s: seq<byte>)
    ensures |s| == LEASE_SIZE
  {
    r.id.gateway + ToBE(r.id.tunnelID, 4) + ToBE(r.endDate, 8)
  }

  function ParseRecord(s: seq<byte>): Record
    requires |s| == LEASE_SIZE
  {
    BEBound(s[32..36]); BEBound(s[36..44]);
    Pow256Values();
    Record(Id(BE(s[32..36]), s[..32]), BE(s[36..44]))
  }

  lemma RecordParses(r: Record)
    ensures ParseRecord(RecordBytes(r)) == r
  {
    hide BE, ToBE, Pow256;
    Pow256Values();
    BERoundTrip(r.id.tunnelID, 4); BERoundTrip(r.endDate, 8);
    var s := RecordBytes(r);
    assert s[32..36] == ToBE(r.id.tunnelID, 4) && s[36..44] == ToBE(r.endDate, 8) && s[..32] == r.id.gateway;
  }

  /** Gateway, tunnel id and end date, most significant bytes first. */
  lemma RecordLayout(r: Record)
    ensures var s := RecordBytes(r); s[..32] == r.id.gateway && BE(s[32..36]) == r.id.tunnelID && BE(s[36..]) == r.endDate
  {
    hide BE, ToBE, Pow256;
    Pow256Values();
    BERoundTrip(r.id.tunnelID, 4); BERoundTrip(r.endDate, 8);
    var s := RecordBytes(r);
    assert s[32..36] == ToBE(r.id.tunnelID, 4) && s[36..] == ToBE(r.endDate, 8);
  }

  function LeaseBytes(leases: seq<Record>): (s: seq<byte>)
    ensures |s| == LEASE_SIZE * |leases|
  {
    if leases == [] then [] else LeaseBytes(leases[..|leases| - 1]) + RecordBytes(leases[|leases| - 1])
  }

  function ParseLeases(s: seq<byte>, n: nat): (leases: seq<Record>)
    requires |s| >= LEASE_SIZE * n
    ensures |leases| == n
  {
    if n == 0 then [] else ParseLeases(s, n - 1) + [ParseRecord(s[LEASE_SIZE * (n - 1)..LEASE_SIZE * n])]
  }

  /** Whatever stands behind the records, the signature for one. */
  lemma {:induction false} LeasesParse(leases: seq<Record>, rest: seq<byte>)
    ensures ParseLeases(LeaseBytes(leases) + rest, |leases|) == leases
    decreases |leases|
  {
    hide ParseRecord, RecordBytes;
    if leases != [] {
      var n := |leases| - 1;
      var head, last := LeaseBytes(leases[..n]), RecordBytes(leases[n]);
      var s := LeaseBytes(leases) + rest;
      assert s == head + (last + rest);
      LeasesParse(leases[..n], last + rest);
      assert s[LEASE_SIZE * n..LEASE_SIZE * n + LEASE_SIZE] == last;
      RecordParses(leases[n]);
    }
  }

  // ---------------------------------------------------------------------------------------
  // What a fresh parse holds
  // ---------------------------------------------------------------------------------------

  /** Not yet expired, with 51 seconds of grace; the sum is a 64-bit one. */
  predicate Live(r: Record, ts: u64) {
    ts < (r.endDate + LEASE_ENDDATE_THRESHOLD) % U64
  }

  /** Ended less than 51 seconds ago; in the last 51 seconds that 64 bits can tell the sum wraps around. */
  lemma LiveMeans(r: Record, ts: u64)
    ensures r.endDate + 51000 < U64 ==> (Live(r, ts) <==> ts - r.endDate < 51000)
    ensures r.endDate + 51000 >= U64 ==> (Live(r, ts) <==> ts < r.endDate + 51000 - U64)
  {
  }

  /** The last live end date of every lease. */
  function FreshParse(leases: seq<Record>, ts: u64): map<Id, u64> {
    if leases == [] then map[]
    else
      var m := FreshParse(leases[..|leases| - 1], ts);
      var r := leases[|leases| - 1];
      if Live(r, ts) then m[r.id := r.endDate] else m
  }

  function LatestEnd(leases: seq<Record>, ts: u64): u64 {
    if leases == [] then 0
    else
      var m := LatestEnd(leases[..|leases| - 1], ts);
      var r := leases[|leases| - 1];
      if Live(r, ts) && r.endDate > m then r.endDate else m
  }

  /** Record i is live, for this id, and no live record for it comes later. */
  predicate LastLive(leases: seq<Record>, ts: u64, id: Id, i: nat)
    requires i < |leases|
  {
    leases[i].id == id && Live(leases[i], ts) && forall j :: i < j < |leases| && leases[j].id == id ==> !Live(leases[j], ts)
  }

  /** FreshParse in other words: an entry is a live record no later live record overrides. */
  lemma {:induction false} FreshParseIs(leases: seq<Record>, ts: u64, id: Id)
    ensures id in FreshParse(leases, ts) <==> exists i :: 0 <= i < |leases| && leases[i].id == id && Live(leases[i], ts)
    ensures id in FreshParse(leases, ts) ==> exists i :: 0 <= i < |leases| && LastLive(leases, ts, id, i) && leases[i].endDate == FreshParse(leases, ts)[id]
    decreases |leases|
  {
    hide Live;
    if leases != [] {
      var n := |leases| - 1;
      FreshParseIs(leases[..n], ts, id);
      if id in FreshParse(leases, ts) {
        if leases[n].id == id && Live(leases[n], ts) {
          assert LastLive(leases, ts, id, n);
        } else {
          var k :| 0 <= k < n && LastLive(leases[..n], ts, id, k) && leases[..n][k].endDate == FreshParse(leases[..n], ts)[id];
          assert leases[k] == leases[..n][k];
          forall j | k < j < |leases| && leases[j].id == id ensures !Live(leases[j], ts) {
            if j < n { assert leases[j] == leases[..n][j]; }
          }
          assert LastLive(leases, ts, id, k);
        }
      }
      forall i | 0 <= i < |leases| && leases[i].id == id && Live(leases[i], ts) ensures id in FreshParse(leases, ts) {
        if i < n { assert leases[i] == leases[..n][i]; }
      }
    }
  }

  /** LatestEnd bounds every end date of the fresh parse, and is one of them or zero. */
  lemma {:induction false} LatestEndIs(leases: seq<Record>, ts: u64)
    ensures forall i {:trigger leases[i]} :: 0 <= i < |leases| && Live(leases[i], ts) ==> leases[i].endDate <= LatestEnd(leases, ts)
    ensures LatestEnd(leases, ts) == 0 || exists i :: 0 <= i < |leases| && Live(leases[i], ts) && leases[i].endDate == LatestEnd(leases, ts)
    decreases |leases|
  {
    hide Live;
    if leases != [] {
      var n := |leases| - 1;
      LatestEndIs(leases[..n], ts);
      forall i | 0 <= i < |leases| && Live(leases[i], ts) ensures leases[i].endDate <= LatestEnd(leases, ts) {
        if i < n { assert leases[i] == leases[..n][i]; }
      }
      if LatestEnd(leases, ts) != 0 && !(Live(leases[n], ts) && leases[n].endDate == LatestEnd(leases, ts)) {
        var k :| 0 <= k < n && Live(leases[..n][k], ts) && leases[..n][k].endDate == LatestEnd(leases[..n], ts);
        assert leases[k] == leases[..n][k];
      }
    }
  }

  // ---------------------------------------------------------------------------------------
  // The lease set
  // ---------------------------------------------------------------------------------------

  class Lease {
    const id: Id
    var endDate: u64          // 0 means invalid
    var isUpdated: bool

    constructor (r: Record)
      ensures id == r.id && endDate == r.endDate && !isUpdated
    {
      id, endDate, isUpdated := r.id, r.endDate, false;
    }
  }

  class LeaseSet {
    var isValid: bool
    var storeLeases: bool
    var leases: map<Id, Lease>
    var expirationTime: u64

    ghost predicate Valid()
      reads this`leases, this`storeLeases
    {
      (forall k {:trigger leases[k]} :: k in leases ==> leases[k].id == k) && (!storeLeases ==> leases == map[])
    }

    /** The leases by value. */
    function EndDates(): map<Id, u64>
      reads this`leases, leases.Values
    {
      map k | k in leases :: leases[k].endDate
    }

    function Marked(): set<Id>
      reads this`leases, leases.Values
    {
      set k | k in leases && leases[k].isUpdated
    }

    constructor (store: bool)
      ensures Valid() && isValid && storeLeases == store && leases == map[]
    {
      isValid, storeLeases, leases, expirationTime := true, store, map[], 0;
    }

    method UpdateLeasesBegin()
      requires Valid()
      modifies this`leases, leases.Values
      ensures Valid() && leases == old(leases) && Marked() == {} && EndDates() == old(EndDates())
      ensures !storeLeases ==> EndDates() == map[]
    {
      if storeLeases {
        var todo := leases.Keys;
        while todo != {}
          invariant todo <= leases.Keys && leases == old(leases)
          invariant forall k {:trigger leases[k]} :: k in leases ==> leases[k].endDate == old(leases[k].endDate)
          invariant forall k {:trigger leases[k]} :: k in leases && leases[k].isUpdated ==> k in todo
        {
          var k :| k in todo;
          leases[k].isUpdated := false;
          todo := todo - {k};
        }
      } else {
        leases := map[];
      }
    }

    method UpdateLease(lease: Record, ts: u64)
      requires Valid()
      modifies this`leases, this`expirationTime, leases.Values
      ensures Valid()
      ensures expirationTime == if Live(lease, ts) && lease.endDate > old(expirationTime) then lease.endDate else old(expirationTime)
      ensures if Live(lease, ts) && storeLeases
        then EndDates() == old(EndDates())[lease.id := lease.endDate] && Marked() == old(Marked()) + {lease.id}
        else EndDates() == old(EndDates()) && Marked() == old(Marked()) && leases == old(leases)
      ensures forall k {:trigger leases[k]} :: k in leases ==> if k in old(leases) then leases[k] == old(leases)[k] else fresh(leases[k])
      ensures old(leases).Keys <= leases.Keys
    {
      if ts < (lease.endDate + LEASE_ENDDATE_THRESHOLD) % U64 {
        if lease.endDate > expirationTime {
          expirationTime := lease.endDate;
        }
        if storeLeases {
          StoreLease(lease);
        }
      }
    }

    /** Inserts the lease, or renews the end date of the one that is there, and marks it. */
    method StoreLease(lease: Record)
      requires Valid() && storeLeases
      modifies this`leases, leases.Values
      ensures Valid() && leases.Keys == old(leases.Keys) + {lease.id}
      ensures EndDates() == old(EndDates())[lease.id := lease.endDate] && Marked() == old(Marked()) + {lease.id}
      ensures forall k {:trigger leases[k]} :: k in leases ==> if k in old(leases) then leases[k] == old(leases)[k] else fresh(leases[k])
    {
      if lease.id in leases {
        leases[lease.id].endDate := lease.endDate;
      } else {
        var l := new Lease(lease);
        leases := leases[lease.id := l];
      }
      leases[lease.id].isUpdated := true;
      assert forall k :: k in leases && k != lease.id ==> leases[k].endDate == old(leases[k].endDate) && leases[k].isUpdated == old(leases[k].isUpdated);
    }

    /** Leases that were not listed again are dropped; whoever still holds one sees it invalid. */
    method UpdateLeasesEnd()
      requires Valid()
      modifies this`leases, leases.Values
      ensures Valid() && leases.Keys == (if storeLeases then old(Marked()) else old(leases.Keys))
      ensures forall k {:trigger leases[k]} :: k in leases ==> leases[k] == old(leases)[k] && leases[k].endDate == old(leases[k].endDate)
      ensures storeLeases ==> forall k {:trigger k in old(leases)} :: k in old(leases) && k !in old(Marked()) ==> old(leases)[k].endDate == 0
    {
      if storeLeases {
        ghost var was := leases;
        var todo := leases.Keys;
        while todo != {}
          invariant todo <= leases.Keys <= was.Keys && Valid() && storeLeases
          invariant forall k {:trigger leases[k]} :: k in leases ==> leases[k] == was[k] && leases[k].endDate == old(leases[k].endDate)
          invariant forall k {:trigger was[k]} :: k in was ==> was[k].isUpdated == old(leases[k].isUpdated)
          invariant forall k {:trigger k in leases} :: k in was ==> (k in leases <==> k in todo || old(leases[k].isUpdated))
          invariant forall k {:trigger was[k]} :: k in was && k !in leases ==> was[k].endDate == 0
        {
          var k :| k in todo;
          if !leases[k].isUpdated {
            leases[k].endDate := 0;
            leases := leases - {k};
          }
          todo := todo - {k};
        }
      }
    }

    /** ReadFromBuffer behind the identity and keys: the number of leases, the leases, the
        signature. verified is the outcome of the signature check. */
    method ReadFromBuffer(buf: seq<byte>, ts: u64, verifySignature: bool, verified: bool)
      requires Valid() && |buf| > 0 && (1 <= buf[0] <= MAX_NUM_LEASES ==> |buf| >= 1 + LEASE_SIZE * buf[0])
      modifies this`isValid, this`leases, this`expirationTime, leases.Values
      ensures Valid()
      ensures isValid ==> old(isValid)
      ensures var num: nat := buf[0];
        num == 0 || num > MAX_NUM_LEASES ==> !isValid && leases == old(leases) && EndDates() == old(EndDates()) && expirationTime == old(expirationTime)
      ensures 1 <= buf[0] <= MAX_NUM_LEASES ==>
        var records := ParseLeases(buf[1..], buf[0]);
        LatestEnd(records, ts) == 0 ==>
          !isValid && expirationTime == 0 && EndDates() == (if storeLeases then old(EndDates()) + FreshParse(records, ts) else map[])
      ensures 1 <= buf[0] <= MAX_NUM_LEASES ==>
        var records := ParseLeases(buf[1..], buf[0]);
        LatestEnd(records, ts) > 0 ==> (
          && EndDates() == (if storeLeases then FreshParse(records, ts) else map[])
          && expirationTime == (LatestEnd(records, ts) + LEASE_ENDDATE_THRESHOLD) % U64
          && isValid == (old(isValid) && (verifySignature ==> verified))
          && (forall k {:trigger leases[k]} :: k in leases && k in old(leases) ==> leases[k] == old(leases)[k])
          && (storeLeases ==> forall k {:trigger k in old(leases)} :: k in old(leases) && k !in leases ==> old(leases)[k].endDate == 0))
    {
      hide ParseLeases, Live, BE, FreshParse, LatestEnd, Valid, Marked, EndDates;
      var num: nat := buf[0];
      if num == 0 || num > MAX_NUM_LEASES {
        isValid := false;
        return;
      }
      var records := ParseLeases(buf[1..], num);
      ReadLeases(records, ts);
      if expirationTime == 0 {
        isValid := false;
        return;
      }
      expirationTime := (expirationTime + LEASE_ENDDATE_THRESHOLD) % U64;
      Sweep(FreshParse(records, ts));
      if verifySignature && !verified {
        isValid := false;
      }
    }

    /** UpdateLeasesEnd, when exactly the entries of now are marked. */
    method Sweep(ghost now: map<Id, u64>)
      requires Valid()
      requires storeLeases ==> Marked() == now.Keys && forall k :: k in now ==> k in EndDates() && EndDates()[k] == now[k]
      modifies this`leases, leases.Values
      ensures Valid() && EndDates() == if storeLeases then now else map[]
      ensures forall k {:trigger leases[k]} :: k in leases ==> k in old(leases) && leases[k] == old(leases)[k]
      ensures storeLeases ==> forall k {:trigger k in old(leases)} :: k in old(leases) && k !in leases ==> old(leases)[k].endDate == 0
    {
      ghost var dates := EndDates();
      UpdateLeasesEnd();
      if storeLeases {
        assert forall k :: k in leases ==> EndDates()[k] == dates[k];
        assert EndDates().Keys == now.Keys;
      }
    }

    /** The mark phase: clears all marks, then enters every live record. */
    method ReadLeases(records: seq<Record>, ts: u64)
      requires Valid()
      modifies this`leases, this`expirationTime, leases.Values
      ensures Valid() && expirationTime == LatestEnd(records, ts)
      ensures EndDates() == if storeLeases then old(EndDates()) + FreshParse(records, ts) else map[]
      ensures storeLeases ==> Marked() == FreshParse(records, ts).Keys && old(leases).Keys <= leases.Keys
      ensures forall k {:trigger leases[k]} :: k in leases ==> if k in old(leases) then leases[k] == old(leases)[k] else fresh(leases[k])
    {
      hide Live, FreshParse, LatestEnd, Valid, EndDates, Marked;
      UpdateLeasesBegin();
      ghost var was := EndDates();
      expirationTime := 0;
      NothingRead(ts);
      assert records[..0] == [] && was + map[] == was;
      for i := 0 to |records|
        invariant Valid() && expirationTime == LatestEnd(records[..i], ts)
        invariant EndDates() == if storeLeases then was + FreshParse(records[..i], ts) else map[]
        invariant storeLeases ==> Marked() == FreshParse(records[..i], ts).Keys && old(leases).Keys <= leases.Keys
        invariant forall k {:trigger leases[k]} :: k in leases ==> if k in old(leases) then leases[k] == old(leases)[k] else fresh(leases[k])
      {
        NextRecord(records, i, ts);
        UpdateLease(records[i], ts);
      }
      assert records[..|records|] == records;
    }
  }

  lemma {:induction false} NothingRead(ts: u64)
    ensures FreshParse([], ts) == map[] && FreshParse([], ts).Keys == {} && LatestEnd([], ts) == 0
  {
  }

  lemma {:induction false} NextRecord(leases: seq<Record>, i: nat, ts: u64)
    requires i < |leases|
    ensures FreshParse(leases[..i + 1], ts)
      == if Live(leases[i], ts) then FreshParse(leases[..i], ts)[leases[i].id := leases[i].endDate] else FreshParse(leases[..i], ts)
    ensures LatestEnd(leases[..i + 1], ts)
      == if Live(leases[i], ts) && leases[i].endDate > LatestEnd(leases[..i], ts) then leases[i].endDate else LatestEnd(leases[..i], ts)
  {
    hide Live;
    assert leases[..i + 1][..i] == leases[..i];
  }
}
