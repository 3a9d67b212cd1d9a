/**
 Repeating a poll with the same leases. It changes nothing exactly when the first poll has settled: every lease
 that could be ingested now is represented by a row. Blocked leases can keep that from being so: a lease of an
 unknown MAC that failed on its host name becomes ingestible once a later lease of the same MAC has made a NIC.
 */
module Repolling {
  import opened Net
  import opened Database
  import opened Leases
  import opened Polling

  /** Every active lease that an upsert would accept already has a row. */
  ghost predicate Settled(v6: V6Text, db: Db, leases: seq<Lease>) {
    forall k :: 0 <= k < |leases| && Active(leases[k]) && UpsertOk(v6, db, leases[k]) ==>
      PairKnown(db, MacOf(leases[k]), IpOf(v6, leases[k]))
  }

  /** No dynamic row is outside the leases. */
  ghost predicate NothingStale(db: Db, leases: seq<Lease>) {
    StaleDynamic(db, Seen(leases)) == {}
  }

  lemma PairImpliesMac(db: Db, m: string, p: string)
    requires PairKnown(db, m, p)
    ensures MacKnown(db, m)
  {
  }

  lemma KnownPairNoChange(pre: Db, post: Db, m: string, p: string, hostname: string)
    requires Upserted(pre, post, m, p, hostname) && PairKnown(pre, m, p)
    ensures post == pre
  {
    PairImpliesMac(pre, m, p);
  }

  lemma {:induction false} SettledStays(v6: V6Text, db: Db, leases: seq<Lease>, t: Trace, k: nat)
    requires Ingested(v6, db, leases, t) && k <= |leases| && Settled(v6, db, leases)
    ensures t.states[k] == db
  {
    if k > 0 {
      SettledStays(v6, db, leases, t, k - 1);
      assert StepAt(v6, leases, t, k - 1);
      if t.oks[k - 1] {
        StepUpserts(v6, db, leases, t, k - 1);
        KnownPairNoChange(db, t.states[k], MacOf(leases[k - 1]), IpOf(v6, leases[k - 1]), leases[k - 1].hostname);
      }
    }
  }

  lemma DropNothing(db: Db)
    ensures DropIps(db, {}) == db
  {
    assert db.ips - {} == db.ips;
    assert DropBindings(db, {}, {}) == db.bindings;
  }

  /** After any poll nothing is stale, so a repeat can only remove rows it has just made. */
  lemma PollLeavesNothingStale(v6: V6Text, pre: Db, leases: seq<Lease>, t: Trace, post: Db, status: LeaseStatus)
    requires Polled(v6, pre, leases, t, post, status)
    ensures NothingStale(post, leases)
  {
    var last := t.states[|leases|];
    forall i
      ensures i !in StaleDynamic(post, Seen(leases))
    {
    }
  }

  /** A repeat over a settled state is the identity and removes nothing. */
  lemma SettledRepeatIsIdentity(v6: V6Text, db: Db, leases: seq<Lease>, t: Trace, post: Db, status: LeaseStatus)
    requires Settled(v6, db, leases) && NothingStale(db, leases) && Polled(v6, db, leases, t, post, status)
    ensures post == db && status.removed == 0
  {
    SettledStays(v6, db, leases, t, |leases|);
    DropNothing(db);
  }

  lemma BlockedNameIsNew(pre: Db, mid: Db, m: string, hostname: string)
    requires Grown(pre, mid) && NameBlocked(mid, m, hostname) && !NameBlocked(pre, m, hostname)
    ensures mid.hosts != pre.hosts || MacKnown(pre, m)
  {
  }

  lemma GrownKeepsMac(pre: Db, mid: Db, m: string)
    requires Grown(pre, mid) && MacKnown(pre, m)
    ensures MacKnown(mid, m)
  {
    var n :| n in pre.nics && pre.nics[n].mac == m;
    assert mid.nics[n] == pre.nics[n];
  }

  /** In a state that is not settled, a repeat changes a table: it adds a row, or the host that now blocks one. */
  lemma UnsettledRepeatChanges(v6: V6Text, db: Db, leases: seq<Lease>, t: Trace, post: Db, status: LeaseStatus)
    requires Valid(db) && AllCanonical(v6, leases) && !Settled(v6, db, leases) && Polled(v6, db, leases, t, post, status)
    ensures post != db
  {
    var k: nat :| k < |leases| && Active(leases[k]) && UpsertOk(v6, db, leases[k]) &&
                  !PairKnown(db, MacOf(leases[k]), IpOf(v6, leases[k]));
    assert StepAt(v6, leases, t, k);
    AllGrows(v6, db, leases, t, 0, |leases|);
    if t.oks[k] {
      UpsertedPairStays(v6, db, leases, t, post, status, k);
    } else {
      AllGrows(v6, db, leases, t, 0, k);
      AllGrows(v6, db, leases, t, k, |leases|);
      BlockedMeansNewHost(db, t.states[k], t.states[|leases|], MacOf(leases[k]), leases[k].hostname);
    }
  }

  lemma BlockedMeansNewHost(db: Db, mid: Db, last: Db, m: string, hostname: string)
    requires Grown(db, mid) && Grown(mid, last) && NameBlocked(mid, m, hostname) && !NameBlocked(db, m, hostname)
    ensures last.hosts != db.hosts
  {
    BlockedNameIsNew(db, mid, m, hostname);
    if MacKnown(db, m) {
      GrownKeepsMac(db, mid, m);
    }
  }

  lemma UpsertedPairStays(v6: V6Text, db: Db, leases: seq<Lease>, t: Trace, post: Db, status: LeaseStatus, k: nat)
    requires Valid(db) && AllCanonical(v6, leases) && Polled(v6, db, leases, t, post, status)
    requires k < |leases| && Active(leases[k]) && t.oks[k] && !PairKnown(db, MacOf(leases[k]), IpOf(v6, leases[k]))
    ensures post != db
  {
    var m, p := MacOf(leases[k]), IpOf(v6, leases[k]);
    assert Canonical(v6, leases[k]) && m == leases[k].mac && p == leases[k].ip;
    assert leases[k] in leases && SeenKey(leases[k]) in Seen(leases);
    assert Upsert(v6, leases, t.oks, m, p);
    PollOutcome(v6, db, leases, t, post, status, m, p);
    assert PairKnown(post, m, p);
  }

  /** For canonical leases: polling again changes nothing exactly when the state is settled. */
  lemma RepeatIsIdentityIff(v6: V6Text, pre: Db, leases: seq<Lease>, t: Trace, mid: Db, s1: LeaseStatus,
                            u: Trace, post: Db, s2: LeaseStatus)
    requires Valid(pre) && AllCanonical(v6, leases)
    requires Polled(v6, pre, leases, t, mid, s1) && Polled(v6, mid, leases, u, post, s2)
    ensures post == mid <==> Settled(v6, mid, leases)
    ensures Settled(v6, mid, leases) ==> s2.removed == 0
  {
    PollLeavesNothingStale(v6, pre, leases, t, mid, s1);
    DropIpsValid(t.states[|leases|], StaleDynamic(t.states[|leases|], Seen(leases)));
    if Settled(v6, mid, leases) {
      SettledRepeatIsIdentity(v6, mid, leases, u, post, s2);
    } else {
      UnsettledRepeatChanges(v6, mid, leases, u, post, s2);
    }
  }

  lemma KnownPairSurvives(v6: V6Text, pre: Db, leases: seq<Lease>, t: Trace, post: Db, status: LeaseStatus, k: nat)
    requires AllCanonical(v6, leases) && Polled(v6, pre, leases, t, post, status)
    requires k < |leases| && Active(leases[k]) && t.oks[k]
    ensures PairKnown(post, MacOf(leases[k]), IpOf(v6, leases[k]))
  {
    var m, p, last := MacOf(leases[k]), IpOf(v6, leases[k]), t.states[|leases|];
    UpsertedIsKnown(v6, pre, leases, t, k, |leases|);
    var i :| i in last.ips && last.ips[i].nic in last.nics && last.nics[last.ips[i].nic].mac == m && last.ips[i].ip == p;
    assert Canonical(v6, leases[k]);
    assert leases[k] in leases && SeenKey(leases[k]) in Seen(leases);
    assert RowKey(last, i) == SeenKey(leases[k]);
    assert i !in StaleDynamic(last, Seen(leases));
    assert post.ips[i] == last.ips[i];
  }

  /** When every active lease was ingested without error, the poll has settled. */
  lemma AllIngestedSettles(v6: V6Text, pre: Db, leases: seq<Lease>, t: Trace, post: Db, status: LeaseStatus)
    requires AllCanonical(v6, leases) && Polled(v6, pre, leases, t, post, status)
    requires forall k :: 0 <= k < |leases| && Active(leases[k]) ==> t.oks[k]
    ensures Settled(v6, post, leases)
  {
    forall k: nat | k < |leases| && Active(leases[k])
      ensures PairKnown(post, MacOf(leases[k]), IpOf(v6, leases[k]))
    {
      KnownPairSurvives(v6, pre, leases, t, post, status, k);
    }
  }

  lemma CanonicalStep(v6: V6Text, pre: Db, l: Lease, post: Db, ok: bool)
    requires LeaseStep(v6, pre, l, post, ok) && Active(l) && Canonical(v6, l)
    ensures ok <==> !NameBlocked(pre, l.mac, l.hostname)
    ensures !ok ==> post == pre
  {
  }

  lemma FirstBlockedSecondNot(v6: V6Text, pre: Db, leases: seq<Lease>, t: Trace)
    requires |leases| == 2 && Ingested(v6, pre, leases, t)
    requires forall l :: l in leases ==> Active(l) && Canonical(v6, l)
    requires NameBlocked(pre, leases[0].mac, leases[0].hostname) && !NameBlocked(pre, leases[1].mac, leases[1].hostname)
    ensures !t.oks[0] && t.oks[1]
  {
    assert StepAt(v6, leases, t, 0) && StepAt(v6, leases, t, 1);
    RefusedThenAccepted(v6, leases, t);
  }

  lemma RefusedThenAccepted(v6: V6Text, leases: seq<Lease>, t: Trace)
    requires |leases| == |t.oks| == 2 && |t.states| == 3
    requires StepAt(v6, leases, t, 0) && StepAt(v6, leases, t, 1)
    requires forall l :: l in leases ==> Active(l) && Canonical(v6, l)
    requires NameBlocked(t.states[0], leases[0].mac, leases[0].hostname)
    requires !NameBlocked(t.states[0], leases[1].mac, leases[1].hostname)
    ensures !t.oks[0] && t.oks[1]
  {
    CanonicalStep(v6, t.states[0], leases[0], t.states[1], t.oks[0]);
    CanonicalStep(v6, t.states[1], leases[1], t.states[2], t.oks[1]);
  }

  /**
   Two leases of one new MAC, the first blocked by its host name and the second not: after the poll the first
   has no row although it would now be accepted. Polling again does change the tables.
   */
  lemma BlockedLeaseUnsettles(v6: V6Text, pre: Db, x: Lease, y: Lease, t: Trace, post: Db, status: LeaseStatus)
    requires Valid(pre) && Active(x) && Active(y) && Canonical(v6, x) && Canonical(v6, y)
    requires x.mac == y.mac && x.ip != y.ip && NameBlocked(pre, x.mac, x.hostname) && !NameBlocked(pre, y.mac, y.hostname)
    requires Polled(v6, pre, [x, y], t, post, status)
    ensures !Settled(v6, post, [x, y])
  {
    var leases := [x, y];
    FirstBlockedSecondNot(v6, pre, leases, t);
    KnownPairSurvives(v6, pre, leases, t, post, status, 1);
    NoRowForFirst(v6, pre, x, y, t, post, status);
    UnsettledBy(v6, post, leases, 0, y.ip);
  }

  /** A canonical lease without a row whose MAC has one at another address. */
  lemma UnsettledBy(v6: V6Text, db: Db, leases: seq<Lease>, k: nat, other: string)
    requires k < |leases| && Active(leases[k]) && Canonical(v6, leases[k])
    requires PairKnown(db, leases[k].mac, other) && !PairKnown(db, leases[k].mac, leases[k].ip)
    ensures !Settled(v6, db, leases)
  {
    PairImpliesMac(db, leases[k].mac, other);
    assert UpsertOk(v6, db, leases[k]);
  }

  lemma NoRowForFirst(v6: V6Text, pre: Db, x: Lease, y: Lease, t: Trace, post: Db, status: LeaseStatus)
    requires Valid(pre) && x.mac == y.mac && x.ip != y.ip && !MacKnown(pre, y.mac) && Canonical(v6, y)
    requires Polled(v6, pre, [x, y], t, post, status) && !t.oks[0] && t.oks[1]
    ensures !PairKnown(post, x.mac, x.ip)
  {
    assert t.oks == [false, true];
    if PairKnown(post, x.mac, x.ip) {
      var i :| i in post.ips && post.ips[i].nic in post.nics && post.nics[post.ips[i].nic].mac == x.mac && post.ips[i].ip == x.ip;
      OnlySecondRow(v6, pre, [x, y], t, i);
    }
  }

  lemma OnlySecondRow(v6: V6Text, pre: Db, leases: seq<Lease>, t: Trace, i: int)
    requires |leases| == 2 && Valid(pre) && Ingested(v6, pre, leases, t) && t.oks == [false, true] && !MacKnown(pre, MacOf(leases[1]))
    requires i in t.states[2].ips && t.states[2].ips[i].nic in t.states[2].nics
    requires t.states[2].nics[t.states[2].ips[i].nic].mac == MacOf(leases[1])
    ensures t.states[2].ips[i].ip == IpOf(v6, leases[1])
  {
    AllGrows(v6, pre, leases, t, 0, 2);
    if i !in pre.ips {
      NewRows(v6, pre, leases, t, 2, i);
    }
  }

  // ---------- Two polls always settle ----------

  lemma TakenStays(pre: Db, post: Db, name: string)
    requires Grown(pre, post) && NameTaken(pre, name)
    ensures NameTaken(post, name)
  {
    var h :| h in pre.hosts && pre.hosts[h].name == name;
    assert post.hosts[h] == pre.hosts[h];
  }

  ghost predicate NamesTaken(db: Db, l: Lease) {
    NameTaken(db, BaseName(MacOf(l), l.hostname)) && NameTaken(db, SuffixedName(MacOf(l), l.hostname))
  }

  /** A refused lease was blocked when its turn came, and both its names are taken from then on. */
  lemma RefusedIsBlocked(v6: V6Text, pre: Db, leases: seq<Lease>, t: Trace, k: nat)
    requires AllCanonical(v6, leases) && Ingested(v6, pre, leases, t) && k < |leases| && Active(leases[k]) && !t.oks[k]
    ensures !MacKnown(t.states[k], MacOf(leases[k])) && NamesTaken(t.states[|leases|], leases[k])
  {
    assert StepAt(v6, leases, t, k);
    assert Canonical(v6, leases[k]);
    AllGrows(v6, pre, leases, t, k, |leases|);
    TakenStays(t.states[k], t.states[|leases|], BaseName(MacOf(leases[k]), leases[k].hostname));
    TakenStays(t.states[k], t.states[|leases|], SuffixedName(MacOf(leases[k]), leases[k].hostname));
  }

  lemma UpsertedMacIsKnown(v6: V6Text, pre: Db, leases: seq<Lease>, t: Trace, j: nat, k: nat)
    requires Ingested(v6, pre, leases, t) && j < k <= |leases| && t.oks[j]
    ensures MacKnown(t.states[k], MacOf(leases[j]))
  {
    UpsertedIsKnown(v6, pre, leases, t, j, k);
    PairImpliesMac(t.states[k], MacOf(leases[j]), IpOf(v6, leases[j]));
  }

  /** A MAC still unknown after a poll has no lease whose names are free. */
  lemma UnknownMacNamesTaken(v6: V6Text, pre: Db, leases: seq<Lease>, t: Trace, k: nat)
    requires AllCanonical(v6, leases) && Ingested(v6, pre, leases, t) && k < |leases| && Active(leases[k])
    requires !MacKnown(t.states[|leases|], MacOf(leases[k]))
    ensures NamesTaken(t.states[|leases|], leases[k])
  {
    if t.oks[k] {
      UpsertedMacIsKnown(v6, pre, leases, t, k, |leases|);
    } else {
      RefusedIsBlocked(v6, pre, leases, t, k);
    }
  }

  lemma OtherMacStaysUnknown(pre: Db, post: Db, n: string, p: string, hostname: string, m: string)
    requires Upserted(pre, post, n, p, hostname) && n != m && !MacKnown(pre, m)
    ensures !MacKnown(post, m)
  {
  }

  /** Every lease of the MAC finds both its names taken. */
  ghost predicate TakenFor(db: Db, leases: seq<Lease>, m: string) {
    forall j: nat :: j < |leases| && Active(leases[j]) && MacOf(leases[j]) == m ==> NamesTaken(db, leases[j])
  }

  /** Such a MAC stays unknown through the next poll of the same leases. */
  lemma {:induction false} StaysUnknown(v6: V6Text, pre: Db, leases: seq<Lease>, t: Trace, m: string, k: nat, db: Db)
    requires AllCanonical(v6, leases) && Ingested(v6, pre, leases, t) && k <= |leases| && db == t.states[k]
    requires !MacKnown(pre, m) && TakenFor(pre, leases, m)
    ensures !MacKnown(db, m)
  {
    if k > 0 {
      var j: nat := k - 1;
      var before: Db := t.states[j];
      StaysUnknown(v6, pre, leases, t, m, j, before);
      UnknownStep(v6, pre, leases, t, m, j, before, db);
    }
  }

  lemma UnknownStep(v6: V6Text, pre: Db, leases: seq<Lease>, t: Trace, m: string, k: nat, before: Db, after: Db)
    requires AllCanonical(v6, leases) && Ingested(v6, pre, leases, t) && k < |leases|
    requires before == t.states[k] && after == t.states[k + 1] && !MacKnown(before, m)
    requires Active(leases[k]) && MacOf(leases[k]) == m ==> NamesTaken(pre, leases[k])
    ensures !MacKnown(after, m)
  {
    var l := leases[k];
    assert StepAt(v6, leases, t, k);
    StepUpserts(v6, pre, leases, t, k);
    if t.oks[k] {
      if MacOf(l) == m {
        AllGrows(v6, pre, leases, t, 0, k);
        TakenStays(pre, before, BaseName(MacOf(l), l.hostname));
        TakenStays(pre, before, SuffixedName(MacOf(l), l.hostname));
      }
      OtherMacStaysUnknown(before, after, MacOf(l), IpOf(v6, l), l.hostname, m);
    }
  }

  lemma KnownMacIsIngested(v6: V6Text, pre: Db, leases: seq<Lease>, t: Trace, k: nat)
    requires AllCanonical(v6, leases) && Ingested(v6, pre, leases, t) && k < |leases| && Active(leases[k])
    requires MacKnown(pre, MacOf(leases[k]))
    ensures t.oks[k]
  {
    assert StepAt(v6, leases, t, k);
    assert Canonical(v6, leases[k]);
    AllGrows(v6, pre, leases, t, 0, k);
    GrownKeepsMac(pre, t.states[k], MacOf(leases[k]));
  }

  lemma SecondPollCovers(v6: V6Text, pre: Db, leases: seq<Lease>, t: Trace, mid: Db, s1: LeaseStatus,
                         u: Trace, post: Db, s2: LeaseStatus, k: nat)
    requires Valid(pre) && AllCanonical(v6, leases) && k < |leases| && Active(leases[k])
    requires Polled(v6, pre, leases, t, mid, s1) && Polled(v6, mid, leases, u, post, s2)
    ensures if MacKnown(mid, MacOf(leases[k])) then PairKnown(post, MacOf(leases[k]), IpOf(v6, leases[k]))
            else NameBlocked(post, MacOf(leases[k]), leases[k].hostname)
  {
    var m := MacOf(leases[k]);
    if MacKnown(mid, m) {
      KnownMacIsIngested(v6, mid, leases, u, k);
      KnownPairSurvives(v6, mid, leases, u, post, s2, k);
    } else {
      assert t.states[|leases|].nics == mid.nics && t.states[|leases|].hosts == mid.hosts;
      forall j: nat | j < |leases| && Active(leases[j]) && MacOf(leases[j]) == m
        ensures NamesTaken(mid, leases[j])
      {
        UnknownMacNamesTaken(v6, pre, leases, t, j);
      }
      StaysUnknown(v6, mid, leases, u, m, |leases|, u.states[|leases|]);
      AllGrows(v6, mid, leases, u, 0, |leases|);
      TakenStays(mid, u.states[|leases|], BaseName(m, leases[k].hostname));
      TakenStays(mid, u.states[|leases|], SuffixedName(m, leases[k].hostname));
    }
  }

  /** For canonical leases, whatever the tables were, two polls of the same leases settle. */
  lemma TwoPollsSettle(v6: V6Text, pre: Db, leases: seq<Lease>, t: Trace, mid: Db, s1: LeaseStatus,
                       u: Trace, post: Db, s2: LeaseStatus)
    requires Valid(pre) && AllCanonical(v6, leases)
    requires Polled(v6, pre, leases, t, mid, s1) && Polled(v6, mid, leases, u, post, s2)
    ensures Settled(v6, post, leases)
  {
    forall k: nat | k < |leases| && Active(leases[k]) && UpsertOk(v6, post, leases[k])
      ensures PairKnown(post, MacOf(leases[k]), IpOf(v6, leases[k]))
    {
      SecondPollCovers(v6, pre, leases, t, mid, s1, u, post, s2, k);
    }
  }

  /** So a third poll is always the identity, and removes nothing. */
  lemma ThirdPollIsIdentity(v6: V6Text, pre: Db, leases: seq<Lease>, t: Trace, one: Db, s1: LeaseStatus,
                            u: Trace, two: Db, s2: LeaseStatus, w: Trace, three: Db, s3: LeaseStatus)
    requires Valid(pre) && AllCanonical(v6, leases)
    requires Polled(v6, pre, leases, t, one, s1) && Polled(v6, one, leases, u, two, s2) && Polled(v6, two, leases, w, three, s3)
    ensures three == two && s3.removed == 0
  {
    TwoPollsSettle(v6, pre, leases, t, one, s1, u, two, s2);
    PollLeavesNothingStale(v6, one, leases, u, two, s2);
    SettledRepeatIsIdentity(v6, two, leases, w, three, s3);
  }

  // ---------- When one poll is enough ----------

  ghost predicate Ingests(leases: seq<Lease>, oks: seq<bool>, j: nat) {
    j < |leases| && j < |oks| && Active(leases[j]) && oks[j]
  }

  /** A refused lease whose MAC another lease of the poll made known, while none added its pair. */
  ghost predicate LeftBehind(v6: V6Text, leases: seq<Lease>, oks: seq<bool>, k: nat) {
    && k < |leases| && k < |oks| && Active(leases[k]) && !oks[k]
    && (exists j: nat :: Ingests(leases, oks, j) && MacOf(leases[j]) == MacOf(leases[k]))
    && (forall j: nat :: Ingests(leases, oks, j) ==>
          MacOf(leases[j]) != MacOf(leases[k]) || IpOf(v6, leases[j]) != IpOf(v6, leases[k]))
  }

  /** A MAC that a poll made known was made known by one of its ingested leases. */
  lemma {:induction false} NewMacIngested(v6: V6Text, pre: Db, leases: seq<Lease>, t: Trace, m: string, k: nat) returns (j: nat)
    requires Ingested(v6, pre, leases, t) && k <= |leases| && !MacKnown(pre, m) && MacKnown(t.states[k], m)
    ensures Ingests(leases, t.oks, j) && MacOf(leases[j]) == m
  {
    if MacKnown(t.states[k - 1], m) {
      j := NewMacIngested(v6, pre, leases, t, m, k - 1);
    } else {
      j := k - 1;
      StepUpserts(v6, pre, leases, t, j);
      if t.oks[j] && MacOf(leases[j]) != m {
        OtherMacStaysUnknown(t.states[j], t.states[k], MacOf(leases[j]), IpOf(v6, leases[j]), leases[j].hostname, m);
      }
    }
  }

  lemma RefusedMacWasUnknown(v6: V6Text, pre: Db, leases: seq<Lease>, t: Trace, k: nat)
    requires AllCanonical(v6, leases) && Ingested(v6, pre, leases, t) && k < |leases| && Active(leases[k]) && !t.oks[k]
    ensures !MacKnown(pre, MacOf(leases[k]))
  {
    if MacKnown(pre, MacOf(leases[k])) {
      KnownMacIsIngested(v6, pre, leases, t, k);
    }
  }

  /** A refused lease would be accepted after the poll exactly when some ingested lease has its MAC. */
  lemma AcceptableNowIff(v6: V6Text, pre: Db, leases: seq<Lease>, t: Trace, mid: Db, status: LeaseStatus, k: nat)
    requires AllCanonical(v6, leases) && Polled(v6, pre, leases, t, mid, status)
    requires k < |leases| && Active(leases[k]) && !t.oks[k]
    ensures UpsertOk(v6, mid, leases[k]) <==> exists j: nat :: Ingests(leases, t.oks, j) && MacOf(leases[j]) == MacOf(leases[k])
  {
    var m, last := MacOf(leases[k]), t.states[|leases|];
    assert Canonical(v6, leases[k]);
    assert mid.nics == last.nics && mid.hosts == last.hosts;
    RefusedIsBlocked(v6, pre, leases, t, k);
    assert UpsertOk(v6, mid, leases[k]) <==> MacKnown(last, m);
    if MacKnown(last, m) {
      RefusedMacWasUnknown(v6, pre, leases, t, k);
      var j := NewMacIngested(v6, pre, leases, t, m, |leases|);
    }
    if j: nat :| Ingests(leases, t.oks, j) && MacOf(leases[j]) == m {
      UpsertedMacIsKnown(v6, pre, leases, t, j, |leases|);
    }
  }

  /** And its pair has a row by then exactly when some ingested lease is of that pair. */
  lemma PairAddedIff(v6: V6Text, pre: Db, leases: seq<Lease>, t: Trace, mid: Db, status: LeaseStatus, k: nat)
    requires Valid(pre) && AllCanonical(v6, leases) && Polled(v6, pre, leases, t, mid, status)
    requires k < |leases| && Active(leases[k]) && !t.oks[k]
    ensures PairKnown(mid, MacOf(leases[k]), IpOf(v6, leases[k])) <==>
            exists j: nat :: Ingests(leases, t.oks, j) && MacOf(leases[j]) == MacOf(leases[k]) && IpOf(v6, leases[j]) == IpOf(v6, leases[k])
  {
    var m, p, last := MacOf(leases[k]), IpOf(v6, leases[k]), t.states[|leases|];
    RefusedMacWasUnknown(v6, pre, leases, t, k);
    if PairKnown(mid, m, p) {
      var i :| i in mid.ips && mid.ips[i].nic in mid.nics && mid.nics[mid.ips[i].nic].mac == m && mid.ips[i].ip == p;
      NewPairIngested(v6, pre, leases, t, m, p, i);
    }
    if j: nat :| Ingests(leases, t.oks, j) && MacOf(leases[j]) == m && IpOf(v6, leases[j]) == p {
      KnownPairSurvives(v6, pre, leases, t, mid, status, j);
    }
  }

  lemma NewPairIngested(v6: V6Text, pre: Db, leases: seq<Lease>, t: Trace, m: string, p: string, i: int)
    requires Valid(pre) && Ingested(v6, pre, leases, t) && !MacKnown(pre, m)
    requires i in t.states[|leases|].ips && t.states[|leases|].ips[i].nic in t.states[|leases|].nics
    requires t.states[|leases|].nics[t.states[|leases|].ips[i].nic].mac == m && t.states[|leases|].ips[i].ip == p
    ensures exists j: nat :: Ingests(leases, t.oks, j) && MacOf(leases[j]) == m && IpOf(v6, leases[j]) == p
  {
    var last: Db := t.states[|leases|];
    AllGrows(v6, pre, leases, t, 0, |leases|);
    if i !in pre.ips {
      NewRows(v6, pre, leases, t, |leases|, i);
      var j: nat :| j < |leases| && Active(leases[j]) && t.oks[j] && FreshRow(pre, last, i, MacOf(leases[j]), IpOf(v6, leases[j]));
      assert Ingests(leases, t.oks, j);
    }
  }

  /** One poll settles, so that repeating it is the identity, exactly when it leaves no lease behind. */
  lemma SettledIff(v6: V6Text, pre: Db, leases: seq<Lease>, t: Trace, mid: Db, status: LeaseStatus)
    requires Valid(pre) && AllCanonical(v6, leases) && Polled(v6, pre, leases, t, mid, status)
    ensures Settled(v6, mid, leases) <==> forall k: nat :: !LeftBehind(v6, leases, t.oks, k)
  {
    forall k: nat | k < |leases| && Active(leases[k])
      ensures LeftBehind(v6, leases, t.oks, k) <==>
              UpsertOk(v6, mid, leases[k]) && !PairKnown(mid, MacOf(leases[k]), IpOf(v6, leases[k]))
    {
      LeftBehindIff(v6, pre, leases, t, mid, status, k);
    }
  }

  lemma LeftBehindIff(v6: V6Text, pre: Db, leases: seq<Lease>, t: Trace, mid: Db, status: LeaseStatus, k: nat)
    requires Valid(pre) && AllCanonical(v6, leases) && Polled(v6, pre, leases, t, mid, status)
    requires k < |leases| && Active(leases[k])
    ensures LeftBehind(v6, leases, t.oks, k) <==>
            UpsertOk(v6, mid, leases[k]) && !PairKnown(mid, MacOf(leases[k]), IpOf(v6, leases[k]))
  {
    if t.oks[k] {
      KnownPairSurvives(v6, pre, leases, t, mid, status, k);
    } else {
      AcceptableNowIff(v6, pre, leases, t, mid, status, k);
      PairAddedIff(v6, pre, leases, t, mid, status, k);
    }
  }
}
