/** What a whole lease poll achieves: afterwards the dynamic rows mirror the active leases. */
module Polling {
  import opened Basics
  import opened Text
  import opened Net
  import opened Database
  import opened Mac
  import opened Leases
  import opened StoreInvariant

  /** The server reports MAC and address in the form they are stored in. */
  ghost predicate Canonical(v6: V6Text, l: Lease) {
    NormalizeMac(l.mac) == Some(l.mac) && NormalizeIp(v6, l.ip) == Some(l.ip)
  }

  ghost predicate AllCanonical(v6: V6Text, leases: seq<Lease>) {
    forall k :: 0 <= k < |leases| && Active(leases[k]) ==> Canonical(v6, leases[k])
  }

  /** Row `i` is dynamic, for MAC `m` and address `p`. */
  ghost predicate DynRow(db: Db, i: int, m: string, p: string) {
    i in db.ips && db.ips[i].kind == Dynamic && db.ips[i].nic in db.nics && db.nics[db.ips[i].nic].mac == m && db.ips[i].ip == p
  }

  ghost predicate Leased(leases: seq<Lease>, m: string, p: string) {
    exists k :: 0 <= k < |leases| && Active(leases[k]) && leases[k].mac == m && leases[k].ip == p
  }

  /** The canonical forms a lease is stored under. */
  function MacOf(l: Lease): string {
    if NormalizeMac(l.mac).Some? then NormalizeMac(l.mac).value else ""
  }

  function IpOf(v6: V6Text, l: Lease): string {
    if NormalizeIp(v6, l.ip).Some? then NormalizeIp(v6, l.ip).value else ""
  }

  /** Some active lease of the pair was upserted without error. */
  ghost predicate Upsert(v6: V6Text, leases: seq<Lease>, oks: seq<bool>, m: string, p: string) {
    exists k :: 0 <= k < |leases| && k < |oks| && Active(leases[k]) && oks[k] && MacOf(leases[k]) == m && IpOf(v6, leases[k]) == p
  }

  /** Rows of the earlier state are all still there, unchanged. */
  ghost predicate Grown(pre: Db, post: Db) {
    && (forall h :: h in pre.hosts ==> h in post.hosts && post.hosts[h] == pre.hosts[h])
    && (forall n :: n in pre.nics ==> n in post.nics && post.nics[n] == pre.nics[n])
    && (forall i :: i in pre.ips ==> i in post.ips && post.ips[i] == pre.ips[i])
  }

  /** A row that is new since `pre` is dynamic, on a NIC with MAC `m`, for address `p`, a pair `pre` did not know. */
  ghost predicate FreshRow(pre: Db, post: Db, i: int, m: string, p: string) {
    i in post.ips && i !in pre.ips && DynRow(post, i, m, p) && !PairKnown(pre, m, p)
  }

  // ---------- One lease ----------

  lemma UpsertGrows(pre: Db, post: Db, m: string, p: string, hostname: string)
    requires Valid(pre) && Upserted(pre, post, m, p, hostname)
    ensures Grown(pre, post)
  {
  }

  lemma UpsertMacs(pre: Db, post: Db, m: string, p: string, hostname: string)
    requires Valid(pre) && Upserted(pre, post, m, p, hostname) && MacsCanonical(pre) && NormalizeMac(m) == Some(m)
    ensures MacsCanonical(post)
  {
  }

  lemma UpsertKnows(pre: Db, post: Db, m: string, p: string, hostname: string)
    requires Valid(pre) && Upserted(pre, post, m, p, hostname)
    ensures PairKnown(post, m, p)
  {
    if PairKnown(pre, m, p) {
      var i :| i in pre.ips && pre.ips[i].nic in pre.nics && pre.nics[pre.ips[i].nic].mac == m && pre.ips[i].ip == p;
      UpsertGrows(pre, post, m, p, hostname);
      assert post.ips[i] == pre.ips[i];
    } else {
      var i, n :| i !in pre.ips && n in post.nics && post.nics[n].mac == m && post.ips == pre.ips[i := Ip(n, p, Dynamic)];
      assert post.ips[i].nic == n;
    }
  }

  lemma UpsertNewRows(pre: Db, post: Db, m: string, p: string, hostname: string, i: int)
    requires Valid(pre) && Upserted(pre, post, m, p, hostname) && i in post.ips && i !in pre.ips
    ensures FreshRow(pre, post, i, m, p)
  {
  }

  lemma KnownStaysKnown(pre: Db, post: Db, m: string, p: string)
    requires Grown(pre, post) && PairKnown(pre, m, p)
    ensures PairKnown(post, m, p)
  {
    var i :| i in pre.ips && pre.ips[i].nic in pre.nics && pre.nics[pre.ips[i].nic].mac == m && pre.ips[i].ip == p;
    assert post.ips[i] == pre.ips[i];
  }

  // ---------- All leases ----------

  ghost predicate NewRowAt(v6: V6Text, pre: Db, leases: seq<Lease>, t: Trace, db: Db, k: nat, i: int)
    requires k <= |leases| && k <= |t.oks|
  {
    exists j: nat :: j < k && Active(leases[j]) && t.oks[j] && FreshRow(pre, db, i, MacOf(leases[j]), IpOf(v6, leases[j]))
  }

  lemma GrownTransitive(x: Db, y: Db, z: Db)
    requires Grown(x, y) && Grown(y, z)
    ensures Grown(x, z)
  {
  }

  lemma StepUpserts(v6: V6Text, pre: Db, leases: seq<Lease>, t: Trace, k: nat)
    requires Ingested(v6, pre, leases, t) && k < |leases|
    ensures if t.oks[k] then
              Active(leases[k]) && NormalizeMac(MacOf(leases[k])) == Some(MacOf(leases[k])) &&
              Upserted(t.states[k], t.states[k + 1], MacOf(leases[k]), IpOf(v6, leases[k]), leases[k].hostname)
            else t.states[k + 1] == t.states[k]
  {
    assert StepAt(v6, leases, t, k);
    if t.oks[k] {
      NormalizeMacIdempotent(leases[k].mac);
    }
  }

  lemma StepGrows(v6: V6Text, pre: Db, leases: seq<Lease>, t: Trace, k: nat)
    requires Ingested(v6, pre, leases, t) && k < |leases|
    ensures Grown(t.states[k], t.states[k + 1])
  {
    StepUpserts(v6, pre, leases, t, k);
    if t.oks[k] {
      UpsertGrows(t.states[k], t.states[k + 1], MacOf(leases[k]), IpOf(v6, leases[k]), leases[k].hostname);
    }
  }

  ghost predicate GrownAt(states: seq<Db>, i: nat)
    requires i + 1 < |states|
  {
    Grown(states[i], states[i + 1])
  }

  lemma {:induction false} ChainGrows(states: seq<Db>, j: nat, k: nat)
    requires j <= k < |states|
    requires forall i: nat :: i + 1 < |states| ==> GrownAt(states, i)
    ensures Grown(states[j], states[k])
  {
    if j < k {
      ChainGrows(states, j, k - 1);
      assert GrownAt(states, k - 1);
      GrownTransitive(states[j], states[k - 1], states[k]);
    }
  }

  lemma AllGrows(v6: V6Text, pre: Db, leases: seq<Lease>, t: Trace, j: nat, k: nat)
    requires Ingested(v6, pre, leases, t) && j <= k <= |leases|
    ensures Grown(t.states[j], t.states[k])
  {
    var states: seq<Db> := t.states;
    forall i: nat | i + 1 < |states|
      ensures GrownAt(states, i)
    {
      StepGrows(v6, pre, leases, t, i);
    }
    ChainGrows(states, j, k);
  }

  lemma StepMacs(v6: V6Text, pre: Db, leases: seq<Lease>, t: Trace, k: nat, before: Db, after: Db)
    requires Ingested(v6, pre, leases, t) && k < |leases| && before == t.states[k] && after == t.states[k + 1]
    requires MacsCanonical(before)
    ensures MacsCanonical(after)
  {
    StepUpserts(v6, pre, leases, t, k);
    if t.oks[k] {
      UpsertMacs(before, after, MacOf(leases[k]), IpOf(v6, leases[k]), leases[k].hostname);
    }
  }

  /** Stored MACs stay canonical through a poll. */
  lemma {:induction false} AllMacs(v6: V6Text, pre: Db, leases: seq<Lease>, t: Trace, k: nat, db: Db)
    requires Ingested(v6, pre, leases, t) && k <= |leases| && db == t.states[k] && MacsCanonical(pre)
    ensures MacsCanonical(db)
  {
    if k > 0 {
      var j: nat := k - 1;
      var before: Db := t.states[j];
      AllMacs(v6, pre, leases, t, j, before);
      StepMacs(v6, pre, leases, t, j, before, db);
    }
  }

  lemma StepKnows(v6: V6Text, pre: Db, leases: seq<Lease>, t: Trace, j: nat)
    requires Ingested(v6, pre, leases, t) && j < |leases| && t.oks[j]
    ensures PairKnown(t.states[j + 1], MacOf(leases[j]), IpOf(v6, leases[j]))
  {
    StepUpserts(v6, pre, leases, t, j);
    UpsertKnows(t.states[j], t.states[j + 1], MacOf(leases[j]), IpOf(v6, leases[j]), leases[j].hostname);
  }

  /** An upserted pair is known in every later state of the poll. */
  lemma UpsertedIsKnown(v6: V6Text, pre: Db, leases: seq<Lease>, t: Trace, j: nat, k: nat)
    requires Ingested(v6, pre, leases, t) && j < k <= |leases| && t.oks[j]
    ensures PairKnown(t.states[k], MacOf(leases[j]), IpOf(v6, leases[j]))
  {
    StepKnows(v6, pre, leases, t, j);
    AllGrows(v6, pre, leases, t, j + 1, k);
    KnownStaysKnown(t.states[j + 1], t.states[k], MacOf(leases[j]), IpOf(v6, leases[j]));
  }

  lemma FreshStaysFresh(pre: Db, mid: Db, post: Db, i: int, m: string, p: string)
    requires FreshRow(pre, mid, i, m, p) && Grown(mid, post)
    ensures FreshRow(pre, post, i, m, p)
  {
    assert post.ips[i] == mid.ips[i];
  }

  lemma FreshSinceEarlier(pre: Db, mid: Db, post: Db, i: int, m: string, p: string)
    requires Grown(pre, mid) && FreshRow(mid, post, i, m, p)
    ensures FreshRow(pre, post, i, m, p)
  {
    if PairKnown(pre, m, p) {
      KnownStaysKnown(pre, mid, m, p);
    }
  }

  lemma NewRowKept(v6: V6Text, pre: Db, leases: seq<Lease>, t: Trace, mid: Db, post: Db, k: nat, i: int)
    requires k + 1 <= |leases| && k + 1 <= |t.oks| && NewRowAt(v6, pre, leases, t, mid, k, i) && Grown(mid, post)
    ensures NewRowAt(v6, pre, leases, t, post, k + 1, i)
  {
    var j: nat :| j < k && Active(leases[j]) && t.oks[j] && FreshRow(pre, mid, i, MacOf(leases[j]), IpOf(v6, leases[j]));
    FreshStaysFresh(pre, mid, post, i, MacOf(leases[j]), IpOf(v6, leases[j]));
  }

  lemma NewRowInserted(v6: V6Text, pre: Db, leases: seq<Lease>, t: Trace, k: nat, i: int)
    requires Ingested(v6, pre, leases, t) && k < |leases|
    requires i in t.states[k + 1].ips && i !in t.states[k].ips
    ensures NewRowAt(v6, pre, leases, t, t.states[k + 1], k + 1, i)
  {
    StepUpserts(v6, pre, leases, t, k);
    AllGrows(v6, pre, leases, t, 0, k);
    var l := leases[k];
    UpsertNewRows(t.states[k], t.states[k + 1], MacOf(l), IpOf(v6, l), l.hostname, i);
    FreshSinceEarlier(pre, t.states[k], t.states[k + 1], i, MacOf(l), IpOf(v6, l));
  }

  lemma NewRowStep(v6: V6Text, pre: Db, leases: seq<Lease>, t: Trace, k: nat, i: int)
    requires Ingested(v6, pre, leases, t) && k < |leases| && i in t.states[k + 1].ips
    requires i in t.states[k].ips ==> NewRowAt(v6, pre, leases, t, t.states[k], k, i)
    ensures NewRowAt(v6, pre, leases, t, t.states[k + 1], k + 1, i)
  {
    if i in t.states[k].ips {
      StepGrows(v6, pre, leases, t, k);
      NewRowKept(v6, pre, leases, t, t.states[k], t.states[k + 1], k, i);
    } else {
      NewRowInserted(v6, pre, leases, t, k, i);
    }
  }

  /** Every row that is new since the start was inserted by a successful upsert of its pair. */
  lemma {:induction false} NewRows(v6: V6Text, pre: Db, leases: seq<Lease>, t: Trace, k: nat, i: int)
    requires Ingested(v6, pre, leases, t) && k <= |leases|
    requires i in t.states[k].ips && i !in pre.ips
    ensures NewRowAt(v6, pre, leases, t, t.states[k], k, i)
  {
    if k > 0 {
      var j: nat := k - 1;
      var before := t.states[j];
      if i in before.ips {
        NewRows(v6, pre, leases, t, j, i);
      }
      NewRowStep(v6, pre, leases, t, j, i);
    }
  }

  // ---------- Keys ----------

  lemma PairKeyInjective(m: string, p: string, n: string, q: string)
    requires '|' !in m && '|' !in n
    ensures m + "|" + p == n + "|" + q <==> m == n && p == q
  {
    if m + "|" + p == n + "|" + q {
      SplitConcat(m, p, '|');
      SplitConcat(n, q, '|');
      SplitWhole(m, '|');
      SplitWhole(n, '|');
      var x, y := [m] + Split(p, '|'), [n] + Split(q, '|');
      assert x[0] == y[0] && x[1..] == y[1..];
      assert x[1..] == Split(p, '|') && y[1..] == Split(q, '|');
      JoinSplit(p, '|');
      JoinSplit(q, '|');
    }
  }

  lemma SeenIsLeased(v6: V6Text, leases: seq<Lease>, m: string, p: string)
    requires AllCanonical(v6, leases) && NormalizeMac(m) == Some(m)
    ensures m + "|" + p in Seen(leases) <==> Leased(leases, m, p)
  {
    NormalizeMacIdempotent(m);
    if m + "|" + p in Seen(leases) {
      var l :| l in leases && Active(l) && SeenKey(l) == m + "|" + p;
      var k :| 0 <= k < |leases| && leases[k] == l;
      assert Canonical(v6, leases[k]);
      NormalizeMacIdempotent(l.mac);
      PairKeyInjective(m, p, l.mac, l.ip);
    }
    if Leased(leases, m, p) {
      var k :| 0 <= k < |leases| && Active(leases[k]) && leases[k].mac == m && leases[k].ip == p;
      assert leases[k] in leases;
    }
  }

  // ---------- The theorems ----------

  lemma PrunedRow(db: Db, seen: set<string>, i: int, m: string, p: string)
    requires Valid(db)
    ensures DynRow(DropIps(db, StaleDynamic(db, seen)), i, m, p) <==> DynRow(db, i, m, p) && m + "|" + p in seen
  {
  }

  lemma OldRowsKept(v6: V6Text, pre: Db, leases: seq<Lease>, t: Trace, m: string, p: string, i: int)
    requires Valid(pre) && Ingested(v6, pre, leases, t) && i in pre.ips
    ensures DynRow(t.states[|leases|], i, m, p) <==> DynRow(pre, i, m, p)
  {
    AllGrows(v6, pre, leases, t, 0, |leases|);
    assert pre.ips[i].nic in pre.nics;
  }

  lemma NewRowsUpserted(v6: V6Text, pre: Db, leases: seq<Lease>, t: Trace, m: string, p: string, i: int)
    requires Ingested(v6, pre, leases, t) && i !in pre.ips
    requires DynRow(t.states[|leases|], i, m, p)
    ensures Upsert(v6, leases, t.oks, m, p) && !PairKnown(pre, m, p)
  {
    NewRows(v6, pre, leases, t, |leases|, i);
  }

  lemma UpsertedPairIsDynamic(v6: V6Text, pre: Db, leases: seq<Lease>, t: Trace, m: string, p: string)
    requires Valid(pre) && Ingested(v6, pre, leases, t)
    requires Upsert(v6, leases, t.oks, m, p) && !PairKnown(pre, m, p)
    ensures exists i :: DynRow(t.states[|leases|], i, m, p)
  {
    var last := t.states[|leases|];
    var k: nat :| k < |leases| && Active(leases[k]) && t.oks[k] && MacOf(leases[k]) == m && IpOf(v6, leases[k]) == p;
    UpsertedIsKnown(v6, pre, leases, t, k, |leases|);
    var i :| i in last.ips && last.ips[i].nic in last.nics && last.nics[last.ips[i].nic].mac == m && last.ips[i].ip == p;
    AllGrows(v6, pre, leases, t, 0, |leases|);
    NewPairNewRow(pre, last, i, m, p);
    NewRows(v6, pre, leases, t, |leases|, i);
  }

  lemma NewPairNewRow(pre: Db, last: Db, i: int, m: string, p: string)
    requires Valid(pre) && Grown(pre, last) && !PairKnown(pre, m, p)
    requires i in last.ips && last.ips[i].nic in last.nics && last.nics[last.ips[i].nic].mac == m && last.ips[i].ip == p
    ensures i !in pre.ips
  {
  }

  /**
   For any leases at all: a pair ends up dynamic exactly when some active lease spells it in canonical form, and
   it was dynamic before or was upserted while no row of any kind knew it. Old rows keep their identity.
   */
  lemma PollOutcome(v6: V6Text, pre: Db, leases: seq<Lease>, t: Trace, post: Db, status: LeaseStatus, m: string, p: string)
    requires Valid(pre) && Polled(v6, pre, leases, t, post, status)
    ensures (exists i :: DynRow(post, i, m, p)) <==>
            m + "|" + p in Seen(leases) &&
            ((exists i :: DynRow(pre, i, m, p)) || (Upsert(v6, leases, t.oks, m, p) && !PairKnown(pre, m, p)))
    ensures forall i :: i in pre.ips ==> (DynRow(post, i, m, p) <==> DynRow(pre, i, m, p) && m + "|" + p in Seen(leases))
  {
    var last := t.states[|leases|];
    forall i
      ensures DynRow(post, i, m, p) <==> DynRow(last, i, m, p) && m + "|" + p in Seen(leases)
    {
      PrunedRow(last, Seen(leases), i, m, p);
    }
    forall i | i in pre.ips
      ensures DynRow(last, i, m, p) <==> DynRow(pre, i, m, p)
    {
      OldRowsKept(v6, pre, leases, t, m, p, i);
    }
    if i :| DynRow(last, i, m, p) && i !in pre.ips {
      NewRowsUpserted(v6, pre, leases, t, m, p, i);
    }
    if Upsert(v6, leases, t.oks, m, p) && !PairKnown(pre, m, p) {
      UpsertedPairIsDynamic(v6, pre, leases, t, m, p);
    }
  }

  lemma DynamicMacsCanonical(v6: V6Text, pre: Db, leases: seq<Lease>, t: Trace, m: string, p: string)
    requires Valid(pre) && MacsCanonical(pre) && Ingested(v6, pre, leases, t)
    requires (exists i :: DynRow(pre, i, m, p)) || Upsert(v6, leases, t.oks, m, p)
    ensures NormalizeMac(m) == Some(m)
  {
    if Upsert(v6, leases, t.oks, m, p) {
      var k: nat :| k < |leases| && Active(leases[k]) && t.oks[k] && MacOf(leases[k]) == m && IpOf(v6, leases[k]) == p;
      StepUpserts(v6, pre, leases, t, k);
    }
  }

  /** For canonical leases the dynamic pairs mirror the active leases. */
  lemma PollMirrorsLeases(v6: V6Text, pre: Db, leases: seq<Lease>, t: Trace, post: Db, status: LeaseStatus, m: string, p: string)
    requires Valid(pre) && MacsCanonical(pre) && AllCanonical(v6, leases) && Polled(v6, pre, leases, t, post, status)
    ensures (exists i :: DynRow(post, i, m, p)) <==>
            Leased(leases, m, p) &&
            ((exists i :: DynRow(pre, i, m, p)) || (Upsert(v6, leases, t.oks, m, p) && !PairKnown(pre, m, p)))
  {
    PollOutcome(v6, pre, leases, t, post, status, m, p);
    if (exists i :: DynRow(pre, i, m, p)) || Upsert(v6, leases, t.oks, m, p) {
      DynamicMacsCanonical(v6, pre, leases, t, m, p);
      SeenIsLeased(v6, leases, m, p);
    }
  }

  /** Static and reserved rows are the same before and after, whatever the leases say. */
  lemma UserRowsUntouched(v6: V6Text, pre: Db, leases: seq<Lease>, t: Trace, post: Db, status: LeaseStatus, i: int)
    requires Valid(pre) && Polled(v6, pre, leases, t, post, status)
    ensures i in pre.ips && pre.ips[i].kind != Dynamic ==> i in post.ips && post.ips[i] == pre.ips[i]
    ensures i in post.ips && post.ips[i].kind != Dynamic ==> i in pre.ips && pre.ips[i] == post.ips[i]
  {
    AllGrows(v6, pre, leases, t, 0, |leases|);
    if i in post.ips && i !in pre.ips {
      NewRows(v6, pre, leases, t, |leases|, i);
    }
  }

  /** `Removed` counts the old dynamic rows that are no longer leased. */
  lemma RemovedCountsExpired(v6: V6Text, pre: Db, leases: seq<Lease>, t: Trace, post: Db, status: LeaseStatus)
    requires Valid(pre) && AllCanonical(v6, leases) && Polled(v6, pre, leases, t, post, status)
    ensures status.removed == |StaleDynamic(pre, Seen(leases))|
  {
    var last := t.states[|leases|];
    AllGrows(v6, pre, leases, t, 0, |leases|);
    forall i | i in last.ips && i !in pre.ips
      ensures i !in StaleDynamic(last, Seen(leases))
    {
      NewRows(v6, pre, leases, t, |leases|, i);
      var j: nat :| j < |leases| && Active(leases[j]) && t.oks[j] &&
                    FreshRow(pre, last, i, MacOf(leases[j]), IpOf(v6, leases[j]));
      assert Canonical(v6, leases[j]);
      assert leases[j] in leases;
      assert RowKey(last, i) == SeenKey(leases[j]);
    }
    SameStale(pre, last, Seen(leases));
  }

  lemma SameStale(pre: Db, last: Db, seen: set<string>)
    requires Valid(pre) && Grown(pre, last)
    requires forall i :: i in last.ips && i !in pre.ips ==> i !in StaleDynamic(last, seen)
    ensures StaleDynamic(last, seen) == StaleDynamic(pre, seen)
  {
    forall i
      ensures i in StaleDynamic(last, seen) <==> i in StaleDynamic(pre, seen)
    {
    }
  }

  ghost predicate Quiet(db: Db, h: int) {
    h in db.hosts && !db.hosts[h].dnsEnabled && db.hosts[h].tags == "dhcp-discovered"
  }

  lemma UpsertQuiet(pre: Db, post: Db, m: string, p: string, hostname: string, h: int)
    requires Upserted(pre, post, m, p, hostname) && h in post.hosts && h !in pre.hosts
    ensures Quiet(post, h)
  {
  }

  lemma StepQuiet(v6: V6Text, pre: Db, leases: seq<Lease>, t: Trace, k: nat, h: int)
    requires Ingested(v6, pre, leases, t) && k < |leases| && h in t.states[k + 1].hosts
    requires h in t.states[k].hosts ==> Quiet(t.states[k], h)
    ensures Quiet(t.states[k + 1], h)
  {
    StepUpserts(v6, pre, leases, t, k);
    StepGrows(v6, pre, leases, t, k);
    if h !in t.states[k].hosts {
      UpsertQuiet(t.states[k], t.states[k + 1], MacOf(leases[k]), IpOf(v6, leases[k]), leases[k].hostname, h);
    }
  }

  lemma {:induction false} NewHostsQuiet(v6: V6Text, pre: Db, leases: seq<Lease>, t: Trace, k: nat, h: int)
    requires Ingested(v6, pre, leases, t) && k <= |leases| && h in t.states[k].hosts && h !in pre.hosts
    ensures Quiet(t.states[k], h)
  {
    if k > 0 {
      var j: nat := k - 1;
      var before := t.states[j];
      if h in before.hosts {
        NewHostsQuiet(v6, pre, leases, t, j, h);
      }
      StepQuiet(v6, pre, leases, t, j, h);
    }
  }

  /** A poll keeps every table constraint, unique host names and MACs among them, and discovers hosts outside DNS. */
  lemma DiscoveryKeepsInvariants(v6: V6Text, pre: Db, leases: seq<Lease>, t: Trace, post: Db, status: LeaseStatus, h: int)
    requires Valid(pre) && Polled(v6, pre, leases, t, post, status)
    ensures Valid(post)
    ensures h in post.hosts && h !in pre.hosts ==> !post.hosts[h].dnsEnabled && post.hosts[h].tags == "dhcp-discovered"
    ensures h in pre.hosts ==> h in post.hosts && post.hosts[h] == pre.hosts[h]
  {
    DropIpsValid(t.states[|leases|], StaleDynamic(t.states[|leases|], Seen(leases)));
    AllGrows(v6, pre, leases, t, 0, |leases|);
    if h in post.hosts && h !in pre.hosts {
      NewHostsQuiet(v6, pre, leases, t, |leases|, h);
    }
  }

  // ---------- Polls among the other operations of the store ----------

  lemma UpsertIsEdit(v6: V6Text, pre: Db, post: Db, m: string, p: string, hostname: string)
    requires Good(v6, pre) && Valid(post) && Upserted(pre, post, m, p, hostname) && NormalizeMac(m) == Some(m)
    ensures Edited(pre, post)
  {
    UpsertGrows(pre, post, m, p, hostname);
    UpsertMacs(pre, post, m, p, hostname);
  }

  lemma LeaseStepKeepsGood(v6: V6Text, pre: Db, l: Lease, post: Db, ok: bool)
    requires Good(v6, pre) && Valid(post) && LeaseStep(v6, pre, l, post, ok)
    ensures Good(v6, post)
  {
    if ok {
      NormalizeMacIdempotent(l.mac);
      UpsertIsEdit(v6, pre, post, MacOf(l), IpOf(v6, l), l.hostname);
      EditKeepsGood(v6, pre, post);
    }
  }

  lemma StepStaysGood(v6: V6Text, pre: Db, leases: seq<Lease>, t: Trace, k: nat)
    requires Ingested(v6, pre, leases, t) && k < |leases| && Good(v6, t.states[k])
    ensures Good(v6, t.states[k + 1])
  {
    assert StepAt(v6, leases, t, k);
    LeaseStepKeepsGood(v6, t.states[k], leases[k], t.states[k + 1], t.oks[k]);
  }

  lemma {:induction false} StatesStayGood(v6: V6Text, pre: Db, leases: seq<Lease>, t: Trace, k: nat)
    requires Ingested(v6, pre, leases, t) && k <= |leases| && Good(v6, pre)
    ensures Good(v6, t.states[k])
  {
    if k > 0 {
      var j: nat := k - 1;
      StatesStayGood(v6, pre, leases, t, j);
      StepStaysGood(v6, pre, leases, t, j);
    }
  }

  /**
   A poll keeps the invariant of all reachable states: what it prunes takes its bindings along, so even before
   the next run no automatic address record yields an expired address, and that run will not conflict.
   */
  lemma PollKeepsGood(v6: V6Text, pre: Db, leases: seq<Lease>, t: Trace, post: Db, status: LeaseStatus)
    requires Good(v6, pre) && Polled(v6, pre, leases, t, post, status)
    ensures Good(v6, post)
  {
    var last: Db := t.states[|leases|];
    StatesStayGood(v6, pre, leases, t, |leases|);
    DropIpsValid(last, StaleDynamic(last, Seen(leases)));
    ShrinkKeepsGood(v6, last, post);
  }
}
