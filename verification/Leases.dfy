/**
 Lease ingestion: `UpsertDynamicLease`, `DeleteStaleDynamic` and one poll of the lease poller. The method
 contracts tie each database state to the next; Polling draws the consequences for whole polls.
 */
module Leases {
  import opened Basics
  import opened Text
  import opened Net
  import opened Database
  import opened Storage
  import opened Mac

  datatype Lease = Lease(ip: string, mac: string, hostname: string, state: int)

  const LEASE_STATE_ACTIVE := 0

  predicate Active(l: Lease) {
    l.state == LEASE_STATE_ACTIVE && l.mac != "" && l.ip != ""
  }

  function NormalizeIp(v6: V6Text, s: string): Option<string> {
    match ParseAddr(v6, s)
    case None => None
    case Some(a) => Some(PrintAddr(v6, a))
  }

  // ---------- What an upsert does ----------

  predicate MacKnown(db: Db, m: string) {
    exists n :: n in db.nics && db.nics[n].mac == m
  }

  /** There is a row of some kind for the address on the NIC with the MAC. */
  ghost predicate PairKnown(db: Db, m: string, p: string) {
    exists i :: i in db.ips && db.ips[i].nic in db.nics && db.nics[db.ips[i].nic].mac == m && db.ips[i].ip == p
  }

  predicate NameTaken(db: Db, name: string) {
    exists h :: h in db.hosts && db.hosts[h].name == name
  }

  /** The client's host name, or a synthetic one, before any collision is looked at. */
  function BaseName(m: string, hostname: string): string {
    var name := SanitizeHostname(hostname);
    if name == "" then "dhcp-" + Without(m, ':') else name
  }

  function SuffixedName(m: string, hostname: string): string {
    var flat := Without(m, ':');
    BaseName(m, hostname) + "-" + if |flat| >= 6 then flat[..6] else flat
  }

  function ChosenName(db: Db, m: string, hostname: string): string {
    if NameTaken(db, BaseName(m, hostname)) then SuffixedName(m, hostname) else BaseName(m, hostname)
  }

  function Discovered(name: string): Host {
    Host(name, "dhcp-discovered", "", false)
  }

  ghost predicate HostAdded(pre: Db, post: Db, m: string, name: string) {
    exists h, n :: h !in pre.hosts && n !in pre.nics &&
                   post.hosts == pre.hosts[h := Discovered(name)] && post.nics == pre.nics[n := Nic(h, m)]
  }

  ghost predicate RowAdded(pre: Db, post: Db, m: string, p: string) {
    exists i, n :: i !in pre.ips && n in post.nics && post.nics[n].mac == m && post.ips == pre.ips[i := Ip(n, p, Dynamic)]
  }

  /** A known MAC gains the row if it has none for the address; an unknown one gains a host and a NIC first. */
  ghost predicate Upserted(pre: Db, post: Db, m: string, p: string, hostname: string) {
    && post == pre.(hosts := post.hosts, nics := post.nics, ips := post.ips)
    && (if MacKnown(pre, m) then post.hosts == pre.hosts && post.nics == pre.nics
        else HostAdded(pre, post, m, ChosenName(pre, m, hostname)))
    && (if PairKnown(pre, m, p) then post.ips == pre.ips else RowAdded(pre, post, m, p))
  }

  /** The only database failure: the MAC is new, and both the base name and its suffixed form are taken. */
  ghost predicate NameBlocked(db: Db, m: string, hostname: string) {
    !MacKnown(db, m) && NameTaken(db, BaseName(m, hostname)) && NameTaken(db, SuffixedName(m, hostname))
  }

  ghost predicate UpsertOk(v6: V6Text, db: Db, l: Lease) {
    NormalizeMac(l.mac).Some? && NormalizeIp(v6, l.ip).Some? && !NameBlocked(db, NormalizeMac(l.mac).value, l.hostname)
  }

  /** One call: it succeeds exactly when it can, and a failed call leaves every table as it was. */
  ghost predicate UpsertStep(v6: V6Text, pre: Db, l: Lease, post: Db, ok: bool) {
    && (ok <==> UpsertOk(v6, pre, l))
    && (if ok then Upserted(pre, post, NormalizeMac(l.mac).value, NormalizeIp(v6, l.ip).value, l.hostname) else post == pre)
  }

  method CreateDiscoveredHost(pre: Db, m: string, hostname: string) returns (tx: Db, nicId: int, ok: bool)
    requires Valid(pre) && !MacKnown(pre, m)
    ensures ok <==> !NameBlocked(pre, m, hostname)
    ensures ok ==> Valid(tx) && tx == pre.(hosts := tx.hosts, nics := tx.nics) && nicId !in pre.nics
    ensures ok ==> HostAdded(pre, tx, m, ChosenName(pre, m, hostname)) && nicId in tx.nics && tx.nics[nicId].mac == m
  {
    tx, nicId, ok := pre, 0, false;
    var macFlat := Without(m, ':');
    var name := SanitizeHostnameLoop(hostname);
    if name == "" {
      name := "dhcp-" + macFlat;
    }
    if NameTaken(pre, name) {
      name := name + "-" + if |macFlat| >= 6 then macFlat[..6] else macFlat;
    }
    assert name == ChosenName(pre, m, hostname);
    if NameTaken(pre, name) {
      return;
    }
    var hostId := FreshId(pre.hosts.Keys);
    nicId := FreshId(pre.nics.Keys);
    tx := pre.(hosts := pre.hosts[hostId := Discovered(name)], nics := pre.nics[nicId := Nic(hostId, m)]);
    HostAddedValid(pre, hostId, nicId, name, m);
    ok := true;
  }

  lemma HostAddedValid(pre: Db, h: int, n: int, name: string, m: string)
    requires Valid(pre) && h !in pre.hosts && n !in pre.nics && !NameTaken(pre, name) && !MacKnown(pre, m)
    ensures Valid(pre.(hosts := pre.hosts[h := Discovered(name)], nics := pre.nics[n := Nic(h, m)]))
  {
    var post := pre.(hosts := pre.hosts[h := Discovered(name)], nics := pre.nics[n := Nic(h, m)]);
    forall i, j | i in post.hosts && j in post.hosts && HostNames(post)[i] == HostNames(post)[j]
      ensures i == j
    {
      if i != h && j != h {
        assert HostNames(pre)[i] == HostNames(pre)[j];
      }
    }
    forall i, j | i in post.nics && j in post.nics && Macs(post)[i] == Macs(post)[j]
      ensures i == j
    {
      if i != n && j != n {
        assert Macs(pre)[i] == Macs(pre)[j];
      }
    }
  }

  lemma RowAddedValid(pre: Db, i: int, n: int, p: string)
    requires Valid(pre) && i !in pre.ips && n in pre.nics
    requires forall j :: j in pre.ips && pre.ips[j].nic == n ==> pre.ips[j].ip != p
    ensures Valid(pre.(ips := pre.ips[i := Ip(n, p, Dynamic)]))
  {
  }

  lemma PairOnNic(db: Db, n: int, m: string, p: string)
    requires Valid(db) && n in db.nics && db.nics[n].mac == m
    ensures PairKnown(db, m, p) <==> exists j :: j in db.ips && db.ips[j].nic == n && db.ips[j].ip == p
  {
    forall j | j in db.ips && db.nics[db.ips[j].nic].mac == m
      ensures db.ips[j].nic == n
    {
      assert Macs(db)[db.ips[j].nic] == Macs(db)[n];
    }
  }

  /** `INSERT OR IGNORE` under UNIQUE(nic_id, ip): an existing row keeps its kind. */
  method InsertOrIgnore(pre: Db, nicId: int, m: string, p: string) returns (tx: Db)
    requires Valid(pre) && nicId in pre.nics && pre.nics[nicId].mac == m
    ensures Valid(tx) && tx == pre.(ips := tx.ips)
    ensures if PairKnown(pre, m, p) then tx.ips == pre.ips else RowAdded(pre, tx, m, p)
  {
    tx := pre;
    PairOnNic(pre, nicId, m, p);
    if !exists j :: j in pre.ips && pre.ips[j].nic == nicId && pre.ips[j].ip == p {
      var id := FreshId(pre.ips.Keys);
      RowAddedValid(pre, id, nicId, p);
      tx := pre.(ips := pre.ips[id := Ip(nicId, p, Dynamic)]);
    }
  }

  lemma UpsertComposes(pre: Db, mid: Db, post: Db, m: string, p: string, hostname: string)
    requires Valid(pre) && Valid(mid) && post == mid.(ips := post.ips) && mid == pre.(hosts := mid.hosts, nics := mid.nics)
    requires if MacKnown(pre, m) then mid == pre else HostAdded(pre, mid, m, ChosenName(pre, m, hostname))
    requires if PairKnown(mid, m, p) then post.ips == mid.ips else RowAdded(mid, post, m, p)
    ensures Upserted(pre, post, m, p, hostname)
  {
    assert !MacKnown(pre, m) ==> !PairKnown(mid, m, p);
  }

  method UpsertDynamicLease(st: Store, l: Lease) returns (ok: bool)
    requires Valid(st.db)
    modifies st
    ensures Valid(st.db) && UpsertStep(st.v6, old(st.db), l, st.db, ok)
  {
    ok := false;
    var mac := NormalizeMacLoop(l.mac);
    if mac.None? {
      return;
    }
    var ip := NormalizeIp(st.v6, l.ip);
    if ip.None? {
      return;
    }
    ghost var pre := st.db;
    var tx;
    tx, ok := UpsertTx(st.db, mac.value, ip.value, l.hostname);
    if ok {
      st.db := tx;
    }
  }

  /** The body of the transaction. */
  method UpsertTx(pre: Db, m: string, p: string, hostname: string) returns (tx: Db, ok: bool)
    requires Valid(pre)
    ensures ok <==> !NameBlocked(pre, m, hostname)
    ensures ok ==> Valid(tx) && Upserted(pre, tx, m, p, hostname)
  {
    tx, ok := pre, true;
    var nicId: int;
    if n :| n in pre.nics && pre.nics[n].mac == m {
      nicId := n;
    } else {
      tx, nicId, ok := CreateDiscoveredHost(pre, m, hostname);
      if !ok {
        return;
      }
    }
    ghost var mid := tx;
    tx := InsertOrIgnore(tx, nicId, m, p);
    UpsertComposes(pre, mid, tx, m, p, hostname);
  }

  // ---------- What an upsert stores, in the client's own terms ----------

  /** The name of a new host: the client's, made fit, or one from the MAC; with the MAC's first six digits behind it if it is taken. */
  ghost predicate NamedFor(db: Db, name: string, mac: string, hostname: string) {
    var digits := ToLower(Bare(mac));
    var own := SanitizeHostname(hostname);
    var base := if own == "" then "dhcp-" + digits else own;
    |digits| == 12 &&
    if exists h :: h in db.hosts && db.hosts[h].name == base then name == base + "-" + digits[..6] else name == base
  }

  lemma FlatMac(mac: string)
    requires NormalizeMac(mac).Some?
    ensures Without(NormalizeMac(mac).value, ':') == ToLower(Bare(mac)) && |ToLower(Bare(mac))| == 12
  {
    DigitsAreBare(mac);
    ColonizeFacts(Digits(mac));
  }

  /** A lease that is taken in has a row: the printed form of its address, on the NIC with its MAC as lower-case pairs. */
  lemma UpsertInFull(v6: V6Text, pre: Db, l: Lease, post: Db) returns (i: int)
    requires Valid(pre) && UpsertStep(v6, pre, l, post, true)
    ensures ParseAddr(v6, l.ip).Some? && |Bare(l.mac)| == 12
    ensures i in post.ips && post.ips[i].nic in post.nics
    ensures PairsOf(post.nics[post.ips[i].nic].mac, Bare(l.mac)) && post.ips[i].ip == PrintAddr(v6, ParseAddr(v6, l.ip).value)
    ensures if i in pre.ips then post.ips == pre.ips else post.ips == pre.ips[i := Ip(post.ips[i].nic, post.ips[i].ip, Dynamic)]
  {
    NormalizeMacIff(l.mac);
    var m, p := NormalizeMac(l.mac).value, NormalizeIp(v6, l.ip).value;
    if PairKnown(pre, m, p) {
      i :| i in pre.ips && pre.ips[i].nic in pre.nics && pre.nics[pre.ips[i].nic].mac == m && pre.ips[i].ip == p;
    } else {
      var n;
      i, n :| i !in pre.ips && n in post.nics && post.nics[n].mac == m && post.ips == pre.ips[i := Ip(n, p, Dynamic)];
    }
  }

  /** An unknown MAC brings one host, outside DNS and tagged as discovered, and one NIC; a known one brings neither. */
  lemma DiscoveredInFull(v6: V6Text, pre: Db, l: Lease, post: Db) returns (h: int, n: int)
    requires Valid(pre) && UpsertStep(v6, pre, l, post, true)
    ensures |Bare(l.mac)| == 12
    ensures (exists k :: k in pre.nics && pre.nics[k].mac == NormalizeMac(l.mac).value) ==> post.hosts == pre.hosts && post.nics == pre.nics
    ensures !(exists k :: k in pre.nics && pre.nics[k].mac == NormalizeMac(l.mac).value) ==>
              && h !in pre.hosts && n !in pre.nics && h in post.hosts && n in post.nics
              && post.hosts == pre.hosts[h := Host(post.hosts[h].name, "dhcp-discovered", "", false)]
              && NamedFor(pre, post.hosts[h].name, l.mac, l.hostname)
              && post.nics == pre.nics[n := Nic(h, post.nics[n].mac)] && PairsOf(post.nics[n].mac, Bare(l.mac))
  {
    NormalizeMacIff(l.mac);
    FlatMac(l.mac);
    h, n := 0, 0;
    var m := NormalizeMac(l.mac).value;
    if !MacKnown(pre, m) {
      var name := ChosenName(pre, m, l.hostname);
      h, n :| h !in pre.hosts && n !in pre.nics &&
              post.hosts == pre.hosts[h := Discovered(name)] && post.nics == pre.nics[n := Nic(h, m)];
    }
  }

  // ---------- Pruning ----------

  function RowKey(db: Db, i: int): string
    requires i in db.ips && db.ips[i].nic in db.nics
  {
    db.nics[db.ips[i].nic].mac + "|" + db.ips[i].ip
  }

  function StaleDynamic(db: Db, seen: set<string>): set<int> {
    set i | i in db.ips && db.ips[i].kind == Dynamic && db.ips[i].nic in db.nics && RowKey(db, i) !in seen
  }

  lemma DropMoreIps(db: Db, xs: set<int>, i: int)
    ensures DropIps(DropIps(db, xs), {i}) == DropIps(db, xs + {i})
  {
    assert db.ips - xs - {i} == db.ips - (xs + {i});
  }

  method DeleteStaleDynamic(st: Store, seen: set<string>) returns (removed: nat)
    requires Valid(st.db)
    modifies st
    ensures Valid(st.db) && st.db == DropIps(old(st.db), StaleDynamic(old(st.db), seen))
    ensures removed == |StaleDynamic(old(st.db), seen)|
  {
    ghost var pre := st.db;
    var ids := StaleDynamic(st.db, seen);
    removed := |ids|;
    DropIpsValid(pre, ids);
    st.db := DeleteIps(st.db, ids);
  }

  /** The rows collected by the query are deleted one statement at a time. */
  method DeleteIps(before: Db, ids: set<int>) returns (db: Db)
    ensures db == DropIps(before, ids)
  {
    db := before;
    ghost var gone: set<int> := {};
    var todo := ids;
    assert before.ips - {} == before.ips;
    while todo != {}
      invariant gone + todo == ids && db == DropIps(before, gone)
      decreases |todo|
    {
      var _ := SomeElement(todo);
      var i :| i in todo;
      DropMoreIps(before, gone, i);
      db := DropIps(db, {i});
      gone, todo := gone + {i}, todo - {i};
    }
    assert gone == ids;
  }

  // ---------- One poll ----------

  function SeenKey(l: Lease): string {
    l.mac + "|" + l.ip
  }

  datatype LeaseStatus = LeaseStatus(success: bool, leaseRows: nat, removed: nat)

  /** The states a poll goes through, one a lease, and which upserts succeeded. */
  datatype Trace = Trace(states: seq<Tables>, oks: seq<bool>)

  ghost predicate LeaseStep(v6: V6Text, pre: Db, l: Lease, post: Db, ok: bool) {
    if Active(l) then UpsertStep(v6, pre, l, post, ok) else post == pre && !ok
  }

  ghost predicate StepAt(v6: V6Text, leases: seq<Lease>, t: Trace, k: nat)
    requires |t.states| == |t.oks| + 1 && k < |t.oks| && k < |leases|
  {
    LeaseStep(v6, t.states[k], leases[k], t.states[k + 1], t.oks[k])
  }

  ghost predicate Ingested(v6: V6Text, pre: Db, leases: seq<Lease>, t: Trace) {
    && |t.states| == |leases| + 1 && |t.oks| == |leases| && t.states[0] == pre
    && (forall k: nat :: k < |leases| ==> StepAt(v6, leases, t, k))
  }

  function Seen(leases: seq<Lease>): set<string> {
    set l | l in leases && Active(l) :: SeenKey(l)
  }

  /** Seen are the leases in state 0 with a MAC and an address, each as these two with a bar between. */
  lemma SeenMeaning(leases: seq<Lease>, k: string)
    ensures k in Seen(leases) <==>
            exists l :: l in leases && l.state == 0 && l.mac != "" && l.ip != "" && k == l.mac + "|" + l.ip
  {
    if k in Seen(leases) {
      var l :| l in leases && Active(l) && SeenKey(l) == k;
      assert k == l.mac + "|" + l.ip;
    }
    if l :| l in leases && l.state == 0 && l.mac != "" && l.ip != "" && k == l.mac + "|" + l.ip {
      assert SeenKey(l) in Seen(leases);
    }
  }

  function CountTrue(oks: seq<bool>): nat {
    if oks == [] then 0 else CountTrue(oks[..|oks| - 1]) + if oks[|oks| - 1] then 1 else 0
  }

  ghost predicate Polled(v6: V6Text, pre: Db, leases: seq<Lease>, t: Trace, post: Db, status: LeaseStatus) {
    && Ingested(v6, pre, leases, t)
    && var last := t.states[|leases|];
       post == DropIps(last, StaleDynamic(last, Seen(leases))) &&
       status == LeaseStatus(true, CountTrue(t.oks), |StaleDynamic(last, Seen(leases))|)
  }

  lemma IngestNext(v6: V6Text, pre: Db, leases: seq<Lease>, k: nat, t: Trace, post: Db, ok: bool)
    requires k < |leases| && Ingested(v6, pre, leases[..k], t) && Valid(post)
    requires LeaseStep(v6, t.states[k], leases[k], post, ok)
    ensures Ingested(v6, pre, leases[..k + 1], Trace(t.states + [post], t.oks + [ok]))
  {
    var u := Trace(t.states + [post], t.oks + [ok]);
    var front := leases[..k + 1];
    forall j: nat | j < |front|
      ensures StepAt(v6, front, u, j)
    {
      if j < k {
        assert StepAt(v6, leases[..k], t, j);
        assert leases[..k][j] == leases[j];
      }
    }
  }

  lemma CountNext(oks: seq<bool>, ok: bool)
    ensures CountTrue(oks + [ok]) == CountTrue(oks) + if ok then 1 else 0
  {
    assert (oks + [ok])[..|oks|] == oks;
  }

  lemma SeenNext(leases: seq<Lease>, k: nat)
    requires k < |leases|
    ensures Seen(leases[..k + 1]) == Seen(leases[..k]) + if Active(leases[k]) then {SeenKey(leases[k])} else {}
  {
    assert leases[..k + 1] == leases[..k] + [leases[k]];
  }

  method Poll(st: Store, leases: seq<Lease>) returns (status: LeaseStatus, ghost t: Trace)
    requires Valid(st.db)
    modifies st
    ensures Valid(st.db) && Polled(st.v6, old(st.db), leases, t, st.db, status)
  {
    ghost var pre := st.db;
    t := Trace([st.db], []);
    var seen: set<string> := {};
    var rows := 0;
    for k := 0 to |leases|
      invariant Valid(st.db) && Ingested(st.v6, pre, leases[..k], t) && t.states[k] == st.db
      invariant seen == Seen(leases[..k]) && rows == CountTrue(t.oks)
    {
      SeenNext(leases, k);
      var ok := false;
      if Active(leases[k]) {
        seen := seen + {SeenKey(leases[k])};
        ok := UpsertDynamicLease(st, leases[k]);
        if ok {
          rows := rows + 1;
        }
      }
      IngestNext(st.v6, pre, leases, k, t, st.db, ok);
      CountNext(t.oks, ok);
      t := Trace(t.states + [st.db], t.oks + [ok]);
    }
    assert leases[..|leases|] == leases;
    var removed := DeleteStaleDynamic(st, seen);
    status := LeaseStatus(true, rows, removed);
  }
}
