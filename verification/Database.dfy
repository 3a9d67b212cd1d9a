/**
 The tables netdb keeps, as one value: the constraints of the schema, the cascades that deletions follow,
 and the queries other modules run. A transaction works on a copy of the value and commits by storing it.
 */
module Database {
  import opened Basics
  import opened Ordering

  datatype Kind = Static | Reserved | Dynamic

  datatype RecordType = A | AAAA | CNAME | TXT | MX | PTR | SRV

  datatype Source = Manual | Auto

  datatype Role = Forward | Reverse

  datatype Host = Host(name: string, tags: string, dnsName: string, dnsEnabled: bool)

  datatype Nic = Nic(host: int, mac: string)

  datatype Ip = Ip(nic: int, ip: string, kind: Kind)

  datatype Subnet = Subnet(cidr: string, gateway: string, rangeStart: string, rangeEnd: string, dnsServers: string)

  datatype Zone = Zone(name: string, defaultTtl: int)

  datatype Link = Link(subnet: int, zone: int, role: Role)

  datatype Key = Key(fqdn: string, rtype: RecordType, target: string)

  datatype Rec = Rec(key: Key, ttl: int, enabled: bool, zone: Option<int>, source: Source)

  datatype Db = Db(hosts: map<int, Host>, nics: map<int, Nic>, ips: map<int, Ip>,
                   subnets: map<int, Subnet>, zones: map<int, Zone>, links: set<Link>,
                   records: map<int, Rec>, bindings: set<(int, int)>)

  function TypeName(t: RecordType): string {
    match t
    case A => "A"
    case AAAA => "AAAA"
    case CNAME => "CNAME"
    case TXT => "TXT"
    case MX => "MX"
    case PTR => "PTR"
    case SRV => "SRV"
  }

  // ---------- Columns ----------

  function HostNames(db: Db): map<int, string> {
    map i | i in db.hosts :: db.hosts[i].name
  }

  function Macs(db: Db): map<int, string> {
    map i | i in db.nics :: db.nics[i].mac
  }

  function IpTexts(db: Db): map<int, string> {
    map i | i in db.ips :: db.ips[i].ip
  }

  function Cidrs(db: Db): map<int, string> {
    map i | i in db.subnets :: db.subnets[i].cidr
  }

  function ZoneNames(db: Db): map<int, string> {
    map i | i in db.zones :: db.zones[i].name
  }

  // ---------- Constraints of the schema ----------

  ghost predicate HostsValid(db: Db) {
    && UniqueKey(db.hosts.Keys, HostNames(db))
    && UniqueKey(db.nics.Keys, Macs(db))
    && (forall n :: n in db.nics ==> db.nics[n].host in db.hosts)
    && (forall i :: i in db.ips ==> db.ips[i].nic in db.nics)
    && (forall i, j :: i in db.ips && j in db.ips && db.ips[i].nic == db.ips[j].nic && db.ips[i].ip == db.ips[j].ip
          ==> i == j)
  }

  ghost predicate ZonesValid(db: Db) {
    && UniqueKey(db.subnets.Keys, Cidrs(db))
    && UniqueKey(db.zones.Keys, ZoneNames(db))
    && (forall l :: l in db.links ==> l.subnet in db.subnets && l.zone in db.zones)
  }

  ghost predicate RecordsUnique(records: map<int, Rec>) {
    forall r, s :: r in records && s in records && records[r].key == records[s].key ==> r == s
  }

  ghost predicate RecordsValid(db: Db) {
    && RecordsUnique(db.records)
    && (forall r :: r in db.records && db.records[r].zone.Some? ==> db.records[r].zone.value in db.zones)
    && (forall r, i :: (r, i) in db.bindings ==> r in db.records && i in db.ips)
  }

  ghost predicate Valid(db: Db) {
    HostsValid(db) && ZonesValid(db) && RecordsValid(db)
  }

  const EMPTY: Db := Db(map[], map[], map[], map[], map[], {}, map[], {})

  /** Tables that meet the constraints, as any snapshot the engine hands out does. */
  type Tables = db: Db | Valid(db) witness EMPTY

  // ---------- Row identifiers ----------

  lemma {:induction false} UpperBound(ids: set<int>) returns (m: int)
    ensures forall i :: i in ids ==> i <= m
    decreases |ids|
  {
    if ids == {} {
      m := 0;
    } else {
      var x := SomeElement(ids);
      var rest := ids - {x};
      var bound := UpperBound(rest);
      m := Max(bound, x);
      forall i | i in ids
        ensures i <= m
      {
        assert i == x || i in rest;
      }
    }
  }

  /** An identifier no row has yet. */
  method FreshId(ids: set<int>) returns (id: int)
    ensures id !in ids
  {
    ghost var m := UpperBound(ids);
    assert m + 1 !in ids;
    id :| id !in ids;
  }

  // ---------- Deletions and their cascades ----------

  function DropBindings(db: Db, records: set<int>, ips: set<int>): set<(int, int)> {
    set b | b in db.bindings && b.0 !in records && b.1 !in ips
  }

  function DropIps(db: Db, ids: set<int>): Db {
    db.(ips := db.ips - ids, bindings := DropBindings(db, {}, ids))
  }

  function DropNics(db: Db, ids: set<int>): Db {
    var ips := set i | i in db.ips && db.ips[i].nic in ids;
    DropIps(db, ips).(nics := db.nics - ids)
  }

  function DropHosts(db: Db, ids: set<int>): Db {
    var nics := set n | n in db.nics && db.nics[n].host in ids;
    DropNics(db, nics).(hosts := db.hosts - ids)
  }

  function DropRecords(db: Db, ids: set<int>): Db {
    db.(records := db.records - ids, bindings := DropBindings(db, ids, {}))
  }

  function DropZones(db: Db, ids: set<int>): Db {
    var recs := set r | r in db.records && db.records[r].zone.Some? && db.records[r].zone.value in ids;
    DropRecords(db, recs).(zones := db.zones - ids, links := set l | l in db.links && l.zone !in ids)
  }

  function DropSubnets(db: Db, ids: set<int>): Db {
    db.(subnets := db.subnets - ids, links := set l | l in db.links && l.subnet !in ids)
  }

  lemma DropIpsValid(db: Db, ids: set<int>)
    requires Valid(db)
    ensures Valid(DropIps(db, ids))
  {
  }

  lemma DropNicsValid(db: Db, ids: set<int>)
    requires Valid(db)
    ensures Valid(DropNics(db, ids))
  {
    var post := DropNics(db, ids);
    assert forall i :: i in post.ips ==> i in db.ips && db.ips[i].nic !in ids;
  }

  lemma DropHostsValid(db: Db, ids: set<int>)
    requires Valid(db)
    ensures Valid(DropHosts(db, ids))
  {
    var nics := set n | n in db.nics && db.nics[n].host in ids;
    DropNicsValid(db, nics);
  }

  lemma DropRecordsValid(db: Db, ids: set<int>)
    requires Valid(db)
    ensures Valid(DropRecords(db, ids))
  {
  }

  lemma DropZonesValid(db: Db, ids: set<int>)
    requires Valid(db)
    ensures Valid(DropZones(db, ids))
  {
    var recs := set r | r in db.records && db.records[r].zone.Some? && db.records[r].zone.value in ids;
    DropRecordsValid(db, recs);
    var post := DropZones(db, ids);
    assert forall r :: r in post.records ==> r in db.records && r !in recs;
  }

  lemma DropSubnetsValid(db: Db, ids: set<int>)
    requires Valid(db)
    ensures Valid(DropSubnets(db, ids))
  {
  }

  predicate OnHosts(db: Db, i: int, hosts: set<int>) {
    i in db.ips && db.ips[i].nic in db.nics && db.nics[db.ips[i].nic].host in hosts
  }

  /** Deleting hosts takes their NICs, those NICs' addresses and the bindings to these with them, and nothing else. */
  lemma HostsDeleted(db: Db, ids: set<int>)
    requires Valid(db)
    ensures var post := DropHosts(db, ids);
            && post == db.(hosts := post.hosts, nics := post.nics, ips := post.ips, bindings := post.bindings)
            && post.hosts == (map h | h in db.hosts && h !in ids :: db.hosts[h])
            && post.nics == (map n | n in db.nics && db.nics[n].host !in ids :: db.nics[n])
            && post.ips == (map i | i in db.ips && !OnHosts(db, i, ids) :: db.ips[i])
            && post.bindings == (set b | b in db.bindings && !OnHosts(db, b.1, ids))
  {
    var nics := set n | n in db.nics && db.nics[n].host in ids;
    var ips := set i | i in db.ips && db.ips[i].nic in nics;
    assert forall i :: i in ips <==> OnHosts(db, i, ids);
  }

  /** Deleting zones takes the records filed under them, those records' bindings and the zones' links with them, and nothing else. */
  lemma ZonesDeleted(db: Db, ids: set<int>)
    requires Valid(db)
    ensures var post := DropZones(db, ids);
            && post == db.(zones := post.zones, links := post.links, records := post.records, bindings := post.bindings)
            && post.zones == (map z | z in db.zones && z !in ids :: db.zones[z])
            && post.links == (set l | l in db.links && l.zone !in ids)
            && post.records == (map r | r in db.records && (db.records[r].zone.Some? ==> db.records[r].zone.value !in ids) :: db.records[r])
            && post.bindings == (set b | b in db.bindings && b.0 in post.records)
  {
    forall b | b in db.bindings
      ensures b.0 in db.records
    {
      var (r, i) := b;
      assert (r, i) in db.bindings;
    }
  }

  // ---------- Queries ----------

  function NicsOf(db: Db, h: int): set<int> {
    set n | n in db.nics && db.nics[n].host == h
  }

  function IpsOf(db: Db, n: int): set<int> {
    set i | i in db.ips && db.ips[i].nic == n
  }

  function ZonesOn(db: Db, s: int, role: Role): set<int> {
    set l | l in db.links && l.subnet == s && l.role == role :: l.zone
  }

  function ListHosts(db: Db): seq<int>
    requires Valid(db)
  {
    OrderBy(db.hosts.Keys, HostNames(db))
  }

  function ListNics(db: Db, h: int): seq<int>
    requires Valid(db)
  {
    OrderBy(NicsOf(db, h), Macs(db))
  }

  function ListIps(db: Db, n: int): seq<int>
    requires Valid(db)
  {
    OrderBy(IpsOf(db, n), IpTexts(db))
  }

  function ListSubnets(db: Db): seq<int>
    requires Valid(db)
  {
    OrderBy(db.subnets.Keys, Cidrs(db))
  }

  function ListZones(db: Db, s: int, role: Role): seq<int>
    requires Valid(db)
  {
    OrderBy(ZonesOn(db, s, role), ZoneNames(db))
  }

  function Links(s: int, zones: seq<int>, role: Role): (r: seq<Link>)
    ensures |r| == |zones|
    ensures forall i :: 0 <= i < |zones| ==> r[i] == Link(s, zones[i], role)
  {
    seq(|zones|, i requires 0 <= i < |zones| => Link(s, zones[i], role))
  }

  /** `ORDER BY sz.role, z.name`: forward links first. */
  function ListLinks(db: Db, s: int): seq<Link>
    requires Valid(db)
  {
    Links(s, ListZones(db, s, Forward), Forward) + Links(s, ListZones(db, s, Reverse), Reverse)
  }

  lemma RoleLinksMeaning(db: Db, s: int, role: Role, l: Link)
    requires Valid(db)
    ensures l in Links(s, ListZones(db, s, role), role) <==> l in db.links && l.subnet == s && l.role == role
  {
    var zones := ListZones(db, s, role);
    var links := Links(s, zones, role);
    if l in links {
      var k :| 0 <= k < |links| && links[k] == l;
      assert zones[k] in ZonesOn(db, s, role);
    }
    if l in db.links && l.subnet == s && l.role == role {
      assert l.zone in ZonesOn(db, s, role);
      var k :| 0 <= k < |zones| && zones[k] == l.zone;
      assert links[k] == l;
    }
  }

  lemma ListLinksMeaning(db: Db, s: int, l: Link)
    requires Valid(db)
    ensures l in ListLinks(db, s) <==> l in db.links && l.subnet == s
  {
    RoleLinksMeaning(db, s, Forward, l);
    RoleLinksMeaning(db, s, Reverse, l);
  }

  // ---------- Flattening (the desired-records query) ----------

  datatype Row = Row(name: string, rtype: RecordType, value: string, ttl: int)

  /** The LEFT JOIN: a record with its bindings, or alone when it has none. */
  ghost predicate Joined(db: Db, r: int, b: Option<int>) {
    r in db.records &&
    match b
    case Some(i) => (r, i) in db.bindings
    case None => forall i :: (r, i) !in db.bindings
  }

  function RowOf(db: Db, r: int, b: Option<int>): Row
    requires r in db.records && (b.Some? ==> b.value in db.ips)
  {
    var rec := db.records[r];
    Row(rec.key.fqdn, rec.key.rtype, if b.Some? then db.ips[b.value].ip else rec.key.target, rec.ttl)
  }

  ghost predicate Flattens(db: Db, zone: int, r: int, b: Option<int>)
    requires Valid(db)
  {
    Joined(db, r, b) && db.records[r].zone == Some(zone) && db.records[r].enabled && RowOf(db, r, b).value != ""
  }
}
