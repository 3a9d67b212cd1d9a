/**
 What `buildDesired` computes, said of the tables: which address rows contribute to which records.
 Nothing here mentions lists, loops or traversal order.
 */
module SynthMeaning {
  import opened Basics
  import opened Text
  import opened Ordering
  import opened Net
  import opened Database
  import opened Placement
  import opened Synth

  // ---------- The relation ----------

  /** A static or reserved, parseable address of a host that takes part in DNS. */
  ghost predicate Publishes(v6: V6Text, db: Db, i: int)
    requires Valid(db)
  {
    i in db.ips && db.ips[i].kind != Dynamic && ParseAddr(v6, db.ips[i].ip).Some? &&
    db.hosts[db.nics[db.ips[i].nic].host].dnsEnabled
  }

  function AddrOf(v6: V6Text, db: Db, i: int): Addr
    requires i in db.ips && ParseAddr(v6, db.ips[i].ip).Some?
  {
    ParseAddr(v6, db.ips[i].ip).value
  }

  ghost predicate OnSubnet(v6: V6Text, db: Db, i: int, s: int)
    requires Valid(db)
  {
    Publishes(v6, db, i) && ChosenSubnet(v6, db, AddrOf(v6, db, i), s)
  }

  ghost predicate ForwardTo(v6: V6Text, db: Db, i: int, z: int)
    requires Valid(db)
  {
    exists s :: OnSubnet(v6, db, i, s) && Link(s, z, Forward) in db.links
  }

  ghost predicate LeastForwardOn(db: Db, s: int, f: int)
    requires Valid(db)
  {
    Link(s, f, Forward) in db.links &&
    forall g :: Link(s, g, Forward) in db.links && g != f ==> Less(db.zones[f].name, db.zones[g].name)
  }

  /** The address has a PTR from zone `z` to a name in zone `f`. */
  ghost predicate PointsTo(v6: V6Text, db: Db, i: int, z: int, f: int)
    requires Valid(db)
  {
    exists s :: OnSubnet(v6, db, i, s) && LeastForwardOn(db, s, f) && Link(s, z, Reverse) in db.links &&
                HasSuffix(ReverseName(AddrOf(v6, db, i)), db.zones[z].name)
  }

  ghost function ForwardKey(v6: V6Text, db: Db, i: int, z: int): Key
    requires Valid(db) && Publishes(v6, db, i) && z in db.zones
  {
    Key(LabelOf(db, i) + "." + db.zones[z].name, AddrType(AddrOf(v6, db, i)), "")
  }

  ghost function PtrKey(v6: V6Text, db: Db, i: int, f: int): Key
    requires Valid(db) && Publishes(v6, db, i) && f in db.zones
  {
    Key(ReverseName(AddrOf(v6, db, i)), PTR, LabelOf(db, i) + "." + db.zones[f].name)
  }

  /** Row `i` contributes to address record `k` on behalf of forward zone `z`. */
  ghost predicate Names(v6: V6Text, db: Db, i: int, z: int, k: Key)
    requires Valid(db)
  {
    ForwardTo(v6, db, i, z) && k == ForwardKey(v6, db, i, z)
  }

  /** Row `i` has pointer record `k` in reverse zone `z`. */
  ghost predicate Points(v6: V6Text, db: Db, i: int, z: int, k: Key)
    requires Valid(db)
  {
    exists f :: PointsTo(v6, db, i, z, f) && k == PtrKey(v6, db, i, f)
  }

  // ---------- The relation in full ----------

  /** The host of an address row. */
  function HostRow(db: Db, i: int): Host
    requires Valid(db) && i in db.ips
  {
    db.hosts[db.nics[db.ips[i].nic].host]
  }

  /** `name` is the host's DNS name, or its own if it has none, a dot and the name of the zone. */
  predicate NamedUnder(db: Db, i: int, z: int, name: string)
    requires Valid(db) && i in db.ips && z in db.zones
  {
    var h := HostRow(db, i);
    name == (if h.dnsName == "" then h.name else h.dnsName) + "." + db.zones[z].name
  }

  /** The row is static or reserved, its host takes part in DNS, and its text is the address `a` on subnet `s`. */
  ghost predicate SitsOn(v6: V6Text, db: Db, i: int, a: Addr, s: int)
    requires Valid(db)
  {
    i in db.ips && (db.ips[i].kind == Static || db.ips[i].kind == Reserved) && HostRow(db, i).dnsEnabled &&
    ParseAddr(v6, db.ips[i].ip) == Some(a) && ChosenSubnet(v6, db, a, s)
  }

  ghost predicate NamesInFull(v6: V6Text, db: Db, i: int, z: int, k: Key)
    requires Valid(db)
  {
    exists s, a ::
      && SitsOn(v6, db, i, a, s) && Link(s, z, Forward) in db.links && NamedUnder(db, i, z, k.fqdn) && k.target == ""
      && (k.rtype == A <==> a.V4?) && (k.rtype == AAAA <==> a.V6?)
  }

  ghost predicate PointsInFull(v6: V6Text, db: Db, i: int, z: int, k: Key)
    requires Valid(db)
  {
    exists s, a, f ::
      && SitsOn(v6, db, i, a, s) && Link(s, z, Reverse) in db.links && Link(s, f, Forward) in db.links
      && (forall g :: Link(s, g, Forward) in db.links && g != f ==> Less(db.zones[f].name, db.zones[g].name))
      && k.rtype == PTR && k.fqdn == ReverseName(a) && NamedUnder(db, i, f, k.target)
      && HasSuffix(k.fqdn, db.zones[z].name)
  }

  lemma SitsOnIff(v6: V6Text, db: Db, i: int, a: Addr, s: int)
    requires Valid(db)
    ensures SitsOn(v6, db, i, a, s) <==> OnSubnet(v6, db, i, s) && AddrOf(v6, db, i) == a
  {
  }

  /** A row names an address record: what that takes, in terms of the columns. */
  lemma NamesIffInFull(v6: V6Text, db: Db, i: int, z: int, k: Key)
    requires Valid(db)
    ensures Names(v6, db, i, z, k) <==> NamesInFull(v6, db, i, z, k)
  {
    if Names(v6, db, i, z, k) {
      var s :| OnSubnet(v6, db, i, s) && Link(s, z, Forward) in db.links;
      SitsOnIff(v6, db, i, AddrOf(v6, db, i), s);
    }
    if NamesInFull(v6, db, i, z, k) {
      var s, a :|
        && SitsOn(v6, db, i, a, s) && Link(s, z, Forward) in db.links && NamedUnder(db, i, z, k.fqdn) && k.target == ""
        && (k.rtype == A <==> a.V4?) && (k.rtype == AAAA <==> a.V6?);
      SitsOnIff(v6, db, i, a, s);
    }
  }

  /** A row points with a PTR record: what that takes, in terms of the columns. */
  lemma PointsIffInFull(v6: V6Text, db: Db, i: int, z: int, k: Key)
    requires Valid(db)
    ensures Points(v6, db, i, z, k) <==> PointsInFull(v6, db, i, z, k)
  {
    if Points(v6, db, i, z, k) {
      var f :| PointsTo(v6, db, i, z, f) && k == PtrKey(v6, db, i, f);
      var s :| OnSubnet(v6, db, i, s) && LeastForwardOn(db, s, f) && Link(s, z, Reverse) in db.links &&
               HasSuffix(ReverseName(AddrOf(v6, db, i)), db.zones[z].name);
      SitsOnIff(v6, db, i, AddrOf(v6, db, i), s);
      assert NamedUnder(db, i, f, k.target);
    }
    if PointsInFull(v6, db, i, z, k) {
      PointsFromFull(v6, db, i, z, k);
    }
  }

  lemma PointsFromFull(v6: V6Text, db: Db, i: int, z: int, k: Key)
    requires Valid(db) && PointsInFull(v6, db, i, z, k)
    ensures Points(v6, db, i, z, k)
  {
    var s, a, f :|
      && SitsOn(v6, db, i, a, s) && Link(s, z, Reverse) in db.links && Link(s, f, Forward) in db.links
      && (forall g :: Link(s, g, Forward) in db.links && g != f ==> Less(db.zones[f].name, db.zones[g].name))
      && k.rtype == PTR && k.fqdn == ReverseName(a) && NamedUnder(db, i, f, k.target)
      && HasSuffix(k.fqdn, db.zones[z].name);
    SitsOnIff(v6, db, i, a, s);
    assert PointsTo(v6, db, i, z, f);
  }

  // ---------- Emissions of one address ----------

  lemma {:induction false} ForwardMembers(db: Db, i: int, leaf: string, t: RecordType, links: seq<Link>, e: Emission)
    requires LinksKnown(db, links)
    ensures e in ForwardEmissions(db, i, leaf, t, links) <==>
            exists k :: 0 <= k < |links| && links[k].role == Forward && e == ForwardOne(db, i, leaf, t, links[k].zone)
  {
    if links != [] {
      var n := |links| - 1;
      ForwardMembers(db, i, leaf, t, links[..n], e);
      assert forall k :: 0 <= k < n ==> links[..n][k] == links[k];
    }
  }

  function ForwardOne(db: Db, i: int, leaf: string, t: RecordType, z: int): Emission
    requires z in db.zones
  {
    Emission(Key(leaf + "." + db.zones[z].name, t, ""), db.zones[z].defaultTtl, z, i)
  }

  function ReverseOne(db: Db, i: int, ptr: string, target: string, z: int): Emission
    requires z in db.zones
  {
    Emission(Key(ptr, PTR, target), db.zones[z].defaultTtl, z, i)
  }

  lemma {:induction false} ReverseMembers(db: Db, i: int, ptr: string, target: string, links: seq<Link>, e: Emission)
    requires LinksKnown(db, links)
    ensures e in ReverseEmissions(db, i, ptr, target, links) <==>
            exists k :: 0 <= k < |links| && links[k].role == Reverse && HasSuffix(ptr, db.zones[links[k].zone].name) &&
                        e == ReverseOne(db, i, ptr, target, links[k].zone)
  {
    if links != [] {
      var n := |links| - 1;
      ReverseMembers(db, i, ptr, target, links[..n], e);
      assert forall k :: 0 <= k < n ==> links[..n][k] == links[k];
    }
  }

  lemma {:induction false} LeastForwardIn(db: Db, links: seq<Link>)
    requires LinksKnown(db, links) && UniqueKey(db.zones.Keys, ZoneNames(db))
    ensures LeastForward(db, links).None? <==> forall k :: 0 <= k < |links| ==> links[k].role != Forward
    ensures LeastForward(db, links).Some? ==>
              (exists k :: 0 <= k < |links| && links[k].role == Forward && links[k].zone == LeastForward(db, links).value) &&
              (forall k :: 0 <= k < |links| && links[k].role == Forward && links[k].zone != LeastForward(db, links).value
                 ==> Less(db.zones[LeastForward(db, links).value].name, db.zones[links[k].zone].name))
  {
    if links != [] {
      var n := |links| - 1;
      var front := links[..n];
      LeastForwardIn(db, front);
      assert forall k :: 0 <= k < n ==> front[k] == links[k];
      var least := LeastForward(db, front);
      if links[n].role == Forward && least.Some? {
        var x, y := db.zones[least.value].name, db.zones[links[n].zone].name;
        LessTotal(x, y);
        assert ZoneNames(db)[least.value] == x && ZoneNames(db)[links[n].zone] == y;
        forall k | 0 <= k < n && front[k].role == Forward && Less(y, x)
          ensures Less(y, db.zones[front[k].zone].name)
        {
          if front[k].zone != least.value {
            LessTransitive(y, x, db.zones[front[k].zone].name);
          }
        }
      }
    }
  }

  lemma LeastForwardMeaning(db: Db, s: int)
    requires Valid(db) && LinksKnown(db, ListLinks(db, s))
    ensures forall f :: LeastForward(db, ListLinks(db, s)) == Some(f) <==> LeastForwardOn(db, s, f)
  {
    var links := ListLinks(db, s);
    LeastForwardIn(db, links);
    forall l: Link
      ensures l in links <==> l in db.links && l.subnet == s
    {
      ListLinksMeaning(db, s, l);
    }
    var r := LeastForward(db, links);
    forall f
      ensures r == Some(f) <==> LeastForwardOn(db, s, f)
    {
      if r == Some(f) {
        forall g | Link(s, g, Forward) in db.links && g != f
          ensures Less(db.zones[f].name, db.zones[g].name)
        {
          assert Link(s, g, Forward) in links;
        }
      }
      if LeastForwardOn(db, s, f) {
        assert Link(s, f, Forward) in links;
        var h := r.value;
        if h != f {
          assert Link(s, h, Forward) in links;
          LessTotal(db.zones[h].name, db.zones[f].name);
        }
      }
    }
  }

  lemma ListedAt(db: Db, s: int, l: Link) returns (k: nat)
    requires Valid(db) && l in db.links && l.subnet == s
    ensures k < |ListLinks(db, s)| && ListLinks(db, s)[k] == l
  {
    ListLinksMeaning(db, s, l);
    k :| k < |ListLinks(db, s)| && ListLinks(db, s)[k] == l;
  }

  lemma ForwardOnLinks(db: Db, i: int, leaf: string, t: RecordType, s: int, e: Emission)
    requires Valid(db) && LinksKnown(db, ListLinks(db, s))
    ensures e in ForwardEmissions(db, i, leaf, t, ListLinks(db, s)) <==>
            Link(s, e.zone, Forward) in db.links && e == ForwardOne(db, i, leaf, t, e.zone)
  {
    var links := ListLinks(db, s);
    ForwardMembers(db, i, leaf, t, links, e);
    if e in ForwardEmissions(db, i, leaf, t, links) {
      var k :| 0 <= k < |links| && links[k].role == Forward && e == ForwardOne(db, i, leaf, t, links[k].zone);
      ListLinksMeaning(db, s, links[k]);
    }
    if Link(s, e.zone, Forward) in db.links {
      var k := ListedAt(db, s, Link(s, e.zone, Forward));
    }
  }

  lemma ReverseOnLinks(db: Db, i: int, ptr: string, target: string, s: int, e: Emission)
    requires Valid(db) && LinksKnown(db, ListLinks(db, s))
    ensures e in ReverseEmissions(db, i, ptr, target, ListLinks(db, s)) <==>
            Link(s, e.zone, Reverse) in db.links && HasSuffix(ptr, db.zones[e.zone].name) &&
            e == ReverseOne(db, i, ptr, target, e.zone)
  {
    var links := ListLinks(db, s);
    ReverseMembers(db, i, ptr, target, links, e);
    if e in ReverseEmissions(db, i, ptr, target, links) {
      var k :| 0 <= k < |links| && links[k].role == Reverse && HasSuffix(ptr, db.zones[links[k].zone].name) &&
               e == ReverseOne(db, i, ptr, target, links[k].zone);
      ListLinksMeaning(db, s, links[k]);
    }
    if Link(s, e.zone, Reverse) in db.links {
      var k := ListedAt(db, s, Link(s, e.zone, Reverse));
    }
  }

  lemma LinkMembers(v6: V6Text, db: Db, i: int, s: int, e: Emission)
    requires Valid(db) && OnSubnet(v6, db, i, s) && LinksKnown(db, ListLinks(db, s))
    ensures e in LinkEmissions(db, i, LabelOf(db, i), AddrOf(v6, db, i), ListLinks(db, s)) <==>
            e.ip == i && EmittedOn(v6, db, s, e)
  {
    var leaf, a := LabelOf(db, i), AddrOf(v6, db, i);
    ForwardOnLinks(db, i, leaf, AddrType(a), s, e);
    LeastForwardMeaning(db, s);
    var lf := LeastForward(db, ListLinks(db, s));
    if lf.Some? {
      ReverseOnLinks(db, i, ReverseName(a), leaf + "." + db.zones[lf.value].name, s, e);
    }
  }

  ghost predicate ForwardOn(v6: V6Text, db: Db, s: int, e: Emission)
    requires Valid(db) && OnSubnet(v6, db, e.ip, s)
  {
    Link(s, e.zone, Forward) in db.links &&
    e == ForwardOne(db, e.ip, LabelOf(db, e.ip), AddrType(AddrOf(v6, db, e.ip)), e.zone)
  }

  ghost predicate ReverseOn(v6: V6Text, db: Db, s: int, e: Emission)
    requires Valid(db) && OnSubnet(v6, db, e.ip, s)
  {
    var ptr := ReverseName(AddrOf(v6, db, e.ip));
    Link(s, e.zone, Reverse) in db.links && HasSuffix(ptr, db.zones[e.zone].name) &&
    exists f :: LeastForwardOn(db, s, f) &&
                e == ReverseOne(db, e.ip, ptr, LabelOf(db, e.ip) + "." + db.zones[f].name, e.zone)
  }

  ghost predicate EmittedOn(v6: V6Text, db: Db, s: int, e: Emission)
    requires Valid(db)
  {
    OnSubnet(v6, db, e.ip, s) && (ForwardOn(v6, db, s, e) || ReverseOn(v6, db, s, e))
  }

  lemma FoundIsChosen(v6: V6Text, db: Db, a: Addr)
    requires Valid(db) && SubnetFor(v6, db, a).Some?
    ensures ChosenSubnet(v6, db, a, SubnetFor(v6, db, a).value)
  {
    SubnetForMeaning(v6, db, a);
  }

  lemma ChosenIsFound(v6: V6Text, db: Db, a: Addr, s: int)
    requires Valid(db) && ChosenSubnet(v6, db, a, s)
    ensures SubnetFor(v6, db, a) == Some(s)
  {
    SubnetForMeaning(v6, db, a);
  }

  lemma IpEmissionsOn(v6: V6Text, db: Db, i: int, s: int, e: Emission)
    requires Valid(db) && OnSubnet(v6, db, i, s) && SubnetFor(v6, db, AddrOf(v6, db, i)) == Some(s)
    ensures e in IpEmissions(v6, db, i) <==> e.ip == i && EmittedOn(v6, db, s, e)
  {
    ListedLinksKnown(db, s);
    LinkMembers(v6, db, i, s, e);
  }

  lemma IpMembers(v6: V6Text, db: Db, i: int, e: Emission)
    requires Valid(db) && i in db.ips && db.hosts[db.nics[db.ips[i].nic].host].dnsEnabled
    ensures e in IpEmissions(v6, db, i) <==> e.ip == i && exists s :: EmittedOn(v6, db, s, e)
  {
    if e in IpEmissions(v6, db, i) {
      var a := AddrOf(v6, db, i);
      FoundIsChosen(v6, db, a);
      IpEmissionsOn(v6, db, i, SubnetFor(v6, db, a).value, e);
    }
    if e.ip == i && exists s :: EmittedOn(v6, db, s, e) {
      var s :| EmittedOn(v6, db, s, e);
      ChosenIsFound(v6, db, AddrOf(v6, db, i), s);
      IpEmissionsOn(v6, db, i, s, e);
    }
  }

  // ---------- The traversal reaches every row once ----------

  lemma {:induction false} FlatMapMembers<T>(f: int --> seq<T>, xs: seq<int>, e: T)
    requires forall k :: 0 <= k < |xs| ==> f.requires(xs[k])
    ensures e in FlatMap(f, xs) <==> exists k :: 0 <= k < |xs| && e in f(xs[k])
  {
    if xs != [] {
      var n := |xs| - 1;
      FlatMapMembers(f, xs[..n], e);
      assert forall k :: 0 <= k < n ==> xs[..n][k] == xs[k];
    }
  }

  /** An emission of a NIC, of an enabled host, comes from one of its rows. */
  lemma NicMembers(v6: V6Text, db: Db, n: int, e: Emission)
    requires Valid(db) && n in db.nics && db.hosts[db.nics[n].host].dnsEnabled
    ensures e in NicEmissions(v6, db, n) <==>
            e.ip in db.ips && db.ips[e.ip].nic == n && e in IpEmissions(v6, db, e.ip)
  {
    ListedIpsKnown(db, n);
    var ips := ListIps(db, n);
    var f := OfIp(v6, db);
    FlatMapMembers(f, ips, e);
    if e in NicEmissions(v6, db, n) {
      var k :| 0 <= k < |ips| && e in f(ips[k]);
      IpMembers(v6, db, ips[k], e);
    }
    if e.ip in db.ips && db.ips[e.ip].nic == n && e in IpEmissions(v6, db, e.ip) {
      assert e.ip in IpsOf(db, n);
      var k := IndexOf(ips, e.ip);
      assert e in f(ips[k]);
    }
  }

  lemma IndexOf(xs: seq<int>, x: int) returns (k: nat)
    requires x in xs
    ensures k < |xs| && xs[k] == x
  {
    k :| k < |xs| && xs[k] == x;
  }

  lemma HostMembers(v6: V6Text, db: Db, h: int, e: Emission)
    requires Valid(db) && h in db.hosts
    ensures e in HostEmissions(v6, db, h) <==>
            db.hosts[h].dnsEnabled && e.ip in db.ips && db.nics[db.ips[e.ip].nic].host == h && e in IpEmissions(v6, db, e.ip)
  {
    if db.hosts[h].dnsEnabled {
      ListedNicsKnown(db, h);
      var nics := ListNics(db, h);
      var f := OfNic(v6, db);
      FlatMapMembers(f, nics, e);
      if e in HostEmissions(v6, db, h) {
        var k :| 0 <= k < |nics| && e in f(nics[k]);
        NicMembers(v6, db, nics[k], e);
      }
      if e.ip in db.ips && db.nics[db.ips[e.ip].nic].host == h && e in IpEmissions(v6, db, e.ip) {
        var n := db.ips[e.ip].nic;
        assert n in NicsOf(db, h);
        var k := IndexOf(nics, n);
        NicMembers(v6, db, n, e);
        assert e in f(nics[k]);
      }
    }
  }

  lemma AllMembers(v6: V6Text, db: Db, e: Emission)
    requires Valid(db)
    ensures e in AllEmissions(v6, db) <==> exists s :: EmittedOn(v6, db, s, e)
  {
    ListedHostsKnown(db);
    var hosts := ListHosts(db);
    var f := OfHost(v6, db);
    FlatMapMembers(f, hosts, e);
    if e in AllEmissions(v6, db) {
      var k :| 0 <= k < |hosts| && e in f(hosts[k]);
      HostMembers(v6, db, hosts[k], e);
      IpMembers(v6, db, e.ip, e);
    }
    if exists s :: EmittedOn(v6, db, s, e) {
      var h := db.nics[db.ips[e.ip].nic].host;
      IpMembers(v6, db, e.ip, e);
      HostMembers(v6, db, h, e);
      var k := IndexOf(hosts, h);
      assert e in f(hosts[k]);
    }
  }

  // ---------- What folding keeps ----------

  /** Rows that emitted `k`, in order of emission. */
  function Emitters(es: seq<Emission>, k: Key): seq<int> {
    if es == [] then []
    else
      var n := |es| - 1;
      Emitters(es[..n], k) + if es[n].key == k then [es[n].ip] else []
  }

  ghost predicate FirstFor(es: seq<Emission>, k: Key, e: Emission) {
    exists p :: 0 <= p < |es| && es[p] == e && e.key == k && forall q :: 0 <= q < p ==> es[q].key != k
  }

  /** What folding leaves for a key: TTL and zone of the first emission, bindings of all (or, for a PTR, of the first). */
  ghost predicate FoldedTo(es: seq<Emission>, k: Key, w: Wanted, e: Emission) {
    FirstFor(es, k, e) && w == Wanted(e.ttl, e.zone, if k.rtype == PTR then [e.ip] else Emitters(es, k))
  }

  lemma FirstForExtends(es: seq<Emission>, n: nat, k: Key, e: Emission)
    requires n <= |es| && FirstFor(es[..n], k, e)
    ensures FirstFor(es, k, e)
  {
    var front := es[..n];
    var p :| 0 <= p < |front| && front[p] == e && e.key == k && forall q :: 0 <= q < p ==> front[q].key != k;
    assert es[p] == e && forall q :: 0 <= q < p ==> es[q] == front[q];
  }

  lemma {:induction false} FoldDomain(es: seq<Emission>, k: Key)
    ensures k in Fold(map[], es) <==> exists p :: 0 <= p < |es| && es[p].key == k
    ensures k !in Fold(map[], es) ==> Emitters(es, k) == []
  {
    if es != [] {
      var n := |es| - 1;
      FoldDomain(es[..n], k);
      assert forall p :: 0 <= p < n ==> es[..n][p] == es[p];
    }
  }

  /** One more emission leaves a key that is there as `Accrete` does. */
  lemma FoldedExtends(es: seq<Emission>, d: map<Key, Wanted>, k: Key, e: Emission)
    requires es != [] && k in d && FoldedTo(es[..|es| - 1], k, d[k], e)
    ensures FoldedTo(es, k, Accrete(d, es[|es| - 1])[k], e)
  {
    FirstForExtends(es, |es| - 1, k, e);
    assert Emitters(es[..|es| - 1], k) + [] == Emitters(es[..|es| - 1], k);
  }

  lemma FoldedFirst(es: seq<Emission>, k: Key)
    requires es != [] && es[|es| - 1].key == k
    requires forall p :: 0 <= p < |es| - 1 ==> es[p].key != k
    requires Emitters(es[..|es| - 1], k) == []
    ensures var e := es[|es| - 1]; FoldedTo(es, k, Wanted(e.ttl, e.zone, [e.ip]), e)
  {
    assert FirstFor(es, k, es[|es| - 1]);
  }

  lemma {:induction false} FoldMeaning(es: seq<Emission>, k: Key)
    ensures k in Fold(map[], es) ==> exists e :: FoldedTo(es, k, Fold(map[], es)[k], e)
  {
    if es != [] {
      var front, last := es[..|es| - 1], es[|es| - 1];
      var d := Fold(map[], front);
      FoldMeaning(front, k);
      FoldDomain(front, k);
      if k in d {
        var e :| FoldedTo(front, k, d[k], e);
        FoldedExtends(es, d, k, e);
      } else if last.key == k {
        assert forall p :: 0 <= p < |front| ==> front[p] == es[p];
        FoldedFirst(es, k);
      }
    }
  }

  lemma {:induction false} EmittersMeaning(es: seq<Emission>, k: Key, i: int)
    ensures i in Emitters(es, k) <==> exists p :: 0 <= p < |es| && es[p].key == k && es[p].ip == i
  {
    if es != [] {
      var n := |es| - 1;
      EmittersMeaning(es[..n], k, i);
      assert forall p :: 0 <= p < n ==> es[..n][p] == es[p];
    }
  }

  // ---------- No row is bound twice ----------

  ghost predicate Distinct(xs: seq<int>) {
    forall p, q :: 0 <= p < q < |xs| ==> xs[p] != xs[q]
  }

  /** No row emits the same address key twice. (Pointer keys it may: they do not accrete.) */
  ghost predicate OncePerKey(es: seq<Emission>) {
    forall p, q :: 0 <= p < q < |es| && es[p].key == es[q].key && es[p].key.rtype != PTR ==> es[p].ip != es[q].ip
  }

  lemma OnceConcat(xs: seq<Emission>, ys: seq<Emission>)
    requires OncePerKey(xs) && OncePerKey(ys)
    requires forall p, q :: 0 <= p < |xs| && 0 <= q < |ys| && xs[p].key == ys[q].key && xs[p].key.rtype != PTR
               ==> xs[p].ip != ys[q].ip
    ensures OncePerKey(xs + ys)
  {
  }

  /** Every emission of `es` is of a row that belongs to `x`. */
  ghost predicate OwnedBy(es: seq<Emission>, owner: map<int, int>, x: int) {
    forall e :: e in es ==> e.ip in owner && owner[e.ip] == x
  }

  lemma OwnedByParent(es: seq<Emission>, owner: map<int, int>, x: int, above: map<int, int>, y: int)
    requires OwnedBy(es, owner, x) && forall i :: i in owner && owner[i] == x ==> i in above && above[i] == y
    ensures OwnedBy(es, above, y)
  {
  }

  lemma {:induction false} FlatMapOwned(f: int --> seq<Emission>, xs: seq<int>, owner: map<int, int>, x: int)
    requires forall k :: 0 <= k < |xs| ==> f.requires(xs[k]) && OwnedBy(f(xs[k]), owner, x)
    ensures OwnedBy(FlatMap(f, xs), owner, x)
  {
    if xs != [] {
      var n := |xs| - 1;
      assert forall k :: 0 <= k < n ==> xs[..n][k] == xs[k];
      FlatMapOwned(f, xs[..n], owner, x);
    }
  }

  /** What different rows' children emit never clashes. */
  lemma {:induction false} FlatMapOnce(f: int --> seq<Emission>, xs: seq<int>, owner: map<int, int>)
    requires forall k :: 0 <= k < |xs| ==> f.requires(xs[k]) && OncePerKey(f(xs[k])) && OwnedBy(f(xs[k]), owner, xs[k])
    requires Distinct(xs)
    ensures OncePerKey(FlatMap(f, xs))
  {
    if xs != [] {
      var n := |xs| - 1;
      var front := xs[..n];
      assert forall k :: 0 <= k < n ==> front[k] == xs[k];
      FlatMapOnce(f, front, owner);
      var es, last := FlatMap(f, front), f(xs[n]);
      forall p, q | 0 <= p < |es| && 0 <= q < |last|
        ensures es[p].ip != last[q].ip
      {
        FlatMapMembers(f, front, es[p]);
        var k :| 0 <= k < |front| && es[p] in f(front[k]);
        assert owner[es[p].ip] == xs[k] && last[q] in last;
      }
      OnceConcat(es, last);
    }
  }

  /** Zone names are unique, so one row's forward keys differ from link to link. */
  lemma {:induction false} ForwardOnce(db: Db, i: int, leaf: string, t: RecordType, links: seq<Link>)
    requires LinksKnown(db, links) && UniqueKey(db.zones.Keys, ZoneNames(db))
    requires forall a, b :: 0 <= a < b < |links| ==> links[a] != links[b]
    requires forall a, b :: 0 <= a < |links| && 0 <= b < |links| ==> links[a].subnet == links[b].subnet
    ensures OncePerKey(ForwardEmissions(db, i, leaf, t, links))
  {
    if links != [] {
      var n := |links| - 1;
      var front := links[..n];
      assert forall k :: 0 <= k < n ==> front[k] == links[k];
      ForwardOnce(db, i, leaf, t, front);
      var es := ForwardEmissions(db, i, leaf, t, front);
      if links[n].role == Forward {
        var e := ForwardOne(db, i, leaf, t, links[n].zone);
        forall p | 0 <= p < |es|
          ensures es[p].key != e.key
        {
          ForwardMembers(db, i, leaf, t, front, es[p]);
          var k :| 0 <= k < n && front[k].role == Forward && es[p] == ForwardOne(db, i, leaf, t, front[k].zone);
          assert front[k] == links[k] != links[n];
          SameTail(leaf, db.zones[links[k].zone].name, db.zones[links[n].zone].name);
          assert ZoneNames(db)[links[k].zone] != ZoneNames(db)[links[n].zone];
        }
        OnceConcat(es, [e]);
      }
    }
  }

  lemma SameTail(a: string, x: string, y: string)
    ensures a + "." + x == a + "." + y <==> x == y
  {
    if a + "." + x == a + "." + y {
      assert (a + "." + x)[|a| + 1..] == x;
      assert (a + "." + y)[|a| + 1..] == y;
    }
  }

  lemma ListedLinksDistinct(db: Db, s: int)
    requires Valid(db)
    ensures forall a, b :: 0 <= a < b < |ListLinks(db, s)| ==> ListLinks(db, s)[a] != ListLinks(db, s)[b]
    ensures forall a :: 0 <= a < |ListLinks(db, s)| ==> ListLinks(db, s)[a].subnet == s
  {
    var f, r := ListZones(db, s, Forward), ListZones(db, s, Reverse);
    var links := ListLinks(db, s);
    assert forall a :: 0 <= a < |f| ==> links[a] == Link(s, f[a], Forward);
    assert forall a :: |f| <= a < |links| ==> links[a] == Link(s, r[a - |f|], Reverse);
  }

  function IpOwner(db: Db): map<int, int> {
    map i | i in db.ips :: i
  }

  function NicOwner(db: Db): map<int, int> {
    map i | i in db.ips :: db.ips[i].nic
  }

  function HostOwner(db: Db): map<int, int>
    requires Valid(db)
  {
    map i | i in db.ips :: db.nics[db.ips[i].nic].host
  }

  lemma EmitsOnOneSubnet(v6: V6Text, db: Db, i: int) returns (a: Addr, s: int)
    requires Valid(db) && i in db.ips && IpEmissions(v6, db, i) != []
    ensures LinksKnown(db, ListLinks(db, s)) && IpEmissions(v6, db, i) == LinkEmissions(db, i, LabelOf(db, i), a, ListLinks(db, s))
  {
    a := ParseAddr(v6, db.ips[i].ip).value;
    s := SubnetFor(v6, db, a).value;
    ListedLinksKnown(db, s);
  }

  lemma IpOnce(v6: V6Text, db: Db, i: int)
    requires Valid(db) && i in db.ips
    ensures OncePerKey(IpEmissions(v6, db, i)) && OwnedBy(IpEmissions(v6, db, i), IpOwner(db), i)
  {
    if IpEmissions(v6, db, i) != [] {
      var a, s := EmitsOnOneSubnet(v6, db, i);
      LinksOnce(db, i, LabelOf(db, i), a, s);
    }
  }

  lemma LinksOnce(db: Db, i: int, leaf: string, a: Addr, s: int)
    requires Valid(db) && LinksKnown(db, ListLinks(db, s))
    ensures var es := LinkEmissions(db, i, leaf, a, ListLinks(db, s));
            OncePerKey(es) && forall p :: 0 <= p < |es| ==> es[p].ip == i
  {
    var links := ListLinks(db, s);
    ListedLinksDistinct(db, s);
    ForwardOnce(db, i, leaf, AddrType(a), links);
    var f := ForwardEmissions(db, i, leaf, AddrType(a), links);
    forall p | 0 <= p < |f|
      ensures f[p].ip == i && f[p].key.rtype != PTR
    {
      ForwardMembers(db, i, leaf, AddrType(a), links, f[p]);
    }
    var lf := LeastForward(db, links);
    if lf.Some? {
      var target := leaf + "." + db.zones[lf.value].name;
      var r := ReverseEmissions(db, i, ReverseName(a), target, links);
      forall p | 0 <= p < |r|
        ensures r[p].ip == i && r[p].key.rtype == PTR
      {
        ReverseMembers(db, i, ReverseName(a), target, links, r[p]);
      }
      OnceConcat(f, r);
    }
  }

  lemma NicOnce(v6: V6Text, db: Db, n: int)
    requires Valid(db)
    ensures OncePerKey(NicEmissions(v6, db, n)) && OwnedBy(NicEmissions(v6, db, n), NicOwner(db), n)
  {
    ListedIpsKnown(db, n);
    var f, ips := OfIp(v6, db), ListIps(db, n);
    forall k | 0 <= k < |ips|
      ensures OncePerKey(f(ips[k])) && OwnedBy(f(ips[k]), IpOwner(db), ips[k]) && OwnedBy(f(ips[k]), NicOwner(db), n)
    {
      IpOnce(v6, db, ips[k]);
      OwnedByParent(f(ips[k]), IpOwner(db), ips[k], NicOwner(db), n);
    }
    FlatMapOnce(f, ips, IpOwner(db));
    FlatMapOwned(f, ips, NicOwner(db), n);
  }

  lemma HostOnce(v6: V6Text, db: Db, h: int)
    requires Valid(db) && h in db.hosts
    ensures OncePerKey(HostEmissions(v6, db, h)) && OwnedBy(HostEmissions(v6, db, h), HostOwner(db), h)
  {
    if db.hosts[h].dnsEnabled {
      ListedNicsKnown(db, h);
      var f, nics := OfNic(v6, db), ListNics(db, h);
      forall k | 0 <= k < |nics|
        ensures OncePerKey(f(nics[k])) && OwnedBy(f(nics[k]), NicOwner(db), nics[k]) && OwnedBy(f(nics[k]), HostOwner(db), h)
      {
        NicOnce(v6, db, nics[k]);
        OwnedByParent(f(nics[k]), NicOwner(db), nics[k], HostOwner(db), h);
      }
      FlatMapOnce(f, nics, NicOwner(db));
      FlatMapOwned(f, nics, HostOwner(db), h);
    }
  }

  lemma ListedHostsDistinct(db: Db)
    requires Valid(db)
    ensures Distinct(ListHosts(db)) && forall k :: 0 <= k < |ListHosts(db)| ==> ListHosts(db)[k] in db.hosts
  {
    ListedHostsKnown(db);
  }

  lemma HostsOnce(v6: V6Text, db: Db, hosts: seq<int>)
    requires Valid(db) && Distinct(hosts) && forall k :: 0 <= k < |hosts| ==> hosts[k] in db.hosts
    ensures OncePerKey(HostsEmissions(v6, db, hosts))
  {
    var f, owner := OfHost(v6, db), HostOwner(db);
    forall k | 0 <= k < |hosts|
      ensures OncePerKey(f(hosts[k])) && OwnedBy(f(hosts[k]), owner, hosts[k])
    {
      HostOnce(v6, db, hosts[k]);
    }
    FlatMapOnce(f, hosts, owner);
  }

  lemma AllOnce(v6: V6Text, db: Db)
    requires Valid(db)
    ensures OncePerKey(AllEmissions(v6, db))
  {
    ListedHostsDistinct(db);
    HostsOnce(v6, db, ListHosts(db));
  }

  lemma {:induction false} EmittersDistinct(es: seq<Emission>, k: Key)
    requires OncePerKey(es) && k.rtype != PTR
    ensures Distinct(Emitters(es, k))
  {
    if es != [] {
      var n := |es| - 1;
      var front := es[..n];
      assert forall p :: 0 <= p < n ==> front[p] == es[p];
      EmittersDistinct(front, k);
      if es[n].key == k {
        forall p | 0 <= p < |Emitters(front, k)|
          ensures Emitters(front, k)[p] != es[n].ip
        {
          EmittersMeaning(front, k, Emitters(front, k)[p]);
        }
      }
    }
  }

  // ---------- Emissions are namings and pointings ----------

  ghost predicate Emits(v6: V6Text, db: Db, e: Emission)
    requires Valid(db)
  {
    exists s :: EmittedOn(v6, db, s, e)
  }

  lemma ForwardIsNaming(v6: V6Text, db: Db, e: Emission)
    requires Valid(db) && Emits(v6, db, e) && e.key.rtype != PTR
    ensures Names(v6, db, e.ip, e.zone, e.key)
    ensures e.zone in db.zones && e.ttl == db.zones[e.zone].defaultTtl
  {
    var s :| EmittedOn(v6, db, s, e);
    assert ForwardOn(v6, db, s, e);
  }

  lemma NamingEmits(v6: V6Text, db: Db, i: int, z: int, k: Key) returns (e: Emission)
    requires Valid(db) && Names(v6, db, i, z, k)
    ensures Emits(v6, db, e) && e.key == k && e.ip == i && e.zone == z
  {
    var s :| OnSubnet(v6, db, i, s) && Link(s, z, Forward) in db.links;
    e := ForwardOne(db, i, LabelOf(db, i), AddrType(AddrOf(v6, db, i)), z);
    assert ForwardOn(v6, db, s, e);
    assert EmittedOn(v6, db, s, e);
  }

  lemma ReverseIsPointing(v6: V6Text, db: Db, e: Emission)
    requires Valid(db) && Emits(v6, db, e) && e.key.rtype == PTR
    ensures Points(v6, db, e.ip, e.zone, e.key)
    ensures e.zone in db.zones && e.ttl == db.zones[e.zone].defaultTtl
  {
    var s :| EmittedOn(v6, db, s, e);
    assert ReverseOn(v6, db, s, e);
    var ptr := ReverseName(AddrOf(v6, db, e.ip));
    var f :| LeastForwardOn(db, s, f) &&
             e == ReverseOne(db, e.ip, ptr, LabelOf(db, e.ip) + "." + db.zones[f].name, e.zone);
    assert PointsTo(v6, db, e.ip, e.zone, f);
  }

  lemma PointingEmits(v6: V6Text, db: Db, i: int, z: int, k: Key) returns (e: Emission)
    requires Valid(db) && Points(v6, db, i, z, k)
    ensures Emits(v6, db, e) && e.key == k && e.ip == i && e.zone == z
  {
    var f :| PointsTo(v6, db, i, z, f) && k == PtrKey(v6, db, i, f);
    var ptr := ReverseName(AddrOf(v6, db, i));
    var s :| OnSubnet(v6, db, i, s) && LeastForwardOn(db, s, f) && Link(s, z, Reverse) in db.links &&
             HasSuffix(ptr, db.zones[z].name);
    e := ReverseOne(db, i, ptr, LabelOf(db, i) + "." + db.zones[f].name, z);
    assert ReverseOn(v6, db, s, e);
    assert EmittedOn(v6, db, s, e);
  }

  lemma EmissionsAreEmits(v6: V6Text, db: Db)
    requires Valid(db)
    ensures forall e :: e in AllEmissions(v6, db) <==> Emits(v6, db, e)
  {
    forall e: Emission
      ensures e in AllEmissions(v6, db) <==> Emits(v6, db, e)
    {
      AllMembers(v6, db, e);
    }
  }
}
