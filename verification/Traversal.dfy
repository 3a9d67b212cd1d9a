/**
 The order in which `buildDesired` meets its emissions. Every listing it walks is ordered by a unique column, so
 the first emission of a key, whose zone and TTL the record keeps, can be named without the traversal: it is the
 one whose host name, MAC, address text and zone name come first, in this order of precedence.
 */
module Traversal {
  import opened Text
  import opened Ordering
  import opened Net
  import opened Database
  import opened Synth
  import opened SynthMeaning

  function NicOf(db: Db, i: int): int
    requires i in db.ips
  {
    db.ips[i].nic
  }

  function HostOf(db: Db, i: int): int
    requires Valid(db) && i in db.ips
  {
    db.nics[db.ips[i].nic].host
  }

  /** Row `i` on behalf of zone `z` comes before row `j` on behalf of zone `y`. */
  ghost predicate SiteBefore(db: Db, i: int, z: int, j: int, y: int)
    requires Valid(db)
  {
    i in db.ips && j in db.ips &&
    if HostOf(db, i) != HostOf(db, j) then Less(db.hosts[HostOf(db, i)].name, db.hosts[HostOf(db, j)].name)
    else if NicOf(db, i) != NicOf(db, j) then Less(db.nics[NicOf(db, i)].mac, db.nics[NicOf(db, j)].mac)
    else if i != j then Less(db.ips[i].ip, db.ips[j].ip)
    else z in db.zones && y in db.zones && Less(db.zones[z].name, db.zones[y].name)
  }

  ghost function EmittedBefore(db: Db): (before: (Emission, Emission) -> bool)
    requires Valid(db)
    ensures forall e, f :: before(e, f) <==> SiteBefore(db, e.ip, e.zone, f.ip, f.zone)
  {
    (e: Emission, f: Emission) => SiteBefore(db, e.ip, e.zone, f.ip, f.zone)
  }

  /** Emissions of one key come in the given order. */
  ghost predicate Ordered(es: seq<Emission>, before: (Emission, Emission) -> bool) {
    forall p, q :: 0 <= p < q < |es| && es[p].key == es[q].key ==> before(es[p], es[q])
  }

  lemma OrderedConcat(xs: seq<Emission>, ys: seq<Emission>, before: (Emission, Emission) -> bool)
    requires Ordered(xs, before) && Ordered(ys, before)
    requires forall e, f :: e in xs && f in ys && e.key == f.key ==> before(e, f)
    ensures Ordered(xs + ys, before)
  {
    var es := xs + ys;
    forall p, q | 0 <= p < q < |es| && es[p].key == es[q].key
      ensures before(es[p], es[q])
    {
      if p < |xs| <= q {
        assert es[p] in xs && es[q] in ys;
      }
    }
  }

  lemma {:induction false} FlatMapOrdered(f: int --> seq<Emission>, xs: seq<int>, before: (Emission, Emission) -> bool)
    requires forall k :: 0 <= k < |xs| ==> f.requires(xs[k]) && Ordered(f(xs[k]), before)
    requires forall a, b, d, e :: 0 <= a < b < |xs| && d in f(xs[a]) && e in f(xs[b]) ==> before(d, e)
    ensures Ordered(FlatMap(f, xs), before)
  {
    if xs != [] {
      var n := |xs| - 1;
      var front := xs[..n];
      assert forall k :: 0 <= k < n ==> front[k] == xs[k];
      FlatMapOrdered(f, front, before);
      forall d, e | d in FlatMap(f, front) && e in f(xs[n])
        ensures before(d, e)
      {
        FlatMapMembers(f, front, d);
        var k :| 0 <= k < |front| && d in f(front[k]);
        assert d in f(xs[k]);
      }
      OrderedConcat(FlatMap(f, front), f(xs[n]), before);
    }
  }

  // ---------- One address ----------

  /** Links of one role come in the order of their zone names. */
  ghost predicate LinksOrdered(db: Db, links: seq<Link>)
    requires LinksKnown(db, links)
  {
    forall a, b :: 0 <= a < b < |links| && links[a].role == links[b].role ==>
      Less(db.zones[links[a].zone].name, db.zones[links[b].zone].name)
  }

  lemma ListedLinksOrdered(db: Db, s: int)
    requires Valid(db) && LinksKnown(db, ListLinks(db, s))
    ensures LinksOrdered(db, ListLinks(db, s))
  {
    var f, r := ListZones(db, s, Forward), ListZones(db, s, Reverse);
    var links := ListLinks(db, s);
    assert forall a :: 0 <= a < |f| ==> links[a] == Link(s, f[a], Forward);
    assert forall a :: |f| <= a < |links| ==> links[a] == Link(s, r[a - |f|], Reverse);
    forall a, b | 0 <= a < b < |links| && links[a].role == links[b].role
      ensures Less(db.zones[links[a].zone].name, db.zones[links[b].zone].name)
    {
      if b < |f| {
        assert Less(ZoneNames(db)[f[a]], ZoneNames(db)[f[b]]);
      } else {
        assert Less(ZoneNames(db)[r[a - |f|]], ZoneNames(db)[r[b - |f|]]);
      }
    }
  }

  lemma {:induction false} ForwardOrdered(db: Db, i: int, leaf: string, t: RecordType, links: seq<Link>)
    requires Valid(db) && i in db.ips && LinksKnown(db, links) && LinksOrdered(db, links)
    ensures Ordered(ForwardEmissions(db, i, leaf, t, links), EmittedBefore(db))
  {
    if links != [] {
      var n := |links| - 1;
      var front := links[..n];
      assert forall k :: 0 <= k < n ==> front[k] == links[k];
      ForwardOrdered(db, i, leaf, t, front);
      if links[n].role == Forward {
        var es, last := ForwardEmissions(db, i, leaf, t, front), ForwardOne(db, i, leaf, t, links[n].zone);
        forall e | e in es
          ensures SiteBefore(db, e.ip, e.zone, last.ip, last.zone)
        {
          ForwardMembers(db, i, leaf, t, front, e);
          var k :| 0 <= k < |front| && front[k].role == Forward && e == ForwardOne(db, i, leaf, t, front[k].zone);
          assert Less(db.zones[links[k].zone].name, db.zones[links[n].zone].name);
        }
        OrderedConcat(es, [last], EmittedBefore(db));
      }
    }
  }

  lemma {:induction false} ReverseOrdered(db: Db, i: int, ptr: string, target: string, links: seq<Link>)
    requires Valid(db) && i in db.ips && LinksKnown(db, links) && LinksOrdered(db, links)
    ensures Ordered(ReverseEmissions(db, i, ptr, target, links), EmittedBefore(db))
  {
    if links != [] {
      var n := |links| - 1;
      var front := links[..n];
      assert forall k :: 0 <= k < n ==> front[k] == links[k];
      ReverseOrdered(db, i, ptr, target, front);
      if links[n].role == Reverse && HasSuffix(ptr, db.zones[links[n].zone].name) {
        var es, last := ReverseEmissions(db, i, ptr, target, front), ReverseOne(db, i, ptr, target, links[n].zone);
        forall e | e in es
          ensures SiteBefore(db, e.ip, e.zone, last.ip, last.zone)
        {
          ReverseMembers(db, i, ptr, target, front, e);
          var k :| 0 <= k < |front| && front[k].role == Reverse && HasSuffix(ptr, db.zones[front[k].zone].name) &&
                   e == ReverseOne(db, i, ptr, target, front[k].zone);
          assert Less(db.zones[links[k].zone].name, db.zones[links[n].zone].name);
        }
        OrderedConcat(es, [last], EmittedBefore(db));
      }
    }
  }

  lemma LinkEmissionsOrdered(db: Db, i: int, leaf: string, a: Addr, links: seq<Link>)
    requires Valid(db) && i in db.ips && LinksKnown(db, links) && LinksOrdered(db, links)
    ensures Ordered(LinkEmissions(db, i, leaf, a, links), EmittedBefore(db))
  {
    var f := ForwardEmissions(db, i, leaf, AddrType(a), links);
    ForwardOrdered(db, i, leaf, AddrType(a), links);
    var lf := LeastForward(db, links);
    if lf.Some? {
      var target := leaf + "." + db.zones[lf.value].name;
      var r := ReverseEmissions(db, i, ReverseName(a), target, links);
      ReverseOrdered(db, i, ReverseName(a), target, links);
      forall d, e | d in f && e in r
        ensures d.key != e.key
      {
        ForwardMembers(db, i, leaf, AddrType(a), links, d);
        ReverseMembers(db, i, ReverseName(a), target, links, e);
      }
      OrderedConcat(f, r, EmittedBefore(db));
    } else {
      assert LinkEmissions(db, i, leaf, a, links) == f;
    }
  }

  lemma IpOrdered(v6: V6Text, db: Db, i: int)
    requires Valid(db) && i in db.ips
    ensures Ordered(IpEmissions(v6, db, i), EmittedBefore(db))
  {
    if IpEmissions(v6, db, i) != [] {
      var a, s := EmitsOnOneSubnet(v6, db, i);
      ListedLinksOrdered(db, s);
      LinkEmissionsOrdered(db, i, LabelOf(db, i), a, ListLinks(db, s));
    }
  }

  // ---------- NICs and hosts ----------

  lemma NicOrdered(v6: V6Text, db: Db, n: int)
    requires Valid(db)
    ensures Ordered(NicEmissions(v6, db, n), EmittedBefore(db))
  {
    ListedIpsKnown(db, n);
    var f, ips, before := OfIp(v6, db), ListIps(db, n), EmittedBefore(db);
    forall k | 0 <= k < |ips|
      ensures Ordered(f(ips[k]), before) && OwnedBy(f(ips[k]), IpOwner(db), ips[k])
    {
      IpOrdered(v6, db, ips[k]);
      IpOnce(v6, db, ips[k]);
    }
    forall a, b, d, e | 0 <= a < b < |ips| && d in f(ips[a]) && e in f(ips[b])
      ensures before(d, e)
    {
      assert d.ip == ips[a] && e.ip == ips[b];
      assert Less(IpTexts(db)[ips[a]], IpTexts(db)[ips[b]]);
    }
    FlatMapOrdered(f, ips, before);
  }

  lemma HostOrdered(v6: V6Text, db: Db, h: int)
    requires Valid(db) && h in db.hosts
    ensures Ordered(HostEmissions(v6, db, h), EmittedBefore(db))
  {
    if db.hosts[h].dnsEnabled {
      ListedNicsKnown(db, h);
      var f, nics, before := OfNic(v6, db), ListNics(db, h), EmittedBefore(db);
      forall k | 0 <= k < |nics|
        ensures Ordered(f(nics[k]), before) && OwnedBy(f(nics[k]), NicOwner(db), nics[k])
      {
        NicOrdered(v6, db, nics[k]);
        NicOnce(v6, db, nics[k]);
      }
      forall a, b, d, e | 0 <= a < b < |nics| && d in f(nics[a]) && e in f(nics[b])
        ensures before(d, e)
      {
        assert NicOf(db, d.ip) == nics[a] && NicOf(db, e.ip) == nics[b];
        assert Less(Macs(db)[nics[a]], Macs(db)[nics[b]]);
      }
      FlatMapOrdered(f, nics, before);
    }
  }

  lemma AllOrdered(v6: V6Text, db: Db)
    requires Valid(db)
    ensures Ordered(AllEmissions(v6, db), EmittedBefore(db))
  {
    ListedHostsKnown(db);
    var f, hosts, before := OfHost(v6, db), ListHosts(db), EmittedBefore(db);
    forall k | 0 <= k < |hosts|
      ensures Ordered(f(hosts[k]), before) && OwnedBy(f(hosts[k]), HostOwner(db), hosts[k])
    {
      HostOrdered(v6, db, hosts[k]);
      HostOnce(v6, db, hosts[k]);
    }
    forall a, b, d, e | 0 <= a < b < |hosts| && d in f(hosts[a]) && e in f(hosts[b])
      ensures before(d, e)
    {
      assert HostOf(db, d.ip) == hosts[a] && HostOf(db, e.ip) == hosts[b];
      assert Less(HostNames(db)[hosts[a]], HostNames(db)[hosts[b]]);
    }
    FlatMapOrdered(f, hosts, before);
  }

  // ---------- The first emission of a key ----------

  /** Of all rows and zones that name `k`, the first. */
  ghost predicate FirstNaming(v6: V6Text, db: Db, i: int, z: int, k: Key)
    requires Valid(db)
  {
    Names(v6, db, i, z, k) &&
    forall j, y :: Names(v6, db, j, y, k) && (j != i || y != z) ==> SiteBefore(db, i, z, j, y)
  }

  /** Of all rows and zones that point with `k`, the first. */
  ghost predicate FirstPointing(v6: V6Text, db: Db, i: int, z: int, k: Key)
    requires Valid(db)
  {
    Points(v6, db, i, z, k) &&
    forall j, y :: Points(v6, db, j, y, k) && (j != i || y != z) ==> SiteBefore(db, i, z, j, y)
  }

  lemma FirstComesBefore(db: Db, es: seq<Emission>, k: Key, e: Emission, f: Emission)
    requires Valid(db) && Ordered(es, EmittedBefore(db)) && FirstFor(es, k, e) && f in es && f.key == k && f != e
    ensures SiteBefore(db, e.ip, e.zone, f.ip, f.zone)
  {
    var p :| 0 <= p < |es| && es[p] == e && e.key == k && forall q :: 0 <= q < p ==> es[q].key != k;
    var q :| 0 <= q < |es| && es[q] == f;
    assert EmittedBefore(db)(es[p], es[q]);
  }

  lemma FirstIsFirstNaming(v6: V6Text, db: Db, es: seq<Emission>, k: Key, e: Emission)
    requires Valid(db) && k.rtype != PTR && Ordered(es, EmittedBefore(db)) && FirstFor(es, k, e)
    requires forall e :: e in es <==> Emits(v6, db, e)
    ensures FirstNaming(v6, db, e.ip, e.zone, k)
  {
    assert e in es;
    ForwardIsNaming(v6, db, e);
    forall j, y | Names(v6, db, j, y, k) && (j != e.ip || y != e.zone)
      ensures SiteBefore(db, e.ip, e.zone, j, y)
    {
      var f := NamingEmits(v6, db, j, y, k);
      FirstComesBefore(db, es, k, e, f);
    }
  }

  lemma FirstIsFirstPointing(v6: V6Text, db: Db, es: seq<Emission>, k: Key, e: Emission)
    requires Valid(db) && k.rtype == PTR && Ordered(es, EmittedBefore(db)) && FirstFor(es, k, e)
    requires forall e :: e in es <==> Emits(v6, db, e)
    ensures FirstPointing(v6, db, e.ip, e.zone, k)
  {
    assert e in es;
    ReverseIsPointing(v6, db, e);
    forall j, y | Points(v6, db, j, y, k) && (j != e.ip || y != e.zone)
      ensures SiteBefore(db, e.ip, e.zone, j, y)
    {
      var f := PointingEmits(v6, db, j, y, k);
      FirstComesBefore(db, es, k, e, f);
    }
  }
}
