/**
 `buildDesired`: the records netdb derives from hosts, NICs, addresses, subnets and zone links.
 The nested loops are proved to fold one flat sequence of emissions, in traversal order, into the map of
 wanted records; SynthMeaning says which emissions there are in terms of the tables alone.
 */
module Synth {
  import opened Basics
  import opened Text
  import opened Ordering
  import opened Net
  import opened Database
  import opened Placement

  datatype Wanted = Wanted(ttl: int, zone: int, bindings: seq<int>)

  /** One attempt of the synthesizer to contribute address row `ip` to the record `key`. */
  datatype Emission = Emission(key: Key, ttl: int, zone: int, ip: int)

  function Label(h: Host): string {
    if h.dnsName != "" then h.dnsName else h.name
  }

  function LabelOf(db: Db, i: int): string
    requires Valid(db) && i in db.ips
  {
    Label(db.hosts[db.nics[db.ips[i].nic].host])
  }

  function AddrType(a: Addr): RecordType {
    if a.V4? then A else AAAA
  }

  predicate LinksKnown(db: Db, links: seq<Link>) {
    forall k :: 0 <= k < |links| ==> links[k].zone in db.zones
  }

  // ---------- Emissions of one address ----------

  function ForwardEmissions(db: Db, i: int, leaf: string, rtype: RecordType, links: seq<Link>): seq<Emission>
    requires LinksKnown(db, links)
  {
    if links == [] then []
    else
      var n := |links| - 1;
      var rest := ForwardEmissions(db, i, leaf, rtype, links[..n]);
      var z := db.zones[links[n].zone];
      if links[n].role != Forward then rest
      else rest + [Emission(Key(leaf + "." + z.name, rtype, ""), z.defaultTtl, links[n].zone, i)]
  }

  function ReverseEmissions(db: Db, i: int, ptr: string, target: string, links: seq<Link>): seq<Emission>
    requires LinksKnown(db, links)
  {
    if links == [] then []
    else
      var n := |links| - 1;
      var rest := ReverseEmissions(db, i, ptr, target, links[..n]);
      var z := db.zones[links[n].zone];
      if links[n].role != Reverse || !HasSuffix(ptr, z.name) then rest
      else rest + [Emission(Key(ptr, PTR, target), z.defaultTtl, links[n].zone, i)]
  }

  /** The zone PTR targets are built from: the forward link with the least name. */
  function LeastForward(db: Db, links: seq<Link>): (r: Option<int>)
    requires LinksKnown(db, links)
    ensures r.Some? ==> r.value in db.zones
  {
    if links == [] then None
    else
      var n := |links| - 1;
      var r := LeastForward(db, links[..n]);
      if links[n].role == Forward && (r.None? || Less(db.zones[links[n].zone].name, db.zones[r.value].name))
      then Some(links[n].zone) else r
  }

  lemma ListedLinksKnown(db: Db, s: int)
    requires Valid(db)
    ensures LinksKnown(db, ListLinks(db, s))
  {
    forall k | 0 <= k < |ListLinks(db, s)|
      ensures ListLinks(db, s)[k].zone in db.zones
    {
      ListLinksMeaning(db, s, ListLinks(db, s)[k]);
    }
  }

  function LinkEmissions(db: Db, i: int, leaf: string, a: Addr, links: seq<Link>): seq<Emission>
    requires LinksKnown(db, links)
  {
    ForwardEmissions(db, i, leaf, AddrType(a), links) +
    match LeastForward(db, links)
    case None => []
    case Some(f) => ReverseEmissions(db, i, ReverseName(a), leaf + "." + db.zones[f].name, links)
  }

  function IpEmissions(v6: V6Text, db: Db, i: int): seq<Emission>
    requires Valid(db) && i in db.ips
  {
    var row := db.ips[i];
    if row.kind != Static && row.kind != Reserved then []
    else
      match ParseAddr(v6, row.ip)
      case None => []
      case Some(a) =>
        match SubnetFor(v6, db, a)
        case None => []
        case Some(s) =>
          ListedLinksKnown(db, s);
          LinkEmissions(db, i, LabelOf(db, i), a, ListLinks(db, s))
  }

  // ---------- The whole traversal ----------

  /** What a `for … range` loop over `xs` emits when row `x` emits `f(x)`. */
  function FlatMap<T>(f: int --> seq<T>, xs: seq<int>): seq<T>
    requires forall k :: 0 <= k < |xs| ==> f.requires(xs[k])
  {
    if xs == [] then [] else FlatMap(f, xs[..|xs| - 1]) + f(xs[|xs| - 1])
  }

  function OfIp(v6: V6Text, db: Db): (f: int --> seq<Emission>)
    requires Valid(db)
    ensures forall i :: i in db.ips ==> f.requires(i) && f(i) == IpEmissions(v6, db, i)
  {
    (i: int) requires i in db.ips => IpEmissions(v6, db, i)
  }

  function IpsEmissions(v6: V6Text, db: Db, ips: seq<int>): seq<Emission>
    requires Valid(db) && forall k :: 0 <= k < |ips| ==> ips[k] in db.ips
  {
    FlatMap(OfIp(v6, db), ips)
  }

  lemma ListedIpsKnown(db: Db, n: int)
    requires Valid(db)
    ensures forall k :: 0 <= k < |ListIps(db, n)| ==> ListIps(db, n)[k] in db.ips && db.ips[ListIps(db, n)[k]].nic == n
  {
    forall k | 0 <= k < |ListIps(db, n)|
      ensures ListIps(db, n)[k] in db.ips && db.ips[ListIps(db, n)[k]].nic == n
    {
      assert ListIps(db, n)[k] in IpsOf(db, n);
    }
  }

  function NicEmissions(v6: V6Text, db: Db, n: int): seq<Emission>
    requires Valid(db)
  {
    ListedIpsKnown(db, n);
    IpsEmissions(v6, db, ListIps(db, n))
  }

  function OfNic(v6: V6Text, db: Db): (f: int -> seq<Emission>)
    requires Valid(db)
    ensures forall n :: f(n) == NicEmissions(v6, db, n)
  {
    (n: int) => NicEmissions(v6, db, n)
  }

  function NicsEmissions(v6: V6Text, db: Db, nics: seq<int>): seq<Emission>
    requires Valid(db)
  {
    FlatMap(OfNic(v6, db), nics)
  }

  function HostEmissions(v6: V6Text, db: Db, h: int): seq<Emission>
    requires Valid(db) && h in db.hosts
  {
    if db.hosts[h].dnsEnabled then NicsEmissions(v6, db, ListNics(db, h)) else []
  }

  function OfHost(v6: V6Text, db: Db): (f: int --> seq<Emission>)
    requires Valid(db)
    ensures forall h :: h in db.hosts ==> f.requires(h) && f(h) == HostEmissions(v6, db, h)
  {
    (h: int) requires h in db.hosts => HostEmissions(v6, db, h)
  }

  function HostsEmissions(v6: V6Text, db: Db, hosts: seq<int>): seq<Emission>
    requires Valid(db) && forall k :: 0 <= k < |hosts| ==> hosts[k] in db.hosts
  {
    FlatMap(OfHost(v6, db), hosts)
  }

  function AllEmissions(v6: V6Text, db: Db): seq<Emission>
    requires Valid(db)
  {
    HostsEmissions(v6, db, ListHosts(db))
  }

  // ---------- Folding emissions into wanted records ----------

  /** Forward bindings accrete; a PTR that is already wanted stays as it is. */
  function Accrete(d: map<Key, Wanted>, e: Emission): map<Key, Wanted> {
    if e.key !in d then d[e.key := Wanted(e.ttl, e.zone, [e.ip])]
    else if e.key.rtype == PTR then d
    else d[e.key := d[e.key].(bindings := d[e.key].bindings + [e.ip])]
  }

  function Fold(d: map<Key, Wanted>, es: seq<Emission>): map<Key, Wanted> {
    if es == [] then d else Accrete(Fold(d, es[..|es| - 1]), es[|es| - 1])
  }

  lemma {:induction false} FoldConcat(d: map<Key, Wanted>, xs: seq<Emission>, ys: seq<Emission>)
    ensures Fold(d, xs + ys) == Fold(Fold(d, xs), ys)
  {
    if ys == [] {
      assert xs + ys == xs;
    } else {
      var n := |ys| - 1;
      FoldConcat(d, xs, ys[..n]);
      assert (xs + ys)[..|xs + ys| - 1] == xs + ys[..n];
    }
  }

  function Desired(v6: V6Text, db: Db): map<Key, Wanted>
    requires Valid(db)
  {
    Fold(map[], AllEmissions(v6, db))
  }

  // ---------- The loops ----------

  method AddForward(db: Db, i: int, leaf: string, a: Addr, links: seq<Link>, before: map<Key, Wanted>)
    returns (desired: map<Key, Wanted>)
    requires LinksKnown(db, links)
    ensures desired == Fold(before, ForwardEmissions(db, i, leaf, AddrType(a), links))
    ensures forall key :: key in desired && key !in before ==> key.rtype == (if a.V4? then A else AAAA)
  {
    desired := before;
    for k := 0 to |links|
      invariant desired == Fold(before, ForwardEmissions(db, i, leaf, AddrType(a), links[..k]))
      invariant forall key :: key in desired && key !in before ==> key.rtype == (if a.V4? then A else AAAA)
    {
      assert links[..k + 1][..k] == links[..k];
      ghost var done := ForwardEmissions(db, i, leaf, AddrType(a), links[..k]);
      if links[k].role == Forward {
        var zone := db.zones[links[k].zone];
        var rtype := if a.V4? then A else AAAA;
        var key := Key(leaf + "." + zone.name, rtype, "");
        ghost var e := Emission(key, zone.defaultTtl, links[k].zone, i);
        assert (done + [e])[..|done|] == done;
        ghost var next := Accrete(desired, e);
        if key !in desired {
          desired := desired[key := Wanted(zone.defaultTtl, links[k].zone, [])];
        }
        desired := desired[key := desired[key].(bindings := desired[key].bindings + [i])];
        assert [] + [i] == [i];
        assert desired == next;
      }
    }
    assert links[..|links|] == links;
  }

  method AddReverse(db: Db, i: int, ptr: string, target: string, links: seq<Link>, before: map<Key, Wanted>)
    returns (desired: map<Key, Wanted>)
    requires LinksKnown(db, links)
    ensures desired == Fold(before, ReverseEmissions(db, i, ptr, target, links))
  {
    desired := before;
    for k := 0 to |links|
      invariant desired == Fold(before, ReverseEmissions(db, i, ptr, target, links[..k]))
    {
      assert links[..k + 1][..k] == links[..k];
      ghost var done := ReverseEmissions(db, i, ptr, target, links[..k]);
      var zone := db.zones[links[k].zone];
      if links[k].role == Reverse && HasSuffix(ptr, zone.name) {
        var key := Key(ptr, PTR, target);
        ghost var e := Emission(key, zone.defaultTtl, links[k].zone, i);
        assert (done + [e])[..|done|] == done;
        if key !in desired {
          desired := desired[key := Wanted(zone.defaultTtl, links[k].zone, [i])];
        }
      }
    }
    assert links[..|links|] == links;
  }

  method PtrZone(db: Db, links: seq<Link>) returns (best: Option<int>)
    requires LinksKnown(db, links)
    ensures best == LeastForward(db, links)
  {
    best := None;
    for k := 0 to |links|
      invariant best == LeastForward(db, links[..k])
    {
      assert links[..k + 1][..k] == links[..k];
      if links[k].role == Forward {
        if best.None? || Less(db.zones[links[k].zone].name, db.zones[best.value].name) {
          best := Some(links[k].zone);
        }
      }
    }
    assert links[..|links|] == links;
  }

  /** The two loops over the links of a subnet, and between them the choice of the zone for PTR targets. */
  method AddLinked(db: Db, i: int, leaf: string, a: Addr, links: seq<Link>, before: map<Key, Wanted>)
    returns (desired: map<Key, Wanted>)
    requires LinksKnown(db, links)
    ensures desired == Fold(before, LinkEmissions(db, i, leaf, a, links))
  {
    var forPtr := PtrZone(db, links);
    desired := AddForward(db, i, leaf, a, links, before);
    if forPtr.None? {
      assert LinkEmissions(db, i, leaf, a, links) == ForwardEmissions(db, i, leaf, AddrType(a), links);
      return;
    }
    var ptr := ReverseFqdn(a);
    var target := leaf + "." + db.zones[forPtr.value].name;
    FoldConcat(before, ForwardEmissions(db, i, leaf, AddrType(a), links), ReverseEmissions(db, i, ptr, target, links));
    desired := AddReverse(db, i, ptr, target, links, desired);
  }

  lemma EmittingRow(v6: V6Text, db: Db, i: int, a: Addr, m: nat)
    requires Valid(db) && i in db.ips && (db.ips[i].kind == Static || db.ips[i].kind == Reserved)
    requires ParseAddr(v6, db.ips[i].ip) == Some(a) && FirstMatch(ParsedSubnets(v6, db, ListSubnets(db)), a) == Some(m)
    ensures var s := ParsedSubnets(v6, db, ListSubnets(db))[m].id;
            LinksKnown(db, ListLinks(db, s)) && IpEmissions(v6, db, i) == LinkEmissions(db, i, LabelOf(db, i), a, ListLinks(db, s))
  {
    ListedLinksKnown(db, ParsedSubnets(v6, db, ListSubnets(db))[m].id);
  }

  lemma SilentRow(v6: V6Text, db: Db, i: int)
    requires Valid(db) && i in db.ips
    ensures db.ips[i].kind == Dynamic ==> IpEmissions(v6, db, i) == []
    ensures ParseAddr(v6, db.ips[i].ip) == None ==> IpEmissions(v6, db, i) == []
    ensures ParseAddr(v6, db.ips[i].ip).Some? &&
            FirstMatch(ParsedSubnets(v6, db, ListSubnets(db)), ParseAddr(v6, db.ips[i].ip).value) == None ==>
              IpEmissions(v6, db, i) == []
  {
  }

  method AddIp(v6: V6Text, db: Db, parsed: seq<ParsedSubnet>, leaf: string, i: int, before: map<Key, Wanted>)
    returns (desired: map<Key, Wanted>)
    requires Valid(db) && i in db.ips && leaf == LabelOf(db, i)
    requires parsed == ParsedSubnets(v6, db, ListSubnets(db))
    ensures desired == Fold(before, IpEmissions(v6, db, i))
  {
    desired := before;
    SilentRow(v6, db, i);
    var row := db.ips[i];
    if row.kind != Static && row.kind != Reserved {
      return;
    }
    var addr := ParseAddr(v6, row.ip);
    if addr.None? {
      return;
    }
    var found := FindSubnet(parsed, addr.value);
    if found.None? {
      return;
    }
    var s := parsed[found.value].id;
    EmittingRow(v6, db, i, addr.value, found.value);
    desired := AddLinked(db, i, leaf, addr.value, ListLinks(db, s), before);
  }

  method AddIps(v6: V6Text, db: Db, parsed: seq<ParsedSubnet>, leaf: string, ips: seq<int>, before: map<Key, Wanted>)
    returns (desired: map<Key, Wanted>)
    requires Valid(db) && parsed == ParsedSubnets(v6, db, ListSubnets(db))
    requires forall k :: 0 <= k < |ips| ==> ips[k] in db.ips && leaf == LabelOf(db, ips[k])
    ensures desired == Fold(before, IpsEmissions(v6, db, ips))
  {
    desired := before;
    for k := 0 to |ips|
      invariant desired == Fold(before, IpsEmissions(v6, db, ips[..k]))
    {
      assert ips[..k + 1][..k] == ips[..k];
      FoldConcat(before, IpsEmissions(v6, db, ips[..k]), IpEmissions(v6, db, ips[k]));
      desired := AddIp(v6, db, parsed, leaf, ips[k], desired);
    }
    assert ips[..|ips|] == ips;
  }

  method AddNics(v6: V6Text, db: Db, parsed: seq<ParsedSubnet>, leaf: string, nics: seq<int>, before: map<Key, Wanted>)
    returns (desired: map<Key, Wanted>)
    requires Valid(db) && parsed == ParsedSubnets(v6, db, ListSubnets(db))
    requires forall k :: 0 <= k < |nics| ==> nics[k] in db.nics && db.nics[nics[k]].host in db.hosts &&
                                                 leaf == Label(db.hosts[db.nics[nics[k]].host])
    ensures desired == Fold(before, NicsEmissions(v6, db, nics))
  {
    desired := before;
    for k := 0 to |nics|
      invariant desired == Fold(before, NicsEmissions(v6, db, nics[..k]))
    {
      assert nics[..k + 1][..k] == nics[..k];
      FoldConcat(before, NicsEmissions(v6, db, nics[..k]), NicEmissions(v6, db, nics[k]));
      ListedIpsKnown(db, nics[k]);
      var ips := ListIps(db, nics[k]);
      desired := AddIps(v6, db, parsed, leaf, ips, desired);
    }
    assert nics[..|nics|] == nics;
  }

  lemma ListedNicsKnown(db: Db, h: int)
    requires Valid(db)
    ensures forall k :: 0 <= k < |ListNics(db, h)| ==> ListNics(db, h)[k] in db.nics && db.nics[ListNics(db, h)[k]].host == h
  {
    forall k | 0 <= k < |ListNics(db, h)|
      ensures ListNics(db, h)[k] in db.nics && db.nics[ListNics(db, h)[k]].host == h
    {
      assert ListNics(db, h)[k] in NicsOf(db, h);
    }
  }

  method AddHost(v6: V6Text, db: Db, parsed: seq<ParsedSubnet>, h: int, before: map<Key, Wanted>)
    returns (desired: map<Key, Wanted>)
    requires Valid(db) && h in db.hosts && parsed == ParsedSubnets(v6, db, ListSubnets(db))
    ensures desired == Fold(before, HostEmissions(v6, db, h))
  {
    if !db.hosts[h].dnsEnabled {
      return before;
    }
    var leaf := db.hosts[h].name;
    if db.hosts[h].dnsName != "" {
      leaf := db.hosts[h].dnsName;
    }
    ListedNicsKnown(db, h);
    var nics := ListNics(db, h);
    desired := AddNics(v6, db, parsed, leaf, nics, before);
  }

  method AddHosts(v6: V6Text, db: Db, parsed: seq<ParsedSubnet>, hosts: seq<int>) returns (desired: map<Key, Wanted>)
    requires Valid(db) && parsed == ParsedSubnets(v6, db, ListSubnets(db))
    requires forall k :: 0 <= k < |hosts| ==> hosts[k] in db.hosts
    ensures desired == Fold(map[], HostsEmissions(v6, db, hosts))
  {
    desired := map[];
    for k := 0 to |hosts|
      invariant desired == Fold(map[], HostsEmissions(v6, db, hosts[..k]))
    {
      assert hosts[..k + 1][..k] == hosts[..k];
      FoldConcat(map[], HostsEmissions(v6, db, hosts[..k]), HostEmissions(v6, db, hosts[k]));
      desired := AddHost(v6, db, parsed, hosts[k], desired);
    }
    assert hosts[..|hosts|] == hosts;
  }

  lemma ListedHostsKnown(db: Db)
    requires Valid(db)
    ensures forall k :: 0 <= k < |ListHosts(db)| ==> ListHosts(db)[k] in db.hosts
    ensures forall k :: 0 <= k < |ListSubnets(db)| ==> ListSubnets(db)[k] in db.subnets
  {
    forall k | 0 <= k < |ListHosts(db)|
      ensures ListHosts(db)[k] in db.hosts
    {
      assert ListHosts(db)[k] in db.hosts.Keys;
    }
    forall k | 0 <= k < |ListSubnets(db)|
      ensures ListSubnets(db)[k] in db.subnets
    {
      assert ListSubnets(db)[k] in db.subnets.Keys;
    }
  }

  method BuildDesired(v6: V6Text, db: Db) returns (desired: map<Key, Wanted>)
    requires Valid(db)
    ensures desired == Desired(v6, db)
  {
    ListedHostsKnown(db);
    var subnets := ListSubnets(db);
    var parsed := ParseSubnets(v6, db, subnets);
    var hosts := ListHosts(db);
    desired := AddHosts(v6, db, parsed, hosts);
  }
}
