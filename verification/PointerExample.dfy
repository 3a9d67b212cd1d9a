/**
 A small network on which an automatic PTR is published wrongly: one host with one static address, a subnet, a
 forward zone and a reverse zone. The PTR of 10.0.0.5 is to point to web.lan and is published as 10.0.0.5; once the
 address is deleted, and until the next run, it is published as web.lan.
 */
module PointerExample {
  import opened Basics
  import opened Text
  import opened Net
  import opened Database
  import opened Placement
  import opened Synth
  import opened SynthMeaning
  import opened Derivation
  import opened Apply
  import opened Run
  import opened Publishing

  /** One host and its address, the subnet with both its links, and no records yet. */
  function Network(leaf: string, mac: string, ip: string, cidr: string, forward: string, reverse: string): Db {
    Db(map[1 := Host(leaf, "", "", true)], map[1 := Nic(1, mac)], map[1 := Ip(1, ip, Static)],
       map[1 := Subnet(cidr, "", "", "", "")], map[1 := Zone(forward, 300), 2 := Zone(reverse, 300)],
       {Link(1, 1, Forward), Link(1, 2, Reverse)}, map[], {})
  }

  lemma NetworkValid(leaf: string, mac: string, ip: string, cidr: string, forward: string, reverse: string)
    requires forward != reverse
    ensures Valid(Network(leaf, mac, ip, cidr, forward, reverse))
  {
  }

  lemma OnOnlySubnet(v6: V6Text, db: Db, a: Addr)
    requires Valid(db) && 1 in db.ips && db.ips[1].kind == Static && ParseAddr(v6, db.ips[1].ip) == Some(a)
    requires db.hosts[db.nics[db.ips[1].nic].host].dnsEnabled
    requires Covers(v6, db, 1, a) && forall s :: s in db.subnets ==> s == 1
    ensures OnSubnet(v6, db, 1, 1) && AddrOf(v6, db, 1) == a
  {
    assert ChosenSubnet(v6, db, a, 1);
  }

  lemma RowPoints(v6: V6Text, db: Db, name: string, k: Key)
    requires Valid(db) && OnSubnet(v6, db, 1, 1) && Link(1, 1, Forward) in db.links && Link(1, 2, Reverse) in db.links
    requires forall l :: l in db.links && l.role == Forward ==> l.zone == 1
    requires name == ReverseName(AddrOf(v6, db, 1)) && HasSuffix(name, db.zones[2].name)
    requires k == Key(name, PTR, LabelOf(db, 1) + "." + db.zones[1].name)
    ensures Points(v6, db, 1, 2, k)
  {
    assert LeastForwardOn(db, 1, 1);
    assert PointsTo(v6, db, 1, 2, 1);
    assert PtrKey(v6, db, 1, 1) == k;
  }

  lemma OnlyRowPoints(v6: V6Text, db: Db, k: Key, j: int, y: int)
    requires Valid(db) && Points(v6, db, j, y, k)
    requires (forall i :: i in db.ips ==> i == 1) && forall l :: l in db.links && l.role == Reverse ==> l.zone == 2
    ensures j == 1 && y == 2
  {
    var f :| PointsTo(v6, db, j, y, f);
    var s :| OnSubnet(v6, db, j, s) && Link(s, y, Reverse) in db.links;
  }

  lemma PointerIsDesired(v6: V6Text, db: Db, k: Key)
    requires Valid(db) && Points(v6, db, 1, 2, k) && k.rtype == PTR
    requires (forall i :: i in db.ips ==> i == 1) && forall l :: l in db.links && l.role == Reverse ==> l.zone == 2
    ensures k in Desired(v6, db) && Desired(v6, db)[k].bindings == [1] && Desired(v6, db)[k].zone == 2
  {
    PointerRecords(v6, db, k);
    OnlyBinding(v6, db, k, Desired(v6, db)[k]);
  }

  lemma OnlyBinding(v6: V6Text, db: Db, k: Key, w: Wanted)
    requires Valid(db) && PointerRecordOf(v6, db, k, w)
    requires (forall i :: i in db.ips ==> i == 1) && forall l :: l in db.links && l.role == Reverse ==> l.zone == 2
    ensures w.bindings == [1] && w.zone == 2
  {
    OnlyRowPoints(v6, db, k, w.bindings[0], w.zone);
  }

  lemma NothingOverridden(v6: V6Text, db: Db, k: Key)
    requires Valid(db) && db.records == map[] && db.bindings == {} && k in Desired(v6, db)
    ensures k in RunWants(v6, db) && RunWants(v6, db)[k] == Desired(v6, db)[k]
  {
    assert Inventory(db) == db && ManualNames(db) == {};
  }

  lemma WantedRow(db: Db, post: Db, want: map<Key, Wanted>, k: Key) returns (r: int)
    requires Applied(db, post, want) && k in want && db.records == map[]
    ensures AutoRow(post, r, k) && post.records[r].enabled && post.records[r].zone == Some(want[k].zone) && post.ips == db.ips
    ensures forall i :: (r, i) in post.bindings <==> i in want[k].bindings
  {
    AutoRowsAreWanted(db, post, want);
    r :| AutoRow(post, r, k);
  }

  /** What is bound to address row 1 and filed under zone 2 is published there as that address. */
  lemma PublishedThere(db: Db, post: Db, want: map<Key, Wanted>, k: Key, ip: string) returns (r: int)
    requires Valid(post) && Applied(db, post, want) && db.records == map[] && 1 in db.ips && db.ips[1].ip == ip != ""
    requires k in want && want[k].bindings == [1] && want[k].zone == 2
    ensures AutoRow(post, r, k) && Flattens(post, 2, r, Some(1)) && RowOf(post, r, Some(1)).value == ip
  {
    r := WantedRow(db, post, want, k);
    assert want[k].bindings[0] == 1;
    assert (r, 1) in post.bindings;
  }

  // ---------- The texts of the example ----------

  lemma JoinFour(a: string, b: string, c: string, d: string, dot: string)
    ensures Join([a, b, c, d], dot) == a + dot + b + dot + c + dot + d
  {
    JoinPair(a, b, dot);
    JoinPair(c, d, dot);
    JoinConcat([a, b], [c, d], dot);
    assert [a, b] + [c, d] == [a, b, c, d];
    assert a + dot + b + dot + (c + dot + d) == a + dot + b + dot + c + dot + d;
  }

  lemma DottedQuad(w: byte, x: byte, y: byte, z: byte)
    ensures PrintV4([w, x, y, z]) == PrintNat(w) + "." + PrintNat(x) + "." + PrintNat(y) + "." + PrintNat(z)
  {
    JoinFour(PrintNat(w), PrintNat(x), PrintNat(y), PrintNat(z), ".");
    assert OctetParts([w, x, y, z]) == [PrintNat(w), PrintNat(x), PrintNat(y), PrintNat(z)];
  }

  lemma Ten()
    ensures PrintNat(10) == "10" && PrintNat(0) == "0" && PrintNat(5) == "5"
  {
    assert PrintNat(10) == PrintNat(1) + [DigitChar(0)];
  }

  lemma AddressText(v6: V6Text)
    ensures ParseAddr(v6, "10.0.0.5") == Some(V4([10, 0, 0, 5]))
    ensures ParseAddr(v6, "10.0.0.0") == Some(V4([10, 0, 0, 0]))
  {
    Ten();
    DottedQuad(10, 0, 0, 5);
    DottedQuad(10, 0, 0, 0);
    assert PrintV4([10, 0, 0, 5]) == "10.0.0.5" && PrintV4([10, 0, 0, 0]) == "10.0.0.0";
    ParseAddrV4(v6, [10, 0, 0, 5]);
    ParseAddrV4(v6, [10, 0, 0, 0]);
  }

  lemma TwentyFour()
    ensures CanonicalDecimal("24") && DigitsValue("24") == 24
  {
    var s := "24";
    assert s[..1] == "2" && "2"[..0] == "" && DigitsValue("") == 0;
    assert DigitsValue("2") == 2;
  }

  lemma TwoParts(v6: V6Text, cidr: string, front: string, bits: string, a: Addr)
    requires cidr == front + ['/'] + bits && '/' !in front && '/' !in bits && CanonicalDecimal(bits)
    requires ParseAddr(v6, front) == Some(a) && a.V4? && DigitsValue(bits) <= 32
    ensures ParsePrefix(v6, cidr) == Some(Prefix(a, DigitsValue(bits)))
  {
    SplitConcat(front, bits, '/');
    SplitWhole(front, '/');
    SplitWhole(bits, '/');
    assert Split(cidr, '/') == [front, bits] && [front, bits][..1] == [front];
  }

  lemma PrefixText(v6: V6Text, cidr: string)
    requires cidr == "10.0.0.0/24"
    ensures ParsePrefix(v6, cidr) == Some(Prefix(V4([10, 0, 0, 0]), 24))
  {
    AddressText(v6);
    TwentyFour();
    var front, bits := "10.0.0.0", "24";
    assert front + ['/'] + bits == "10.0.0.0/24";
    TwoParts(v6, cidr, front, bits, V4([10, 0, 0, 0]));
  }

  lemma InPrefix()
    ensures Contains(Prefix(V4([10, 0, 0, 0]), 24), V4([10, 0, 0, 5]))
  {
    var x: Octets4, y: Octets4 := [10, 0, 0, 0], [10, 0, 0, 5];
    forall j: nat | j < 24
      ensures Bit(x, j) == Bit(y, j)
    {
      assert j / 8 < 3 && x[j / 8] == y[j / 8];
    }
  }

  lemma ReverseText(o: Octets4, tail: string, dot: string)
    requires dot == "." && tail == "in-addr" + dot + "arpa"
    ensures ReverseName(V4(o)) == PrintNat(o[3]) + dot + PrintNat(o[2]) + dot + PrintNat(o[1]) + dot + PrintNat(o[0]) + dot + tail
  {
    var w, x, y, z := PrintNat(o[3]), PrintNat(o[2]), PrintNat(o[1]), PrintNat(o[0]);
    assert Reversed(OctetParts(o)) == [w, x, y, z];
    FourLabels(w, x, y, z, ["in-addr", "arpa"], dot);
    JoinPair("in-addr", "arpa", dot);
  }

  /** The reverse name ends with everything after its first label. */
  lemma ReverseSuffix(o: Octets4, zone: string, tail: string, dot: string)
    requires dot == "." && tail == "in-addr" + dot + "arpa"
    requires zone == PrintNat(o[2]) + dot + PrintNat(o[1]) + dot + PrintNat(o[0]) + dot + tail
    ensures HasSuffix(ReverseName(V4(o)), zone)
  {
    ReverseText(o, tail, dot);
    RegroupedTail(PrintNat(o[3]), PrintNat(o[2]), PrintNat(o[1]), PrintNat(o[0]), tail, dot);
  }

  lemma ZoneText(zone: string)
    requires zone == "0.0.10.in-addr.arpa"
    ensures HasSuffix(ReverseName(V4([10, 0, 0, 5])), zone)
  {
    Ten();
    var dot := ".";
    var tail := "in-addr" + dot + "arpa";
    assert "0" + dot + "0" + dot + "10" + dot + tail == "0.0.10.in-addr.arpa";
    ReverseSuffix([10, 0, 0, 5], zone, tail, dot);
  }

  lemma RegroupedTail(w: string, x: string, y: string, z: string, tail: string, dot: string)
    ensures HasSuffix(w + dot + x + dot + y + dot + z + dot + tail, x + dot + y + dot + z + dot + tail)
  {
    EndsWithItsEnd(w + dot, x + dot + y + dot + z + dot + tail);
    assert w + dot + (x + dot + y + dot + z + dot + tail) == w + dot + x + dot + y + dot + z + dot + tail;
  }

  // ---------- The example ----------

  /** A network of one address whose reverse name the suffix test accepts wants the PTR bound to that address. */
  lemma Desires(v6: V6Text, db: Db, a: Addr, name: string, k: Key)
    requires Valid(db) && db.records == map[] && db.bindings == {}
    requires 1 in db.ips && db.ips[1].kind == Static && ParseAddr(v6, db.ips[1].ip) == Some(a)
    requires db.hosts[db.nics[db.ips[1].nic].host].dnsEnabled && Covers(v6, db, 1, a)
    requires (forall s :: s in db.subnets ==> s == 1) && (forall i :: i in db.ips ==> i == 1)
    requires Link(1, 1, Forward) in db.links && Link(1, 2, Reverse) in db.links
    requires forall l :: l in db.links ==> l.zone == (if l.role == Forward then 1 else 2)
    requires name == ReverseName(a) && HasSuffix(name, db.zones[2].name)
    requires k == Key(name, PTR, LabelOf(db, 1) + "." + db.zones[1].name)
    ensures k in RunWants(v6, db) && RunWants(v6, db)[k].bindings == [1] && RunWants(v6, db)[k].zone == 2
  {
    OnOnlySubnet(v6, db, a);
    RowPoints(v6, db, name, k);
    PointerIsDesired(v6, db, k);
    NothingOverridden(v6, db, k);
  }

  lemma NetworkDesires(v6: V6Text, leaf: string, mac: string, ip: string, cidr: string, forward: string, reverse: string,
                       a: Addr, p: Prefix, name: string)
    requires forward != reverse && leaf != "" && ParseAddr(v6, ip) == Some(a)
    requires ParsePrefix(v6, cidr) == Some(p) && Contains(p, a)
    requires name == ReverseName(a) && HasSuffix(name, reverse)
    ensures var db, k := Network(leaf, mac, ip, cidr, forward, reverse), Key(name, PTR, leaf + "." + forward);
            Valid(db) && k in RunWants(v6, db) && RunWants(v6, db)[k].bindings == [1] && RunWants(v6, db)[k].zone == 2
  {
    NetworkValid(leaf, mac, ip, cidr, forward, reverse);
    var db := Network(leaf, mac, ip, cidr, forward, reverse);
    Desires(v6, db, a, name, Key(name, PTR, leaf + "." + forward));
  }

  /** The host web has the address 10.0.0.5, in 10.0.0.0/24, which is linked to the zones lan and 0.0.10.in-addr.arpa. */
  ghost predicate IsExample(db: Db) {
    db == Network("web", "02:00:00:00:00:01", "10.0.0.5", "10.0.0.0/24", "lan", "0.0.10.in-addr.arpa")
  }

  lemma ExampleDesires(v6: V6Text, db: Db, k: Key, a: Addr)
    requires IsExample(db) && a == V4([10, 0, 0, 5]) && k == Key(ReverseName(a), PTR, "web" + "." + "lan")
    ensures Valid(db) && k in RunWants(v6, db) && RunWants(v6, db)[k].bindings == [1] && RunWants(v6, db)[k].zone == 2
  {
    AddressText(v6);
    var leaf, mac, ip, cidr := "web", "02:00:00:00:00:01", "10.0.0.5", "10.0.0.0/24";
    var forward, reverse := "lan", "0.0.10.in-addr.arpa";
    PrefixText(v6, cidr);
    InPrefix();
    ZoneText(reverse);
    assert forward[0] != reverse[0];
    NetworkDesires(v6, leaf, mac, ip, cidr, forward, reverse, a, Prefix(V4([10, 0, 0, 0]), 24), ReverseName(a));
  }

  lemma DifferentTexts()
    ensures "web" + "." + "lan" == "web.lan" && "10.0.0.5" != "web.lan"
  {
    assert "10.0.0.5"[0] != "web.lan"[0];
  }

  /** A run succeeds, and whatever tables it leaves, the PTR of 10.0.0.5 to web.lan is published as 10.0.0.5. */
  lemma PointerPublishedWrongly(v6: V6Text, db: Db, post: Db, a: Addr) returns (r: int)
    requires IsExample(db) && a == V4([10, 0, 0, 5])
    requires Valid(db) && Valid(post) && Applied(db, post, RunWants(v6, db))
    ensures Appliable(db, RunWants(v6, db)) && AutoRow(post, r, Key(ReverseName(a), PTR, "web.lan"))
    ensures Flattens(post, 2, r, Some(1)) && RowOf(post, r, Some(1)).value == "10.0.0.5" != "web.lan"
  {
    var k := Key(ReverseName(a), PTR, "web" + "." + "lan");
    ExampleDesires(v6, db, k, a);
    RunNeverConflicts(v6, db);
    var ip := "10.0.0.5";
    r := PublishedThere(db, post, RunWants(v6, db), k, ip);
    DifferentTexts();
  }

  /** With the one bound address row deleted, an automatic row falls back to its target. */
  lemma FallsBack(post: Db, gone: Db, r: int, k: Key, zone: int)
    requires Valid(post) && gone == DropIps(post, {1}) && Valid(gone)
    requires AutoRow(post, r, k) && post.records[r].enabled && post.records[r].zone == Some(zone) && k.target != ""
    requires forall i :: (r, i) in post.bindings ==> i == 1
    ensures Flattens(gone, zone, r, None) && RowOf(gone, r, None).value == k.target
  {
  }

  lemma OrdinaryExample(db: Db, leaf: string, mac: string, ip: string, cidr: string, forward: string, reverse: string)
    requires db == Network(leaf, mac, ip, cidr, forward, reverse)
    requires ':' !in leaf && forward != "" && !IsDigit(forward[|forward| - 1])
    ensures OrdinaryNames(db)
  {
  }

  lemma ExampleIsOrdinary(db: Db)
    requires IsExample(db)
    ensures OrdinaryNames(db) && 1 in db.ips
  {
    var leaf, mac, ip, cidr := "web", "02:00:00:00:00:01", "10.0.0.5", "10.0.0.0/24";
    OrdinaryExample(db, leaf, mac, ip, cidr, "lan", "0.0.10.in-addr.arpa");
  }

  lemma WantedRowFallsBack(db: Db, post: Db, gone: Db, want: map<Key, Wanted>, k: Key) returns (r: int)
    requires Valid(post) && Applied(db, post, want) && db.records == map[] && gone == DropIps(post, {1})
    requires k in want && want[k].bindings == [1] && want[k].zone == 2 && k.target != ""
    ensures Valid(gone) && AutoRow(gone, r, k) && Flattens(gone, 2, r, None) && RowOf(gone, r, None).value == k.target
    ensures post.ips == db.ips
  {
    r := WantedRow(db, post, want, k);
    DropIpsValid(post, {1});
    FallsBack(post, gone, r, k, 2);
  }

  /**
   All names are ordinary, so that right after a run no PTR shows its target. Yet deleting the address row then takes
   the binding along, and the PTR of the address that is no longer assigned is published as web.lan.
   */
  lemma PointerFallsBackToTarget(v6: V6Text, db: Db, post: Db, gone: Db, a: Addr) returns (r: int)
    requires IsExample(db) && a == V4([10, 0, 0, 5])
    requires Valid(db) && Valid(post) && Applied(db, post, RunWants(v6, db)) && gone == DropIps(post, {1})
    ensures OrdinaryNames(db) && 1 in post.ips && 1 !in gone.ips && Valid(gone)
    ensures AutoRow(gone, r, Key(ReverseName(a), PTR, "web.lan"))
    ensures Flattens(gone, 2, r, None) && RowOf(gone, r, None).value == "web.lan"
  {
    var k := Key(ReverseName(a), PTR, "web" + "." + "lan");
    ExampleDesires(v6, db, k, a);
    ExampleIsOrdinary(db);
    DifferentTexts();
    r := WantedRowFallsBack(db, post, gone, RunWants(v6, db), k);
  }
}
