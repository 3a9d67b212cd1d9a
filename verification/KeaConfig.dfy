/**
 The DHCP server configuration built from the tables: one entry per parseable subnet, each reserved address in
 the first of them whose prefix contains it.
 */
module KeaConfig {
  import opened Basics
  import opened Ordering
  import opened Net
  import opened Database
  import opened Placement
  import opened ShortForm
  import SynthMeaning

  datatype Reservation = Reservation(mac: string, ip: string, hostName: string)

  datatype Subnet4 = Subnet4(id: int, subnet: string, pools: seq<string>, options: seq<(string, string)>,
                             reservations: seq<Reservation>)

  // ---------- The reservations query ----------

  function ReservationOf(db: Db, i: int): Reservation
    requires Valid(db) && i in db.ips
  {
    var nic := db.nics[db.ips[i].nic];
    Reservation(nic.mac, db.ips[i].ip, db.hosts[nic.host].name)
  }

  predicate IsReserved(db: Db, i: int) {
    i in db.ips && db.ips[i].kind == Reserved
  }

  /** `ORDER BY ip` leaves rows of equal text in any order. */
  ghost predicate ReservedListing(db: Db, ids: seq<int>) {
    && (forall k :: 0 <= k < |ids| ==> IsReserved(db, ids[k]))
    && (forall i :: IsReserved(db, i) ==> i in ids)
    && (forall a, b :: 0 <= a < b < |ids| ==> ids[a] != ids[b] && !Less(db.ips[ids[b]].ip, db.ips[ids[a]].ip))
  }

  function ReservationsOf(db: Db, ids: seq<int>): (rs: seq<Reservation>)
    requires Valid(db) && forall k :: 0 <= k < |ids| ==> ids[k] in db.ips
    ensures |rs| == |ids|
    ensures forall k :: 0 <= k < |ids| ==> rs[k] == ReservationOf(db, ids[k])
  {
    seq(|ids|, k requires 0 <= k < |ids| => ReservationOf(db, ids[k]))
  }

  function TextBefore(key: map<int, string>): (less: (int, int) -> bool)
    ensures forall i, j :: less(i, j) <==> i in key && j in key && Less(key[i], key[j])
  {
    (i, j) => i in key && j in key && Less(key[i], key[j])
  }

  lemma TextBeforeIsStrict(ids: set<int>, key: map<int, string>)
    ensures StrictOn(ids, TextBefore(key))
  {
    forall i, j, k | i in key && j in key && k in key
      ensures !Less(key[i], key[i]) && (Less(key[i], key[j]) && Less(key[j], key[k]) ==> Less(key[i], key[k]))
    {
      LessTotal(key[i], key[i]);
      if Less(key[i], key[j]) && Less(key[j], key[k]) {
        LessTransitive(key[i], key[j], key[k]);
      }
    }
  }

  method ListReservations(db: Tables) returns (rs: seq<Reservation>)
    ensures exists ids :: ReservedListing(db, ids) && rs == ReservationsOf(db, ids)
  {
    var reserved := set i | i in db.ips && db.ips[i].kind == Reserved;
    TextBeforeIsStrict(reserved, IpTexts(db));
    var ids := SortedListing(reserved, TextBefore(IpTexts(db)));
    assert ReservedListing(db, ids);
    rs := ReservationsOf(db, ids);
  }

  // ---------- Subnet entries ----------

  function PoolsOf(v6: V6Text, row: Subnet): seq<string> {
    if row.rangeStart == "" || row.rangeEnd == "" then []
    else
      match ExpandPoolBounds(v6, row.cidr, row.rangeStart, row.rangeEnd)
      case Ok((s, e)) => [s + " - " + e]
      case Err(_) => []
  }

  function RouterOption(row: Subnet): seq<(string, string)> {
    if row.gateway != "" then [("routers", row.gateway)] else []
  }

  function ResolverOption(row: Subnet): seq<(string, string)> {
    var dns := CleanCsv(row.dnsServers);
    if dns != "" then [("domain-name-servers", dns)] else []
  }

  function OptionsOf(row: Subnet): seq<(string, string)> {
    RouterOption(row) + ResolverOption(row)
  }

  function EmptyEntry(v6: V6Text, db: Db, s: int): Subnet4
    requires s in db.subnets
  {
    var row := db.subnets[s];
    Subnet4(s, row.cidr, PoolsOf(v6, row), OptionsOf(row), [])
  }

  method EntryOf(v6: V6Text, s: int, row: Subnet) returns (sub: Subnet4)
    ensures sub == Subnet4(s, row.cidr, PoolsOf(v6, row), OptionsOf(row), [])
  {
    sub := Subnet4(s, row.cidr, [], [], []);
    if row.rangeStart != "" && row.rangeEnd != "" {
      var bounds := ExpandPoolBounds(v6, row.cidr, row.rangeStart, row.rangeEnd);
      if bounds.Ok? {
        sub := sub.(pools := [bounds.value.0 + " - " + bounds.value.1]);
      }
    }
    if row.gateway != "" {
      sub := sub.(options := sub.options + [("routers", row.gateway)]);
    }
    var dns := CleanCsvInPlace(row.dnsServers);
    if dns != "" {
      sub := sub.(options := sub.options + [("domain-name-servers", dns)]);
    }
  }

  ghost predicate AreEmptyEntries(v6: V6Text, db: Db, parsed: seq<ParsedSubnet>, entries: seq<Subnet4>) {
    |entries| == |parsed| &&
    forall m :: 0 <= m < |parsed| ==> parsed[m].id in db.subnets && entries[m] == EmptyEntry(v6, db, parsed[m].id)
  }

  method BuildEntries(v6: V6Text, db: Db, ids: seq<int>) returns (parsed: seq<ParsedSubnet>, entries: seq<Subnet4>)
    requires forall a :: 0 <= a < |ids| ==> ids[a] in db.subnets
    ensures parsed == ParsedSubnets(v6, db, ids) && AreEmptyEntries(v6, db, parsed, entries)
  {
    parsed, entries := [], [];
    for k := 0 to |ids|
      invariant parsed == ParsedSubnets(v6, db, ids[..k]) && AreEmptyEntries(v6, db, parsed, entries)
    {
      assert ids[..k + 1][..k] == ids[..k];
      var row := db.subnets[ids[k]];
      var p := ParsePrefix(v6, row.cidr);
      if p.None? {
        continue;
      }
      var sub := EntryOf(v6, ids[k], row);
      parsed, entries := parsed + [ParsedSubnet(ids[k], p.value)], entries + [sub];
    }
    assert ids[..|ids|] == ids;
  }

  /** A pool is pushed exactly when both ends are given and expand; then it is two addresses, where the range starts first. */
  lemma PoolIsTwoAddresses(v6: V6Text, row: Subnet)
    ensures PoolsOf(v6, row) != [] <==>
            row.rangeStart != "" && row.rangeEnd != "" &&
            ExpandPartialIp(v6, row.cidr, row.rangeStart).Ok? && ExpandPartialIp(v6, row.cidr, row.rangeEnd).Ok?
    ensures PoolsOf(v6, row) != [] ==>
              var s, e := ExpandPartialIp(v6, row.cidr, row.rangeStart), ExpandPartialIp(v6, row.cidr, row.rangeEnd);
              PoolsOf(v6, row) == [s.value + " - " + e.value] && ParseAddr(v6, s.value).Some? && ParseAddr(v6, e.value).Some?
  {
    if PoolsOf(v6, row) != [] {
      ExpandedIsAddress(v6, row.cidr, row.rangeStart);
      ExpandedIsAddress(v6, row.cidr, row.rangeEnd);
    }
  }

  /** Clients get the subnet's gateway as router and its cleaned resolver list, each only if it is not empty, and nothing else. */
  lemma OptionsMeaning(row: Subnet)
    ensures forall value :: ("routers", value) in OptionsOf(row) <==> value == row.gateway && value != ""
    ensures forall value :: ("domain-name-servers", value) in OptionsOf(row) <==> value == CleanCsv(row.dnsServers) && value != ""
    ensures forall o :: o in OptionsOf(row) ==> o.0 in {"routers", "domain-name-servers"}
    ensures forall j, k :: 0 <= j < k < |OptionsOf(row)| ==> OptionsOf(row)[j].0 != OptionsOf(row)[k].0
  {
    assert |"routers"| != |"domain-name-servers"|;
    assert OptionsOf(row) == RouterOption(row) + ResolverOption(row);
  }

  // ---------- Placing reservations ----------

  /** The entry a reservation belongs in. */
  function Lands(v6: V6Text, parsed: seq<ParsedSubnet>, r: Reservation): (m: Option<nat>)
    ensures m.Some? ==> m.value < |parsed|
  {
    match ParseAddr(v6, r.ip)
    case None => None
    case Some(a) => FirstMatch(parsed, a)
  }

  function Landings(v6: V6Text, parsed: seq<ParsedSubnet>, rs: seq<Reservation>): (ls: seq<Option<nat>>)
    ensures |ls| == |rs|
    ensures forall k :: 0 <= k < |rs| ==> ls[k] == Lands(v6, parsed, rs[k])
    ensures forall k :: 0 <= k < |rs| && ls[k].Some? ==> ls[k].value < |parsed|
  {
    seq(|rs|, k requires 0 <= k < |rs| => Lands(v6, parsed, rs[k]))
  }

  /** The elements that land in place `m`. */
  function Picked<T>(xs: seq<T>, ls: seq<Option<nat>>, m: nat): seq<T>
    requires |ls| == |xs|
  {
    if xs == [] then []
    else
      var n := |xs| - 1;
      Picked(xs[..n], ls[..n], m) + if ls[n] == Some(m) then [xs[n]] else []
  }

  function CountSome(ls: seq<Option<nat>>): nat {
    if ls == [] then 0 else CountSome(ls[..|ls| - 1]) + if ls[|ls| - 1].Some? then 1 else 0
  }

  function PlacedIn(v6: V6Text, parsed: seq<ParsedSubnet>, rs: seq<Reservation>, m: nat): seq<Reservation> {
    Picked(rs, Landings(v6, parsed, rs), m)
  }

  function CountPlaced(v6: V6Text, parsed: seq<ParsedSubnet>, rs: seq<Reservation>): nat {
    CountSome(Landings(v6, parsed, rs))
  }

  function With(e: Subnet4, rs: seq<Reservation>): Subnet4 {
    e.(reservations := e.reservations + rs)
  }

  /** The inner loop: append to the first entry whose prefix contains the address, and stop. */
  method PlaceOne(parsed: seq<ParsedSubnet>, a: Addr, r: Reservation, entries: array<Subnet4>) returns (placed: bool)
    requires entries.Length == |parsed|
    modifies entries
    ensures placed == FirstMatch(parsed, a).Some?
    ensures forall m :: 0 <= m < |parsed| ==>
              entries[m] == if FirstMatch(parsed, a) == Some(m) then With(old(entries[m]), [r]) else old(entries[m])
  {
    for i := 0 to |parsed|
      invariant entries[..] == old(entries[..])
      invariant forall j :: 0 <= j < i ==> !Contains(parsed[j].prefix, a)
    {
      if Contains(parsed[i].prefix, a) {
        assert FirstMatch(parsed, a) == Some(i);
        assert forall m :: 0 <= m < |parsed| ==> entries[m] == old(entries[m]);
        entries[i] := entries[i].(reservations := entries[i].reservations + [r]);
        return true;
      }
    }
    assert forall m :: 0 <= m < |parsed| ==> entries[m] == old(entries[m]);
    return false;
  }

  lemma PlacedStep(v6: V6Text, parsed: seq<ParsedSubnet>, rs: seq<Reservation>, k: nat, e: Subnet4, m: nat)
    requires k < |rs|
    ensures var before := With(e, PlacedIn(v6, parsed, rs[..k], m));
            With(e, PlacedIn(v6, parsed, rs[..k + 1], m)) ==
            if Lands(v6, parsed, rs[k]) == Some(m) then With(before, [rs[k]]) else before
  {
    assert rs[..k + 1][..k] == rs[..k];
    assert Landings(v6, parsed, rs[..k + 1])[..k] == Landings(v6, parsed, rs[..k]);
    var before := PlacedIn(v6, parsed, rs[..k], m);
    assert before + [] == before;
    assert e.reservations + before + [rs[k]] == e.reservations + (before + [rs[k]]);
  }

  lemma CountStep(v6: V6Text, parsed: seq<ParsedSubnet>, rs: seq<Reservation>, k: nat)
    requires k < |rs|
    ensures CountPlaced(v6, parsed, rs[..k + 1])
         == CountPlaced(v6, parsed, rs[..k]) + (if Lands(v6, parsed, rs[k]).Some? then 1 else 0)
  {
    assert Landings(v6, parsed, rs[..k + 1])[..k] == Landings(v6, parsed, rs[..k]);
  }

  method PlaceReservations(v6: V6Text, parsed: seq<ParsedSubnet>, rs: seq<Reservation>, entries: array<Subnet4>)
    returns (count: nat)
    requires entries.Length == |parsed|
    modifies entries
    ensures count == CountPlaced(v6, parsed, rs)
    ensures forall m :: 0 <= m < |parsed| ==> entries[m] == With(old(entries[m]), PlacedIn(v6, parsed, rs, m))
  {
    ghost var was := entries[..];
    count := 0;
    for k := 0 to |rs|
      invariant count == CountPlaced(v6, parsed, rs[..k])
      invariant forall m :: 0 <= m < |parsed| ==> entries[m] == With(was[m], PlacedIn(v6, parsed, rs[..k], m))
    {
      ghost var before, after := rs[..k], rs[..k + 1];
      forall m: nat | m < |parsed|
        ensures With(was[m], PlacedIn(v6, parsed, after, m)) ==
                if Lands(v6, parsed, rs[k]) == Some(m) then With(With(was[m], PlacedIn(v6, parsed, before, m)), [rs[k]])
                else With(was[m], PlacedIn(v6, parsed, before, m))
      {
        PlacedStep(v6, parsed, rs, k, was[m], m);
      }
      CountStep(v6, parsed, rs, k);
      var addr := ParseAddr(v6, rs[k].ip);
      if addr.None? {
        continue;
      }
      var placed := PlaceOne(parsed, addr.value, rs[k], entries);
      if placed {
        count := count + 1;
      }
    }
    assert rs[..|rs|] == rs;
  }

  /** The copy into the subnet list and the loop over it. */
  method PlaceAll(v6: V6Text, parsed: seq<ParsedSubnet>, rs: seq<Reservation>, built: seq<Subnet4>)
    returns (cfg: seq<Subnet4>, count: nat)
    requires |built| == |parsed|
    ensures count == CountPlaced(v6, parsed, rs) && |cfg| == |parsed|
    ensures forall m :: 0 <= m < |parsed| ==> cfg[m] == With(built[m], PlacedIn(v6, parsed, rs, m))
  {
    var entries := new Subnet4[|built|](i requires 0 <= i < |built| => built[i]);
    count := PlaceReservations(v6, parsed, rs, entries);
    cfg := entries[..];
  }

  // ---------- The whole configuration ----------

  ghost predicate IsConfig(v6: V6Text, db: Db, ids: seq<int>, cfg: seq<Subnet4>, count: nat)
    requires Valid(db)
  {
    var parsed := ParsedSubnets(v6, db, ListSubnets(db));
    ReservedListing(db, ids) &&
    var rs := ReservationsOf(db, ids);
    && count == CountPlaced(v6, parsed, rs) && |cfg| == |parsed|
    && forall m :: 0 <= m < |parsed| ==>
         && parsed[m].id in db.subnets
         && cfg[m] == EmptyEntry(v6, db, parsed[m].id).(reservations := PlacedIn(v6, parsed, rs, m))
  }

  lemma AlreadyEmpty(e: Subnet4, rs: seq<Reservation>)
    requires e.reservations == []
    ensures With(e, rs) == e.(reservations := rs)
  {
    assert [] + rs == rs;
  }

  method BuildConfig(v6: V6Text, db: Tables) returns (cfg: seq<Subnet4>, count: nat)
    ensures exists ids :: IsConfig(v6, db, ids, cfg, count)
  {
    var parsed, built := BuildEntries(v6, db, ListSubnets(db));
    var rs := ListReservations(db);
    ghost var ids :| ReservedListing(db, ids) && rs == ReservationsOf(db, ids);
    cfg, count := PlaceAll(v6, parsed, rs, built);
    forall m: nat | m < |parsed| {
      AlreadyEmpty(built[m], PlacedIn(v6, parsed, rs, m));
    }
    assert IsConfig(v6, db, ids, cfg, count);
  }

  // ---------- What placement means ----------

  /** What lands in a place is listed there once each, in the order it was read. */
  lemma {:induction false} PickedPositions<T>(xs: seq<T>, ls: seq<Option<nat>>, m: nat) returns (at: seq<nat>)
    requires |ls| == |xs|
    ensures |at| == |Picked(xs, ls, m)|
    ensures forall k :: 0 <= k < |at| ==> at[k] < |xs| && xs[at[k]] == Picked(xs, ls, m)[k]
    ensures forall j, k :: 0 <= j < k < |at| ==> at[j] < at[k]
    ensures forall i: nat :: i in at <==> i < |xs| && ls[i] == Some(m)
  {
    if xs == [] {
      at := [];
    } else {
      var n := |xs| - 1;
      var front := PickedPositions(xs[..n], ls[..n], m);
      at := front + if ls[n] == Some(m) then [n] else [];
      PositionsNext(ls, m, front, at);
      assert forall i :: 0 <= i < n ==> xs[..n][i] == xs[i];
    }
  }

  lemma PositionsNext(ls: seq<Option<nat>>, m: nat, front: seq<nat>, at: seq<nat>)
    requires ls != [] && forall i: nat :: i in front <==> i < |ls| - 1 && ls[i] == Some(m)
    requires at == front + if ls[|ls| - 1] == Some(m) then [|ls| - 1] else []
    ensures forall i: nat :: i in at <==> i < |ls| && ls[i] == Some(m)
  {
    var n: nat := |ls| - 1;
    assert forall i: nat :: i in at <==> i in front || (i == n && ls[n] == Some(m));
  }

  function Lengths<T>(xs: seq<T>, ls: seq<Option<nat>>, places: nat): nat
    requires |ls| == |xs|
  {
    if places == 0 then 0 else Lengths(xs, ls, places - 1) + |Picked(xs, ls, places - 1)|
  }

  lemma {:induction false} LengthsStep<T>(xs: seq<T>, ls: seq<Option<nat>>, places: nat)
    requires |ls| == |xs| && xs != []
    ensures Lengths(xs, ls, places) == Lengths(xs[..|xs| - 1], ls[..|xs| - 1], places) +
                                       (if ls[|xs| - 1].Some? && ls[|xs| - 1].value < places then 1 else 0)
  {
    if places > 0 {
      LengthsStep(xs, ls, places - 1);
    }
  }

  /** The elements that land anywhere are those of all places together: none is lost and none is placed twice. */
  lemma {:induction false} PickedIsPartition<T>(xs: seq<T>, ls: seq<Option<nat>>, places: nat)
    requires |ls| == |xs| && forall k :: 0 <= k < |ls| && ls[k].Some? ==> ls[k].value < places
    ensures CountSome(ls) == Lengths(xs, ls, places)
    decreases |xs|, places
  {
    if xs == [] {
      NothingPicked(xs, ls, places);
    } else {
      var n := |xs| - 1;
      PickedIsPartition(xs[..n], ls[..n], places);
      LengthsStep(xs, ls, places);
    }
  }

  lemma {:induction false} NothingPicked<T>(xs: seq<T>, ls: seq<Option<nat>>, places: nat)
    requires xs == [] && ls == []
    ensures Lengths(xs, ls, places) == 0
  {
    if places > 0 {
      NothingPicked(xs, ls, places - 1);
    }
  }

  /** The reported count is the number of reservations over all entries of the configuration. */
  lemma CountIsTotal(v6: V6Text, parsed: seq<ParsedSubnet>, rs: seq<Reservation>)
    ensures CountPlaced(v6, parsed, rs) == Lengths(rs, Landings(v6, parsed, rs), |parsed|)
  {
    PickedIsPartition(rs, Landings(v6, parsed, rs), |parsed|);
  }

  lemma LandsOnChosen(v6: V6Text, db: Db, r: Reservation, m: nat)
    requires Valid(db) && m < |ParsedSubnets(v6, db, ListSubnets(db))|
    ensures var parsed := ParsedSubnets(v6, db, ListSubnets(db));
            Lands(v6, parsed, r) == Some(m) <==>
            ParseAddr(v6, r.ip).Some? && ChosenSubnet(v6, db, ParseAddr(v6, r.ip).value, parsed[m].id)
  {
    var parsed := ParsedSubnets(v6, db, ListSubnets(db));
    if ParseAddr(v6, r.ip).Some? {
      var a := ParseAddr(v6, r.ip).value;
      SubnetForMeaning(v6, db, a);
      ParsedAscending(v6, db);
      var first := FirstMatch(parsed, a);
      if first.Some? && parsed[first.value].id == parsed[m].id {
        DistinctPositions(db, parsed, first.value, m);
      }
    }
  }

  lemma DistinctPositions(db: Db, parsed: seq<ParsedSubnet>, j: nat, k: nat)
    requires j < |parsed| && k < |parsed| && parsed[j].id == parsed[k].id
    requires forall a :: 0 <= a < |parsed| ==> parsed[a].id in db.subnets
    requires forall a, b :: 0 <= a < b < |parsed| ==> Less(db.subnets[parsed[a].id].cidr, db.subnets[parsed[b].id].cidr)
    ensures j == k
  {
    var cidr := db.subnets[parsed[j].id].cidr;
    LessTotal(cidr, cidr);
  }

  lemma InEntryIff(v6: V6Text, parsed: seq<ParsedSubnet>, rs: seq<Reservation>, r: Reservation, m: nat)
    ensures r in PlacedIn(v6, parsed, rs, m) <==> r in rs && Lands(v6, parsed, r) == Some(m)
  {
    var ls := Landings(v6, parsed, rs);
    var at := PickedPositions(rs, ls, m);
    if r in PlacedIn(v6, parsed, rs, m) {
      var x :| 0 <= x < |at| && PlacedIn(v6, parsed, rs, m)[x] == r;
      assert at[x] in at;
    }
    if r in rs && Lands(v6, parsed, r) == Some(m) {
      var k :| 0 <= k < |rs| && rs[k] == r;
      assert k in at;
      var x :| 0 <= x < |at| && at[x] == k;
      assert PlacedIn(v6, parsed, rs, m)[x] == r;
    }
  }

  lemma ReservedInChosen(v6: V6Text, db: Db, ids: seq<int>, cfg: seq<Subnet4>, count: nat, i: int, m: nat)
    requires Valid(db) && IsConfig(v6, db, ids, cfg, count) && IsReserved(db, i) && m < |cfg|
    ensures ReservationOf(db, i) in cfg[m].reservations <==>
            ParseAddr(v6, db.ips[i].ip).Some? && ChosenSubnet(v6, db, ParseAddr(v6, db.ips[i].ip).value, cfg[m].id)
  {
    var parsed, rs, r := ParsedSubnets(v6, db, ListSubnets(db)), ReservationsOf(db, ids), ReservationOf(db, i);
    LandsOnChosen(v6, db, r, m);
    InEntryIff(v6, parsed, rs, r, m);
    var k :| 0 <= k < |ids| && ids[k] == i;
    assert rs[k] == r;
  }

  /** What an entry says of a row: the MAC of its NIC, its address as text, and the name of its host. */
  predicate Describes(db: Db, r: Reservation, i: int) {
    && i in db.ips && db.ips[i].kind == Reserved && db.ips[i].nic in db.nics && db.nics[db.ips[i].nic].host in db.hosts
    && r.mac == db.nics[db.ips[i].nic].mac && r.ip == db.ips[i].ip && r.hostName == db.hosts[db.nics[db.ips[i].nic].host].name
  }

  lemma ReadDescribes(db: Db, ids: seq<int>, r: Reservation)
    requires Valid(db) && ReservedListing(db, ids)
    ensures r in ReservationsOf(db, ids) <==> exists i :: Describes(db, r, i)
  {
    var rs := ReservationsOf(db, ids);
    if r in rs {
      var k :| 0 <= k < |rs| && rs[k] == r;
      assert IsReserved(db, ids[k]);
      assert Describes(db, r, ids[k]);
    }
    if i :| Describes(db, r, i) {
      assert IsReserved(db, i);
      var k :| 0 <= k < |ids| && ids[k] == i;
      assert rs[k] == r;
    }
  }

  /** An entry is one subnet's, with its CIDR, pool and options. */
  lemma EntryOfSubnet(v6: V6Text, db: Db, ids: seq<int>, cfg: seq<Subnet4>, count: nat, m: nat)
    requires Valid(db) && IsConfig(v6, db, ids, cfg, count) && m < |cfg|
    ensures cfg[m].id in db.subnets
    ensures var row := db.subnets[cfg[m].id];
            cfg[m].subnet == row.cidr && cfg[m].pools == PoolsOf(v6, row) && cfg[m].options == OptionsOf(row)
  {
    assert ParsedSubnets(v6, db, ListSubnets(db))[m].id == cfg[m].id;
  }

  /** The reservations of an entry describe the reserved rows whose address its subnet was chosen for, and nothing else. */
  lemma EntryReservations(v6: V6Text, db: Db, ids: seq<int>, cfg: seq<Subnet4>, count: nat, m: nat, r: Reservation)
    requires Valid(db) && IsConfig(v6, db, ids, cfg, count) && m < |cfg|
    ensures r in cfg[m].reservations <==>
            (exists i :: Describes(db, r, i)) && ParseAddr(v6, r.ip).Some? && ChosenSubnet(v6, db, ParseAddr(v6, r.ip).value, cfg[m].id)
  {
    InEntryIff(v6, ParsedSubnets(v6, db, ListSubnets(db)), ReservationsOf(db, ids), r, m);
    LandsOnChosen(v6, db, r, m);
    ReadDescribes(db, ids, r);
  }

  /**
   A reserved address is in the entry of the one subnet chosen for it, and for a host that takes part in DNS
   this is the subnet the synthesizer files its records under.
   */
  lemma KeaAgreesWithDns(v6: V6Text, db: Db, ids: seq<int>, cfg: seq<Subnet4>, count: nat, i: int, m: nat)
    requires Valid(db) && IsConfig(v6, db, ids, cfg, count) && IsReserved(db, i) && m < |cfg|
    ensures ReservationOf(db, i) in cfg[m].reservations <==>
            ParseAddr(v6, db.ips[i].ip).Some? && ChosenSubnet(v6, db, ParseAddr(v6, db.ips[i].ip).value, cfg[m].id)
    ensures db.hosts[db.nics[db.ips[i].nic].host].dnsEnabled ==>
              (ReservationOf(db, i) in cfg[m].reservations <==> SynthMeaning.OnSubnet(v6, db, i, cfg[m].id))
  {
    ReservedInChosen(v6, db, ids, cfg, count, i, m);
  }

  /** There is one entry for each subnet whose CIDR parses, and no other. */
  lemma ConfigListsParseableSubnets(v6: V6Text, db: Db, ids: seq<int>, cfg: seq<Subnet4>, count: nat, s: int)
    requires Valid(db) && IsConfig(v6, db, ids, cfg, count)
    ensures (exists m :: 0 <= m < |cfg| && cfg[m].id == s) <==>
            s in db.subnets && ParsePrefix(v6, db.subnets[s].cidr).Some?
  {
    var parsed, listed := ParsedSubnets(v6, db, ListSubnets(db)), ListSubnets(db);
    if s in db.subnets && ParsePrefix(v6, db.subnets[s].cidr).Some? {
      var k :| 0 <= k < |listed| && listed[k] == s;
      var m := ParseableIsParsed(PrefixOf(v6, db), listed, k);
      assert cfg[m].id == s;
    }
    if m :| 0 <= m < |cfg| && cfg[m].id == s {
      ParsedIsListed(PrefixOf(v6, db), listed, m);
    }
  }

  /** Entries come in the order of their CIDR texts, which are all different. */
  lemma EntriesAreSorted(v6: V6Text, db: Db, ids: seq<int>, cfg: seq<Subnet4>, count: nat, j: nat, k: nat)
    requires Valid(db) && IsConfig(v6, db, ids, cfg, count) && j < k < |cfg|
    ensures Less(cfg[j].subnet, cfg[k].subnet)
  {
    ParsedAscending(v6, db);
  }

  /** The reservations of an entry keep the order of the query: by address text. */
  lemma ReservationsStaySorted(v6: V6Text, db: Db, ids: seq<int>, cfg: seq<Subnet4>, count: nat, m: nat)
    requires Valid(db) && IsConfig(v6, db, ids, cfg, count) && m < |cfg|
    ensures forall a, b :: 0 <= a < b < |cfg[m].reservations| ==>
              !Less(cfg[m].reservations[b].ip, cfg[m].reservations[a].ip)
  {
    var parsed, rs := ParsedSubnets(v6, db, ListSubnets(db)), ReservationsOf(db, ids);
    var at := PickedPositions(rs, Landings(v6, parsed, rs), m);
    var placed := PlacedIn(v6, parsed, rs, m);
    forall a, b | 0 <= a < b < |placed|
      ensures !Less(placed[b].ip, placed[a].ip)
    {
      assert rs[at[a]] == placed[a] && rs[at[b]] == placed[b];
      assert placed[a].ip == db.ips[ids[at[a]]].ip && placed[b].ip == db.ips[ids[at[b]]].ip;
    }
  }
}
