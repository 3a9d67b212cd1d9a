/**
 From the tables to either provider, with what it stores and lists taken into account: checks on the tables before a
 run under which every record the zone is to hold comes back under its own key, and what the zone then holds.
 */
module ToProviders {
  import opened Basics
  import opened Text
  import opened Net
  import opened Database
  import opened Synth
  import opened SynthMeaning
  import opened Apply
  import opened Run
  import opened Storage
  import opened StoreInvariant
  import opened EndToEnd
  import opened Publishing
  import opened Remote
  import opened Reconcile
  import opened Convergence
  import opened ProviderCodec
  import opened Encoded
  import opened EncodedReconcile
  import opened ProviderZones

  // ---------- Checks on the tables ----------

  /** No forward zone's name is empty or ends in a dot, and no address text ends in one. */
  predicate UndottedTables(db: Db) {
    && (forall l :: l in db.links && l.role == Forward && l.zone in db.zones ==>
          db.zones[l.zone].name != "" && Undotted(db.zones[l.zone].name))
    && (forall i :: i in db.ips ==> Undotted(db.ips[i].ip))
  }

  function AsWritten(rec: Rec): Record {
    Record(rec.key.fqdn, TypeName(rec.key.rtype), rec.key.target, rec.ttl, "")
  }

  /** Every manual record of the zone is one the provider keeps. */
  predicate ManualKept(db: Db, zone: int, keeps: Record -> bool) {
    forall r :: r in db.records && db.records[r].source == Manual && db.records[r].zone == Some(zone) ==> keeps(AsWritten(db.records[r]))
  }

  /** The provider keeps address records and pointers whose names and values have no final dot. */
  ghost predicate KeepsUndotted(keeps: Record -> bool) {
    forall r: Record ::
      (r.rtype == "A" || r.rtype == "AAAA" || r.rtype == "PTR") && Undotted(r.name) && Undotted(r.value) ==> keeps(r)
  }

  /** The types a manual record may have are exactly those both adapters send and list, and each is stored under its own name. */
  lemma ReconcilableTypes(name: string)
    ensures var types := {"A", "AAAA", "CNAME", "TXT", "MX", "PTR"};
            (TypeNamed(name).Some? <==> name in types) && (CfManaged(name) <==> name in types) && (ApiField(name).Some? <==> name in types)
    ensures forall d :: RdataToValue(name, d).Some? <==> TypeNamed(name).Some?
    ensures TypeNamed(name).Some? ==> TypeName(TypeNamed(name).value) == name
    ensures forall r: Record :: r.rtype == name && RdataParams(r).Some? ==> TypeNamed(name).Some?
  {
    forall d
      ensures RdataToValue(name, d).Some? <==> TypeNamed(name).Some?
    {
    }
  }

  // ---------- Every published row is kept ----------

  lemma UndottedEnd(front: string, name: string)
    requires name != "" && Undotted(name)
    ensures Undotted(front + "." + name)
  {
    var s := front + "." + name;
    assert s[|s| - 1] == name[|name| - 1];
  }

  lemma ReverseNameUndotted(a: Addr)
    ensures Undotted(ReverseName(a))
  {
    SplitReverseName(a);
    RawSuffixOfParts(ReverseName(a), ".", '.');
    var l := ReverseLabels(a);
    assert l[|l| - 1] == "arpa" && l[|l| - 1..] == ["arpa"];
    assert Split(".", '.') == ["", ""] by {
      SplitConcat("", "", '.');
    }
  }

  lemma NamedUndotted(v6: V6Text, db: Db, i: int, z: int, q: Key)
    requires Valid(db) && UndottedTables(db) && Names(v6, db, i, z, q)
    ensures Undotted(q.fqdn)
  {
    var s :| OnSubnet(v6, db, i, s) && Link(s, z, Forward) in db.links;
    UndottedEnd(LabelOf(db, i), db.zones[z].name);
  }

  lemma PointedUndotted(v6: V6Text, db: Db, i: int, z: int, q: Key)
    requires Valid(db) && Points(v6, db, i, z, q)
    ensures Undotted(q.fqdn)
  {
    var f :| PointsTo(v6, db, i, z, f) && q == PtrKey(v6, db, i, f);
    ReverseNameUndotted(AddrOf(v6, db, i));
  }

  lemma InventoryUndotted(pre: Db)
    requires UndottedTables(pre)
    ensures UndottedTables(Inventory(pre))
  {
  }

  lemma CalledRowUndotted(v6: V6Text, pre: Db, zone: int, k: string, q: Key, i: int)
    requires Valid(Inventory(pre)) && UndottedTables(pre) && CalledForByRow(v6, pre, zone, k, q, i)
    ensures Undotted(q.fqdn) && Undotted(pre.ips[i].ip)
  {
    InventoryUndotted(pre);
    if NamedIn(v6, pre, zone, q, i) {
      var z :| Names(v6, Inventory(pre), i, z, q);
      NamedUndotted(v6, Inventory(pre), i, z, q);
    } else {
      PointedUndotted(v6, Inventory(pre), i, zone, q);
    }
  }

  lemma AutoRowKept(v6: V6Text, pre: Db, post: Db, zone: int, r: int, b: Option<int>, keeps: Record -> bool)
    requires AfterRun(v6, pre, post) && UndottedTables(pre) && KeepsUndotted(keeps)
    requires Flattens(post, zone, r, b) && post.records[r].source == Auto
    ensures keeps(Wanting(RowOf(post, r, b)))
  {
    var q, row := post.records[r].key, RowOf(post, r, b);
    AutoRowCalledFor(v6, pre, post, zone, r, q, b);
    CalledRowUndotted(v6, pre, zone, KeyOfRow(row), q, b.value);
    KeptByType(keeps, row);
  }

  lemma KeptByType(keeps: Record -> bool, row: Row)
    requires KeepsUndotted(keeps) && (row.rtype == A || row.rtype == AAAA || row.rtype == PTR)
    requires Undotted(row.name) && Undotted(row.value)
    ensures keeps(Wanting(row))
  {
    assert Wanting(row).rtype == TypeName(row.rtype);
  }

  lemma AutoRowCalledFor(v6: V6Text, pre: Db, post: Db, zone: int, r: int, q: Key, b: Option<int>)
    requires AfterRun(v6, pre, post) && Flattens(post, zone, r, b) && post.records[r].source == Auto && q == post.records[r].key
    ensures b.Some? && CalledForByRow(v6, pre, zone, KeyOfRow(RowOf(post, r, b)), q, b.value)
    ensures (q.rtype == A || q.rtype == AAAA || q.rtype == PTR) && post.ips == pre.ips
  {
    assert AutoRow(post, r, q) && AutoShape(v6, post, r);
    if q.rtype == PTR {
      PointerRowCalledFor(v6, pre, post, zone, r, q, b);
    } else {
      AddressRowCalledFor(v6, pre, post, zone, r, q, b);
    }
  }

  lemma ManualRowKept(v6: V6Text, pre: Db, post: Db, zone: int, r: int, b: Option<int>, keeps: Record -> bool)
    requires AfterRun(v6, pre, post) && ManualKept(pre, zone, keeps)
    requires Flattens(post, zone, r, b) && post.records[r].source == Manual
    ensures keeps(Wanting(RowOf(post, r, b)))
  {
    ManualPublishedAsWritten(v6, post, r, b);
    ManualRowsUntouched(pre, post, RunWants(v6, pre));
    assert Wanting(RowOf(post, r, b)) == AsWritten(pre.records[r]);
  }

  lemma RowKept(v6: V6Text, pre: Db, post: Db, zone: int, r: int, b: Option<int>, keeps: Record -> bool)
    requires AfterRun(v6, pre, post) && UndottedTables(pre) && KeepsUndotted(keeps) && ManualKept(pre, zone, keeps)
    requires Flattens(post, zone, r, b)
    ensures keeps(Wanting(RowOf(post, r, b)))
  {
    if post.records[r].source == Manual {
      ManualRowKept(v6, pre, post, zone, r, b, keeps);
    } else {
      AutoRowKept(v6, pre, post, zone, r, b, keeps);
    }
  }

  lemma DesiredRow(db: Tables, zone: int, des: map<string, Record>, k: string) returns (r: int, b: Option<int>)
    requires DesiredOf(db, zone, des) && k in des
    ensures Flattens(db, zone, r, b) && des[k] == Wanting(RowOf(db, r, b))
  {
    assert FromLastRow(db, zone, k, des[k]);
    r, b :| Flattens(db, zone, r, b) && KeyOfRow(RowOf(db, r, b)) == k && des[k] == Wanting(RowOf(db, r, b));
  }

  lemma DesiredKept(v6: V6Text, pre: Db, post: Tables, zone: int, des: map<string, Record>, keeps: Record -> bool)
    requires AfterRun(v6, pre, post) && UndottedTables(pre) && KeepsUndotted(keeps) && ManualKept(pre, zone, keeps)
    requires DesiredOf(post, zone, des)
    ensures forall k :: k in des ==> keeps(des[k])
  {
    forall k | k in des
      ensures keeps(des[k])
    {
      var r, b := DesiredRow(post, zone, des, k);
      RowKept(v6, pre, post, zone, r, b, keeps);
    }
  }

  /** Keys agree with the desired ones exactly when they are those called for. */
  lemma DesiredIsCalledFor(v6: V6Text, pre: Db, post: Tables, zone: int, des: map<string, Record>)
    requires AfterRun(v6, pre, post) && DesiredOf(post, zone, des)
    ensures forall k :: k in des.Keys <==> CalledFor(v6, pre, zone, k)
  {
    RunMakesStoreWant(v6, pre, post, zone);
  }

  lemma SameByMembers(keys: set<string>, want: set<string>, called: iset<string>)
    requires forall k :: k in want <==> k in called
    ensures keys == want <==> forall k :: k in keys <==> k in called
  {
    if forall k :: k in keys <==> k in called {
      assert forall k :: k in keys <==> k in want;
    }
  }

  // ---------- Technitium ----------

  function TechKeeping(): Record -> bool {
    r => TechKeeps(r)
  }

  lemma TechKeepsUndotted()
    ensures KeepsUndotted(TechKeeping())
  {
  }

  lemma TechBackIgnoresTtl(absolute: bool, x: Record, ttl: int)
    ensures BackKey(TechCodec(absolute), x.(ttl := ttl)) == BackKey(TechCodec(absolute), x)
  {
    var y := x.(ttl := ttl);
    ParamsIgnoreTtl(x, ttl);
    if RdataParams(x).Some? && Served(x.rtype, RdataParams(x).value, absolute).Some? {
      TechRoundTrip(x, absolute, Served(x.rtype, RdataParams(x).value, absolute).value);
      TechRoundTrip(y, absolute, Served(x.rtype, RdataParams(x).value, absolute).value);
    }
  }

  lemma ParamsIgnoreTtl(x: Record, ttl: int)
    ensures RdataParams(x.(ttl := ttl)) == RdataParams(x)
  {
  }

  lemma TechTtlBlind(absolute: bool)
    ensures TtlBlind(TechCodec(absolute))
  {
    forall x: Record, y: Record | x.(ttl := 0) == y.(ttl := 0)
      ensures BackKey(TechCodec(absolute), x) == BackKey(TechCodec(absolute), y)
    {
      TechBackIgnoresTtl(absolute, x, y.ttl);
      assert x.(ttl := y.ttl) == y;
    }
  }

  /**
   From a good state: a run, and one or more OK calls on a Technitium zone. If the forward zones and the addresses have
   no final dot and Technitium keeps the manual records, the keys listed at the end are exactly those the tables call
   for, iff no other key began with more entries than there were calls.
   */
  lemma TechnitiumHoldsWhatTablesCallFor(v6: V6Text, pre: Db, post: Tables, zone: int, absolute: bool,
                                         calls: seq<EncodedAccount<TechRecord>>, statuses: seq<ZoneStatus>)
    requires Good(v6, pre) && Applied(pre, post, RunWants(v6, pre))
    requires UndottedTables(pre) && ManualKept(pre, zone, TechKeeping())
    requires OkCalls(TechCodec(absolute), post, zone, calls, statuses) && |calls| >= 1
    ensures Valid(Inventory(pre))
    ensures (forall k :: k in KeysOf(Listing(TechCodec(absolute), calls[|calls| - 1].post)) <==> CalledFor(v6, pre, zone, k)) <==>
            forall k :: !CalledFor(v6, pre, zone, k) ==> |Copies(Listing(TechCodec(absolute), calls[0].pre), k)| <= |calls|
  {
    var c, n, des := TechCodec(absolute), |calls|, calls[0].des;
    RunIsAfterRun(v6, pre, post);
    TechTtlBlind(absolute);
    OkCallsArePasses(c, post, zone, calls, statuses);
    DesiredIsWellKeyed(post, zone, des);
    TechKeepsUndotted();
    DesiredKept(v6, pre, post, zone, des, TechKeeping());
    TechnitiumConvergesIff(absolute, SeriesOf(calls), des, n);
    assert SeriesOf(calls).zones[n - 1 + 1] == calls[n - 1].post;
    DesiredIsCalledFor(v6, pre, post, zone, des);
    SameByMembers(KeysOf(Listing(c, calls[n - 1].post)), des.Keys, iset k | CalledFor(v6, pre, zone, k));
  }

  // ---------- Cloudflare ----------

  function CfKeeping(d: Display): Record -> bool {
    r => CfKeeps(r, d)
  }

  lemma CfKeepsUndotted(d: Display)
    requires !d.content
    ensures KeepsUndotted(CfKeeping(d))
  {
  }

  lemma CfBackIgnoresTtl(d: Display, x: Record, ttl: int)
    ensures BackKey(CfCodec(d), x.(ttl := ttl)) == BackKey(CfCodec(d), x)
  {
  }

  lemma CfTtlBlind(d: Display)
    ensures TtlBlind(CfCodec(d))
  {
    forall x: Record, y: Record | x.(ttl := 0) == y.(ttl := 0)
      ensures BackKey(CfCodec(d), x) == BackKey(CfCodec(d), y)
    {
      CfBackIgnoresTtl(d, x, y.ttl);
      assert x.(ttl := y.ttl) == y;
    }
  }

  /** The same for a Cloudflare zone, whose server shows CNAME and PTR contents as sent. */
  lemma CloudflareHoldsWhatTablesCallFor(v6: V6Text, pre: Db, post: Tables, zone: int, d: Display,
                                         calls: seq<EncodedAccount<CfRecord>>, statuses: seq<ZoneStatus>)
    requires Good(v6, pre) && Applied(pre, post, RunWants(v6, pre))
    requires !d.content && UndottedTables(pre) && ManualKept(pre, zone, CfKeeping(d))
    requires OkCalls(CfCodec(d), post, zone, calls, statuses) && |calls| >= 1
    ensures Valid(Inventory(pre))
    ensures (forall k :: k in KeysOf(Listing(CfCodec(d), calls[|calls| - 1].post)) <==> CalledFor(v6, pre, zone, k)) <==>
            forall k :: !CalledFor(v6, pre, zone, k) ==> |Copies(Listing(CfCodec(d), calls[0].pre), k)| <= |calls|
  {
    var c, n, des := CfCodec(d), |calls|, calls[0].des;
    RunIsAfterRun(v6, pre, post);
    CfTtlBlind(d);
    OkCallsArePasses(c, post, zone, calls, statuses);
    DesiredIsWellKeyed(post, zone, des);
    CfKeepsUndotted(d);
    DesiredKept(v6, pre, post, zone, des, CfKeeping(d));
    CloudflareConvergesIff(d, SeriesOf(calls), des, n);
    assert SeriesOf(calls).zones[n - 1 + 1] == calls[n - 1].post;
    DesiredIsCalledFor(v6, pre, post, zone, des);
    SameByMembers(KeysOf(Listing(c, calls[n - 1].post)), des.Keys, iset k | CalledFor(v6, pre, zone, k));
  }
}
