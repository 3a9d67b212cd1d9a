/**
 From the tables to the provider: after a synthesizer run and enough clean passes, a remote zone holds exactly the
 records that the addresses, the pointers and the manual records of the tables before the run call for.
 */
module EndToEnd {
  import opened Basics
  import opened Ordering
  import opened Net
  import opened Database
  import opened Synth
  import opened SynthMeaning
  import opened Traversal
  import opened Derivation
  import opened Apply
  import opened Run
  import opened StoreInvariant
  import opened Publishing
  import opened Remote
  import opened Reconcile
  import opened Convergence

  // ---------- What a zone should hold ----------

  function KeyFor(fqdn: string, rtype: RecordType, value: string): string {
    RecordKey(Record(fqdn, TypeName(rtype), value, 0, ""))
  }

  /** Row `i` names `q`, no manual record overrides that name and type, and `q` is filed under `zone`. */
  ghost predicate NamedIn(v6: V6Text, pre: Db, zone: int, q: Key, i: int)
    requires Valid(Inventory(pre))
  {
    q.rtype != PTR && !Overridden(pre, q) && (exists z :: Names(v6, Inventory(pre), i, z, q)) &&
    exists j :: FirstNaming(v6, Inventory(pre), j, zone, q)
  }

  ghost predicate PointedIn(v6: V6Text, pre: Db, zone: int, q: Key, i: int)
    requires Valid(Inventory(pre))
  {
    q.rtype == PTR && !Overridden(pre, q) && FirstPointing(v6, Inventory(pre), i, zone, q)
  }

  ghost predicate ManualIn(db: Db, zone: int, r: int) {
    r in db.records && db.records[r].source == Manual && db.records[r].zone == Some(zone) && db.records[r].key.target != ""
  }

  /** Row `i` contributes the key: as an address of a name, or as the address shown by a pointer. */
  ghost predicate CalledForByRow(v6: V6Text, pre: Db, zone: int, k: string, q: Key, i: int)
    requires Valid(Inventory(pre))
  {
    (NamedIn(v6, pre, zone, q, i) || PointedIn(v6, pre, zone, q, i)) &&
    i in pre.ips && k == KeyFor(q.fqdn, q.rtype, pre.ips[i].ip)
  }

  ghost predicate CalledForByHand(pre: Db, zone: int, k: string, r: int) {
    ManualIn(pre, zone, r) && k == KeyFor(pre.records[r].key.fqdn, pre.records[r].key.rtype, pre.records[r].key.target)
  }

  ghost predicate CalledFor(v6: V6Text, pre: Db, zone: int, k: string)
    requires Valid(Inventory(pre))
  {
    (exists q, i :: CalledForByRow(v6, pre, zone, k, q, i)) || (exists r :: CalledForByHand(pre, zone, k, r))
  }

  // ---------- A run makes the store want exactly that ----------

  lemma BeforeOneWay(db: Db, i: int, z: int, j: int, y: int)
    requires Valid(db) && SiteBefore(db, i, z, j, y)
    ensures !SiteBefore(db, j, y, i, z)
  {
    LessTotal(db.hosts[HostOf(db, i)].name, db.hosts[HostOf(db, j)].name);
    LessTotal(db.nics[NicOf(db, i)].mac, db.nics[NicOf(db, j)].mac);
    LessTotal(db.ips[i].ip, db.ips[j].ip);
    if z in db.zones && y in db.zones {
      LessTotal(db.zones[z].name, db.zones[y].name);
    }
  }

  lemma OneFirstNaming(v6: V6Text, db: Db, i: int, z: int, j: int, y: int, q: Key)
    requires Valid(db) && FirstNaming(v6, db, i, z, q) && FirstNaming(v6, db, j, y, q)
    ensures i == j && z == y
  {
    if i != j || z != y {
      BeforeOneWay(db, i, z, j, y);
    }
  }

  lemma OneFirstPointing(v6: V6Text, db: Db, i: int, z: int, j: int, y: int, q: Key)
    requires Valid(db) && FirstPointing(v6, db, i, z, q) && FirstPointing(v6, db, j, y, q)
    ensures i == j && z == y
  {
    if i != j || z != y {
      BeforeOneWay(db, i, z, j, y);
    }
  }

  /** Everything a run from a good state leaves to reason with. */
  ghost predicate AfterRun(v6: V6Text, pre: Db, post: Db) {
    Good(v6, pre) && Good(v6, post) && Valid(Inventory(pre)) && Applied(pre, post, RunWants(v6, pre))
  }

  lemma RunIsAfterRun(v6: V6Text, pre: Db, post: Db)
    requires Good(v6, pre) && Applied(pre, post, RunWants(v6, pre))
    ensures AfterRun(v6, pre, post)
  {
    InventoryValid(pre);
    RunNeverConflicts(v6, pre);
    SynthesizeKeepsGood(v6, pre, post);
  }

  lemma AddressRowCalledFor(v6: V6Text, pre: Db, post: Db, zone: int, r: int, q: Key, b: Option<int>)
    requires AfterRun(v6, pre, post) && AutoRow(post, r, q) && q.rtype != PTR && Flattens(post, zone, r, b)
    ensures b.Some? && CalledForByRow(v6, pre, zone, KeyOfRow(RowOf(post, r, b)), q, b.value)
  {
    AutoRowIff(v6, pre, post, q);
    PublishedAddresses(v6, pre, post, r, q, b);
    AddressRecords(v6, Inventory(pre), q);
    var w := RowCarries(pre, post, RunWants(v6, pre), r, q);
    WantedIsDesired(v6, pre, RunWants(v6, pre), q);
    assert NamedIn(v6, pre, zone, q, b.value);
  }

  lemma PointerRowCalledFor(v6: V6Text, pre: Db, post: Db, zone: int, r: int, q: Key, b: Option<int>)
    requires AfterRun(v6, pre, post) && AutoRow(post, r, q) && q.rtype == PTR && Flattens(post, zone, r, b)
    ensures b.Some? && CalledForByRow(v6, pre, zone, KeyOfRow(RowOf(post, r, b)), q, b.value)
  {
    AutoRowIff(v6, pre, post, q);
    var i := PointerPublishedAsAddress(v6, pre, post, r, q, zone, b);
    assert PointedIn(v6, pre, zone, q, i);
  }

  lemma ManualRowCalledFor(v6: V6Text, pre: Db, post: Db, zone: int, r: int, b: Option<int>)
    requires AfterRun(v6, pre, post) && r in post.records && post.records[r].source == Manual && Flattens(post, zone, r, b)
    ensures CalledForByHand(pre, zone, KeyOfRow(RowOf(post, r, b)), r)
  {
    ManualPublishedAsWritten(v6, post, r, b);
    ManualRowsUntouched(pre, post, RunWants(v6, pre));
  }

  lemma NamedIsWanted(v6: V6Text, pre: Db, post: Tables, zone: int, q: Key, i: int)
    requires AfterRun(v6, pre, post) && NamedIn(v6, pre, zone, q, i)
    ensures i in pre.ips && Wants(post, zone, KeyFor(q.fqdn, q.rtype, pre.ips[i].ip))
  {
    var inv := Inventory(pre);
    AddressRecords(v6, inv, q);
    AutoRowIff(v6, pre, post, q);
    var r :| AutoRow(post, r, q);
    FiledUnder(v6, inv, q, Desired(v6, inv)[q], zone);
    PublishedAddresses(v6, pre, post, r, q, Some(i));
    assert Flattens(post, zone, r, Some(i));
    assert KeyOfRow(RowOf(post, r, Some(i))) == KeyFor(q.fqdn, q.rtype, pre.ips[i].ip);
  }

  lemma FiledUnder(v6: V6Text, db: Db, q: Key, w: Wanted, zone: int)
    requires Valid(db) && AddressRecordOf(v6, db, q, w) && exists j :: FirstNaming(v6, db, j, zone, q)
    ensures w.zone == zone
  {
    var i :| FirstNaming(v6, db, i, w.zone, q);
    var j :| FirstNaming(v6, db, j, zone, q);
    OneFirstNaming(v6, db, i, w.zone, j, zone, q);
  }

  lemma PointerRowBound(v6: V6Text, pre: Db, post: Db, zone: int, q: Key, i: int) returns (r: int)
    requires AfterRun(v6, pre, post) && PointedIn(v6, pre, zone, q, i)
    ensures AutoRow(post, r, q) && (r, i) in post.bindings && post.records[r].zone == Some(zone)
  {
    PointerRecords(v6, Inventory(pre), q);
    AutoRowIff(v6, pre, post, q);
    r :| AutoRow(post, r, q);
    var want := RunWants(v6, pre);
    var w := RowCarries(pre, post, want, r, q);
    var j := WantedPointer(v6, pre, want, q, w);
    OneFirstPointing(v6, Inventory(pre), i, zone, j, w.zone, q);
    assert w.bindings[0] == i;
  }

  lemma BoundRowIsWanted(post: Tables, zone: int, r: int, q: Key, i: int, text: string)
    requires AutoRow(post, r, q) && post.records[r].enabled && post.records[r].zone == Some(zone)
    requires (r, i) in post.bindings && i in post.ips && post.ips[i].ip == text != ""
    ensures Wants(post, zone, KeyFor(q.fqdn, q.rtype, text))
  {
    assert Flattens(post, zone, r, Some(i));
    assert KeyOfRow(RowOf(post, r, Some(i))) == KeyFor(q.fqdn, q.rtype, text);
  }

  lemma PointedIsWanted(v6: V6Text, pre: Db, post: Tables, zone: int, q: Key, i: int)
    requires AfterRun(v6, pre, post) && PointedIn(v6, pre, zone, q, i)
    ensures i in pre.ips && Wants(post, zone, KeyFor(q.fqdn, q.rtype, pre.ips[i].ip))
  {
    PointingRowHasText(v6, Inventory(pre), i, zone, q);
    var r := PointerRowBound(v6, pre, post, zone, q, i);
    BoundRowIsWanted(post, zone, r, q, i, pre.ips[i].ip);
  }

  lemma PointingRowHasText(v6: V6Text, db: Db, i: int, z: int, q: Key)
    requires Valid(db) && Points(v6, db, i, z, q)
    ensures i in db.ips && db.ips[i].ip != ""
  {
    EmptyTextIsNoAddress(v6);
    PointingRowKnown(v6, db, i, z, q);
  }

  lemma HandWrittenIsWanted(v6: V6Text, pre: Db, post: Tables, zone: int, r: int)
    requires AfterRun(v6, pre, post) && ManualIn(pre, zone, r)
    ensures Wants(post, zone, KeyFor(pre.records[r].key.fqdn, pre.records[r].key.rtype, pre.records[r].key.target))
  {
    ManualRowsUntouched(pre, post, RunWants(v6, pre));
    ManualPublishedAsWritten(v6, post, r, None);
    assert Flattens(post, zone, r, None);
  }

  lemma RowCalledFor(v6: V6Text, pre: Db, post: Tables, zone: int, r: int, b: Option<int>)
    requires AfterRun(v6, pre, post) && Flattens(post, zone, r, b)
    ensures CalledFor(v6, pre, zone, KeyOfRow(RowOf(post, r, b)))
  {
    var q := post.records[r].key;
    if post.records[r].source == Manual {
      ManualRowCalledFor(v6, pre, post, zone, r, b);
    } else if q.rtype == PTR {
      PointerRowCalledFor(v6, pre, post, zone, r, q, b);
    } else {
      AddressRowCalledFor(v6, pre, post, zone, r, q, b);
    }
  }

  lemma WantedIsCalledFor(v6: V6Text, pre: Db, post: Tables, zone: int, k: string)
    requires AfterRun(v6, pre, post) && Wants(post, zone, k)
    ensures CalledFor(v6, pre, zone, k)
  {
    var r, b :| Flattens(post, zone, r, b) && KeyOfRow(RowOf(post, r, b)) == k;
    RowCalledFor(v6, pre, post, zone, r, b);
  }

  lemma CalledForIsWanted(v6: V6Text, pre: Db, post: Tables, zone: int, k: string)
    requires AfterRun(v6, pre, post) && CalledFor(v6, pre, zone, k)
    ensures Wants(post, zone, k)
  {
    if q, i :| CalledForByRow(v6, pre, zone, k, q, i) {
      if q.rtype == PTR {
        PointedIsWanted(v6, pre, post, zone, q, i);
      } else {
        NamedIsWanted(v6, pre, post, zone, q, i);
      }
    } else {
      var r :| CalledForByHand(pre, zone, k, r);
      HandWrittenIsWanted(v6, pre, post, zone, r);
    }
  }

  lemma RunMakesStoreWant(v6: V6Text, pre: Db, post: Tables, zone: int)
    requires AfterRun(v6, pre, post)
    ensures forall k :: Wants(post, zone, k) <==> CalledFor(v6, pre, zone, k)
  {
    forall k
      ensures Wants(post, zone, k) <==> CalledFor(v6, pre, zone, k)
    {
      if Wants(post, zone, k) {
        WantedIsCalledFor(v6, pre, post, zone, k);
      }
      if CalledFor(v6, pre, zone, k) {
        CalledForIsWanted(v6, pre, post, zone, k);
      }
    }
  }

  lemma MirrorsWhatIsCalledFor(v6: V6Text, pre: Db, post: Tables, zone: int, passes: seq<Pass>, statuses: seq<ZoneStatus>)
    requires Valid(Inventory(pre)) && forall k :: Wants(post, zone, k) <==> CalledFor(v6, pre, zone, k)
    requires OkPasses(post, zone, passes, statuses) && |passes| >= 1
    ensures (forall k :: k in KeysOf(passes[|passes| - 1].post) <==> CalledFor(v6, pre, zone, k)) <==>
            forall k :: !CalledFor(v6, pre, zone, k) ==> |Copies(passes[0].pre, k)| <= |passes|
  {
    ZoneMirrorsStore(post, zone, passes, statuses);
  }

  /**
   The whole pipeline. From a good state, as every reachable one is: a run, and then one or more passes over the
   zone that are all reported OK. Afterwards the zone's keys are exactly those the tables before the run call
   for, iff no other key began with more copies than there were passes.
   */
  lemma ZoneHoldsWhatTablesCallFor(v6: V6Text, pre: Db, post: Tables, zone: int, passes: seq<Pass>, statuses: seq<ZoneStatus>)
    requires Good(v6, pre) && Applied(pre, post, RunWants(v6, pre))
    requires OkPasses(post, zone, passes, statuses) && |passes| >= 1
    ensures Valid(Inventory(pre))
    ensures (forall k :: k in KeysOf(passes[|passes| - 1].post) <==> CalledFor(v6, pre, zone, k)) <==>
            forall k :: !CalledFor(v6, pre, zone, k) ==> |Copies(passes[0].pre, k)| <= |passes|
  {
    RunIsAfterRun(v6, pre, post);
    RunMakesStoreWant(v6, pre, post, zone);
    MirrorsWhatIsCalledFor(v6, pre, post, zone, passes, statuses);
  }
}
