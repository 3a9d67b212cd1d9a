/**
 What the flattening query publishes right after a synthesizer run, said of the tables before the run. A bound address
 takes the place of a record's target whatever the type, and automatic PTR records are bound.
 */
module Publishing {
  import opened Basics
  import opened Text
  import opened Net
  import opened Database
  import opened Synth
  import opened SynthMeaning
  import opened Traversal
  import opened Derivation
  import opened Apply
  import opened Run
  import opened StoreInvariant

  // ---------- What gets published ----------

  /** A manual record is published once, as its target, if that is not empty; nothing is ever bound to it. */
  lemma ManualPublishedAsWritten(v6: V6Text, db: Db, r: int, b: Option<int>)
    requires Good(v6, db) && r in db.records && db.records[r].source == Manual && db.records[r].zone.Some?
    ensures Flattens(db, db.records[r].zone.value, r, b) <==> b.None? && db.records[r].key.target != ""
  {
  }

  lemma EmptyTextIsNoAddress(v6: V6Text)
    ensures ParseAddr(v6, "") == None
  {
  }

  lemma BoundRowsFlatten(v6: V6Text, db: Db, r: int, k: Key, zone: int, b: Option<int>)
    requires Good(v6, db) && AutoRow(db, r, k) && k.rtype != PTR && db.records[r].zone == Some(zone)
    ensures Flattens(db, zone, r, b) <==> b.Some? && (r, b.value) in db.bindings
  {
    assert AutoShape(v6, db, r);
    EmptyTextIsNoAddress(v6);
    match b
    case None =>
    case Some(i) =>
      if (r, i) in db.bindings {
        assert i in db.ips && ParseAddr(v6, db.ips[i].ip).Some?;
        assert RowOf(db, r, b).value == db.ips[i].ip != "";
      }
  }

  lemma AddressIsBound(v6: V6Text, db: Db, k: Key, w: Wanted, i: int)
    requires Valid(db) && AddressRecordOf(v6, db, k, w)
    ensures i in w.bindings <==> exists z :: Names(v6, db, i, z, k)
  {
  }

  /** After a run, the addresses published for an automatic A or AAAA key are those of the rows that name it. */
  lemma PublishedAddresses(v6: V6Text, pre: Db, post: Db, r: int, k: Key, b: Option<int>)
    requires Good(v6, pre) && Good(v6, post) && Applied(pre, post, RunWants(v6, pre))
    requires AutoRow(post, r, k) && k.rtype != PTR
    ensures Valid(Inventory(pre)) && k in Desired(v6, Inventory(pre))
    ensures var zone := Desired(v6, Inventory(pre))[k].zone;
            Flattens(post, zone, r, b) <==> b.Some? && exists z :: Names(v6, Inventory(pre), b.value, z, k)
  {
    InventoryValid(pre);
    AutoRowIff(v6, pre, post, k);
    var want := RunWants(v6, pre);
    var w := RowCarries(pre, post, want, r, k);
    AddressRecords(v6, Inventory(pre), k);
    BoundRowsFlatten(v6, post, r, k, w.zone, b);
    if b.Some? {
      AddressIsBound(v6, Inventory(pre), k, w, b.value);
    }
  }

  lemma RowCarries(pre: Db, post: Db, want: map<Key, Wanted>, r: int, k: Key) returns (w: Wanted)
    requires Applied(pre, post, want) && AutoRow(post, r, k)
    ensures k in want && w == want[k] && post.records[r].zone == Some(w.zone)
    ensures forall i :: (r, i) in post.bindings <==> i in w.bindings
  {
    AutoRowsAreWanted(pre, post, want);
    w := want[k];
  }

  lemma WantedTtl(v6: V6Text, db: Db, k: Key, w: Wanted)
    requires Valid(db) && k in Desired(v6, db) && w == Desired(v6, db)[k]
    ensures w.zone in db.zones && w.ttl == db.zones[w.zone].defaultTtl
  {
    if k.rtype == PTR {
      PointerRecords(v6, db, k);
    } else {
      AddressRecords(v6, db, k);
    }
  }

  lemma AutoRowTtl(v6: V6Text, pre: Db, post: Db, want: map<Key, Wanted>, r: int, k: Key)
    requires Valid(pre) && want == RunWants(v6, pre) && Applied(pre, post, want) && AutoRow(post, r, k)
    ensures post.records[r].zone.Some? && post.records[r].zone.value in post.zones
    ensures post.records[r].ttl == post.zones[post.records[r].zone.value].defaultTtl
  {
    AutoRowsAreWanted(pre, post, want);
    WantedIsDesired(v6, pre, want, k);
    WantedTtl(v6, Inventory(pre), k, want[k]);
  }

  /** After a run, whatever is published of an automatic record carries the default TTL of the zone it is published in. */
  lemma PublishedTtl(v6: V6Text, pre: Db, post: Db, r: int, k: Key, zone: int, b: Option<int>)
    requires Valid(pre) && Valid(post) && Applied(pre, post, RunWants(v6, pre))
    requires AutoRow(post, r, k) && Flattens(post, zone, r, b)
    ensures zone in post.zones && RowOf(post, r, b).ttl == post.zones[zone].defaultTtl
  {
    AutoRowTtl(v6, pre, post, RunWants(v6, pre), r, k);
  }

  lemma WantedIsDesired(v6: V6Text, pre: Db, want: map<Key, Wanted>, k: Key)
    requires Valid(pre) && want == RunWants(v6, pre) && k in want
    ensures Valid(Inventory(pre)) && k in Desired(v6, Inventory(pre)) && Desired(v6, Inventory(pre))[k] == want[k]
  {
    InventoryValid(pre);
  }

  lemma WantedPointer(v6: V6Text, pre: Db, want: map<Key, Wanted>, k: Key, w: Wanted) returns (i: int)
    requires Valid(pre) && want == RunWants(v6, pre) && k in want && w == want[k] && k.rtype == PTR
    ensures Valid(Inventory(pre)) && w.bindings == [i] && FirstPointing(v6, Inventory(pre), i, w.zone, k)
  {
    WantedIsDesired(v6, pre, want, k);
    PointerRecords(v6, Inventory(pre), k);
    i := w.bindings[0];
  }

  lemma OnlyBinding(db: Db, r: int, ids: seq<int>, only: int, zone: int, b: Option<int>)
    requires Valid(db) && ids == [only] && (forall i :: (r, i) in db.bindings <==> i in ids) && Flattens(db, zone, r, b)
    ensures b == Some(only) && only in db.ips && RowOf(db, r, b).value == db.ips[only].ip
  {
    assert only in ids;
    assert (r, only) in db.bindings;
    if b.Some? {
      assert (r, b.value) in db.bindings;
    }
  }

  /**
   An automatic PTR, right after a run, is published once: as the address of the first row that points with its
   name and target, in place of the target.
   */
  lemma PointerPublishedAsAddress(v6: V6Text, pre: Db, post: Db, r: int, k: Key, zone: int, b: Option<int>)
    returns (i: int)
    requires Valid(pre) && Valid(post) && Applied(pre, post, RunWants(v6, pre))
    requires AutoRow(post, r, k) && k.rtype == PTR && Flattens(post, zone, r, b)
    ensures Valid(Inventory(pre)) && FirstPointing(v6, Inventory(pre), i, zone, k)
    ensures b == Some(i) && i in post.ips && RowOf(post, r, b).value == post.ips[i].ip == pre.ips[i].ip
  {
    var want := RunWants(v6, pre);
    var w := RowCarries(pre, post, want, r, k);
    i := WantedPointer(v6, pre, want, k, w);
    OnlyBinding(post, r, w.bindings, i, zone, b);
  }

  lemma PointingTarget(v6: V6Text, db: Db, i: int, z: int, k: Key) returns (f: int)
    requires Valid(db) && Points(v6, db, i, z, k)
    ensures PointsTo(v6, db, i, z, f) && f in db.zones && k.target == LabelOf(db, i) + "." + db.zones[f].name
  {
    f :| PointsTo(v6, db, i, z, f) && k == PtrKey(v6, db, i, f);
  }

  /**
   So it is published as its target exactly when the text of the address it points from is the name it points to:
   the label of the row's host, a dot, and the least-named forward zone of the row's subnet.
   */
  lemma PointerShowsTargetIff(v6: V6Text, pre: Db, post: Db, r: int, k: Key, zone: int, b: Option<int>)
    returns (i: int, f: int)
    requires Valid(pre) && Valid(post) && Applied(pre, post, RunWants(v6, pre))
    requires AutoRow(post, r, k) && k.rtype == PTR && Flattens(post, zone, r, b)
    ensures Valid(Inventory(pre)) && FirstPointing(v6, Inventory(pre), i, zone, k) && PointsTo(v6, Inventory(pre), i, zone, f)
    ensures RowOf(post, r, b).value == k.target <==>
            LabelOf(Inventory(pre), i) + "." + pre.zones[f].name == pre.ips[i].ip
  {
    i := PointerPublishedAsAddress(v6, pre, post, r, k, zone, b);
    f := PointingTarget(v6, Inventory(pre), i, zone, k);
  }

  // ---------- When no name is an address ----------

  /**
   A check on the tables before the run: no label of a host holds a colon, and no forward zone's name is empty or
   ends in a digit, as is so for every name registered in the DNS.
   */
  predicate OrdinaryNames(db: Db) {
    && (forall h :: h in db.hosts ==>
          ':' !in (if db.hosts[h].dnsName != "" then db.hosts[h].dnsName else db.hosts[h].name))
    && (forall l :: l in db.links && l.role == Forward && l.zone in db.zones ==>
          var name := db.zones[l.zone].name; name != "" && !IsDigit(name[|name| - 1]))
  }

  lemma {:induction false} FirstMarkIsNoColon(leaf: string, rest: string)
    requires ':' !in leaf
    ensures FirstMark(leaf + "." + rest) != Some(':')
  {
    if leaf != "" {
      assert (leaf + "." + rest)[1..] == leaf[1..] + "." + rest;
      FirstMarkIsNoColon(leaf[1..], rest);
    }
  }

  lemma V4EndsInDigit(o: Octets4)
    ensures PrintV4(o) != "" && IsDigit(PrintV4(o)[|PrintV4(o)| - 1])
  {
    var parts, n := OctetParts(o), PrintNat(o[3]);
    PrintNatCanonical(o[3]);
    JoinConcat(parts[..3], parts[3..], ".");
    assert parts[..3] + parts[3..] == parts && parts[3..] == [n];
    var s, front := PrintV4(o), Join(parts[..3], ".") + ".";
    assert s == front + n;
    assert s[|s| - 1] == n[|n| - 1];
  }

  lemma NameIsNoAddress(v6: V6Text, leaf: string, zone: string)
    requires ':' !in leaf && zone != "" && !IsDigit(zone[|zone| - 1])
    ensures ParseAddr(v6, leaf + "." + zone) == None
  {
    var s := leaf + "." + zone;
    FirstMarkIsNoColon(leaf, zone);
    assert s[|s| - 1] == zone[|zone| - 1];
    if ParseV4(s).Some? {
      ParseV4Exact(s, ParseV4(s).value);
      V4EndsInDigit(ParseV4(s).value);
    }
  }

  lemma ForwardNameIsNoAddress(v6: V6Text, db: Db, leaf: string, s: int, f: int)
    requires OrdinaryNames(db) && Link(s, f, Forward) in db.links && f in db.zones && ':' !in leaf
    ensures ParseAddr(v6, leaf + "." + db.zones[f].name) == None
  {
    NameIsNoAddress(v6, leaf, db.zones[f].name);
  }

  lemma LabelHasNoColon(db: Db, i: int)
    requires Valid(db) && OrdinaryNames(db) && i in db.ips
    ensures ':' !in LabelOf(db, i)
  {
    assert db.nics[db.ips[i].nic].host in db.hosts;
  }

  lemma PointedNameIsNoAddress(v6: V6Text, db: Db, i: int, z: int, f: int)
    requires Valid(db) && OrdinaryNames(db) && PointsTo(v6, db, i, z, f)
    ensures i in db.ips && f in db.zones && LabelOf(db, i) + "." + db.zones[f].name != db.ips[i].ip
  {
    var s :| OnSubnet(v6, db, i, s) && LeastForwardOn(db, s, f);
    LabelHasNoColon(db, i);
    ForwardNameIsNoAddress(v6, db, LabelOf(db, i), s, f);
  }

  lemma InventoryNameIsNoAddress(v6: V6Text, pre: Db, inv: Db, i: int, z: int, f: int)
    requires OrdinaryNames(pre) && inv == Inventory(pre) && Valid(inv) && PointsTo(v6, inv, i, z, f)
    ensures i in pre.ips && f in pre.zones && LabelOf(inv, i) + "." + pre.zones[f].name != pre.ips[i].ip
  {
    PointedNameIsNoAddress(v6, inv, i, z, f);
  }

  /** With ordinary names, no automatic PTR is published as its target in the state a run leaves. */
  lemma PointersNeverShowTargets(v6: V6Text, pre: Db, post: Db, r: int, k: Key, zone: int, b: Option<int>)
    requires Valid(pre) && Valid(post) && Applied(pre, post, RunWants(v6, pre)) && OrdinaryNames(pre)
    requires AutoRow(post, r, k) && k.rtype == PTR && Flattens(post, zone, r, b)
    ensures RowOf(post, r, b).value != k.target
  {
    var i, f := PointerShowsTargetIff(v6, pre, post, r, k, zone, b);
    InventoryNameIsNoAddress(v6, pre, Inventory(pre), i, zone, f);
  }
}
