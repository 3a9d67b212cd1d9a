/**
 What every reachable state of the store satisfies, whatever sequence of operations led there, and the
 preservation of it by edits, by manual records and by synthesizer runs.
 */
module StoreInvariant {
  import opened Basics
  import opened Net
  import opened Database
  import opened Synth
  import opened SynthMeaning
  import opened Derivation
  import opened Apply
  import opened Storage
  import opened Run
  import opened Mac

  /** The inventory may change freely within the constraints, but rows and address texts do not
   disappear, and every MAC that is written is in canonical form. */
  ghost predicate Edited(pre: Db, post: Db) {
    && Valid(post) && post.records == pre.records && post.bindings == pre.bindings
    && pre.zones.Keys <= post.zones.Keys
    && (forall i :: i in pre.ips ==> i in post.ips && post.ips[i].ip == pre.ips[i].ip)
    && (forall n :: n in post.nics ==>
          NormalizeMac(post.nics[n].mac) == Some(post.nics[n].mac) || (n in pre.nics && post.nics[n].mac == pre.nics[n].mac))
  }

  /** The address text is of the family of an address record, or has the name of a pointer record as its reverse name. */
  ghost predicate Suits(v6: V6Text, ip: string, k: Key) {
    ParseAddr(v6, ip).Some? &&
    if k.rtype == PTR then ReverseName(ParseAddr(v6, ip).value) == k.fqdn else AddrType(ParseAddr(v6, ip).value) == k.rtype
  }

  /** An automatic row is an address or pointer record, bound to suitable rows; a pointer is bound to one at most. */
  ghost predicate AutoShape(v6: V6Text, db: Db, r: int)
    requires r in db.records
  {
    var k := db.records[r].key;
    db.records[r].source == Auto ==>
      && (k.rtype == PTR || k.rtype == A || k.rtype == AAAA)
      && (k.rtype != PTR ==> k.target == "")
      && (forall i :: (r, i) in db.bindings && i in db.ips ==> Suits(v6, db.ips[i].ip, k))
      && (k.rtype == PTR ==> forall i, j :: (r, i) in db.bindings && (r, j) in db.bindings ==> i == j)
  }

  /** Stored MACs are canonical, as every insert makes them. */
  ghost predicate MacsCanonical(db: Db) {
    forall n :: n in db.nics ==> NormalizeMac(db.nics[n].mac) == Some(db.nics[n].mac)
  }

  ghost predicate Good(v6: V6Text, db: Db) {
    && Valid(db) && MacsCanonical(db)
    && (forall r :: r in db.records ==> db.records[r].enabled)
    && (forall r, i :: (r, i) in db.bindings ==> r in db.records && db.records[r].source == Auto)
    && (forall r :: r in db.records ==> AutoShape(v6, db, r))
  }

  /** A state whose records and bindings are some of the earlier ones, over rows that kept their address. */
  lemma ShrinkKeepsGood(v6: V6Text, pre: Db, post: Db)
    requires Good(v6, pre) && Valid(post) && MacsCanonical(post)
    requires forall r :: r in post.records ==> r in pre.records && post.records[r] == pre.records[r]
    requires forall r, i :: (r, i) in post.bindings ==> (r, i) in pre.bindings
    requires forall i :: i in post.ips && i in pre.ips ==> post.ips[i].ip == pre.ips[i].ip
    ensures Good(v6, post)
  {
    forall r | r in post.records
      ensures AutoShape(v6, post, r)
    {
      assert AutoShape(v6, pre, r);
    }
  }

  lemma CreateKeepsGood(v6: V6Text, pre: Db, id: int, rec: Rec)
    requires Good(v6, pre) && id !in pre.records && rec.source == Manual && rec.enabled
    requires forall r :: r in pre.records ==> pre.records[r].key != rec.key
    requires rec.zone.Some? ==> rec.zone.value in pre.zones
    ensures Good(v6, pre.(records := pre.records[id := rec]))
  {
    ManualRecValid(pre, id, rec);
    var post := pre.(records := pre.records[id := rec]);
    forall r | r in post.records
      ensures AutoShape(v6, post, r)
    {
      if r != id {
        assert AutoShape(v6, pre, r);
      }
    }
  }

  /** What the synthesizer wants has the shape. */
  ghost predicate WantedShape(v6: V6Text, db: Db, k: Key, w: Wanted) {
    && (k.rtype == PTR || k.rtype == A || k.rtype == AAAA)
    && (k.rtype != PTR ==> k.target == "")
    && (forall i :: i in w.bindings ==> i in db.ips && Suits(v6, db.ips[i].ip, k))
    && (k.rtype == PTR ==> |w.bindings| == 1)
  }

  lemma NamesShape(v6: V6Text, db: Db, i: int, z: int, k: Key)
    requires Valid(db) && Names(v6, db, i, z, k)
    ensures i in db.ips && Suits(v6, db.ips[i].ip, k)
    ensures k.target == "" && (k.rtype == A || k.rtype == AAAA)
  {
  }

  lemma DesiredShape(v6: V6Text, db: Db, k: Key, w: Wanted)
    requires Valid(db) && k in Desired(v6, db) && w == Desired(v6, db)[k]
    ensures WantedShape(v6, db, k, w)
  {
    if k.rtype == PTR {
      PointerRecords(v6, db, k);
      PointerShape(v6, db, k, w);
    } else {
      AddressRecords(v6, db, k);
      AddressShape(v6, db, k, w);
    }
  }

  lemma PointsShape(v6: V6Text, db: Db, i: int, z: int, k: Key)
    requires Valid(db) && Points(v6, db, i, z, k)
    ensures i in db.ips && k.rtype == PTR && Suits(v6, db.ips[i].ip, k)
  {
    var f :| PointsTo(v6, db, i, z, f) && k == PtrKey(v6, db, i, f);
  }

  lemma PointerShape(v6: V6Text, db: Db, k: Key, w: Wanted)
    requires Valid(db) && k.rtype == PTR && PointerRecordOf(v6, db, k, w)
    ensures WantedShape(v6, db, k, w)
  {
    var only := w.bindings[0];
    PointsShape(v6, db, only, w.zone, k);
    assert w.bindings == [only];
  }

  lemma AddressShape(v6: V6Text, db: Db, k: Key, w: Wanted)
    requires Valid(db) && k.rtype != PTR && AddressRecordOf(v6, db, k, w)
    ensures WantedShape(v6, db, k, w)
  {
    var i0 :| Names(v6, db, i0, w.zone, k);
    NamesShape(v6, db, i0, w.zone, k);
    forall i | i in w.bindings
      ensures i in db.ips && Suits(v6, db.ips[i].ip, k)
    {
      var z :| Names(v6, db, i, z, k);
      NamesShape(v6, db, i, z, k);
    }
  }

  lemma RowBound(pre: Db, post: Db, want: map<Key, Wanted>, r: int, i: int)
    requires Applied(pre, post, want) && r in post.records && post.records[r].source == Auto
    ensures post.records[r].key in want
    ensures (r, i) in post.bindings <==> i in want[post.records[r].key].bindings
  {
  }

  lemma BoundShape(v6: V6Text, pre: Db, post: Db, r: int, k: Key, w: Wanted)
    requires r in post.records && k == post.records[r].key && post.ips == pre.ips && WantedShape(v6, pre, k, w)
    requires forall i :: (r, i) in post.bindings ==> i in w.bindings
    ensures AutoShape(v6, post, r)
  {
    if k.rtype == PTR {
      assert w.bindings == [w.bindings[0]];
    }
  }

  lemma AppliedShape(v6: V6Text, pre: Db, post: Db, want: map<Key, Wanted>, r: int, k: Key)
    requires Applied(pre, post, want) && r in post.records && post.records[r].source == Auto && k == post.records[r].key
    requires k in want && WantedShape(v6, pre, k, want[k])
    ensures AutoShape(v6, post, r)
  {
    forall i | (r, i) in post.bindings
      ensures i in want[k].bindings
    {
      RowBound(pre, post, want, r, i);
    }
    BoundShape(v6, pre, post, r, k, want[k]);
  }

  lemma AppliedKeepsGood(v6: V6Text, pre: Db, post: Db, want: map<Key, Wanted>)
    requires Good(v6, pre) && Appliable(pre, want) && Applied(pre, post, want)
    requires forall k :: k in want ==> WantedShape(v6, pre, k, want[k])
    ensures Good(v6, post)
  {
    AppliedValid(pre, post, want);
    forall r | r in post.records
      ensures AutoShape(v6, post, r)
    {
      if post.records[r].source == Auto {
        RowBound(pre, post, want, r, 0);
        AppliedShape(v6, pre, post, want, r, post.records[r].key);
      }
    }
  }

  lemma SynthesizeKeepsGood(v6: V6Text, pre: Db, post: Db)
    requires Good(v6, pre) && Applied(pre, post, RunWants(v6, pre)) && Appliable(pre, RunWants(v6, pre))
    ensures Good(v6, post)
  {
    InventoryValid(pre);
    var want := RunWants(v6, pre);
    forall k | k in want
      ensures WantedShape(v6, pre, k, want[k])
    {
      DesiredShape(v6, Inventory(pre), k, want[k]);
    }
    AppliedKeepsGood(v6, pre, post, want);
  }

  lemma EditKeepsGood(v6: V6Text, pre: Db, post: Db)
    requires Good(v6, pre) && Edited(pre, post)
    ensures Good(v6, post)
  {
    ShrinkKeepsGood(v6, pre, post);
  }

  /** After a run an automatic row of key `k` exists exactly when `k` is derivable and no manual record overrides it. */
  lemma AutoRowIff(v6: V6Text, pre: Db, post: Db, k: Key)
    requires Valid(pre) && Applied(pre, post, RunWants(v6, pre))
    ensures Valid(Inventory(pre))
    ensures (exists r :: AutoRow(post, r, k)) <==> k in Desired(v6, Inventory(pre)) && !Overridden(pre, k)
  {
    InventoryValid(pre);
    OverriddenByName(pre, k);
    var want := RunWants(v6, pre);
    AutoRowsAreWanted(pre, post, want);
    assert k in want <==> exists r :: AutoRow(post, r, k);
    assert k in want <==> k in Desired(v6, Inventory(pre)) && NameAndType(k) !in ManualNames(pre);
  }
}
