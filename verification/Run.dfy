/**
 `synth.Run`: derive the wanted records, drop those a manual record overrides, and converge the automatic
 rows to the rest.
 */
module Run {
  import opened Text
  import opened Net
  import opened Database
  import opened Synth
  import opened SynthMeaning
  import opened Derivation
  import opened Apply
  import opened Storage

  /** The tables the synthesizer reads to derive records: everything but the records themselves. */
  function Inventory(db: Db): Db {
    db.(records := map[], bindings := {})
  }

  function NameAndType(k: Key): string {
    k.fqdn + "|" + TypeName(k.rtype)
  }

  /** `loadManualFQDNType`. */
  function ManualNames(db: Db): set<string> {
    set r | r in db.records && db.records[r].source == Manual && db.records[r].enabled :: NameAndType(db.records[r].key)
  }

  ghost predicate Overridden(db: Db, k: Key) {
    exists r :: r in db.records && db.records[r].source == Manual && db.records[r].enabled &&
                db.records[r].key.fqdn == k.fqdn && db.records[r].key.rtype == k.rtype
  }

  /** The joined text identifies the pair: type names hold no bar. */
  lemma NameAndTypeInjective(j: Key, k: Key)
    ensures NameAndType(j) == NameAndType(k) <==> j.fqdn == k.fqdn && j.rtype == k.rtype
  {
    if NameAndType(j) == NameAndType(k) {
      var s, t := TypeName(j.rtype), TypeName(k.rtype);
      assert '|' !in s && '|' !in t;
      SplitConcat(j.fqdn, s, '|');
      SplitConcat(k.fqdn, t, '|');
      SplitWhole(s, '|');
      SplitWhole(t, '|');
      var x, y := Split(j.fqdn, '|') + [s], Split(k.fqdn, '|') + [t];
      assert x[..|x| - 1] == Split(j.fqdn, '|') && y[..|y| - 1] == Split(k.fqdn, '|');
      JoinSplit(j.fqdn, '|');
      JoinSplit(k.fqdn, '|');
    }
  }

  lemma OverriddenByName(db: Db, k: Key)
    ensures NameAndType(k) in ManualNames(db) <==> Overridden(db, k)
  {
    forall r | r in db.records
      ensures NameAndType(db.records[r].key) == NameAndType(k) <==>
              db.records[r].key.fqdn == k.fqdn && db.records[r].key.rtype == k.rtype
    {
      NameAndTypeInjective(db.records[r].key, k);
    }
  }

  function Unsuppressed(db: Db, want: map<Key, Wanted>): map<Key, Wanted> {
    map k | k in want && NameAndType(k) !in ManualNames(db) :: want[k]
  }

  lemma InventoryValid(db: Db)
    requires Valid(db)
    ensures Valid(Inventory(db))
  {
  }

  /** What a run makes the automatic rows converge to. */
  function RunWants(v6: V6Text, db: Db): map<Key, Wanted>
    requires Valid(db)
  {
    InventoryValid(db);
    Unsuppressed(db, Desired(v6, Inventory(db)))
  }

  method Suppress(db: Db, desired: map<Key, Wanted>) returns (kept: map<Key, Wanted>)
    ensures kept == Unsuppressed(db, desired)
    ensures kept.Keys <= desired.Keys && forall k :: k in kept ==> kept[k] == desired[k]
    ensures forall k :: k in desired ==>
              (k in kept <==> forall r :: r in db.records && db.records[r].source == Manual && db.records[r].enabled ==>
                                          db.records[r].key.fqdn != k.fqdn || db.records[r].key.rtype != k.rtype)
  {
    kept := desired;
    var manual := ManualNames(db);
    var todo := desired.Keys;
    while todo != {}
      invariant todo <= desired.Keys
      invariant kept == map k | k in desired && (k in todo || NameAndType(k) !in manual) :: desired[k]
      decreases |todo|
    {
      var k :| k in todo;
      if NameAndType(k) in manual {
        kept := kept - {k};
      }
      todo := todo - {k};
    }
    forall k | k in desired
      ensures k in kept <==> !Overridden(db, k)
    {
      OverriddenByName(db, k);
    }
  }

  method Run(st: Store) returns (ok: bool)
    requires Valid(st.db)
    modifies st
    ensures Valid(st.db)
    ensures ok <==> Appliable(old(st.db), RunWants(st.v6, old(st.db)))
    ensures ok ==> Applied(old(st.db), st.db, RunWants(st.v6, old(st.db)))
    ensures !ok ==> st.db == old(st.db)
  {
    InventoryValid(st.db);
    var desired := BuildDesired(st.v6, Inventory(st.db));
    var want := Suppress(st.db, desired);
    var tx;
    tx, ok := Converge(st.db, want);
    if ok {
      AppliedValid(st.db, tx, want);
      st.db := tx;
    }
  }

  // ---------- When a run succeeds, and what it leaves ----------

  ghost predicate DisabledManual(db: Db, k: Key) {
    exists r :: r in db.records && db.records[r].source == Manual && !db.records[r].enabled && db.records[r].key == k
  }

  lemma PointingRowKnown(v6: V6Text, db: Db, i: int, z: int, k: Key)
    requires Valid(db) && Points(v6, db, i, z, k)
    ensures i in db.ips
  {
    var f :| PointsTo(v6, db, i, z, f) && k == PtrKey(v6, db, i, f);
  }

  lemma PointerResolves(v6: V6Text, db: Db, k: Key, w: Wanted)
    requires Valid(db) && PointerRecordOf(v6, db, k, w)
    ensures forall i :: i in w.bindings ==> i in db.ips
  {
    PointingRowKnown(v6, db, w.bindings[0], w.zone, k);
  }

  lemma AddressResolves(v6: V6Text, db: Db, k: Key, w: Wanted)
    requires Valid(db) && AddressRecordOf(v6, db, k, w)
    ensures forall i :: i in w.bindings ==> i in db.ips
  {
    forall i | i in w.bindings
      ensures i in db.ips
    {
      var z :| Names(v6, db, i, z, k);
    }
  }

  lemma DesiredResolves(v6: V6Text, db: Db, k: Key, w: Wanted)
    requires Valid(db) && k in Desired(v6, db) && w == Desired(v6, db)[k]
    ensures w.zone in db.zones
    ensures forall i :: i in w.bindings ==> i in db.ips
  {
    if k.rtype == PTR {
      PointerRecords(v6, db, k);
      PointerResolves(v6, db, k, w);
    } else {
      AddressRecords(v6, db, k);
      AddressResolves(v6, db, k, w);
    }
  }

  /**
   A run fails exactly when a disabled manual row holds a key that no enabled manual row overrides: the
   row does not suppress the record, yet its key is taken.
   */
  lemma RunFailsIff(v6: V6Text, db: Db)
    requires Valid(db)
    ensures !Appliable(db, RunWants(v6, db)) <==> exists k :: k in RunWants(v6, db) && DisabledManual(db, k)
  {
    InventoryValid(db);
    var want := RunWants(v6, db);
    forall k | k in want
      ensures Admissible(db, k, want[k]) <==> !DisabledManual(db, k)
    {
      DesiredResolves(v6, Inventory(db), k, want[k]);
      OverriddenByName(db, k);
    }
  }

  /** With every manual row enabled, a run never violates a constraint. */
  lemma RunNeverConflicts(v6: V6Text, db: Db)
    requires Valid(db) && forall r :: r in db.records && db.records[r].source == Manual ==> db.records[r].enabled
    ensures Appliable(db, RunWants(v6, db))
  {
    RunFailsIff(v6, db);
  }

  /** Manual wins: after a run no name and type has both an enabled manual row and an automatic one. */
  lemma ManualWins(v6: V6Text, pre: Db, post: Db, r: int, m: int)
    requires Valid(pre) && Applied(pre, post, RunWants(v6, pre))
    requires r in post.records && post.records[r].source == Auto
    requires m in post.records && post.records[m].source == Manual && post.records[m].enabled
    ensures NameAndType(post.records[r].key) != NameAndType(post.records[m].key)
  {
    var want := RunWants(v6, pre);
    var k := post.records[r].key;
    assert k in want;
    assert NameAndType(post.records[m].key) in ManualNames(pre);
  }

  lemma ManualNamesFrom(pre: Db, post: Db)
    requires forall r :: r in pre.records && pre.records[r].source == Manual ==> r in post.records && post.records[r] == pre.records[r]
    ensures ManualNames(pre) <= ManualNames(post)
  {
    forall s | s in ManualNames(pre)
      ensures s in ManualNames(post)
    {
      var r :| r in pre.records && pre.records[r].source == Manual && pre.records[r].enabled && NameAndType(pre.records[r].key) == s;
      assert post.records[r] == pre.records[r];
    }
  }

  /** The manual rows a run looks at are the ones it leaves, so a second run wants the same records. */
  lemma RunWantsStable(v6: V6Text, pre: Db, post: Db)
    requires Valid(pre) && Valid(post) && Applied(pre, post, RunWants(v6, pre))
    ensures RunWants(v6, post) == RunWants(v6, pre)
  {
    assert Inventory(pre) == Inventory(post);
    ManualRowsUntouched(pre, post, RunWants(v6, pre));
    ManualNamesFrom(pre, post);
    ManualNamesFrom(post, pre);
  }

  /** A second run over unchanged tables is the identity. */
  lemma RunIdempotent(v6: V6Text, pre: Db, mid: Db, post: Db)
    requires Valid(pre) && Valid(mid)
    requires Applied(pre, mid, RunWants(v6, pre)) && Applied(mid, post, RunWants(v6, mid))
    ensures post == mid
  {
    RunWantsStable(v6, pre, mid);
    AppliedTwice(pre, mid, post, RunWants(v6, pre));
  }
}
