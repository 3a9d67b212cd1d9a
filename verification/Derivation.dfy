/**
 What `buildDesired` wants: for every key, whether it is wanted, to which addresses it is bound, and under which
 zone and TTL, all said of the tables.
 */
module Derivation {
  import opened Text
  import opened Net
  import opened Database
  import opened Synth
  import opened SynthMeaning
  import opened Traversal

  /** The row's text is an address, of IPv4 exactly for type A and of IPv6 exactly for type AAAA. */
  predicate OfFamily(v6: V6Text, db: Db, i: int, rtype: RecordType) {
    i in db.ips && ParseAddr(v6, db.ips[i].ip).Some? &&
    (rtype == A <==> ParseAddr(v6, db.ips[i].ip).value.V4?) && (rtype == AAAA <==> ParseAddr(v6, db.ips[i].ip).value.V6?)
  }

  ghost predicate AddressRecordOf(v6: V6Text, db: Db, k: Key, w: Wanted)
    requires Valid(db)
  {
    && Distinct(w.bindings)
    && (forall i :: i in w.bindings <==> exists z :: Names(v6, db, i, z, k))
    && w.zone in db.zones && w.ttl == db.zones[w.zone].defaultTtl
    && exists i :: FirstNaming(v6, db, i, w.zone, k)
  }

  ghost predicate PointerRecordOf(v6: V6Text, db: Db, k: Key, w: Wanted)
    requires Valid(db)
  {
    && |w.bindings| == 1 && FirstPointing(v6, db, w.bindings[0], w.zone, k)
    && w.zone in db.zones && w.ttl == db.zones[w.zone].defaultTtl
  }

  lemma EmittersAreNamers(v6: V6Text, db: Db, es: seq<Emission>, k: Key, i: int)
    requires Valid(db) && k.rtype != PTR
    requires forall e :: e in es <==> Emits(v6, db, e)
    ensures i in Emitters(es, k) <==> exists z :: Names(v6, db, i, z, k)
  {
    EmittersMeaning(es, k, i);
    if i in Emitters(es, k) {
      var p :| 0 <= p < |es| && es[p].key == k && es[p].ip == i;
      assert es[p] in es;
      ForwardIsNaming(v6, db, es[p]);
    }
    if z :| Names(v6, db, i, z, k) {
      var e := NamingEmits(v6, db, i, z, k);
      assert e in es;
    }
  }

  lemma NoEmittersNoNames(v6: V6Text, db: Db, es: seq<Emission>, k: Key, i: int, z: int)
    requires Valid(db) && k.rtype != PTR && Emitters(es, k) == []
    requires forall e :: e in es <==> Emits(v6, db, e)
    ensures !Names(v6, db, i, z, k)
  {
    EmittersAreNamers(v6, db, es, k, i);
  }

  lemma SomeEmitterNames(v6: V6Text, db: Db, es: seq<Emission>, k: Key)
    requires Valid(db) && k.rtype != PTR && Emitters(es, k) != []
    requires forall e :: e in es <==> Emits(v6, db, e)
    ensures exists i, z :: Names(v6, db, i, z, k)
  {
    EmittersAreNamers(v6, db, es, k, Emitters(es, k)[0]);
  }

  lemma FoldedAddresses(v6: V6Text, db: Db, es: seq<Emission>, k: Key)
    requires Valid(db) && k.rtype != PTR && OncePerKey(es) && Ordered(es, EmittedBefore(db))
    requires forall e :: e in es <==> Emits(v6, db, e)
    ensures k in Fold(map[], es) <==> exists i, z :: Names(v6, db, i, z, k)
    ensures k in Fold(map[], es) ==> AddressRecordOf(v6, db, k, Fold(map[], es)[k])
  {
    FoldIsEmitters(es, k);
    if Emitters(es, k) == [] {
      forall i, z
        ensures !Names(v6, db, i, z, k)
      {
        NoEmittersNoNames(v6, db, es, k, i, z);
      }
    } else {
      SomeEmitterNames(v6, db, es, k);
      EmittersDistinct(es, k);
      FirstNames(v6, db, es, k, Fold(map[], es)[k]);
      forall i
        ensures i in Emitters(es, k) <==> exists z :: Names(v6, db, i, z, k)
      {
        EmittersAreNamers(v6, db, es, k, i);
      }
    }
  }

  lemma FoldIsEmitters(es: seq<Emission>, k: Key)
    requires k.rtype != PTR
    ensures k in Fold(map[], es) <==> Emitters(es, k) != []
    ensures k in Fold(map[], es) ==>
              var w := Fold(map[], es)[k];
              w.bindings == Emitters(es, k) && exists e :: FoldedTo(es, k, w, e)
  {
    FoldMeaning(es, k);
    FoldDomain(es, k);
    if p :| 0 <= p < |es| && es[p].key == k {
      EmittersMeaning(es, k, es[p].ip);
    }
  }

  lemma FirstNames(v6: V6Text, db: Db, es: seq<Emission>, k: Key, w: Wanted)
    requires Valid(db) && k.rtype != PTR
    requires forall e :: e in es <==> Emits(v6, db, e)
    requires exists e :: FoldedTo(es, k, w, e)
    requires Ordered(es, EmittedBefore(db))
    ensures w.zone in db.zones && w.ttl == db.zones[w.zone].defaultTtl
    ensures exists i :: FirstNaming(v6, db, i, w.zone, k)
  {
    var e :| FoldedTo(es, k, w, e);
    assert e in es;
    ForwardIsNaming(v6, db, e);
    FirstIsFirstNaming(v6, db, es, k, e);
  }

  lemma FoldedPointers(v6: V6Text, db: Db, es: seq<Emission>, k: Key)
    requires Valid(db) && k.rtype == PTR && Ordered(es, EmittedBefore(db))
    requires forall e :: e in es <==> Emits(v6, db, e)
    ensures k in Fold(map[], es) <==> exists i, z :: Points(v6, db, i, z, k)
    ensures k in Fold(map[], es) ==> PointerRecordOf(v6, db, k, Fold(map[], es)[k])
  {
    FoldMeaning(es, k);
    FoldDomain(es, k);
    if i, z :| Points(v6, db, i, z, k) {
      var e := PointingEmits(v6, db, i, z, k);
      assert e in es;
    }
    if k in Fold(map[], es) {
      var w := Fold(map[], es)[k];
      var e :| FoldedTo(es, k, w, e);
      assert e in es;
      ReverseIsPointing(v6, db, e);
      FirstIsFirstPointing(v6, db, es, k, e);
    }
  }

  /**
   An A or AAAA record is wanted exactly when some row names it; its bindings are those rows, each once;
   its zone and TTL are those of the first row and zone that name it.
   */
  lemma AddressRecords(v6: V6Text, db: Db, k: Key)
    requires Valid(db) && k.rtype != PTR
    ensures k in Desired(v6, db) <==> exists i, z :: Names(v6, db, i, z, k)
    ensures k in Desired(v6, db) ==> AddressRecordOf(v6, db, k, Desired(v6, db)[k])
    ensures k in Desired(v6, db) ==> forall i :: i in Desired(v6, db)[k].bindings ==> OfFamily(v6, db, i, k.rtype)
  {
    EmissionsAreEmits(v6, db);
    AllOnce(v6, db);
    AllOrdered(v6, db);
    FoldedAddresses(v6, db, AllEmissions(v6, db), k);
    if k in Desired(v6, db) {
      BoundFamily(v6, db, k, Desired(v6, db)[k]);
    }
  }

  lemma BoundFamily(v6: V6Text, db: Db, k: Key, w: Wanted)
    requires Valid(db) && AddressRecordOf(v6, db, k, w)
    ensures forall i :: i in w.bindings ==> OfFamily(v6, db, i, k.rtype)
  {
    forall i | i in w.bindings
      ensures OfFamily(v6, db, i, k.rtype)
    {
      var z :| Names(v6, db, i, z, k);
    }
  }

  /**
   A PTR record is wanted exactly when some row points: it has a least-named forward link, and a reverse link
   whose zone name is a raw suffix of its reverse name. It is bound to the first such row, in the first such zone.
   */
  lemma PointerRecords(v6: V6Text, db: Db, k: Key)
    requires Valid(db) && k.rtype == PTR
    ensures k in Desired(v6, db) <==> exists i, z :: Points(v6, db, i, z, k)
    ensures k in Desired(v6, db) ==> PointerRecordOf(v6, db, k, Desired(v6, db)[k])
  {
    EmissionsAreEmits(v6, db);
    AllOrdered(v6, db);
    FoldedPointers(v6, db, AllEmissions(v6, db), k);
  }

  lemma AddressLiesInZone(v6: V6Text, db: Db, k: Key, w: Wanted)
    requires Valid(db) && AddressRecordOf(v6, db, k, w)
    ensures w.zone in db.zones && HasSuffix(k.fqdn, db.zones[w.zone].name)
  {
    var i :| FirstNaming(v6, db, i, w.zone, k);
    EndsWithItsEnd(LabelOf(db, i) + ".", db.zones[w.zone].name);
  }

  lemma PointerLiesInZone(v6: V6Text, db: Db, k: Key, w: Wanted)
    requires Valid(db) && PointerRecordOf(v6, db, k, w)
    ensures w.zone in db.zones && HasSuffix(k.fqdn, db.zones[w.zone].name)
  {
  }

  /** Every wanted record's name ends with the name of the zone it is filed under. */
  lemma RecordsLieInTheirZone(v6: V6Text, db: Db, k: Key)
    requires Valid(db) && k in Desired(v6, db)
    ensures Desired(v6, db)[k].zone in db.zones
    ensures HasSuffix(k.fqdn, db.zones[Desired(v6, db)[k].zone].name)
  {
    if k.rtype == PTR {
      PointerRecords(v6, db, k);
      PointerLiesInZone(v6, db, k, Desired(v6, db)[k]);
    } else {
      AddressRecords(v6, db, k);
      AddressLiesInZone(v6, db, k, Desired(v6, db)[k]);
    }
  }
}
