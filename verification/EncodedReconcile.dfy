/**
 The two loops of `reconcileZone` over a zone of encoded records: what they do to it, under arbitrary failures of single
 operations. A pass without failures is an encoded pass, at either kind of provider.
 */
module EncodedReconcile {
  import opened Basics
  import opened Database
  import opened Remote
  import opened Reconcile
  import opened Convergence
  import opened Encoded

  // ---------- The provider's calls ----------

  /** What an add of `e` that succeeds does: nothing if the provider holds its like, or else one new entry. */
  ghost predicate AddedOne<E>(c: Codec<E>, pre: map<string, E>, post: map<string, E>, e: E, id: string) {
    if Held(c, pre, e) then post == pre && id in pre && SameEntry(c, pre[id], e)
    else id !in pre && post == pre[id := e]
  }

  /** The entries a delete of a listed record takes out: by name, type and value, or by handle. */
  function Found<E>(c: Codec<E>, zone: map<string, E>, r: Record): set<string> {
    if c.single then set id | id in zone && c.decode(zone[id]).Some? && SameData(c.decode(zone[id]).value, r)
    else {r.id}
  }

  class EncodedZone<E(!new)> {
    const name: string
    const codec: Codec<E>
    var entries: map<string, E>
    ghost var calls: seq<Call>

    method EnsureZone() returns (ok: bool)
      modifies this`calls
      ensures calls == old(calls) + [Ensure(ok)]
    {
      ok := *;
      calls := calls + [Ensure(ok)];
    }

    method ListRecords() returns (ok: bool, list: seq<Record>)
      modifies this`calls
      ensures calls == old(calls) + [List(ok)]
      ensures ok ==> forall r :: r in list <==> r in Listing(codec, entries).Values
    {
      ok := *;
      calls := calls + [List(ok)];
      list := [];
      var records := Listing(codec, entries);
      var todo := records.Keys;
      while todo != {}
        invariant todo <= records.Keys
        invariant forall r :: r in list <==> exists id :: id in records && id !in todo && records[id] == r
        decreases |todo|
      {
        var id :| id in todo;
        list, todo := list + [records[id]], todo - {id};
      }
    }

    /** The adapter fails without asking where it cannot encode the record; that too is a refusal. */
    method AddRecord(r: Record) returns (ok: bool, ghost id: string)
      modifies this
      ensures calls == old(calls) + [Add(RecordKey(r), ok)]
      ensures !ok ==> entries == old(entries)
      ensures ok ==> codec.encode(r).Some? && AddedOne(codec, old(entries), entries, codec.encode(r).value, id)
    {
      var reached: bool := *;
      var e := codec.encode(r);
      ok, id := reached && e.Some?, "";
      calls := calls + [Add(RecordKey(r), ok)];
      if ok {
        if codec.single && exists i :: i in entries && SameEntry(codec, entries[i], e.value) {
          id :| id in entries && SameEntry(codec, entries[id], e.value);
        } else {
          var handle := FreshHandle(entries.Keys);
          id := handle;
          entries := entries[handle := e.value];
        }
      }
    }

    method DeleteRecord(r: Record) returns (ok: bool)
      modifies this
      ensures calls == old(calls) + [Delete(RecordKey(r), ok)]
      ensures !ok ==> entries == old(entries)
      ensures ok ==> entries == old(entries) - Found(codec, old(entries), r)
    {
      ok := *;
      calls := calls + [Delete(RecordKey(r), ok)];
      if ok {
        entries := entries - Found(codec, entries, r);
      }
    }
  }

  // ---------- The adding loop ----------

  /** How far the adding loop has got: `added` maps the keys done to their entries. */
  ghost predicate Filling<E>(c: Codec<E>, pre: map<string, E>, zone: map<string, E>, des: map<string, Record>,
                             todo: set<string>, added: map<string, string>, failed: set<string>)
  {
    && WellKeyed(des) && OneEach(c, pre) && OneEach(c, zone)
    && (forall id :: id in pre ==> id in zone && zone[id] == pre[id])
    && Adds(c, pre, zone, des, Work(added, map[]))
    && Ledger(des.Keys, KeysOf(Listing(c, pre)), todo, added.Keys, failed)
  }

  lemma FillingStart<E>(c: Codec<E>, pre: map<string, E>, des: map<string, Record>)
    requires WellKeyed(des) && OneEach(c, pre)
    ensures Filling(c, pre, pre, des, des.Keys, map[], {})
  {
    LedgerStart(des.Keys, KeysOf(Listing(c, pre)));
  }

  lemma FillingPast<E>(c: Codec<E>, pre: map<string, E>, zone: map<string, E>, des: map<string, Record>,
                       todo: set<string>, added: map<string, string>, failed: set<string>, k: string)
    requires Filling(c, pre, zone, des, todo, added, failed) && k in todo
    ensures k in des && RecordKey(des[k]) == k
    ensures k !in KeysOf(Listing(c, pre)) ==> k !in failed
    ensures k in KeysOf(Listing(c, pre)) ==> Filling(c, pre, zone, des, todo - {k}, added, failed)
    ensures k !in KeysOf(Listing(c, pre)) ==>
              k !in added && Filling(c, pre, zone, des, todo - {k}, added, failed + {k})
  {
    LedgerStep(des.Keys, KeysOf(Listing(c, pre)), todo, added.Keys, failed, k);
  }

  lemma HeldIsKept<E>(c: Codec<E>, pre: map<string, E>, zone: map<string, E>, e: E)
    requires Held(c, pre, e) && forall id :: id in pre ==> id in zone && zone[id] == pre[id]
    ensures Held(c, zone, e)
  {
    var id :| id in pre && SameEntry(c, pre[id], e);
    assert id in zone;
  }

  lemma StillOneEach<E>(c: Codec<E>, zone: map<string, E>, next: map<string, E>, e: E, id: string)
    requires OneEach(c, zone) && AddedOne(c, zone, next, e, id)
    ensures OneEach(c, next)
  {
  }

  lemma AddedAsStays<E>(c: Codec<E>, pre: map<string, E>, zone: map<string, E>, next: map<string, E>, id: string, e: E)
    requires AddedAs(c, pre, zone, id, e) && forall i :: i in zone ==> i in next && next[i] == zone[i]
    ensures AddedAs(c, pre, next, id, e)
  {
  }

  lemma AddedForStays<E>(c: Codec<E>, pre: map<string, E>, zone: map<string, E>, next: map<string, E>, des: map<string, Record>,
                         w: Work, x: Work, k: string, id: string, i: string)
    requires i in zone && i in next && next[i] == zone[i] && k !in w.added && x.added == w.added[k := id]
    requires w.added.Keys <= des.Keys && k in des && AddedFor(c, pre, zone, des, w, i)
    ensures AddedFor(c, pre, next, des, x, i)
  {
    var j :| j in w.added && w.added[j] == i && c.encode(des[j]) == Some(zone[i]);
    assert x.added[j] == i;
  }

  lemma AddsOneMore<E>(c: Codec<E>, pre: map<string, E>, zone: map<string, E>, next: map<string, E>, des: map<string, Record>,
                       added: map<string, string>, k: string, id: string)
    requires Adds(c, pre, zone, des, Work(added, map[])) && forall i :: i in pre ==> i in zone && zone[i] == pre[i]
    requires k in Missing(c, pre, des) && k !in added && c.encode(des[k]).Some?
    requires AddedOne(c, zone, next, c.encode(des[k]).value, id)
    ensures Adds(c, pre, next, des, Work(added[k := id], map[]))
    ensures forall i :: i in pre ==> i in next && next[i] == pre[i]
  {
    var w, x, e := Work(added, map[]), Work(added[k := id], map[]), c.encode(des[k]).value;
    if Held(c, pre, e) {
      HeldIsKept(c, pre, zone, e);
    }
    forall j | j in x.added
      ensures c.encode(des[j]).Some? && AddedAs(c, pre, next, x.added[j], c.encode(des[j]).value)
    {
      if j != k {
        AddedAsStays(c, pre, zone, next, added[j], c.encode(des[j]).value);
      }
    }
    forall i | i in next && i !in pre
      ensures AddedFor(c, pre, next, des, x, i)
    {
      if i in zone {
        AddedForStays(c, pre, zone, next, des, w, x, k, id, i);
      } else {
        assert x.added[k] == i;
      }
    }
    AddedApart(c, pre, zone, des, w, k, id, next, e);
  }

  lemma AddedApart<E>(c: Codec<E>, pre: map<string, E>, zone: map<string, E>, des: map<string, Record>, w: Work,
                      k: string, id: string, next: map<string, E>, e: E)
    requires Adds(c, pre, zone, des, w) && AddedOne(c, zone, next, e, id) && k !in w.added
    ensures !c.single ==> Apart(w.added[k := id])
  {
    if !c.single {
      forall j | j in w.added
        ensures w.added[j] != id
      {
        assert AddedAs(c, pre, zone, w.added[j], c.encode(des[j]).value);
      }
    }
  }

  lemma OneKeyMore(m: map<string, string>, k: string, id: string)
    requires k !in m
    ensures m[k := id].Keys == m.Keys + {k}
  {
  }

  lemma FillingNext<E>(c: Codec<E>, pre: map<string, E>, zone: map<string, E>, next: map<string, E>, des: map<string, Record>,
                       todo: set<string>, added: map<string, string>, failed: set<string>, k: string, id: string)
    requires Filling(c, pre, zone, des, todo, added, failed) && k in todo && k !in KeysOf(Listing(c, pre))
    requires c.encode(des[k]).Some? && AddedOne(c, zone, next, c.encode(des[k]).value, id)
    ensures Filling(c, pre, next, des, todo - {k}, added[k := id], failed)
  {
    LedgerStep(des.Keys, KeysOf(Listing(c, pre)), todo, added.Keys, failed, k);
    OneKeyMore(added, k, id);
    AddsOneMore(c, pre, zone, next, des, added, k, id);
    StillOneEach(c, zone, next, c.encode(des[k]).value, id);
  }

  /** The states of the adding loop: the zone, the keys to come, and those done and failed. */
  ghost function Fillings<E(!new)>(c: Codec<E>, pre: map<string, E>, des: map<string, Record>):
    iset<(map<string, E>, set<string>, map<string, string>, set<string>)>
  {
    iset x: (map<string, E>, set<string>, map<string, string>, set<string>) | Filling(c, pre, x.0, des, x.1, x.2, x.3)
  }

  lemma FillingSkips<E(!new)>(c: Codec<E>, pre: map<string, E>, zone: map<string, E>, des: map<string, Record>,
                              todo: set<string>, done: map<string, string>, failed: set<string>, k: string)
    requires (zone, todo, done, failed) in Fillings(c, pre, des) && k in todo
    ensures k in des
    ensures k in KeysOf(Listing(c, pre)) ==> (zone, todo - {k}, done, failed) in Fillings(c, pre, des)
  {
    FillingPast(c, pre, zone, des, todo, done, failed, k);
  }

  /** One round of the adding loop, for a key that is not listed. */
  method AddEntry<E(!new)>(z: EncodedZone<E>, ghost pre: map<string, E>, des: map<string, Record>, ghost todo: set<string>,
                           ghost done: map<string, string>, ghost failed: set<string>, k: string)
    returns (ok: bool, ghost done': map<string, string>)
    requires (z.entries, todo, done, failed) in Fillings(z.codec, pre, des) && k in todo && k in des
    requires k !in KeysOf(Listing(z.codec, pre))
    modifies z
    ensures z.calls == old(z.calls) + [Add(k, ok)] && k !in done && k !in failed
    ensures (z.entries, todo - {k}, done', With(failed, k, !ok)) in Fillings(z.codec, pre, des)
    ensures done'.Keys == With(done.Keys, k, ok)
  {
    ghost var before, id := z.entries, "";
    FillingPast(z.codec, pre, before, des, todo, done, failed, k);
    done' := done;
    ok, id := z.AddRecord(des[k]);
    if ok {
      FillingNext(z.codec, pre, before, z.entries, des, todo, done, failed, k, id);
      done' := done[k := id];
    }
  }

  /** The round and its entry in the books; a key that is listed is passed over. */
  method AddRound<E(!new)>(z: EncodedZone<E>, ghost pre: map<string, E>, des: map<string, Record>, actual: map<string, Record>,
                           ghost start: seq<Call>, ghost todo: set<string>, ghost done: map<string, string>, ghost b: Books, k: string)
    returns (added: nat, failed: nat, ghost done': map<string, string>, ghost b': Books)
    requires (z.entries, todo, done, b.failed) in Fillings(z.codec, pre, des) && b.done == done.Keys && k in todo
    requires (b, z.calls) in AddBooks(start) && actual.Keys == KeysOf(Listing(z.codec, pre))
    modifies z
    ensures (z.entries, todo - {k}, done', b'.failed) in Fillings(z.codec, pre, des) && b'.done == done'.Keys
    ensures (b', z.calls) in AddBooks(start) && b'.granted == b.granted + added && b'.refused == b.refused + failed
  {
    added, failed, done', b' := 0, 0, done, b;
    FillingSkips(z.codec, pre, z.entries, des, todo, done, b.failed, k);
    if k !in actual {
      ghost var calls := z.calls;
      var ok;
      ok, done' := AddEntry(z, pre, des, todo, done, b.failed, k);
      BookAdd(start, calls, b, k, ok);
      b' := Book(b, Add(k, ok), k);
      added, failed := One(ok), One(!ok);
    }
  }

  method AddMissingEntries<E(!new)>(z: EncodedZone<E>, des: map<string, Record>, actual: map<string, Record>)
    returns (added: nat, failures: nat, ghost done: map<string, string>, ghost b: Books)
    requires WellKeyed(des) && OneEach(z.codec, z.entries) && actual.Keys == KeysOf(Listing(z.codec, z.entries))
    modifies z
    ensures (z.entries, {}, done, b.failed) in Fillings(z.codec, old(z.entries), des) && b.done == done.Keys
    ensures (b, z.calls) in AddBooks(old(z.calls)) && added == b.granted && failures == b.refused
  {
    added, failures, done, b := 0, 0, map[], NO_BOOKS;
    ghost var pre, start := z.entries, z.calls;
    var todo := des.Keys;
    FillingStart(z.codec, pre, des);
    BooksOpen(start);
    while todo != {}
      invariant (z.entries, todo, done, b.failed) in Fillings(z.codec, pre, des) && b.done == done.Keys
      invariant (b, z.calls) in AddBooks(start) && added == b.granted && failures == b.refused
      decreases |todo|
    {
      var k :| k in todo;
      var hit, miss;
      hit, miss, done, b := AddRound(z, pre, des, actual, start, todo, done, b, k);
      added, failures := added + hit, failures + miss;
      todo := todo - {k};
    }
  }

  // ---------- The deleting loop ----------

  /** The records of the keys to come have not been deleted. */
  ghost predicate StillThere(actual: map<string, Record>, ids: set<string>, todo: set<string>) {
    forall k :: k in todo ==> k in actual && actual[k].id in ids
  }

  lemma OthersStillThere(actual: map<string, Record>, ids: set<string>, todo: set<string>, k: string)
    requires StillThere(actual, ids, todo) && k in todo && forall j :: j in actual ==> RecordKey(actual[j]) == j
    requires forall i, j :: i in actual && j in actual && actual[i].id == actual[j].id ==> actual[i] == actual[j]
    ensures StillThere(actual, ids - {actual[k].id}, todo - {k})
  {
  }

  lemma ListedByHandle(actual: map<string, Record>, zone: Records)
    requires Listed(actual, zone)
    ensures forall j :: j in actual ==> RecordKey(actual[j]) == j
    ensures forall i, j :: i in actual && j in actual && actual[i].id == actual[j].id ==> actual[i] == actual[j]
  {
  }

  /** How far the deleting loop has got. */
  ghost predicate Emptying<E>(c: Codec<E>, pre: map<string, E>, zone: map<string, E>, des: map<string, Record>,
                              actual: map<string, Record>, todo: set<string>, w: Work, failed: set<string>)
  {
    && EncodedWork(c, pre, zone, des, w) && Listed(actual, Listing(c, pre)) && StillThere(actual, zone.Keys, todo)
    && Ledger(actual.Keys, des.Keys, todo, w.deleted.Keys, failed)
  }

  lemma EmptyingPast<E>(c: Codec<E>, pre: map<string, E>, zone: map<string, E>, des: map<string, Record>,
                        actual: map<string, Record>, todo: set<string>, w: Work, failed: set<string>, k: string)
    requires Emptying(c, pre, zone, des, actual, todo, w, failed) && k in todo
    ensures k in actual
    ensures k !in des ==> k !in failed
    ensures k in des ==> Emptying(c, pre, zone, des, actual, todo - {k}, w, failed)
    ensures k !in des ==>
              k !in w.deleted && Emptying(c, pre, zone, des, actual, todo - {k}, w, failed + {k})
  {
    LedgerStep(actual.Keys, des.Keys, todo, w.deleted.Keys, failed, k);
  }

  /** A delete of a listed record that is still there takes out that record's entry and no other. */
  lemma FoundIsOne<E>(c: Codec<E>, pre: map<string, E>, zone: map<string, E>, r: Record)
    requires OneEach(c, zone) && r.id in Listing(c, pre) && Listing(c, pre)[r.id] == r
    requires r.id in zone && zone[r.id] == pre[r.id]
    ensures Found(c, zone, r) == {r.id}
  {
    if c.single {
      forall id
        ensures id in Found(c, zone, r) <==> id == r.id
      {
        if id in Found(c, zone, r) {
          assert SameEntry(c, zone[id], zone[r.id]);
        }
      }
    }
  }

  lemma AddsStay<E>(c: Codec<E>, pre: map<string, E>, zone: map<string, E>, des: map<string, Record>, w: Work, x: Work, id: string)
    requires Adds(c, pre, zone, des, w) && id in pre && x.added == w.added
    ensures Adds(c, pre, zone - {id}, des, x)
  {
    var next := zone - {id};
    forall j | j in x.added
      ensures c.encode(des[j]).Some? && AddedAs(c, pre, next, x.added[j], c.encode(des[j]).value)
    {
      assert AddedAs(c, pre, zone, w.added[j], c.encode(des[j]).value);
    }
    forall i | i in next && i !in pre
      ensures AddedFor(c, pre, next, des, x, i)
    {
      assert AddedFor(c, pre, zone, des, w, i);
    }
  }

  lemma DeletedForMore(w: Work, x: Work, k: string, id: string, i: string)
    requires k !in w.deleted && x.deleted == w.deleted[k := id] && (i == id || DeletedFor(w, i))
    ensures DeletedFor(x, i)
  {
    if i == id {
      assert x.deleted[k] == i;
    } else {
      var j :| j in w.deleted && w.deleted[j] == i;
      assert x.deleted[j] == i;
    }
  }

  lemma DeletesOneMore<E>(c: Codec<E>, pre: map<string, E>, zone: map<string, E>, des: map<string, Record>, w: Work, x: Work,
                          k: string, id: string)
    requires Deletes(c, pre, zone, des, w) && k in StrayKeys(c, pre, des) && k !in w.deleted && x.deleted == w.deleted[k := id]
    requires id in Listing(c, pre) && RecordKey(Listing(c, pre)[id]) == k && id in zone
    ensures Deletes(c, pre, zone - {id}, des, x)
  {
    forall i | i in pre && i !in zone - {id}
      ensures DeletedFor(x, i)
    {
      DeletedForMore(w, x, k, id, i);
    }
  }

  lemma FewerStillOneEach<E>(c: Codec<E>, zone: map<string, E>, id: string)
    requires OneEach(c, zone)
    ensures OneEach(c, zone - {id})
  {
  }

  lemma WorkOneMore<E>(c: Codec<E>, pre: map<string, E>, zone: map<string, E>, des: map<string, Record>, w: Work, k: string, id: string)
    requires EncodedWork(c, pre, zone, des, w) && k in StrayKeys(c, pre, des) && k !in w.deleted
    requires id in Listing(c, pre) && RecordKey(Listing(c, pre)[id]) == k && id in zone
    ensures EncodedWork(c, pre, zone - {id}, des, w.(deleted := w.deleted[k := id]))
  {
    var x := w.(deleted := w.deleted[k := id]);
    AddsStay(c, pre, zone, des, w, x, id);
    DeletesOneMore(c, pre, zone, des, w, x, k, id);
    FewerStillOneEach(c, zone, id);
  }

  lemma EmptyingNext<E>(c: Codec<E>, pre: map<string, E>, zone: map<string, E>, next: map<string, E>, des: map<string, Record>,
                        actual: map<string, Record>, todo: set<string>, w: Work, failed: set<string>, k: string)
    requires Emptying(c, pre, zone, des, actual, todo, w, failed) && k in todo && k !in des
    requires next == zone - Found(c, zone, actual[k])
    ensures var x := w.(deleted := w.deleted[k := actual[k].id]);
            Emptying(c, pre, next, des, actual, todo - {k}, x, failed)
  {
    var id := actual[k].id;
    LedgerStep(actual.Keys, des.Keys, todo, w.deleted.Keys, failed, k);
    OneKeyMore(w.deleted, k, id);
    FoundIsOne(c, pre, zone, actual[k]);
    WorkOneMore(c, pre, zone, des, w, k, id);
    ListedByHandle(actual, Listing(c, pre));
    OthersStillThere(actual, zone.Keys, todo, k);
    assert next.Keys == zone.Keys - {id};
  }

  /** The states of the deleting loop: the zone, the keys to come, the work done, and the keys that failed. */
  ghost function Emptyings<E(!new)>(c: Codec<E>, pre: map<string, E>, des: map<string, Record>, actual: map<string, Record>):
    iset<(map<string, E>, set<string>, Work, set<string>)>
  {
    iset x: (map<string, E>, set<string>, Work, set<string>) | Emptying(c, pre, x.0, des, actual, x.1, x.2, x.3)
  }

  lemma EmptyingStart<E(!new)>(c: Codec<E>, pre: map<string, E>, zone: map<string, E>, des: map<string, Record>,
                         actual: map<string, Record>, added: map<string, string>, failed: set<string>)
    requires Filling(c, pre, zone, des, {}, added, failed) && Listed(actual, Listing(c, pre))
    ensures (zone, actual.Keys, Work(added, map[]), {}) in Emptyings(c, pre, des, actual)
  {
    LedgerStart(actual.Keys, des.Keys);
  }

  lemma EmptyingSkips<E(!new)>(c: Codec<E>, pre: map<string, E>, zone: map<string, E>, des: map<string, Record>,
                               actual: map<string, Record>, todo: set<string>, w: Work, failed: set<string>, k: string)
    requires (zone, todo, w, failed) in Emptyings(c, pre, des, actual) && k in todo
    ensures k in actual
    ensures k in des ==> (zone, todo - {k}, w, failed) in Emptyings(c, pre, des, actual)
  {
    EmptyingPast(c, pre, zone, des, actual, todo, w, failed, k);
  }

  lemma EmptyingRefused<E(!new)>(c: Codec<E>, pre: map<string, E>, zone: map<string, E>, des: map<string, Record>,
                                 actual: map<string, Record>, todo: set<string>, w: Work, failed: set<string>, k: string)
    requires (zone, todo, w, failed) in Emptyings(c, pre, des, actual) && k in todo && k !in des
    ensures (zone, todo - {k}, w, failed + {k}) in Emptyings(c, pre, des, actual)
    ensures k !in w.deleted && k !in failed
  {
    EmptyingPast(c, pre, zone, des, actual, todo, w, failed, k);
  }

  lemma EmptyingGranted<E(!new)>(c: Codec<E>, pre: map<string, E>, zone: map<string, E>, next: map<string, E>,
                                 des: map<string, Record>, actual: map<string, Record>, todo: set<string>, w: Work,
                                 failed: set<string>, k: string) returns (x: Work)
    requires (zone, todo, w, failed) in Emptyings(c, pre, des, actual) && k in todo && k in actual && k !in des
    requires next == zone - Found(c, zone, actual[k])
    ensures (next, todo - {k}, x, failed) in Emptyings(c, pre, des, actual) && x.added == w.added
    ensures x.deleted.Keys == w.deleted.Keys + {k}
  {
    EmptyingNext(c, pre, zone, next, des, actual, todo, w, failed, k);
    x := w.(deleted := w.deleted[k := actual[k].id]);
  }

  lemma EmptyingKey<E(!new)>(c: Codec<E>, pre: map<string, E>, zone: map<string, E>, des: map<string, Record>,
                             actual: map<string, Record>, todo: set<string>, w: Work, failed: set<string>, k: string)
    requires (zone, todo, w, failed) in Emptyings(c, pre, des, actual) && k in actual
    ensures RecordKey(actual[k]) == k
  {
    assert Listed(actual, Listing(c, pre));
  }

  /** The states of the deleting loop with its books; the additions are those of `adding`. */
  ghost function DropStates<E(!new)>(c: Codec<E>, pre: map<string, E>, des: map<string, Record>, actual: map<string, Record>, adding: Work):
    iset<(map<string, E>, set<string>, Work, Books)>
  {
    iset x: (map<string, E>, set<string>, Work, Books) |
      (x.0, x.1, x.2, x.3.failed) in Emptyings(c, pre, des, actual) && x.2.added == adding.added && x.3.done == x.2.deleted.Keys
  }

  lemma DropSkips<E(!new)>(c: Codec<E>, pre: map<string, E>, zone: map<string, E>, des: map<string, Record>,
                           actual: map<string, Record>, adding: Work, todo: set<string>, w: Work, b: Books, k: string)
    requires (zone, todo, w, b) in DropStates(c, pre, des, actual, adding) && k in todo
    ensures k in actual
    ensures k in des ==> (zone, todo - {k}, w, b) in DropStates(c, pre, des, actual, adding)
  {
    EmptyingSkips(c, pre, zone, des, actual, todo, w, b.failed, k);
  }

  /** One round of the deleting loop, for a stray key. */
  method DropEntry<E(!new)>(z: EncodedZone<E>, ghost pre: map<string, E>, des: map<string, Record>, actual: map<string, Record>,
                            ghost adding: Work, ghost todo: set<string>, ghost w: Work, ghost b: Books, k: string)
    returns (ok: bool, ghost w': Work)
    requires (z.entries, todo, w, b) in DropStates(z.codec, pre, des, actual, adding) && k in todo && k in actual && k !in des
    modifies z
    ensures z.calls == old(z.calls) + [Delete(k, ok)] && k !in b.done && k !in b.failed
    ensures (z.entries, todo - {k}, w', Book(b, Delete(k, ok), k)) in DropStates(z.codec, pre, des, actual, adding)
  {
    ghost var before := z.entries;
    EmptyingRefused(z.codec, pre, before, des, actual, todo, w, b.failed, k);
    EmptyingKey(z.codec, pre, before, des, actual, todo, w, b.failed, k);
    w' := w;
    ok := z.DeleteRecord(actual[k]);
    if ok {
      w' := EmptyingGranted(z.codec, pre, before, z.entries, des, actual, todo, w, b.failed, k);
    }
  }

  /** The round and its entry in the books; a wanted key is passed over. */
  method DropRound<E(!new)>(z: EncodedZone<E>, ghost pre: map<string, E>, des: map<string, Record>, actual: map<string, Record>,
                            ghost adding: Work, ghost start: seq<Call>, ghost todo: set<string>, ghost w: Work, ghost b: Books, k: string)
    returns (deleted: nat, failed: nat, ghost w': Work, ghost b': Books)
    requires (z.entries, todo, w, b) in DropStates(z.codec, pre, des, actual, adding) && k in todo
    requires (b, z.calls) in DeleteBooks(start)
    modifies z
    ensures (z.entries, todo - {k}, w', b') in DropStates(z.codec, pre, des, actual, adding) && (b', z.calls) in DeleteBooks(start)
    ensures b'.granted == b.granted + deleted && b'.refused == b.refused + failed
  {
    deleted, failed, w', b' := 0, 0, w, b;
    DropSkips(z.codec, pre, z.entries, des, actual, adding, todo, w, b, k);
    if k !in des {
      ghost var calls := z.calls;
      var ok;
      ok, w' := DropEntry(z, pre, des, actual, adding, todo, w, b, k);
      BookDelete(start, calls, b, k, ok);
      b' := Book(b, Delete(k, ok), k);
      deleted, failed := One(ok), One(!ok);
    }
  }

  method DropStrayEntries<E(!new)>(z: EncodedZone<E>, ghost pre: map<string, E>, des: map<string, Record>, actual: map<string, Record>,
                                   ghost adding: Work)
    returns (deleted: nat, failures: nat, ghost w: Work, ghost b: Books)
    requires (z.entries, actual.Keys, adding, NO_BOOKS) in DropStates(z.codec, pre, des, actual, adding)
    modifies z
    ensures (z.entries, {}, w, b) in DropStates(z.codec, pre, des, actual, adding)
    ensures (b, z.calls) in DeleteBooks(old(z.calls)) && deleted == b.granted && failures == b.refused
  {
    deleted, failures, w, b := 0, 0, adding, NO_BOOKS;
    ghost var start := z.calls;
    var todo := actual.Keys;
    BooksOpen(start);
    while todo != {}
      invariant (z.entries, todo, w, b) in DropStates(z.codec, pre, des, actual, adding)
      invariant (b, z.calls) in DeleteBooks(start) && deleted == b.granted && failures == b.refused
      decreases |todo|
    {
      var k :| k in todo;
      var hit, miss;
      hit, miss, w, b := DropRound(z, pre, des, actual, adding, start, todo, w, b, k);
      deleted, failures := deleted + hit, failures + miss;
      todo := todo - {k};
    }
  }

  // ---------- The zone ----------

  /**
   What one call did: the zone before and after, the records it was to hold, the operations done and those that failed,
   and what was asked of the provider, with its answers.
   */
  datatype EncodedAccount<E> = EncodedAccount(pre: map<string, E>, post: map<string, E>, des: map<string, Record>, compared: bool,
                                              work: Work, failedAdds: set<string>, failedDels: set<string>, calls: seq<Call>)

  /** Every difference was tried, and either applied or failed; the zone is OK exactly when nothing failed. */
  ghost predicate EncodedCompared<E>(c: Codec<E>, zs: ZoneStatus, p: EncodedAccount<E>) {
    && EncodedWork(c, p.pre, p.post, p.des, p.work)
    && p.failedAdds !! p.work.added.Keys && p.failedAdds + p.work.added.Keys == Missing(c, p.pre, p.des)
    && p.failedDels !! p.work.deleted.Keys && p.failedDels + p.work.deleted.Keys == StrayKeys(c, p.pre, p.des)
    && zs.desired == |p.des.Keys| && zs.actual == |KeysOf(Listing(c, p.pre))|
    && zs.added == |p.work.added| && zs.deleted == |p.work.deleted|
    && (zs.ok <==> p.failedAdds == {} && p.failedDels == {})
  }

  ghost predicate EncodedAccounted<E>(c: Codec<E>, db: Tables, zone: int, zs: ZoneStatus, p: EncodedAccount<E>) {
    && DesiredOf(db, zone, p.des)
    && (p.compared ==> EncodedCompared(c, zs, p))
    && (!p.compared ==> !zs.ok && zs.added == 0 && zs.deleted == 0 && p.post == p.pre)
    && Answered(p.calls, p.compared, p.work.added.Keys, p.failedAdds, p.work.deleted.Keys, p.failedDels)
  }

  /** The zone is reported OK exactly when nothing that was asked was refused, by provider or adapter. */
  lemma EncodedOkIffAllGranted<E>(c: Codec<E>, db: Tables, zone: int, zs: ZoneStatus, p: EncodedAccount<E>)
    requires EncodedAccounted(c, db, zone, zs, p)
    ensures zs.ok <==> AllGranted(p.calls)
  {
    GrantedMeansDone(p.calls, p.compared, p.work.added.Keys, p.failedAdds, p.work.deleted.Keys, p.failedDels);
  }

  lemma EmptyingEnd<E(!new)>(c: Codec<E>, pre: map<string, E>, zone: map<string, E>, des: map<string, Record>,
                             actual: map<string, Record>, adding: Work, w: Work, b: Books)
    requires (zone, {}, w, b) in DropStates(c, pre, des, actual, adding)
    ensures EncodedWork(c, pre, zone, des, w) && w.added == adding.added && b.done == w.deleted.Keys
    ensures b.failed !! b.done && b.failed + b.done == actual.Keys - des.Keys
  {
    LedgerEnd(actual.Keys, des.Keys, w.deleted.Keys, b.failed);
  }

  lemma FillingEnd<E(!new)>(c: Codec<E>, pre: map<string, E>, zone: map<string, E>, des: map<string, Record>,
                            actual: map<string, Record>, done: map<string, string>, failed: set<string>)
    requires (zone, {}, done, failed) in Fillings(c, pre, des) && Listed(actual, Listing(c, pre))
    ensures failed !! done.Keys && failed + done.Keys == des.Keys - actual.Keys
    ensures (zone, actual.Keys, Work(done, map[]), NO_BOOKS) in DropStates(c, pre, des, actual, Work(done, map[]))
  {
    EmptyingStart(c, pre, zone, des, actual, done, failed);
    LedgerEnd(des.Keys, actual.Keys, done.Keys, failed);
  }

  /** What the two loops came to: the work, and the books of the adds and of the deletes. */
  ghost predicate Worked<E(!new)>(c: Codec<E>, pre: map<string, E>, post: map<string, E>, des: map<string, Record>,
                                  actual: map<string, Record>, w: Work, adds: Books, dels: Books)
  {
    && EncodedWork(c, pre, post, des, w) && adds.done == w.added.Keys && dels.done == w.deleted.Keys
    && adds.failed !! adds.done && adds.failed + adds.done == des.Keys - actual.Keys
    && dels.failed !! dels.done && dels.failed + dels.done == actual.Keys - des.Keys
    && AddsMade(adds.made, adds.done, adds.failed) && adds.granted == |adds.done| && adds.refused == |adds.failed|
    && DeletesMade(dels.made, dels.done, dels.failed) && dels.granted == |dels.done| && dels.refused == |dels.failed|
  }

  /** The account of a pass that got as far as comparing, from what its two loops did. */
  lemma ComparedFrom<E(!new)>(c: Codec<E>, pre: map<string, E>, post: map<string, E>, des: map<string, Record>,
                              actual: map<string, Record>, w: Work, adds: Books, dels: Books, zs: ZoneStatus)
    returns (p: EncodedAccount<E>)
    requires Worked(c, pre, post, des, actual, w, adds, dels) && actual.Keys == KeysOf(Listing(c, pre))
    requires zs.desired == |des.Keys| && zs.actual == |actual.Keys| && zs.added == adds.granted && zs.deleted == dels.granted
    requires zs.ok <==> adds.refused == 0 && dels.refused == 0
    ensures p.compared && p.pre == pre && p.post == post && p.des == des && EncodedCompared(c, zs, p)
    ensures p.calls == [Ensure(true), List(true)] + adds.made + dels.made
    ensures Answered(p.calls, true, p.work.added.Keys, p.failedAdds, p.work.deleted.Keys, p.failedDels)
  {
    var calls := [Ensure(true), List(true)] + adds.made + dels.made;
    assert MadeOf(calls, adds.made, dels.made);
    p := EncodedAccount(pre, post, des, true, w, adds.failed, dels.failed, calls);
    assert |w.added| == |w.added.Keys| && |w.deleted| == |w.deleted.Keys|;
  }

  /** The two loops. */
  method ApplyDifferences<E(!new)>(z: EncodedZone<E>, desired: map<string, Record>, actual: map<string, Record>)
    returns (added: nat, addErrs: nat, deleted: nat, delErrs: nat, ghost w: Work, ghost adds: Books, ghost dels: Books)
    requires WellKeyed(desired) && OneEach(z.codec, z.entries) && Listed(actual, Listing(z.codec, z.entries))
    modifies z
    ensures Worked(z.codec, old(z.entries), z.entries, desired, actual, w, adds, dels)
    ensures z.calls == old(z.calls) + adds.made + dels.made
    ensures added == adds.granted && addErrs == adds.refused && deleted == dels.granted && delErrs == dels.refused
  {
    ghost var before, begun := z.entries, z.calls;
    ghost var done;
    added, addErrs, done, adds := AddMissingEntries(z, desired, actual);
    ghost var between := z.calls;
    FillingEnd(z.codec, before, z.entries, desired, actual, done, adds.failed);
    AddsClosed(begun, between, adds);
    deleted, delErrs, w, dels := DropStrayEntries(z, before, desired, actual, Work(done, map[]));
    EmptyingEnd(z.codec, before, z.entries, desired, actual, Work(done, map[]), w, dels);
    DeletesClosed(between, z.calls, dels);
  }

  /** The rest of a call once the zone is listed. */
  method CompareEntries<E(!new)>(z: EncodedZone<E>, desired: map<string, Record>, list: seq<Record>, ghost start: seq<Call>)
    returns (zs: ZoneStatus, ghost p: EncodedAccount<E>)
    requires WellKeyed(desired) && OneEach(z.codec, z.entries) && z.calls == start + [Ensure(true), List(true)]
    requires forall r :: r in list <==> r in Listing(z.codec, z.entries).Values
    modifies z
    ensures zs.name == z.name && p.compared && p.pre == old(z.entries) && p.post == z.entries && p.des == desired
    ensures EncodedCompared(z.codec, zs, p) && z.calls == start + p.calls
    ensures Answered(p.calls, true, p.work.added.Keys, p.failedAdds, p.work.deleted.Keys, p.failedDels)
  {
    ghost var before := z.entries;
    var actual := KeyUp(list);
    ListedRecords(list, actual, Listing(z.codec, before));
    var added, addErrs, deleted, delErrs;
    ghost var w, adds, dels;
    added, addErrs, deleted, delErrs, w, adds, dels := ApplyDifferences(z, desired, actual);
    zs := ZoneStatus(z.name, addErrs == 0 && delErrs == 0, |desired.Keys|, |actual.Keys|, added, deleted);
    p := ComparedFrom(z.codec, before, z.entries, desired, actual, w, adds, dels, zs);
    CallsAfter(start, [Ensure(true), List(true)], adds.made, dels.made);
  }

  method ReconcileEntries<E(!new)>(db: Tables, zone: int, z: EncodedZone<E>) returns (zs: ZoneStatus, ghost p: EncodedAccount<E>)
    requires OneEach(z.codec, z.entries)
    modifies z
    ensures zs.name == z.name && p.pre == old(z.entries) && p.post == z.entries && OneEach(z.codec, z.entries)
    ensures z.calls == old(z.calls) + p.calls
    ensures EncodedAccounted(z.codec, db, zone, zs, p)
  {
    var desired := LoadDesired(db, zone);
    ghost var start := z.calls;
    zs := ZoneStatus(z.name, false, |desired.Keys|, 0, 0, 0);
    var ok := z.EnsureZone();
    p := EncodedAccount(z.entries, z.entries, desired, false, Work(map[], map[]), {}, {}, [Ensure(ok)]);
    if !ok {
      return;
    }
    var list;
    ok, list := z.ListRecords();
    p := p.(calls := [Ensure(true), List(ok)]);
    CallsJoin(start, [Ensure(true)], List(ok));
    if !ok {
      return;
    }
    zs, p := CompareEntries(z, desired, list, start);
  }

  lemma NothingFailed(failed: set<string>, done: set<string>, all: set<string>)
    requires failed == {} && failed + done == all
    ensures done == all
  {
  }

  /** A zone is reported OK only when the pass was one without failures. */
  lemma OkIsEncodedPass<E>(c: Codec<E>, db: Tables, zone: int, zs: ZoneStatus, p: EncodedAccount<E>)
    requires EncodedAccounted(c, db, zone, zs, p) && zs.ok
    ensures EncodedPass(c, p.pre, p.post, p.des, p.work) && DesiredOf(db, zone, p.des)
  {
    NothingFailed(p.failedAdds, p.work.added.Keys, Missing(c, p.pre, p.des));
    NothingFailed(p.failedDels, p.work.deleted.Keys, StrayKeys(c, p.pre, p.des));
  }

  /** If nothing is refused, the zone is reported OK and the pass is one without failures. */
  lemma GrantedIsEncodedPass<E>(c: Codec<E>, db: Tables, zone: int, zs: ZoneStatus, p: EncodedAccount<E>)
    requires EncodedAccounted(c, db, zone, zs, p) && AllGranted(p.calls)
    ensures zs.ok && EncodedPass(c, p.pre, p.post, p.des, p.work) && DesiredOf(db, zone, p.des)
  {
    EncodedOkIffAllGranted(c, db, zone, zs, p);
    OkIsEncodedPass(c, db, zone, zs, p);
  }

  // ---------- Calls in a row ----------

  ghost predicate OkCallAt<E>(c: Codec<E>, db: Tables, zone: int, calls: seq<EncodedAccount<E>>, statuses: seq<ZoneStatus>, i: nat)
    requires |calls| == |statuses| && i < |calls|
  {
    EncodedAccounted(c, db, zone, statuses[i], calls[i]) && statuses[i].ok && (i > 0 ==> calls[i - 1].post == calls[i].pre)
  }

  /** Calls on one zone that were all reported OK, over an unchanged store. */
  ghost predicate OkCalls<E>(c: Codec<E>, db: Tables, zone: int, calls: seq<EncodedAccount<E>>, statuses: seq<ZoneStatus>) {
    |calls| == |statuses| && forall i: nat :: i < |calls| ==> OkCallAt(c, db, zone, calls, statuses, i)
  }

  function SeriesOf<E>(calls: seq<EncodedAccount<E>>): (t: Series<E>)
    requires |calls| >= 1
    ensures |t.zones| == |calls| + 1 && t.zones[0] == calls[0].pre && |t.loaded| == |t.works| == |calls|
    ensures forall i :: 0 <= i < |calls| ==> t.zones[i + 1] == calls[i].post && t.loaded[i] == calls[i].des && t.works[i] == calls[i].work
  {
    Series([calls[0].pre] + seq(|calls|, i requires 0 <= i < |calls| => calls[i].post),
           seq(|calls|, i requires 0 <= i < |calls| => calls[i].des),
           seq(|calls|, i requires 0 <= i < |calls| => calls[i].work))
  }

  /** What a record lists back under does not depend on its TTL. */
  ghost predicate TtlBlind<E(!new)>(c: Codec<E>) {
    forall x: Record, y: Record :: x.(ttl := 0) == y.(ttl := 0) ==> BackKey(c, x) == BackKey(c, y)
  }

  lemma LoadedLike<E(!new)>(c: Codec<E>, db: Tables, zone: int, x: map<string, Record>, des: map<string, Record>)
    requires TtlBlind(c) && DesiredOf(db, zone, x) && DesiredOf(db, zone, des)
    ensures Like(c, x, des)
  {
    LoadedTwice(db, zone, x, des);
    forall k | k in des
      ensures BackKey(c, x[k]) == BackKey(c, des[k])
    {
      assert x[k].(ttl := 0) == des[k].(ttl := 0);
    }
  }

  lemma OkCallsArePasses<E(!new)>(c: Codec<E>, db: Tables, zone: int, calls: seq<EncodedAccount<E>>, statuses: seq<ZoneStatus>)
    requires TtlBlind(c) && OkCalls(c, db, zone, calls, statuses) && |calls| >= 1
    ensures EncodedPasses(c, SeriesOf(calls), calls[0].des) && DesiredOf(db, zone, calls[0].des)
  {
    var t, des := SeriesOf(calls), calls[0].des;
    OkCallIsPass(c, db, zone, calls, statuses, 0);
    forall i: nat | i < |calls|
      ensures PassAt(c, t, des, i)
    {
      OkCallIsPass(c, db, zone, calls, statuses, i);
      LoadedLike(c, db, zone, calls[i].des, des);
      if i > 0 {
        assert t.zones[i - 1 + 1] == calls[i - 1].post;
      }
    }
  }

  lemma OkCallIsPass<E>(c: Codec<E>, db: Tables, zone: int, calls: seq<EncodedAccount<E>>, statuses: seq<ZoneStatus>, i: nat)
    requires OkCalls(c, db, zone, calls, statuses) && i < |calls|
    ensures EncodedPass(c, calls[i].pre, calls[i].post, calls[i].des, calls[i].work) && DesiredOf(db, zone, calls[i].des)
    ensures i > 0 ==> calls[i - 1].post == calls[i].pre
  {
    assert OkCallAt(c, db, zone, calls, statuses, i);
    OkIsEncodedPass(c, db, zone, statuses[i], calls[i]);
  }
}
