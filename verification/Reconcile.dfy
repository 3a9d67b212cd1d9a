/**
 `reconcileZone` and `reconcileProvider`: one pass that adds what a zone lacks and deletes what it should not
 hold, under arbitrary failures of single operations. PassOf says exactly what a pass did to the remote zone.
 */
module Reconcile {
  import opened Database
  import opened Storage
  import opened Remote

  datatype ZoneStatus = ZoneStatus(name: string, ok: bool, desired: nat, actual: nat, added: nat, deleted: nat)

  datatype ProviderStatus = ProviderStatus(ok: bool, zones: seq<ZoneStatus>, added: nat, deleted: nat)

  // ---------- The two maps that are compared ----------

  function Wanting(row: Row): Record {
    Record(row.name, TypeName(row.rtype), row.value, row.ttl, "")
  }

  /** Keyed by identity; of two rows with one key the later stays. */
  ghost predicate Keyed(m: map<string, Record>, list: seq<Record>) {
    (forall k :: k in m ==> m[k] in list && RecordKey(m[k]) == k) && (forall r :: r in list ==> RecordKey(r) in m)
  }

  method KeyUp(list: seq<Record>) returns (m: map<string, Record>)
    ensures Keyed(m, list)
  {
    m := map[];
    for k := 0 to |list|
      invariant Keyed(m, list[..k])
    {
      m := m[RecordKey(list[k]) := list[k]];
      assert list[..k + 1] == list[..k] + [list[k]];
    }
    assert list[..|list|] == list;
  }

  function KeyOfRow(row: Row): string {
    RecordKey(Wanting(row))
  }

  /** The last row with the key. */
  ghost predicate LastWith(rows: seq<Row>, k: string, j: int) {
    0 <= j < |rows| && KeyOfRow(rows[j]) == k && forall i :: j < i < |rows| ==> KeyOfRow(rows[i]) != k
  }

  /** Each key of a row has the record of the last row with that key. */
  ghost predicate KeyedRows(m: map<string, Record>, rows: seq<Row>) {
    && (forall j :: 0 <= j < |rows| ==> KeyOfRow(rows[j]) in m)
    && (forall k :: k in m ==> exists j :: LastWith(rows, k, j) && m[k] == Wanting(rows[j]))
  }

  lemma LastStaysLast(rows: seq<Row>, row: Row, k: string, j: int)
    requires LastWith(rows, k, j) && KeyOfRow(row) != k
    ensures LastWith(rows + [row], k, j) && (rows + [row])[j] == rows[j]
  {
  }

  lemma KeyedNext(m: map<string, Record>, rows: seq<Row>, row: Row)
    requires KeyedRows(m, rows)
    ensures KeyedRows(m[KeyOfRow(row) := Wanting(row)], rows + [row])
  {
    var more, key := rows + [row], KeyOfRow(row);
    var next := m[key := Wanting(row)];
    forall k | k in next
      ensures exists j :: LastWith(more, k, j) && next[k] == Wanting(more[j])
    {
      if k == key {
        assert LastWith(more, k, |rows|);
      } else {
        var j :| LastWith(rows, k, j) && m[k] == Wanting(rows[j]);
        LastStaysLast(rows, row, k, j);
      }
    }
  }

  method KeyUpRows(rows: seq<Row>) returns (m: map<string, Record>)
    ensures KeyedRows(m, rows)
  {
    m := map[];
    for i := 0 to |rows|
      invariant KeyedRows(m, rows[..i])
    {
      KeyedNext(m, rows[..i], rows[i]);
      assert rows[..i] + [rows[i]] == rows[..i + 1];
      var r := Wanting(rows[i]);
      m := m[RecordKey(r) := r];
    }
    assert rows[..|rows|] == rows;
  }

  // ---------- What one pass does ----------

  ghost predicate New(pre: Records, post: Records, id: string) {
    id in post && id !in pre
  }

  ghost predicate Gone(pre: Records, post: Records, id: string) {
    id in pre && id !in post
  }

  /** Records that stay are unchanged, and each new one is the desired record of a key the zone lacked. */
  ghost predicate AddsOnlyMissing(pre: Records, post: Records, des: map<string, Record>) {
    && (forall id :: id in pre && id in post ==> post[id] == pre[id])
    && (forall id :: New(pre, post, id) ==>
          RecordKey(post[id]) in des && RecordKey(post[id]) !in KeysOf(pre) && post[id] == des[RecordKey(post[id])].(id := id))
    && (forall i, j :: New(pre, post, i) && New(pre, post, j) && RecordKey(post[i]) == RecordKey(post[j]) ==> i == j)
  }

  /** Each record gone had a stray key, and at most one copy of a key is gone. */
  ghost predicate DropsOnlyStrays(pre: Records, post: Records, des: map<string, Record>) {
    && (forall id :: Gone(pre, post, id) ==> RecordKey(pre[id]) !in des)
    && (forall i, j :: Gone(pre, post, i) && Gone(pre, post, j) && RecordKey(pre[i]) == RecordKey(pre[j]) ==> i == j)
  }

  ghost predicate PassOf(pre: Records, post: Records, des: map<string, Record>) {
    AddsOnlyMissing(pre, post, des) && DropsOnlyStrays(pre, post, des)
  }

  ghost function AddedKeys(pre: Records, post: Records): set<string> {
    set id | id in post && id !in pre :: RecordKey(post[id])
  }

  ghost function DroppedKeys(pre: Records, post: Records): set<string> {
    set id | id in pre && id !in post :: RecordKey(pre[id])
  }

  ghost predicate WellKeyed(des: map<string, Record>) {
    forall k :: k in des ==> RecordKey(des[k]) == k
  }

  lemma AddStep(pre: Records, mid: Records, des: map<string, Record>, k: string, id: string)
    requires AddsOnlyMissing(pre, mid, des) && pre.Keys <= mid.Keys && k in des && RecordKey(des[k]) == k
    requires k !in KeysOf(pre) && k !in AddedKeys(pre, mid) && id !in mid
    ensures var post := mid[id := des[k].(id := id)];
            AddsOnlyMissing(pre, post, des) && AddedKeys(pre, post) == AddedKeys(pre, mid) + {k}
  {
    var post := mid[id := des[k].(id := id)];
    assert RecordKey(post[id]) == k;
    forall i | New(pre, post, i) && i != id
      ensures New(pre, mid, i) && post[i] == mid[i] && RecordKey(post[i]) != k
    {
      assert RecordKey(mid[i]) in AddedKeys(pre, mid);
    }
    forall j
      ensures j in AddedKeys(pre, post) <==> j in AddedKeys(pre, mid) + {k}
    {
      if j in AddedKeys(pre, mid) {
        var i :| New(pre, mid, i) && RecordKey(mid[i]) == j;
        assert New(pre, post, i) && post[i] == mid[i];
      }
      if j == k {
        assert New(pre, post, id);
      }
    }
  }

  /** Every key seen so far and not to be skipped is either done or failed. */
  ghost predicate Ledger(all: set<string>, skip: set<string>, todo: set<string>, done: set<string>, failed: set<string>) {
    todo <= all && failed !! done && forall k :: k in failed || k in done <==> k in all && k !in todo && k !in skip
  }

  lemma LedgerStart(all: set<string>, skip: set<string>)
    ensures Ledger(all, skip, all, {}, {})
  {
  }

  lemma LedgerStep(all: set<string>, skip: set<string>, todo: set<string>, done: set<string>, failed: set<string>, k: string)
    requires Ledger(all, skip, todo, done, failed) && k in todo
    ensures k in skip ==> Ledger(all, skip, todo - {k}, done, failed)
    ensures k !in skip ==> Ledger(all, skip, todo - {k}, done + {k}, failed) && |done + {k}| == |done| + 1
    ensures k !in skip ==> Ledger(all, skip, todo - {k}, done, failed + {k}) && |failed + {k}| == |failed| + 1
  {
  }

  lemma LedgerEnd(all: set<string>, skip: set<string>, done: set<string>, failed: set<string>)
    requires Ledger(all, skip, {}, done, failed)
    ensures failed !! done && failed + done == all - skip
  {
  }

  /** How far the adding loop has got. */
  ghost predicate Adding(pre: Records, zone: Records, des: map<string, Record>, skip: set<string>, todo: set<string>,
                         done: set<string>, failed: set<string>)
  {
    && AddsOnlyMissing(pre, zone, des) && pre.Keys <= zone.Keys && done == AddedKeys(pre, zone) && skip == KeysOf(pre)
    && WellKeyed(des) && Ledger(des.Keys, skip, todo, done, failed)
  }

  lemma AddingStart(pre: Records, des: map<string, Record>)
    requires WellKeyed(des)
    ensures Adding(pre, pre, des, KeysOf(pre), des.Keys, {}, {})
  {
    LedgerStart(des.Keys, KeysOf(pre));
  }

  lemma AddingNext(pre: Records, zone: Records, des: map<string, Record>, skip: set<string>, todo: set<string>,
                   done: set<string>, failed: set<string>, k: string)
    requires Adding(pre, zone, des, skip, todo, done, failed) && k in todo
    ensures k in des && RecordKey(des[k]) == k
    ensures k !in skip ==> k !in done && k !in failed
    ensures k in skip ==> Adding(pre, zone, des, skip, todo - {k}, done, failed)
    ensures k !in skip ==> Adding(pre, zone, des, skip, todo - {k}, done, failed + {k}) && |failed + {k}| == |failed| + 1
    ensures k !in skip ==> |done + {k}| == |done| + 1
    ensures k !in skip ==>
              forall id :: id !in zone ==> Adding(pre, zone[id := des[k].(id := id)], des, skip, todo - {k}, done + {k}, failed)
  {
    LedgerStep(des.Keys, skip, todo, done, failed, k);
    if k !in skip {
      forall id | id !in zone
        ensures Adding(pre, zone[id := des[k].(id := id)], des, skip, todo - {k}, done + {k}, failed)
      {
        AddStep(pre, zone, des, k, id);
      }
    }
  }

  /** The books of a loop: the calls made, the keys they were granted and refused for, and how many of each. */
  datatype Books = Books(made: seq<Call>, done: set<string>, failed: set<string>, granted: nat, refused: nat)

  /** The books that are right when all calls began with `start` and are now the other half of the pair. */
  ghost function AddBooks(start: seq<Call>): iset<(Books, seq<Call>)> {
    iset x: (Books, seq<Call>) | x.1 == start + x.0.made && AddsMade(x.0.made, x.0.done, x.0.failed) &&
                                 x.0.granted == |x.0.done| && x.0.refused == |x.0.failed|
  }

  ghost function DeleteBooks(start: seq<Call>): iset<(Books, seq<Call>)> {
    iset x: (Books, seq<Call>) | x.1 == start + x.0.made && DeletesMade(x.0.made, x.0.done, x.0.failed) &&
                                 x.0.granted == |x.0.done| && x.0.refused == |x.0.failed|
  }

  const NO_BOOKS: Books := Books([], {}, {}, 0, 0)

  function Book(b: Books, call: Call, k: string): Books {
    Books(b.made + [call], With(b.done, k, call.ok), With(b.failed, k, !call.ok), b.granted + One(call.ok), b.refused + One(!call.ok))
  }

  lemma BooksOpen(start: seq<Call>)
    ensures (NO_BOOKS, start) in AddBooks(start) && (NO_BOOKS, start) in DeleteBooks(start)
  {
  }

  lemma BookAdd(start: seq<Call>, calls: seq<Call>, b: Books, k: string, ok: bool)
    requires (b, calls) in AddBooks(start) && k !in b.done && k !in b.failed
    ensures (Book(b, Add(k, ok), k), calls + [Add(k, ok)]) in AddBooks(start)
  {
    OneMore(b.done, k, ok);
    OneMore(b.failed, k, !ok);
    AddsMadeNext(b.made, b.done, b.failed, k, ok);
    CallsJoin(start, b.made, Add(k, ok));
  }

  lemma BookDelete(start: seq<Call>, calls: seq<Call>, b: Books, k: string, ok: bool)
    requires (b, calls) in DeleteBooks(start) && k !in b.done && k !in b.failed
    ensures (Book(b, Delete(k, ok), k), calls + [Delete(k, ok)]) in DeleteBooks(start)
  {
    OneMore(b.done, k, ok);
    OneMore(b.failed, k, !ok);
    DeletesMadeNext(b.made, b.done, b.failed, k, ok);
    CallsJoin(start, b.made, Delete(k, ok));
  }

  lemma AddsClosed(start: seq<Call>, calls: seq<Call>, b: Books)
    requires (b, calls) in AddBooks(start)
    ensures calls == start + b.made && AddsMade(b.made, b.done, b.failed) && b.granted == |b.done| && b.refused == |b.failed|
  {
  }

  lemma DeletesClosed(start: seq<Call>, calls: seq<Call>, b: Books)
    requires (b, calls) in DeleteBooks(start)
    ensures calls == start + b.made && DeletesMade(b.made, b.done, b.failed) && b.granted == |b.done| && b.refused == |b.failed|
  {
  }

  /** One round of the adding loop, for a key the zone lacks. */
  method AddOne(z: HostedZone, ghost pre: Records, des: map<string, Record>, ghost skip: set<string>, ghost todo: set<string>,
                ghost done: set<string>, ghost failed: set<string>, k: string) returns (ok: bool)
    requires Adding(pre, z.records, des, skip, todo, done, failed) && k in todo && k !in skip && k in des
    modifies z
    ensures z.calls == old(z.calls) + [Add(k, ok)] && k !in done && k !in failed
    ensures Adding(pre, z.records, des, skip, todo - {k}, With(done, k, ok), With(failed, k, !ok))
    ensures |With(done, k, ok)| == |done| + One(ok) && |With(failed, k, !ok)| == |failed| + One(!ok)
  {
    AddingNext(pre, z.records, des, skip, todo, done, failed, k);
    ghost var id;
    ok, id := z.AddRecord(des[k]);
  }

  method AddMissing(z: HostedZone, des: map<string, Record>, actual: map<string, Record>)
    returns (added: nat, failures: nat, ghost failed: set<string>, ghost made: seq<Call>)
    requires WellKeyed(des) && actual.Keys == KeysOf(z.records)
    modifies z
    ensures Adding(old(z.records), z.records, des, actual.Keys, {}, AddedKeys(old(z.records), z.records), failed)
    ensures added == |AddedKeys(old(z.records), z.records)| && failures == |failed|
    ensures z.calls == old(z.calls) + made && AddsMade(made, AddedKeys(old(z.records), z.records), failed)
  {
    added, failures, failed, made := 0, 0, {}, [];
    ghost var pre, start, done: set<string> := z.records, z.calls, {};
    var todo := des.Keys;
    AddingStart(pre, des);
    while todo != {}
      invariant Adding(pre, z.records, des, actual.Keys, todo, done, failed)
      invariant added == |done| && failures == |failed|
      invariant z.calls == start + made && AddsMade(made, done, failed)
      decreases |todo|
    {
      var k :| k in todo;
      if k in actual {
        AddingNext(pre, z.records, des, actual.Keys, todo, done, failed, k);
      } else {
        var ok := AddOne(z, pre, des, actual.Keys, todo, done, failed, k);
        AddsMadeNext(made, done, failed, k, ok);
        CallsJoin(start, made, Add(k, ok));
        made, done, failed := made + [Add(k, ok)], With(done, k, ok), With(failed, k, !ok);
        added, failures := added + One(ok), failures + One(!ok);
      }
      todo := todo - {k};
    }
  }

  /** The records listed before the pass, by key, point at copies that are there. */
  ghost predicate Listed(actual: map<string, Record>, zone: Records) {
    && actual.Keys == KeysOf(zone)
    && forall k :: k in actual ==> actual[k].id in zone && zone[actual[k].id] == actual[k] && RecordKey(actual[k]) == k
  }

  lemma DropStep(pre: Records, mid: Records, des: map<string, Record>, id: string)
    requires PassOf(pre, mid, des) && id in pre && RecordKey(pre[id]) !in des && RecordKey(pre[id]) !in DroppedKeys(pre, mid)
    ensures PassOf(pre, mid - {id}, des)
    ensures DroppedKeys(pre, mid - {id}) == DroppedKeys(pre, mid) + {RecordKey(pre[id])}
    ensures AddedKeys(pre, mid - {id}) == AddedKeys(pre, mid)
  {
    var post := mid - {id};
    forall i | Gone(pre, post, i)
      ensures i == id || (Gone(pre, mid, i) && RecordKey(pre[i]) != RecordKey(pre[id]))
    {
      if i != id {
        assert RecordKey(pre[i]) in DroppedKeys(pre, mid);
      }
    }
    assert forall i :: New(pre, post, i) <==> New(pre, mid, i);
    forall j
      ensures j in AddedKeys(pre, post) <==> j in AddedKeys(pre, mid)
    {
      if j in AddedKeys(pre, mid) {
        var i :| New(pre, mid, i) && RecordKey(mid[i]) == j;
        assert New(pre, post, i) && post[i] == mid[i];
      }
    }
    forall j
      ensures j in DroppedKeys(pre, post) <==> j in DroppedKeys(pre, mid) + {RecordKey(pre[id])}
    {
      if j in DroppedKeys(pre, mid) {
        var i :| Gone(pre, mid, i) && RecordKey(pre[i]) == j;
        assert Gone(pre, post, i);
      }
      if j == RecordKey(pre[id]) {
        assert Gone(pre, post, id);
      }
    }
  }

  /** How far the deleting loop has got; `added` are the keys the adding loop added. */
  ghost predicate Dropping(pre: Records, zone: Records, des: map<string, Record>, actual: map<string, Record>,
                           added: set<string>, todo: set<string>, done: set<string>, failed: set<string>)
  {
    && PassOf(pre, zone, des) && Listed(actual, pre) && added == AddedKeys(pre, zone) && done == DroppedKeys(pre, zone)
    && Ledger(actual.Keys, des.Keys, todo, done, failed)
  }

  lemma DroppingStart(pre: Records, zone: Records, des: map<string, Record>, actual: map<string, Record>)
    requires AddsOnlyMissing(pre, zone, des) && pre.Keys <= zone.Keys && Listed(actual, pre)
    ensures Dropping(pre, zone, des, actual, AddedKeys(pre, zone), actual.Keys, {}, {})
  {
    LedgerStart(actual.Keys, des.Keys);
    assert DropsOnlyStrays(pre, zone, des);
  }

  lemma DroppingNext(pre: Records, zone: Records, des: map<string, Record>, actual: map<string, Record>,
                     added: set<string>, todo: set<string>, done: set<string>, failed: set<string>, k: string)
    requires Dropping(pre, zone, des, actual, added, todo, done, failed) && k in todo
    ensures k in actual && RecordKey(actual[k]) == k
    ensures k !in des ==> k !in done && k !in failed
    ensures k in des ==> Dropping(pre, zone, des, actual, added, todo - {k}, done, failed)
    ensures k !in des ==> Dropping(pre, zone, des, actual, added, todo - {k}, done, failed + {k}) && |failed + {k}| == |failed| + 1
    ensures k !in des ==> Dropping(pre, zone - {actual[k].id}, des, actual, added, todo - {k}, done + {k}, failed) &&
                          |done + {k}| == |done| + 1
  {
    LedgerStep(actual.Keys, des.Keys, todo, done, failed, k);
    if k !in des {
      DropStep(pre, zone, des, actual[k].id);
    }
  }

  /** One round of the deleting loop, for a stray key. */
  method DropOne(z: HostedZone, ghost pre: Records, des: map<string, Record>, actual: map<string, Record>, ghost added: set<string>,
                 ghost todo: set<string>, ghost done: set<string>, ghost failed: set<string>, k: string) returns (ok: bool)
    requires Dropping(pre, z.records, des, actual, added, todo, done, failed) && k in todo && k in actual && k !in des
    modifies z
    ensures z.calls == old(z.calls) + [Delete(k, ok)] && k !in done && k !in failed
    ensures Dropping(pre, z.records, des, actual, added, todo - {k}, With(done, k, ok), With(failed, k, !ok))
    ensures |With(done, k, ok)| == |done| + One(ok) && |With(failed, k, !ok)| == |failed| + One(!ok)
  {
    DroppingNext(pre, z.records, des, actual, added, todo, done, failed, k);
    ok := z.DeleteRecord(actual[k]);
  }

  method DropStrays(z: HostedZone, ghost pre: Records, des: map<string, Record>, actual: map<string, Record>)
    returns (deleted: nat, failures: nat, ghost failed: set<string>, ghost made: seq<Call>)
    requires AddsOnlyMissing(pre, z.records, des) && pre.Keys <= z.records.Keys && Listed(actual, pre)
    modifies z
    ensures Dropping(pre, z.records, des, actual, AddedKeys(pre, old(z.records)), {}, DroppedKeys(pre, z.records), failed)
    ensures deleted == |DroppedKeys(pre, z.records)| && failures == |failed|
    ensures z.calls == old(z.calls) + made && DeletesMade(made, DroppedKeys(pre, z.records), failed)
  {
    deleted, failures, failed, made := 0, 0, {}, [];
    ghost var done: set<string>, added, start := {}, AddedKeys(pre, z.records), z.calls;
    var todo := actual.Keys;
    DroppingStart(pre, z.records, des, actual);
    while todo != {}
      invariant Dropping(pre, z.records, des, actual, added, todo, done, failed)
      invariant deleted == |done| && failures == |failed|
      invariant z.calls == start + made && DeletesMade(made, done, failed)
      decreases |todo|
    {
      var k :| k in todo;
      if k in des {
        DroppingNext(pre, z.records, des, actual, added, todo, done, failed, k);
      } else {
        var ok := DropOne(z, pre, des, actual, added, todo, done, failed, k);
        DeletesMadeNext(made, done, failed, k, ok);
        CallsJoin(start, made, Delete(k, ok));
        made, done, failed := made + [Delete(k, ok)], With(done, k, ok), With(failed, k, !ok);
        deleted, failures := deleted + One(ok), failures + One(!ok);
      }
      todo := todo - {k};
    }
  }

  // ---------- The zone ----------

  /** A key the store wants the zone to hold. */
  ghost predicate Wants(db: Tables, zone: int, k: string)
  {
    exists r, b :: Flattens(db, zone, r, b) && KeyOfRow(RowOf(db, r, b)) == k
  }

  /** The record is that of a flattened row, and no flattened row with its key comes after that row. */
  ghost predicate FromLastRow(db: Tables, zone: int, k: string, rec: Record) {
    exists r, b :: Flattens(db, zone, r, b) && KeyOfRow(RowOf(db, r, b)) == k && rec == Wanting(RowOf(db, r, b)) &&
                   LastOfKey(db, zone, k, RowOf(db, r, b))
  }

  ghost predicate LastOfKey(db: Tables, zone: int, k: string, row: Row) {
    forall s, c :: Flattens(db, zone, s, c) && KeyOfRow(RowOf(db, s, c)) == k ==> !RowLess(row, RowOf(db, s, c))
  }

  /** One record for each key the store wants, TTL and all as its last row has it. */
  ghost predicate DesiredOf(db: Tables, zone: int, des: map<string, Record>)
  {
    (forall k :: k in des <==> Wants(db, zone, k)) && forall k :: k in des ==> FromLastRow(db, zone, k, des[k])
  }

  lemma DesiredIsWellKeyed(db: Tables, zone: int, des: map<string, Record>)
    requires DesiredOf(db, zone, des)
    ensures WellKeyed(des)
  {
  }

  lemma LastRowIsLast(db: Tables, zone: int, rows: seq<Row>, k: string, j: int)
    requires RowsOf(db, zone, rows) && LastWith(rows, k, j)
    requires forall a, b :: 0 <= a < b < |rows| ==> !RowLess(rows[b], rows[a])
    ensures FromLastRow(db, zone, k, Wanting(rows[j]))
  {
    var row := rows[j];
    assert row in rows;
    var r, b :| Flattens(db, zone, r, b) && RowOf(db, r, b) == row;
    forall s, c | Flattens(db, zone, s, c) && KeyOfRow(RowOf(db, s, c)) == k
      ensures !RowLess(row, RowOf(db, s, c))
    {
      assert RowOf(db, s, c) in rows;
      var i :| 0 <= i < |rows| && rows[i] == RowOf(db, s, c);
      RowLessStrict(row, row, row);
    }
    assert LastOfKey(db, zone, k, RowOf(db, r, b));
  }

  lemma KeyedIsDesired(db: Tables, zone: int, rows: seq<Row>, des: map<string, Record>)
    requires RowsOf(db, zone, rows) && KeyedRows(des, rows)
    requires forall a, b :: 0 <= a < b < |rows| ==> !RowLess(rows[b], rows[a])
    ensures DesiredOf(db, zone, des)
  {
    forall k | Wants(db, zone, k)
      ensures k in des
    {
      var r, b :| Flattens(db, zone, r, b) && KeyOfRow(RowOf(db, r, b)) == k;
      assert RowOf(db, r, b) in rows;
    }
    forall k | k in des
      ensures FromLastRow(db, zone, k, des[k])
    {
      var j :| LastWith(rows, k, j) && des[k] == Wanting(rows[j]);
      LastRowIsLast(db, zone, rows, k, j);
    }
  }

  method LoadDesired(db: Tables, zone: int) returns (des: map<string, Record>)
    ensures DesiredOf(db, zone, des) && WellKeyed(des)
  {
    var rows, order := ListDesiredRecordsByZone(db, zone);
    des := KeyUpRows(rows);
    KeyedIsDesired(db, zone, rows, des);
    DesiredIsWellKeyed(db, zone, des);
  }

  lemma ListedRecords(list: seq<Record>, m: map<string, Record>, zone: Records)
    requires (forall id :: id in zone ==> zone[id].id == id) && (forall r :: r in list <==> r in zone.Values) && Keyed(m, list)
    ensures Listed(m, zone)
  {
    forall k
      ensures k in m <==> k in KeysOf(zone)
    {
      if k in KeysOf(zone) {
        var id :| id in zone && RecordKey(zone[id]) == k;
        assert zone[id] in zone.Values;
      }
    }
  }

  /**
   The account of a pass that got as far as comparing: every difference was tried, and either applied, counted,
   or failed; the zone is OK exactly when nothing failed.
   */
  ghost predicate Compared(pre: Records, post: Records, des: map<string, Record>, zs: ZoneStatus,
                           failedAdds: set<string>, failedDels: set<string>)
  {
    && PassOf(pre, post, des)
    && failedAdds !! AddedKeys(pre, post) && failedAdds + AddedKeys(pre, post) == des.Keys - KeysOf(pre)
    && failedDels !! DroppedKeys(pre, post) && failedDels + DroppedKeys(pre, post) == KeysOf(pre) - des.Keys
    && zs.desired == |des.Keys| && zs.actual == |KeysOf(pre)|
    && zs.added == |AddedKeys(pre, post)| && zs.deleted == |DroppedKeys(pre, post)|
    && (zs.ok <==> failedAdds == {} && failedDels == {})
  }

  method CompareAndApply(z: HostedZone, desired: map<string, Record>, list: seq<Record>)
    returns (zs: ZoneStatus, ghost failedAdds: set<string>, ghost failedDels: set<string>, ghost adds: seq<Call>, ghost dels: seq<Call>)
    requires WellKeyed(desired)
    requires forall r :: r in list <==> r in z.records.Values
    modifies z
    ensures zs.name == z.name && Compared(old(z.records), z.records, desired, zs, failedAdds, failedDels)
    ensures z.calls == old(z.calls) + adds + dels
    ensures AddsMade(adds, AddedKeys(old(z.records), z.records), failedAdds)
    ensures DeletesMade(dels, DroppedKeys(old(z.records), z.records), failedDels)
  {
    ghost var before := z.records;
    var actual := KeyUp(list);
    ListedRecords(list, actual, before);
    var added, addErrs, deleted, delErrs;
    added, addErrs, failedAdds, adds := AddMissing(z, desired, actual);
    deleted, delErrs, failedDels, dels := DropStrays(z, before, desired, actual);
    LedgerEnd(desired.Keys, actual.Keys, AddedKeys(before, z.records), failedAdds);
    LedgerEnd(actual.Keys, desired.Keys, DroppedKeys(before, z.records), failedDels);
    zs := ZoneStatus(z.name, addErrs == 0 && delErrs == 0, |desired.Keys|, |actual.Keys|, added, deleted);
  }

  /**
   One zone, the desired records being loaded; `compared` is false when the remote could not be prepared or listed, and
   `made` is what was asked of the provider, with its answers.
   */
  method ReconcileAgainst(z: HostedZone, desired: map<string, Record>)
    returns (zs: ZoneStatus, ghost compared: bool, ghost failedAdds: set<string>, ghost failedDels: set<string>, ghost made: seq<Call>)
    requires WellKeyed(desired)
    modifies z
    ensures zs.name == z.name
    ensures compared ==> Compared(old(z.records), z.records, desired, zs, failedAdds, failedDels)
    ensures !compared ==> !zs.ok && zs.added == 0 && zs.deleted == 0 && z.records == old(z.records)
    ensures z.calls == old(z.calls) + made
    ensures Answered(made, compared, AddedKeys(old(z.records), z.records), failedAdds, DroppedKeys(old(z.records), z.records), failedDels)
  {
    compared, failedAdds, failedDels, made := false, {}, {}, [];
    ghost var start := z.calls;
    zs := ZoneStatus(z.name, false, |desired.Keys|, 0, 0, 0);
    var ok := z.EnsureZone();
    made := [Ensure(ok)];
    if !ok {
      return;
    }
    var list;
    ok, list := z.ListRecords();
    made := [Ensure(true), List(ok)];
    CallsJoin(start, [Ensure(true)], List(ok));
    if !ok {
      return;
    }
    ghost var adds, dels;
    zs, failedAdds, failedDels, adds, dels := CompareAndApply(z, desired, list);
    compared := true;
    made := [Ensure(true), List(true)] + adds + dels;
    assert MadeOf(made, adds, dels);
    CallsInOrder(start, Ensure(true), List(true), adds, dels);
  }

  /** What one call did: the zone before and after, the records it was to hold, what failed, and the provider's answers. */
  datatype Pass = Pass(pre: Records, post: Records, des: map<string, Record>, compared: bool,
                       failedAdds: set<string>, failedDels: set<string>, calls: seq<Call>)

  ghost predicate Account(db: Tables, zone: int, zs: ZoneStatus, p: Pass)
  {
    && DesiredOf(db, zone, p.des)
    && (p.compared ==> Compared(p.pre, p.post, p.des, zs, p.failedAdds, p.failedDels))
    && (!p.compared ==> !zs.ok && zs.added == 0 && zs.deleted == 0 && p.post == p.pre)
    && Answered(p.calls, p.compared, AddedKeys(p.pre, p.post), p.failedAdds, DroppedKeys(p.pre, p.post), p.failedDels)
  }

  type Outcomes = iset<(ZoneStatus, Pass)>

  /** The statuses and passes that account for one call on the zone of that name. */
  ghost function Accounts(db: Tables, zone: int, name: string): Outcomes {
    iset x: (ZoneStatus, Pass) | x.0.name == name && Account(db, zone, x.0, x.1)
  }

  lemma Accounted(db: Tables, zone: int, zs: ZoneStatus, p: Pass)
    requires Account(db, zone, zs, p)
    ensures (zs, p) in Accounts(db, zone, zs.name)
  {
  }

  method ReconcileZone(db: Tables, zone: int, z: HostedZone) returns (zs: ZoneStatus, ghost pass: Pass)
    modifies z
    ensures zs.name == z.name && pass.pre == old(z.records) && pass.post == z.records
    ensures z.calls == old(z.calls) + pass.calls
    ensures Account(db, zone, zs, pass)
    ensures (zs, pass) in Accounts(db, zone, z.name)
  {
    var desired := LoadDesired(db, zone);
    ghost var before := z.records;
    ghost var compared, fa, fd, made;
    zs, compared, fa, fd, made := ReconcileAgainst(z, desired);
    pass := Pass(before, z.records, desired, compared, fa, fd, made);
    Accounted(db, zone, zs, pass);
  }

  /** The zone is reported OK exactly when the provider refused nothing of what it was asked. */
  lemma OkIffAllGranted(db: Tables, zone: int, zs: ZoneStatus, p: Pass)
    requires Account(db, zone, zs, p)
    ensures zs.ok <==> AllGranted(p.calls)
  {
    GrantedMeansDone(p.calls, p.compared, AddedKeys(p.pre, p.post), p.failedAdds, DroppedKeys(p.pre, p.post), p.failedDels);
  }

  // ---------- The provider ----------

  function SumAdded(zones: seq<ZoneStatus>): nat {
    if zones == [] then 0 else SumAdded(zones[..|zones| - 1]) + zones[|zones| - 1].added
  }

  function SumDeleted(zones: seq<ZoneStatus>): nat {
    if zones == [] then 0 else SumDeleted(zones[..|zones| - 1]) + zones[|zones| - 1].deleted
  }

  /** The pass is what happened to the zone, and its calls are those made of the provider. */
  twostate predicate Passed(z: HostedZone, p: Pass)
    reads z
  {
    p.pre == old(z.records) && p.post == z.records && z.calls == old(z.calls) + p.calls
  }

  /** The outcome of a call, checked against what is allowed of it. */
  method ReconcileLinked(db: Tables, zone: int, z: HostedZone, ghost allowed: Outcomes) returns (zs: ZoneStatus, ghost pass: Pass)
    requires Accounts(db, zone, z.name) <= allowed
    modifies z
    ensures Passed(z, pass) && (zs, pass) in allowed
  {
    zs, pass := ReconcileZone(db, zone, z);
  }

  /** The outcomes of calls on the first of the zones linked to a provider. */
  ghost predicate AllIn(allowed: seq<Outcomes>, zs: seq<ZoneStatus>, passes: seq<Pass>) {
    |zs| == |passes| <= |allowed| && forall k :: 0 <= k < |zs| ==> (zs[k], passes[k]) in allowed[k]
  }

  ghost predicate AllAccounted(db: Tables, ids: seq<int>, names: seq<string>, zs: seq<ZoneStatus>, passes: seq<Pass>) {
    && |zs| == |passes| <= |ids| == |names|
    && forall k :: 0 <= k < |zs| ==> (zs[k], passes[k]) in Accounts(db, ids[k], names[k])
  }

  lemma SumsNext(zs: seq<ZoneStatus>, s: ZoneStatus)
    ensures SumAdded(zs + [s]) == SumAdded(zs) + s.added && SumDeleted(zs + [s]) == SumDeleted(zs) + s.deleted
  {
    assert (zs + [s])[..|zs|] == zs;
  }

  function HostedNames(hosted: seq<HostedZone>): (names: seq<string>)
    ensures |names| == |hosted| && forall k :: 0 <= k < |hosted| ==> names[k] == hosted[k].name
  {
    seq(|hosted|, k requires 0 <= k < |hosted| => hosted[k].name)
  }

  /** The zones linked to one provider are different zones there. */
  ghost predicate Distinct(hosted: seq<HostedZone>) {
    forall j, k :: 0 <= j < k < |hosted| ==> hosted[j] != hosted[k]
  }

  function AllOk(zones: seq<ZoneStatus>): (ok: bool)
    ensures ok <==> forall k :: 0 <= k < |zones| ==> zones[k].ok
  {
    forall k :: 0 <= k < |zones| ==> zones[k].ok
  }

  method Totals(zones: seq<ZoneStatus>) returns (ps: ProviderStatus)
    ensures ps == ProviderStatus(AllOk(zones), zones, SumAdded(zones), SumDeleted(zones))
  {
    var added, deleted := 0, 0;
    for k := 0 to |zones|
      invariant added == SumAdded(zones[..k]) && deleted == SumDeleted(zones[..k])
    {
      SumsNext(zones[..k], zones[k]);
      assert zones[..k] + [zones[k]] == zones[..k + 1];
      added, deleted := added + zones[k].added, deleted + zones[k].deleted;
    }
    assert zones[..|zones|] == zones;
    var ok := true;
    for k := 0 to |zones|
      invariant ok <==> forall j :: 0 <= j < k ==> zones[j].ok
    {
      if !zones[k].ok {
        ok := false;
        break;
      }
    }
    ps := ProviderStatus(ok, zones, added, deleted);
  }

  /** What became of the zones of a provider: each is accounted for, as it was before and as it is now. */
  twostate predicate AllPassed(hosted: seq<HostedZone>, passes: seq<Pass>)
    reads hosted
  {
    |passes| == |hosted| && forall k :: 0 <= k < |hosted| ==> Passed(hosted[k], passes[k])
  }

  ghost function AccountsOf(db: Tables, ids: seq<int>, names: seq<string>): (allowed: seq<Outcomes>)
    requires |ids| == |names|
    ensures |allowed| == |ids| && forall k :: 0 <= k < |ids| ==> allowed[k] == Accounts(db, ids[k], names[k])
  {
    seq(|ids|, k requires 0 <= k < |ids| => Accounts(db, ids[k], names[k]))
  }

  lemma AllAreAccounted(db: Tables, ids: seq<int>, names: seq<string>, allowed: seq<Outcomes>, zs: seq<ZoneStatus>, passes: seq<Pass>)
    requires |ids| == |names| && allowed == AccountsOf(db, ids, names) && AllIn(allowed, zs, passes)
    ensures AllAccounted(db, ids, names, zs, passes)
  {
    forall k | 0 <= k < |zs|
      ensures (zs[k], passes[k]) in Accounts(db, ids[k], names[k])
    {
      assert allowed[k] == Accounts(db, ids[k], names[k]);
    }
  }

  /** Each zone is accounted for, totals are sums over zones, and OK is the conjunction. */
  method ReconcileProvider(db: Tables, ids: seq<int>, hosted: seq<HostedZone>) returns (ps: ProviderStatus, ghost passes: seq<Pass>)
    requires |ids| == |hosted| && Distinct(hosted)
    modifies hosted
    ensures AllAccounted(db, ids, HostedNames(hosted), ps.zones, passes) && |ps.zones| == |ids|
    ensures AllPassed(hosted, passes)
    ensures ps == ProviderStatus(AllOk(ps.zones), ps.zones, SumAdded(ps.zones), SumDeleted(ps.zones))
  {
    ghost var names := HostedNames(hosted);
    ghost var allowed := AccountsOf(db, ids, names);
    var done;
    done, passes := ReconcileZones(db, ids, hosted, allowed);
    AllAreAccounted(db, ids, names, allowed, done, passes);
    ps := Totals(done);
  }

  method ReconcileZones(db: Tables, ids: seq<int>, hosted: seq<HostedZone>, ghost allowed: seq<Outcomes>)
    returns (done: seq<ZoneStatus>, ghost passes: seq<Pass>)
    requires |ids| == |hosted| == |allowed| && Distinct(hosted)
    requires forall k :: 0 <= k < |ids| ==> Accounts(db, ids[k], hosted[k].name) <= allowed[k]
    modifies hosted
    ensures AllIn(allowed, done, passes) && |done| == |ids|
    ensures AllPassed(hosted, passes)
  {
    done, passes := [], [];
    for k := 0 to |ids|
      invariant |done| == k && AllIn(allowed, done, passes)
      invariant forall j :: 0 <= j < k ==> Passed(hosted[j], passes[j])
      invariant forall j :: k <= j < |hosted| ==> unchanged(hosted[j])
    {
      var zs, pass := ReconcileLinked(db, ids[k], hosted[k], allowed[k]);
      done, passes := done + [zs], passes + [pass];
    }
  }
}
