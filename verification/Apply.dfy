/**
 `apply`: converging the automatic rows of dns_records to the wanted records, in one transaction and in
 whatever order the maps are iterated. Applied says what the result is; every order gives it.
 */
module Apply {
  import opened Basics
  import opened Database
  import opened Synth

  // ---------- The specification ----------

  function Refreshed(rec: Rec, w: Wanted): Rec {
    rec.(ttl := w.ttl, zone := Some(w.zone))
  }

  function NewAuto(k: Key, w: Wanted): Rec {
    Rec(k, w.ttl, true, Some(w.zone), Auto)
  }

  /** The constraints the new rows must meet: no other row has the key, and every reference resolves. */
  ghost predicate Admissible(db: Db, k: Key, w: Wanted) {
    && (forall r :: r in db.records && db.records[r].key == k ==> db.records[r].source == Auto)
    && w.zone in db.zones
    && (forall i :: i in w.bindings ==> i in db.ips)
  }

  ghost predicate Appliable(db: Db, want: map<Key, Wanted>) {
    forall k :: k in want ==> Admissible(db, k, want[k])
  }

  /** Row `r` of the earlier state is automatic and its key is one of `keys`. */
  predicate AutoIn(db: Db, r: int, keys: set<Key>) {
    r in db.records && db.records[r].source == Auto && db.records[r].key in keys
  }

  /** Rows whose key is done carry what is wanted, new rows are wanted ones, and each done key has its row. */
  ghost predicate RowsConverged(pre: Db, post: Db, want: map<Key, Wanted>, done: set<Key>) {
    && done <= want.Keys
    && (forall r :: r in post.records && r in pre.records ==>
          post.records[r] == if AutoIn(pre, r, done) then Refreshed(pre.records[r], want[pre.records[r].key])
                             else pre.records[r])
    && (forall r :: r in post.records && r !in pre.records ==>
          var k := post.records[r].key;
          k in done && post.records[r] == NewAuto(k, want[k]))
    && (forall k :: k in done ==> exists r :: r in post.records && post.records[r].source == Auto && post.records[r].key == k)
    && RecordsUnique(post.records)
  }

  /** Their bindings are the wanted ones; all other rows keep theirs. */
  ghost predicate BindingsConverged(pre: Db, post: Db, want: map<Key, Wanted>, done: set<Key>)
    requires RowsConverged(pre, post, want, done)
  {
    forall r, i :: (r, i) in post.bindings <==>
      r in post.records &&
      if r !in pre.records || AutoIn(pre, r, done) then i in want[post.records[r].key].bindings
      else (r, i) in pre.bindings
  }

  /** How far a run has got: the keys in `done` are converged, and nothing else has changed. */
  ghost predicate Converged(pre: Db, post: Db, want: map<Key, Wanted>, done: set<Key>) {
    post == pre.(records := post.records, bindings := post.bindings) &&
    RowsConverged(pre, post, want, done) && BindingsConverged(pre, post, want, done)
  }

  /**
   The automatic rows are exactly the wanted ones; surviving keys keep their row, new keys get new rows;
   manual rows, their bindings and all other tables are untouched.
   */
  ghost predicate Applied(pre: Db, post: Db, want: map<Key, Wanted>) {
    && Converged(pre, post, want, want.Keys)
    && (forall r :: r in pre.records ==> (r in post.records <==> pre.records[r].source == Manual || AutoIn(pre, r, want.Keys)))
  }

  // ---------- Steps ----------

  ghost predicate BindingsSet(before: Db, after: Db, r: int, ids: set<int>) {
    && after == before.(bindings := after.bindings)
    && forall s, i :: (s, i) in after.bindings <==> if s == r then i in ids else (s, i) in before.bindings
  }

  ghost predicate BindingsResolve(db: Db) {
    forall s, i :: (s, i) in db.bindings ==> i in db.ips
  }

  function BoundTo(db: Db, r: int): set<int> {
    set b | b in db.bindings && b.0 == r :: b.1
  }

  method SyncBindings(before: Db, r: int, desired: seq<int>) returns (tx: Db, ok: bool)
    requires r in before.records && BindingsResolve(before)
    ensures ok <==> forall i :: i in desired ==> i in before.ips
    ensures ok ==> BindingsSet(before, tx, r, set i | i in desired) && BindingsResolve(tx)
  {
    tx, ok := before, true;
    var current := BoundTo(before, r);
    var wanted := set i | i in desired;
    var todo := wanted - current;
    while todo != {}
      invariant todo <= wanted - current
      invariant tx == before.(bindings := tx.bindings)
      invariant forall s, i :: (s, i) in tx.bindings <==> (s, i) in before.bindings || (s == r && i in wanted - current - todo)
      invariant forall i :: i in wanted - todo ==> i in before.ips
      decreases |todo|
    {
      var _ := SomeElement(todo);
      var i :| i in todo;
      if i !in tx.ips {
        assert i in desired;
        return tx, false;
      }
      tx := tx.(bindings := tx.bindings + {(r, i)});
      todo := todo - {i};
    }
    var stale := current - wanted;
    while stale != {}
      invariant stale <= current - wanted
      invariant tx == before.(bindings := tx.bindings)
      invariant forall s, i :: (s, i) in tx.bindings <==>
                  ((s, i) in before.bindings || (s == r && i in wanted)) && !(s == r && i in current - wanted - stale)
      decreases |stale|
    {
      var _ := SomeElement(stale);
      var i :| i in stale;
      tx := tx.(bindings := tx.bindings - {(r, i)});
      stale := stale - {i};
    }
    assert forall i :: i in current <==> (r, i) in before.bindings;
  }

  lemma UpdateRows(pre: Db, tx: Db, next: Db, want: map<Key, Wanted>, done: set<Key>, k: Key, r: int)
    requires RowsConverged(pre, tx, want, done) && RecordsUnique(pre.records)
    requires k in want && k !in done && AutoIn(pre, r, {k}) && r in tx.records
    requires next.records == tx.records[r := Refreshed(tx.records[r], want[k])]
    ensures RowsConverged(pre, next, want, done + {k})
  {
    forall s | s in pre.records
      ensures AutoIn(pre, s, done + {k}) <==> AutoIn(pre, s, done) || s == r
    {
    }
    forall j | j in done + {k}
      ensures exists s :: s in next.records && next.records[s].source == Auto && next.records[s].key == j
    {
      if j == k {
        assert next.records[r].key == k;
      } else {
        var s :| s in tx.records && tx.records[s].source == Auto && tx.records[s].key == j;
        assert next.records[s].key == j && next.records[s].source == Auto;
      }
    }
  }

  /** The row of key `k` has been refreshed and its bindings set. */
  lemma UpdateStep(pre: Db, tx: Db, next: Db, want: map<Key, Wanted>, done: set<Key>, k: Key, r: int)
    requires Converged(pre, tx, want, done) && pre.records.Keys <= tx.records.Keys && RecordsUnique(pre.records)
    requires k in want && k !in done && AutoIn(pre, r, {k})
    requires BindingsSet(tx.(records := tx.records[r := Refreshed(tx.records[r], want[k])]), next, r, set i | i in want[k].bindings)
    ensures Converged(pre, next, want, done + {k}) && pre.records.Keys <= next.records.Keys
  {
    UpdateRows(pre, tx, next, want, done, k, r);
    assert forall s :: s in pre.records ==> (AutoIn(pre, s, done + {k}) <==> AutoIn(pre, s, done) || s == r);
  }

  lemma InsertRows(pre: Db, tx: Db, next: Db, want: map<Key, Wanted>, done: set<Key>, k: Key, r: int)
    requires RowsConverged(pre, tx, want, done) && pre.records.Keys <= tx.records.Keys
    requires k in want && k !in done && r !in tx.records && forall s :: s in tx.records ==> tx.records[s].key != k
    requires next.records == tx.records[r := NewAuto(k, want[k])]
    ensures RowsConverged(pre, next, want, done + {k})
    ensures forall s :: AutoIn(pre, s, done + {k}) <==> AutoIn(pre, s, done)
  {
    forall s | s in pre.records
      ensures AutoIn(pre, s, done + {k}) <==> AutoIn(pre, s, done)
    {
      assert tx.records[s].key == pre.records[s].key;
    }
    forall j | j in done + {k}
      ensures exists s :: s in next.records && next.records[s].source == Auto && next.records[s].key == j
    {
      if j == k {
        assert next.records[r].key == k;
      } else {
        var s :| s in tx.records && tx.records[s].source == Auto && tx.records[s].key == j;
        assert next.records[s].key == j && next.records[s].source == Auto;
      }
    }
  }

  /** A new row for key `k` has been inserted and its bindings set. */
  lemma InsertStep(pre: Db, tx: Db, next: Db, want: map<Key, Wanted>, done: set<Key>, k: Key, r: int)
    requires Converged(pre, tx, want, done) && pre.records.Keys <= tx.records.Keys
    requires k in want && k !in done && r !in tx.records && forall s :: s in tx.records ==> tx.records[s].key != k
    requires BindingsSet(tx.(records := tx.records[r := NewAuto(k, want[k])]), next, r, set i | i in want[k].bindings)
    ensures Converged(pre, next, want, done + {k}) && pre.records.Keys <= next.records.Keys
  {
    InsertRows(pre, tx, next, want, done, k, r);
  }

  /** `loadExistingAuto` less the keys already handled. */
  ghost predicate ExistingAuto(pre: Db, existing: map<Key, int>, done: set<Key>) {
    && (forall k :: k in existing ==> k !in done && AutoIn(pre, existing[k], {k}))
    && (forall r :: r in pre.records && pre.records[r].source == Auto && pre.records[r].key !in done ==>
          pre.records[r].key in existing && existing[pre.records[r].key] == r)
  }

  method LoadExistingAuto(pre: Db) returns (existing: map<Key, int>)
    requires RecordsUnique(pre.records)
    ensures ExistingAuto(pre, existing, {})
  {
    existing := map[];
    var todo := pre.records.Keys;
    while todo != {}
      invariant todo <= pre.records.Keys
      invariant forall k :: k in existing ==> AutoIn(pre, existing[k], {k}) && existing[k] !in todo
      invariant forall r :: r in pre.records && pre.records[r].source == Auto && r !in todo ==>
                  pre.records[r].key in existing && existing[pre.records[r].key] == r
      decreases |todo|
    {
      var _ := SomeElement(todo);
      var r :| r in todo;
      if pre.records[r].source == Auto {
        existing := existing[pre.records[r].key := r];
      }
      todo := todo - {r};
    }
  }

  lemma NoRowNoConflict(pre: Db, tx: Db, want: map<Key, Wanted>, done: set<Key>, k: Key)
    requires Converged(pre, tx, want, done) && pre.records.Keys <= tx.records.Keys
    requires forall s :: s in tx.records ==> tx.records[s].key != k
    ensures forall r :: r in pre.records ==> pre.records[r].key != k
  {
    forall r | r in pre.records
      ensures pre.records[r].key != k
    {
      assert tx.records[r].key == pre.records[r].key;
    }
  }

  lemma ConflictIsManual(pre: Db, tx: Db, want: map<Key, Wanted>, done: set<Key>, existing: map<Key, int>, k: Key, s: int)
    requires Converged(pre, tx, want, done) && ExistingAuto(pre, existing, done)
    requires k in want && k !in done && k !in existing && s in tx.records && tx.records[s].key == k
    ensures s in pre.records && pre.records[s].key == k && pre.records[s].source == Manual
  {
  }

  ghost predicate RowAdmissible(db: Db, k: Key, w: Wanted) {
    (forall r :: r in db.records && db.records[r].key == k ==> db.records[r].source == Auto) && w.zone in db.zones
  }

  /** The row for `k` is the existing one, refreshed, or a new one. */
  ghost predicate RowPut(before: Db, after: Db, existing: map<Key, int>, k: Key, w: Wanted, r: int) {
    if k in existing then
      r == existing[k] && r in before.records &&
      after == before.(records := before.records[r := Refreshed(before.records[r], w)])
    else
      r !in before.records && (forall s :: s in before.records ==> before.records[s].key != k) &&
      after == before.(records := before.records[r := NewAuto(k, w)])
  }

  /** UPDATE or INSERT of one row; `ok` is false when the statement violates UNIQUE or a foreign key. */
  method PutRow(ghost pre: Db, before: Db, ghost want: map<Key, Wanted>, ghost done: set<Key>,
                existing: map<Key, int>, k: Key, w: Wanted)
    returns (tx: Db, recordId: int, ok: bool)
    requires RecordsUnique(pre.records) && Converged(pre, before, want, done) && pre.records.Keys <= before.records.Keys
    requires ExistingAuto(pre, existing, done) && k in want && k !in done
    ensures ok <==> RowAdmissible(pre, k, w)
    ensures ok ==> RowPut(before, tx, existing, k, w, recordId)
  {
    tx, recordId, ok := before, 0, false;
    if k in existing {
      recordId := existing[k];
      assert AutoIn(pre, recordId, {k});
      if w.zone in tx.zones {
        tx := tx.(records := tx.records[recordId := Refreshed(tx.records[recordId], w)]);
        ok := true;
      }
    } else if s :| s in tx.records && tx.records[s].key == k {
      ConflictIsManual(pre, tx, want, done, existing, k, s);
    } else {
      NoRowNoConflict(pre, tx, want, done, k);
      if w.zone in tx.zones {
        recordId := FreshId(tx.records.Keys);
        tx := tx.(records := tx.records[recordId := NewAuto(k, w)]);
        ok := true;
      }
    }
  }

  lemma KeyHandled(pre: Db, existing: map<Key, int>, done: set<Key>, k: Key)
    requires ExistingAuto(pre, existing, done) && RecordsUnique(pre.records)
    ensures ExistingAuto(pre, existing - {k}, done + {k})
  {
  }

  /** One iteration of the convergence loop. */
  method ConvergeKey(ghost pre: Db, before: Db, ghost want: map<Key, Wanted>, ghost done: set<Key>,
                     existing: map<Key, int>, k: Key, w: Wanted)
    returns (tx: Db, rest: map<Key, int>, ok: bool)
    requires RecordsUnique(pre.records) && Converged(pre, before, want, done) && pre.records.Keys <= before.records.Keys
    requires ExistingAuto(pre, existing, done) && k in want && w == want[k] && k !in done && BindingsResolve(before)
    ensures ok <==> Admissible(pre, k, w)
    ensures ok ==> Converged(pre, tx, want, done + {k}) && pre.records.Keys <= tx.records.Keys
    ensures ok ==> ExistingAuto(pre, rest, done + {k}) && BindingsResolve(tx)
  {
    rest := existing;
    var recordId: int;
    tx, recordId, ok := PutRow(pre, before, want, done, existing, k, w);
    if !ok {
      return;
    }
    ghost var mid := tx;
    tx, ok := SyncBindings(tx, recordId, w.bindings);
    if !ok {
      return;
    }
    if k in existing {
      rest := existing - {k};
      UpdateStep(pre, before, tx, want, done, k, recordId);
    } else {
      assert existing - {k} == existing;
      InsertStep(pre, before, tx, want, done, k, recordId);
    }
    KeyHandled(pre, existing, done, k);
  }

  // ---------- Deleting what is no longer wanted ----------

  lemma DropMore(db: Db, xs: set<int>, r: int)
    ensures DropRecords(DropRecords(db, xs), {r}) == DropRecords(db, xs + {r})
  {
    assert db.records - xs - {r} == db.records - (xs + {r});
  }

  lemma WantedRowStays(pre: Db, tx: Db, want: map<Key, Wanted>, stale: set<int>, k: Key)
    requires Converged(pre, tx, want, want.Keys) && k in want
    requires forall r :: r in stale <==> r in pre.records && pre.records[r].source == Auto && pre.records[r].key !in want
    ensures exists r :: r in tx.records && r !in stale && tx.records[r].source == Auto && tx.records[r].key == k
  {
    var r :| r in tx.records && tx.records[r].source == Auto && tx.records[r].key == k;
    assert r !in stale;
  }

  lemma Finish(pre: Db, tx: Db, want: map<Key, Wanted>, stale: set<int>)
    requires Converged(pre, tx, want, want.Keys) && pre.records.Keys <= tx.records.Keys
    requires forall r :: r in stale <==> r in pre.records && pre.records[r].source == Auto && pre.records[r].key !in want
    ensures Applied(pre, DropRecords(tx, stale), want)
  {
    var post := DropRecords(tx, stale);
    var done := want.Keys;
    assert RecordsUnique(post.records);
    assert forall k :: k in done ==> exists r :: r in post.records && post.records[r].source == Auto && post.records[r].key == k by {
      forall k | k in done
        ensures exists r :: r in post.records && post.records[r].source == Auto && post.records[r].key == k
      {
        WantedRowStays(pre, tx, want, stale, k);
        var r :| r in tx.records && r !in stale && tx.records[r].source == Auto && tx.records[r].key == k;
        assert r in post.records;
      }
    }
    forall r, i
      ensures (r, i) in post.bindings <==>
                r in post.records &&
                if r !in pre.records || AutoIn(pre, r, done) then i in want[post.records[r].key].bindings
                else (r, i) in pre.bindings
    {
      assert (r, i) in post.bindings <==> (r, i) in tx.bindings && r !in stale;
    }
  }

  method DeleteRows(before: Db, ids: set<int>) returns (tx: Db)
    ensures tx == DropRecords(before, ids)
  {
    tx := before;
    ghost var gone: set<int> := {};
    var todo := ids;
    assert before.records - {} == before.records;
    while todo != {}
      invariant gone + todo == ids && tx == DropRecords(before, gone)
      decreases |todo|
    {
      var _ := SomeElement(todo);
      var r :| r in todo;
      DropMore(before, gone, r);
      tx := DropRecords(tx, {r});
      gone, todo := gone + {r}, todo - {r};
    }
    assert gone == ids;
  }

  lemma NothingDone(pre: Db, want: map<Key, Wanted>)
    requires Valid(pre)
    ensures Converged(pre, pre, want, {}) && BindingsResolve(pre)
  {
  }

  /** The loop over the wanted records: one row and its bindings a round, in any order. */
  method ConvergeKeys(pre: Db, want: map<Key, Wanted>, before: map<Key, int>)
    returns (tx: Db, existing: map<Key, int>, ok: bool)
    requires Valid(pre) && ExistingAuto(pre, before, {})
    ensures ok <==> Appliable(pre, want)
    ensures ok ==> Converged(pre, tx, want, want.Keys) && pre.records.Keys <= tx.records.Keys
    ensures ok ==> ExistingAuto(pre, existing, want.Keys)
  {
    tx, existing, ok := pre, before, true;
    NothingDone(pre, want);
    var todo := want.Keys;
    while todo != {}
      invariant todo <= want.Keys && Converged(pre, tx, want, want.Keys - todo) && pre.records.Keys <= tx.records.Keys
      invariant ExistingAuto(pre, existing, want.Keys - todo) && BindingsResolve(tx)
      invariant forall k :: k in want.Keys - todo ==> Admissible(pre, k, want[k])
      decreases |todo|
    {
      var k :| k in todo;
      ghost var done := want.Keys - todo;
      tx, existing, ok := ConvergeKey(pre, tx, want, done, existing, k, want[k]);
      if !ok {
        return;
      }
      todo := todo - {k};
      assert want.Keys - todo == done + {k};
    }
    assert want.Keys - todo == want.Keys;
  }

  /** The body of the transaction. */
  method Converge(pre: Db, want: map<Key, Wanted>) returns (tx: Db, ok: bool)
    requires Valid(pre)
    ensures ok <==> Appliable(pre, want)
    ensures ok ==> Applied(pre, tx, want)
  {
    var existing := LoadExistingAuto(pre);
    tx, existing, ok := ConvergeKeys(pre, want, existing);
    if !ok {
      return;
    }
    var stale := existing.Values;
    StaleRows(pre, existing, want.Keys);
    Finish(pre, tx, want, stale);
    tx := DeleteRows(tx, stale);
  }

  lemma StaleRows(pre: Db, existing: map<Key, int>, done: set<Key>)
    requires ExistingAuto(pre, existing, done)
    ensures forall r :: r in existing.Values <==>
              r in pre.records && pre.records[r].source == Auto && pre.records[r].key !in done
  {
    forall r | r in pre.records && pre.records[r].source == Auto && pre.records[r].key !in done
      ensures r in existing.Values
    {
      assert existing[pre.records[r].key] == r;
    }
  }

  // ---------- What Applied means ----------

  lemma AppliedValid(pre: Db, post: Db, want: map<Key, Wanted>)
    requires Valid(pre) && Appliable(pre, want) && Applied(pre, post, want)
    ensures Valid(post)
  {
    forall r | r in post.records && post.records[r].zone.Some?
      ensures post.records[r].zone.value in post.zones
    {
      if r !in pre.records {
        assert Admissible(pre, post.records[r].key, want[post.records[r].key]);
      } else if AutoIn(pre, r, want.Keys) {
        assert Admissible(pre, pre.records[r].key, want[pre.records[r].key]);
      }
    }
    forall r, i | (r, i) in post.bindings
      ensures r in post.records && i in post.ips
    {
      if r !in pre.records || AutoIn(pre, r, want.Keys) {
        assert Admissible(pre, post.records[r].key, want[post.records[r].key]);
      }
    }
  }

  ghost predicate AutoRow(db: Db, r: int, k: Key) {
    r in db.records && db.records[r].source == Auto && db.records[r].key == k
  }

  /** The automatic rows biject with the wanted keys, and carry the wanted TTL, zone and binding set. */
  lemma AutoRowsAreWanted(pre: Db, post: Db, want: map<Key, Wanted>)
    requires Applied(pre, post, want)
    ensures forall k :: k in want <==> exists r :: AutoRow(post, r, k)
    ensures forall r, s, k :: AutoRow(post, r, k) && AutoRow(post, s, k) ==> r == s
    ensures forall r, k :: AutoRow(post, r, k) ==>
              post.records[r].ttl == want[k].ttl && post.records[r].zone == Some(want[k].zone) &&
              forall i :: (r, i) in post.bindings <==> i in want[k].bindings
  {
    forall k | k in want
      ensures exists r :: AutoRow(post, r, k)
    {
      var r :| r in post.records && post.records[r].source == Auto && post.records[r].key == k;
      assert AutoRow(post, r, k);
    }
  }

  /** Manual rows and their bindings are the same before and after; surviving automatic keys keep their row. */
  lemma ManualRowsUntouched(pre: Db, post: Db, want: map<Key, Wanted>)
    requires Applied(pre, post, want)
    ensures forall r :: r in pre.records && pre.records[r].source == Manual ==> r in post.records && post.records[r] == pre.records[r]
    ensures forall r :: r in post.records && post.records[r].source == Manual ==> r in pre.records && pre.records[r] == post.records[r]
    ensures forall r, i :: r in pre.records && pre.records[r].source == Manual ==> ((r, i) in post.bindings <==> (r, i) in pre.bindings)
    ensures forall r, k :: AutoRow(pre, r, k) && k in want ==> AutoRow(post, r, k)
  {
  }

  /** Applying the same records again changes nothing at all: not a row, not an identifier, not a binding. */
  lemma AppliedTwice(pre: Db, mid: Db, post: Db, want: map<Key, Wanted>)
    requires Applied(pre, mid, want) && Applied(mid, post, want)
    requires forall r, i :: (r, i) in mid.bindings ==> r in mid.records
    ensures post == mid
  {
    AutoRowsAreWanted(pre, mid, want);
    forall r | r in mid.records
      ensures r in post.records && post.records[r] == mid.records[r]
    {
      if mid.records[r].source == Auto {
        assert AutoRow(mid, r, mid.records[r].key);
      }
    }
    forall r | r in post.records
      ensures r in mid.records
    {
      if r !in mid.records {
        assert false;
      }
    }
    assert post.records == mid.records;
    forall b: (int, int)
      ensures b in post.bindings <==> b in mid.bindings
    {
      var (r, i) := b;
      if r in mid.records && AutoIn(mid, r, want.Keys) {
        assert AutoRow(mid, r, mid.records[r].key);
      }
      assert (r, i) in post.bindings <==> (r, i) in mid.bindings;
    }
  }

  /** The outcome does not depend on iteration order, except for the identifiers given to new rows. */
  lemma OrderIndependent(pre: Db, x: Db, y: Db, want: map<Key, Wanted>, r: int, s: int, k: Key)
    requires Applied(pre, x, want) && Applied(pre, y, want) && AutoRow(x, r, k) && AutoRow(y, s, k)
    ensures x.records[r] == y.records[s]
    ensures forall i :: (r, i) in x.bindings <==> (s, i) in y.bindings
    ensures r in pre.records ==> r == s
  {
    AutoRowsAreWanted(pre, x, want);
    AutoRowsAreWanted(pre, y, want);
  }
}
