/** The `Store` object: one database handle, and the record operations of internal/store/dns.go. */
module Storage {
  import opened Basics
  import opened Ordering
  import opened Net
  import opened Database

  // ---------- Manual records ----------

  function TypeNamed(name: string): Option<RecordType> {
    if name == "A" then Some(A)
    else if name == "AAAA" then Some(AAAA)
    else if name == "CNAME" then Some(CNAME)
    else if name == "TXT" then Some(TXT)
    else if name == "MX" then Some(MX)
    else if name == "PTR" then Some(PTR)
    else None
  }

  /** The zone has the name, the type is one that can be reconciled, and no row of any source has the key. */
  ghost predicate CanCreateManual(db: Db, zone: int, zoneName: string, fqdn: string, rtype: string, target: string) {
    && zone in db.zones && db.zones[zone].name == zoneName && TypeNamed(rtype).Some?
    && forall r :: r in db.records ==> db.records[r].key != Key(fqdn, TypeNamed(rtype).value, target)
  }

  function ManualRec(db: Db, zone: int, fqdn: string, rtype: RecordType, target: string, ttl: int): Rec
    requires zone in db.zones
  {
    Rec(Key(fqdn, rtype, target), if ttl <= 0 then db.zones[zone].defaultTtl else ttl, true, Some(zone), Manual)
  }

  /** One row more: enabled, in the zone, with the TTL asked for if that is positive and the zone's default if not. */
  ghost predicate ManualAdded(pre: Db, post: Db, id: int, zone: int, key: Key, ttl: int) {
    zone in pre.zones &&
    var rec := Rec(key, if 0 < ttl then ttl else pre.zones[zone].defaultTtl, true, Some(zone), Manual);
    post == pre.(records := pre.records[id := rec])
  }

  lemma ManualRecValid(db: Db, id: int, rec: Rec)
    requires Valid(db) && id !in db.records && (forall r :: r in db.records ==> db.records[r].key != rec.key)
    requires rec.zone.Some? ==> rec.zone.value in db.zones
    ensures Valid(db.(records := db.records[id := rec]))
  {
  }

  // ---------- The flattening query ----------

  predicate Kept(db: Db, zone: int, r: int, b: Option<int>) {
    r in db.records && (b.Some? ==> b.value in db.ips) &&
    db.records[r].zone == Some(zone) && db.records[r].enabled && RowOf(db, r, b).value != ""
  }

  function JoinRows(db: Db, zone: int): set<(int, Option<int>)> {
    (set b | b in db.bindings && Kept(db, zone, b.0, Some(b.1)) :: (b.0, Some(b.1))) +
    (set r | r in db.records && (forall b :: b in db.bindings ==> b.0 != r) && Kept(db, zone, r, None) :: (r, None))
  }

  lemma JoinRowsMeaning(db: Db, zone: int, r: int, b: Option<int>)
    requires Valid(db)
    ensures (r, b) in JoinRows(db, zone) <==> Flattens(db, zone, r, b)
  {
    if Flattens(db, zone, r, b) {
      if b.Some? {
        assert (r, b.value) in db.bindings;
      } else {
        forall x | x in db.bindings
          ensures x.0 != r
        {
          var (s, i) := x;
          assert (s, i) in db.bindings;
        }
      }
    }
  }

  // ---------- ORDER BY fqdn, type, value ----------

  predicate RowLess(x: Row, y: Row) {
    Less(x.name, y.name) ||
    (x.name == y.name && (Less(TypeName(x.rtype), TypeName(y.rtype)) || (x.rtype == y.rtype && Less(x.value, y.value))))
  }

  lemma RowLessStrict(x: Row, y: Row, z: Row)
    ensures !RowLess(x, x)
    ensures RowLess(x, y) && RowLess(y, z) ==> RowLess(x, z)
  {
    LessTotal(x.name, x.name);
    LessTotal(TypeName(x.rtype), TypeName(x.rtype));
    LessTotal(x.value, x.value);
    if RowLess(x, y) && RowLess(y, z) {
      if Less(x.name, y.name) && Less(y.name, z.name) {
        LessTransitive(x.name, y.name, z.name);
      }
      if Less(TypeName(x.rtype), TypeName(y.rtype)) && Less(TypeName(y.rtype), TypeName(z.rtype)) {
        LessTransitive(TypeName(x.rtype), TypeName(y.rtype), TypeName(z.rtype));
      }
      if Less(x.value, y.value) && Less(y.value, z.value) {
        LessTransitive(x.value, y.value, z.value);
      }
    }
  }

  /** Rows that do not precede one another agree in all but the TTL. */
  lemma RowLessTotal(x: Row, y: Row)
    ensures RowLess(x, y) || RowLess(y, x) || x.(ttl := 0) == y.(ttl := 0)
  {
    LessTotal(x.name, y.name);
    LessTotal(TypeName(x.rtype), TypeName(y.rtype));
    LessTotal(x.value, y.value);
    assert TypeName(x.rtype) == TypeName(y.rtype) ==> x.rtype == y.rtype;
  }

  /** By name first, then by type as text, then by value. */
  ghost predicate NotAfter(x: Row, y: Row) {
    && (x.name == y.name || Less(x.name, y.name))
    && (x.name == y.name ==> x.rtype == y.rtype || Less(TypeName(x.rtype), TypeName(y.rtype)))
    && (x.name == y.name && x.rtype == y.rtype ==> x.value == y.value || Less(x.value, y.value))
  }

  lemma NotAfterIff(x: Row, y: Row)
    ensures NotAfter(x, y) <==> !RowLess(y, x)
  {
    LessTotal(x.name, y.name);
    LessTotal(TypeName(x.rtype), TypeName(y.rtype));
    LessTotal(x.value, y.value);
    assert TypeName(x.rtype) == TypeName(y.rtype) ==> x.rtype == y.rtype;
  }

  /** What is published: an enabled record of the zone with the text of an address bound to it, or, bound to none, with its target. */
  lemma FlattensIff(db: Db, zone: int, r: int, b: Option<int>)
    requires Valid(db)
    ensures Flattens(db, zone, r, b) <==>
            && r in db.records && db.records[r].enabled && db.records[r].zone == Some(zone)
            && (b.Some? ==> (r, b.value) in db.bindings && b.value in db.ips && db.ips[b.value].ip != "")
            && (b.None? ==> db.records[r].key.target != "" && forall i :: (r, i) !in db.bindings)
  {
  }

  type JoinedPair = (int, Option<int>)

  /** The result rows, by the join each comes from. */
  function JoinedRows(db: Db, zone: int): (rows: map<JoinedPair, Row>)
    ensures rows.Keys == JoinRows(db, zone)
  {
    map j | j in JoinRows(db, zone) :: RowOf(db, j.0, j.1)
  }

  function Before(rows: map<JoinedPair, Row>): (less: (JoinedPair, JoinedPair) -> bool)
    ensures forall x, y :: less(x, y) <==> x in rows && y in rows && RowLess(rows[x], rows[y])
  {
    (x, y) => x in rows && y in rows && RowLess(rows[x], rows[y])
  }

  lemma BeforeIsStrict(rows: map<JoinedPair, Row>)
    ensures StrictOn(rows.Keys, Before(rows))
  {
    forall x, y, z | x in rows && y in rows && z in rows
      ensures !RowLess(rows[x], rows[x]) && (RowLess(rows[x], rows[y]) && RowLess(rows[y], rows[z]) ==> RowLess(rows[x], rows[z]))
    {
      RowLessStrict(rows[x], rows[y], rows[z]);
    }
  }

  /** The values of `rows` are those of the flattened joins. */
  ghost predicate RowsOf(db: Db, zone: int, rows: seq<Row>)
    requires Valid(db)
  {
    forall row :: row in rows <==> exists r, b :: Flattens(db, zone, r, b) && RowOf(db, r, b) == row
  }

  /**
   One row per join of a record with a binding, in the order of name, type and value; `order` names the joins
   in the order of the rows.
   */
  method ListDesiredRecordsByZone(db: Db, zone: int) returns (rows: seq<Row>, ghost order: seq<JoinedPair>)
    requires Valid(db)
    ensures |rows| == |order|
    ensures forall k :: 0 <= k < |order| ==>
              Flattens(db, zone, order[k].0, order[k].1) && rows[k] == RowOf(db, order[k].0, order[k].1)
    ensures forall j, k :: 0 <= j < k < |order| ==> order[j] != order[k]
    ensures forall r, b :: Flattens(db, zone, r, b) ==> (r, b) in order
    ensures RowsOf(db, zone, rows)
    ensures forall j, k :: 0 <= j < k < |rows| ==> !RowLess(rows[k], rows[j]) && NotAfter(rows[j], rows[k])
  {
    var joined := JoinedRows(db, zone);
    BeforeIsStrict(joined);
    var joins := SortedListing(joined.Keys, Before(joined));
    rows := seq(|joins|, k requires 0 <= k < |joins| => joined[joins[k]]);
    order := joins;
    ListedJoins(db, zone, joins, rows);
    forall j, k | 0 <= j < k < |rows|
      ensures NotAfter(rows[j], rows[k])
    {
      NotAfterIff(rows[j], rows[k]);
    }
  }

  lemma ListedJoins(db: Db, zone: int, joins: seq<JoinedPair>, rows: seq<Row>)
    requires Valid(db) && |rows| == |joins|
    requires IsListing(JoinRows(db, zone), Before(JoinedRows(db, zone)), joins)
    requires forall k :: 0 <= k < |joins| ==> rows[k] == JoinedRows(db, zone)[joins[k]]
    ensures forall k :: 0 <= k < |joins| ==>
              Flattens(db, zone, joins[k].0, joins[k].1) && rows[k] == RowOf(db, joins[k].0, joins[k].1)
    ensures forall r, b :: Flattens(db, zone, r, b) ==> (r, b) in joins
    ensures RowsOf(db, zone, rows)
    ensures forall j, k :: 0 <= j < k < |rows| ==> !RowLess(rows[k], rows[j])
  {
    forall k | 0 <= k < |joins|
      ensures Flattens(db, zone, joins[k].0, joins[k].1) && rows[k] == RowOf(db, joins[k].0, joins[k].1)
    {
      JoinRowsMeaning(db, zone, joins[k].0, joins[k].1);
    }
    forall r, b | Flattens(db, zone, r, b)
      ensures (r, b) in joins && RowOf(db, r, b) in rows
    {
      JoinRowsMeaning(db, zone, r, b);
      var k :| 0 <= k < |joins| && joins[k] == (r, b);
      assert rows[k] == RowOf(db, r, b);
    }
    forall row | row in rows
      ensures exists r, b :: Flattens(db, zone, r, b) && RowOf(db, r, b) == row
    {
      var k :| 0 <= k < |rows| && rows[k] == row;
      assert Flattens(db, zone, joins[k].0, joins[k].1);
    }
  }

  class Store {
    const v6: V6Text
    var db: Db

    constructor (v6: V6Text, db: Db)
      requires Valid(db)
      ensures this.v6 == v6 && this.db == db
    {
      this.v6, this.db := v6, db;
    }

    method CreateManualDnsRecord(zoneName: string, fqdn: string, rtype: string, target: string, ttl: int)
      returns (id: Option<int>)
      requires Valid(db)
      modifies this
      ensures Valid(db)
      ensures id.Some? <==> exists z :: CanCreateManual(old(db), z, zoneName, fqdn, rtype, target)
      ensures id.None? ==> db == old(db)
      ensures id.Some? ==>
                id.value !in old(db).records &&
                exists z :: CanCreateManual(old(db), z, zoneName, fqdn, rtype, target) &&
                            db == old(db).(records := old(db).records[
                              id.value := ManualRec(old(db), z, fqdn, TypeNamed(rtype).value, target, ttl)]) &&
                            ManualAdded(old(db), db, id.value, z, Key(fqdn, TypeNamed(rtype).value, target), ttl) &&
                            TypeName(TypeNamed(rtype).value) == rtype
    {
      id := None;
      var t := TypeNamed(rtype);
      if t.None? {
        return;
      }
      if z :| z in db.zones && db.zones[z].name == zoneName {
        var key := Key(fqdn, t.value, target);
        if r :| r in db.records && db.records[r].key == key {
          return;
        }
        var recordId := FreshId(db.records.Keys);
        assert CanCreateManual(db, z, zoneName, fqdn, rtype, target);
        ManualRecValid(db, recordId, ManualRec(db, z, fqdn, t.value, target, ttl));
        db := db.(records := db.records[recordId := ManualRec(db, z, fqdn, t.value, target, ttl)]);
        id := Some(recordId);
      }
    }

    method DeleteDnsRecord(id: int) returns (found: bool)
      requires Valid(db)
      modifies this
      ensures Valid(db) && db == DropRecords(old(db), {id})
      ensures found <==> id in old(db).records
    {
      found := id in db.records;
      DropRecordsValid(db, {id});
      db := DropRecords(db, {id});
    }
  }
}
