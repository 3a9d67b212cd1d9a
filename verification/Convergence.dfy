/**
 What reconcile passes achieve. A remote zone may hold several records with one key; a pass deletes one copy of
 each stray key, so convergence takes as many passes as the largest stray multiplicity.
 */
module Convergence {
  import opened Basics
  import opened Database
  import opened Storage
  import opened Remote
  import opened Reconcile

  function Copies(zone: Records, k: string): set<string> {
    set id | id in zone && RecordKey(zone[id]) == k
  }

  lemma KeyHasCopies(zone: Records, k: string)
    ensures k in KeysOf(zone) <==> Copies(zone, k) != {}
  {
    if k in KeysOf(zone) {
      var id :| id in zone && RecordKey(zone[id]) == k;
      assert id in Copies(zone, k);
    }
    if Copies(zone, k) != {} {
      var id := SomeElement(Copies(zone, k));
      assert RecordKey(zone[id]) in KeysOf(zone);
    }
  }

  // ---------- Any pass, whatever fails ----------

  /** Keys that are both desired and present are left exactly as they were, TTLs included. */
  lemma SharedKeysUntouched(pre: Records, post: Records, des: map<string, Record>, k: string)
    requires PassOf(pre, post, des) && k in des && k in KeysOf(pre)
    ensures Copies(post, k) == Copies(pre, k)
    ensures forall id :: id in Copies(pre, k) ==> post[id] == pre[id]
  {
    forall id
      ensures id in Copies(post, k) <==> id in Copies(pre, k)
    {
      assert New(pre, post, id) ==> RecordKey(post[id]) !in KeysOf(pre);
      assert Gone(pre, post, id) ==> RecordKey(pre[id]) !in des;
    }
  }

  /** The key set stays between the shared keys and the union of both sides. */
  lemma KeySetBounds(pre: Records, post: Records, des: map<string, Record>)
    requires PassOf(pre, post, des)
    ensures des.Keys * KeysOf(pre) <= KeysOf(post) <= des.Keys + KeysOf(pre)
  {
    forall k | k in des.Keys * KeysOf(pre)
      ensures k in KeysOf(post)
    {
      SharedKeysUntouched(pre, post, des, k);
      KeyHasCopies(pre, k);
      KeyHasCopies(post, k);
    }
    forall k | k in KeysOf(post)
      ensures k in des.Keys + KeysOf(pre)
    {
      var id :| id in post && RecordKey(post[id]) == k;
      if id !in pre {
        assert New(pre, post, id);
      }
    }
  }

  /** Differences are exactly what was counted plus what failed. */
  lemma CountsBalance(pre: Records, post: Records, des: map<string, Record>, zs: ZoneStatus, fa: set<string>, fd: set<string>)
    requires Compared(pre, post, des, zs, fa, fd)
    ensures zs.added + |fa| == |des.Keys - KeysOf(pre)|
    ensures zs.deleted + |fd| == |KeysOf(pre) - des.Keys|
  {
    assert |fa + AddedKeys(pre, post)| == |fa| + |AddedKeys(pre, post)|;
    assert |fd + DroppedKeys(pre, post)| == |fd| + |DroppedKeys(pre, post)|;
  }

  // ---------- A pass without errors ----------

  ghost predicate Clean(pre: Records, post: Records, des: map<string, Record>) {
    && PassOf(pre, post, des)
    && AddedKeys(pre, post) == des.Keys - KeysOf(pre)
    && DroppedKeys(pre, post) == KeysOf(pre) - des.Keys
  }

  lemma NoFailureIsClean(pre: Records, post: Records, des: map<string, Record>, zs: ZoneStatus, fa: set<string>, fd: set<string>)
    requires Compared(pre, post, des, zs, fa, fd) && zs.ok
    ensures Clean(pre, post, des)
  {
  }

  /** A zone is reported OK only when the pass was clean. */
  lemma OkIsClean(db: Tables, zone: int, zs: ZoneStatus, p: Pass)
    requires Account(db, zone, zs, p) && zs.ok
    ensures Clean(p.pre, p.post, p.des) && DesiredOf(db, zone, p.des)
  {
    NoFailureIsClean(p.pre, p.post, p.des, zs, p.failedAdds, p.failedDels);
  }

  /** If the provider refuses nothing, the pass is clean and the zone is reported OK. */
  lemma GrantedIsClean(db: Tables, zone: int, zs: ZoneStatus, p: Pass)
    requires Account(db, zone, zs, p) && AllGranted(p.calls)
    ensures zs.ok && Clean(p.pre, p.post, p.des) && DesiredOf(db, zone, p.des)
  {
    OkIffAllGranted(db, zone, zs, p);
    OkIsClean(db, zone, zs, p);
  }

  /** The type is spelled by its own name. */
  predicate SpellsType(text: string, t: RecordType) {
    && (text == "A" <==> t == A) && (text == "AAAA" <==> t == AAAA) && (text == "CNAME" <==> t == CNAME)
    && (text == "TXT" <==> t == TXT) && (text == "MX" <==> t == MX) && (text == "PTR" <==> t == PTR)
  }

  /** What is sent for a join: name, type and TTL of the record, and the bound address or, without one, the target. */
  predicate Sends(db: Db, r: int, b: Option<int>, rec: Record) {
    && r in db.records && rec.name == db.records[r].key.fqdn && SpellsType(rec.rtype, db.records[r].key.rtype)
    && rec.ttl == db.records[r].ttl
    && (b.Some? ==> b.value in db.ips && rec.value == db.ips[b.value].ip)
    && (b.None? ==> rec.value == db.records[r].key.target)
  }

  lemma RowSends(db: Tables, zone: int, r: int, b: Option<int>, rec: Record)
    requires Flattens(db, zone, r, b) && rec == Wanting(RowOf(db, r, b))
    ensures Sends(db, r, b, rec)
  {
  }

  /** Every record a pass adds is, TTL included, what the last of the flattened rows with its key says. */
  lemma AddedIsFlattened(db: Tables, zone: int, zs: ZoneStatus, p: Pass, id: string)
    requires Account(db, zone, zs, p) && New(p.pre, p.post, id)
    ensures FromLastRow(db, zone, RecordKey(p.post[id]), p.post[id].(id := ""))
  {
    assert p.compared;
    assert PassOf(p.pre, p.post, p.des);
    var k := RecordKey(p.post[id]);
    assert FromLastRow(db, zone, k, p.des[k]);
    assert p.des[k].(id := id).(id := "") == p.des[k];
  }

  /** So it is, field by field, what some join of the zone's enabled records with their bindings says. */
  lemma AddedFields(db: Tables, zone: int, k: string, rec: Record)
    requires FromLastRow(db, zone, k, rec)
    ensures exists r, b :: Flattens(db, zone, r, b) && Sends(db, r, b, rec)
  {
    var r, b :| Flattens(db, zone, r, b) && KeyOfRow(RowOf(db, r, b)) == k && rec == Wanting(RowOf(db, r, b)) &&
                LastOfKey(db, zone, k, RowOf(db, r, b));
    RowSends(db, zone, r, b, rec);
  }

  lemma MissingKeyGetsOneCopy(pre: Records, post: Records, des: map<string, Record>, k: string)
    requires Clean(pre, post, des) && k in des && k !in KeysOf(pre)
    ensures |Copies(post, k)| == 1
  {
    assert k in AddedKeys(pre, post);
    var id :| New(pre, post, id) && RecordKey(post[id]) == k;
    forall i
      ensures i in Copies(post, k) <==> i == id
    {
      assert i in pre ==> RecordKey(pre[i]) in KeysOf(pre);
      assert i in Copies(post, k) ==> New(pre, post, i);
    }
    assert Copies(post, k) == {id};
  }

  lemma StrayKeyLosesOneCopy(pre: Records, post: Records, des: map<string, Record>, k: string)
    requires Clean(pre, post, des) && k !in des && k in KeysOf(pre)
    ensures |Copies(post, k)| == |Copies(pre, k)| - 1
  {
    assert k in DroppedKeys(pre, post);
    var id :| Gone(pre, post, id) && RecordKey(pre[id]) == k;
    forall i
      ensures i in Copies(post, k) <==> i in Copies(pre, k) && i != id
    {
      assert New(pre, post, i) ==> RecordKey(post[i]) in des;
      assert Gone(pre, post, i) && RecordKey(pre[i]) == k ==> i == id;
    }
    assert Copies(post, k) == Copies(pre, k) - {id};
  }

  lemma AbsentKeyStaysAbsent(pre: Records, post: Records, des: map<string, Record>, k: string)
    requires Clean(pre, post, des) && k !in des && k !in KeysOf(pre)
    ensures Copies(post, k) == {}
  {
    KeySetBounds(pre, post, des);
    KeyHasCopies(post, k);
  }

  /** One clean pass: a desired key has at least one copy, and a stray key has one copy fewer. */
  lemma CopiesAfterPass(pre: Records, post: Records, des: map<string, Record>, k: string)
    requires Clean(pre, post, des)
    ensures |Copies(post, k)| == if k in des then Max(1, |Copies(pre, k)|) else Max(0, |Copies(pre, k)| - 1)
  {
    KeyHasCopies(pre, k);
    if k in des {
      if k in KeysOf(pre) {
        SharedKeysUntouched(pre, post, des, k);
      } else {
        MissingKeyGetsOneCopy(pre, post, des, k);
      }
    } else if k in KeysOf(pre) {
      StrayKeyLosesOneCopy(pre, post, des, k);
    } else {
      AbsentKeyStaysAbsent(pre, post, des, k);
    }
  }

  // ---------- A pass that lists only part of the zone ----------

  /** A clean pass that sees `seen` of the zone and leaves `after` of it; the rest stays as it is, unseen. */
  ghost predicate PartialPass(pre: Records, post: Records, seen: Records, after: Records, des: map<string, Record>) {
    && Clean(seen, after, des) && seen.Keys <= pre.Keys && (forall id :: id in seen ==> seen[id] == pre[id])
    && after.Keys !! pre.Keys - seen.Keys && post.Keys == after.Keys + (pre.Keys - seen.Keys)
    && (forall id :: id in after ==> post[id] == after[id])
    && (forall id :: id in pre && id !in seen ==> post[id] == pre[id])
  }

  lemma CopiesApart(whole: Records, part: Records, rest: set<string>, k: string)
    requires part.Keys !! rest && whole.Keys == part.Keys + rest && forall id :: id in part ==> whole[id] == part[id]
    ensures |Copies(whole, k)| == |Copies(part, k)| + |set id | id in rest && RecordKey(whole[id]) == k|
  {
    var other := set id | id in rest && RecordKey(whole[id]) == k;
    assert Copies(whole, k) == Copies(part, k) + other;
    assert Copies(part, k) !! other;
  }

  /**
   Each such pass adds another copy of a desired record that is there but not listed, and a stray record that is not
   listed stays for good.
   */
  lemma UnlistedCopies(pre: Records, post: Records, seen: Records, after: Records, des: map<string, Record>, k: string)
    requires PartialPass(pre, post, seen, after, des) && k !in KeysOf(seen)
    ensures |Copies(post, k)| == |Copies(pre, k)| + if k in des then 1 else 0
  {
    var rest := pre.Keys - seen.Keys;
    CopiesApart(pre, seen, rest, k);
    CopiesApart(post, after, rest, k);
    CopiesAfterPass(seen, after, des, k);
    KeyHasCopies(seen, k);
    assert (set id | id in rest && RecordKey(post[id]) == k) == (set id | id in rest && RecordKey(pre[id]) == k);
  }

  function Strays(zone: Records, keys: set<string>): set<string> {
    set id | id in zone && RecordKey(zone[id]) !in keys
  }

  lemma {:induction false} CopiesAddUp(zone: Records, ids: set<string>, keys: set<string>, per: map<string, string>)
    requires ids <= zone.Keys
    requires forall k :: k in keys ==> k in per && per[k] in ids && RecordKey(zone[per[k]]) == k
    requires forall id :: id in ids ==> RecordKey(zone[id]) in keys && per[RecordKey(zone[id])] == id
    ensures |ids| == |keys|
    decreases |keys|
  {
    if keys == {} {
      assert ids == {};
    } else {
      var k :| k in keys;
      CopiesAddUp(zone, ids - {per[k]}, keys - {k}, per);
    }
  }

  function GoneFrom(pre: Records, post: Records): set<string> {
    set id | id in pre && id !in post
  }

  lemma StraysLoseTheGone(pre: Records, post: Records, des: map<string, Record>)
    requires Clean(pre, post, des)
    ensures GoneFrom(pre, post) <= Strays(pre, des.Keys)
    ensures Strays(post, des.Keys) == Strays(pre, des.Keys) - GoneFrom(pre, post)
  {
    forall id
      ensures id in GoneFrom(pre, post) ==> id in Strays(pre, des.Keys)
      ensures id in Strays(post, des.Keys) <==> id in Strays(pre, des.Keys) && id !in GoneFrom(pre, post)
    {
      assert New(pre, post, id) ==> RecordKey(post[id]) in des;
      assert Gone(pre, post, id) ==> RecordKey(pre[id]) !in des;
    }
  }

  lemma OneGonePerStrayKey(pre: Records, post: Records, des: map<string, Record>)
    requires Clean(pre, post, des)
    ensures |GoneFrom(pre, post)| == |KeysOf(pre) - des.Keys|
  {
    var gone, keys := GoneFrom(pre, post), KeysOf(pre) - des.Keys;
    var per := map k | k in keys :: DroppedCopy(pre, post, des, k);
    forall id | id in gone
      ensures RecordKey(pre[id]) in keys && per[RecordKey(pre[id])] == id
    {
      assert Gone(pre, post, id);
      assert RecordKey(pre[id]) in DroppedKeys(pre, post);
      assert Gone(pre, post, per[RecordKey(pre[id])]);
    }
    CopiesAddUp(pre, gone, keys, per);
  }

  /** The number of stray records is a decreasing measure: each clean pass removes one for every stray key. */
  lemma StraysDecrease(pre: Records, post: Records, des: map<string, Record>)
    requires Clean(pre, post, des)
    ensures |Strays(pre, des.Keys)| == |Strays(post, des.Keys)| + |KeysOf(pre) - des.Keys|
    ensures |Strays(post, des.Keys)| < |Strays(pre, des.Keys)| || KeysOf(pre) <= des.Keys
  {
    StraysLoseTheGone(pre, post, des);
    OneGonePerStrayKey(pre, post, des);
    Removing(Strays(pre, des.Keys), GoneFrom(pre, post));
    Outside(KeysOf(pre), des.Keys);
  }

  lemma Removing(all: set<string>, part: set<string>)
    requires part <= all
    ensures |all| == |all - part| + |part|
  {
    assert all == (all - part) + part;
  }

  lemma Outside(x: set<string>, y: set<string>)
    ensures |x - y| > 0 || x <= y
  {
    if |x - y| == 0 {
      forall e | e in x
        ensures e in y
      {
        assert e !in x - y;
      }
    }
  }

  ghost function DroppedCopy(pre: Records, post: Records, des: map<string, Record>, k: string): (id: string)
    requires Clean(pre, post, des) && k in KeysOf(pre) - des.Keys
    ensures Gone(pre, post, id) && RecordKey(pre[id]) == k
  {
    assert k in DroppedKeys(pre, post);
    var id :| Gone(pre, post, id) && RecordKey(pre[id]) == k;
    id
  }

  /** Once the key sets agree, a clean pass changes nothing at all. */
  lemma ConvergedIsStable(pre: Records, post: Records, des: map<string, Record>)
    requires Clean(pre, post, des) && KeysOf(pre) == des.Keys
    ensures post == pre
  {
    forall id
      ensures id in post <==> id in pre
    {
      assert !New(pre, post, id) && !Gone(pre, post, id);
    }
    assert post.Keys == pre.Keys;
  }

  // ---------- Many passes ----------

  /** Clean passes over one zone; which of several rows with one key supplied the record may vary. */
  ghost predicate CleanPasses(zones: seq<Records>, des: seq<map<string, Record>>, keys: set<string>) {
    && |zones| == |des| + 1
    && forall i :: 0 <= i < |des| ==> des[i].Keys == keys && Clean(zones[i], zones[i + 1], des[i])
  }

  lemma {:induction false} CopiesAfterPasses(zones: seq<Records>, des: seq<map<string, Record>>, keys: set<string>, n: nat, k: string)
    requires CleanPasses(zones, des, keys) && 1 <= n < |zones|
    ensures |Copies(zones[n], k)| == if k in keys then Max(1, |Copies(zones[0], k)|) else Max(0, |Copies(zones[0], k)| - n)
  {
    if n > 1 {
      CopiesAfterPasses(zones, des, keys, n - 1, k);
    }
    assert des[n - 1].Keys == keys && Clean(zones[n - 1], zones[n - 1 + 1], des[n - 1]);
    CopiesAfterPass(zones[n - 1], zones[n], des[n - 1], k);
  }

  /** After n >= 1 clean passes the key set is the desired one exactly when no stray key began with more than n copies. */
  lemma ConvergedIff(zones: seq<Records>, des: seq<map<string, Record>>, keys: set<string>, n: nat)
    requires CleanPasses(zones, des, keys) && 1 <= n < |zones|
    ensures KeysOf(zones[n]) == keys <==> forall k :: k !in keys ==> |Copies(zones[0], k)| <= n
  {
    forall k
      ensures k in KeysOf(zones[n]) <==> k in keys || |Copies(zones[0], k)| > n
    {
      CopiesAfterPasses(zones, des, keys, n, k);
      KeyHasCopies(zones[n], k);
      assert Copies(zones[n], k) != {} <==> |Copies(zones[n], k)| > 0;
    }
  }

  /** From the first converged state on, later clean passes leave the remote zone as it is. */
  lemma {:induction false} StaysConverged(zones: seq<Records>, des: seq<map<string, Record>>, keys: set<string>, m: nat, n: nat)
    requires CleanPasses(zones, des, keys) && m <= n < |zones| && KeysOf(zones[m]) == keys
    ensures zones[n] == zones[m]
  {
    if m < n {
      StaysConverged(zones, des, keys, m, n - 1);
      assert des[n - 1].Keys == keys && Clean(zones[n - 1], zones[n - 1 + 1], des[n - 1]);
      ConvergedIsStable(zones[n - 1], zones[n], des[n - 1]);
    }
  }

  // ---------- The zone and the store ----------

  /** A series of passes reported OK, over an unchanged store. */
  ghost predicate OkPasses(db: Tables, zone: int, passes: seq<Pass>, statuses: seq<ZoneStatus>) {
    && |passes| == |statuses|
    && (forall i :: 0 <= i < |passes| ==> Account(db, zone, statuses[i], passes[i]) && statuses[i].ok)
    && (forall i :: 0 <= i < |passes| - 1 ==> passes[i].post == passes[i + 1].pre)
  }

  function ZonesOf(passes: seq<Pass>): (zones: seq<Records>)
    requires |passes| >= 1
    ensures |zones| == |passes| + 1 && zones[0] == passes[0].pre
    ensures forall i :: 0 <= i < |passes| ==> zones[i + 1] == passes[i].post
  {
    [passes[0].pre] + seq(|passes|, i requires 0 <= i < |passes| => passes[i].post)
  }

  function DesiredMaps(passes: seq<Pass>): (des: seq<map<string, Record>>)
    ensures |des| == |passes|
    ensures forall i :: 0 <= i < |passes| ==> des[i] == passes[i].des
  {
    seq(|passes|, i requires 0 <= i < |passes| => passes[i].des)
  }

  lemma OkPassesAreClean(db: Tables, zone: int, passes: seq<Pass>, statuses: seq<ZoneStatus>)
    requires OkPasses(db, zone, passes, statuses) && |passes| >= 1
    ensures CleanPasses(ZonesOf(passes), DesiredMaps(passes), passes[0].des.Keys)
    ensures DesiredOf(db, zone, passes[0].des)
  {
    var zones, des := ZonesOf(passes), DesiredMaps(passes);
    OkIsClean(db, zone, statuses[0], passes[0]);
    forall i | 0 <= i < |passes|
      ensures des[i].Keys == passes[0].des.Keys && Clean(zones[i], zones[i + 1], des[i])
    {
      OkIsClean(db, zone, statuses[i], passes[i]);
      SameKeys(db, zone, passes[0].des, passes[i].des);
      if i > 0 {
        assert passes[i - 1].post == passes[i - 1 + 1].pre;
        assert zones[i - 1 + 1] == passes[i - 1].post;
      }
    }
  }

  /**
   After enough OK passes the zone's keys are exactly those the store wants: one for each flattened row of the
   zone. Enough means: as many as the most copies any unwanted key began with, and at least one.
   */
  lemma ZoneMirrorsStore(db: Tables, zone: int, passes: seq<Pass>, statuses: seq<ZoneStatus>)
    requires OkPasses(db, zone, passes, statuses) && |passes| >= 1
    ensures (forall k :: k in KeysOf(passes[|passes| - 1].post) <==> Wants(db, zone, k)) <==>
            forall k :: !Wants(db, zone, k) ==> |Copies(passes[0].pre, k)| <= |passes|
  {
    var n := |passes|;
    OkPassesAreClean(db, zone, passes, statuses);
    ConvergedIff(ZonesOf(passes), DesiredMaps(passes), passes[0].des.Keys, n);
    assert ZonesOf(passes)[n - 1 + 1] == passes[n - 1].post;
    SetIff(db, zone, KeysOf(passes[n - 1].post), passes[0].des);
  }

  lemma SameKeys(db: Tables, zone: int, x: map<string, Record>, y: map<string, Record>)
    requires DesiredOf(db, zone, x) && DesiredOf(db, zone, y)
    ensures x.Keys == y.Keys
  {
    forall k
      ensures k in x <==> k in y
    {
    }
  }

  lemma LastRowsTie(db: Tables, zone: int, k: string, x: Record, y: Record)
    requires FromLastRow(db, zone, k, x) && FromLastRow(db, zone, k, y)
    ensures x.(ttl := 0) == y.(ttl := 0)
  {
    var r, b :| Flattens(db, zone, r, b) && KeyOfRow(RowOf(db, r, b)) == k && x == Wanting(RowOf(db, r, b)) &&
                LastOfKey(db, zone, k, RowOf(db, r, b));
    var s, c :| Flattens(db, zone, s, c) && KeyOfRow(RowOf(db, s, c)) == k && y == Wanting(RowOf(db, s, c)) &&
                LastOfKey(db, zone, k, RowOf(db, s, c));
    RowLessTotal(RowOf(db, r, b), RowOf(db, s, c));
  }

  /** Two passes over one store load the same records, but for the TTLs of rows that tie in name, type and value. */
  lemma LoadedTwice(db: Tables, zone: int, x: map<string, Record>, y: map<string, Record>)
    requires DesiredOf(db, zone, x) && DesiredOf(db, zone, y)
    ensures x.Keys == y.Keys && forall k :: k in x ==> x[k].(ttl := 0) == y[k].(ttl := 0)
  {
    SameKeys(db, zone, x, y);
    forall k | k in x
      ensures x[k].(ttl := 0) == y[k].(ttl := 0)
    {
      LastRowsTie(db, zone, k, x[k], y[k]);
    }
  }

  lemma SetIff(db: Tables, zone: int, keys: set<string>, des: map<string, Record>)
    requires DesiredOf(db, zone, des)
    ensures keys == des.Keys <==> forall k :: k in keys <==> Wants(db, zone, k)
    ensures forall k :: k in des.Keys <==> Wants(db, zone, k)
  {
    if keys == des.Keys {
      forall k
        ensures k in keys <==> Wants(db, zone, k)
      {
        assert k in keys <==> k in des;
      }
    }
    if forall k :: k in keys <==> Wants(db, zone, k) {
      forall k
        ensures k in keys <==> k in des.Keys
      {
      }
    }
  }
}
