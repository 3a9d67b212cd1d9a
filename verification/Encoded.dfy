/**
 Reconcile passes over a zone that stores records in the provider's own form. What lists back is what was stored,
 decoded; a record that lists back under another key is never seen as present, so it is added again in every pass.
 A provider either keeps whatever it is sent under a new handle and deletes by handle, or keeps one entry for each
 name, type and value and deletes by these; then adding what is there already succeeds and changes nothing.
 */
module Encoded {
  import opened Basics
  import opened Remote
  import opened Reconcile
  import opened Convergence

  /**
   What the provider keeps of an added record, if adapter and provider take it, and how the adapter reads it back;
   `single` if the provider keeps one entry for each name, type and value.
   */
  datatype Codec<!E> = Codec(encode: Record -> Option<E>, decode: E -> Option<Record>, single: bool)

  /** The records the adapter lists; entries it cannot decode are skipped. */
  function Listing<E>(c: Codec<E>, zone: map<string, E>): Records {
    map id | id in zone && c.decode(zone[id]).Some? :: c.decode(zone[id]).value.(id := id)
  }

  /** The key a record lists back under once it has been added. */
  function BackKey<E>(c: Codec<E>, r: Record): Option<string> {
    match c.encode(r)
    case None => None
    case Some(e) =>
      match c.decode(e)
      case None => None
      case Some(back) => Some(RecordKey(back))
  }

  predicate Survives<E>(c: Codec<E>, r: Record) {
    BackKey(c, r) == Some(RecordKey(r))
  }

  function Missing<E>(c: Codec<E>, zone: map<string, E>, des: map<string, Record>): set<string> {
    des.Keys - KeysOf(Listing(c, zone))
  }

  function StrayKeys<E>(c: Codec<E>, zone: map<string, E>, des: map<string, Record>): set<string> {
    KeysOf(Listing(c, zone)) - des.Keys
  }

  // ---------- Which entries a provider takes to be the same ----------

  predicate SameData(x: Record, y: Record) {
    x.name == y.name && x.rtype == y.rtype && x.value == y.value
  }

  predicate SameEntry<E>(c: Codec<E>, x: E, y: E) {
    c.decode(x).Some? && c.decode(y).Some? && SameData(c.decode(x).value, c.decode(y).value)
  }

  /** An add of the entry is answered with "already exists". */
  predicate Held<E>(c: Codec<E>, zone: map<string, E>, e: E) {
    c.single && exists id :: id in zone && SameEntry(c, zone[id], e)
  }

  /** A provider that keeps one entry for each name, type and value holds no two of them. */
  ghost predicate OneEach<E>(c: Codec<E>, zone: map<string, E>) {
    c.single ==> forall i, j :: i in zone && j in zone && SameEntry(c, zone[i], zone[j]) ==> i == j
  }

  // ---------- What a pass does ----------

  /** The entry each added key was added as or found as, and the entry of each stray key that was deleted. */
  datatype Work = Work(added: map<string, string>, deleted: map<string, string>)

  predicate Apart(m: map<string, string>) {
    forall j, k :: j in m && k in m && m[j] == m[k] ==> j == k
  }

  /** An add of `e` that succeeded: `id` is an entry that was there already, or else a new one. */
  ghost predicate AddedAs<E>(c: Codec<E>, pre: map<string, E>, post: map<string, E>, id: string, e: E) {
    if id in pre then c.single && SameEntry(c, pre[id], e)
    else id in post && (post[id] == e || (c.single && SameEntry(c, post[id], e)))
  }

  /** Every new entry is what some added record is stored as, and the provider did not hold its like. */
  ghost predicate AddedFor<E>(c: Codec<E>, pre: map<string, E>, post: map<string, E>, des: map<string, Record>, w: Work, id: string)
    requires id in post && w.added.Keys <= des.Keys
  {
    !Held(c, pre, post[id]) && exists k :: k in w.added && w.added[k] == id && c.encode(des[k]) == Some(post[id])
  }

  ghost predicate Adds<E>(c: Codec<E>, pre: map<string, E>, post: map<string, E>, des: map<string, Record>, w: Work) {
    && w.added.Keys <= Missing(c, pre, des)
    && (forall k :: k in w.added ==> c.encode(des[k]).Some? && AddedAs(c, pre, post, w.added[k], c.encode(des[k]).value))
    && (!c.single ==> Apart(w.added))
    && (forall id :: id in post && id !in pre ==> AddedFor(c, pre, post, des, w, id))
  }

  ghost predicate DeletedFor(w: Work, id: string) {
    exists k :: k in w.deleted && w.deleted[k] == id
  }

  ghost predicate Deletes<E>(c: Codec<E>, pre: map<string, E>, post: map<string, E>, des: map<string, Record>, w: Work) {
    && w.deleted.Keys <= StrayKeys(c, pre, des)
    && (forall k :: k in w.deleted ==>
          w.deleted[k] in Listing(c, pre) && RecordKey(Listing(c, pre)[w.deleted[k]]) == k && w.deleted[k] !in post)
    && (forall id :: id in pre && id !in post ==> DeletedFor(w, id))
    && (forall id :: id in pre && id in post ==> post[id] == pre[id])
  }

  /** What a pass did, whatever failed: the keys not in `w` are those whose operation failed. */
  ghost predicate EncodedWork<E>(c: Codec<E>, pre: map<string, E>, post: map<string, E>, des: map<string, Record>, w: Work) {
    && WellKeyed(des) && OneEach(c, pre) && OneEach(c, post)
    && Adds(c, pre, post, des, w) && Deletes(c, pre, post, des, w)
  }

  /** A pass in which every operation succeeded. */
  ghost predicate EncodedPass<E>(c: Codec<E>, pre: map<string, E>, post: map<string, E>, des: map<string, Record>, w: Work) {
    EncodedWork(c, pre, post, des, w) && w.added.Keys == Missing(c, pre, des) && w.deleted.Keys == StrayKeys(c, pre, des)
  }

  // ---------- The keys listed after a pass ----------

  lemma ListedKey<E>(c: Codec<E>, zone: map<string, E>, id: string)
    requires id in zone && c.decode(zone[id]).Some?
    ensures id in Listing(c, zone) && RecordKey(Listing(c, zone)[id]) == RecordKey(c.decode(zone[id]).value)
    ensures RecordKey(c.decode(zone[id]).value) in KeysOf(Listing(c, zone))
  {
    var listed := Listing(c, zone);
    assert RecordKey(listed[id]) in KeysOf(listed);
  }

  lemma ListedEntry<E>(c: Codec<E>, zone: map<string, E>, k: string) returns (id: string)
    requires k in KeysOf(Listing(c, zone))
    ensures id in zone && c.decode(zone[id]).Some? && RecordKey(c.decode(zone[id]).value) == k
  {
    var listed := Listing(c, zone);
    id :| id in listed && RecordKey(listed[id]) == k;
  }

  /** A desired key that is listed stays listed. */
  lemma SharedStaysListed<E>(c: Codec<E>, pre: map<string, E>, post: map<string, E>, des: map<string, Record>, w: Work, k: string)
    requires EncodedWork(c, pre, post, des, w) && k in des && k in KeysOf(Listing(c, pre))
    ensures k in KeysOf(Listing(c, post))
  {
    var id := ListedEntry(c, pre, k);
    ListedKey(c, pre, id);
    assert id in post;
    ListedKey(c, post, id);
  }

  /** A key that is listed afterwards was listed before, or some missing record lists back under it. */
  lemma ListedFrom<E>(c: Codec<E>, pre: map<string, E>, post: map<string, E>, des: map<string, Record>, w: Work, k: string)
    requires EncodedWork(c, pre, post, des, w) && k in KeysOf(Listing(c, post))
    ensures k in KeysOf(Listing(c, pre)) || exists j :: j in Missing(c, pre, des) && BackKey(c, des[j]) == Some(k)
  {
    var id := ListedEntry(c, post, k);
    if id in pre {
      ListedKey(c, pre, id);
    } else {
      assert AddedFor(c, pre, post, des, w, id);
      var j :| j in w.added && w.added[j] == id && c.encode(des[j]) == Some(post[id]);
      assert BackKey(c, des[j]) == Some(k);
    }
  }

  /** What an added record lists back under is listed after the pass, unless its like was there already. */
  lemma AddedIsListed<E>(c: Codec<E>, pre: map<string, E>, post: map<string, E>, des: map<string, Record>, w: Work, j: string, k: string)
    requires EncodedWork(c, pre, post, des, w) && j in w.added && BackKey(c, des[j]) == Some(k)
    requires !Held(c, pre, c.encode(des[j]).value)
    ensures k in KeysOf(Listing(c, post))
  {
    var id := w.added[j];
    assert AddedAs(c, pre, post, id, c.encode(des[j]).value);
    assert id !in pre;
    ListedKey(c, post, id);
  }

  // ---------- Many passes ----------

  /** A desired map with the keys of `des`, whose records list back as those of `des` do; TTLs may differ. */
  ghost predicate Like<E>(c: Codec<E>, x: map<string, Record>, des: map<string, Record>) {
    x.Keys == des.Keys && forall k :: k in des ==> BackKey(c, x[k]) == BackKey(c, des[k])
  }

  /** The zone before and after each pass, the desired map each pass loaded, and what it did. */
  datatype Series<E> = Series(zones: seq<map<string, E>>, loaded: seq<map<string, Record>>, works: seq<Work>)

  ghost predicate EncodedPasses<E>(c: Codec<E>, t: Series<E>, des: map<string, Record>) {
    && |t.zones| == |t.works| + 1 && |t.loaded| == |t.works|
    && forall i: nat :: i < |t.works| ==> PassAt(c, t, des, i)
  }

  ghost predicate PassAt<E>(c: Codec<E>, t: Series<E>, des: map<string, Record>, i: nat)
    requires |t.zones| == |t.works| + 1 && |t.loaded| == |t.works| && i < |t.works|
  {
    EncodedPass(c, t.zones[i], t.zones[i + 1], t.loaded[i], t.works[i]) && Like(c, t.loaded[i], des)
  }

  lemma MissingShrinksOnce<E>(c: Codec<E>, pre: map<string, E>, post: map<string, E>, x: map<string, Record>, w: Work)
    requires EncodedWork(c, pre, post, x, w)
    ensures Missing(c, post, x) <= Missing(c, pre, x)
  {
    forall k | k in Missing(c, post, x)
      ensures k in Missing(c, pre, x)
    {
      if k in KeysOf(Listing(c, pre)) {
        SharedStaysListed(c, pre, post, x, w, k);
      }
    }
  }

  lemma MissingByKeys<E>(c: Codec<E>, zone: map<string, E>, x: map<string, Record>, y: map<string, Record>)
    requires x.Keys == y.Keys
    ensures Missing(c, zone, x) == Missing(c, zone, y) && StrayKeys(c, zone, x) == StrayKeys(c, zone, y)
  {
  }

  /** What is missing later was missing at the start. */
  lemma {:induction false} MissingShrinks<E>(c: Codec<E>, t: Series<E>, des: map<string, Record>, n: nat)
    requires EncodedPasses(c, t, des) && n < |t.zones|
    ensures Missing(c, t.zones[n], des) <= Missing(c, t.zones[0], des)
  {
    if n > 0 {
      var m: nat := n - 1;
      var pre, post, x := t.zones[m], t.zones[n], t.loaded[m];
      MissingShrinks(c, t, des, m);
      assert PassAt(c, t, des, m);
      MissingShrinksOnce(c, pre, post, x, t.works[m]);
      MissingByKeys(c, pre, x, des);
      MissingByKeys(c, post, x, des);
    }
  }

  /** No record missing at the start lists back under the wanted key `k`, not even its own. */
  ghost predicate NeverProduced<E>(c: Codec<E>, zone: map<string, E>, des: map<string, Record>, k: string) {
    k in Missing(c, zone, des) && forall j :: j in Missing(c, zone, des) ==> BackKey(c, des[j]) != Some(k)
  }

  lemma StaysMissing<E>(c: Codec<E>, start: map<string, E>, pre: map<string, E>, post: map<string, E>,
                        x: map<string, Record>, des: map<string, Record>, w: Work, k: string)
    requires EncodedPass(c, pre, post, x, w) && Like(c, x, des) && NeverProduced(c, start, des, k) && k in Missing(c, pre, des)
    requires Missing(c, pre, des) <= Missing(c, start, des)
    ensures k in Missing(c, post, des)
  {
    if k in KeysOf(Listing(c, post)) {
      ListedFrom(c, pre, post, x, w, k);
      MissingByKeys(c, pre, x, des);
    }
  }

  /** Then it is never listed, and missing before every pass. */
  lemma {:induction false} NeverListed<E>(c: Codec<E>, t: Series<E>, des: map<string, Record>, k: string, n: nat)
    requires EncodedPasses(c, t, des) && n < |t.zones| && NeverProduced(c, t.zones[0], des, k)
    ensures k in Missing(c, t.zones[n], des)
  {
    if n > 0 {
      var m: nat := n - 1;
      NeverListed(c, t, des, k, m);
      NeverListedNext(c, t, des, k, m, t.zones[0]);
    }
  }

  lemma NeverListedNext<E>(c: Codec<E>, t: Series<E>, des: map<string, Record>, k: string, n: nat, start: map<string, E>)
    requires EncodedPasses(c, t, des) && n < |t.works| && start == t.zones[0] && k in Missing(c, t.zones[n], des)
    requires NeverProduced(c, start, des, k)
    ensures k in Missing(c, t.zones[n + 1], des)
  {
    MissingShrinks(c, t, des, n);
    assert PassAt(c, t, des, n);
    StaysMissing(c, start, t.zones[n], t.zones[n + 1], t.loaded[n], des, t.works[n], k);
  }

  lemma AddedWhenMissing<E>(c: Codec<E>, t: Series<E>, des: map<string, Record>, k: string, n: nat)
    requires EncodedPasses(c, t, des) && n < |t.works| && k in Missing(c, t.zones[n], des)
    ensures k in t.works[n].added && k in t.loaded[n] && BackKey(c, t.loaded[n][k]) == BackKey(c, des[k])
    ensures EncodedPass(c, t.zones[n], t.zones[n + 1], t.loaded[n], t.works[n]) && t.loaded[n].Keys == des.Keys
  {
    assert PassAt(c, t, des, n);
    MissingByKeys(c, t.zones[n], t.loaded[n], des);
  }

  // ---------- A record that does not survive, where every add makes an entry ----------

  /**
   A wanted record that lists back under a key nobody wants is added in every pass, and in every pass but the first
   what an earlier one added is deleted, at a provider that keeps every record it is sent.
   */
  lemma AddedAndDeletedForEver<E>(c: Codec<E>, t: Series<E>, des: map<string, Record>, k: string, back: string, n: nat)
    requires !c.single && EncodedPasses(c, t, des) && n < |t.works| && NeverProduced(c, t.zones[0], des, k)
    requires BackKey(c, des[k]) == Some(back) && back !in des
    ensures k in t.works[n].added
    ensures n > 0 ==> back in t.works[n].deleted
  {
    AddedForEver(c, t, des, k, n);
    if n > 0 {
      var m: nat := n - 1;
      NeverListed(c, t, des, k, m);
      DeletedAfterwards(c, t, des, k, back, m);
    }
  }

  lemma AddedForEver<E>(c: Codec<E>, t: Series<E>, des: map<string, Record>, k: string, n: nat)
    requires EncodedPasses(c, t, des) && n < |t.works| && NeverProduced(c, t.zones[0], des, k)
    ensures k in t.works[n].added
  {
    NeverListed(c, t, des, k, n);
    AddedWhenMissing(c, t, des, k, n);
  }

  lemma DeletedAfterwards<E>(c: Codec<E>, t: Series<E>, des: map<string, Record>, k: string, back: string, n: nat)
    requires !c.single && EncodedPasses(c, t, des) && n + 1 < |t.works| && k in Missing(c, t.zones[n], des)
    requires BackKey(c, des[k]) == Some(back) && back !in des
    ensures back in t.works[n + 1].deleted
  {
    AddedWhenMissing(c, t, des, k, n);
    AddedIsListed(c, t.zones[n], t.zones[n + 1], t.loaded[n], t.works[n], k, back);
    assert PassAt(c, t, des, n + 1);
  }

  // ---------- The same where adding what is there changes nothing ----------

  /** What the adapter reads has no bar in its name or type, so that keys tell entries apart. */
  predicate PlainEntry<E>(c: Codec<E>, e: E) {
    c.decode(e).Some? ==> '|' !in c.decode(e).value.name && '|' !in c.decode(e).value.rtype
  }

  ghost predicate PlainZone<E>(c: Codec<E>, zone: map<string, E>) {
    forall id :: id in zone ==> PlainEntry(c, zone[id])
  }

  ghost predicate PlainWanted<E>(c: Codec<E>, des: map<string, Record>) {
    forall k :: k in des && c.encode(des[k]).Some? ==> PlainEntry(c, c.encode(des[k]).value)
  }

  lemma KeyIsEntry<E>(c: Codec<E>, x: E, y: E)
    requires PlainEntry(c, x) && PlainEntry(c, y) && c.decode(x).Some? && c.decode(y).Some?
    ensures SameEntry(c, x, y) <==> RecordKey(c.decode(x).value) == RecordKey(c.decode(y).value)
  {
    KeyIsTriple(c.decode(x).value, c.decode(y).value);
  }

  lemma PlainStays<E>(c: Codec<E>, pre: map<string, E>, post: map<string, E>, des: map<string, Record>, w: Work)
    requires EncodedWork(c, pre, post, des, w) && PlainZone(c, pre) && PlainWanted(c, des)
    ensures PlainZone(c, post)
  {
    forall id | id in post
      ensures PlainEntry(c, post[id])
    {
      if id !in pre {
        assert AddedFor(c, pre, post, des, w, id);
      }
    }
  }

  /** An unwanted key that is listed is gone after the pass: nothing like its one entry can be added. */
  lemma StrayIsGone<E>(c: Codec<E>, pre: map<string, E>, post: map<string, E>, des: map<string, Record>, w: Work, back: string)
    requires c.single && EncodedPass(c, pre, post, des, w) && PlainZone(c, pre) && PlainWanted(c, des)
    requires back !in des && back in KeysOf(Listing(c, pre))
    ensures back !in KeysOf(Listing(c, post))
  {
    assert back in StrayKeys(c, pre, des);
    var gone := w.deleted[back];
    assert gone in Listing(c, pre) && RecordKey(Listing(c, pre)[gone]) == back;
    if back in KeysOf(Listing(c, post)) {
      PlainStays(c, pre, post, des, w);
      var id := ListedEntry(c, post, back);
      KeyIsEntry(c, pre[gone], post[id]);
      if id !in pre {
        assert AddedFor(c, pre, post, des, w, id);
        assert Held(c, pre, post[id]);
      }
    }
  }

  /** An unwanted key is listed after a pass that adds a record listing back under it exactly when it was not before. */
  lemma BackFlips<E>(c: Codec<E>, pre: map<string, E>, post: map<string, E>, des: map<string, Record>, w: Work, k: string, back: string)
    requires c.single && EncodedPass(c, pre, post, des, w) && PlainZone(c, pre) && PlainWanted(c, des)
    requires k in Missing(c, pre, des) && BackKey(c, des[k]) == Some(back) && back !in des
    ensures back in KeysOf(Listing(c, post)) <==> back !in KeysOf(Listing(c, pre))
    ensures back in w.deleted <==> back in KeysOf(Listing(c, pre))
  {
    if back in KeysOf(Listing(c, pre)) {
      StrayIsGone(c, pre, post, des, w, back);
    } else {
      var e := c.encode(des[k]).value;
      if Held(c, pre, e) {
        var id :| id in pre && SameEntry(c, pre[id], e);
        ListedKey(c, pre, id);
      }
      AddedIsListed(c, pre, post, des, w, k, back);
    }
  }

  ghost predicate AllPlain<E>(c: Codec<E>, t: Series<E>) {
    |t.zones| > 0 && PlainZone(c, t.zones[0]) && forall i :: 0 <= i < |t.loaded| ==> PlainWanted(c, t.loaded[i])
  }

  lemma {:induction false} StaysPlain<E>(c: Codec<E>, t: Series<E>, des: map<string, Record>, n: nat)
    requires EncodedPasses(c, t, des) && AllPlain(c, t) && n < |t.zones|
    ensures PlainZone(c, t.zones[n])
  {
    if n > 0 {
      var m: nat := n - 1;
      StaysPlain(c, t, des, m);
      PlainNext(c, t, des, m);
    }
  }

  lemma PlainNext<E>(c: Codec<E>, t: Series<E>, des: map<string, Record>, m: nat)
    requires EncodedPasses(c, t, des) && AllPlain(c, t) && m < |t.works| && PlainZone(c, t.zones[m])
    ensures PlainZone(c, t.zones[m + 1])
  {
    assert PassAt(c, t, des, m);
    PlainStays(c, t.zones[m], t.zones[m + 1], t.loaded[m], t.works[m]);
  }

  /** One pass of the series, seen from the key nobody wants. */
  lemma Turn<E>(c: Codec<E>, t: Series<E>, des: map<string, Record>, k: string, back: string, n: nat)
    requires c.single && EncodedPasses(c, t, des) && AllPlain(c, t) && n < |t.works| && NeverProduced(c, t.zones[0], des, k)
    requires BackKey(c, des[k]) == Some(back) && back !in des
    ensures k in t.works[n].added
    ensures back in t.works[n].deleted <==> back in KeysOf(Listing(c, t.zones[n]))
    ensures back in KeysOf(Listing(c, t.zones[n + 1])) <==> back !in KeysOf(Listing(c, t.zones[n]))
  {
    var pre, post, x := t.zones[n], t.zones[n + 1], t.loaded[n];
    NeverListed(c, t, des, k, n);
    AddedWhenMissing(c, t, des, k, n);
    StaysPlain(c, t, des, n);
    MissingByKeys(c, pre, x, des);
    BackFlips(c, pre, post, x, t.works[n], k, back);
  }

  lemma {:induction false} ThereAfterEveryOther<E>(c: Codec<E>, t: Series<E>, des: map<string, Record>, k: string, back: string, n: nat)
    requires c.single && EncodedPasses(c, t, des) && AllPlain(c, t) && n < |t.zones| && NeverProduced(c, t.zones[0], des, k)
    requires BackKey(c, des[k]) == Some(back) && back !in des
    ensures back in KeysOf(Listing(c, t.zones[n])) <==> (n % 2 == 0 <==> back in KeysOf(Listing(c, t.zones[0])))
  {
    if n > 0 {
      var m: nat := n - 1;
      ThereAfterEveryOther(c, t, des, k, back, m);
      Turn(c, t, des, k, back, m);
    }
  }

  /**
   At a provider that keeps one entry for each name, type and value, a wanted record that lists back under a key nobody
   wants is reported as added in every pass, but what it lists back as is there after every other pass only: one pass
   puts it in, and the next adds it to no effect and deletes it.
   */
  lemma ComesAndGoes<E>(c: Codec<E>, t: Series<E>, des: map<string, Record>, k: string, back: string, n: nat)
    requires c.single && EncodedPasses(c, t, des) && AllPlain(c, t) && n < |t.works| && NeverProduced(c, t.zones[0], des, k)
    requires BackKey(c, des[k]) == Some(back) && back !in des
    ensures k in t.works[n].added
    ensures back in KeysOf(Listing(c, t.zones[n])) <==> (n % 2 == 0 <==> back in KeysOf(Listing(c, t.zones[0])))
    ensures back in t.works[n].deleted <==> back in KeysOf(Listing(c, t.zones[n]))
  {
    Turn(c, t, des, k, back, n);
    ThereAfterEveryOther(c, t, des, k, back, n);
  }

  // ---------- When passes converge ----------

  /** Wanted records that do not list back under their own key list back under one of lower rank. */
  ghost predicate Falls<E>(c: Codec<E>, des: map<string, Record>, rank: string -> nat) {
    forall k :: k in des && BackKey(c, des[k]).Some? && !Survives(c, des[k]) ==> rank(BackKey(c, des[k]).value) < rank(k)
  }

  lemma {:induction false} HighestRank(keys: set<string>, rank: string -> nat) returns (k: string)
    requires keys != {}
    ensures k in keys && forall j :: j in keys ==> rank(j) <= rank(k)
    decreases |keys|
  {
    k := SomeElement(keys);
    var rest := keys - {k};
    assert keys == rest + {k};
    if rest != {} {
      var m := HighestRank(rest, rank);
      if rank(k) < rank(m) {
        k := m;
      }
    }
  }

  /** Of the missing records that do not survive, the one of highest rank is produced by no other. */
  lemma SomeNeverProduced<E>(c: Codec<E>, zone: map<string, E>, des: map<string, Record>, rank: string -> nat, k0: string)
    returns (k: string)
    requires Falls(c, des, rank) && WellKeyed(des) && k0 in Missing(c, zone, des) && !Survives(c, des[k0])
    ensures NeverProduced(c, zone, des, k)
  {
    var lost := set k | k in Missing(c, zone, des) && !Survives(c, des[k]);
    assert k0 in lost;
    k := HighestRank(lost, rank);
    forall j | j in Missing(c, zone, des)
      ensures BackKey(c, des[j]) != Some(k)
    {
      assert !Survives(c, des[j]) ==> j in lost;
    }
  }

  /** The desired records as they list back, where that is under their own key. */
  function AsListed<E>(c: Codec<E>, des: map<string, Record>): (r: map<string, Record>)
    ensures r.Keys == des.Keys
  {
    map k | k in des :: if BackKey(c, des[k]) == Some(k) then c.decode(c.encode(des[k]).value).value else des[k]
  }

  lemma AddsOnlyListed<E>(c: Codec<E>, pre: map<string, E>, post: map<string, E>, des: map<string, Record>, w: Work, id: string)
    returns (k: string)
    requires EncodedPass(c, pre, post, des, w) && New(Listing(c, pre), Listing(c, post), id)
    requires forall j :: j in Missing(c, pre, des) ==> Survives(c, des[j])
    ensures k in Missing(c, pre, des) && w.added[k] == id
    ensures RecordKey(Listing(c, post)[id]) == k && Listing(c, post)[id] == AsListed(c, des)[k].(id := id)
  {
    assert id !in pre;
    assert AddedFor(c, pre, post, des, w, id);
    k :| k in w.added && w.added[k] == id && c.encode(des[k]) == Some(post[id]);
    assert BackKey(c, des[k]) == Some(k);
  }

  lemma DropsOnlyListed<E>(c: Codec<E>, pre: map<string, E>, post: map<string, E>, des: map<string, Record>, w: Work, id: string)
    returns (k: string)
    requires EncodedPass(c, pre, post, des, w) && Gone(Listing(c, pre), Listing(c, post), id)
    ensures k in StrayKeys(c, pre, des) && w.deleted[k] == id && RecordKey(Listing(c, pre)[id]) == k
  {
    assert id !in post && DeletedFor(w, id);
    k :| k in w.deleted && w.deleted[k] == id;
  }

  lemma SurvivingPassAdds<E>(c: Codec<E>, pre: map<string, E>, post: map<string, E>, des: map<string, Record>, w: Work)
    requires EncodedPass(c, pre, post, des, w)
    requires forall j :: j in Missing(c, pre, des) ==> Survives(c, des[j])
    ensures AddsOnlyMissing(Listing(c, pre), Listing(c, post), AsListed(c, des))
  {
    var before, after := Listing(c, pre), Listing(c, post);
    forall id | New(before, after, id)
      ensures RecordKey(after[id]) in Missing(c, pre, des) && w.added[RecordKey(after[id])] == id
      ensures after[id] == AsListed(c, des)[RecordKey(after[id])].(id := id)
    {
      var k := AddsOnlyListed(c, pre, post, des, w, id);
    }
  }

  lemma AddedEntryIsNew<E>(c: Codec<E>, pre: map<string, E>, post: map<string, E>, des: map<string, Record>, w: Work, k: string)
    requires EncodedPass(c, pre, post, des, w) && k in Missing(c, pre, des) && Survives(c, des[k])
    ensures New(Listing(c, pre), Listing(c, post), w.added[k]) && RecordKey(Listing(c, post)[w.added[k]]) == k
  {
    var id := w.added[k];
    assert AddedAs(c, pre, post, id, c.encode(des[k]).value);
    if id in pre {
      ListedKey(c, pre, id);
    } else {
      ListedKey(c, post, id);
    }
  }

  lemma AddedKeyFrom(pre: Records, post: Records, k: string) returns (id: string)
    requires k in AddedKeys(pre, post)
    ensures New(pre, post, id) && RecordKey(post[id]) == k
  {
    id :| New(pre, post, id) && RecordKey(post[id]) == k;
  }

  lemma AddedKeyIs(pre: Records, post: Records, id: string)
    requires New(pre, post, id)
    ensures RecordKey(post[id]) in AddedKeys(pre, post)
  {
  }

  lemma AddedKeyIff<E>(c: Codec<E>, pre: map<string, E>, post: map<string, E>, des: map<string, Record>, w: Work, k: string)
    requires EncodedPass(c, pre, post, des, w)
    requires forall j :: j in Missing(c, pre, des) ==> Survives(c, des[j])
    ensures k in AddedKeys(Listing(c, pre), Listing(c, post)) <==> k in Missing(c, pre, des)
  {
    if k in AddedKeys(Listing(c, pre), Listing(c, post)) {
      var id := AddedKeyFrom(Listing(c, pre), Listing(c, post), k);
      var j := AddsOnlyListed(c, pre, post, des, w, id);
    }
    if k in Missing(c, pre, des) {
      AddedEntryIsNew(c, pre, post, des, w, k);
      AddedKeyIs(Listing(c, pre), Listing(c, post), w.added[k]);
    }
  }

  lemma DroppedKeyFrom(pre: Records, post: Records, k: string) returns (id: string)
    requires k in DroppedKeys(pre, post)
    ensures Gone(pre, post, id) && RecordKey(pre[id]) == k
  {
    id :| Gone(pre, post, id) && RecordKey(pre[id]) == k;
  }

  lemma DroppedKeyIff<E>(c: Codec<E>, pre: map<string, E>, post: map<string, E>, des: map<string, Record>, w: Work, k: string)
    requires EncodedPass(c, pre, post, des, w)
    ensures k in DroppedKeys(Listing(c, pre), Listing(c, post)) <==> k in StrayKeys(c, pre, des)
  {
    if k in DroppedKeys(Listing(c, pre), Listing(c, post)) {
      var id := DroppedKeyFrom(Listing(c, pre), Listing(c, post), k);
      var j := DropsOnlyListed(c, pre, post, des, w, id);
    }
    if k in StrayKeys(c, pre, des) {
      assert Gone(Listing(c, pre), Listing(c, post), w.deleted[k]);
    }
  }

  lemma SurvivingPassDrops<E>(c: Codec<E>, pre: map<string, E>, post: map<string, E>, des: map<string, Record>, w: Work)
    requires EncodedPass(c, pre, post, des, w)
    ensures DropsOnlyStrays(Listing(c, pre), Listing(c, post), AsListed(c, des))
  {
    var before, after := Listing(c, pre), Listing(c, post);
    forall id | Gone(before, after, id)
      ensures RecordKey(before[id]) in StrayKeys(c, pre, des) && w.deleted[RecordKey(before[id])] == id
    {
      var k := DropsOnlyListed(c, pre, post, des, w, id);
    }
  }

  lemma SurvivingPassAddsAll<E>(c: Codec<E>, pre: map<string, E>, post: map<string, E>, des: map<string, Record>, w: Work)
    requires EncodedPass(c, pre, post, des, w)
    requires forall j :: j in Missing(c, pre, des) ==> Survives(c, des[j])
    ensures AddedKeys(Listing(c, pre), Listing(c, post)) == Missing(c, pre, des)
  {
    forall k
      ensures k in AddedKeys(Listing(c, pre), Listing(c, post)) <==> k in Missing(c, pre, des)
    {
      AddedKeyIff(c, pre, post, des, w, k);
    }
  }

  lemma EncodedPassDropsAll<E>(c: Codec<E>, pre: map<string, E>, post: map<string, E>, des: map<string, Record>, w: Work)
    requires EncodedPass(c, pre, post, des, w)
    ensures DroppedKeys(Listing(c, pre), Listing(c, post)) == StrayKeys(c, pre, des)
  {
    forall k
      ensures k in DroppedKeys(Listing(c, pre), Listing(c, post)) <==> k in StrayKeys(c, pre, des)
    {
      DroppedKeyIff(c, pre, post, des, w, k);
    }
  }

  /** If every missing record survives, the listing sees an ordinary clean pass. */
  lemma SurvivingPassIsClean<E>(c: Codec<E>, pre: map<string, E>, post: map<string, E>, des: map<string, Record>, w: Work)
    requires EncodedPass(c, pre, post, des, w)
    requires forall j :: j in Missing(c, pre, des) ==> Survives(c, des[j])
    ensures Clean(Listing(c, pre), Listing(c, post), AsListed(c, des))
  {
    SurvivingPassAdds(c, pre, post, des, w);
    SurvivingPassDrops(c, pre, post, des, w);
    SurvivingPassAddsAll(c, pre, post, des, w);
    EncodedPassDropsAll(c, pre, post, des, w);
  }

  function Listings<E>(c: Codec<E>, zones: seq<map<string, E>>): (ls: seq<Records>)
    ensures |ls| == |zones| && forall i :: 0 <= i < |zones| ==> ls[i] == Listing(c, zones[i])
  {
    seq(|zones|, i requires 0 <= i < |zones| => Listing(c, zones[i]))
  }

  function AllAsListed<E>(c: Codec<E>, loaded: seq<map<string, Record>>): (r: seq<map<string, Record>>)
    ensures |r| == |loaded| && forall i :: 0 <= i < |loaded| ==> r[i] == AsListed(c, loaded[i])
  {
    seq(|loaded|, i requires 0 <= i < |loaded| => AsListed(c, loaded[i]))
  }

  lemma LikeSurvives<E>(c: Codec<E>, x: map<string, Record>, des: map<string, Record>, k: string)
    requires Like(c, x, des) && WellKeyed(x) && WellKeyed(des) && k in des
    ensures Survives(c, x[k]) <==> Survives(c, des[k])
  {
  }

  lemma SurvivingPassesAreClean<E>(c: Codec<E>, t: Series<E>, des: map<string, Record>)
    requires EncodedPasses(c, t, des) && WellKeyed(des)
    requires forall j :: j in Missing(c, t.zones[0], des) ==> Survives(c, des[j])
    ensures CleanPasses(Listings(c, t.zones), AllAsListed(c, t.loaded), des.Keys)
  {
    forall i: nat | i < |t.works|
      ensures t.loaded[i].Keys == des.Keys && Clean(Listing(c, t.zones[i]), Listing(c, t.zones[i + 1]), AsListed(c, t.loaded[i]))
    {
      MissingShrinks(c, t, des, i);
      assert PassAt(c, t, des, i);
      SurvivingPassNext(c, t.zones[0], t.zones[i], t.zones[i + 1], t.loaded[i], des, t.works[i]);
    }
  }

  lemma SurvivingPassNext<E>(c: Codec<E>, start: map<string, E>, pre: map<string, E>, post: map<string, E>,
                             x: map<string, Record>, des: map<string, Record>, w: Work)
    requires EncodedPass(c, pre, post, x, w) && Like(c, x, des) && WellKeyed(des)
    requires Missing(c, pre, des) <= Missing(c, start, des)
    requires forall j :: j in Missing(c, start, des) ==> Survives(c, des[j])
    ensures Clean(Listing(c, pre), Listing(c, post), AsListed(c, x))
  {
    MissingByKeys(c, pre, x, des);
    forall j | j in Missing(c, pre, x)
      ensures Survives(c, x[j])
    {
      LikeSurvives(c, x, des, j);
    }
    SurvivingPassIsClean(c, pre, post, x, w);
  }

  /**
   Passes without errors over a zone that stores encoded records, from any start. After n of them, n at least 1, the
   listed keys are the wanted ones exactly when every wanted record not listed at the start survives the round trip
   and no stray key began with more than n copies.
   */
  lemma ConvergesIff<E>(c: Codec<E>, rank: string -> nat, t: Series<E>, des: map<string, Record>, n: nat)
    requires Falls(c, des, rank) && WellKeyed(des) && EncodedPasses(c, t, des) && 1 <= n < |t.zones|
    ensures KeysOf(Listing(c, t.zones[n])) == des.Keys <==>
            (forall k :: k in Missing(c, t.zones[0], des) ==> Survives(c, des[k])) &&
            (forall k :: k !in des.Keys ==> |Copies(Listing(c, t.zones[0]), k)| <= n)
  {
    if k0 :| k0 in Missing(c, t.zones[0], des) && !Survives(c, des[k0]) {
      var k := SomeNeverProduced(c, t.zones[0], des, rank, k0);
      NeverListed(c, t, des, k, n);
    } else {
      SurvivingPassesAreClean(c, t, des);
      ConvergedIff(Listings(c, t.zones), AllAsListed(c, t.loaded), des.Keys, n);
    }
  }
}
