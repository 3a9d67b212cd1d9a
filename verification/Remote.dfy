/**
 A zone at a DNS provider as the reconciler sees it: identified records, any operation on which may fail.
 Here a record that is added lists back under the key it was added with. Encoded drops that assumption, and
 ProviderZones says for which records it holds and what becomes of the others.
 */
module Remote {
  import opened Basics
  import opened Text

  datatype Record = Record(name: string, rtype: string, value: string, ttl: int, id: string)

  /** `Record.Key`: the identity used by every comparison. It ignores the TTL and the provider's handle. */
  function RecordKey(r: Record): string {
    r.name + "|" + r.rtype + "|" + r.value
  }

  function KeyParts(r: Record): seq<string> {
    Split(r.name, '|') + Split(r.rtype, '|') + Split(r.value, '|')
  }

  /** Keys agree exactly when the bar-separated parts of name, type and value agree as one list. */
  lemma KeyMeaning(x: Record, y: Record)
    ensures RecordKey(x) == RecordKey(y) <==> KeyParts(x) == KeyParts(y)
  {
    SplitKey(x);
    SplitKey(y);
    JoinSplit(RecordKey(x), '|');
    JoinSplit(RecordKey(y), '|');
  }

  lemma SplitKey(r: Record)
    ensures Split(RecordKey(r), '|') == KeyParts(r)
  {
    SplitConcat(r.name + "|" + r.rtype, r.value, '|');
    SplitConcat(r.name, r.rtype, '|');
  }

  /** For names and types without a bar, the key is exactly the triple, whatever the values hold. */
  lemma KeyIsTriple(x: Record, y: Record)
    requires '|' !in x.name && '|' !in y.name && '|' !in x.rtype && '|' !in y.rtype
    ensures RecordKey(x) == RecordKey(y) <==> x.name == y.name && x.rtype == y.rtype && x.value == y.value
  {
    if RecordKey(x) == RecordKey(y) {
      KeyMeaning(x, y);
      SplitWhole(x.name, '|');
      SplitWhole(y.name, '|');
      SplitWhole(x.rtype, '|');
      SplitWhole(y.rtype, '|');
      var p, q := KeyParts(x), KeyParts(y);
      assert p == [x.name, x.rtype] + Split(x.value, '|') && q == [y.name, y.rtype] + Split(y.value, '|');
      assert p[0] == q[0] && p[1] == q[1] && p[2..] == q[2..];
      assert p[2..] == Split(x.value, '|') && q[2..] == Split(y.value, '|');
      JoinSplit(x.value, '|');
      JoinSplit(y.value, '|');
    }
  }

  /** A bar in a name can make two different records share a key. */
  lemma BarsCollide() returns (x: Record, y: Record)
    ensures RecordKey(x) == RecordKey(y) && x.name != y.name && x.value != y.value
  {
    x, y := Record("a|A|b", "A", "c", 60, ""), Record("a", "A", "b|A|c", 60, "");
    assert x.name + "|" + x.rtype + "|" + x.value == "a|A|b|A|c";
    assert y.name + "|" + y.rtype + "|" + y.value == "a|A|b|A|c";
    assert |x.name| != |y.name| && |x.value| != |y.value|;
  }

  type Records = map<string, Record>

  /** Every record carries the handle it is stored under. */
  type RemoteZone = z: Records | forall id :: id in z ==> z[id].id == id witness map[]

  function KeysOf(zone: Records): set<string> {
    set id | id in zone :: RecordKey(zone[id])
  }

  lemma {:induction false} LongestId(ids: set<string>) returns (n: nat)
    ensures forall id :: id in ids ==> |id| <= n
    decreases |ids|
  {
    n := 0;
    if ids != {} {
      var x := SomeElement(ids);
      var m := LongestId(ids - {x});
      n := Max(m, |x|);
      forall id | id in ids
        ensures |id| <= n
      {
        assert id == x || id in ids - {x};
      }
    }
  }

  method FreshHandle(ids: set<string>) returns (id: string)
    ensures id !in ids
  {
    ghost var n := LongestId(ids);
    assert |seq(n + 1, _ => 'x')| == n + 1;
    id :| id !in ids;
  }

  // ---------- What was asked of a provider, and how it answered ----------

  datatype Call = Ensure(ok: bool) | List(ok: bool) | Add(key: string, ok: bool) | Delete(key: string, ok: bool)

  function AddKeys(calls: seq<Call>, ok: bool): set<string> {
    set i | 0 <= i < |calls| && calls[i].Add? && calls[i].ok == ok :: calls[i].key
  }

  function DeleteKeys(calls: seq<Call>, ok: bool): set<string> {
    set i | 0 <= i < |calls| && calls[i].Delete? && calls[i].ok == ok :: calls[i].key
  }

  lemma AddKeysNext(calls: seq<Call>, k: string, answer: bool, ok: bool)
    ensures AddKeys(calls + [Add(k, answer)], ok) == With(AddKeys(calls, ok), k, answer == ok)
  {
    var more := calls + [Add(k, answer)];
    assert more[|calls|] == Add(k, answer) && forall i :: 0 <= i < |calls| ==> more[i] == calls[i];
  }

  lemma DeleteKeysNext(calls: seq<Call>, k: string, answer: bool, ok: bool)
    ensures DeleteKeys(calls + [Delete(k, answer)], ok) == With(DeleteKeys(calls, ok), k, answer == ok)
  {
    var more := calls + [Delete(k, answer)];
    assert more[|calls|] == Delete(k, answer) && forall i :: 0 <= i < |calls| ==> more[i] == calls[i];
  }

  lemma CallsJoin<T>(start: seq<T>, made: seq<T>, call: T)
    ensures (start + made) + [call] == start + (made + [call])
  {
  }

  lemma CallsAfter<T>(start: seq<T>, head: seq<T>, adds: seq<T>, dels: seq<T>)
    ensures (start + head) + adds + dels == start + (head + adds + dels)
  {
  }

  lemma CallsInOrder<T>(start: seq<T>, x: T, y: T, adds: seq<T>, dels: seq<T>)
    ensures start + [x] + [y] + adds + dels == start + ([x, y] + adds + dels)
  {
  }

  /** Adds of different keys and nothing else: those of `done` were granted and those of `failed` refused. */
  ghost predicate AddsMade(calls: seq<Call>, done: set<string>, failed: set<string>) {
    && (forall i :: 0 <= i < |calls| ==> calls[i].Add?)
    && AddKeys(calls, true) == done && AddKeys(calls, false) == failed && |calls| == |done| + |failed|
  }

  ghost predicate DeletesMade(calls: seq<Call>, done: set<string>, failed: set<string>) {
    && (forall i :: 0 <= i < |calls| ==> calls[i].Delete?)
    && DeleteKeys(calls, true) == done && DeleteKeys(calls, false) == failed && |calls| == |done| + |failed|
  }

  function With(keys: set<string>, k: string, hit: bool): set<string> {
    if hit then keys + {k} else keys
  }

  function One(hit: bool): nat {
    if hit then 1 else 0
  }

  lemma OneMore(keys: set<string>, k: string, hit: bool)
    requires k !in keys
    ensures |With(keys, k, hit)| == |keys| + One(hit)
  {
  }

  lemma AddsMadeNext(calls: seq<Call>, done: set<string>, failed: set<string>, k: string, ok: bool)
    requires AddsMade(calls, done, failed) && k !in done && k !in failed
    ensures AddsMade(calls + [Add(k, ok)], With(done, k, ok), With(failed, k, !ok))
  {
    AddKeysNext(calls, k, ok, true);
    AddKeysNext(calls, k, ok, false);
    OneMore(done, k, ok);
    OneMore(failed, k, !ok);
  }

  lemma DeletesMadeNext(calls: seq<Call>, done: set<string>, failed: set<string>, k: string, ok: bool)
    requires DeletesMade(calls, done, failed) && k !in done && k !in failed
    ensures DeletesMade(calls + [Delete(k, ok)], With(done, k, ok), With(failed, k, !ok))
  {
    DeleteKeysNext(calls, k, ok, true);
    DeleteKeysNext(calls, k, ok, false);
    OneMore(done, k, ok);
    OneMore(failed, k, !ok);
  }

  /**
   The calls of one pass: ensuring comes first and listing second, and one that fails ends the pass. After them every
   missing key is added once and then every stray one deleted once; what failed is what the provider refused.
   */
  ghost predicate Answered(calls: seq<Call>, compared: bool, added: set<string>, failedAdds: set<string>,
                           deleted: set<string>, failedDels: set<string>)
  {
    if !compared then calls == [Ensure(false)] || calls == [Ensure(true), List(false)]
    else exists adds, dels :: MadeOf(calls, adds, dels) && AddsMade(adds, added, failedAdds) && DeletesMade(dels, deleted, failedDels)
  }

  predicate MadeOf(calls: seq<Call>, adds: seq<Call>, dels: seq<Call>) {
    calls == [Ensure(true), List(true)] + adds + dels
  }

  predicate AllGranted(calls: seq<Call>) {
    forall i :: 0 <= i < |calls| ==> calls[i].ok
  }

  /** If the provider refused nothing, the pass got as far as comparing and nothing failed. */
  lemma GrantedMeansDone(calls: seq<Call>, compared: bool, added: set<string>, failedAdds: set<string>,
                         deleted: set<string>, failedDels: set<string>)
    requires Answered(calls, compared, added, failedAdds, deleted, failedDels)
    ensures AllGranted(calls) <==> compared && failedAdds == {} && failedDels == {}
  {
    if compared {
      var adds, dels :| MadeOf(calls, adds, dels) && AddsMade(adds, added, failedAdds) && DeletesMade(dels, deleted, failedDels);
      GrantedParts(calls, adds, dels);
      RefusedAdds(adds);
      RefusedDeletes(dels);
    } else {
      assert !calls[|calls| - 1].ok;
    }
  }

  lemma GrantedParts(calls: seq<Call>, adds: seq<Call>, dels: seq<Call>)
    requires MadeOf(calls, adds, dels)
    ensures AllGranted(calls) <==> AllGranted(adds) && AllGranted(dels)
  {
    assert forall i :: 0 <= i < |adds| ==> calls[2 + i] == adds[i];
    assert forall i :: 0 <= i < |dels| ==> calls[2 + |adds| + i] == dels[i];
  }

  lemma RefusedAdds(calls: seq<Call>)
    requires forall i :: 0 <= i < |calls| ==> calls[i].Add?
    ensures AllGranted(calls) <==> AddKeys(calls, false) == {}
  {
    if !AllGranted(calls) {
      var i :| 0 <= i < |calls| && !calls[i].ok;
      assert calls[i].key in AddKeys(calls, false);
    }
  }

  lemma RefusedDeletes(calls: seq<Call>)
    requires forall i :: 0 <= i < |calls| ==> calls[i].Delete?
    ensures AllGranted(calls) <==> DeleteKeys(calls, false) == {}
  {
    if !AllGranted(calls) {
      var i :| 0 <= i < |calls| && !calls[i].ok;
      assert calls[i].key in DeleteKeys(calls, false);
    }
  }

  /**
   The provider's calls for one zone name. A zone that does not exist yet holds nothing; `calls` is what has been asked
   of it, with the answers.
   */
  class HostedZone {
    const name: string
    var records: RemoteZone
    ghost var calls: seq<Call>

    /** Creates the zone (Technitium) or checks that it is there (Cloudflare). */
    method EnsureZone() returns (ok: bool)
      modifies this`calls
      ensures calls == old(calls) + [Ensure(ok)]
    {
      ok := *;
      calls := calls + [Ensure(ok)];
    }

    method ListRecords() returns (ok: bool, list: seq<Record>)
      modifies this`calls
      ensures calls == old(calls) + [List(ok)]
      ensures ok ==> forall r :: r in list <==> r in records.Values
    {
      ok := *;
      calls := calls + [List(ok)];
      list := [];
      var todo := records.Keys;
      while todo != {}
        invariant todo <= records.Keys
        invariant forall r :: r in list <==> exists id :: id in records && id !in todo && records[id] == r
        decreases |todo|
      {
        var id :| id in todo;
        list, todo := list + [records[id]], todo - {id};
      }
    }

    method AddRecord(r: Record) returns (ok: bool, ghost id: string)
      modifies this
      ensures calls == old(calls) + [Add(RecordKey(r), ok)]
      ensures !ok ==> records == old(records)
      ensures ok ==> id !in old(records) && records == old(records)[id := r.(id := id)]
    {
      ok, id := *, "";
      calls := calls + [Add(RecordKey(r), ok)];
      if ok {
        var handle := FreshHandle(records.Keys);
        id := handle;
        records := records[handle := r.(id := handle)];
      }
    }

    method DeleteRecord(r: Record) returns (ok: bool)
      modifies this
      ensures calls == old(calls) + [Delete(RecordKey(r), ok)]
      ensures !ok ==> records == old(records)
      ensures ok ==> records == old(records) - {r.id}
    {
      ok := *;
      calls := calls + [Delete(RecordKey(r), ok)];
      if ok {
        records := records - {r.id};
      }
    }
  }
}
