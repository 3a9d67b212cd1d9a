/**
 Which subnet an address belongs to. Both the DNS synthesizer and the Kea config builder parse every CIDR
 in `ORDER BY cidr` order, skip the unparseable ones, and take the first prefix that contains the address.
 */
module Placement {
  import opened Basics
  import opened Ordering
  import opened Net
  import opened Database

  datatype ParsedSubnet = ParsedSubnet(id: int, prefix: Prefix)

  function ParsedBy(f: int -> Option<Prefix>, ids: seq<int>): seq<ParsedSubnet> {
    if ids == [] then []
    else
      var s := ids[|ids| - 1];
      var rest := ParsedBy(f, ids[..|ids| - 1]);
      match f(s)
      case Some(p) => rest + [ParsedSubnet(s, p)]
      case None => rest
  }

  function PrefixOf(v6: V6Text, db: Db): (f: int -> Option<Prefix>)
    ensures forall s :: s in db.subnets ==> f(s) == ParsePrefix(v6, db.subnets[s].cidr)
  {
    s => if s in db.subnets then ParsePrefix(v6, db.subnets[s].cidr) else None
  }

  /** The listed subnets whose CIDR parses. */
  function ParsedSubnets(v6: V6Text, db: Db, ids: seq<int>): seq<ParsedSubnet> {
    ParsedBy(PrefixOf(v6, db), ids)
  }

  method ParseSubnets(v6: V6Text, db: Db, ids: seq<int>) returns (parsed: seq<ParsedSubnet>)
    requires forall a :: 0 <= a < |ids| ==> ids[a] in db.subnets
    ensures parsed == ParsedSubnets(v6, db, ids)
  {
    parsed := [];
    for k := 0 to |ids|
      invariant parsed == ParsedSubnets(v6, db, ids[..k])
    {
      assert ids[..k + 1][..k] == ids[..k];
      var p := ParsePrefix(v6, db.subnets[ids[k]].cidr);
      if p.Some? {
        parsed := parsed + [ParsedSubnet(ids[k], p.value)];
      }
    }
    assert ids[..|ids|] == ids;
  }

  ghost predicate IsFirstMatch(parsed: seq<ParsedSubnet>, a: Addr, r: Option<nat>) {
    match r
    case Some(m) => m < |parsed| && Contains(parsed[m].prefix, a) &&
                    forall j :: 0 <= j < m ==> !Contains(parsed[j].prefix, a)
    case None => forall j :: 0 <= j < |parsed| ==> !Contains(parsed[j].prefix, a)
  }

  /** The match the source's inner loop stops at. */
  function FirstMatch(parsed: seq<ParsedSubnet>, a: Addr): (r: Option<nat>)
    ensures IsFirstMatch(parsed, a, r)
  {
    if parsed == [] then None
    else
      var n := |parsed| - 1;
      var r := FirstMatch(parsed[..n], a);
      assert forall j :: 0 <= j < n ==> parsed[..n][j] == parsed[j];
      if r.Some? then r else if Contains(parsed[n].prefix, a) then Some(n) else None
  }

  method FindSubnet(parsed: seq<ParsedSubnet>, a: Addr) returns (r: Option<nat>)
    ensures r == FirstMatch(parsed, a)
  {
    r := None;
    for i := 0 to |parsed|
      invariant r == None
      invariant forall j :: 0 <= j < i ==> !Contains(parsed[j].prefix, a)
    {
      if Contains(parsed[i].prefix, a) {
        r := Some(i);
        break;
      }
    }
  }

  // ---------- The same choice, said of the table ----------

  predicate Covers(v6: V6Text, db: Db, s: int, a: Addr) {
    s in db.subnets &&
    var p := ParsePrefix(v6, db.subnets[s].cidr);
    p.Some? && Contains(p.value, a)
  }

  /** Of the subnets covering the address, the one whose CIDR text sorts first. */
  ghost predicate ChosenSubnet(v6: V6Text, db: Db, a: Addr, s: int) {
    Covers(v6, db, s, a) &&
    forall t :: Covers(v6, db, t, a) && t != s ==> Less(db.subnets[s].cidr, db.subnets[t].cidr)
  }

  function SubnetFor(v6: V6Text, db: Db, a: Addr): Option<int>
    requires Valid(db)
  {
    var parsed := ParsedSubnets(v6, db, ListSubnets(db));
    match FirstMatch(parsed, a)
    case Some(m) => Some(parsed[m].id)
    case None => None
  }

  /** The parsed list holds listed subnets that parse … */
  lemma {:induction false} ParsedIsListed(f: int -> Option<Prefix>, ids: seq<int>, j: nat)
    requires j < |ParsedBy(f, ids)|
    ensures ParsedBy(f, ids)[j].id in ids && f(ParsedBy(f, ids)[j].id) == Some(ParsedBy(f, ids)[j].prefix)
  {
    var front := ids[..|ids| - 1];
    if j < |ParsedBy(f, front)| {
      ParsedIsListed(f, front, j);
    }
  }

  /** … and every one of them. */
  lemma {:induction false} ParseableIsParsed(f: int -> Option<Prefix>, ids: seq<int>, k: nat) returns (j: nat)
    requires k < |ids| && f(ids[k]).Some?
    ensures j < |ParsedBy(f, ids)| && ParsedBy(f, ids)[j] == ParsedSubnet(ids[k], f(ids[k]).value)
  {
    var n := |ids| - 1;
    if k == n {
      j := |ParsedBy(f, ids[..n])|;
    } else {
      j := ParseableIsParsed(f, ids[..n], k);
    }
  }

  lemma {:induction false} ParsedByAscending(f: int -> Option<Prefix>, ids: seq<int>, key: map<int, string>)
    requires forall a :: 0 <= a < |ids| ==> ids[a] in key
    requires forall a, b :: 0 <= a < b < |ids| ==> Less(key[ids[a]], key[ids[b]])
    ensures forall j :: 0 <= j < |ParsedBy(f, ids)| ==> ParsedBy(f, ids)[j].id in ids
    ensures forall j, k :: 0 <= j < k < |ParsedBy(f, ids)| ==> Less(key[ParsedBy(f, ids)[j].id], key[ParsedBy(f, ids)[k].id])
  {
    if ids != [] {
      var n := |ids| - 1;
      var front := ids[..n];
      ParsedByAscending(f, front, key);
      var rest := ParsedBy(f, front);
      forall j | 0 <= j < |rest|
        ensures rest[j].id in ids && Less(key[rest[j].id], key[ids[n]])
      {
        var a :| 0 <= a < n && front[a] == rest[j].id;
        assert ids[a] == rest[j].id;
      }
    }
  }

  lemma ParsedAscending(v6: V6Text, db: Db)
    requires Valid(db)
    ensures var parsed := ParsedSubnets(v6, db, ListSubnets(db));
            (forall j :: 0 <= j < |parsed| ==> parsed[j].id in db.subnets) &&
            forall j, k :: 0 <= j < k < |parsed| ==> Less(db.subnets[parsed[j].id].cidr, db.subnets[parsed[k].id].cidr)
  {
    ParsedByAscending(PrefixOf(v6, db), ListSubnets(db), Cidrs(db));
  }

  /** A covering subnet is in the parsed list, with a prefix that contains the address. */
  lemma CoverIsParsed(v6: V6Text, db: Db, a: Addr, s: int) returns (j: nat)
    requires Valid(db) && Covers(v6, db, s, a)
    ensures var parsed := ParsedSubnets(v6, db, ListSubnets(db));
            j < |parsed| && parsed[j].id == s && Contains(parsed[j].prefix, a)
  {
    var ids := ListSubnets(db);
    var k :| 0 <= k < |ids| && ids[k] == s;
    j := ParseableIsParsed(PrefixOf(v6, db), ids, k);
  }

  lemma FirstMatchCovers(v6: V6Text, db: Db, a: Addr, m: nat)
    requires Valid(db) && FirstMatch(ParsedSubnets(v6, db, ListSubnets(db)), a) == Some(m)
    ensures Covers(v6, db, ParsedSubnets(v6, db, ListSubnets(db))[m].id, a)
  {
    ParsedIsListed(PrefixOf(v6, db), ListSubnets(db), m);
  }

  lemma FirstMatchIsFirst(parsed: seq<ParsedSubnet>, a: Addr, m: nat, j: nat)
    requires FirstMatch(parsed, a) == Some(m) && j < |parsed| && Contains(parsed[j].prefix, a)
    ensures m <= j
  {
  }

  /** What parses from a listing in ascending order of `key` is in ascending order too. */
  lemma EarlierIsLess(f: int -> Option<Prefix>, ids: seq<int>, key: map<int, string>, m: nat, j: nat)
    requires forall a :: 0 <= a < |ids| ==> ids[a] in key
    requires forall a, b :: 0 <= a < b < |ids| ==> Less(key[ids[a]], key[ids[b]])
    requires m <= j < |ParsedBy(f, ids)|
    ensures var s, t := ParsedBy(f, ids)[m].id, ParsedBy(f, ids)[j].id;
            s in ids && t in ids && (t == s || Less(key[s], key[t]))
  {
    ParsedByAscending(f, ids, key);
  }

  lemma FirstMatchIsLeast(v6: V6Text, db: Db, a: Addr, m: nat, t: int)
    requires Valid(db) && FirstMatch(ParsedSubnets(v6, db, ListSubnets(db)), a) == Some(m)
    requires Covers(v6, db, t, a)
    ensures var s := ParsedSubnets(v6, db, ListSubnets(db))[m].id;
            s in db.subnets && (t == s || Less(db.subnets[s].cidr, db.subnets[t].cidr))
  {
    var j := CoverIsParsed(v6, db, a, t);
    FirstMatchIsFirst(ParsedSubnets(v6, db, ListSubnets(db)), a, m, j);
    EarlierIsLess(PrefixOf(v6, db), ListSubnets(db), Cidrs(db), m, j);
  }

  lemma FirstMatchIsChosen(v6: V6Text, db: Db, a: Addr, m: nat)
    requires Valid(db) && FirstMatch(ParsedSubnets(v6, db, ListSubnets(db)), a) == Some(m)
    ensures ChosenSubnet(v6, db, a, ParsedSubnets(v6, db, ListSubnets(db))[m].id)
  {
    FirstMatchCovers(v6, db, a, m);
    var s := ParsedSubnets(v6, db, ListSubnets(db))[m].id;
    forall t | Covers(v6, db, t, a) && t != s
      ensures Less(db.subnets[s].cidr, db.subnets[t].cidr)
    {
      FirstMatchIsLeast(v6, db, a, m, t);
    }
  }

  lemma NoMatchNoCover(v6: V6Text, db: Db, a: Addr, s: int)
    requires Valid(db) && FirstMatch(ParsedSubnets(v6, db, ListSubnets(db)), a) == None
    ensures !Covers(v6, db, s, a)
  {
    if Covers(v6, db, s, a) {
      var j := CoverIsParsed(v6, db, a, s);
    }
  }

  lemma ChosenOnce(v6: V6Text, db: Db, a: Addr, s: int, t: int)
    requires ChosenSubnet(v6, db, a, s) && ChosenSubnet(v6, db, a, t)
    ensures s == t
  {
    if s != t {
      LessTotal(db.subnets[s].cidr, db.subnets[t].cidr);
    }
  }

  /** First match in the listing is the least covering CIDR of the table. */
  lemma SubnetForMeaning(v6: V6Text, db: Db, a: Addr)
    requires Valid(db)
    ensures forall s :: SubnetFor(v6, db, a) == Some(s) <==> ChosenSubnet(v6, db, a, s)
    ensures SubnetFor(v6, db, a) == None <==> forall s :: !Covers(v6, db, s, a)
  {
    match FirstMatch(ParsedSubnets(v6, db, ListSubnets(db)), a)
    case Some(m) =>
      FirstMatchIsChosen(v6, db, a, m);
      var s := SubnetFor(v6, db, a).value;
      forall t | ChosenSubnet(v6, db, a, t)
        ensures t == s
      {
        ChosenOnce(v6, db, a, s, t);
      }
    case None =>
      forall s
        ensures !Covers(v6, db, s, a)
      {
        NoMatchNoCover(v6, db, a, s);
      }
  }
}
