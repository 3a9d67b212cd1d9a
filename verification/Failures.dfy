/**
 Series of passes in which operations fail: what is never lost, and that the passes reported OK among them do the work
 of as many clean passes in a row.
 */
module Failures {
  import opened Basics
  import opened Database
  import opened Remote
  import opened Reconcile
  import opened Convergence

  // ---------- One pass ----------

  lemma NothingNew(pre: Records, post: Records, des: map<string, Record>, k: string)
    requires PassOf(pre, post, des) && k !in des
    ensures Copies(post, k) <= Copies(pre, k)
  {
    forall id | id in Copies(post, k)
      ensures id in Copies(pre, k)
    {
      assert New(pre, post, id) ==> RecordKey(post[id]) in des;
    }
  }

  lemma Fewer(x: set<string>, y: set<string>)
    requires x <= y
    ensures |x| <= |y|
  {
    assert y == x + (y - x);
  }

  /** Whatever fails, a desired key keeps its copies and a stray key gains none. */
  lemma CopiesAfterAnyPass(pre: Records, post: Records, des: map<string, Record>, k: string)
    requires PassOf(pre, post, des)
    ensures k in des ==> |Copies(post, k)| >= |Copies(pre, k)|
    ensures k !in des ==> |Copies(post, k)| <= |Copies(pre, k)|
  {
    if k in des {
      if k in KeysOf(pre) {
        SharedKeysUntouched(pre, post, des, k);
      } else {
        KeyHasCopies(pre, k);
      }
    } else {
      NothingNew(pre, post, des, k);
      Fewer(Copies(post, k), Copies(pre, k));
    }
  }

  lemma UnchangedIsPass(zone: Records, des: map<string, Record>)
    ensures PassOf(zone, zone, des)
  {
  }

  lemma AccountedIsPass(db: Tables, zone: int, zs: ZoneStatus, p: Pass)
    requires Account(db, zone, zs, p)
    ensures PassOf(p.pre, p.post, p.des) && (zs.ok ==> Clean(p.pre, p.post, p.des))
  {
    if zs.ok {
      OkIsClean(db, zone, zs, p);
    } else if !p.compared {
      UnchangedIsPass(p.pre, p.des);
    }
  }

  /** How many copies of a key there may be after calls of which `oks` were OK. */
  predicate Tally(wanted: bool, before: nat, after: nat, oks: nat) {
    if wanted then after >= before && (oks >= 1 ==> after >= 1) else after <= Max(0, before - oks)
  }

  lemma TallyNext(wanted: bool, before: nat, mid: nat, after: nat, oks: nat, ok: nat)
    requires Tally(wanted, before, mid, oks) && Tally(wanted, mid, after, ok)
    ensures Tally(wanted, before, after, oks + ok)
  {
  }

  /** Copies of a key before and after one call, reported OK or not. */
  lemma CopiesAfterCall(db: Tables, zone: int, zs: ZoneStatus, p: Pass, k: string)
    requires Account(db, zone, zs, p)
    ensures Tally(Wants(db, zone, k), |Copies(p.pre, k)|, |Copies(p.post, k)|, One(zs.ok))
  {
    AccountedIsPass(db, zone, zs, p);
    CopiesAfterAnyPass(p.pre, p.post, p.des, k);
    assert k in p.des <==> Wants(db, zone, k);
    if zs.ok {
      CopiesAfterPass(p.pre, p.post, p.des, k);
    }
  }

  // ---------- Many passes ----------

  ghost predicate CallAt(db: Tables, zone: int, passes: seq<Pass>, statuses: seq<ZoneStatus>, i: nat)
    requires |passes| == |statuses| && i < |passes|
  {
    Account(db, zone, statuses[i], passes[i]) && (i > 0 ==> passes[i - 1].post == passes[i].pre)
  }

  /** Calls on one zone over an unchanged store, each of which may have failed in any way. */
  ghost predicate Calls(db: Tables, zone: int, passes: seq<Pass>, statuses: seq<ZoneStatus>) {
    |passes| == |statuses| && forall i: nat :: i < |passes| ==> CallAt(db, zone, passes, statuses, i)
  }

  function OkCount(statuses: seq<ZoneStatus>): nat {
    if statuses == [] then 0 else OkCount(statuses[..|statuses| - 1]) + One(statuses[|statuses| - 1].ok)
  }

  lemma CallTally(db: Tables, zone: int, passes: seq<Pass>, statuses: seq<ZoneStatus>, k: string, i: nat)
    requires Calls(db, zone, passes, statuses) && i < |passes|
    ensures Tally(Wants(db, zone, k), |Copies(passes[i].pre, k)|, |Copies(passes[i].post, k)|, One(statuses[i].ok))
    ensures i > 0 ==> passes[i - 1].post == passes[i].pre
  {
    assert CallAt(db, zone, passes, statuses, i);
    CopiesAfterCall(db, zone, statuses[i], passes[i], k);
  }

  lemma {:induction false} TallySoFar(db: Tables, zone: int, passes: seq<Pass>, statuses: seq<ZoneStatus>, k: string, n: nat)
    requires Calls(db, zone, passes, statuses) && n < |passes|
    ensures Tally(Wants(db, zone, k), |Copies(passes[0].pre, k)|, |Copies(passes[n].post, k)|, OkCount(statuses[..n + 1]))
  {
    var wanted, before, after := Wants(db, zone, k), |Copies(passes[0].pre, k)|, |Copies(passes[n].post, k)|;
    CallTally(db, zone, passes, statuses, k, n);
    assert statuses[..n + 1][..n] == statuses[..n];
    if n > 0 {
      var m: nat := n - 1;
      TallySoFar(db, zone, passes, statuses, k, m);
      TallyNext(wanted, before, |Copies(passes[m].post, k)|, after, OkCount(statuses[..n]), One(statuses[n].ok));
    }
  }

  /**
   However many calls failed, no wanted key that was there is lost, no stray key gains a copy, and each call reported
   OK takes one copy off every stray key that has any.
   */
  lemma CopiesAfterCalls(db: Tables, zone: int, passes: seq<Pass>, statuses: seq<ZoneStatus>, k: string)
    requires Calls(db, zone, passes, statuses) && |passes| >= 1
    ensures Tally(Wants(db, zone, k), |Copies(passes[0].pre, k)|, |Copies(passes[|passes| - 1].post, k)|, OkCount(statuses))
  {
    TallySoFar(db, zone, passes, statuses, k, |passes| - 1);
    assert statuses[..|passes|] == statuses;
  }

  /** With at least as many OK calls among any others as the most copies of a stray key, and at least one, the zone mirrors the store. */
  lemma MirrorsDespiteFailures(db: Tables, zone: int, passes: seq<Pass>, statuses: seq<ZoneStatus>)
    requires Calls(db, zone, passes, statuses) && OkCount(statuses) >= 1
    requires forall k :: !Wants(db, zone, k) ==> |Copies(passes[0].pre, k)| <= OkCount(statuses)
    ensures forall k :: k in KeysOf(passes[|passes| - 1].post) <==> Wants(db, zone, k)
  {
    forall k
      ensures k in KeysOf(passes[|passes| - 1].post) <==> Wants(db, zone, k)
    {
      CopiesAfterCalls(db, zone, passes, statuses, k);
      KeyHasCopies(passes[|passes| - 1].post, k);
      assert Copies(passes[|passes| - 1].post, k) != {} <==> |Copies(passes[|passes| - 1].post, k)| > 0;
    }
  }
}
