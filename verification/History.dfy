/**
 Runs of the store: any sequence of the operations that touch the tables, with the synthesizer run at any
 point. A lease poll is one operation a lease and one that prunes, and others may come between them. What holds
 in every reachable state is proved by induction over the run.
 */
module History {
  import opened Basics
  import opened Net
  import opened Database
  import opened Synth
  import opened Apply
  import opened Storage
  import opened Run
  import opened Leases
  import opened Polling
  import opened StoreInvariant

  datatype Op =
    | Edit  // creating, updating or linking hosts, NICs, addresses, subnets and zones; unlinking zones
    | DeleteHost(id: int)
    | DeleteNic(id: int)
    | DeleteIp(id: int)
    | DeleteSubnet(id: int)
    | DeleteZone(id: int)
    | CreateManual(id: int, zone: int, zoneName: string, fqdn: string, rtype: string, target: string, ttl: int)
    | DeleteRecord(id: int)
    | Synthesize
    | Ingest(lease: Lease)  // one transaction of a lease poll
    | Prune(seen: set<string>)  // the end of one

  ghost predicate Step(v6: V6Text, pre: Db, op: Op, post: Db)
    requires Valid(pre)
  {
    match op
    case Edit => Edited(pre, post)
    case DeleteHost(id) => post == DropHosts(pre, {id})
    case DeleteNic(id) => post == DropNics(pre, {id})
    case DeleteIp(id) => post == DropIps(pre, {id})
    case DeleteSubnet(id) => post == DropSubnets(pre, {id})
    case DeleteZone(id) => post == DropZones(pre, {id})
    case CreateManual(id, zone, zoneName, fqdn, rtype, target, ttl) =>
      id !in pre.records && CanCreateManual(pre, zone, zoneName, fqdn, rtype, target) &&
      post == pre.(records := pre.records[id := ManualRec(pre, zone, fqdn, TypeNamed(rtype).value, target, ttl)])
    case DeleteRecord(id) => post == DropRecords(pre, {id})
    case Synthesize =>
      if Appliable(pre, RunWants(v6, pre)) then Applied(pre, post, RunWants(v6, pre)) else post == pre
    case Ingest(lease) => Valid(post) && exists ok :: LeaseStep(v6, pre, lease, post, ok)
    case Prune(seen) => post == DropIps(pre, StaleDynamic(pre, seen))
  }

  ghost predicate Leads(v6: V6Text, pre: Db, op: Op, post: Db) {
    Valid(pre) && Step(v6, pre, op, post)
  }

  /** All steps. */
  ghost function Steps(v6: V6Text): iset<(Db, Op, Db)> {
    iset x: (Db, Op, Db) | Leads(v6, x.0, x.1, x.2)
  }

  ghost predicate LinkedAt<S, O>(steps: iset<(S, O, S)>, states: seq<S>, ops: seq<O>, k: nat)
    requires |states| == |ops| + 1 && k < |ops|
  {
    (states[k], ops[k], states[k + 1]) in steps
  }

  ghost predicate Linked<S, O>(steps: iset<(S, O, S)>, states: seq<S>, ops: seq<O>) {
    |states| == |ops| + 1 && forall k: nat :: k < |ops| ==> LinkedAt(steps, states, ops, k)
  }

  lemma LinkedOn<S, O>(steps: iset<(S, O, S)>, states: seq<S>, ops: seq<O>, more: seq<S>, moreOps: seq<O>)
    requires Linked(steps, states, ops) && Linked(steps, more, moreOps) && more[0] == states[|ops|]
    ensures Linked(steps, states[..|ops|] + more, ops + moreOps)
  {
    var all, every := states[..|ops|] + more, ops + moreOps;
    forall k: nat | k < |every|
      ensures LinkedAt(steps, all, every, k)
    {
      if k < |ops| {
        assert LinkedAt(steps, states, ops, k);
      } else {
        assert LinkedAt(steps, more, moreOps, k - |ops|);
      }
    }
  }

  /** A run of the store from the empty database. */
  ghost predicate IsRun(v6: V6Text, states: seq<Db>, ops: seq<Op>) {
    Linked(Steps(v6), states, ops) && states[0] == EMPTY
  }

  lemma LeadsAt(v6: V6Text, states: seq<Db>, ops: seq<Op>, k: nat)
    requires IsRun(v6, states, ops) && k < |ops|
    ensures Leads(v6, states[k], ops[k], states[k + 1])
  {
    assert LinkedAt(Steps(v6), states, ops, k);
  }

  // ---------- Safety over whole runs ----------

  lemma StepKeepsGood(v6: V6Text, pre: Db, op: Op, post: Db)
    requires Good(v6, pre) && Step(v6, pre, op, post)
    ensures Good(v6, post)
  {
    match op
    case Edit => EditKeepsGood(v6, pre, post);
    case DeleteHost(id) => DropHostsValid(pre, {id}); ShrinkKeepsGood(v6, pre, post);
    case DeleteNic(id) => DropNicsValid(pre, {id}); ShrinkKeepsGood(v6, pre, post);
    case DeleteIp(id) => DropIpsValid(pre, {id}); ShrinkKeepsGood(v6, pre, post);
    case DeleteSubnet(id) => DropSubnetsValid(pre, {id}); ShrinkKeepsGood(v6, pre, post);
    case DeleteZone(id) => DropZonesValid(pre, {id}); ShrinkKeepsGood(v6, pre, post);
    case CreateManual(id, zone, zoneName, fqdn, rtype, target, ttl) =>
      CreateKeepsGood(v6, pre, id, ManualRec(pre, zone, fqdn, TypeNamed(rtype).value, target, ttl));
    case DeleteRecord(id) => DropRecordsValid(pre, {id}); ShrinkKeepsGood(v6, pre, post);
    case Synthesize =>
      if Appliable(pre, RunWants(v6, pre)) {
        SynthesizeKeepsGood(v6, pre, post);
      }
    case Ingest(lease) =>
      var ok :| LeaseStep(v6, pre, lease, post, ok);
      LeaseStepKeepsGood(v6, pre, lease, post, ok);
    case Prune(seen) => DropIpsValid(pre, StaleDynamic(pre, seen)); ShrinkKeepsGood(v6, pre, post);
  }

  lemma StartIsGood(v6: V6Text, states: seq<Db>, ops: seq<Op>, db: Db)
    requires IsRun(v6, states, ops) && db == states[0]
    ensures Good(v6, db)
  {
  }

  lemma Advance(v6: V6Text, states: seq<Db>, ops: seq<Op>, k: nat, db: Db, next: Db)
    requires IsRun(v6, states, ops) && k < |ops| && db == states[k] && next == states[k + 1] && Good(v6, db)
    ensures Good(v6, next)
  {
    LeadsAt(v6, states, ops, k);
    StepKeepsGood(v6, db, ops[k], next);
  }

  /** Every state of every run is good. */
  lemma {:induction false} ReachableIsGood(v6: V6Text, states: seq<Db>, ops: seq<Op>, n: nat)
    requires IsRun(v6, states, ops) && n < |states|
    ensures Good(v6, states[n])
  {
    if n == 0 {
      StartIsGood(v6, states, ops, states[0]);
    } else {
      var m: nat := n - 1;
      ReachableIsGood(v6, states, ops, m);
      Advance(v6, states, ops, m, states[m], states[n]);
    }
  }

  /** In every reachable state a synthesizer run succeeds: its INSERTs never meet a taken key. */
  lemma SynthesisAlwaysSucceeds(v6: V6Text, states: seq<Db>, ops: seq<Op>, n: nat)
    requires IsRun(v6, states, ops) && n < |states|
    ensures Good(v6, states[n]) && Appliable(states[n], RunWants(v6, states[n]))
  {
    ReachableIsGood(v6, states, ops, n);
    RunNeverConflicts(v6, states[n]);
  }

  /**
   In every reachable state, synthesized or not since the last deletion, a published automatic A or AAAA row
   is the text of an address that is still assigned, and of the family its type says.
   */
  lemma NoStaleAddress(v6: V6Text, states: seq<Db>, ops: seq<Op>, n: nat, zone: int, r: int, b: Option<int>)
    requires IsRun(v6, states, ops) && n < |states| && Valid(states[n])
    requires Flattens(states[n], zone, r, b)
    requires states[n].records[r].source == Auto && states[n].records[r].key.rtype != PTR
    ensures b.Some? && b.value in states[n].ips && RowOf(states[n], r, b).value == states[n].ips[b.value].ip
    ensures var a, rtype := ParseAddr(v6, states[n].ips[b.value].ip), states[n].records[r].key.rtype;
            a.Some? && (rtype == A <==> a.value.V4?) && (rtype == AAAA <==> a.value.V6?)
  {
    ReachableIsGood(v6, states, ops, n);
    assert AutoShape(v6, states[n], r);
  }

  // ---------- Pointers ----------

  /**
   In every reachable state a published automatic PTR is the text of an address that is still assigned and whose
   reverse name is the record's, the only one it is bound to; or, if it is bound to none, its target.
   */
  lemma PublishedPointer(v6: V6Text, states: seq<Db>, ops: seq<Op>, n: nat, zone: int, r: int, b: Option<int>)
    requires IsRun(v6, states, ops) && n < |states| && Valid(states[n])
    requires Flattens(states[n], zone, r, b)
    requires states[n].records[r].source == Auto && states[n].records[r].key.rtype == PTR
    ensures match b
            case Some(i) =>
              && i in states[n].ips && RowOf(states[n], r, b).value == states[n].ips[i].ip
              && ParseAddr(v6, states[n].ips[i].ip).Some?
              && ReverseName(ParseAddr(v6, states[n].ips[i].ip).value) == states[n].records[r].key.fqdn
              && (forall j :: (r, j) in states[n].bindings ==> j == i)
            case None =>
              Unbound(states[n], r) && RowOf(states[n], r, b).value == states[n].records[r].key.target
  {
    ReachableIsGood(v6, states, ops, n);
    assert AutoShape(v6, states[n], r);
  }

  /** An automatic pointer record that no address row is bound to. */
  ghost predicate Unbound(db: Db, r: int) {
    r in db.records && db.records[r].source == Auto && db.records[r].key.rtype == PTR && forall i :: (r, i) !in db.bindings
  }

  /** The step took a bound address row away. */
  ghost predicate Cascaded(pre: Db, post: Db, r: int) {
    exists i :: (r, i) in pre.bindings && i in pre.ips && i !in post.ips
  }

  /** Operations that keep record and binding rows but for the bindings of address rows they delete. */
  ghost predicate OnlyCascades(pre: Db, post: Db) {
    && (forall r :: r in post.records ==> r in pre.records && post.records[r] == pre.records[r])
    && (forall r, i :: (r, i) in pre.bindings && r in post.records && i in post.ips ==> (r, i) in post.bindings)
  }

  lemma UnboundBefore(pre: Db, post: Db, r: int)
    requires Valid(pre) && OnlyCascades(pre, post) && Unbound(post, r)
    ensures Unbound(pre, r) || Cascaded(pre, post, r)
  {
    if i :| (r, i) in pre.bindings {
      assert i in pre.ips;
      assert i !in post.ips;
    }
  }

  lemma RunBindsPointers(v6: V6Text, pre: Db, post: Db, r: int)
    requires Good(v6, pre) && Applied(pre, post, RunWants(v6, pre)) && r in post.records
    requires post.records[r].source == Auto && post.records[r].key.rtype == PTR
    ensures !Unbound(post, r)
  {
    InventoryValid(pre);
    var want := RunWants(v6, pre);
    RowBound(pre, post, want, r, 0);
    var k := post.records[r].key;
    DesiredShape(v6, Inventory(pre), k, want[k]);
    var i := want[k].bindings[0];
    RowBound(pre, post, want, r, i);
  }

  lemma DropsOnlyCascade(pre: Db, ids: set<int>)
    requires Valid(pre)
    ensures OnlyCascades(pre, DropIps(pre, ids)) && OnlyCascades(pre, DropNics(pre, ids)) && OnlyCascades(pre, DropHosts(pre, ids))
    ensures OnlyCascades(pre, DropRecords(pre, ids)) && OnlyCascades(pre, DropZones(pre, ids)) && OnlyCascades(pre, DropSubnets(pre, ids))
  {
  }

  /** No step but one that deletes the address row leaves a bound automatic pointer unbound, and no run creates one unbound. */
  lemma UnboundStep(v6: V6Text, pre: Db, op: Op, post: Db, r: int)
    requires Good(v6, pre) && Step(v6, pre, op, post) && Unbound(post, r)
    ensures Unbound(pre, r) || Cascaded(pre, post, r)
  {
    match op
    case Edit =>
    case DeleteHost(id) => DropsOnlyCascade(pre, {id}); UnboundBefore(pre, post, r);
    case DeleteNic(id) => DropsOnlyCascade(pre, {id}); UnboundBefore(pre, post, r);
    case DeleteIp(id) => DropsOnlyCascade(pre, {id}); UnboundBefore(pre, post, r);
    case DeleteSubnet(id) => DropsOnlyCascade(pre, {id}); UnboundBefore(pre, post, r);
    case DeleteZone(id) => DropsOnlyCascade(pre, {id}); UnboundBefore(pre, post, r);
    case CreateManual(id, zone, zoneName, fqdn, rtype, target, ttl) =>
    case DeleteRecord(id) => DropsOnlyCascade(pre, {id}); UnboundBefore(pre, post, r);
    case Synthesize =>
      if Appliable(pre, RunWants(v6, pre)) {
        RunBindsPointers(v6, pre, post, r);
      }
    case Ingest(lease) =>
    case Prune(seen) => DropsOnlyCascade(pre, StaleDynamic(pre, seen)); UnboundBefore(pre, post, r);
  }

  lemma UnboundEarlier(v6: V6Text, states: seq<Db>, ops: seq<Op>, m: nat, r: int, db: Db, next: Db)
    requires IsRun(v6, states, ops) && m < |ops| && db == states[m] && next == states[m + 1] && Unbound(next, r)
    ensures Unbound(db, r) || Cascaded(db, next, r)
  {
    ReachableIsGood(v6, states, ops, m);
    LeadsAt(v6, states, ops, m);
    UnboundStep(v6, db, ops[m], next, r);
  }

  lemma NoneAtTheStart(v6: V6Text, states: seq<Db>, ops: seq<Op>, r: int)
    requires IsRun(v6, states, ops)
    ensures !Unbound(states[0], r)
  {
  }

  ghost predicate UnboundFrom(states: seq<Db>, m: nat, n: nat, r: int)
    requires n < |states|
  {
    forall j :: m < j <= n ==> Unbound(states[j], r)
  }

  lemma UnboundFromEarlier(states: seq<Db>, m: nat, j: nat, r: int)
    requires j + 1 < |states| && UnboundFrom(states, m, j, r) && Unbound(states[j + 1], r)
    ensures UnboundFrom(states, m, j + 1, r)
  {
  }

  /**
   So in every reachable state an automatic pointer is unbound, and published as its target, only because an earlier
   step deleted the address row it was bound to and no run has put it right since.
   */
  lemma {:induction false} UnboundWasCascaded(v6: V6Text, states: seq<Db>, ops: seq<Op>, n: nat, r: int) returns (m: nat)
    requires IsRun(v6, states, ops) && n < |states| && Unbound(states[n], r)
    ensures m < n && Cascaded(states[m], states[m + 1], r) && UnboundFrom(states, m, n, r)
  {
    if n == 0 {
      NoneAtTheStart(v6, states, ops, r);
    } else {
      var j: nat := n - 1;
      var db, next := states[j], states[n];
      UnboundEarlier(v6, states, ops, j, r, db, next);
      if Cascaded(db, next, r) {
        m := j;
      } else {
        m := UnboundWasCascaded(v6, states, ops, j, r);
        UnboundFromEarlier(states, m, j, r);
      }
    }
  }

  // ---------- Lease polls ----------

  function PollOps(leases: seq<Lease>): (ops: seq<Op>)
    ensures |ops| == |leases| + 1
  {
    seq(|leases|, k requires 0 <= k < |leases| => Ingest(leases[k])) + [Prune(Seen(leases))]
  }

  lemma PollStep(v6: V6Text, pre: Db, leases: seq<Lease>, t: Trace, post: Db, status: LeaseStatus, k: nat, next: Db)
    requires Polled(v6, pre, leases, t, post, status) && k <= |leases|
    requires next == if k < |leases| then t.states[k + 1] else post
    ensures (t.states[k], PollOps(leases)[k], next) in Steps(v6)
  {
    if k < |leases| {
      assert StepAt(v6, leases, t, k);
    }
  }

  lemma PollIsLinked(v6: V6Text, pre: Db, leases: seq<Lease>, t: Trace, post: Db, status: LeaseStatus)
    requires Polled(v6, pre, leases, t, post, status)
    ensures Linked(Steps(v6), t.states + [post], PollOps(leases)) && (t.states + [post])[0] == pre
  {
    var more: seq<Db> := t.states + [post];
    forall k: nat | k <= |leases|
      ensures LinkedAt(Steps(v6), more, PollOps(leases), k)
    {
      PollStep(v6, pre, leases, t, post, status, k, more[k + 1]);
    }
  }

  /** A poll that nothing interrupts is a run of these operations; in other runs anything may come between them. */
  lemma PollIsRun(v6: V6Text, states: seq<Db>, ops: seq<Op>, leases: seq<Lease>, t: Trace, post: Db, status: LeaseStatus)
    requires IsRun(v6, states, ops) && Polled(v6, states[|ops|], leases, t, post, status)
    ensures IsRun(v6, states[..|ops|] + (t.states + [post]), ops + PollOps(leases))
  {
    PollIsLinked(v6, states[|ops|], leases, t, post, status);
    LinkedOn(Steps(v6), states, ops, t.states + [post], PollOps(leases));
  }

  /** A poll in a reachable state, of leases the server reports in canonical form: the dynamic pairs mirror them. */
  lemma ReachablePollMirrors(v6: V6Text, states: seq<Db>, ops: seq<Op>, n: nat, leases: seq<Lease>,
                             t: Trace, post: Db, status: LeaseStatus, m: string, p: string)
    requires IsRun(v6, states, ops) && n < |states| && AllCanonical(v6, leases)
    requires Polled(v6, states[n], leases, t, post, status)
    ensures (exists i :: DynRow(post, i, m, p)) <==>
            Leased(leases, m, p) &&
            ((exists i :: DynRow(states[n], i, m, p)) || (Upsert(v6, leases, t.oks, m, p) && !PairKnown(states[n], m, p)))
  {
    ReachableIsGood(v6, states, ops, n);
    PollMirrorsLeases(v6, states[n], leases, t, post, status, m, p);
  }

  /** Deleting the one manual record in the way brings a derivable automatic row back with the next run. */
  lemma DeletingManualRestores(v6: V6Text, pre: Db, m: int, post: Db, k: Key)
    requires Good(v6, pre) && m in pre.records && pre.records[m].source == Manual
    requires Valid(Inventory(pre)) && k in Desired(v6, Inventory(pre))
    requires forall r :: r in pre.records && r != m && pre.records[r].source == Manual ==>
               NameAndType(pre.records[r].key) != NameAndType(k)
    requires Step(v6, pre, DeleteRecord(m), DropRecords(pre, {m})) && Valid(DropRecords(pre, {m}))
    requires Step(v6, DropRecords(pre, {m}), Synthesize, post)
    ensures exists r :: AutoRow(post, r, k)
  {
    var mid := DropRecords(pre, {m});
    StepKeepsGood(v6, pre, DeleteRecord(m), mid);
    RunNeverConflicts(v6, mid);
    assert Inventory(mid) == Inventory(pre);
    AutoRowIff(v6, mid, post, k);
  }
}
