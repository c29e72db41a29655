/**
 * A process forks: the child starts with a copy of the parent's code, traps included, a copy of the
 * parent's physical records, and a clone of every breakpoint of the parent.
 */
module Fork {
  import opened CodeMemory
  import opened PhysicalBreakPoints
  import opened LogicalBreakPoints
  import opened Restoration

  /** Where the clone of a breakpoint goes: per-thread ones move to the child's only thread. */
  function CloneKey(key: Key, child: nat): Key {
    if key.scope.Global? then key else Key(PerThread(child), key.addr)
  }

  /** Inserting into the map does not replace; a clone that finds its place taken is destroyed. */
  function CloneOne(p: Proc, child: nat, key: Key, bp: Bp, io: Io): Proc {
    if CloneKey(key, child) in p.bps then Destroy(p, key.addr, bp.count, io)
    else p.(bps := p.bps[CloneKey(key, child) := bp])
  }

  ghost predicate Enumerates(order: seq<Key>, keys: set<Key>) {
    && (forall k :: k in keys <==> k in order)
    && (forall i, j :: 0 <= i < j < |order| ==> order[i] != order[j])
  }

  /** Clone the breakpoints listed, from the first to the last. */
  function CloneAll(parent: Proc, child: nat, order: seq<Key>, io: Io): Proc
    requires forall k :: k in order ==> k in parent.bps
  {
    if order == [] then Proc(parent.space, map[], parent.leaked)
    else
      var key := order[|order| - 1];
      CloneOne(CloneAll(parent, child, order[..|order| - 1], io), child, key, parent.bps[key], io)
  }

  // ----- what the child has -----

  /** A per-thread breakpoint of the list that is the first one at its address. */
  ghost predicate FirstOfThread(order: seq<Key>, i: nat) {
    && i < |order| && order[i].scope.PerThread?
    && forall j :: 0 <= j < i && order[j].scope.PerThread? ==> order[j].addr != order[i].addr
  }

  /**
   * The child has every global breakpoint of the parent, with its count and actions, and in its own
   * thread the first one listed of the per-thread breakpoints at each address. It has no others.
   */
  ghost predicate Clones(parent: map<Key, Bp>, child: nat, order: seq<Key>, bps: map<Key, Bp>) {
    && (forall a :: Key(Global, a) in order ==>
          Key(Global, a) in parent && Key(Global, a) in bps && bps[Key(Global, a)] == parent[Key(Global, a)])
    && (forall i: nat :: FirstOfThread(order, i) ==>
          && order[i] in parent && Key(PerThread(child), order[i].addr) in bps
          && bps[Key(PerThread(child), order[i].addr)] == parent[order[i]])
    && (forall k :: k in bps && k.scope.Global? ==> k in order)
    && (forall k :: k in bps && k.scope.PerThread? ==>
          k.scope.tid == child && exists i: nat :: FirstOfThread(order, i) && order[i].addr == k.addr)
  }

  lemma {:induction false} CloneAllIsExact(parent: Proc, child: nat, order: seq<Key>, io: Io)
    requires forall k :: k in order ==> k in parent.bps
    requires forall i, j :: 0 <= i < j < |order| ==> order[i] != order[j]
    ensures Clones(parent.bps, child, order, CloneAll(parent, child, order, io).bps)
  {
    if order != [] {
      var key, front := order[|order| - 1], order[..|order| - 1];
      assert order == front + [key];
      CloneAllIsExact(parent, child, front, io);
      CloneOneIsExact(parent, child, front, key, CloneAll(parent, child, front, io), io);
    }
  }

  lemma FirstOfLonger(front: seq<Key>, key: Key, i: nat)
    requires i < |front|
    ensures FirstOfThread(front + [key], i) <==> FirstOfThread(front, i)
  {
    var order := front + [key];
    assert forall j :: 0 <= j < |front| ==> order[j] == front[j];
  }

  lemma CloneOneIsExact(parent: Proc, child: nat, front: seq<Key>, key: Key, p: Proc, io: Io)
    requires Clones(parent.bps, child, front, p.bps) && key in parent.bps && key !in front
    ensures Clones(parent.bps, child, front + [key], CloneOne(p, child, key, parent.bps[key], io).bps)
  {
    var order, n, q := front + [key], |front|, CloneOne(p, child, key, parent.bps[key], io);
    forall i: nat | i < n ensures FirstOfThread(order, i) <==> FirstOfThread(front, i) { FirstOfLonger(front, key, i); }
    var mine := Key(PerThread(child), key.addr);
    if key.scope.PerThread? {
      if mine in p.bps {
        var i: nat :| FirstOfThread(front, i) && front[i].addr == key.addr;
        assert order[i] == front[i] && !FirstOfThread(order, n);
      } else {
        SomeFirst(front, key.addr);
        assert FirstOfThread(order, n);
      }
    }
    forall k | k in q.bps && k.scope.PerThread?
      ensures k.scope.tid == child && exists i: nat :: FirstOfThread(order, i) && order[i].addr == k.addr
    {
      if k in p.bps {
        var i: nat :| FirstOfThread(front, i) && front[i].addr == k.addr;
        assert FirstOfThread(order, i) && order[i].addr == k.addr;
      } else {
        assert FirstOfThread(order, n) && order[n].addr == k.addr;
      }
    }
  }

  /** If some per-thread breakpoint is at an address, there is a first one. */
  lemma {:induction false} SomeFirst(order: seq<Key>, a: nat)
    ensures (forall i: nat :: FirstOfThread(order, i) ==> order[i].addr != a) ==>
      forall i :: 0 <= i < |order| && order[i].scope.PerThread? ==> order[i].addr != a
    decreases |order|
  {
    if order != [] {
      var key, front := order[|order| - 1], order[..|order| - 1];
      assert order == front + [key];
      SomeFirst(front, a);
      forall i: nat | i < |front| ensures FirstOfThread(order, i) <==> FirstOfThread(front, i) {
        FirstOfLonger(front, key, i);
      }
    }
  }

  // ----- the child is sound -----

  /** A trap of the child is claimed by a clone, or by a breakpoint that is still to be cloned. */
  ghost predicate Claimed(parent: Proc, p: Proc, done: seq<Key>, a: nat) {
    a in p.leaked || Wanted(p, a) || exists k :: k in parent.bps && k !in done && k.addr == a && parent.bps[k].count > 0
  }

  lemma CloneOneKeeps(parent: Proc, p: Proc, image: Image, sites: set<nat>, child: nat, done: seq<Key>, key: Key,
                      io: Io)
    requires Consistent(p.space, image, sites) && Separated(sites) && key in parent.bps && key.addr in sites
    requires key !in done
    requires forall a :: a in Enabled(p.space.phys) ==> Claimed(parent, p, done, a)
    ensures var q := CloneOne(p, child, key, parent.bps[key], io);
      && Consistent(q.space, image, sites)
      && forall a :: a in Enabled(q.space.phys) ==> Claimed(parent, q, done + [key], a)
  {
    var count := parent.bps[key].count;
    var q := CloneOne(p, child, key, parent.bps[key], io);
    AdjustKeeps(p.space, image, sites, key.addr, count, false, io);
    forall a | a in Enabled(q.space.phys) ensures Claimed(parent, q, done + [key], a) {
      if a in p.leaked {
      } else if Wanted(p, a) {
        var k :| k in p.bps && k.addr == a && p.bps[k].count > 0;
        assert k in q.bps && q.bps[k] == p.bps[k];
      } else if a in Enabled(p.space.phys) {
        var k :| k in parent.bps && k !in done && k.addr == a && parent.bps[k].count > 0;
        if k != key {
          assert k !in done + [key];
        } else if CloneKey(key, child) !in p.bps {
          assert Wanted(q, a);
        }
      }
    }
  }

  lemma {:induction false} CloneAllKeeps(parent: Proc, image: Image, sites: set<nat>, child: nat, order: seq<Key>,
                                         io: Io)
    requires Sound(parent, image, sites) && Separated(sites)
    requires forall k :: k in order ==> k in parent.bps && k.addr in sites
    requires forall i, j :: 0 <= i < j < |order| ==> order[i] != order[j]
    ensures var q := CloneAll(parent, child, order, io);
      && Consistent(q.space, image, sites)
      && forall a :: a in Enabled(q.space.phys) ==> Claimed(parent, q, order, a)
  {
    if order == [] {
      forall a | a in Enabled(parent.space.phys) && a !in parent.leaked
        ensures Claimed(parent, CloneAll(parent, child, order, io), order, a)
      {
        assert Wanted(parent, a);
      }
    } else {
      var key, front := order[|order| - 1], order[..|order| - 1];
      assert front + [key] == order;
      CloneAllKeeps(parent, image, sites, child, front, io);
      CloneOneKeeps(parent, CloneAll(parent, child, front, io), image, sites, child, front, key, io);
    }
  }

  /** The child satisfies the parent's invariant, with the same original image. */
  lemma ChildIsSound(parent: Proc, image: Image, sites: set<nat>, child: nat, order: seq<Key>, io: Io)
    requires Sound(parent, image, sites) && Separated(sites)
    requires Enumerates(order, parent.bps.Keys) && forall k :: k in parent.bps ==> k.addr in sites
    ensures Sound(CloneAll(parent, child, order, io), image, sites)
  {
    CloneAllKeeps(parent, image, sites, child, order, io);
  }

  // ----- groups of processes -----

  type Group = map<nat, Proc>

  datatype GroupOp =
    | At(pid: nat, op: Op)
    | Forks(parent: nat, child: nat, order: seq<Key>, io: Io)

  /** A fork of an unknown parent is an error and changes nothing. */
  ghost function GroupStep(g: Group, op: GroupOp): Group {
    match op
    case At(pid, op) => if pid in g then g[pid := Step(g[pid], op)] else g
    case Forks(parent, child, order, io) =>
      if parent in g && child !in g && Enumerates(order, g[parent].bps.Keys) then
        g[child := CloneAll(g[parent], child, order, io)]
      else g
  }

  ghost function GroupRun(g: Group, ops: seq<GroupOp>): Group
    decreases |ops|
  {
    if ops == [] then g else GroupRun(GroupStep(g, ops[0]), ops[1..])
  }

  ghost predicate GroupWithin(ops: seq<GroupOp>, sites: set<nat>) {
    forall i :: 0 <= i < |ops| && ops[i].At? ==> ops[i].op.key.addr in sites
  }

  ghost predicate GroupSound(g: Group, image: Image, sites: set<nat>) {
    forall pid :: pid in g ==> Sound(g[pid], image, sites) && forall k :: k in g[pid].bps ==> k.addr in sites
  }

  lemma GroupStepKeeps(g: Group, image: Image, sites: set<nat>, op: GroupOp)
    requires GroupSound(g, image, sites) && Separated(sites) && (op.At? ==> op.op.key.addr in sites)
    ensures GroupSound(GroupStep(g, op), image, sites)
  {
    match op
    case At(pid, o) =>
      if pid in g {
        StepKeeps(g[pid], image, sites, o);
      }
    case Forks(parent, child, order, io) =>
      if parent in g && child !in g && Enumerates(order, g[parent].bps.Keys) {
        ChildIsSound(g[parent], image, sites, child, order, io);
        ClonedKeys(g[parent], sites, child, order, io);
      }
  }

  lemma {:induction false} ClonedKeys(parent: Proc, sites: set<nat>, child: nat, order: seq<Key>, io: Io)
    requires forall k :: k in order ==> k in parent.bps && k.addr in sites
    ensures forall k :: k in CloneAll(parent, child, order, io).bps ==> k.addr in sites
  {
    if order != [] {
      ClonedKeys(parent, sites, child, order[..|order| - 1], io);
    }
  }

  lemma {:induction false} GroupRunKeeps(g: Group, image: Image, sites: set<nat>, ops: seq<GroupOp>)
    requires GroupSound(g, image, sites) && Separated(sites) && GroupWithin(ops, sites)
    ensures GroupSound(GroupRun(g, ops), image, sites)
    decreases |ops|
  {
    if ops != [] {
      GroupStepKeeps(g, image, sites, ops[0]);
      GroupRunKeeps(GroupStep(g, ops[0]), image, sites, ops[1..]);
    }
  }

  /** Every process of every run of forks and breakpoint operations can be restored to the original image. */
  lemma GroupRestored(image: Image, root: nat, sites: set<nat>, ops: seq<GroupOp>, pid: nat)
    requires Separated(sites) && GroupWithin(ops, sites)
    requires pid in GroupRun(map[root := Fresh(image)], ops) && Settled(GroupRun(map[root := Fresh(image)], ops)[pid])
    ensures GroupRun(map[root := Fresh(image)], ops)[pid].space.mem == image
  {
    FreshIsSound(image, sites);
    GroupRunKeeps(map[root := Fresh(image)], image, sites, ops);
    SettledIsClean(GroupRun(map[root := Fresh(image)], ops)[pid], image, sites);
  }

  /** The operations of a group run that were made in one process. */
  function OwnOps(ops: seq<GroupOp>, pid: nat): seq<Op>
    decreases |ops|
  {
    if ops == [] then []
    else if ops[0].At? && ops[0].pid == pid then [ops[0].op] + OwnOps(ops[1..], pid)
    else OwnOps(ops[1..], pid)
  }

  /** Whatever the other processes do, a process ends as if it had run alone. */
  lemma {:induction false} ProcessesAreIndependent(g: Group, ops: seq<GroupOp>, pid: nat)
    requires pid in g
    ensures pid in GroupRun(g, ops) && GroupRun(g, ops)[pid] == Run(g[pid], OwnOps(ops, pid))
    decreases |ops|
  {
    if ops != [] {
      ProcessesAreIndependent(GroupStep(g, ops[0]), ops[1..], pid);
      if ops[0].At? && ops[0].pid == pid {
        RunCons(g[pid], ops[0].op, OwnOps(ops[1..], pid));
      }
    }
  }

  // ----- clones that collide -----

  /** Two per-thread breakpoints at one address want the same place in the child. */
  ghost predicate Collide(k: Key, l: Key) {
    k != l && k.scope.PerThread? && l.scope.PerThread? && k.addr == l.addr
  }

  ghost predicate EachEnabledOnce(p: Proc) {
    forall k :: k in p.bps ==> p.bps[k].count == 1
  }

  /** Cloning only takes traps out, and every breakpoint listed has a clone, enabled like it. */
  lemma {:induction false} CloneAllShape(parent: Proc, child: nat, order: seq<Key>, io: Io)
    requires EachEnabledOnce(parent) && forall k :: k in order ==> k in parent.bps
    ensures var q := CloneAll(parent, child, order, io);
      && Enabled(q.space.phys) <= Enabled(parent.space.phys)
      && (forall k :: k in order ==> CloneKey(k, child) in q.bps)
      && (forall k :: k in q.bps ==> q.bps[k].count == 1 && exists l :: l in order && CloneKey(l, child) == k)
  {
    if order != [] {
      var key, front := order[|order| - 1], order[..|order| - 1];
      assert front + [key] == order;
      CloneAllShape(parent, child, front, io);
      var p, q := CloneAll(parent, child, front, io), CloneAll(parent, child, order, io);
      EnabledAfterCall(p.space, key.addr, false, io);
      forall k | k in q.bps ensures q.bps[k].count == 1 && exists l :: l in order && CloneKey(l, child) == k {
        if k in p.bps {
          var l :| l in front && CloneKey(l, child) == k;
          assert l in order;
        } else {
          assert key in order && CloneKey(key, child) == k;
        }
      }
    }
  }

  /** As long as no clones collide the code is not touched. */
  lemma {:induction false} NoCollisionNoChange(parent: Proc, child: nat, order: seq<Key>, io: Io)
    requires EachEnabledOnce(parent) && forall k :: k in order ==> k in parent.bps
    requires forall i, j :: 0 <= i < j < |order| ==> order[i] != order[j]
    requires forall k, l :: k in order && l in order ==> !Collide(k, l)
    ensures CloneAll(parent, child, order, io).space == parent.space
  {
    if order != [] {
      var key, front := order[|order| - 1], order[..|order| - 1];
      assert front + [key] == order;
      NoCollisionNoChange(parent, child, front, io);
      CloneAllShape(parent, child, front, io);
      forall l | l in front ensures CloneKey(l, child) != CloneKey(key, child) {
        assert l in order && key in order && !Collide(l, key);
      }
    }
  }

  lemma CollidingCloneTakesTrapOut(p: Proc, child: nat, key: Key, bp: Bp, image: Image, sites: set<nat>)
    requires Consistent(p.space, image, sites) && key.addr in sites && Usable(image, key.addr)
    requires bp.count == 1 && CloneKey(key, child) in p.bps
    ensures key.addr !in Enabled(CloneOne(p, child, key, bp, ALL_GOOD).space.phys)
  {
  }

  lemma CloneOneShrinks(p: Proc, child: nat, key: Key, bp: Bp, io: Io)
    ensures Enabled(CloneOne(p, child, key, bp, io).space.phys) <= Enabled(p.space.phys)
  {
  }

  lemma {:induction false} CloneAllConsistent(parent: Proc, child: nat, order: seq<Key>, io: Io, image: Image,
                                              sites: set<nat>)
    requires Consistent(parent.space, image, sites) && Separated(sites)
    requires forall k :: k in order ==> k in parent.bps && k.addr in sites
    ensures Consistent(CloneAll(parent, child, order, io).space, image, sites)
  {
    if order != [] {
      var key, front := order[|order| - 1], order[..|order| - 1];
      CloneAllConsistent(parent, child, front, io, image, sites);
      AdjustKeeps(CloneAll(parent, child, front, io).space, image, sites, key.addr, parent.bps[key].count, false, io);
    }
  }

  /** Once two of the clones have collided, the trap they share is gone. */
  lemma {:induction false} CollisionTakesTrapOut(parent: Proc, child: nat, order: seq<Key>, i: nat, j: nat,
                                                 image: Image, sites: set<nat>)
    requires Consistent(parent.space, image, sites) && Separated(sites) && EachEnabledOnce(parent)
    requires forall k :: k in order ==> k in parent.bps && k.addr in sites && Usable(image, k.addr)
    requires i < j < |order| && Collide(order[i], order[j])
    ensures order[j].addr !in Enabled(CloneAll(parent, child, order, ALL_GOOD).space.phys)
  {
    var key, front := order[|order| - 1], order[..|order| - 1];
    var p := CloneAll(parent, child, front, ALL_GOOD);
    assert CloneAll(parent, child, order, ALL_GOOD) == CloneOne(p, child, key, parent.bps[key], ALL_GOOD);
    if j < |front| {
      CollisionTakesTrapOut(parent, child, front, i, j, image, sites);
      CloneOneShrinks(p, child, key, parent.bps[key], ALL_GOOD);
    } else {
      assert order[j] == key && CloneKey(front[i], child) == CloneKey(key, child);
      assert CloneKey(front[i], child) in p.bps by {
        assert front[i] in front;
        CloneAllShape(parent, child, front, ALL_GOOD);
      }
      CloneAllConsistent(parent, child, front, ALL_GOOD, image, sites);
      CollidingCloneTakesTrapOut(p, child, key, parent.bps[key], image, sites);
    }
  }

  lemma CollisionDisarms(parent: Proc, image: Image, sites: set<nat>, child: nat, order: seq<Key>, i: nat, j: nat)
    requires Consistent(parent.space, image, sites) && Separated(sites) && EachEnabledOnce(parent)
    requires forall k :: k in order ==> k in parent.bps && k.addr in sites && Usable(image, k.addr)
    requires i < j < |order| && Collide(order[i], order[j])
    ensures !Armed(CloneAll(parent, child, order, ALL_GOOD))
  {
    CollisionTakesTrapOut(parent, child, order, i, j, image, sites);
    CloneAllShape(parent, child, order, ALL_GOOD);
    var q := CloneAll(parent, child, order, ALL_GOOD);
    assert order[j] in order && CloneKey(order[j], child) in q.bps;
  }

  lemma AnyCollisionDisarms(parent: Proc, image: Image, sites: set<nat>, child: nat, order: seq<Key>, k: Key, l: Key)
    requires Consistent(parent.space, image, sites) && Separated(sites) && EachEnabledOnce(parent)
    requires forall k :: k in order ==> k in parent.bps && k.addr in sites && Usable(image, k.addr)
    requires k in order && l in order && Collide(k, l)
    ensures !Armed(CloneAll(parent, child, order, ALL_GOOD))
  {
    var i :| 0 <= i < |order| && order[i] == k;
    var j :| 0 <= j < |order| && order[j] == l;
    if i < j {
      CollisionDisarms(parent, image, sites, child, order, i, j);
    } else {
      CollisionDisarms(parent, image, sites, child, order, j, i);
    }
  }

  lemma NoCollisionStaysArmed(parent: Proc, child: nat, order: seq<Key>)
    requires Armed(parent) && EachEnabledOnce(parent) && Enumerates(order, parent.bps.Keys)
    requires forall k, l :: k in parent.bps && l in parent.bps ==> !Collide(k, l)
    ensures Armed(CloneAll(parent, child, order, ALL_GOOD))
  {
    var q := CloneAll(parent, child, order, ALL_GOOD);
    NoCollisionNoChange(parent, child, order, ALL_GOOD);
    CloneAllShape(parent, child, order, ALL_GOOD);
    forall k | k in q.bps ensures k.addr in Enabled(q.space.phys) {
      var l :| l in order && CloneKey(l, child) == k;
      assert parent.bps[l].count == 1;
    }
  }

  /**
   * A fork of a process whose breakpoints are all enabled once and patched gives a child whose
   * breakpoints are all patched exactly when no two threads of the parent share an address.
   */
  lemma ChildArmedIffNoCollision(parent: Proc, image: Image, sites: set<nat>, child: nat, order: seq<Key>)
    requires Consistent(parent.space, image, sites) && Separated(sites) && Armed(parent) && EachEnabledOnce(parent)
    requires Enumerates(order, parent.bps.Keys)
    requires forall k :: k in parent.bps ==> k.addr in sites && Usable(image, k.addr)
    ensures Armed(CloneAll(parent, child, order, ALL_GOOD)) <==>
      forall k, l :: k in parent.bps && l in parent.bps ==> !Collide(k, l)
  {
    if forall k, l :: k in parent.bps && l in parent.bps ==> !Collide(k, l) {
      NoCollisionStaysArmed(parent, child, order);
    } else {
      var k, l :| k in parent.bps && l in parent.bps && Collide(k, l);
      AnyCollisionDisarms(parent, image, sites, child, order, k, l);
    }
  }
}
