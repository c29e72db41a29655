/** Removing breakpoint actions by name: conservation of actions, and what happens to the traps. */
module Removal {
  import opened CodeMemory
  import opened PhysicalBreakPoints
  import opened LogicalBreakPoints
  import opened Restoration

  function ActionCount(p: Proc, key: Key): nat {
    if key in p.bps then |p.bps[key].actions| else 0
  }

  /** The number of actions over a set of breakpoints. */
  ghost function TotalActions(p: Proc, keys: set<Key>): nat {
    if keys == {} then 0
    else
      var k :| k in keys;
      ActionCount(p, k) + TotalActions(p, keys - {k})
  }

  lemma {:induction false} TotalSplits(p: Proc, keys: set<Key>, key: Key)
    requires key in keys
    ensures TotalActions(p, keys) == ActionCount(p, key) + TotalActions(p, keys - {key})
  {
    var k :| k in keys && TotalActions(p, keys) == ActionCount(p, k) + TotalActions(p, keys - {k});
    if k != key {
      TotalSplits(p, keys - {k}, key);
      TotalSplits(p, keys - {key}, k);
      assert keys - {k} - {key} == keys - {key} - {k};
    }
  }

  lemma {:induction false} TotalAgrees(p: Proc, q: Proc, keys: set<Key>)
    requires forall k :: k in keys ==> ActionCount(p, k) == ActionCount(q, k)
    ensures TotalActions(p, keys) == TotalActions(q, keys)
  {
    if keys != {} {
      var k :| k in keys;
      TotalSplits(p, keys, k);
      TotalSplits(q, keys, k);
      TotalAgrees(p, q, keys - {k});
    }
  }

  /** Changing the action count of one breakpoint of the set changes the total by as much. */
  lemma TotalChangesAtOne(p: Proc, q: Proc, keys: set<Key>, key: Key)
    requires key in keys && forall k :: k in keys && k != key ==> ActionCount(p, k) == ActionCount(q, k)
    ensures TotalActions(p, keys) - TotalActions(q, keys) == ActionCount(p, key) - ActionCount(q, key)
  {
    TotalSplits(p, keys, key);
    TotalSplits(q, keys, key);
    TotalAgrees(p, q, keys - {key});
  }

  /** One emptied breakpoint whose accesses succeed: its trap goes exactly if it was enabled once or twice. */
  lemma ErasedTrapGoesIff(p: Proc, image: Image, sites: set<nat>, key: Key, name: Name)
    requires Consistent(p.space, image, sites) && key in p.bps
    requires Keep(p.bps[key].actions, name) == [] && key.addr in Enabled(p.space.phys) && Usable(image, key.addr)
    ensures var (outcome, q) := RemoveActions(p, key, name, ALL_GOOD, ALL_GOOD);
      && outcome == Returned(true) && key !in q.bps
      && (key.addr !in Enabled(q.space.phys) <==> 1 <= p.bps[key].count <= 2)
      && q.leaked == (if p.bps[key].count >= 3 then p.leaked + {key.addr} else p.leaked)
  {
  }

  // ----- sweeping a set of breakpoints -----

  ghost predicate Erased(p: Proc, key: Key, name: Name) {
    key in p.bps && Keep(p.bps[key].actions, name) == []
  }

  /** If the address is patched, its saved word is known and can be written back. */
  ghost predicate Undoable(s: Space, addr: nat) {
    addr in Enabled(s.phys) ==> s.phys[addr].origCode != ZERO_WORD && Mapped(s.mem, addr)
  }

  /**
   * `p` is `p0` after the breakpoints in `done` have lost the actions selected by name: nothing
   * survives without actions, nothing else is touched, no trap is added, and a breakpoint erased
   * at count one or two has no trap left.
   */
  ghost predicate Swept(p0: Proc, p: Proc, done: set<Key>, name: Name, io: Io) {
    && (forall k :: k in p.bps <==> k in p0.bps && !(k in done && Erased(p0, k, name)))
    && (forall k :: k in p.bps ==>
          p.bps[k] == if k in done then p0.bps[k].(actions := Keep(p0.bps[k].actions, name)) else p0.bps[k])
    && Enabled(p.space.phys) <= Enabled(p0.space.phys)
    && (forall a :: Undoable(p0.space, a) ==> Undoable(p.space, a))
    && (io == ALL_GOOD ==>
          forall k :: k in done && Erased(p0, k, name) && 1 <= p0.bps[k].count <= 2 && Undoable(p0.space, k.addr) ==>
            k.addr !in Enabled(p.space.phys))
  }

  /** Lowering a count adds no trap, and the step from one to zero takes the trap out if it can. */
  lemma DownAdjust(s: Space, addr: nat, count: int, io: Io)
    ensures var adj := Adjust(s, addr, count, false, io);
      && Enabled(adj.space.phys) <= Enabled(s.phys)
      && (forall a :: Undoable(s, a) ==> Undoable(adj.space, a))
      && (io == ALL_GOOD && Undoable(s, addr) && addr in Enabled(s.phys) ==>
            adj.count == count - 1 && (count == 1 ==> addr !in Enabled(adj.space.phys)))
  {
  }

  lemma RemoveOneShrinks(p: Proc, key: Key, name: Name, io: Io)
    requires key in p.bps
    ensures var (outcome, q) := RemoveActions(p, key, name, io, io);
      && Enabled(q.space.phys) <= Enabled(p.space.phys)
      && (forall a :: Undoable(p.space, a) ==> Undoable(q.space, a))
      && (outcome.Returned? && Erased(p, key, name) && 1 <= p.bps[key].count <= 2
          && io == ALL_GOOD && Undoable(p.space, key.addr) ==>
            key.addr !in Enabled(q.space.phys))
  {
    if Erased(p, key, name) {
      var down := Adjust(p.space, key.addr, p.bps[key].count, false, io);
      DownAdjust(p.space, key.addr, p.bps[key].count, io);
      DownAdjust(down.space, key.addr, down.count, io);
    }
  }

  /** One more breakpoint swept, and the count of removed actions that goes with it. */
  lemma SweepOne(p0: Proc, p: Proc, done: set<Key>, key: Key, name: Name, io: Io)
    requires Swept(p0, p, done, name, io) && key in p.bps && key !in done
    ensures var (outcome, q) := RemoveActions(p, key, name, io, io);
      outcome.Returned? ==>
        && Swept(p0, q, done + {key}, name, io)
        && ActionCount(p, key) - ActionCount(q, key) == |p.bps[key].actions| - |Keep(p.bps[key].actions, name)|
        && forall k :: k != key ==> ActionCount(p, k) == ActionCount(q, k)
  {
    var (outcome, q) := RemoveActions(p, key, name, io, io);
    RemoveOneShrinks(p, key, name, io);
    if outcome.Returned? {
      assert q.bps == if Erased(p, key, name) then p.bps - {key}
                      else p.bps[key := p.bps[key].(actions := Keep(p.bps[key].actions, name))];
    }
  }

  /** What a sweep over a list of breakpoints returns and leaves behind; an exception ends it. */
  datatype Sweep = Sweep(outcome: Outcome, removed: nat, after: Proc)

  function SweepAll(p: Proc, order: seq<Key>, name: Name, io: Io): Sweep {
    if order == [] then Sweep(Returned(true), 0, p)
    else
      var key := order[|order| - 1];
      var s := SweepAll(p, order[..|order| - 1], name, io);
      if s.outcome.Threw? || key !in s.after.bps then s
      else
        var (outcome, q) := RemoveActions(s.after, key, name, io, io);
        Sweep(outcome, s.removed + |s.after.bps[key].actions| - |Keep(s.after.bps[key].actions, name)|, q)
  }

  /** A sweep that returns has succeeded. */
  lemma {:induction false} SweepReturnsTrue(p: Proc, order: seq<Key>, name: Name, io: Io)
    ensures SweepAll(p, order, name, io).outcome in {Threw, Returned(true)}
    decreases |order|
  {
    if order != [] { SweepReturnsTrue(p, order[..|order| - 1], name, io); }
  }

  ghost function Elements(order: seq<Key>): set<Key> {
    set k | k in order
  }

  lemma SweepSnoc(p: Proc, order: seq<Key>, key: Key, name: Name, io: Io)
    requires SweepAll(p, order, name, io).outcome.Returned? && key in SweepAll(p, order, name, io).after.bps
    ensures var s := SweepAll(p, order, name, io);
      var (outcome, q) := RemoveActions(s.after, key, name, io, io);
      && SweepAll(p, order + [key], name, io) ==
           Sweep(outcome, s.removed + |s.after.bps[key].actions| - |Keep(s.after.bps[key].actions, name)|, q)
      && Elements(order + [key]) == Elements(order) + {key}
  {
  }

  lemma {:induction false} KeepTwice(actions: seq<Action>, name: Name)
    ensures Keep(Keep(actions, name), name) == Keep(actions, name)
  {
    if actions != [] {
      KeepTwice(actions[1..], name);
      if !Selects(name, actions[0]) {
        assert Keep(actions, name)[1..] == Keep(actions[1..], name);
      }
    }
  }

  /** Sweeping a breakpoint again changes nothing. */
  lemma SweepAgain(p0: Proc, p: Proc, done: set<Key>, key: Key, name: Name, io: Io)
    requires Swept(p0, p, done, name, io) && key in p.bps && key in done
    ensures RemoveActions(p, key, name, io, io) == (Returned(true), p)
    ensures Keep(p.bps[key].actions, name) == p.bps[key].actions
  {
    KeepTwice(p0.bps[key].actions, name);
    assert p.bps[key := p.bps[key]] == p.bps;
  }

  lemma SweepMore(p: Proc, s: Sweep, done: set<Key>, key: Key, name: Name, io: Io, all: set<Key>)
    requires Swept(p, s.after, done, name, io) && key in s.after.bps && key in all
    ensures var (outcome, q) := RemoveActions(s.after, key, name, io, io);
      outcome.Returned? ==>
        && Swept(p, q, done + {key}, name, io)
        && |s.after.bps[key].actions| - |Keep(s.after.bps[key].actions, name)| ==
          TotalActions(s.after, all) - TotalActions(q, all)
  {
    var (outcome, q) := RemoveActions(s.after, key, name, io, io);
    if key in done {
      SweepAgain(p, s.after, done, key, name, io);
      assert done + {key} == done;
    } else {
      SweepOne(p, s.after, done, key, name, io);
      if outcome.Returned? { TotalChangesAtOne(s.after, q, all, key); }
    }
  }

  /** A sweep that ends normally is complete, and it returns the drop in the number of actions. */
  lemma {:induction false} SweepAllConserves(p: Proc, order: seq<Key>, name: Name, io: Io, all: set<Key>)
    requires SweepAll(p, order, name, io).outcome.Returned? && Elements(order) <= all
    ensures var s := SweepAll(p, order, name, io);
      && Swept(p, s.after, Elements(order), name, io)
      && s.removed == TotalActions(p, all) - TotalActions(s.after, all)
  {
    if order != [] {
      var key, front := order[|order| - 1], order[..|order| - 1];
      assert key in Elements(order) && Elements(order) == Elements(front) + {key} by {
        assert order == front + [key];
      }
      SweepAllConserves(p, front, name, io, all);
      var s := SweepAll(p, front, name, io);
      if key in s.after.bps {
        SweepMore(p, s, Elements(front), key, name, io, all);
      } else {
        SweepMissing(p, s.after, Elements(front), key, name, io);
      }
    }
  }

  /** What a sweep leaves, breakpoint by breakpoint. */
  ghost predicate SweptByName(before: map<Key, Bp>, after: map<Key, Bp>, visited: set<Key>, name: Name) {
    && after.Keys <= before.Keys
    && (forall k :: k in before && k !in visited ==> k in after && after[k] == before[k])
    && (forall k :: k in after && k in visited ==>
          && after[k].count == before[k].count && after[k].actions != []
          && RemovedByName(before[k].actions, after[k].actions, name))
    && (forall k :: k in before && k !in after ==> RemovedByName(before[k].actions, [], name))
  }

  lemma SweepRemovesByName(p0: Proc, p: Proc, done: set<Key>, name: Name, io: Io)
    requires Swept(p0, p, done, name, io)
    ensures SweptByName(p0.bps, p.bps, done, name)
  {
    forall k | k in p0.bps ensures RemovedByName(p0.bps[k].actions, Keep(p0.bps[k].actions, name), name) {
      KeepRemovesByName(p0.bps[k].actions, name);
    }
  }

  lemma SweepMissing(p0: Proc, p: Proc, done: set<Key>, key: Key, name: Name, io: Io)
    requires Swept(p0, p, done, name, io) && key !in p.bps
    ensures Swept(p0, p, done + {key}, name, io)
  {
  }

  // ----- thread teardown -----

  function BumpedOne(bp: Bp): Bp {
    if bp.count > 0 then bp.(count := bp.count + 1) else bp
  }

  ghost function Bumped(p: Proc, keys: set<Key>): Proc {
    p.(bps := map k | k in p.bps :: if k in keys then BumpedOne(p.bps[k]) else p.bps[k])
  }

  function Drop(p: Proc, key: Key, io: Io): Proc
    requires key in p.bps
  {
    Destroy(p.(bps := p.bps - {key}), key.addr, p.bps[key].count, io)
  }

  function DropAll(p: Proc, order: seq<Key>, io: Io): Proc {
    if order == [] then p
    else
      var q := DropAll(p, order[..|order| - 1], io);
      if order[|order| - 1] in q.bps then Drop(q, order[|order| - 1], io) else q
  }

  lemma DropSnoc(p: Proc, order: seq<Key>, key: Key, io: Io)
    requires key in DropAll(p, order, io).bps
    ensures DropAll(p, order + [key], io) == Drop(DropAll(p, order, io), key, io)
    ensures Elements(order + [key]) == Elements(order) + {key}
  {
  }

  /** The breakpoints are forgotten; the traps of the enabled ones stay in the code. */
  ghost function Abandon(p: Proc, keys: set<Key>): Proc {
    Proc(p.space, p.bps - keys, p.leaked + StillWanted(p, keys))
  }

  ghost function StillWanted(p: Proc, keys: set<Key>): set<nat> {
    set k | k in keys && k in p.bps && p.bps[k].count > 0 :: k.addr
  }

  lemma StillWantedSplits(p: Proc, keys: set<Key>, key: Key)
    requires key in p.bps
    ensures StillWanted(p, keys + {key}) == StillWanted(p, keys) + if p.bps[key].count > 0 then {key.addr} else {}
  {
  }

  /** Dropping a bumped breakpoint does not touch the code. */
  lemma DropBumpedOne(p: Proc, key: Key, io: Io)
    requires key in p.bps && p.bps[key].count != 1
    ensures Drop(p, key, io) == Proc(p.space, p.bps - {key}, p.leaked + if p.bps[key].count > 1 then {key.addr} else {})
  {
  }

  lemma {:induction false} DropAllBumped(p: Proc, keys: set<Key>, order: seq<Key>, io: Io)
    requires Elements(order) <= keys <= p.bps.Keys
    ensures DropAll(Bumped(p, keys), order, io) ==
      Proc(p.space, Bumped(p, keys).bps - Elements(order), p.leaked + StillWanted(p, Elements(order)))
  {
    var b := Bumped(p, keys);
    if order == [] {
      assert StillWanted(p, {}) == {} && b.bps - {} == b.bps;
    } else {
      var key, front := order[|order| - 1], order[..|order| - 1];
      assert key in Elements(order) && Elements(order) == Elements(front) + {key} by {
        assert order == front + [key];
      }
      DropAllBumped(p, keys, front, io);
      StillWantedSplits(p, Elements(front), key);
      var q := DropAll(b, front, io);
      if key in q.bps {
        DropBumpedOne(q, key, io);
      } else {
        assert Elements(order) == Elements(front);
      }
      assert b.bps - Elements(front) - {key} == b.bps - Elements(order);
    }
  }

  lemma DropBumped(p: Proc, keys: set<Key>, order: seq<Key>, io: Io)
    requires Elements(order) == keys <= p.bps.Keys
    ensures DropAll(Bumped(p, keys), order, io) == Abandon(p, keys)
  {
    DropAllBumped(p, keys, order, io);
    assert Bumped(p, keys).bps - keys == p.bps - keys;
  }
}
