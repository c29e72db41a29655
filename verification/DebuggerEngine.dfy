/** The engine's side of a hit and of a fork, on the breakpoint objects themselves. */
module DebuggerEngine {
  import opened Basics
  import opened CodeMemory
  import opened PhysicalBreakPoints
  import opened LogicalBreakPoints
  import opened ActionPass
  import opened BreakPointManagement
  import opened Fork
  import opened HitCycle

  /** No request of the pass leads to an erase past the end of the list. */
  predicate Fits(actions: seq<Action>, asks: seq<bool>) {
    |asks| == |actions| && PassFrom(actions, asks, 0).Some?
  }

  lemma TrapTaken<D>(p: Proc, me: nat, cpu: Cpu<D>, key: Key)
    requires cpu.pc > 0 && Lookup(p, me, cpu.pc - 1) == Some(key) && p.bps[key].count > 0
    ensures HitCycle.TryBreakPoints(p, me, cpu) ==
      Stop(AdjustBp(p, key, false, ALL_GOOD), cpu.(pc := cpu.pc - 1), Some(key))
  {
  }

  /** One traceable, attached thread and the engine's queues of scheduled breakpoints. */
  class Engine<!D> {
    const isa: Isa<D>
    const mgr: Manager
    const me: nat
    var pc: nat
    var data: D
    var pending: seq<BreakPoint>
    var pendingEnable: seq<BreakPoint>

    constructor (isa: Isa<D>, mgr: Manager, me: nat, cpu: Cpu<D>)
      ensures this.isa == isa && this.mgr == mgr && this.me == me && State() == cpu
      ensures pending == [] && pendingEnable == []
    {
      this.isa, this.mgr, this.me := isa, mgr, me;
      pc, data, pending, pendingEnable := cpu.pc, cpu.data, [], [];
    }

    ghost function State(): Cpu<D>
      reads this
    {
      Cpu(pc, data)
    }

    /** At most one breakpoint is scheduled, and it is in the manager's map. */
    ghost predicate Scheduled()
      reads this, mgr, mgr.bps.Values
    {
      |pending| <= 1 && forall b :: b in pending ==> b.key in mgr.bps && mgr.bps[b.key] == b
    }

    ghost function ScheduledKey(): Option<Key>
      reads this
    {
      if pending == [] then None else Some(pending[0].key)
    }

    method GetBreakPoint(addr: nat) returns (key: Option<Key>)
      requires mgr.Valid()
      ensures key == Lookup(mgr.Model(), me, addr)
    {
      if Key(Global, addr) in mgr.bps {
        return Some(Key(Global, addr));
      }
      if Key(PerThread(me), addr) in mgr.bps && mgr.bps[Key(PerThread(me), addr)].count > 0 {
        return Some(Key(PerThread(me), addr));
      }
      return None;
    }

    /** A trap was reported: back the program counter out, disable the breakpoint and schedule it. */
    method TryBreakPoints() returns (handled: bool)
      requires mgr.Valid() && pending == []
      modifies this`pc, this`pending, mgr`mem, mgr`records, mgr.bps.Values
      ensures mgr.Valid() && Scheduled()
      ensures Stop(mgr.Model(), State(), ScheduledKey()) == HitCycle.TryBreakPoints(old(mgr.Model()), me, old(State()))
      ensures handled <==> pending != []
    {
      if pc == 0 {
        return false;
      }
      ghost var p := mgr.Model();
      var key := GetBreakPoint(pc - 1);
      if key.None? || mgr.bps[key.value].count <= 0 {
        return false;
      }
      TrapTaken(p, me, State(), key.value);
      pc := pc - 1;
      assert mgr.Model() == p;
      ScheduleActions(key.value);
      return true;
    }

    method ScheduleActions(key: Key)
      requires mgr.Valid() && key in mgr.bps && pending == []
      modifies this`pending, mgr`mem, mgr`records, mgr.bps[key]
      ensures mgr.Valid() && pending == [mgr.bps[key]]
      ensures mgr.Model() == AdjustBp(old(mgr.Model()), key, false, ALL_GOOD)
    {
      var outcome := mgr.bps[key].Disable(mgr, ALL_GOOD);
      mgr.OthersStay(key);
      pending := pending + [mgr.bps[key]];
    }

    /** Run the actions of one breakpoint; forget it if none is left, else queue it for enabling. */
    method ExecuteActions(bp: BreakPoint, asks: seq<bool>)
      requires mgr.Valid() && bp.key in mgr.bps && mgr.bps[bp.key] == bp && Fits(bp.actions, asks)
      requires pendingEnable == []
      modifies this`pendingEnable, mgr, bp
      ensures mgr.Valid() && mgr.Model() == RunActions(old(mgr.Model()), bp.key, asks)
      ensures if bp.key in mgr.bps then mgr.bps[bp.key] == bp && pendingEnable == [bp] else pendingEnable == []
      ensures bp.actions == Unstruck(old(bp.actions), asks, 0)
    {
      PassLeaves(bp.actions, asks);
      var ok := bp.ExecuteActions(asks);
      mgr.OthersStay(bp.key);
      if bp.actions == [] {
        assert mgr.Model().bps - {bp.key} == old(mgr.Model()).bps - {bp.key};
        mgr.DropOne(bp.key, ALL_GOOD);
      } else {
        pendingEnable := pendingEnable + [bp];
      }
    }

    /** Step the thread off the breakpoint, then enable it. */
    method ReenableBreakPoint(bp: BreakPoint) returns (executed: nat)
      requires mgr.Valid() && bp.key in mgr.bps && mgr.bps[bp.key] == bp
      modifies this`pc, this`data, mgr`mem, mgr`records, bp
      ensures mgr.Valid()
      ensures Resumed(mgr.Model(), State(), executed) == Reenable(isa, old(mgr.Model()), bp.key, old(State()))
    {
      if bp.count > 0 {
        return 0;
      }
      executed := 0;
      if pc == bp.key.addr {
        var next := Execute(isa, mgr.mem, Cpu(pc, data));
        pc, data, executed := next.pc, next.data, 1;
      }
      var outcome := bp.Enable(mgr, ALL_GOOD);
      mgr.OthersStay(bp.key);
    }

    /** Run the actions of what is scheduled. */
    method RunScheduled(asks: seq<bool>)
      requires mgr.Valid() && Scheduled() && pendingEnable == [] && forall b :: b in pending ==> Fits(b.actions, asks)
      modifies this`pending, this`pendingEnable, mgr, mgr.bps.Values
      ensures mgr.Valid() && pending == [] && |pendingEnable| <= 1
      ensures forall b :: b in pendingEnable ==> b.key in mgr.bps && mgr.bps[b.key] == b && b in old(mgr.bps.Values)
      ensures match old(ScheduledKey())
        case None => mgr.Model() == old(mgr.Model()) && pendingEnable == []
        case Some(key) =>
          && mgr.Model() == RunActions(old(mgr.Model()), key, asks)
          && if key in mgr.bps then pendingEnable == [mgr.bps[key]] else pendingEnable == []
    {
      if pending != [] {
        assert pending[0] in pending && mgr.bps[pending[0].key] in mgr.bps.Values;
        ExecuteActions(pending[0], asks);
        pending := pending[1..];
      }
    }

    /** Enable what is to be enabled. */
    method EnablePending() returns (executed: nat)
      requires mgr.Valid() && |pendingEnable| <= 1
      requires forall b :: b in pendingEnable ==> b.key in mgr.bps && mgr.bps[b.key] == b
      modifies this`pc, this`data, this`pendingEnable, mgr`mem, mgr`records, pendingEnable
      ensures mgr.Valid() && pendingEnable == []
      ensures Resumed(mgr.Model(), State(), executed) ==
        if old(pendingEnable) == [] then Resumed(old(mgr.Model()), old(State()), 0)
        else Reenable(isa, old(mgr.Model()), old(pendingEnable[0].key), old(State()))
    {
      executed := 0;
      if pendingEnable != [] {
        executed := ReenableBreakPoint(pendingEnable[0]);
        pendingEnable := pendingEnable[1..];
      }
    }

    /** Before the thread is resumed: run what is scheduled, then enable what is to be enabled. */
    method ExecPendingActions(asks: seq<bool>) returns (executed: nat)
      requires mgr.Valid() && Scheduled() && pendingEnable == [] && forall b :: b in pending ==> Fits(b.actions, asks)
      modifies this`pc, this`data, this`pending, this`pendingEnable, mgr, mgr.bps.Values
      ensures mgr.Valid() && pending == [] && pendingEnable == []
      ensures Resumed(mgr.Model(), State(), executed) ==
        ExecPending(isa, Stop(old(mgr.Model()), old(State()), old(ScheduledKey())), asks)
    {
      RunScheduled(asks);
      executed := EnablePending();
    }
  }

  /**
   * Give a forked process its own manager: the parent's records are copied and every breakpoint of
   * the parent is cloned. Nothing of the parent is touched.
   */
  method ReplicateBreakPoints(parent: Manager, child: nat, order: seq<Key>, io: Io) returns (mgr: Manager)
    requires parent.Valid() && Enumerates(order, parent.bps.Keys)
    ensures fresh(mgr) && mgr.Valid() && forall k :: k in mgr.bps ==> fresh(mgr.bps[k])
    ensures mgr.Model() == CloneAll(parent.Model(), child, order, io)
    ensures Clones(parent.Model().bps, child, order, mgr.Model().bps)
  {
    CloneAllIsExact(parent.Model(), child, order, io);
    ghost var p := parent.Model();
    mgr := CopyRecords(parent);
    var i := 0;
    assert order[..0] == [];
    while i < |order|
      invariant 0 <= i <= |order| && fresh(mgr) && mgr.Valid() && forall k :: k in mgr.bps ==> fresh(mgr.bps[k])
      invariant parent.Model() == p && mgr.Model() == CloneAll(p, child, order[..i], io)
    {
      ModelAt(parent, order[i]);
      CloneSnoc(p, child, order, i, io);
      CloneBreakPoint(mgr, child, parent.bps[order[i]], io);
      i := i + 1;
    }
    assert order[..i] == order;
  }

  /** A new manager with the parent's memory and records and no breakpoints yet. */
  method CopyRecords(parent: Manager) returns (mgr: Manager)
    requires parent.Valid()
    ensures fresh(mgr) && mgr.bps == map[] && mgr.Valid()
    ensures mgr.Model() == Proc(parent.Model().space, map[], parent.leaked)
  {
    mgr := new Manager(parent.mem);
    mgr.records, mgr.leaked := parent.records, parent.leaked;
    assert mgr.Model().bps == map[];
  }

  /** A breakpoint of the parent as the model of the parent has it. */
  lemma ModelAt(parent: Manager, key: Key)
    requires parent.Valid() && key in parent.bps
    ensures parent.bps[key].key == key
    ensures parent.Model().bps[key] == parent.bps[key].Value()
  {
  }

  lemma CloneSnoc(parent: Proc, child: nat, order: seq<Key>, i: nat, io: Io)
    requires i < |order| && forall k :: k in order ==> k in parent.bps
    ensures CloneAll(parent, child, order[..i + 1], io) ==
      CloneOne(CloneAll(parent, child, order[..i], io), child, order[i], parent.bps[order[i]], io)
  {
    assert order[..i + 1][..i] == order[..i];
  }

  method CloneBreakPoint(mgr: Manager, child: nat, bp: BreakPoint, io: Io)
    requires mgr.Valid() && forall k :: k in mgr.bps ==> mgr.bps[k] != bp
    modifies mgr
    ensures mgr.Valid() && mgr.Model() == CloneOne(old(mgr.Model()), child, bp.key, bp.Value(), io)
    ensures forall k :: k in mgr.bps ==> fresh(mgr.bps[k]) || (k in old(mgr.bps) && mgr.bps[k] == old(mgr.bps)[k])
  {
    var clone := new BreakPoint(CloneKey(bp.key, child));
    clone.count, clone.actions := bp.count, bp.actions;
    assert mgr.Model().bps == old(mgr.Model()).bps;
    if clone.key in mgr.bps {
      mgr.Destroy(clone, io);
    } else {
      mgr.bps := mgr.bps[clone.key := clone];
      assert mgr.Model().bps == old(mgr.Model()).bps[clone.key := clone.Value()];
    }
  }
}
