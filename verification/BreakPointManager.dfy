/** The breakpoint objects and their manager, updated in place, against the process-level functions. */
module BreakPointManagement {
  import opened Basics
  import opened CodeMemory
  import opened PhysicalBreakPoints
  import opened LogicalBreakPoints
  import opened ActionPass
  import opened Removal

  /** A software or emulated breakpoint. */
  class BreakPoint {
    const key: Key
    var count: int
    var actions: seq<Action>

    constructor (key: Key)
      ensures this.key == key && Value() == Bp(0, [])
    {
      this.key := key;
      count := 0;
      actions := [];
    }

    ghost function Value(): Bp
      reads this
    {
      Bp(count, actions)
    }

    /** Count one up; only the step from zero patches. A failure or an exception undoes the count. */
    method Enable(mgr: Manager, io: Io) returns (outcome: Outcome)
      modifies this`count, mgr`mem, mgr`records
      ensures Adjusted(outcome, mgr.Code(), count) == Adjust(old(mgr.Code()), key.addr, old(count), true, io)
    {
      var saved := count;
      count := count + 1;
      outcome := Returned(true);
      if saved == 0 {
        outcome := mgr.EnableSoftwareBreakPoint(key.addr, true, io);
      }
      if outcome != Returned(true) {
        count := saved;
      }
    }

    method Disable(mgr: Manager, io: Io) returns (outcome: Outcome)
      modifies this`count, mgr`mem, mgr`records
      ensures Adjusted(outcome, mgr.Code(), count) == Adjust(old(mgr.Code()), key.addr, old(count), false, io)
    {
      var saved := count;
      count := count - 1;
      outcome := Returned(true);
      if saved == 1 {
        outcome := mgr.EnableSoftwareBreakPoint(key.addr, false, io);
      }
      if outcome != Returned(true) {
        count := saved;
      }
    }

    method AddAction(action: Action) returns (added: bool)
      modifies this`actions
      ensures actions == LogicalBreakPoints.AddAction(old(actions), action)
      ensures added <==> !Duplicate(old(actions), action)
    {
      if action.cookie != 0 {
        var i := 0;
        while i < |actions|
          invariant 0 <= i <= |actions| && actions == old(actions)
          invariant action !in actions[..i]
        {
          if actions[i].cookie == action.cookie && actions[i].name == action.name {
            return false;
          }
          i := i + 1;
        }
        assert actions[..i] == actions;
      }
      actions := actions + [action];
      return true;
    }

    /** Erase the selected actions one by one. */
    method EraseSelected(name: Name) returns (removed: nat)
      modifies this`actions
      ensures actions == Keep(old(actions), name)
      ensures removed == |old(actions)| - |actions|
    {
      removed := 0;
      var i := 0;
      while i < |actions|
        invariant 0 <= i <= |actions|
        invariant removed == |old(actions)| - |actions|
        invariant actions[..i] + Keep(actions[i..], name) == Keep(old(actions), name)
        decreases |actions| - i
      {
        if Selects(name, actions[i]) {
          ghost var before := actions;
          actions := actions[..i] + actions[i + 1..];
          assert actions[i..] == before[i..][1..] && actions[..i] == before[..i];
          removed := removed + 1;
        } else {
          assert actions[i..][1..] == actions[i + 1..];
          assert actions[..i] + [actions[i]] == actions[..i + 1];
          i := i + 1;
        }
      }
      assert actions[i..] == [] && actions[..i] == actions;
    }

    /** The actions of a name go, or all of them. */
    method RemoveActions(name: Name) returns (removed: nat)
      modifies this`actions
      ensures actions == Keep(old(actions), name) && RemovedByName(old(actions), actions, name)
      ensures removed == |old(actions)| - |actions|
    {
      KeepRemovesByName(actions, name);
      removed := EraseSelected(name);
    }

    /**
     * Execute the actions; `asks[i]` says that action `i` was enabled and returned false. The
     * erase past the end of the list that several requests can lead to is reported as failure.
     */
    method ExecuteActions(asks: seq<bool>) returns (ok: bool)
      requires |asks| == |actions|
      modifies this`actions
      ensures ok <==> PassFrom(old(actions), asks, 0).Some?
      ensures ok ==> PassFrom(old(actions), asks, 0) == Some(actions)
    {
      var tmp := asks;
      var d := 0;
      while d < |tmp|
        invariant 0 <= d <= |tmp|
        invariant PassFrom(actions, asks, d) == PassFrom(old(actions), asks, 0)
      {
        if tmp[d] {
          if d >= |actions| {
            return false;
          }
          actions := Without(actions, d);
        }
        d := d + 1;
      }
      return true;
    }
  }

  /** Which breakpoints a removal request for a process, a thread and an address goes over. */
  predicate Visits(pid: nat, lwpid: nat, addr: nat, key: Key) {
    && (if lwpid != 0 then key.scope == PerThread(lwpid) else key.scope.Global? || pid == 0)
    && (addr == 0 || key.addr == addr)
  }

  /** A thread's own breakpoints, or all in the process, or the global ones; everywhere or at one address. */
  lemma VisitsWhom(pid: nat, lwpid: nat, addr: nat, scope: Scope, at: nat)
    ensures lwpid != 0 ==> (Visits(pid, lwpid, 0, Key(scope, at)) <==> scope == PerThread(lwpid))
    ensures pid == 0 ==> Visits(pid, 0, 0, Key(scope, at))
    ensures pid != 0 ==> (Visits(pid, 0, 0, Key(scope, at)) <==> scope == Global)
    ensures addr != 0 ==>
      (Visits(pid, lwpid, addr, Key(scope, at)) <==> at == addr && Visits(pid, lwpid, 0, Key(scope, at)))
  {
  }

  /** One table is another with some of the given keys taken out. */
  ghost predicate Shrunk(before: map<Key, BreakPoint>, after: map<Key, BreakPoint>, keys: set<Key>) {
    && (forall k :: k in before && k !in keys ==> k in after)
    && (forall k :: k in after ==> k in before && after[k] == before[k])
  }

  lemma ShrunkMore(before: map<Key, BreakPoint>, mid: map<Key, BreakPoint>, after: map<Key, BreakPoint>,
                   keys: set<Key>, key: Key)
    requires Shrunk(before, mid, keys) && (after == mid || after == mid - {key})
    ensures Shrunk(before, after, keys + {key})
  {
  }

  /** The manager of one process. The breakpoint maps hold each breakpoint under its scope and address. */
  class Manager {
    var mem: Image
    var records: PhysicalMap
    var bps: map<Key, BreakPoint>
    ghost var leaked: set<nat>

    constructor (image: Image)
      ensures Valid() && bps == map[] && Model() == Fresh(image)
    {
      mem, records, bps, leaked := image, map[], map[], {};
    }

    ghost function Code(): Space
      reads this
    {
      Space(mem, records)
    }

    ghost predicate Valid()
      reads this, bps.Values
    {
      forall k :: k in bps ==> bps[k].key == k
    }

    ghost function Model(): Proc
      reads this, bps.Values
    {
      Proc(Code(), map k | k in bps :: bps[k].Value(), leaked)
    }

    /** Read the code word through the thread, then through the process; false if the call throws. */
    method FetchCode(addr: nat, io: Io) returns (ok: bool)
      modifies this`records
      ensures var f := PhysicalBreakPoints.FetchCode(old(Code()), addr, io);
        var rec := Record(old(records), addr);
        && ok == f.Fetched?
        && records == old(records)[addr := if f.Fetched? then rec.(origCode := f.code) else rec]
    {
      if addr !in records {
        records := records[addr := Physical(ZERO_WORD, false)];
      }
      assert records == old(records)[addr := Record(old(records), addr)];
      if records[addr].origCode == ZERO_WORD {
        if records[addr].enabled {
          return false;
        }
        if io.threadRead && Mapped(mem, addr) {
          records := records[addr := records[addr].(origCode := ReadWord(mem, addr))];
        }
      }
      if records[addr].origCode == ZERO_WORD {
        if !(io.processRead && Mapped(mem, addr)) {
          return false;
        }
        records := records[addr := records[addr].(origCode := ReadWord(mem, addr))];
      }
      return true;
    }

    /** Save the code word on first use, then poke the trap or the saved word. */
    method EnableSoftwareBreakPoint(addr: nat, enable: bool, io: Io) returns (outcome: Outcome)
      modifies this`mem, this`records
      ensures (outcome, Code()) == EnableSoftware(old(Code()), addr, enable, io)
    {
      var ok := FetchCode(addr, io);
      if !ok {
        return Threw;
      }
      var code := records[addr].origCode;
      ghost var rec := records[addr];
      if enable {
        code := TrapForm(code);
      }
      if code != ZERO_WORD {
        if enable != records[addr].enabled && io.threadWrite && Mapped(mem, addr) {
          mem := WriteWord(mem, addr, code);
          records := records[addr := records[addr].(enabled := enable)];
        }
        if enable != records[addr].enabled {
          if !(io.processWrite && Mapped(mem, addr)) {
            return Returned(false);
          }
          mem := WriteWord(mem, addr, code);
          records := records[addr := records[addr].(enabled := enable)];
        }
        assert records == old(records)[addr := rec.(enabled := enable)];
      }
      return Returned(true);
    }

    /** Changing one breakpoint object changes the model at its key only. */
    twostate lemma OthersStay(key: Key)
      requires old(Valid()) && key in bps && bps == old(bps)
      requires forall k :: k in bps && k != key ==> unchanged(bps[k])
      ensures Valid() && Model().bps == old(Model()).bps[key := bps[key].Value()]
    {
    }

    /** What is left of an object when the last reference to it goes. */
    method Destroy(bp: BreakPoint, io: Io)
      requires Valid() && bp !in bps.Values
      modifies this`mem, this`records, this`leaked, bp`count
      ensures Valid() && Model() == LogicalBreakPoints.Destroy(old(Model()), bp.key.addr, old(bp.count), io)
    {
      var outcome := bp.Disable(this, io);
      if bp.count > 0 {
        leaked := leaked + {bp.key.addr};
      }
      assert Model().bps == old(Model()).bps;
    }

    method SetBreakPoint(key: Key, action: Action, io: Io) returns (outcome: Outcome)
      requires Valid()
      modifies this, bps.Values
      ensures Valid() && (outcome, Model()) == LogicalBreakPoints.SetBreakPoint(old(Model()), key, action, io)
    {
      if key in bps {
        var added := bps[key].AddAction(action);
        OthersStay(key);
        return Returned(true);
      }
      outcome := CreateBreakPoint(key, action, io);
    }

    /** A new breakpoint is enabled before it is entered into the map. */
    method CreateBreakPoint(key: Key, action: Action, io: Io) returns (outcome: Outcome)
      requires Valid() && key !in bps
      modifies this
      ensures Valid() && (outcome, Model()) == LogicalBreakPoints.SetBreakPoint(old(Model()), key, action, io)
    {
      var bp := new BreakPoint(key);
      outcome := bp.Enable(this, io);
      assert Model().bps == old(Model()).bps;
      if outcome.Threw? {
        Destroy(bp, io);
      } else {
        var added := bp.AddAction(action);
        bps := bps[key := bp];
        assert bp.actions == [action];
        assert Model().bps == old(Model()).bps[key := bp.Value()];
        outcome := Returned(true);
      }
    }

    /** Remove actions from one breakpoint; an emptied one is disabled, erased and destroyed. */
    method RemoveActionsAt(key: Key, name: Name, io: Io) returns (outcome: Outcome, removed: nat)
      requires Valid() && key in bps
      modifies this, bps[key]
      ensures Valid() && (bps == old(bps) || bps == old(bps) - {key})
      ensures (outcome, Model()) == RemoveActions(old(Model()), key, name, io, io)
      ensures removed == |old(bps[key].actions)| - |Keep(old(bps[key].actions), name)|
      ensures key in bps ==> RemovedByName(old(bps[key].actions), bps[key].actions, name)
      ensures key !in bps ==> RemovedByName(old(bps[key].actions), [], name)
    {
      removed := bps[key].RemoveActions(name);
      OthersStay(key);
      outcome := Returned(true);
      if bps[key].actions == [] {
        ghost var p := Model();
        outcome := EraseEmptied(key, io);
        assert forall count :: p.bps[key := Bp(count, [])] == old(Model()).bps[key := Bp(count, [])];
      }
    }

    method EraseEmptied(key: Key, io: Io) returns (outcome: Outcome)
      requires Valid() && key in bps && bps[key].actions == []
      modifies this, bps[key]
      ensures Valid() && (bps == old(bps) || bps == old(bps) - {key})
      ensures (outcome, Model()) == RemoveActions(old(Model()), key, Any, io, io)
    {
      var bp := bps[key];
      outcome := bp.Disable(this, io);
      OthersStay(key);
      if !outcome.Threw? {
        bps := bps - {key};
        assert bp !in bps.Values;
        assert Model().bps == old(Model()).bps[key := bp.Value()] - {key};
        Destroy(bp, io);
        outcome := Returned(true);
      }
    }

    /** One step of a sweep. */
    method RemoveNext(key: Key, name: Name, io: Io, ghost p0: Proc, ghost order: seq<Key>, start: nat)
      returns (outcome: Outcome, removed: nat)
      requires Valid() && key in bps && SweepAll(p0, order, name, io) == Sweep(Returned(true), start, Model())
      modifies this, bps[key]
      ensures Valid() && (bps == old(bps) || bps == old(bps) - {key})
      ensures SweepAll(p0, order + [key], name, io) == Sweep(outcome, removed, Model())
      ensures outcome.Returned? ==> outcome.success
      ensures Elements(order + [key]) == Elements(order) + {key}
    {
      var n;
      SweepSnoc(p0, order, key, name, io);
      outcome, n := RemoveActionsAt(key, name, io);
      removed := start + n;
    }

    /** Sweep one group of breakpoints, in whatever order the hash map yields them. */
    method RemoveActionsIn(todo: set<Key>, name: Name, io: Io, ghost p0: Proc, ghost done: seq<Key>, start: nat)
      returns (outcome: Outcome, removed: nat, ghost order: seq<Key>)
      requires Valid() && todo <= bps.Keys
      requires SweepAll(p0, done, name, io) == Sweep(Returned(true), start, Model())
      modifies this, bps.Values
      ensures Valid() && Shrunk(old(bps), bps, todo)
      ensures SweepAll(p0, order, name, io) == Sweep(outcome, removed, Model())
      ensures outcome.Returned? ==> outcome.success && Elements(order) == Elements(done) + todo
    {
      var rest := todo;
      outcome, removed, order := Returned(true), start, done;
      while rest != {}
        invariant Valid() && rest <= todo && Shrunk(old(bps), bps, todo - rest)
        invariant outcome == Returned(true) && SweepAll(p0, order, name, io) == Sweep(outcome, removed, Model())
        invariant Elements(order) == Elements(done) + (todo - rest)
      {
        var key :| key in rest;
        ghost var mid := bps;
        outcome, removed := RemoveNext(key, name, io, p0, order, removed);
        ShrunkMore(old(bps), mid, bps, todo - rest, key);
        assert todo - rest + {key} == todo - (rest - {key});
        order, rest := order + [key], rest - {key};
        if outcome.Threw? {
          return;
        }
      }
    }

    /**
     * Remove actions by process, thread, address and name: a sweep of the breakpoints visited, in some
     * order, that ends early if an access throws. The number returned is the number of actions that went.
     */
    method RemoveBreakPointActions(pid: nat, lwpid: nat, addr: nat, name: Name, io: Io)
      returns (outcome: Outcome, removed: nat, ghost order: seq<Key>)
      requires Valid()
      modifies this, bps.Values
      ensures Valid() && SweepAll(old(Model()), order, name, io) == Sweep(outcome, removed, Model())
      ensures outcome.Returned? ==>
        var visited := set k | k in old(bps) && Visits(pid, lwpid, addr, k);
        && Elements(order) == visited && Swept(old(Model()), Model(), visited, name, io)
        && SweptByName(old(Model()).bps, Model().bps, visited, name)
        && removed == TotalActions(old(Model()), visited) - TotalActions(Model(), visited)
    {
      ghost var p0 := Model();
      var threads := set k | k in bps && k.scope.PerThread? && Visits(pid, lwpid, addr, k);
      outcome, removed, order := RemoveActionsIn(threads, name, io, p0, [], 0);
      if outcome.Returned? && lwpid == 0 {
        var globals := set k | k in bps && k.scope.Global? && Visits(pid, lwpid, addr, k);
        outcome, removed, order := RemoveActionsIn(globals, name, io, p0, order, removed);
      }
      assert outcome.Returned? ==> Elements(order) == set k | k in old(bps) && Visits(pid, lwpid, addr, k);
      if outcome.Returned? {
        SweepAllConserves(p0, order, name, io, Elements(order));
        SweepRemovesByName(p0, Model(), Elements(order), name, io);
      }
    }

    /**
     * A thread goes away. Its enabled breakpoints are bumped first, so that destroying them leaves
     * the debuggee's code and the records exactly as they were; their traps stay.
     */
    method OnThreadUnmanage(tid: nat, lastThread: bool, io: Io)
      requires Valid()
      modifies this, bps.Values
      ensures Valid()
      ensures var gone := set k | k in old(bps) && (k.scope == PerThread(tid) || (lastThread && k.scope.Global?));
        Model() == Abandon(old(Model()), gone)
    {
      var gone := set k | k in bps && (k.scope == PerThread(tid) || (lastThread && k.scope.Global?));
      KeepEnabled(gone, io);
      ghost var order := EraseAll(gone, io);
      DropBumped(old(Model()), gone, order, io);
    }

    /** Clear a map of breakpoints: every object in it goes. */
    method EraseAll(keys: set<Key>, io: Io) returns (ghost order: seq<Key>)
      requires Valid() && keys <= bps.Keys
      modifies this, bps.Values
      ensures Valid() && Elements(order) == keys && Model() == DropAll(old(Model()), order, io)
    {
      var rest := keys;
      order := [];
      while rest != {}
        invariant Valid() && rest <= keys && bps == old(bps) - (keys - rest)
        invariant Elements(order) == keys - rest && Model() == DropAll(old(Model()), order, io)
      {
        var key :| key in rest;
        DropSnoc(old(Model()), order, key, io);
        DropOne(key, io);
        order, rest := order + [key], rest - {key};
      }
    }

    method DropOne(key: Key, io: Io)
      requires Valid() && key in bps
      modifies this, bps[key]
      ensures Valid() && bps == old(bps) - {key} && Model() == Drop(old(Model()), key, io)
      ensures old(bps[key]).actions == old(bps[key].actions)
    {
      var bp := bps[key];
      bps := bps - {key};
      assert bp !in bps.Values;
      assert Model().bps == old(Model()).bps - {key};
      Destroy(bp, io);
    }

    /** Bump the count of every enabled breakpoint among the given ones. */
    method KeepEnabled(keys: set<Key>, io: Io)
      requires Valid() && keys <= bps.Keys
      modifies bps.Values, this`mem, this`records
      ensures Valid() && Model() == Bumped(old(Model()), keys)
      ensures forall k :: k in bps ==>
        bps[k].count == if k in keys && old(bps[k].count) > 0 then old(bps[k].count) + 1 else old(bps[k].count)
    {
      var rest := keys;
      while rest != {}
        invariant rest <= keys && Valid() && Code() == old(Code())
        invariant forall k :: k in bps ==>
          bps[k].Value() == if k in keys - rest then BumpedOne(old(bps[k].Value())) else old(bps[k].Value())
      {
        var key :| key in rest;
        BumpOne(key, io);
        rest := rest - {key};
      }
      assert Model().bps == Bumped(old(Model()), keys).bps;
    }

    method BumpOne(key: Key, io: Io)
      requires Valid() && key in bps
      modifies bps[key], this`mem, this`records
      ensures Valid() && Code() == old(Code()) && bps[key].Value() == BumpedOne(old(bps[key].Value()))
      ensures forall k :: k in bps && k != key ==> unchanged(bps[k])
    {
      assert forall k :: k in bps && k != key ==> bps[k] != bps[key];
      if bps[key].count > 0 {
        var outcome := bps[key].Enable(this, io);
      }
    }
  }
}
