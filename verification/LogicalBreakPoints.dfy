/**
 * Logical breakpoints of one process: enable counts, action lists, and the operations of the
 * breakpoint manager as functions on the whole process state.
 */
module LogicalBreakPoints {
  import opened CodeMemory
  import opened PhysicalBreakPoints

  /** Software breakpoints are global; emulated ones belong to one thread. */
  datatype Scope = Global | PerThread(tid: nat)

  datatype Key = Key(scope: Scope, addr: nat)

  datatype Action = Action(name: string, cookie: nat)

  datatype Bp = Bp(count: int, actions: seq<Action>)

  /**
   * `leaked` remembers the addresses at which some breakpoint object was destroyed while its
   * count was still positive: nobody is left to take that trap out.
   */
  datatype Proc = Proc(space: Space, bps: map<Key, Bp>, leaked: set<nat>)

  function Fresh(image: Image): Proc {
    Proc(Space(image, map[]), map[], {})
  }

  // ----- one breakpoint object -----

  /** The effect of `enable` (up) or `disable` (down) on one object. */
  datatype Adjusted = Adjusted(outcome: Outcome, space: Space, count: int)

  function Adjust(s: Space, addr: nat, count: int, up: bool, io: Io): Adjusted {
    var count' := if up then count + 1 else count - 1;
    if count == (if up then 0 else 1) then
      var (outcome, s') := EnableSoftware(s, addr, up, io);
      Adjusted(outcome, s', if outcome == Returned(true) then count' else count)
    else
      Adjusted(Returned(true), s, count')
  }

  /**
   * The count moves by one exactly if the call returns true. Only the first enable and the last
   * disable touch the debuggee; all others succeed.
   */
  lemma CountFollowsOutcome(s: Space, addr: nat, count: int, up: bool, io: Io)
    ensures var r := Adjust(s, addr, count, up, io);
      && (r.outcome == Returned(true) <==> r.count == count + (if up then 1 else -1))
      && (r.outcome != Returned(true) <==> r.count == count)
      && (r.space != s || r.outcome != Returned(true) ==> count == if up then 0 else 1)
  {
  }

  /** The last thing an object does is to disable itself once more. */
  function Destroy(p: Proc, addr: nat, count: int, io: Io): Proc {
    var down := Adjust(p.space, addr, count, false, io);
    Proc(down.space, p.bps, if down.count > 0 then p.leaked + {addr} else p.leaked)
  }

  // ----- operations of the manager -----

  function AdjustBp(p: Proc, key: Key, up: bool, io: Io): Proc
    requires key in p.bps
  {
    var adj := Adjust(p.space, key.addr, p.bps[key].count, up, io);
    p.(space := adj.space, bps := p.bps[key := p.bps[key].(count := adj.count)])
  }

  /** A non-zero cookie identifies an action among those of the same name. */
  predicate Duplicate(actions: seq<Action>, action: Action) {
    action.cookie != 0 && action in actions
  }

  function AddAction(actions: seq<Action>, action: Action): seq<Action> {
    if Duplicate(actions, action) then actions else actions + [action]
  }

  /** Add an action to the breakpoint at a key, creating and enabling the breakpoint if it is new. */
  function SetBreakPoint(p: Proc, key: Key, action: Action, io: Io): (Outcome, Proc) {
    if key in p.bps then
      (Returned(true), p.(bps := p.bps[key := p.bps[key].(actions := AddAction(p.bps[key].actions, action))]))
    else
      var adj := Adjust(p.space, key.addr, 0, true, io);
      if adj.outcome.Threw? then (Threw, Destroy(p.(space := adj.space), key.addr, 0, io))
      else (Returned(true), p.(space := adj.space, bps := p.bps[key := Bp(adj.count, [action])]))
  }

  /**
   * Where there is a breakpoint, the new action comes behind those it has, unless it carries a cookie
   * and is already there; where there is none, a new one is enabled once and has just that action.
   */
  lemma SetAddsLast(p: Proc, key: Key, action: Action, io: Io)
    ensures var (outcome, q) := SetBreakPoint(p, key, action, io);
      && (key in p.bps ==>
            var had := p.bps[key].actions;
            && outcome == Returned(true) && q.space == p.space && q.leaked == p.leaked
            && q.bps == p.bps[key := p.bps[key].(actions :=
                 if action.cookie != 0 && action in had then had else had + [action])])
      && (key !in p.bps && outcome.Returned? ==> q.bps == p.bps[key := Bp(q.bps[key].count, [action])])
      && (key !in p.bps && outcome.Threw? ==> q.bps == p.bps)
  {
  }

  /**
   * A new breakpoint is there unless its code could not be read, and then all that is left of it is an
   * empty record. It is enabled exactly if its address is now patched, which a failed write prevents
   * without a word.
   */
  lemma SetOutcome(p: Proc, key: Key, action: Action, io: Io)
    requires key !in p.bps
    ensures var (outcome, q) := SetBreakPoint(p, key, action, io);
      && (outcome.Threw? <==> FetchCode(p.space, key.addr, io).NotFetched?)
      && (outcome.Threw? ==>
            q == p.(space := p.space.(phys := p.space.phys[key.addr := Record(p.space.phys, key.addr)])))
      && (outcome.Returned? ==>
            && outcome.success && key in q.bps && q.leaked == p.leaked
            && q.bps[key].count == if key.addr in Enabled(q.space.phys) then 1 else 0)
  {
    EnabledAfterCall(p.space, key.addr, true, io);
  }

  datatype Name = Any | Named(name: string)

  predicate Selects(name: Name, action: Action) {
    name.Any? || name.name == action.name
  }

  /** The actions a removal by name leaves behind. */
  function Keep(actions: seq<Action>, name: Name): (kept: seq<Action>)
    ensures |kept| <= |actions|
  {
    if actions == [] then []
    else if Selects(name, actions[0]) then Keep(actions[1..], name)
    else [actions[0]] + Keep(actions[1..], name)
  }

  /** One list is another with some elements left out. */
  ghost predicate Subsequence(part: seq<Action>, whole: seq<Action>)
    decreases |whole|
  {
    || part == []
    || (whole != [] && part[0] == whole[0] && Subsequence(part[1..], whole[1..]))
    || (whole != [] && Subsequence(part, whole[1..]))
  }

  /** All actions are gone, or just those of one name: the others are there as often as before, in order. */
  ghost predicate RemovedByName(before: seq<Action>, after: seq<Action>, name: Name) {
    match name
    case Any => after == []
    case Named(n) =>
      && (forall a :: a in after ==> a.name != n)
      && (forall a: Action :: a.name != n ==> multiset(after)[a] == multiset(before)[a])
      && Subsequence(after, before)
  }

  lemma {:induction false} KeepAny(actions: seq<Action>)
    ensures Keep(actions, Any) == []
    decreases |actions|
  {
    if actions != [] { KeepAny(actions[1..]); }
  }

  lemma {:induction false} KeepHasNone(actions: seq<Action>, n: string, a: Action)
    ensures a in Keep(actions, Named(n)) ==> a.name != n
    decreases |actions|
  {
    if actions != [] { KeepHasNone(actions[1..], n, a); }
  }

  lemma {:induction false} KeepHasOthers(actions: seq<Action>, n: string, a: Action)
    requires a.name != n
    ensures multiset(Keep(actions, Named(n)))[a] == multiset(actions)[a]
    decreases |actions|
  {
    if actions != [] {
      KeepHasOthers(actions[1..], n, a);
      assert [actions[0]] + actions[1..] == actions;
    }
  }

  lemma {:induction false} KeepIsInOrder(actions: seq<Action>, name: Name)
    ensures Subsequence(Keep(actions, name), actions)
    decreases |actions|
  {
    if actions != [] {
      KeepIsInOrder(actions[1..], name);
      if !Selects(name, actions[0]) {
        assert Keep(actions, name)[1..] == Keep(actions[1..], name);
      }
    }
  }

  /** What a removal by name leaves. */
  lemma KeepRemovesByName(actions: seq<Action>, name: Name)
    ensures RemovedByName(actions, Keep(actions, name), name)
  {
    match name
    case Any => KeepAny(actions);
    case Named(n) =>
      forall a | a in Keep(actions, name) ensures a.name != n { KeepHasNone(actions, n, a); }
      forall a: Action | a.name != n ensures multiset(Keep(actions, name))[a] == multiset(actions)[a] {
        KeepHasOthers(actions, n, a);
      }
      KeepIsInOrder(actions, name);
  }

  /** Remove actions from one breakpoint; an emptied breakpoint is disabled, erased and destroyed. */
  function RemoveActions(p: Proc, key: Key, name: Name, io: Io, ioDestroy: Io): (Outcome, Proc)
    requires key in p.bps
  {
    var kept := Keep(p.bps[key].actions, name);
    if kept != [] then
      (Returned(true), p.(bps := p.bps[key := p.bps[key].(actions := kept)]))
    else
      var down := Adjust(p.space, key.addr, p.bps[key].count, false, io);
      var q := p.(space := down.space, bps := p.bps[key := Bp(down.count, [])]);
      if down.outcome.Threw? then (Threw, q)
      else (Returned(true), Destroy(q.(bps := q.bps - {key}), key.addr, down.count, ioDestroy))
  }

  /**
   * Thread teardown: the count of an enabled breakpoint is bumped first, so that the destructor
   * does not touch the debuggee.
   */
  function Teardown(p: Proc, key: Key, io: Io): Proc
    requires key in p.bps
  {
    var count := p.bps[key].count;
    var bumped :=
      if count > 0 then Adjust(p.space, key.addr, count, true, io)
      else Adjusted(Returned(true), p.space, count);
    Destroy(Proc(bumped.space, p.bps - {key}, p.leaked), key.addr, bumped.count, io)
  }

  // ----- runs -----

  datatype Op =
    | Set(key: Key, action: Action, io: Io)
    | Enable(key: Key, io: Io)
    | Disable(key: Key, io: Io)
    | Remove(key: Key, name: Name, io: Io, ioDestroy: Io)
    | Unmanage(key: Key, io: Io)

  function Step(p: Proc, op: Op): Proc {
    match op
    case Set(key, action, io) => SetBreakPoint(p, key, action, io).1
    case Enable(key, io) => if key in p.bps then AdjustBp(p, key, true, io) else p
    case Disable(key, io) => if key in p.bps then AdjustBp(p, key, false, io) else p
    case Remove(key, name, io, io') => if key in p.bps then RemoveActions(p, key, name, io, io').1 else p
    case Unmanage(key, io) => if key in p.bps then Teardown(p, key, io) else p
  }

  function Run(p: Proc, ops: seq<Op>): Proc
    decreases |ops|
  {
    if ops == [] then p else Run(Step(p, ops[0]), ops[1..])
  }

  /** Removing every action, or the breakpoint's thread, ends the breakpoint, unless it could not be disabled. */
  lemma EndsBreakPoint(p: Proc, key: Key, io: Io, ioDestroy: Io)
    requires key in p.bps
    ensures var (outcome, q) := RemoveActions(p, key, Any, io, ioDestroy);
      && Step(p, Remove(key, Any, io, ioDestroy)) == q
      && (outcome.Threw? <==> p.bps[key].count == 1 && FetchCode(p.space, key.addr, io).NotFetched?)
      && (outcome.Threw? ==> q.bps == p.bps[key := Bp(p.bps[key].count, [])] && q.leaked == p.leaked)
      && (outcome.Returned? ==> q.bps == p.bps - {key})
    ensures Step(p, Unmanage(key, io)).bps == p.bps - {key}
  {
    KeepAny(p.bps[key].actions);
  }

  function Times(op: Op, n: nat): (ops: seq<Op>)
    ensures |ops| == n
  {
    seq(n, _ => op)
  }

  /** Calls that are not the first enable or the last disable only count. */
  lemma {:induction false} OnlyCounts(p: Proc, key: Key, up: bool, io: Io, n: nat)
    requires key in p.bps && p.bps[key].count > (if up then 0 else n)
    ensures var bp := p.bps[key];
      Run(p, Times(if up then Enable(key, io) else Disable(key, io), n)) ==
        p.(bps := p.bps[key := bp.(count := if up then bp.count + n else bp.count - n)])
    decreases n
  {
    var op, bp := if up then Enable(key, io) else Disable(key, io), p.bps[key];
    if n == 0 {
      assert p.bps[key := bp] == p.bps;
    } else {
      var bp' := bp.(count := if up then bp.count + 1 else bp.count - 1);
      assert Times(op, n)[1..] == Times(op, n - 1);
      assert Step(p, op) == p.(bps := p.bps[key := bp']);
      OnlyCounts(p.(bps := p.bps[key := bp']), key, up, io, n - 1);
    }
  }

  /** Enabling an enabled breakpoint any number of times is undone by disabling it as often. */
  lemma EnablesNest(p: Proc, key: Key, io: Io, io': Io, n: nat)
    requires key in p.bps && p.bps[key].count > 0
    ensures Run(Run(p, Times(Enable(key, io), n)), Times(Disable(key, io'), n)) == p
  {
    var bp := p.bps[key];
    OnlyCounts(p, key, true, io, n);
    var q := p.(bps := p.bps[key := bp.(count := bp.count + n)]);
    OnlyCounts(q, key, false, io', n);
    assert q.bps[key := bp] == p.bps;
  }

  ghost predicate Within(ops: seq<Op>, sites: set<nat>) {
    forall i :: 0 <= i < |ops| ==> ops[i].key.addr in sites
  }

  // ----- what every run keeps -----

  /** Some live breakpoint at the address still wants it patched. */
  ghost predicate Wanted(p: Proc, addr: nat) {
    exists k :: k in p.bps && k.addr == addr && p.bps[k].count > 0
  }

  /** Every trap in the code is accounted for. */
  ghost predicate Owned(p: Proc) {
    forall a :: a in Enabled(p.space.phys) ==> a in p.leaked || Wanted(p, a)
  }

  ghost predicate Sound(p: Proc, image: Image, sites: set<nat>) {
    && Consistent(p.space, image, sites)
    && Owned(p)
  }

  /** Adjusting one object's count: either it ends with no claim to its trap, or with one it may keep. */
  lemma AdjustKeeps(s: Space, image: Image, sites: set<nat>, addr: nat, count: int, up: bool, io: Io)
    requires Consistent(s, image, sites) && Separated(sites) && addr in sites
    ensures var adj := Adjust(s, addr, count, up, io);
      && Consistent(adj.space, image, sites)
      && Enabled(adj.space.phys) <= Enabled(s.phys) + (if adj.count > 0 then {addr} else {})
      && (count > 0 && adj.count <= 0 ==> addr !in Enabled(adj.space.phys))
  {
    EnableSoftwareKeepsConsistent(s, image, sites, addr, up, io);
  }

  lemma DestroyKeeps(p: Proc, image: Image, sites: set<nat>, addr: nat, count: int, io: Io)
    requires Consistent(p.space, image, sites) && Separated(sites) && addr in sites
    requires forall a :: a in Enabled(p.space.phys) ==> a in p.leaked || Wanted(p, a) || (a == addr && count > 0)
    ensures Sound(Destroy(p, addr, count, io), image, sites)
  {
    AdjustKeeps(p.space, image, sites, addr, count, false, io);
    var q := Destroy(p, addr, count, io);
    forall a | a in Enabled(q.space.phys) ensures a in q.leaked || Wanted(q, a) {
      if a !in p.leaked && Wanted(p, a) {
        var k :| k in p.bps && k.addr == a && p.bps[k].count > 0;
        assert k in q.bps;
      }
    }
  }

  /** A claim on a trap survives any change of the table that keeps the claiming breakpoint as it is. */
  lemma WantedElsewhere(p: Proc, q: Proc, key: Key, a: nat)
    requires Wanted(p, a)
    requires forall k :: k in p.bps && k != key ==> k in q.bps && q.bps[k] == p.bps[k]
    ensures Wanted(q, a) || (a == key.addr && key in p.bps && p.bps[key].count > 0)
  {
  }

  lemma AdjustBpKeeps(p: Proc, image: Image, sites: set<nat>, key: Key, up: bool, io: Io)
    requires Sound(p, image, sites) && Separated(sites) && key in p.bps && key.addr in sites
    ensures Sound(AdjustBp(p, key, up, io), image, sites)
  {
    AdjustKeeps(p.space, image, sites, key.addr, p.bps[key].count, up, io);
    var q := AdjustBp(p, key, up, io);
    forall a | a in Enabled(q.space.phys) ensures a in q.leaked || Wanted(q, a) {
      if a in Enabled(p.space.phys) && a !in p.leaked { WantedElsewhere(p, q, key, a); }
      assert q.bps[key].count > 0 ==> Wanted(q, key.addr);
    }
  }

  lemma SetKeeps(p: Proc, image: Image, sites: set<nat>, key: Key, action: Action, io: Io)
    requires Sound(p, image, sites) && Separated(sites) && key.addr in sites
    ensures Sound(SetBreakPoint(p, key, action, io).1, image, sites)
  {
    var q := SetBreakPoint(p, key, action, io).1;
    if key in p.bps {
      forall a | a in Enabled(q.space.phys) && a !in q.leaked ensures Wanted(q, a) {
        WantedElsewhere(p, q, key, a);
        assert q.bps[key].count == p.bps[key].count;
      }
    } else {
      AdjustKeeps(p.space, image, sites, key.addr, 0, true, io);
      var adj := Adjust(p.space, key.addr, 0, true, io);
      if adj.outcome.Threw? {
        DestroyKeeps(p.(space := adj.space), image, sites, key.addr, 0, io);
      } else {
        forall a | a in Enabled(q.space.phys) && a !in q.leaked ensures Wanted(q, a) {
          if a in Enabled(p.space.phys) { WantedElsewhere(p, q, key, a); }
          assert q.bps[key].count > 0 ==> Wanted(q, key.addr);
        }
      }
    }
  }

  lemma RemoveKeeps(p: Proc, image: Image, sites: set<nat>, key: Key, name: Name, io: Io, io': Io)
    requires Sound(p, image, sites) && Separated(sites) && key in p.bps && key.addr in sites
    ensures Sound(RemoveActions(p, key, name, io, io').1, image, sites)
  {
    var kept := Keep(p.bps[key].actions, name);
    if kept != [] {
      var q := RemoveActions(p, key, name, io, io').1;
      forall a | a in Enabled(q.space.phys) && a !in q.leaked ensures Wanted(q, a) {
        WantedElsewhere(p, q, key, a);
        assert q.bps[key].count == p.bps[key].count;
      }
    } else {
      AdjustBpKeeps(p, image, sites, key, false, io);
      var down := Adjust(p.space, key.addr, p.bps[key].count, false, io);
      var r := AdjustBp(p, key, false, io);
      var q := p.(space := down.space, bps := p.bps[key := Bp(down.count, [])]);
      var q' := q.(bps := q.bps - {key});
      forall a | a in Enabled(q.space.phys) && a !in q.leaked
        ensures Wanted(q, a) && (Wanted(q', a) || (a == key.addr && down.count > 0))
      {
        WantedElsewhere(r, q', key, a);
        WantedElsewhere(r, q, key, a);
        assert q.bps[key].count == r.bps[key].count;
      }
      if !down.outcome.Threw? {
        DestroyKeeps(q', image, sites, key.addr, down.count, io');
      }
    }
  }

  lemma TeardownKeeps(p: Proc, image: Image, sites: set<nat>, key: Key, io: Io)
    requires Sound(p, image, sites) && Separated(sites) && key in p.bps && key.addr in sites
    ensures Sound(Teardown(p, key, io), image, sites)
  {
  }

  lemma StepKeeps(p: Proc, image: Image, sites: set<nat>, op: Op)
    requires Sound(p, image, sites) && Separated(sites) && op.key.addr in sites
    ensures Sound(Step(p, op), image, sites)
  {
    match op
    case Set(key, action, io) => SetKeeps(p, image, sites, key, action, io);
    case Enable(key, io) => if key in p.bps { AdjustBpKeeps(p, image, sites, key, true, io); }
    case Disable(key, io) => if key in p.bps { AdjustBpKeeps(p, image, sites, key, false, io); }
    case Remove(key, name, io, io') => if key in p.bps { RemoveKeeps(p, image, sites, key, name, io, io'); }
    case Unmanage(key, io) => if key in p.bps { TeardownKeeps(p, image, sites, key, io); }
  }

  lemma {:induction false} RunKeeps(p: Proc, image: Image, sites: set<nat>, ops: seq<Op>)
    requires Sound(p, image, sites) && Separated(sites) && Within(ops, sites)
    ensures Sound(Run(p, ops), image, sites)
    decreases |ops|
  {
    if ops != [] {
      StepKeeps(p, image, sites, ops[0]);
      RunKeeps(Step(p, ops[0]), image, sites, ops[1..]);
    }
  }

  lemma FreshIsSound(image: Image, sites: set<nat>)
    ensures Sound(Fresh(image), image, sites)
  {
  }
}
