/**
 * What a thread goes through at a software breakpoint: it traps, its program counter is backed out,
 * the breakpoint is disabled, its actions run, the displaced instruction is single-stepped, and the
 * breakpoint is enabled again. Seen from outside, the program runs as if it were not debugged.
 */
module HitCycle {
  import opened Basics
  import opened CodeMemory
  import opened PhysicalBreakPoints
  import opened LogicalBreakPoints
  import opened Restoration
  import opened ActionPass

  // ----- the processor -----

  datatype Cpu<D> = Cpu(pc: nat, data: D)

  /**
   * The instruction set: how many bytes the instruction at an address has, and what executing those
   * bytes does to the program counter and to everything that is not code.
   */
  datatype Isa<!D> = Isa(length: (Image, nat) -> nat, exec: (seq<Byte>, nat, D) -> Cpu<D>)

  predicate SameBytes(m: Image, m': Image, pc: nat, n: nat) {
    pc + n <= |m| && |m| == |m'| && m[pc..pc + n] == m'[pc..pc + n]
  }

  /** The length of an instruction depends on its own bytes only. */
  ghost predicate DecodesLocally<D>(isa: Isa<D>) {
    forall m: Image, m': Image, pc: nat :: SameBytes(m, m', pc, isa.length(m, pc)) ==>
      isa.length(m', pc) == isa.length(m, pc)
  }

  function Execute<D>(isa: Isa<D>, mem: Image, cpu: Cpu<D>): Cpu<D> {
    var n := isa.length(mem, cpu.pc);
    if cpu.pc + n <= |mem| then isa.exec(mem[cpu.pc..cpu.pc + n], cpu.pc, cpu.data) else cpu
  }

  /** The undisturbed program after `n` instructions. */
  function Native<D>(isa: Isa<D>, image: Image, cpu: Cpu<D>, n: nat): Cpu<D>
    decreases n
  {
    if n == 0 then cpu else Native(isa, image, Execute(isa, image, cpu), n - 1)
  }

  /** There is an instruction at the program counter, not a trap, and no site inside it. */
  ghost predicate Runnable<D>(isa: Isa<D>, image: Image, sites: set<nat>, cpu: Cpu<D>) {
    var n := isa.length(image, cpu.pc);
    && 1 <= n && cpu.pc + n <= |image| && image[cpu.pc] != BREAK_OPCODE
    && forall a :: a in sites ==> !(cpu.pc < a < cpu.pc + n)
  }

  /** So it is before each of the next `n` instructions of the undisturbed program. */
  ghost predicate RunnableFor<D>(isa: Isa<D>, image: Image, sites: set<nat>, cpu: Cpu<D>, n: nat)
    decreases n
  {
    n > 0 ==> Runnable(isa, image, sites, cpu) && RunnableFor(isa, image, sites, Execute(isa, image, cpu), n - 1)
  }

  // ----- the engine -----

  /** The breakpoint a thread stopped at: a global one first, else an enabled one of its own. */
  function Lookup(p: Proc, me: nat, pc: nat): Option<Key> {
    if Key(Global, pc) in p.bps then Some(Key(Global, pc))
    else if Key(PerThread(me), pc) in p.bps && p.bps[Key(PerThread(me), pc)].count > 0 then Some(Key(PerThread(me), pc))
    else None
  }

  datatype Stop<D> = Stop(proc: Proc, cpu: Cpu<D>, pending: Option<Key>)

  /**
   * The thread reports a trap with the program counter behind the trap instruction. If there is an
   * enabled breakpoint, back out, disable it and schedule its actions.
   */
  function TryBreakPoints<D>(p: Proc, me: nat, cpu: Cpu<D>): Stop<D> {
    if cpu.pc == 0 then Stop(p, cpu, None)
    else
      match Lookup(p, me, cpu.pc - 1)
      case None => Stop(p, cpu, None)
      case Some(key) =>
        if p.bps[key].count <= 0 then Stop(p, cpu, None)
        else Stop(AdjustBp(p, key, false, ALL_GOOD), cpu.(pc := cpu.pc - 1), Some(key))
  }

  /** The actions left after a pass in which some ask to go; a script that does not fit changes nothing. */
  function ActionsLeft(actions: seq<Action>, asks: seq<bool>): seq<Action> {
    if |asks| != |actions| then actions
    else match PassFrom(actions, asks, 0) case Some(left) => left case None => actions
  }

  /** A breakpoint whose actions have run is erased if none is left, else queued to be enabled again. */
  function RunActions(p: Proc, key: Key, asks: seq<bool>): Proc
    requires key in p.bps
  {
    var left := ActionsLeft(p.bps[key].actions, asks);
    if left == [] then Destroy(p.(bps := p.bps - {key}), key.addr, p.bps[key].count, ALL_GOOD)
    else p.(bps := p.bps[key := p.bps[key].(actions := left)])
  }

  datatype Resumed<D> = Resumed(proc: Proc, cpu: Cpu<D>, executed: nat)

  /** Step the thread off the breakpoint if it stands on it, then enable it. */
  function Reenable<D>(isa: Isa<D>, p: Proc, key: Key, cpu: Cpu<D>): Resumed<D>
    requires key in p.bps
  {
    if p.bps[key].count > 0 then Resumed(p, cpu, 0)
    else
      var steps := cpu.pc == key.addr;
      var q := AdjustBp(p, key, true, ALL_GOOD);
      if steps then Resumed(q, Execute(isa, p.space.mem, cpu), 1) else Resumed(q, cpu, 0)
  }

  function ExecPending<D>(isa: Isa<D>, stop: Stop<D>, asks: seq<bool>): Resumed<D>
    requires stop.pending.Some? ==> stop.pending.value in stop.proc.bps
  {
    match stop.pending
    case None => Resumed(stop.proc, stop.cpu, 0)
    case Some(key) =>
      var q := RunActions(stop.proc, key, asks);
      if key in q.bps then Reenable(isa, q, key, stop.cpu) else Resumed(q, stop.cpu, 0)
  }

  /** Resume the debugged thread: a trap leads through a whole hit cycle, anything else executes. */
  function Resume<D>(isa: Isa<D>, p: Proc, me: nat, cpu: Cpu<D>, asks: seq<bool>): Resumed<D> {
    if cpu.pc < |p.space.mem| && p.space.mem[cpu.pc] == BREAK_OPCODE then
      ExecPending(isa, TryBreakPoints(p, me, cpu.(pc := cpu.pc + 1)), asks)
    else
      Resumed(p, Execute(isa, p.space.mem, cpu), 1)
  }

  type Resumption<!D> = (Proc, Cpu<D>, seq<bool>) -> Resumed<D>

  /** Resume as often as there are scripts for the actions, adding up the instructions executed. */
  function ResumeAll<D>(step: Resumption<D>, p: Proc, cpu: Cpu<D>, scripts: seq<seq<bool>>): Resumed<D>
    decreases |scripts|
  {
    if scripts == [] then Resumed(p, cpu, 0)
    else
      var r := step(p, cpu, scripts[0]);
      var rest := ResumeAll(step, r.proc, r.cpu, scripts[1..]);
      Resumed(rest.proc, rest.cpu, r.executed + rest.executed)
  }

  function DebugRun<D>(isa: Isa<D>, p: Proc, me: nat, cpu: Cpu<D>, scripts: seq<seq<bool>>): Resumed<D> {
    ResumeAll((p', cpu', asks) => Resume(isa, p', me, cpu', asks), p, cpu, scripts)
  }

  // ----- transparency -----

  /**
   * One breakpoint per address, visible to the thread, enabled at most once; the traps in the code
   * are exactly those of the enabled breakpoints.
   */
  ghost predicate Debuggable(p: Proc, image: Image, sites: set<nat>, me: nat) {
    && Consistent(p.space, image, sites)
    && Visible(p.bps, sites, me)
    && Enabled(p.space.phys) == EnabledSites(p.bps)
  }

  ghost predicate Visible(bps: map<Key, Bp>, sites: set<nat>, me: nat) {
    && OnePerAddress(bps.Keys)
    && forall k :: k in bps ==> k.addr in sites && (k.scope.Global? || k.scope == PerThread(me)) && bps[k].count <= 1
  }

  /** The sites are a word apart, and a trap can be set and taken out at each of them. */
  ghost predicate GoodSites(image: Image, sites: set<nat>) {
    forall a :: a in sites ==> GoodSite(image, sites, a)
  }

  ghost predicate GoodSite(image: Image, sites: set<nat>, a: nat) {
    Apart(a, sites) && Usable(image, a)
  }

  /** The addresses of the breakpoints that are enabled. */
  ghost function EnabledSites(bps: map<Key, Bp>): set<nat> {
    set k | k in bps && bps[k].count == 1 :: k.addr
  }

  lemma SitesWithout(bps: map<Key, Bp>, bps': map<Key, Bp>, key: Key)
    requires OnePerAddress(bps.Keys) && key in bps && bps' == bps - {key}
    ensures EnabledSites(bps') == EnabledSites(bps) - {key.addr}
  {
  }

  /** An instruction whose first byte is unpatched executes as in the original image. */
  lemma UnpatchedExecutesNatively<D>(isa: Isa<D>, mem: Image, image: Image, sites: set<nat>, on: set<nat>, cpu: Cpu<D>)
    requires DecodesLocally(isa) && Runnable(isa, image, sites, cpu)
    requires Overlaid(mem, image, on) && on <= sites && cpu.pc !in on
    ensures Execute(isa, mem, cpu) == Execute(isa, image, cpu)
    ensures Execute(isa, mem, cpu) ==
      isa.exec(image[cpu.pc..cpu.pc + isa.length(image, cpu.pc)], cpu.pc, cpu.data)
  {
    var n := isa.length(image, cpu.pc);
    forall i: nat | cpu.pc <= i < cpu.pc + n ensures mem[i] == image[i] {
      assert i !in on;
    }
    assert SameBytes(image, mem, cpu.pc, n);
  }

  /** The instruction at the program counter executes as in the original image wherever it is unpatched. */
  ghost predicate RunsNatively<D>(isa: Isa<D>, image: Image, sites: set<nat>, cpu: Cpu<D>) {
    forall mem, on :: Overlaid(mem, image, on) && on <= sites && cpu.pc !in on ==>
      Execute(isa, mem, cpu) == Execute(isa, image, cpu)
  }

  /** Disabling the breakpoint at hand takes exactly its trap out; enabling it puts the trap back. */
  lemma AdjustOwnTrap(p: Proc, image: Image, sites: set<nat>, key: Key, up: bool)
    requires Consistent(p.space, image, sites) && Apart(key.addr, sites) && key in p.bps && key.addr in sites
    requires Usable(image, key.addr)
    requires p.bps[key].count == (if up then 0 else 1) && (key.addr in Enabled(p.space.phys) <==> !up)
    ensures var q := AdjustBp(p, key, up, ALL_GOOD);
      && Consistent(q.space, image, sites)
      && q == p.(space := q.space, bps := p.bps[key := p.bps[key].(count := if up then 1 else 0)])
      && Enabled(q.space.phys) == if up then Enabled(p.space.phys) + {key.addr} else Enabled(p.space.phys) - {key.addr}
  {
    EnableSoftwareKeepsConsistent(p.space, image, sites, key.addr, up, ALL_GOOD);
    assert TrapForm(ReadWord(image, key.addr))[0] == BREAK_OPCODE;
    if up {
      if Mapped(p.space.mem, key.addr) { UnpatchedWordIsOriginal(p.space, image, sites, key.addr); }
    }
  }

  lemma LookupFindsTheBreakPoint(p: Proc, image: Image, sites: set<nat>, me: nat, pc: nat) returns (key: Key)
    requires Debuggable(p, image, sites, me) && pc in Enabled(p.space.phys)
    ensures key in p.bps && key.addr == pc && p.bps[key].count == 1 && Lookup(p, me, pc) == Some(key)
  {
    key :| key in p.bps && p.bps[key].count == 1 && key.addr == pc;
  }

  // ----- what resuming should do, told without the code and its traps -----

  datatype Told<D> = Told(bps: map<Key, Bp>, cpu: Cpu<D>, executed: nat)

  function Tell<D>(r: Resumed<D>): Told<D> {
    Told(r.proc.bps, r.cpu, r.executed)
  }

  /** The enabled breakpoint at an address. */
  function HitAt(bps: map<Key, Bp>, me: nat, pc: nat): Option<Key> {
    if Key(Global, pc) in bps && bps[Key(Global, pc)].count == 1 then Some(Key(Global, pc))
    else if Key(PerThread(me), pc) in bps && bps[Key(PerThread(me), pc)].count == 1 then Some(Key(PerThread(me), pc))
    else None
  }

  /**
   * A breakpoint that is hit keeps the actions that are left and stays enabled once, and the original
   * instruction is executed once; a breakpoint without actions left is forgotten before that. Where no
   * breakpoint is hit the original instruction is executed.
   */
  function Expected<D>(isa: Isa<D>, image: Image, me: nat, bps: map<Key, Bp>, cpu: Cpu<D>, asks: seq<bool>): Told<D> {
    match HitAt(bps, me, cpu.pc)
    case None => Told(bps, Execute(isa, image, cpu), 1)
    case Some(key) =>
      var left := ActionsLeft(bps[key].actions, asks);
      if left == [] then Told(bps - {key}, cpu, 0) else Told(bps[key := Bp(1, left)], Execute(isa, image, cpu), 1)
  }

  type Telling<!D> = (map<Key, Bp>, Cpu<D>, seq<bool>) -> Told<D>

  function TellAll<D>(tell: Telling<D>, bps: map<Key, Bp>, cpu: Cpu<D>, scripts: seq<seq<bool>>): Told<D>
    decreases |scripts|
  {
    if scripts == [] then Told(bps, cpu, 0)
    else
      var r := tell(bps, cpu, scripts[0]);
      var rest := TellAll(tell, r.bps, r.cpu, scripts[1..]);
      Told(rest.bps, rest.cpu, r.executed + rest.executed)
  }

  function ExpectedRun<D>(
    isa: Isa<D>, image: Image, me: nat, bps: map<Key, Bp>, cpu: Cpu<D>, scripts: seq<seq<bool>>
  ): Told<D> {
    TellAll((bps', cpu', asks) => Expected(isa, image, me, bps', cpu', asks), bps, cpu, scripts)
  }

  // ----- one hit -----

  lemma ExecPendingCases<D>(isa: Isa<D>, p: Proc, key: Key, cpu: Cpu<D>, asks: seq<bool>)
    requires key in p.bps
    ensures var left := ActionsLeft(p.bps[key].actions, asks);
      ExecPending(isa, Stop(p, cpu, Some(key)), asks) ==
        if left == [] then Resumed(Destroy(p.(bps := p.bps - {key}), key.addr, p.bps[key].count, ALL_GOOD), cpu, 0)
        else Reenable(isa, p.(bps := p.bps[key := p.bps[key].(actions := left)]), key, cpu)
  {
  }

  /** Enabling again: the displaced instruction is executed as it was, once, and the trap is back. */
  lemma ReenableShape<D>(isa: Isa<D>, q: Proc, image: Image, sites: set<nat>, key: Key, cpu: Cpu<D>)
    requires GoodSite(image, sites, cpu.pc) && RunsNatively(isa, image, sites, cpu)
    requires key in q.bps && q.bps[key].count == 0 && key.addr == cpu.pc && key.addr in sites
    requires Consistent(q.space, image, sites) && key.addr !in Enabled(q.space.phys)
    ensures var r := Reenable(isa, q, key, cpu);
      && r == Resumed(r.proc, Execute(isa, image, cpu), 1)
      && r.proc.bps == q.bps[key := q.bps[key].(count := 1)]
      && Consistent(r.proc.space, image, sites) && Enabled(r.proc.space.phys) == Enabled(q.space.phys) + {key.addr}
  {
    assert Overlaid(q.space.mem, image, Enabled(q.space.phys));
    AdjustOwnTrap(q, image, sites, key, true);
  }

  /** The breakpoint at hand has been disabled and none of its actions is left: it is forgotten. */
  lemma AfterLastAction<D>(isa: Isa<D>, p: Proc, cpu: Cpu<D>, key: Key, stopped: Proc, asks: seq<bool>)
    requires key in p.bps && stopped.bps == p.bps[key := p.bps[key].(count := 0)]
    requires ActionsLeft(p.bps[key].actions, asks) == []
    ensures var r := ExecPending(isa, Stop(stopped, cpu, Some(key)), asks);
      Tell(r) == Told(p.bps - {key}, cpu, 0) && r.proc.space == stopped.space
  {
    ExecPendingCases(isa, stopped, key, cpu, asks);
    assert stopped.bps - {key} == p.bps - {key};
  }

  /** Some are left: the displaced instruction is executed as it was, once, and the trap is back. */
  lemma AfterActions<D>(
    isa: Isa<D>, p: Proc, image: Image, sites: set<nat>, cpu: Cpu<D>, key: Key, stopped: Proc, asks: seq<bool>)
    requires GoodSite(image, sites, cpu.pc) && cpu.pc in sites && RunsNatively(isa, image, sites, cpu)
    requires key in p.bps && key.addr == cpu.pc && stopped.bps == p.bps[key := p.bps[key].(count := 0)]
    requires Consistent(stopped.space, image, sites) && key.addr !in Enabled(stopped.space.phys)
    requires ActionsLeft(p.bps[key].actions, asks) != []
    ensures var left := ActionsLeft(p.bps[key].actions, asks);
      var r := ExecPending(isa, Stop(stopped, cpu, Some(key)), asks);
      && Tell(r) == Told(p.bps[key := Bp(1, left)], Execute(isa, image, cpu), 1)
      && Consistent(r.proc.space, image, sites)
      && Enabled(r.proc.space.phys) == Enabled(stopped.space.phys) + {key.addr}
  {
    var left := ActionsLeft(p.bps[key].actions, asks);
    ExecPendingCases(isa, stopped, key, cpu, asks);
    Overwritten(p.bps, key, p.bps[key].(count := 0), Bp(0, left));
    Overwritten(p.bps, key, Bp(0, left), Bp(1, left));
    ReenableShape(isa, stopped.(bps := p.bps[key := Bp(0, left)]), image, sites, key, cpu);
  }

  lemma Overwritten(bps: map<Key, Bp>, key: Key, a: Bp, b: Bp)
    ensures bps[key := a][key := b] == bps[key := b]
  {
  }

  /** What the thread goes through at a trap does what it should, to the breakpoint that was hit and to no other. */
  lemma HitDoesExpected<D>(
    isa: Isa<D>, p: Proc, image: Image, sites: set<nat>, me: nat, cpu: Cpu<D>, asks: seq<bool>, key: Key)
    requires GoodSite(image, sites, cpu.pc) && Debuggable(p, image, sites, me) && RunsNatively(isa, image, sites, cpu)
    requires key in p.bps && key.addr == cpu.pc && p.bps[key].count == 1 && Lookup(p, me, cpu.pc) == Some(key)
    ensures var left := ActionsLeft(p.bps[key].actions, asks);
      var r := ExecPending(isa, TryBreakPoints(p, me, cpu.(pc := cpu.pc + 1)), asks);
      && Consistent(r.proc.space, image, sites)
      && if left == [] then
           Tell(r) == Told(p.bps - {key}, cpu, 0) && Enabled(r.proc.space.phys) == Enabled(p.space.phys) - {key.addr}
         else
           && Tell(r) == Told(p.bps[key := Bp(1, left)], Execute(isa, image, cpu), 1)
           && Enabled(r.proc.space.phys) == Enabled(p.space.phys)
  {
    var stop := TryBreakPoints(p, me, cpu.(pc := cpu.pc + 1));
    assert key.addr in EnabledSites(p.bps);
    AdjustOwnTrap(p, image, sites, key, false);
    assert stop == Stop(AdjustBp(p, key, false, ALL_GOOD), cpu, Some(key));
    if ActionsLeft(p.bps[key].actions, asks) == [] {
      AfterLastAction(isa, p, cpu, key, stop.proc, asks);
    } else {
      AfterActions(isa, p, image, sites, cpu, key, stop.proc, asks);
      assert Enabled(p.space.phys) - {key.addr} + {key.addr} == Enabled(p.space.phys);
    }
  }

  /** A resumption does what it should, and the traps in the code are again those of the enabled breakpoints. */
  ghost predicate Transparent<D>(
    isa: Isa<D>, p: Proc, image: Image, sites: set<nat>, me: nat, cpu: Cpu<D>, asks: seq<bool>, r: Resumed<D>)
  {
    Debuggable(r.proc, image, sites, me) && Tell(r) == Expected(isa, image, me, p.bps, cpu, asks)
  }

  lemma RearmedIsDebuggable(p: Proc, image: Image, sites: set<nat>, me: nat, key: Key, q: Proc, left: seq<Action>)
    requires Debuggable(p, image, sites, me) && key in p.bps && p.bps[key].count == 1
    requires Consistent(q.space, image, sites) && Enabled(q.space.phys) == Enabled(p.space.phys)
    requires q.bps == p.bps[key := Bp(1, left)]
    ensures Debuggable(q, image, sites, me)
  {
  }

  lemma ErasedIsDebuggable(p: Proc, image: Image, sites: set<nat>, me: nat, key: Key, q: Proc)
    requires Debuggable(p, image, sites, me) && key in p.bps
    requires Consistent(q.space, image, sites) && Enabled(q.space.phys) == Enabled(p.space.phys) - {key.addr}
    requires q.bps == p.bps - {key}
    ensures Debuggable(q, image, sites, me)
  {
    SitesWithout(p.bps, q.bps, key);
  }

  lemma HitAtIsUnique(bps: map<Key, Bp>, sites: set<nat>, me: nat, key: Key)
    requires Visible(bps, sites, me) && key in bps && bps[key].count == 1
    ensures HitAt(bps, me, key.addr) == Some(key)
  {
  }

  /**
   * One hit: `key` is the breakpoint the thread stands on. With actions left the displaced instruction
   * is executed exactly once and the breakpoint ends patched with count one; with none left it is
   * forgotten, its trap gone, and nothing executed.
   */
  lemma HitIsTransparent<D>(
    isa: Isa<D>, p: Proc, image: Image, sites: set<nat>, me: nat, cpu: Cpu<D>, asks: seq<bool>) returns (key: Key)
    requires GoodSite(image, sites, cpu.pc) && Debuggable(p, image, sites, me) && RunsNatively(isa, image, sites, cpu)
    requires cpu.pc in Enabled(p.space.phys)
    ensures key in p.bps && key.addr == cpu.pc && p.bps[key].count == 1
    ensures var left := ActionsLeft(p.bps[key].actions, asks);
      var r := ExecPending(isa, TryBreakPoints(p, me, cpu.(pc := cpu.pc + 1)), asks);
      && Debuggable(r.proc, image, sites, me)
      && (left == [] ==> Tell(r) == Told(p.bps - {key}, cpu, 0) && cpu.pc !in Enabled(r.proc.space.phys))
      && (left != [] ==>
            && Tell(r) == Told(p.bps[key := Bp(1, left)], Execute(isa, image, cpu), 1)
            && cpu.pc in Enabled(r.proc.space.phys))
      && Transparent(isa, p, image, sites, me, cpu, asks, r)
  {
    key := LookupFindsTheBreakPoint(p, image, sites, me, cpu.pc);
    HitDoesExpected(isa, p, image, sites, me, cpu, asks, key);
    HitAtIsUnique(p.bps, sites, me, key);
    var left := ActionsLeft(p.bps[key].actions, asks);
    var r := ExecPending(isa, TryBreakPoints(p, me, cpu.(pc := cpu.pc + 1)), asks);
    if left == [] {
      ErasedIsDebuggable(p, image, sites, me, key, r.proc);
    } else {
      RearmedIsDebuggable(p, image, sites, me, key, r.proc, left);
    }
  }

  // ----- which actions a hit leaves -----

  ghost predicate NoneAsks(asks: seq<bool>) {
    forall i :: 0 <= i < |asks| ==> !asks[i]
  }

  lemma ActionsLeftAre(actions: seq<Action>, asks: seq<bool>)
    ensures |asks| == |actions| && NoneOverruns(asks, 0) ==> ActionsLeft(actions, asks) == Unstruck(actions, asks, 0)
    ensures |asks| == |actions| && AtMostOne(asks) ==> ActionsLeft(actions, asks) == SurvivorsFrom(actions, asks, 0)
    ensures NoneAsks(asks) ==> ActionsLeft(actions, asks) == actions
  {
    if |asks| == |actions| {
      PassLeaves(actions, asks);
      if AtMostOne(asks) { FewRequests(actions, asks); }
    }
  }

  /**
   * What one hit leaves of the breakpoint that was hit, in terms of its actions and of what they asked:
   * the actions that no request strikes, in their order. With no request that is every action, and with
   * one it is every action but the one that asked.
   */
  lemma HitLeaves<D>(
    isa: Isa<D>, p: Proc, image: Image, sites: set<nat>, me: nat, cpu: Cpu<D>, asks: seq<bool>, key: Key)
    requires GoodSite(image, sites, cpu.pc) && Debuggable(p, image, sites, me) && RunsNatively(isa, image, sites, cpu)
    requires key in p.bps && key.addr == cpu.pc && p.bps[key].count == 1
    requires |asks| == |p.bps[key].actions| && NoneOverruns(asks, 0)
    ensures var actions := p.bps[key].actions;
      var left := Unstruck(actions, asks, 0);
      var r := ExecPending(isa, TryBreakPoints(p, me, cpu.(pc := cpu.pc + 1)), asks);
      && (left == [] ==> r.proc.bps == p.bps - {key} && r.cpu == cpu && r.executed == 0)
      && (left != [] ==>
            r.proc.bps == p.bps[key := Bp(1, left)] && r.cpu == Execute(isa, image, cpu) && r.executed == 1)
      && (NoneAsks(asks) ==> left == actions)
      && (AtMostOne(asks) ==>
            forall f :: 0 <= f < |asks| && asks[f] ==> left == actions[..f] + actions[f + 1..])
  {
    var actions := p.bps[key].actions;
    assert cpu.pc in EnabledSites(p.bps);
    var hit := HitIsTransparent(isa, p, image, sites, me, cpu, asks);
    assert hit == key;
    ActionsLeftAre(actions, asks);
    if AtMostOne(asks) { FewRequests(actions, asks); }
  }

  // ----- one resumption -----

  lemma RunnableRunsNatively<D>(isa: Isa<D>, image: Image, sites: set<nat>, cpu: Cpu<D>)
    requires DecodesLocally(isa) && Runnable(isa, image, sites, cpu)
    ensures RunsNatively(isa, image, sites, cpu)
  {
    forall mem, on | Overlaid(mem, image, on) && on <= sites && cpu.pc !in on
      ensures Execute(isa, mem, cpu) == Execute(isa, image, cpu)
    {
      UnpatchedExecutesNatively(isa, mem, image, sites, on, cpu);
    }
  }

  lemma NoHitAt(p: Proc, image: Image, sites: set<nat>, me: nat, pc: nat)
    requires Debuggable(p, image, sites, me) && pc !in Enabled(p.space.phys)
    ensures HitAt(p.bps, me, pc) == None
  {
  }

  lemma ResumeAtSite<D>(isa: Isa<D>, p: Proc, image: Image, sites: set<nat>, me: nat, cpu: Cpu<D>, asks: seq<bool>)
    requires Debuggable(p, image, sites, me) && RunsNatively(isa, image, sites, cpu)
    requires cpu.pc < |image| && image[cpu.pc] != BREAK_OPCODE && (cpu.pc in sites ==> GoodSite(image, sites, cpu.pc))
    ensures Transparent(isa, p, image, sites, me, cpu, asks, Resume(isa, p, me, cpu, asks))
  {
    assert p.space.mem[cpu.pc] == if cpu.pc in Enabled(p.space.phys) then BREAK_OPCODE else image[cpu.pc];
    if cpu.pc in Enabled(p.space.phys) {
      var _ := HitIsTransparent(isa, p, image, sites, me, cpu, asks);
    } else {
      NoHitAt(p, image, sites, me, cpu.pc);
      assert Overlaid(p.space.mem, image, Enabled(p.space.phys));
    }
  }

  lemma ResumeIsTransparent<D>(isa: Isa<D>, p: Proc, image: Image, sites: set<nat>, me: nat, cpu: Cpu<D>,
                               asks: seq<bool>)
    requires DecodesLocally(isa) && GoodSites(image, sites)
    requires Debuggable(p, image, sites, me) && Runnable(isa, image, sites, cpu)
    ensures Transparent(isa, p, image, sites, me, cpu, asks, Resume(isa, p, me, cpu, asks))
  {
    RunnableRunsNatively(isa, image, sites, cpu);
    ResumeAtSite(isa, p, image, sites, me, cpu, asks);
  }

  // ----- any number of resumptions -----

  lemma {:induction false} RunnableForFewer<D>(isa: Isa<D>, image: Image, sites: set<nat>, cpu: Cpu<D>, n: nat)
    requires 0 < n && RunnableFor(isa, image, sites, cpu, n)
    ensures RunnableFor(isa, image, sites, cpu, n - 1)
    decreases n
  {
    if n > 1 { RunnableForFewer(isa, image, sites, Execute(isa, image, cpu), n - 1); }
  }

  /** At most one instruction of the original program has been executed. */
  ghost predicate AtMostOneStep<D>(isa: Isa<D>, image: Image, cpu: Cpu<D>, t: Told<D>) {
    t.executed <= 1 && t.cpu == if t.executed == 1 then Execute(isa, image, cpu) else cpu
  }

  /** Each resumption from a state satisfying the invariant does what is told and keeps the invariant. */
  ghost predicate AlwaysAsTold<D(!new)>(
    step: Resumption<D>, tell: Telling<D>, inv: Proc -> bool, isa: Isa<D>, image: Image, sites: set<nat>)
  {
    forall p: Proc, cpu: Cpu<D>, asks: seq<bool> :: inv(p) && Runnable(isa, image, sites, cpu) ==>
      var r := step(p, cpu, asks);
      inv(r.proc) && Tell(r) == tell(p.bps, cpu, asks) && AtMostOneStep(isa, image, cpu, Tell(r))
  }

  lemma {:induction false} ResumeAllAsTold<D(!new)>(
    step: Resumption<D>, tell: Telling<D>, inv: Proc -> bool, isa: Isa<D>, p: Proc, image: Image, sites: set<nat>,
    cpu: Cpu<D>, scripts: seq<seq<bool>>)
    requires AlwaysAsTold(step, tell, inv, isa, image, sites) && inv(p)
    requires RunnableFor(isa, image, sites, cpu, |scripts|)
    ensures var r := ResumeAll(step, p, cpu, scripts);
      inv(r.proc) && Tell(r) == TellAll(tell, p.bps, cpu, scripts)
    decreases |scripts|
  {
    if scripts != [] {
      var r := step(p, cpu, scripts[0]);
      RunnableForFewer(isa, image, sites, cpu, |scripts|);
      ResumeAllAsTold(step, tell, inv, isa, r.proc, image, sites, r.cpu, scripts[1..]);
    }
  }

  /**
   * Transparency: whatever the actions ask, a debugged program does in any number of resumptions what
   * is expected of it, told without code and traps, and its traps are then those of the breakpoints
   * that are left.
   */
  lemma DebuggingIsTransparent<D(!new)>(
    isa: Isa<D>, p: Proc, image: Image, sites: set<nat>, me: nat, cpu: Cpu<D>, scripts: seq<seq<bool>>)
    requires DecodesLocally(isa) && GoodSites(image, sites) && Debuggable(p, image, sites, me)
    requires RunnableFor(isa, image, sites, cpu, |scripts|)
    ensures var r := DebugRun(isa, p, me, cpu, scripts);
      && Debuggable(r.proc, image, sites, me)
      && Tell(r) == ExpectedRun(isa, image, me, p.bps, cpu, scripts)
      && FaithfulRun(isa, image, p.bps, cpu, |scripts|, Tell(r))
  {
    var step: Resumption<D> := (p', cpu', asks) => Resume(isa, p', me, cpu', asks);
    var tell: Telling<D> := (bps', cpu', asks) => Expected(isa, image, me, bps', cpu', asks);
    var inv := p' => Debuggable(p', image, sites, me);
    forall p', cpu', asks | inv(p') && Runnable(isa, image, sites, cpu')
      ensures var r := step(p', cpu', asks);
        inv(r.proc) && Tell(r) == tell(p'.bps, cpu', asks) && AtMostOneStep(isa, image, cpu', Tell(r))
    {
      ResumeIsTransparent(isa, p', image, sites, me, cpu', asks);
      ExpectedIsFaithful(isa, image, me, p'.bps, cpu', asks);
    }
    ResumeAllAsTold(step, tell, inv, isa, p, image, sites, cpu, scripts);
    ExpectedRunIsFaithful(isa, image, me, p.bps, cpu, scripts);
  }

  // ----- what the expectation comes to -----

  /** Breakpoints that are left keep their count. */
  ghost predicate Kept(bps: map<Key, Bp>, bps': map<Key, Bp>) {
    forall k :: k in bps' ==> k in bps && bps'[k].count == bps[k].count
  }

  lemma ExpectedIsFaithful<D>(isa: Isa<D>, image: Image, me: nat, bps: map<Key, Bp>, cpu: Cpu<D>, asks: seq<bool>)
    ensures var t := Expected(isa, image, me, bps, cpu, asks);
      AtMostOneStep(isa, image, cpu, t) && Kept(bps, t.bps) && |t.bps| == |bps| - 1 + t.executed
  {
    var hit := HitAt(bps, me, cpu.pc);
    if hit.Some? {
      assert (bps - {hit.value}).Keys == bps.Keys - {hit.value};
      assert forall left :: bps[hit.value := Bp(1, left)].Keys == bps.Keys;
    }
  }

  /**
   * What `n` resumptions amount to: the thread has executed the original program so far, one
   * instruction per resumption except for the resumptions that forgot a breakpoint, and the
   * surviving breakpoints are as enabled as they were.
   */
  ghost predicate FaithfulRun<D>(isa: Isa<D>, image: Image, bps: map<Key, Bp>, cpu: Cpu<D>, n: nat, t: Told<D>) {
    && t.cpu == Native(isa, image, cpu, t.executed)
    && t.executed + (|bps| - |t.bps|) == n
    && Kept(bps, t.bps)
  }

  lemma {:induction false} ExpectedRunIsFaithful<D>(
    isa: Isa<D>, image: Image, me: nat, bps: map<Key, Bp>, cpu: Cpu<D>, scripts: seq<seq<bool>>)
    ensures FaithfulRun(isa, image, bps, cpu, |scripts|, ExpectedRun(isa, image, me, bps, cpu, scripts))
    decreases |scripts|
  {
    if scripts != [] {
      var t := Expected(isa, image, me, bps, cpu, scripts[0]);
      ExpectedIsFaithful(isa, image, me, bps, cpu, scripts[0]);
      ExpectedRunIsFaithful(isa, image, me, t.bps, t.cpu, scripts[1..]);
    }
  }

  // ----- runs in which no action asks to go -----

  ghost predicate Quiet(scripts: seq<seq<bool>>) {
    forall i :: 0 <= i < |scripts| ==> NoneAsks(scripts[i])
  }

  ghost predicate AllHaveActions(bps: map<Key, Bp>) {
    forall k :: k in bps ==> bps[k].actions != []
  }

  lemma ExpectedWhenQuiet<D>(isa: Isa<D>, image: Image, me: nat, bps: map<Key, Bp>, cpu: Cpu<D>, asks: seq<bool>)
    requires AllHaveActions(bps) && NoneAsks(asks)
    ensures Expected(isa, image, me, bps, cpu, asks) == Told(bps, Execute(isa, image, cpu), 1)
  {
    var hit := HitAt(bps, me, cpu.pc);
    if hit.Some? {
      ActionsLeftAre(bps[hit.value].actions, asks);
      assert bps[hit.value := bps[hit.value]] == bps;
    }
  }

  lemma {:induction false} ExpectedRunWhenQuiet<D>(
    isa: Isa<D>, image: Image, me: nat, bps: map<Key, Bp>, cpu: Cpu<D>, scripts: seq<seq<bool>>)
    requires AllHaveActions(bps) && Quiet(scripts)
    ensures ExpectedRun(isa, image, me, bps, cpu, scripts) ==
      Told(bps, Native(isa, image, cpu, |scripts|), |scripts|)
    decreases |scripts|
  {
    if scripts != [] {
      ExpectedWhenQuiet(isa, image, me, bps, cpu, scripts[0]);
      ExpectedRunWhenQuiet(isa, image, me, bps, Execute(isa, image, cpu), scripts[1..]);
    }
  }

  /**
   * If no action ever asks to go, any number of resumptions changes no breakpoint: every one keeps its
   * count, all its actions and its trap, and each resumption executes one original instruction.
   */
  lemma QuietRunChangesNothing<D(!new)>(
    isa: Isa<D>, p: Proc, image: Image, sites: set<nat>, me: nat, cpu: Cpu<D>, scripts: seq<seq<bool>>)
    requires DecodesLocally(isa) && GoodSites(image, sites) && Debuggable(p, image, sites, me)
    requires RunnableFor(isa, image, sites, cpu, |scripts|) && AllHaveActions(p.bps) && Quiet(scripts)
    ensures var r := DebugRun(isa, p, me, cpu, scripts);
      && r.proc.bps == p.bps && Enabled(r.proc.space.phys) == Enabled(p.space.phys)
      && r.executed == |scripts| && r.cpu == Native(isa, image, cpu, |scripts|)
  {
    DebuggingIsTransparent(isa, p, image, sites, me, cpu, scripts);
    ExpectedRunWhenQuiet(isa, image, me, p.bps, cpu, scripts);
  }

  // ----- hits outside that order -----

  ghost predicate IsEnabled(p: Proc, key: Key) {
    key in p.bps && p.bps[key].count > 0
  }

  ghost function TakenFor(p: Proc, me: nat, addr: nat): Option<Key> {
    if IsEnabled(p, Key(Global, addr)) then Some(Key(Global, addr))
    else if Key(Global, addr) !in p.bps && IsEnabled(p, Key(PerThread(me), addr)) then Some(Key(PerThread(me), addr))
    else None
  }

  /**
   * A trap is taken for a breakpoint exactly if the global one at its address is enabled, or there is no
   * global one and the thread's own is. A global one that is disabled hides the thread's.
   */
  lemma TakenIff<D>(p: Proc, me: nat, cpu: Cpu<D>)
    ensures var stop := TryBreakPoints(p, me, cpu);
      && (stop.pending.None? ==> stop == Stop(p, cpu, None))
      && stop.pending == if cpu.pc == 0 then None else TakenFor(p, me, cpu.pc - 1)
  {
  }

  /** A trap that no breakpoint is taken for is left to the program, which has executed nothing. */
  lemma OwnTrapIsLeft<D>(isa: Isa<D>, p: Proc, me: nat, cpu: Cpu<D>, asks: seq<bool>)
    requires TryBreakPoints(p, me, cpu).pending.None?
    ensures ExecPending(isa, TryBreakPoints(p, me, cpu), asks) == Resumed(p, cpu, 0)
  {
  }

  /** A thread that an action has moved away is not stepped; the breakpoint is enabled behind it. */
  lemma MovedThreadIsNotStepped<D>(isa: Isa<D>, p: Proc, image: Image, sites: set<nat>, key: Key, cpu: Cpu<D>)
    requires GoodSite(image, sites, key.addr) && key in p.bps && p.bps[key].count == 0 && key.addr in sites
    requires Consistent(p.space, image, sites) && key.addr !in Enabled(p.space.phys) && cpu.pc != key.addr
    ensures var r := Reenable(isa, p, key, cpu);
      && r.cpu == cpu && r.executed == 0 && r.proc.bps == p.bps[key := p.bps[key].(count := 1)]
      && Consistent(r.proc.space, image, sites) && Enabled(r.proc.space.phys) == Enabled(p.space.phys) + {key.addr}
  {
    AdjustOwnTrap(p, image, sites, key, true);
  }

  /** The thread stands on the trap of a global breakpoint. */
  ghost predicate OnTrap<D>(p: Proc, key: Key, cpu: Cpu<D>) {
    && key in p.bps && key == Key(Global, cpu.pc) && p.bps[key].actions != []
    && cpu.pc < |p.space.mem| && p.space.mem[cpu.pc] == BREAK_OPCODE
  }

  /** The process with the count of one breakpoint changed. */
  function Counting(p: Proc, key: Key, count: int): Proc
    requires key in p.bps
  {
    p.(bps := p.bps[key := p.bps[key].(count := count)])
  }

  lemma NestedStop<D>(p: Proc, me: nat, cpu: Cpu<D>, key: Key)
    requires OnTrap(p, key, cpu) && p.bps[key].count >= 2
    ensures TryBreakPoints(p, me, cpu.(pc := cpu.pc + 1)) ==
      Stop(Counting(p, key, p.bps[key].count - 1), cpu, Some(key))
  {
  }

  lemma StillEnabled<D>(isa: Isa<D>, q: Proc, cpu: Cpu<D>, key: Key, asks: seq<bool>)
    requires key in q.bps && q.bps[key].count > 0 && q.bps[key].actions != [] && NoneAsks(asks)
    ensures ExecPending(isa, Stop(q, cpu, Some(key)), asks) == Resumed(q, cpu, 0)
  {
    ActionsLeftAre(q.bps[key].actions, asks);
    ExecPendingCases(isa, q, key, cpu, asks);
    assert q.bps[key := q.bps[key]] == q.bps;
  }

  /** A hit takes back one enable of several: the trap stays, nothing is executed, and nothing enables it again. */
  lemma NestedHit<D>(isa: Isa<D>, p: Proc, me: nat, cpu: Cpu<D>, key: Key, asks: seq<bool>)
    requires OnTrap(p, key, cpu) && p.bps[key].count >= 2 && NoneAsks(asks)
    ensures Resume(isa, p, me, cpu, asks) == Resumed(Counting(p, key, p.bps[key].count - 1), cpu, 0)
  {
    NestedStop(p, me, cpu, key);
    StillEnabled(isa, Counting(p, key, p.bps[key].count - 1), cpu, key, asks);
  }

  /** A breakpoint enabled several times stops the thread that often in one place before it executes anything. */
  lemma {:induction false} EachEnableStopsAgain<D>(
    isa: Isa<D>, p: Proc, me: nat, cpu: Cpu<D>, key: Key, scripts: seq<seq<bool>>)
    requires OnTrap(p, key, cpu) && |scripts| < p.bps[key].count && Quiet(scripts)
    ensures DebugRun(isa, p, me, cpu, scripts) ==
      Resumed(Counting(p, key, p.bps[key].count - |scripts|), cpu, 0)
    decreases |scripts|
  {
    var bp := p.bps[key];
    if scripts == [] {
      assert p.bps[key := bp] == p.bps;
    } else {
      NestedHit(isa, p, me, cpu, key, scripts[0]);
      EachEnableStopsAgain(isa, Counting(p, key, bp.count - 1), me, cpu, key, scripts[1..]);
      Overwritten(p.bps, key, bp.(count := bp.count - 1), bp.(count := bp.count - |scripts|));
    }
  }

  // ----- how a process comes to be debuggable -----

  lemma FreshIsDebuggable(image: Image, sites: set<nat>, me: nat)
    ensures Debuggable(Fresh(image), image, sites, me)
  {
  }

  lemma NewTrap(s: Space, image: Image, sites: set<nat>, addr: nat)
    requires Consistent(s, image, sites) && GoodSite(image, sites, addr) && addr in sites && addr !in Enabled(s.phys)
    ensures var adj := Adjust(s, addr, 0, true, ALL_GOOD);
      && adj.outcome == Returned(true) && adj.count == 1
      && Consistent(adj.space, image, sites) && Enabled(adj.space.phys) == Enabled(s.phys) + {addr}
  {
    EnableSoftwareKeepsConsistent(s, image, sites, addr, true, ALL_GOOD);
    UnpatchedWordIsOriginal(s, image, sites, addr);
  }

  lemma SitesWithNew(bps: map<Key, Bp>, key: Key, actions: seq<Action>)
    requires key !in bps
    ensures EnabledSites(bps[key := Bp(1, actions)]) == EnabledSites(bps) + {key.addr}
  {
    var bps' := bps[key := Bp(1, actions)];
    assert key in bps' && bps'[key].count == 1;
    assert forall k :: k in bps ==> k in bps' && bps'[k] == bps[k];
  }

  /** Setting a breakpoint where there is none patches its site and keeps the process debuggable. */
  lemma SetIsDebuggable(p: Proc, image: Image, sites: set<nat>, me: nat, key: Key, action: Action)
    requires Debuggable(p, image, sites, me) && GoodSite(image, sites, key.addr) && key.addr in sites
    requires key.scope.Global? || key.scope == PerThread(me)
    requires forall k :: k in p.bps ==> k.addr != key.addr
    ensures var (outcome, q) := SetBreakPoint(p, key, action, ALL_GOOD);
      && outcome == Returned(true) && Debuggable(q, image, sites, me)
      && q.bps == p.bps[key := Bp(1, [action])] && key.addr in Enabled(q.space.phys)
  {
    assert key.addr !in EnabledSites(p.bps);
    NewTrap(p.space, image, sites, key.addr);
    SitesWithNew(p.bps, key, [action]);
  }
}
