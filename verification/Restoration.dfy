/** What runs of the breakpoint manager guarantee about the debuggee's code, and exactly when. */
module Restoration {
  import opened CodeMemory
  import opened PhysicalBreakPoints
  import opened LogicalBreakPoints

  /** No breakpoint object, alive or destroyed, holds a positive count. */
  ghost predicate Settled(p: Proc) {
    p.leaked == {} && forall k :: k in p.bps ==> p.bps[k].count <= 0
  }

  /** After any run, however breakpoints share addresses, every known word reads as its record says. */
  lemma PatchedWords(image: Image, sites: set<nat>, ops: seq<Op>, a: nat)
    requires Separated(sites) && Within(ops, sites)
    requires a in Run(Fresh(image), ops).space.phys && Mapped(image, a)
    ensures var s := Run(Fresh(image), ops).space;
      && |s.mem| == |image|
      && (s.phys[a].enabled ==>
            s.phys[a].origCode == ReadWord(image, a) && ReadWord(s.mem, a) == TrapForm(s.phys[a].origCode))
      && (!s.phys[a].enabled && s.phys[a].origCode != ZERO_WORD ==>
            s.phys[a].origCode == ReadWord(image, a) && ReadWord(s.mem, a) == s.phys[a].origCode)
  {
    FreshIsSound(image, sites);
    RunKeeps(Fresh(image), image, sites, ops);
    var s := Run(Fresh(image), ops).space;
    if s.phys[a].enabled {
      assert a in Enabled(s.phys);
      forall i: nat | a < i < a + WORD_SIZE ensures s.mem[i] == image[i] {
        assert i !in sites;
      }
      assert ReadWord(s.mem, a)[1..] == ReadWord(image, a)[1..];
      var t, w := TrapForm(ReadWord(image, a)), ReadWord(s.mem, a);
      assert w == [w[0]] + w[1..] && t == [t[0]] + t[1..];
    } else {
      assert a !in Enabled(s.phys);
      UnpatchedWordIsOriginal(s, image, sites, a);
    }
  }

  lemma SettledIsClean(p: Proc, image: Image, sites: set<nat>)
    requires Sound(p, image, sites) && Settled(p)
    ensures p.space.mem == image
  {
  }

  /** Full restoration: once nothing is enabled any more, the code is the original image. */
  lemma Restored(image: Image, sites: set<nat>, ops: seq<Op>)
    requires Separated(sites) && Within(ops, sites) && Settled(Run(Fresh(image), ops))
    ensures Run(Fresh(image), ops).space.mem == image
  {
    FreshIsSound(image, sites);
    RunKeeps(Fresh(image), image, sites, ops);
    SettledIsClean(Run(Fresh(image), ops), image, sites);
  }

  // ----- sites closer than one word -----

  const SOME_ACTION := Action("", 0)

  function SetAt(addr: nat): Op { Set(Key(Global, addr), SOME_ACTION, ALL_GOOD) }
  function DisableAt(addr: nat): Op { Disable(Key(Global, addr), ALL_GOOD) }

  /** A site at which a trap can be set and taken out again, and makes a visible difference. */
  ghost predicate Usable(image: Image, a: nat) {
    Mapped(image, a) && ReadWord(image, a) != ZERO_WORD && image[a] != BREAK_OPCODE
  }

  lemma RunCons(p: Proc, op: Op, rest: seq<Op>)
    ensures Run(p, [op] + rest) == Run(Step(p, op), rest)
  {
  }

  /** Setting the first breakpoint at an address, and disabling a breakpoint that is enabled once. */
  lemma FirstSet(p: Proc, key: Key)
    requires key !in p.bps && key.addr !in p.space.phys && Mapped(p.space.mem, key.addr)
    ensures var w := ReadWord(p.space.mem, key.addr);
      Step(p, Set(key, SOME_ACTION, ALL_GOOD)) ==
        Proc(Space(WriteWord(p.space.mem, key.addr, TrapForm(w)), p.space.phys[key.addr := Physical(w, true)]),
             p.bps[key := Bp(1, [SOME_ACTION])], p.leaked)
  {
  }

  lemma LastDisable(p: Proc, key: Key, w: Word, actions: seq<Action>)
    requires key in p.bps && p.bps[key] == Bp(1, actions) && Mapped(p.space.mem, key.addr)
    requires key.addr in p.space.phys && p.space.phys[key.addr] == Physical(w, true) && w != ZERO_WORD
    ensures Step(p, Disable(key, ALL_GOOD)) ==
        Proc(Space(WriteWord(p.space.mem, key.addr, w), p.space.phys[key.addr := Physical(w, false)]),
             p.bps[key := Bp(0, actions)], p.leaked)
  {
  }

  /** The word saved for the lower of two close sites contains the trap of the upper one. */
  lemma OverlapSets(image: Image, a: nat, b: nat) returns (p: Proc, wa: Word)
    requires a < b < a + WORD_SIZE && Usable(image, a) && Usable(image, b)
    ensures p == Step(Step(Fresh(image), SetAt(b)), SetAt(a)) && wa[b - a] == BREAK_OPCODE
    ensures |p.space.mem| == |image| && p.leaked == {}
    ensures p.space.phys == map[b := Physical(ReadWord(image, b), true), a := Physical(wa, true)]
    ensures p.bps == map[Key(Global, b) := Bp(1, [SOME_ACTION]), Key(Global, a) := Bp(1, [SOME_ACTION])]
  {
    var p1 := Step(Fresh(image), SetAt(b));
    FirstSet(Fresh(image), Key(Global, b));
    FirstSet(p1, Key(Global, a));
    p, wa := Step(p1, SetAt(a)), ReadWord(p1.space.mem, a);
    assert wa[b - a] == TrapForm(ReadWord(image, b))[0];
  }

  lemma OverlapDisables(p: Proc, a: nat, b: nat, wa: Word, wb: Word)
    requires a < b < a + WORD_SIZE && Mapped(p.space.mem, b) && wa[b - a] == BREAK_OPCODE && wb != ZERO_WORD
    requires p.leaked == {}
    requires p.space.phys == map[b := Physical(wb, true), a := Physical(wa, true)]
    requires p.bps == map[Key(Global, b) := Bp(1, [SOME_ACTION]), Key(Global, a) := Bp(1, [SOME_ACTION])]
    ensures var q := Step(Step(p, DisableAt(b)), DisableAt(a));
      Settled(q) && |q.space.mem| == |p.space.mem| && q.space.mem[b] == BREAK_OPCODE
  {
  }

  lemma RunFour(p: Proc, o1: Op, o2: Op, o3: Op, o4: Op) returns (ops: seq<Op>)
    ensures Run(p, ops) == Step(Step(Step(Step(p, o1), o2), o3), o4)
    ensures forall i :: 0 <= i < |ops| ==> ops[i] in {o1, o2, o3, o4}
  {
    ops := [o1] + ([o2] + ([o3] + ([o4] + [])));
    RunCons(p, o1, [o2] + ([o3] + ([o4] + [])));
    RunCons(Step(p, o1), o2, [o3] + ([o4] + []));
    RunCons(Step(Step(p, o1), o2), o3, [o4] + []);
    RunCons(Step(Step(Step(p, o1), o2), o3), o4, []);
  }

  lemma OverlapRun(image: Image, a: nat, b: nat) returns (ops: seq<Op>)
    requires a < b < a + WORD_SIZE && Usable(image, a) && Usable(image, b)
    ensures Within(ops, {a, b})
    ensures var p := Run(Fresh(image), ops);
      Settled(p) && |p.space.mem| == |image| && p.space.mem[b] == BREAK_OPCODE
  {
    var p, wa := OverlapSets(image, a, b);
    OverlapDisables(p, a, b, wa, ReadWord(image, b));
    ops := RunFour(Fresh(image), SetAt(b), SetAt(a), DisableAt(b), DisableAt(a));
  }

  ghost predicate AlwaysRestores(image: Image, sites: set<nat>) {
    forall ops :: Within(ops, sites) && Settled(Run(Fresh(image), ops)) ==> Run(Fresh(image), ops).space.mem == image
  }

  lemma CloseSitesDoNotRestore(image: Image, sites: set<nat>, a: nat, b: nat)
    requires a in sites && b in sites && a < b < a + WORD_SIZE && Usable(image, a) && Usable(image, b)
    ensures !AlwaysRestores(image, sites)
  {
    var ops := OverlapRun(image, a, b);
    assert Within(ops, sites);
    assert Run(Fresh(image), ops).space.mem[b] != image[b];
  }

  /** Restoration is guaranteed exactly when the sites are a word or more apart. */
  lemma RestoresIffSeparated(image: Image, sites: set<nat>)
    requires forall a :: a in sites ==> Usable(image, a)
    ensures AlwaysRestores(image, sites) <==> Separated(sites)
  {
    if Separated(sites) {
      forall ops | Within(ops, sites) && Settled(Run(Fresh(image), ops))
        ensures Run(Fresh(image), ops).space.mem == image
      {
        Restored(image, sites, ops);
      }
    } else {
      var a, b :| a in sites && b in sites && a < b && !(a + WORD_SIZE <= b);
      CloseSitesDoNotRestore(image, sites, a, b);
    }
  }

  // ----- code words that are zero -----

  /**
   * A zero word looks "not read yet": setting a breakpoint there works, but taking it out throws,
   * so set-then-disable gives the code back exactly when the word is not zero.
   */
  lemma UndoneIffNonZero(image: Image, a: nat)
    requires Mapped(image, a)
    ensures var p := Step(Step(Fresh(image), SetAt(a)), DisableAt(a));
      && (Settled(p) && p.space.mem == image <==> ReadWord(image, a) != ZERO_WORD)
      && (ReadWord(image, a) == ZERO_WORD ==>
            p.bps[Key(Global, a)].count == 1 && p.space.mem == WriteWord(image, a, TrapForm(ZERO_WORD)))
  {
    var k, w, p0 := Key(Global, a), ReadWord(image, a), Fresh(image);
    FirstSet(p0, k);
    var p1 := Step(p0, SetAt(a));
    var p2 := Step(p1, DisableAt(a));
    if w != ZERO_WORD {
      LastDisable(p1, k, w, [SOME_ACTION]);
      assert p2.space.mem == image;
    } else {
      assert p2.bps[k].count == 1 && p2.space.mem == p1.space.mem;
    }
  }

  // ----- several logical breakpoints at one address -----

  /** Every enabled breakpoint has its trap in the code. */
  ghost predicate Armed(p: Proc) {
    forall k :: k in p.bps && p.bps[k].count > 0 ==> k.addr in Enabled(p.space.phys)
  }

  ghost predicate OnePerAddress(keys: set<Key>) {
    forall k, l :: k in keys && l in keys && k.addr == l.addr ==> k == l
  }

  ghost predicate Using(ops: seq<Op>, keys: set<Key>) {
    forall i :: 0 <= i < |ops| ==> ops[i].key in keys
  }

  lemma AdjustArms(s: Space, addr: nat, count: int, up: bool, io: Io)
    requires count > 0 ==> addr in Enabled(s.phys)
    ensures var adj := Adjust(s, addr, count, up, io);
      && (adj.count > 0 ==> addr in Enabled(adj.space.phys))
      && Enabled(adj.space.phys) - {addr} == Enabled(s.phys) - {addr}
  {
  }

  lemma StepArms(p: Proc, keys: set<Key>, op: Op)
    requires Armed(p) && OnePerAddress(keys) && p.bps.Keys <= keys && op.key in keys
    ensures Armed(Step(p, op)) && Step(p, op).bps.Keys <= keys
  {
    var key, q := op.key, Step(p, op);
    var count := if key in p.bps then p.bps[key].count else 0;
    assert Enabled(q.space.phys) - {key.addr} == Enabled(p.space.phys) - {key.addr}
        && (key in q.bps && q.bps[key].count > 0 ==> key.addr in Enabled(q.space.phys)) by {
      AdjustArms(p.space, key.addr, count, op.Set? || op.Enable? || (op.Unmanage? && count > 0), op.io);
      var adj := Adjust(p.space, key.addr, count, op.Set? || op.Enable? || (op.Unmanage? && count > 0), op.io);
      AdjustArms(adj.space, key.addr, adj.count, false, if op.Remove? then op.ioDestroy else op.io);
    }
    forall k | k in q.bps && q.bps[k].count > 0 ensures k.addr in Enabled(q.space.phys) {
      if k != key {
        assert k in p.bps && p.bps[k].count > 0;
        assert k.addr in Enabled(p.space.phys) - {key.addr};
      }
    }
  }

  lemma {:induction false} RunArms(p: Proc, keys: set<Key>, ops: seq<Op>)
    requires Armed(p) && OnePerAddress(keys) && p.bps.Keys <= keys && Using(ops, keys)
    ensures Armed(Run(p, ops))
    decreases |ops|
  {
    if ops != [] {
      StepArms(p, keys, ops[0]);
      RunArms(Step(p, ops[0]), keys, ops[1..]);
    }
  }

  /** The record is not reference counted: disabling one of two breakpoints disarms the other. */
  lemma SharedRun(image: Image, k: Key, l: Key) returns (ops: seq<Op>)
    requires k != l && k.addr == l.addr && Usable(image, k.addr)
    ensures Using(ops, {k, l}) && !Armed(Run(Fresh(image), ops))
  {
    ops := [Set(k, SOME_ACTION, ALL_GOOD)] + ([Set(l, SOME_ACTION, ALL_GOOD)] + ([Disable(k, ALL_GOOD)] + []));
    var a, w, p0 := k.addr, ReadWord(image, k.addr), Fresh(image);
    FirstSet(p0, k);
    var p1 := Step(p0, Set(k, SOME_ACTION, ALL_GOOD));
    var p2 := Step(p1, Set(l, SOME_ACTION, ALL_GOOD));
    assert p2.space == p1.space && p2.bps == p1.bps[l := Bp(1, [SOME_ACTION])];
    LastDisable(p2, k, w, [SOME_ACTION]);
    var p3 := Step(p2, Disable(k, ALL_GOOD));
    assert p3.bps[l].count == 1 && a !in Enabled(p3.space.phys);
    RunCons(p0, Set(k, SOME_ACTION, ALL_GOOD), [Set(l, SOME_ACTION, ALL_GOOD)] + ([Disable(k, ALL_GOOD)] + []));
    RunCons(p1, Set(l, SOME_ACTION, ALL_GOOD), [Disable(k, ALL_GOOD)] + []);
    RunCons(p2, Disable(k, ALL_GOOD), []);
  }

  ghost predicate AlwaysArmed(image: Image, keys: set<Key>) {
    forall ops :: Using(ops, keys) ==> Armed(Run(Fresh(image), ops))
  }

  /** "Enabled means patched" holds in every run exactly when no two breakpoints share an address. */
  lemma ArmedIffOnePerAddress(image: Image, keys: set<Key>)
    requires forall k :: k in keys ==> Usable(image, k.addr)
    ensures AlwaysArmed(image, keys) <==> OnePerAddress(keys)
  {
    if OnePerAddress(keys) {
      forall ops | Using(ops, keys) ensures Armed(Run(Fresh(image), ops)) {
        RunArms(Fresh(image), keys, ops);
      }
    } else {
      var k, l :| k in keys && l in keys && k.addr == l.addr && k != l;
      var ops := SharedRun(image, k, l);
      assert Using(ops, keys);
    }
  }
}
