/** DWARF location expressions: a stack machine, and the expression trees it computes. */
module DwarfExpr {
  import opened Basics

  type Addr = a: int | 0 <= a < U64

  type Small = k: int | 0 <= k < 32

  /** Addition of 64-bit words. */
  function Add(a: Addr, b: Addr): Addr { (a + b) % U64 }

  function Sub(a: Addr, b: Addr): Addr { (a - b) % U64 }

  /** Words add and subtract as numbers do where the result is one, and the two undo each other everywhere. */
  lemma WordArithmetic(a: Addr, b: Addr)
    ensures Add(a, b) == if a + b < U64 then a + b else a + b - U64
    ensures Sub(a, b) == if a >= b then a - b else a - b + U64
    ensures Sub(Add(a, b), b) == a && Add(Sub(a, b), b) == a
  {
    var d := a - b;
    assert d % U64 == if d >= 0 then d else d + U64;
  }

  /** Operands are the 64-bit patterns that the decoder delivers. */
  datatype Op =
    | Address(n: Addr)
    | Literal(k: Small)
    | Deref
    | Dup
    | Register(r: nat)
    | RegisterOffset(r: nat, n: Addr)
    | FrameOffset(n: Addr)
    | PlusConstant(n: Addr)
    | Minus
    | Plus
    | Constant(n: Addr)
    | CallFrameCfa
    | StackValue
    | Piece(n: Addr)
    | Unhandled

  /** The debugged thread as an expression sees it. A read outside of mapped memory throws. */
  datatype Machine = Machine(
    read: Addr -> Option<Addr>,
    reg: nat -> Addr,
    cfa: Addr,
    frameBase: Addr,
    moduleBase: Addr)

  /** The top of the stack comes first. */
  datatype State = Threw(isValue: bool) | State(stack: seq<Addr>, isValue: bool)

  function Step(m: Machine, op: Op, s: State): State
    requires s.State?
  {
    var stack := s.stack;
    match op
    case Address(n) => s.(stack := [Add(n, m.moduleBase)] + stack)
    case Literal(k) => s.(stack := [k] + stack)
    case Deref =>
      if stack == [] then Threw(s.isValue)
      else match m.read(stack[0]) { case None => Threw(s.isValue) case Some(v) => s.(stack := [v] + stack[1..]) }
    case Dup => if stack == [] then Threw(s.isValue) else s.(stack := [stack[0]] + stack)
    case Register(r) => s.(stack := [m.reg(r)] + stack)
    case RegisterOffset(r, n) => s.(stack := [Add(m.reg(r), n)] + stack)
    case FrameOffset(n) => s.(stack := [Add(m.frameBase, n)] + stack)
    case PlusConstant(n) => if stack == [] then Threw(s.isValue) else s.(stack := [Add(stack[0], n)] + stack[1..])
    case Minus => if |stack| < 2 then s else s.(stack := [Sub(stack[1], stack[0])] + stack[2..])
    case Plus => if |stack| < 2 then s else s.(stack := [Add(stack[1], stack[0])] + stack[2..])
    case Constant(n) => s.(stack := [n] + stack)
    case CallFrameCfa => s.(stack := [m.cfa] + stack)
    case StackValue => s.(isValue := true)
    case Piece(_) => s
    case Unhandled => s
  }

  function Run(m: Machine, ops: seq<Op>, s: State): State
    decreases |ops|
  {
    if ops == [] || s.Threw? then s else Run(m, ops[1..], Step(m, ops[0], s))
  }

  /** A frame base of zero means that there is none. */
  function Start(m: Machine): State {
    State(if m.frameBase == 0 then [] else [m.frameBase], false)
  }

  function Result(s: State): Option<Addr> {
    if s.Threw? then None else Some(if s.stack == [] then 0 else s.stack[0])
  }

  function Eval(m: Machine, ops: seq<Op>): Option<Addr> {
    Result(Run(m, ops, Start(m)))
  }

  // ----- expression trees -----

  datatype Expr =
    | Leaf(op: Op)
    | Load(e: Expr)
    | PlusConst(e: Expr, n: Addr)
    | Sum(a: Expr, b: Expr)
    | Difference(a: Expr, b: Expr)

  predicate IsLeaf(op: Op) {
    || op.Address? || op.Literal? || op.Register? || op.RegisterOffset?
    || op.FrameOffset? || op.Constant? || op.CallFrameCfa?
  }

  predicate IsTree(e: Expr) {
    match e
    case Leaf(op) => IsLeaf(op)
    case Load(e1) => IsTree(e1)
    case PlusConst(e1, _) => IsTree(e1)
    case Sum(a, b) => IsTree(a) && IsTree(b)
    case Difference(a, b) => IsTree(a) && IsTree(b)
  }

  function LeafValue(m: Machine, op: Op): Addr {
    match op
    case Address(n) => Add(n, m.moduleBase)
    case Literal(k) => k
    case Register(r) => m.reg(r)
    case RegisterOffset(r, n) => Add(m.reg(r), n)
    case FrameOffset(n) => Add(m.frameBase, n)
    case Constant(n) => n
    case CallFrameCfa => m.cfa
    case _ => 0
  }

  /** What a tree means; nothing if it loads from where nothing can be read. */
  function Value(m: Machine, e: Expr): Option<Addr> {
    match e
    case Leaf(op) => Some(LeafValue(m, op))
    case Load(e1) => (match Value(m, e1) case None => None case Some(v) => m.read(v))
    case PlusConst(e1, n) => (match Value(m, e1) case None => None case Some(v) => Some(Add(v, n)))
    case Sum(a, b) => Both(Value(m, a), Value(m, b), Add)
    case Difference(a, b) => Both(Value(m, a), Value(m, b), Sub)
  }

  function Both(a: Option<Addr>, b: Option<Addr>, f: (Addr, Addr) -> Addr): Option<Addr> {
    if a.None? || b.None? then None else Some(f(a.value, b.value))
  }

  /** The postfix form of a tree. */
  function Compile(e: Expr): seq<Op> {
    match e
    case Leaf(op) => [op]
    case Load(e1) => Compile(e1) + [Deref]
    case PlusConst(e1, n) => Compile(e1) + [PlusConstant(n)]
    case Sum(a, b) => Compile(a) + Compile(b) + [Plus]
    case Difference(a, b) => Compile(a) + Compile(b) + [Minus]
  }

  // ----- the machine computes trees -----

  datatype Symbolic = Underflow | Trees(trees: seq<Expr>)

  /** The machine on trees instead of numbers. */
  function SymStep(op: Op, ts: seq<Expr>): Symbolic {
    if IsLeaf(op) then Trees([Leaf(op)] + ts)
    else
      match op
      case Deref => if ts == [] then Underflow else Trees([Load(ts[0])] + ts[1..])
      case Dup => if ts == [] then Underflow else Trees([ts[0]] + ts)
      case PlusConstant(n) => if ts == [] then Underflow else Trees([PlusConst(ts[0], n)] + ts[1..])
      case Minus => if |ts| < 2 then Trees(ts) else Trees([Difference(ts[1], ts[0])] + ts[2..])
      case Plus => if |ts| < 2 then Trees(ts) else Trees([Sum(ts[1], ts[0])] + ts[2..])
      case _ => Trees(ts)
  }

  function SymRun(ops: seq<Op>, s: Symbolic): Symbolic
    decreases |ops|
  {
    if ops == [] || s.Underflow? then s else SymRun(ops[1..], SymStep(ops[0], s.trees))
  }

  /** The numbers that trees stand for, if all of them stand for one. */
  function Values(m: Machine, ts: seq<Expr>): Option<seq<Addr>> {
    if ts == [] then Some([])
    else
      var v, more := Value(m, ts[0]), Values(m, ts[1..]);
      if v.None? || more.None? then None else Some([v.value] + more.value)
  }

  /** The machine's stack holds what the trees stand for, or it has thrown because one stands for nothing. */
  ghost predicate Stands(m: Machine, s: State, t: Symbolic) {
    if t.Underflow? || Values(m, t.trees).None? then s.Threw?
    else s.State? && s.stack == Values(m, t.trees).value
  }

  lemma {:induction false} ValuesShape(m: Machine, ts: seq<Expr>)
    requires Values(m, ts).Some?
    ensures |Values(m, ts).value| == |ts|
    ensures ts != [] ==> Value(m, ts[0]).Some? && Values(m, ts[1..]).Some?
    ensures ts != [] ==> Values(m, ts).value[0] == Value(m, ts[0]).value
    ensures ts != [] ==> Values(m, ts).value[1..] == Values(m, ts[1..]).value
    decreases |ts|
  {
    if ts != [] {
      ValuesShape(m, ts[1..]);
    }
  }

  lemma ValuesCons(m: Machine, e: Expr, ts: seq<Expr>)
    ensures Values(m, [e] + ts) ==
      if Value(m, e).None? || Values(m, ts).None? then None else Some([Value(m, e).value] + Values(m, ts).value)
  {
  }

  lemma LeafStep(m: Machine, op: Op, s: State)
    requires IsLeaf(op) && s.State?
    ensures Step(m, op, s) == s.(stack := [LeafValue(m, op)] + s.stack)
  {
  }

  /** One operation on numbers does what it does on the trees they come from. */
  lemma StepStands(m: Machine, op: Op, s: State, ts: seq<Expr>)
    requires s.State? && Stands(m, s, Trees(ts))
    ensures Stands(m, Step(m, op, s), SymStep(op, ts))
  {
    ValuesShape(m, ts);
    if IsLeaf(op) {
      LeafStep(m, op, s);
      ValuesCons(m, Leaf(op), ts);
    } else if op.Minus? || op.Plus? {
      if |ts| >= 2 { BinaryStands(m, op, s, ts); }
    } else if ts != [] {
      ValuesCons(m, Load(ts[0]), ts[1..]);
      ValuesCons(m, ts[0], ts);
      if op.PlusConstant? { ValuesCons(m, PlusConst(ts[0], op.n), ts[1..]); }
    }
  }

  lemma BinaryStands(m: Machine, op: Op, s: State, ts: seq<Expr>)
    requires s.State? && Stands(m, s, Trees(ts)) && |ts| >= 2 && (op.Minus? || op.Plus?)
    ensures Stands(m, Step(m, op, s), SymStep(op, ts))
  {
    ValuesShape(m, ts);
    ValuesShape(m, ts[1..]);
    assert ts[1..][1..] == ts[2..];
    ValuesCons(m, if op.Plus? then Sum(ts[1], ts[0]) else Difference(ts[1], ts[0]), ts[2..]);
  }

  /** A tree that stands for nothing is never dropped, so the symbolic run ends with one too. */
  lemma StepKeepsNone(m: Machine, op: Op, ts: seq<Expr>)
    requires Values(m, ts).None?
    ensures SymStep(op, ts).Underflow? || Values(m, SymStep(op, ts).trees).None?
  {
  }

  lemma {:induction false} NoneStays(m: Machine, ops: seq<Op>, t: Symbolic)
    requires t.Underflow? || Values(m, t.trees).None?
    ensures var r := SymRun(ops, t); r.Underflow? || Values(m, r.trees).None?
    decreases |ops|
  {
    if ops != [] && t.Trees? {
      StepKeepsNone(m, ops[0], t.trees);
      NoneStays(m, ops[1..], SymStep(ops[0], t.trees));
    }
  }

  /** Any expression computes the trees that its symbolic run builds, and throws exactly when it builds none. */
  lemma {:induction false} RunComputesTrees(m: Machine, ops: seq<Op>, s: State, t: Symbolic)
    requires Stands(m, s, t)
    ensures Stands(m, Run(m, ops, s), SymRun(ops, t))
    decreases |ops|
  {
    if s.Threw? {
      NoneStays(m, ops, t);
    } else if ops != [] {
      StepStands(m, ops[0], s, t.trees);
      RunComputesTrees(m, ops[1..], Step(m, ops[0], s), SymStep(ops[0], t.trees));
    }
  }

  lemma {:induction false} SymRunSplits(a: seq<Op>, b: seq<Op>, s: Symbolic)
    ensures SymRun(a + b, s) == SymRun(b, SymRun(a, s))
    decreases |a|
  {
    if a == [] {
      assert a + b == b;
    } else if s.Trees? {
      assert (a + b)[1..] == a[1..] + b;
      SymRunSplits(a[1..], b, SymStep(a[0], s.trees));
    }
  }

  lemma SymOne(op: Op, ts: seq<Expr>)
    ensures SymRun([op], Trees(ts)) == SymStep(op, ts)
  {
  }

  lemma UnaryBuilds(e: Expr, op: Op, ts: seq<Expr>)
    requires SymRun(Compile(e), Trees(ts)) == Trees([e] + ts) && (op.Deref? || op.PlusConstant?)
    ensures SymRun(Compile(e) + [op], Trees(ts)) == Trees([if op.Deref? then Load(e) else PlusConst(e, op.n)] + ts)
  {
    SymRunSplits(Compile(e), [op], Trees(ts));
    SymOne(op, [e] + ts);
    assert ([e] + ts)[1..] == ts;
  }

  lemma BinaryBuilds(a: Expr, b: Expr, op: Op, ts: seq<Expr>)
    requires SymRun(Compile(a), Trees(ts)) == Trees([a] + ts)
    requires SymRun(Compile(b), Trees([a] + ts)) == Trees([b] + ([a] + ts)) && (op.Plus? || op.Minus?)
    ensures SymRun(Compile(a) + Compile(b) + [op], Trees(ts)) ==
      Trees([if op.Plus? then Sum(a, b) else Difference(a, b)] + ts)
  {
    SymRunSplits(Compile(a), Compile(b), Trees(ts));
    SymRunSplits(Compile(a) + Compile(b), [op], Trees(ts));
    SymOne(op, [b] + ([a] + ts));
    assert ([b] + ([a] + ts))[2..] == ts;
  }

  /** The symbolic run of a compiled tree puts that tree on top of whatever is there. */
  lemma {:induction false} CompileBuilds(e: Expr, ts: seq<Expr>)
    requires IsTree(e)
    ensures SymRun(Compile(e), Trees(ts)) == Trees([e] + ts)
    decreases e
  {
    match e
    case Leaf(op) => SymOne(op, ts);
    case Load(e1) =>
      CompileBuilds(e1, ts);
      UnaryBuilds(e1, Deref, ts);
    case PlusConst(e1, n) =>
      CompileBuilds(e1, ts);
      UnaryBuilds(e1, PlusConstant(n), ts);
    case Sum(a, b) =>
      CompileBuilds(a, ts);
      CompileBuilds(b, [a] + ts);
      BinaryBuilds(a, b, Plus, ts);
    case Difference(a, b) =>
      CompileBuilds(a, ts);
      CompileBuilds(b, [a] + ts);
      BinaryBuilds(a, b, Minus, ts);
  }

  ghost function StartTrees(m: Machine): seq<Expr> {
    if m.frameBase == 0 then [] else [Leaf(FrameOffset(0))]
  }

  lemma StartStands(m: Machine)
    ensures Stands(m, Start(m), Trees(StartTrees(m)))
  {
  }

  /**
   * A compiled tree evaluates to what the tree means, modulo 2^64, with any frame base, and on any
   * stack it leaves what is below untouched.
   */
  lemma CompiledEvaluates(m: Machine, e: Expr, stack: seq<Addr>)
    requires IsTree(e)
    ensures Eval(m, Compile(e)) == Value(m, e)
    ensures Run(m, Compile(e), State(stack, false)) ==
      if Value(m, e).None? then Threw(false) else State([Value(m, e).value] + stack, false)
  {
    var ts := StartTrees(m);
    StartStands(m);
    CompileBuilds(e, ts);
    RunComputesTrees(m, Compile(e), Start(m), Trees(ts));
    ValuesCons(m, e, ts);
    var below := Constants(stack);
    ConstantsStand(m, stack);
    CompileBuilds(e, below);
    RunComputesTrees(m, Compile(e), State(stack, false), Trees(below));
    ValuesCons(m, e, below);
    CompiledIsNoValue(m, e, State(stack, false));
  }

  function Constants(stack: seq<Addr>): seq<Expr> {
    seq(|stack|, i requires 0 <= i < |stack| => Leaf(Constant(stack[i])))
  }

  lemma {:induction false} ConstantsStand(m: Machine, stack: seq<Addr>)
    ensures Values(m, Constants(stack)) == Some(stack)
    decreases |stack|
  {
    if stack != [] {
      ConstantsStand(m, stack[1..]);
      assert Constants(stack)[1..] == Constants(stack[1..]);
      assert [stack[0]] + stack[1..] == stack;
    }
  }

  lemma {:induction false} PlainRun(m: Machine, ops: seq<Op>, s: State)
    requires forall i :: 0 <= i < |ops| ==> !ops[i].StackValue?
    ensures Run(m, ops, s).isValue == s.isValue
    decreases |ops|
  {
    if ops != [] && s.State? { PlainRun(m, ops[1..], Step(m, ops[0], s)); }
  }

  lemma {:induction false} CompiledIsPlain(e: Expr)
    requires IsTree(e)
    ensures forall i :: 0 <= i < |Compile(e)| ==> !Compile(e)[i].StackValue?
    decreases e
  {
    match e
    case Leaf(_) =>
    case Load(e1) => CompiledIsPlain(e1);
    case PlusConst(e1, _) => CompiledIsPlain(e1);
    case Sum(a, b) =>
      CompiledIsPlain(a);
      CompiledIsPlain(b);
    case Difference(a, b) =>
      CompiledIsPlain(a);
      CompiledIsPlain(b);
  }

  lemma CompiledIsNoValue(m: Machine, e: Expr, s: State)
    requires IsTree(e) && s.State?
    ensures Run(m, Compile(e), s).isValue == s.isValue
  {
    CompiledIsPlain(e);
    PlainRun(m, Compile(e), s);
  }

  // ----- when an expression throws -----

  /** How deep the stack is after an operation, if it finds what it needs. */
  function DepthAfter(op: Op, depth: nat): Option<nat> {
    if IsLeaf(op) then Some(depth + 1)
    else if op.Deref? || op.Dup? || op.PlusConstant? then
      if depth == 0 then None else Some(if op.Dup? then depth + 1 else depth)
    else if op.Plus? || op.Minus? then Some(if depth < 2 then depth else depth - 1)
    else Some(depth)
  }

  function Depth(ops: seq<Op>, depth: nat): Option<nat>
    decreases |ops|
  {
    if ops == [] then Some(depth)
    else match DepthAfter(ops[0], depth) case None => None case Some(d) => Depth(ops[1..], d)
  }

  /** With all memory readable, an expression throws exactly if it empties the stack too early. */
  lemma {:induction false} ThrowsIff(m: Machine, ops: seq<Op>, s: State)
    requires s.State? && forall a :: m.read(a).Some?
    ensures Run(m, ops, s).Threw? <==> Depth(ops, |s.stack|).None?
    ensures Run(m, ops, s).State? ==> |Run(m, ops, s).stack| == Depth(ops, |s.stack|).value
    decreases |ops|
  {
    if ops != [] {
      var next := Step(m, ops[0], s);
      assert next.Threw? <==> DepthAfter(ops[0], |s.stack|).None?;
      if next.State? { ThrowsIff(m, ops[1..], next); }
    }
  }

  lemma DupBuilds(e: Expr, ts: seq<Expr>)
    ensures SymRun([Dup, Plus], Trees([e] + ts)) == Trees([Sum(e, e)] + ts)
  {
    var built := [e] + ts;
    assert [Dup, Plus][1..] == [Plus];
    SymOne(Plus, [e] + built);
    assert ([e] + built)[2..] == ts && ([e] + built)[1] == e;
  }

  /** Duplicating and adding doubles the value. */
  lemma DupDoubles(m: Machine, e: Expr)
    requires IsTree(e)
    ensures Eval(m, Compile(e) + [Dup, Plus]) ==
      match Value(m, e) { case None => None case Some(v) => Some(Add(v, v)) }
  {
    var ts := StartTrees(m);
    StartStands(m);
    CompileBuilds(e, ts);
    SymRunSplits(Compile(e), [Dup, Plus], Trees(ts));
    DupBuilds(e, ts);
    RunComputesTrees(m, Compile(e) + [Dup, Plus], Start(m), Trees(ts));
    ValuesCons(m, Sum(e, e), ts);
  }

  /** An expression that comes to its end gives a value rather than an address exactly if it says so. */
  lemma {:induction false} IsValueIff(m: Machine, ops: seq<Op>, s: State)
    requires s.State? && Run(m, ops, s).State?
    ensures Run(m, ops, s).isValue <==> s.isValue || StackValue in ops
    decreases |ops|
  {
    if ops != [] {
      assert ops == [ops[0]] + ops[1..];
      IsValueIff(m, ops[1..], Step(m, ops[0], s));
    }
  }

  lemma EvaluatedToValueIff(m: Machine, ops: seq<Op>)
    requires Run(m, ops, Start(m)).State?
    ensures Run(m, ops, Start(m)).isValue <==> StackValue in ops
  {
    IsValueIff(m, ops, Start(m));
  }

  /** Operations that only describe, or are not handled, change nothing. */
  lemma {:induction false} IdleOps(m: Machine, ops: seq<Op>, s: State)
    requires forall i :: 0 <= i < |ops| ==> ops[i].Piece? || ops[i].Unhandled?
    ensures Run(m, ops, s) == s
    decreases |ops|
  {
    if ops != [] && s.State? { IdleOps(m, ops[1..], s); }
  }

  // ----- location lists -----

  /** An expression and the range of code it is for, relative to the module and the unit. */
  datatype Range = Range(lo: Addr, hi: Addr, ops: seq<Op>)

  /** A lower bound of zero and the highest upper bound are not relocated. */
  predicate Covers(d: Range, base: Addr, pc: Addr) {
    var lo := if d.lo == 0 then 0 else Add(d.lo, base);
    var hi := if d.hi == U64 - 1 then d.hi else Add(d.hi, base);
    lo <= pc < hi
  }

  /** Where relocation does not wrap around, a range covers what lies between its relocated bounds. */
  lemma CoversBetween(d: Range, base: Addr, pc: Addr)
    requires d.lo + base < U64 && (d.hi == U64 - 1 || d.hi + base < U64)
    ensures d.lo != 0 && d.hi != U64 - 1 ==> (Covers(d, base, pc) <==> d.lo + base <= pc < d.hi + base)
    ensures d.lo == 0 && d.hi != U64 - 1 ==> (Covers(d, base, pc) <==> pc < d.hi + base)
    ensures d.lo != 0 && d.hi == U64 - 1 ==> (Covers(d, base, pc) <==> d.lo + base <= pc < U64 - 1)
    ensures d.lo == 0 && d.hi == U64 - 1 ==> (Covers(d, base, pc) <==> pc < U64 - 1)
  {
  }

  predicate First(list: seq<Range>, base: Addr, pc: Addr, i: nat) {
    i < |list| && Covers(list[i], base, pc) && forall j :: 0 <= j < i ==> !Covers(list[j], base, pc)
  }

  class Location {
    const list: seq<Range>
    var isValue: bool

    constructor (list: seq<Range>)
      ensures this.list == list && !isValue
    {
      this.list := list;
      isValue := false;
    }

    /** The expression of the first range that covers the pc, or zero if none does. */
    method Evaluate(m: Machine, unitBase: Addr, pc: Addr) returns (r: Option<Addr>)
      modifies this
      ensures forall i: nat :: First(list, Add(m.moduleBase, unitBase), pc, i) ==>
        r == Eval(m, list[i].ops) && isValue == Run(m, list[i].ops, Start(m)).isValue
      ensures (forall i :: 0 <= i < |list| ==> !Covers(list[i], Add(m.moduleBase, unitBase), pc)) ==>
        r == Some(0) && !isValue
    {
      isValue := false;
      r := Some(0);
      var base := Add(m.moduleBase, unitBase);
      var i := 0;
      while i < |list|
        invariant 0 <= i <= |list| && !isValue && r == Some(0)
        invariant forall j :: 0 <= j < i ==> !Covers(list[j], base, pc)
      {
        if Covers(list[i], base, pc) {
          assert forall k: nat :: First(list, base, pc, k) ==> k == i;
          var s := RunOps(m, list[i].ops);
          isValue := s.isValue;
          return Result(s);
        }
        i := i + 1;
      }
    }

    static method RunOps(m: Machine, ops: seq<Op>) returns (s: State)
      ensures s == Run(m, ops, Start(m))
    {
      var stack := if m.frameBase == 0 then [] else [m.frameBase];
      var value := false;
      var i := 0;
      while i < |ops|
        invariant 0 <= i <= |ops|
        invariant Run(m, ops, Start(m)) == Run(m, ops[i..], State(stack, value))
      {
        assert ops[i..][0] == ops[i] && ops[i..][1..] == ops[i + 1..];
        match ops[i] {
          case Address(n) => stack := [Add(n, m.moduleBase)] + stack;
          case Literal(k) => stack := [k] + stack;
          case Deref =>
            if stack == [] { return Threw(value); }
            var v := m.read(stack[0]);
            if v.None? { return Threw(value); }
            stack := [v.value] + stack[1..];
          case Dup =>
            if stack == [] { return Threw(value); }
            stack := [stack[0]] + stack;
          case Register(r) => stack := [m.reg(r)] + stack;
          case RegisterOffset(r, n) => stack := [Add(m.reg(r), n)] + stack;
          case FrameOffset(n) => stack := [Add(m.frameBase, n)] + stack;
          case PlusConstant(n) =>
            if stack == [] { return Threw(value); }
            stack := [Add(stack[0], n)] + stack[1..];
          case Minus =>
            if |stack| >= 2 { stack := [Sub(stack[1], stack[0])] + stack[2..]; }
          case Plus =>
            if |stack| >= 2 { stack := [Add(stack[1], stack[0])] + stack[2..]; }
          case Constant(n) => stack := [n] + stack;
          case CallFrameCfa => stack := [m.cfa] + stack;
          case StackValue => value := true;
          case Piece(_) =>
          case Unhandled =>
        }
        i := i + 1;
      }
      return State(stack, value);
    }
  }
}
