/** Unwinding the stack by call frame information, one frame at a time. */
module DwarfUnwind {
  import opened Basics
  import opened DwarfExpr

  /** DWARF numbers of the x86-64 registers that a step recovers. */
  const FP := 6
  const SP := 7
  const PC := 16

  /** How a register of the caller is found. */
  datatype Rule =
    | SameVal
    | Undefined
    | AtOffset(off: Addr)
    | InRegister(r: nat)
    | ValueOffset
    | AtExpression(ops: seq<Op>)
    | ValueExpression(ops: seq<Op>)

  datatype CfaRule = NoCfa | CfaFrom(r: nat, off: Addr)

  datatype Row = Row(cfa: CfaRule, pc: Rule, fp: Rule, sp: Rule)

  /** The rows of the frame section, and the stopped thread. */
  datatype Env = Env(rows: Addr -> Option<Row>, read: Addr -> Option<Addr>, reg: nat -> Addr)

  /** A register carried from frame to frame; one that is not ready is read from the thread. */
  datatype Cell = Cell(ready: bool, value: Addr)

  type Table = t: seq<Cell> | |t| > PC witness seq(PC + 1, _ => Cell(false, 0))

  function Reg(env: Env, t: Table, n: nat): Addr {
    if n < |t| && t[n].ready then t[n].value else env.reg(n)
  }

  function Cfa(env: Env, t: Table, rule: CfaRule): Addr {
    match rule
    case NoCfa => 0
    case CfaFrom(r, off) => Add(Reg(env, t, r), off)
  }

  function NothingReady(): Table {
    seq(PC + 1, _ => Cell(false, 0))
  }

  /** An expression in a rule starts with the CFA on its stack; if it throws its value is zero. */
  function RuleExpr(env: Env, cfa: Addr, ops: seq<Op>): Addr {
    var row := env.rows(0);
    var atZero := if row.None? then 0 else Cfa(env, NothingReady(), row.value.cfa);
    match Eval(Machine(env.read, env.reg, atZero, cfa, 0), ops)
    case None => 0
    case Some(v) => v
  }

  /** The value a rule gives to register `n` of the caller; none if finding it throws. */
  function RuleValue(env: Env, cfa: Addr, t: Table, n: nat, rule: Rule): Option<Addr> {
    match rule
    case SameVal => Some(Reg(env, t, n))
    case Undefined => Some(0)
    case AtOffset(off) => env.read(Add(cfa, off))
    case InRegister(r) => Some(Reg(env, t, r))
    case ValueOffset => None
    case AtExpression(ops) => env.read(RuleExpr(env, cfa, ops))
    case ValueExpression(ops) => Some(RuleExpr(env, cfa, ops))
  }

  datatype Stepped = Broke | Stepped(ret: Addr, table: Table)

  function Restore(env: Env, cfa: Addr, t: Table, n: nat, rule: Rule): Option<Table>
    requires n <= PC
  {
    match RuleValue(env, cfa, t, n, rule)
    case None => None
    case Some(v) => Some(t[n := Cell(true, v)])
  }

  function RestoreFp(env: Env, cfa: Addr, t: Table, rule: Rule): Option<Table> {
    if rule.SameVal? then Some(t) else Restore(env, cfa, t, FP, rule)
  }

  /** Without a rule of its own the stack pointer of the caller is the CFA. */
  function RestoreSp(env: Env, cfa: Addr, t: Table, rule: Rule): Option<Table> {
    if rule.SameVal? then Some(t[SP := t[SP].(value := cfa)]) else Restore(env, cfa, t, SP, rule)
  }

  function RestoreBoth(env: Env, cfa: Addr, t: Table, row: Row): Option<Table> {
    match RestoreFp(env, cfa, t, row.fp)
    case None => None
    case Some(t') => RestoreSp(env, cfa, t', row.sp)
  }

  /** The return address, or zero at the end, and the registers of the caller. */
  function Step(env: Env, pc: Addr, t: Table): Stepped {
    match env.rows(pc)
    case None => Stepped(0, t)
    case Some(row) =>
      var cfa := Cfa(env, t, row.cfa);
      match RuleValue(env, cfa, t, PC, row.pc)
      case None => Broke
      case Some(ret) =>
        var t1 := t[PC := Cell(true, ret)];
        if ret == 0 then Stepped(0, t1)
        else
          match RestoreBoth(env, cfa, t1, row)
          case None => Broke
          case Some(t2) => Stepped(if ret == pc then 0 else ret, t2)
  }

  /** The table that an exception leaves behind: what was recovered before it. */
  function Broken(env: Env, pc: Addr, t: Table): Table {
    match env.rows(pc)
    case None => t
    case Some(row) =>
      var cfa := Cfa(env, t, row.cfa);
      match RuleValue(env, cfa, t, PC, row.pc)
      case None => t
      case Some(ret) =>
        var t1 := t[PC := Cell(true, ret)];
        match RestoreFp(env, cfa, t1, row.fp) case None => t1 case Some(t2) => t2
  }

  // ----- what the rules mean -----

  datatype Frame = Frame(pc: Addr, fp: Addr, sp: Addr)

  function RegOf(env: Env, f: Frame, n: nat): Addr {
    if n == FP then f.fp else if n == SP then f.sp else if n == PC then f.pc else env.reg(n)
  }

  /** The CFA of the code at zero, in the thread's own registers: what an expression finds as its frame's CFA. */
  function LiveCfa(env: Env): Addr {
    match env.rows(0)
    case None => 0
    case Some(row) => match row.cfa { case NoCfa => 0 case CfaFrom(r, off) => Add(env.reg(r), off) }
  }

  /** The thread as an expression in a rule sees it. */
  function Thread(env: Env, cfa: Addr): Machine {
    Machine(env.read, env.reg, LiveCfa(env), cfa, 0)
  }

  /**
   * What an expression means: the value of the topmost of the trees it builds on top of the CFA, in the
   * thread's own registers; zero if it builds none or one of them has no value.
   */
  ghost function ExprMeaning(env: Env, cfa: Addr, ops: seq<Op>): Addr {
    var built := SymRun(ops, Trees(if cfa == 0 then [] else [Leaf(FrameOffset(0))]));
    if built.Underflow? || built.trees == [] || Values(Thread(env, cfa), built.trees).None? then 0
    else Value(Thread(env, cfa), built.trees[0]).value
  }

  lemma RuleExprMeans(env: Env, cfa: Addr, ops: seq<Op>)
    ensures RuleExpr(env, cfa, ops) == ExprMeaning(env, cfa, ops)
  {
    var m := Thread(env, cfa);
    var start := StartTrees(m);
    StartStands(m);
    RunComputesTrees(m, ops, Start(m), Trees(start));
    var built := SymRun(ops, Trees(start));
    if built.Trees? && Values(m, built.trees).Some? { ValuesShape(m, built.trees); }
  }

  /**
   * A rule whose expression is the postfix form of a tree gives the tree's value, or the word stored
   * there; a tree that has no value counts as zero.
   */
  lemma TreeRules(env: Env, cfa: Addr, t: Table, n: nat, e: Expr)
    requires IsTree(e)
    ensures var value := Value(Machine(env.read, env.reg, LiveCfa(env), cfa, 0), e);
      var v := if value.None? then 0 else value.value;
      && RuleValue(env, cfa, t, n, ValueExpression(Compile(e))) == Some(v)
      && RuleValue(env, cfa, t, n, AtExpression(Compile(e))) == env.read(v)
  {
    CompiledEvaluates(Thread(env, cfa), e, []);
  }

  /** Operations that take up the CFA: with a CFA they compute from it, and without one they find nothing. */
  lemma FromCfaRules(env: Env, cfa: Addr, t: Table, n: nat, k: Addr)
    ensures var at := if cfa == 0 then 0 else Add(cfa, k);
      && RuleValue(env, cfa, t, n, ValueExpression([PlusConstant(k)])) == Some(at)
      && RuleValue(env, cfa, t, n, AtExpression([PlusConstant(k)])) == env.read(at)
  {
    var m, op := Thread(env, cfa), PlusConstant(k);
    assert Run(m, [op], Start(m)) == Run(m, [], DwarfExpr.Step(m, op, Start(m))) by {
      assert [op][1..] == [];
    }
  }

  /** A register in an expression is the thread's own, and so the frame's exactly if they are the same. */
  lemma RegisterInExpressionIff(env: Env, cfa: Addr, t: Table, n: nat, f: Frame, r: nat, k: Addr)
    ensures RuleValue(env, cfa, t, n, ValueExpression([RegisterOffset(r, k)])) == Some(Add(RegOf(env, f, r), k)) <==>
      env.reg(r) == RegOf(env, f, r)
  {
    TreeRules(env, cfa, t, n, Leaf(RegisterOffset(r, k)));
    AddCancels(env.reg(r), RegOf(env, f, r), k);
  }

  lemma AddCancels(a: Addr, b: Addr, off: Addr)
    ensures Add(a, off) == Add(b, off) <==> a == b
  {
    var x, y := a + off, b + off;
    assert x % U64 == if x < U64 then x else x - U64;
    assert y % U64 == if y < U64 then y else y - U64;
  }

  /** Every rule speaks about the registers of the frame it is for; in an expression they are the thread's. */
  ghost function Meaning(env: Env, cfa: Addr, f: Frame, n: nat, rule: Rule): Option<Addr> {
    match rule
    case SameVal => Some(RegOf(env, f, n))
    case Undefined => Some(0)
    case AtOffset(off) => env.read(Add(cfa, off))
    case InRegister(r) => Some(RegOf(env, f, r))
    case ValueOffset => None
    case AtExpression(ops) => env.read(ExprMeaning(env, cfa, ops))
    case ValueExpression(ops) => Some(ExprMeaning(env, cfa, ops))
  }

  function CfaOf(env: Env, f: Frame, rule: CfaRule): Addr {
    match rule
    case NoCfa => 0
    case CfaFrom(r, off) => Add(RegOf(env, f, r), off)
  }

  datatype Caller = Outermost | Unreadable | Caller(frame: Frame)

  /** The frame that called `f`, whose code is described by the row. */
  ghost function CallerBy(env: Env, f: Frame, row: Row): Caller {
    var cfa := CfaOf(env, f, row.cfa);
    var ret := Meaning(env, cfa, f, PC, row.pc);
    if ret == None then Unreadable
    else if ret == Some(0) then Outermost
    else
      var fp := Meaning(env, cfa, f, FP, row.fp);
      var sp := if row.sp.SameVal? then Some(cfa) else Meaning(env, cfa, f, SP, row.sp);
      if fp == None || sp == None then Unreadable else Caller(Frame(ret.value, fp.value, sp.value))
  }

  ghost function CallerOf(env: Env, f: Frame, pc: Addr): Caller {
    match env.rows(pc) case None => Outermost case Some(row) => CallerBy(env, f, row)
  }

  /** No rule names a register that has been overwritten by the time the rule is applied. */
  predicate Ordered(row: Row) {
    && row.fp != InRegister(PC)
    && row.sp != InRegister(PC)
    && (row.sp == InRegister(FP) ==> row.fp.SameVal?)
  }

  ghost predicate OrderedRows(env: Env) {
    forall pc :: env.rows(pc).Some? ==> Ordered(env.rows(pc).value)
  }

  /** The table stands for the frame. */
  ghost predicate Holds(env: Env, t: Table, f: Frame) {
    forall n: nat :: Reg(env, t, n) == RegOf(env, f, n)
  }

  lemma ExprRuleMeans(env: Env, cfa: Addr, t: Table, f: Frame, n: nat, rule: Rule)
    ensures rule.AtExpression? || rule.ValueExpression? ==>
      RuleValue(env, cfa, t, n, rule) == Meaning(env, cfa, f, n, rule)
  {
    if rule.AtExpression? || rule.ValueExpression? { RuleExprMeans(env, cfa, rule.ops); }
  }

  lemma RuleMeans(env: Env, cfa: Addr, t: Table, f: Frame, n: nat, rule: Rule)
    requires Reg(env, t, n) == RegOf(env, f, n)
    requires rule.InRegister? ==> Reg(env, t, rule.r) == RegOf(env, f, rule.r)
    ensures RuleValue(env, cfa, t, n, rule) == Meaning(env, cfa, f, n, rule)
  {
    ExprRuleMeans(env, cfa, t, f, n, rule);
  }

  /** The table after the return address and the frame pointer have been recovered. */
  lemma FpMeans(env: Env, cfa: Addr, t: Table, f: Frame, row: Row, ret: Addr)
    requires Holds(env, t, f) && Ordered(row)
    ensures var t1 := t[PC := Cell(true, ret)];
      var fp := Meaning(env, cfa, f, FP, row.fp);
      && RestoreFp(env, cfa, t1, row.fp).Some? == fp.Some?
      && (fp.Some? ==>
            var t2 := RestoreFp(env, cfa, t1, row.fp).value;
            && Reg(env, t2, FP) == fp.value && t2[PC] == Cell(true, ret) && t2[SP] == t[SP]
            && (row.fp.SameVal? ==> t2 == t1)
            && forall n: nat :: n != PC && n != FP ==> Reg(env, t2, n) == RegOf(env, f, n))
  {
    ExprRuleMeans(env, cfa, t[PC := Cell(true, ret)], f, FP, row.fp);
  }

  /** The registers after a step, given what they should be. */
  ghost predicate Recovered(env: Env, t: Table, row: Row, c: Frame, t': Table) {
    && t'[PC] == Cell(true, c.pc) && Reg(env, t', FP) == c.fp && t'[SP].value == c.sp
    && t'[SP].ready == (t[SP].ready || !row.sp.SameVal?)
    && forall n: nat :: n != PC && n != FP && n != SP ==> Reg(env, t', n) == env.reg(n)
  }

  /** A step that throws leaves the registers recovered so far: none, the return address, or the frame pointer too. */
  lemma BrokenMeans(env: Env, pc: Addr, t: Table, f: Frame, row: Row)
    requires Holds(env, t, f) && Ordered(row) && env.rows(pc) == Some(row) && Step(env, pc, t).Broke?
    ensures var cfa, left := CfaOf(env, f, row.cfa), Broken(env, pc, t);
      var ret, fp := Meaning(env, cfa, f, PC, row.pc), Meaning(env, cfa, f, FP, row.fp);
      && (ret == None ==> left == t)
      && (ret.Some? ==> left[PC] == Cell(true, ret.value) && left[SP] == t[SP])
      && (ret.Some? ==> Reg(env, left, FP) == if fp.Some? then fp.value else f.fp)
  {
    var cfa := CfaOf(env, f, row.cfa);
    CfaMeans(env, t, f, row.cfa);
    RuleMeans(env, cfa, t, f, PC, row.pc);
    var ret := Meaning(env, cfa, f, PC, row.pc);
    if ret.Some? {
      FpMeans(env, cfa, t, f, row, ret.value);
      assert Reg(env, t[PC := Cell(true, ret.value)], FP) == Reg(env, t, FP) == RegOf(env, f, FP);
    }
  }

  lemma BothMean(env: Env, cfa: Addr, t: Table, f: Frame, row: Row, ret: Addr)
    requires Holds(env, t, f) && Ordered(row)
    ensures var t1 := t[PC := Cell(true, ret)];
      var fp := Meaning(env, cfa, f, FP, row.fp);
      var sp := if row.sp.SameVal? then Some(cfa) else Meaning(env, cfa, f, SP, row.sp);
      && RestoreBoth(env, cfa, t1, row).Some? == (fp.Some? && sp.Some?)
      && (fp.Some? && sp.Some? ==>
        Recovered(env, t, row, Frame(ret, fp.value, sp.value), RestoreBoth(env, cfa, t1, row).value))
  {
    FpMeans(env, cfa, t, f, row, ret);
    var t1 := t[PC := Cell(true, ret)];
    if Meaning(env, cfa, f, FP, row.fp).Some? {
      var t2 := RestoreFp(env, cfa, t1, row.fp).value;
      if !row.sp.SameVal? {
        RuleMeans(env, cfa, t2, f, SP, row.sp);
      }
      if RestoreSp(env, cfa, t2, row.sp).Some? {
        var t3 := RestoreSp(env, cfa, t2, row.sp).value;
        forall n: nat | n != PC && n != FP && n != SP ensures Reg(env, t3, n) == env.reg(n) {
          assert Reg(env, t2, n) == RegOf(env, f, n);
        }
      }
    }
  }

  /**
   * Without that order the registers a step recovers are the caller's exactly if each register that
   * a rule names too late is the same in the frame and in its caller.
   */
  lemma OutOfOrderIff(env: Env, cfa: Addr, t: Table, f: Frame, row: Row, ret: Addr)
    requires Holds(env, t, f) && RestoreBoth(env, cfa, t[PC := Cell(true, ret)], row).Some?
    ensures var t3 := RestoreBoth(env, cfa, t[PC := Cell(true, ret)], row).value;
      var fp := Meaning(env, cfa, f, FP, row.fp);
      var sp := if row.sp.SameVal? then Some(cfa) else Meaning(env, cfa, f, SP, row.sp);
      (Some(Reg(env, t3, FP)) == fp && Some(t3[SP].value) == sp) <==>
        && (row.fp == InRegister(PC) || row.sp == InRegister(PC) ==> ret == f.pc)
        && (row.sp == InRegister(FP) ==> fp == Some(f.fp))
  {
    var t1 := t[PC := Cell(true, ret)];
    assert forall n: nat :: n != PC ==> Reg(env, t1, n) == RegOf(env, f, n) by {
      forall n: nat | n != PC ensures Reg(env, t1, n) == RegOf(env, f, n) {
        assert Reg(env, t, n) == RegOf(env, f, n);
      }
    }
    var t2 := RestoreFp(env, cfa, t1, row.fp).value;
    ExprRuleMeans(env, cfa, t1, f, FP, row.fp);
    ExprRuleMeans(env, cfa, t2, f, SP, row.sp);
    assert forall n: nat :: n != PC && n != FP ==> Reg(env, t2, n) == RegOf(env, f, n) by {
      forall n: nat | n != PC && n != FP ensures Reg(env, t2, n) == RegOf(env, f, n) {
        assert Reg(env, t1, n) == RegOf(env, f, n);
      }
    }
    assert Reg(env, t1, PC) == ret && Reg(env, t2, PC) == ret;
    var t3 := RestoreSp(env, cfa, t2, row.sp).value;
    assert Reg(env, t3, FP) == Reg(env, t2, FP);
  }

  lemma CfaMeans(env: Env, t: Table, f: Frame, rule: CfaRule)
    requires Holds(env, t, f)
    ensures Cfa(env, t, rule) == CfaOf(env, f, rule)
  {
  }

  /** A step finds the caller that the rules describe, and stops where the caller would be at the same pc. */
  lemma StepFindsCaller(env: Env, f: Frame, pc: Addr, t: Table)
    requires Holds(env, t, f) && OrderedRows(env)
    ensures match CallerOf(env, f, pc)
      case Outermost => Step(env, pc, t).Stepped? && Step(env, pc, t).ret == 0
      case Unreadable => Step(env, pc, t).Broke?
      case Caller(c) =>
        && Step(env, pc, t).Stepped? && Step(env, pc, t).ret == (if c.pc == pc then 0 else c.pc)
        && Recovered(env, t, env.rows(pc).value, c, Step(env, pc, t).table)
  {
    if env.rows(pc).Some? {
      var row := env.rows(pc).value;
      CfaMeans(env, t, f, row.cfa);
      var cfa := Cfa(env, t, row.cfa);
      RuleMeans(env, cfa, t, f, PC, row.pc);
      if Meaning(env, cfa, f, PC, row.pc).Some? {
        BothMean(env, cfa, t, f, row, Meaning(env, cfa, f, PC, row.pc).value);
      }
    }
  }

  /**
   * The table a step leaves stands for the caller exactly if the stack pointer was ready before,
   * or was given by a rule, or the thread's own stack pointer happens to be the caller's.
   */
  lemma TableHoldsIff(env: Env, t: Table, row: Row, c: Frame, t': Table)
    requires Recovered(env, t, row, c, t')
    ensures Holds(env, t', c) <==> t[SP].ready || !row.sp.SameVal? || env.reg(SP) == c.sp
  {
    assert Reg(env, t', SP) == if t'[SP].ready then c.sp else env.reg(SP);
    if t[SP].ready || !row.sp.SameVal? || env.reg(SP) == c.sp {
      forall n: nat ensures Reg(env, t', n) == RegOf(env, c, n) {
      }
    } else {
      assert Reg(env, t', SP) != RegOf(env, c, SP);
    }
  }

  /** In a caller whose CFA is relative to the stack pointer the CFA is right exactly in those cases. */
  lemma NextCfaIff(env: Env, t: Table, row: Row, c: Frame, t': Table, off: Addr)
    requires Recovered(env, t, row, c, t')
    ensures Cfa(env, t', CfaFrom(SP, off)) == CfaOf(env, c, CfaFrom(SP, off)) <==>
      t[SP].ready || !row.sp.SameVal? || env.reg(SP) == c.sp
  {
  }

  // ----- stack traces -----

  /** The registers of a frame, all of them ready. */
  function Ready(f: Frame): Table {
    NothingReady()[FP := Cell(true, f.fp)][SP := Cell(true, f.sp)][PC := Cell(true, f.pc)]
  }

  /** The next frame of a stack trace, in a module loaded at `adjust`. */
  function Unwind(env: Env, adjust: Addr, f: Frame): Option<Frame> {
    match Step(env, Sub(f.pc, adjust), Ready(f))
    case Broke => None
    case Stepped(ret, t) =>
      if ret == 0 || ret == f.pc then None else Some(Frame(ret, t[FP].value, t[SP].value))
  }

  function Trace(env: Env, adjust: Addr, f: Frame, n: nat): seq<Frame>
    decreases n
  {
    if n == 0 then [f]
    else match Unwind(env, adjust, f) case None => [f] case Some(c) => [f] + Trace(env, adjust, c, n - 1)
  }

  /** The callers that the rules describe. */
  ghost function Callers(env: Env, adjust: Addr, f: Frame, n: nat): seq<Frame>
    decreases n
  {
    if n == 0 then [f]
    else
      match CallerOf(env, f, Sub(f.pc, adjust))
      case Caller(c) => [f] + Callers(env, adjust, c, n - 1)
      case _ => [f]
  }

  predicate Repeats(adjust: Addr, f: Frame, c: Frame) {
    c.pc == f.pc || c.pc == Sub(f.pc, adjust)
  }

  lemma UnwindFindsCaller(env: Env, adjust: Addr, f: Frame)
    requires OrderedRows(env)
    ensures Unwind(env, adjust, f) ==
      match CallerOf(env, f, Sub(f.pc, adjust)) {
        case Caller(c) => if Repeats(adjust, f, c) then None else Some(c)
        case _ => None
      }
  {
    var t, pc := Ready(f), Sub(f.pc, adjust);
    assert Holds(env, t, f) by {
      forall n: nat ensures Reg(env, t, n) == RegOf(env, f, n) { }
    }
    StepFindsCaller(env, f, pc, t);
    if CallerOf(env, f, pc).Caller? {
      ReadyStays(env, t, pc, f);
    }
  }

  lemma ReadyStays(env: Env, t: Table, pc: Addr, f: Frame)
    requires t[FP].ready && Step(env, pc, t).Stepped?
    ensures Step(env, pc, t).table[FP].ready
  {
  }

  predicate NoneRepeats(adjust: Addr, fs: seq<Frame>) {
    |fs| < 2 || (!Repeats(adjust, fs[0], fs[1]) && NoneRepeats(adjust, fs[1..]))
  }

  /**
   * A stack trace shows the callers that the rules describe exactly if no caller is at the same pc
   * as the frame it called, as it is in a function that has called itself twice from one place.
   */
  lemma {:induction false} TraceIff(env: Env, adjust: Addr, f: Frame, n: nat)
    requires OrderedRows(env)
    ensures Trace(env, adjust, f, n) == Callers(env, adjust, f, n) <==> NoneRepeats(adjust, Callers(env, adjust, f, n))
    ensures |Callers(env, adjust, f, n)| > 0 && Callers(env, adjust, f, n)[0] == f
    decreases n
  {
    if n > 0 {
      OneMore(env, adjust, f, n);
      var caller := CallerOf(env, f, Sub(f.pc, adjust));
      if caller.Caller? {
        TraceIff(env, adjust, caller.frame, n - 1);
        OneMoreIff(adjust, f, Trace(env, adjust, caller.frame, n - 1), Callers(env, adjust, caller.frame, n - 1),
                   Trace(env, adjust, f, n), Callers(env, adjust, f, n));
      }
    }
  }

  /** A function at 5000 that has called itself twice: the trace ends after the first frame. */
  lemma RecursionIsCutShort(env: Env, f: Frame, c: Frame)
    requires f == Frame(5000, 100, 50) && c == Frame(5000, 200, 116)
    requires env.rows(5000) == Some(Row(CfaFrom(FP, 16), AtOffset(U64 - 8), AtOffset(U64 - 16), SameVal))
    requires env.read(108) == Some(5000) && env.read(100) == Some(200)
    ensures Trace(env, 0, f, 1) == [f] && Callers(env, 0, f, 1) == [f, c]
  {
  }

  lemma OneMore(env: Env, adjust: Addr, f: Frame, n: nat)
    requires OrderedRows(env) && n > 0
    ensures match CallerOf(env, f, Sub(f.pc, adjust))
      case Caller(c) =>
        && Callers(env, adjust, f, n) == [f] + Callers(env, adjust, c, n - 1)
        && Trace(env, adjust, f, n) == [f] + (if Repeats(adjust, f, c) then [] else Trace(env, adjust, c, n - 1))
      case _ => Callers(env, adjust, f, n) == [f] == Trace(env, adjust, f, n)
  {
    UnwindFindsCaller(env, adjust, f);
  }

  lemma OneMoreIff(adjust: Addr, f: Frame, trace: seq<Frame>, callers: seq<Frame>, trace': seq<Frame>,
                   callers': seq<Frame>)
    requires callers != [] && callers' == [f] + callers
    requires trace' == [f] + if Repeats(adjust, f, callers[0]) then [] else trace
    requires trace == callers <==> NoneRepeats(adjust, callers)
    ensures trace' == callers' <==> NoneRepeats(adjust, callers')
  {
    assert callers'[1..] == callers;
    assert ([f] + trace)[1..] == trace;
  }

  // ----- chains of frames kept by their frame pointers -----

  /** Successive steps with one table. */
  function Steps(env: Env, pc: Addr, t: Table, k: nat): Stepped {
    if k == 0 then Stepped(pc, t)
    else match Steps(env, pc, t, k - 1) case Broke => Broke case Stepped(pc', t') => Step(env, pc', t')
  }

  /** Each frame keeps the return address and the caller's frame pointer near its own. */
  ghost predicate Linked(env: Env, f: Frame, c: Frame) {
    var row := env.rows(f.pc);
    && row.Some? && row.value.cfa.CfaFrom? && row.value.cfa.r == FP
    && row.value.pc.AtOffset? && row.value.fp.AtOffset? && row.value.sp.SameVal?
    && var cfa := Add(f.fp, row.value.cfa.off);
    && env.read(Add(cfa, row.value.pc.off)) == Some(c.pc)
    && env.read(Add(cfa, row.value.fp.off)) == Some(c.fp)
    && c.sp == cfa
    && c.pc != 0 && c.pc != f.pc
  }

  lemma LinkedStep(env: Env, f: Frame, c: Frame, t: Table)
    requires Linked(env, f, c) && Reg(env, t, FP) == f.fp
    ensures Step(env, f.pc, t).Stepped? && Step(env, f.pc, t).ret == c.pc
    ensures var t' := Step(env, f.pc, t).table;
      t'[FP] == Cell(true, c.fp) && t'[SP].value == c.sp && t'[PC] == Cell(true, c.pc)
  {
  }

  /**
   * From the thread's own registers, `k` steps with one table return the `k`-th caller's address
   * and leave its frame pointer ready.
   */
  lemma {:induction false} ChainUnwinds(env: Env, fs: seq<Frame>, t: Table, k: nat)
    requires k < |fs| && forall i :: 0 <= i < |fs| - 1 ==> Linked(env, fs[i], fs[i + 1])
    requires Reg(env, t, FP) == fs[0].fp
    ensures Steps(env, fs[0].pc, t, k).Stepped? && Steps(env, fs[0].pc, t, k).ret == fs[k].pc
    ensures var t' := Steps(env, fs[0].pc, t, k).table;
      Reg(env, t', FP) == fs[k].fp && (k > 0 ==> t'[FP] == Cell(true, fs[k].fp) && t'[SP].value == fs[k].sp)
    decreases k
  {
    if k > 0 {
      ChainUnwinds(env, fs, t, k - 1);
      assert Linked(env, fs[k - 1], fs[k - 1 + 1]);
      LinkedStep(env, fs[k - 1], fs[k], Steps(env, fs[0].pc, t, k - 1).table);
    }
  }

  // ----- the unwinder in place -----

  /** A step writes the caller's registers over those of the frame. */
  method StepInPlace(env: Env, pc: Addr, regs: array<Cell>) returns (ok: bool, ret: Addr)
    requires regs.Length > PC
    modifies regs
    ensures ok == Step(env, pc, old(regs[..])).Stepped?
    ensures ok ==> Stepped(ret, regs[..]) == Step(env, pc, old(regs[..]))
    ensures !ok ==> regs[..] == Broken(env, pc, old(regs[..]))
  {
    ok, ret := true, 0;
    var found := env.rows(pc);
    if found.None? {
      return;
    }
    var row := found.value;
    ghost var t := regs[..];
    var cfa := Cfa(env, regs[..], row.cfa);
    ok, ret := GetReg(env, cfa, regs, PC, row.pc);
    if !ok || ret == 0 {
      return;
    }
    ghost var t1 := regs[..];
    assert t1 == t[PC := Cell(true, ret)];
    if !row.fp.SameVal? {
      var fine, _ := GetReg(env, cfa, regs, FP, row.fp);
      if !fine {
        return false, 0;
      }
    }
    assert RestoreFp(env, cfa, t1, row.fp) == Some(regs[..]);
    if row.sp.SameVal? {
      regs[SP] := regs[SP].(value := cfa);
    } else {
      var fine, _ := GetReg(env, cfa, regs, SP, row.sp);
      if !fine {
        return false, 0;
      }
    }
    if ret == pc {
      ret := 0;
    }
  }

  method GetReg(env: Env, cfa: Addr, regs: array<Cell>, n: nat, rule: Rule) returns (ok: bool, value: Addr)
    requires regs.Length > PC && n <= PC
    modifies regs
    ensures ok == Restore(env, cfa, old(regs[..]), n, rule).Some?
    ensures ok ==> RuleValue(env, cfa, old(regs[..]), n, rule) == Some(value)
    ensures ok ==> Some(regs[..]) == Restore(env, cfa, old(regs[..]), n, rule)
    ensures !ok ==> regs[..] == old(regs[..])
  {
    var v := RuleValue(env, cfa, regs[..], n, rule);
    if v.None? {
      return false, 0;
    }
    regs[n] := Cell(true, v.value);
    return true, v.value;
  }
}
