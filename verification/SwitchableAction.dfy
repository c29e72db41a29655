/** Breakpoint actions with a condition and a hit count: when do they run? */
module SwitchableActions {

  /** A condition is answered while the hit is handled, or later. */
  datatype Answer = Now(holds: bool) | Later

  /** A late answer, or the error that comes instead of one. */
  datatype Event = Hit(answer: Answer) | Done(holds: bool) | Error

  /** The result of an evaluation is none, awaited, or left behind by an error. */
  datatype Result = NoResult | Awaited | Abandoned

  datatype Action = Action(
    threshold: nat,
    autoReset: bool,
    hits: nat,
    runs: nat,
    pending: bool,
    result: Result)

  /** What a condition found true does. */
  function Counted(a: Action): Action {
    var hits := a.hits + 1;
    if a.threshold == 0 || a.threshold <= hits then a.(hits := if a.autoReset then 0 else hits, runs := a.runs + 1)
    else a.(hits := hits)
  }

  predicate Enabled(a: Action, e: Event) {
    e.Hit? || a.result == Awaited
  }

  /** A hit that comes while the action is pending is not evaluated. An error runs the action uncounted. */
  function Next(a: Action, e: Event): Action
    requires Enabled(a, e)
  {
    match e
    case Hit(answer) =>
      if a.pending then a.(pending := a.result != NoResult)
      else if answer.Later? then a.(pending := true, result := Awaited)
      else if answer.holds then Counted(a)
      else a
    case Done(holds) =>
      var b := if a.pending && holds then Counted(a) else a;
      b.(result := NoResult)
    case Error => a.(runs := a.runs + 1, result := Abandoned)
  }

  predicate Legal(a: Action, es: seq<Event>)
    decreases |es|
  {
    es == [] || (Enabled(a, es[0]) && Legal(Next(a, es[0]), es[1..]))
  }

  function Run(a: Action, es: seq<Event>): Action
    requires Legal(a, es)
    decreases |es|
  {
    if es == [] then a else Run(Next(a, es[0]), es[1..])
  }

  /** How many evaluations of the condition were found true. */
  function FoundTrue(a: Action, es: seq<Event>): nat
    requires Legal(a, es)
    decreases |es|
  {
    if es == [] then 0
    else (if IsTrue(a, es[0]) then 1 else 0) + FoundTrue(Next(a, es[0]), es[1..])
  }

  function Errors(es: seq<Event>): nat {
    if es == [] then 0 else (if es[0].Error? then 1 else 0) + Errors(es[1..])
  }

  predicate IsTrue(a: Action, e: Event) {
    e == Done(true) || (e == Hit(Now(true)) && !a.pending)
  }

  function Fresh(threshold: nat, autoReset: bool): Action {
    Action(threshold, autoReset, 0, 0, false, NoResult)
  }

  /** What `n` evaluations found true come to. */
  function HitsAfter(threshold: nat, autoReset: bool, n: nat): nat {
    if !autoReset then n else if threshold == 0 then 0 else n % threshold
  }

  function RunsAfter(threshold: nat, autoReset: bool, n: nat): nat {
    if threshold == 0 then n
    else if autoReset then n / threshold
    else if n < threshold then 0 else n - threshold + 1
  }

  ghost predicate Tallies(a: Action, n: nat, errors: nat) {
    && a.hits == HitsAfter(a.threshold, a.autoReset, n)
    && a.runs == RunsAfter(a.threshold, a.autoReset, n) + errors
    && (a.result != NoResult ==> a.pending)
  }

  lemma DivStep(n: nat, t: nat)
    requires t > 0
    ensures n % t + 1 == t ==> (n + 1) % t == 0 && (n + 1) / t == n / t + 1
    ensures n % t + 1 < t ==> (n + 1) % t == n % t + 1 && (n + 1) / t == n / t
  {
    var q, r := n / t, n % t;
    assert n == q * t + r;
    if r + 1 == t {
      assert n + 1 == (q + 1) * t;
      Quotient(n + 1, t, q + 1, 0);
    } else {
      Quotient(n + 1, t, q, r + 1);
    }
  }

  lemma Quotient(n: nat, t: nat, q: nat, r: nat)
    requires 0 <= r < t && n == q * t + r
    ensures n / t == q && n % t == r
  {
    var a, b := n / t, n % t;
    assert n == a * t + b;
    Distributes(q, a, t);
    SmallMultiple(q - a, t);
  }

  lemma Distributes(q: int, a: int, t: int)
    ensures (q - a) * t == q * t - a * t
  {
  }

  lemma SmallMultiple(k: int, t: int)
    requires -t < k * t < t
    ensures k == 0
  {
  }

  lemma CountedTallies(a: Action, n: nat, errors: nat)
    requires Tallies(a, n, errors)
    ensures Tallies(Counted(a), n + 1, errors)
  {
    if a.autoReset && a.threshold > 0 {
      DivStep(n, a.threshold);
    }
  }

  lemma {:induction false} RunTallies(a: Action, es: seq<Event>, n: nat, errors: nat)
    requires Legal(a, es) && Tallies(a, n, errors)
    ensures Tallies(Run(a, es), n + FoundTrue(a, es), errors + Errors(es))
    ensures Run(a, es).threshold == a.threshold && Run(a, es).autoReset == a.autoReset
    decreases |es|
  {
    if es != [] {
      CountedTallies(a, n, errors);
      var n', errors' := if IsTrue(a, es[0]) then n + 1 else n, if es[0].Error? then errors + 1 else errors;
      RunTallies(Next(a, es[0]), es[1..], n', errors');
    }
  }

  /**
   * In every interleaving of hits, late answers and errors the counter depends only on how many
   * evaluations were found true. With auto-reset the action has run once in every `threshold` of
   * them, without it at each from the `threshold`-th on, and once more for each error.
   */
  lemma ThresholdIsKept(threshold: nat, autoReset: bool, es: seq<Event>)
    requires Legal(Fresh(threshold, autoReset), es)
    ensures var a := Run(Fresh(threshold, autoReset), es);
      var n := FoundTrue(Fresh(threshold, autoReset), es);
      a.hits == HitsAfter(threshold, autoReset, n) && a.runs == RunsAfter(threshold, autoReset, n) + Errors(es)
  {
    if threshold > 0 { Quotient(0, threshold, 0, 0); }
    RunTallies(Fresh(threshold, autoReset), es, 0, 0);
  }

  // ----- hits that are not evaluated -----

  /** After an error instead of a late answer the action never counts or runs again, in any run. */
  lemma {:induction false} ErrorIsFinal(a: Action, es: seq<Event>)
    requires a.pending && a.result == Abandoned && Legal(a, es)
    ensures Run(a, es) == a
    decreases |es|
  {
    if es != [] { ErrorIsFinal(Next(a, es[0]), es[1..]); }
  }

  /** Whatever came before an error and whatever comes after it, the action runs once more and never again. */
  lemma ErrorEndsAction(threshold: nat, autoReset: bool, es: seq<Event>, more: seq<Event>)
    requires Legal(Fresh(threshold, autoReset), es)
    requires var a := Run(Fresh(threshold, autoReset), es); Enabled(a, Error) && Legal(Next(a, Error), more)
    ensures var a := Run(Fresh(threshold, autoReset), es);
      var b := Run(Next(a, Error), more);
      b.hits == a.hits && b.runs == a.runs + 1
  {
    if threshold > 0 { Quotient(0, threshold, 0, 0); }
    RunTallies(Fresh(threshold, autoReset), es, 0, 0);
    ErrorIsFinal(Next(Run(Fresh(threshold, autoReset), es), Error), more);
  }

  /** `n` hits; one that is evaluated is found true, late but before the next hit comes. */
  function LateHits(a: Action, n: nat): seq<Event>
    requires a.result == NoResult
    decreases n
  {
    if n == 0 then []
    else if a.pending then [Hit(Later)] + LateHits(Next(a, Hit(Later)), n - 1)
    else [Hit(Later)] + ([Done(true)] + LateHits(Next(Next(a, Hit(Later)), Done(true)), n - 1))
  }

  lemma Prepended(a: Action, e: Event, es: seq<Event>)
    requires Enabled(a, e) && Legal(Next(a, e), es)
    ensures Legal(a, [e] + es)
    ensures FoundTrue(a, [e] + es) == (if IsTrue(a, e) then 1 else 0) + FoundTrue(Next(a, e), es)
  {
  }

  /**
   * The action stays pending after a late answer, so the hit after it is not evaluated: when all
   * answers come late, only every other hit counts.
   */
  lemma {:induction false} EveryOtherHitCounts(a: Action, n: nat)
    requires a.result == NoResult
    ensures Legal(a, LateHits(a, n))
    ensures FoundTrue(a, LateHits(a, n)) == (if a.pending then n / 2 else (n + 1) / 2)
    decreases n
  {
    if n > 0 {
      var b := Next(a, Hit(Later));
      if a.pending {
        EveryOtherHitCounts(b, n - 1);
        Prepended(a, Hit(Later), LateHits(b, n - 1));
      } else {
        var c := Next(b, Done(true));
        EveryOtherHitCounts(c, n - 1);
        Prepended(b, Done(true), LateHits(c, n - 1));
        Prepended(a, Hit(Later), [Done(true)] + LateHits(c, n - 1));
      }
    }
  }

  function Hits(es: seq<Event>): nat {
    if es == [] then 0 else (if es[0].Hit? then 1 else 0) + Hits(es[1..])
  }

  /** How many of the hits had the condition evaluated. */
  function Evaluated(a: Action, es: seq<Event>): nat
    requires Legal(a, es)
    decreases |es|
  {
    if es == [] then 0
    else (if es[0].Hit? && !a.pending then 1 else 0) + Evaluated(Next(a, es[0]), es[1..])
  }

  predicate NoHit(es: seq<Event>) {
    forall j :: 0 <= j < |es| ==> !es[j].Hit?
  }

  /** No hit comes after one that is answered late. */
  predicate NoHitAfterLate(es: seq<Event>) {
    forall i, j :: 0 <= i < j < |es| && es[i] == Hit(Later) ==> !es[j].Hit?
  }

  lemma {:induction false} NoHitIff(es: seq<Event>)
    ensures NoHit(es) <==> Hits(es) == 0
    decreases |es|
  {
    if es != [] {
      NoHitIff(es[1..]);
      assert forall j :: 0 < j < |es| ==> es[j] == es[1..][j - 1];
    }
  }

  lemma {:induction false} EvaluatedAtMost(a: Action, es: seq<Event>)
    requires Legal(a, es)
    ensures Evaluated(a, es) <= Hits(es)
    ensures a.pending && Hits(es) > 0 ==> Evaluated(a, es) < Hits(es)
    decreases |es|
  {
    if es != [] { EvaluatedAtMost(Next(a, es[0]), es[1..]); }
  }

  lemma NoHitAfterLateFirst(es: seq<Event>)
    requires es != []
    ensures NoHitAfterLate(es) <==> NoHitAfterLate(es[1..]) && (es[0] == Hit(Later) ==> NoHit(es[1..]))
  {
    var rest := es[1..];
    assert forall j :: 0 < j < |es| ==> es[j] == rest[j - 1];
    assert forall j :: 0 <= j < |rest| ==> rest[j] == es[j + 1];
  }

  lemma NoHitNoneAfterLate(es: seq<Event>)
    requires NoHit(es)
    ensures NoHitAfterLate(es)
  {
  }

  /** In every run every hit is evaluated if and only if no hit follows one that is answered late. */
  lemma {:induction false} AllEvaluatedIff(a: Action, es: seq<Event>)
    requires !a.pending && a.result == NoResult && Legal(a, es)
    ensures Evaluated(a, es) == Hits(es) <==> NoHitAfterLate(es)
    decreases |es|
  {
    if es != [] {
      NoHitAfterLateFirst(es);
      var next, rest := Next(a, es[0]), es[1..];
      if es[0] == Hit(Later) {
        EvaluatedAtMost(next, rest);
        NoHitIff(rest);
        if NoHit(rest) { NoHitNoneAfterLate(rest); }
      } else {
        AllEvaluatedIff(next, rest);
      }
    }
  }

  // ----- the action's own code -----

  class SwitchableAction {
    var threshold: nat
    var autoReset: bool
    var hits: nat
    var pending: bool
    var result: Result
    ghost var runs: nat

    constructor (threshold: nat, autoReset: bool)
      ensures Value() == Fresh(threshold, autoReset)
    {
      this.threshold, this.autoReset := threshold, autoReset;
      hits, pending, result, runs := 0, false, NoResult, 0;
    }

    ghost function Value(): Action
      reads this
    {
      Action(threshold, autoReset, hits, runs, pending, result)
    }

    /** A breakpoint hit. Without a condition the answer is always true. */
    method Execute(answer: Answer)
      requires result != NoResult ==> pending
      modifies this
      ensures Value() == Next(old(Value()), Hit(answer)) && (result != NoResult ==> pending)
    {
      if !pending {
        if answer.Later? {
          result, pending := Awaited, true;
        } else if answer.holds {
          Count();
        }
      }
      if result == NoResult {
        pending := false;
      }
    }

    /** The late answer. */
    method OnDone(holds: bool)
      requires result == Awaited
      modifies this
      ensures Value() == Next(old(Value()), Done(holds))
    {
      if pending && holds {
        Count();
      }
      result := NoResult;
    }

    /** The error runs the action; the result it leaves behind keeps the action pending. */
    method OnError()
      requires result == Awaited
      modifies this
      ensures Value() == Next(old(Value()), Error)
    {
      runs := runs + 1;
      result := Abandoned;
    }

    method Count()
      modifies this
      ensures Value() == Counted(old(Value()))
    {
      hits := hits + 1;
      if threshold == 0 || threshold <= hits {
        runs := runs + 1;
        if autoReset {
          hits := 0;
        }
      }
    }
  }
}
