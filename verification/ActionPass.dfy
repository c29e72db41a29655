/**
 * One pass over the actions of a breakpoint that was hit. An action whose `execute` returns false
 * asks to be removed; the pass walks a copy and erases from the master list by index.
 */
module ActionPass {
  import opened Basics

  function Without<T>(s: seq<T>, i: nat): (r: seq<T>)
    requires i < |s|
    ensures |r| == |s| - 1
    ensures forall j {:trigger r[j]} :: 0 <= j < |r| ==> r[j] == if j < i then s[j] else s[j + 1]
  {
    s[..i] + s[i + 1..]
  }

  /** The pass from index `d` on; `None` is an erase past the end of the master list. */
  function PassFrom<T>(master: seq<T>, asks: seq<bool>, d: nat): Option<seq<T>>
    requires d <= |asks|
    decreases |asks| - d
  {
    if d == |asks| then Some(master)
    else if !asks[d] then PassFrom(master, asks, d + 1)
    else if d < |master| then PassFrom(Without(master, d), asks, d + 1)
    else None
  }

  /** What the pass is for: the actions that did not ask to go, in their order. */
  function SurvivorsFrom<T>(actions: seq<T>, asks: seq<bool>, d: nat): (r: seq<T>)
    requires |asks| == |actions| && d <= |asks|
    decreases |asks| - d
  {
    if d == |asks| then []
    else if asks[d] then SurvivorsFrom(actions, asks, d + 1)
    else [actions[d]] + SurvivorsFrom(actions, asks, d + 1)
  }

  ghost predicate Distinct<T>(s: seq<T>) {
    forall i, j :: 0 <= i < j < |s| ==> s[i] != s[j]
  }

  ghost predicate AtMostOne(asks: seq<bool>) {
    forall i, j :: 0 <= i < j < |asks| ==> !(asks[i] && asks[j])
  }

  lemma {:induction false} NobodyAsks<T>(actions: seq<T>, master: seq<T>, asks: seq<bool>, d: nat)
    requires |asks| == |actions| && d <= |asks|
    requires forall i :: d <= i < |asks| ==> !asks[i]
    ensures PassFrom(master, asks, d) == Some(master) && SurvivorsFrom(actions, asks, d) == actions[d..]
    decreases |asks| - d
  {
    if d < |asks| { NobodyAsks(actions, master, asks, d + 1); }
  }

  /** Up to the first request the pass and its purpose agree. */
  lemma {:induction false} UntilFirst<T>(actions: seq<T>, asks: seq<bool>, d: nat, f: nat)
    requires |asks| == |actions| && d <= f < |asks|
    requires forall i :: d <= i < f ==> !asks[i]
    ensures PassFrom(actions, asks, d) == PassFrom(actions, asks, f)
    ensures SurvivorsFrom(actions, asks, d) == actions[d..f] + SurvivorsFrom(actions, asks, f)
    decreases f - d
  {
    var rest := SurvivorsFrom(actions, asks, f);
    if d < f {
      UntilFirst(actions, asks, d + 1, f);
      assert actions[d..f] + rest == [actions[d]] + (actions[d + 1..f] + rest);
    } else {
      assert actions[d..f] + rest == rest;
    }
  }

  /** The pass never touches an index it has gone past. */
  lemma {:induction false} PassedIndexStays<T>(master: seq<T>, asks: seq<bool>, d: nat, j: nat)
    requires d <= |asks| && j < d && j < |master|
    ensures var r := PassFrom(master, asks, d); r.Some? ==> j < |r.value| && r.value[j] == master[j]
    decreases |asks| - d
  {
    if d < |asks| {
      PassedIndexStays(master, asks, d + 1, j);
      if asks[d] && d < |master| { PassedIndexStays(Without(master, d), asks, d + 1, j); }
    }
  }

  /** After one removal the next request hits its right-hand neighbour, so the asker stays. */
  lemma {:induction false} SecondAskerStays<T>(actions: seq<T>, master: seq<T>, asks: seq<bool>, d: nat, s: nat)
    requires |asks| == |actions| && 0 < d <= s < |asks|
    requires |master| == |actions| - 1
    requires forall j {:trigger master[j]} :: d <= j + 1 < |actions| && 0 <= j ==> master[j] == actions[j + 1]
    requires asks[s] && forall i :: d <= i < s ==> !asks[i]
    ensures var r := PassFrom(master, asks, d); r.Some? ==> actions[s] in r.value
    decreases s - d
  {
    if d < s {
      SecondAskerStays(actions, master, asks, d + 1, s);
    } else if d < |master| {
      PassedIndexStays(Without(master, d), asks, d + 1, d - 1);
      assert Without(master, d)[d - 1] == master[d - 1] == actions[s];
    }
  }

  function FirstAsk(asks: seq<bool>, d: nat): (f: nat)
    requires d <= |asks|
    ensures d <= f <= |asks| && (f < |asks| ==> asks[f]) && forall i :: d <= i < f ==> !asks[i]
    decreases |asks| - d
  {
    if d == |asks| || asks[d] then d else FirstAsk(asks, d + 1)
  }

  lemma OneAskerIsExact<T>(actions: seq<T>, asks: seq<bool>, f: nat)
    requires |asks| == |actions| && f < |asks| && asks[f]
    requires forall i :: 0 <= i < |asks| && i != f ==> !asks[i]
    ensures PassFrom(actions, asks, 0) == Some(SurvivorsFrom(actions, asks, 0))
  {
    UntilFirst(actions, asks, 0, f);
    NobodyAsks(actions, Without(actions, f), asks, f + 1);
    assert actions[..f] + actions[f + 1..] == Without(actions, f);
  }

  lemma {:induction false} AskerIsGone<T>(actions: seq<T>, asks: seq<bool>, d: nat, s: nat)
    requires |asks| == |actions| && Distinct(actions) && d <= |asks| && s < |asks| && asks[s]
    ensures actions[s] !in SurvivorsFrom(actions, asks, d)
    decreases |asks| - d
  {
    if d < |asks| { AskerIsGone(actions, asks, d + 1, s); }
  }

  lemma TwoAskersAreNot<T>(actions: seq<T>, asks: seq<bool>, f: nat, s: nat)
    requires |asks| == |actions| && Distinct(actions) && f < s < |asks| && asks[f] && asks[s]
    requires forall i :: 0 <= i < s && i != f ==> !asks[i]
    ensures PassFrom(actions, asks, 0) != Some(SurvivorsFrom(actions, asks, 0))
  {
    UntilFirst(actions, asks, 0, f);
    SecondAskerStays(actions, Without(actions, f), asks, f + 1, s);
    AskerIsGone(actions, asks, 0, s);
  }

  /** The pass removes exactly the actions that asked for it if and only if at most one did. */
  lemma PassExactIffAtMostOne<T>(actions: seq<T>, asks: seq<bool>)
    requires |asks| == |actions| && Distinct(actions)
    ensures PassFrom(actions, asks, 0) == Some(SurvivorsFrom(actions, asks, 0)) <==> AtMostOne(asks)
  {
    var f := FirstAsk(asks, 0);
    if f == |asks| {
      NobodyAsks(actions, actions, asks, 0);
    } else {
      var s := FirstAsk(asks, f + 1);
      if s == |asks| {
        OneAskerIsExact(actions, asks, f);
      } else {
        TwoAskersAreNot(actions, asks, f, s);
      }
    }
  }

  // ----- what any pass leaves -----

  /** How many ask to go before index `d`. */
  function Asked(asks: seq<bool>, d: nat): nat
    requires d <= |asks|
  {
    if d == 0 then 0 else Asked(asks, d - 1) + if asks[d - 1] then 1 else 0
  }

  /** A request at `d` strikes the action as many places to the right as there were requests before it. */
  ghost predicate Strikes(asks: seq<bool>, d: nat, i: nat) {
    d < |asks| && asks[d] && d + Asked(asks, d) == i
  }

  ghost predicate Struck(asks: seq<bool>, i: nat) {
    exists d: nat :: Strikes(asks, d, i)
  }

  /** No request strikes past the end. */
  ghost predicate NoneOverruns(asks: seq<bool>, from: nat) {
    forall d :: from <= d < |asks| && asks[d] ==> d + Asked(asks, d) < |asks|
  }

  /** The actions from index `i` on that are not struck. */
  ghost function Unstruck<T>(actions: seq<T>, asks: seq<bool>, i: nat): seq<T>
    requires i <= |actions|
    decreases |actions| - i
  {
    if i == |actions| then []
    else (if Struck(asks, i) then [] else [actions[i]]) + Unstruck(actions, asks, i + 1)
  }

  lemma {:induction false} AskedGrows(asks: seq<bool>, d: nat, e: nat)
    requires d <= e <= |asks|
    ensures Asked(asks, d) <= Asked(asks, e)
    ensures d < e && asks[d] ==> Asked(asks, d) < Asked(asks, e)
    decreases e
  {
    if d < e { AskedGrows(asks, d, e - 1); }
  }

  lemma StrikesApart(asks: seq<bool>, e: nat, d: nat)
    requires e < d < |asks|
    ensures e + Asked(asks, e) < d + Asked(asks, d)
    ensures asks[e] ==> e + Asked(asks, e) + 1 < d + Asked(asks, d)
  {
    AskedGrows(asks, e, d);
  }

  lemma StrikesOnce(asks: seq<bool>, e: nat, d: nat)
    requires d < |asks| && e != d
    ensures !Strikes(asks, e, d + Asked(asks, d))
    ensures asks[d] ==> !Strikes(asks, e, d + Asked(asks, d) + 1)
  {
    if e < d { StrikesApart(asks, e, d); } else if e < |asks| { StrikesApart(asks, d, e); }
  }

  /** A request strikes its place, and no other request does. */
  lemma StruckHere(asks: seq<bool>, d: nat)
    requires d < |asks|
    ensures Struck(asks, d + Asked(asks, d)) <==> asks[d]
  {
    var at := d + Asked(asks, d);
    if asks[d] {
      assert Strikes(asks, d, at);
    } else {
      forall e: nat ensures !Strikes(asks, e, at) {
        if e != d { StrikesOnce(asks, e, d); }
      }
    }
  }

  /** The place behind one that is struck stays. */
  lemma NextStays(asks: seq<bool>, d: nat, next: nat)
    requires d < |asks| && asks[d] && next == d + Asked(asks, d) + 1
    ensures !Struck(asks, next)
  {
    forall e: nat ensures !Strikes(asks, e, next) {
      if e != d { StrikesOnce(asks, e, d); }
    }
  }

  lemma {:induction false} PassBehindEnd<T>(master: seq<T>, asks: seq<bool>, d: nat)
    requires |master| <= d <= |asks|
    ensures PassFrom(master, asks, d) == if forall e :: d <= e < |asks| ==> !asks[e] then Some(master) else None
    decreases |asks| - d
  {
    if d < |asks| { PassBehindEnd(master, asks, d + 1); }
  }

  /** What a pass that has come to `d` leaves, `front` being settled. */
  ghost function Leaves<T>(actions: seq<T>, asks: seq<bool>, front: seq<T>, d: nat): Option<seq<T>>
    requires d <= |asks| && d + Asked(asks, d) <= |actions|
  {
    if NoneOverruns(asks, d) then Some(front + Unstruck(actions, asks, d + Asked(asks, d))) else None
  }

  /** With nothing left to walk, any further request overruns. */
  lemma LeavesAtEnd<T>(actions: seq<T>, asks: seq<bool>, front: seq<T>, d: nat, from: nat)
    requires |asks| == |actions| && d <= from <= |asks| && |front| <= from && from + Asked(asks, from) >= |actions|
    requires forall e :: d <= e < from ==> (asks[e] ==> e + Asked(asks, e) < |asks|)
    ensures PassFrom(front, asks, from) == if NoneOverruns(asks, d) then Some(front) else None
  {
    PassBehindEnd(front, asks, from);
    forall e | from <= e < |asks| ensures e + Asked(asks, e) >= |actions| { AskedGrows(asks, from, e); }
  }

  lemma NoneOverrunsNext(asks: seq<bool>, d: nat)
    requires d < |asks| && d + Asked(asks, d) < |asks|
    ensures NoneOverruns(asks, d) <==> NoneOverruns(asks, d + 1)
  {
  }

  lemma UnstruckNext<T>(actions: seq<T>, asks: seq<bool>, front: seq<T>, i: nat)
    requires i < |actions| && !Struck(asks, i)
    ensures front + Unstruck(actions, asks, i) == front + [actions[i]] + Unstruck(actions, asks, i + 1)
    ensures front + actions[i..] == front + [actions[i]] + actions[i + 1..]
  {
    Regroup(front, [actions[i]], Unstruck(actions, asks, i + 1));
  }

  lemma UnstruckSkip<T>(actions: seq<T>, asks: seq<bool>, i: nat)
    requires i < |actions| && Struck(asks, i)
    ensures Unstruck(actions, asks, i) == Unstruck(actions, asks, i + 1)
  {
    assert [] + Unstruck(actions, asks, i + 1) == Unstruck(actions, asks, i + 1);
  }

  lemma {:induction false} PassFromLeaves<T>(actions: seq<T>, asks: seq<bool>, front: seq<T>, d: nat)
    requires |asks| == |actions| && d <= |asks| && |front| == d && d + Asked(asks, d) <= |actions|
    ensures PassFrom(front + actions[d + Asked(asks, d)..], asks, d) == Leaves(actions, asks, front, d)
    decreases |asks| - d, 1
  {
    var at := d + Asked(asks, d);
    if at == |actions| {
      assert front + actions[at..] == front && front + [] == front;
      LeavesAtEnd(actions, asks, front, d, d);
    } else {
      if asks[d] {
        AskingLeaves(actions, asks, front, d);
      } else {
        PassFromLeaves(actions, asks, front + [actions[at]], d + 1);
        QuietLeaves(actions, asks, front, d);
      }
    }
  }

  lemma QuietLeaves<T>(actions: seq<T>, asks: seq<bool>, front: seq<T>, d: nat)
    requires |asks| == |actions| && d < |asks| && |front| == d && !asks[d] && d + Asked(asks, d) < |actions|
    ensures var at := d + Asked(asks, d);
      && Leaves(actions, asks, front, d) == Leaves(actions, asks, front + [actions[at]], d + 1)
      && front + actions[at..] == front + [actions[at]] + actions[at + 1..]
  {
    var at := d + Asked(asks, d);
    assert !Struck(asks, at) by { StruckHere(asks, d); }
    assert NoneOverruns(asks, d) == NoneOverruns(asks, d + 1) by { NoneOverrunsNext(asks, d); }
    assert Asked(asks, d + 1) == Asked(asks, d);
    UnstruckNext(actions, asks, front, at);
  }

  lemma WithoutFirst<T>(front: seq<T>, actions: seq<T>, at: nat)
    requires at < |actions|
    ensures Without(front + actions[at..], |front|) == front + actions[at + 1..]
  {
  }

  /** A request is passed over together with the action behind the one it strikes. */
  lemma StruckLeaves<T>(actions: seq<T>, asks: seq<bool>, front: seq<T>, d: nat)
    requires |asks| == |actions| && d < |asks| && |front| == d && asks[d] && d + Asked(asks, d) + 1 < |actions|
    ensures var at := d + Asked(asks, d);
      && Leaves(actions, asks, front, d) == Leaves(actions, asks, front + [actions[at + 1]], d + 1)
      && front + actions[at + 1..] == front + [actions[at + 1]] + actions[at + 2..]
  {
    var at := d + Asked(asks, d);
    assert Struck(asks, at) by { StruckHere(asks, d); }
    NextStays(asks, d, at + 1);
    assert NoneOverruns(asks, d) == NoneOverruns(asks, d + 1) by { NoneOverrunsNext(asks, d); }
    assert Asked(asks, d + 1) == Asked(asks, d) + 1;
    UnstruckSkip(actions, asks, at);
    UnstruckNext(actions, asks, front, at + 1);
  }

  lemma StruckLast<T>(actions: seq<T>, asks: seq<bool>, d: nat)
    requires |asks| == |actions| && d < |asks| && asks[d] && d + Asked(asks, d) + 1 == |actions|
    ensures Unstruck(actions, asks, d + Asked(asks, d)) == []
  {
    StruckHere(asks, d);
  }

  lemma {:induction false} AskingLeaves<T>(actions: seq<T>, asks: seq<bool>, front: seq<T>, d: nat)
    requires |asks| == |actions| && d < |asks| && |front| == d && asks[d] && d + Asked(asks, d) < |actions|
    ensures PassFrom(front + actions[d + Asked(asks, d)..], asks, d) == Leaves(actions, asks, front, d)
    decreases |asks| - d, 0
  {
    var at := d + Asked(asks, d);
    WithoutFirst(front, actions, at);
    if at + 1 == |actions| {
      assert front + actions[at + 1..] == front && front + [] == front;
      StruckLast(actions, asks, d);
      LeavesAtEnd(actions, asks, front, d, d + 1);
    } else {
      StruckLeaves(actions, asks, front, d);
      PassFromLeaves(actions, asks, front + [actions[at + 1]], d + 1);
    }
  }

  /**
   * Any pass: the request at an index strikes the action as many places to the right as there were
   * requests before it. The pass runs past the end exactly if one of them would, and leaves the others.
   */
  lemma PassLeaves<T>(actions: seq<T>, asks: seq<bool>)
    requires |asks| == |actions|
    ensures PassFrom(actions, asks, 0) ==
      if NoneOverruns(asks, 0) then Some(Unstruck(actions, asks, 0)) else None
  {
    PassFromLeaves(actions, asks, [], 0);
    assert [] + actions[0..] == actions && [] + Unstruck(actions, asks, 0) == Unstruck(actions, asks, 0);
  }

  /** With no request the list stays as it is, and with one exactly the action that made it goes. */
  lemma FewRequests<T>(actions: seq<T>, asks: seq<bool>)
    requires |asks| == |actions| && AtMostOne(asks)
    ensures PassFrom(actions, asks, 0) == Some(SurvivorsFrom(actions, asks, 0))
    ensures (forall i :: 0 <= i < |asks| ==> !asks[i]) ==> SurvivorsFrom(actions, asks, 0) == actions
    ensures forall f :: 0 <= f < |asks| && asks[f] ==>
      SurvivorsFrom(actions, asks, 0) == actions[..f] + actions[f + 1..]
  {
    var f := FirstAsk(asks, 0);
    if f == |asks| {
      NobodyAsks(actions, actions, asks, 0);
      assert actions[0..] == actions;
    } else {
      OneAskerIsExact(actions, asks, f);
      UntilFirst(actions, asks, 0, f);
      NobodyAsks(actions, Without(actions, f), asks, f + 1);
      assert actions[0..f] == actions[..f];
    }
  }
}
