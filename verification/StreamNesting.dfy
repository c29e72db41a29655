/**
 * What a receiver that does not know every kind of object makes of a stream: nothing is lost or
 * reordered, but an object may lose its last parts to the object around it, exactly when what the
 * unknown parts before them are counted twice for covers all that is left to read.
 */
module StreamNesting {
  import opened Basics
  import opened StreamFormat
  import opened StreamReader
  import opened StreamTrees

  /** An object of unknown kind without parts leaves no trace. */
  predicate Vanishes(known: Uuids, t: Node) {
    t.Object? && t.uuid !in known && EncodeAll(64, t.kids) == []
  }

  /** What should be delivered: the tree, with the parts of unknown kind as they were written. */
  function Image(known: Uuids, t: Node): seq<Node>
    decreases t, 1
  {
    if Vanishes(known, t) then []
    else if !t.Object? then [t]
    else if t.uuid in known then [Object(t.name, t.uuid, Images(known, t.kids))]
    else [Opaque(Encode(64, t))]
  }

  function Images(known: Uuids, ts: seq<Node>): seq<Node>
    decreases ts, 0
  {
    if ts == [] then [] else Image(known, ts[0]) + Images(known, ts[1..])
  }

  lemma {:induction false} ImagesSplit(known: Uuids, ts: seq<Node>, us: seq<Node>)
    ensures Images(known, ts + us) == Images(known, ts) + Images(known, us)
    decreases |ts|
  {
    if ts == [] {
      assert ts + us == us;
    } else {
      assert (ts + us)[1..] == ts[1..] + us;
      ImagesSplit(known, ts[1..], us);
    }
  }

  // ----- a whole stream -----

  /** Everything a stream of trees delivers. */
  function LoadForest(known: Uuids, ts: seq<Node>): seq<Node>
    decreases CountAll(ts)
  {
    if ts == [] then []
    else
      CountAllSplits(ReadTree(known, ts[0]).left, ts[1..]);
      ReadTree(known, ts[0]).events + LoadForest(known, Next(known, ts))
  }

  /** Loading never fails on what was written, and delivers what reading the trees delivers. */
  lemma {:induction false} LoadReads(known: Uuids, ts: seq<Node>)
    requires Written(ts)
    ensures LoadAll(known, EncodeAll(64, ts)) == Loaded(LoadForest(known, ts))
    decreases CountAll(ts)
  {
    if ts != [] {
      var s, next := ReadTree(known, ts[0]), Next(known, ts);
      WrittenFirst(ts);
      TreeReads(known, ts[0], EncodeAll(64, ts[1..]) + []);
      FirstReads(known, ts, []);
      assert EncodeAll(64, ts) + [] == EncodeAll(64, ts) && EncodeAll(64, next) + [] == EncodeAll(64, next);
      TreeAccounts(known, ts[0]);
      NextAccounts(known, ts);
      LoadReads(known, next);
    }
  }

  // ----- nothing is lost -----

  datatype Mark = Leaf(node: Node) | Head(name: Bytes, uuid: Bytes)

  /** The records of a tree in the order they were written. */
  function Preorder(t: Node): seq<Mark>
    decreases t, 1
  {
    if t.Object? then [Head(t.name, t.uuid)] + PreorderAll(t.kids) else [Leaf(t)]
  }

  function PreorderAll(ts: seq<Node>): seq<Mark>
    decreases ts, 0
  {
    if ts == [] then [] else Preorder(ts[0]) + PreorderAll(ts[1..])
  }

  lemma {:induction false} PreorderSplits(ts: seq<Node>, us: seq<Node>)
    ensures PreorderAll(ts + us) == PreorderAll(ts) + PreorderAll(us)
    decreases |ts|
  {
    if ts == [] {
      assert ts + us == us;
    } else {
      assert (ts + us)[1..] == ts[1..] + us;
      PreorderSplits(ts[1..], us);
    }
  }

  lemma PreorderOne(t: Node)
    ensures PreorderAll([t]) == Preorder(t)
  {
  }

  function Due(known: Uuids, ts: seq<Node>): seq<Mark> {
    PreorderAll(Images(known, ts))
  }

  lemma DueSplits(known: Uuids, ts: seq<Node>, us: seq<Node>)
    ensures Due(known, ts + us) == Due(known, ts) + Due(known, us)
  {
    ImagesSplit(known, ts, us);
    PreorderSplits(Images(known, ts), Images(known, us));
  }

  lemma DueFirst(known: Uuids, ts: seq<Node>)
    requires ts != []
    ensures Due(known, ts) == PreorderAll(Image(known, ts[0])) + Due(known, ts[1..])
  {
    PreorderSplits(Image(known, ts[0]), Images(known, ts[1..]));
  }

  lemma {:induction false} TreeConserves(known: Uuids, t: Node)
    ensures var s := ReadTree(known, t);
      PreorderAll(s.events) + Due(known, s.left) == PreorderAll(Image(known, t))
    decreases Count(t), 0
  {
    if t.Object? && t.uuid in known {
      var s := ReadForest(known, t.kids, |EncodeAll(64, t.kids)|, 0);
      ForestConserves(known, t.kids, |EncodeAll(64, t.kids)|, 0);
      PreorderOne(Object(t.name, t.uuid, s.events));
      PreorderOne(Object(t.name, t.uuid, Images(known, t.kids)));
    }
  }

  lemma Rejoin(a: seq<Mark>, b: seq<Mark>, c: seq<Mark>, d: seq<Mark>, e: seq<Mark>, f: seq<Mark>)
    requires c + d == b + e && a + b == f
    ensures a + c + d == f + e
  {
    assert a + c + d == a + (c + d) && a + (b + e) == a + b + e;
  }

  lemma RejoinLast(a: seq<Mark>, b: seq<Mark>, c: seq<Mark>, e: seq<Mark>, f: seq<Mark>)
    requires c == b + e && a + b == f
    ensures a + c == f + e
  {
  }

  lemma {:induction false} ForestConserves(known: Uuids, ts: seq<Node>, size: nat, nread: nat)
    ensures var s := ReadForest(known, ts, size, nread);
      PreorderAll(s.events) + Due(known, s.left) == Due(known, ts)
    decreases CountAll(ts), 1
  {
    if nread < size && ts != [] {
      var s, next := ReadTree(known, ts[0]), Next(known, ts);
      CountAllSplits(s.left, ts[1..]);
      TreeConserves(known, ts[0]);
      DueSplits(known, s.left, ts[1..]);
      ForestConserves(known, next, size, nread + s.counted);
      DueFirst(known, ts);
      var r := ReadForest(known, next, size, nread + s.counted);
      PreorderSplits(s.events, r.events);
      Rejoin(PreorderAll(s.events), Due(known, s.left), PreorderAll(r.events), Due(known, r.left),
             Due(known, ts[1..]), PreorderAll(Image(known, ts[0])));
    }
  }

  /**
   * Every record that leaves a trace is delivered once, in the order written, whatever kinds are known:
   * what is delivered and what should be differ at most in how the records nest.
   */
  lemma {:induction false} NothingIsLost(known: Uuids, ts: seq<Node>)
    ensures PreorderAll(LoadForest(known, ts)) == PreorderAll(Images(known, ts))
    decreases CountAll(ts)
  {
    if ts != [] {
      var s, next := ReadTree(known, ts[0]), Next(known, ts);
      CountAllSplits(s.left, ts[1..]);
      TreeConserves(known, ts[0]);
      DueSplits(known, s.left, ts[1..]);
      NothingIsLost(known, next);
      DueFirst(known, ts);
      PreorderSplits(s.events, LoadForest(known, next));
      RejoinLast(PreorderAll(s.events), Due(known, s.left), Due(known, next), Due(known, ts[1..]),
        PreorderAll(Image(known, ts[0])));
    }
  }

  // ----- when objects keep their parts -----

  /** By how much reading a tree counts more than it has. */
  function Over(known: Uuids, t: Node): nat
    decreases t, 1
  {
    if !t.Object? || Vanishes(known, t) then 0
    else if t.uuid in known then OverAll(known, t.kids)
    else HeadSize(t)
  }

  function OverAll(known: Uuids, ts: seq<Node>): nat
    decreases ts, 0
  {
    if ts == [] then 0 else Over(known, ts[0]) + OverAll(known, ts[1..])
  }

  /** In every object read, each part begins before the excess counted so far covers the rest. */
  predicate Safe(known: Uuids, t: Node)
    decreases t, 1
  {
    t.Object? && t.uuid in known ==> SafeAll(known, t.kids, 0)
  }

  predicate SafeAll(known: Uuids, ts: seq<Node>, over: nat)
    decreases ts, 0
  {
    ts != [] ==>
      && (Vanishes(known, ts[0]) || over < |EncodeAll(64, ts)|)
      && Safe(known, ts[0])
      && SafeAll(known, ts[1..], over + Over(known, ts[0]))
  }

  predicate AllVanish(known: Uuids, ts: seq<Node>) {
    forall i :: 0 <= i < |ts| ==> Vanishes(known, ts[i])
  }

  lemma {:induction false} VanishedPrefix(known: Uuids, v: seq<Node>, ts: seq<Node>, over: nat)
    requires AllVanish(known, v)
    ensures Images(known, v + ts) == Images(known, ts)
    ensures OverAll(known, v + ts) == OverAll(known, ts)
    ensures SafeAll(known, v + ts, over) <==> SafeAll(known, ts, over)
    decreases |v|
  {
    if v == [] {
      assert v + ts == ts;
    } else {
      assert (v + ts)[1..] == v[1..] + ts;
      VanishedPrefix(known, v[1..], ts, over);
    }
  }

  /** With the rest covered, a safe forest has nothing more to deliver, and the other way round. */
  lemma {:induction false} CoveredIff(known: Uuids, ts: seq<Node>, over: nat)
    requires over >= |EncodeAll(64, ts)|
    ensures SafeAll(known, ts, over) <==> Images(known, ts) == []
    ensures SafeAll(known, ts, over) ==> AllVanish(known, ts) && OverAll(known, ts) == 0
    decreases |ts|
  {
    if ts != [] {
      CoveredIff(known, ts[1..], over + Over(known, ts[0]));
    }
  }

  ghost predicate ReadWhole(known: Uuids, s: Step, size: nat, over: nat) {
    AllVanish(known, s.left) && s.counted + |EncodeAll(64, s.left)| == size + over
  }

  ghost predicate TreeExact(known: Uuids, t: Node) {
    var s := ReadTree(known, t);
    && |s.events| == |Image(known, t)|
    && (s.events == Image(known, t) <==> Safe(known, t))
    && (Safe(known, t) ==> ReadWhole(known, s, |Encode(64, t)|, Over(known, t)))
  }

  ghost predicate ForestExact(known: Uuids, ts: seq<Node>, size: nat, nread: nat, over: nat) {
    var s := ReadForest(known, ts, size, nread);
    && (s.events == Images(known, ts) <==> SafeAll(known, ts, over))
    && (SafeAll(known, ts, over) ==> ReadWhole(known, s, nread + |EncodeAll(64, ts)|, OverAll(known, ts)))
  }

  /** A tree is delivered as it should be exactly if it is safe. */
  lemma {:induction false} TreeExactIff(known: Uuids, t: Node)
    requires Fits(64, t) && Plain(t)
    ensures TreeExact(known, t)
    decreases Count(t), 0
  {
    if t.Object? && t.uuid in known {
      ForestExactIff(known, t.kids, |EncodeAll(64, t.kids)|, 0, 0);
    }
  }

  lemma NextExact(known: Uuids, ts: seq<Node>, over: nat)
    requires ts != [] && ReadWhole(known, ReadTree(known, ts[0]), |Encode(64, ts[0])|, Over(known, ts[0]))
    ensures var next := Next(known, ts);
      && ReadTree(known, ts[0]).counted + |EncodeAll(64, next)| == |EncodeAll(64, ts)| + Over(known, ts[0])
      && Images(known, next) == Images(known, ts[1..]) && OverAll(known, next) == OverAll(known, ts[1..])
      && (SafeAll(known, next, over) <==> SafeAll(known, ts[1..], over))
  {
    var left := ReadTree(known, ts[0]).left;
    EncodeAllSplits(64, left, ts[1..]);
    VanishedPrefix(known, left, ts[1..], over);
  }

  lemma NextReady(known: Uuids, ts: seq<Node>)
    requires ts != [] && Written(ts)
    requires ReadWhole(known, ReadTree(known, ts[0]), |Encode(64, ts[0])|, Over(known, ts[0]))
    ensures Written(Next(known, ts)) && CountAll(Next(known, ts)) < CountAll(ts)
    ensures ReadTree(known, ts[0]).counted + |EncodeAll(64, Next(known, ts))| ==
      |EncodeAll(64, ts)| + Over(known, ts[0])
  {
    WrittenFirst(ts);
    TreeAccounts(known, ts[0]);
    NextAccounts(known, ts);
    NextExact(known, ts, 0);
  }

  lemma SameParts(a: seq<Node>, b: seq<Node>, c: seq<Node>, d: seq<Node>)
    requires |a| == |c|
    ensures a + b == c + d <==> a == c && b == d
  {
    if a + b == c + d {
      assert a == (a + b)[..|a|] && b == (a + b)[|a|..];
    }
  }

  lemma UnsafeFirst(known: Uuids, ts: seq<Node>, size: nat, nread: nat, over: nat)
    requires ts != [] && nread < size && TreeExact(known, ts[0]) && !Safe(known, ts[0])
    ensures ForestExact(known, ts, size, nread, over)
  {
  }

  lemma SafeUnfolds(known: Uuids, ts: seq<Node>, over: nat)
    requires ts != [] && Safe(known, ts[0]) && over < |EncodeAll(64, ts)|
    requires ReadWhole(known, ReadTree(known, ts[0]), |Encode(64, ts[0])|, Over(known, ts[0]))
    ensures var next := Next(known, ts);
      && Images(known, ts) == Image(known, ts[0]) + Images(known, next)
      && OverAll(known, ts) == Over(known, ts[0]) + OverAll(known, next)
      && (SafeAll(known, ts, over) <==> SafeAll(known, next, over + Over(known, ts[0])))
      && ReadTree(known, ts[0]).counted + |EncodeAll(64, next)| == |EncodeAll(64, ts)| + Over(known, ts[0])
  {
    NextExact(known, ts, over + Over(known, ts[0]));
  }

  lemma SafeFirst(known: Uuids, ts: seq<Node>, size: nat, nread: nat, over: nat, nread': nat, over': nat)
    requires ts != [] && nread < size && nread + |EncodeAll(64, ts)| == size + over
    requires TreeExact(known, ts[0]) && Safe(known, ts[0])
    requires nread' == nread + ReadTree(known, ts[0]).counted && over' == over + Over(known, ts[0])
    requires ForestExact(known, Next(known, ts), size, nread', over')
    ensures ForestExact(known, ts, size, nread, over)
  {
    var s, next := ReadTree(known, ts[0]), Next(known, ts);
    var r := ReadForest(known, next, size, nread');
    ForestUnfolds(known, ts, size, nread);
    SafeUnfolds(known, ts, over);
    SameParts(s.events, r.events, Image(known, ts[0]), Images(known, next));
  }

  lemma {:induction false} ForestExactIff(known: Uuids, ts: seq<Node>, size: nat, nread: nat, over: nat)
    requires Written(ts) && nread + |EncodeAll(64, ts)| == size + over
    ensures ForestExact(known, ts, size, nread, over)
    decreases CountAll(ts), 1
  {
    if nread >= size {
      CoveredIff(known, ts, over);
    } else if ts != [] {
      WrittenFirst(ts);
      TreeExactIff(known, ts[0]);
      if Safe(known, ts[0]) {
        NextReady(known, ts);
        var nread', over' := nread + ReadTree(known, ts[0]).counted, over + Over(known, ts[0]);
        ForestExactIff(known, Next(known, ts), size, nread', over');
        SafeFirst(known, ts, size, nread, over, nread', over');
      } else {
        UnsafeFirst(known, ts, size, nread, over);
      }
    }
  }

  predicate AllSafe(known: Uuids, ts: seq<Node>) {
    forall i :: 0 <= i < |ts| ==> Safe(known, ts[i])
  }

  lemma AllSafeNext(known: Uuids, ts: seq<Node>)
    requires ts != [] && Safe(known, ts[0]) && AllVanish(known, ReadTree(known, ts[0]).left)
    ensures AllSafe(known, Next(known, ts)) <==> AllSafe(known, ts)
  {
    var left, next := ReadTree(known, ts[0]).left, Next(known, ts);
    assert forall i :: 0 < i < |ts| ==> next[|left| + i - 1] == ts[i];
  }

  /** A whole stream is delivered as it should be exactly if each of its trees is safe. */
  lemma {:induction false} LoadExactIff(known: Uuids, ts: seq<Node>)
    requires Written(ts)
    ensures LoadAll(known, EncodeAll(64, ts)) == Loaded(Images(known, ts)) <==> AllSafe(known, ts)
  {
    LoadReads(known, ts);
    LoadForestExactIff(known, ts);
  }

  lemma {:induction false} LoadForestExactIff(known: Uuids, ts: seq<Node>)
    requires Written(ts)
    ensures LoadForest(known, ts) == Images(known, ts) <==> AllSafe(known, ts)
    decreases CountAll(ts)
  {
    if ts != [] {
      var s, next := ReadTree(known, ts[0]), Next(known, ts);
      WrittenFirst(ts);
      TreeExactIff(known, ts[0]);
      SameParts(s.events, LoadForest(known, next), Image(known, ts[0]), Images(known, ts[1..]));
      if Safe(known, ts[0]) {
        TreeAccounts(known, ts[0]);
        NextAccounts(known, ts);
        NextExact(known, ts, 0);
        LoadForestExactIff(known, next);
        AllSafeNext(known, ts);
      }
    }
  }

  /** An object of a known kind whose last part is delivered beside it, behind a part of unknown kind. */
  lemma PartMovesOut(known: Uuids, name: Bytes, uuid: Bytes, other: Bytes, first: Node, last: Node)
    requires GoodName(name) && |uuid| == UUID_SIZE && |other| == UUID_SIZE && uuid in known && other !in known
    requires first == Object(name, other, [Word([], 1)]) && last == Word([], 2)
    ensures var t := Object(name, uuid, [first, last]);
      && !Safe(known, t)
      && LoadAll(known, Encode(64, t)) == Loaded([Object(name, uuid, [Opaque(Encode(64, first))]), last])
  {
    Unrolled(first, last);
    OneWord(first);
    assert |Encode(64, last)| == 16;
    StopsAfterFirst(known, first, last);
    var t := Object(name, uuid, [first, last]);
    LoadsTwo(known, t, last);
    assert SafeAll(known, [first, last], 0) ==> SafeAll(known, [first, last][1..], HeadSize(first));
    BothFit(name, uuid, first, last);
    AsForest(t, [t]);
    LoadReads(known, [t]);
  }

  lemma BothFit(name: Bytes, uuid: Bytes, first: Node, last: Node)
    requires GoodName(name) && |uuid| == UUID_SIZE && first.Object? && first.name == name && |first.uuid| == UUID_SIZE
    requires first.kids == [Word([], 1)] && last == Word([], 2)
    ensures Fits(64, Object(name, uuid, [first, last])) && Plain(Object(name, uuid, [first, last]))
  {
    var word, kids := Word([], 1), [first, last];
    AsForest(word, first.kids);
    AsForest(last, [last]);
    assert |Encode(64, word)| == 16 && |Encode(64, last)| == 16;
    assert Fits(64, first) && Plain(first);
    Unrolled(first, last);
    assert kids[1..] == [last];
    assert AllFit(64, kids) && AllPlain(kids);
  }

  /** One tree as a forest. */
  lemma AsForest(t: Node, ts: seq<Node>)
    requires Fits(64, t) && Plain(t) && ts == [t]
    ensures Written(ts) && EncodeAll(64, ts) == Encode(64, t)
  {
    assert ts[1..] == [];
    assert Encode(64, t) + [] == Encode(64, t);
  }

  lemma StopsAfterFirst(known: Uuids, a: Node, b: Node)
    requires var s := ReadTree(known, a);
      s.left == [] && s.counted >= |EncodeAll(64, [a, b])| > 0
    ensures ReadForest(known, [a, b], |EncodeAll(64, [a, b])|, 0) ==
      Step(ReadTree(known, a).events, ReadTree(known, a).counted, [b])
  {
  }

  lemma LoadsTwo(known: Uuids, t: Node, last: Node)
    requires ReadTree(known, t).left == [last] && !last.Object?
    ensures LoadForest(known, [t]) == ReadTree(known, t).events + [last]
  {
    assert Next(known, [t]) == [last];
    assert Next(known, [last]) == [];
    assert LoadForest(known, [last]) == [last] + LoadForest(known, []);
    assert LoadForest(known, [t]) == ReadTree(known, t).events + LoadForest(known, [last]);
  }

  lemma Unrolled(a: Node, b: Node)
    ensures [a, b][1..] == [b] && [b][1..] == []
    ensures EncodeAll(64, [a, b]) == Encode(64, a) + Encode(64, b)
  {
    assert EncodeAll(64, [b]) == Encode(64, b) + EncodeAll(64, [b][1..]);
    assert EncodeAll(64, [a, b]) == Encode(64, a) + EncodeAll(64, [a, b][1..]);
  }

  lemma OneWord(first: Node)
    requires first.Object? && first.kids == [Word([], 1)]
    ensures EncodeAll(64, first.kids) != []
  {
  }

  // ----- readers that know every kind, and readers that do not -----

  /** Every object in the tree is of a known kind. */
  ghost predicate Known(known: Uuids, t: Node)
    decreases t, 1
  {
    t.Object? ==> t.uuid in known && AllKnown(known, t.kids)
  }

  ghost predicate AllKnown(known: Uuids, ts: seq<Node>)
    decreases ts, 0
  {
    ts == [] || (Known(known, ts[0]) && AllKnown(known, ts[1..]))
  }

  lemma {:induction false} KnownIsExact(known: Uuids, t: Node)
    requires Fits(64, t) && Plain(t) && Known(known, t)
    ensures Safe(known, t) && Image(known, t) == [t] && Over(known, t) == 0
    decreases t, 1
  {
    if t.Object? { AllKnownAreExact(known, t.kids); }
  }

  lemma {:induction false} AllKnownAreExact(known: Uuids, ts: seq<Node>)
    requires Written(ts) && AllKnown(known, ts)
    ensures SafeAll(known, ts, 0) && AllSafe(known, ts) && Images(known, ts) == ts && OverAll(known, ts) == 0
    decreases ts, 0
  {
    if ts != [] {
      WrittenFirst(ts);
      KnownIsExact(known, ts[0]);
      AllKnownAreExact(known, ts[1..]);
      assert [ts[0]] + ts[1..] == ts;
    }
  }

  /** What was written is read back by a receiver that knows every kind in it. */
  lemma RoundTrip(known: Uuids, ts: seq<Node>)
    requires Written(ts) && AllKnown(known, ts)
    ensures LoadAll(known, EncodeAll(64, ts)) == Loaded(ts)
  {
    AllKnownAreExact(known, ts);
    LoadExactIff(known, ts);
  }

  /** No object that is read in parts has an unknown one without parts. */
  ghost predicate Lasting(known: Uuids, t: Node)
    decreases t, 1
  {
    t.Object? ==> !Vanishes(known, t) && (t.uuid in known ==> AllLast(known, t.kids))
  }

  ghost predicate AllLast(known: Uuids, ts: seq<Node>)
    decreases ts, 0
  {
    ts == [] || (Lasting(known, ts[0]) && AllLast(known, ts[1..]))
  }

  /** All the records of a tree as a receiver should see them, an unknown object being one record. */
  function Marks(known: Uuids, t: Node): seq<Mark>
    decreases t, 1
  {
    if !t.Object? then [Leaf(t)]
    else if t.uuid in known then [Head(t.name, t.uuid)] + MarksOf(known, t.kids)
    else [Leaf(Opaque(Encode(64, t)))]
  }

  function MarksOf(known: Uuids, ts: seq<Node>): seq<Mark>
    decreases ts, 0
  {
    if ts == [] then [] else Marks(known, ts[0]) + MarksOf(known, ts[1..])
  }

  lemma {:induction false} MarksIff(known: Uuids, t: Node)
    ensures var seen := PreorderAll(Image(known, t));
      && |seen| <= |Marks(known, t)| && (Lasting(known, t) ==> seen == Marks(known, t))
      && (!Lasting(known, t) ==> |seen| < |Marks(known, t)|)
    decreases t, 1
  {
    if t.Object? && t.uuid in known {
      MarksOfIff(known, t.kids);
      PreorderOne(Object(t.name, t.uuid, Images(known, t.kids)));
    } else if !Vanishes(known, t) {
      PreorderOne(Image(known, t)[0]);
    }
  }

  lemma {:induction false} MarksOfIff(known: Uuids, ts: seq<Node>)
    ensures var seen := PreorderAll(Images(known, ts));
      && |seen| <= |MarksOf(known, ts)| && (AllLast(known, ts) ==> seen == MarksOf(known, ts))
      && (!AllLast(known, ts) ==> |seen| < |MarksOf(known, ts)|)
    decreases ts, 0
  {
    if ts != [] {
      MarksIff(known, ts[0]);
      MarksOfIff(known, ts[1..]);
      PreorderSplits(Image(known, ts[0]), Images(known, ts[1..]));
    }
  }

  /** Every record written is delivered if and only if no object of unknown kind is without parts. */
  lemma EveryRecordIff(known: Uuids, ts: seq<Node>)
    ensures PreorderAll(LoadForest(known, ts)) == MarksOf(known, ts) <==> AllLast(known, ts)
  {
    NothingIsLost(known, ts);
    MarksOfIff(known, ts);
  }

  /** Writing the image of a tree writes the tree. */
  lemma {:induction false} ImageWritesSame(known: Uuids, t: Node)
    requires Lasting(known, t)
    ensures |Image(known, t)| == 1 && Encode(64, Image(known, t)[0]) == Encode(64, t)
    decreases t, 1
  {
    if t.Object? && t.uuid in known { ImagesWriteSame(known, t.kids); }
  }

  lemma {:induction false} ImagesWriteSame(known: Uuids, ts: seq<Node>)
    requires AllLast(known, ts)
    ensures EncodeAll(64, Images(known, ts)) == EncodeAll(64, ts)
    decreases ts, 0
  {
    if ts != [] {
      ImageWritesSame(known, ts[0]);
      ImagesWriteSame(known, ts[1..]);
      var n := Image(known, ts[0])[0];
      assert Image(known, ts[0]) == [n];
      assert ([n] + Images(known, ts[1..]))[1..] == Images(known, ts[1..]);
    }
  }

  datatype Relayed = Broken | Relayed(bytes: Bytes)

  /** The bytes after each receiver in turn has read them and written what it was delivered. */
  function Relay(receivers: seq<Uuids>, bytes: Bytes): Relayed {
    if receivers == [] then Relayed(bytes)
    else
      match LoadAll(receivers[0], bytes)
      case LoadThrew => Broken
      case Loaded(events) => Relay(receivers[1..], EncodeAll(64, events))
  }

  /**
   * Any number of receivers, whatever each of them knows, hand a stream on byte for byte if its
   * trees are safe with each, so that whoever knows every kind in it then reads the original.
   */
  lemma {:induction false} RelayKeepsBytes(receivers: seq<Uuids>, ts: seq<Node>)
    requires Written(ts)
    requires forall i :: 0 <= i < |receivers| ==> AllSafe(receivers[i], ts) && AllLast(receivers[i], ts)
    ensures Relay(receivers, EncodeAll(64, ts)) == Relayed(EncodeAll(64, ts))
    ensures forall known :: AllKnown(known, ts) ==>
      LoadAll(known, Relay(receivers, EncodeAll(64, ts)).bytes) == Loaded(ts)
    decreases |receivers|
  {
    if receivers != [] {
      LoadExactIff(receivers[0], ts);
      ImagesWriteSame(receivers[0], ts);
      RelayKeepsBytes(receivers[1..], ts);
    }
    forall known | AllKnown(known, ts)
      ensures LoadAll(known, EncodeAll(64, ts)) == Loaded(ts)
    {
      RoundTrip(known, ts);
    }
  }
}
