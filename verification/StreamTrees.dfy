/**
 * Reading written trees. The byte reader does on any written forest what a simple reader of trees
 * does, which counts what it has read as the byte reader does and so may leave parts of an object
 * to whatever encloses it.
 */
module StreamTrees {
  import opened Basics
  import opened StreamFormat
  import opened StreamReader

  /** Reading one tree: what is delivered, how much is counted, and what of it is left unread. */
  datatype Step = Step(events: seq<Node>, counted: nat, left: seq<Node>)

  function Count(t: Node): nat
    decreases t, 1
  {
    if t.Object? then 1 + CountAll(t.kids) else 1
  }

  function CountAll(ts: seq<Node>): nat
    decreases ts, 0
  {
    if ts == [] then 0 else Count(ts[0]) + CountAll(ts[1..])
  }

  lemma {:induction false} CountAllSplits(ts: seq<Node>, us: seq<Node>)
    ensures CountAll(ts + us) == CountAll(ts) + CountAll(us)
    decreases |ts|
  {
    if ts == [] {
      assert ts + us == us;
    } else {
      assert (ts + us)[1..] == ts[1..] + us;
      CountAllSplits(ts[1..], us);
    }
  }

  /** The head of an object in front of its parts. */
  function HeadSize(t: Node): nat {
    if t.Object? then DESCRIPTOR_SIZE + |t.name| + UUID_SIZE else 0
  }

  function ReadTree(known: Uuids, t: Node): (s: Step)
    ensures CountAll(s.left) < Count(t)
    decreases Count(t), 0
  {
    var size := |Encode(64, t)|;
    if !t.Object? then Step([t], size, [])
    else if t.uuid !in known then
      if EncodeAll(64, t.kids) == [] then Step([], size, []) else Step([Opaque(Encode(64, t))], size + HeadSize(t), [])
    else
      var s := ReadForest(known, t.kids, |EncodeAll(64, t.kids)|, 0);
      Step([Object(t.name, t.uuid, s.events)], HeadSize(t) + s.counted, s.left)
  }

  /** Read trees until `size` is reached; what one leaves unread comes next. */
  function ReadForest(known: Uuids, ts: seq<Node>, size: nat, nread: nat): (s: Step)
    ensures CountAll(s.left) <= CountAll(ts)
    decreases CountAll(ts), 1
  {
    if nread >= size || ts == [] then Step([], nread, ts)
    else
      var s := ReadTree(known, ts[0]);
      CountAllSplits(s.left, ts[1..]);
      var r := ReadForest(known, s.left + ts[1..], size, nread + s.counted);
      Step(s.events + r.events, r.counted, r.left)
  }

  /** No record in the tree is itself an opaque one. */
  ghost predicate Plain(t: Node)
    decreases t, 1
  {
    match t
    case Object(_, _, kids) => AllPlain(kids)
    case Opaque(_) => false
    case _ => true
  }

  ghost predicate AllPlain(ts: seq<Node>)
    decreases ts, 0
  {
    ts == [] || (Plain(ts[0]) && AllPlain(ts[1..]))
  }

  /** What can be written on a 64-bit stream. */
  ghost predicate Written(ts: seq<Node>) {
    AllFit(64, ts) && AllPlain(ts)
  }

  lemma {:induction false} WrittenSplits(ts: seq<Node>, us: seq<Node>)
    ensures Written(ts + us) <==> Written(ts) && Written(us)
    decreases |ts|
  {
    if ts == [] {
      assert ts + us == us;
    } else {
      assert (ts + us)[1..] == ts[1..] + us;
      WrittenSplits(ts[1..], us);
    }
  }

  lemma WrittenFirst(ts: seq<Node>)
    requires ts != [] && Written(ts)
    ensures Fits(64, ts[0]) && Plain(ts[0]) && Written(ts[1..])
    ensures |Encode(64, ts[0])| >= DESCRIPTOR_SIZE
  {
  }

  /** The unread part was written, and everything but it was counted. */
  ghost predicate Accounted(s: Step, size: nat) {
    Written(s.left) && s.counted + |EncodeAll(64, s.left)| >= size
  }

  lemma {:induction false} TreeAccounts(known: Uuids, t: Node)
    requires Fits(64, t) && Plain(t)
    ensures Accounted(ReadTree(known, t), |Encode(64, t)|)
    decreases Count(t), 0
  {
    if t.Object? && t.uuid in known {
      ForestAccounts(known, t.kids, |EncodeAll(64, t.kids)|, 0);
    }
  }

  /** What follows the first tree once that has been read. */
  function Next(known: Uuids, ts: seq<Node>): seq<Node>
    requires ts != []
  {
    ReadTree(known, ts[0]).left + ts[1..]
  }

  lemma NextAccounts(known: Uuids, ts: seq<Node>)
    requires ts != [] && Written(ts) && Accounted(ReadTree(known, ts[0]), |Encode(64, ts[0])|)
    ensures Written(Next(known, ts)) && CountAll(Next(known, ts)) < CountAll(ts)
    ensures ReadTree(known, ts[0]).counted + |EncodeAll(64, Next(known, ts))| >= |EncodeAll(64, ts)|
  {
    var s := ReadTree(known, ts[0]);
    CountAllSplits(s.left, ts[1..]);
    WrittenSplits(s.left, ts[1..]);
    EncodeAllSplits(64, s.left, ts[1..]);
  }

  lemma {:induction false} ForestAccounts(known: Uuids, ts: seq<Node>, size: nat, nread: nat)
    requires Written(ts) && nread + |EncodeAll(64, ts)| >= size
    ensures Accounted(ReadForest(known, ts, size, nread), nread + |EncodeAll(64, ts)|)
    ensures ReadForest(known, ts, size, nread).counted >= size
    decreases CountAll(ts), 1
  {
    if nread < size && ts != [] {
      WrittenFirst(ts);
      TreeAccounts(known, ts[0]);
      NextAccounts(known, ts);
      ForestAccounts(known, Next(known, ts), size, nread + ReadTree(known, ts[0]).counted);
    }
  }

  // ----- the byte reader refines the tree reader -----

  lemma LeafReads(known: Uuids, t: Node, rest: Bytes)
    requires Fits(64, t) && Plain(t) && !t.Object?
    ensures ReadOne(known, Encode(64, t) + rest) == Got([t], |Encode(64, t)|, rest)
  {
    match t
    case Word(name, value) => WordReadsIff(known, 64, name, value, rest);
    case Double(name, bits) => ScalarReads(known, T_DOUBLE, name, bits, rest);
    case Text(name, text) =>
      CStringOfText(text);
      ScalarReads(known, T_STRING, name, text, rest);
    case Blob(name, bytes) => ScalarReads(known, T_BYTES, name, bytes, rest);
  }

  /** An object of unknown kind is kept byte for byte if it has parts, and is lost if it has none. */
  lemma UnknownReads(known: Uuids, t: Node, rest: Bytes)
    requires Fits(64, t) && t.Object? && t.uuid !in known
    ensures var e := Encode(64, t);
      ReadOne(known, e + rest) ==
        if EncodeAll(64, t.kids) == [] then Got([], |e|, rest) else Got([Opaque(e)], |e| + HeadSize(t), rest)
  {
    var body := EncodeAll(64, t.kids);
    ObjectHeadReads(known, t.name, t.uuid, body, rest);
    if body == [] {
      assert body + rest == rest;
    } else {
      Take(body, rest);
    }
  }

  /** On any written tree the byte reader delivers, counts and leaves what the tree reader does. */
  lemma {:induction false} TreeReads(known: Uuids, t: Node, rest: Bytes)
    requires Fits(64, t) && Plain(t)
    ensures var s := ReadTree(known, t);
      ReadOne(known, Encode(64, t) + rest) == Got(s.events, s.counted, EncodeAll(64, s.left) + rest)
    decreases Count(t), 0
  {
    if !t.Object? {
      LeafReads(known, t, rest);
      assert EncodeAll(64, []) + rest == rest;
    } else if t.uuid !in known {
      UnknownReads(known, t, rest);
      assert EncodeAll(64, []) + rest == rest;
    } else {
      var body := EncodeAll(64, t.kids);
      ForestAccounts(known, t.kids, |body|, 0);
      ForestReads(known, t.kids, |body|, 0, rest);
      KnownReads(known, t, rest, ReadForest(known, t.kids, |body|, 0));
    }
  }

  lemma KnownReads(known: Uuids, t: Node, rest: Bytes, s: Step)
    requires Fits(64, t) && Plain(t) && t.Object? && t.uuid in known
    requires var body := EncodeAll(64, t.kids);
      ReadBody(known, body + rest, |body|, 0) == Body(s.events, s.counted, EncodeAll(64, s.left) + rest)
    requires s == ReadForest(known, t.kids, |EncodeAll(64, t.kids)|, 0) && s.counted >= |EncodeAll(64, t.kids)|
    ensures ReadOne(known, Encode(64, t) + rest) ==
      Got([Object(t.name, t.uuid, s.events)], HeadSize(t) + s.counted, EncodeAll(64, s.left) + rest)
  {
    var body := EncodeAll(64, t.kids);
    ObjectHeadReads(known, t.name, t.uuid, body, rest);
    CStringOfText(t.name);
    if s.counted == 0 {
      assert body == [];
      assert body + rest == rest;
      EmptyBody(t.kids);
    }
  }

  lemma EmptyBody(ts: seq<Node>)
    requires Written(ts) && EncodeAll(64, ts) == []
    ensures ts == []
  {
    if ts != [] { WrittenFirst(ts); }
  }

  lemma BodyStep(known: Uuids, input: Bytes, size: nat, nread: nat, s: Step, mid: Bytes, r: Step, end: Bytes)
    requires nread < size && ReadOne(known, input) == Got(s.events, s.counted, mid)
    requires ReadBody(known, mid, size, nread + s.counted) == Body(r.events, r.counted, end)
    ensures ReadBody(known, input, size, nread) == Body(s.events + r.events, r.counted, end)
  {
  }

  lemma FirstReads(known: Uuids, ts: seq<Node>, rest: Bytes)
    requires ts != [] && Written(ts)
    requires var s := ReadTree(known, ts[0]);
      ReadOne(known, Encode(64, ts[0]) + (EncodeAll(64, ts[1..]) + rest)) ==
        Got(s.events, s.counted, EncodeAll(64, s.left) + (EncodeAll(64, ts[1..]) + rest))
    ensures var s := ReadTree(known, ts[0]);
      ReadOne(known, EncodeAll(64, ts) + rest) == Got(s.events, s.counted, EncodeAll(64, Next(known, ts)) + rest)
  {
    var s, more := ReadTree(known, ts[0]), EncodeAll(64, ts[1..]);
    EncodeAllSplits(64, s.left, ts[1..]);
    Regroup(Encode(64, ts[0]), more, rest);
    Regroup(EncodeAll(64, s.left), more, rest);
  }

  lemma ForestUnfolds(known: Uuids, ts: seq<Node>, size: nat, nread: nat)
    requires ts != [] && nread < size
    ensures var s := ReadTree(known, ts[0]);
      var r := ReadForest(known, Next(known, ts), size, nread + s.counted);
      ReadForest(known, ts, size, nread) == Step(s.events + r.events, r.counted, r.left)
  {
  }

  lemma NextIsReady(known: Uuids, ts: seq<Node>)
    requires ts != [] && Written(ts)
    ensures Written(Next(known, ts)) && CountAll(Next(known, ts)) < CountAll(ts)
    ensures ReadTree(known, ts[0]).counted + |EncodeAll(64, Next(known, ts))| >= |EncodeAll(64, ts)|
  {
    WrittenFirst(ts);
    TreeAccounts(known, ts[0]);
    NextAccounts(known, ts);
  }

  lemma {:induction false} ForestReads(known: Uuids, ts: seq<Node>, size: nat, nread: nat, rest: Bytes)
    requires Written(ts) && nread + |EncodeAll(64, ts)| >= size
    ensures var s := ReadForest(known, ts, size, nread);
      ReadBody(known, EncodeAll(64, ts) + rest, size, nread) == Body(s.events, s.counted, EncodeAll(64, s.left) + rest)
    decreases CountAll(ts), 1
  {
    if nread < size && ts != [] {
      NextIsReady(known, ts);
      WrittenFirst(ts);
      TreeReads(known, ts[0], EncodeAll(64, ts[1..]) + rest);
      FirstReads(known, ts, rest);
      var s, next := ReadTree(known, ts[0]), Next(known, ts);
      ForestReads(known, next, size, nread + s.counted, rest);
      var r := ReadForest(known, next, size, nread + s.counted);
      BodyStep(known, EncodeAll(64, ts) + rest, size, nread, s, EncodeAll(64, next) + rest, r,
        EncodeAll(64, r.left) + rest);
      ForestUnfolds(known, ts, size, nread);
    }
  }
}
