/**
 * Settings that a program did not understand reach one that does: whatever sessions lie between, the
 * trees that were written are the trees that are read.
 */
module SettingsOrigins {
  import opened Basics
  import opened StreamFormat
  import opened StreamReader
  import opened StreamTrees
  import opened StreamNesting
  import opened SettingsStore

  // ----- a written forest is determined by its bytes -----

  ghost function Kinds(t: Node): Uuids
    decreases t, 1
  {
    if t.Object? then {t.uuid} + KindsOf(t.kids) else {}
  }

  ghost function KindsOf(ts: seq<Node>): Uuids
    decreases ts, 0
  {
    if ts == [] then {} else Kinds(ts[0]) + KindsOf(ts[1..])
  }

  lemma {:induction false} KindsAreKnown(known: Uuids, t: Node)
    requires Kinds(t) <= known
    ensures Known(known, t)
    decreases t, 1
  {
    if t.Object? { AllKindsAreKnown(known, t.kids); }
  }

  lemma {:induction false} AllKindsAreKnown(known: Uuids, ts: seq<Node>)
    requires KindsOf(ts) <= known
    ensures AllKnown(known, ts)
    decreases ts, 0
  {
    if ts != [] {
      KindsAreKnown(known, ts[0]);
      AllKindsAreKnown(known, ts[1..]);
    }
  }

  /** Two forests that are written alike are the same. */
  lemma EncodingIsInjective(ts: seq<Node>, us: seq<Node>)
    requires Written(ts) && Written(us) && EncodeAll(64, ts) == EncodeAll(64, us)
    ensures ts == us
  {
    var known := KindsOf(ts) + KindsOf(us);
    AllKindsAreKnown(known, ts);
    AllKindsAreKnown(known, us);
    RoundTrip(known, ts);
    RoundTrip(known, us);
  }

  /** What is kept of a tree determines the tree. */
  lemma OriginIsUnique(known: Uuids, n: Node, t: Node, u: Node)
    requires Holds(known, n, t) && Holds(known, n, u)
    ensures t == u
  {
    var ts, us := [t], [u];
    AsForest(t, ts);
    AsForest(u, us);
    EncodingIsInjective(ts, us);
    assert t == ts[0] && u == us[0];
  }

  // ----- everything in the store comes from a tree of known kinds -----

  /** The record was made of a tree all of whose kinds are in `all`. */
  ghost predicate Traced(known: Uuids, all: Uuids, n: Node) {
    exists t :: Holds(known, n, t) && Known(all, t)
  }

  ghost predicate TracedStore(known: Uuids, all: Uuids, s: Store) {
    && (forall k :: k in s.objects ==> Traced(known, all, s.objects[k]))
    && (forall i :: 0 <= i < |s.opaques| ==> Traced(known, all, Opaque(s.opaques[i])))
  }

  lemma DeliverTraces(known: Uuids, all: Uuids, s: Store, n: Node)
    requires TracedStore(known, all, s) && (n.Object? || n.Opaque? ==> Traced(known, all, n)) && Deliver(s, n).Kept?
    ensures TracedStore(known, all, Deliver(s, n).store)
  {
  }

  lemma {:induction false} ImagesAreTraced(known: Uuids, all: Uuids, ts: seq<Node>)
    requires Written(ts) && AllSafe(known, ts) && AllLast(known, ts) && AllKnown(all, ts)
    ensures forall i :: 0 <= i < |Images(known, ts)| ==> Traced(known, all, Images(known, ts)[i])
    decreases |ts|
  {
    if ts != [] {
      WrittenFirst(ts);
      ImageWritesSame(known, ts[0]);
      assert Holds(known, Image(known, ts[0])[0], ts[0]);
      ImagesAreTraced(known, all, ts[1..]);
    }
  }

  lemma LoadIsTraced(known: Uuids, all: Uuids, ts: seq<Node>)
    requires Written(ts) && AllSafe(known, ts) && AllLast(known, ts) && AllKnown(all, ts)
    requires Load(known, EncodeAll(64, ts)).Kept?
    ensures TracedStore(known, all, Load(known, EncodeAll(64, ts)).store)
  {
    LoadExactIff(known, ts);
    ImagesAreTraced(known, all, ts);
    var ns := Images(known, ts);
    forall s, i | 0 <= i < |ns| && TracedStore(known, all, s) && Deliver(s, ns[i]).Kept?
      ensures TracedStore(known, all, Deliver(s, ns[i]).store)
    {
      DeliverTraces(known, all, s, ns[i]);
    }
    DeliverAllKeeps(s => TracedStore(known, all, s), EMPTY, ns);
  }

  lemma LeafIsTraced(known: Uuids, all: Uuids, n: Node)
    requires Fits(64, n) && Plain(n) && !n.Object?
    ensures Traced(known, all, n)
  {
    assert Holds(known, n, n);
  }

  ghost predicate AllTraced(known: Uuids, all: Uuids, ns: seq<Node>) {
    forall i :: 0 <= i < |ns| ==> Traced(known, all, ns[i])
  }

  lemma ScalarsAreTraced(known: Uuids, all: Uuids, s: Store, o: Order)
    requires SoundScalars(s) && ListsAll(o, s)
    ensures AllTraced(known, all, ScalarNodes(s, o))
  {
    var w, d, t := Entries(o.words, WordNodes(s)), Entries(o.doubles, DoubleNodes(s)), Entries(o.strings, TextNodes(s));
    forall i | 0 <= i < |w| ensures Traced(known, all, w[i]) { LeafIsTraced(known, all, w[i]); }
    forall i | 0 <= i < |d| ensures Traced(known, all, d[i]) { LeafIsTraced(known, all, d[i]); }
    forall i | 0 <= i < |t| ensures Traced(known, all, t[i]) { LeafIsTraced(known, all, t[i]); }
    assert AllTraced(known, all, w + d);
    assert ScalarNodes(s, o) == w + d + t;
  }

  lemma SavedIsTraced(known: Uuids, all: Uuids, s: Store, o: Order)
    requires SoundScalars(s) && TracedStore(known, all, s) && ListsAll(o, s)
    ensures AllTraced(known, all, Saved(s, o))
  {
    ScalarsAreTraced(known, all, s, o);
    var front := ScalarNodes(s, o) + Entries(o.objects, s.objects);
    assert AllTraced(known, all, front);
    assert Saved(s, o) == front + OpaqueNodes(s.opaques);
  }

  /** Trees that records hold, one for one. */
  ghost predicate Origin(known: Uuids, ns: seq<Node>, ts: seq<Node>) {
    |ts| == |ns| && forall i :: 0 <= i < |ns| ==> Holds(known, ns[i], ts[i])
  }

  /** The trees that records come from are of the kinds the records were traced to. */
  lemma {:induction false} OriginsAreKnown(known: Uuids, all: Uuids, ns: seq<Node>, ts: seq<Node>)
    requires AllTraced(known, all, ns) && Origin(known, ns, ts)
    ensures AllKnown(all, ts)
    decreases |ns|
  {
    if ns != [] {
      assert Traced(known, all, ns[0]);
      var t :| Holds(known, ns[0], t) && Known(all, t);
      OriginIsUnique(known, ns[0], t, ts[0]);
      OriginsAreKnown(known, all, ns[1..], ts[1..]);
    }
  }

  // ----- what was not understood arrives -----

  /** The trees of a forest that are of unknown kind. */
  ghost function Unknown(known: Uuids, ts: seq<Node>): seq<Node> {
    if ts == [] then []
    else (if ts[0].Object? && ts[0].uuid !in known then [ts[0]] else []) + Unknown(known, ts[1..])
  }

  lemma OriginCons(known: Uuids, record: Bytes, records: seq<Bytes>, t: Node, ts: seq<Node>)
    requires Holds(known, Opaque(record), t) && Origin(known, OpaqueNodes(records), ts)
    ensures Origin(known, OpaqueNodes([record] + records), [t] + ts)
  {
  }

  lemma ImageOfOne(known: Uuids, t: Node) returns (n: Node)
    requires Fits(64, t) && Plain(t) && Safe(known, t) && Lasting(known, t)
    ensures Image(known, t) == [n] && Holds(known, n, t)
    ensures n.Opaque? <==> t.Object? && t.uuid !in known
  {
    ImageWritesSame(known, t);
    n := Image(known, t)[0];
  }

  lemma RecordsCons(n: Node, ns: seq<Node>)
    ensures Records([n] + ns) == (if n.Opaque? then [n.record] else []) + Records(ns)
  {
    assert ([n] + ns)[1..] == ns;
  }

  /** The records that are kept are those trees, in order. */
  lemma {:induction false} RecordsAreUnknown(known: Uuids, ts: seq<Node>)
    requires Written(ts) && AllSafe(known, ts) && AllLast(known, ts)
    ensures Origin(known, OpaqueNodes(Records(Images(known, ts))), Unknown(known, ts))
    decreases |ts|
  {
    if ts != [] {
      WrittenFirst(ts);
      RecordsAreUnknown(known, ts[1..]);
      var n := ImageOfOne(known, ts[0]);
      RecordsCons(n, Images(known, ts[1..]));
      if n.Opaque? {
        OriginCons(known, n.record, Records(Images(known, ts[1..])), ts[0], Unknown(known, ts[1..]));
      }
    }
  }

  /** What is saved before the records. */
  ghost function Understood(s: Store, o: Order): seq<Node>
    requires ListsAll(o, s)
  {
    ScalarNodes(s, o) + Entries(o.objects, s.objects)
  }

  lemma NothingOpaqueBefore(known: Uuids, s: Store, o: Order, i: nat)
    requires Sound(known, s) && ListsAll(o, s) && i < |Understood(s, o)|
    ensures !Understood(s, o)[i].Opaque?
  {
    if i >= |ScalarNodes(s, o)| {
      var j := i - |ScalarNodes(s, o)|;
      assert Understood(s, o)[i] == s.objects[o.objects[j]];
    }
  }

  lemma OriginsAreUnique(known: Uuids, ns: seq<Node>, ts: seq<Node>, us: seq<Node>)
    requires Origin(known, ns, ts) && Origin(known, ns, us)
    ensures ts == us
  {
    forall i | 0 <= i < |ns| ensures ts[i] == us[i] { OriginIsUnique(known, ns[i], ts[i], us[i]); }
  }

  lemma OriginSplits(known: Uuids, a: seq<Node>, b: seq<Node>, ts: seq<Node>)
    requires Origin(known, a + b, ts)
    ensures Origin(known, a, ts[..|a|]) && Origin(known, b, ts[|a|..])
  {
    assert forall i :: 0 <= i < |a| ==> (a + b)[i] == a[i];
    forall i | 0 <= i < |b| ensures Holds(known, b[i], ts[|a|..][i]) {
      assert (a + b)[|a| + i] == b[i];
    }
  }

  lemma {:induction false} NoneIsUnknown(known: Uuids, ns: seq<Node>, ts: seq<Node>)
    requires Origin(known, ns, ts) && forall i :: 0 <= i < |ns| ==> !ns[i].Opaque?
    ensures Unknown(known, ts) == []
    decreases |ns|
  {
    if ns != [] {
      assert Holds(known, ns[0], ts[0]);
      NoneIsUnknown(known, ns[1..], ts[1..]);
    }
  }

  lemma OriginsEndWith(known: Uuids, head: seq<Node>, back: seq<Node>, ts: seq<Node>, us: seq<Node>)
    requires Origin(known, head + back, ts) && Origin(known, back, us)
    ensures ts == ts[..|head|] + us && Origin(known, head, ts[..|head|])
  {
    OriginSplits(known, head, back, ts);
    OriginsAreUnique(known, back, ts[|head|..], us);
    assert ts == ts[..|head|] + ts[|head|..];
  }

  /** The trees of saved settings: those that were not understood come last. */
  lemma SavedOrigins(known: Uuids, s: Store, o: Order, us: seq<Node>) returns (front: seq<Node>)
    requires Sound(known, s) && ListsAll(o, s) && Origin(known, OpaqueNodes(s.opaques), us)
    ensures Origin(known, Saved(s, o), front + us) && Unknown(known, front) == []
    ensures Written(front + us) && EncodeAll(64, front + us) == EncodeAll(64, Saved(s, o))
  {
    SavedIsStable(known, s, o);
    var ts := Origins(known, Saved(s, o));
    var head := Understood(s, o);
    forall i | 0 <= i < |head| ensures !head[i].Opaque? { NothingOpaqueBefore(known, s, o, i); }
    OriginsEndWith(known, head, OpaqueNodes(s.opaques), ts, us);
    front := ts[..|head|];
    NoneIsUnknown(known, head, front);
  }

  /**
   * Opaque preservation, from end to end. A forest is loaded by a receiver that knows some of its
   * kinds, and the settings go through any number of sessions with it. Whoever then knows all the
   * kinds reads, in whatever order the settings are saved, exactly the trees the other did not
   * understand, in their order and behind everything else.
   */
  lemma KnowingReceiver(known: Uuids, all: Uuids, ts: seq<Node>, pick: Store -> Order, n: nat, o: Order)
    returns (front: seq<Node>)
    requires Written(ts) && AllSafe(known, ts) && AllLast(known, ts) && AllKnown(all, ts) && Picks(pick)
    requires Load(known, EncodeAll(64, ts)).Kept? && ListsAll(o, Load(known, EncodeAll(64, ts)).store)
    ensures var after := Sessions(known, EncodeAll(64, ts), pick, n);
      && after.Kept? && ListsAll(o, after.store)
      && LoadAll(all, EncodeAll(64, Saved(after.store, o))) == Loaded(front + Unknown(known, ts))
      && Unknown(known, front) == []
  {
    LoadIsSound(known, ts);
    LoadIsTraced(known, all, ts);
    SessionsKeepSettings(known, EncodeAll(64, ts), pick, n);
    RecordsAreUnknown(known, ts);
    var s, us := Load(known, EncodeAll(64, ts)).store, Unknown(known, ts);
    front := SavedOrigins(known, s, o, us);
    SavedIsTraced(known, all, s, o);
    OriginsAreKnown(known, all, Saved(s, o), front + us);
    RoundTrip(all, front + us);
  }
}
