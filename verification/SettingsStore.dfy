/** Settings kept in memory: loading a stream into them, and writing them out again. */
module SettingsStore {
  import opened Basics
  import opened StreamFormat
  import opened StreamReader
  import opened StreamTrees
  import opened StreamNesting

  datatype Store = Store(
    words: map<Bytes, nat>,
    doubles: map<Bytes, Bytes>,
    strings: map<Bytes, Bytes>,
    objects: map<Bytes, Node>,
    opaques: seq<Bytes>)

  const EMPTY := Store(map[], map[], map[], map[], [])

  datatype Outcome = Refused | Kept(store: Store)

  /** What one delivered record does. A name does not change the kind of its object. */
  function Deliver(s: Store, n: Node): Outcome {
    match n
    case Word(name, value) => Kept(s.(words := s.words[name := value]))
    case Double(name, bits) => Kept(s.(doubles := s.doubles[name := bits]))
    case Text(name, text) => Kept(s.(strings := s.strings[name := text]))
    case Blob(_, _) => Kept(s)
    case Object(name, uuid, _) =>
      if name in s.objects && s.objects[name].Object? && s.objects[name].uuid != uuid then Refused
      else Kept(s.(objects := s.objects[name := n]))
    case Opaque(record) => Kept(s.(opaques := s.opaques + [record]))
  }

  function DeliverAll(s: Store, ns: seq<Node>): Outcome
    decreases |ns|
  {
    if ns == [] then Kept(s)
    else
      match Deliver(s, ns[0])
      case Refused => Refused
      case Kept(s') => DeliverAll(s', ns[1..])
  }

  // ----- what a run of records comes to -----

  /** Two objects of one name and different kinds. */
  predicate Clash(a: Node, b: Node) {
    a.Object? && b.Object? && a.name == b.name && a.uuid != b.uuid
  }

  ghost predicate NoClash(ns: seq<Node>) {
    forall i, j :: 0 <= i < j < |ns| ==> !Clash(ns[i], ns[j])
  }

  ghost predicate SameKind(s: Store, n: Node) {
    n.Object? && n.name in s.objects && s.objects[n.name].Object? ==> s.objects[n.name].uuid == n.uuid
  }

  ghost predicate AllSameKind(s: Store, ns: seq<Node>) {
    forall i :: 0 <= i < |ns| ==> SameKind(s, ns[i])
  }

  ghost predicate AllObjects(s: Store) {
    forall name :: name in s.objects ==> s.objects[name].Object? && s.objects[name].name == name
  }

  lemma NoClashFirst(ns: seq<Node>)
    requires ns != []
    ensures NoClash(ns) <==> NoClash(ns[1..]) && forall i :: 0 <= i < |ns[1..]| ==> !Clash(ns[0], ns[1..][i])
  {
    var rest := ns[1..];
    assert forall i :: 0 <= i < |rest| ==> rest[i] == ns[i + 1];
    assert forall j :: 0 < j < |ns| ==> ns[j] == rest[j - 1];
  }

  lemma AllSameKindFirst(s: Store, ns: seq<Node>)
    requires ns != []
    ensures AllSameKind(s, ns) <==> SameKind(s, ns[0]) && AllSameKind(s, ns[1..])
  {
    var rest := ns[1..];
    assert forall i :: 0 <= i < |rest| ==> rest[i] == ns[i + 1];
    assert forall j :: 0 < j < |ns| ==> ns[j] == rest[j - 1];
  }

  /** After a record that fits, another fits exactly if it did before and does not clash with it. */
  lemma SameKindNext(s: Store, n: Node, m: Node)
    requires AllObjects(s) && SameKind(s, n)
    ensures Deliver(s, n).Kept? && AllObjects(Deliver(s, n).store)
    ensures SameKind(Deliver(s, n).store, m) <==> SameKind(s, m) && !Clash(n, m)
  {
  }

  lemma AllSameKindNext(s: Store, n: Node, ms: seq<Node>)
    requires AllObjects(s) && SameKind(s, n)
    ensures Deliver(s, n).Kept? && AllObjects(Deliver(s, n).store)
    ensures AllSameKind(Deliver(s, n).store, ms) <==>
      AllSameKind(s, ms) && forall i :: 0 <= i < |ms| ==> !Clash(n, ms[i])
  {
    SameKindNext(s, n, n);
    forall i | 0 <= i < |ms|
      ensures SameKind(Deliver(s, n).store, ms[i]) <==> SameKind(s, ms[i]) && !Clash(n, ms[i])
    {
      SameKindNext(s, n, ms[i]);
    }
  }

  /** Records are refused exactly if one name is given to objects of different kinds. */
  lemma {:induction false} RefusedIff(s: Store, ns: seq<Node>)
    requires AllObjects(s)
    ensures DeliverAll(s, ns).Kept? <==> AllSameKind(s, ns) && NoClash(ns)
    decreases |ns|
  {
    if ns != [] {
      AllSameKindFirst(s, ns);
      NoClashFirst(ns);
      if SameKind(s, ns[0]) {
        AllSameKindNext(s, ns[0], ns[1..]);
        RefusedIff(Deliver(s, ns[0]).store, ns[1..]);
      }
    }
  }

  function At<V>(m: map<Bytes, V>, name: Bytes): Option<V> {
    if name in m then Some(m[name]) else None
  }

  function Named(n: Node): Option<Bytes> {
    if n.Opaque? then None else Some(n.name)
  }

  datatype Sort = Words | Doubles | Strings | Objects

  predicate IsOf(n: Node, sort: Sort) {
    match sort case Words => n.Word? case Doubles => n.Double? case Strings => n.Text? case Objects => n.Object?
  }

  /** The last of the records of a sort with a name. */
  function Latest(ns: seq<Node>, sort: Sort, name: Bytes): (r: Option<Node>)
    ensures r.Some? ==> IsOf(r.value, sort) && Named(r.value) == Some(name)
    decreases |ns|
  {
    if ns == [] then None
    else
      var n := ns[|ns| - 1];
      if IsOf(n, sort) && Named(n) == Some(name) then Some(n) else Latest(ns[..|ns| - 1], sort, name)
  }

  function Opaques(ns: seq<Node>): seq<Bytes> {
    if ns == [] then []
    else Opaques(ns[..|ns| - 1]) + if ns[|ns| - 1].Opaque? then [ns[|ns| - 1].record] else []
  }

  lemma LatestNext(ns: seq<Node>, n: Node, sort: Sort, name: Bytes)
    ensures Latest(ns + [n], sort, name) ==
      if IsOf(n, sort) && Named(n) == Some(name) then Some(n) else Latest(ns, sort, name)
  {
    assert (ns + [n])[..|ns|] == ns;
  }

  /** Under every name stands what the last record gave it, or what stood there before. */
  ghost predicate ValuesStand(s: Store, ns: seq<Node>, s': Store, name: Bytes) {
    var w, d := Latest(ns, Words, name), Latest(ns, Doubles, name);
    && At(s'.words, name) == (if w.Some? then Some(w.value.value) else At(s.words, name))
    && At(s'.doubles, name) == (if d.Some? then Some(d.value.bits) else At(s.doubles, name))
  }

  ghost predicate OthersStand(s: Store, ns: seq<Node>, s': Store, name: Bytes) {
    var t, o := Latest(ns, Strings, name), Latest(ns, Objects, name);
    && At(s'.strings, name) == (if t.Some? then Some(t.value.text) else At(s.strings, name))
    && At(s'.objects, name) == (if o.Some? then o else At(s.objects, name))
  }

  /** Records that are all kept leave under every name the last of them, and all opaque ones behind the old. */
  lemma {:induction false} DeliveredByName(s: Store, ns: seq<Node>, name: Bytes)
    requires DeliverAll(s, ns).Kept?
    ensures var s' := DeliverAll(s, ns).store;
      ValuesStand(s, ns, s', name) && OthersStand(s, ns, s', name) && s'.opaques == s.opaques + Opaques(ns)
    decreases |ns|
  {
    if ns == [] {
      assert s.opaques + [] == s.opaques;
    } else {
      var front, n := ns[..|ns| - 1], ns[|ns| - 1];
      assert ns == front + [n];
      DeliverSplits(s, front, [n]);
      DeliveredByName(s, front, name);
      var s' := DeliverAll(s, front).store;
      OneDelivered(s', n);
      LastValue(s, front, n, s', name);
      LastOther(s, front, n, s', name);
      LastOpaque(s, front, n, s');
    }
  }

  lemma OneDelivered(s: Store, n: Node)
    ensures DeliverAll(s, [n]) == Deliver(s, n)
  {
    assert [n][1..] == [];
  }

  lemma LastValue(s: Store, front: seq<Node>, n: Node, s': Store, name: Bytes)
    requires ValuesStand(s, front, s', name) && Deliver(s', n).Kept?
    ensures ValuesStand(s, front + [n], Deliver(s', n).store, name)
  {
    LatestNext(front, n, Words, name);
    LatestNext(front, n, Doubles, name);
  }

  lemma LastOther(s: Store, front: seq<Node>, n: Node, s': Store, name: Bytes)
    requires OthersStand(s, front, s', name) && Deliver(s', n).Kept?
    ensures OthersStand(s, front + [n], Deliver(s', n).store, name)
  {
    LatestNext(front, n, Strings, name);
    LatestNext(front, n, Objects, name);
  }

  lemma LastOpaque(s: Store, front: seq<Node>, n: Node, s': Store)
    requires s'.opaques == s.opaques + Opaques(front) && Deliver(s', n).Kept?
    ensures Deliver(s', n).store.opaques == s.opaques + Opaques(front + [n])
  {
    assert (front + [n])[..|front|] == front;
    assert Opaques(front) + [] == Opaques(front);
    if n.Opaque? { Regroup(s.opaques, Opaques(front), [n.record]); }
  }

  function Load(known: Uuids, bytes: Bytes): Outcome {
    match LoadAll(known, bytes)
    case LoadThrew => Refused
    case Loaded(events) => DeliverAll(EMPTY, events)
  }

  /** The settings after loading stopped, and whether it went to the end. */
  datatype Filled = Filled(store: Store, ok: bool)

  /** Deliver until a record is refused. */
  function DeliverUntil(s: Store, ns: seq<Node>): Filled
    decreases |ns|
  {
    if ns == [] then Filled(s, true)
    else
      match Deliver(s, ns[0])
      case Refused => Filled(s, false)
      case Kept(s') => DeliverUntil(s', ns[1..])
  }

  /** Load record by record into settings, until the end, an exception or a refusal. */
  function LoadInto(known: Uuids, s: Store, input: Bytes): Filled
    decreases |input|
  {
    match ReadOne(known, input)
    case Threw => Filled(s, false)
    case End => Filled(s, true)
    case Got(events, _, rest) =>
      var f := DeliverUntil(s, events);
      if f.ok then LoadInto(known, f.store, rest) else f
  }

  lemma {:induction false} DeliverUntilIff(s: Store, ns: seq<Node>)
    ensures DeliverUntil(s, ns).ok <==> DeliverAll(s, ns).Kept?
    ensures DeliverAll(s, ns).Kept? ==> DeliverAll(s, ns) == Kept(DeliverUntil(s, ns).store)
    decreases |ns|
  {
    if ns != [] && Deliver(s, ns[0]).Kept? { DeliverUntilIff(Deliver(s, ns[0]).store, ns[1..]); }
  }

  /** Loading record by record goes to the end exactly if reading does and every record is kept. */
  lemma {:induction false} LoadIntoIff(known: Uuids, s: Store, input: Bytes)
    ensures var f, r := LoadInto(known, s, input), LoadAll(known, input);
      && (f.ok <==> r.Loaded? && DeliverAll(s, r.events).Kept?)
      && (f.ok ==> DeliverAll(s, r.events) == Kept(f.store))
    decreases |input|
  {
    var one := ReadOne(known, input);
    if one.Got? {
      DeliverUntilIff(s, one.events);
      var more := LoadAll(known, one.rest);
      if more.Loaded? { DeliverSplits(s, one.events, more.events); }
      var f := DeliverUntil(s, one.events);
      if f.ok { LoadIntoIff(known, f.store, one.rest); }
    }
  }

  /** The order in which the hash maps list their keys; there is no other rule for it. */
  datatype Order = Order(words: seq<Bytes>, doubles: seq<Bytes>, strings: seq<Bytes>, objects: seq<Bytes>)

  predicate Lists<V>(keys: seq<Bytes>, m: map<Bytes, V>) {
    && (forall i :: 0 <= i < |keys| ==> keys[i] in m)
    && (forall k :: k in m ==> k in keys)
    && (forall i, j :: 0 <= i < j < |keys| ==> keys[i] != keys[j])
  }

  predicate ListsAll(o: Order, s: Store) {
    Lists(o.words, s.words) && Lists(o.doubles, s.doubles) && Lists(o.strings, s.strings) && Lists(o.objects, s.objects)
  }

  function Entries(keys: seq<Bytes>, m: map<Bytes, Node>): (ns: seq<Node>)
    requires forall i :: 0 <= i < |keys| ==> keys[i] in m
  {
    seq(|keys|, i requires 0 <= i < |keys| => m[keys[i]])
  }

  function WordNodes(s: Store): map<Bytes, Node> { map k | k in s.words :: Word(k, s.words[k]) }

  function DoubleNodes(s: Store): map<Bytes, Node> { map k | k in s.doubles :: Double(k, s.doubles[k]) }

  function TextNodes(s: Store): map<Bytes, Node> { map k | k in s.strings :: Text(k, s.strings[k]) }

  function OpaqueNodes(records: seq<Bytes>): seq<Node> {
    seq(|records|, i requires 0 <= i < |records| => Opaque(records[i]))
  }

  function ScalarNodes(s: Store, o: Order): seq<Node>
    requires ListsAll(o, s)
  {
    Entries(o.words, WordNodes(s)) + Entries(o.doubles, DoubleNodes(s)) + Entries(o.strings, TextNodes(s))
  }

  /** What is written: numbers, strings, objects, and then what was not understood. */
  function Saved(s: Store, o: Order): seq<Node>
    requires ListsAll(o, s)
  {
    ScalarNodes(s, o) + Entries(o.objects, s.objects) + OpaqueNodes(s.opaques)
  }

  // ----- what loading a written record gives back -----

  /** The record is what a receiver makes of some written tree, and writes as that tree does. */
  ghost predicate Holds(known: Uuids, n: Node, t: Node) {
    && Fits(64, t) && Plain(t) && Safe(known, t) && Lasting(known, t)
    && Image(known, t) == [n] && Encode(64, n) == Encode(64, t)
  }

  ghost predicate Stable(known: Uuids, n: Node) {
    exists t :: Holds(known, n, t)
  }

  ghost predicate AllStable(known: Uuids, ns: seq<Node>) {
    forall i :: 0 <= i < |ns| ==> Stable(known, ns[i])
  }

  lemma {:induction false} Origins(known: Uuids, ns: seq<Node>) returns (ts: seq<Node>)
    requires AllStable(known, ns)
    ensures Written(ts) && AllSafe(known, ts) && Images(known, ts) == ns && EncodeAll(64, ts) == EncodeAll(64, ns)
    ensures |ts| == |ns| && forall i :: 0 <= i < |ns| ==> Holds(known, ns[i], ts[i])
    decreases |ns|
  {
    if ns == [] {
      ts := [];
    } else {
      assert Stable(known, ns[0]);
      var t :| Holds(known, ns[0], t);
      var more := Origins(known, ns[1..]);
      ts := [t] + more;
      assert ts[1..] == more && [ns[0]] + ns[1..] == ns;
      forall i | 0 <= i < |ts| ensures Holds(known, ns[i], ts[i]) && Safe(known, ts[i]) {
        assert i > 0 ==> ts[i] == more[i - 1] && ns[i] == ns[1..][i - 1];
      }
    }
  }

  lemma StableLoads(known: Uuids, ns: seq<Node>)
    requires AllStable(known, ns)
    ensures LoadAll(known, EncodeAll(64, ns)) == Loaded(ns)
  {
    var ts := Origins(known, ns);
    LoadExactIff(known, ts);
  }

  lemma LeafIsStable(known: Uuids, n: Node)
    requires Fits(64, n) && Plain(n) && !n.Object?
    ensures Stable(known, n)
  {
    assert Holds(known, n, n);
  }

  /** What a receiver keeps of a safe tree is stable. */
  lemma ImageIsStable(known: Uuids, t: Node)
    requires Fits(64, t) && Plain(t) && Safe(known, t) && Lasting(known, t)
    ensures |Image(known, t)| == 1 && Stable(known, Image(known, t)[0])
  {
    ImageWritesSame(known, t);
    assert Holds(known, Image(known, t)[0], t);
  }

  // ----- the store comes back -----

  ghost predicate SoundScalars(s: Store) {
    && (forall k :: k in s.words ==> Fits(64, Word(k, s.words[k])))
    && (forall k :: k in s.doubles ==> Fits(64, Double(k, s.doubles[k])))
    && (forall k :: k in s.strings ==> Fits(64, Text(k, s.strings[k])))
  }

  ghost predicate SoundObjects(known: Uuids, objects: map<Bytes, Node>) {
    forall k :: k in objects ==> objects[k].Object? && objects[k].name == k && Stable(known, objects[k])
  }

  ghost predicate SoundOpaques(known: Uuids, records: seq<Bytes>) {
    forall i :: 0 <= i < |records| ==> Stable(known, Opaque(records[i]))
  }

  /** Everything in the store can be written, and means the same to the receiver that reads it. */
  ghost predicate Sound(known: Uuids, s: Store) {
    SoundScalars(s) && SoundObjects(known, s.objects) && SoundOpaques(known, s.opaques)
  }

  lemma StableConcat(known: Uuids, a: seq<Node>, b: seq<Node>)
    requires AllStable(known, a) && AllStable(known, b)
    ensures AllStable(known, a + b)
  {
  }

  lemma SavedIsStable(known: Uuids, s: Store, o: Order)
    requires Sound(known, s) && ListsAll(o, s)
    ensures AllStable(known, Saved(s, o))
  {
    var w, d, t := Entries(o.words, WordNodes(s)), Entries(o.doubles, DoubleNodes(s)), Entries(o.strings, TextNodes(s));
    forall i | 0 <= i < |w| ensures Stable(known, w[i]) { LeafIsStable(known, w[i]); }
    forall i | 0 <= i < |d| ensures Stable(known, d[i]) { LeafIsStable(known, d[i]); }
    forall i | 0 <= i < |t| ensures Stable(known, t[i]) { LeafIsStable(known, t[i]); }
    StableConcat(known, w, d);
    StableConcat(known, w + d, t);
    StableConcat(known, w + d + t, Entries(o.objects, s.objects));
    StableConcat(known, w + d + t + Entries(o.objects, s.objects), OpaqueNodes(s.opaques));
  }

  lemma {:induction false} DeliverSplits(s: Store, a: seq<Node>, b: seq<Node>)
    ensures DeliverAll(s, a + b) ==
      match DeliverAll(s, a) { case Refused => Refused case Kept(s') => DeliverAll(s', b) }
    decreases |a|
  {
    if a == [] {
      assert a + b == b;
    } else {
      assert (a + b)[1..] == a[1..] + b;
      if Deliver(s, a[0]).Kept? { DeliverSplits(Deliver(s, a[0]).store, a[1..], b); }
    }
  }

  /** The part of a map under some of its keys. */
  function Under<V>(keys: seq<Bytes>, m: map<Bytes, V>): map<Bytes, V> {
    map k | k in keys && k in m :: m[k]
  }

  lemma UnderFirst<V>(keys: seq<Bytes>, m: map<Bytes, V>, base: map<Bytes, V>)
    requires keys != [] && keys[0] in m
    ensures base[keys[0] := m[keys[0]]] + Under(keys[1..], m) == base + Under(keys, m)
  {
  }

  lemma UnderAll<V>(keys: seq<Bytes>, m: map<Bytes, V>)
    requires Lists(keys, m)
    ensures map[] + Under(keys, m) == m
  {
  }

  lemma EntriesFirst(keys: seq<Bytes>, m: map<Bytes, Node>)
    requires keys != [] && forall i :: 0 <= i < |keys| ==> keys[i] in m
    ensures Entries(keys, m)[0] == m[keys[0]] && Entries(keys, m)[1..] == Entries(keys[1..], m)
  {
  }

  lemma {:induction false} WordsArrive(base: Store, keys: seq<Bytes>, s: Store)
    requires forall i :: 0 <= i < |keys| ==> keys[i] in s.words
    ensures DeliverAll(base, Entries(keys, WordNodes(s))) == Kept(base.(words := base.words + Under(keys, s.words)))
    decreases |keys|
  {
    if keys == [] {
      assert base.words + Under(keys, s.words) == base.words;
    } else {
      EntriesFirst(keys, WordNodes(s));
      UnderFirst(keys, s.words, base.words);
      WordsArrive(base.(words := base.words[keys[0] := s.words[keys[0]]]), keys[1..], s);
    }
  }

  lemma {:induction false} DoublesArrive(base: Store, keys: seq<Bytes>, s: Store)
    requires forall i :: 0 <= i < |keys| ==> keys[i] in s.doubles
    ensures DeliverAll(base, Entries(keys, DoubleNodes(s))) ==
      Kept(base.(doubles := base.doubles + Under(keys, s.doubles)))
    decreases |keys|
  {
    if keys == [] {
      assert base.doubles + Under(keys, s.doubles) == base.doubles;
    } else {
      EntriesFirst(keys, DoubleNodes(s));
      UnderFirst(keys, s.doubles, base.doubles);
      DoublesArrive(base.(doubles := base.doubles[keys[0] := s.doubles[keys[0]]]), keys[1..], s);
    }
  }

  lemma {:induction false} StringsArrive(base: Store, keys: seq<Bytes>, s: Store)
    requires forall i :: 0 <= i < |keys| ==> keys[i] in s.strings
    ensures DeliverAll(base, Entries(keys, TextNodes(s))) ==
      Kept(base.(strings := base.strings + Under(keys, s.strings)))
    decreases |keys|
  {
    if keys == [] {
      assert base.strings + Under(keys, s.strings) == base.strings;
    } else {
      EntriesFirst(keys, TextNodes(s));
      UnderFirst(keys, s.strings, base.strings);
      StringsArrive(base.(strings := base.strings[keys[0] := s.strings[keys[0]]]), keys[1..], s);
    }
  }

  lemma {:induction false} ObjectsArrive(base: Store, keys: seq<Bytes>, m: map<Bytes, Node>)
    requires forall i :: 0 <= i < |keys| ==> keys[i] in m && m[keys[i]].Object? && m[keys[i]].name == keys[i]
    requires forall i :: 0 <= i < |keys| ==> keys[i] !in base.objects
    requires forall i, j :: 0 <= i < j < |keys| ==> keys[i] != keys[j]
    ensures DeliverAll(base, Entries(keys, m)) == Kept(base.(objects := base.objects + Under(keys, m)))
    decreases |keys|
  {
    if keys == [] {
      assert base.objects + Under(keys, m) == base.objects;
    } else {
      EntriesFirst(keys, m);
      UnderFirst(keys, m, base.objects);
      ObjectsArrive(base.(objects := base.objects[keys[0] := m[keys[0]]]), keys[1..], m);
    }
  }

  lemma {:induction false} OpaquesArrive(base: Store, records: seq<Bytes>)
    ensures DeliverAll(base, OpaqueNodes(records)) == Kept(base.(opaques := base.opaques + records))
    decreases |records|
  {
    if records == [] {
      assert base.opaques + records == base.opaques;
    } else {
      assert OpaqueNodes(records)[1..] == OpaqueNodes(records[1..]);
      OpaquesArrive(base.(opaques := base.opaques + [records[0]]), records[1..]);
      assert base.opaques + [records[0]] + records[1..] == base.opaques + records;
    }
  }

  lemma ScalarsArrive(s: Store, o: Order)
    requires ListsAll(o, s)
    ensures DeliverAll(EMPTY, ScalarNodes(s, o)) == Kept(Store(s.words, s.doubles, s.strings, map[], []))
  {
    var w, d, t := Entries(o.words, WordNodes(s)), Entries(o.doubles, DoubleNodes(s)), Entries(o.strings, TextNodes(s));
    WordsArrive(EMPTY, o.words, s);
    UnderAll(o.words, s.words);
    DoublesArrive(EMPTY.(words := s.words), o.doubles, s);
    UnderAll(o.doubles, s.doubles);
    StringsArrive(EMPTY.(words := s.words, doubles := s.doubles), o.strings, s);
    UnderAll(o.strings, s.strings);
    DeliverSplits(EMPTY, w, d);
    DeliverSplits(EMPTY, w + d, t);
  }

  lemma SavedArrives(s: Store, o: Order)
    requires ListsAll(o, s)
    requires forall k :: k in s.objects ==> s.objects[k].Object? && s.objects[k].name == k
    ensures DeliverAll(EMPTY, Saved(s, o)) == Kept(s)
  {
    var scalars, b := ScalarNodes(s, o), Entries(o.objects, s.objects);
    var s3 := Store(s.words, s.doubles, s.strings, map[], []);
    ScalarsArrive(s, o);
    ObjectsArrive(s3, o.objects, s.objects);
    UnderAll(o.objects, s.objects);
    OpaquesArrive(s3.(objects := s.objects), s.opaques);
    assert [] + s.opaques == s.opaques;
    DeliverSplits(EMPTY, scalars, b);
    DeliverSplits(EMPTY, scalars + b, OpaqueNodes(s.opaques));
  }

  /** Settings written out and loaded again are the same settings, in whatever order they were written. */
  lemma LoadUndoesSave(known: Uuids, s: Store, o: Order)
    requires Sound(known, s) && ListsAll(o, s)
    ensures Load(known, EncodeAll(64, Saved(s, o))) == Kept(s)
  {
    SavedIsStable(known, s, o);
    StableLoads(known, Saved(s, o));
    SavedArrives(s, o);
  }

  /** What a receiver may be delivered. */
  ghost predicate Acceptable(known: Uuids, n: Node) {
    if n.Object? || n.Opaque? then Stable(known, n) else Fits(64, n)
  }

  /** What is delivered keeps the store sound. */
  lemma DeliverKeeps(known: Uuids, s: Store, n: Node)
    requires Sound(known, s) && Acceptable(known, n) && Deliver(s, n).Kept?
    ensures Sound(known, Deliver(s, n).store)
  {
  }

  lemma {:induction false} DeliverAllKeeps(sound: Store -> bool, s: Store, ns: seq<Node>)
    requires sound(s) && DeliverAll(s, ns).Kept?
    requires forall s, i :: 0 <= i < |ns| && sound(s) && Deliver(s, ns[i]).Kept? ==> sound(Deliver(s, ns[i]).store)
    ensures sound(DeliverAll(s, ns).store)
    decreases |ns|
  {
    if ns != [] {
      assert sound(Deliver(s, ns[0]).store);
      assert forall i :: 0 <= i < |ns[1..]| ==> ns[1..][i] == ns[i + 1];
      DeliverAllKeeps(sound, Deliver(s, ns[0]).store, ns[1..]);
    }
  }

  /** The records of the unknown objects among those delivered. */
  function Records(ns: seq<Node>): seq<Bytes> {
    if ns == [] then [] else (if ns[0].Opaque? then [ns[0].record] else []) + Records(ns[1..])
  }

  lemma {:induction false} RecordsArrive(s: Store, ns: seq<Node>)
    requires DeliverAll(s, ns).Kept?
    ensures DeliverAll(s, ns).store.opaques == s.opaques + Records(ns)
    decreases |ns|
  {
    if ns != [] {
      RecordsArrive(Deliver(s, ns[0]).store, ns[1..]);
    }
  }

  lemma {:induction false} ImagesAreAcceptable(known: Uuids, ts: seq<Node>)
    requires Written(ts) && AllSafe(known, ts) && AllLast(known, ts)
    ensures forall i :: 0 <= i < |Images(known, ts)| ==> Acceptable(known, Images(known, ts)[i])
    decreases |ts|
  {
    if ts != [] {
      WrittenFirst(ts);
      ImageIsStable(known, ts[0]);
      ImagesAreAcceptable(known, ts[1..]);
    }
  }

  /**
   * Settings loaded from any stream whose trees are safe are sound, and hold what was not
   * understood byte for byte, in the order it came.
   */
  lemma LoadIsSound(known: Uuids, ts: seq<Node>)
    requires Written(ts) && AllSafe(known, ts) && AllLast(known, ts) && Load(known, EncodeAll(64, ts)).Kept?
    ensures Sound(known, Load(known, EncodeAll(64, ts)).store)
    ensures Load(known, EncodeAll(64, ts)).store.opaques == Records(Images(known, ts))
  {
    LoadExactIff(known, ts);
    ImagesAreAcceptable(known, ts);
    var ns := Images(known, ts);
    forall s, i | 0 <= i < |ns| && Sound(known, s) && Deliver(s, ns[i]).Kept?
      ensures Sound(known, Deliver(s, ns[i]).store)
    {
      DeliverKeeps(known, s, ns[i]);
    }
    DeliverAllKeeps(s => Sound(known, s), EMPTY, ns);
    RecordsArrive(EMPTY, ns);
    assert [] + Records(Images(known, ts)) == Records(Images(known, ts));
  }

  /** Some order for every store. */
  ghost predicate Picks(pick: Store -> Order) {
    forall s :: ListsAll(pick(s), s)
  }

  ghost function Rewritten(s: Store, pick: Store -> Order): Bytes
    requires Picks(pick)
  {
    EncodeAll(64, Saved(s, pick(s)))
  }

  /** What is loaded after `n` sessions, each of which loads the settings and writes them again. */
  ghost function Sessions(known: Uuids, bytes: Bytes, pick: Store -> Order, n: nat): Outcome
    requires Picks(pick)
    decreases n
  {
    if n == 0 then Load(known, bytes)
    else
      match Load(known, bytes)
      case Refused => Refused
      case Kept(s) => Sessions(known, Rewritten(s, pick), pick, n - 1)
  }

  lemma OneSession(known: Uuids, s: Store, pick: Store -> Order)
    requires Picks(pick) && Sound(known, s)
    ensures Load(known, Rewritten(s, pick)) == Kept(s)
  {
    LoadUndoesSave(known, s, pick(s));
  }

  /** However many sessions pass, the settings stay what the first one loaded. */
  lemma {:induction false} SessionsKeepSettings(known: Uuids, bytes: Bytes, pick: Store -> Order, n: nat)
    requires Picks(pick)
    requires Load(known, bytes).Kept? && Sound(known, Load(known, bytes).store)
    ensures Sessions(known, bytes, pick, n) == Load(known, bytes)
    decreases n
  {
    if n > 0 {
      var s := Load(known, bytes).store;
      OneSession(known, s, pick);
      SessionsKeepSettings(known, Rewritten(s, pick), pick, n - 1);
    }
  }

  // ----- what is kept can be written -----

  lemma {:induction false} ImageFits(known: Uuids, t: Node)
    requires Fits(64, t) && Plain(t) && Lasting(known, t)
    ensures |Image(known, t)| == 1 && Fits(64, Image(known, t)[0])
    decreases t, 1
  {
    if t.Object? {
      if t.uuid in known {
        ImagesFit(known, t.kids);
        ImagesWriteSame(known, t.kids);
      } else {
        ObjectIsSane(t.name, t.uuid, EncodeAll(64, t.kids));
      }
    }
  }

  lemma {:induction false} ImagesFit(known: Uuids, ts: seq<Node>)
    requires Written(ts) && AllLast(known, ts)
    ensures AllFit(64, Images(known, ts))
    decreases ts, 0
  {
    if ts != [] {
      WrittenFirst(ts);
      ImageFits(known, ts[0]);
      ImagesFit(known, ts[1..]);
      var n := Image(known, ts[0])[0];
      assert Image(known, ts[0]) == [n];
      assert ([n] + Images(known, ts[1..]))[1..] == Images(known, ts[1..]);
    }
  }

  lemma StableFits(known: Uuids, n: Node)
    requires Stable(known, n)
    ensures Fits(64, n)
  {
    var t :| Holds(known, n, t);
    ImageFits(known, t);
  }
}
