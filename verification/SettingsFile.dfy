/** Settings as the debugger keeps them: objects that read a stream and that a stream is written from. */
module SettingsFile {
  import opened Basics
  import opened StreamFormat
  import opened StreamReader
  import opened StreamWriters
  import opened StreamTrees
  import opened StreamNesting
  import opened SettingsStore

  datatype Status = Ended | Failed | Done

  predicate Agrees(r: ReadResult, status: Status, events: seq<Node>, counted: nat, rest: Bytes) {
    match r
    case End => status == Ended && counted == 0 && events == []
    case Threw => status == Failed
    case Got(e, c, left) => status == Done && events == e && counted == c && rest == left
  }

  class InputStream {
    const data: Bytes
    var pos: nat

    constructor (data: Bytes)
      ensures this.data == data && pos == 0
    {
      this.data := data;
      pos := 0;
    }

    ghost function Rest(): Bytes
      requires pos <= |data|
      reads this
    {
      data[pos..]
    }

    method ReadBuffer(n: nat) returns (ok: bool, bytes: Bytes, count: nat)
      requires pos <= |data|
      modifies this`pos
      ensures old(pos) <= pos <= |data|
      ensures var b := StreamReader.ReadBuffer(old(Rest()), n);
        ok == b.Buffer? && (ok ==> bytes == b.bytes && count == b.count && Rest() == b.rest)
    {
      var available := |data| - pos;
      if n == 0 || available == 0 {
        ok, bytes, count := true, seq(n, _ => 0), 0;
      } else if available >= n {
        ok, bytes, count := true, data[pos..pos + n], n;
        pos := pos + n;
      } else {
        ok, bytes, count := false, [], 0;
        pos := |data|;
      }
    }

    method Read(known: Uuids) returns (status: Status, events: seq<Node>, counted: nat)
      requires pos <= |data|
      modifies this`pos
      ensures old(pos) <= pos <= |data|
      ensures Agrees(ReadOne(known, old(Rest())), status, events, counted, Rest())
      ensures status == Done ==> pos >= old(pos) + DESCRIPTOR_SIZE
      ensures status == Ended ==> pos == old(pos)
      decreases |data| - pos, 2
    {
      events, counted := [], 0;
      var ok, d, count := ReadBuffer(DESCRIPTOR_SIZE);
      if !ok {
        status := Failed;
      } else if count == 0 {
        status := Ended;
      } else {
        status, events, counted := ReadNamed(known, d);
      }
    }

    method ReadNamed(known: Uuids, d: Bytes) returns (status: Status, events: seq<Node>, counted: nat)
      requires pos <= |data| && |d| == DESCRIPTOR_SIZE
      modifies this`pos
      ensures old(pos) <= pos <= |data|
      ensures Agrees(StreamReader.ReadNamed(known, d, old(Rest())), status, events, counted, Rest())
      ensures status != Ended
      decreases |data| - pos, 6
    {
      events, counted := [], DESCRIPTOR_SIZE;
      var ok, name, count := ReadBuffer(UnLe(d[2..4]));
      if !ok {
        return Failed, [], 0;
      }
      counted := counted + count;
      if d[0] == T_NULL {
        status := Done;
      } else if d[0] == T_OBJECT {
        status, events, counted := ReadObject(known, d, name, counted);
      } else {
        status, events, counted := ReadScalar(d, name, counted);
      }
    }

    method ReadScalar(d: Bytes, name: Bytes, before: nat) returns (status: Status, events: seq<Node>, counted: nat)
      requires pos <= |data| && |d| == DESCRIPTOR_SIZE
      modifies this`pos
      ensures old(pos) <= pos <= |data|
      ensures Agrees(StreamReader.ReadScalar(d, name, before, old(Rest())), status, events, counted, Rest())
      ensures status != Ended
    {
      var size := UnLe(d[4..8]);
      if d[0] == T_WORD || d[0] == T_INT64 || d[0] == T_DOUBLE {
        if size != 8 {
          return Failed, [], 0;
        }
      } else if d[0] != T_STRING && d[0] != T_BYTES {
        return Failed, [], 0;
      }
      var ok, value, count := ReadBuffer(size);
      if !ok {
        return Failed, [], 0;
      }
      return Done, [Scalar(d[0], CString(name), value)], before + count;
    }

    method ReadObject(known: Uuids, d: Bytes, name: Bytes, before: nat)
      returns (status: Status, events: seq<Node>, counted: nat)
      requires pos <= |data| && |d| == DESCRIPTOR_SIZE
      modifies this`pos
      ensures old(pos) <= pos <= |data|
      ensures Agrees(StreamReader.ReadObject(known, d, name, before, old(Rest())), status, events, counted, Rest())
      ensures status != Ended
      decreases |data| - pos, 5
    {
      var ok, uuid, count := ReadBuffer(UUID_SIZE);
      if !ok {
        return Failed, [], 0;
      }
      events := [];
      var nread := 0;
      if uuid in known {
        var fine, kids, n := ReadBody(known, UnLe(d[4..8]));
        if !fine {
          return Failed, [], 0;
        }
        nread := n;
        events := [Object(CString(name), uuid, kids)];
      }
      if nread != 0 {
        status, counted := Done, before + count + nread;
      } else {
        status, events, counted := ReadOpaque(d, name, uuid, events, before + count);
      }
    }

    /** The loop an object reads its own parts with. */
    method ReadBody(known: Uuids, size: nat) returns (ok: bool, kids: seq<Node>, nread: nat)
      requires pos <= |data|
      modifies this`pos
      ensures old(pos) <= pos <= |data|
      ensures var b := StreamReader.ReadBody(known, old(Rest()), size, 0);
        ok == b.Body? && (ok ==> kids == b.kids && nread == b.nread && Rest() == b.rest)
      ensures ok && nread == 0 ==> kids == [] && pos == old(pos)
      decreases |data| - pos, 4
    {
      ok, kids, nread := true, [], 0;
      ghost var whole := StreamReader.ReadBody(known, Rest(), size, 0);
      while nread < size
        invariant old(pos) <= pos <= |data|
        invariant whole == Behind(kids, StreamReader.ReadBody(known, Rest(), size, nread))
        invariant nread == 0 ==> kids == [] && pos == old(pos)
        decreases |data| - pos
      {
        var status, events, counted := Read(known);
        if status == Failed {
          return false, [], 0;
        }
        if status == Ended {
          break;
        }
        BehindBoth(kids, events, StreamReader.ReadBody(known, Rest(), size, nread + counted));
        kids, nread := kids + events, nread + counted;
      }
    }

    method ReadOpaque(d: Bytes, name: Bytes, uuid: Bytes, delivered: seq<Node>, before: nat)
      returns (status: Status, events: seq<Node>, counted: nat)
      requires pos <= |data| && |d| == DESCRIPTOR_SIZE
      modifies this`pos
      ensures old(pos) <= pos <= |data|
      ensures Agrees(StreamReader.ReadOpaque(d, name, uuid, delivered, before, old(Rest())), status, events, counted,
        Rest())
      ensures status != Ended
    {
      var size := UnLe(d[4..8]);
      if size == 0 {
        return Done, delivered, before;
      }
      var ok, body, _ := ReadBuffer(size);
      if !ok {
        return Failed, [], 0;
      }
      var record := d + name + uuid + body;
      return Done, delivered + [Opaque(record)], before + |record|;
    }
  }

  function Behind(kids: seq<Node>, b: BodyResult): BodyResult {
    if b.Body? then Body(kids + b.kids, b.nread, b.rest) else b
  }

  lemma BehindBoth(a: seq<Node>, b: seq<Node>, r: BodyResult)
    ensures Behind(a + b, r) == Behind(a, Behind(b, r))
  {
  }

  // ----- the settings -----

  class Settings {
    var words: map<Bytes, nat>
    var doubles: map<Bytes, Bytes>
    var strings: map<Bytes, Bytes>
    var objects: map<Bytes, Node>
    var opaques: seq<Bytes>

    constructor ()
      ensures Value() == EMPTY
    {
      words, doubles, strings, objects, opaques := map[], map[], map[], map[], [];
    }

    ghost function Value(): Store
      reads this
    {
      Store(words, doubles, strings, objects, opaques)
    }

    method OnWord(name: Bytes, value: nat)
      modifies this
      ensures Value() == old(Value()).(words := old(words)[name := value])
    {
      words := words[name := value];
    }

    method OnDouble(name: Bytes, bits: Bytes)
      modifies this
      ensures Value() == old(Value()).(doubles := old(doubles)[name := bits])
    {
      doubles := doubles[name := bits];
    }

    method OnString(name: Bytes, text: Bytes)
      modifies this
      ensures Value() == old(Value()).(strings := old(strings)[name := text])
    {
      strings := strings[name := text];
    }

    method SetObject(n: Node) returns (ok: bool)
      requires n.Object?
      modifies this
      ensures !ok <==> n.name in old(objects) && old(objects[n.name]).Object? && old(objects[n.name]).uuid != n.uuid
      ensures Value() == if ok then old(Value()).(objects := old(objects)[n.name := n]) else old(Value())
    {
      if n.name in objects {
        var was := objects[n.name];
        if was.Object? && was.uuid != n.uuid {
          return false;
        }
      }
      objects := objects[n.name := n];
      ok := true;
    }

    method OnOpaque(record: Bytes)
      modifies this
      ensures Value() == old(Value()).(opaques := old(opaques) + [record])
    {
      opaques := opaques + [record];
    }

    /** What the stream calls with each record it has read. */
    method OnRecord(n: Node) returns (ok: bool)
      modifies this
      ensures ok == Deliver(old(Value()), n).Kept?
      ensures Value() == if ok then Deliver(old(Value()), n).store else old(Value())
    {
      ok := true;
      match n
      case Word(name, value) => OnWord(name, value);
      case Double(name, bits) => OnDouble(name, bits);
      case Text(name, text) => OnString(name, text);
      case Blob(_, _) =>
      case Object(_, _, _) => ok := SetObject(n);
      case Opaque(record) => OnOpaque(record);
    }

    method OnRecords(ns: seq<Node>) returns (ok: bool)
      modifies this
      ensures Filled(Value(), ok) == DeliverUntil(old(Value()), ns)
    {
      ok := true;
      var i := 0;
      while i < |ns|
        invariant 0 <= i <= |ns| && ok
        invariant DeliverUntil(old(Value()), ns) == DeliverUntil(Value(), ns[i..])
      {
        assert ns[i..][0] == ns[i] && ns[i..][1..] == ns[i + 1..];
        ok := OnRecord(ns[i]);
        if !ok {
          return;
        }
        i := i + 1;
      }
    }

    /** The loop that reads the settings file at start-up. */
    method Load(input: InputStream, known: Uuids) returns (ok: bool)
      requires input.pos <= |input.data|
      modifies this, input`pos
      ensures Filled(Value(), ok) == LoadInto(known, old(Value()), old(input.Rest()))
    {
      ok := true;
      ghost var whole := LoadInto(known, Value(), input.Rest());
      while true
        invariant ok && input.pos <= |input.data|
        invariant whole == LoadInto(known, Value(), input.Rest())
        decreases |input.data| - input.pos
      {
        var status, events, _ := input.Read(known);
        if status == Failed {
          return false;
        }
        if status == Ended {
          return;
        }
        ok := OnRecords(events);
        if !ok {
          return;
        }
      }
    }

    /** Write everything the settings hold, each map in its own order, unless saving is switched off. */
    method Write(out: FileStream, save: bool, ghost known: Uuids) returns (n: nat, ghost order: Order)
      requires Sound(known, Value()) && out.wordSize == 64 && out.pos <= |out.file|
      modifies out
      ensures ListsAll(order, Value())
      ensures out.file == if save then Overwrite(old(out.file), old(out.pos), EncodeAll(64, Saved(Value(), order)))
        else old(out.file)
      ensures n == if save then |EncodeAll(64, Saved(Value(), order))| else 0
    {
      var w := Keys(words);
      var d := Keys(doubles);
      var t := Keys(strings);
      var b := Keys(objects);
      order := Order(w, d, t, b);
      if !save {
        return 0, order;
      }
      n := WriteMaps(out, Store(words, doubles, strings, objects, opaques), w, d, t, b, known);
    }
  }

  /** Where writing began, and what has been written since. */
  datatype Progress = Progress(file: Bytes, pos: nat, done: seq<Node>)

  ghost predicate Reached(out: FileStream, p: Progress)
    reads out
  {
    && p.pos <= |p.file| && out.pos <= |out.file|
    && out.file == Overwrite(p.file, p.pos, EncodeAll(64, p.done)) && out.pos == p.pos + |EncodeAll(64, p.done)|
  }

  /** The loops that write the maps, one after another. */
  method WriteMaps(out: FileStream, s: Store, w: seq<Bytes>, d: seq<Bytes>, t: seq<Bytes>, b: seq<Bytes>,
                   ghost known: Uuids) returns (n: nat)
    requires Sound(known, s) && ListsAll(Order(w, d, t, b), s) && out.wordSize == 64 && out.pos <= |out.file|
    modifies out
    ensures var all := EncodeAll(64, Saved(s, Order(w, d, t, b)));
      out.file == Overwrite(old(out.file), old(out.pos), all) && n == |all|
  {
    ghost var progress := Progress(out.file, out.pos, []);
    OverwriteNothing(out.file, out.pos);
    PartsFit(known, s, Order(w, d, t, b));
    n, progress := WriteMore(out, 0, Entries(w, WordNodes(s)), progress);
    n, progress := WriteMore(out, n, Entries(d, DoubleNodes(s)), progress);
    n, progress := WriteMore(out, n, Entries(t, TextNodes(s)), progress);
    n, progress := WriteMore(out, n, Entries(b, s.objects), progress);
    n, progress := WriteMore(out, n, OpaqueNodes(s.opaques), progress);
    assert [] + Entries(w, WordNodes(s)) == Entries(w, WordNodes(s));
  }

  /** One of the loops that write a map. */
  method WriteMore(out: FileStream, before: nat, ns: seq<Node>, ghost p: Progress) returns (n: nat, ghost q: Progress)
    requires out.wordSize == 64 && AllFit(64, ns) && Reached(out, p) && before == |EncodeAll(64, p.done)|
    modifies out
    ensures q == p.(done := p.done + ns) && Reached(out, q) && n == |EncodeAll(64, q.done)|
  {
    var more := out.WriteAll(ns);
    OverwriteTwice(p.file, p.pos, EncodeAll(64, p.done), EncodeAll(64, ns));
    EncodeAllSplits(64, p.done, ns);
    n, q := before + more, p.(done := p.done + ns);
  }

  lemma OverwriteNothing(file: Bytes, pos: nat)
    requires pos <= |file|
    ensures Overwrite(file, pos, []) == file
  {
  }

  lemma {:induction false} AllFitSplits(a: seq<Node>, b: seq<Node>)
    ensures AllFit(64, a + b) <==> AllFit(64, a) && AllFit(64, b)
    decreases |a|
  {
    if a == [] {
      assert a + b == b;
    } else {
      assert (a + b)[1..] == a[1..] + b;
      AllFitSplits(a[1..], b);
    }
  }

  lemma PartsFit(known: Uuids, s: Store, o: Order)
    requires Sound(known, s) && ListsAll(o, s)
    ensures AllFit(64, Entries(o.words, WordNodes(s))) && AllFit(64, Entries(o.doubles, DoubleNodes(s)))
    ensures AllFit(64, Entries(o.strings, TextNodes(s))) && AllFit(64, Entries(o.objects, s.objects))
    ensures AllFit(64, OpaqueNodes(s.opaques))
  {
    var w, d, t := Entries(o.words, WordNodes(s)), Entries(o.doubles, DoubleNodes(s)), Entries(o.strings, TextNodes(s));
    SavedIsStable(known, s, o);
    AllStableFit(known, Saved(s, o));
    AllFitSplits(w + d + t + Entries(o.objects, s.objects), OpaqueNodes(s.opaques));
    AllFitSplits(w + d + t, Entries(o.objects, s.objects));
    AllFitSplits(w + d, t);
    AllFitSplits(w, d);
  }

  /** The keys of a map, in no particular order. */
  method Keys<V>(m: map<Bytes, V>) returns (keys: seq<Bytes>)
    ensures Lists(keys, m)
  {
    keys := [];
    var left := m.Keys;
    while left != {}
      invariant left <= m.Keys
      invariant forall i :: 0 <= i < |keys| ==> keys[i] in m && keys[i] !in left
      invariant forall k :: k in m ==> k in left || k in keys
      invariant forall i, j :: 0 <= i < j < |keys| ==> keys[i] != keys[j]
      decreases |left|
    {
      var k :| k in left;
      left := left - {k};
      keys := keys + [k];
    }
  }

  lemma {:induction false} AllStableFit(known: Uuids, ns: seq<Node>)
    requires AllStable(known, ns)
    ensures AllFit(64, ns)
    decreases |ns|
  {
    if ns != [] {
      StableFits(known, ns[0]);
      AllStableFit(known, ns[1..]);
    }
  }

  /** Settings saved to a new file and read back by a new process are the same settings. */
  method SaveAndReload(settings: Settings, known: Uuids) returns (again: Settings, ok: bool)
    requires Sound(known, settings.Value())
    ensures ok && again.Value() == settings.Value()
  {
    var file := new FileStream(64);
    var _, order := settings.Write(file, true, known);
    OverwriteAtEnd([], EncodeAll(64, Saved(settings.Value(), order)));
    LoadUndoesSave(known, settings.Value(), order);
    var input := new InputStream(file.file);
    assert input.Rest() == file.file;
    again := new Settings();
    LoadIntoIff(known, EMPTY, file.file);
    ok := again.Load(input, known);
  }
}
