/**
 * The two kinds of output stream. Both learn the size of an object only after its body is written:
 * the buffered stream patches its own buffer, the file stream seeks back, overwrites and seeks forth.
 */
module StreamWriters {
  import opened Basics
  import opened StreamFormat

  /** Write over a file at a position, growing it as needed. */
  function Overwrite(file: Bytes, pos: nat, b: Bytes): Bytes
    requires pos <= |file|
  {
    file[..pos] + b + (if pos + |b| <= |file| then file[pos + |b|..] else [])
  }

  lemma OverwriteTwice(file: Bytes, pos: nat, a: Bytes, b: Bytes)
    requires pos <= |file|
    ensures |Overwrite(file, pos, a)| >= pos + |a|
    ensures Overwrite(Overwrite(file, pos, a), pos + |a|, b) == Overwrite(file, pos, a + b)
  {
  }

  lemma OverwriteAtEnd(file: Bytes, b: Bytes)
    ensures Overwrite(file, |file|, b) == file + b
  {
  }

  /** Overwriting in the middle of what was overwritten. */
  lemma OverwriteInside(file: Bytes, pos: nat, a: Bytes, b: Bytes, b': Bytes, c: Bytes)
    requires pos <= |file| && |b'| == |b|
    ensures |Overwrite(file, pos, a + b + c)| >= pos + |a + b + c|
    ensures Overwrite(Overwrite(file, pos, a + b + c), pos + |a|, b') == Overwrite(file, pos, a + b' + c)
    ensures Overwrite(file, pos, a + b + c)[pos + |a|..pos + |a| + |b|] == b
  {
  }

  /** An object's record with the size field apart. */
  lemma ObjectRecordParts(name: Bytes, uuid: Bytes, size: nat, body: Bytes)
    ensures Descriptor(T_OBJECT, |name|, size) + name + uuid + body ==
      ([T_OBJECT, 0] + Le(|name|, 2)) + Le(size, 4) + (name + uuid + body)
  {
    RegroupFive([T_OBJECT, 0] + Le(|name|, 2), Le(size, 4), name, uuid, body);
  }

  lemma RegroupFive(a: Bytes, b: Bytes, c: Bytes, d: Bytes, e: Bytes)
    ensures a + b + c + d + e == a + b + (c + d + e)
  {
  }

  class FileStream {
    var file: Bytes
    var pos: nat
    const wordSize: nat

    constructor (wordSize: nat)
      ensures file == [] && pos == 0 && this.wordSize == wordSize
    {
      file, pos := [], 0;
      this.wordSize := wordSize;
    }

    method WriteBuffer(b: Bytes) returns (n: nat)
      requires pos <= |file|
      modifies this
      ensures file == Overwrite(old(file), old(pos), b) && pos == old(pos) + |b| && n == |b|
    {
      file := Overwrite(file, pos, b);
      pos := pos + |b|;
      n := |b|;
    }

    /** Descriptor, name, value. */
    method WriteRecord(kind: Byte, name: Bytes, value: Bytes) returns (n: nat)
      requires pos <= |file|
      modifies this
      ensures file == Overwrite(old(file), old(pos), Record(kind, name, value))
      ensures pos == old(pos) + |Record(kind, name, value)| <= |file| && n == |Record(kind, name, value)|
    {
      var d := Descriptor(kind, |name|, |value|);
      OverwriteTwice(file, pos, d, name);
      OverwriteTwice(file, pos, d + name, value);
      var _ := WriteBuffer(d);
      var _ := WriteBuffer(name);
      var _ := WriteBuffer(value);
      n := |d| + |name| + |value|;
    }

    method WriteNode(t: Node) returns (n: nat)
      requires Fits(wordSize, t) && pos <= |file|
      modifies this
      ensures file == Overwrite(old(file), old(pos), Encode(wordSize, t))
      ensures pos == old(pos) + |Encode(wordSize, t)| <= |file| && n == |Encode(wordSize, t)|
      decreases t, 1
    {
      match t
      case Word(name, value) =>
        if wordSize == 64 {
          n := WriteRecord(T_INT64, name, Le(value, 8));
        } else {
          n := WriteRecord(T_WORD, name, Le(value, wordSize / 8));
        }
      case Double(name, bits) => n := WriteRecord(T_DOUBLE, name, bits);
      case Text(name, text) => n := WriteRecord(T_STRING, name, text);
      case Blob(name, bytes) => n := WriteRecord(T_BYTES, name, bytes);
      case Object(name, uuid, kids) => n := WriteObject(t);
      case Opaque(record) =>
        var ok;
        ok, n := WriteOpaque(record);
    }

    /** A record that does not pass the sanity check is refused; nothing is written then. */
    method WriteOpaque(record: Bytes) returns (ok: bool, n: nat)
      requires pos <= |file|
      modifies this
      ensures ok == SaneRecord(record)
      ensures ok ==> file == Overwrite(old(file), old(pos), record)
      ensures ok ==> pos == old(pos) + |record| <= |file| && n == |record|
      ensures !ok ==> file == old(file) && pos == old(pos)
    {
      if |record| < DESCRIPTOR_SIZE {
        return false, 0;
      }
      var size := UnLe(record[4..8]) + UnLe(record[2..4]) + DESCRIPTOR_SIZE + UUID_SIZE;
      if record[0] != T_OBJECT || size != |record| {
        return false, 0;
      }
      ok := true;
      n := WriteBuffer(record);
    }

    /** The streamed object writes its parts one after the other. */
    method WriteAll(ts: seq<Node>) returns (n: nat)
      requires AllFit(wordSize, ts) && pos <= |file|
      modifies this
      ensures file == Overwrite(old(file), old(pos), EncodeAll(wordSize, ts))
      ensures pos == old(pos) + |EncodeAll(wordSize, ts)| <= |file| && n == |EncodeAll(wordSize, ts)|
      decreases ts, 0
    {
      if ts == [] {
        assert Overwrite(file, pos, []) == file;
        return 0;
      }
      OverwriteTwice(file, pos, Encode(wordSize, ts[0]), EncodeAll(wordSize, ts[1..]));
      var m := WriteNode(ts[0]);
      n := WriteAll(ts[1..]);
      n := m + n;
    }

    /** The placeholder has to be there when the stream seeks back to it. */
    method WriteObject(t: Node) returns (n: nat)
      requires t.Object? && Fits(wordSize, t) && pos <= |file|
      modifies this
      ensures file == Overwrite(old(file), old(pos), Encode(wordSize, t))
      ensures pos == old(pos) + |Encode(wordSize, t)| <= |file| && n == |Encode(wordSize, t)|
      decreases t, 0
    {
      var Object(name, uuid, kids) := t;
      var head := Descriptor(T_OBJECT, |name|, PLACEHOLDER) + name + uuid;
      ghost var body := EncodeAll(wordSize, kids);
      OverwriteTwice(file, pos, head, body);
      WriteHead(name, uuid);
      var size := WriteAll(kids);
      ObjectRecordParts(name, uuid, PLACEHOLDER, body);
      ObjectRecordParts(name, uuid, size, body);
      OverwriteInside(old(file), old(pos), [T_OBJECT, 0] + Le(|name|, 2), Le(PLACEHOLDER, 4), Le(size, 4),
        name + uuid + body);

      var skip := size + UUID_SIZE + |name|;
      pos := pos - (skip + 4);
      assert file[pos..pos + 4] == Le(PLACEHOLDER, 4);
      var _ := WriteBuffer(Le(size, 4));
      pos := pos + skip;
      n := DESCRIPTOR_SIZE + |name| + UUID_SIZE + size;
    }

    method WriteHead(name: Bytes, uuid: Bytes)
      requires pos <= |file|
      modifies this
      ensures var head := Descriptor(T_OBJECT, |name|, PLACEHOLDER) + name + uuid;
        file == Overwrite(old(file), old(pos), head) && pos == old(pos) + |head| <= |file|
    {
      var d := Descriptor(T_OBJECT, |name|, PLACEHOLDER);
      OverwriteTwice(file, pos, d, name);
      OverwriteTwice(file, pos, d + name, uuid);
      var _ := WriteBuffer(d);
      var _ := WriteBuffer(name);
      var _ := WriteBuffer(uuid);
    }
  }

  /** The buffered stream, used where the descriptor cannot seek. */
  class BStream {
    var buf: Bytes
    const wordSize: nat

    constructor (wordSize: nat)
      ensures buf == [] && this.wordSize == wordSize
    {
      buf := [];
      this.wordSize := wordSize;
    }

    method WriteBuffer(b: Bytes) returns (n: nat)
      modifies this
      ensures buf == old(buf) + b && n == |b|
    {
      buf := buf + b;
      n := |b|;
    }

    method WriteRecord(kind: Byte, name: Bytes, value: Bytes) returns (n: nat)
      modifies this
      ensures buf == old(buf) + Record(kind, name, value) && n == |Record(kind, name, value)|
    {
      var d := Descriptor(kind, |name|, |value|);
      var _ := WriteBuffer(d);
      var _ := WriteBuffer(name);
      var _ := WriteBuffer(value);
      Regroup(old(buf), d, name);
      Regroup(old(buf), d + name, value);
      n := |d| + |name| + |value|;
    }

    method WriteNode(t: Node) returns (n: nat)
      requires Fits(wordSize, t)
      modifies this
      ensures buf == old(buf) + Encode(wordSize, t) && n == |Encode(wordSize, t)|
      decreases t, 1
    {
      match t
      case Word(name, value) =>
        if wordSize == 64 {
          n := WriteRecord(T_INT64, name, Le(value, 8));
        } else {
          n := WriteRecord(T_WORD, name, Le(value, wordSize / 8));
        }
      case Double(name, bits) => n := WriteRecord(T_DOUBLE, name, bits);
      case Text(name, text) => n := WriteRecord(T_STRING, name, text);
      case Blob(name, bytes) => n := WriteRecord(T_BYTES, name, bytes);
      case Object(name, uuid, kids) => n := WriteObject(t);
      case Opaque(record) => n := WriteBuffer(record);
    }

    method WriteAll(ts: seq<Node>) returns (n: nat)
      requires AllFit(wordSize, ts)
      modifies this
      ensures buf == old(buf) + EncodeAll(wordSize, ts) && n == |EncodeAll(wordSize, ts)|
      decreases ts, 0
    {
      if ts == [] {
        return 0;
      }
      var m := WriteNode(ts[0]);
      n := WriteAll(ts[1..]);
      Regroup(old(buf), Encode(wordSize, ts[0]), EncodeAll(wordSize, ts[1..]));
      n := m + n;
    }

    /** Patch the size in place, counting back from the end of the buffer. */
    method WriteObject(t: Node) returns (n: nat)
      requires t.Object? && Fits(wordSize, t)
      modifies this
      ensures buf == old(buf) + Encode(wordSize, t) && n == |Encode(wordSize, t)|
      decreases t, 0
    {
      var Object(name, uuid, kids) := t;
      ghost var body := EncodeAll(wordSize, kids);
      var _ := WriteBuffer(Descriptor(T_OBJECT, |name|, PLACEHOLDER));
      var _ := WriteBuffer(name);
      var _ := WriteBuffer(uuid);
      var size := WriteAll(kids);
      PatchInPlace(old(buf), name, uuid, size, body);

      var at := |buf| - (size + UUID_SIZE + |name| + 4);
      assert buf[at..at + 4] == Le(PLACEHOLDER, 4);
      buf := buf[..at] + Le(size, 4) + buf[at + 4..];
      n := DESCRIPTOR_SIZE + |name| + UUID_SIZE + size;
    }
  }

  lemma PatchInPlace(before: Bytes, name: Bytes, uuid: Bytes, size: nat, body: Bytes)
    requires |uuid| == UUID_SIZE
    ensures var buf := before + Descriptor(T_OBJECT, |name|, PLACEHOLDER) + name + uuid + body;
      var at := |buf| - (|body| + UUID_SIZE + |name| + 4);
      && at == |before| + 4
      && buf[at..at + 4] == Le(PLACEHOLDER, 4)
      && buf[..at] + Le(size, 4) + buf[at + 4..] == before + (Descriptor(T_OBJECT, |name|, size) + name + uuid + body)
  {
  }

  /** The serial stream: an object goes through a buffer of its own, then out in one piece. */
  class CStream {
    var out: Bytes
    const wordSize: nat

    constructor (wordSize: nat)
      ensures out == [] && this.wordSize == wordSize
    {
      out := [];
      this.wordSize := wordSize;
    }

    method WriteObject(t: Node) returns (n: nat)
      requires t.Object? && Fits(wordSize, t)
      modifies this
      ensures out == old(out) + Encode(wordSize, t) && n == |Encode(wordSize, t)|
    {
      var b := new BStream(wordSize);
      n := b.WriteObject(t);
      assert b.buf == Encode(wordSize, t) && b.buf[..n] == b.buf;
      out := out + b.buf[..n];
    }
  }

  /** Whichever way the sizes are patched, the same bytes come out, and the file ends at its end. */
  method StrategiesAgree(t: Node, wordSize: nat) returns (inPlace: Bytes, seekBack: Bytes, position: nat)
    requires t.Object? && Fits(wordSize, t)
    ensures inPlace == seekBack == Encode(wordSize, t) && position == |seekBack|
  {
    var b := new BStream(wordSize);
    var f := new FileStream(wordSize);
    var m := b.WriteObject(t);
    var n := f.WriteObject(t);
    OverwriteAtEnd([], Encode(wordSize, t));
    inPlace, seekBack, position := b.buf, f.file, f.pos;
  }
}
