/** The binary settings format: tagged, named records, with objects that nest. */
module StreamFormat {
  import opened Basics

  /** The number of values that fit in `k` bytes. */
  function Range(k: nat): nat {
    if k == 0 then 1 else 256 * Range(k - 1)
  }

  /** The byte of a number at a place, the least significant being at place zero. */
  function Digit(n: nat, place: nat): Byte
    decreases place
  {
    if place == 0 then n % 256 else Digit(n / 256, place - 1)
  }

  /** A number in `k` bytes, least significant first; higher bytes are cut off. */
  function Le(n: nat, k: nat): (b: Bytes)
    ensures |b| == k
  {
    seq(k, i requires i >= 0 => Digit(n, i))
  }

  function UnLe(b: Bytes): nat {
    if b == [] then 0 else b[0] + 256 * UnLe(b[1..])
  }

  lemma LeFirst(n: nat, k: nat)
    requires k > 0
    ensures Le(n, k)[0] == n % 256 && Le(n, k)[1..] == Le(n / 256, k - 1)
  {
  }

  lemma {:induction false} LeRoundTrip(n: nat, k: nat)
    requires n < Range(k)
    ensures UnLe(Le(n, k)) == n
    decreases k
  {
    if k > 0 {
      assert n / 256 < Range(k - 1);
      LeRoundTrip(n / 256, k - 1);
      LeFirst(n, k);
    }
  }

  lemma Ranges()
    ensures Range(2) == U16 && Range(4) == U32 && Range(8) == U64
  {
  }

  // ----- records -----

  const T_NULL: Byte := 0
  const T_BYTES: Byte := 98
  const T_DOUBLE: Byte := 100
  const T_WORD: Byte := 105
  const T_OBJECT: Byte := 111
  const T_STRING: Byte := 115
  const T_INT64: Byte := 120

  const DESCRIPTOR_SIZE := 8
  const UUID_SIZE := 16

  /** The size an object's descriptor carries until its body has been written. */
  const PLACEHOLDER: nat := 0xFE

  /** Type, flags, length of the name, size of the value. */
  function Descriptor(kind: Byte, namelen: nat, size: nat): (b: Bytes)
    ensures |b| == DESCRIPTOR_SIZE
  {
    [kind, 0] + Le(namelen, 2) + Le(size, 4)
  }

  /** What a stream carries. A word is its 64-bit pattern, a double its eight bytes. */
  datatype Node =
    | Word(name: Bytes, value: nat)
    | Double(name: Bytes, bits: Bytes)
    | Text(name: Bytes, text: Bytes)
    | Blob(name: Bytes, bytes: Bytes)
    | Object(name: Bytes, uuid: Bytes, kids: seq<Node>)
    | Opaque(record: Bytes)

  function Record(kind: Byte, name: Bytes, value: Bytes): Bytes {
    Descriptor(kind, |name|, |value|) + name + value
  }

  /** A word is eight bytes on a 64-bit stream, and the lower four of them on a 32-bit one. */
  function EncodeWord(wordSize: nat, name: Bytes, value: nat): Bytes {
    if wordSize == 64 then Record(T_INT64, name, Le(value, 8)) else Record(T_WORD, name, Le(value, wordSize / 8))
  }

  /** The size of an object does not include its identifier. */
  function ObjectRecord(name: Bytes, uuid: Bytes, body: Bytes): Bytes {
    Descriptor(T_OBJECT, |name|, |body|) + name + uuid + body
  }

  function Encode(wordSize: nat, t: Node): Bytes
    decreases t, 1
  {
    match t
    case Word(name, value) => EncodeWord(wordSize, name, value)
    case Double(name, bits) => Record(T_DOUBLE, name, bits)
    case Text(name, text) => Record(T_STRING, name, text)
    case Blob(name, bytes) => Record(T_BYTES, name, bytes)
    case Object(name, uuid, kids) => ObjectRecord(name, uuid, EncodeAll(wordSize, kids))
    case Opaque(record) => record
  }

  function EncodeAll(wordSize: nat, ts: seq<Node>): Bytes
    decreases ts, 0
  {
    if ts == [] then [] else Encode(wordSize, ts[0]) + EncodeAll(wordSize, ts[1..])
  }

  // ----- what fits in the format -----

  ghost predicate NoZero(b: Bytes) {
    forall i :: 0 <= i < |b| ==> b[i] != 0
  }

  ghost predicate GoodName(name: Bytes) {
    |name| < U16 && NoZero(name)
  }

  ghost predicate WordSize(wordSize: nat) {
    wordSize == 32 || wordSize == 64
  }

  /** The record passes the sanity check made before it is written back. */
  predicate SaneRecord(record: Bytes) {
    && |record| >= DESCRIPTOR_SIZE && record[0] == T_OBJECT
    && UnLe(record[4..8]) + UnLe(record[2..4]) + DESCRIPTOR_SIZE + UUID_SIZE == |record|
  }

  /** Names and strings are C strings, and every length fits its field. */
  ghost predicate Fits(wordSize: nat, t: Node)
    decreases t, 1
  {
    match t
    case Word(name, value) => GoodName(name) && value < U64
    case Double(name, bits) => GoodName(name) && |bits| == 8
    case Text(name, text) => GoodName(name) && NoZero(text) && |text| < U32
    case Blob(name, bytes) => GoodName(name) && |bytes| < U32
    case Object(name, uuid, kids) =>
      GoodName(name) && |uuid| == UUID_SIZE && |EncodeAll(wordSize, kids)| < U32 && AllFit(wordSize, kids)
    case Opaque(record) => SaneRecord(record)
  }

  ghost predicate AllFit(wordSize: nat, ts: seq<Node>)
    decreases ts, 0
  {
    ts == [] || (Fits(wordSize, ts[0]) && AllFit(wordSize, ts[1..]))
  }

  lemma {:induction false} EncodeAllSplits(wordSize: nat, ts: seq<Node>, us: seq<Node>)
    ensures EncodeAll(wordSize, ts + us) == EncodeAll(wordSize, ts) + EncodeAll(wordSize, us)
    decreases |ts|
  {
    if ts == [] {
      assert ts + us == us;
    } else {
      assert (ts + us)[1..] == ts[1..] + us;
      EncodeAllSplits(wordSize, ts[1..], us);
    }
  }

  /** Where the parts of a record are. */
  lemma DescriptorParts(kind: Byte, namelen: nat, size: nat, rest: Bytes)
    requires namelen < U16 && size < U32
    ensures var b := Descriptor(kind, namelen, size) + rest;
      && b[0] == kind && UnLe(b[2..4]) == namelen && UnLe(b[4..8]) == size
      && b[8..] == rest && b[..8] == Descriptor(kind, namelen, size)
  {
    Ranges();
    LeRoundTrip(namelen, 2);
    LeRoundTrip(size, 4);
    var b := Descriptor(kind, namelen, size) + rest;
    assert b[2..4] == Le(namelen, 2);
    assert b[4..8] == Le(size, 4);
  }

  /** Every object written in full is a sane record. */
  lemma ObjectIsSane(name: Bytes, uuid: Bytes, body: Bytes)
    requires |name| < U16 && |uuid| == UUID_SIZE && |body| < U32
    ensures SaneRecord(ObjectRecord(name, uuid, body))
  {
    var d := Descriptor(T_OBJECT, |name|, |body|);
    DescriptorParts(T_OBJECT, |name|, |body|, name + uuid + body);
    Regroup(d, name, uuid);
    Regroup(d, name + uuid, body);
  }
}
