/** Reading the format back: what a stream delivers, what it consumes, and what it says it consumed. */
module StreamReader {
  import opened Basics
  import opened StreamFormat

  /** A raw read: all that was asked for, or zeros at the end of the stream; a short read throws. */
  datatype Buffer = Short | Buffer(bytes: Bytes, count: nat, rest: Bytes)

  function ReadBuffer(input: Bytes, n: nat): (b: Buffer)
    ensures b.Buffer? ==> |b.bytes| == n && |b.rest| + b.count == |input|
  {
    if n == 0 || input == [] then Buffer(Zeros(n), 0, input)
    else if |input| >= n then Buffer(input[..n], n, input[n..])
    else Short
  }

  /** The characters before the first zero. */
  function CString(b: Bytes): Bytes {
    if b == [] || b[0] == 0 then [] else [b[0]] + CString(b[1..])
  }

  /** One read delivers some events, or finds the end, or throws. */
  datatype ReadResult = End | Threw | Got(events: seq<Node>, counted: nat, rest: Bytes)

  type Uuids = set<Bytes>

  /** Read one record, for a receiver that can create objects of the known identifiers. */
  function ReadOne(known: Uuids, input: Bytes): (r: ReadResult)
    ensures r.Got? ==> |r.rest| + DESCRIPTOR_SIZE <= |input| && r.counted >= DESCRIPTOR_SIZE
    decreases |input|, 2
  {
    match ReadBuffer(input, DESCRIPTOR_SIZE)
    case Short => Threw
    case Buffer(d, count, rest) => if count == 0 then End else ReadNamed(known, d, rest)
  }

  function ReadNamed(known: Uuids, d: Bytes, input: Bytes): (r: ReadResult)
    requires |d| == DESCRIPTOR_SIZE
    ensures r.Got? ==> |r.rest| <= |input| && r.counted >= DESCRIPTOR_SIZE
    decreases |input|, 6
  {
    match ReadBuffer(input, UnLe(d[2..4]))
    case Short => Threw
    case Buffer(name, count, rest) =>
      if d[0] == T_NULL then Got([], DESCRIPTOR_SIZE + count, rest)
      else if d[0] == T_OBJECT then ReadObject(known, d, name, DESCRIPTOR_SIZE + count, rest)
      else ReadScalar(d, name, DESCRIPTOR_SIZE + count, rest)
  }

  function ReadScalar(d: Bytes, name: Bytes, counted: nat, input: Bytes): (r: ReadResult)
    requires |d| == DESCRIPTOR_SIZE
    ensures r.Got? ==> |r.rest| <= |input| && r.counted >= counted
  {
    var size := UnLe(d[4..8]);
    if d[0] in {T_WORD, T_INT64, T_DOUBLE} && size != 8 then Threw
    else if d[0] !in {T_WORD, T_INT64, T_DOUBLE, T_STRING, T_BYTES} then Threw
    else
      match ReadBuffer(input, size)
      case Short => Threw
      case Buffer(value, count, rest) => Got([Scalar(d[0], CString(name), value)], counted + count, rest)
  }

  function Scalar(kind: Byte, name: Bytes, value: Bytes): Node {
    if kind == T_DOUBLE then Double(name, value)
    else if kind == T_STRING then Text(name, CString(value))
    else if kind == T_BYTES then Blob(name, value)
    else Word(name, UnLe(value))
  }

  /**
   * A known object reads its own parts; an unknown one is kept as it is, and its head is counted a
   * second time. An object that finds the end of the stream before its first part is both.
   */
  function ReadObject(known: Uuids, d: Bytes, name: Bytes, counted: nat, input: Bytes): (r: ReadResult)
    requires |d| == DESCRIPTOR_SIZE
    ensures r.Got? ==> |r.rest| <= |input| && r.counted >= counted
    decreases |input|, 5
  {
    match ReadBuffer(input, UUID_SIZE)
    case Short => Threw
    case Buffer(uuid, count, rest) =>
      if uuid !in known then ReadOpaque(d, name, uuid, [], counted + count, rest)
      else
        match ReadBody(known, rest, UnLe(d[4..8]), 0)
        case BodyThrew => Threw
        case Body(kids, nread, rest') =>
          if nread != 0 then Got([Object(CString(name), uuid, kids)], counted + count + nread, rest')
          else ReadOpaque(d, name, uuid, [Object(CString(name), uuid, [])], counted + count, rest)
  }

  function ReadOpaque(d: Bytes, name: Bytes, uuid: Bytes, events: seq<Node>, counted: nat,
                      input: Bytes): (r: ReadResult)
    requires |d| == DESCRIPTOR_SIZE
    ensures r.Got? ==> |r.rest| <= |input| && r.counted >= counted
  {
    var size := UnLe(d[4..8]);
    if size == 0 then Got(events, counted, input)
    else
      match ReadBuffer(input, size)
      case Short => Threw
      case Buffer(body, _, rest) =>
        var record := d + name + uuid + body;
        Got(events + [Opaque(record)], counted + |record|, rest)
  }

  datatype BodyResult = BodyThrew | Body(kids: seq<Node>, nread: nat, rest: Bytes)

  /** Read parts until as many bytes as the object has are accounted for, or the stream ends. */
  function ReadBody(known: Uuids, input: Bytes, size: nat, nread: nat): (r: BodyResult)
    ensures r.Body? ==> |r.rest| <= |input| && r.nread >= nread
    decreases |input|, 4
  {
    if nread >= size then Body([], nread, input)
    else
      match ReadOne(known, input)
      case Threw => BodyThrew
      case End => Body([], nread, input)
      case Got(events, counted, rest) =>
        match ReadBody(known, rest, size, nread + counted)
        case BodyThrew => BodyThrew
        case Body(kids, n, rest') => Body(events + kids, n, rest')
  }

  datatype Loaded = LoadThrew | Loaded(events: seq<Node>)

  /** Read to the end of the stream. */
  function LoadAll(known: Uuids, input: Bytes): Loaded
    decreases |input|
  {
    match ReadOne(known, input)
    case Threw => LoadThrew
    case End => Loaded([])
    case Got(events, _, rest) =>
      match LoadAll(known, rest)
      case LoadThrew => LoadThrew
      case Loaded(more) => Loaded(events + more)
  }

  // ----- what one written record is read as -----

  lemma {:induction false} CStringOfText(b: Bytes)
    requires NoZero(b)
    ensures CString(b) == b
  {
    if b != [] { CStringOfText(b[1..]); }
  }

  lemma Take(a: Bytes, b: Bytes)
    ensures |a| > 0 ==> ReadBuffer(a + b, |a|) == Buffer(a, |a|, b)
    ensures |a| == 0 ==> ReadBuffer(a + b, |a|) == Buffer(a, |a|, b)
  {
  }

  lemma HeadReads(known: Uuids, kind: Byte, name: Bytes, size: nat, rest: Bytes)
    requires |name| < U16 && size < U32 && kind != T_NULL
    ensures var d := Descriptor(kind, |name|, size);
      ReadOne(known, d + name + rest) ==
        if kind == T_OBJECT then ReadObject(known, d, name, DESCRIPTOR_SIZE + |name|, rest)
        else ReadScalar(d, name, DESCRIPTOR_SIZE + |name|, rest)
  {
    var d := Descriptor(kind, |name|, size);
    DescriptorParts(kind, |name|, size, []);
    assert d + [] == d;
    assert d + name + rest == d + (name + rest);
    Take(d, name + rest);
    Take(name, rest);
  }

  lemma ScalarReads(known: Uuids, kind: Byte, name: Bytes, value: Bytes, rest: Bytes)
    requires GoodName(name) && |value| < U32 && kind in {T_WORD, T_INT64, T_DOUBLE, T_STRING, T_BYTES}
    ensures ReadOne(known, Record(kind, name, value) + rest) ==
      if kind in {T_WORD, T_INT64, T_DOUBLE} && |value| != 8 then Threw
      else Got([Scalar(kind, name, value)], |Record(kind, name, value)|, rest)
  {
    var d := Descriptor(kind, |name|, |value|);
    assert Record(kind, name, value) + rest == d + name + (value + rest);
    HeadReads(known, kind, name, |value|, value + rest);
    DescriptorParts(kind, |name|, |value|, []);
    assert d + [] == d;
    CStringOfText(name);
    Take(value, rest);
  }

  /** A word comes back exactly from a 64-bit stream; what a 32-bit stream writes is refused. */
  lemma WordReadsIff(known: Uuids, wordSize: nat, name: Bytes, value: nat, rest: Bytes)
    requires WordSize(wordSize) && Fits(wordSize, Word(name, value))
    ensures var e := Encode(wordSize, Word(name, value));
      && (ReadOne(known, e + rest) == Got([Word(name, value)], |e|, rest) <==> wordSize == 64)
      && (wordSize == 32 ==> ReadOne(known, e + rest) == Threw)
  {
    Ranges();
    if wordSize == 64 {
      LeRoundTrip(value, 8);
      ScalarReads(known, T_INT64, name, Le(value, 8), rest);
    } else {
      ScalarReads(known, T_WORD, name, Le(value, 4), rest);
    }
  }

  lemma ObjectHeadReads(known: Uuids, name: Bytes, uuid: Bytes, body: Bytes, rest: Bytes)
    requires GoodName(name) && |uuid| == UUID_SIZE && |body| < U32
    ensures var d := Descriptor(T_OBJECT, |name|, |body|);
      && UnLe(d[4..8]) == |body|
      && ReadOne(known, ObjectRecord(name, uuid, body) + rest) ==
           ReadObject(known, d, name, DESCRIPTOR_SIZE + |name|, uuid + (body + rest))
      && ReadBuffer(uuid + (body + rest), UUID_SIZE) == Buffer(uuid, UUID_SIZE, body + rest)
  {
    var d := Descriptor(T_OBJECT, |name|, |body|);
    RegroupRecord(d, name, uuid, body, rest);
    HeadReads(known, T_OBJECT, name, |body|, uuid + (body + rest));
    DescriptorParts(T_OBJECT, |name|, |body|, []);
    assert d + [] == d;
    Take(uuid, body + rest);
  }

  lemma RegroupRecord(d: Bytes, name: Bytes, uuid: Bytes, body: Bytes, rest: Bytes)
    ensures d + name + uuid + body + rest == d + name + (uuid + (body + rest))
  {
  }

  // ----- streams that are cut off -----

  lemma TakeNothing(n: nat)
    ensures ReadBuffer([], n) == Buffer(Zeros(n), 0, [])
  {
  }

  lemma TakeShort(a: Bytes, n: nat)
    requires 0 < |a| < n
    ensures ReadBuffer(a, n) == Short
  {
  }

  lemma {:induction false} ZerosHaveNoText(n: nat)
    ensures CString(Zeros(n)) == [] && UnLe(Zeros(n)) == 0
    decreases n
  {
    if n > 0 {
      assert Zeros(n)[1..] == Zeros(n - 1);
      ZerosHaveNoText(n - 1);
    }
  }

  lemma CutBehindName(known: Uuids, kind: Byte, name: Bytes, size: nat, rest: Bytes)
    requires GoodName(name) && size < U32 && kind in {T_WORD, T_INT64, T_DOUBLE, T_STRING, T_BYTES}
    requires kind in {T_WORD, T_INT64, T_DOUBLE} ==> size == 8
    requires |rest| < size
    ensures var d := Descriptor(kind, |name|, size);
      ReadOne(known, d + name + rest) ==
        if rest == [] then Got([Scalar(kind, name, Zeros(size))], DESCRIPTOR_SIZE + |name|, []) else Threw
  {
    var d := Descriptor(kind, |name|, size);
    HeadReads(known, kind, name, size, rest);
    DescriptorParts(kind, |name|, size, []);
    assert d + [] == d;
    CStringOfText(name);
    if rest == [] { TakeNothing(size); } else { TakeShort(rest, size); }
  }

  lemma CutInName(known: Uuids, kind: Byte, namelen: nat, size: nat, rest: Bytes)
    requires namelen < U16 && size < U32 && kind in {T_WORD, T_INT64, T_DOUBLE, T_STRING, T_BYTES}
    requires kind in {T_WORD, T_INT64, T_DOUBLE} ==> size == 8
    requires |rest| < namelen
    ensures var d := Descriptor(kind, namelen, size);
      ReadOne(known, d + rest) ==
        if rest == [] then Got([Scalar(kind, [], Zeros(size))], DESCRIPTOR_SIZE, []) else Threw
  {
    var d := Descriptor(kind, namelen, size);
    DescriptorParts(kind, namelen, size, []);
    assert d + [] == d;
    Take(d, rest);
    if rest == [] {
      TakeNothing(namelen);
      TakeNothing(size);
      ZerosHaveNoText(namelen);
    } else {
      TakeShort(rest, namelen);
    }
  }

  /**
   * A stream cut off inside a record is refused if and only if the cut is not between two of its
   * fields. Between them the missing ones are taken for zeros, and the record is delivered.
   */
  lemma CutIsRefusedIff(known: Uuids, kind: Byte, name: Bytes, value: Bytes, k: nat)
    requires GoodName(name) && |value| < U32 && kind in {T_WORD, T_INT64, T_DOUBLE, T_STRING, T_BYTES}
    requires kind in {T_WORD, T_INT64, T_DOUBLE} ==> |value| == 8
    requires 0 < k < |Record(kind, name, value)|
    ensures var r := ReadOne(known, Record(kind, name, value)[..k]);
      && (r == Threw <==> k != DESCRIPTOR_SIZE && k != DESCRIPTOR_SIZE + |name|)
      && (k == DESCRIPTOR_SIZE + |name| ==> r == Got([Scalar(kind, name, Zeros(|value|))], k, []))
      && (k == DESCRIPTOR_SIZE && name != [] ==> r == Got([Scalar(kind, [], Zeros(|value|))], k, []))
  {
    var d, cut := Descriptor(kind, |name|, |value|), Record(kind, name, value)[..k];
    if k < DESCRIPTOR_SIZE {
      TakeShort(cut, DESCRIPTOR_SIZE);
    } else if k < DESCRIPTOR_SIZE + |name| {
      assert cut == d + name[..k - DESCRIPTOR_SIZE];
      CutInName(known, kind, |name|, |value|, name[..k - DESCRIPTOR_SIZE]);
    } else {
      assert cut == d + name + value[..k - DESCRIPTOR_SIZE - |name|];
      CutBehindName(known, kind, name, |value|, value[..k - DESCRIPTOR_SIZE - |name|]);
    }
  }

  /** A word whose value is missing is delivered as zero. */
  lemma CutWordIsZero(known: Uuids, name: Bytes, value: nat)
    requires GoodName(name)
    ensures ReadOne(known, EncodeWord(64, name, value)[..DESCRIPTOR_SIZE + |name|]) ==
      Got([Word(name, 0)], DESCRIPTOR_SIZE + |name|, [])
  {
    ZerosHaveNoText(8);
    CutIsRefusedIff(known, T_INT64, name, Le(value, 8), DESCRIPTOR_SIZE + |name|);
  }

  /**
   * A known object whose parts are all missing is delivered twice: without parts, and as a record
   * that is not understood, with zeros for its parts.
   */
  lemma CutObjectIsBoth(known: Uuids, name: Bytes, uuid: Bytes, size: nat)
    requires GoodName(name) && |uuid| == UUID_SIZE && uuid in known && 0 < size < U32
    ensures var head := Descriptor(T_OBJECT, |name|, size) + name + uuid;
      ReadOne(known, head) ==
        Got([Object(name, uuid, []), Opaque(head + Zeros(size))], |head| + |head| + size, [])
  {
    var d := Descriptor(T_OBJECT, |name|, size);
    HeadReads(known, T_OBJECT, name, size, uuid);
    DescriptorParts(T_OBJECT, |name|, size, []);
    assert d + [] == d && uuid + [] == uuid;
    Take(uuid, []);
    TakeNothing(DESCRIPTOR_SIZE);
    TakeNothing(size);
    CStringOfText(name);
  }
}
