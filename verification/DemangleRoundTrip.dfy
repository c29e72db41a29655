/** Demangling gives back the printed form of every tree, and exactly when it can find its end. */
module DemangleRoundTrip {
  import opened Basics
  import opened DemangleSpec
  import opened DTypes

  /** The pointer is not at `rest`: it is null, stuck or already further on. */
  ghost predicate Missed(src: Src, rest: string) {
    src.At? ==> |src.rest| < |rest|
  }

  /**
   * The parser stopped right before `rest` with the expected text if and only if it can find the end.
   * At the end of the whole text it prints the expected text even if it cannot, and returns null.
   */
  ghost predicate Reads(r: Parsed, finds: bool, dest: string, rest: string) {
    if finds then r == Parsed(dest, At(rest)) else if rest == "" then r == Parsed(dest, Null) else Missed(r.src, rest)
  }

  // ----- numbers -----

  lemma {:induction false} DecThen(n: nat, rest: string)
    ensures ReadNumber(Dec(n) + rest, 0) == ReadNumber(rest, n)
    decreases n
  {
    var d := (n % 10 + '0' as int) as char;
    assert IsDigit(d) && DigitValue(d) == n % 10;
    assert ([d] + rest)[1..] == rest;
    if n < 10 {
      assert Dec(n) + rest == [d] + rest;
    } else {
      assert Dec(n) + rest == Dec(n / 10) + ([d] + rest);
      DecThen(n / 10, [d] + rest);
    }
  }

  lemma {:induction false} DecLead(n: nat)
    ensures n > 0 ==> Dec(n)[0] != '0'
    decreases n
  {
    if n >= 10 { DecLead(n / 10); }
  }

  lemma DecReads(n: nat, rest: string)
    ensures var r := ReadNumber(Dec(n) + rest, 0);
      if StartsDigit(rest) then |r.rest| < |rest| else r == Number(n, rest)
  {
    DecThen(n, rest);
  }

  // ----- names -----

  lemma TemplateTestIsLocal(id: string, tail: string)
    requires |id| >= 5
    ensures IsTemplate(id + tail) == IsTemplate(id)
  {
  }

  lemma StaticTestIsLocal(id: string, tail: string)
    requires |id| == 11 && StaticName(id + tail) != ""
    ensures id == "_staticCtor" || id == "_staticDtor"
  {
    assert (id + tail)[..11] == id;
    assert "_staticCtorFZv"[..11] == "_staticCtor" && "_staticDtorFZv"[..11] == "_staticDtor";
    assert (id + tail)[..14][..11] == (id + tail)[..11];
  }

  lemma LengthReads(dest: string, text: string, tail: string, first: bool)
    requires Word(text)
    ensures StartsLength(Dec(|text|) + (text + tail))
    ensures QualifiedName(dest, Dec(|text|) + (text + tail), first) ==
      DemangleSpec.NamePart(if first then dest else dest + ".", text + tail, |text|)
  {
    var s := Dec(|text|) + (text + tail);
    DecLead(|text|);
    assert s[0] == Dec(|text|)[0] && StartsLength(s);
    assert !StartsDigit(text + tail);
    DecReads(|text|, text + tail);
  }

  lemma PlainReads(dest: string, id: string, tail: string)
    requires Identifier(id)
    ensures DemangleSpec.NamePart(dest, id + tail, |id|) == QualifiedName(dest + PlainName(id), tail, false)
  {
    assert (id + tail)[..|id|] == id && (id + tail)[|id|..] == tail;
    if |id| >= 5 { TemplateTestIsLocal(id, tail); }
    if |id| == 11 && StaticName(id + tail) != "" { StaticTestIsLocal(id, tail); }
  }

  lemma PartIsWord(p: NamePart)
    requires WellFormedPart(p)
    ensures Word(PartText(p))
  {
  }

  /** A part of a name is printed, and the name goes on behind it. */
  lemma {:induction false} PartReads(dest: string, p: NamePart, tail: string)
    requires WellFormedPart(p)
    ensures DemangleSpec.NamePart(dest, PartText(p) + tail, |PartText(p)|) ==
      QualifiedName(PrintedPart(dest, p), tail, false)
    decreases p, 4
  {
    match p
    case Plain(id) => PlainReads(dest, id, tail);
    case Instance(ids, args) => InstanceReads(dest, p, tail);
  }

  /** The parts of a name are printed, joined by dots, and the name goes on behind them. */
  lemma {:induction false} NameThen(dest: string, name: Name, rest: string, first: bool)
    requires WellFormedName(name)
    ensures QualifiedName(dest, MangledName(name, rest), first) ==
      QualifiedName(PrintedName(dest, name, first), rest, first && name.Done?)
    decreases name, 4
  {
    match name
    case Done =>
    case Part(p, tail) =>
      var front := if first then dest else dest + ".";
      PartIsWord(p);
      LengthReads(dest, PartText(p), MangledName(tail, rest), first);
      PartReads(front, p, MangledName(tail, rest));
      NameThen(PrintedPart(front, p), tail, rest, false);
  }

  lemma {:induction false} NameReads(dest: string, name: Name, rest: string, first: bool)
    requires WellFormedName(name)
    ensures Reads(QualifiedName(dest, MangledName(name, rest), first), !StartsLength(rest),
      PrintedName(dest, name, first), rest)
    decreases name, 5
  {
    NameThen(dest, name, rest, first);
  }

  lemma NameLead(name: Name, rest: string)
    requires QualifiedId(name)
    ensures StartsLength(MangledName(name, rest))
  {
    PartIsWord(name.head);
    LengthReads("", PartText(name.head), MangledName(name.tail, rest), true);
  }

  // ----- template instances -----

  lemma {:induction false} IdsRead(dest: string, ids: seq<string>, m: string)
    requires !StartsDigit(m) && forall i :: 0 <= i < |ids| ==> Word(ids[i])
    ensures TemplateName(dest, MangledIds(ids, m)) == Parsed(dest + Joined(ids), At(m))
    decreases |ids|
  {
    if ids == [] {
      assert dest + "" == dest;
    } else {
      var id, tail := ids[0], MangledIds(ids[1..], m);
      var s := Dec(|id|) + (id + tail);
      DecLead(|id|);
      assert s[0] == Dec(|id|)[0] && StartsLength(s);
      DecReads(|id|, id + tail);
      assert (id + tail)[..|id|] == id && (id + tail)[|id|..] == tail;
      IdsRead(dest + id, ids[1..], m);
      Regroup(dest, id, Joined(ids[1..]));
    }
  }

  lemma HexDigitReads(d: nat)
    requires d < 16
    ensures IsHex(HexDigit(d)) && HexValue(HexDigit(d)) == d
  {
  }

  lemma OneHex(dest: string, b: Byte, raw: string, n: nat)
    requires n > 0 && b != 0
    ensures HexText(dest, [HexDigit(b / 16), HexDigit(b % 16)] + raw, n) == HexText(dest + [b as char], raw, n - 1)
  {
    HexDigitReads(b / 16);
    HexDigitReads(b % 16);
    assert ([HexDigit(b / 16), HexDigit(b % 16)] + raw)[2..] == raw;
  }

  lemma {:induction false} HexReads(dest: string, bytes: Bytes, m: string)
    requires 0 !in bytes
    ensures HexText(dest, Hex(bytes) + m, |bytes|) == Parsed(dest + Chars(bytes) + "\"", At(m))
    decreases |bytes|
  {
    if bytes == [] {
      assert "" + m == m && dest + "" == dest;
    } else {
      var b := bytes[0];
      var c, more := [b as char], bytes[1..];
      Regroup([HexDigit(b / 16), HexDigit(b % 16)], Hex(more), m);
      OneHex(dest, b, Hex(more) + m, |bytes|);
      HexReads(dest + c, more, m);
      Regroup(dest, c, Chars(more));
    }
  }

  lemma CharsStart(dest: string, n: nat, h: string)
    ensures CharText(dest, Dec(n) + (['_'] + h)) == HexText(dest + "\"", h, n)
  {
    var rest := ['_'] + h;
    DecReads(n, rest);
    assert (Dec(n) + rest)[0] == Dec(n)[0];
    assert rest[1..] == h;
  }

  lemma CharsShape(width: char, d: string, h: string, m: string)
    ensures [width] + (d + (['_'] + h)) + m == [width] + (d + (['_'] + (h + m)))
  {
  }

  lemma CharsPrint(dest: string, c: string)
    ensures dest + "\"" + c + "\"" == dest + ("\"" + c + "\"")
  {
  }

  lemma StepChars(dest: string, width: char, raw: string)
    requires width in {'a', 'w', 'd'}
    ensures TemplateValue(dest, [width] + raw) == CharText(dest, raw)
  {
  }

  lemma CharsRead(dest: string, v: Literal, m: string)
    requires v.Characters? && WellFormedLiteral(v)
    ensures TemplateValue(dest, MangledLiteral(v) + m) == Parsed(dest + PrintedLiteral(v), At(m))
  {
    var n, h := |v.bytes|, Hex(v.bytes);
    CharsShape(v.width, Dec(n), h, m);
    StepChars(dest, v.width, Dec(n) + (['_'] + (h + m)));
    CharsStart(dest, n, h + m);
    HexReads(dest + "\"", v.bytes, m);
    CharsPrint(dest, Chars(v.bytes));
  }

  lemma NegativeReads(dest: string, n: nat, m: string)
    requires !StartsDigit(m)
    ensures TemplateValue(dest, ['N'] + Dec(n) + m) == Parsed(dest + ("-" + Dec(n)), At(m))
  {
    var s := ['N'] + Dec(n) + m;
    assert s[0] == 'N' && s[1..] == Dec(n) + m;
    StaticSize(n, m);
    Regroup(dest, "-", Dec(n));
  }

  /** A literal is followed by an argument or by the end of the list, never by a digit. */
  lemma LiteralReads(dest: string, v: Literal, m: string)
    requires !StartsDigit(m) && WellFormedLiteral(v)
    ensures TemplateValue(dest, MangledLiteral(v) + m) == Parsed(dest + PrintedLiteral(v), At(m))
  {
    match v
    case NonNegative(n) => StaticSize(n, m);
    case Negative(n) => NegativeReads(dest, n, m);
    case NullLiteral => assert (['n'] + m)[1..] == m;
    case Characters(_, _) => CharsRead(dest, v, m);
  }

  lemma LeadOfArgs(args: Arguments)
    ensures var s := MangledArgs(args, ['Z']);
      s != "" && !StartsDigit(s) && Following(s) == Other && (args.NoMore? ==> s == ['Z'])
  {
  }

  lemma LiteralLead(v: Literal, m: string)
    ensures Following(MangledLiteral(v) + m) == Following(MangledLiteral(v))
  {
    assert (MangledLiteral(v) + m)[0] == MangledLiteral(v)[0];
  }

  lemma StepTypeArg(dest: string, m: string, first: bool)
    ensures TemplateArgs(dest, At(['T'] + m), first) ==
      var t := NextType(if first then dest else dest + ", ", m, true);
      TemplateArgs(t.dest, t.src, false)
  {
    assert (['T'] + m)[1..] == m;
  }

  lemma StepValueArg(dest: string, m: string, first: bool, printed: string, rest: string)
    requires NextType(if first then dest else dest + ", ", m, true) == Parsed(printed, At(rest))
    ensures TemplateArgs(dest, At(['V'] + m), first) ==
      var v := TemplateValue(printed + " ", rest);
      TemplateArgs(v.dest, v.src, false)
  {
    assert (['V'] + m)[1..] == m;
  }

  lemma {:induction false} ArgsRead(dest: string, args: Arguments, first: bool)
    requires WellFormedArgs(args)
    ensures TemplateArgs(dest, At(MangledArgs(args, ['Z'])), first) == Parsed(PrintedArgs(dest, args, first), Null)
    decreases args, 4
  {
    match args
    case NoMore =>
    case Argument(a, tail) =>
      var front := if first then dest else dest + ", ";
      ArgReads(dest, a, tail, first);
      ArgsRead(PrintedArg(front, a), tail, false);
  }

  lemma {:induction false} ArgReads(dest: string, a: TemplateArg, tail: Arguments, first: bool)
    requires WellFormedArgs(Argument(a, tail))
    ensures TemplateArgs(dest, At(MangledArgs(Argument(a, tail), ['Z'])), first) ==
      TemplateArgs(PrintedArg(if first then dest else dest + ", ", a), At(MangledArgs(tail, ['Z'])), false)
    decreases a, 4
  {
    var front := if first then dest else dest + ", ";
    var m := MangledArgs(tail, ['Z']);
    LeadOfArgs(tail);
    match a
    case TypeArg(t) =>
      TypeReads(t, front, m);
      StepTypeArg(dest, Mangled(t, m), first);
    case ValueArg(t, v) =>
      LiteralLead(v, m);
      TypeReads(t, front, MangledLiteral(v) + m);
      StepValueArg(dest, Mangled(t, MangledLiteral(v) + m), first, Printed(front, t), MangledLiteral(v) + m);
      LiteralReads(Printed(front, t) + " ", v, m);
  }

  lemma InstanceIsTemplate(p: NamePart, tail: string)
    requires p.Instance? && WellFormedPart(p)
    ensures var s := PartText(p) + tail;
      |PartText(p)| >= 5 && IsTemplate(s) && s[|PartText(p)|..] == tail
    ensures (PartText(p) + tail)[3..|PartText(p)|] == MangledIds(p.ids, MangledArgs(p.args, ['Z']))
  {
    var text, ids := PartText(p), MangledIds(p.ids, MangledArgs(p.args, ['Z']));
    var id := p.ids[0];
    DecLead(|id|);
    assert ids[0] == Dec(|id|)[0] && StartsLength(ids) && |ids| >= 2;
    var s := text + tail;
    assert s[..|text|] == text && s[3] == ids[0];
    assert s[3..|text|] == ids;
  }

  /** An instance is printed with its arguments, and the name goes on behind its mangling. */
  lemma {:induction false} InstanceReads(dest: string, p: NamePart, tail: string)
    requires p.Instance? && WellFormedPart(p)
    ensures DemangleSpec.NamePart(dest, PartText(p) + tail, |PartText(p)|) ==
      QualifiedName(PrintedPart(dest, p), tail, false)
    decreases p, 3
  {
    InstanceIsTemplate(p, tail);
    LeadOfArgs(p.args);
    IdsRead(dest, p.ids, MangledArgs(p.args, ['Z']));
    ArgsRead(dest + Joined(p.ids) + "!(", p.args, true);
  }

  // ----- first letters -----

  function Lead(t: Type): char {
    match t
    case Basic(c) => c case Array(_) => 'A' case StaticArray(_, _) => 'G' case Assoc(_, _) => 'H'
    case Pointer(_) => 'P' case FunctionPointer(_) => 'P' case Delegate(_) => 'D'
    case Named(c, _) => c case Stored(c, _) => c case Tuple(_) => 'B'
  }

  lemma LeadIs(t: Type, rest: string)
    ensures Mangled(t, rest) != "" && Mangled(t, rest)[0] == Lead(t)
  {
  }

  lemma LeadLetter(t: Type)
    requires WellFormed(t)
    ensures var c := Lead(t);
      !IsDigit(c) && Classify(c) != FunctionType && c != 'Y' && c != 'X' && (t != Basic('Z') ==> c != 'Z')
  {
  }

  lemma LeadOf(t: Type, rest: string)
    requires WellFormed(t)
    ensures var s := Mangled(t, rest);
      && s != "" && s[0] == Lead(t) && !IsDigit(s[0]) && Following(s) == Other
      && !StartsFunction(s) && s[0] != 'Y' && s[0] != 'X' && (t != Basic('Z') ==> s[0] != 'Z')
  {
    LeadIs(t, rest);
    LeadLetter(t);
  }

  lemma LeadOfList(ts: TypeList, end: char, m: string)
    requires WellFormedParams(ts) && !IsDigit(end)
    ensures Following(MangledList(ts, [end] + m)) == Other
  {
  }

  // ----- one step of the parser per letter -----

  lemma StepBasic(dest: string, c: char, m: string, nested: bool)
    requires Classify(c) == BasicType
    ensures NextType(dest, [c] + m, nested) == Parsed(Nestpend(dest, BasicName(c), nested), At(m))
  {
  }

  lemma StepFor(dest: string, c: char, m: string, nested: bool)
    requires Classify(c) != Unknown && Classify(c) != This
    ensures var r := NextType(dest, [c] + m, nested);
      && (Classify(c) == DynamicArray ==> r == ArrayType(dest, m, nested))
      && (Classify(c) == FixedArray ==> r == StaticArrayType(dest, m, nested))
      && (Classify(c) == AssocArray ==> r == AssocType(dest, m, nested))
      && (Classify(c) == DelegateType ==> r == SignatureType(dest, m, None, nested, false))
      && (Classify(c) == PointerType ==>
            r == if StartsFunction(m) then SignatureType(dest, m, Some(""), nested, false)
                 else PointedType(dest, m, nested))
      && (Classify(c) == StorageClass ==> r == NextType(dest + StorageName(c), m, true))
      && (Classify(c) == Aggregate ==> r == if nested then NextType(dest, m, true) else AggregateType(dest, m))
      && (Classify(c) == TupleType ==> r == TupleOf(dest, m))
  {
  }

  lemma StepTuple(dest: string, m: string, nested: bool)
    ensures NextType(dest, ['B'] + m, nested) == TupleOf(dest, m)
  {
  }

  lemma StepStaticArray(dest: string, m: string, nested: bool)
    ensures NextType(dest, ['G'] + m, nested) == StaticArrayType(dest, m, nested)
  {
  }

  lemma StepPointer(dest: string, m: string, nested: bool)
    ensures NextType(dest, ['P'] + m, nested) ==
      if StartsFunction(m) then SignatureType(dest, m, Some(""), nested, false) else PointedType(dest, m, nested)
  {
  }

  lemma StepDelegate(dest: string, m: string, nested: bool)
    ensures NextType(dest, ['D'] + m, nested) == SignatureType(dest, m, None, nested, false)
  {
  }

  lemma StepName(dest: string, s: string, nested: bool)
    requires StartsLength(s)
    ensures NextType(dest, s, nested) == if nested then QualifiedName(dest, s, true) else NamedSymbol(dest, s)
  {
  }

  lemma StaticSize(n: nat, m: string)
    requires !StartsDigit(m)
    ensures var s := Dec(n) + m; var end := ReadNumber(s, 0).rest; end == m && s[..|s| - |end|] == Dec(n)
  {
    DecReads(n, m);
  }

  lemma TupleSize(n: nat, m: string)
    requires n <= LONG_MAX
    ensures if StartsDigit(m) then |StrToL(Dec(n) + m).rest| < |m| else StrToL(Dec(n) + m) == Signed(n, m)
  {
    var s := Dec(n) + m;
    assert s[0] == Dec(n)[0] && IsDigit(s[0]);
    assert SkipSpaces(s) == s;
    DecReads(n, m);
  }

  // ----- types -----

  /** Nested mode: the text gains the printed type, and the pointer stops right behind the mangled one. */
  lemma {:induction false} TypeReads(t: Type, dest: string, rest: string)
    requires WellFormed(t)
    ensures Reads(NextType(dest, Mangled(t, rest), true), EndsBefore(t, Following(rest)), Printed(dest, t), rest)
    decreases t, 3
  {
    match t
    case Basic(c) => StepBasic(dest, c, rest, true);
    case Array(_) => ArrayReads(t, dest, rest);
    case StaticArray(_, _) => StaticArrayReads(t, dest, rest);
    case Pointer(_) => PointerReads(t, dest, rest);
    case FunctionPointer(_) => FunctionTypeReads(t, dest, rest);
    case Delegate(_) => FunctionTypeReads(t, dest, rest);
    case Assoc(_, _) => AssocReads(t, dest, rest, true);
    case Named(_, _) => NamedReads(t, dest, rest);
    case Stored(_, _) => StoredReads(t, dest, rest);
    case Tuple(es) => TupleTypeReads(t, dest, rest);
  }

  lemma {:induction false} NamedReads(t: Type, dest: string, rest: string)
    requires t.Named? && WellFormed(t)
    ensures Reads(NextType(dest, Mangled(t, rest), true), EndsBefore(t, Following(rest)), Printed(dest, t), rest)
    decreases t, 2
  {
    StepFor(dest, t.kind, MangledName(t.name, rest), true);
    NameLead(t.name, rest);
    StepName(dest, MangledName(t.name, rest), true);
    NameReads(dest, t.name, rest, true);
  }

  lemma {:induction false} StoredReads(t: Type, dest: string, rest: string)
    requires t.Stored? && WellFormed(t)
    ensures Reads(NextType(dest, Mangled(t, rest), true), EndsBefore(t, Following(rest)), Printed(dest, t), rest)
    decreases t, 2
  {
    StepFor(dest, t.storage, Mangled(t.elem, rest), true);
    TypeReads(t.elem, dest + StorageName(t.storage), rest);
  }

  lemma {:induction false} TupleTypeReads(t: Type, dest: string, rest: string)
    requires t.Tuple? && WellFormed(t)
    ensures Reads(NextType(dest, Mangled(t, rest), true), EndsBefore(t, Following(rest)), Printed(dest, t), rest)
    decreases t, 2
  {
    StepTuple(dest, Dec(Count(t.elems)) + MangledList(t.elems, rest), true);
    TupleReads(t.elems, dest, rest);
  }

  lemma {:induction false} ArrayReads(t: Type, dest: string, rest: string)
    requires t.Array? && WellFormed(t)
    ensures Reads(NextType(dest, Mangled(t, rest), true), EndsBefore(t, Following(rest)), Printed(dest, t), rest)
    decreases t, 2
  {
    StepFor(dest, 'A', Mangled(t.elem, rest), true);
    TypeReads(t.elem, dest, rest);
  }

  lemma {:induction false} StaticArrayReads(t: Type, dest: string, rest: string)
    requires t.StaticArray? && WellFormed(t)
    ensures Reads(NextType(dest, Mangled(t, rest), true), EndsBefore(t, Following(rest)), Printed(dest, t), rest)
    decreases t, 2
  {
    var m := Mangled(t.elem, rest);
    StepStaticArray(dest, Dec(t.size) + m, true);
    LeadOf(t.elem, rest);
    StaticSize(t.size, m);
    TypeReads(t.elem, dest, rest);
  }

  lemma {:induction false} PointerReads(t: Type, dest: string, rest: string)
    requires t.Pointer? && WellFormed(t)
    ensures Reads(NextType(dest, Mangled(t, rest), true), EndsBefore(t, Following(rest)), Printed(dest, t), rest)
    decreases t, 2
  {
    StepPointer(dest, Mangled(t.elem, rest), true);
    LeadOf(t.elem, rest);
    TypeReads(t.elem, dest, rest);
  }

  lemma {:induction false} FunctionTypeReads(t: Type, dest: string, rest: string)
    requires (t.FunctionPointer? || t.Delegate?) && WellFormed(t)
    ensures Reads(NextType(dest, Mangled(t, rest), true), EndsBefore(t, Following(rest)), Printed(dest, t), rest)
    decreases t, 2
  {
    if t.Delegate? {
      StepDelegate(dest, MangledFn(t.fn, rest), true);
      SignatureReads(t.fn, None, " delegate", dest, rest, true);
    } else {
      StepPointer(dest, MangledFn(t.fn, rest), true);
      SignatureReads(t.fn, Some(""), " function", dest, rest, true);
    }
  }

  /** Outside nested mode the type goes in front of the text. */
  lemma {:induction false} TypeReadsBare(t: Type, dest: string, rest: string)
    requires WellFormed(t)
    ensures Reads(NextType(dest, Mangled(t, rest), false), EndsBareBefore(t, Following(rest)), Around(dest, t), rest)
    decreases t, 3
  {
    match t
    case Basic(c) => StepBasic(dest, c, rest, false);
    case Array(_) => ArrayReadsBare(t, dest, rest);
    case StaticArray(_, _) => StaticArrayReadsBare(t, dest, rest);
    case Pointer(_) => PointerReadsBare(t, dest, rest);
    case FunctionPointer(_) => FunctionTypeReadsBare(t, dest, rest);
    case Delegate(_) => FunctionTypeReadsBare(t, dest, rest);
    case Assoc(_, _) => AssocReads(t, dest, rest, false);
    case Named(_, _) => NamedReadsBare(t, dest, rest);
    case Stored(_, _) => StoredReadsBare(t, dest, rest);
    case Tuple(es) => TupleTypeReadsBare(t, dest, rest);
  }

  lemma {:induction false} NamedReadsBare(t: Type, dest: string, rest: string)
    requires t.Named? && WellFormed(t)
    ensures Reads(NextType(dest, Mangled(t, rest), false), EndsBareBefore(t, Following(rest)), Around(dest, t), rest)
    decreases t, 2
  {
    StepFor(dest, t.kind, MangledName(t.name, rest), false);
    NamedReadsOn(t.name, "", rest);
  }

  lemma {:induction false} StoredReadsBare(t: Type, dest: string, rest: string)
    requires t.Stored? && WellFormed(t)
    ensures Reads(NextType(dest, Mangled(t, rest), false), EndsBareBefore(t, Following(rest)), Around(dest, t), rest)
    decreases t, 2
  {
    StepFor(dest, t.storage, Mangled(t.elem, rest), false);
    TypeReads(t.elem, dest + StorageName(t.storage), rest);
  }

  lemma {:induction false} TupleTypeReadsBare(t: Type, dest: string, rest: string)
    requires t.Tuple? && WellFormed(t)
    ensures Reads(NextType(dest, Mangled(t, rest), false), EndsBareBefore(t, Following(rest)), Around(dest, t), rest)
    decreases t, 2
  {
    StepTuple(dest, Dec(Count(t.elems)) + MangledList(t.elems, rest), false);
    TupleReads(t.elems, dest, rest);
  }

  lemma {:induction false} ArrayReadsBare(t: Type, dest: string, rest: string)
    requires t.Array? && WellFormed(t)
    ensures Reads(NextType(dest, Mangled(t, rest), false), EndsBareBefore(t, Following(rest)), Around(dest, t), rest)
    decreases t, 2
  {
    StepFor(dest, 'A', Mangled(t.elem, rest), false);
    TypeReadsBare(t.elem, "[] " + dest, rest);
  }

  lemma {:induction false} StaticArrayReadsBare(t: Type, dest: string, rest: string)
    requires t.StaticArray? && WellFormed(t)
    ensures Reads(NextType(dest, Mangled(t, rest), false), EndsBareBefore(t, Following(rest)), Around(dest, t), rest)
    decreases t, 2
  {
    var m := Mangled(t.elem, rest);
    StepStaticArray(dest, Dec(t.size) + m, false);
    LeadOf(t.elem, rest);
    StaticSize(t.size, m);
    TypeReadsBare(t.elem, "[" + Dec(t.size) + "] " + dest, rest);
  }

  lemma {:induction false} PointerReadsBare(t: Type, dest: string, rest: string)
    requires t.Pointer? && WellFormed(t)
    ensures Reads(NextType(dest, Mangled(t, rest), false), EndsBareBefore(t, Following(rest)), Around(dest, t), rest)
    decreases t, 2
  {
    StepPointer(dest, Mangled(t.elem, rest), false);
    LeadOf(t.elem, rest);
    TypeReadsBare(t.elem, "* " + dest, rest);
  }

  lemma {:induction false} FunctionTypeReadsBare(t: Type, dest: string, rest: string)
    requires (t.FunctionPointer? || t.Delegate?) && WellFormed(t)
    ensures Reads(NextType(dest, Mangled(t, rest), false), EndsBareBefore(t, Following(rest)), Around(dest, t), rest)
    decreases t, 2
  {
    if t.Delegate? {
      StepDelegate(dest, MangledFn(t.fn, rest), false);
      SignatureReads(t.fn, None, " delegate", dest, rest, false);
    } else {
      StepPointer(dest, MangledFn(t.fn, rest), false);
      SignatureReads(t.fn, Some(""), " function", dest, rest, false);
    }
  }

  /** Outside nested mode a name is taken for a symbol, whose type has to follow. */
  lemma {:induction false} NamedReadsOn(name: Name, dest: string, rest: string)
    requires QualifiedId(name)
    ensures Missed(NextType(dest, MangledName(name, rest), false).src, rest)
    ensures rest == "" ==> NextType(dest, MangledName(name, rest), false) == Parsed(PrintedName(dest, name, true), Null)
    decreases name, 6
  {
    NameLead(name, rest);
    StepName(dest, MangledName(name, rest), false);
    NameReads(dest, name, rest, true);
  }

  lemma AssocStep(dest: string, s: string, key: string, m: string, nested: bool)
    requires NextType("", s, true) == Parsed(key, At(m))
    ensures var v := NextType("[" + key + "]", m, false);
      NextType(dest, ['H'] + s, nested) == Parsed(Nestpend(dest, v.dest, nested), v.src)
  {
    StepFor(dest, 'H', s, nested);
  }

  lemma {:induction false} AssocReads(t: Type, dest: string, rest: string, nested: bool)
    requires t.Assoc? && WellFormed(t)
    ensures Reads(NextType(dest, Mangled(t, rest), nested), EndsBareBefore(t.value, Following(rest)),
                  Nestpend(dest, Around("[" + Printed("", t.key) + "]", t.value), nested), rest)
    decreases t, 2
  {
    var m := Mangled(t.value, rest);
    LeadOf(t.value, rest);
    TypeReads(t.key, "", m);
    AssocStep(dest, Mangled(t.key, m), Printed("", t.key), m, nested);
    TypeReadsBare(t.value, "[" + Printed("", t.key) + "]", rest);
  }

  // ----- functions -----

  lemma {:induction false} SignatureReads(f: Fn, name: Option<string>, word: string, dest: string, rest: string,
                                          nested: bool)
    requires WellFormedFn(f) && ((name == None && word == " delegate") || (name == Some("") && word == " function"))
    ensures Reads(SignatureType(dest, MangledFn(f, rest), name, nested, false), EndsFnBefore(f, Following(rest)),
                  Nestpend(dest, PrintedFn(f, word), nested), rest)
    decreases f, 4
  {
    FnReads(f, "", name, false, false, rest);
    assert "" + Printed("", f.ret) == Printed("", f.ret);
    NoParams(Printed("", f.ret) + word);
  }

  lemma NoParams(head: string)
    ensures head + "()" == head + "(" + "" + ")"
  {
  }

  lemma {:induction false} FnReads(f: Fn, dest: string, name: Option<string>, nested: bool, hasThis: bool, rest: string)
    requires WellFormedFn(f)
    ensures Reads(Function(dest, MangledFn(f, rest), name, nested, hasThis), EndsFnBefore(f, Following(rest)),
                  Signature(dest, Printed("", f.ret), name, nested, ParamText(f), hasThis), rest)
    decreases f, 3
  {
    ParamsRead(f, Mangled(f.ret, rest));
    assert MangledFn(f, rest)[1..] == MangledList(f.params, [f.end] + Mangled(f.ret, rest));
    TypeReads(f.ret, "", rest);
  }

  lemma {:induction false} ParamsRead(f: Fn, m: string)
    requires WellFormedFn(f)
    ensures AllParams(MangledList(f.params, [f.end] + m)) == Params(ParamText(f), true, At(m))
    decreases f, 2
  {
    match f.params
    case Nil => assert ([f.end] + m)[1..] == m;
    case Cons(t, tail) =>
      var more := MangledList(tail, [f.end] + m);
      LeadOf(t, more);
      LeadOfList(tail, f.end, m);
      TypeReads(t, "", more);
      MoreReads(Printed("", t), tail, f.end, m);
  }

  function EndText(end: char): string {
    if end == 'Y' then ", ..." else if end == 'X' then " ..." else ""
  }

  lemma {:induction false} MoreReads(text: string, ts: TypeList, end: char, m: string)
    requires WellFormedParams(ts) && (end == 'Z' || end == 'Y' || end == 'X')
    ensures MoreParams(text, At(MangledList(ts, [end] + m))) == Params(MoreText(text, ts) + EndText(end), true, At(m))
    decreases ts, 4
  {
    match ts
    case Nil =>
      assert ([end] + m)[1..] == m && text + "" == text;
    case Cons(t, tail) =>
      var more := MangledList(tail, [end] + m);
      LeadOf(t, more);
      LeadOfList(tail, end, m);
      TypeReads(t, text + ", ", more);
      MoreReads(Printed(text + ", ", t), tail, end, m);
  }

  // ----- tuples -----

  lemma {:induction false} TupleReads(es: TypeList, dest: string, rest: string)
    requires WellFormedElems(es) && Count(es) <= LONG_MAX
    ensures Reads(TupleOf(dest, Dec(Count(es)) + MangledList(es, rest)), EndsListBefore(es, Following(rest)),
                  PrintedElems(dest + "Tuple[", es) + "]", rest)
    decreases es, 5
  {
    TupleSize(Count(es), MangledList(es, rest));
    if es.Cons? {
      LeadOf(es.head, MangledList(es.tail, rest));
      ElemsRead(es, dest + "Tuple[", rest);
    }
  }

  lemma {:induction false} ElemsRead(es: TypeList, dest: string, rest: string)
    requires es.Cons? && WellFormedElems(es)
    ensures Reads(TupleElements(dest, At(MangledList(es, rest)), Count(es)), EndsListBefore(es, Following(rest)),
      PrintedElems(dest, es), rest)
    decreases es, 4
  {
    var Cons(t, tail) := es;
    TypeReads(t, "", MangledList(tail, rest));
    if tail.Cons? {
      LeadOf(tail.head, MangledList(tail.tail, rest));
      ElemsRead(tail, dest + Printed("", t) + ", ", rest);
    }
  }

  // ----- the mangled text and the printed form on their own -----

  function Mangle(t: Type): string { Mangled(t, "") }

  function Pretty(t: Type): string { Printed("", t) }

  lemma {:induction false} MangledInFront(t: Type, m: string, rest: string)
    ensures Mangled(t, m + rest) == Mangled(t, m) + rest
    decreases t, 1
  {
    match t
    case Basic(c) => Regroup([c], m, rest);
    case Array(e) => MangledInFront(e, m, rest); Regroup(['A'], Mangled(e, m), rest);
    case StaticArray(n, e) =>
      MangledInFront(e, m, rest);
      Regroup(Dec(n), Mangled(e, m), rest);
      Regroup(['G'], Dec(n) + Mangled(e, m), rest);
    case Assoc(k, v) =>
      MangledInFront(v, m, rest);
      MangledInFront(k, Mangled(v, m), rest);
      Regroup(['H'], Mangled(k, Mangled(v, m)), rest);
    case Pointer(e) => MangledInFront(e, m, rest); Regroup(['P'], Mangled(e, m), rest);
    case FunctionPointer(f) => MangledFnInFront(f, m, rest); Regroup(['P'], MangledFn(f, m), rest);
    case Delegate(f) => MangledFnInFront(f, m, rest); Regroup(['D'], MangledFn(f, m), rest);
    case Named(c, name) => MangledNameInFront(name, m, rest); Regroup([c], MangledName(name, m), rest);
    case Stored(c, e) => MangledInFront(e, m, rest); Regroup([c], Mangled(e, m), rest);
    case Tuple(es) =>
      MangledListInFront(es, m, rest);
      Regroup(Dec(Count(es)), MangledList(es, m), rest);
      Regroup(['B'], Dec(Count(es)) + MangledList(es, m), rest);
  }

  lemma {:induction false} MangledListInFront(ts: TypeList, m: string, rest: string)
    ensures MangledList(ts, m + rest) == MangledList(ts, m) + rest
    decreases ts, 1
  {
    if ts.Cons? {
      MangledListInFront(ts.tail, m, rest);
      MangledInFront(ts.head, MangledList(ts.tail, m), rest);
    }
  }

  lemma {:induction false} MangledFnInFront(f: Fn, m: string, rest: string)
    ensures MangledFn(f, m + rest) == MangledFn(f, m) + rest
    decreases f, 1
  {
    MangledInFront(f.ret, m, rest);
    assert [f.end] + (Mangled(f.ret, m) + rest) == ([f.end] + Mangled(f.ret, m)) + rest;
    MangledListInFront(f.params, [f.end] + Mangled(f.ret, m), rest);
  }

  lemma {:induction false} MangledNameInFront(name: Name, m: string, rest: string)
    ensures MangledName(name, m + rest) == MangledName(name, m) + rest
    decreases name
  {
    if name.Part? {
      MangledNameInFront(name.tail, m, rest);
      var d, text, l := Dec(|PartText(name.head)|), PartText(name.head), MangledName(name.tail, m);
      assert d + (text + (l + rest)) == d + (text + l) + rest;
    }
  }

  lemma {:induction false} PrintedBehind(a: string, b: string, t: Type)
    ensures Printed(a + b, t) == a + Printed(b, t)
    decreases t, 1
  {
    match t
    case Basic(c) => Regroup(a, b, BasicName(c));
    case Array(e) => PrintedBehind(a, b, e); Regroup(a, Printed(b, e), "[]");
    case StaticArray(n, e) => StaticPrintedBehind(a, b, t);
    case Assoc(k, v) => Regroup(a, b, Around("[" + Printed("", k) + "]", v));
    case Pointer(e) => PrintedBehind(a, b, e); Regroup(a, Printed(b, e), " *");
    case FunctionPointer(f) => Regroup(a, b, PrintedFn(f, " function"));
    case Delegate(f) => Regroup(a, b, PrintedFn(f, " delegate"));
    case Named(_, name) => PrintedNameBehind(a, b, name, true);
    case Stored(c, e) => Regroup(a, b, StorageName(c)); PrintedBehind(a, b + StorageName(c), e);
    case Tuple(es) =>
      Regroup(a, b, "Tuple[");
      PrintedElemsBehind(a, b + "Tuple[", es);
      Regroup(a, PrintedElems(b + "Tuple[", es), "]");
  }

  lemma {:induction false} StaticPrintedBehind(a: string, b: string, t: Type)
    requires t.StaticArray?
    ensures Printed(a + b, t) == a + Printed(b, t)
    decreases t, 0
  {
    PrintedBehind(a, b, t.elem);
    var x := Printed(b, t.elem);
    Regroup(a, x, "[");
    Regroup(a, x + "[", Dec(t.size));
    Regroup(a, x + "[" + Dec(t.size), "]");
  }

  lemma {:induction false} PrintedNameBehind(a: string, b: string, name: Name, first: bool)
    ensures PrintedName(a + b, name, first) == a + PrintedName(b, name, first)
    decreases name, 1
  {
    if name.Part? {
      var front := if first then b else b + ".";
      assert (if first then a + b else a + b + ".") == a + front;
      PrintedPartBehind(a, front, name.head);
      PrintedNameBehind(a, PrintedPart(front, name.head), name.tail, false);
    }
  }

  lemma {:induction false} PrintedPartBehind(a: string, b: string, p: NamePart)
    ensures PrintedPart(a + b, p) == a + PrintedPart(b, p)
    decreases p, 1
  {
    match p
    case Plain(id) => Regroup(a, b, PlainName(id));
    case Instance(ids, args) =>
      Regroup(a, b, Joined(ids));
      Regroup(a, b + Joined(ids), "!(");
      PrintedArgsBehind(a, b + Joined(ids) + "!(", args, true);
      Regroup(a, PrintedArgs(b + Joined(ids) + "!(", args, true), ")");
  }

  lemma {:induction false} PrintedArgsBehind(a: string, b: string, args: Arguments, first: bool)
    ensures PrintedArgs(a + b, args, first) == a + PrintedArgs(b, args, first)
    decreases args, 1
  {
    if args.Argument? {
      var front := if first then b else b + ", ";
      assert (if first then a + b else a + b + ", ") == a + front;
      PrintedArgBehind(a, front, args.head);
      PrintedArgsBehind(a, PrintedArg(front, args.head), args.tail, false);
    }
  }

  lemma {:induction false} PrintedArgBehind(a: string, b: string, arg: TemplateArg)
    ensures PrintedArg(a + b, arg) == a + PrintedArg(b, arg)
    decreases arg, 1
  {
    PrintedBehind(a, b, arg.t);
    if arg.ValueArg? {
      Regroup(a, Printed(b, arg.t), " ");
      Regroup(a, Printed(b, arg.t) + " ", PrintedLiteral(arg.value));
    }
  }

  lemma {:induction false} PrintedElemsBehind(a: string, b: string, ts: TypeList)
    ensures PrintedElems(a + b, ts) == a + PrintedElems(b, ts)
    decreases ts, 1
  {
    if ts.Cons? {
      var x := Printed("", ts.head);
      Regroup(a, b, x);
      if ts.tail.Cons? {
        Regroup(a, b + x, ", ");
        PrintedElemsBehind(a, b + x + ", ", ts.tail);
      }
    }
  }

  /**
   * The round trip: parsing the mangling of a type in nested mode keeps the old text, appends exactly
   * the printed type and stops exactly behind the mangling if and only if the end of the type can be
   * told from what follows; otherwise it never stops there. At the end of the text the printed type
   * is right in any case.
   */
  lemma RoundTrip(t: Type, dest: string, rest: string)
    requires WellFormed(t)
    ensures var r := NextType(dest, Mangle(t) + rest, true);
      && (EndsBefore(t, Following(rest)) ==> r == Parsed(dest + Pretty(t), At(rest)))
      && (r.src == At(rest) <==> EndsBefore(t, Following(rest)))
      && (rest == "" ==> r.dest == dest + Pretty(t))
  {
    assert "" + rest == rest && dest + "" == dest;
    MangledInFront(t, "", rest);
    PrintedBehind(dest, "", t);
    TypeReads(t, dest, rest);
  }

  // ----- type qualifiers -----

  function Qualifier(inv: bool): string { if inv then "invariant " else "const " }

  function MangledQualifier(inv: bool): string { if inv then ['y'] else ['x'] }

  /** The text repeats the word. */
  predicate Repeats(word: string, text: string)
    requires word != ""
    decreases |text|
  {
    text == "" || (word <= text && Repeats(word, text[|word|..]))
  }

  lemma StepConst(dest: string, m: string)
    ensures NextType(dest, ['x'] + m, true) == NextType("const " + dest, m, true)
  {
  }

  lemma StepInvariant(dest: string, m: string)
    ensures NextType(dest, ['y'] + m, true) == NextType("invariant " + dest, m, true)
  {
  }

  lemma {:induction false} RepeatsIff(inv: bool, text: string)
    ensures Qualifier(inv) + text == text + Qualifier(inv) <==> Repeats(Qualifier(inv), text)
    decreases |text|
  {
    var w := Qualifier(inv);
    if text == "" {
      assert w + "" == "" + w;
    } else if |text| < |w| {
      ShortDiffers(inv, text);
    } else {
      var tail := text[|w|..];
      if w + text == text + w || w <= text { assert text == w + tail by { StartsWith(w, text); } }
      RepeatsIff(inv, tail);
      if text == w + tail {
        assert w + text == w + (w + tail) && text + w == w + (tail + w);
        if w + text == text + w { assert (w + text)[|w|..] == (text + w)[|w|..]; }
      }
    }
  }

  lemma StartsWith(w: string, text: string)
    requires |text| >= |w| && (w + text == text + w || w <= text)
    ensures text == w + text[|w|..]
  {
    if w + text == text + w {
      assert (w + text)[..|w|] == w && (text + w)[..|w|] == text[..|w|];
    }
  }

  lemma ShortDiffers(inv: bool, text: string)
    requires 0 < |text| < |Qualifier(inv)|
    ensures Qualifier(inv) + text != text + Qualifier(inv)
  {
    var w, k := Qualifier(inv), |text|;
    var at := if text[0] != w[0] then 0 else if w[k] != w[0] then k else 6;
    if at == 6 && k != 6 { LetterAgain(inv, k); }
    assert (w + text)[at] == w[at] && (text + w)[at] == if at == 0 then text[0] else w[at - k];
  }

  /** The first letter comes again only in `invariant`, where the second does not follow it. */
  lemma LetterAgain(inv: bool, k: nat)
    requires 0 < k < |Qualifier(inv)| && Qualifier(inv)[k] == Qualifier(inv)[0]
    ensures k == 5 && Qualifier(inv) == "invariant "
  {
    var w := Qualifier(inv);
    assert k == 1 || k == 2 || k == 3 || k == 4 || k == 5 || k == 6 || k == 7 || k == 8 || k == 9;
  }

  /**
   * The word for a qualifier goes in front of everything printed so far: it stands at the type it
   * belongs to exactly if what stands in front is nothing, or the same word over and over.
   */
  lemma QualifierInPlaceIff(inv: bool, t: Type, dest: string, rest: string)
    requires WellFormed(t) && EndsBefore(t, Following(rest))
    ensures var r := NextType(dest, MangledQualifier(inv) + Mangled(t, rest), true);
      && r == Parsed(Qualifier(inv) + dest + Pretty(t), At(rest))
      && (r.dest == dest + (Qualifier(inv) + Pretty(t)) <==> Repeats(Qualifier(inv), dest))
  {
    var w, text := Qualifier(inv), Pretty(t);
    StepConst(dest, Mangled(t, rest));
    StepInvariant(dest, Mangled(t, rest));
    TypeReads(t, w + dest, rest);
    assert w + dest + "" == w + dest;
    PrintedBehind(w + dest, "", t);
    RepeatsIff(inv, dest);
    Regroup(dest, w, text);
    assert (w + dest + text)[..|w + dest|] == w + dest && (dest + w + text)[..|dest + w|] == dest + w;
  }

  /** `void f(int, const char)` is shown as `const int, char`. */
  lemma QualifierStraysToFront()
    ensures NextType("int, ", ['x', 'a'], true) == Parsed("const int, char", At(""))
  {
    QualifierInPlaceIff(false, Basic('a'), "int, ", "");
    assert ['x'] + (['a'] + "") == ['x', 'a'];
  }

  // ----- symbols -----

  lemma NameIsPrinted(name: Name)
    requires QualifiedId(name)
    ensures PrintedName("", name, true) != ""
  {
    var text := PrintedPart("", name.head);
    if name.head.Plain? {
      assert WellFormedPart(name.head) && Identifier(name.head.id);
      assert text == PlainName(name.head.id);
    } else {
      assert text[|text| - 1] == ')';
    }
    assert text + "" == text;
    PrintedNameBehind(text, "", name.tail, false);
  }

  lemma SymbolReads(name: Name, m: string)
    requires QualifiedId(name) && !StartsLength(m)
    ensures var s := ['_', 'D'] + MangledName(name, m);
      IsSymbol(s) && s[2..] == MangledName(name, m) &&
      NextType("", MangledName(name, m), false) == NextType(PrintedName("", name, true), m, false)
  {
    NameLead(name, m);
    var s := ['_', 'D'] + MangledName(name, m);
    assert s[2..] == MangledName(name, m);
    StepName("", MangledName(name, m), false);
    NameReads("", name, m, true);
  }

  datatype Symbol = Symbol(name: Name, hasThis: bool, fn: Fn)

  ghost predicate WellFormedSymbol(f: Symbol) {
    QualifiedId(f.name) && WellFormedFn(f.fn)
  }

  /** A function or a method behind its name. */
  function MangledRest(f: Symbol, rest: string): string {
    (if f.hasThis then ['M'] else []) + MangledFn(f.fn, rest)
  }

  function MangledSymbols(fs: seq<Symbol>): string {
    if fs == [] then "" else MangledName(fs[0].name, MangledRest(fs[0], MangledSymbols(fs[1..])))
  }

  /** Return type, name and parameters, among which a method shows `this`. */
  function PrintedSymbol(f: Symbol): string {
    var params := ParamText(f.fn);
    Pretty(f.fn.ret) + " " + PrintedName("", f.name, true) +
    "(" + params + (if f.hasThis then (if params == "" then "this" else ", this") else "") + ")"
  }

  function PrintedSymbols(fs: seq<Symbol>): string {
    if fs == [] then "" else "." + PrintedSymbol(fs[0]) + PrintedSymbols(fs[1..])
  }

  lemma FunctionBody(dest: string, f: Fn, hasThis: bool, rest: string)
    requires WellFormedFn(f)
    ensures TypeBody(dest, MangledFn(f, rest), false, hasThis) ==
      Function("", MangledFn(f, rest), Some(dest), false, hasThis)
    ensures MangledFn(f, rest) != "" && Classify(MangledFn(f, rest)[0]) == FunctionType
  {
  }

  lemma SymbolBody(dest: string, f: Symbol, rest: string)
    requires WellFormedFn(f.fn)
    ensures var s := MangledRest(f, rest);
      !StartsLength(s) && NextType(dest, s, false) == TypeBody(dest, MangledFn(f.fn, rest), false, f.hasThis)
  {
    var s := MangledRest(f, rest);
    FunctionBody(dest, f.fn, f.hasThis, rest);
    if f.hasThis {
      assert s[1..] == MangledFn(f.fn, rest) && Classify(s[0]) == This;
    } else {
      assert s == MangledFn(f.fn, rest);
    }
  }

  lemma WithParamsPrints(head: string, params: string, hasThis: bool)
    ensures WithParams(head, params, hasThis) ==
      head + "(" + params + (if hasThis then (if params == "" then "this" else ", this") else "") + ")"
  {
  }

  lemma SymbolSignature(f: Symbol, rest: string)
    requires WellFormedSymbol(f)
    ensures Reads(NextType(PrintedName("", f.name, true), MangledRest(f, rest), false),
                  EndsFnBefore(f.fn, Following(rest)), PrintedSymbol(f), rest)
  {
    var dest := PrintedName("", f.name, true);
    NameIsPrinted(f.name);
    FunctionBody(dest, f.fn, f.hasThis, rest);
    SymbolBody(dest, f, rest);
    FnReads(f.fn, "", Some(dest), false, f.hasThis, rest);
    assert Pretty(f.fn.ret) + (" " + "") + dest == Pretty(f.fn.ret) + " " + dest;
    WithParamsPrints(Pretty(f.fn.ret) + " " + dest, ParamText(f.fn), f.hasThis);
  }

  lemma OneSymbol(f: Symbol, rest: string)
    requires WellFormedSymbol(f)
    ensures var s := MangledName(f.name, MangledRest(f, rest));
      && StartsLength(s)
      && Reads(NextType("", s, false), EndsFnBefore(f.fn, Following(rest)), PrintedSymbol(f), rest)
  {
    SymbolBody("", f, rest);
    NameLead(f.name, MangledRest(f, rest));
    SymbolReads(f.name, MangledRest(f, rest));
    SymbolSignature(f, rest);
  }

  /** Each symbol but the last can be told from the name of the one nested in it. */
  ghost predicate Chained(fs: seq<Symbol>) {
    && (forall i :: 0 <= i < |fs| ==> WellFormedSymbol(fs[i]))
    && forall i :: 0 <= i < |fs| - 1 ==> EndsFnBefore(fs[i].fn, Length)
  }

  lemma ChainTail(fs: seq<Symbol>)
    requires Chained(fs) && fs != []
    ensures WellFormedSymbol(fs[0]) && Chained(fs[1..])
    ensures |fs| > 1 ==> Following(MangledSymbols(fs[1..])) == Length && EndsFnBefore(fs[0].fn, Length)
  {
    var fs' := fs[1..];
    assert forall i :: 0 <= i < |fs'| ==> fs'[i] == fs[i + 1];
    if fs' != [] { NameLead(fs'[0].name, MangledRest(fs'[0], MangledSymbols(fs'[1..]))); }
  }

  lemma {:induction false} NestedRead(dest: string, fs: seq<Symbol>)
    requires Chained(fs)
    ensures NestedSymbols(dest, At(MangledSymbols(fs))) ==
      Parsed(dest + PrintedSymbols(fs), if fs == [] || EndsFnBefore(fs[|fs| - 1].fn, Other) then At("") else Null)
    decreases |fs|
  {
    if fs == [] {
      assert dest + "" == dest;
    } else {
      var f, fs' := fs[0], fs[1..];
      ChainTail(fs);
      OneSymbol(f, MangledSymbols(fs'));
      var front := dest + "." + PrintedSymbol(f);
      assert front + PrintedSymbols(fs') == dest + PrintedSymbols(fs);
      if fs' == [] {
        assert front + "" == front;
      } else {
        NestedRead(front, fs');
      }
    }
  }

  /**
   * A symbol with symbols nested in it demangles to their signatures, joined by dots, if each can be
   * told from the next; the pointer is lost exactly if the last return type cannot tell where it ends.
   */
  lemma NestedSymbol(f: Symbol, fs: seq<Symbol>)
    requires Chained([f] + fs)
    ensures var last := ([f] + fs)[|fs|];
      DemangleD(['_', 'D'] + MangledSymbols([f] + fs)) ==
      Some(Parsed(PrintedSymbol(f) + PrintedSymbols(fs), if EndsFnBefore(last.fn, Other) then At("") else Null))
  {
    assert ([f] + fs)[1..] == fs;
    ChainTail([f] + fs);
    OneSymbol(f, MangledSymbols(fs));
    var s := ['_', 'D'] + MangledSymbols([f] + fs);
    assert s[2..] == MangledSymbols([f] + fs) && IsSymbol(s);
    if fs == [] {
      assert PrintedSymbol(f) + "" == PrintedSymbol(f);
    } else {
      NestedRead(PrintedSymbol(f), fs);
    }
  }

  /**
   * A function symbol, a method if `hasThis`, demangles to its return type, its name and its parameters;
   * the pointer is lost exactly if the return type cannot tell where it ends.
   */
  lemma FunctionSymbol(f: Symbol)
    requires WellFormedSymbol(f)
    ensures DemangleD(['_', 'D'] + MangledName(f.name, MangledRest(f, ""))) ==
      Some(Parsed(PrintedSymbol(f), if EndsFnBefore(f.fn, Other) then At("") else Null))
  {
    assert [f] + [] == [f];
    assert MangledSymbols([f]) == MangledName(f.name, MangledRest(f, ""));
    assert PrintedSymbol(f) + "" == PrintedSymbol(f);
    NestedSymbol(f, []);
  }

  function StaticText(dtor: bool): string {
    if dtor then "_staticDtorFZv" else "_staticCtorFZv"
  }

  lemma StaticPart(dest: string, dtor: bool)
    ensures DemangleSpec.NamePart(dest, StaticText(dtor), 11) ==
      Parsed("static void " + dest + (if dtor then "~this()" else "this()"), At(""))
  {
    var id := StaticText(dtor);
    assert id[1] == 's' && !IsTemplate(id);
    assert id[7] == if dtor then 'D' else 'C';
    assert id[14..] == "";
  }

  lemma StaticNumber(id: string)
    requires id != "" && !IsDigit(id[0])
    ensures StartsLength(['1', '1'] + id) && ReadNumber(['1', '1'] + id, 0) == Number(11, id)
  {
    var s := ['1', '1'] + id;
    assert s[1..] == ['1'] + id && s[1..][1..] == id && !StartsDigit(id);
    assert ReadNumber(s, 0) == ReadNumber(s[1..], 1) == ReadNumber(id, 11);
  }

  /** A static constructor or destructor of an aggregate demangles to its own fixed signature. */
  lemma StaticSymbol(name: Name, dtor: bool)
    requires QualifiedId(name)
    ensures DemangleD(['_', 'D'] + MangledName(name, ['1', '1'] + StaticText(dtor))) ==
      Some(Parsed("static void " + (PrintedName("", name, true) + ".") + (if dtor then "~this()" else "this()"), Null))
  {
    var m, front := ['1', '1'] + StaticText(dtor), PrintedName("", name, true);
    StaticNumber(StaticText(dtor));
    StaticPart(front + ".", dtor);
    NameLead(name, m);
    var s := ['_', 'D'] + MangledName(name, m);
    assert s[2..] == MangledName(name, m) && IsSymbol(s);
    StepName("", MangledName(name, m), false);
    NameThen("", name, m, true);
  }

  /** A variable symbol of any type demangles to its type in front of its name. */
  lemma VariableSymbol(name: Name, t: Type)
    requires QualifiedId(name) && WellFormed(t)
    ensures DemangleD(['_', 'D'] + MangledName(name, Mangle(t))) ==
      Some(Parsed(Around(PrintedName("", name, true), t), if EndsBareBefore(t, Other) then At("") else Null))
  {
    LeadOf(t, "");
    SymbolReads(name, Mangle(t));
    TypeReadsBare(t, PrintedName("", name, true), "");
  }

  // ----- texts that are no mangling -----

  /** A type that begins with a letter of no meaning is shown as it is, with all that follows. */
  lemma UnknownIsShown(dest: string, c: char, m: string, nested: bool)
    requires Classify(c) == Unknown && !IsSymbol([c] + m)
    ensures NextType(dest, [c] + m, nested) == Parsed(dest + " @bug@[2]{" + ([c] + m) + "}", Null)
  {
  }

  /** A dot in front of a length ends the text without a trace; any other dot is shown as it is. */
  lemma DotIsShownIff(dest: string, m: string, nested: bool)
    ensures NextType(dest, ['.'] + m, nested) ==
      if m != "" && '1' <= m[0] <= '9' then Parsed(dest, Null)
      else Parsed(dest + " @bug@[2]{" + (['.'] + m) + "}", Null)
  {
    assert (['.'] + m)[1..] == m;
  }

  /** A mark for `this` with nothing behind it. */
  lemma LonelyThis(dest: string, nested: bool)
    ensures NextType(dest, ['M'], nested) == Parsed(dest + " @bug@[2]{}", Null)
  {
    assert ['M'][1..] == "";
    assert dest + " @bug@[2]{" + "" + "}" == dest + " @bug@[2]{}";
  }

  /** Where a type is missing there is nothing to print. */
  lemma NothingToRead(dest: string, nested: bool)
    ensures NextType(dest, "", nested) == Parsed(dest, Null)
  {
  }

  /** A whole symbol in place of a type, with a dot in front unless it is the first. */
  lemma EmbeddedSymbol(dest: string, f: Symbol, rest: string, nested: bool)
    requires WellFormedSymbol(f) && EndsFnBefore(f.fn, Following(rest))
    ensures NextType(dest, ['_', 'D'] + MangledName(f.name, MangledRest(f, rest)), nested) ==
      Parsed((if dest == "" then "" else dest + ".") + PrintedSymbol(f), At(rest))
  {
    OneSymbol(f, rest);
    var s := ['_', 'D'] + MangledName(f.name, MangledRest(f, rest));
    assert s[2..] == MangledName(f.name, MangledRest(f, rest)) && IsSymbol(s);
  }

  /** A length that goes past the end of the text runs into undefined behaviour. */
  lemma TooLong(dest: string, n: nat, m: string, first: bool)
    requires n > |m| && !StartsDigit(m)
    ensures QualifiedName(dest, Dec(n) + m, first).src == Overrun
  {
    DecLead(n);
    assert (Dec(n) + m)[0] == Dec(n)[0];
    DecReads(n, m);
  }

  lemma {:induction false} SpacesSkipped(spaces: string, m: string)
    requires (forall i :: 0 <= i < |spaces| ==> spaces[i] in {' ', '\t', '\n', 11 as char, 12 as char, '\r'})
    requires m == "" || !IsSpace(m[0])
    ensures SkipSpaces(spaces + m) == m
    decreases |spaces|
  {
    if spaces == "" {
      assert "" + m == m;
    } else {
      assert (spaces + m)[1..] == spaces[1..] + m;
      SpacesSkipped(spaces[1..], m);
    }
  }

  /** The nearest number of 64 bits. */
  function Nearest(v: int): int {
    if v < -0x8000_0000_0000_0000 then -0x8000_0000_0000_0000
    else if v > 0x7FFF_FFFF_FFFF_FFFF then 0x7FFF_FFFF_FFFF_FFFF else v
  }

  /** The count of a tuple may carry spaces and a sign, and saturates. */
  lemma CountReads(spaces: string, sign: string, n: nat, m: string)
    requires (forall i :: 0 <= i < |spaces| ==> spaces[i] in {' ', '\t', '\n', 11 as char, 12 as char, '\r'})
    requires sign in {"", "+", "-"} && !StartsDigit(m)
    ensures StrToL(spaces + (sign + (Dec(n) + m))) == Signed(Nearest(if sign == "-" then 0 - n else n), m)
  {
    var u := Dec(n) + m;
    assert u[0] == Dec(n)[0] && IsDigit(u[0]);
    DecReads(n, m);
    assert sign == "" ==> sign + u == u;
    assert sign != "" ==> (sign + u)[0] == sign[0] && (sign + u)[1..] == u;
    SpacesSkipped(spaces, sign + u);
  }

  /** A tuple whose count is not positive is empty, whatever follows. */
  lemma NegativeTuple(dest: string, n: nat, m: string, nested: bool)
    requires !StartsDigit(m)
    ensures NextType(dest, ['B'] + (['-'] + (Dec(n) + m)), nested) == Parsed(dest + "Tuple[]", At(m))
  {
    var s := ['-'] + (Dec(n) + m);
    StepTuple(dest, s, nested);
    CountReads("", "-", n, m);
    assert "" + s == s && dest + "Tuple[" + "]" == dest + "Tuple[]";
  }

  lemma {:induction false} CutMore(text: string, ts: TypeList)
    requires WellFormedParams(ts)
    ensures var p := MoreParams(text, At(MangledList(ts, "")));
      p == Params(MoreText(text, ts), false, At(""))
    decreases ts
  {
    if ts.Cons? {
      var more := MangledList(ts.tail, "");
      LeadOf(ts.head, more);
      if ts.tail.Cons? { LeadOf(ts.tail.head, MangledList(ts.tail.tail, "")); }
      TypeReads(ts.head, text + ", ", more);
      CutMore(Printed(text + ", ", ts.head), ts.tail);
    }
  }

  lemma CutParams(t: Type, ts: TypeList)
    requires WellFormedParams(Cons(t, ts))
    ensures AllParams(MangledList(Cons(t, ts), "")) == Params(MoreText(Pretty(t), ts), false, At(""))
  {
    var more := MangledList(ts, "");
    LeadOf(t, more);
    if ts.Cons? { LeadOf(ts.head, MangledList(ts.tail, "")); }
    TypeReads(t, "", more);
    CutMore(Pretty(t), ts);
  }

  lemma CutPrints(dest: string, params: string)
    ensures Signature(dest, "", Some(""), true, params, false) == dest + " function(" + params + ")"
  {
    WithParamsPrints(dest + "" + " function", params, false);
  }

  /** A parameter list without its end is printed all the same, without a return type. */
  lemma CutSignature(linkage: char, t: Type, ts: TypeList, dest: string)
    requires WellFormedParams(Cons(t, ts))
    ensures Function(dest, [linkage] + MangledList(Cons(t, ts), ""), Some(""), true, false) ==
      Parsed(dest + " function(" + MoreText(Pretty(t), ts) + ")", At(""))
  {
    CutParams(t, ts);
    assert ([linkage] + MangledList(Cons(t, ts), ""))[1..] == MangledList(Cons(t, ts), "");
    CutPrints(dest, MoreText(Pretty(t), ts));
  }

  function ThisText(params: string, hasThis: bool): string {
    if !hasThis then "" else if params == "" then "this" else ", this"
  }

  /** A function without a name. */
  lemma NamelessPrints(dest: string, ret: string, params: string, hasThis: bool)
    ensures Signature(dest, ret, Some(""), true, params, hasThis) ==
      dest + ret + " function" + "(" + params + ThisText(params, hasThis) + ")"
  {
    WithParamsPrints(dest + ret + " function", params, hasThis);
  }

  lemma NestedFunctionBody(dest: string, f: Fn, hasThis: bool, rest: string)
    requires WellFormedFn(f)
    ensures MangledFn(f, rest) != "" && Classify(MangledFn(f, rest)[0]) == FunctionType
    ensures TypeBody(dest, MangledFn(f, rest), true, hasThis) ==
      Function(dest, MangledFn(f, rest), Some(""), true, hasThis)
  {
  }

  lemma StepFunction(dest: string, f: Fn, hasThis: bool, rest: string)
    requires WellFormedFn(f)
    ensures NextType(dest, (if hasThis then ['M'] else []) + MangledFn(f, rest), true) ==
      Function(dest, MangledFn(f, rest), Some(""), true, hasThis)
  {
    var s := (if hasThis then ['M'] else []) + MangledFn(f, rest);
    NestedFunctionBody(dest, f, hasThis, rest);
    if hasThis {
      assert s[1..] == MangledFn(f, rest) && Classify(s[0]) == This;
    } else {
      assert s == MangledFn(f, rest);
    }
  }

  /** A function where a type is expected, with or without the mark for `this`. */
  lemma FunctionAsType(dest: string, f: Fn, hasThis: bool, rest: string)
    requires WellFormedFn(f)
    ensures Reads(NextType(dest, (if hasThis then ['M'] else []) + MangledFn(f, rest), true),
                  EndsFnBefore(f, Following(rest)),
                  dest + Pretty(f.ret) + " function" + "(" + ParamText(f) + ThisText(ParamText(f), hasThis) + ")", rest)
  {
    StepFunction(dest, f, hasThis, rest);
    FnReads(f, dest, Some(""), true, hasThis, rest);
    NamelessPrints(dest, Pretty(f.ret), ParamText(f), hasThis);
  }

  /** In place of an argument a letter may stand for a type of characters; it is printed without a comma. */
  lemma CharacterArgs(dest: string, m: string, first: bool)
    ensures TemplateArgs(dest, At(['a'] + m), first) == TemplateArgs(dest + "char", At(m), first)
    ensures TemplateArgs(dest, At(['u'] + m), first) == TemplateArgs(dest + "wchar", At(m), first)
    ensures TemplateArgs(dest, At(['w'] + m), first) == TemplateArgs(dest + "dchar", At(m), first)
  {
    assert (['a'] + m)[1..] == m && (['u'] + m)[1..] == m && (['w'] + m)[1..] == m;
  }

  /** Arguments and values that no letter announces are shown as they are. */
  lemma UnknownArgIsShown(dest: string, c: char, m: string, first: bool)
    requires c !in {'T', 'V', 'Z', 'a', 'u', 'w'}
    ensures TemplateArgs(dest, At([c] + m), first) == Parsed(dest + " @bug@[1]{" + ([c] + m) + "}", Null)
  {
  }

  lemma UnknownValueIsShown(dest: string, c: char, m: string)
    requires !IsDigit(c) && c !in {'N', 'n', 'a', 'w', 'd', 'e', 'c'}
    ensures TemplateValue(dest, [c] + m) == Parsed(dest + " @bug@[1]{" + ([c] + m) + "}", Null)
  {
  }

  /** A character literal without its count, or without the underscore behind it, is shown from there on. */
  lemma BrokenLiteral(dest: string, width: char, n: nat, m: string)
    requires width in {'a', 'w', 'd'} && !StartsDigit(m)
    ensures TemplateValue(dest, [width] + m) == Parsed(dest + " @bug@[1]{" + m + "}", Null)
    ensures m == "" || m[0] != '_' ==>
      TemplateValue(dest, [width] + (Dec(n) + m)) == Parsed(dest + " @bug@[1]{" + m + "}", Null)
  {
    StepChars(dest, width, m);
    StepChars(dest, width, Dec(n) + m);
    DecReads(n, m);
    assert (Dec(n) + m)[0] == Dec(n)[0];
  }

  /** Two digits are a character, in either case; what is no digit gives a question mark. */
  lemma HexCharIs(a: char, b: char)
    ensures !IsHex(a) || !IsHex(b) ==> HexChar(a, b) == '?'
    ensures HexChar('4', 'a') == 'J' && HexChar('4', 'A') == 'J' && HexChar('7', 'F') == 127 as char
    ensures !IsHex('g') && !IsHex('G') && !IsHex('/') && !IsHex(':') && !IsHex('@') && !IsHex('`')
  {
  }
}
