/**
 * The D symbol demangler as functions. A source is the text up to the terminating zero; a parsing
 * function prints to the end or to the front of a destination text and returns where it stopped.
 */
module DemangleSpec {
  import opened Basics

  /**
   * Where a parsing call leaves the source pointer. `Overrun` stands for reading behind the
   * terminating zero, `Unmodelled` for the floating point
   * literals of templates and for a zero among the characters of one.
   */
  datatype Src = Null | At(rest: string) | Overrun | Unmodelled {
    /** Nothing further can be said about the run. */
    predicate Stuck() { Overrun? || Unmodelled? }
  }

  datatype Parsed = Parsed(dest: string, src: Src)

  /** How much source is left; nothing of a null or stuck pointer. */
  function Left(src: Src): nat {
    if src.At? then |src.rest| else 0
  }

  predicate IsDigit(c: char) { '0' <= c <= '9' }

  predicate StartsDigit(s: string) { s != "" && IsDigit(s[0]) }

  /** A length field never starts with a zero. */
  predicate StartsLength(s: string) { StartsDigit(s) && s[0] != '0' }

  /** The decimal number at the front of a text, and the text behind it. */
  datatype Number = Number(value: nat, rest: string)

  function DigitValue(c: char): nat
    requires IsDigit(c)
  {
    (c as int) - ('0' as int)
  }

  function ReadNumber(s: string, value: nat): (r: Number)
    ensures |r.rest| <= |s| && (StartsDigit(s) ==> |r.rest| < |s|)
    decreases |s|
  {
    if StartsDigit(s) then ReadNumber(s[1..], 10 * value + DigitValue(s[0])) else Number(value, s)
  }

  predicate IsSpace(c: char) { c == ' ' || 9 as char <= c <= 13 as char }

  function SkipSpaces(s: string): (r: string)
    ensures |r| <= |s|
    decreases |s|
  {
    if s != "" && IsSpace(s[0]) then SkipSpaces(s[1..]) else s
  }

  const LONG_MAX: int := 0x7FFF_FFFF_FFFF_FFFF

  function Saturate(n: int): int {
    if n > LONG_MAX then LONG_MAX else if n < -LONG_MAX - 1 then -LONG_MAX - 1 else n
  }

  datatype Signed = Signed(value: int, rest: string)

  /** The library function `strtol`, base ten: leading space and a sign are skipped, values saturate. */
  function StrToL(s: string): (r: Signed)
    ensures |r.rest| <= |s|
  {
    var t := SkipSpaces(s);
    var negative := t != "" && t[0] == '-';
    var u := if negative || (t != "" && t[0] == '+') then t[1..] else t;
    if !StartsDigit(u) then Signed(0, s)
    else
      var n := ReadNumber(u, 0);
      var v: int := n.value;
      Signed(Saturate(if negative then -v else v), n.rest)
  }

  /** What a letter announces. */
  datatype Letter =
    | This | BasicType | ConstType | InvariantType | DynamicArray | FixedArray | AssocArray | DelegateType | PointerType
    | StorageClass | Aggregate | NameLength | FunctionType | TupleType | Dot | Unknown

  function Classify(c: char): Letter {
    match c
    case 'M' => This
    case 'v' => BasicType case 'Z' => BasicType case 'b' => BasicType case 'g' => BasicType case 'h' => BasicType
    case 's' => BasicType case 't' => BasicType case 'i' => BasicType case 'k' => BasicType case 'l' => BasicType
    case 'm' => BasicType case 'f' => BasicType case 'd' => BasicType case 'e' => BasicType case 'o' => BasicType
    case 'p' => BasicType case 'j' => BasicType case 'q' => BasicType case 'r' => BasicType case 'c' => BasicType
    case 'a' => BasicType case 'u' => BasicType case 'w' => BasicType
    case 'x' => ConstType case 'y' => InvariantType
    case 'A' => DynamicArray case 'G' => FixedArray case 'H' => AssocArray
    case 'D' => DelegateType case 'P' => PointerType
    case 'J' => StorageClass case 'K' => StorageClass case 'L' => StorageClass
    case 'C' => Aggregate case 'S' => Aggregate case 'E' => Aggregate case 'T' => Aggregate
    case 'F' => FunctionType case 'U' => FunctionType case 'W' => FunctionType
    case 'V' => FunctionType case 'R' => FunctionType
    case 'B' => TupleType case '.' => Dot
    case _ => if '1' <= c <= '9' then NameLength else Unknown
  }

  function BasicName(c: char): string {
    match c
    case 'v' => "void" case 'Z' => "const void" case 'b' => "bool" case 'g' => "byte" case 'h' => "ubyte"
    case 's' => "short" case 't' => "ushort" case 'i' => "int" case 'k' => "uint" case 'l' => "long" case 'm' => "ulong"
    case 'f' => "float" case 'd' => "double" case 'e' => "real"
    case 'o' => "ifloat" case 'p' => "idouble" case 'j' => "ireal"
    case 'q' => "cfloat" case 'r' => "cdouble" case 'c' => "creal"
    case 'a' => "char" case 'u' => "wchar" case 'w' => "dchar"
    case _ => ""
  }

  function StorageName(c: char): string {
    match c case 'J' => "out " case 'K' => "inout " case 'L' => "lazy " case _ => ""
  }

  predicate StartsFunction(s: string) { s != "" && Classify(s[0]) == FunctionType }

  /** Append in nested mode; otherwise put in front with a space between. */
  function Nestpend(dest: string, s: string, nested: bool): string {
    if nested then dest + s else s + (" " + dest)
  }

  const BUG_IN_TEMPLATE := " @bug@[1]{"
  const BUG_IN_TYPE := " @bug@[2]{"

  /** What cannot be parsed is shown as it is. */
  function Bug(dest: string, mark: string, s: string): Parsed {
    Parsed(dest + mark + s + "}", Null)
  }

  // ----- types -----

  /** The next type, from a text that may be exhausted. Null or a strictly later position comes back. */
  function NextType(dest: string, s: string, nested: bool): (r: Parsed)
    ensures r.src.At? ==> Left(r.src) < |s|
    decreases |s|, 5
  {
    if s == "" then Parsed(dest, Null)
    else if IsSymbol(s) then
      var t := NextType("", s[2..], false);
      Parsed((if dest != "" then dest + "." else dest) + t.dest, t.src)
    else TypeBody(dest, s, nested, false)
  }

  predicate IsSymbol(s: string)
    ensures IsSymbol(s) ==> |s| > 2 && s[0] == '_'
  {
    |s| > 2 && s[0] == '_' && s[1] == 'D' && StartsLength(s[2..])
  }

  function NextTypeAt(dest: string, src: Src, nested: bool): (r: Parsed)
    ensures src.At? && r.src.At? ==> Left(r.src) < Left(src)
    ensures !src.At? ==> r == Parsed(dest, src)
    decreases Left(src), 6
  {
    if src.At? then NextType(dest, src.rest, nested) else Parsed(dest, src)
  }

  function TypeBody(dest: string, s: string, nested: bool, hasThis: bool): (r: Parsed)
    ensures r.src.At? ==> Left(r.src) < |s|
    decreases |s|, 4
  {
    if s == "" then Bug(dest, BUG_IN_TYPE, s)
    else
      match Classify(s[0])
      case This => TypeBody(dest, s[1..], nested, true)
      case BasicType => Parsed(Nestpend(dest, BasicName(s[0]), nested), At(s[1..]))
      case ConstType => NextType("const " + dest, s[1..], nested)
      case InvariantType => NextType("invariant " + dest, s[1..], nested)
      case DynamicArray => ArrayType(dest, s[1..], nested)
      case FixedArray => StaticArrayType(dest, s[1..], nested)
      case AssocArray => AssocType(dest, s[1..], nested)
      case DelegateType => SignatureType(dest, s[1..], None, nested, hasThis)
      case PointerType =>
        if StartsFunction(s[1..]) then SignatureType(dest, s[1..], Some(""), nested, hasThis)
        else PointedType(dest, s[1..], nested)
      case StorageClass => NextType(dest + StorageName(s[0]), s[1..], true)
      case Aggregate => if nested then NextType(dest, s[1..], true) else AggregateType(dest, s[1..])
      case NameLength => if nested then QualifiedName(dest, s, true) else NamedSymbol(dest, s)
      case FunctionType =>
        if nested then Function(dest, s, Some(""), true, hasThis) else Function("", s, Some(dest), false, hasThis)
      case TupleType => TupleOf(dest, s[1..])
      case Dot => if StartsLength(s[1..]) then Parsed(dest, Null) else Bug(dest, BUG_IN_TYPE, s)
      case Unknown => Bug(dest, BUG_IN_TYPE, s)
  }

  function ArrayType(dest: string, s: string, nested: bool): (r: Parsed)
    ensures r.src.At? ==> Left(r.src) < |s|
    decreases |s|, 6
  {
    if nested then var t := NextType(dest, s, true); t.(dest := t.dest + "[]")
    else NextType("[] " + dest, s, false)
  }

  function StaticArrayType(dest: string, s: string, nested: bool): (r: Parsed)
    ensures r.src.At? ==> Left(r.src) < |s|
    decreases |s|, 6
  {
    var end := ReadNumber(s, 0).rest;
    var size := s[..|s| - |end|];
    if nested then var t := NextType(dest, end, true); t.(dest := t.dest + "[" + size + "]")
    else NextType("[" + size + "] " + dest, end, false)
  }

  /** The key is parsed in nested mode, then the value in front of it. */
  function AssocType(dest: string, s: string, nested: bool): (r: Parsed)
    ensures r.src.At? ==> Left(r.src) < |s|
    decreases |s|, 7
  {
    var key := NextType("", s, true);
    var value := NextTypeAt("[" + key.dest + "]", key.src, false);
    Parsed(Nestpend(dest, value.dest, nested), value.src)
  }

  function SignatureType(dest: string, s: string, name: Option<string>, nested: bool, hasThis: bool): (r: Parsed)
    ensures r.src.At? ==> Left(r.src) < |s|
    decreases |s|, 6
  {
    var f := Function("", s, name, false, hasThis);
    Parsed(Nestpend(dest, f.dest, nested), f.src)
  }

  function PointedType(dest: string, s: string, nested: bool): (r: Parsed)
    ensures r.src.At? ==> Left(r.src) < |s|
    decreases |s|, 6
  {
    if nested then var t := NextType(dest, s, true); t.(dest := t.dest + " *")
    else NextType("* " + dest, s, false)
  }

  function AggregateType(dest: string, s: string): (r: Parsed)
    ensures r.src.At? ==> Left(r.src) < |s|
    decreases |s|, 6
  {
    var t := NextType("", s, false);
    Parsed(t.dest + " " + dest, t.src)
  }

  /** A name and the type behind it. */
  function NamedSymbol(dest: string, s: string): (r: Parsed)
    ensures r.src.At? ==> Left(r.src) < |s|
    decreases |s|, 3
  {
    var q := QualifiedName(dest, s, true);
    if StartsLength(s) then NextTypeAt(q.dest, q.src, false) else Parsed(dest, Null)
  }

  /** Identifiers with their lengths in front, joined by dots. */
  function QualifiedName(dest: string, s: string, first: bool): (r: Parsed)
    ensures r.src.At? ==> Left(r.src) <= |s| && (StartsLength(s) ==> Left(r.src) < |s|)
    decreases |s|, 2
  {
    if !StartsLength(s) then Parsed(dest, At(s))
    else
      var n := ReadNumber(s, 0);
      NamePart(if first then dest else dest + ".", n.rest, n.value)
  }

  /** The source is behind the length field. */
  function NamePart(dest: string, id: string, length: nat): (r: Parsed)
    ensures r.src.At? ==> Left(r.src) <= |id|
    decreases |id|, 7
  {
    if length > |id| then Parsed(dest, Overrun)
    else if length >= 5 && IsTemplate(id) then
      var t := Template(dest, id[3..length]);
      if t.src.Stuck() then t else QualifiedName(t.dest, id[length..], false)
    else if length == 11 && StaticName(id) != "" then
      Parsed("static void " + dest + StaticName(id), At(id[14..]))
    else QualifiedName(dest + PlainName(id[..length]), id[length..], false)
  }

  predicate IsTemplate(id: string)
    ensures IsTemplate(id) ==> |id| > 3
  {
    |id| > 3 && id[0] == '_' && id[1] == '_' && id[2] == 'T' && StartsLength(id[3..])
  }

  /** Static constructors and destructors carry their signature; empty for all other texts. */
  function StaticName(id: string): (r: string)
    ensures r != "" ==> |id| >= 14
  {
    if "_staticCtorFZv" <= id then "this()" else if "_staticDtorFZv" <= id then "~this()" else ""
  }

  /** Constructors and destructors have names of their own. */
  function PlainName(id: string): string {
    if id == "_ctor" then "this" else if id == "_dtor" then "~this" else id
  }

  function TupleOf(dest: string, s: string): (r: Parsed)
    ensures r.src.At? ==> Left(r.src) <= |s|
    decreases |s|, 8
  {
    var n := StrToL(s);
    var t := TupleElements(dest + "Tuple[", At(n.rest), n.value);
    t.(dest := t.dest + "]")
  }

  function TupleElements(dest: string, src: Src, n: int): (r: Parsed)
    ensures src.At? && r.src.At? ==> Left(r.src) <= Left(src)
    ensures !src.At? ==> r.src == src
    decreases Left(src), 7, if n > 0 then n else 0
  {
    if n <= 0 || src.Stuck() then Parsed(dest, src)
    else
      var t := NextTypeAt("", src, true);
      if n == 1 then t.(dest := dest + t.dest) else TupleElements(dest + t.dest + ", ", t.src, n - 1)
  }

  // ----- functions -----

  /** The parameters of a function, and the source of its return type if the list was ended. */
  datatype Params = Params(text: string, ended: bool, src: Src)

  function MoreParams(text: string, src: Src): (r: Params)
    ensures r.src.At? ==> src.At? && Left(r.src) <= Left(src)
    ensures r.ended ==> r.src.At?
    decreases Left(src), 7
  {
    if !src.At? || src.rest == "" then Params(text, false, src)
    else if src.rest[0] == 'Z' then Params(text, true, At(src.rest[1..]))
    else if src.rest[0] == 'Y' then Params(text + ", ...", true, At(src.rest[1..]))
    else if src.rest[0] == 'X' then Params(text + " ...", true, At(src.rest[1..]))
    else
      var t := NextType(text + ", ", src.rest, true);
      MoreParams(t.dest, t.src)
  }

  function AllParams(s: string): (r: Params)
    ensures r.src.At? ==> Left(r.src) <= |s|
    ensures r.ended ==> r.src.At?
    decreases |s|, 8
  {
    if s != "" && s[0] == 'Z' then Params("", true, At(s[1..]))
    else if s != "" && s[0] == 'Y' then Params("...", true, At(s[1..]))
    else
      var t := NextType("", s, true);
      MoreParams(t.dest, t.src)
  }

  /** What is printed of a function: its return type, its name, and its parameters. */
  function Signature(dest: string, ret: string, name: Option<string>, nested: bool, params: string,
                     hasThis: bool): string {
    var head :=
      if name == None then dest + ret + " delegate"
      else if name.value == "" then dest + ret + " function"
      else if nested then dest + ret + " " + name.value
      else ret + (" " + dest) + name.value;
    WithParams(head, params, hasThis)
  }

  function WithParams(head: string, params: string, hasThis: bool): string {
    if params == "" then head + (if hasThis then "(this)" else "()")
    else if hasThis then head + "(" + params + ", this" + ")"
    else head + "(" + params + ")"
  }

  /** A function, from its linkage letter on. */
  function Function(dest: string, s: string, name: Option<string>, nested: bool, hasThis: bool): (r: Parsed)
    ensures r.src.At? ==> Left(r.src) < |s|
    decreases |s|, 3
  {
    if s == "" then Parsed(dest, Overrun)
    else
      var p := AllParams(s[1..]);
      var ret := if p.ended then NextTypeAt("", p.src, true) else Parsed("", p.src);
      Parsed(Signature(dest, ret.dest, name, nested, p.text, hasThis), ret.src)
  }

  // ----- templates -----

  /** The source is a copy that ends where the template identifier ends. */
  function Template(dest: string, raw: string): (r: Parsed)
    ensures !r.src.At?
    decreases |raw|, 8
  {
    var id := TemplateName(dest, raw);
    if !id.src.At? then id
    else
      var args := TemplateArgs(id.dest + "!(", id.src, true);
      Parsed(args.dest + ")", if args.src.Stuck() then args.src else Null)
  }

  function TemplateName(dest: string, raw: string): (r: Parsed)
    ensures Left(r.src) <= |raw| && r.src != Null
    decreases |raw|, 7
  {
    if !StartsLength(raw) then Parsed(dest, At(raw))
    else
      var n := ReadNumber(raw, 0);
      if n.value > |n.rest| then Parsed(dest, Overrun)
      else TemplateName(dest + n.rest[..n.value], n.rest[n.value..])
  }

  function TemplateArgs(dest: string, src: Src, first: bool): Parsed
    decreases Left(src), 7
  {
    if !src.At? || src.rest == "" then Parsed(dest, src)
    else
      var raw := src.rest;
      if raw[0] == 'T' then
        var t := NextType(if first then dest else dest + ", ", raw[1..], true);
        TemplateArgs(t.dest, t.src, false)
      else if raw[0] == 'V' then
        var t := NextType(if first then dest else dest + ", ", raw[1..], true);
        if !t.src.At? then t
        else
          var v := TemplateValue(t.dest + " ", t.src.rest);
          TemplateArgs(v.dest, v.src, false)
      else if raw[0] == 'Z' then Parsed(dest, Null)
      else if raw[0] == 'a' then TemplateArgs(dest + "char", At(raw[1..]), first)
      else if raw[0] == 'u' then TemplateArgs(dest + "wchar", At(raw[1..]), first)
      else if raw[0] == 'w' then TemplateArgs(dest + "dchar", At(raw[1..]), first)
      else Bug(dest, BUG_IN_TEMPLATE, raw)
  }

  /** An integer, null or character literal; anything else ends the arguments. */
  function TemplateValue(dest: string, raw: string): (r: Parsed)
    ensures Left(r.src) <= |raw|
  {
    if StartsDigit(raw) then IntegerText(dest, raw)
    else if raw == "" then Bug(dest, BUG_IN_TEMPLATE, raw)
    else if raw[0] == 'N' then IntegerText(dest + "-", raw[1..])
    else if raw[0] == 'n' then Parsed(dest + "null", At(raw[1..]))
    else if raw[0] in {'a', 'w', 'd'} then CharText(dest, raw[1..])
    else if raw[0] in {'e', 'c'} then Parsed(dest, Unmodelled)
    else Bug(dest, BUG_IN_TEMPLATE, raw)
  }

  function IntegerText(dest: string, raw: string): (r: Parsed)
    ensures Left(r.src) <= |raw|
  {
    var end := ReadNumber(raw, 0).rest;
    Parsed(dest + raw[..|raw| - |end|], At(end))
  }

  /** The characters of a literal in hexadecimal, behind their number and an underscore. */
  function CharText(dest: string, raw: string): (r: Parsed)
    ensures Left(r.src) <= |raw|
  {
    if !StartsDigit(raw) then Bug(dest, BUG_IN_TEMPLATE, raw)
    else
      var n := ReadNumber(raw, 0);
      if n.rest == "" || n.rest[0] != '_' then Bug(dest, BUG_IN_TEMPLATE, n.rest)
      else HexText(dest + "\"", n.rest[1..], n.value)
  }

  function HexText(dest: string, raw: string, n: nat): (r: Parsed)
    ensures Left(r.src) <= |raw|
    decreases n
  {
    if n == 0 then Parsed(dest + "\"", At(raw))
    else if |raw| < 2 then Parsed(dest, Overrun)
    else if HexChar(raw[0], raw[1]) == '\0' then Parsed(dest, Unmodelled)
    else HexText(dest + [HexChar(raw[0], raw[1])], raw[2..], n - 1)
  }

  predicate IsHex(c: char) { IsDigit(c) || 'a' <= c <= 'f' || 'A' <= c <= 'F' }

  function HexValue(c: char): (v: nat)
    requires IsHex(c)
    ensures v < 16
  {
    if 'a' <= c <= 'f' then (c as int) - ('a' as int) + 10
    else if 'A' <= c <= 'F' then (c as int) - ('A' as int) + 10
    else DigitValue(c)
  }

  function HexChar(a: char, b: char): char {
    if IsHex(a) && IsHex(b) then (16 * HexValue(a) + HexValue(b)) as char else '?'
  }

  // ----- symbols -----

  /** Symbols nested in the demangled one. */
  function NestedSymbols(dest: string, src: Src): Parsed
    decreases Left(src)
  {
    if !src.At? || src.rest == "" then Parsed(dest, src)
    else
      var t := NextType("", src.rest, false);
      NestedSymbols(dest + "." + t.dest, t.src)
  }

  /** The demangled symbol; `None` if the text is not a D symbol. */
  function DemangleD(s: string): Option<Parsed> {
    if IsSymbol(s) then
      var t := NextType("", s[2..], false);
      Some(NestedSymbols(t.dest, t.src))
    else None
  }
}
