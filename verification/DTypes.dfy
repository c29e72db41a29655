/**
 * The types of the D language as trees, how the compiler mangles them ("Name Mangling" in the D
 * language ABI specification), and how the demangler prints them. Both are recursive over the tree and
 * share only the tables of letters with the parser.
 */
module DTypes {
  import opened Basics
  import opened DemangleSpec

  datatype Type =
    | Basic(code: char)
    | Array(elem: Type)
    | StaticArray(size: nat, elem: Type)
    | Assoc(key: Type, value: Type)
    | Pointer(elem: Type)
    | FunctionPointer(fn: Fn)
    | Delegate(fn: Fn)
    | Named(kind: char, name: Name)
    | Stored(storage: char, elem: Type)
    | Tuple(elems: TypeList)

  datatype TypeList = Nil | Cons(head: Type, tail: TypeList)

  /** A qualified name: identifiers and template instances, outermost first. */
  datatype Name = Done | Part(head: NamePart, tail: Name)

  datatype NamePart = Plain(id: string) | Instance(ids: seq<string>, args: Arguments)

  datatype Arguments = NoMore | Argument(head: TemplateArg, tail: Arguments)

  datatype TemplateArg = TypeArg(t: Type) | ValueArg(t: Type, value: Literal)

  datatype Literal = NonNegative(n: nat) | Negative(n: nat) | NullLiteral | Characters(width: char, bytes: Bytes)

  /** `end` closes the parameter list: 'Z' plain, 'Y' C-style variadic, 'X' D-style variadic. */
  datatype Fn = Fn(linkage: char, params: TypeList, end: char, ret: Type)

  function Count(ts: TypeList): nat {
    match ts case Nil => 0 case Cons(_, tail) => 1 + Count(tail)
  }

  // ----- mangling: the text of a tree in front of whatever follows -----

  function Dec(n: nat): (s: string)
    ensures s != "" && forall i :: 0 <= i < |s| ==> IsDigit(s[i])
  {
    var digit := [(n % 10 + '0' as int) as char];
    if n < 10 then digit else Dec(n / 10) + digit
  }

  function Mangled(t: Type, rest: string): string {
    match t
    case Basic(code) => [code] + rest
    case Array(e) => ['A'] + Mangled(e, rest)
    case StaticArray(n, e) => ['G'] + (Dec(n) + Mangled(e, rest))
    case Assoc(k, v) => ['H'] + Mangled(k, Mangled(v, rest))
    case Pointer(e) => ['P'] + Mangled(e, rest)
    case FunctionPointer(f) => ['P'] + MangledFn(f, rest)
    case Delegate(f) => ['D'] + MangledFn(f, rest)
    case Named(kind, name) => [kind] + MangledName(name, rest)
    case Stored(c, e) => [c] + Mangled(e, rest)
    case Tuple(es) => ['B'] + (Dec(Count(es)) + MangledList(es, rest))
  }

  function MangledList(ts: TypeList, rest: string): string {
    match ts case Nil => rest case Cons(t, tail) => Mangled(t, MangledList(tail, rest))
  }

  function MangledFn(f: Fn, rest: string): string {
    match f case Fn(linkage, params, end, ret) => [linkage] + MangledList(params, [end] + Mangled(ret, rest))
  }

  function MangledName(name: Name, rest: string): string {
    match name
    case Done => rest
    case Part(p, tail) => Dec(|PartText(p)|) + (PartText(p) + MangledName(tail, rest))
  }

  /** What the length in front of a part counts. */
  function PartText(p: NamePart): string {
    match p
    case Plain(id) => id
    case Instance(ids, args) => ['_', '_', 'T'] + MangledIds(ids, MangledArgs(args, ['Z']))
  }

  function MangledIds(ids: seq<string>, rest: string): string {
    if ids == [] then rest else Dec(|ids[0]|) + (ids[0] + MangledIds(ids[1..], rest))
  }

  function MangledArgs(args: Arguments, rest: string): string {
    match args
    case NoMore => rest
    case Argument(TypeArg(t), tail) => ['T'] + Mangled(t, MangledArgs(tail, rest))
    case Argument(ValueArg(t, v), tail) => ['V'] + Mangled(t, MangledLiteral(v) + MangledArgs(tail, rest))
  }

  function MangledLiteral(v: Literal): string {
    match v
    case NonNegative(n) => Dec(n)
    case Negative(n) => ['N'] + Dec(n)
    case NullLiteral => ['n']
    case Characters(width, bytes) => [width] + (Dec(|bytes|) + (['_'] + Hex(bytes)))
  }

  /** Two digits for each byte. */
  function Hex(bytes: Bytes): string {
    if bytes == [] then "" else [HexDigit(bytes[0] / 16), HexDigit(bytes[0] % 16)] + Hex(bytes[1..])
  }

  function HexDigit(d: nat): char
    requires d < 16
  {
    "0123456789abcdef"[d]
  }

  // ----- printing -----

  /** A type behind the text `dest`. */
  function Printed(dest: string, t: Type): string
    decreases t, 1
  {
    match t
    case Basic(code) => dest + BasicName(code)
    case Array(e) => Printed(dest, e) + "[]"
    case StaticArray(n, e) => Printed(dest, e) + "[" + Dec(n) + "]"
    case Assoc(k, v) => dest + Around("[" + Printed("", k) + "]", v)
    case Pointer(e) => Printed(dest, e) + " *"
    case FunctionPointer(f) => dest + PrintedFn(f, " function")
    case Delegate(f) => dest + PrintedFn(f, " delegate")
    case Named(_, name) => PrintedName(dest, name, true)
    case Stored(c, e) => Printed(dest + StorageName(c), e)
    case Tuple(es) => PrintedElems(dest + "Tuple[", es) + "]"
  }

  /** A type in front of the name `dest`; storage classes and tuples go behind it all the same. */
  function Around(dest: string, t: Type): string
    decreases t, 1
  {
    match t
    case Basic(code) => BasicName(code) + (" " + dest)
    case Array(e) => Around("[] " + dest, e)
    case StaticArray(n, e) => Around("[" + Dec(n) + "] " + dest, e)
    case Assoc(k, v) => Around("[" + Printed("", k) + "]", v) + (" " + dest)
    case Pointer(e) => Around("* " + dest, e)
    case FunctionPointer(f) => PrintedFn(f, " function") + (" " + dest)
    case Delegate(f) => PrintedFn(f, " delegate") + (" " + dest)
    case Named(_, name) => PrintedName("", name, true) + " " + dest
    case Stored(c, e) => Printed(dest + StorageName(c), e)
    case Tuple(es) => PrintedElems(dest + "Tuple[", es) + "]"
  }

  function PrintedElems(dest: string, ts: TypeList): string
    decreases ts, 1
  {
    match ts
    case Nil => dest
    case Cons(t, Nil) => dest + Printed("", t)
    case Cons(t, tail) => PrintedElems(dest + Printed("", t) + ", ", tail)
  }

  function PrintedFn(f: Fn, word: string): string
    decreases f, 2
  {
    match f case Fn(_, _, _, ret) => Printed("", ret) + word + "(" + ParamText(f) + ")"
  }

  function ParamText(f: Fn): string
    decreases f, 1
  {
    match f case Fn(_, params, end, _) =>
      match params
      case Nil => if end == 'Y' then "..." else ""
      case Cons(t, tail) =>
        MoreText(Printed("", t), tail) + (if end == 'Y' then ", ..." else if end == 'X' then " ..." else "")
  }

  function MoreText(text: string, ts: TypeList): string
    decreases ts, 1
  {
    match ts case Nil => text case Cons(t, tail) => MoreText(Printed(text + ", ", t), tail)
  }

  function PrintedName(dest: string, name: Name, first: bool): string
    decreases name, 1
  {
    match name
    case Done => dest
    case Part(p, tail) => PrintedName(PrintedPart(if first then dest else dest + ".", p), tail, false)
  }

  /** An instance is printed as `name!(int, char[], int -5)`. */
  function PrintedPart(dest: string, p: NamePart): string
    decreases p, 1
  {
    match p
    case Plain(id) => dest + PlainName(id)
    case Instance(ids, args) => PrintedArgs(dest + Joined(ids) + "!(", args, true) + ")"
  }

  function Joined(ids: seq<string>): string {
    if ids == [] then "" else ids[0] + Joined(ids[1..])
  }

  function PrintedArgs(dest: string, args: Arguments, first: bool): string
    decreases args, 1
  {
    match args
    case NoMore => dest
    case Argument(a, tail) => PrintedArgs(PrintedArg(if first then dest else dest + ", ", a), tail, false)
  }

  function PrintedArg(dest: string, a: TemplateArg): string
    decreases a, 1
  {
    match a
    case TypeArg(t) => Printed(dest, t)
    case ValueArg(t, v) => Printed(dest, t) + " " + PrintedLiteral(v)
  }

  function PrintedLiteral(v: Literal): string {
    match v
    case NonNegative(n) => Dec(n)
    case Negative(n) => "-" + Dec(n)
    case NullLiteral => "null"
    case Characters(_, bytes) => "\"" + Chars(bytes) + "\""
  }

  function Chars(bytes: Bytes): string {
    if bytes == [] then "" else [bytes[0] as char] + Chars(bytes[1..])
  }

  // ----- the tables of the D language ABI, which parser and printer share -----

  lemma IntegralNames()
    ensures BasicName('v') == "void" && BasicName('Z') == "const void" && BasicName('b') == "bool"
    ensures BasicName('g') == "byte" && BasicName('h') == "ubyte" && BasicName('s') == "short"
    ensures BasicName('t') == "ushort" && BasicName('i') == "int" && BasicName('k') == "uint"
    ensures BasicName('l') == "long" && BasicName('m') == "ulong"
  {
  }

  lemma FloatingNames()
    ensures BasicName('f') == "float" && BasicName('d') == "double" && BasicName('e') == "real"
    ensures BasicName('o') == "ifloat" && BasicName('p') == "idouble" && BasicName('j') == "ireal"
    ensures BasicName('q') == "cfloat" && BasicName('r') == "cdouble" && BasicName('c') == "creal"
  {
  }

  lemma OtherNames(id: string)
    ensures BasicName('a') == "char" && BasicName('u') == "wchar" && BasicName('w') == "dchar"
    ensures StorageName('J') == "out " && StorageName('K') == "inout " && StorageName('L') == "lazy "
    ensures PlainName("_ctor") == "this" && PlainName("_dtor") == "~this"
    ensures id != "_ctor" && id != "_dtor" ==> PlainName(id) == id
  {
  }

  /** The letters by what they announce. */
  lemma Letters(c: char)
    ensures Classify(c) == BasicType <==>
      c in {'v', 'Z', 'b', 'g', 'h', 's', 't', 'i', 'k', 'l', 'm', 'f', 'd', 'e', 'o', 'p', 'j', 'q', 'r', 'c', 'a',
            'u', 'w'}
    ensures Classify(c) == StorageClass <==> c in {'J', 'K', 'L'}
    ensures Classify(c) == Aggregate <==> c in {'C', 'S', 'E', 'T'}
    ensures Classify(c) == FunctionType <==> c in {'F', 'U', 'W', 'V', 'R'}
    ensures Classify(c) == NameLength <==> '1' <= c <= '9'
  {
  }

  // ----- the trees the compiler mangles -----

  ghost predicate Word(id: string) {
    id != "" && !IsDigit(id[0])
  }

  /** A plain identifier: no template instance, no static constructor or destructor. */
  ghost predicate Identifier(id: string) {
    && Word(id)
    && !(|id| >= 5 && IsTemplate(id))
    && id != "_staticCtor" && id != "_staticDtor"
  }

  ghost predicate QualifiedId(name: Name)
    decreases name, 2
  {
    name.Part? && WellFormedName(name)
  }

  ghost predicate WellFormedName(name: Name)
    decreases name, 1
  {
    match name case Done => true case Part(p, tail) => WellFormedPart(p) && WellFormedName(tail)
  }

  ghost predicate WellFormedPart(p: NamePart)
    decreases p, 1
  {
    match p
    case Plain(id) => Identifier(id)
    case Instance(ids, args) => ids != [] && WellFormedArgs(args) && forall i :: 0 <= i < |ids| ==> Word(ids[i])
  }

  ghost predicate WellFormedLiteral(v: Literal) {
    v.Characters? ==> v.width in {'a', 'w', 'd'} && 0 !in v.bytes
  }

  /** The type of an argument can be told from the value or the argument behind it. */
  ghost predicate WellFormedArgs(args: Arguments)
    decreases args, 1
  {
    match args
    case NoMore => true
    case Argument(TypeArg(t), tail) => WellFormed(t) && EndsBefore(t, Other) && WellFormedArgs(tail)
    case Argument(ValueArg(t, v), tail) =>
      && WellFormed(t) && EndsBefore(t, Following(MangledLiteral(v)))
      && WellFormedLiteral(v) && WellFormedArgs(tail)
  }

  /** What comes behind a type: the digit of a length, a zero, or neither. */
  datatype Follow = Length | Zero | Other

  function Following(rest: string): Follow {
    if StartsLength(rest) then Length else if StartsDigit(rest) then Zero else Other
  }

  /**
   * The end of a type, in nested mode, can be told from what follows: a name would go on with
   * another identifier, an empty tuple's count with another digit, and an associative array whose
   * value is a named type (or an array of, or pointer to one) always reads on.
   */
  predicate EndsBefore(t: Type, follow: Follow)
    decreases t, 1
  {
    match t
    case Basic(_) => true
    case Array(e) => EndsBefore(e, follow)
    case StaticArray(_, e) => EndsBefore(e, follow)
    case Assoc(_, v) => EndsBareBefore(v, follow)
    case Pointer(e) => EndsBefore(e, follow)
    case FunctionPointer(f) => EndsFnBefore(f, follow)
    case Delegate(f) => EndsFnBefore(f, follow)
    case Named(_, _) => follow != Length
    case Stored(_, e) => EndsBefore(e, follow)
    case Tuple(es) => EndsListBefore(es, follow)
  }

  /** The same outside nested mode, where a named type always reads on. */
  predicate EndsBareBefore(t: Type, follow: Follow)
    decreases t, 1
  {
    match t
    case Basic(_) => true
    case Array(e) => EndsBareBefore(e, follow)
    case StaticArray(_, e) => EndsBareBefore(e, follow)
    case Assoc(_, v) => EndsBareBefore(v, follow)
    case Pointer(e) => EndsBareBefore(e, follow)
    case FunctionPointer(f) => EndsFnBefore(f, follow)
    case Delegate(f) => EndsFnBefore(f, follow)
    case Named(_, _) => false
    case Stored(_, e) => EndsBefore(e, follow)
    case Tuple(es) => EndsListBefore(es, follow)
  }

  predicate EndsFnBefore(f: Fn, follow: Follow)
    decreases f, 2
  {
    match f case Fn(_, _, _, ret) => EndsBefore(ret, follow)
  }

  predicate EndsListBefore(ts: TypeList, follow: Follow) {
    match ts
    case Nil => follow == Other
    case Cons(t, Nil) => EndsBefore(t, follow)
    case Cons(_, tail) => EndsListBefore(tail, follow)
  }

  /** The letters are legal, and every type that is not at the very end can be told from what follows it. */
  ghost predicate WellFormed(t: Type)
    decreases t, 1
  {
    match t
    case Basic(code) => Classify(code) == BasicType
    case Array(e) => WellFormed(e)
    case StaticArray(_, e) => WellFormed(e)
    case Assoc(k, v) => WellFormed(k) && EndsBefore(k, Other) && WellFormed(v)
    case Pointer(e) => WellFormed(e)
    case FunctionPointer(f) => WellFormedFn(f)
    case Delegate(f) => WellFormedFn(f)
    case Named(kind, name) => Classify(kind) == Aggregate && QualifiedId(name)
    case Stored(c, e) => Classify(c) == StorageClass && WellFormed(e)
    case Tuple(es) => WellFormedElems(es) && Count(es) <= LONG_MAX
  }

  ghost predicate WellFormedElems(ts: TypeList) {
    match ts
    case Nil => true
    case Cons(t, tail) => WellFormed(t) && (tail.Cons? ==> EndsBefore(t, Other)) && WellFormedElems(tail)
  }

  /** A parameter cannot be the runtime type 'Z', which would end the list. */
  ghost predicate WellFormedParams(ts: TypeList) {
    match ts
    case Nil => true
    case Cons(t, tail) => WellFormed(t) && t != Basic('Z') && EndsBefore(t, Other) && WellFormedParams(tail)
  }

  ghost predicate WellFormedFn(f: Fn)
    decreases f, 2
  {
    match f case Fn(linkage, params, end, ret) =>
      && Classify(linkage) == FunctionType && (end == 'Z' || end == 'Y' || (end == 'X' && params.Cons?))
      && WellFormedParams(params) && WellFormed(ret)
  }
}
