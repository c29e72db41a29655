/**
 * The demangler itself: recursive descent over a text and a position, printing into buffer objects
 * as it goes. Every routine prints and stops as its function says, and a position it returns is in
 * the same text, behind the one it was given.
 */
module Demangler {
  import opened Basics
  import opened DBuffer
  import Spec = DemangleSpec

  /** A pointer into the text; `Undefined` once a read behind the end or a skipped literal was met. */
  datatype Ptr = Null | At(pos: nat) | Undefined

  /** The pointer and the function's result agree on `text`, at or behind `from`. */
  ghost predicate Agrees(p: Ptr, text: string, from: nat, src: Spec.Src) {
    match p
    case Null => src == Spec.Null
    case At(i) => from <= i <= |text| && src == Spec.At(text[i..])
    case Undefined => src.Stuck()
  }

  /** A routine has parsed: the text printed and the pointer are those of the function. */
  ghost predicate Did(p: Ptr, text: string, from: nat, dest: string, r: Spec.Parsed) {
    Agrees(p, text, from, r.src) && (p != Undefined ==> dest == r.dest)
  }

  ghost function ToSrc(p: Ptr, text: string): Spec.Src
    requires p.At? ==> p.pos <= |text|
  {
    match p case Null => Spec.Null case At(i) => Spec.At(text[i..]) case Undefined => Spec.Overrun
  }

  /** The decimal number at a position, digit by digit. */
  method ReadNumber(text: string, pos: nat) returns (value: nat, end: nat)
    requires pos <= |text|
    ensures pos <= end <= |text| && Spec.ReadNumber(text[pos..], 0) == Spec.Number(value, text[end..])
    ensures pos < |text| && Spec.IsDigit(text[pos]) ==> pos < end
  {
    value, end := 0, pos;
    while end < |text| && Spec.IsDigit(text[end])
      invariant pos <= end <= |text|
      invariant Spec.ReadNumber(text[pos..], 0) == Spec.ReadNumber(text[end..], value)
      invariant pos < |text| && Spec.IsDigit(text[pos]) && end == pos ==> value == 0
    {
      assert text[end..][1..] == text[end + 1..];
      value, end := 10 * value + Spec.DigitValue(text[end]), end + 1;
    }
  }

  lemma {:induction false} SkipSpacesIsSuffix(s: string)
    ensures s[|s| - |Spec.SkipSpaces(s)|..] == Spec.SkipSpaces(s)
    decreases |s|
  {
    if s != "" && Spec.IsSpace(s[0]) {
      SkipSpacesIsSuffix(s[1..]);
      assert s[1..][|s[1..]| - |Spec.SkipSpaces(s)|..] == s[|s| - |Spec.SkipSpaces(s)|..];
    }
  }

  lemma {:induction false} NumberIsSuffix(s: string, v: nat)
    ensures s[|s| - |Spec.ReadNumber(s, v).rest|..] == Spec.ReadNumber(s, v).rest
    decreases |s|
  {
    if Spec.StartsDigit(s) {
      var v' := 10 * v + Spec.DigitValue(s[0]);
      NumberIsSuffix(s[1..], v');
      var n := |Spec.ReadNumber(s[1..], v').rest|;
      assert s[1..][|s[1..]| - n..] == s[|s| - n..];
    }
  }

  lemma StrToLIsSuffix(s: string)
    ensures s[|s| - |Spec.StrToL(s).rest|..] == Spec.StrToL(s).rest
  {
    var t := Spec.SkipSpaces(s);
    SkipSpacesIsSuffix(s);
    var signed := t != "" && (t[0] == '-' || t[0] == '+');
    var u := if signed then t[1..] else t;
    NumberIsSuffix(u, 0);
    var n := |Spec.ReadNumber(u, 0).rest|;
    assert u[|u| - n..] == t[|t| - n..] == s[|s| - n..];
  }

  method NextType(dest: DString, text: string, src: Ptr, nested: bool) returns (p: Ptr)
    requires dest.Valid() && (src.At? ==> src.pos <= |text|)
    modifies dest, dest.str
    ensures dest.Valid() && (dest.str == old(dest.str) || fresh(dest.str))
    ensures src.At? ==> Did(p, text, src.pos + 1, dest.Contents(),
      Spec.NextType(old(dest.Contents()), text[src.pos..], nested))
    ensures !src.At? ==> p == src && dest.Contents() == old(dest.Contents())
    decreases if src.At? then |text| - src.pos else 0, 5
  {
    if !src.At? || src.pos == |text| {
      return if src.At? then Null else src;
    }
    var pos := src.pos;
    if Spec.IsSymbol(text[pos..]) {
      var tmp := new DString();
      assert text[pos..][2..] == text[pos + 2..];
      p := NextType(tmp, text, At(pos + 2), false);
      if dest.used > 0 {
        dest.AppendC('.');
      }
      dest.AppendN(tmp.str[..tmp.used]);
      return;
    }
    p := TypeBody(dest, text, pos, nested);
  }

  /** Show the rest of the text as it is. */
  method PrintBug(dest: DString, mark: string, s: string)
    requires dest.Valid()
    modifies dest, dest.str
    ensures dest.Valid() && (dest.str == old(dest.str) || fresh(dest.str))
    ensures dest.Contents() == Spec.Bug(old(dest.Contents()), mark, s).dest
  {
    dest.AppendN(mark);
    dest.AppendN(s);
    dest.AppendC('}');
  }

  /** Skip the marks of a hidden `this` parameter, then look at the letter. */
  method TypeBody(dest: DString, text: string, pos: nat, nested: bool) returns (p: Ptr)
    requires dest.Valid() && pos <= |text|
    modifies dest, dest.str
    ensures dest.Valid() && (dest.str == old(dest.str) || fresh(dest.str))
    ensures Did(p, text, pos + 1, dest.Contents(), Spec.TypeBody(old(dest.Contents()), text[pos..], nested, false))
    decreases |text| - pos, 4
  {
    var i, hasThis := pos, false;
    ghost var d := dest.Contents();
    ghost var whole := Spec.TypeBody(d, text[pos..], nested, false);
    while i < |text| && text[i] == 'M'
      invariant pos <= i <= |text|
      invariant whole == Spec.TypeBody(d, text[i..], nested, hasThis)
      modifies {}
    {
      assert text[i..][1..] == text[i + 1..];
      ThisSpec(d, text[i..], nested, hasThis);
      i, hasThis := i + 1, true;
    }
    if i == |text| {
      PrintBug(dest, Spec.BUG_IN_TYPE, "");
      return Null;
    }
    p := TypeAt(dest, text, i, nested, hasThis);
  }

  lemma ThisSpec(dest: string, s: string, nested: bool, hasThis: bool)
    requires s != "" && s[0] == 'M'
    ensures Spec.TypeBody(dest, s, nested, hasThis) == Spec.TypeBody(dest, s[1..], nested, true)
  {
  }

  /** What the letter at a position announces. */
  method TypeAt(dest: DString, text: string, pos: nat, nested: bool, hasThis: bool) returns (p: Ptr)
    requires dest.Valid() && pos < |text| && text[pos] != 'M'
    modifies dest, dest.str
    ensures dest.Valid() && (dest.str == old(dest.str) || fresh(dest.str))
    ensures Did(p, text, pos + 1, dest.Contents(), Spec.TypeBody(old(dest.Contents()), text[pos..], nested, hasThis))
    decreases |text| - pos, 3
  {
    assert text[pos..][0] == text[pos] && text[pos..][1..] == text[pos + 1..];
    match Spec.Classify(text[pos]) {
      case BasicType =>
        dest.NestpendN(Spec.BasicName(text[pos]), nested);
        p := At(pos + 1);
      case DynamicArray => p := ArrayType(dest, text, pos + 1, nested);
      case FixedArray => p := StaticArrayType(dest, text, pos + 1, nested);
      case AssocArray => p := AssocType(dest, text, pos + 1, nested);
      case DelegateType => p := SignatureType(dest, text, pos + 1, None, nested, hasThis);
      case PointerType =>
        if Spec.StartsFunction(text[pos + 1..]) {
          p := SignatureType(dest, text, pos + 1, Some(""), nested, hasThis);
        } else {
          p := PointedType(dest, text, pos + 1, nested);
        }
      case ConstType => p := PrefixedType(dest, text, pos, nested, hasThis);
      case InvariantType => p := PrefixedType(dest, text, pos, nested, hasThis);
      case StorageClass => p := PrefixedType(dest, text, pos, nested, hasThis);
      case _ => p := OtherTypeAt(dest, text, pos, nested, hasThis);
    }
  }

  /** Qualifiers go to the front of the whole text, storage classes to its end. */
  method PrefixedType(dest: DString, text: string, pos: nat, nested: bool, hasThis: bool) returns (p: Ptr)
    requires dest.Valid() && pos < |text|
    requires Spec.Classify(text[pos]) in {Spec.ConstType, Spec.InvariantType, Spec.StorageClass}
    modifies dest, dest.str
    ensures dest.Valid() && (dest.str == old(dest.str) || fresh(dest.str))
    ensures Did(p, text, pos + 1, dest.Contents(), Spec.TypeBody(old(dest.Contents()), text[pos..], nested, hasThis))
    decreases |text| - pos, 2
  {
    assert text[pos..][0] == text[pos] && text[pos..][1..] == text[pos + 1..];
    if Spec.Classify(text[pos]) == Spec.StorageClass {
      dest.AppendN(Spec.StorageName(text[pos]));
      p := NextType(dest, text, At(pos + 1), true);
    } else {
      dest.PrependN(if Spec.Classify(text[pos]) == Spec.ConstType then "const " else "invariant ");
      p := NextType(dest, text, At(pos + 1), nested);
    }
  }

  method OtherTypeAt(dest: DString, text: string, pos: nat, nested: bool, hasThis: bool) returns (p: Ptr)
    requires dest.Valid() && pos < |text|
    requires Spec.Classify(text[pos]) in
      {Spec.Aggregate, Spec.NameLength, Spec.FunctionType, Spec.TupleType, Spec.Dot, Spec.Unknown}
    modifies dest, dest.str
    ensures dest.Valid() && (dest.str == old(dest.str) || fresh(dest.str))
    ensures Did(p, text, pos + 1, dest.Contents(), Spec.TypeBody(old(dest.Contents()), text[pos..], nested, hasThis))
    decreases |text| - pos, 2, 1
  {
    assert text[pos..][0] == text[pos] && text[pos..][1..] == text[pos + 1..];
    var kind := Spec.Classify(text[pos]);
    if kind.Aggregate? {
      if nested {
        p := NextType(dest, text, At(pos + 1), true);
      } else {
        p := AggregateType(dest, text, pos + 1);
      }
    } else if kind.NameLength? {
      if nested {
        p := QualifiedName(dest, text, pos);
      } else {
        p := NamedSymbol(dest, text, pos);
      }
    } else {
      p := LastTypeAt(dest, text, pos, nested, hasThis);
    }
  }

  lemma LastTypeSpec(dest: string, s: string, nested: bool, hasThis: bool)
    requires s != "" && Spec.Classify(s[0]) in {Spec.FunctionType, Spec.TupleType, Spec.Dot, Spec.Unknown}
    ensures Spec.TypeBody(dest, s, nested, hasThis) ==
      match Spec.Classify(s[0])
      case FunctionType =>
        if nested then Spec.Function(dest, s, Some(""), true, hasThis)
        else Spec.Function("", s, Some(dest), false, hasThis)
      case TupleType => Spec.TupleOf(dest, s[1..])
      case _ =>
        if s[0] == '.' && Spec.StartsLength(s[1..]) then Spec.Parsed(dest, Spec.Null)
        else Spec.Bug(dest, Spec.BUG_IN_TYPE, s)
  {
  }

  method LastTypeAt(dest: DString, text: string, pos: nat, nested: bool, hasThis: bool) returns (p: Ptr)
    requires dest.Valid() && pos < |text|
    requires Spec.Classify(text[pos]) in {Spec.FunctionType, Spec.TupleType, Spec.Dot, Spec.Unknown}
    modifies dest, dest.str
    ensures dest.Valid() && (dest.str == old(dest.str) || fresh(dest.str))
    ensures Did(p, text, pos + 1, dest.Contents(), Spec.TypeBody(old(dest.Contents()), text[pos..], nested, hasThis))
    decreases |text| - pos, 2, 0
  {
    assert text[pos..][0] == text[pos] && text[pos..][1..] == text[pos + 1..];
    LastTypeSpec(dest.Contents(), text[pos..], nested, hasThis);
    var kind := Spec.Classify(text[pos]);
    if kind.FunctionType? {
      if nested {
        p := Function(dest, text, pos, Some(""), true, hasThis);
      } else {
        var id := dest.str[..dest.used];
        dest.Clear();
        p := Function(dest, text, pos, Some(id), false, hasThis);
      }
    } else if kind.TupleType? {
      p := TupleOf(dest, text, pos + 1);
    } else {
      if text[pos] != '.' || !Spec.StartsLength(text[pos + 1..]) {
        PrintBug(dest, Spec.BUG_IN_TYPE, text[pos..]);
      }
      p := Null;
    }
  }

  method ArrayType(dest: DString, text: string, pos: nat, nested: bool) returns (p: Ptr)
    requires dest.Valid() && pos <= |text|
    modifies dest, dest.str
    ensures dest.Valid() && (dest.str == old(dest.str) || fresh(dest.str))
    ensures Did(p, text, pos + 1, dest.Contents(), Spec.ArrayType(old(dest.Contents()), text[pos..], nested))
    decreases |text| - pos, 6
  {
    if !nested {
      dest.PrependN("[] ");
    }
    p := NextType(dest, text, At(pos), nested);
    if nested {
      dest.AppendN("[]");
    }
  }

  method StaticArrayType(dest: DString, text: string, pos: nat, nested: bool) returns (p: Ptr)
    requires dest.Valid() && pos <= |text|
    modifies dest, dest.str
    ensures dest.Valid() && (dest.str == old(dest.str) || fresh(dest.str))
    ensures Did(p, text, pos + 1, dest.Contents(), Spec.StaticArrayType(old(dest.Contents()), text[pos..], nested))
    decreases |text| - pos, 6
  {
    var value, end := ReadNumber(text, pos);
    var size := text[pos..end];
    assert text[pos..][..end - pos] == size;
    if !nested {
      PrependSize(dest, size);
    }
    p := NextType(dest, text, At(end), nested);
    if nested {
      AppendSize(dest, size);
    }
  }

  method PrependSize(dest: DString, size: string)
    requires dest.Valid()
    modifies dest, dest.str
    ensures dest.Valid() && (dest.str == old(dest.str) || fresh(dest.str))
    ensures dest.Contents() == "[" + size + "] " + old(dest.Contents())
  {
    dest.PrependN("] ");
    dest.PrependN(size);
    dest.PrependN("[");
    RegroupFour("[", size, "] ", old(dest.Contents()));
  }

  lemma RegroupFour(a: string, b: string, c: string, d: string)
    ensures a + (b + (c + d)) == a + b + c + d
  {
  }

  method AppendSize(dest: DString, size: string)
    requires dest.Valid()
    modifies dest, dest.str
    ensures dest.Valid() && (dest.str == old(dest.str) || fresh(dest.str))
    ensures dest.Contents() == old(dest.Contents()) + "[" + size + "]"
  {
    dest.AppendC('[');
    dest.AppendN(size);
    dest.AppendC(']');
  }

  method AssocType(dest: DString, text: string, pos: nat, nested: bool) returns (p: Ptr)
    requires dest.Valid() && pos <= |text|
    modifies dest, dest.str
    ensures dest.Valid() && (dest.str == old(dest.str) || fresh(dest.str))
    ensures Did(p, text, pos + 1, dest.Contents(), Spec.AssocType(old(dest.Contents()), text[pos..], nested))
    decreases |text| - pos, 7
  {
    var aa := new DString();
    p := NextType(aa, text, At(pos), true);
    aa.PrependN("[");
    aa.AppendC(']');
    p := NextType(aa, text, p, false);
    dest.NestpendN(aa.str[..aa.used], nested);
  }

  method SignatureType(dest: DString, text: string, pos: nat, name: Option<string>, nested: bool, hasThis: bool)
    returns (p: Ptr)
    requires dest.Valid() && pos <= |text|
    modifies dest, dest.str
    ensures dest.Valid() && (dest.str == old(dest.str) || fresh(dest.str))
    ensures Did(p, text, pos + 1, dest.Contents(),
      Spec.SignatureType(old(dest.Contents()), text[pos..], name, nested, hasThis))
    decreases |text| - pos, 6
  {
    var sig := new DString();
    p := Function(sig, text, pos, name, false, hasThis);
    dest.NestpendN(sig.str[..sig.used], nested);
  }

  method PointedType(dest: DString, text: string, pos: nat, nested: bool) returns (p: Ptr)
    requires dest.Valid() && pos <= |text|
    modifies dest, dest.str
    ensures dest.Valid() && (dest.str == old(dest.str) || fresh(dest.str))
    ensures Did(p, text, pos + 1, dest.Contents(), Spec.PointedType(old(dest.Contents()), text[pos..], nested))
    decreases |text| - pos, 6
  {
    if !nested {
      dest.PrependN("* ");
    }
    p := NextType(dest, text, At(pos), nested);
    if nested {
      dest.AppendN(" *");
    }
  }

  method AggregateType(dest: DString, text: string, pos: nat) returns (p: Ptr)
    requires dest.Valid() && pos <= |text|
    modifies dest, dest.str
    ensures dest.Valid() && (dest.str == old(dest.str) || fresh(dest.str))
    ensures Did(p, text, pos + 1, dest.Contents(), Spec.AggregateType(old(dest.Contents()), text[pos..]))
    decreases |text| - pos, 6
  {
    var sig := new DString();
    p := NextType(sig, text, At(pos), false);
    sig.AppendC(' ');
    dest.PrependN(sig.str[..sig.used]);
  }

  // ----- names -----

  method NamedSymbol(dest: DString, text: string, pos: nat) returns (p: Ptr)
    requires dest.Valid() && pos < |text| && Spec.StartsLength(text[pos..])
    modifies dest, dest.str
    ensures dest.Valid() && (dest.str == old(dest.str) || fresh(dest.str))
    ensures Did(p, text, pos + 1, dest.Contents(), Spec.NamedSymbol(old(dest.Contents()), text[pos..]))
    decreases |text| - pos, 1
  {
    var q := QualifiedName(dest, text, pos);
    p := NextType(dest, text, q, false);
  }

  method QualifiedName(dest: DString, text: string, pos: nat) returns (p: Ptr)
    requires dest.Valid() && pos < |text| && Spec.StartsLength(text[pos..])
    modifies dest, dest.str
    ensures dest.Valid() && (dest.str == old(dest.str) || fresh(dest.str))
    ensures Did(p, text, pos + 1, dest.Contents(), Spec.QualifiedName(old(dest.Contents()), text[pos..], true))
    decreases |text| - pos, 0
  {
    var i, first := pos, true;
    while Spec.StartsLength(text[i..])
      invariant pos <= i <= |text| && (first ==> i == pos) && (!first ==> pos < i)
      invariant dest.Valid() && (dest.str == old(dest.str) || fresh(dest.str))
      invariant Spec.QualifiedName(dest.Contents(), text[i..], first) ==
        Spec.QualifiedName(old(dest.Contents()), text[pos..], true)
      decreases |text| - i
    {
      var length, id := ReadNumber(text, i);
      if !first {
        dest.AppendC('.');
      }
      first := false;
      var done;
      p, done := NamePart(dest, text, id, length);
      if done {
        return;
      }
      i := p.pos;
    }
    p := At(i);
  }

  /** One identifier; `done` if the name cannot go on behind it. */
  method NamePart(dest: DString, text: string, id: nat, length: nat) returns (p: Ptr, done: bool)
    requires dest.Valid() && id <= |text|
    modifies dest, dest.str
    ensures dest.Valid() && (dest.str == old(dest.str) || fresh(dest.str))
    ensures done ==> Did(p, text, id, dest.Contents(), Spec.NamePart(old(dest.Contents()), text[id..], length))
    ensures !done ==>
      && p.At? && id <= p.pos <= |text|
      && Spec.NamePart(old(dest.Contents()), text[id..], length) ==
        Spec.QualifiedName(dest.Contents(), text[p.pos..], false)
    decreases |text| - id, 9
  {
    if length > |text| - id {
      return Undefined, true;
    }
    assert text[id..][length..] == text[id + length..] && text[id..][..length] == text[id..id + length];
    if length >= 5 && Spec.IsTemplate(text[id..]) {
      assert text[id..][3..length] == text[id + 3..id + length];
      var ok := InterpreteTemplate(dest, text[id + 3..id + length]);
      if !ok {
        return Undefined, true;
      }
    } else if length == 11 && Spec.StaticName(text[id..]) != "" {
      assert text[id..][14..] == text[id + 14..];
      dest.PrependN("static void ");
      dest.AppendN(Spec.StaticName(text[id..]));
      return At(id + 14), true;
    } else {
      dest.AppendN(Spec.PlainName(text[id..id + length]));
    }
    return At(id + length), false;
  }

  // ----- tuples -----

  method TupleOf(dest: DString, text: string, pos: nat) returns (p: Ptr)
    requires dest.Valid() && pos <= |text|
    modifies dest, dest.str
    ensures dest.Valid() && (dest.str == old(dest.str) || fresh(dest.str))
    ensures Did(p, text, pos, dest.Contents(), Spec.TupleOf(old(dest.Contents()), text[pos..]))
    decreases |text| - pos, 8
  {
    dest.AppendN("Tuple[");
    var n := Spec.StrToL(text[pos..]);
    StrToLIsSuffix(text[pos..]);
    var start := |text| - |n.rest|;
    assert n.rest == text[start..];
    p := TupleElements(dest, text, start, n.value);
    dest.AppendN("]");
  }

  method TupleElements(dest: DString, text: string, pos: nat, count: int) returns (p: Ptr)
    requires dest.Valid() && pos <= |text|
    modifies dest, dest.str
    ensures dest.Valid() && (dest.str == old(dest.str) || fresh(dest.str))
    ensures Did(p, text, pos, dest.Contents(), Spec.TupleElements(old(dest.Contents()), Spec.At(text[pos..]), count))
    decreases |text| - pos, 7
  {
    p := At(pos);
    var n := count;
    while n > 0
      invariant dest.Valid() && (dest.str == old(dest.str) || fresh(dest.str))
      invariant p != Undefined && (p.At? ==> pos <= p.pos <= |text|)
      invariant Spec.TupleElements(dest.Contents(), ToSrc(p, text), n) ==
        Spec.TupleElements(old(dest.Contents()), Spec.At(text[pos..]), count)
      decreases n
    {
      p := TupleElement(dest, text, p);
      if p == Undefined {
        return;
      }
      if n > 1 {
        dest.AppendN(", ");
      }
      n := n - 1;
    }
  }

  /** One element, through a buffer of its own. */
  method TupleElement(dest: DString, text: string, src: Ptr) returns (p: Ptr)
    requires dest.Valid() && src != Undefined && (src.At? ==> src.pos <= |text|)
    modifies dest, dest.str
    ensures dest.Valid() && (dest.str == old(dest.str) || fresh(dest.str))
    ensures var t := Spec.NextTypeAt("", ToSrc(src, text), true);
      && Agrees(p, text, if src.At? then src.pos + 1 else 0, t.src)
      && (p != Undefined ==> dest.Contents() == old(dest.Contents()) + t.dest)
    decreases if src.At? then |text| - src.pos else 0, 6
  {
    var element := new DString();
    p := NextType(element, text, src, true);
    dest.AppendN(element.str[..element.used]);
  }

  // ----- functions -----

  method Function(dest: DString, text: string, pos: nat, name: Option<string>, nested: bool, hasThis: bool)
    returns (p: Ptr)
    requires dest.Valid() && pos <= |text|
    modifies dest, dest.str
    ensures dest.Valid() && (dest.str == old(dest.str) || fresh(dest.str))
    ensures Did(p, text, pos + 1, dest.Contents(),
      Spec.Function(old(dest.Contents()), text[pos..], name, nested, hasThis))
    decreases |text| - pos, 1
  {
    if pos == |text| {
      return Undefined;
    }
    assert text[pos..][1..] == text[pos + 1..];
    var param := new DString();
    var ret := new DString();
    var ended;
    p, ended := AllParams(param, text, pos + 1);
    if ended {
      p := NextType(ret, text, p, true);
    }
    if p != Undefined {
      PrintSignature(dest, ret.str[..ret.used], name, nested, param.str[..param.used], hasThis);
    }
  }

  method AllParams(param: DString, text: string, pos: nat) returns (p: Ptr, ended: bool)
    requires param.Valid() && param.Contents() == "" && pos <= |text|
    modifies param, param.str
    ensures param.Valid() && (param.str == old(param.str) || fresh(param.str))
    ensures var r := Spec.AllParams(text[pos..]);
      && Agrees(p, text, pos, r.src)
      && (p != Undefined ==> ended == r.ended && param.Contents() == r.text) && (ended ==> p.At?)
    decreases |text| - pos, 8
  {
    ended := false;
    if pos < |text| && text[pos] == 'Z' {
      assert text[pos..][1..] == text[pos + 1..];
      return At(pos + 1), true;
    }
    if pos < |text| && text[pos] == 'Y' {
      assert text[pos..][1..] == text[pos + 1..];
      param.AppendN("...");
      return At(pos + 1), true;
    }
    p := NextType(param, text, At(pos), true);
    if p != Undefined {
      p, ended := MoreParams(param, text, p);
    }
  }

  /** The parameters behind the first one. */
  method MoreParams(param: DString, text: string, start: Ptr) returns (p: Ptr, ended: bool)
    requires param.Valid() && start != Undefined && (start.At? ==> start.pos <= |text|)
    modifies param, param.str
    ensures param.Valid() && (param.str == old(param.str) || fresh(param.str))
    ensures var r := Spec.MoreParams(old(param.Contents()), ToSrc(start, text));
      && Agrees(p, text, if start.At? then start.pos else 0, r.src)
      && (p != Undefined ==> ended == r.ended && param.Contents() == r.text) && (ended ==> p.At?)
    decreases if start.At? then |text| - start.pos else 0, 7
  {
    p, ended := start, false;
    while p.At? && p.pos < |text| && text[p.pos] != 'Z'
      invariant param.Valid() && (param.str == old(param.str) || fresh(param.str))
      invariant p != Undefined && (p.At? ==> start.At? && start.pos <= p.pos <= |text|)
      invariant Spec.MoreParams(old(param.Contents()), ToSrc(start, text)) ==
        Spec.MoreParams(param.Contents(), ToSrc(p, text))
      decreases if p.At? then |text| - p.pos else 0
    {
      var i := p.pos;
      assert text[i..][0] == text[i] && text[i..][1..] == text[i + 1..];
      if text[i] == 'Y' || text[i] == 'X' {
        param.AppendN(if text[i] == 'Y' then ", ..." else " ...");
        return At(i + 1), true;
      }
      param.AppendN(", ");
      p := NextType(param, text, p, true);
      if p == Undefined {
        return;
      }
    }
    if p.At? && p.pos < |text| {
      assert text[p.pos..][0] == text[p.pos] && text[p.pos..][1..] == text[p.pos + 1..];
      p, ended := At(p.pos + 1), true;
    }
  }

  method PrintSignature(dest: DString, ret: string, name: Option<string>, nested: bool, params: string, hasThis: bool)
    requires dest.Valid()
    modifies dest, dest.str
    ensures dest.Valid() && (dest.str == old(dest.str) || fresh(dest.str))
    ensures dest.Contents() == Spec.Signature(old(dest.Contents()), ret, name, nested, params, hasThis)
  {
    if name.None? {
      dest.AppendN(ret);
      dest.AppendN(" delegate");
    } else if name.value == "" {
      dest.AppendN(ret);
      dest.AppendN(" function");
    } else if !nested {
      dest.PrependN(" ");
      dest.PrependN(ret);
      dest.AppendN(name.value);
    } else {
      dest.AppendN(ret);
      dest.AppendC(' ');
      dest.AppendN(name.value);
    }
    PrintParams(dest, params, hasThis);
  }

  method PrintParams(dest: DString, params: string, hasThis: bool)
    requires dest.Valid()
    modifies dest, dest.str
    ensures dest.Valid() && (dest.str == old(dest.str) || fresh(dest.str))
    ensures dest.Contents() == Spec.WithParams(old(dest.Contents()), params, hasThis)
  {
    if params != "" {
      dest.AppendC('(');
      dest.AppendN(params);
      if hasThis {
        dest.AppendN(", this");
      }
      dest.AppendC(')');
    } else if hasThis {
      dest.AppendN("(this)");
    } else {
      dest.AppendN("()");
    }
  }

  // ----- templates -----

  /** Print a template instance from a copy of its identifier; false if that is undefined. */
  method InterpreteTemplate(dest: DString, raw: string) returns (ok: bool)
    requires dest.Valid()
    modifies dest, dest.str
    ensures dest.Valid() && (dest.str == old(dest.str) || fresh(dest.str))
    ensures var r := Spec.Template(old(dest.Contents()), raw);
      if ok then r == Spec.Parsed(dest.Contents(), Spec.Null) else r.src.Stuck()
    decreases |raw|, 8
  {
    var i;
    ok, i := TemplateName(dest, raw);
    if !ok {
      return;
    }
    dest.AppendN("!(");
    ok := TemplateArgs(dest, raw, i);
    dest.AppendC(')');
  }

  lemma OneTemplateName(d: string, raw: string, i: nat, id: nat, length: nat)
    requires i <= id && id + length <= |raw| && Spec.StartsLength(raw[i..])
    requires Spec.ReadNumber(raw[i..], 0) == Spec.Number(length, raw[id..])
    ensures Spec.TemplateName(d, raw[i..]) == Spec.TemplateName(d + raw[id..id + length], raw[id + length..])
  {
    assert raw[id..][..length] == raw[id..id + length] && raw[id..][length..] == raw[id + length..];
  }

  method TemplateName(dest: DString, raw: string) returns (ok: bool, i: nat)
    requires dest.Valid()
    modifies dest, dest.str
    ensures dest.Valid() && (dest.str == old(dest.str) || fresh(dest.str))
    ensures var r := Spec.TemplateName(old(dest.Contents()), raw);
      if ok then i <= |raw| && r == Spec.Parsed(dest.Contents(), Spec.At(raw[i..])) else r.src.Stuck()
  {
    i := 0;
    assert raw[0..] == raw;
    ghost var whole := Spec.TemplateName(dest.Contents(), raw);
    while Spec.StartsLength(raw[i..])
      invariant 0 <= i <= |raw|
      invariant dest.Valid() && (dest.str == old(dest.str) || fresh(dest.str))
      invariant whole == Spec.TemplateName(dest.Contents(), raw[i..])
      decreases |raw| - i
    {
      var length, id := ReadNumber(raw, i);
      if length > |raw| - id {
        return false, i;
      }
      OneTemplateName(dest.Contents(), raw, i, id, length);
      dest.AppendN(raw[id..id + length]);
      i := id + length;
    }
    ok := true;
  }

  method TemplateArgs(dest: DString, raw: string, start: nat) returns (ok: bool)
    requires dest.Valid() && start <= |raw|
    modifies dest, dest.str
    ensures dest.Valid() && (dest.str == old(dest.str) || fresh(dest.str))
    ensures var r := Spec.TemplateArgs(old(dest.Contents()), Spec.At(raw[start..]), true);
      ok == !r.src.Stuck() && (ok ==> dest.Contents() == r.dest)
    decreases |raw| - start, 7
  {
    var p, first := At(start), true;
    while p.At? && p.pos < |raw|
      invariant p != Undefined && (p.At? ==> start <= p.pos <= |raw|)
      invariant dest.Valid() && (dest.str == old(dest.str) || fresh(dest.str))
      invariant Spec.TemplateArgs(old(dest.Contents()), Spec.At(raw[start..]), true) ==
        Spec.TemplateArgs(dest.Contents(), ToSrc(p, raw), first)
      decreases if p.At? then |raw| - p.pos else 0
    {
      p, first := TemplateArg(dest, raw, p.pos, first);
      if p == Undefined {
        return false;
      }
    }
    return true;
  }

  /** One argument. */
  method TemplateArg(dest: DString, raw: string, pos: nat, first: bool) returns (p: Ptr, first': bool)
    requires dest.Valid() && pos < |raw|
    modifies dest, dest.str
    ensures dest.Valid() && (dest.str == old(dest.str) || fresh(dest.str))
    ensures p.At? ==> pos < p.pos <= |raw|
    ensures var r := Spec.TemplateArgs(old(dest.Contents()), Spec.At(raw[pos..]), first);
      if p == Undefined then r.src.Stuck() else r == Spec.TemplateArgs(dest.Contents(), ToSrc(p, raw), first')
    decreases |raw| - pos, 6
  {
    assert raw[pos..][0] == raw[pos] && raw[pos..][1..] == raw[pos + 1..];
    p, first' := Null, first;
    if raw[pos] == 'T' || raw[pos] == 'V' {
      first' := false;
      p := TypedArg(dest, raw, pos, first);
    } else if raw[pos] == 'a' {
      dest.AppendN("char");
      p := At(pos + 1);
    } else if raw[pos] == 'u' {
      dest.AppendN("wchar");
      p := At(pos + 1);
    } else if raw[pos] == 'w' {
      dest.AppendN("dchar");
      p := At(pos + 1);
    } else if raw[pos] != 'Z' {
      PrintBug(dest, Spec.BUG_IN_TEMPLATE, raw[pos..]);
    }
  }

  lemma TypedArgSpec(dest: string, raw: string, first: bool)
    requires raw != "" && raw[0] in {'T', 'V'}
    ensures var t := Spec.NextType(if first then dest else dest + ", ", raw[1..], true);
      Spec.TemplateArgs(dest, Spec.At(raw), first) ==
        if raw[0] == 'T' then Spec.TemplateArgs(t.dest, t.src, false)
        else if !t.src.At? then t
        else
          var v := Spec.TemplateValue(t.dest + " ", t.src.rest);
          Spec.TemplateArgs(v.dest, v.src, false)
  {
  }

  /** The type of an argument. */
  method ArgType(dest: DString, raw: string, pos: nat, first: bool) returns (p: Ptr)
    requires dest.Valid() && pos < |raw|
    modifies dest, dest.str
    ensures dest.Valid() && (dest.str == old(dest.str) || fresh(dest.str))
    ensures var d := if first then old(dest.Contents()) else old(dest.Contents()) + ", ";
      Did(p, raw, pos + 2, dest.Contents(), Spec.NextType(d, raw[pos + 1..], true))
    decreases |raw| - pos, 4
  {
    if !first {
      dest.AppendN(", ");
    }
    p := NextType(dest, raw, At(pos + 1), true);
  }

  /** A type, or a type and a value of it. */
  method TypedArg(dest: DString, raw: string, pos: nat, first: bool) returns (p: Ptr)
    requires dest.Valid() && pos < |raw| && raw[pos] in {'T', 'V'}
    modifies dest, dest.str
    ensures dest.Valid() && (dest.str == old(dest.str) || fresh(dest.str))
    ensures p.At? ==> pos < p.pos <= |raw|
    ensures var r := Spec.TemplateArgs(old(dest.Contents()), Spec.At(raw[pos..]), first);
      if p == Undefined then r.src.Stuck() else r == Spec.TemplateArgs(dest.Contents(), ToSrc(p, raw), false)
    decreases |raw| - pos, 5
  {
    assert raw[pos..][0] == raw[pos] && raw[pos..][1..] == raw[pos + 1..];
    TypedArgSpec(dest.Contents(), raw[pos..], first);
    p := ArgType(dest, raw, pos, first);
    if raw[pos] == 'V' && p.At? {
      dest.AppendC(' ');
      p := TemplateValue(dest, raw, p.pos);
    }
  }

  method TemplateValue(dest: DString, raw: string, pos: nat) returns (p: Ptr)
    requires dest.Valid() && pos <= |raw|
    modifies dest, dest.str
    ensures dest.Valid() && (dest.str == old(dest.str) || fresh(dest.str))
    ensures Did(p, raw, pos, dest.Contents(), Spec.TemplateValue(old(dest.Contents()), raw[pos..]))
  {
    if pos < |raw| && Spec.IsDigit(raw[pos]) {
      p := IntegerText(dest, raw, pos);
    } else if pos == |raw| {
      PrintBug(dest, Spec.BUG_IN_TEMPLATE, raw[pos..]);
      p := Null;
    } else {
      assert raw[pos..][1..] == raw[pos + 1..];
      if raw[pos] == 'N' {
        dest.AppendC('-');
        p := IntegerText(dest, raw, pos + 1);
      } else if raw[pos] == 'n' {
        dest.AppendN("null");
        p := At(pos + 1);
      } else if raw[pos] in {'a', 'w', 'd'} {
        p := CharText(dest, raw, pos + 1);
      } else if raw[pos] in {'e', 'c'} {
        p := Undefined;
      } else {
        PrintBug(dest, Spec.BUG_IN_TEMPLATE, raw[pos..]);
        p := Null;
      }
    }
  }

  method IntegerText(dest: DString, raw: string, pos: nat) returns (p: Ptr)
    requires dest.Valid() && pos <= |raw|
    modifies dest, dest.str
    ensures dest.Valid() && (dest.str == old(dest.str) || fresh(dest.str))
    ensures Did(p, raw, pos, dest.Contents(), Spec.IntegerText(old(dest.Contents()), raw[pos..]))
  {
    var value, end := ReadNumber(raw, pos);
    assert raw[pos..][..end - pos] == raw[pos..end];
    dest.AppendN(raw[pos..end]);
    p := At(end);
  }

  method CharText(dest: DString, raw: string, pos: nat) returns (p: Ptr)
    requires dest.Valid() && pos <= |raw|
    modifies dest, dest.str
    ensures dest.Valid() && (dest.str == old(dest.str) || fresh(dest.str))
    ensures Did(p, raw, pos, dest.Contents(), Spec.CharText(old(dest.Contents()), raw[pos..]))
  {
    if pos == |raw| || !Spec.IsDigit(raw[pos]) {
      PrintBug(dest, Spec.BUG_IN_TEMPLATE, raw[pos..]);
      return Null;
    }
    var n, end := ReadNumber(raw, pos);
    if end == |raw| || raw[end] != '_' {
      PrintBug(dest, Spec.BUG_IN_TEMPLATE, raw[end..]);
      return Null;
    }
    assert raw[end..][1..] == raw[end + 1..];
    dest.AppendC('"');
    p := HexText(dest, raw, end + 1, n);
  }

  method HexText(dest: DString, raw: string, pos: nat, n: nat) returns (p: Ptr)
    requires dest.Valid() && pos <= |raw|
    modifies dest, dest.str
    ensures dest.Valid() && (dest.str == old(dest.str) || fresh(dest.str))
    ensures Did(p, raw, pos, dest.Contents(), Spec.HexText(old(dest.Contents()), raw[pos..], n))
  {
    var i: nat, left: nat := pos, n;
    while left > 0
      invariant pos <= i <= |raw| && left <= n
      invariant dest.Valid() && (dest.str == old(dest.str) || fresh(dest.str))
      invariant Spec.HexText(old(dest.Contents()), raw[pos..], n) == Spec.HexText(dest.Contents(), raw[i..], left)
    {
      if |raw| - i < 2 {
        return Undefined;
      }
      assert raw[i..][0] == raw[i] && raw[i..][1] == raw[i + 1] && raw[i..][2..] == raw[i + 2..];
      var c := Spec.HexChar(raw[i], raw[i + 1]);
      if c == '\0' {
        return Undefined;
      }
      dest.AppendC(c);
      i, left := i + 2, left - 1;
    }
    dest.AppendC('"');
    p := At(i);
  }

  // ----- symbols -----

  /** Demangle a symbol and the symbols nested behind it; `None` if it is not one, or undefined. */
  method DemangleD(text: string) returns (r: Option<string>)
    ensures r.Some? ==> Spec.DemangleD(text).Some? && r.value == Spec.DemangleD(text).value.dest
    ensures r.None? <==> Spec.DemangleD(text).None? || Spec.DemangleD(text).value.src.Stuck()
  {
    if !Spec.IsSymbol(text) {
      return None;
    }
    var dest := new DString();
    var p := NextType(dest, text, At(2), false);
    while p.At? && p.pos < |text|
      invariant dest.Valid() && fresh(dest) && fresh(dest.str)
      invariant p.At? ==> p.pos <= |text|
      invariant p.At? ==> Spec.DemangleD(text) == Some(Spec.NestedSymbols(dest.Contents(), Spec.At(text[p.pos..])))
      invariant p.Null? ==> Spec.DemangleD(text) == Some(Spec.NestedSymbols(dest.Contents(), Spec.Null))
      invariant p.Undefined? ==> Spec.DemangleD(text).Some? && Spec.DemangleD(text).value.src.Stuck()
      decreases if p.At? then |text| - p.pos else 0
    {
      var nested := new DString();
      dest.AppendC('.');
      p := NextType(nested, text, p, false);
      dest.AppendN(nested.str[..nested.used]);
    }
    if p == Undefined {
      return None;
    }
    return Some(dest.str[..dest.used]);
  }
}
