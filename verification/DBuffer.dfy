/** The growable character buffer the demangler prints into. */
module DBuffer {

  /** A buffer as a value: its text, its capacity, and how many bytes reallocation has moved so far. */
  datatype Buf = Buf(text: string, cap: nat, moved: nat)

  const INITIAL_CAPACITY := 128

  const EMPTY := Buf("", INITIAL_CAPACITY, 0)

  /** Make room for `n` more characters and the terminator; a reallocation moves the old block. */
  function Reserve(b: Buf, n: nat): Buf {
    var need := |b.text| + n + 1;
    if need > b.cap then b.(cap := need + need / 2, moved := b.moved + b.cap) else b
  }

  datatype Edit = Append(s: string) | Prepend(s: string)

  function Apply(b: Buf, e: Edit): Buf {
    Reserve(b, |e.s|).(text := match e case Append(s) => b.text + s case Prepend(s) => s + b.text)
  }

  function ApplyAll(b: Buf, edits: seq<Edit>): Buf
    decreases |edits|
  {
    if edits == [] then b else ApplyAll(Apply(b, edits[0]), edits[1..])
  }

  /** There is room for the new text and its terminator, half as much again after growing, which moves all there was. */
  lemma ReserveGrows(b: Buf, n: nat)
    ensures var need := |b.text| + n + 1;
      Reserve(b, n) == if need <= b.cap then b else Buf(b.text, need + need / 2, b.moved + b.cap)
  {
  }

  /** The text is terminated within the buffer, and growing has been paid for. */
  ghost predicate Sound(b: Buf) {
    |b.text| < b.cap && b.moved <= 2 * b.cap && b.moved <= 3 * (|b.text| + 1)
  }

  lemma ApplyKeepsSound(b: Buf, e: Edit)
    requires Sound(b)
    ensures Sound(Apply(b, e))
  {
  }

  /** The text in front of and behind the original one that a run of edits adds. */
  function Before(edits: seq<Edit>): string
    decreases |edits|
  {
    if edits == [] then ""
    else if edits[0].Append? then Before(edits[1..])
    else Before(edits[1..]) + edits[0].s
  }

  function After(edits: seq<Edit>): string
    decreases |edits|
  {
    if edits == [] then ""
    else if edits[0].Append? then edits[0].s + After(edits[1..])
    else After(edits[1..])
  }

  lemma InFront(now: string, source: string, text: string)
    requires |source| + |text| <= |now|
    requires forall i :: 0 <= i < |source| ==> now[i] == source[i]
    requires forall i :: 0 <= i < |text| ==> now[|source| + i] == text[i]
    ensures now[..|source| + |text|] == source + text
  {
    forall k | 0 <= k < |source| + |text| ensures now[k] == (source + text)[k] {
      if k >= |source| { assert now[|source| + (k - |source|)] == text[k - |source|]; }
    }
  }

  lemma RegroupFour(a: string, b: string, c: string, d: string)
    ensures a + (b + c) + d == a + b + (c + d) && a + (b + c) + d == (a + b) + c + d
  {
  }

  /**
   * After any run of appends and prepends the text is the prepended parts in reverse order, the old
   * text, and the appended parts in order; and all the reallocations together have moved at most
   * three times as many bytes as the text and its terminator have.
   */
  lemma {:induction false} EditsAreCheap(b: Buf, edits: seq<Edit>)
    requires Sound(b)
    ensures Sound(ApplyAll(b, edits))
    ensures ApplyAll(b, edits).text == Before(edits) + b.text + After(edits)
    decreases |edits|
  {
    if edits == [] {
      assert "" + b.text + "" == b.text;
    } else {
      ApplyKeepsSound(b, edits[0]);
      EditsAreCheap(Apply(b, edits[0]), edits[1..]);
      if edits[0].Append? {
        RegroupFour(Before(edits[1..]), b.text, edits[0].s, After(edits[1..]));
      } else {
        RegroupFour(Before(edits[1..]), edits[0].s, b.text, After(edits[1..]));
      }
    }
  }

  const NUL: char := '\0'

  /** The buffer object: `used` characters in a block, then a terminating zero. */
  class DString {
    var str: array<char>
    var used: nat
    ghost var moved: nat

    ghost predicate Valid()
      reads this, str
    {
      used < str.Length && str[used] == NUL
    }

    ghost function Contents(): string
      requires Valid()
      reads this, str
    {
      str[..used]
    }

    ghost function Value(): Buf
      requires Valid()
      reads this, str
    {
      Buf(Contents(), str.Length, moved)
    }

    constructor ()
      ensures Valid() && Value() == EMPTY && fresh(str)
    {
      str := new char[INITIAL_CAPACITY](_ => NUL);
      used := 0;
      moved := 0;
    }

    /** Reallocate if `n` more characters and the terminator do not fit. */
    method Grow(n: nat)
      requires Valid()
      modifies this`str, this`moved
      ensures str == old(str) || fresh(str)
      ensures Valid() && Value() == Reserve(old(Value()), n) && used + n < str.Length
    {
      var need := used + n + 1;
      if need > str.Length {
        var block := new char[need + need / 2](_ => NUL);
        forall i | 0 <= i < used {
          block[i] := str[i];
        }
        moved := moved + str.Length;
        str := block;
        assert Contents() == old(Contents());
      }
    }

    method AppendN(source: string)
      requires Valid()
      modifies this, str
      ensures Valid() && (str == old(str) || fresh(str))
      ensures Value() == Apply(old(Value()), Append(source))
    {
      Grow(|source|);
      forall i | 0 <= i < |source| {
        str[used + i] := source[i];
      }
      used := used + |source|;
      str[used] := NUL;
      assert Contents() == old(Contents()) + source;
    }

    method AppendC(c: char)
      requires Valid()
      modifies this, str
      ensures Valid() && (str == old(str) || fresh(str))
      ensures Value() == Apply(old(Value()), Append([c]))
    {
      Grow(1);
      str[used] := c;
      used := used + 1;
      str[used] := NUL;
      assert Contents() == old(Contents()) + [c];
    }

    /** Move the text up, then copy the new text in front of it. */
    method PrependN(source: string)
      requires Valid()
      modifies this, str
      ensures Valid() && (str == old(str) || fresh(str))
      ensures Value() == Apply(old(Value()), Prepend(source))
    {
      Grow(|source|);
      ghost var text := Contents();
      forall i | 0 <= i < used {
        str[|source| + i] := str[i];
      }
      forall i | 0 <= i < |source| {
        str[i] := source[i];
      }
      used := used + |source|;
      str[used] := NUL;
      InFront(str[..], source, text);
    }

    method NestpendN(source: string, nested: bool)
      requires Valid()
      modifies this, str
      ensures Valid() && (str == old(str) || fresh(str))
      ensures Contents() == if nested then old(Contents()) + source else source + (" " + old(Contents()))
    {
      if nested {
        AppendN(source);
      } else {
        PrependN(" ");
        PrependN(source);
      }
    }

    /** What the parser does to reuse a buffer. */
    method Clear()
      requires Valid()
      modifies this`used, str
      ensures Valid() && Contents() == ""
    {
      used := 0;
      str[0] := NUL;
    }
  }
}
