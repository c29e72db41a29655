/** Reading the memory of a dead process out of its core file. */
module CoreFiles {
  import opened Basics

  /** A segment begins at `offs` in the core; only the first `fsize` of its `msize` bytes are dumped. */
  datatype Segment = Segment(offs: nat, msize: nat, fsize: nat, executable: bool, filename: string)

  datatype Entry = Entry(base: nat, seg: Segment)

  /** Segments are kept in the order of their addresses. A file that cannot be opened throws. */
  datatype Core = Core(segs: seq<Entry>, core: Bytes, procname: string, file: string -> Option<Bytes>)

  predicate Sorted(segs: seq<Entry>) {
    forall i, j :: 0 <= i < j < |segs| ==> segs[i].base < segs[j].base
  }

  // ----- which segment -----

  /** The segment with the greatest base that is not above the address. */
  predicate IsAt(segs: seq<Entry>, addr: nat, k: nat) {
    && k < |segs| && segs[k].base <= addr
    && forall i :: 0 <= i < |segs| && segs[i].base <= addr ==> segs[i].base <= segs[k].base
  }

  method FindSegment(segs: seq<Entry>, addr: nat) returns (found: Option<nat>)
    requires Sorted(segs)
    ensures found.Some? ==> IsAt(segs, addr, found.value)
    ensures found.None? <==> forall i :: 0 <= i < |segs| ==> segs[i].base > addr
  {
    var at := LowerBound(segs, addr);
    if at == |segs| || segs[at].base != addr {
      if at == 0 {
        return None;
      }
      at := at - 1;
    }
    return Some(at);
  }

  lemma OnlyOneAt(segs: seq<Entry>, addr: nat, found: nat)
    requires Sorted(segs) && IsAt(segs, addr, found)
    ensures forall k: nat :: IsAt(segs, addr, k) ==> k == found
  {
  }

  /** The first segment whose base is not below the address. */
  method LowerBound(segs: seq<Entry>, addr: nat) returns (at: nat)
    requires Sorted(segs)
    ensures at <= |segs| && (at < |segs| ==> segs[at].base >= addr)
    ensures forall i :: 0 <= i < at ==> segs[i].base < addr
  {
    at := 0;
    while at < |segs| && segs[at].base < addr
      invariant 0 <= at <= |segs|
      invariant forall i :: 0 <= i < at ==> segs[i].base < addr
    {
      at := at + 1;
    }
  }

  // ----- reading -----

  /** The buffer after a read and the number of bytes the read claims. */
  datatype Outcome = Threw | Read(buf: Bytes, count: nat)

  function Min(a: nat, b: nat): nat { if a <= b then a else b }

  /** What a file has at an offset, at most `n` bytes of it. */
  function Chunk(b: Bytes, offs: nat, n: nat): Bytes {
    if offs >= |b| then [] else b[offs..offs + Min(n, |b| - offs)]
  }

  /** Bytes put at the front of a buffer. */
  function Put(buf: Bytes, b: Bytes): Bytes
    requires |b| <= |buf|
  {
    b + buf[|b|..]
  }

  /** How much of a read of `len` bytes at `offs` lies in the segment. */
  function InSegment(seg: Segment, offs: nat, len: nat): nat {
    if offs + len <= seg.msize then len else if offs < seg.msize then seg.msize - offs else 0
  }

  /** How much of that was dumped. */
  function Dumped(seg: Segment, offs: nat, n: nat): nat {
    if offs < seg.fsize then Min(n, seg.fsize - offs) else 0
  }

  function NameOf(c: Core, seg: Segment): string {
    if seg.filename == "" then c.procname else seg.filename
  }

  /** Executable memory that was not dumped at all is read from the program's file. */
  predicate FromImage(seg: Segment) {
    seg.fsize == 0 && seg.msize != 0 && seg.executable
  }

  function ReadImage(c: Core, seg: Segment, offs: nat, n: nat, buf: Bytes): Outcome
    requires n <= |buf|
  {
    var name := NameOf(c, seg);
    if name == "" then Read(buf, 0)
    else
      match c.file(name)
      case None => Threw
      case Some(b) => Read(Put(buf, Chunk(b, offs, n)), |Chunk(b, offs, n)|)
  }

  /** The part behind what was dumped: from the file from the beginning of the read, then zeros. */
  function ReadRest(c: Core, name: string, offs: nat, n: nat, dumped: nat, buf: Bytes): Outcome
    requires dumped < n <= |buf|
  {
    if name == "" then Read(buf[..dumped] + Zeros(n - dumped) + buf[n..], n)
    else
      match c.file(name)
      case None => Threw
      case Some(b) =>
        var k := Chunk(b, offs, n);
        Read(k + Zeros(n - |k|) + buf[n..], dumped + n)
  }

  function ReadDumped(c: Core, seg: Segment, offs: nat, n: nat, buf: Bytes): Outcome
    requires n <= |buf|
  {
    var dumped := Dumped(seg, offs, n);
    var b := Chunk(c.core, seg.offs + offs, dumped);
    if dumped > 0 && |b| != dumped then Threw
    else
      var buf1 := if dumped > 0 then Put(buf, b) else buf;
      if n > dumped then ReadRest(c, NameOf(c, seg), offs, n, dumped, buf1) else Read(buf1, dumped)
  }

  function ReadAt(c: Core, seg: Segment, offs: nat, buf: Bytes): Outcome {
    var n := InSegment(seg, offs, |buf|);
    if offs + |buf| > seg.msize && offs >= seg.msize then Read(buf, 0)
    else if FromImage(seg) then ReadImage(c, seg, offs, n, buf)
    else ReadDumped(c, seg, offs, n, buf)
  }

  // ----- a simple memory map -----

  /** What the process had at an offset of a segment with no file behind it. */
  function ByteAt(c: Core, seg: Segment, offs: nat): Byte {
    if offs < seg.fsize && seg.offs + offs < |c.core| then c.core[seg.offs + offs] else 0
  }

  /** The core has all that its headers say was dumped. */
  predicate Whole(c: Core, seg: Segment) {
    seg.offs + seg.fsize <= |c.core|
  }

  /** The first `n` bytes of a buffer are the memory at an offset. */
  ghost predicate Shows(c: Core, seg: Segment, offs: nat, n: nat, buf: Bytes) {
    n <= |buf| && forall i :: 0 <= i < n ==> buf[i] == ByteAt(c, seg, offs + i)
  }

  /** A read of dumped bytes, or of a segment with no file, shows the memory up to the segment's end. */
  lemma ReadShowsMemory(c: Core, seg: Segment, offs: nat, buf: Bytes)
    requires Whole(c, seg) && (seg.fsize != 0 || seg.msize == 0 || !seg.executable)
    requires NameOf(c, seg) == "" || offs + InSegment(seg, offs, |buf|) <= seg.fsize
    ensures var n := InSegment(seg, offs, |buf|);
      var r := ReadAt(c, seg, offs, buf);
      && r.Read? && r.count == n && |r.buf| == |buf|
      && Shows(c, seg, offs, n, r.buf) && r.buf[n..] == buf[n..]
  {
  }

  /**
   * Executable memory that was not dumped shows the file it was mapped from, or the program's if the
   * segment has no name, as far as the file and the segment go; without a name it shows nothing, and
   * without the file the read throws.
   */
  lemma ImageShowsFile(c: Core, seg: Segment, offs: nat, buf: Bytes)
    requires seg.executable && seg.fsize == 0 && seg.msize != 0
    requires offs < seg.msize || (offs == seg.msize && |buf| == 0)
    ensures var n := Min(|buf|, seg.msize - offs);
      var name := if seg.filename != "" then seg.filename else c.procname;
      var r := ReadAt(c, seg, offs, buf);
      && (name == "" ==> r == Read(buf, 0))
      && (name != "" && c.file(name) == None ==> r == Threw)
      && (name != "" && c.file(name).Some? ==>
            var b := c.file(name).value;
            && r.Read? && r.count == (if offs >= |b| then 0 else Min(n, |b| - offs)) && |r.buf| == |buf|
            && (forall i :: 0 <= i < r.count ==> r.buf[i] == b[offs + i])
            && forall i :: r.count <= i < |buf| ==> r.buf[i] == buf[i])
  {
  }

  /** Behind the segment's end nothing is read, and no file is needed for it. */
  lemma NothingBehindEnd(c: Core, seg: Segment, offs: nat, buf: Bytes)
    requires offs > seg.msize || (offs == seg.msize && |buf| > 0)
    ensures ReadAt(c, seg, offs, buf) == Read(buf, 0)
  {
  }

  /**
   * A read throws exactly if the core is too short for the dumped bytes wanted, or there are more and
   * the file they would come from cannot be opened.
   */
  lemma ThrowsIff(c: Core, seg: Segment, offs: nat, buf: Bytes)
    requires seg.fsize != 0 || seg.msize == 0 || !seg.executable
    ensures var n := InSegment(seg, offs, |buf|);
      var dumped := Dumped(seg, offs, n);
      ReadAt(c, seg, offs, buf).Threw? <==>
        || (dumped > 0 && seg.offs + offs + dumped > |c.core|)
        || (dumped < n && NameOf(c, seg) != "" && c.file(NameOf(c, seg)) == None)
  {
  }

  /** A read that begins in what was dumped and ends behind it, in a segment with a file. */
  predicate Straddles(c: Core, seg: Segment, offs: nat, n: nat) {
    NameOf(c, seg) != "" && 0 < Dumped(seg, offs, n) < n
  }

  /** The bytes claimed are the bytes read exactly if the read does not straddle; dumped ones count twice. */
  lemma CountIff(c: Core, seg: Segment, offs: nat, buf: Bytes)
    requires (seg.fsize != 0 || seg.msize == 0 || !seg.executable) && ReadAt(c, seg, offs, buf).Read?
    ensures var n := InSegment(seg, offs, |buf|);
      && (ReadAt(c, seg, offs, buf).count == n <==> !Straddles(c, seg, offs, n))
      && (Straddles(c, seg, offs, n) ==> ReadAt(c, seg, offs, buf).count == n + Dumped(seg, offs, n))
  {
  }

  /** In a straddling read the file's bytes, from the offset on, stand where the dumped ones should. */
  lemma StraddlingShowsFile(c: Core, seg: Segment, offs: nat, buf: Bytes, b: Bytes)
    requires (seg.fsize != 0 || seg.msize == 0 || !seg.executable) && Whole(c, seg)
    requires Straddles(c, seg, offs, InSegment(seg, offs, |buf|))
    requires c.file(NameOf(c, seg)) == Some(b)
    ensures var n := InSegment(seg, offs, |buf|);
      var r := ReadAt(c, seg, offs, buf);
      r.Read? && forall i :: 0 <= i < n ==> i < |r.buf| && r.buf[i] == if offs + i < |b| then b[offs + i] else 0
  {
  }

  /** The checked read refuses unless it was told exactly as many bytes as it wanted. */
  function ReadExactly(c: Core, seg: Segment, offs: nat, buf: Bytes): Outcome {
    var r := ReadAt(c, seg, offs, buf);
    if r.Read? && r.count != |buf| then Threw else r
  }

  /**
   * In a segment with a whole core and a file that opens, the checked read succeeds exactly if it
   * stays inside the segment without straddling, or straddles and leaves the segment by exactly the
   * number of bytes counted twice.
   */
  lemma ReadExactlyIff(c: Core, seg: Segment, offs: nat, buf: Bytes)
    requires (seg.fsize != 0 || seg.msize == 0 || !seg.executable) && Whole(c, seg)
    requires (NameOf(c, seg) != "" ==> c.file(NameOf(c, seg)).Some?)
    ensures var n := InSegment(seg, offs, |buf|);
      ReadExactly(c, seg, offs, buf).Read? <==>
        if Straddles(c, seg, offs, n) then n + Dumped(seg, offs, n) == |buf| else n == |buf|
  {
  }

  // ----- the read in place -----

  ghost predicate Gives(r: Outcome, ok: bool, buf: Bytes, count: nat) {
    if ok then r == Read(buf, count) else r == Threw
  }

  /** Fill the caller's buffer from the segment that the address lies in. */
  method ReadBuf(c: Core, addr: nat, buf: array<Byte>) returns (ok: bool, count: nat)
    requires Sorted(c.segs)
    modifies buf
    ensures forall k: nat :: IsAt(c.segs, addr, k) ==>
      Gives(ReadAt(c, c.segs[k].seg, addr - c.segs[k].base, old(buf[..])), ok, buf[..], count)
    ensures (forall i :: 0 <= i < |c.segs| ==> c.segs[i].base > addr) ==> ok && count == 0 && buf[..] == old(buf[..])
  {
    var found := FindSegment(c.segs, addr);
    if found.None? {
      return true, 0;
    }
    var e := c.segs[found.value];
    OnlyOneAt(c.segs, addr, found.value);
    ok, count := ReadFrom(c, e.seg, addr - e.base, buf);
    forall k: nat | IsAt(c.segs, addr, k)
      ensures Gives(ReadAt(c, c.segs[k].seg, addr - c.segs[k].base, old(buf[..])), ok, buf[..], count)
    {
      assert k == found.value;
    }
  }

  method ReadFrom(c: Core, seg: Segment, offs: nat, buf: array<Byte>) returns (ok: bool, count: nat)
    modifies buf
    ensures Gives(ReadAt(c, seg, offs, old(buf[..])), ok, buf[..], count)
  {
    ok, count := true, 0;
    var n := buf.Length;
    if offs + n > seg.msize {
      if seg.msize <= offs {
        return;
      }
      n := seg.msize - offs;
    }
    var name := NameOf(c, seg);
    if FromImage(seg) {
      if name != "" {
        ok, count := FromFile(c, name, offs, n, buf);
      }
      return;
    }
    ok, count := FromDump(c, seg, offs, n, buf);
  }

  method FromDump(c: Core, seg: Segment, offs: nat, n: nat, buf: array<Byte>) returns (ok: bool, count: nat)
    requires n <= buf.Length
    modifies buf
    ensures Gives(ReadDumped(c, seg, offs, n, old(buf[..])), ok, buf[..], count)
  {
    ok, count := true, 0;
    var dumped := Dumped(seg, offs, n);
    if dumped > 0 {
      var b := Chunk(c.core, seg.offs + offs, dumped);
      if |b| != dumped {
        return false, 0;
      }
      Fill(buf, 0, b);
      count := dumped;
    }
    ghost var now := buf[..];
    if n > dumped {
      ok, count := Rest(c, NameOf(c, seg), offs, n, dumped, buf);
    }
    DumpGives(c, seg, offs, n, old(buf[..]), now, ok, buf[..], count);
  }

  lemma DumpGives(c: Core, seg: Segment, offs: nat, n: nat, was: Bytes, now: Bytes, ok: bool, end: Bytes, count: nat)
    requires n <= |was| == |now|
    requires var dumped := Dumped(seg, offs, n);
      var b := Chunk(c.core, seg.offs + offs, dumped);
      && (if dumped > 0 then |b| == dumped && now == was[..0] + b + was[0 + |b|..] else now == was)
      && (if n > dumped then Gives(ReadRest(c, NameOf(c, seg), offs, n, dumped, now), ok, end, count)
          else ok && end == now && count == dumped)
    ensures Gives(ReadDumped(c, seg, offs, n, was), ok, end, count)
  {
    var b := Chunk(c.core, seg.offs + offs, Dumped(seg, offs, n));
    if Dumped(seg, offs, n) > 0 { assert now == Put(was, b); }
  }

  method Rest(c: Core, name: string, offs: nat, n: nat, dumped: nat, buf: array<Byte>) returns (ok: bool, count: nat)
    requires dumped < n <= buf.Length
    modifies buf
    ensures Gives(ReadRest(c, name, offs, n, dumped, old(buf[..])), ok, buf[..], count)
  {
    ok, count := true, dumped;
    var k := dumped;
    ghost var was := buf[..];
    if name != "" {
      ok, k := FromFile(c, name, offs, n, buf);
      if !ok {
        return;
      }
      count := count + k;
    }
    ghost var now := buf[..];
    Fill(buf, k, Zeros(n - k));
    count := count + (n - k);
    RestGives(c, name, offs, n, dumped, was, now, buf[..]);
  }

  lemma RestGives(c: Core, name: string, offs: nat, n: nat, dumped: nat, was: Bytes, now: Bytes, end: Bytes)
    requires dumped < n <= |was| && (name != "" ==> c.file(name).Some?)
    requires now == if name == "" then was else Put(was, Chunk(c.file(name).value, offs, n))
    requires var k := if name == "" then dumped else |Chunk(c.file(name).value, offs, n)|;
      end == now[..k] + Zeros(n - k) + now[k + |Zeros(n - k)|..]
    ensures Gives(ReadRest(c, name, offs, n, dumped, was), true, end, if name == "" then n else dumped + n)
  {
    if name != "" { FrontAndEnd(was, Chunk(c.file(name).value, offs, n), n); }
  }

  lemma FrontAndEnd(buf: Bytes, k: Bytes, n: nat)
    requires |k| <= n <= |buf|
    ensures Put(buf, k)[..|k|] == k && Put(buf, k)[n..] == buf[n..]
  {
  }

  method FromFile(c: Core, name: string, offs: nat, n: nat, buf: array<Byte>) returns (ok: bool, count: nat)
    requires n <= buf.Length
    modifies buf
    ensures ok == c.file(name).Some?
    ensures ok ==> var k := Chunk(c.file(name).value, offs, n); count == |k| && buf[..] == Put(old(buf[..]), k)
    ensures !ok ==> buf[..] == old(buf[..])
  {
    var b := c.file(name);
    if b.None? {
      return false, 0;
    }
    var k := Chunk(b.value, offs, n);
    Fill(buf, 0, k);
    return true, |k|;
  }

  method Fill(buf: array<Byte>, at: nat, b: Bytes)
    requires at + |b| <= buf.Length
    modifies buf
    ensures buf[..] == old(buf[..])[..at] + b + old(buf[..])[at + |b|..]
  {
    var i := 0;
    while i < |b|
      invariant 0 <= i <= |b|
      invariant forall k :: 0 <= k < i ==> buf[at + k] == b[k]
      invariant forall k :: 0 <= k < buf.Length && !(at <= k < at + i) ==> buf[k] == old(buf[k])
    {
      buf[at + i] := b[i];
      i := i + 1;
    }
    Filled(old(buf[..]), at, b, buf[..]);
  }

  lemma Filled(was: Bytes, at: nat, b: Bytes, now: Bytes)
    requires at + |b| <= |was| == |now|
    requires forall k :: 0 <= k < |b| ==> now[at + k] == b[k]
    requires forall k :: 0 <= k < |was| && !(at <= k < at + |b|) ==> now[k] == was[k]
    ensures now == was[..at] + b + was[at + |b|..]
  {
    forall k | 0 <= k < |was| ensures now[k] == (was[..at] + b + was[at + |b|..])[k] {
      if at <= k < at + |b| { assert now[at + (k - at)] == b[k - at]; }
    }
  }
}
