/**
 * The physical layer: one record per patched address, shared by every logical breakpoint there.
 * Reads and writes of the debuggee may fail; whether each of them succeeds is an input.
 */
module PhysicalBreakPoints {
  import opened CodeMemory

  /** The saved code word (all zero means "not read yet") and whether the trap is in place. */
  datatype Physical = Physical(origCode: Word, enabled: bool)

  type PhysicalMap = map<nat, Physical>

  /** The debuggee's code and the records kept about it. */
  datatype Space = Space(mem: Image, phys: PhysicalMap)

  /** Which of the four debuggee accesses of one call succeed. A failed write changes nothing. */
  datatype Io = Io(threadRead: bool, processRead: bool, threadWrite: bool, processWrite: bool)

  const ALL_GOOD := Io(true, true, true, true)

  datatype Outcome = Returned(success: bool) | Threw

  function Enabled(phys: PhysicalMap): set<nat> {
    set a | a in phys && phys[a].enabled
  }

  /** The record that indexing the map yields: a fresh default if there was none. */
  function Record(phys: PhysicalMap, addr: nat): Physical {
    if addr in phys then phys[addr] else Physical(ZERO_WORD, false)
  }

  /** The saved code after the two attempts to read it; `NotFetched` if the call threw. */
  datatype Fetched = NotFetched | Fetched(code: Word)

  function FetchCode(s: Space, addr: nat, io: Io): Fetched {
    var rec := Record(s.phys, addr);
    if rec.origCode != ZERO_WORD then Fetched(rec.origCode)
    else if rec.enabled then NotFetched
    else
      var first := if io.threadRead && Mapped(s.mem, addr) then ReadWord(s.mem, addr) else ZERO_WORD;
      if first != ZERO_WORD then Fetched(first)
      else if io.processRead && Mapped(s.mem, addr) then Fetched(ReadWord(s.mem, addr))
      else NotFetched
  }

  /** Patch or unpatch one address. */
  function EnableSoftware(s: Space, addr: nat, enable: bool, io: Io): (Outcome, Space) {
    var rec := Record(s.phys, addr);
    match FetchCode(s, addr, io)
    case NotFetched => (Threw, s.(phys := s.phys[addr := rec]))
    case Fetched(orig) =>
      var rec' := rec.(origCode := orig);
      var code := if enable then TrapForm(orig) else orig;
      if code == ZERO_WORD || enable == rec.enabled then
        (Returned(true), s.(phys := s.phys[addr := rec']))
      else if (io.threadWrite || io.processWrite) && Mapped(s.mem, addr) then
        (Returned(true), Space(WriteWord(s.mem, addr, code), s.phys[addr := rec'.(enabled := enable)]))
      else
        (Returned(false), s.(phys := s.phys[addr := rec']))
  }

  /**
   * The patch invariant: the code is the original image with a trap at exactly the enabled
   * addresses, and every saved word is the original one.
   */
  ghost predicate Consistent(s: Space, image: Image, sites: set<nat>) {
    && s.phys.Keys <= sites
    && Overlaid(s.mem, image, Enabled(s.phys))
    && forall a :: a in s.phys && (s.phys[a].enabled || s.phys[a].origCode != ZERO_WORD) ==>
         Mapped(image, a) && s.phys[a].origCode == ReadWord(image, a)
  }

  lemma UnpatchedWordIsOriginal(s: Space, image: Image, sites: set<nat>, addr: nat)
    requires Consistent(s, image, sites) && Apart(addr, sites) && addr in sites
    requires addr !in Enabled(s.phys) && Mapped(image, addr)
    ensures ReadWord(s.mem, addr) == ReadWord(image, addr)
  {
  }

  /** The set of patched addresses after a call. */
  function EnabledAfter(before: set<nat>, addr: nat, enable: bool, outcome: Outcome): set<nat> {
    if outcome != Returned(true) then before else if enable then before + {addr} else before - {addr}
  }

  /**
   * Whatever the state, the set of patched addresses changes only if the call returns true, and then as
   * asked; the code changes only with it, and no other record does.
   */
  lemma EnabledAfterCall(s: Space, addr: nat, enable: bool, io: Io)
    ensures var (outcome, s') := EnableSoftware(s, addr, enable, io);
      && Enabled(s'.phys) == EnabledAfter(Enabled(s.phys), addr, enable, outcome)
      && (s'.mem != s.mem ==> Enabled(s'.phys) != Enabled(s.phys))
      && addr in s'.phys && s'.phys == s.phys[addr := s'.phys[addr]]
  {
  }

  lemma FetchedIsOriginal(s: Space, image: Image, sites: set<nat>, addr: nat, io: Io)
    requires Consistent(s, image, sites) && Apart(addr, sites) && addr in sites && FetchCode(s, addr, io).Fetched?
    ensures Mapped(image, addr) && FetchCode(s, addr, io).code == ReadWord(image, addr)
  {
  }

  /**
   * At a site with code a trap can be set if and only if the word was saved before or one of the two
   * ways of reading it works, and one of the two ways of writing it works. The call throws without
   * the former and returns false without the latter.
   */
  lemma PatchSucceedsIff(s: Space, image: Image, sites: set<nat>, addr: nat, io: Io)
    requires Consistent(s, image, sites) && Apart(addr, sites) && addr in sites && addr !in Enabled(s.phys)
    requires Mapped(image, addr) && ReadWord(image, addr) != ZERO_WORD
    ensures var saved := addr in s.phys && s.phys[addr].origCode != ZERO_WORD;
      EnableSoftware(s, addr, true, io).0 ==
        if !saved && !io.threadRead && !io.processRead then Threw
        else Returned(io.threadWrite || io.processWrite)
  {
    UnpatchedWordIsOriginal(s, image, sites, addr);
    assert TrapForm(ReadWord(image, addr))[0] == BREAK_OPCODE;
  }

  /** Taking it out again only takes one of the two ways of writing. */
  lemma UnpatchSucceedsIff(s: Space, image: Image, sites: set<nat>, addr: nat, io: Io)
    requires Consistent(s, image, sites) && addr in Enabled(s.phys) && ReadWord(image, addr) != ZERO_WORD
    ensures EnableSoftware(s, addr, false, io).0 == Returned(io.threadWrite || io.processWrite)
  {
  }

  /** A word of zeros counts as not read, and so is read only if the second way works. */
  lemma ZeroWordIsFetchedIff(s: Space, image: Image, sites: set<nat>, addr: nat, io: Io)
    requires Consistent(s, image, sites) && Apart(addr, sites) && addr in sites && addr !in Enabled(s.phys)
    requires Mapped(image, addr) && ReadWord(image, addr) == ZERO_WORD
    ensures EnableSoftware(s, addr, true, io).0 ==
      if !io.processRead then Threw else Returned(io.threadWrite || io.processWrite)
  {
    UnpatchedWordIsOriginal(s, image, sites, addr);
    assert TrapForm(ReadWord(image, addr))[0] == BREAK_OPCODE;
  }

  /** One call keeps the invariant. */
  lemma EnableSoftwareKeepsConsistent(s: Space, image: Image, sites: set<nat>, addr: nat, enable: bool, io: Io)
    requires Consistent(s, image, sites) && Apart(addr, sites) && addr in sites
    ensures var (outcome, s') := EnableSoftware(s, addr, enable, io);
      && Consistent(s', image, sites)
      && Enabled(s'.phys) == EnabledAfter(Enabled(s.phys), addr, enable, outcome)
  {
    var (outcome, s') := EnableSoftware(s, addr, enable, io);
    EnabledAfterCall(s, addr, enable, io);
    if FetchCode(s, addr, io).Fetched? {
      FetchedIsOriginal(s, image, sites, addr, io);
      if s'.mem != s.mem {
        WriteKeepsOverlay(s, image, sites, addr, enable, s'.mem);
      }
    }
  }

  lemma WriteKeepsOverlay(s: Space, image: Image, sites: set<nat>, addr: nat, enable: bool, mem': Image)
    requires Consistent(s, image, sites) && Apart(addr, sites) && addr in sites && Mapped(image, addr)
    requires mem' == WriteWord(s.mem, addr, if enable then TrapForm(ReadWord(image, addr)) else ReadWord(image, addr))
    ensures Overlaid(mem', image, EnabledAfter(Enabled(s.phys), addr, enable, Returned(true)))
  {
  }
}
