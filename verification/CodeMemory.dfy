/** Code memory of the debuggee, byte by byte, and the words the debugger peeks and pokes. */
module CodeMemory {
  import opened Basics

  /** A machine word in memory order: its bytes at increasing addresses. */
  type Word = w: seq<Byte> | |w| == 8 witness [0, 0, 0, 0, 0, 0, 0, 0]

  type Image = seq<Byte>

  const WORD_SIZE := 8
  const ZERO_WORD: Word := [0, 0, 0, 0, 0, 0, 0, 0]

  /** The one-byte x86 trap instruction. */
  const BREAK_OPCODE: Byte := 0xCC

  predicate Mapped(mem: Image, addr: nat) {
    addr + WORD_SIZE <= |mem|
  }

  function ReadWord(mem: Image, addr: nat): (w: Word)
    requires Mapped(mem, addr)
    ensures forall j :: 0 <= j < WORD_SIZE ==> w[j] == mem[addr + j]
  {
    mem[addr..addr + WORD_SIZE]
  }

  function WriteWord(mem: Image, addr: nat, w: Word): (r: Image)
    requires Mapped(mem, addr)
    ensures |r| == |mem|
    ensures forall i :: 0 <= i < |mem| ==> r[i] == if addr <= i < addr + WORD_SIZE then w[i - addr] else mem[i]
  {
    mem[..addr] + w + mem[addr + WORD_SIZE..]
  }

  /** The last word of the code can be accessed, and one that lacks a byte cannot. */
  lemma LastWord(mem: Image, w: Word)
    ensures Mapped(mem + w, |mem|) && ReadWord(mem + w, |mem|) == w
    ensures !Mapped(mem + w[..7], |mem|)
  {
  }

  /** The word with its first byte replaced by the trap instruction. */
  function TrapForm(w: Word): (t: Word)
    ensures t[0] == BREAK_OPCODE && t[1..] == w[1..]
  {
    w[0 := BREAK_OPCODE]
  }

  /** An image with a trap at every site of a set. */
  ghost predicate Overlaid(mem: Image, image: Image, sites: set<nat>) {
    && |mem| == |image|
    && forall i: nat {:trigger mem[i]} {:trigger image[i]} :: i < |image| ==>
      mem[i] == if i in sites then BREAK_OPCODE else image[i]
  }

  /** Any two sites are at least one word apart. */
  ghost predicate Separated(sites: set<nat>) {
    forall a, b :: a in sites && b in sites && a < b ==> a + WORD_SIZE <= b
  }

  /** A site that no other site of the set comes near. */
  ghost predicate Apart(a: nat, sites: set<nat>) {
    forall b :: b in sites && b != a ==> a + WORD_SIZE <= b || b + WORD_SIZE <= a
  }
}
