# ZeroBugs in Dafny

Machine-checked models of the parts of the ZeroBugs debugger whose correctness is hardest to see by
reading. `dafny verify dfyconfig.toml` checks the whole project.

**Software breakpoints.** Any number of logical breakpoints, each with a signed enable count, share one
record per address that saves the code word and patches it in the debuggee. The patch invariant holds over
every run of set, enable, disable, remove and thread teardown. The code is restored in every such run
exactly if the breakpoint addresses are at least a word apart, a zero code word cannot be taken back, and
"enabled means patched" holds in every run exactly if no two breakpoints share an address. A fork gives
the child a sound copy, and neither process changes the other's code, records or counts afterwards. On top
of this, a debugged thread that hits breakpoints, runs actions, steps off and re-patches does, over any
number of resumptions, exactly what a description without code and traps says: it executes the original
instructions, once each, and a breakpoint it hits stays patched with count one as long as it has actions. One
that is enabled several times loses an enable with each hit and stops the thread that often in one place.

**D demangler.** The recursive-descent parser that prints while it parses, against a mangler and a printer
of type and name trees. Parsing a mangled type appends its printed form and stops behind it exactly if what follows
cannot be mistaken for a part of it. Names may hold template instances, whose arguments are types, integers,
nulls and character literals; function, variable, static and nested symbols come back as signatures. A type
qualifier is printed where it belongs exactly if nothing, or only the same word, stands in front. Every parsing
function is total and moves strictly forward. All reallocations of the character buffer together move at
most three times the final length plus one.

**Settings streams.** Tagged records with nested objects, written by seeking back to a size field or by
patching a buffer, and read by a receiver that knows some kinds of objects. For any written forest and
any set of known kinds, reading delivers every record once and in order, except that an unknown object
without parts leaves no trace. The receiver counts the head of
an unknown object twice, so an object may lose its last parts to the one around it; the project proves
exactly when. Settings survive any number of load and save sessions, and a receiver that knows every kind
then reads exactly the trees that the others did not understand.

**DWARF.** The location stack machine computes exactly the expression trees that its symbolic run builds,
modulo 2^64, and throws exactly if one of them has no value. The unwinder finds the caller that the frame
rules describe, expressions included; a stack trace shows all of them exactly if no frame has the pc of its caller.

**Worker pool.** Every interleaving of workers, schedulers, cancel and `wait_until_empty`. Whoever waits
for the queue to drain can still return exactly if the queue is empty, or the pool is not cancelled and
has a worker left.

**Smaller parts.** The shared-library closure (exactly the libraries reachable from the program), reads
from core files (exactly when the byte count is right), hit counts of conditional actions over whole runs.

Each part has value-level functions for what the code does, lemmas about them, and classes and methods in
the form of the source, whose postconditions tie the heap to those functions. Places where the code does
not do what its comments or its callers expect are stated as they are, with the exact condition.

## Model

| member | source | states |
|---|---|---|
| CodeMemory.WriteWord | engine/breakpoint_mgr.cpp:82-111 | writing a word changes its eight bytes and no other |
| CodeMemory.LastWord | engine/breakpoint_mgr.cpp:58-76 | the last word of the code can be read and written, one that lacks a byte cannot |
| CodeMemory.TrapForm | target/x86.h:24-42 | the patched word has the trap in its first byte and the original bytes behind it |
| PhysicalBreakPoints.FetchedIsOriginal | engine/breakpoint_mgr.cpp:40-76 | the word a call saves or has saved for a site is the word of the original image, whatever other sites are patched |
| PhysicalBreakPoints.EnabledAfterCall | engine/breakpoint_mgr.cpp:37-114 | in every state and with every failure, the set of patched addresses changes only if the call returns true, and then as asked; the code changes only with it, and no record of another address does |
| PhysicalBreakPoints.PatchSucceedsIff | engine/breakpoint_mgr.cpp:37-114 | a trap is set if and only if the word was saved or one of the two ways of reading works, and one of the two ways of writing works; which of them fails decides between an exception and false |
| PhysicalBreakPoints.UnpatchSucceedsIff | engine/breakpoint_mgr.cpp:82-111 | a trap is taken out if and only if one of the two ways of writing works |
| PhysicalBreakPoints.ZeroWordIsFetchedIff | engine/breakpoint_mgr.cpp:59-76 | code that is all zeros counts as not read: a trap is set there only if the second way of reading works too |
| PhysicalBreakPoints.EnableSoftwareKeepsConsistent | engine/breakpoint_mgr.cpp:37-114 | one call keeps the patch invariant: memory is the image with traps at exactly the enabled sites, saved words are original words |
| LogicalBreakPoints.AdjustKeeps | engine/breakpoint.cpp:146-180 | counting up or down, with failures and exceptions undone, keeps the invariant and adds no trap without a positive count behind it |
| LogicalBreakPoints.CountFollowsOutcome | engine/breakpoint.cpp:146-180 | the count moves by one exactly if the call returns true; only the first enable and the last disable touch the debuggee, and all others succeed |
| LogicalBreakPoints.EnablesNest | engine/breakpoint.cpp:146-180 | enabling an enabled breakpoint any number of times is undone by disabling it as often, whatever accesses fail |
| LogicalBreakPoints.DestroyKeeps | engine/breakpoint.cpp:559-572 | destroying an object leaves every trap wanted by another breakpoint or accounted for as left behind |
| LogicalBreakPoints.SetKeeps | engine/breakpoint_mgr.cpp:535-653 | setting a breakpoint, found or new, with or without a failing enable, keeps soundness |
| LogicalBreakPoints.SetAddsLast | engine/breakpoint.cpp:271-320 | a breakpoint set twice keeps its earlier actions, and a new one comes last |
| LogicalBreakPoints.SetOutcome | engine/breakpoint_mgr.cpp:535-653 | setting a new breakpoint throws exactly if its code cannot be read, leaving only an empty record; otherwise it is there, enabled exactly if its address is now patched |
| LogicalBreakPoints.RemoveKeeps | engine/breakpoint_mgr.cpp:939-962 | removing actions, with the erase of an emptied breakpoint, keeps soundness |
| LogicalBreakPoints.EndsBreakPoint | engine/breakpoint_mgr.cpp:939-962 | removing all actions erases the breakpoint unless disabling it throws, which leaves it without actions but as enabled as it was; exactly when it throws; the teardown of its thread always erases it |
| LogicalBreakPoints.KeepRemovesByName | engine/breakpoint.cpp:335-355 | of a list of actions none of the given name is left, all others are, in their order; with no name given none is left |
| LogicalBreakPoints.TeardownKeeps | engine/breakpoint_mgr.cpp:219-282 | bumping and dropping a breakpoint of a dying thread keeps soundness |
| LogicalBreakPoints.StepKeeps | engine/breakpoint_mgr.cpp:535-653 | every operation on any breakpoint keeps soundness |
| LogicalBreakPoints.RunKeeps | engine/breakpoint.cpp:146-180 | soundness holds after any run of operations by any number of breakpoints, sharing addresses or not |
| LogicalBreakPoints.FreshIsSound | engine/breakpoint_mgr.cpp:118-133 | a process without breakpoints is sound |
| Restoration.PatchedWords | engine/breakpoint_mgr.cpp:37-114 | after any run every word with a record is the trap form of its saved code if marked enabled and the saved code otherwise, and the saved code is the original |
| Restoration.Restored | engine/breakpoint.cpp:164-180 | when no count is positive and no object was destroyed with its count still positive, memory is the original image |
| Restoration.CloseSitesDoNotRestore | engine/breakpoint_mgr.cpp:37-114 | two sites less than a word apart have a run that ends with everything disabled and a trap left in the code |
| Restoration.RestoresIffSeparated | engine/breakpoint_mgr.cpp:37-114 | restoration is guaranteed for every run over a set of sites if and only if they are a word or more apart |
| Restoration.UndoneIffNonZero | engine/breakpoint_mgr.cpp:40-84 | set then disable gives the code back if and only if the original word is not zero; a zero word stays patched with the count at one |
| Restoration.StepArms | engine/breakpoint.cpp:146-180 | with one breakpoint per address every operation keeps each enabled one patched |
| Restoration.RunArms | engine/breakpoint.cpp:146-180 | with one breakpoint per address each enabled one is patched after every run |
| Restoration.SharedRun | engine/breakpoint.cpp:663-691 | two breakpoints on one address have a run after which an enabled one is not patched |
| Restoration.ArmedIffOnePerAddress | engine/breakpoint.cpp:146-180 | "enabled means patched" holds in every run over a set of breakpoints if and only if no two share an address |
| ActionPass.PassExactIffAtMostOne | engine/breakpoint.cpp:416-452 | executing the actions removes exactly those that asked to go if and only if at most one did |
| ActionPass.PassLeaves | engine/breakpoint.cpp:416-452 | any pass, whoever asks to go: the request at an index strikes the action as many places further on as there were requests before it; the pass leaves all others in order, and runs past the end exactly if a request would strike there |
| ActionPass.FewRequests | engine/breakpoint.cpp:416-452 | without a request the list stays as it is, and with one exactly that action goes |
| ActionPass.SecondAskerStays | engine/breakpoint.cpp:423-451 | after one removal the next action that asks to go is still there at the end of the pass |
| Removal.SweepAllConserves | engine/breakpoint_mgr.cpp:966-990 | a sweep in any order returns the drop in the number of actions, leaves no visited breakpoint without actions and takes out the traps of erased ones |
| Removal.ErasedTrapGoesIff | engine/breakpoint_mgr.cpp:939-962 | an erased breakpoint's trap goes if and only if its count was one or two |
| Removal.DropBumped | engine/breakpoint_mgr.cpp:219-282 | bumping then dropping a set of breakpoints in any order leaves code and records untouched and the wanted traps behind |
| BreakPointManagement.BreakPoint.Enable | engine/breakpoint.cpp:146-160 | count and code change as one upward adjustment, failures included |
| BreakPointManagement.BreakPoint.Disable | engine/breakpoint.cpp:164-180 | count and code change as one downward adjustment, failures included |
| BreakPointManagement.BreakPoint.AddAction | engine/breakpoint.cpp:271-318 | an action is appended unless an equal one is there |
| BreakPointManagement.BreakPoint.RemoveActions | engine/breakpoint.cpp:335-355 | the loop that erases while iterating leaves no action of the name and all others in order, all of them gone if there is no name, and counts those erased |
| BreakPointManagement.BreakPoint.ExecuteActions | engine/breakpoint.cpp:416-452 | the pass over the snapshot, with its drifting index, does what the pass function says |
| BreakPointManagement.Manager.EnableSoftwareBreakPoint | engine/breakpoint_mgr.cpp:37-114 | memory and records change as the enable function says, on every failure path |
| BreakPointManagement.Manager.Destroy | engine/breakpoint.cpp:559-572 | the destructor's effect on code and records |
| BreakPointManagement.Manager.SetBreakPoint | engine/breakpoint_mgr.cpp:535-600 | the whole manager after setting a breakpoint, found or created |
| BreakPointManagement.Manager.CreateBreakPoint | engine/breakpoint_mgr.cpp:603-653 | a new breakpoint is enabled before it is entered, and not entered if that fails |
| BreakPointManagement.Manager.RemoveActionsAt | engine/breakpoint_mgr.cpp:939-962 | the whole manager after removing from one breakpoint exactly the actions of the name, with the erase of an emptied breakpoint |
| BreakPointManagement.Manager.RemoveBreakPointActions | engine/breakpoint_mgr.cpp:994-1047 | the manager is what a sweep over the breakpoints visited leaves, also when an exception ends it early; after a normal return the number is the drop in actions over them, and none survives empty; every breakpoint visited has lost exactly the actions of the name, the others none |
| BreakPointManagement.VisitsWhom | engine/breakpoint_mgr.cpp:994-1047 | a sweep visits the global breakpoints, or those of the thread, and with an address only the ones there |
| Removal.SweepRemovesByName | engine/breakpoint_mgr.cpp:994-1047 | after a whole sweep each breakpoint visited is gone, or holds exactly its actions of other names in order; the others are as before |
| Removal.SweepReturnsTrue | engine/breakpoint_mgr.cpp:994-1047 | a sweep throws or succeeds, whatever fails on the way |
| BreakPointManagement.Manager.OnThreadUnmanage | engine/breakpoint_mgr.cpp:237-282 | a thread's breakpoints go, and the last thread's global ones, without a change to code or records |
| BreakPointManagement.Manager.KeepEnabled | engine/breakpoint_mgr.cpp:219-233 | every enabled breakpoint of a map counts one more, and nothing else changes |
| Fork.ChildIsSound | engine/breakpoint_grp.cpp:56-107 | copying the records and cloning every breakpoint in any order gives a child that satisfies the parent's invariant |
| Fork.CloneAllIsExact | engine/breakpoint_grp.cpp:56-107 | the child has every global breakpoint of the parent with its count and actions, in its own thread the first per-thread breakpoint listed at each address, and no others |
| Fork.GroupRunKeeps | engine/breakpoint_grp.cpp:56-107 | every process of every run of forks and operations is sound |
| Fork.GroupRestored | engine/breakpoint_mgr.cpp:156-182 | each process of each run of forks and operations can be restored to the original image |
| Fork.ProcessesAreIndependent | engine/breakpoint_grp.cpp:56-107 | the code, records, counts and action lists of a process end as if the other processes had done nothing |
| Fork.ChildArmedIffNoCollision | engine/breakpoint.cpp:583-597 | a child of a fully patched parent is fully patched if and only if no two threads of the parent have a breakpoint at one address |
| HitCycle.HitIsTransparent | engine/debugger_engine.cpp:1032-1336 | one hit, of the one breakpoint the thread stands on: with actions left the displaced instruction is executed exactly once and that breakpoint ends patched with count one and those actions; with none left it is forgotten, unpatched, and nothing executed; no other breakpoint changes |
| HitCycle.HitLeaves | engine/debugger_engine.cpp:1294-1336 | after a hit the breakpoint holds the actions that no request strikes, at most one having asked, and is forgotten exactly if there are none |
| HitCycle.QuietRunChangesNothing | engine/debugger_engine.cpp:1032-1336 | as long as no action asks to go, any number of resumptions leaves every breakpoint as it was |
| HitCycle.TakenIff | engine/debugger_engine.cpp:1032-1074 | a trap is taken for the global breakpoint at its address if that is enabled, and for the thread's own if there is no global one; a disabled global one hides an enabled own, and a trap not taken changes nothing |
| HitCycle.OwnTrapIsLeft | engine/debugger_engine.cpp:1157-1226 | a trap of the program itself is left to it |
| HitCycle.MovedThreadIsNotStepped | engine/debugger_engine.cpp:1128-1153 | a thread that has been moved off the breakpoint executes nothing when that is enabled again |
| HitCycle.NestedHit | engine/debugger_engine.cpp:1128-1153 | a hit of a breakpoint enabled several times takes one of the enables back for good, with the trap still there and nothing executed |
| HitCycle.EachEnableStopsAgain | engine/debugger_engine.cpp:1032-1336 | such a breakpoint stops the thread once for each of its enables before the instruction is executed |
| HitCycle.ResumeIsTransparent | engine/debugger_engine.cpp:1157-1226 | a resumption, on a trap or not, leaves thread and breakpoints as expected of one that has no traps at all, and the traps are again those of the enabled breakpoints |
| HitCycle.ResumeAllAsTold | engine/debugger_engine.cpp:1157-1226 | any resumption that does what is expected once does so over any number of them |
| HitCycle.DebuggingIsTransparent | engine/debugger_engine.cpp:1032-1336 | for any breakpoints, one per address, and any actions, any number of resumptions leave thread and breakpoints exactly as expected; the thread has executed the original instruction sequence, one instruction per resumption except those that forgot a breakpoint |
| HitCycle.ExpectedRunIsFaithful | engine/debugger_engine.cpp:1157-1336 | what is expected comes to a run of the original program, with the surviving breakpoints as enabled as they were |
| HitCycle.FreshIsDebuggable | engine/breakpoint_mgr.cpp:118-133 | a process without breakpoints meets the hypothesis of the transparency theorem |
| HitCycle.SetIsDebuggable | engine/breakpoint_mgr.cpp:535-653 | setting a breakpoint at a good site without one patches it and keeps that hypothesis |
| DebuggerEngine.Engine.GetBreakPoint | engine/breakpoint_mgr.cpp:286-327 | a global breakpoint is found before an enabled one of the thread's own |
| DebuggerEngine.Engine.TryBreakPoints | engine/debugger_engine.cpp:1032-1074 | pc, breakpoint and queue after a reported trap |
| DebuggerEngine.Engine.ScheduleActions | engine/debugger_engine.cpp:1257-1290 | the breakpoint is disabled and scheduled |
| DebuggerEngine.Engine.ExecuteActions | engine/debugger_engine.cpp:1294-1336 | the actions left are those that no request strikes; the breakpoint is forgotten if there is none, else queued to be enabled |
| DebuggerEngine.Engine.ReenableBreakPoint | engine/debugger_engine.cpp:1128-1153 | the thread steps off the breakpoint before that is enabled |
| DebuggerEngine.Engine.ExecPendingActions | engine/debugger_engine.cpp:1157-1226 | both queues are empty afterwards, and code, breakpoints and thread are as the cycle function says |
| DebuggerEngine.ReplicateBreakPoints | engine/breakpoint_grp.cpp:56-107 | the child's manager is new and holds exactly the clones of the parent's breakpoints, with their counts and actions; nothing of the parent changes |
| DebuggerEngine.CloneBreakPoint | engine/breakpoint_mgr.cpp:156-182 | one clone, merged into what is already there |
| DBuffer.ApplyKeepsSound | demangle_d/string.c:50-110 | an append or a prepend keeps the terminator inside the buffer and the cost paid for |
| DBuffer.ReserveGrows | demangle_d/string.c:38-64 | room for the new text and its terminator, and half as much again after growing; growing moves all there was |
| DBuffer.EditsAreCheap | demangle_d/string.c:38-141 | after any run of edits the text is the concatenation it should be, and reallocation has moved at most three times its length plus one |
| DBuffer.DString.Grow | demangle_d/string.c:50-64 | a reallocation keeps the text and makes room for it and the terminator |
| DBuffer.DString.AppendN | demangle_d/string.c:50-64 | the text grows at its end |
| DBuffer.DString.AppendC | demangle_d/string.c:67-80 | the text grows by one character |
| DBuffer.DString.PrependN | demangle_d/string.c:91-110 | moving the text up and copying in front of it grows it at its beginning |
| DBuffer.DString.NestpendN | demangle_d/string.c:121-134 | nested text goes behind, other text in front with a space |
| DTypes.IntegralNames | demangle_d/parser.c:68-104 | the printed names of the integral types |
| DTypes.FloatingNames | demangle_d/parser.c:105-140 | the printed names of the floating-point types |
| DTypes.OtherNames | demangle_d/parser.c:251-268 | the printed names of character types, storage classes, constructors and destructors |
| DTypes.Letters | demangle_d/parser.c:64-459 | which letters stand for basic types, storage classes, aggregates, functions and lengths |
| DemangleSpec.NextType | demangle_d/parser.c:38-459 | a total function on all texts; a pointer it returns lies strictly further on |
| DemangleSpec.QualifiedName | demangle_d/parser.c:326-389 | a dotted name of length-prefixed parts is parsed on every text, and a pointer returned lies strictly further on |
| DemangleSpec.TupleElements | demangle_d/parser.c:410-437 | a tuple is parsed on every text and for any declared count, never going back |
| DemangleSpec.Function | demangle_d/parser.c:559-649 | a signature is parsed on every text through its parameter loop, and a pointer returned lies strictly further on |
| DemangleSpec.Template | demangle_d/parser.c:652-783 | a template is read from a strictly shorter copy and returns no pointer, on every text |
| DemangleRoundTrip.DecReads | demangle_d/parser.c:177-200 | a decimal length is read back exactly if no digit follows |
| DemangleRoundTrip.NameReads | demangle_d/parser.c:326-389 | a qualified name of identifiers and template instances is printed with dots and ends exactly if no length follows |
| DemangleRoundTrip.InstanceReads | demangle_d/parser.c:344-352 | the mangling of a template instance appends `name!(args)` and the name goes on right behind it |
| DemangleRoundTrip.IdsRead | demangle_d/parser.c:662-670 | the identifiers of an instance are printed one behind the other, up to the arguments |
| DemangleRoundTrip.ArgsRead | demangle_d/parser.c:672-780 | any list of template arguments, types or values with their types, is printed with commas between and read to its end |
| DemangleRoundTrip.LiteralReads | demangle_d/parser.c:691-755 | non-negative and negative integers, null and the characters of a literal come back as mangled, and reading goes on behind them |
| DemangleRoundTrip.HexReads | demangle_d/parser.c:740-750 | characters mangled as two hexadecimal digits each come back as they were |
| DemangleRoundTrip.TypeReads | demangle_d/parser.c:38-459 | in nested mode a mangled type appends its printed form and ends exactly if what follows is not taken for a part of it; at the end of the text the form is right in any case |
| DemangleRoundTrip.TypeReadsBare | demangle_d/parser.c:38-459 | outside nested mode it goes around the text instead, with its own exact ending, and is right at the end of the text in any case |
| DemangleRoundTrip.AssocReads | demangle_d/parser.c:203-216 | an associative array, with the value type that may swallow what follows |
| DemangleRoundTrip.FnReads | demangle_d/parser.c:559-649 | a function type gives its return type, name and parameters, with variadic endings |
| DemangleRoundTrip.TupleReads | demangle_d/parser.c:410-437 | a tuple gives its elements in brackets |
| DemangleRoundTrip.RoundTrip | demangle_d/parser.c:38-459 | the old text is kept, exactly the printed type appended, and exactly the rest returned if and only if the type ends before that rest; at the end of the text the printed type is right for every type |
| DemangleRoundTrip.QualifierInPlaceIff | demangle_d/parser.c:160-168 | a `const` or `invariant` is put in front of all that has been printed, and so stands at its type if and only if that is nothing or the same word repeated |
| DemangleRoundTrip.QualifierStraysToFront | demangle_d/parser.c:160-163 | the second of two parameters being constant, the first is shown as constant |
| DemangleRoundTrip.FunctionSymbol | demangle_d/parser.c:788-834 | every mangled function or method symbol, template instances in its name included, demangles to return type, name and parameters, a method with `this`; the pointer is lost exactly if the return type cannot tell its end |
| DemangleRoundTrip.NestedSymbol | demangle_d/parser.c:817-828 | symbols nested in each other to any depth demangle to their signatures joined by dots |
| DemangleRoundTrip.StaticSymbol | demangle_d/parser.c:357-376 | a static constructor or destructor demangles to its fixed signature behind its qualified name |
| DemangleRoundTrip.EmbeddedSymbol | demangle_d/parser.c:46-60 | a whole symbol in place of a type is printed with a dot in front unless it comes first |
| DemangleRoundTrip.UnknownIsShown | demangle_d/parser.c:441-459 | a text that no type begins with is shown as it is |
| DemangleRoundTrip.DotIsShownIff | demangle_d/parser.c:438-452 | a dot in front of a length ends the text, any other is shown as it is |
| DemangleRoundTrip.LonelyThis | demangle_d/parser.c:64-67 | a mark for `this` with nothing behind it is shown as an error |
| DemangleRoundTrip.NothingToRead | demangle_d/parser.c:44-45 | where a type is missing nothing is printed |
| DemangleRoundTrip.CountReads | demangle_d/parser.c:410-420 | the count of a tuple may carry spaces and a sign, and saturates at 64 bits |
| DemangleRoundTrip.NegativeTuple | demangle_d/parser.c:410-437 | a negative count makes an empty tuple |
| DemangleRoundTrip.TooLong | demangle_d/parser.c:341-345 | a length that goes past the end is where the text can no longer be trusted |
| DemangleRoundTrip.CutSignature | demangle_d/parser.c:575-649 | a parameter list without its end is printed all the same, without a return type |
| DemangleRoundTrip.FunctionAsType | demangle_d/parser.c:390-408 | a function where a type is expected, with or without the mark for `this` |
| DemangleRoundTrip.CharacterArgs | demangle_d/parser.c:758-772 | a letter for a character type in place of an argument is printed, without a comma |
| DemangleRoundTrip.UnknownArgIsShown | demangle_d/parser.c:773-780 | an argument that no letter announces is shown as it is |
| DemangleRoundTrip.UnknownValueIsShown | demangle_d/parser.c:752-779 | a value that no letter announces is shown as it is |
| DemangleRoundTrip.BrokenLiteral | demangle_d/parser.c:730-739 | a character literal without its count or the underscore is shown from there on |
| DemangleRoundTrip.HexCharIs | demangle_d/parser.c:743-748 | digits in either case make a character, anything else a question mark |
| DemangleRoundTrip.VariableSymbol | demangle_d/parser.c:788-834 | every mangled variable symbol demangles to its type and name, with the pointer lost exactly if the type cannot tell its end |
| Demangler.ReadNumber | demangle_d/parser.c:177-200 | the digit loop reads the number of the specification and advances over it |
| Demangler.NextType | demangle_d/parser.c:38-62 | the buffer and the pointer are those of the specification, and the pointer lies further on in the same text |
| Demangler.StaticArrayType | demangle_d/parser.c:177-200 | fixed-size arrays in both modes: buffer and pointer are those of the specification, the pointer further on in the same text |
| Demangler.AssocType | demangle_d/parser.c:203-216 | associative arrays, through a buffer of their own: buffer and pointer are those of the specification |
| Demangler.SignatureType | demangle_d/parser.c:217-250 | delegates and function pointers: buffer and pointer are those of the specification |
| Demangler.QualifiedName | demangle_d/parser.c:326-389 | the name loop does what the recursive specification says |
| Demangler.TupleElements | demangle_d/parser.c:410-437 | the tuple loop does what the recursive specification says |
| Demangler.Function | demangle_d/parser.c:559-649 | signature parsing into two buffers does what the specification says |
| Demangler.MoreParams | demangle_d/parser.c:581-597 | the parameter loop does what the recursive specification says |
| Demangler.InterpreteTemplate | demangle_d/parser.c:652-783 | template printing does what the specification says |
| Demangler.TemplateArgs | demangle_d/parser.c:672-780 | the argument loop does what the recursive specification says |
| Demangler.HexText | demangle_d/parser.c:740-750 | the loop over the characters of a literal does what the recursive specification says |
| Demangler.DemangleD | demangle_d/parser.c:788-834 | the result is the specification's text, and there is none exactly if the text is not a symbol or runs into undefined behaviour |
| StreamFormat.LeRoundTrip | dharma/stream.cpp:42-63 | a number that fits its bytes comes back from them |
| StreamFormat.ObjectIsSane | dharma/stream.cpp:125-143 | every object written in full passes the sanity check for opaque records |
| StreamWriters.FileStream.WriteRecord | dharma/stream.cpp:67-122 | descriptor, name and value go to the position, which ends behind them |
| StreamWriters.FileStream.WriteOpaque | dharma/stream.cpp:125-143 | a record goes out as it is exactly if it is sane, else nothing does |
| StreamWriters.FileStream.WriteObject | dharma/fstream.cpp:99-146 | seeking back patches the object's own placeholder and the position ends at the end, at any depth of nesting |
| StreamWriters.BStream.WriteObject | dharma/bstream.cpp:25-55 | the in-place patch lands on the object's own placeholder at any depth |
| StreamWriters.CStream.WriteObject | dharma/cstream.cpp:104-111 | an object leaves in one piece |
| StreamWriters.StrategiesAgree | dharma/fstream.cpp:99-146 | both ways of patching give identical bytes for every object tree |
| StreamReader.ReadBuffer | dharma/cstream.cpp:71-100 | a raw read delivers all that was asked for, or zeros at the end |
| StreamReader.ReadOne | dharma/stream.cpp:156-268 | reading a record is defined on all bytes; a record consumes and counts at least a descriptor |
| StreamReader.ScalarReads | dharma/stream.cpp:173-245 | a written scalar is delivered and exactly its bytes consumed; a number of the wrong size throws |
| StreamReader.WordReadsIff | dharma/stream.cpp:173-210 | a word is read back if and only if the stream writes 64-bit words; a 32-bit word throws |
| StreamReader.CutIsRefusedIff | dharma/stream.cpp:156-268 | a stream cut off inside a record is refused if and only if the cut is not between two fields; otherwise the missing fields are delivered as zeros |
| StreamReader.CutWordIsZero | dharma/stream.cpp:173-210 | a word whose value is missing is delivered as zero |
| StreamReader.CutObjectIsBoth | dharma/cstream.cpp:115-158 | a known object whose parts are all missing is delivered both without parts and as a record that was not understood |
| StreamTrees.UnknownReads | dharma/cstream.cpp:114-158 | an unknown object is kept byte for byte if it has a body and lost if not, and its head is counted twice |
| StreamTrees.TreeReads | dharma/cstream.cpp:114-158 | on any written tree and any known kinds the byte reader delivers, counts and leaves what the tree reader does |
| StreamTrees.ForestReads | dharma/settings.cpp:50-91 | the loop of an object over its parts delivers, counts and leaves what the tree reader does, and never reads past the parts |
| StreamNesting.LoadReads | engine/debugger_base.cpp:1472-1478 | loading a written stream never throws |
| StreamNesting.NothingIsLost | dharma/cstream.cpp:114-158 | every record that leaves a trace is delivered once, in the order written; only the nesting may change |
| StreamNesting.EveryRecordIff | dharma/cstream.cpp:132-157 | every record written is delivered if and only if no object of unknown kind is without parts |
| StreamNesting.TreeExactIff | dharma/settings.cpp:50-91 | a tree is delivered with its nesting if and only if in every object each part begins before the excess counted so far covers the rest |
| StreamNesting.LoadExactIff | dharma/settings.cpp:50-91 | a whole stream is delivered with its nesting if and only if each of its trees is safe in that sense |
| StreamNesting.PartMovesOut | dharma/cstream.cpp:148-156 | bytes of a known object whose last part is delivered beside it, because an unknown part came before it |
| StreamNesting.RoundTrip | dharma/stream.cpp:156-268 | a forest of known kinds is read back as it was written |
| StreamNesting.RelayKeepsBytes | dharma/stream.cpp:125-143 | any number of receivers hand a safe stream on byte for byte, and who knows every kind then reads the original |
| SettingsStore.LoadUndoesSave | dharma/properties.cpp:182-231 | settings written in any order of their maps load as the same settings |
| SettingsStore.LoadIsSound | dharma/settings.cpp:94-104 | settings loaded from a safe stream are sound and hold the unknown records byte for byte in their order |
| SettingsStore.SessionsKeepSettings | dharma/settings.cpp:107-127 | any number of load and save sessions keeps the settings |
| SettingsStore.RefusedIff | dharma/properties.cpp:131-178 | records are refused exactly if one name is given to objects of different kinds |
| SettingsStore.DeliveredByName | dharma/settings.cpp:32-104 | records that are kept leave under every name the last one of its sort, and all opaque ones in order |
| SettingsOrigins.EncodingIsInjective | dharma/stream.cpp:42-122 | two forests that are written alike are the same |
| SettingsOrigins.OriginIsUnique | dharma/cstream.cpp:134-156 | what is kept of a tree determines the tree |
| SettingsOrigins.KnowingReceiver | dharma/settings.cpp:107-127 | a forest loaded by a receiver that knows some of its kinds goes through any number of sessions; whoever knows all the kinds then reads, in any order of saving, exactly the trees the other did not understand, in their order and behind everything else |
| SettingsStore.LoadIntoIff | engine/debugger_base.cpp:1472-1478 | loading record by record goes to the end exactly if reading does and every record is kept |
| SettingsFile.InputStream.ReadBuffer | dharma/cstream.cpp:71-100 | position and bytes after a raw read |
| SettingsFile.InputStream.Read | dharma/stream.cpp:156-268 | reading at a moving position does what the byte reader does |
| SettingsFile.InputStream.ReadObject | dharma/cstream.cpp:114-158 | events, count and position after the object path, with its opaque fallback, are those of the byte reader |
| SettingsFile.InputStream.ReadBody | dharma/settings.cpp:71-88 | the loop that counts up to the object's size ends with the parts, count and position of the byte reader |
| SettingsFile.Settings.SetObject | dharma/properties.cpp:131-173 | an object replaces one of its own kind and is refused under the name of another kind |
| SettingsFile.Settings.Load | engine/debugger_base.cpp:1472-1478 | the settings after the loop hold what was delivered before the end, an exception or a refusal, and it succeeds exactly at the end |
| SettingsFile.Settings.Write | dharma/settings.cpp:107-127 | the file receives each map in some order, then the opaque records, and the count is the bytes written; nothing if saving is switched off |
| SettingsFile.SaveAndReload | engine/debugger_base.cpp:1759-1799 | what is saved to a new file and loaded by new settings is the same |
| DwarfExpr.RunComputesTrees | dwarfz/location.cpp:316-596 | any operation sequence leaves the values of the trees its symbolic run builds, and throws exactly if it underflows or one has no value |
| DwarfExpr.CompileBuilds | dwarfz/location.cpp:214-310 | the symbolic run of a tree's postfix form puts that tree on top of any stack |
| DwarfExpr.CompiledEvaluates | dwarfz/location.cpp:316-596 | the postfix form of a tree evaluates to its value modulo 2^64 with any frame base and leaves deeper entries alone |
| DwarfExpr.DupDoubles | dwarfz/location.cpp:403-412 | a duplicated value is the value itself |
| DwarfExpr.EvaluatedToValueIff | dwarfz/location.cpp:582-590 | an expression that comes to its end gives a value instead of an address exactly if an operation says so |
| DwarfExpr.IdleOps | dwarfz/location.cpp:560-596 | pieces and operations that are not handled change nothing |
| DwarfExpr.WordArithmetic | dwarfz/location.cpp:316-596 | words add and subtract as numbers where they can, wrap around where not, and the two operations undo each other |
| DwarfExpr.CoversBetween | dwarfz/location.cpp:167-183 | a range covers what lies between its relocated bounds, and open ends are not relocated |
| DwarfExpr.ThrowsIff | dwarfz/location.cpp:197-310 | with all memory readable an expression throws if and only if a static depth count finds the stack empty too early |
| DwarfExpr.Location.Evaluate | dwarfz/location.cpp:153-194 | the first range that covers the pc is evaluated, relocated except for its open ends, and sets the value flag, also when it throws; zero if there is none |
| DwarfExpr.Location.RunOps | dwarfz/location.cpp:316-596 | the evaluation loop over an explicit stack does what the step function says |
| DwarfUnwind.StepFindsCaller | dwarfz/unwind.cpp:454-513 | a step finds the return address and registers that the rules describe, expressions by the trees they build, and reports the end where the caller would be at the same pc |
| DwarfUnwind.RuleExprMeans | dwarfz/unwind.cpp:143-232 | an expression in a rule, started on the CFA, gives the value of the topmost tree it builds, and zero if there is none or one has no value |
| DwarfUnwind.BrokenMeans | dwarfz/unwind.cpp:454-513 | a step that throws leaves in the table what the rules had given until then: nothing, the return address, or the frame pointer too |
| DwarfUnwind.TreeRules | dwarfz/unwind.cpp:304-321 | a rule with the postfix form of a tree gives the tree's value in the thread's registers, or the word stored there; zero stands for no value |
| DwarfUnwind.FromCfaRules | dwarfz/unwind.cpp:304-321 | operations that take up the CFA compute from it, and find nothing if it is zero |
| DwarfUnwind.RegisterInExpressionIff | dwarfz/unwind.cpp:143-232 | a register in an expression is the frame's if and only if the frame's is the thread's own |
| DwarfUnwind.TableHoldsIff | dwarfz/unwind.cpp:492-505 | the carried table stands for the caller if and only if the stack pointer was ready, has a rule, or is the thread's own |
| DwarfUnwind.NextCfaIff | dwarfz/unwind.cpp:378-416 | a CFA relative to the stack pointer is right in the next frame exactly if the stack pointer was ready, had a rule, or is the thread's own |
| DwarfUnwind.OutOfOrderIff | dwarfz/unwind.cpp:474-506 | since registers are recovered one after the other into one table, they are the caller's if and only if each register a rule names too late is the same in the frame and its caller |
| DwarfUnwind.UnwindFindsCaller | plugin/dwarf/reader.cpp:2415-2493 | with all registers ready, as the symbol reader calls it, the next frame is the described caller unless it repeats the pc |
| DwarfUnwind.TraceIff | plugin/dwarf/reader.cpp:2468-2492 | a stack trace is the described list of callers if and only if no caller is at the pc of the frame it called |
| DwarfUnwind.RecursionIsCutShort | dwarfz/unwind.cpp:507-511 | a function that has called itself twice from one place, whose trace stops at the first frame |
| DwarfUnwind.ChainUnwinds | dwarfz/unwind.cpp:454-513 | over any chain of frame-pointer frames, k steps from the thread's registers return the k-th return address and leave its frame pointer ready |
| DwarfUnwind.StepInPlace | dwarfz/unwind.cpp:454-513 | the register table is updated in place as the step function says, and after an exception holds what was recovered before it |
| DwarfUnwind.GetReg | dwarfz/unwind.cpp:235-332 | one register is recovered by its rule and marked ready, or nothing changes |
| TaskPooling.PoolIsSafe | dharma/task_pool.cpp:58-143 | in every interleaving the scheduled tasks are the taken ones followed by the queue, each taken task is in one worker's hands or finished, and nobody sleeps who has something to do |
| TaskPooling.NextIsSafe | dharma/task_pool.cpp:66-91 | every step of every thread keeps the queue order, the tasks in hand and the sleeping conditions |
| TaskPooling.NothingTakenAfterCancel | dharma/task_pool.cpp:58-63 | after cancel nothing is taken and the queue keeps what it has, in every run |
| TaskPooling.WorkersLeave | dharma/task_pool.cpp:44-55 | after cancel the workers take a bounded number of steps in any run and none is ever stuck, so joining them ends |
| TaskPooling.NoLostWakeup | dharma/task_pool.cpp:66-91 | with a task queued and a worker left, one can go on without being woken |
| TaskPooling.IdleWorkerSleeps | dharma/task_pool.cpp:66-82 | a worker that finds the queue empty stays asleep in every run until a task is scheduled, the pool cancelled or it wakes spuriously |
| TaskPooling.FailedIsGone | dharma/task_pool.cpp:94-115 | a task that throws takes its worker with it, in every run from then on |
| TaskPooling.WaiterReturnsIff | dharma/task_pool.cpp:136-143 | a caller of wait_until_empty can still return if and only if the queue is empty, or the pool is not cancelled and has a worker left |
| TaskPooling.ReturnedIsFinal | dharma/task_pool.cpp:136-143 | who has returned from wait_until_empty has done so for good |
| TaskPooling.OutsideUntilAwait | dharma/task_pool.cpp:136-143 | in every run nobody is in wait_until_empty who has not called it |
| TaskPooling.StirredLooksAgain | dharma/task_pool.cpp:136-143 | a spurious wakeup lets a waiter out exactly if the queue is empty, and is else without effect |
| TaskPooling.CancelStrandsWaiter | dharma/task_pool.cpp:58-63 | who waits for the queue when the pool is cancelled returns in no run |
| TaskPooling.StrandedRun | dharma/task_pool.cpp:58-63 | a run of three steps in which that happens |
| TaskPooling.TaskPool.GetTask | dharma/task_pool.cpp:66-82 | one pass through the lock sleeps, leaves or takes the first task |
| TaskPooling.TaskPool.Schedule | dharma/task_pool.cpp:85-91 | the task is queued last and every sleeping worker woken |
| TaskPooling.TaskPool.Cancel | dharma/task_pool.cpp:58-63 | every sleeping worker is woken, waiters are not |
| TaskPooling.TaskPool.Executed | dharma/task_pool.cpp:94-115 | a worker comes back for more, or is lost to an exception |
| TaskPooling.TaskPool.WaitUntilEmpty | dharma/task_pool.cpp:136-143 | one pass through the lock returns if the queue is empty and sleeps if not |
| DynamicLibraries.CollectedIff | elfz/dyn_lib_list.cpp:121-254 | a closed set grown from nothing is exactly the reachable libraries |
| DynamicLibraries.CandidateIs | elfz/dyn_lib_list.cpp:165-190 | an absolute name stands for itself, another goes behind the directory with one slash between |
| DynamicLibraries.FindIsFirst | elfz/dyn_lib_list.cpp:165-200 | the first directory that has the name decides what is found |
| DynamicLibraries.NotFoundIff | elfz/dyn_lib_list.cpp:165-200 | nothing is found exactly if no directory has the name |
| DynamicLibraries.SearchOrder | elfz/dyn_lib_list.cpp:204-254 | the run path of the file comes before the library path, and that before the default directories |
| DynamicLibraries.DynLibList.Build | elfz/dyn_lib_list.cpp:110-118 | the list is exactly the libraries reachable from the program, each name resolved by the first directory that has it; it ends on every graph |
| DynamicLibraries.DynLibList.CollectNeeded | elfz/dyn_lib_list.cpp:204-254 | everything the file needs is listed, and everything added is reachable and has what it needs listed |
| DynamicLibraries.DynLibList.SomeNeeded | elfz/dyn_lib_list.cpp:131-162 | one pass settles the names found in its directories and leaves exactly the others |
| DynamicLibraries.DynLibList.TryPaths | elfz/dyn_lib_list.cpp:165-200 | the first directory that has the library decides; a new library is followed at once |
| CoreFiles.FindSegment | elfz/core_file.cpp:246-260 | the segment with the greatest base not above the address, none exactly if all are above |
| CoreFiles.ReadShowsMemory | elfz/core_file.cpp:160-238 | a read of dumped bytes, or of a segment with no file, shows memory up to the segment's end, zeros behind what was dumped |
| CoreFiles.ImageShowsFile | elfz/core_file.cpp:187-203 | executable memory that was not dumped shows the segment's file, or the program's, from the offset on as far as both go; without a name nothing, without the file an exception |
| CoreFiles.NothingBehindEnd | elfz/core_file.cpp:175-187 | behind the end of the segment nothing is read and no file opened |
| CoreFiles.ThrowsIff | elfz/core_file.cpp:204-238 | a read throws exactly if the core is too short for the dumped bytes wanted, or there are more and their file cannot be opened |
| CoreFiles.CountIff | elfz/core_file.cpp:200-236 | the count is the bytes read if and only if the read does not straddle the end of what was dumped in a segment with a file |
| CoreFiles.StraddlingShowsFile | elfz/core_file.cpp:223-236 | a straddling read shows the file's bytes where the dumped ones should be |
| CoreFiles.ReadExactlyIff | elfz/core_file.cpp:148-156 | exactly when the checked read succeeds, including the coincidence that makes a wrong count look right |
| CoreFiles.ReadBuf | elfz/core_file.cpp:160-238 | the caller's buffer and the count after a read in place |
| SwitchableActions.ThresholdIsKept | dharma/switchable_action.cpp:106-262 | in every interleaving of hits, late answers and errors, counter and runs are the floor, remainder or surplus of the evaluations found true, plus one run for each error |
| SwitchableActions.ErrorIsFinal | dharma/switchable_action.cpp:250-262 | after an error instead of a late answer the action never counts or runs again, in any run |
| SwitchableActions.ErrorEndsAction | dharma/switchable_action.cpp:250-262 | in every run, an error makes the action run once more, uncounted, and never again |
| SwitchableActions.EveryOtherHitCounts | dharma/switchable_action.cpp:106-122 | the action stays pending after a late answer, so when all answers come late only every other hit is evaluated |
| SwitchableActions.AllEvaluatedIff | dharma/switchable_action.cpp:106-162 | in every run every hit is evaluated if and only if no hit follows one that is answered late |
| SwitchableActions.SwitchableAction.Execute | dharma/switchable_action.cpp:106-162 | a hit is evaluated and counted unless the action is pending, and ends the pending state if no result is left |
| SwitchableActions.SwitchableAction.OnDone | dharma/switchable_action.cpp:230-247 | a late answer is counted and its result dropped, but the action stays pending |
| SwitchableActions.SwitchableAction.OnError | dharma/switchable_action.cpp:250-262 | an error runs the action uncounted and leaves its unfinished result behind |

## Left out

- BreakPointManagement.Manager.RemoveBreakPointActions: whether accesses to the debuggee succeed is the same for the whole sweep.
- Fork.ProcessesAreIndependent: the clones share the parent's action objects, so hit counters kept inside an action are common to both processes; an action here is its name and cookie.
- HitCycle.DebuggingIsTransparent: one attached, traceable thread whose accesses to the debuggee succeed; the instruction set is a parameter that decodes an instruction from its own bytes, and the program neither reads nor rewrites its code.
- Demangler.DemangleD: a declared length that runs past the text, and template values that are floating-point numbers or hold the character zero, are reported as undefined and not modelled further.
- SettingsFile.Settings.Write: objects that cannot be streamed, which are skipped, are not modelled.
- StreamTrees.TreeReads: a nested object receives its parts as the settings do; objects with a receiver of their own (history, modules, remote calls) are not modelled, and an object is the list of its parts.
- DwarfExpr.Location.Evaluate: the assertion that a stack value needs a stack is not modelled.
- DynamicLibraries.DynLibList.Build: assumes finitely many valid files, and canonical paths that are absolute and canonical again.
- CoreFiles.ReadBuf: addresses do not wrap around at 2^64.
- SwitchableActions.ThresholdIsKept: an error raised while the hit itself is still being handled is not modelled, only one that comes instead of a late answer.
- Hardware breakpoints, watchpoints and deferred breakpoints, in the manager, in forks and in the hit cycle.
- Overflow of the enable count, and a manager that is gone when a breakpoint is destroyed.
- ptrace, signals, threads of the operating system and file locking; failures of debuggee accesses are parameters.
- The 32-bit host: words of the host are 64 bits, registers are numbered as on x86-64.
- libelf and libdwarf: frame rows, location lists and dynamic sections are parameters. CFA rules that are expressions are not among the rows.
- The parser of ld.so.conf, the splitting of path lists and the path mapper; search paths are parameters.
- Notes, registers and link maps in core files.
- Merging of property sets, getters and other one-line accessors, about which there is little to prove.
