# Model of the debugger's core

A Dafny model, with proofs, of the parts of a Lua debugger for Windows that compute something of their own: the
in-process backend that decides when to stop a script, the machine code it puts in front of hooked functions, the XML
it exchanges values in, the UTF-8 conversions and the argument quoting of the library it ships with, and the framing of
its connection to the launcher. `dafny verify dfyconfig.toml` checks everything.

| module | what it models |
|---|---|
| `Bytes`, `CStrings`, `Options` | bytes and words, strings that end at a NUL, optional values |
| `Machine`, `X64`, `CodeBuffer`, `Thunk64`, `Thunk86` | the call thunk generator, an assembler, a disassembler and a small-step processor for the instructions it uses |
| `Scripts`, `Debugger`, `Hooking`, `Breakpoints`, `Stepping`, `Backend` | the script registry; what the hook does; runs of program and debugger together; where they stop and which hook is installed, in terms of what was done; the step commands; the objects and methods that update them in place |
| `XmlText`, `XmlTree`, `XmlCoding`, `XmlRoundTrip`, `XmlReferences`, `XmlForms`, `XmlParser`, `XmlPrinter` | entities and text, the printer and the parser as functions, their round trips, what other ways of writing a document are read as, and the loops that implement them |
| `XmlDom`, `XmlAttributes`, `XmlCopies` | the linked tree of nodes, the ring of attributes, and what is left of them in a copy |
| `Utf8`, `Transcoding`, `XmlUtf8` | the table-driven UTF-8 decoder, the encoders, the conversions |
| `CommandLine` | argument quoting against the Microsoft C runtime's parsing rules |
| `Evaluation`, `TableCache`, `UnifiedStack` | expressions evaluated in a stopped function, tables shown by reference, the merged call stack |
| `Framing` | typed values over a fragmenting socket |

Where the source works by changing things in place, the module has a class or a method with the same loop or the same
assignments, proved to compute what a function says; the laws are then proved of the function. So a method's contract
and the lemmas about its function belong together: `Backend` with `Hooking`, `Breakpoints` and `Stepping`, `XmlParser` and `XmlPrinter` with
`XmlRoundTrip`, `Transcoding`'s methods with its round trips, `CommandLine.QuoteArg` with `CommandLine.RoundTripIff`.

## What turned out otherwise than one might expect

- A breakpoint on the line a function's definition starts on can be missed: the range test compares lines counted from
  zero with lines counted from one. `Hooking.HonouredInEveryRunIff` says exactly which lines are safe.
- A machine attached when there is no other takes the flag "no breakpoints" even if some are set.
  `Hooking.AttachFlagIff` has the exact condition; `Hooking.Guarded` is that condition for runs. Without it any
  breakpoint can be lost: `Hooking.LostByAttaching`.
- The 32-bit thunk puts the size of the arguments in one signed byte: beyond 30 arguments it does not return properly.
- The encoder lets text through that looks like a hexadecimal reference, so texts with `&#x` in them do not come back;
  nor do texts with stray blanks. Both conditions are exact. A NUL in a text does come back, as `&#x00;`. `Closed` in
  the statements about single texts says that no semicolon follows the end tag: the reader looks for the end of a
  reference in everything that follows.
- The copy of the quoting function that starts processes appends a NUL to the quoted empty argument, which ends the
  command line there.
- A surrogate out of place makes the UTF-16 reader drop the unit after it as well.
- The names `__index` and `__newindex` mean the environment's own functions in evaluated expressions.
- Only one of the two walks of the stack merge looks at the size of the array of 100 entries. `UnifiedStack.OverflowIff`
  says exactly which stacks are merged past its end; four native and 100 script frames can be
  (`UnifiedStack.SomeStacksOverflow`).
- A copy of a node is not always like it: strings are copied up to their first NUL, which a parsed text can contain, and
  an attribute without name and value ends the copying of attributes. `XmlDom.CutNothingIff` has the exact condition,
  `XmlCopies.ParsedCopyIff` what it comes to for documents that were read.
- An unknown table reference is answered with an empty document, the message prepared for it being overwritten.

## Model

| member | source | states |
|---|---|---|
| X64.DecodeEncode | LuaInject/LuaInject/Hook.cpp:52-190 | disassembling the bytes of any emitted x64 instruction gives the instruction back, for the one-byte and the four-byte displacement form alike, whatever bytes follow |
| X64.StepAssembled | LuaInject/LuaInject/Hook.cpp:52-190 | one fetch-decode-execute step at an instruction's bytes does what the instruction does |
| X64.RunAssembled | LuaInject/LuaInject/Hook.cpp:52-190 | running assembled straight-line bytes is executing the instruction list |
| Thunk64.InstanceFunction | LuaInject/LuaInject/Hook.cpp:52-190 | the generator's buffer code with its argument loop emits exactly the assembled thunk, whatever the static buffer held before |
| Thunk64.EmitMoveArgs | LuaInject/LuaInject/Hook.cpp:84-154 | the loop over the arguments, from the last to the first, emits the moves in that order |
| Thunk64.FitsBufferIff | LuaInject/LuaInject/Hook.cpp:52-190 | the code fits the 2048-byte buffer exactly for up to 130 arguments |
| Thunk64.MovesCorrect | LuaInject/LuaInject/Hook.cpp:84-154 | every stack argument is read before anything is written over it, although source and destination overlap; nothing else that matters changes |
| Thunk64.ReachesHook | LuaInject/LuaInject/Hook.cpp:52-190 | from a Microsoft x64 entry state the emitted bytes reach the hook with (upValue, a1, .., an) in rcx, rdx, r8, r9 and from [rsp+20h] on, rsp 16-aligned |
| Thunk64.ReturnsToCaller | LuaInject/LuaInject/Hook.cpp:172-217 | after any hook that keeps the convention, three more instructions return to the thunk's caller with rsp and rdi restored and the hook's rax |
| Thunk64.ThunkMeetsConvention | LuaInject/LuaInject/Hook.cpp:52-190 | both halves for every argument count that fits and every behaviour of the hook the convention allows |
| CodeBuffer.Buffer.Emit | LuaInject/LuaInject/Hook.cpp:66-78 | one byte stored at the write position, which moves on; nothing written before changes |
| CodeBuffer.Buffer.EmitWord | LuaInject/LuaInject/Hook.cpp:74-75 | a word stored at the write position, least significant byte first |
| CodeBuffer.Buffer.Copy | LuaInject/LuaInject/Hook.cpp:218-222 | the finished code in memory of its own |
| Thunk86.InstanceFunction | LuaInject/LuaInject/Hook.cpp:192-226 | the loop of identical pushes, the call and its fix-up in the copy give the thunk's bytes for the address of the copy |
| Thunk86.CallTarget | LuaInject/LuaInject/Hook.cpp:204-226 | the relative operand reaches the hook modulo 2^32 wherever the two are |
| Thunk86.ReachesHook | LuaInject/LuaInject/Hook.cpp:192-226 | the n pushes of [esp+4n] put an down to a1 on the stack and the hook is entered with (upValue, a1, .., an) |
| Thunk86.ReturnSteps | LuaInject/LuaInject/Hook.cpp:210-217 | after a hook that keeps the convention the last two instructions give control back to the caller if and only if there are at most 30 arguments |
| Thunk86.ThunkServesIff | LuaInject/LuaInject/Hook.cpp:192-226 | the 32-bit thunk enters the hook properly, and serves its caller exactly for up to 30 arguments: the displacement is one signed byte |
| Scripts.FileTitleIsAfterLastSlash | LuaInject/LuaInject/DebugBackend.cpp:3245-3263 | a file title is what follows the last slash of either kind |
| Scripts.RegisterKeeps | LuaInject/LuaInject/DebugBackend.cpp:481-614 | registering keeps names on scripts with their file title and (title, source) pairs distinct, moves no index, makes the name resolve; -1 if and only if no script was added |
| Scripts.SameScriptIff | LuaInject/LuaInject/DebugBackend.cpp:513-541 | two new names end up at one script if and only if their file titles agree and the same source came with both |
| Scripts.SeenKeeps | LuaInject/LuaInject/DebugBackend.cpp:616-650 | registration from the hook keeps all that and brings no breakpoint |
| Scripts.SeenSource | LuaInject/LuaInject/DebugBackend.cpp:616-628 | a script seen by the hook has its chunk's name for its source, or no source if that starts with `@`, and the name's file title |
| Scripts.LoadedSource | LuaInject/LuaInject/DebugBackend.cpp:481-541 | a new name leads to a script with the source and file title it came with; -1 if and only if there was such a script |
| Scripts.LoadedIsSeen | LuaInject/LuaInject/DebugBackend.cpp:488-512 | the hook finds what was loaded: under its name, or under its code up to the first NUL |
| Scripts.TogglesLine | LuaInject/LuaInject/DebugBackend.cpp:98-113 | toggling changes whether the line has a breakpoint, no other line, and lists no line twice |
| Scripts.ToggleKeeps | LuaInject/LuaInject/DebugBackend.cpp:1272-1329 | toggling keeps the registry in order |
| Scripts.DeleteAllKeeps | LuaInject/LuaInject/DebugBackend.cpp:1368-1377 | deleting all breakpoints keeps the registry in order |
| Hooking.ScanCorrect | LuaInject/LuaInject/DebugBackend.cpp:934-973 | a scan of the call stack that finds nothing has seen that every function's script is known and has no breakpoint in the function |
| Hooking.NextKeeps | LuaInject/LuaInject/DebugBackend.cpp:863-929 | every step of every run (attach, detach, call, tail call, return, line, command, toggle, delete, load) keeps the hook full while the machine's flags ask for it and the stack clean while they do not |
| Hooking.NextKeepsSound | LuaInject/LuaInject/DebugBackend.cpp:1331-1377 | every step keeps the machines' breakpoint flags equal to each other and true only if some script has a breakpoint, with no guard |
| Hooking.NextKeepsRight | LuaInject/LuaInject/DebugBackend.cpp:1272-1377 | every guarded step keeps the flags exactly right |
| Hooking.AttachFlagIff | LuaInject/LuaInject/DebugBackend.cpp:262-300 | attaching a machine keeps the flags right exactly if there is another machine or no breakpoint is set |
| Hooking.EveryRunSound | LuaInject/LuaInject/DebugBackend.cpp:262-340 | every run from nothing, guarded or not, keeps registry and machines in order, and the flags equal and never raised without reason |
| Hooking.LostByAttaching | LuaInject/LuaInject/DebugBackend.cpp:274-300 | for every function and every line in it a run in which the one machine detaches and attaches again after a breakpoint there was set: it is not stopped at, though with the full hook it would be |
| Hooking.FullWhileNeeded | LuaInject/LuaInject/DebugBackend.cpp:747-821 | while a function with a breakpoint is anywhere on the stack the full hook is installed |
| Hooking.NoBreakpointLost | LuaInject/LuaInject/DebugBackend.cpp:747-973 | over every run, in every mode, the debugger stops at a line exactly if it would with the full hook always installed, for lines after the function's first or in a main chunk |
| Hooking.FirstLineMissed | LuaInject/LuaInject/DebugBackend.cpp:84-96 | a concrete run in which a breakpoint on a function's first line is not stopped at, because the range test starts one line late |
| Hooking.HonouredInEveryRunIff | LuaInject/LuaInject/DebugBackend.cpp:84-96 | breakpoints at a line of a function are honoured in every run if and only if the line is past the first line or the function is a main chunk |
| Breakpoints.LinesAreToggles | LuaInject/LuaInject/DebugBackend.cpp:1272-1377 | in every run a script lists exactly the lines toggled an odd number of times since the last delete, and a script not there yet none |
| Breakpoints.StopsAtSetLines | LuaInject/LuaInject/DebugBackend.cpp:806-821 | in every run, with every line event delivered: in Continue mode the debugger stops at a line if and only if it was toggled an odd number of times in the function's script since the last delete; in no mode does it pass over such a line |
| Breakpoints.StopsIffSet | LuaInject/LuaInject/DebugBackend.cpp:806-821 | the same of the debugger with the hooks it really installs, for every guarded run and every line after the function's first or in a main chunk |
| Breakpoints.ScanExactly | LuaInject/LuaInject/DebugBackend.cpp:934-973 | the scan stops at the first Lua function with a breakpoint in it and finds nothing if and only if there is none; it registers the scripts of the Lua functions up to there and no others |
| Breakpoints.HookIsExact | LuaInject/LuaInject/DebugBackend.cpp:863-929 | after a call or return in Continue mode in any guarded run: calls and returns if no line is set anywhere; else every event if a line is set in a Lua function on the stack, and calls only if in none |
| Breakpoints.CalledIsKnown | LuaInject/LuaInject/DebugBackend.cpp:863-890 | the script of a Lua function called in Continue mode is registered |
| Breakpoints.LineIsKnown | LuaInject/LuaInject/DebugBackend.cpp:767-776 | so is that of a function at a line |
| Stepping.CounterLaw | LuaInject/LuaInject/DebugBackend.cpp:835-855 | after any events since a step command the counter is c0 + d + max(0, -(c0 + m)), and the full hook stays installed |
| Stepping.StopsIffLowest | LuaInject/LuaInject/DebugBackend.cpp:816-821 | breakpoints aside, stepping stops at a line exactly at a depth never gone below, for stepping out only below the start |
| Stepping.StopsIffWasRunning | LuaInject/LuaInject/DebugBackend.cpp:1233-1253 | stepping over stops exactly in functions that were running when it began, stepping out exactly in the callers of the innermost of them |
| Stepping.StepIntoStopsAtOnce | LuaInject/LuaInject/DebugBackend.cpp:1222-1270 | after stepping into or breaking, whatever events come between, the debugger stops at every line |
| Stepping.ContinueStopsIff | LuaInject/LuaInject/DebugBackend.cpp:1255-1264 | after going on, whatever events come between, it stops at a line if and only if the full hook is installed and the line is listed; going on leaves the hook as it is |
| Backend.ScriptRecord.HasBreakPointInRange | LuaInject/LuaInject/DebugBackend.cpp:84-96 | whether some listed line is in the half-open range |
| Backend.ScriptRecord.GetHasBreakPoint | LuaInject/LuaInject/DebugBackend.cpp:70-82 | whether the line is listed |
| Backend.ScriptRecord.ToggleBreakpoint | LuaInject/LuaInject/DebugBackend.cpp:98-113 | the list in place: the first occurrence removed, or the line appended |
| Backend.VirtualMachine.DoContinue | LuaInject/LuaInject/DebugBackend.cpp:1255-1264 | the machine's new mode, counter and hook, and nothing else changed |
| Backend.VirtualMachine.DoStepOver | LuaInject/LuaInject/DebugBackend.cpp:1233-1242 | the machine's new mode, counter and hook, and nothing else changed |
| Backend.VirtualMachine.DoStepInto | LuaInject/LuaInject/DebugBackend.cpp:1222-1231 | the machine's new mode, counter and hook, and nothing else changed |
| Backend.VirtualMachine.DoStepOut | LuaInject/LuaInject/DebugBackend.cpp:1244-1253 | the machine's new mode, counter and hook, and nothing else changed |
| Backend.VirtualMachine.DoBreak | LuaInject/LuaInject/DebugBackend.cpp:1266-1270 | the machine's new mode, counter and hook, and nothing else changed |
| Backend.DebugBackend.AttachState | LuaInject/LuaInject/DebugBackend.cpp:262-338 | no machine without a front end; else a known state is found again, and a new one is put in the list and the table, takes over the others' flag and gets the full hook, unless its stack has no room: then it stays listed, unhooked, and is not returned |
| Backend.DebugBackend.AddMachine | LuaInject/LuaInject/DebugBackend.cpp:286-319 | the new machine in list and table, with the full hook if there is room on its stack |
| Backend.DebugBackend.DetachState | LuaInject/LuaInject/DebugBackend.cpp:340-386 | list and table lose the state's machine and still hold the same machines; the class infos left are those of other states, in order |
| Backend.DebugBackend.RemoveClassInfos | LuaInject/LuaInject/DebugBackend.cpp:345-359 | the loop that erases while it goes over the list leaves exactly the class infos of other states, in order |
| Backend.OthersKept | LuaInject/LuaInject/DebugBackend.cpp:345-359 | a class info is among those left if and only if it was there and belongs to another state |
| Backend.OthersInOrder | LuaInject/LuaInject/DebugBackend.cpp:345-359 | each class info is kept or dropped for itself, and those kept stay in their order |
| Backend.DebugBackend.ActiveLuaHookInAllVms | LuaInject/LuaInject/DebugBackend.cpp:1210-1220 | every machine's hook is full, all else is as it was |
| Backend.DebugBackend.SetHaveActiveBreakpoints | LuaInject/LuaInject/DebugBackend.cpp:1350-1366 | every machine's flags set; the hook made full if a breakpoint was set |
| Backend.DebugBackend.GetHaveActiveBreakpoints | LuaInject/LuaInject/DebugBackend.cpp:1337-1348 | whether any script has a breakpoint |
| Backend.DebugBackend.ToggleBreakpoint | LuaInject/LuaInject/DebugBackend.cpp:1272-1329 | registry and machines after a toggle are those of the step proved to lose nothing |
| Backend.DebugBackend.DeleteAllBreakpoints | LuaInject/LuaInject/DebugBackend.cpp:1368-1377 | no breakpoint is left, and the flags say so |
| Backend.DebugBackend.RegisterScript | LuaInject/LuaInject/DebugBackend.cpp:481-614 | the scripts and names afterwards and the result are those of the registry's specification |
| Backend.DebugBackend.RegisterRunning | LuaInject/LuaInject/DebugBackend.cpp:616-650 | the name resolves to the returned index afterwards |
| Backend.DebugBackend.FunctionHasBreakpoint | LuaInject/LuaInject/DebugBackend.cpp:893-897 | the code's test for a breakpoint in a function |
| Backend.DebugBackend.StackHasBreakpoint | LuaInject/LuaInject/DebugBackend.cpp:934-973 | the loop registers and tests exactly up to the first function with a breakpoint |
| Backend.DebugBackend.ChooseMode | LuaInject/LuaInject/DebugBackend.cpp:863-912 | the cheapest hook that will do, with the machine's flag updated |
| Backend.DebugBackend.UpdateHookMode | LuaInject/LuaInject/DebugBackend.cpp:863-929 | the machine and registry afterwards |
| Backend.DebugBackend.HandleEvent | LuaInject/LuaInject/DebugBackend.cpp:747-861 | one event: hook choice, registration, stop decision and step counting |
| Backend.DebugBackend.HookCallback | LuaInject/LuaInject/DebugBackend.cpp:658-861 | nothing without stack space; else the same with machines not seen before attached first; other machines are untouched |
| Backend.DebugBackend.AtLine | LuaInject/LuaInject/DebugBackend.cpp:757-822 | whether the debugger stops at a line |
| XmlCoding.DecodeChar | LuaInject/LuaInject/tinyxmlparser.cpp:438-531 | the entity reader recognises the encoding of every character and reads that character |
| XmlCoding.KeepInvertsEncode | LuaInject/LuaInject/tinyxml.cpp:52-133 | with white space kept, decoding inverts encoding of every text without "&#x", whatever the end tag and whatever follows |
| XmlCoding.TrimSqueezes | LuaInject/LuaInject/tinyxmlparser.cpp:599-630 | with white space condensed, decoding the encoding gives the text with its blanks squeezed |
| XmlCoding.KeepRoundTripIff | LuaInject/LuaInject/tinyxmlparser.cpp:574-637 | with white space kept a text comes back if and only if "&#x" is nowhere in it |
| XmlCoding.TrimRoundTripIff | LuaInject/LuaInject/tinyxmlparser.cpp:574-637 | with white space condensed a text comes back if and only if, besides, it has no leading, trailing or doubled blank |
| XmlRoundTrip.ElementReads | LuaInject/LuaInject/tinyxmlparser.cpp:1043-1177 | an element printed at any depth is parsed back up to its own end, whatever follows |
| XmlRoundTrip.NodesRead | LuaInject/LuaInject/tinyxmlparser.cpp:1179-1247 | children printed one a line are read back up to the end tag |
| XmlRoundTrip.DocumentRoundTrip | LuaInject/LuaInject/tinyxml.cpp:1766-1854 | parsing a pretty-printed document gives back exactly its elements, for all trees with valid names, distinct attribute names, printable texts and no two texts side by side |
| XmlRoundTrip.ParsedDocumentShape | LuaInject/LuaInject/tinyxmlparser.cpp:704-796 | every document the parser accepts has valid names, distinct attribute names and no two texts side by side: trees without that shape never come back |
| XmlRoundTrip.SimpleElementRoundTripIff | LuaInject/LuaInject/tinyxmlparser.cpp:1497-1570 | an element with one text comes back if and only if the text is printable |
| XmlRoundTrip.OneAttributeRoundTripIff | LuaInject/LuaInject/tinyxmlparser.cpp:1392-1474 | an element with one attribute comes back if and only if "&#x" is nowhere in the attribute's value |
| XmlReferences.DecimalReferenceReads | LuaInject/LuaInject/tinyxmlparser.cpp:478-507 | a decimal reference, with any zeros in front, is read as the low byte of its number |
| XmlReferences.HexReferenceReads | LuaInject/LuaInject/tinyxmlparser.cpp:451-477 | a hexadecimal reference likewise, its digits of either case |
| XmlReferences.NamesRead | LuaInject/LuaInject/tinyxmlparser.cpp:514-524 | the five named entities |
| XmlReferences.UnknownIsDropped | LuaInject/LuaInject/tinyxmlparser.cpp:526-530 | an ampersand that starts no entity is dropped |
| XmlReferences.ReferenceIsPassed | LuaInject/LuaInject/tinyxml.cpp:60-84 | what looks like a hexadecimal reference is written as it is, up to its semicolon |
| XmlReferences.OpenReferenceIsPassed | LuaInject/LuaInject/tinyxml.cpp:60-84 | one without a semicolon is written as it is but for its last byte, which is encoded |
| XmlForms.SpacedAttribute | LuaInject/LuaInject/tinyxmlparser.cpp:1392-1424 | white space in front of an attribute and around its equals sign is passed over, and its value decides what is read |
| XmlForms.QuotedValueReads | LuaInject/LuaInject/tinyxmlparser.cpp:1429-1440 | values in quotes of either kind are decoded |
| XmlForms.BareValueReads | LuaInject/LuaInject/tinyxmlparser.cpp:1441-1461 | values without quotes are taken as they are, up to white space, a slash or the end of the tag |
| XmlForms.BareValueThenQuote | LuaInject/LuaInject/tinyxmlparser.cpp:1447-1457 | a quote in such a value is an error |
| XmlForms.AttributeTwice | LuaInject/LuaInject/tinyxmlparser.cpp:1150-1173 | an attribute's name used twice is an error |
| XmlForms.NoEqualsSign | LuaInject/LuaInject/tinyxmlparser.cpp:1416-1421 | and so is a name that no equals sign follows |
| XmlForms.NamesAre | LuaInject/LuaInject/tinyxmlparser.cpp:401-436 | names start with a letter, an underscore or a byte from 127 on, and go on with these, digits, hyphens, dots and colons |
| XmlForms.WhiteSpaceIs | LuaInject/LuaInject/tinyxml.h:289-297 | the six white space characters |
| XmlForms.BrokenOff | LuaInject/LuaInject/tinyxmlparser.cpp:1050-1075 | a document that ends in the name of its first element is an error |
| XmlForms.SpacedEndTag | LuaInject/LuaInject/tinyxmlparser.cpp:1117-1132 | an end tag may have white space before its end |
| XmlForms.WrongEndTag | LuaInject/LuaInject/tinyxmlparser.cpp:1122-1137 | an element that does not end with its own name is an error |
| XmlForms.SlashAlone | LuaInject/LuaInject/tinyxmlparser.cpp:1092-1100 | a slash that does not end the tag is an error |
| XmlForms.NothingToParse | LuaInject/LuaInject/tinyxmlparser.cpp:704-796 | a text with no tag at its start is an empty document |
| XmlForms.Printed | LuaInject/LuaInject/tinyxml.cpp:1766-1854 | a document with a line of each kind as it is printed: indentation, quotes, empty elements, texts inside and between |
| XmlParser.SkipWhiteSpaceFrom | LuaInject/LuaInject/tinyxmlparser.cpp:314-366 | the loop stops at the first character that is no white space |
| XmlParser.ReadNameFrom | LuaInject/LuaInject/tinyxmlparser.cpp:401-436 | the longest name at this place, or failure |
| XmlParser.NumericEntityAt | LuaInject/LuaInject/tinyxmlparser.cpp:438-505 | decimal and hexadecimal references, with the 32-bit wrap-around of the number |
| XmlParser.GetEntityAt | LuaInject/LuaInject/tinyxmlparser.cpp:438-531 | the character an entity stands for, or the ampersand itself |
| XmlParser.KeepTextFrom | LuaInject/LuaInject/tinyxmlparser.cpp:583-596 | the loop reading text with white space kept |
| XmlParser.TrimTextFrom | LuaInject/LuaInject/tinyxmlparser.cpp:597-630 | the loop reading text with white space condensed |
| XmlParser.ReadTextFrom | LuaInject/LuaInject/tinyxmlparser.cpp:574-637 | reading text up to an end tag in either mode |
| XmlParser.ParseAttributeAt | LuaInject/LuaInject/tinyxmlparser.cpp:1392-1474 | one attribute with its value in quotes of either kind or bare |
| XmlParser.ParseAttributesAt | LuaInject/LuaInject/tinyxmlparser.cpp:1085-1175 | the attribute loop of an element, up to and including its content and end tag |
| XmlParser.ParseElementAt | LuaInject/LuaInject/tinyxmlparser.cpp:1043-1177 | one element: what is built, where parsing goes on, and the first error kept by the document |
| XmlParser.ReadValueAt | LuaInject/LuaInject/tinyxmlparser.cpp:1179-1247 | the loop over the children of an element |
| XmlParser.ParseDocumentText | LuaInject/LuaInject/tinyxmlparser.cpp:704-796 | the whole document: the elements built, or the first error |
| XmlPrinter.EncodeString | LuaInject/LuaInject/tinyxml.cpp:52-133 | the two nested loops terminate on every text, an unterminated "&#x" included, and encode it |
| XmlPrinter.TiXmlPrinter.PrintAttributesOf | LuaInject/LuaInject/tinyxml.cpp:1772-1776 | the loop by `First` and `Next` prints the attributes up to the first, after the one it starts with, without name and value |
| XmlPrinter.TiXmlPrinter.VisitEnter | LuaInject/LuaInject/tinyxml.cpp:1766-1801 | the buffer, the depth and the simple-text flag after an opening tag; the name is printed up to its first NUL, the attributes as far as `Next` goes |
| XmlPrinter.TiXmlPrinter.VisitExit | LuaInject/LuaInject/tinyxml.cpp:1803-1826 | the same after a closing tag, its name as in the opening one |
| XmlPrinter.TiXmlPrinter.VisitText | LuaInject/LuaInject/tinyxml.cpp:1829-1854 | the same after a text |
| XmlPrinter.TiXmlPrinter.Accept | LuaInject/LuaInject/tinyxml.cpp:875-886 | walking a node appends exactly its printed form and restores depth and flag |
| XmlPrinter.TiXmlPrinter.AcceptDocument | LuaInject/LuaInject/tinyxml.cpp:1156-1167 | walking a document gives its printed form |
| XmlDom.TiXmlNode.LinkEndChild | LuaInject/LuaInject/tinyxml.cpp:186-212 | the node becomes the last child of one tree with all links right; a document is refused and nothing changes |
| XmlDom.TiXmlNode.InsertBeforeChild | LuaInject/LuaInject/tinyxml.cpp:230-260 | a copy, with what a copy loses, is inserted just before the child; refused exactly for no child, another parent's child or a document |
| XmlDom.TiXmlNode.InsertAfterChild | LuaInject/LuaInject/tinyxml.cpp:263-293 | a copy, with what a copy loses, is inserted just after the child, or refused likewise |
| XmlDom.TiXmlNode.ReplaceChild | LuaInject/LuaInject/tinyxml.cpp:296-332 | a copy, with what a copy loses, takes the child's place, or refused likewise |
| XmlDom.TiXmlNode.RemoveChild | LuaInject/LuaInject/tinyxml.cpp:335-359 | the child is out of the tree and the others keep their order and contents |
| XmlDom.TiXmlNode.Clone | LuaInject/LuaInject/tinyxml.cpp:889-897 | a tree made of new nodes only, the same but that every value is cut at its first NUL and the attributes are set one by one by C strings; the original is untouched |
| XmlDom.TiXmlNode.CloneChild | LuaInject/LuaInject/tinyxml.cpp:868-872 | one round of the copying loop |
| XmlDom.TiXmlNode.CopyAttributesTo | LuaInject/LuaInject/tinyxml.cpp:858-866 | the loop over the attributes, which ends at one without name and value after the first |
| XmlDom.CutNothingIff | LuaInject/LuaInject/tinyxml.cpp:161-166 | a copy's contents are the original's if and only if nowhere in the tree there is a NUL in a value or in an attribute's name or value, a name twice in one node, or, after the first, an attribute without name and value |
| XmlCopies.ParsedCopyIff | LuaInject/LuaInject/tinyxml.cpp:858-897 | whatever text was read, a copy of an element the parser made is like it if and only if there is no NUL in its texts and attribute values |
| XmlCopies.ReadThenCut | LuaInject/LuaInject/tinyxml.cpp:1363-1378 | from `<a>x&#x00;y</a>` the parser makes a text of three characters, of which a copy has the first |
| XmlDom.EmptyEndsAttributes | LuaInject/LuaInject/tinyxml.cpp:1170-1177 | an attribute without name and value between two others keeps the last from being copied; in front of them it keeps nothing |
| XmlDom.AfterEdit | LuaInject/LuaInject/tinyxml.cpp:186-359 | if only roots of subtrees were relinked, every subtree is linked as before and has the contents it had |
| XmlDom.PointersOf | LuaInject/LuaInject/tinyxml.cpp:186-212 | what the trees in the contracts mean for the pointers: first and last child, neighbours in order, parents, and null at the ends |
| XmlAttributes.TiXmlAttributeSet.Add | LuaInject/LuaInject/tinyxml.cpp:1514-1527 | the ring stays circular with the attribute at its end |
| XmlAttributes.TiXmlAttributeSet.Remove | LuaInject/LuaInject/tinyxml.cpp:1529-1546 | the loop finds the attribute, and the ring closes without it |
| XmlAttributes.TiXmlAttributeSet.Find | LuaInject/LuaInject/tinyxml.cpp:1549-1557 | the attribute with the name, or null if and only if there is none |
| XmlAttributes.TiXmlAttributeSet.FindOrCreate | LuaInject/LuaInject/tinyxml.cpp:1559-1568 | found, or added at the end with an empty value |
| XmlAttributes.TiXmlAttributeSet.SetAttribute | LuaInject/LuaInject/tinyxml.cpp:790-797 | the value set in its place or appended; names stay distinct |
| XmlAttributes.TiXmlAttribute.Next | LuaInject/LuaInject/tinyxml.cpp:1170-1177 | the following attribute, or null for one that looks like the sentinel |
| XmlAttributes.TiXmlAttributeSet.CopyTo | LuaInject/LuaInject/tinyxml.cpp:858-866 | the loop by `First` and `Next` over one ring sets in the other what the specification of the copy says, and leaves the first as it was |
| Utf8.StateMeans | bee.lua/3rd/filesystem.h:1528-1538 | every entry of the packed table: the next state in terms of byte ranges |
| Utf8.ReadsChar | bee.lua/3rd/filesystem.h:1528-1538 | a character of the standard brings the decoder back to its start state with the encoded number |
| Utf8.AcceptedStartsWithChar | bee.lua/3rd/filesystem.h:1528-1538 | whatever the decoder accepts starts with a character of the standard |
| Utf8.AcceptsExactly | bee.lua/3rd/filesystem.h:1528-1554 | the decoder accepts exactly the strings of the grammar in section 4 of RFC 3629 |
| Utf8.ValidUtf8 | bee.lua/3rd/filesystem.h:1540-1554 | the validity test is true exactly for well-formed text |
| Utf8.AppendUTF8 | bee.lua/3rd/filesystem.h:1496-1523 | the bytes appended, U+FFFD's for a number that is no character's |
| Utf8.EncodeGivesChar | bee.lua/3rd/filesystem.h:1496-1523 | the encoder gives the one character of the standard for the number |
| Utf8.CharIsEncoded | bee.lua/3rd/filesystem.h:1496-1523 | every character of the standard is what the encoder gives for its number: no second encodings |
| Transcoding.DecodesEncoded | bee.lua/3rd/filesystem.h:1608-1640 | decoding inverts encoding, numbers of no character aside |
| Transcoding.EncodesDecodedIff | bee.lua/3rd/filesystem.h:1608-1640 | decoding and encoding UTF-8 gives it back if and only if it is well-formed |
| Transcoding.DecodedScalarsFrom | bee.lua/3rd/filesystem.h:1568-1640 | whatever the input, only character numbers are ever decoded |
| Transcoding.Encodes16DecodedIff | bee.lua/3rd/filesystem.h:1658-1683 | decoding and encoding UTF-16 gives it back if and only if surrogates are paired |
| Transcoding.Utf8RoundTripIff | bee.lua/3rd/filesystem.h:1568-1683 | UTF-8 to UTF-16 and back is the identity exactly on well-formed text; the UTF-16 is always well-formed |
| Transcoding.Utf16RoundTripIff | bee.lua/3rd/filesystem.h:1568-1683 | UTF-16 to UTF-8 and back is the identity exactly on well-formed text; the UTF-8 is always well-formed |
| Transcoding.Utf32RoundTripIff | bee.lua/3rd/filesystem.h:1604-1692 | UTF-32 to UTF-8 and back is the identity exactly on character numbers |
| Transcoding.FromUtf8To16 | bee.lua/3rd/filesystem.h:1568-1602 | the loop with its surrogate pairs and replacements |
| Transcoding.FromUtf8To32 | bee.lua/3rd/filesystem.h:1604-1638 | the loop for 32-bit targets |
| Transcoding.ToUtf8From16 | bee.lua/3rd/filesystem.h:1658-1683 | the loop with its two increments: the unit after a stray surrogate is dropped |
| Transcoding.ToUtf8From32 | bee.lua/3rd/filesystem.h:1685-1692 | the loop for 32-bit sources |
| XmlUtf8.ConvertUTF32ToUTF8 | LuaInject/LuaInject/tinyxmlparser.cpp:88-126 | the fall-through switch writes the bytes backwards into the buffer and nothing beyond them |
| XmlUtf8.SameBytesIff | LuaInject/LuaInject/tinyxmlparser.cpp:88-126 | the parser's encoder and the other one give the same bytes if and only if the number is a character's |
| CommandLine.ReadsEscaped | bee.lua/binding/lua_subprocess.cpp:498-512 | in quotes, the C runtime reads the escaped argument back, with any number of backslashes still undecided |
| CommandLine.QuoteBackwards | bee.lua/binding/lua_subprocess.cpp:498-513 | the loop from right to left builds the quoted argument back to front |
| CommandLine.ReverseInPlace | bee.lua/binding/lua_subprocess.cpp:514-518 | the swapping loop reverses |
| CommandLine.QuoteArg | bee.lua/binding/lua_subprocess.cpp:484-520 | the whole script computes the left-to-right specification |
| CommandLine.RoundTripIff | bee.lua/binding/lua_subprocess.cpp:484-520 | arguments quoted and joined with blanks are read back by the C runtime's rules as exactly the same list, if and only if none has a NUL |
| CommandLine.QuotedOnlyIfNeeded | bee.lua/binding/lua_subprocess.cpp:484-497 | an argument is left as it is if and only if it is not empty and has no blank, tab or quote; else it is put in quotes |
| CommandLine.BackslashesStay | bee.lua/binding/lua_subprocess.cpp:494-512 | backslashes that no quote and no end follows are not touched |
| CommandLine.SlashesEscaped | bee.lua/binding/lua_subprocess.cpp:498-512 | backslashes before a quote are doubled and one more put before the quote; at the end they are doubled |
| CommandLine.MakeArgs | bee.lua/bee/subprocess/subprocess_win.cpp:132-148 | the command line a process is started with, a prefix in front of it |
| CommandLine.StartedWithIff | bee.lua/bee/subprocess/subprocess_win.cpp:99-148 | a started program gets exactly its arguments if and only if none has a NUL and none but the last is empty: the empty argument's quoted form ends the line |
| Evaluation.CopyVariables | LuaInject/LuaInject/DebugBackend.cpp:1644-1712 | the loop makes the table in which the last variable of a name counts and a declared nil is a sentinel |
| Evaluation.CopiedAt | LuaInject/LuaInject/DebugBackend.cpp:1644-1712 | the table has a field exactly for the declared names, with the last variable's value |
| Evaluation.Environment.IndexChained | LuaInject/LuaInject/DebugBackend.cpp:1908-1951 | local, then up-value, then global; a sentinel reads as nil |
| Evaluation.Environment.NewIndexChained | LuaInject/LuaInject/DebugBackend.cpp:1953-2008 | the table that declares the name is written, else the globals |
| Evaluation.ReadAgreesIff | LuaInject/LuaInject/DebugBackend.cpp:2010-2046 | a name means in the environment what it means in the function if and only if it is neither `__index` nor `__newindex` |
| Evaluation.WriteAgrees | LuaInject/LuaInject/DebugBackend.cpp:1953-2008 | writing through the environment is the language's assignment |
| Evaluation.MeansTheLast | LuaInject/LuaInject/DebugBackend.cpp:1644-1712 | a name as a program can write it means the last local of that name, else the last up-value, else the global, for reading and for writing |
| Evaluation.WrittenIsRead | LuaInject/LuaInject/DebugBackend.cpp:1953-2008 | what is written to such a name is read from it, and every other name reads as before |
| Evaluation.EvaluatedAsWritten | LuaInject/LuaInject/DebugBackend.cpp:2048-2131 | so for any sequence of accesses to such names; afterwards each named variable has the value of the last of its name, and the compiler's own variables, `(for index)` and the like, are neither seen nor changed |
| Evaluation.SetVariables | LuaInject/LuaInject/DebugBackend.cpp:2048-2131 | the loop gives every visible variable what the table has under its name |
| Evaluation.ExactIff | LuaInject/LuaInject/DebugBackend.cpp:2048-2131 | copying back is exact if and only if visible variables of one name have one value; in general the last of a name wins |
| Evaluation.ExactForDistinctNames | LuaInject/LuaInject/DebugBackend.cpp:2048-2131 | with distinct names nothing is lost, whatever the expression does |
| Evaluation.Evaluate | LuaInject/LuaInject/DebugBackend.cpp:2133-2270 | for every sequence of reads and writes: what is read, the globals, and the variables afterwards are as the language says, the last of a name deciding; for names a program can write, without asking which names are shown |
| TableCache.LuaRegistry.CacheTable | LuaInject/LuaInject/DebugBackend.cpp:1789-1833 | a table keeps its reference; one without gets a reference no other table has; both registry tables exist or neither, and they stay inverse |
| TableCache.LuaRegistry.ClearCache | LuaInject/LuaInject/DebugBackend.cpp:1835-1866 | no reference resolves afterwards |
| TableCache.InverseOneToOne | LuaInject/LuaInject/DebugBackend.cpp:1789-1833 | different references stand for different tables |
| TableCache.LuaRegistry.GetValueAsText | LuaInject/LuaInject/DebugBackend.cpp:2537-2565 | rendering terminates on every table graph, cycles included, shows the value, and makes no earlier reference invalid |
| TableCache.LuaRegistry.GetTableAsText | LuaInject/LuaInject/DebugBackend.cpp:2804-2869 | a table is marked empty, or shows its entries, or carries a reference that resolves to it |
| TableCache.LuaRegistry.ExpandTable | LuaInject/LuaInject/DebugBackend.cpp:1723-1776 | a reference given out shows the table it was given for; an unknown one shows nothing |
| TableCache.ShownAs | LuaInject/LuaInject/DebugBackend.cpp:2576-2800 | a string is shown in quotes, as a key without; another key is shown in brackets; the type beside it |
| TableCache.EntryShown | LuaInject/LuaInject/DebugBackend.cpp:2804-2869 | an entry's tags, with its key and its value in them |
| TableCache.TagsShown | LuaInject/LuaInject/DebugBackend.cpp:2537-2575 | the tags of tables and functions |
| TableCache.DecimalIsUsual | LuaInject/LuaInject/DebugBackend.cpp:2804-2869 | numbers are written with digits only and no zero in front |
| TableCache.TableStays | LuaInject/LuaInject/DebugBackend.cpp:1789-1833 | what has been shown stays right however many references are given out later |
| TableCache.TableUnique | LuaInject/LuaInject/DebugBackend.cpp:2804-2869 | until references are forgotten, a table asked for again is shown exactly the same |
| UnifiedStack.PartIs | LuaInject/LuaInject/DebugBackend.cpp:3405-3457 | one walk up to the next transition takes exactly one section |
| UnifiedStack.MergeIs | LuaInject/LuaInject/DebugBackend.cpp:3402-3459 | the merge, without a limit, of any two partly consumed stacks that are at the same transition |
| UnifiedStack.AllIs | LuaInject/LuaInject/DebugBackend.cpp:3392-3461 | the merge without a limit holds, in order, every Lua function once, and every native function of the script stack's sections once, none of them `lua_*`, `luaD_*` or `luaV_*`; so many are there as belong |
| UnifiedStack.MarksAre | LuaInject/LuaInject/DebugBackend.cpp:3405-3447 | a native frame is a transition exactly if it is `lua_pcall`, and shown exactly if its name starts with none of `lua_`, `luaD_` and `luaV_`; a script frame is a transition exactly if it is C |
| UnifiedStack.UnifiedIs | LuaInject/LuaInject/DebugBackend.cpp:3392-3461 | for all stacks: the result is the beginning of that; as much of it as the array holds unless it overflows, and all of it if no more than 100 frames belong |
| UnifiedStack.OverflowIff | LuaInject/LuaInject/DebugBackend.cpp:3402-3421 | the merge writes past the array if and only if some section's native functions, begun after fewer than 100 frames, carry the count past 100 |
| UnifiedStack.SomeStacksOverflow | LuaInject/LuaInject/DebugBackend.cpp:3402-3421 | a stack of 4 native and one of 100 script frames that overflow it |
| UnifiedStack.FewFit | LuaInject/LuaInject/DebugBackend.cpp:3402-3421 | stacks of which no more than 100 frames belong do not overflow it, in particular two of together 100 frames |
| UnifiedStack.WalkNative | LuaInject/LuaInject/DebugBackend.cpp:3405-3421 | the loop up the native stack, given room for the functions of this section |
| UnifiedStack.WalkScript | LuaInject/LuaInject/DebugBackend.cpp:3424-3457 | the loop up the script stack, which also stops at the end of the array; what the entries are called is said with `UnifiedStack.GetUnifiedStack` |
| UnifiedStack.GetUnifiedStack | LuaInject/LuaInject/DebugBackend.cpp:3392-3461 | the entries written are the merge's, within the array, whenever no section overflows it; a native entry is a copy of a frame of the program's own, a script entry has its script, its line and the first 256 characters of its name, else of what it is, else `<Unknown>` |
| Bytes.LeRoundTripIff | launcher/launcher/ReadWrite.cpp:9-13 | a number read back from its bytes is the number exactly if it fits in them |
| Bytes.LeAt | launcher/launcher/ReadWrite.cpp:4-13 | the byte at place i counts 256 to the power i |
| Framing.DecodesEncoded | launcher/launcher/ReadWrite.cpp:4-110 | a value of any type read back from its bytes, whatever follows |
| Framing.WireFormat | launcher/launcher/ReadWrite.cpp:4-43 | the bytes sent: words of four bytes with the lowest first, a flag as a word, a text as its length and its bytes without a NUL |
| Framing.ReceivedIff | launcher/launcher/ReadWrite.cpp:9-110 | a value arrives as sent if and only if it fits: a pointer-sized number in the agreed size, a text without NUL and below 4 GB |
| Framing.RoundTripIff | launcher/launcher/ReadWrite.cpp:4-110 | any sequence of values is read back unchanged if and only if each fits |
| Framing.TcpChannel.Write | launcher/launcher/TcpChannel.cpp:102-123 | however the socket takes the bytes, all are sent in order, or some and the connection is given up |
| Framing.TcpChannel.Read | launcher/launcher/TcpChannel.cpp:125-151 | however the bytes arrive, the next ones are delivered, or the connection is given up; in the middle of polling, bytes put aside are passed over |
| Framing.TcpChannel.NReadUInt32 | launcher/launcher/TcpChannel.cpp:153-196 | 0 <= nreadCnt < 4 always; a word is the next four bytes; otherwise no byte is lost |
| Framing.TcpChannel.Poll | launcher/launcher/TcpChannel.cpp:153-196 | any number of polls: the words got and the bytes still to come are all there was |
| Framing.TcpChannel.WriteUInt32 | launcher/launcher/ReadWrite.cpp:4-8 | the value's bytes written, or the connection is gone |
| Framing.TcpChannel.WriteUInt | launcher/launcher/ReadWrite.cpp:9-13 | the value's bytes written, or the connection is gone |
| Framing.TcpChannel.WriteString | launcher/launcher/ReadWrite.cpp:27-39 | the value's bytes written, or the connection is gone |
| Framing.TcpChannel.WriteBool | launcher/launcher/ReadWrite.cpp:40-43 | the value's bytes written, or the connection is gone |
| Framing.TcpChannel.ReadUInt32 | launcher/launcher/ReadWrite.cpp:44-54 | the value at the front of the stream, or the connection is gone |
| Framing.TcpChannel.ReadUInt | launcher/launcher/ReadWrite.cpp:55-65 | the value at the front of the stream, or the connection is gone |
| Framing.TcpChannel.ReadString | launcher/launcher/ReadWrite.cpp:66-98 | the value at the front of the stream, or the connection is gone |
| Framing.TcpChannel.ReadBool | launcher/launcher/ReadWrite.cpp:99-110 | the value at the front of the stream, or the connection is gone |
| Framing.TcpChannel.WriteAll | launcher/launcher/ReadWrite.cpp:4-43 | a sequence of values written one after the other |
| Framing.TcpChannel.ReadAll | launcher/launcher/ReadWrite.cpp:44-110 | a sequence of values read one after the other, however it was fragmented |

## Left out

- Thunks: executable memory and the patching of functions are not part of this model; the address of the copy is a parameter.
- Thunks: code is apart from stack memory, the stack is made of aligned words, and the processor is stuck on an unaligned or wrapping access.
- Thunks: argument counts are those whose code fits the buffer, which the generator does not check.
- Backend.DebugBackend.HookCallback: does not model the LuaJIT work-around, the machine's name and the messages sent, which depend on Lua and on the front end; that a state which cannot be attached crashes the debugger there is its precondition.
- Backend.DebugBackend.HandleEvent: does not model the LuaJIT work-around, which keeps the last line stopped at.
- Backend.DebugBackend.AtLine: does not model the LuaJIT work-around, by which a line just stopped at is passed over.
- Backend.DebugBackend.RegisterScript: the name shown for a script, its code state (normal, binary, unavailable) and the message to the front end are left out; none of them is read by what is modelled.
- Backend.DebugBackend.RegisterRunning: registration is one step; that the lock is released in the middle and the front end waited for is left out.
- Backend.DebugBackend.AttachState: the message to the front end, the library registered in the state and the garbage collection callback are left out.
- Backend.DebugBackend.DetachState: the message to the front end and the closing of handles are left out.
- Hooking.NoBreakpointLost: runs have returns matched with calls, and machines attached with room on their stacks and under the guard of `Hooking.AttachFlagIff`; line numbers are Lua's, at least one.
- Stepping.StopsIffWasRunning: a tail call event counts as a call, as in the code; with Lua versions that do not report the return from a tail call the count is not the depth of the real stack.
- Thunk86.CallTarget: the copy and the instruction after the call lie within the 32-bit address space.
- XML: comments, declarations, CDATA, unknown nodes, byte order marks, the UTF-8 mode of the parser, rows and columns, streams and files are left out; a text that contains them is reported as outside the model.
- XML: characters stand for bytes; the partial tree left behind by a parse error is left out.
- XmlRoundTrip.DocumentRoundTrip: is exact for texts (`XmlRoundTrip.SimpleElementRoundTripIff`), for values of attributes (`XmlRoundTrip.OneAttributeRoundTripIff`) and for shapes (`XmlRoundTrip.ParsedDocumentShape`); elements only at the top of a document.
- XmlParser.ParseElementAt: children that are comments, CDATA or unknown tags are outside the model.
- XmlParser.ReadValueAt: comments, CDATA and unknown tags are outside the model, and reported as such.
- XmlParser.ParseDocumentText: byte order marks and declarations are outside the model; the tree left by an error is left out.
- XmlPrinter.TiXmlPrinter.VisitText: CDATA sections are left out.
- XmlDom.TiXmlNode.Clone: attributes are a sequence there, the ring of `XmlAttributes` with its own `CopyTo` being a model of its own; a node's user data and location, a document's error state, and node kinds other than documents, elements and texts are left out.
- XmlDom.TiXmlNode.LinkEndChild: a refused document is not deleted, and no error recorded in the document refusing it.
- XmlDom.TiXmlNode.RemoveChild: the removed subtree is not freed.
- XmlDom.TiXmlNode.ReplaceChild: the replaced subtree is not freed; so, too, the error recorded on a refusal is left out of all insertions.
- XmlDom.TiXmlNode.InsertBeforeChild: a child whose parent is this node is one of the children of the tree described, as in every tree the operations make; so for the other insertions and removals.
- UTF-8: the variant of the library that throws on ill-formed input is not compiled in and left out.
- CommandLine.RoundTripIff: arguments after the program's name; the name has rules of its own. Values other than strings, which the script converts first, are left out.
- CommandLine.QuoteArg: takes strings; the conversion of other values by `tostring` is left out.
- Evaluation.Evaluate: an expression is the reads and writes it does, by name; what Lua does after an expression has overwritten `__index` or `__newindex`, metamethods of the globals, hooks switched off meanwhile, the loading of the expression, its errors and the rendering of its results are left out.
- TableCache.LuaRegistry.GetValueAsText: userdata, wide strings and the names by which scripts override a type are left out.
- TableCache.LuaRegistry.ExpandTable: that locals, up-values and globals can be asked for in place of a table is left out.
- Tables: userdata, metamethods and wide strings are left out, `luaL_ref` gives any number not in use, and the program does not change its tables while they are shown.
- UnifiedStack.GetUnifiedStack: what happens past the end of the array is left out, and so the merge of the stacks `UnifiedStack.Overflows` describes is not performed; the native stack is given.
- UnifiedStack.WalkNative: writes only within the array, for the same reason.
- Framing.TcpChannel.Read: called in the middle of polling for a word, it passes over the bytes put aside, as its contract says.
- Framing: connecting is left out; a socket's errors are any error at any time.
- Debugger: the native call stack, symbols, processes, pipes and events, and everything of the front end are left out.
- Library: path handling, sockets, channels, file watching and the other bindings are left out.
