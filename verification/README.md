# Verified models of libsmx

This project models the parts of `libsmx` whose correctness is not visible from one function
body, and proves what they are for. To check it, run `dafny verify dfyconfig.toml` in this
directory with Dafny 4.11.

- **Regular expressions** (`Regx*.dfy`). The compiler is an imperative class that writes a node
  program into a code buffer in one pass, patches next offsets and shifts emitted code to insert
  operators. `RegxSyntax` gives patterns a language, `RegxLayout` says which bytes stand for a
  pattern, `RegxPatch`, `RegxEmit` and `RegxChain` show that inserting, patching and appending
  keep that. `RegxEnds` lists where a pattern's members end, in the order in which the pattern
  prefers them, `RegxMeaning` shows that plain backtracking on the program ends and goes through
  exactly that list, and `RegxShortcuts` justifies the first character, anchor and required
  substring. `RegxGrammar` follows the compiler's own parse; `RegxReference` is a simpler reading
  of patterns, one character at a time and with one form for each multiplier, and the two are
  proved to mean the same, preferences included. `RegxAtoms` says what the characters of a
  pattern mean in terms of the text alone. `RegxFind` puts compiling and matching together
  against that reading.
- **Macro language** (`Macro*.dfy`). `Macro` scans any text into characters and calls, as the
  interpreter or as the compiler reads it, and evaluates the result; what a function writes may
  depend on all calls before it, so equal results mean equal traces. `MacroInterp` is the
  interpreter, `MacroComp` the compiler, `MacroStream` and `MacroRun` the masked record stream,
  its runner and its printing as text, `MacroSides` says which texts both sides read alike, and
  `MacroQuote` is the quoting of strings. `MacroRead` writes texts from pieces (characters,
  escapes, names, and calls nested to any depth) and shows that both sides read them back as
  what the pieces mean; `MacroRaw` does the same for raw arguments. `MacroFlags` is the counter
  of the quote flags of a call.
- **Hash table** (`Hash*.dfy`). Linked nodes in an array that doubles and halves, scanning with
  deletion, and the string map over it, refined to a finite map; resizing cost is counted.
- **Locks** (`Crit.dfy`, `Mutex.dfy`). Every read and write of a shared variable is a step of one
  of any number of threads. The two-level mutex is built on the atomic lock that the steps of the
  recursive lock are proved to implement.
- **Reference-counted buffers** (`BufRef.dfy`), the **priority queue** (`PriQ.dfy`), the
  **scheduler** (`Sched.dfy`), **form state** (`Cgi.dfy`, `CgiForm.dfy`) and **Base64**
  (`Base64.dfy`). For the hash map, the buffers and the scheduler any run of operations is shown
  to do what the same operations do to plain values. `Bytes`, `Options` and `Seals` are shared by
  the others.

Conventions. A byte is a number below 256 and a C string a sequence of bytes; where the code works
in a caller's buffer the model has an array. Integers are unbounded unless a width is written out.
A read past the end of an input stream, and a byte 0xFF, both give `EOF`, because the code
compares a signed `char` with it. Character classes are those of the "C" locale. Streams that are
only appended to are values passed along. Anding a hash with a mask of the form `2^k - 1` is
written as a remainder (`HashMap.AndMask`). In long proofs some predicates are wrapped in a
quantifier over a token (`Seals.Wanted`, and in the regular expressions `Byte`, `Tree` and
`Place`, which name an address, a tree or a machine state) so that the verifier looks into them
only where the token is mentioned; the token has no other meaning.

Where the code and its comments or names differ, the code is followed. The comment on
`hash_delete` speaks of a count below the low mark; the code shrinks at or below it, before
removing, and only above 64 nodes, so a table of 128 chains never shrinks back to 64.
`EqualCaseCharPtr` returns the comparison's zero for equal keys, as the table expects, in spite
of its name.

Exact conditions. `SmxQuote` is undone by reading an argument exactly when no byte but the first
is 0xFF and the string is not an otherwise plain one beginning with `{`
(`MacroQuote.QuoteRoundTrip`); NUL bytes do no harm. Removing an item other than the top from the
priority queue breaks heap order exactly when the last key exceeds the key of the removed item's
parent (`PriQ.RemovedOrdered`), and the scheduler removes such items when a scheduled name is
deleted or defined anew. No element runs early in spite of it, and as long as no move takes a
scheduled name away every element taken is the next one due (`Sched.RunInTurn`). An element with an
offset goes on after a run exactly when the clock has moved past the slot it ran for by the time
the next one is computed and there is a slot left before its end: one whose run takes no measurable
time is dropped (`Sched.GoesOnExactly`). The slot computed for an element is the least one not yet
past exactly when fewer than 2^31 seconds have gone by since its first slot or, before that slot,
when the time difference does not wrap to a positive `int` (`Sched.SlotReached`). The next offset
of a node in a compiled pattern reads back as written exactly when it is below 64K
(`RegxPatch.OffsetKept`). The quote flags of a call come back exactly when it has at most 112
arguments or none is quoted (`MacroFlags.Keep`). A try-lock fails exactly when another thread has
the system mutex, which it can have while it is on its way in or out and the lock is free
(`Crit.StepRefines`); a lock has to wait exactly in that case, and a try never (`Crit.WhoWaits`). A
form string without a final ampersand gives its last pair exactly when the value is not empty, and a
last name without an equals sign takes the value before it (`CgiForm.ParseUnended`,
`CgiForm.ParseBareName`). Resizing a hash table never visits more than three chain slots or nodes per
insert and delete, with no constant added (`HashMap.TableBounds`).

## Model

| member | source | states |
|---|---|---|
| Regx.RegX.Compile | libsmx/regx.cpp:182-263 | accepts exactly the patterns its grammar parses; the code is then a program laid out for the pattern's tree, and the first character, anchor and longest required literal are those of the tree |
| Regx.RegX.Parse | libsmx/regx.cpp:265-337 | alternatives and groups: what is emitted is laid out for the tree parsed, earlier code is untouched, and the width flag is that of the tree |
| Regx.RegX.ParseBranch | libsmx/regx.cpp:339-376 | a branch emits its pieces in order, each linked to the next |
| Regx.RegX.ParsePiece | libsmx/regx.cpp:378-449 | an operator put behind an atom leaves code for the repeated tree, whichever of the special and general, greedy and lazy forms is chosen |
| Regx.RegX.ParseAtom | libsmx/regx.cpp:451-639 | an atom, a literal run, a class or a group emits code for its tree and reports width and simplicity of that tree |
| Regx.RegX.ParseInsert | libsmx/regx.cpp:676-695 | the bytes behind the insertion point move up by one node header and nothing else changes |
| Regx.RegX.ParseTail | libsmx/regx.cpp:697-719 | only the two offset bytes of the last node of the chain are written; below 64K they lead to the target asked for |
| RegxPatch.Moved | libsmx/regx.cpp:676-692 | no link crosses the insertion point, so an operand shifted by an insertion is still laid out for the same tree |
| RegxPatch.FragWalk | libsmx/regx.cpp:697-719 | following next offsets from a fragment's first node ends at its one open node |
| RegxPatch.Patched | libsmx/regx.cpp:697-719 | linking the open node of a fragment leads all exits of the fragment to the target and keeps the rest |
| RegxPatch.OffsetKept | libsmx/regx.cpp:697-719 | a next offset reads back as written if and only if it is below 64K, and a multiple of 64K reads back as none |
| RegxSyntax.WideIsSound | libsmx/regx.cpp:273-308 | a pattern flagged to have width has no empty member |
| RegxEnds.EndsAre | libsmx/regx.cpp:836-1053 | the ends listed in order of preference are the ends of all members of the language and of nothing else |
| RegxEnds.RepEnds | libsmx/regx.cpp:971-1039 | a greedy repeat of one character prefers the most characters there are and then ever fewer, a lazy one the fewest it may take and then ever more, and no end in between is missing |
| RegxMeaning.Frag | libsmx/regx.cpp:836-1053 | wherever a fragment stands, the machine started on it decides, and it goes on behind the fragment from the ends of the tree's members in their order of preference, up to the first one that leads to a match |
| RegxMeaning.ProgramMeans | libsmx/regx.cpp:836-1053 | on a whole program the machine ends at every position with the preferred end of a member of the language, and fails exactly where there is none |
| RegxCode.BtMonotone | libsmx/regx.cpp:836-1053 | an answer of the backtracking machine does not change when it is allowed more steps |
| Regx.RegX.MatchX | libsmx/regx.cpp:836-1053 | with its lookahead in star and plus loops it returns the verdict and the end of plain backtracking |
| Regx.RegX.MatchGreedy | libsmx/regx.cpp:971-1004 | trying repeats from the most down, those skipped by the lookahead included, gives the result of trying them all |
| Regx.RegX.MatchRepeat | libsmx/regx.cpp:1056-1103 | the number of consecutive characters that the operand takes |
| Regx.RegX.MatchTry | libsmx/regx.cpp:801-834 | succeeds at a position exactly when a prefix of the text there is in the language, and then reports the preferred end |
| Regx.RegX.Match | libsmx/regx.cpp:744-799 | reports the leftmost position where the language has a member, with the preferred end there, or 0 when there is none, the same as plain backtracking at every position in turn |
| RegxShortcuts.FirstLiteralIsRequired | libsmx/regx.cpp:213-250 | every member of the language begins with the tree's first literal |
| RegxShortcuts.LiteralIsRequired | libsmx/regx.cpp:213-250 | every member contains each literal of the main chain |
| RegxShortcuts.FragPassed | libsmx/regx.cpp:213-250 | the literals met along the main chain of the code are those of the tree |
| RegxReference.CompilerAgrees | libsmx/regx.cpp:451-639 | the compiler and the one-character-at-a-time reading accept the same patterns, with trees equal up to literal runs and the node chosen for a greedy repeat |
| RegxReference.FlatAltsEnds | libsmx/regx.cpp:378-449 | taking runs apart and dropping the special greedy repeats changes neither the members nor their order of preference |
| RegxReference.CompiledAlike | libsmx/regx.cpp:182-263 | whatever groups can match, a compiled pattern and the pattern as the reference reads it have the same members, and prefer the same ends |
| RegxReference.CompiledLanguage | libsmx/regx.cpp:182-263 | up to nine groups, which is all the matcher has cases for, those are the usual members and preferences |
| RegxAtoms.ClassLists | libsmx/regx.cpp:470-517 | a bracket expression ends at the first closing bracket that is not its first character and lists the characters and ranges before it, a hyphen making a range unless it stands first, last or at the end of another range; it is refused exactly when it has no end or a range before it is empty |
| RegxAtoms.AtomMeans | libsmx/regx.cpp:451-639 | what every atom but a group matches, said of the text alone: anchors, word ends, any character, bracket expressions, escaped and plain characters; which characters start no atom; and that the tree is simple and has width exactly when it takes a character |
| RegxAtoms.Characters | libsmx/regx.cpp:451-639 | which characters multiply, end a branch and make up words |
| RegxAtoms.WideIsExact | libsmx/regx.cpp:390-400 | on trees without anchors and word ends the width flag is exact: an operand that `*` and `+` are refused on matches the empty string everywhere |
| RegxAtoms.OptionPatterns | libsmx/regx.cpp:378-449 | a pattern of one letter, and one of a letter that may be left out, which is tried with the letter first |
| RegxAtoms.GreedyPatterns | libsmx/regx.cpp:402-424 | a letter with `*` or `+` takes as many as there are, and then ever fewer |
| RegxAtoms.LazyPatterns | libsmx/regx.cpp:402-424 | with `*?` or `+?` it takes as few as it may, and then ever more |
| RegxAtoms.BranchPatterns | libsmx/regx.cpp:265-376 | patterns of two letters in a row, of two alternatives on one line or on two, the first one preferred, and of a letter in a group |
| RegxFind.RxMatch | libsmx/string.cpp:1022-1065 | compiling and matching case-sensitively refuses exactly the patterns the reference grammar refuses, and else finds the leftmost place where the reference language of the pattern has a member, up to the end the pattern prefers there, or none when there is none; groups beyond the ninth cannot match, and without such groups this is the usual language |
| Macro.EvalConcat | libsmx/qctx.cpp:212-226 | evaluating two texts in a row is evaluating one and then the other on the history it leaves |
| Macro.Characters | libsmx/qctx.cpp:229-230 | the marks of the language are the characters they should be, and which characters start and make up names |
| MacroInterp.ParseArgsLPar | libsmx/qctx.cpp:557-590 | copies up to the matching parenthesis, dropping white space after each opening one, and tells whether it was closed |
| MacroInterp.ParseArgEscaped | libsmx/qctx.cpp:522-547 | copies a quoted run up to its end mark, parentheses nesting after an odd percent sign |
| MacroInterp.ParseArgQuoted | libsmx/qctx.cpp:478-520 | reads a raw argument: a quoted run and what follows it, trimmed only without one |
| MacroInterp.ArgChar | libsmx/qctx.cpp:356-417 | for any context, one character of a live argument changes the scan as the argument scan says, which `MacroRead.ReadWhole` ties to balanced text |
| MacroInterp.EvalTrim | libsmx/qctx.cpp:395-409 | cutting the spaces counted last cuts them from the output and no call |
| MacroInterp.Ctx.Parse | libsmx/qctx.cpp:212-226 | interpreting any text gives the output and makes the calls of its evaluation, broken-off names and unbound calls printed |
| MacroInterp.Ctx.ParseFunc | libsmx/qctx.cpp:232-316 | whatever follows a percent sign is read as scanned and evaluated, or printed when it calls nothing |
| MacroInterp.Ctx.ParseArgs | libsmx/qctx.cpp:318-342 | the values and quote flags of the arguments, evaluated left to right; the list itself keeps the flags of up to 112 |
| MacroInterp.Ctx.ParseArgsQmap | libsmx/qctx.cpp:422-475 | the same, the quote map deciding which are left raw |
| MacroFlags.Keep | libsmx/qarg.h:47-62 | quote flags set one after the other read back if and only if there are at most 112 or none is set: with 113 the signed counter has wrapped, and a 114th would be written outside the block |
| MacroInterp.Ctx.ParseArg | libsmx/qctx.cpp:344-420 | a live argument gives the output of its scan, calls inside made in order |
| MacroStream.MaskTwice | libsmx/qctx-comp.cpp:264-299 | masking twice with the same byte restores the data |
| MacroStream.MeansFunc | libsmx/qctx-comp.cpp:112-262 | running a call record, its arguments compiled, makes the call with the evaluated arguments, or prints it when the name is not bound, whatever the mask, the padding and what follows |
| MacroStream.MeansRef | libsmx/qctx-comp.cpp:230-262 | a call record without arguments makes the call, or prints the name between percent signs when it is not bound |
| MacroStream.RunKeptArgs | libsmx/qctx-comp.cpp:137-225 | the records of a call's arguments yield the evaluated arguments with their quote flags, quote modes in step |
| MacroComp.CtxComp.Parse | libsmx/qctx-comp.cpp:323-330 | the stream compiled from any text means what the compiler reads in it |
| MacroComp.CtxComp.ParseFunc | libsmx/qctx-comp.cpp:336-392 | whatever follows a percent sign extends the stream and the waiting text by its meaning, a broken-off name dropped |
| MacroComp.CtxComp.ParseCompArgs | libsmx/qctx-comp.cpp:397-457 | each argument is kept so that it means the scanned one under its quote mode |
| MacroComp.CtxComp.ParseCompArg | libsmx/qctx-comp.cpp:459-557 | a live argument becomes a nested stream with the argument's meaning |
| MacroComp.CtxComp.OutFunc | libsmx/qctx-comp.cpp:264-299 | writes the call record of the name and arguments under some mask |
| MacroRun.RunCompiled | libsmx/qctx-comp.cpp:112-262 | running any stream in place writes and calls what the stream means: nested streams, decompiled and reparsed arguments and records cut short included |
| MacroRun.CompiledAsInterpreted | libsmx/qctx-comp.cpp:112-557 | interpreting a text gives its evaluation as the interpreter reads it, and running the compiled stream the evaluation as the compiler reads it, whatever masks are drawn; so output, calls, arguments and quote flags agree on every text both read alike |
| MacroRun.Decompile | libsmx/qctx-comp.cpp:50-110 | printing any stream as text in place gives the text the stream stands for |
| MacroSides.TextAlike | libsmx/qctx-comp.cpp:336-392 | both sides read a text alike when every name after a percent sign ends in a percent sign, or in a left parenthesis and is bound |
| MacroQuote.SmxQuote | libsmx/core.cpp:865-897 | escaping from the first special character on is quoting and escaping the whole string |
| MacroQuote.SpecialIs | libsmx/core.cpp:865-897 | which characters make a string quoted, and which are marked inside quotes |
| MacroQuote.QuoteRoundTrip | libsmx/core.cpp:865-897 | a quoted string read as an argument up to a comma or right parenthesis comes back if and only if it has no 0xFF byte after its first and is not a plain string beginning with a brace, whatever follows and whichever side reads |
| MacroQuote.PrintAndRead | libsmx/core.cpp:865-897 | the same of the text that the interpreter returns for the printed string, in both directions |
| MacroQuote.ListReadsBack | libsmx/core.cpp:857-863 | a printed list of such strings is the argument list of the strings |
| MacroRead.ReadWhole | libsmx/qctx.cpp:344-420 | an argument written from characters, escapes, names and calls, its parentheses balanced by counting and its commas all inside parentheses, is read on both sides up to the comma or right parenthesis behind it, as what the pieces mean without the white space at its end |
| MacroRead.ReadArgs | libsmx/qctx.cpp:318-342 | a list of such arguments, with white space before each, is read as those arguments, up to its right parenthesis |
| MacroRead.ReadText | libsmx/qctx.cpp:212-316 | a text of characters, doubled percent signs, names and calls nested in each other is read on both sides as what it was written from |
| MacroRead.Interpret | libsmx/qctx.cpp:212-316 | interpreting such a text writes and calls what the pieces mean |
| MacroRead.StrayPercent | libsmx/qctx.cpp:303-315 | on both sides a percent sign that starts no name stands for itself, and so does the character behind it |
| MacroRead.BrokenName | libsmx/qctx.cpp:288-302 | a name that ends neither in a parenthesis nor in a percent sign is printed by the interpreter and dropped by the compiler |
| MacroRead.ReadBracedArg | libsmx/qctx.cpp:344-420 | an argument in braces is read up to the brace that balances the first one, whatever commas, spaces and parentheses it has; of the braces inside only the closing ones stay |
| MacroRaw.ModeIs | libsmx/qctx.cpp:422-475 | which arguments a quote map leaves raw, by their place: all for an initial 'A', else those with a '1', those behind a later 'A' like the one before it, and none behind the end of the map |
| MacroRaw.ReadRaw | libsmx/qctx.cpp:478-520 | a raw argument with balanced parentheses and commas only inside them is taken over as it is but for the white space at its end, and a quote mark in front makes it raw whatever the map says |
| MacroRaw.ReadRun | libsmx/qctx.cpp:522-547 | a quoted run of characters and escapes gives its characters, up to its end mark |
| HashChains.GrownRepresents | libsmx/hash.c:155-194 | splitting every chain by the exposed bit represents the same index |
| HashChains.ShrunkRepresents | libsmx/hash.c:229-258 | appending sister chains represents the same index |
| HashChains.ExposedMod | libsmx/hash.c:166-181 | the wider mask selects the old chain or its sister, by the exposed bit |
| HashTable.SplitChain | libsmx/hash.c:171-187 | the nodes of a chain are relinked into its two sides, each reversed, every node visited once |
| HashTable.Splice | libsmx/hash.c:237-246 | the high chain hangs behind the last node of the low one, each node of which was visited once |
| HashTable.Table.GrowTable | libsmx/hash.c:155-194 | the table doubles, stays valid, its index is unchanged, and the old slots and all nodes were visited once |
| HashTable.Table.ShrinkTable | libsmx/hash.c:229-258 | the table halves, stays valid, its index is unchanged, and the old slots and the nodes of their lower half were visited once |
| HashTable.Table.Lookup | libsmx/hash.c:556-571 | gives the node of the key in the index, or null if there is none |
| HashTable.Table.Insert | libsmx/hash.c:518-541 | the index gains the node under its key, growing or not |
| HashTable.Table.Delete | libsmx/hash.c:590-621 | the index loses the node's key and nothing else, shrinking or not |
| HashTable.Table.ScanDelete | libsmx/hash.c:646-670 | the same without shrinking, one entry leaving its chain |
| HashTable.GrownSizes | libsmx/hash.c:155-194 | what growing visits was saved up by calls since the last resize |
| HashTable.ShrunkSizes | libsmx/hash.c:229-258 | what shrinking visits was saved up by calls since the last resize |
| HashScan.FlatLists | libsmx/hash.c:432-448 | the chains one after the other list every entry of the index exactly once |
| HashScan.Scan.Next | libsmx/hash.c:478-502 | returns the first node still left, or null when none is, and moves past it |
| HashScan.Scan.DeletePassed | libsmx/hash.c:646-670 | deleting a node the scan has returned leaves what is left to return unchanged |
| HashScan.ScanSurvives | libsmx/hash.c:646-670 | taking out an entry already passed moves the scan's place by at most one |
| HashScan.FreeNodes | libsmx/hash.c:345-356 | empties any table |
| HashScan.Sweep | libsmx/hash.c:478-670 | a scan that keeps or deletes each node by an arbitrary choice returns every node once, and the index loses exactly the keys of those deleted |
| HashMap.Map.Find | libsmx/map.h:125-140 | the data of the key in the map it stands for |
| HashMap.Map.Set | libsmx/map.h:153-160 | the map it stands for is updated at the key's canonical form only |
| HashMap.Map.Del | libsmx/map.h:142-151 | the map loses the key, whose data is returned |
| HashMap.Map.Enum | libsmx/map.h:107-114 | every key of the map is met once, with its data |
| HashMap.RunOps | libsmx/map.h:107-160 | any run of settings, deletions and searches does to the map and returns what it does on a finite map, and resizing has visited at most three slots or nodes for each |
| HashMap.TableBounds | libsmx/hash.c:290-322 | after every run the table has 64 chains doubled some times, marks of half and twice that, a load of at most two, an exact count, and resizing has visited at most three slots or nodes for each insert or delete |
| HashMap.Verify | libsmx/hash.c:691-718 | the table's own check accepts a table, dynamic or static, valid or not, if and only if the marks of a dynamic one are increasing powers of two, every node is in the chain its masked hash selects and the count is right |
| HashMap.AndMask | libsmx/hash.c:691-718 | anding a number with one less than a power of two gives the remainder |
| HashMap.ValidPasses | libsmx/hash.c:691-718 | every valid table passes it |
| HashMap.HashCase | libsmx/mapstr.cpp:16-39 | hashing a key hashes its lower-case form |
| HashMap.StringsHashAlike | libsmx/mapstr.cpp:16-45 | keys that compare equal without regard to case hash alike |
| Crit.StepInv | libsmx/crit_unix.h:126-240 | each read, write or system call of any thread keeps the lock invariant |
| Crit.MutualExclusion | libsmx/crit_unix.h:126-240 | after every interleaving at most one thread is inside, a positive count means that the owner holds the system mutex, the unlocked owner test fails for all but the holder, and between calls the count is the holder's nesting depth |
| Crit.StepRefines | libsmx/crit_unix.h:126-240 | every step is no step, an enter or a leave of an atomic recursive lock, by the thread whose call it is; a call fails if and only if it is a try while another thread has the system mutex, and that thread has the lock or is on its way in or out |
| Crit.CallAnswers | libsmx/crit_unix.h:126-240 | after every run, a thread between calls has what its last call promises: a lock never answers false and leaves it one level deeper, a try answers true exactly when it does so, an unlock succeeds and leaves it one level less deep |
| Crit.WhoWaits | libsmx/crit_unix.h:126-240 | after every run, exactly those have to wait that begin an unlock outside, or are in a lock begun outside while another thread has the system mutex; a try never waits |
| Crit.UncontendedReturns | libsmx/crit_unix.h:126-240 | while no other thread has the system mutex, a call that runs alone returns true after a fixed number of steps, with its thread one level deeper or less deep |
| Mutex.StepInv | libsmx/crit_unix.h:286-346 | each step of any thread of any process keeps the two-level invariant, tries that miss a lock being taken or given up included |
| Mutex.Exclusion | libsmx/crit_unix.h:286-346 | at most one thread of all processes is inside, and at stable points a process has the file lock exactly while its spin count is positive |
| Mutex.TimeoutRestores | libsmx/crit_unix.h:310-339 | a wait that times out leaves spin count, file lock and nesting as it found them |
| Mutex.NestedWaitProceeds | libsmx/crit_unix.h:303-341 | a further wait of a thread already inside never blocks or times out |
| Mutex.CallAnswers | libsmx/crit_unix.h:286-346 | after every run, a wait without a time limit has taken its thread in once more and is never late, a timed one has done so or is late and has left it outside, and a signal has let it out once |
| Mutex.WhoWaits | libsmx/crit_unix.h:286-346 | exactly who has to wait, and in a timed wait only until the time is up |
| BufRef.Handle.Grow | libsmx/buf_ref.cpp:80-142 | this handle gets n bytes of its own, the first ones kept, any block added is new, and no other handle's bytes change |
| BufRef.Handle.Change | libsmx/buf_ref.cpp:153-164 | this handle gets a block of its own, which is new, and no handle's bytes change |
| BufRef.Handle.Copy | libsmx/buf_ref.cpp:166-179 | this handle stands for the other's bytes and no other one changes |
| BufRef.Handle.Free | libsmx/buf_ref.cpp:144-151 | this handle is empty, no other one changes, and a block is given back at its last handle |
| BufRef.Handle.Write | libsmx/buf_ref.h:126-126 | a write to a block of one handle shows in that handle only |
| BufRef.NothingDangles | libsmx/buf_ref.h:66-89 | no handle is on a freed block, and every live block counts its handles and has one |
| BufRef.RunOps | libsmx/buf_ref.cpp:80-179 | any run of copies, growths, changes, frees and writes to a handle made sole owner just before does to the handles what it does to independent byte strings |
| PriQ.PriQ.UpHeap | libsmx/qpriq.h:106-116 | sifting up in place, the sentinel ending it, is sifting up on the sequence |
| PriQ.UpOrders | libsmx/qpriq.h:106-116 | sifting up restores heap order |
| PriQ.PriQ.DownHeap | libsmx/qpriq.h:150-164 | sifting down in place is sifting down on the sequence |
| PriQ.DownOrders | libsmx/qpriq.h:150-164 | sifting down leaves all in order but perhaps its starting place, and that one exactly when the key fits below its parent |
| PriQ.PriQ.Insert | libsmx/qpriq.h:135-147 | adds one item, growing if need be, and keeps heap order |
| PriQ.PriQ.Remove | libsmx/qpriq.h:171-178 | returns and drops exactly item i; a heap stays one if and only if i is 1 or the last key does not exceed the key at i/2 |
| PriQ.RemovedDrops | libsmx/qpriq.h:171-178 | the array without the item has the same content but for it |
| PriQ.RemovedOrdered | libsmx/qpriq.h:171-178 | the if and only if on the array |
| PriQ.InsertAndDrain | libsmx/qpriq.h:135-178 | inserting any items below the sentinel and draining gives the same items in non-increasing order |
| Sched.SlotIsLeast | libsmx/qsched.h:159-188 | the slot computed is the least whole number of offsets after the first time that is not before now |
| Sched.SlotReached | libsmx/qsched.h:159-188 | with the time difference narrowed to an int, that slot is the one computed if and only if the difference does not wrap, or wraps to a number that is not positive before the first slot |
| Sched.Elem.CalcNext | libsmx/qsched.h:159-188 | returns the slot for the narrowed time difference, or 0 exactly when an end is set and the clock or the slot lies past it |
| Sched.Pool.Delete | libsmx/qsched.cpp:316-338 | the name goes, its element and nothing else leaves the heap, heap and map still agree, and the heap stays in order if and only if the element was on top or the last key does not exceed that of its parent |
| Sched.Pool.Schedule | libsmx/qsched.cpp:235-260 | the element takes the place of whatever had its name, in the map and in the heap for its time, heap and map still agree, and under a free name the heap stays in order |
| Sched.Pool.RemoveHeap | libsmx/qsched.h:373-384 | the element taken is in hand, heap, hand and map agree, and from a heap in order it is the one with the highest key, and the order stays |
| Sched.HeapAndHandAreMap | libsmx/qsched.h:350-395 | the heap's elements and the one in hand are exactly the values of the map |
| Sched.Pool.RunOnce | libsmx/qsched.cpp:164-204 | one round runs an element only when its slot has come, for a later slot than every time before, keeps heap, map and order and leaves the pool ready for the next round; from a heap in order, with every element there for its next slot, the one it takes has the least next slot of all, so that it runs if any is due |
| Sched.RunMoves | libsmx/qsched.cpp:164-338 | any run of definitions, deletions, pauses, takings and settlings does to the pool what it does to a plan of jobs and times under names with a record of runs for every definition, a taking in order taking the name that is due next; at its end heap, hand and map agree, and every element defined, still there or not, has run as its record says |
| Sched.RunPlanned | libsmx/qsched.cpp:164-338 | in every such run every record, also of elements replaced, deleted or dropped, has runs that are not early, for strictly increasing slots |
| Sched.RunInTurn | libsmx/qsched.cpp:164-338 | as long as no move deletes a scheduled name or defines it anew, the queue stays in order and every element taken is due before all others |
| Sched.RoundRunsDue | libsmx/qsched.cpp:164-204 | in such a run without negative times, a round takes an element whose next slot no other comes before, and if the slot of any element has come it records a run of that one unless it is paused |
| Sched.GoesOnExactly | libsmx/qsched.cpp:188-200 | an element with an offset goes on after its slot came if and only if the clock has moved past that slot when the next one is computed and the least slot not before the clock is not past the end |
| Sched.OnceOnly | libsmx/qsched.cpp:188-200 | an element without an offset goes after its one run |
| Cgi.UrlEncode | libsmx/cgi.cpp:1178-1217 | the encoding of the string before its first NUL, at most three times as long |
| Cgi.Characters | libsmx/cgi.cpp:662-700 | the marks of a form string are the characters they should be |
| Cgi.UrlDecode | libsmx/cgi.cpp:576-595 | decoding in the string's own buffer gives the decoding of the original string |
| Cgi.UrlRoundTrip | libsmx/cgi.cpp:1178-1217 | decoding undoes encoding on every string without NUL |
| Cgi.DecodeAnySpelling | libsmx/cgi.cpp:447-595 | decoding gives a string back from every way of writing its bytes: as they are, a plus sign for a space, and escapes with digits in capitals or not |
| Cgi.EncodedByteIs | libsmx/cgi.cpp:1176-1217 | encoding leaves letters, digits and seven marks as they are, writes a plus sign for a space and an escape in capitals for the rest |
| Cgi.Cell.Link | libsmx/cgi.cpp:42-47 | the value is added behind all others of the list, whose head stays |
| CgiForm.FormMap.Set | libsmx/cgi.cpp:65-73 | with a linked list for every name, the value joins the list of its name, whatever the case of the name, and all other lists are unchanged |
| CgiForm.FormMap.LinkAt | libsmx/cgi.cpp:65-73 | linking a value to one list of a form whose lists share no cell leaves a form whose lists share no cell, with that value added |
| CgiForm.ParseFormString | libsmx/cgi.cpp:662-700 | parsing in the string's own buffer sets the pairs that the string says, in order |
| CgiForm.PrintForm | libsmx/cgi.cpp:900-921 | walking the lists prints every value of every field once, in some order of the fields |
| CgiForm.ParsePrinted | libsmx/cgi.cpp:662-700 | printed pairs parse to those pairs |
| CgiForm.ParseUnended | libsmx/cgi.cpp:695-698 | without the last ampersand printed pairs parse to the same pairs, but for the last one if its value is empty |
| CgiForm.ParseBareName | libsmx/cgi.cpp:695-698 | a last name without an equals sign is set to the value before it, unless that is empty or there is none |
| CgiForm.ParseUnendedForm | libsmx/cgi.cpp:662-700 | parsing such a text without its last ampersand in a buffer gives the form of those pairs |
| CgiForm.ParsePairAt | libsmx/cgi.cpp:668-690 | a pair in a text is read the same whether an ampersand or a second equals sign ends it |
| CgiForm.SkipTo | libsmx/cgi.cpp:688-693 | what stands in front of a question mark or ampersand and has no equals sign is passed over |
| CgiForm.FormRoundTrip | libsmx/cgi.cpp:662-921 | printing a form and parsing the result gives the same form with the order of each list, in whatever order the fields came |
| CgiForm.PrintAndParse | libsmx/cgi.cpp:662-921 | the same through the methods, from lists to buffer to lists |
| Base64.Encode | libsmx/base64.cpp:66-95 | the padded encoding of section 4 of RFC 4648 for every byte string |
| Base64.Decode | libsmx/base64.cpp:100-129 | groups of four letters give their bytes that are not zero |
| Base64.RoundTrip | libsmx/base64.cpp:66-129 | decoding the encoding gives the string without its zero bytes, so the string itself when it has none |
| Base64.Mime | libsmx/base64.cpp:32-64 | lines of 48 bytes each ended by a line break, of the given length or for length zero of the whole string, never longer than the computed buffer |
| Base64.LinesJoin | libsmx/base64.cpp:32-64 | taking the line breaks out gives the encoding in one line |
| Base64.AlphabetIs | libsmx/base64.cpp:20-29 | the letters are those of table 1 of RFC 4648, and padding and line ends the characters they should be |
| Base64.LineAt | libsmx/base64.cpp:32-64 | every full line is 48 bytes in 64 letters and a line break |

## Left out

- Regx.RegX.Compile: is about programs below 64K. The code does not check next offsets for more, and they then read back wrong (`RegxPatch.OffsetKept`), so that the walk along them need not end.
- Regx.RegX.Parse: the same bound.
- Regx.RegX.ParseBranch: the same bound.
- Regx.RegX.ParsePiece: the same bound.
- Regx.RegX.ParseAtom: the same bound, and class ranges as a case-sensitive compile emits them.
- Regx.RegX.MatchX: does not model where groups matched, nor the branches for matching without regard to case.
- Regx.RegX.MatchGreedy: does not model the lookahead without regard to case.
- Regx.RegX.MatchRepeat: does not model the literal loop without regard to case.
- Regx.RegX.Match: does not model matching after a failed compile, which leaves an unfinished program behind, nor where groups matched.
- RegxFind.RxMatch: is about the flag `s`, which asks for case-sensitive matching, and about programs below 64K; the body evaluated for a match is not modelled.
- RegxReference.CompiledLanguage: is about at most nine groups, because the matcher has no case for the nodes of higher ones; `CompiledAlike` is stated for any number of them, with the language cut accordingly.
- RegxAtoms.WideIsExact: is about trees without anchors and word ends and with groups within the cap, since such a test can fail everywhere.
- Regular expressions: growth of the code buffer, splitting and dumping.
- MacroInterp.Ctx.Parse: calls of more than 112 arguments are given all their quote flags, which the argument list loses; strict mode and nesting limits are not modelled.
- MacroInterp.Ctx.ParseFunc: the same, and exceptions of the function called.
- MacroInterp.Ctx.ParseArgs: the flags of more than 112 arguments, which the argument list loses.
- MacroInterp.Ctx.ParseArgsQmap: the flags of more than 112 arguments, which the argument list loses.
- MacroComp.CtxComp.OutFunc: the kinds of more than 112 arguments, which the argument list loses.
- MacroRun.CompiledAsInterpreted: the compiled side is stated for calls of at most 112 arguments, past which their quote flags are lost (`MacroFlags.Keep`), and for streams shorter than 2^30 bytes, the width of a length; quote maps are non-empty strings of '0', '1' and 'A'.
- MacroComp.CtxComp.Parse: the same bounds.
- MacroComp.CtxComp.ParseFunc: the same bounds.
- MacroComp.CtxComp.ParseCompArgs: the same bounds.
- MacroComp.CtxComp.ParseCompArg: the same bounds.
- MacroRead.ReadWhole: the calls inside are of bound functions without a quote map, and the argument does not start with a quote or brace; what these do is in `MacroQuote.QuoteRoundTrip`, `MacroRead.ReadBracedArg` and `MacroRaw.ReadRaw`.
- MacroRead.ReadArgs: the same.
- MacroRead.ReadText: the same of the calls.
- MacroRead.ReadBracedArg: is about text without backslashes and percent signs.
- MacroRaw.ReadRaw: is about text without backslashes, and without white space right behind an opening parenthesis, which the code drops (`MacroInterp.ParseArgsLPar`).
- MacroRaw.ReadRun: is about runs without percent signs.
- MacroRun.RunCompiled: says nothing where the code reads a count that was never set or prints a record of negative length; the flags of more than 112 arguments are not lost, and strict mode is not modelled.
- MacroRun.Decompile: says nothing of a record of negative length.
- Macro language: strict mode, nesting limits, exceptions, line numbers, magic strings at the start of a document, and functions that bind names while a text is read.
- HashTable.Table.GrowTable: assumes that allocation succeeds.
- HashTable.Table.ShrinkTable: assumes that allocation succeeds.
- HashTable.Table.Insert: assumes that allocation succeeds and that the table is dynamic; static tables and allocator hooks are not modelled.
- HashTable.Table.Delete: assumes that the table is dynamic.
- HashMap.Map.Set: keys are strings by value, so neither key copying nor NULL keys are modelled; the default hash function is not.
- Crit.MutualExclusion: assumes that only a thread that has locked unlocks, that memory is sequentially consistent, and that system calls on a good mutex do not fail.
- Crit.CallAnswers: the same assumptions.
- Crit.WhoWaits: the same assumptions.
- Mutex.TimeoutRestores: assumes that `flock` fails only because another process has the lock; clocks are a choice of the environment at each look.
- Locks: the event class.
- BufRef.Handle.Grow: assumes that allocation succeeds; the sized constructor is not modelled, nor the width of reference counts and sizes.
- BufRef.Handle.Change: assumes that allocation succeeds.
- BufRef.RunOps: a write is made only to the handle that the operation before it, or a write after that, has made sole owner, as the code asks of its callers.
- PriQ.PriQ.Remove: keys are unbounded integers. Assignment of queues is not modelled.
- Sched.Pool.RunOnce: the macro an element runs is not modelled, nor waiting, persistence and the flags of days and months, whose check is constant.
- Sched.RunMoves: every move is one step, as the lock and the one running thread make it; a name in hand is neither defined anew nor deleted, and the run that resuming makes up for is not recorded.
- Sched.RoundRunsDue: is about runs in which no name is taken away and no time is negative; a negative time makes 0, the sign of no next slot, look like a later one.
- Sched.Pool.Delete: the freeing of elements and the persistence call are not modelled.
- Sched.Pool.Schedule: while an element is in hand nothing else is scheduled under its name, as the code needs.
- CgiForm.FormMap.Set: the map from names to lists is a value; the hash table it is built on is modelled apart.
- CgiForm.FormRoundTrip: is about names that are not empty and free of NUL, '=', '&', '?', '%' and '+', since names are printed as they are.
- CgiForm.ParseUnended: the same names.
- CgiForm.ParseBareName: the same names.
- Form state: multipart bodies, cookies and the selection of names by prefix.
- Base64.Decode: does not model that characters of 128 and more index the decoder's map with a negative number; they count as characters outside the alphabet.
- Sockets, files, images, database drivers, OpenSSL, Perl, threads, resources and everything else outside the files cited.
