# Verification of ftrace

ftrace single-steps a process. Of every instruction it looks at the first eight bytes; for a call, a return or a
system call it prints a line, and from those lines it writes a call graph in the DOT language. This project models
that path from the word at the instruction pointer to the text of the graph, and proves what the text means.

| file | models |
|---|---|
| `Words`, `CallTables`, `CallDecoder` | the call decoder and its three tables (srcs/print_calls.c, srcs/resolve_sib.c, srcs/getter_sib.c, srcs/utils_sib.c, srcs/get_sib.c, srcs/bswap.c) |
| `Sdm` | the reference for it: near calls as defined by the Intel 64 and IA-32 Architectures Software Developer's Manual, Volume 2A, sections 2.1.5, 2.2.1.2, 2.2.1.6 and the CALL page |
| `DecoderProofs` | decoder and manual compared |
| `CallTargets` | where each form of call goes, in the bytes of the word and the fields of the register file |
| `CallGraph` | the call graph as a state machine over events, and the shadow stack over whole runs |
| `DotReader` | the reference for the file: a reader of the DOT statements it may hold |
| `GraphReading`, `GraphFile` | what the file of a run must say, what it does say, and when the two are the same |
| `LinkedList`, `GraphWriter` | the linked shadow stack and the writer (srcs/list_functions.c, srcs/exec.c) |
| `Tracer` | the dispatch on words (srcs/exec.c, srcs/type_instruction.c) and runs over words |
| `CStrings`, `LineSpec`, `LineReader` | `get_next_line`: specification on values, and the ring of nodes in memory |
| `SymbolOrder`, `SymbolTable` | filling, sorting and searching symbol tables (srcs/get_symbols.c, srcs/resolve_symbols.c) |
| `LibCache`, `Resolver` | the list of loaded libraries, and resolution through the memory map (srcs/list_lib_symbols.c, srcs/resolve_symbols.c) |

Registers, memory and the answers of `read` are inputs: a record, a total function from addresses to the word that
`ptrace` returns (all ones where it cannot read), and a sequence of chunks or errors per descriptor. So are mapped ELF
files, with what memory holds in the place of each section header. `strtol` and the loading of a library are
deterministic functions. Words are numbers below 2^64, and shifts and masks are written as
division and remainder, so wrap-around and sign extension are explicit.

## What the proofs found

The code does not always do what it is for. Each of these is kept as it is, with the exact condition under which the
code is right:

- The file reads as the graph of what its names stand for if and only if no node name ends in an odd number of
  backslashes (the last would escape the closing quote) and no node is the first to be printed after matched
  instructions that printed nothing (its arrow would have no source). It reads as the graph that was meant if and only
  if, besides, no backslash in a name escapes a newline, which DOT drops with the backslash:
  `GraphFile.FileReadsIffSound`, `GraphFile.FileReadsBackIffClean`. Names can be of that kind, since syscall texts
  quote strings of the traced process byte by byte (srcs/print/print_char_ptr.c:22-50). Inputs that go wrong:
  `GraphFile.ClosingQuoteTaken`, `GraphFile.NewlineLost`, and, with ordinary code, `push r15` before the first call:
  `Tracer.ArrowWithoutSource`.
- An indirect call is decoded as the manual says if and only if `DecoderProofs.Agrees` holds. It fails for `[r15]`,
  which reads r14 (srcs/print_calls.c:56); for a SIB base of rbx, which reads rcx (srcs/resolve_sib.c:56); and for SIB
  base 5, taken as 0 and without the displacement it stands for in mod 00 (srcs/resolve_sib.c:58, 66, 108-111).
- A system call whose number is unknown prints a lone `@`, loses it as its last character, and passes for a call with
  an empty name (srcs/exec.c:26-27, 90-103). The stack is right all along a run if and only if the run has no such
  call: `Tracer.StackOfRunIff`, with an input in `Tracer.UnknownSyscallPushed`.
- When an end of file ends a call without a line, `get_next_line` keeps a newline, and the call after the NULL answers
  with an empty line nobody wrote; after an error it does not: `LineSpec.EmptyLineAfterNullIff`, with an input in
  `LineSpec.EmptyFileGivesLine`.
- The loops over a symbol table stop inside its allocation if and only if some symbol is left out of the table:
  `SymbolTable.EndIff`, with an input in `SymbolTable.NoEndWithoutNull`.

## Model

| member | source | states |
|---|---|---|
| GraphFile.FileReadsBackIffClean | srcs/exec.c:60-142 | for every run, a DOT reader recovers from the file exactly the intended statements, and these mean one edge per call or syscall other than the first event, each from the call in progress, in order, one grey mark per syscall and no other names, if and only if no name escapes its closing quote or a newline and no arrow lacks a source |
| GraphFile.FileReadsIffSound | srcs/exec.c:60-142 | with names that may escape newlines, the reader recovers the statements of the run whose names are what the written ones stand for, if and only if no name escapes its closing quote and no arrow lacks a source |
| GraphFile.SizeAsRead | srcs/exec.c:106-108 | a name that escapes a newline loses characters for good: whatever the rest of the run, the names read are shorter in all than those intended |
| GraphFile.TextOfRun | srcs/exec.c:60-113 | the whole text of the file for a run with an event of every kind, with any names |
| GraphReading.RetIsBreaks | srcs/exec.c:92-113 | the flag that asks for a fresh chain is set exactly when the last event that was not silent is a return or a syscall |
| GraphFile.ReadRun | srcs/exec.c:81-115 | the run invariant behind it: what is written so far means what its names stand for, and unless a fresh chain is asked for the last node written is the top of the stack; an event that cannot be read spoils the file for good |
| GraphReading.TracksStep | srcs/exec.c:92-108 | one event keeps the run invariant: a node is chained to the last one written, or to a fresh chain from the stack top |
| GraphReading.SpoiledBy | srcs/exec.c:100-106 | a name that escapes its closing quote, or an arrow with no source, leaves text that no continuation repairs |
| GraphFile.ClosingQuoteTaken | srcs/exec.c:106 | an input whose file does not read back: a call named by a letter and a backslash |
| GraphFile.NewlineLost | srcs/exec.c:106 | an input whose file says something else: backslash and newline inside a name vanish |
| CallGraph.StackIsOpenCalls | srcs/list_functions.c:21-57 | after any run the stack holds exactly the names of the calls no later return closes, innermost first |
| CallGraph.TopIsInnermost | srcs/exec.c:94-99 | the source of an edge is the latest call still open, and the unknown caller only if none is |
| CallGraph.StackDepth | srcs/list_functions.c:40-52 | the depth is the balance of calls and returns above its lowest value over all prefixes: returns on an empty stack lose nothing |
| CallGraph.FramesCorrect | srcs/list_functions.c:21-52 | the k-th frame is an open call with exactly k open calls above it |
| CallGraph.Requote | srcs/exec.c:70-79 | quotes become apostrophes, nothing else changes, so no name holds a quote |
| DotReader.ReadNode | srcs/exec.c:106-108 | a quoted text adds the name it stands for, unless a backslash not itself escaped stands before the closing quote and takes it into the name |
| DotReader.ReadNodeIffWhole | srcs/exec.c:106-108 | a written name is read as it is if and only if it escapes neither a newline nor the closing quote |
| DotReader.MeaningIsWhole | srcs/exec.c:106-108 | a name that escapes a newline is read as a shorter one, any other stands for itself, pairs of backslashes included |
| DotReader.SpoiledForever | srcs/exec.c:81-115 | once a name holds a quote or the reader has given up, reading on never mends it |
| LinkedList.List.Push | srcs/list_functions.c:21-38 | the list afterwards is the new element followed by the old list; push_lib (srcs/list_lib_symbols.c:24-44) is the same operation |
| LinkedList.List.Pop | srcs/list_functions.c:40-52 | the list loses its first element, if it has one |
| LinkedList.List.First | srcs/list_functions.c:54-57 | the first element, or none |
| GraphWriter.DeleteQuote | srcs/exec.c:70-79 | in place, the C string in the buffer is requoted and the rest of the buffer is unchanged |
| GraphWriter.DotWriter.FormatDotfile | srcs/exec.c:81-115 | stack, flag and text move exactly as the state machine does on the event of the buffer's text |
| Tracer.Tracer.PrintInstruction | srcs/exec.c:117-143 | a word that matches adds one event, whose text is the one printed; any other word changes nothing; calls print the resolution of the decoded target |
| Tracer.Tracer.GetInstruction | srcs/exec.c:16-43 | the text printed for each kind of word |
| Tracer.Tracer.Finish | srcs/exec.c:172-173 | the closed file is the text of the run, and reads back as the run if and only if the run was clean; without a matched word there is no file |
| Tracer.Classification | srcs/type_instruction.c:16-41 | on bytes: the returns are C2, C3, CA, CB, CF and F3 C3, the syscall is 0F 05, and E8, FF, 9A and 41 pass the call filter |
| Tracer.KindsAreDisjoint | srcs/type_instruction.c:16-41 | no word is two of syscall, return and call, and the first filter lets every call through |
| Tracer.EventByWord | srcs/exec.c:16-43 | the kind of event by the kind of word alone |
| Tracer.MovesAsWordIff | srcs/exec.c:24-42 | one instruction pushes for a call, pops for a return, both told by their bytes, and otherwise leaves the stack alone, if and only if it is not a syscall with an unknown number |
| Tracer.StackOfRunIff | srcs/exec.c:165-171 | over a run of arbitrary words the stack is, after every prefix, pushed exactly on E8, FF /2 and 41 FF /2 and popped exactly on returns, if and only if every syscall of the run is known |
| Tracer.CallThenReturn | srcs/exec.c:92-114 | any call word and any return word after it leave the stack as it was, whatever was traced before |
| Tracer.CallNode | srcs/exec.c:35-40 | a call's node is named by operand and resolved name, quotes replaced and the final newline gone |
| Tracer.SyscallNode | srcs/exec.c:24-28 | a syscall's node is named by its description behind an at-sign |
| Tracer.UnknownSyscallPushed | srcs/exec.c:24-28 | an input that goes wrong: a syscall with an unknown number pushes an empty name |
| Tracer.ArrowWithoutSource | srcs/exec.c:126-141 | an input that goes wrong: `push r15` passes the filter, and the call after it is written behind an arrow without a source |
| DecoderProofs.DecoderMeetsManualIff | srcs/print_calls.c:118-174 | for every FF /2 or 41 FF /2 word and register file, the operand found is the manual's if and only if the stated condition on word and registers holds |
| DecoderProofs.TargetMeetsManualIff | srcs/print_calls.c:118-144 | the same for the target, over all memories |
| CallTargets.RegisterCall | srcs/print_calls.c:39-80 | FF D0 to FF D7, and 41 before them: the n-th of the sixteen general registers, named field by field |
| CallTargets.MemoryCall | srcs/print_calls.c:134-143 | without a SIB byte: that register plus the signed displacement the trailing bytes are congruent to, modulo 2^64; `[r15]` alone reads r14 |
| CallTargets.RipCall | srcs/print_calls.c:140-141 | relative to rip: the address after the instruction plus the signed displacement, modulo 2^64 |
| CallTargets.SibCall | srcs/resolve_sib.c:90-116 | with a SIB byte: base, index times 1, 2, 4 or 8, and signed displacement, modulo 2^64, with the departures spelled out |
| CallTargets.RelativeCall | srcs/print_calls.c:187-193 | E8: the address of the next instruction plus the one number in [-2^31, 2^31) that the four bytes are congruent to modulo 2^32, modulo 2^64 |
| DecoderProofs.PlainIs | srcs/print_calls.c:134-143 | without a SIB byte: base plus sign-extended displacement, counted from the next instruction when relative to rip, modulo 2^64 |
| DecoderProofs.SibIs | srcs/resolve_sib.c:90-116 | with a SIB byte: base plus index times scale plus displacement, modulo 2^64 |
| DecoderProofs.TrailingBytesIgnored | srcs/print_calls.c:118-144 | two words that agree on the bytes of the instruction, never more than eight, are decoded alike |
| DecoderProofs.RelativeTrailingBytesIgnored | srcs/print_calls.c:187-193 | for E8, the first five bytes decide |
| DecoderProofs.WrongR15 | srcs/print_calls.c:56 | an input for which `[r15]` is decoded wrongly |
| DecoderProofs.WrongRbx | srcs/resolve_sib.c:56 | an input for which a base of rbx is decoded wrongly |
| DecoderProofs.WrongRbp | srcs/resolve_sib.c:58 | an input for which a base of rbp is decoded wrongly |
| DecoderProofs.WrongAbsolute | srcs/resolve_sib.c:108-111 | an input for which a bare displacement is decoded wrongly |
| CallDecoder.Decoder.PrintCall | srcs/print_calls.c:177-207 | counts a call exactly for E8, FF /2 and 41 FF /2, and returns the relative target, the resolved operand, or 0 |
| CallDecoder.Decoder.PrintRelative | srcs/print_calls.c:187-193 | for E8: the address of the next instruction plus the signed four bytes after the opcode, modulo 2^64 |
| CallDecoder.Decoder.CallOffset | srcs/print_calls.c:189 | the two byte swaps and the shifts leave bits 8 to 39 |
| CallDecoder.BytesOf | srcs/bswap.c:1-5 | the byte order that bswap is defined by: the bytes of a word put together from bytes are those bytes |
| CallDecoder.Decoder.PrintRmByteCall | srcs/print_calls.c:146-175 | for every ModR/M byte with /2 the second search of the table finds its entry, and the operand is resolved |
| CallDecoder.Decoder.IsACall | srcs/print_calls.c:86-96 | the first search succeeds exactly for /2 |
| CallDecoder.Decoder.GetAddrFunc | srcs/print_calls.c:118-144 | the register, or memory at the computed address |
| CallDecoder.Decoder.SibSum | srcs/resolve_sib.c:101-105 | in every state the decoder reaches, flag and prefix agree, so the index is never the extended register and both tables are entered where the fields of the byte say |
| CallDecoder.Decoder.ResolveSib | srcs/resolve_sib.c:90-116 | memory at the SIB address, given that REX flag and prefix are in step |
| CallDecoder.Decoder.GetIndexSib | srcs/getter_sib.c:10-18 | the first entry whose range holds the byte, or 0 |
| CallDecoder.Decoder.GetIndexBase | srcs/getter_sib.c:20-29 | the first entry for base and REX flag, or 0 |
| CallDecoder.Decoder.SibHit | srcs/getter_sib.c:10-18 | exactly one entry of the index table holds a given byte, at the place its fields give |
| CallDecoder.Decoder.BaseHit | srcs/getter_sib.c:20-29 | with flag and prefix in step exactly one entry of the base table matches |
| CallDecoder.Decoder.GetValueIndexScale | srcs/getter_sib.c:31-50 | the register numbered by the entry's index field, none for number 4, shifted left by its scale bits, modulo 2^64; in every state reached this is the manual's index, and only out of step would it be the register eight further on |
| CallDecoder.Decoder.GetValueBase | srcs/getter_sib.c:52-58 | the register with the number of the entry, except that entry 3 gives rcx and entries 5 and 13 give 0 |
| CallDecoder.Decoder.ManageByte | srcs/utils_sib.c:14-23 | the byte in memory after the SIB byte, its top bit counting for -2^7, is added modulo 2^64 |
| CallDecoder.Decoder.ManageDword | srcs/utils_sib.c:25-34 | the four bytes in memory after the SIB byte, their top bit counting for -2^31, are added modulo 2^64 |
| CallTables.RegsCallShape | srcs/print_calls.c:15-81 | all 64 entries, by REX bit, mod and rm |
| CallTables.SibTableShape | srcs/resolve_sib.c:15-49 | all 32 entries, by scale and index |
| CallTables.BaseTableShape | srcs/resolve_sib.c:51-69 | all 16 entries, by REX bit and base, with their departures |
| DecoderProofs.GetSibIs | srcs/get_sib.c:12-16 | the extracted displacement is the bytes after ModR/M, least significant first |
| DecoderProofs.SizeIs | srcs/get_sib.c:3-10 | the size of the displacement, and of the whole instruction when relative to rip, is the manual's |
| LineSpec.LinesAreSplit | srcs/get_next_line.c:107-134 | for every schedule of reads and any kept text, the lines before the first NULL are the newline split of all text delivered, where short chunks gain a newline and an end of file only closes a line begun |
| LineSpec.SplitIs | srcs/get_next_line.c:78-105 | that split has no newline in a line, and with one put after each line gives back the text up to its last newline |
| LineSpec.ScheduleLines | srcs/get_next_line.c:107-134 | for every schedule of reads of 1 to 42 bytes without a NUL, the lines are the split of the chunks, each of fewer than 42 bytes that ends no line gaining a newline |
| LineSpec.NextConserves | srcs/get_next_line.c:78-105 | a call that returns a line takes exactly that line and its newline from what is left to return; NULL means no complete line is left |
| LineSpec.NextShrinks | srcs/get_next_line.c:118-133 | every line returned uses up a read or kept text |
| LineSpec.FileLines | srcs/get_next_line.c:107-134 | a NUL-free regular file, read in full buffers, comes back line by line, its last line closed if it was not |
| LineSpec.EmptyLineAfterNullIff | srcs/get_next_line.c:118-130 | when a call ends without a line, a newline is left behind and the next call answers with an empty line if and only if an end of file at the start of a line came before any error |
| LineSpec.EmptyFileGivesLine | srcs/get_next_line.c:122-129 | an input: a descriptor at its end answers NULL, then an empty line |
| LineReader.ReadInTurn | srcs/get_next_line.c:107-134 | calls on any number of descriptors in any order, made on the ring: each descriptor is answered as it would be alone |
| LineReader.Reader.GetNextLine | srcs/get_next_line.c:107-134 | returns the line the specification gives, moves only its own descriptor, and leaves one ring of nodes with distinct descriptors, turned to this one |
| LineReader.Reader.FindFdOrCreateIt | srcs/get_next_line.c:6-33 | the search ends, finds the node of the descriptor or puts a new one in at the end of the ring, and disturbs no other node |
| LineReader.Turn | srcs/get_next_line.c:114 | turning the ring leaves it one cycle |
| LineReader.Reader.Patch | srcs/get_next_line.c:122-126 | the patches turn a read of s bytes into the chunk, closed by a newline when it is short and ends no line |
| LineReader.AddStrTo | srcs/get_next_line.c:51-76 | the new string is the old one followed by the text of the buffer |
| LineReader.ReturnIt | srcs/get_next_line.c:78-105 | line, newline and rest make up the old string, and the line holds no newline |
| LineReader.IsBackslashN | srcs/get_next_line.c:35-49 | whether the string holds a newline |
| SymbolOrder.StrCmpIsBefore | srcs/get_symbols.c:29 | the comparison decides by the order of a dictionary: the first text runs out first, or has the smaller character where the two first differ |
| SymbolOrder.KeyIs | srcs/get_symbols.c:25-29 | what is compared: the text from the first character that is no underscore, at-sign or NUL, with A to Z folded to a to z |
| SymbolOrder.KeysArePreordered | srcs/get_symbols.c:23-30 | the order of names is total and transitive, and equal rank means equal keys |
| SymbolOrder.YoloCmp | srcs/get_symbols.c:23-30 | its sign tells which of the two folded texts comes first in a dictionary |
| SymbolTable.SortSym | srcs/get_symbols.c:32-57 | in place: the entries before the end are permuted into dictionary order of their keys, in either mode, and the end and all after it stay |
| SymbolTable.SelectLeast | srcs/get_symbols.c:44-54 | one pass of the inner loop brings a least entry of the stretch to its front |
| SymbolTable.GetType | srcs/get_symbols.c:59-86 | the letter of a symbol by its section's type and flags, and -1 when the section's header starts past the end of the file |
| SymbolTable.FillSlot | srcs/get_symbols.c:88-100 | one slot receives the value modulo 2^32, the letter made small for a local symbol and `w` for a weak one, and the name; no other slot changes |
| SymbolTable.CodeEntry | srcs/get_symbols.c:88-100 | the entry of a symbol of a code section: `t` if local, `T` if global, `w` if weak, with the low 32 bits of its value |
| SymbolTable.SectionlessEntry | srcs/get_symbols.c:70-75 | undefined, absolute and common symbols get their letters, small for local ones |
| SymbolTable.GetSym | srcs/get_symbols.c:102-131 | the kept symbols in order, then zeros, with an all-zero end inside the array exactly if some symbol is left out; no table without a symbol section or with a name past the end of the file |
| SymbolTable.FilledFromKept | srcs/get_symbols.c:118-129 | the entries are exactly those filled from the symbols whose info byte is none of 0, 3 and 4 |
| SymbolTable.EndIff | srcs/get_symbols.c:110-130 | the table has an end that stops every loop inside its array if and only if some symbol is left out |
| SymbolTable.NoEndWithoutNull | srcs/get_symbols.c:110-130 | an input whose table has no end: one global function and no null symbol |
| SymbolTable.PrintSym | srcs/get_symbols.c:133-154 | a sorted permutation of the kept symbols with its end inside the allocation |
| SymbolTable.ResolveSymbolLib | srcs/resolve_symbols.c:33-50 | the name of the first symbol with the value; none for a null table or a zero address |
| SymbolTable.LookupFindsLeast | srcs/resolve_symbols.c:33-50 | after filling and sorting, the name found comes no later in the dictionary, by key, than that of any kept symbol with that value modulo 2^32, and none is found exactly if no kept symbol has it |
| SymbolTable.AliasFound | srcs/get_symbols.c:23-57 | in the table of a file with `beta` and `_Alpha` at one address, the address is called `_Alpha` |
| LibCache.GetSymbolsLib | srcs/get_symbols.c:238-249 | a library's table is the sorted table of its file, with its end |
| LibCache.CacheIsTransparent | srcs/resolve_symbols.c:69-71 | a table kept is what a fresh load would give, and adding a successful load keeps the list faithful and without duplicates |
| LibCache.GetSymbolsByLib | srcs/list_lib_symbols.c:46-60 | the first table kept under the name |
| Resolver.SymbolResolver.TableOf | srcs/resolve_symbols.c:69-71 | the table used is a fresh load's; only successful loads are kept, each once, and nothing kept is lost |
| Resolver.SymbolResolver.GetLib | srcs/resolve_symbols.c:52-77 | what is printed is what a search of the map prints when every library is loaded afresh, reading only as many lines of only this descriptor as it needs |
| Resolver.ScanIsSearch | srcs/resolve_symbols.c:62-76 | reading the map on demand finds what searching all its lines finds |
| Resolver.HitIsLeast | srcs/resolve_symbols.c:64-73 | a line with a path settles the search if and only if it starts with the number of the header found, or with one below the address while the number after its first dash is above it, and its library keeps a symbol at the address less that number; the name printed is then least in the order among all of them |
| Resolver.NotConsulted | srcs/resolve_symbols.c:64-67 | any other line settles nothing |
| Resolver.NamePrintedIsLeast | srcs/resolve_symbols.c:62-76 | from files to text: what is printed comes from the first line that settles the search, and names a symbol least among all that library's kept symbols at the offset; nothing is printed exactly if no line settles it |
| Resolver.FindHeader | srcs/resolve_symbols.c:10-31 | the greatest address at or below the start with the ELF magic, or 0 if an unreadable or all-ones word comes first |
| Resolver.MagicBytes | srcs/resolve_symbols.c:24 | the comparison of four characters is one of the low 32 bits |
| Resolver.FirstStopUnique | srcs/resolve_symbols.c:17-29 | that answer is the only one |
| Resolver.SymbolResolver.ResolveSymbol | srcs/resolve_symbols.c:91-118 | nothing, all names in the program at the address, or the name the memory map leads to with the header found |
| Resolver.OwnNames | srcs/resolve_symbols.c:101-110 | the walk over the program's symbols stops at its end and prints one line per symbol at the address |
| Resolver.OwnLists | srcs/resolve_symbols.c:101-110 | those lines are the names of exactly the entries before the end that have the address, in order, so something is printed if and only if some entry has it |
| Resolver.OneOwnName | srcs/resolve_symbols.c:105-109 | the line printed for one symbol, character by character, with the C string its name points at |

## Left out

- ptrace, fork, exec, waiting, signals, opening files and mapping them: memory, registers and read answers are inputs.
- Operand mnemonics, column padding, argument printers and the table of system calls: their texts are the inputs `call`, `rax` and `syscall` of `Tracer.Outputs`, assumed free of NUL.
- Sharing the standard output buffer with a stack array of 2048 bytes: each instruction's text is taken to fit a fresh buffer.
- LineReader.Reader.GetNextLine: a kept string is a value in its node, because it is written once, when it is built, and never again; the new strings are still filled by the source's copying loops. A closed descriptor number that is opened again is not told apart from one that goes on.
- DecoderProofs.DecoderMeetsManualIff: REX prefixes other than 41 are not part of it, because the decoder takes no such word for a call and `CallDecoder.Decoder.PrintCall` states that it returns 0.
- SymbolTable.SortSym: requires every name to lead to a character other than `_`, `@` and NUL, because otherwise the comparison runs off the string table.
- Resolver.FindHeader: requires something to stop the scan at or below the start, as an unreadable address 0 does, because otherwise it wraps round.
- Resolver.SymbolResolver.ResolveSymbol: requires address 0 to be unreadable, as FindHeader does, and a table with its end inside it, as PrintSym provides.
- Tracer.Tracer.PrintInstruction: has the same two requirements, and takes memory as it is at the peek.
- SymbolTable.PrintSym: requires some symbol to be left out and every kept name to stop the skipping, because otherwise the loops run off their arrays; the first half is exact by `SymbolTable.EndIff`.
- The range checks on section headers before `get_sym`, the checks of the ELF header, argument parsing and the search of PATH.
- Allocation failure, leaks, and the memory that is freed.
- Whether another process changes memory between the peek and the single step.
