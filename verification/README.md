# LeonOS 3: a verified model of the program loader, the interpreter and the kernel's tables

LeonOS 3 is a small kernel that boots from a ramdisk image, loads ELF programs and runs them natively or in an
interpreter for a subset of x86-64. This project models its stateful components and proves what they promise.

* **Programs** (`Elf`, `Loader`, `InitialStack`, `StackLayout`, `UserStrings`, `Relocation`, `Instructions`,
  `Manual`, `Execution`, `Interpreter`, `Runs`, `Effects`, `ElfRunner`, `ProgramHeap`): program headers are read,
  segments are copied into one byte array, argv and envp are pushed below its top with a pointer table under them, and
  a processor steps over the same array. `InitialStack` is the builder as the code runs it; `StackLayout` says where
  everything ends up; `Relocation` compares two builds at different addresses. `Instructions` gives decoding, `Manual`
  compares it with the processor manual's encoding rules, `Execution` gives the meaning of each instruction,
  `Interpreter` the chain of byte-pattern arms over mutable registers and memory, and `Runs` is about whole runs.
  `Effects` says what a step does from the bytes at rip alone, with registers by their numbers. `ElfRunner` puts the
  parts together from the image to the end of the run, and `ProgramHeap` adds the heap that memories come from.
* **Files** (`Lfs`, `LfsFormat`, `LfsRoundTrip`, `Paths`, `FdTable`, `FdRuns`, `FdStreams`, `OpenFiles`, `CallMeaning`,
  `FdCalls`, `Dirents`): the LFS1 writer of the build script and the kernel's reader, the 64-slot descriptor table and
  the system calls on it, and the `linux_dirent64` stream they produce. `FdTable` specifies each call as a function of
  the table, `FdRuns`, `FdStreams` and `OpenFiles` are about all runs, `CallMeaning` says what single calls promise,
  with paths by their characters, and `FdCalls` is the table as it is updated in place.
* **Exit status** (`ExitStatus`, `Reap`): the one-shot wait flag, and the user program that reads it and prints it.
* **Memory** (`BumpAllocator`): any number of threads interleaving the loads and compare-exchanges of `alloc`.
* **Terminal** (`VgaTerminal`, `LineEditor`): the 25 by 80 screen with lazy wrapping, and the shell's line editor.
* **Shared** (`Words`, `Bits`, `Utf8`, `Memory`): bounded integers, masks, well-formed UTF-8 and checked accesses.

Conventions. 64-bit words are integers below 2^64. Where the code adds without a check the model wraps, as a release
build does; a development build stops with an overflow panic instead. Conditions that the code relies on without
checking are stated as such, with what happens without them: the top of a program's stack is an address
(`ElfRunner.StartsExactly`), and `heap_end + align` does not wrap (`BumpAllocator.SafeExactly`). Slices are at most
`isize::MAX` bytes long. Error returns are `None`, negative numbers or result values. Arms of the interpreter
are grouped by opcode into methods, in source order within a group.

Where the code departs from what one would expect, the model follows the code; where it depends on the input, a
lemma names one:

* The System V ABI asks for a 16-byte aligned stack pointer at process entry; the builder gives that only when
  argc + envc is odd (`StackLayout.StackSpaceAndFrame`, `ElfRunner.StartAlignment`), so never to a program without
  arguments and environment (`ElfRunner.MisalignedStart`).
* A program's memory comes from the kernel's 32 MiB heap, which frees nothing. A load that finds too little room ends
  in the allocation-error loop (`Loader.LoadProgram`, `ProgramHeap.MemoryGranted`); some images within the native
  runner's limits can never be loaded (`ProgramHeap.LargeNativeNeverLoads`, `ProgramHeap.LargeNativeHappens`), and at
  most 255 programs can be loaded between two boots (`ProgramHeap.FewPrograms`).
* A program whose stack top would lie beyond the address space is loaded and never starts (`ElfRunner.StartsExactly`,
  `ElfRunner.WrapHappens`).
* Immediate moves, 32-bit loads and leas to some registers are carried out without storing the result
  (`Manual.DroppedExactly`, `Manual.DropHappens`).
* The add, sub, or and and instructions leave the flags alone, and `48 C7` zero-extends its immediate.
* Two `lea` arms (`kernel/src/elf_runner.rs:519` and `:667`) lie behind a more general arm and cannot be reached;
  `Interpreter.ExecLeaRest` shows that they do what the general arm does.
* A failed stack build leaves the memory part-written; nothing is promised about it.
* A path that is not empty, "." or "/" but reduces to nothing once white space around it, a leading "./" and leading
  slashes are removed exists for `access` and not for `stat` (`FdStreams.AccessVersusStat`, `Paths.ReducesToRoot`); "./"
  is one (`FdStreams.AccessWithoutStat`).
* 65536 files make an image that reads as empty (`LfsRoundTrip.TooManyFiles`), and a file without a name hides the
  files after it (`LfsRoundTrip.OpenRoundTrip`, `LfsRoundTrip.ListRoundTrip`).
* An alignment that wraps at the end of the heap lets a thread fill the heap and then receive a block at address 0.
  This is the release build's outcome; a development build stops at the addition with an overflow panic. It happens
  for a request exactly when the end of the heap plus the alignment exceeds 2^64 and the size does not exceed
  the end of the heap (`BumpAllocator.SafeExactly`, `BumpAllocator.EscapeHappens`).
* A segment whose file size exceeds its memory size can pass both range checks of the copy loop and still overrun
  the memory, which is a slice-index panic (`Loader.PlacementExactly`, `Loader.OverrunHappens`).

## Model

| member | source | states |
|---|---|---|
| Elf.ParseElf64 | kernel/src/elf.rs:70-123 | Succeeds exactly on well-formed images, with entry, type and load segments; otherwise reports the first demand that fails. All header reads are in bounds. |
| Elf.OneVerdict | kernel/src/elf.rs:71-102 | The error conditions exclude each other and well-formedness, so each bad image has one error. |
| Elf.ExactlyTheLoads | kernel/src/elf.rs:104-116 | The segments are those of the PT_LOAD headers, each exactly once and in table order. |
| Elf.HeaderRoundTrip | kernel/src/elf.rs:50-61 | Fields read from a program header laid out as in the ELF gABI are the fields it was made from. |
| Elf.FileHeaderRoundTrip | kernel/src/elf.rs:31-48 | Fields read from a file header laid out as in the ELF gABI are the fields it was made from, and they say exactly when the image is accepted. |
| Elf.FaultMeaning | kernel/src/elf.rs:71-102 | Which error an image gets, by the fields of its file header. |
| Elf.FileRoundTrip | kernel/src/elf.rs:70-123 | A file with an encoded header and an encoded program-header table is accepted and read as the segments the table describes. |
| Elf.TableRoundTrip | kernel/src/elf.rs:104-116 | A table of encoded program headers is read back as the load segments it describes. |
| Loader.ScanSegments | kernel/src/elf_runner.rs:75-80 | The loop computes the lowest address and the highest saturated end. |
| Loader.Extent | kernel/src/elf_runner.rs:75-80 | These bound every segment and are attained by segments. |
| Loader.CopySegments | kernel/src/elf_runner.rs:97-113 | Places all segments exactly when each can be placed, and then every byte of memory is the one the last covering segment gives it, or zero; otherwise reports the trouble of the first segment that cannot be placed. |
| Loader.CopyOne | kernel/src/native_runner.rs:254-276 | One segment: which check fails, or the splice of its file bytes into memory. |
| Loader.DestinationCheck | kernel/src/elf_runner.rs:98-102 | After the scan the destination check fails exactly for a segment ending at 2^64 + STACK_SIZE or later, so never without address wrap. |
| Loader.PlacementExactly | kernel/src/elf_runner.rs:97-113 | After the scan, whether a segment is refused, overruns or is placed, as a condition on the program headers alone and for any size of stack area. |
| Loader.PlacedExactly | kernel/src/elf_runner.rs:97-113 | When the loop places everything, as a condition on the program headers alone, in both directions. |
| Loader.OrdinarySegmentsLoad | kernel/src/elf_runner.rs:97-113 | Segments with filesz <= memsz, no wrap and file extents inside the image are always placed. |
| Loader.Untouched | kernel/src/elf_runner.rs:95-113 | A byte no segment's file data reaches stays zero. |
| Loader.LastWriter | kernel/src/elf_runner.rs:97-113 | Where segments overlap the later one's file data stands. |
| Loader.SegmentContents | kernel/src/elf_runner.rs:97-113 | For disjoint segments each address holds its own segment's file byte, or zero in the bss part. |
| Loader.GapContents | kernel/src/elf_runner.rs:97-113 | Gaps between segments and the stack area hold zero. |
| Loader.LoadProgram | kernel/src/native_runner.rs:204-276 | For both runners (the interpreter's half is kernel/src/elf_runner.rs:70-113), each with its own limits and stack area, and for any room left in the heap: loads exactly the loadable images that the room suffices for, and says what memory then holds; runs out of memory exactly when the earlier checks pass and the room does not suffice; every refusal has its own condition, and the panic of an overrunning copy is reached exactly when the first segment in trouble overruns. |
| Loader.OverrunHappens | kernel/src/native_runner.rs:254-276 | For each runner a concrete image that passes every check and on which the copy panics. |
| Loader.NativeLoadsMore | kernel/src/native_runner.rs:204-276 | The native runner loads every image the interpreter loads, fixed-address programs aside. |
| Loader.NativeLoadsStrictlyMore | kernel/src/native_runner.rs:46-47 | It also loads the image on which the interpreter's copy panics, because its stack area is larger. |
| Loader.LimitsMeaning | kernel/src/elf_runner.rs:86-93 | The size and segment limits of both runners in numbers, and the refusal beyond them. |
| Loader.RefusalMeaning | kernel/src/native_runner.rs:206-227 | The refusals for no segment, a fixed address and an empty range, in their order. |
| Loader.OneSegmentFares | kernel/src/native_runner.rs:204-276 | Whether an image of one segment is sized, loads or overruns, by its sizes alone. |
| ElfRunner.RunLinuxElf | kernel/src/elf_runner.rs:64-147 | The whole runner: refusal, no memory, panic, failed stack build, or the result of the bounded run from the start state, for every image. |
| ElfRunner.StartsExactly | kernel/src/elf_runner.rs:115-116 | A loaded program whose strings need at most STACK_SIZE - 31 bytes starts if and only if its stack top, 16 bytes below the end of its memory, is below 2^64. |
| ElfRunner.WrappedProgramFails | kernel/src/elf_runner.rs:115-116 | A program whose stack top is no address never starts, whatever its strings. |
| ElfRunner.WrapHappens | kernel/src/elf_runner.rs:115-116 | An image of one byte 4096 bytes below 2^64 is loaded and never starts. |
| ElfRunner.StartAlignment | kernel/src/elf_runner.rs:149-195 | The stack pointer a program starts with is 0 modulo 16 for an odd number of strings and 8 for an even number. |
| ElfRunner.MisalignedStart | kernel/src/elf_runner.rs:149-195 | Every loaded program whose stack top is an address starts, without arguments and environment, with a stack pointer that is 8 modulo 16. |
| ProgramHeap.MemoryGranted | kernel/src/allocator.rs:33-63 | After any history of harmless calls, an undisturbed request for a program's memory is granted exactly when the rest of the heap suffices, and gets its start. |
| ProgramHeap.AttemptGranted | kernel/src/allocator.rs:42-62 | Among other threads, an attempt is granted exactly when its compare-exchange wins and the rest suffices. |
| ProgramHeap.RoomBounded | kernel/src/allocator.rs:24-63 | The rest of the heap is at most the heap, in every run. |
| ProgramHeap.LargeNativeNeverLoads | kernel/src/native_runner.rs:237-250 | A native program within the limits that would leave less than its stack area of a 32 MiB heap never gets its memory, whatever has happened since boot. |
| ProgramHeap.LargeNativeHappens | kernel/src/native_runner.rs:46-47 | Such an image has 120 bytes and passes every other check. |
| ProgramHeap.FewPrograms | kernel/src/allocator.rs:65-67 | In every run all blocks together fit the heap, so at most 255 of them can be programs' memories. |
| ElfRunner.ProgramStarts | kernel/src/elf_runner.rs:115-135 | When the strings need at most STACK_SIZE - 31 bytes, the program starts at its entry point with every other register but the stack pointer zero, the flags clear, the stack pointer in the stack area and every loaded byte intact. |
| ElfRunner.SegmentsAtStart | kernel/src/elf_runner.rs:75-135 | From the image to the first instruction: each segment byte is readable at its own address in the start state. |
| ElfRunner.ArgumentsAtStart | kernel/src/elf_runner.rs:115-135 | In the start state the stack pointer addresses argc, argv and envp exactly as they were passed. |
| Memory.Write | kernel/src/elf_runner.rs:1164-1181 | Stores the low bytes of the value at a mapped window and nothing else; on failure memory is untouched. |
| Memory.Read8 | kernel/src/elf_runner.rs:1146-1162 | Reads the little-endian word inside mapped memory, and fails outside it. |
| Memory.AccessMeaning | kernel/src/elf_runner.rs:1113-1181 | An access is mapped exactly when all its bytes are; reads and writes are little-endian digit by digit and touch nothing else. |
| Words.LeDigit | kernel/src/elf_runner.rs:1146-1181 | Byte k of a stored word is its digit of weight 256^k. |
| Memory.WriteThenRead | kernel/src/elf_runner.rs:1132-1181 | A stored value is read back, cut to its width. |
| Memory.WriteKeepsOthers | kernel/src/elf_runner.rs:1132-1181 | A store changes no word outside its own window. |
| InitialStack.PushCstrInto | kernel/src/elf_runner.rs:197-208 | Writes the string and its NUL below the stack pointer, or fails and writes nothing. |
| InitialStack.BuildInitialStack | kernel/src/elf_runner.rs:149-195 | The two reversed loops, the mask rounding and the table loop compute the specified build. |
| StackLayout.BuildIsLayout | kernel/src/elf_runner.rs:149-195 | The build succeeds exactly when the closed-form layout stays above the base, and then memory is three disjoint splices: argv text, envp text, pointer table. |
| StackLayout.StackSpaceAndFrame | kernel/src/elf_runner.rs:156-194 | Only bytes from the stack pointer to the rounded top change, at most Need bytes; the stack pointer is a multiple of 8, and of 16 exactly when argc + envc is odd. |
| StackLayout.EnoughSpaceSucceeds | kernel/src/elf_runner.rs:156-194 | Need bytes of room are always sufficient. |
| Relocation.RelocationInvariance | kernel/src/native_runner.rs:436-499 | Moving base and top by a multiple of 16 keeps the outcome, moves the stack pointer along and changes no byte but the pointer words, which grow by the same amount. |
| UserStrings.ReadUserCstr | kernel/src/elf_runner.rs:1022-1035 | The loop computes the specified reading, faults included. |
| UserStrings.ReadUserPtrArray | kernel/src/elf_runner.rs:1037-1050 | The loop collects the pointers up to the first zero or the limit. |
| UserStrings.ReadUserStrArray | kernel/src/elf_runner.rs:1052-1062 | The loop collects the strings at those pointers. |
| UserStrings.CstrMeaning | kernel/src/elf_runner.rs:1022-1035 | A string is returned exactly when memory holds it with its NUL and it is NUL-free UTF-8 of at most 4095 bytes. |
| UserStrings.PtrsMeaning | kernel/src/elf_runner.rs:1037-1050 | A pointer array is read, in both directions, as the nonzero words up to the first zero or the limit. |
| UserStrings.StrsMeaning | kernel/src/elf_runner.rs:1052-1062 | The strings read are, in both directions, those at the pointers; one pointer to no string fails the whole. |
| UserStrings.AuxiliaryVector | kernel/src/elf_runner.rs:171-190 | Null words end argv and envp, and the auxiliary vector gives a page size of 4096 and ends. |
| UserStrings.ArgumentRoundTrip | kernel/src/elf_runner.rs:149-208 | After a successful build argc, argv and envp are read back exactly as passed; no string or table write disturbs another. |
| Manual.DecodeFollows | kernel/src/elf_runner.rs:209-858 | Every decoded instruction is what its bytes encode by sections 2.1.3 and 2.2.1 of the Intel manual: operation, operands by the ModR/M, SIB and REX fields, displacement and immediate bits. |
| Manual.DroppedExactly | kernel/src/elf_runner.rs:474-515 | For which destination registers the immediate moves, 32-bit loads and leas drop their result, in both directions. |
| Manual.DropHappens | kernel/src/elf_runner.rs:209-858 | `mov ebx, 7` changes nothing but rip. |
| Instructions.DecodeIsLocal | kernel/src/elf_runner.rs:209-858 | The bytes behind an instruction have no influence on its decoding. |
| Interpreter.PushWord | kernel/src/elf_runner.rs:1100-1105 | Pushes a word, or fails with registers and memory untouched. |
| Interpreter.PopWord | kernel/src/elf_runner.rs:1107-1111 | Pops a word, or fails with registers untouched. |
| Interpreter.HandleSyscallIn | kernel/src/elf_runner.rs:860-1003 | The system calls the interpreter handles itself, execve's path and lookup errors included; what the rest of the kernel answers is a parameter. |
| Interpreter.ExecOne | kernel/src/elf_runner.rs:209-858 | The chain of arms does what the decoder and the instruction's meaning say, for every machine state; a step that errors leaves registers and memory untouched. |
| Runs.RunLoop | kernel/src/elf_runner.rs:137-147 | The bounded loop computes the specified run. |
| Runs.RunEnds | kernel/src/elf_runner.rs:137-147 | A run ends after some number of steps that all ran on: with StepLimit exactly when that number is the whole limit, otherwise with what its next step says. |
| Interpreter.ExecLeaRest | kernel/src/elf_runner.rs:518-523 | The two lea arms behind the general one do what the decoder says, which is what the general arm does. |
| Effects.SupportedExactly | kernel/src/elf_runner.rs:209-858 | The encodings that are executed, byte by byte and in both directions. |
| Effects.LengthExactly | kernel/src/elf_runner.rs:209-858 | Each has the length its prefix, opcode, ModR/M, SIB, displacement and immediate add up to. |
| Effects.OutsideMeaning | kernel/src/elf_runner.rs:1113-1130 | Outside memory a step fails with AddressOutOfRange. |
| Effects.TruncatedMeaning | kernel/src/elf_runner.rs:1137-1144 | So it does when a 32-bit immediate cannot be read. |
| Effects.UnsupportedMeaning | kernel/src/elf_runner.rs:854-858 | Every other encoding fails, naming its address and bytes. |
| Effects.MoveMeaning | kernel/src/elf_runner.rs:324-342 | mov between registers, by their numbers; everything else stays. |
| Effects.ZeroMeaning | kernel/src/elf_runner.rs:582-628 | xor of a register with itself writes zero and no flag. |
| Effects.SignExtendMeaning | kernel/src/elf_runner.rs:274-279 | movsxd rax, esi. |
| Effects.AluMeaning | kernel/src/elf_runner.rs:344-382 | add, or, and, sub with sign-extended immediates, modulo 2^64 and without flags. |
| Effects.TestMeaning | kernel/src/elf_runner.rs:631-647 | test of a register with itself sets the zero and sign flags and nothing else. |
| Effects.CompareMeaning | kernel/src/elf_runner.rs:674-681 | cmp al sets both flags by the 8-bit difference. |
| Effects.ConditionalMoveMeaning | kernel/src/elf_runner.rs:649-656 | cmovns rdx, rax moves exactly when the sign flag is clear. |
| Effects.ImmediateMeaning | kernel/src/elf_runner.rs:683-735 | Immediate moves keep 32 bits unsigned, and some registers drop them. |
| Effects.LeaMeaning | kernel/src/elf_runner.rs:474-508 | lea computes the address of its operand, which some registers drop. |
| Effects.LoadMeaning | kernel/src/elf_runner.rs:438-472 | 32-bit loads from the operand's address, or a fault; some registers drop the value. |
| Effects.LoadWideMeaning | kernel/src/elf_runner.rs:510-516 | 64-bit loads. |
| Effects.LoadByteMeaning | kernel/src/elf_runner.rs:658-664 | The load into al replaces the low byte of rax. |
| Effects.StoreMeaning | kernel/src/elf_runner.rs:771-793 | Stores of 32-bit immediates. |
| Effects.StoreWideMeaning | kernel/src/elf_runner.rs:309-315 | Stores of 64-bit registers. |
| Effects.PushMeaning | kernel/src/elf_runner.rs:1100-1105 | push stores the old register below rsp, or faults. |
| Effects.PopMeaning | kernel/src/elf_runner.rs:1107-1111 | pop loads the word at rsp, or faults. |
| Effects.JumpMeaning | kernel/src/elf_runner.rs:809-815 | jmp rel32 changes nothing but rip. |
| Effects.ShortJumpMeaning | kernel/src/elf_runner.rs:817-823 | jmp rel8. |
| Effects.JumpIfZeroMeaning | kernel/src/elf_runner.rs:825-834 | je is taken exactly when the zero flag is set. |
| Effects.CallMeaning | kernel/src/elf_runner.rs:801-807 | call pushes the next address. |
| Effects.CallIndirectMeaning | kernel/src/elf_runner.rs:836-852 | A call through memory, and its way out to rdi. |
| Effects.PlainMeaning | kernel/src/elf_runner.rs:218-231 | nop and endbr64 do nothing; ret and hlt end the program. |
| Effects.ExitMeaning | kernel/src/elf_runner.rs:986-989 | exit and exit_group end the program. |
| Effects.WriteMeaning | kernel/src/elf_runner.rs:918-931 | write faults exactly when its buffer is not inside memory, and else answers what the kernel does. |
| Effects.ReadMeaning | kernel/src/elf_runner.rs:867-917 | read stores a line or at most 256 bytes into the part of the buffer inside memory. |
| Effects.LineMeaning | kernel/src/elf_runner.rs:876-898 | A keyboard line ends with the first line end, which becomes a newline, or with the buffer. |
| Effects.ExecveMeaning | kernel/src/elf_runner.rs:932-985 | execve's faults, its three errors, and its end. |
| Effects.ForwardMeaning | kernel/src/elf_runner.rs:990-1003 | Every other call puts the kernel's answer into rax. |
| Runs.SuccessExactly | kernel/src/elf_runner.rs:209-1003 | A step ends a program successfully if and only if it executes ret, hlt, exit, exit_group, or an execve whose program exists and ran. |
| Runs.RunSucceedsExactly | kernel/src/elf_runner.rs:137-147 | A run succeeds if and only if it comes to such an instruction within the limit. |
| Runs.RunSucceedsBy | kernel/src/elf_runner.rs:137-147 | A successful run was ended, after some number of steps within the limit that all ran on, by one of these instructions. |
| Runs.ExecuteFrame | kernel/src/elf_runner.rs:209-858 | Apart from system calls an instruction changes at most one window of at most eight bytes. |
| Runs.StepFrame | kernel/src/elf_runner.rs:209-1003 | A step that does not fail changes nothing outside that window or, for a read call, outside the caller's buffer, and never the length of memory. |
| Runs.RunFrame | kernel/src/elf_runner.rs:137-147 | However a run ends, bytes that none of its steps stores to are as before. |
| Runs.RunKeepsLength | kernel/src/elf_runner.rs:137-147 | No run changes the length of memory. |
| Runs.StraightLine | kernel/src/elf_runner.rs:137-141 | Any straight-line code whose stores miss its own bytes runs as the fold of its instructions' meanings, faults included, and advances rip by its length, whatever bytes follow. |
| Runs.ShadowedLea | kernel/src/elf_runner.rs:474-530 | The general lea arm has the effect of the special arms behind it. |
| Runs.PushesThenPops | kernel/src/elf_runner.rs:1100-1111 | k pushes and then k pops give the values back reversed, restore rsp and leave memory at and above it alone. |
| Bits.BitMeaning | kernel/src/elf_runner.rs:344-382 | Each bit of an and and of an or. |
| Bits.MaskRoundsDown | kernel/src/elf_runner.rs:156 | Masking with the complement of 2^k - 1 rounds down to a multiple of 2^k. |
| Bits.LowByteReplaced | kernel/src/elf_runner.rs:1064-1071 | The masks of `set_al` replace the low byte of rax and nothing else. |
| Lfs.BuildLfs1 | build.rs:102-134 | The in-place writer produces the image of the files, or stops at the name-length assertion. |
| LfsFormat.ImageMeaning | build.rs:102-134 | What the writer puts at each byte of the header and of each table entry. |
| LfsFormat.HeaderMeaning | kernel/src/fs.rs:29-52 | The header of any image: the first demand that fails, or the count. |
| LfsFormat.EntryMeaning | kernel/src/fs.rs:82-114 | Any entry of any image: the first demand that fails, or name, mode and data. |
| LfsFormat.LookupMeaning | kernel/src/fs.rs:63-80 | entry and open over any image. |
| LfsRoundTrip.HeaderOfImage | kernel/src/fs.rs:29-52 | The reader's count is the number of files, cut to 16 bits. |
| LfsRoundTrip.EntryOfImage | kernel/src/fs.rs:82-114 | What entry i of any written image reads as, with no bound on sizes. |
| LfsRoundTrip.FileRoundTrip | kernel/src/fs.rs:82-114 | Below 4 GiB every named file comes back exactly; an empty name is refused. |
| LfsRoundTrip.EntryRoundTrip | kernel/src/fs.rs:74-80 | entry(i) over the whole range of i, for up to 65535 files. |
| LfsRoundTrip.OpenRoundTrip | kernel/src/fs.rs:63-72 | open finds the first file of the name if no file without a name comes before it; otherwise it fails, with InvalidName if there is a file without a name and NotFound if there is none. |
| LfsRoundTrip.ListRoundTrip | kernel/src/fs.rs:54-61 | list visits the files in order and stops with InvalidName at the first without a name. |
| LfsRoundTrip.DataTiles | build.rs:111-131 | The data regions tile the image from the end of the table to its end. |
| LfsRoundTrip.TooManyFiles | build.rs:109 | With 65536 files the count field reads zero and nothing can be opened. |
| FdRuns.RunKeepsInv | kernel/src/syscall.rs:176-183 | Over every run of mount, open, read, seek, close, dup, dup2 and getdents64: slots 0 to 2 stay free, every open file is the whole data of some record of the mounted image, and positions stay in isize range. |
| FdRuns.StepKeepsInv | kernel/src/syscall.rs:327-458 | Each call keeps that invariant. |
| FdRuns.BootSatisfiesInv | kernel/src/syscall.rs:176-183 | Mounting a root establishes it. |
| FdRuns.FillMeaning | kernel/src/syscall.rs:562-601 | One getdents64 fill is the longest run of whole entries that fits. |
| FdStreams.AllocIsLowest | kernel/src/syscall.rs:315-325 | A new descriptor is the lowest free slot from 3 on; EBUSY exactly when there is none. |
| FdStreams.OthersUnchanged | kernel/src/syscall.rs:327-458 | No call but mounting changes a slot besides its own, and open and dup take only free slots. |
| FdStreams.DupCopies | kernel/src/syscall.rs:876-889 | A duplicate is an independent copy with the same contents and position. |
| FdStreams.FileStream | kernel/src/syscall.rs:378-403 | Reads of any sizes, interleaved with any calls on other descriptors, deliver exactly the file's bytes between old and new position. |
| FdStreams.ReadEndsFile | kernel/src/syscall.rs:378-403 | A read with room returns 0 exactly at or past the end. |
| FdStreams.ReadToEnd | kernel/src/syscall.rs:378-403 | Reading from the start until 0 delivers the whole file. |
| FdStreams.DirStream | kernel/src/syscall.rs:541-604 | getdents64 calls with any buffer sizes, interleaved with anything on other descriptors, deliver one contiguous stretch of the canonical serialization, in at most as many productive calls as entries. |
| FdStreams.GetdentsOutcome | kernel/src/syscall.rs:541-604 | 0 exactly at the end; EINVAL exactly when the next record does not fit, with nothing changed; else progress, always with 72 bytes of room. |
| FdStreams.DirToGap | kernel/src/syscall.rs:541-604 | Reading a directory until 0 delivers, once each, the entries before the first one the reader refuses. |
| FdStreams.DirToEnd | kernel/src/syscall.rs:541-604 | Over a well-formed root, reading until 0 delivers every entry exactly once. |
| FdStreams.SeekResumes | kernel/src/syscall.rs:420-441 | Seeking to an entry's d_off resumes just after it. |
| FdStreams.SizesAgree | kernel/src/syscall.rs:442-508 | The sizes from stat by path, from fstat and from seeking to the end all equal the data's length. |
| FdStreams.AccessVersusStat | kernel/src/syscall.rs:914-932 | stat succeeding implies access succeeding; they differ exactly on paths that trim to the root without naming it. |
| FdStreams.AccessWithoutStat | kernel/src/syscall.rs:758-767 | For the path "./" access succeeds and stat fails with ENOENT, whatever is mounted. |
| Paths.ReducesToRoot | kernel/src/syscall.rs:622-639 | A path reduces to the empty name exactly when nothing but slashes is left after trimming white space and one leading "./". |
| FdStreams.StatFields | kernel/src/syscall.rs:669-700 | The stat structure, read at the offsets of the Linux ABI, holds size, mode, inode and blocks. |
| Paths.NameMeaning | kernel/src/syscall.rs:622-639 | White space around a path, one "./" and slashes before a name are removed; what is left is the name, or nothing if a slash is left in it. |
| Paths.PathSplits | kernel/src/syscall.rs:622-639 | Every path that is not white space alone has that form. |
| Paths.PlainNameMeaning | kernel/src/syscall.rs:622-639 | A plain name, after any number of slashes or "./", denotes itself. |
| Paths.TrimMeaning | kernel/src/syscall.rs:623 | Trimming removes exactly the White_Space characters around a text. |
| Paths.ReadCstrMeaning | kernel/src/syscall.rs:641-653 | A path is read exactly when memory holds it with its NUL and it is UTF-8 of at most 255 bytes. |
| Utf8.ValidExactly | kernel/src/syscall.rs:641-653 | The byte strings accepted are exactly the UTF-8 encodings of scalar values. |
| CallMeaning.OpenMeaning | kernel/src/syscall.rs:327-376 | openat by the characters of its path: the first file of the name that is left of it at position 0, ENOENT and ENOTDIR exactly when they are due. |
| CallMeaning.SlashedMeaning | kernel/src/syscall.rs:622-639 | A path with a slash left in it gives ENOENT to openat, stat and access. |
| CallMeaning.OpenRootMeaning | kernel/src/syscall.rs:338-350 | The paths that open the root, at position 0. |
| CallMeaning.OpenErrors | kernel/src/syscall.rs:327-337 | EFAULT, EBADF and EFAULT again, in their order. |
| CallMeaning.LseekMeaning | kernel/src/syscall.rs:420-458 | The new position in numbers, saturation included, and EINVAL exactly for a bad origin or a negative sum. |
| CallMeaning.Dup2Copies | kernel/src/syscall.rs:891-912 | dup2 stores a copy, position included, at the number asked for, or gives EBADF. |
| CallMeaning.Dup2Standard | kernel/src/syscall.rs:876-912 | Among the standard descriptors dup and dup2 change nothing. |
| CallMeaning.DuplicatesAlike | kernel/src/syscall.rs:876-912 | Through a duplicate a program sees, in any sequence of reads, directory reads and seeks, what it would have seen through the original. |
| CallMeaning.WrongDescriptor | kernel/src/syscall.rs:378-418 | The errors of calls on descriptors of the wrong kind, out of range or without a buffer. |
| CallMeaning.MountMeaning | kernel/src/syscall.rs:176-183 | Mounting makes the image the root and closes everything. |
| CallMeaning.FstatMeaning | kernel/src/syscall.rs:489-508 | Type, permissions, size and blocks that fstat writes for the console, the root and a file. |
| CallMeaning.StatMeaning | kernel/src/syscall.rs:460-487 | The same for stat by the characters of a path, and access on it. |
| CallMeaning.StatRootMeaning | kernel/src/syscall.rs:470-472 | And for the paths that name the root. |
| OpenFiles.OpenatOutcome | kernel/src/syscall.rs:327-376 | Over an image of given files, opening a name fails with ENOENT exactly when no file up to the first without a name has it and with ENOTDIR exactly when a directory was wanted; otherwise a free slot gets the first such file at position 0, or the table is full (EBUSY). |
| OpenFiles.OpenedFileDelivers | kernel/src/syscall.rs:327-403 | From the image writer to the reader: opening a name and reading until 0, in any chunks and with any calls on other descriptors in between, yields the data of the first file of that name. |
| OpenFiles.SeekWaysAgree | kernel/src/syscall.rs:420-458 | Seeking relative to the position or the end is seeking from the start by the sum, for files and directories. |
| OpenFiles.SeekThenRead | kernel/src/syscall.rs:378-458 | Seeking to p fails exactly for negative p, and otherwise the next read delivers from p on. |
| OpenFiles.FreeUntilHandedOut | kernel/src/syscall.rs:315-458 | A free slot stays free over a call if and only if the call does not hand it out. |
| OpenFiles.CloseFrees | kernel/src/syscall.rs:405-418 | Over any run in which no call hands it out, a closed descriptor is refused by close, dup, dup2, read, lseek, fstat and getdents64; the next allocation takes it unless a lower slot is free. |
| FdCalls.Kernel.SetRoot | kernel/src/syscall.rs:176-183 | Mounting frees every slot. |
| FdCalls.Kernel.Alloc | kernel/src/syscall.rs:315-325 | The slot search in place. |
| FdCalls.Kernel.Openat | kernel/src/syscall.rs:327-376 | openat in place, all error paths included. |
| FdCalls.Kernel.Read | kernel/src/syscall.rs:378-403 | read fills the caller's buffer with exactly the specified bytes and moves only its own position. |
| FdCalls.Kernel.Close | kernel/src/syscall.rs:405-418 | close in place. |
| FdCalls.Kernel.Lseek | kernel/src/syscall.rs:420-458 | lseek in place, with its overflow and range errors. |
| FdCalls.Kernel.Fstat | kernel/src/syscall.rs:489-508 | fstat changes no slot and writes exactly the whole structure for the slot to the front of the buffer, or nothing on an error. |
| FdCalls.Kernel.StatPath | kernel/src/syscall.rs:460-487 | stat by path, all error paths included, with the structure it writes. |
| FdCalls.Kernel.Access | kernel/src/syscall.rs:758-767 | access, all error paths included. |
| FdCalls.Kernel.Getdents64 | kernel/src/syscall.rs:541-604 | The filling loop writes exactly the specified records to the front of the buffer and leaves the rest of it alone. |
| FdCalls.Kernel.Dup | kernel/src/syscall.rs:876-889 | dup in place. |
| FdCalls.Kernel.Dup2 | kernel/src/syscall.rs:891-912 | dup2 in place. |
| FdCalls.PutRecord | kernel/src/syscall.rs:573-599 | The field stores of one linux_dirent64 record make up the record's bytes. |
| FdCalls.RecordLenIsMask | kernel/src/syscall.rs:702-705 | The mask expression is the record length rounded up to 8. |
| Dirents.RecordFields | kernel/src/syscall.rs:579-596 | The fields of a record at the offsets of the linux_dirent64 structure, padding included. |
| Dirents.ParseRecord | kernel/src/syscall.rs:573-599 | A record in front of any bytes is parsed back as its entry. |
| Dirents.ParseSerial | kernel/src/syscall.rs:541-604 | Parsing any stretch of the serialization by record length gives its entries in order. |
| Dirents.ListingIsComplete | kernel/src/syscall.rs:541-604 | From the files given to the image writer to the parsed directory stream: ".", "..", then every file name in order, each with inode, type and d_off, none lost or repeated, up to the first file without a name. |
| ExitStatus.ExitCell.MarkExitCode | kernel/src/syscall.rs:945-948 | Records the code and makes it waitable. |
| ExitStatus.ExitCell.Wait4 | kernel/src/syscall.rs:972-991 | wait4 in place: foreign process, nothing to wait for, or the encoded status. |
| ExitStatus.ExitThenWait | kernel/src/syscall.rs:207-211 | One wait after an exit or a mark gets its code in the second byte of the status; the next gets ECHILD. |
| ExitStatus.WaitsNeverOutnumberMarks | kernel/src/syscall.rs:972-991 | Over any run successful waits never outnumber exit marks. |
| ExitStatus.MarkBetweenSuccesses | kernel/src/syscall.rs:945-991 | Two successful waits have a mark between them. |
| ExitStatus.ForeignWaitConsumesNothing | kernel/src/syscall.rs:973-975 | Waiting for another process fails and leaves the mark; any other wait succeeds exactly when there is one. |
| ExitStatus.WaitReportsLatest | kernel/src/syscall.rs:207-211 | The status decodes to a normal exit with the latest code modulo 256. |
| Reap.AppendStr | userspace/wait4_reap.c:44-50 | Copies the string at the position and changes nothing else. |
| Reap.AppendI64 | userspace/wait4_reap.c:52-78 | Writes the decimal form at the position and changes nothing else; the digit loop stays inside its 32 bytes. |
| Reap.DecimalRoundTrip | userspace/wait4_reap.c:52-78 | The decimal form is canonical, parses back to the number and is the only canonical text that does. |
| Reap.DecimalBound | userspace/wait4_reap.c:52-78 | At most 20 characters for any 64-bit value. |
| Reap.ReportFits | userspace/wait4_reap.c:87-97 | All appends together need at most 126 of the 200 bytes of the line. |
| Reap.ReportMeaning | userspace/wait4_reap.c:87-97 | The line in words, with the four numbers it holds. |
| Reap.Report | userspace/wait4_reap.c:80-108 | The line written and the exit code chosen. |
| Reap.ReapsSeven | userspace/wait4_reap.c:81-108 | After any history of exits and waits: exit 2 with nothing to wait for, 0 when the latest code is 7 modulo 256, else 1. |
| BumpAllocator.AlignUpIsLeast | kernel/src/allocator.rs:70-72 | Without wrap the mask gives the least multiple of the alignment at or above the address. |
| BumpAllocator.AlignUpWraps | kernel/src/allocator.rs:70-72 | The result falls below the address exactly when the sum wraps, and is then 0. |
| BumpAllocator.BlocksAreSafe | kernel/src/allocator.rs:24-63 | Over every interleaving of any number of threads with one init, if every layout is harmless: returned blocks are pairwise disjoint, aligned and inside the heap, and the space used is at most the sum of size + align - 1. |
| BumpAllocator.SafeExactly | kernel/src/allocator.rs:33-63 | A layout can be allocated along with layouts that cannot wrap, safely in every run, if and only if the end of the heap plus its alignment is at most 2^64 or its size exceeds the end of the heap. |
| BumpAllocator.CursorMonotonic | kernel/src/allocator.rs:42-62 | Once initialized, the cursor never moves back, if all layouts are harmless. |
| BumpAllocator.FailureProgresses | kernel/src/allocator.rs:52-61 | In every state the invariant allows, a failed compare-exchange strictly raises the thread's cursor, still within the heap. |
| BumpAllocator.RetriesBounded | kernel/src/allocator.rs:42-62 | If all layouts are harmless, one call fails at most as often as the heap has bytes, however other threads run. |
| BumpAllocator.RetriesExactly | kernel/src/allocator.rs:44-61 | A thread retries exactly when it lost its compare-exchange, with the cursor it saw; every attempt concerns its own thread only. |
| BumpAllocator.AttemptOutcome | kernel/src/allocator.rs:42-62 | What one attempt yields, with no assumption on its success: a block of the heap, the block at address 0, or none. |
| BumpAllocator.WrappedRoundingEscapes | kernel/src/allocator.rs:42-58 | For every layout outside that condition, the run of one thread that fills the heap and is then given the block at address 0. |
| BumpAllocator.EscapeHappens | kernel/src/allocator.rs:5-85 | Such a layout exists for the kernel's heap size: an alignment of 2^62 and a heap at the start of the upper half of the address space. |
| VgaTerminal.Terminal.ClearScreen | src/os_terminal.rs:106-112 | Blanks all 25 rows and starts an empty history. |
| VgaTerminal.Terminal.ScrollUp | src/os_terminal.rs:81-98 | Every row moves up by one in place and the last is blank. |
| VgaTerminal.Terminal.NewLine | src/os_terminal.rs:72-79 | The screen shows the last 25 of the lines with an empty one added. |
| VgaTerminal.Terminal.WriteByte | src/os_terminal.rs:48-59 | One byte, with lazy wrapping at column 80. |
| VgaTerminal.Terminal.WriteStr | src/os_terminal.rs:134-142 | After any writes the screen is the last 25 lines of the whole sanitized history wrapped at 80 columns, blank-padded, with the cursor at the end of the last; every cell written is inside the screen. |
| VgaTerminal.PiecesMeaning | src/os_terminal.rs:48-59 | A line is cut into full pieces of 80 and a rest, and nothing is lost. |
| VgaTerminal.WrappedMeaning | src/os_terminal.rs:48-59 | The history is cut line by line at its newlines. |
| VgaTerminal.ScreenMeaning | src/os_terminal.rs:61-70 | What each cell of the screen shows. |
| VgaTerminal.WrappedSnoc | src/os_terminal.rs:48-59 | Wrapping line by line as bytes come equals wrapping the whole history anew. |
| LineEditor.Editor.HandleKey | kernel/src/shell.rs:17-43 | One key keeps the buffer, the submitted lines and the visible row equal to the pure editor's, and every command starts on a row of its own. |
| LineEditor.Editor.Run | kernel/src/shell.rs:10-49 | So does any stream of keys. |
| LineEditor.KeyMeaning | kernel/src/shell.rs:17-43 | What each key does to the line and the submitted lines, by its code. |
| LineEditor.TypedLineIsSubmitted | kernel/src/shell.rs:18-42 | Typing a text of at most 256 characters and Enter submits exactly that text. |
| LineEditor.EraseUndoes | kernel/src/shell.rs:30-42 | A character and an erasing key leave the line as it was, unless it was full. |
| LineEditor.PendingIsValid | kernel/src/shell.rs:21-25 | The line is always valid UTF-8, so the failure branch is never taken. |
| LineEditor.SubmittedIsTyped | kernel/src/shell.rs:18-42 | Submitted lines hold only printable ASCII and at most 256 characters. |
| LineEditor.EraseReads | kernel/src/shell.rs:30-35 | The three echoed bytes remove exactly the last character from the visible row. |

## Left out

- ElfRunner.RunLinuxElf: plain additions wrap; the overflow panics a development build has instead, such as for an image at the end of the address space, are not modelled.
- Loader.LoadProgram: the room left in the heap is taken when the memory is asked for; that one of the loader's small vectors or messages finds no room is not modelled.
- InitialStack.BuildInitialStack: what a failed build has already written to memory is not stated, because the program is then not started.
- Interpreter.HandleSyscallIn: whether the program of an execve runs to completion and what calls passed on to the kernel answer is chosen by the environment, and what such calls other than read write to the program's buffers is not modelled; the recursion of execve has no bound in the code.
- Effects.WriteMeaning: what a write prints on the terminal is not modelled.
- BumpAllocator.BlocksAreSafe: one init, whose four stores may be interleaved with other threads; a second init is not modelled. Layouts that are not harmless are the subject of SafeExactly.
- Reap.AppendI64: the smallest 64-bit value is excluded, since negating it is undefined in C.
- FdCalls.Kernel.Openat: here and in StatPath and Access, a path pointer is the memory behind it, which holds a NUL or at least 256 bytes; raw pointer validity is not modelled.
- FdCalls.Kernel.Read: the dispatcher sends reads of descriptors 0 to 2 to the keyboard instead; that blocking read has no termination claim and is not modelled.
- LineEditor.Editor.Run: what a command prints is a parameter, namely the row it leaves; commands that never return are not modelled.
- Native entry, the native runner's relocation of the entry point, page tables, traps, serial, PS/2 and framebuffer code: hardware and foreign calls.
- exec_command and the shell's command handlers: string comparisons and output only.
- getcwd, chdir, readlink, uname, getrandom, brk, mmap, clocks and the calls that return a constant: easy members.
- src/allocator.rs and userspace/wait4_echild.c: the same algorithms as kernel/src/allocator.rs and userspace/wait4_reap.c.
- Trimming of paths is modelled on UTF-8 bytes with the White_Space characters written out; no other Unicode property is used.
