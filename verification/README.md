# Verified model of the WASM-First OS kernel

The kernel is a small WebAssembly operating system: a bytecode interpreter with a just-in-time compiler to x86-64, an
assembler and a binary loader, a flat filesystem and a block cache, a TCP/IP stack, and a cooperative scheduler. This
project states what those parts are for as Dafny contracts and proves them for all inputs and all runs.

| file | part of the kernel |
|---|---|
| `Words`, `Bytes`, `Leb128`, `Opcode`, `OpcodeMeaning` | machine words, byte sequences, LEB128 readers and writers, opcodes, and what straight-line instructions compute, by byte |
| `X86`, `CodeBuf`, `JitCompile`, `JitCorrect`, `JitShifts`, `JitAgree`, `JitExact`, `JitSize`, `JitPool` | the emitter, an x86-64 machine that decodes and executes bytes, the compiler, its correctness, when it agrees with the interpreter in the low half or in the whole word, when its code fits, and what is called in the code pool |
| `Scanner`, `BulkScan`, `Control`, `Dispatch`, `JumpTable`, `JumpCapacity`, `JumpTree` | matching `end`/`else`, structured control against the flat control stack, the jump table, its capacity, and what it holds for structured code |
| `Machine`, `MachineControl`, `Activation`, `Decoding`, `MachineMeaning`, `MemoryBytes`, `MachineBytes`, `FastPath`, `CallStack`, `YieldResume` | the run loop: control, calls, frames, memory, calls of compiled functions, host calls that yield; its control flow and its effects tied to the bytes of a function |
| `Folded`, `FoldedParser`, `FoldedValue` | the assembler's folded-expression parser, its unget slot, the value of what it emits |
| `Emitter`, `Loader`, `RoundTrip`, `BinaryFormat`, `SectionMap`, `ImportKinds` | module emission, loading and section parsing, and that they undo each other; the assembled module read as the binary format prescribes, sections of any number, imports of any kind |
| `Block`, `BlockIo`, `Directory`, `FsLayout`, `WasmFs`, `SnapshotReuse` | the ramdisk, the write-back cache, the filesystem, open files and unlinking |
| `Tcp`, `TcpConnection`, `TcpTeardown`, `Checksum`, `PacketFormat` | the socket, two sockets joined by channels, closing, Internet checksums and headers, header layouts and options |
| `Scheduler`, `PendingSleep` | task queue, instance pool, round robin, the pending-sleep cell |

Conventions. Machine integers are `int` with explicit reduction (`% TWO32`, `ToI32`, `SignExtend32`). Code that updates
objects, arrays or cursors is a class or a method with loops, tied by its `ensures` to a function of the old state; the
theorems are about those functions. A predicate parameter or an event argument stands for what the model does not
compute: popped branch conditions, clock readings, host functions, UTF-8 validity, identifier resolution. Opcodes, flags,
section numbers and limits that a format or a standard fixes are written as numbers in the statements about them.

Where the code and its documentation differ, the code is followed:

- The JIT computes with 64-bit words and masks shift counts with 63, where the interpreter sign-extends 32-bit results and
  masks with 31. A compiled function returns exactly the word of the 64-bit reading of its body
  (`JitCorrect.CompiledRunsWide`); the two readings keep equal low halves if and only if every shift executed fits
  (`JitAgree.InStepIff`), and go through the same words if and only if every operation of the 64-bit reading gives a
  word the interpreter could push and every shift fits (`JitExact.ExactRunIff`). `FoldedValue` has a body for each shift,
  and one for addition, on which they return different words.
- A body whose machine code exceeds the 4096-byte scratch buffer is accepted and installed truncated. The installed code
  conforms whatever stands behind it in the code pool if and only if the emitted size is at most 4096
  (`JitPool.InstalledConformsIff`). Behind a truncated function stands the next one installed (`JitPool.PoolBehindCut`):
  with one byte missing it falls through into that function and returns its result (`JitPool.PoolFallsThrough`); with two
  to eleven missing that function returns to whatever the caller had in the register that the epilogue would have
  restored next (`JitPool.PoolReturnsElsewhere`). `JitPool.OversizeConforms` and `JitPool.OversizeReturnsElsewhere` are
  bodies for the two.
- A call of a compiled function whose code fits leaves the caller as the interpreter's call does if and only if the
  callee has no result or its two readings end in the same word (`FastPath.FastPathAgrees`), as they do when every
  operation of the 64-bit reading is exact (`FastPath.FastPathExact`); and it works where the interpreter's call stack is
  full (`FastPath.FastIgnoresDepth`).
- `scan_block_end` does not skip the segment index of `memory.init` and `data.drop`: `BulkScan.SegmentPassedIff` is the
  exact condition on the index bytes and the depth, `Scanner.ScanMisreadsMemoryInit` an index it stops at.
- `jump_lookup` does not terminate on a full table without the key: the lookups of a module's closed blocks all end if and
  only if there are at most 4096 of them (`JumpCapacity.ModuleLookupsEnd`), and `JumpCapacity.EmptyBlocksDiverge` is a
  module with a lookup that does not.
- `BlockIo` accepts a whole sector past the end of the device and then neither writes it back nor serves any other
  block: `BlockCache.AcceptedWrite` says exactly which writes are accepted and which of those are in the file,
  `BlockCache.StrayForever` what holds from then on, and `BlockCache.BeyondTheEnd` shows it on a one-block device.
- Unlinking a file while it is open can let later writes reuse its blocks. What a descriptor has left to read survives
  every later history of writes if and only if it has been read to the end or its blocks end at or below the new
  frontier: `WasmFilesystem.SnapshotReads` is one half, `SnapshotReuse.Overwrite` the other, and
  `WasmFilesystem.UnlinkedSnapshotIsReused` a concrete history.
- `recv` drops what does not fit the reader's buffer, and a segment that does not fit the socket's buffer is acknowledged
  in full and kept in part: `TcpConnection.RecvConservesIff` and `TcpConnection.DeliveryConservesIff`.
- Of two ends that close one after the other the second waits in FinWait2 for ever: a FIN of its own is answered only
  with an acknowledgement and no second FIN comes (`TcpTeardown.SecondHangs`, `TcpTeardown.HungForever`); when both close
  at once, both reach Closed (`TcpTeardown.BothClose`). Data that arrives after `tcp_close` is taken for an
  acknowledgement and lost (`TcpTeardown.DataAfterCloseIsLost`).
- `init_memory` panics on a data offset outside memory: `RoundTrip.DataInitialises` is the exact condition.
- `do_return` with fewer values than results returns the caller's own values again (`CallStack.CopyRepeats`).
- `Ipv4Packet::parse` ignores the total length, so bytes that follow a datagram in its frame become payload:
  `Checksum.SendAndParse` returns the packet sent if and only if there are none.
- The shell's synchronous `run` leaves the sleep of its guest pending, and the next task that merely yields sleeps for
  it: `PendingSleep.PendingIff` says exactly when one is pending, `PendingSleep.YieldSuspends` what it does.

## Model

| member | source | states |
|---|---|---|
| Leb128.DecodeU32 | kernel/src/wasm/loader.rs:88-102 | the u32 reader computes the mathematical unsigned value truncated to 32 bits and the length used, or fails on truncated or over-long input |
| Leb128.DecodeI32 | kernel/src/wasm/interp.rs:2022-2038 | the i32 reader computes the sign-extended value of at most five groups, wrapped to 32 bits |
| Leb128.DecodeI64 | kernel/src/wasm/interp.rs:2000-2020 | the i64 reader computes the sign-extended value of at most ten groups, wrapped to 64 bits |
| Leb128.SkipMethod | kernel/src/wasm/interp.rs:1762-1769 | `skip_leb128` returns the length up to the first byte without continuation bit, or fails |
| Leb128.EncodeU32 | kernel/src/shell/commands/asm.rs:1275-1282 | the unsigned writer appends the encoding that `UnsignedRoundTrip` inverts |
| Leb128.EncodeI32 | kernel/src/shell/commands/asm.rs:1284-1292 | the signed writer (shift by 6, then by 1) appends the encoding that `SignedRoundTrip` inverts |
| Leb128.UnsignedRoundTrip | kernel/src/shell/commands/asm.rs:1275-1282 | every natural below 2^(7·limit) is read back exactly, with anything after it |
| Leb128.SignedRoundTrip | kernel/src/shell/commands/asm.rs:1284-1292 | every integer of 7·limit signed bits is read back exactly, with anything after it |
| Leb128.U32RoundTrip | kernel/src/wasm/loader.rs:88-102 | `read_u32_leb128` inverts the u32 writer for every u32 |
| Leb128.I32RoundTrip | kernel/src/wasm/interp.rs:2000-2038 | both signed readers invert the i32 writer for every i32 |
| Leb128.SkipLebExact | kernel/src/wasm/interp.rs:1762-1769 | skipping passes over exactly one LEB128 value of any length, wherever it stands |
| OpcodeMeaning.NarrowComputes | kernel/src/wasm/interp.rs:1133-1161 | on the low halves of any two words the interpreter pushes the 32-bit sum, difference, product (0x6A to 0x6C), the bitwise and, or, exclusive or (0x71 to 0x73), or the shift left, right with sign, right with zeros by the count modulo 32 (0x74 to 0x76), sign-extended except for the last |
| OpcodeMeaning.WideComputes | kernel/src/jit/compile.rs:91-163 | the machine computes the same on all 64 bits, with counts modulo 64 |
| OpcodeMeaning.StepMeans | kernel/src/wasm/interp.rs:640-818 | by literal opcode: for each of the sixteen instructions of straight-line code, constants, locals, `drop` and `nop` included, either reading of the bytes gives exactly the operands, locals and next position that the instruction means, and stops exactly where an immediate, an operand, a local or room is missing |
| OpcodeMeaning.CompiledComputes | kernel/src/jit/compile.rs:26-217 | for each of the nine opcodes the machine code of a function that applies it to its two parameters returns in RAX its 64-bit result, whatever the values and whatever follows the code |
| X86.DecodeEncode | kernel/src/jit/emit.rs:79-279 | for every register, immediate and displacement (memory base not RSP or R12) the emitted bytes decode to the intended instruction and its length |
| X86.MemRoundTrip | kernel/src/jit/emit.rs:333-343 | the three displacement forms of the memory operand decode to base and displacement |
| X86.RunEncoded | kernel/src/jit/emit.rs:79-492 | executing the encoded bytes, whatever follows them, is executing the instruction list |
| CodeBuffer.CodeBuf.constructor | kernel/src/jit/emit.rs:65-76 | an empty buffer over the given array |
| CodeBuffer.CodeBuf.EmitU8 | kernel/src/jit/emit.rs:79-84 | appends one byte to the stream; beyond capacity it is counted in the stream and not stored |
| CodeBuffer.CodeBuf.EmitU32 | kernel/src/jit/emit.rs:91-96 | appends the four little-endian bytes |
| CodeBuffer.CodeBuf.EmitU64 | kernel/src/jit/emit.rs:98-101 | appends the eight little-endian bytes |
| CodeBuffer.CodeBuf.EmitMovRR | kernel/src/jit/emit.rs:137-142 | appends exactly the encoding of MOV r64, r64 |
| CodeBuffer.CodeBuf.EmitMovRI64 | kernel/src/jit/emit.rs:144-149 | appends exactly the encoding of MOV r64, imm64 |
| CodeBuffer.CodeBuf.EmitMovRI32 | kernel/src/jit/emit.rs:151-157 | appends exactly the encoding of MOV r32, imm32 |
| CodeBuffer.CodeBuf.EmitPush | kernel/src/jit/emit.rs:160-164 | appends exactly the encoding of PUSH |
| CodeBuffer.CodeBuf.EmitPop | kernel/src/jit/emit.rs:166-170 | appends exactly the encoding of POP |
| CodeBuffer.CodeBuf.EmitAluRR | kernel/src/jit/emit.rs:174-206 | appends exactly the encoding of the 64-bit ADD, SUB, AND, OR or XOR |
| CodeBuffer.CodeBuf.EmitImulRR | kernel/src/jit/emit.rs:251-257 | appends exactly the encoding of the 64-bit IMUL |
| CodeBuffer.CodeBuf.EmitShiftCl | kernel/src/jit/emit.rs:261-279 | appends exactly the encoding of SAR, SHL or SHR by CL |
| CodeBuffer.CodeBuf.EmitLoadMem | kernel/src/jit/emit.rs:211-219 | appends REX, opcode and memory operand for every base; for every base but RSP and R12 that is the encoding of the 64-bit load |
| CodeBuffer.CodeBuf.EmitStoreMem | kernel/src/jit/emit.rs:221-229 | appends REX, opcode and memory operand for every base; for every base but RSP and R12 that is the encoding of the 64-bit store |
| CodeBuffer.CodeBuf.EmitAddRspI8 | kernel/src/jit/emit.rs:233-238 | appends exactly the encoding of ADD RSP, imm8 |
| CodeBuffer.CodeBuf.EmitPrologue | kernel/src/jit/emit.rs:460-481 | appends the encoding of the prologue's instruction list |
| CodeBuffer.CodeBuf.EmitEpilogue | kernel/src/jit/emit.rs:483-492 | appends the encoding of the epilogue's instruction list |
| JitCompile.EmitReturn | kernel/src/jit/compile.rs:206-217 | appends the return sequence for 0 or 1 results |
| JitCompile.EntryBytes | kernel/src/jit/compile.rs:35-42 | the bytes every compiled function starts with, by number |
| JitCompile.ReturnBytes | kernel/src/jit/compile.rs:206-217 | the bytes it returns with, by number |
| JitCompile.EmitOne | kernel/src/jit/compile.rs:48-198 | one arm of the compile loop appends the translation of its instruction and advances past its operand, or gives up exactly where the translation is undefined |
| JitCompile.CompileLoop | kernel/src/jit/compile.rs:46-203 | the compile loop emits the compilation of the whole body and accepts exactly the bodies the specification accepts |
| JitCompile.JitCompileBody | kernel/src/jit/compile.rs:26-204 | prologue, register aliases and body are emitted in order; more than one result is refused |
| JitCompile.CompileFunction | kernel/src/wasm/interp.rs:452-485 | what `compile_jit` keeps is the emitted stream cut to the scratch buffer |
| JitCompile.CompileAll | kernel/src/wasm/interp.rs:456-485 | each function is left to the interpreter exactly when unsupported, installed at the aligned end of the last one installed with exactly the bytes kept of it, or left out exactly from the first one on that does not fit; the pool holds that code, installed functions are disjoint, and the rest of the pool is untouched |
| JitCompile.NextBehind | kernel/src/jit/mod.rs:92-102 | behind a function that fills the scratch buffer the next one installed starts at once |
| JitShifts.AluAgrees | kernel/src/jit/emit.rs:174-206 | a 64-bit machine operation on words agreeing with the interpreter's operands in the low half gives the interpreter's 32-bit result in the low half, for add, sub, mul, and, or, xor |
| JitShifts.ShlTame | kernel/src/jit/emit.rs:268-273 | SHL agrees when the count modulo 64 is below 32 |
| JitCorrect.TranslateRel | kernel/src/jit/compile.rs:48-198 | one translated instruction, shifts included, simulates one step of the 64-bit reading word for word: operand stack, locals, saved area and everything outside the frame |
| JitCorrect.EntryRel | kernel/src/jit/compile.rs:35-42 | the prologue and the aliases establish the simulation relation from any System V entry state |
| JitCorrect.ReturnRel | kernel/src/jit/compile.rs:206-217 | whatever operands are left over, the return sequence restores RSP, RBX, RBP and R12-R15 and returns to the caller |
| JitCorrect.CompiledBodyRel | kernel/src/jit/compile.rs:46-203 | from related states the compiled rest of a body returns and conforms to the final frame of the 64-bit reading |
| JitCorrect.CompiledRunsWide | kernel/src/jit/compile.rs:26-217 | for every accepted body whose 64-bit reading returns, calling the emitted bytes returns exactly its result word and its locals, with callee-saved registers restored and memory outside the stack area and the locals untouched |
| JitAgree.SameSafety | kernel/src/wasm/interp.rs:640-818 | a body returns under the interpreter's arithmetic if and only if it does under the machine's, with equally many operands |
| JitAgree.StepLow | kernel/src/jit/compile.rs:48-198 | frames with equal low halves still have them after one instruction if and only if it is no shift or a shift that fits its operands |
| JitAgree.InStepIff | kernel/src/jit/compile.rs:46-203 | the two readings of a body agree in their low halves throughout if and only if every shift executed fits |
| JitAgree.JitPreservesMeaning | kernel/src/wasm/interp.rs:1444-1495 | for every accepted body whose interpretation returns, calling the emitted bytes returns; its word is the 64-bit reading's, and when every shift executed fits, result and locals have the interpreter's low halves |
| JitAgree.NoShiftsFit | kernel/src/jit/compile.rs:48-198 | in a body without shift instructions, whatever its immediates and what follows its return, every shift executed fits |
| JitAgree.ShiftFreePreserved | kernel/src/jit/compile.rs:26-217 | for every accepted body over constants, locals, add, sub, mul, and, or, xor, drop and nop whose interpretation returns, the compiled function returns the interpreter's result and locals modulo 2^32 |
| JitExact.ExactOpIff | kernel/src/wasm/interp.rs:1133-1161 | from the same operands machine and interpreter compute the same 64-bit word if and only if the machine's is one the interpreter could push and a shift fits |
| JitExact.ExactRunIff | kernel/src/jit/compile.rs:46-203 | the two readings of a body go through the same frames if and only if every binary operation of the 64-bit reading is exact |
| JitExact.ExactPreserved | kernel/src/jit/compile.rs:26-217 | for every accepted body whose 64-bit reading is exact and whose interpretation returns, the compiled function returns the interpreter's result and locals, all 64 bits |
| JitSize.ExactSize | kernel/src/jit/compile.rs:35-217 | the machine code of an accepted body is exactly as long as the sum of fixed sizes per opcode, local index and return |
| JitSize.NothingDroppedIff | kernel/src/wasm/interp.rs:452-473 | no byte is dropped in the scratch buffer if and only if that size is at most 4096 |
| JitSize.ScratchBufferSuffices | kernel/src/wasm/interp.rs:452-473 | a body of L bytes emits at most 52 + 7·L bytes, so up to 577 bytes nothing is dropped |
| JitSize.CutCode | kernel/src/wasm/interp.rs:452-485 | wherever code is cut before its return and from whatever state it is entered, executing what is left of it runs off its end |
| JitPool.InstalledConformsIff | kernel/src/wasm/interp.rs:446-485 | for every accepted body whose interpretation returns, a call of the installed code conforms to the 64-bit reading with any bytes behind it if and only if the emitted size is at most 4096; where every shift executed fits that reading has the interpreter's low halves |
| JitPool.PoolCallConforms | kernel/src/wasm/interp.rs:456-485 | in the pool that the compile loop leaves, a call of an installed function that fits conforms |
| JitPool.PoolBehindCut | kernel/src/jit/mod.rs:92-102 | in that pool the bytes behind a function that was cut are those of the next one installed |
| JitPool.FallsThrough | kernel/src/wasm/interp.rs:456-485 | a function one byte too long, with another one behind it, returns to the caller with the result of that one, computed from the locals the first one leaves |
| JitPool.ReturnsElsewhere | kernel/src/wasm/interp.rs:456-485 | a function one to eleven bytes too long, with another one behind it, returns to what the caller had in the register of the pop that was cut off or cut through (the return address when only the return is missing), with the stack pointer eight bytes too low for each pop missing |
| JitPool.PoolFallsThrough | kernel/src/jit/mod.rs:92-102 | the first of these for functions that stand one behind the other in the pool |
| JitPool.PoolReturnsElsewhere | kernel/src/jit/mod.rs:92-102 | the second of these for functions that stand one behind the other in the pool |
| JitPool.OversizeConforms | kernel/src/wasm/interp.rs:446-485 | a stack-safe body of 4097 bytes of code that, with the function that does nothing behind it, still conforms to its own reading |
| JitPool.OversizeReturnsElsewhere | kernel/src/wasm/interp.rs:446-485 | a stack-safe body of constants and drops whose installed code, with the same function behind it, returns to the wrong address and conforms to nothing |
| JitShifts.ShlAgrees | kernel/src/jit/emit.rs:268-273 | SHL gives the interpreter's low half if and only if the count modulo 64 is below 32 or the shifted low half is zero |
| JitShifts.ShrAgrees | kernel/src/jit/emit.rs:275-279 | the exact condition on operand and count under which SHR gives the interpreter's low half |
| JitShifts.SarAgrees | kernel/src/jit/emit.rs:261-266 | the exact condition on operand and count under which SAR gives the interpreter's low half |
| JitShifts.ShlDiffers | kernel/src/jit/emit.rs:268-273 | an operand and a count on which SHL and the interpreter differ |
| JitShifts.ShrDiffers | kernel/src/jit/emit.rs:275-279 | an operand and a count on which SHR and the interpreter differ |
| JitShifts.SarDiffers | kernel/src/jit/emit.rs:261-266 | an operand and a count on which SAR and the interpreter differ |
| Scanner.SkipImmediatesMethod | kernel/src/wasm/interp.rs:1717-1757 | the immediate-skipping arms of the scanner compute the specified next position |
| Scanner.ScanBlockEndLoop | kernel/src/wasm/interp.rs:1704-1760 | the scanning loop computes the specified end and else positions |
| Scanner.ScanCode | kernel/src/wasm/interp.rs:1704-1760 | at any depth the scan passes over every encoded instruction tree, whatever its immediates, `memory.init` and `data.drop` with an index it walks over included |
| Scanner.ScanFindsEnd | kernel/src/wasm/interp.rs:1704-1760 | from the start of a block body the scan returns exactly that block's own `end`, with any bytes after it; which immediates follow which opcode is a table of literal opcodes of its own |
| Scanner.ScanFindsElse | kernel/src/wasm/interp.rs:1704-1760 | and exactly its own `else`, or none |
| Scanner.ScanMisreadsMemoryInit | kernel/src/wasm/interp.rs:1745-1757 | a concrete body with `memory.init` on which the scan stops at an immediate byte |
| BulkScan.SegmentPassedIff | kernel/src/wasm/interp.rs:1704-1760 | for every LEB128 segment index and depth, the scan passes over `memory.init` or `data.drop` in every body if and only if a byte of the index before the last is 0xFC or the last byte is harmless as an opcode there |
| BulkScan.ByteIndexPassed | kernel/src/wasm/interp.rs:1704-1760 | for one-byte indices, the exact set of bytes, for each of the two instructions |
| Control.BranchSim | kernel/src/wasm/interp.rs:1563-1590 | `do_br` on the control stack is the structured branch: to the loop start, past the block end, or out of the function |
| Control.StepSim | kernel/src/wasm/interp.rs:657-773 | one step of the byte interpreter simulates one step of the structured semantics and keeps control frames equal to the enclosing constructs |
| Control.ControlSimulation | kernel/src/wasm/interp.rs:657-773 | for every structured body, every oracle for popped conditions and every number of steps, byte interpreter and structured block/loop/if/br/br_if/br_table semantics produce the same trace of plain instructions and the same outcome, with frames above `ctrl_base` exactly the enclosing constructs |
| Dispatch.ControlUnit.CtrlPush | kernel/src/wasm/interp.rs:614-619 | pushes a control frame, or reports overflow and changes nothing |
| Dispatch.ControlUnit.Br | kernel/src/wasm/interp.rs:1563-1590 | `do_br` on the object's fields equals the specified branch |
| Dispatch.ControlUnit.Step | kernel/src/wasm/interp.rs:657-773 | one dispatch of a control opcode equals the specified byte step |
| Dispatch.ControlUnit.Run | kernel/src/wasm/interp.rs:626-773 | a bounded loop of dispatches yields the trace of the structured semantics |
| JumpTable.Find | kernel/src/wasm/interp.rs:601-612 | the probing loop returns what linear probing specifies |
| JumpTable.Insert | kernel/src/wasm/interp.rs:1604-1630 | the insertion loop fills the first free probe |
| JumpTable.PreScanBodyJumps | kernel/src/wasm/interp.rs:1633-1692 | the pre-scan records every structural opcode it walks over |
| JumpTable.BuildTable | kernel/src/wasm/interp.rs:362-368 | the table built over all bodies |
| JumpTable.StoredIsFound | kernel/src/wasm/interp.rs:601-612 | a stored key is found through linear probing |
| JumpTable.LookupTerminates | kernel/src/wasm/interp.rs:601-612 | a probe ends if and only if the key is stored or some slot is free |
| JumpTable.LookupAgreesWithScan | kernel/src/wasm/interp.rs:601-612 | in a valid table a hit is what `scan_block_end` returns |
| JumpTable.RecordOneValid | kernel/src/wasm/interp.rs:1604-1692 | recording one opener keeps the table valid; it changes nothing when the block is not closed or the table is full, and else adds exactly that key in one slot |
| JumpCapacity.BuildExact | kernel/src/wasm/interp.rs:362-368 | the built table is valid and stores exactly the first 4096 closed openers that the pre-scan meets |
| JumpCapacity.KeysAscend | kernel/src/wasm/interp.rs:1633-1692 | the openers met are those of the bodies, each once |
| JumpCapacity.JumpTableAgrees | kernel/src/wasm/interp.rs:601-612 | for every key: one of those openers is found at once with the result of the scan, lookup-or-scan equals `scan_block_end`, and the lookup ends if and only if there are fewer than 4096 closed openers or the key is among the stored ones |
| JumpCapacity.ModuleLookupsEnd | kernel/src/wasm/interp.rs:601-612 | the lookups of all closed openers end if and only if there are at most 4096; with exactly 4096 every other lookup runs forever |
| JumpTree.WalkCode | kernel/src/wasm/interp.rs:1633-1692 | over encoded structured code the pre-scan meets exactly the openers of the tree, in order, whatever stands around it |
| JumpTree.StructuredJumps | kernel/src/wasm/interp.rs:362-368 | for a module of structured bodies: the table's keys are the first 4096 constructs, outer before inner; each of them is found at once, and lookup-or-scan gives every construct of the module, stored or not, its own `end` and `else` |
| JumpCapacity.EmptyBlocksDiverge | kernel/src/wasm/interp.rs:601-612 | in a function of more than 4096 empty blocks the lookup of one of them never ends |
| Machine.ControlWithin | kernel/src/wasm/interp.rs:657-773 | `block`, `loop`, `if`, `else`, `end`, `br`, `br_if` and `br_table` inside a frame touch neither the control frames of its callers nor the stack below its base |
| Machine.OrdinaryTurn | kernel/src/wasm/interp.rs:650-1489 | an instruction that neither pushes nor pops a frame, conditional control and calls of compiled functions included, leaves the frames below, the frame's bases and the stack below its base untouched |
| Machine.CallTurn | kernel/src/wasm/interp.rs:1428-1541 | a direct or indirect call takes exactly its parameters (and the table index) and opens a frame at the remaining height and the current control depth |
| Machine.ReturnTurn | kernel/src/wasm/interp.rs:640-773 | every way of returning, through `return`, `br`, `br_if`, `br_table` or the end of the body, collapses the stack to prefix and results and pops the frame |
| Machine.TurnSorted | kernel/src/wasm/interp.rs:622-1542 | one disciplined turn keeps frame bases sorted |
| Machine.RunSorted | kernel/src/wasm/interp.rs:622-1542 | frame bases are sorted at every moment of a disciplined run |
| Machine.InsideTurn | kernel/src/wasm/interp.rs:622-1542 | one turn inside a call, at any depth, stays inside it or returns from it with prefix and results |
| Machine.CallIsolated | kernel/src/wasm/interp.rs:551-575 | from a call to its return, over nested calls and yields, the caller ends with its stack below the arguments followed by exactly the results, and with its frames, locals and control depth |
| Machine.GuestConfined | kernel/src/wasm/interp.rs:841-1087 | except through host functions no turn (accesses of every width, `memory.copy`, `memory.fill`, `memory.grow`) touches memory above the current size, and grown pages come in zeroed |
| MachineControl.TurnSim | kernel/src/wasm/interp.rs:640-780 | one turn of the run loop, from where the byte machine of Control stands in the same function, is that machine's next step: `block`, `loop`, `if`, `else`, `end`, `br`, `br_if`, `br_table` and `return` go where it goes with its control frames, the frame returns exactly where that is over, exactly the condition is popped, and the condition decides as its value on the stack says |
| Activation.InnerTurn | kernel/src/wasm/interp.rs:626-643 | a turn inside a call leaves where its caller stands alone |
| Activation.ActivationStructured | kernel/src/wasm/interp.rs:626-780 | over every disciplined run, from the entry of a structured function on and at every moment until it returns, calls and yields in between included, what the frame has executed and where it stands is structured execution of its code on the conditions it popped |
| Activation.ActivationReturns | kernel/src/wasm/interp.rs:626-780 | it returns exactly when structured execution is over, having executed exactly its plain instructions, and collapses the stack to prefix and results |
| Decoding.DecodingExists | kernel/src/wasm/interp.rs:601-612 | every structured body has a decoded form with the positions of its own `end` and `else`, so the simulation is about all of them |
| MachineMeaning.Values | kernel/src/wasm/interp.rs:782-790 | what constants, `drop`, `select` and `nop` leave on the stack, operands in their places, and that nothing else changes |
| MachineMeaning.Numerics | kernel/src/wasm/interp.rs:1104-1161 | a numeric instruction replaces exactly its operands by its value, or traps |
| MachineMeaning.Globals | kernel/src/wasm/interp.rs:821-838 | `global.get` and `global.set` read and change exactly the global named, and setting fails exactly where there is none or it is immutable |
| MachineMeaning.Copies | kernel/src/wasm/interp.rs:1399-1408 | `memory.copy` moves the bytes as they were before it, overlapping or not, and nothing else; it fails exactly when either end is out of bounds |
| MachineMeaning.Fills | kernel/src/wasm/interp.rs:1409-1418 | `memory.fill` writes the low byte of its value over exactly its range; it fails exactly when that is out of bounds |
| MachineMeaning.Sizes | kernel/src/wasm/interp.rs:1069-1087 | `memory.size` gives the pages there are; `memory.grow` gives the pages there were and adds zeroed ones, or gives -1 and changes nothing above the maximum |
| MachineMeaning.Limits | kernel/src/wasm/interp.rs:578-593 | missing operands stop the run with an underflow, a value more than 256 with an overflow, and an unknown local with its own error, before anything changes |
| MachineMeaning.DirectCall | kernel/src/wasm/interp.rs:1428-1495 | a call takes its parameters off the stack into the first locals, in order, zeroes the others, opens a frame at the first instruction, and fails exactly at 128 frames, more than 64 locals, too few values or an unknown function; a host function gets stack and memory |
| MachineMeaning.IndirectCall | kernel/src/wasm/interp.rs:1499-1531 | an indirect call takes the function that the table has at the popped index, and fails exactly when there is none or its type is another |
| MachineMeaning.ImmutableGlobals | kernel/src/wasm/interp.rs:830-838 | over every run an immutable global keeps its value |
| MachineBytes.InterpretersAgree | kernel/src/wasm/interp.rs:650-1065 | on constants, locals, arithmetic, drop and nop the run loop and the byte-level step, an independent definition, reach the same operands and locals from the assembled bytes; on loads and stores it accesses memory as the bytes say |
| MemoryBytes.MemArgAt | kernel/src/wasm/interp.rs:1773-1777 | what the assembler writes for a memory instruction, wherever it stands, `read_memarg` reads back as its offset and its length |
| MemoryBytes.AccessMeans | kernel/src/wasm/interp.rs:841-1065 | by literal opcode, for all the loads and stores 0x28 to 0x3E: exactly the bytes of its width at the popped address plus the offset that the bytes give are read with the right extension, or replaced by the value's low bytes, and it fails exactly when they are not all inside the current memory or an operand is missing |
| MachineBytes.LeRoundTrip | kernel/src/wasm/interp.rs:841-852 | the little-endian bytes of a value, of any width, read back as the value modulo that width |
| MachineBytes.StoreThenLoad | kernel/src/wasm/interp.rs:841-1065 | a load brings back the sign or zero extension of the stored value's low bytes, for every width, and nothing else in memory moved |
| FastPath.CalleeRuns | kernel/src/wasm/interp.rs:640-818 | the run loop takes the frame of any body the compiler knows to exactly the return that the byte-level reading of the body describes |
| FastPath.SlowCall | kernel/src/wasm/interp.rs:1491-1495 | a call through a frame comes back with the callee's results for its arguments and everything else of the caller as it was |
| FastPath.FastPathAgrees | kernel/src/wasm/interp.rs:1444-1489 | for every call of a compiled function whose code fits and whose interpretation returns, the fast path and the call through a frame reach the same state if and only if the callee has no result or its two readings end in the same word |
| FastPath.FastPathExact | kernel/src/wasm/interp.rs:1444-1489 | when every binary operation of the callee's 64-bit reading from the arguments is exact, the fast path reaches in one turn the very state that the call through a frame ends in |
| FastPath.FastIgnoresDepth | kernel/src/wasm/interp.rs:1444-1489 | with a full call stack the interpreter's call fails, and the fast path of a function whose code fits comes back with the result of the 64-bit reading |
| CallStack.Stacks.VPush | kernel/src/wasm/interp.rs:578-583 | pushes, or reports overflow and changes nothing |
| CallStack.Stacks.VPop | kernel/src/wasm/interp.rs:589-593 | pops the top value, or reports underflow |
| CallStack.Stacks.PushFrame | kernel/src/wasm/interp.rs:551-575 | the arrays after `push_frame` are the specified state; it fails exactly when specified |
| CallStack.Stacks.DoReturn | kernel/src/wasm/interp.rs:1549-1561 | the copy loop on the array, in general and, with enough values, as prefix and results |
| CallStack.CopyExact | kernel/src/wasm/interp.rs:1553-1557 | moving results down is an exact copy in spite of overlap |
| CallStack.CopyRepeats | kernel/src/wasm/interp.rs:1553-1557 | with too few values the loop repeats the values below the base |
| YieldResume.RunLoop | kernel/src/wasm/interp.rs:622-643 | the run loop with its cached memory size is the specified slice |
| YieldResume.CacheCoherent | kernel/src/wasm/interp.rs:1073-1087 | after every turn the cached size is the current number of pages times 65536 |
| YieldResume.SliceIsPrefix | kernel/src/wasm/interp.rs:419-433 | a slice up to a yield is a prefix of the uninterrupted run |
| YieldResume.YieldTransparent | kernel/src/wasm/interp.rs:419-433 | for every program, state and number of turns, resuming through all yields stands exactly where the uninterrupted run stands |
| YieldResume.DrainedIsQuiet | kernel/src/wasm/engine.rs:1147-1184 | draining the yields ends with a final state if and only if one run of the program whose host calls never yield ends with it |
| YieldResume.DrainLoop | kernel/src/wasm/engine.rs:1170-1184 | the drain loop returns what the uninterrupted run returns |
| Folded.FoldedParses | kernel/src/shell/commands/asm.rs:804-849 | for every expression tree (operators, constants, numeric and named indices, memory immediates in either order or left out, `if`/`then`/`else`, `block`, `loop`) whose names resolve, the tokens of its folded form parse to its post-order instruction list, with 0 for what is missing, and exactly they are consumed |
| Folded.BodyParses | kernel/src/shell/commands/asm.rs:781-800 | bodies mixing folded and flat instructions parse to their instruction list |
| Folded.IfParses | kernel/src/shell/commands/asm.rs:955-1013 | a folded `if` parses to condition, `if`, then-part, `else` and else-part when not empty, `end` |
| Folded.NestParses | kernel/src/shell/commands/asm.rs:1015-1032 | a folded `block` or `loop` parses to its opener, body and `end` |
| Folded.TypeParsed | kernel/src/shell/commands/asm.rs:1034-1058 | a `(result t)` is consumed as block type, any other list is left in place |
| FoldedParser.Parser.constructor | kernel/src/shell/commands/asm.rs:289-293 | a new parser has the whole token stream before it |
| FoldedParser.Parser.Bump | kernel/src/shell/commands/asm.rs:295-307 | exactly the current token leaves the stream, through the unget slot or not |
| FoldedParser.Parser.UngetLparen | kernel/src/shell/commands/asm.rs:311-315 | a parenthesis comes back in front; no token is lost or reordered |
| FoldedParser.Parser.ParseBlockType | kernel/src/shell/commands/asm.rs:1034-1058 | equals the specified block-type parser on the stream |
| FoldedParser.Parser.ParseMemArg | kernel/src/shell/commands/asm.rs:1060-1080 | equals the specified memory-immediate parser |
| FoldedParser.Parser.BuildInstr | kernel/src/shell/commands/asm.rs:853-945 | equals the specified immediate parser for every class of keyword |
| FoldedParser.Parser.SkipRestOfList | kernel/src/shell/commands/asm.rs:359-369 | skips to the matching parenthesis, or panics at the end of input |
| FoldedParser.Parser.ParseInstrs | kernel/src/shell/commands/asm.rs:781-800 | equals the specified body parser, panics included |
| FoldedParser.Parser.ParseFoldedInstr | kernel/src/shell/commands/asm.rs:804-849 | equals the specified folded parser, panics included |
| FoldedParser.Parser.ParseFoldedIf | kernel/src/shell/commands/asm.rs:955-1013 | equals the specified folded-if parser, panics included |
| FoldedParser.Parser.ParseFoldedBlock | kernel/src/shell/commands/asm.rs:1015-1032 | equals the specified block-or-loop parser |
| FoldedParser.ParseExpression | kernel/src/shell/commands/asm.rs:804-849 | parsing the text form of a tree returns its post-order list and leaves exactly the tokens after it |
| FoldedValue.TreePasses | kernel/src/shell/commands/asm.rs:829-848 | the assembled bytes of an arithmetic tree, wherever they stand in a body, push exactly the tree's value under either reading and are accepted by the compiler |
| FoldedValue.FunctionValue | kernel/src/wasm/interp.rs:1133-1161 | a function made of a folded expression returns the expression's value under either reading |
| FoldedValue.CompiledValue | kernel/src/jit/compile.rs:26-217 | its machine code returns exactly the 64-bit value, shifts included |
| FoldedValue.ValuesAgree | kernel/src/jit/compile.rs:26-217 | for shift-free expressions that is the interpreter's value modulo 2^32 |
| FoldedValue.ShlBodyDiffers | kernel/src/jit/emit.rs:268-273 | an expression with `shl` whose two values differ in the low half |
| FoldedValue.ShrBodyDiffers | kernel/src/jit/emit.rs:275-279 | an expression with `shr_u` whose two values differ in the low half |
| FoldedValue.SarBodyDiffers | kernel/src/jit/emit.rs:261-266 | an expression with `shr_s` whose two values differ in the low half |
| FoldedValue.SumBodyDiffers | kernel/src/wasm/interp.rs:1485-1486 | a sum with low half 0 under both readings and a nonzero 64-bit word under one |
| Emitter.CompressLocals | kernel/src/shell/commands/asm.rs:1529-1538 | the loop computes the run-length groups |
| Emitter.CompressExact | kernel/src/shell/commands/asm.rs:1529-1538 | the groups expand to the locals again and are maximal |
| Emitter.WasmEmitter.WriteBytes | kernel/src/shell/commands/asm.rs:1295-1298 | appends length and bytes |
| Emitter.WasmEmitter.WriteVector | kernel/src/shell/commands/asm.rs:1345-1458 | the item loop of every section appends count and items |
| Emitter.WasmEmitter.EmitSection | kernel/src/shell/commands/asm.rs:1301-1309 | appends id, length and contents of the inner emitter |
| Emitter.WasmEmitter.EmitModule | kernel/src/shell/commands/asm.rs:1313-1342 | appends header and the non-empty sections in order |
| Loader.ParseTypeSection | kernel/src/wasm/interp.rs:1781-1805 | fills the arity tables with the counted items, or fails with the same error |
| Loader.ParseFunctionSection | kernel/src/wasm/interp.rs:1807-1820 | fills the type-index table with the counted items, or fails with the same error |
| Loader.ParseCodeSection | kernel/src/wasm/interp.rs:1822-1856 | fills local totals and body slices with the counted items, or fails with the same error |
| Loader.ParseImportFuncTypes | kernel/src/wasm/interp.rs:1860-1909 | counts the function imports and stores as many of their type indices as the table holds |
| Loader.FindExport | kernel/src/wasm/loader.rs:111-140 | the search loop returns what the specified walk finds |
| Loader.ForEachFuncImport | kernel/src/wasm/loader.rs:149-192 | the calls made are those of the specified walk, up to the first failure, and it panics exactly when an import would start past the end |
| Loader.ReadMemoryMinPages | kernel/src/wasm/loader.rs:206-218 | the minimum of the first memory, or 0 |
| Loader.InitMemory | kernel/src/wasm/engine.rs:854-892 | the memory array and the outcome (done, refused, panic) are those of the specified walk |
| Loader.Load | kernel/src/wasm/loader.rs:235-294 | the section loop returns the specified section map or error |
| SectionMap.LoadKeepsLast | kernel/src/wasm/loader.rs:235-294 | for every list of sections, with any numbers, in any order and with repetitions, `load` succeeds and holds for each of 1 to 5, 6, 7, 9, 10 and 11 the contents of the last section of that number, nothing where there is none, and nothing else |
| RoundTrip.VectorAt | kernel/src/wasm/interp.rs:1781-1856 | a counted parser whose item parser inverts the item writer recovers every item of a written vector |
| RoundTrip.TypesInverse | kernel/src/wasm/interp.rs:1792-1803 | parameter and result counts of a written type are read back, at any position |
| RoundTrip.ImportsInverse | kernel/src/wasm/interp.rs:1866-1882 | the type index of a written import is read back, at any position |
| RoundTrip.CodeInverse | kernel/src/wasm/interp.rs:1833-1854 | local total and instruction bytes of a written function are read back, at any position |
| RoundTrip.CompressedTotal | kernel/src/wasm/interp.rs:1841-1849 | the declared groups add up to the number of locals |
| RoundTrip.ExportsAt | kernel/src/wasm/loader.rs:118-139 | the search over written exports finds the first function export of the name |
| RoundTrip.NamesAt | kernel/src/wasm/loader.rs:155-188 | the names of written imports are reported in order |
| RoundTrip.SegmentsAt | kernel/src/wasm/engine.rs:861-890 | written data segments are placed in order |
| RoundTrip.PlaceAllMeaning | kernel/src/wasm/engine.rs:884-888 | initialisation completes if and only if every offset lies within memory, and then each byte is that of the last segment covering it |
| RoundTrip.AssembledLoads | kernel/src/wasm/loader.rs:235-294 | `load` of `emit_module` succeeds, with a section for exactly each non-empty part of the module |
| RoundTrip.SectionsRecovered | kernel/src/shell/commands/asm.rs:1275-1538 | for every module within the capacity limits the parsers recover arities, type indices, local totals, instruction bytes, import names and types, exports, memory minimum and data |
| RoundTrip.ModuleRecovered | kernel/src/wasm/loader.rs:235-294 | the round trip whole: loading the assembled bytes succeeds, and from what was loaded the runtime's readers get back the module's types, functions, code, imports, exports, memory and data, absent sections included |
| RoundTrip.DataInitialises | kernel/src/wasm/engine.rs:854-892 | the assembled data section initialises memory if and only if every offset lies within it |
| BinaryFormat.InstrRead | kernel/src/shell/commands/asm.rs:1462-1522 | every instruction the assembler writes, wherever it stands, is the one that a reader by opcode finds there, with its immediates in their order |
| BinaryFormat.CodeRead | kernel/src/shell/commands/asm.rs:1420-1446 | locals, in runs with their types, and instructions of a written function are read back |
| BinaryFormat.ModuleComesBack | kernel/src/shell/commands/asm.rs:1313-1458 | the whole module: what `load` keeps of the assembled bytes, read as section 5 of the WebAssembly Core Specification prescribes, is the module assembled, with value types, minimum and maximum of its memories, locals and instructions |
| ImportKinds.DescriptorAt | kernel/src/wasm/interp.rs:1883-1904 | the walk over imports passes exactly over a table, memory or global, limits with and without maximum included, and reads the type of a function |
| ImportKinds.ImportsRead | kernel/src/wasm/loader.rs:149-192 | for an import section of functions, tables, memories and globals in any order both walks find exactly the functions, in order, with their types and their names |
| Block.Ramdisk.ReadBlock | kernel/src/fs/block.rs:44-53 | reads one sector, or fails exactly out of range and leaves the buffer |
| Block.Ramdisk.WriteBlock | kernel/src/fs/block.rs:55-64 | writes one sector and nothing else, or fails exactly out of range |
| BlockCache.BlockIo.constructor | kernel/src/fs/fat.rs:43-45 | an empty cache shows the device as it is |
| BlockCache.BlockIo.FlushDirty | kernel/src/fs/fat.rs:47-55 | writing back changes nothing a caller sees and makes the device equal to the file; it fails exactly while the cached block is not on the device |
| BlockCache.BlockIo.EnsureBlock | kernel/src/fs/fat.rs:57-71 | changing the cached block changes nothing a caller sees; exact condition for success |
| BlockCache.ReadInLoop | kernel/src/fs/fat.rs:74-87 | the block-by-block read is one read of the file at the 32-bit-reduced position, or of the block that went astray |
| BlockCache.BlockIo.Read | kernel/src/fs/fat.rs:74-87 | for every cache and position: bytes, outcome and cursor are those of that whole read |
| BlockCache.WriteInLoop | kernel/src/fs/fat.rs:90-110 | the block-by-block write splices what lies on the device into the file and lets at most one whole sector past its end into the cache |
| BlockCache.BlockIo.Write | kernel/src/fs/fat.rs:90-110 | for every cache and position: file, stray block, outcome and cursor are those of that whole write |
| BlockCache.BlockIo.Flush | kernel/src/fs/fat.rs:113-115 | afterwards the device equals the file; fails exactly while a block is astray |
| BlockCache.BlockIo.Seek | kernel/src/fs/fat.rs:119-129 | moves the position as specified for each origin |
| BlockCache.Drive | kernel/src/fs/fat.rs:34-129 | over every history of seek, read, write and flush, in range or not, the cache behaves as specified, outcome by outcome |
| BlockCache.FlatHistories | kernel/src/fs/fat.rs:34-129 | over every history that stays on the device that is a flat byte file: everything succeeds and reads give what was last written |
| BlockCache.AcceptedWrite | kernel/src/fs/fat.rs:90-110 | which writes are accepted, and that an accepted write is in the file and can be flushed if and only if it lies on the device |
| BlockCache.StrayForever | kernel/src/fs/fat.rs:47-110 | once a block is astray, after any history no flush succeeds, nothing reaches the file, and a read or write succeeds exactly within that block |
| BlockCache.BeyondTheEnd | kernel/src/fs/fat.rs:90-110 | a sector written past a one-block device is accepted, its flush fails, and the device's own block can no longer be read |
| Directory.EntryRoundTrip | kernel/src/fs/wasmfs.rs:41-57 | a directory entry survives its 64 bytes |
| Directory.EntryLayout | kernel/src/fs/wasmfs.rs:49-57 | the 64 bytes: name, two little-endian words, flags, zeros |
| Directory.WriteReadEntry | kernel/src/fs/wasmfs.rs:116-126 | an entry written is the entry read, the others are untouched |
| Directory.BlankLayout | kernel/src/fs/wasmfs.rs:260-272 | unlinking leaves exactly the 64 bytes of the entry zero |
| Directory.TrimNameLoop | kernel/src/fs/wasmfs.rs:64-67 | the name up to its first NUL |
| Directory.NameRoundTrip | kernel/src/fs/wasmfs.rs:237-239 | a name comes back from its entry if and only if it is NUL-free and at most 32 bytes long |
| FsLayout.UnstorableNeverFound | kernel/src/fs/wasmfs.rs:150-152 | a name that is too long or holds a NUL is never found |
| FsLayout.FrontierOfFiles | kernel/src/fs/wasmfs.rs:129-143 | what `next_free_block` computes is the least block above block 0 and above every file |
| FsLayout.FullDirectory | kernel/src/fs/wasmfs.rs:208-220 | the directory is full exactly with eight files |
| FsLayout.CommitWrite | kernel/src/fs/wasmfs.rs:222-249 | data written at the frontier and a committed entry update exactly one name; extents stay disjoint and off block 0 |
| FsLayout.CommitUnlink | kernel/src/fs/wasmfs.rs:260-272 | blanking an entry removes exactly that name |
| WasmFilesystem.WasmFs.constructor | kernel/src/fs/wasmfs.rs:100-102 | mounts a device as the map its directory describes, with no descriptor open |
| WasmFilesystem.WasmFs.NextFreeBlock | kernel/src/fs/wasmfs.rs:129-143 | returns the frontier |
| WasmFilesystem.WasmFs.FindSlot | kernel/src/fs/wasmfs.rs:208-219 | the file's own slot, else the first free one, else none |
| WasmFilesystem.WasmFs.WriteData | kernel/src/fs/wasmfs.rs:224-234 | places the data from the given block on and changes nothing below; succeeds exactly when it fits |
| WasmFilesystem.WasmFs.FsWrite | kernel/src/fs/wasmfs.rs:205-250 | maps the name to the data and raises the frontier, or fails exactly without room and changes no file and no descriptor |
| WasmFilesystem.WasmFs.FsUnlink | kernel/src/fs/wasmfs.rs:260-272 | removes exactly the name; descriptors keep their bytes, and stay live exactly when read to the end or below the new frontier |
| WasmFilesystem.WasmFs.FsOpen | kernel/src/fs/wasmfs.rs:148-168 | takes the first free descriptor for the file as it is now, or fails exactly when name or descriptor is missing |
| WasmFilesystem.WasmFs.FsRead | kernel/src/fs/wasmfs.rs:171-199 | delivers the next bytes of the descriptor's blocks, of the snapshot while protected, and leaves the rest of the buffer |
| WasmFilesystem.WasmFs.FsClose | kernel/src/fs/wasmfs.rs:253-257 | frees the descriptor |
| WasmFilesystem.Drive | kernel/src/fs/wasmfs.rs:94-272 | every history of write, unlink, open, read and close follows the abstract map-with-snapshots, outcome by outcome |
| WasmFilesystem.LatestContents | kernel/src/fs/wasmfs.rs:205-272 | a name holds what was last written to it; failed operations change nothing |
| WasmFilesystem.SnapshotReads | kernel/src/fs/wasmfs.rs:129-250 | while open and guarded at every unlink a descriptor delivers consecutive pieces of the file as it was when opened, whatever is written meanwhile |
| SnapshotReuse.Overwrite | kernel/src/fs/wasmfs.rs:129-250 | conversely, from every state in which a descriptor with bytes left ends above the frontier, some history of writes alone makes it read other bytes |
| WasmFilesystem.WriteThenRead | kernel/src/fs/wasmfs.rs:148-250 | write, any history that no longer touches the name, open, reads of any sizes: the latest contents |
| WasmFilesystem.UnlinkedSnapshotIsReused | kernel/src/fs/wasmfs.rs:260-272 | a concrete history in which an unlinked open file's blocks are overwritten |
| Tcp.TcpSocket.constructor | kernel/src/drivers/netstack/tcp.rs:51-79 | the listening and the connecting socket |
| Tcp.TcpSocket.HandlePkt | kernel/src/drivers/netstack/tcp.rs:84-184 | fields, buffer and reply after a segment are those of the specified transition, in every state |
| Tcp.TcpSocket.Recv | kernel/src/drivers/netstack/tcp.rs:186-194 | hands over the front of the buffer and empties it; fails exactly on an empty buffer |
| Tcp.TcpSocket.Send | kernel/src/drivers/netstack/mod.rs:403-414 | one segment of at most 1460 bytes at the current sequence number, which it advances |
| Tcp.TcpSocket.Close | kernel/src/drivers/netstack/mod.rs:468-481 | sends FIN and ACK and goes to FinWait1, or fails exactly when neither Established nor CloseWait and changes nothing |
| TcpConnection.DeliverCases | kernel/src/drivers/netstack/mod.rs:312-327 | in a connection a segment is never refused, and a payload only meets an established receiver |
| TcpConnection.StepKeeps | kernel/src/drivers/netstack/tcp.rs:84-194 | every event of either end keeps the connection invariant, simultaneous open included |
| TcpConnection.AlwaysInv | kernel/src/drivers/netstack/tcp.rs:84-194 | the invariant holds at every moment of every interleaving |
| TcpConnection.Conservation | kernel/src/drivers/netstack/tcp.rs:84-194 | bytes read, buffered and in flight are the bytes sent, in both directions, and as soon as the sender is established the receiver's acknowledgement plus the payload in flight is its sequence number modulo 2^32 |
| TcpConnection.NeverRefused | kernel/src/drivers/netstack/mod.rs:294-310 | every segment in flight, in either direction, is accepted by its socket, and a payload finds it established |
| TcpConnection.DeliveryConservesIff | kernel/src/drivers/netstack/tcp.rs:140-147 | a delivery keeps every byte if and only if the segment fits the rest of the buffer |
| TcpConnection.RecvConservesIff | kernel/src/drivers/netstack/tcp.rs:186-194 | a read keeps every byte if and only if the reader's buffer holds what was received |
| TcpConnection.Handshake | kernel/src/drivers/netstack/tcp.rs:94-132 | four events establish both ends with matching sequence numbers and empty wires |
| TcpTeardown.ResetCloses | kernel/src/drivers/netstack/tcp.rs:84-92 | a reset closes the socket in every state and is not answered |
| TcpTeardown.ClosedIgnores | kernel/src/drivers/netstack/tcp.rs:94-182 | a closed socket stays closed and answers nothing |
| TcpTeardown.DataAfterCloseIsLost | kernel/src/drivers/netstack/tcp.rs:151-165 | a payload that arrives after `tcp_close` is not kept, and the close counts as acknowledged |
| TcpTeardown.EventStage | kernel/src/drivers/netstack/tcp.rs:134-182 | whatever either end does next, the states of both and the flags in flight go from one stage of closing to the next |
| TcpTeardown.Outcomes | kernel/src/drivers/netstack/tcp.rs:134-182 | over every interleaving of closing from an established connection: with empty wires neither end has closed, one has and the other not yet, both are Closed, or one is Closed and the other in FinWait2 |
| TcpTeardown.SecondHangs | kernel/src/drivers/netstack/tcp.rs:134-182 | an end that has taken the other's FIN before it closes is in FinWait2 once both have closed and the wires are empty, and the two are never both Closed |
| TcpTeardown.HungForever | kernel/src/drivers/netstack/tcp.rs:166-174 | and it stays there: no event of either changes anything any more |
| TcpTeardown.BothClose | kernel/src/drivers/netstack/tcp.rs:151-182 | when both close before either has taken the other's FIN, both are Closed as soon as the wires are empty |
| Checksum.FoldIsModulo | kernel/src/drivers/netstack/ip.rs:140-142 | the fold is reduction modulo 0xFFFF with 0xFFFF for positive multiples |
| Checksum.FoldLoop | kernel/src/drivers/netstack/ip.rs:140-142 | the fold loop terminates at the fold |
| Checksum.AddWords | kernel/src/drivers/netstack/ip.rs:132-139 | the accumulation loop computes the word sum without u32 overflow within the length bound |
| Checksum.IpChksum | kernel/src/drivers/netstack/ip.rs:131-144 | the complement of the folded word sum |
| Checksum.SelfVerifies | kernel/src/drivers/netstack/ip.rs:131-144 | any sum completed with its checksum folds to 0xFFFF |
| Checksum.OnlyChecksumVerifies | kernel/src/drivers/netstack/ip.rs:131-144 | the only words that complete a sum are its checksum and, for checksum 0, the other zero |
| Checksum.CorruptionDetected | kernel/src/drivers/netstack/ip.rs:131-144 | changing one word of verified data is detected unless it exchanges the two zeros |
| Checksum.Ipv4ToBytes | kernel/src/drivers/netstack/ip.rs:103-128 | the emitted header verifies and carries the packet's fields and payload |
| Checksum.Ipv4RoundTrip | kernel/src/drivers/netstack/ip.rs:47-85 | parsing an emitted datagram returns the packet if and only if nothing follows it; what follows becomes payload |
| Checksum.MakeTcpPacket | kernel/src/drivers/netstack/tcp.rs:232-283 | the segment verifies together with the pseudo-header and carries the fields and payload |
| Checksum.TcpRoundTrip | kernel/src/drivers/netstack/tcp.rs:207-223 | parsing an emitted segment returns the packet, with what follows it added to the payload |
| Checksum.SendAndParse | kernel/src/drivers/netstack/mod.rs:329-338 | a segment sent in a datagram arrives as the same packet if and only if the frame carries nothing after it |
| PacketFormat.DatagramLayout | kernel/src/drivers/netstack/ip.rs:103-128 | every field of an emitted IPv4 header stands where section 3.1 of RFC 791 has it |
| PacketFormat.SegmentLayout | kernel/src/drivers/netstack/tcp.rs:232-283 | every field of an emitted TCP header stands where section 3.1 of RFC 793 has it |
| PacketFormat.Ipv4Options | kernel/src/drivers/netstack/ip.rs:47-85 | a received datagram with options of any length: they are passed over and the payload is what follows |
| PacketFormat.Ipv4Refused | kernel/src/drivers/netstack/ip.rs:47-85 | refused exactly when too short, not version 4, or its header is not all there |
| PacketFormat.SegmentOptions | kernel/src/drivers/netstack/tcp.rs:207-223 | a received segment with options of any length: they are passed over and the payload is what follows |
| PacketFormat.SegmentRefused | kernel/src/drivers/netstack/tcp.rs:207-223 | refused exactly when too short or its header is not all there |
| Scheduler.Kernel.SpawnTask | kernel/src/wasm/task.rs:73-100 | takes the first free queue slot and the first free pool slot, or changes nothing |
| Scheduler.Kernel.KillTask | kernel/src/wasm/task.rs:105-112 | empties the slot and frees its instance |
| Scheduler.Kernel.StepTask | kernel/src/wasm/task.rs:137-203 | queue and pool after a step are the specified ones; nothing happens to a task that may not run |
| Scheduler.Kernel.IsRunnable | kernel/src/wasm/task.rs:208-217 | ready, suspended, or asleep with its wake tick reached |
| Scheduler.Kernel.RunNext | kernel/src/scheduler.rs:49-71 | the round-robin loop steps the first runnable slot after the cursor |
| Scheduler.Kernel.DestroyInstance | kernel/src/wasm/engine.rs:1075-1084 | frees exactly the handle |
| Scheduler.EventKeeps | kernel/src/wasm/task.rs:73-203 | every spawn, kill and turn keeps occupied slots on distinct active handles with none left running, and frees a handle exactly when its owner leaves the queue |
| Scheduler.AlwaysInv | kernel/src/wasm/task.rs:73-203 | the same at every moment of every run from boot |
| Scheduler.SlotMeansInstance | kernel/src/wasm/engine.rs:1007-1011 | the queue is full exactly when the pool is |
| Scheduler.Fair | kernel/src/scheduler.rs:49-71 | whatever is spawned and killed meanwhile, a slot runnable at each of MAX_TASKS turns is stepped in one of them |
| Scheduler.NoEarlyWake | kernel/src/wasm/task.rs:140-151 | over every run a sleeper stays asleep until a turn at or after its wake tick, or its kill |
| Scheduler.SleepsLongEnough | kernel/src/wasm/task.rs:183-192 | after asking for a sleep it is runnable again exactly from the stored tick on, and then at least the requested time has passed |
| PendingSleep.Projects | kernel/src/wasm/task.rs:137-203 | every run with the pending-sleep cell is a run of the scheduler |
| PendingSleep.YieldSuspends | kernel/src/wasm/task.rs:183-192 | a task that yields is suspended if and only if no sleep is pending and else sleeps for it; a task that sleeps does so for its own time |
| PendingSleep.TaskEnds | kernel/src/wasm/task.rs:176-200 | a task that returns or traps leaves the queue, frees exactly its handle, is reported as completed or failed, and leaves a pending sleep as it is |
| PendingSleep.PendingIff | kernel/src/wasm/engine.rs:54-61 | over every run a sleep is pending if and only if a synchronous `run` left one that nothing has cleared since |
| PendingSleep.StaleSleep | kernel/src/shell/commands/run.rs:42-46 | after a `run` that slept a second the next task that merely yields sleeps a hundred ticks |

## Left out

- Floating-point opcodes, conversions and the `f32`/`f64` constant parsing of the assembler: foreign arithmetic.
- X86: only the instructions the compiler emits, 8-byte aligned memory cells, no flags, no code outside the buffer; an access outside the mapped cells stops the machine, and the theorems show that it does not happen.
- Emitter helpers that the compiler never calls (`emit_setcc`, `emit_neg`, jump patching and others).
- Control: values and traps of plain instructions, and popped conditions, come from an oracle; the value stack is not unwound on branches, as in the code; `memory.init` and `data.drop` are in the instruction trees only with an index that the scan passes over at every depth.
- Machine: instructions are decoded (MachineControl, MemoryBytes and MachineBytes tie the decoded list to the bytes); numeric operations are parameters that may trap (MachineBytes and FastPath fix the nine that the compiler knows to the interpreter's arithmetic); `memory.init`, `data.drop` and shadow mode are not part of it; the word a compiled function returns is a parameter that FastPath ties to its machine code; a return with too few values stops it (CallStack has what the array then holds).
- JitPool.ReturnsElsewhere: with twelve or more bytes missing the cut falls before the epilogue's pops, and what such a function does with a given one behind it is not stated; `JitPool.InstalledConformsIff` says only that not every code behind it makes it conform.
- JumpTable.Find: requires that the lookup ends, since the source's loop otherwise does not; `JumpCapacity` says when it does.
- YieldResume: host functions are arbitrary stack and memory effects; what they print, read or send is not modelled, and neither is `yield_requested`, which nothing sets.
- Folded: characters to tokens, identifier tables, the module-level forms of the parser and float constants; identifiers resolve through a parameter.
- Loader: `count_func_imports` (the walk of `parse_import_func_types` with other error returns), table, global and element sections, which the assembler does not emit.
- RoundTrip.SectionsRecovered: UTF-8 validity is a parameter that the names are required to satisfy.
- BlockCache: devices have fewer than 2^32 blocks, as `block_count` returns them, and cursors are unbounded.
- WasmFilesystem.WasmFs.FsWrite: names are NUL-free and at most 32 bytes, data shorter than 2^32 bytes, and an empty file needs one more 32-bit block number; `FsLayout.UnstorableNeverFound` says what happens to other names.
- WasmFs: UTF-8 validity of stored names, `fs_list`, the boot mounts, and devices other than the ramdisk.
- WasmFilesystem.WasmFs.constructor: devices whose directory repeats names or overlaps extents, which the filesystem itself never writes.
- FAT operations beyond `BlockIo`: they wrap a library that is not part of the kernel.
- TcpTeardown: closing starts from a connection with nothing in flight and carries no data; resets, loss and retransmission are outside both TcpConnection and TcpTeardown.
- The socket table, ARP, UDP, ICMP, DHCP and Ethernet framing.
- Scheduler: what a step executes and what the clock shows are event arguments; names and arguments of tasks are not modelled; a synchronous `run` of the shell frees its instance before the next turn and is an event of PendingSleep only.
- Device drivers, interrupts, console, line editor, the shell commands other than `asm`, and the userland programs.
