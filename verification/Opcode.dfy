/** WASM opcodes named by the compiler, the scanner and the dispatch loop (`opcode.rs`). */
module Opcode {
  import opened Words

  const UNREACHABLE: byte := 0x00
  const NOP: byte := 0x01
  const BLOCK: byte := 0x02
  const LOOP: byte := 0x03
  const IF: byte := 0x04
  const ELSE: byte := 0x05
  const END: byte := 0x0B
  const BR: byte := 0x0C
  const BR_IF: byte := 0x0D
  const BR_TABLE: byte := 0x0E
  const RETURN: byte := 0x0F
  const CALL: byte := 0x10
  const CALL_INDIRECT: byte := 0x11
  const DROP: byte := 0x1A
  const LOCAL_GET: byte := 0x20
  const LOCAL_SET: byte := 0x21
  const LOCAL_TEE: byte := 0x22
  const I32_CONST: byte := 0x41
  const I64_CONST: byte := 0x42
  const I32_ADD: byte := 0x6A
  const I32_SUB: byte := 0x6B
  const I32_MUL: byte := 0x6C
  const I32_AND: byte := 0x71
  const I32_OR: byte := 0x72
  const I32_XOR: byte := 0x73
  const I32_SHL: byte := 0x74
  const I32_SHR_S: byte := 0x75
  const I32_SHR_U: byte := 0x76
}
