// Machine integers shared by every part of the emulator model.

module MachineTypes {

  // quint64 and the narrower unsigned types. A value of one of these types never wraps: wherever the
  // source relies on wrap-around, the model writes the "% 2^n" out.
  type u64 = x: int | 0 <= x < 0x1_0000_0000_0000_0000
  type u32 = x: int | 0 <= x < 0x1_0000_0000
  type u16 = x: int | 0 <= x < 0x1_0000
  type byte = x: int | 0 <= x < 0x100

  // The size in bytes of an operand or of one access.
  type Width = w: int | w == 1 || w == 2 || w == 4 || w == 8 witness 1

  const U64_MAX: u64 := 0xFFFF_FFFF_FFFF_FFFF

  const PAGE_SIZE: u64 := 0x1000

  // Nothing is mapped at or above this address in a 64-bit process.
  const LIMIT: u64 := 0x7FFF_FFFF_0000

  // The most that is committed at a time, and the most that one transfer moves.
  const MAX_TOTAL_COMMIT: u64 := 512 * 1024 * 1024

  const WORD: int := 0x1_0000_0000_0000_0000

  // A value as a 64-bit register holds it.
  function Wrap(x: int): u64 { x % WORD }

  datatype Option<+T> = None | Some(value: T)

  function Min(a: int, b: int): int {
    if a <= b then a else b
  }

  function Max(a: int, b: int): int {
    if a >= b then a else b
  }
}
