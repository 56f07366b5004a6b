/**
 * The machine state of the CHIP-8 interpreter (`struct emulator`), as a value.
 *
 * Field widths follow the C declaration. Numeric fields are `Byte` or `Word`
 * (integers in the range of `uint8_t` and `uint16_t`) and every store into
 * them wraps explicitly, as C does. The framebuffer and the key mask are
 * bit-vectors, because the source only ever tests and flips their bits.
 * The imperative `Emulator` class keeps the same fields in arrays and is
 * proved to behave like the functions defined over this value.
 */
module State {

  /** An unsigned 8-bit value (`uint8_t`). */
  type Byte = b: int | 0 <= b < 0x100
  /** An unsigned 16-bit value (`uint16_t`). */
  type Word = w: int | 0 <= w < 0x1_0000

  datatype Option<T> = None | Some(value: T)

  /** An integer stored into a `uint8_t` or a `uint16_t`: reduced modulo 2^8 or 2^16. */
  function Wrap8(x: int): Byte { x % 0x100 }
  function Wrap16(x: int): Word { x % 0x1_0000 }

  /** Bitwise OR, AND and XOR of two bytes (`|`, `&`, `^` on `uint8_t`). */
  function Or8(a: Byte, b: Byte): Byte { ((a as bv8) | (b as bv8)) as int }
  function And8(a: Byte, b: Byte): Byte { ((a as bv8) & (b as bv8)) as int }
  function Xor8(a: Byte, b: Byte): Byte { ((a as bv8) ^ (b as bv8)) as int }

  /** Display size in pixels. */
  const Width: nat := 64
  const Height: nat := 32

  /** Programs are loaded at this address; the font lives below it. */
  const MemoryStart: nat := 0x200
  /** Bytes of addressable memory. */
  const MemorySize: nat := 0x1000
  /** Return-address slots. */
  const StackSize: nat := 12
  /** One bit per pixel: 8 pixels per byte, 8 bytes per row. */
  const ScreenBytes: nat := Width / 8 * Height
  /** General purpose registers V0..VF. */
  const RegisterCount: nat := 16
  /** The register that doubles as carry, borrow and collision flag. */
  const VF: nat := 0xF
  /** Default execution speed set by a reset. */
  const DefaultCyclesPerFrame: Byte := 16

  /** The built-in hexadecimal font: 16 glyphs of 5 bytes, loaded at address 0. */
  const FontSet: seq<Byte> := [
    0xF0, 0x90, 0x90, 0x90, 0xF0, // 0
    0x20, 0x60, 0x20, 0x20, 0x70, // 1
    0xF0, 0x10, 0xF0, 0x80, 0xF0, // 2
    0xF0, 0x10, 0xF0, 0x10, 0xF0, // 3
    0x90, 0x90, 0xF0, 0x10, 0x10, // 4
    0xF0, 0x80, 0xF0, 0x10, 0xF0, // 5
    0xF0, 0x80, 0xF0, 0x90, 0xF0, // 6
    0xF0, 0x10, 0x20, 0x40, 0x40, // 7
    0xF0, 0x90, 0xF0, 0x90, 0xF0, // 8
    0xF0, 0x90, 0xF0, 0x10, 0xF0, // 9
    0xF0, 0x90, 0xF0, 0x90, 0x90, // A
    0xE0, 0x90, 0xE0, 0x90, 0xE0, // B
    0xF0, 0x80, 0x80, 0x80, 0xF0, // C
    0xE0, 0x90, 0x90, 0x90, 0xE0, // D
    0xF0, 0x80, 0xF0, 0x80, 0xF0, // E
    0xF0, 0x80, 0xF0, 0x80, 0x80  // F
  ]

  /** Bytes per font glyph. */
  const GlyphSize: nat := 5

  datatype Machine = Machine(
    cyclesPerFrame: Byte,
    screen: seq<bv8>,
    drawFlag: bool,
    keys: bv16,
    memory: seq<Byte>,
    stack: seq<Word>,
    sp: Word,
    v: seq<Byte>,
    i: Word,
    pc: Word,
    delayTimer: Byte,
    soundTimer: Byte)

  /**
   * The array sizes fixed by the struct declaration, and the stack pointer
   * bound that the interpreter asserts on entry to every cycle.
   */
  predicate WellFormed(m: Machine)
  {
    && |m.screen| == ScreenBytes
    && |m.memory| == MemorySize
    && |m.stack| == StackSize
    && |m.v| == RegisterCount
    && m.sp < StackSize
  }
}
