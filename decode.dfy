/**
 * Instruction fetch and field decoding (the first part of `emulator_cycle`).
 *
 * The source slices the word with shifts and masks (`(op >> 8) & 0xF`); on
 * unsigned values these are the divisions and remainders by powers of two
 * written here.
 */
module Opcode {
  import opened State

  /**
   * The fields sliced out of one instruction word: the high nibble that
   * selects the instruction group, the register numbers x and y, the low
   * nibble n, the low byte kk and the 12-bit address nnn.
   */
  datatype Fields = Fields(op: Word, group: nat, x: nat, y: nat, n: nat, kk: Byte, nnn: Word)

  /** The instruction word stored big-endian at `pc`. */
  function Fetch(memory: seq<Byte>, pc: nat): (op: Word)
    requires pc + 1 < |memory|
    ensures op / 256 == memory[pc] && op % 256 == memory[pc + 1]
  {
    memory[pc] as int * 256 + memory[pc + 1] as int
  }

  /** Slices a word into its fields. Every field is in range. */
  function Decode(op: Word): (f: Fields)
    ensures f.op == op
    ensures f.group < 16 && f.x < RegisterCount && f.y < RegisterCount && f.n < 16
    ensures f.nnn <= 0xFFF
  {
    Fields(op, op / 0x1000, op / 0x100 % 16, op / 0x10 % 16, op % 16, op % 0x100, op % 0x1000)
  }

  /** The word made of a group nibble and the three operand nibbles. */
  function Encode(group: nat, x: nat, y: nat, n: nat): (op: Word)
    requires group < 16 && x < 16 && y < 16 && n < 16
  {
    group * 0x1000 + x * 0x100 + y * 0x10 + n
  }

  /** A positive multiple of `d` is at least `d`. */
  lemma MulAtLeast(k: int, d: int)
    requires k >= 1 && d >= 0
    ensures k * d >= d
  {
    if k > 1 {
      MulAtLeast(k - 1, d);
      assert k * d == (k - 1) * d + d;
    }
  }

  /** Quotient and remainder of `q * d + r` for a remainder below `d`. */
  lemma DivModUnique(q: nat, r: nat, d: nat)
    requires 0 <= r < d
    ensures (q * d + r) / d == q && (q * d + r) % d == r
  {
    var a := q * d + r;
    var q', r' := a / d, a % d;
    assert a == q' * d + r';
    assert q * d - q' * d == r' - r;
    assert (q - q') * d == q * d - q' * d;
    if q > q' {
      MulAtLeast(q - q', d);
    } else if q < q' {
      assert (q' - q) * d == q' * d - q * d;
      MulAtLeast(q' - q, d);
    }
  }

  /**
   * The fields partition the word: kk is y and n, nnn is x and kk, and the
   * group and nnn together give back the word.
   */
  lemma FieldsPartitionWord(op: Word)
    ensures var f := Decode(op);
      && f.kk == f.y * 16 + f.n
      && f.nnn == f.x * 256 + f.kk
      && op == f.group * 0x1000 + f.nnn
      && op == Encode(f.group, f.x, f.y, f.n)
  {
    var n, a1 := op % 16, op / 16;
    var y, a2 := a1 % 16, a1 / 16;
    assert op == a2 * 256 + (y * 16 + n);
    DivModUnique(a2, y * 16 + n, 256);
    var kk := y * 16 + n;
    var x, a3 := a2 % 16, a2 / 16;
    assert op == a3 * 4096 + (x * 256 + kk);
    DivModUnique(a3, x * 256 + kk, 4096);
  }

  /** Decoding recovers every nibble a word was built from. */
  lemma DecodeEncode(group: nat, x: nat, y: nat, n: nat)
    requires group < 16 && x < 16 && y < 16 && n < 16
    ensures var f := Decode(Encode(group, x, y, n));
      f.group == group && f.x == x && f.y == y && f.n == n
  {
    var op := Encode(group, x, y, n);
    DivModUnique(group, x * 0x100 + y * 0x10 + n, 0x1000);
    DivModUnique(group * 16 + x, y * 0x10 + n, 0x100);
    DivModUnique(group * 16, x, 16);
    DivModUnique(group * 0x100 + x * 0x10 + y, n, 0x10);
    DivModUnique(group * 0x10 + x, y, 16);
    DivModUnique(op / 16, n, 16);
  }
}
