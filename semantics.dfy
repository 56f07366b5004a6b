/**
 * What one call of `emulator_cycle`, `emulator_tick`, `reset_emulator` and
 * the ROM size check of `load_rom` do to the machine state, as functions on
 * `Machine` values. Each instruction is written the way the source executes
 * it, including the order of its writes to VF. The imperative `Emulator`
 * class is proved to compute exactly these functions.
 */
module Semantics {
  import opened State
  import opened Opcode
  import opened Display

  /** The state after one cycle and whether `emulator_cycle` returned 1. */
  datatype Outcome = Outcome(next: Machine, failed: bool)

  /**
   * What no instruction changes: the array sizes, the stack bound, the
   * execution speed and the key mask (written only by the host).
   */
  predicate Keeps(m: Machine, m': Machine)
  {
    WellFormed(m') && m'.cyclesPerFrame == m.cyclesPerFrame && m'.keys == m.keys
  }

  /** `pc += 2` on a `uint16_t`. */
  function Inc2(w: Word): (r: Word)
    ensures w < 0xFFFE ==> r == w + 2
    ensures w >= 0xFFFE ==> r == w + 2 - 0x1_0000
  {
    Wrap16(w as int + 2)
  }

  /** The state with PC moved to the next instruction. */
  function Advance(m: Machine): Machine
  {
    m.(pc := Inc2(m.pc))
  }

  /** A skip: PC moves past the next instruction when `skip` holds, and past this one in any case. */
  function SkipIf(m: Machine, skip: bool): (r: Outcome)
    ensures !r.failed && r.next.(pc := m.pc) == m
    ensures m.pc < 0xFFFC ==> r.next.pc == m.pc + if skip then 4 else 2
  {
    Outcome(m.(pc := Inc2(if skip then Inc2(m.pc) else m.pc)), false)
  }

  /** An all-dark framebuffer. */
  function BlankScreen(): (s: seq<bv8>)
    ensures |s| == ScreenBytes && forall k :: 0 <= k < ScreenBytes ==> s[k] == 0
  {
    seq(ScreenBytes, _ => 0)
  }

  /** Whether key `k` is held: bit k of the key mask. */
  predicate KeyDown(keys: bv16, k: nat): (held: bool)
    requires k < 16
    ensures held ==> keys != 0
  {
    keys & ((1 as bv16) << k) != 0
  }

  /** The lowest held key at or above `from`, scanning upwards. */
  function FirstKeyFrom(keys: bv16, from: nat): (r: Option<nat>)
    requires from <= 16
    ensures r.Some? ==> from <= r.value < 16 && KeyDown(keys, r.value)
    ensures r.Some? ==> forall k :: from <= k < r.value ==> !KeyDown(keys, k)
    ensures r.None? ==> forall k :: from <= k < 16 ==> !KeyDown(keys, k)
    decreases 16 - from
  {
    if from == 16 then None
    else if KeyDown(keys, from) then Some(from)
    else FirstKeyFrom(keys, from + 1)
  }

  /** The decimal digits of a byte: hundreds, tens and units. */
  function Bcd(value: Byte): (digits: seq<Byte>)
    ensures |digits| == 3
    ensures digits[0] < 10 && digits[1] < 10 && digits[2] < 10
    ensures digits[0] as int * 100 + digits[1] as int * 10 + digits[2] as int == value
  {
    [value / 100, value / 10 % 10, value % 10]
  }

  /** Register dump: V0..Vx written to memory[addr..addr+x], nothing else touched. */
  function StoreRegisters(memory: seq<Byte>, addr: nat, v: seq<Byte>, x: nat): (r: seq<Byte>)
    requires addr + x < |memory| && x < |v|
    ensures |r| == |memory|
    ensures forall k :: 0 <= k < |r| ==> r[k] == if addr <= k <= addr + x then v[k - addr] else memory[k]
  {
    memory[..addr] + v[..x + 1] + memory[addr + x + 1..]
  }

  /** Register load: V0..Vx read from memory[addr..addr+x], the other registers kept. */
  function LoadRegisters(v: seq<Byte>, memory: seq<Byte>, addr: nat, x: nat): (r: seq<Byte>)
    requires addr + x < |memory| && x < |v|
    ensures |r| == |v|
    ensures forall k :: 0 <= k < |r| ==> r[k] == if k <= x then memory[addr + k] else v[k]
  {
    memory[addr..addr + x + 1] + v[x + 1..]
  }

  /**
   * The 8xy? register operations on the register file, in the order the
   * source performs them: VF is written first, and the result is then
   * computed from the registers as they are after that write. None for a
   * low nibble the source does not handle.
   */
  function Alu(v: seq<Byte>, x: nat, y: nat, n: nat): (r: Option<seq<Byte>>)
    requires |v| == RegisterCount && x < RegisterCount && y < RegisterCount
    ensures r.Some? <==> n <= 7 || n == 0xE
    ensures r.Some? ==> |r.value| == RegisterCount
    ensures r.Some? ==> forall k :: 0 <= k < RegisterCount && k != x && k != VF ==> r.value[k] == v[k]
  {
    match n
    case 0x0 => Some(v[x := v[y]])
    case 0x1 => Some(v[x := Or8(v[x], v[y])])
    case 0x2 => Some(v[x := And8(v[x], v[y])])
    case 0x3 => Some(v[x := Xor8(v[x], v[y])])
    case 0x4 =>
      var sum := Wrap8(v[x] as int + v[y]);
      var w := v[VF := if sum < v[x] then 1 else 0];
      Some(w[x := Wrap8(w[x] as int + w[y])])
    case 0x5 =>
      var w := v[VF := if v[x] > v[y] then 1 else 0];
      Some(w[x := Wrap8(w[x] as int - w[y])])
    case 0x6 =>
      var w := v[VF := v[x] % 2];
      Some(w[x := w[x] / 2])
    case 0x7 =>
      var w := v[VF := if v[y] > v[x] then 1 else 0];
      Some(w[x := Wrap8(w[y] as int - w[x])])
    case 0xE =>
      var w := v[VF := v[x] / 0x80 % 2];
      Some(w[x := Wrap8(w[x] as int * 2)])
    case _ => None
  }

  /** 00E0 (CLS), 00EE (RET); any other word of the 0 group is ignored. */
  function System(m: Machine, f: Fields): (r: Outcome)
    requires WellFormed(m)
    ensures Keeps(m, r.next)
  {
    if f.kk == 0xE0 then
      Outcome(Advance(m.(screen := BlankScreen(), drawFlag := true)), false)
    else if f.kk == 0xEE then
      if m.sp == 0 then Outcome(m, true)
      else Outcome(m.(sp := m.sp - 1, pc := m.stack[m.sp - 1]), false)
    else
      Outcome(m, false)
  }

  /** 2nnn (CALL): push the return address unless the stack is full. */
  function Call(m: Machine, f: Fields): (r: Outcome)
    requires WellFormed(m)
    ensures Keeps(m, r.next)
  {
    if m.sp + 1 >= StackSize then Outcome(m, true)
    else Outcome(m.(stack := m.stack[m.sp := Inc2(m.pc)], sp := m.sp + 1, pc := f.nnn), false)
  }

  /** 8xy?: a register operation, or a failure for an unhandled low nibble. */
  function Arith(m: Machine, f: Fields): (r: Outcome)
    requires WellFormed(m) && f.x < RegisterCount && f.y < RegisterCount
    ensures Keeps(m, r.next)
  {
    match Alu(m.v, f.x, f.y, f.n)
    case None => Outcome(m, true)
    case Some(v') => Outcome(Advance(m.(v := v')), false)
  }

  /**
   * The number of sprite rows DRW reads before it stops: all n of them, or
   * the rows whose address is still below the end of memory.
   */
  function DrawnRows(i: Word, n: nat): (rows: nat)
    ensures rows <= n && (rows == 0 || i + rows <= MemorySize)
    ensures rows < n <==> n > 0 && i + (n - 1) >= MemorySize
  {
    var readable := if i >= MemorySize then 0 else MemorySize - i;
    if n <= readable then n else readable
  }

  /**
   * Dxyn (DRW): VF is cleared, the sprite rows are XORed onto the screen
   * and VF is set on a collision. A row whose address is past the end of
   * memory stops the instruction with the earlier rows already drawn and VF
   * already written.
   */
  function Draw(m: Machine, f: Fields): (r: Outcome)
    requires WellFormed(m) && f.x < RegisterCount && f.y < RegisterCount
    ensures Keeps(m, r.next)
  {
    var x0, y0 := m.v[f.x] % Width, m.v[f.y] % Height;
    var rows := DrawnRows(m.i, f.n);
    var d := DrawRows(m.screen, m.memory, m.i, x0, y0, rows);
    var m' := m.(screen := d.0, v := m.v[VF := if d.1 then 1 else 0]);
    if rows < f.n then Outcome(m', true)
    else Outcome(Advance(m'.(drawFlag := true)), false)
  }

  /** Ex9E (SKP), ExA1 (SKNP); any other word of the E group is ignored. */
  function KeySkip(m: Machine, f: Fields): (r: Outcome)
    requires WellFormed(m) && f.x < RegisterCount
    ensures Keeps(m, r.next)
  {
    if f.kk == 0x9E then
      if m.v[f.x] >= 16 then Outcome(m, true) else SkipIf(m, KeyDown(m.keys, m.v[f.x]))
    else if f.kk == 0xA1 then
      if m.v[f.x] >= 16 then Outcome(m, true) else SkipIf(m, !KeyDown(m.keys, m.v[f.x]))
    else
      Outcome(m, false)
  }

  /** Fx0A (LD Vx, K): without a held key nothing changes and the instruction runs again. */
  function WaitKey(m: Machine, f: Fields): (r: Outcome)
    requires WellFormed(m) && f.x < RegisterCount
    ensures Keeps(m, r.next)
  {
    match FirstKeyFrom(m.keys, 0)
    case None => Outcome(m, false)
    case Some(k) => Outcome(Advance(m.(v := m.v[f.x := k])), false)
  }

  /** The F group: timers, index arithmetic, font, BCD, register dump and load. */
  function Misc(m: Machine, f: Fields): (r: Outcome)
    requires WellFormed(m) && f.x < RegisterCount
    ensures Keeps(m, r.next)
  {
    var vx := m.v[f.x];
    if f.kk == 0x07 then Outcome(Advance(m.(v := m.v[f.x := m.delayTimer])), false)
    else if f.kk == 0x0A then WaitKey(m, f)
    else if f.kk == 0x15 then Outcome(Advance(m.(delayTimer := vx)), false)
    else if f.kk == 0x18 then Outcome(Advance(m.(soundTimer := vx)), false)
    else if f.kk == 0x1E then Outcome(Advance(m.(i := Wrap16(m.i as int + vx))), false)
    else if f.kk == 0x29 then
      if vx >= 16 then Outcome(m, true) else Outcome(Advance(m.(i := vx as int * GlyphSize)), false)
    else if f.kk == 0x33 then
      if m.i + 2 >= MemorySize then Outcome(m, true)
      else
        var d := Bcd(vx);
        Outcome(Advance(m.(memory := m.memory[m.i := d[0]][m.i + 1 := d[1]][m.i + 2 := d[2]])), false)
    else if f.kk == 0x55 then
      if m.i + f.x >= MemorySize then Outcome(m, true)
      else Outcome(Advance(m.(memory := StoreRegisters(m.memory, m.i, m.v, f.x))), false)
    else if f.kk == 0x65 then
      if m.i + f.x >= MemorySize then Outcome(m, true)
      else Outcome(Advance(m.(v := LoadRegisters(m.v, m.memory, m.i, f.x))), false)
    else
      Outcome(m, true)
  }

  /** Executes one decoded instruction, dispatching on its group nibble. */
  function Execute(m: Machine, f: Fields, rnd: Byte): (r: Outcome)
    requires WellFormed(m) && f == Decode(f.op)
    ensures Keeps(m, r.next)
  {
    match f.group
    case 0x0 => System(m, f)
    case 0x1 => Outcome(m.(pc := f.nnn), false)
    case 0x2 => Call(m, f)
    case 0x3 => SkipIf(m, m.v[f.x] == f.kk)
    case 0x4 => SkipIf(m, m.v[f.x] != f.kk)
    case 0x5 => if f.n != 0 then Outcome(m, true) else SkipIf(m, m.v[f.x] == m.v[f.y])
    case 0x6 => Outcome(Advance(m.(v := m.v[f.x := f.kk])), false)
    case 0x7 => Outcome(Advance(m.(v := m.v[f.x := Wrap8(m.v[f.x] as int + f.kk)])), false)
    case 0x8 => Arith(m, f)
    case 0x9 => if f.n != 0 then Outcome(m, true) else SkipIf(m, m.v[f.x] != m.v[f.y])
    case 0xA => Outcome(Advance(m.(i := f.nnn)), false)
    case 0xB => Outcome(m.(pc := f.nnn as int + m.v[0]), false)
    case 0xC => Outcome(Advance(m.(v := m.v[f.x := And8(rnd, f.kk)])), false)
    case 0xD => Draw(m, f)
    case 0xE => KeySkip(m, f)
    case _ => Misc(m, f)
  }

  /** The instruction at PC, fetched and decoded; defined when PC leaves room for a whole word. */
  function Current(m: Machine): (f: Fields)
    requires WellFormed(m) && m.pc < MemorySize - 1
    ensures f == Decode(f.op)
    ensures f.op / 256 == m.memory[m.pc] && f.op % 256 == m.memory[m.pc + 1]
  {
    Decode(Fetch(m.memory, m.pc))
  }

  /**
   * One `emulator_cycle`: refuse a PC with no room for a whole instruction,
   * otherwise fetch, decode and execute. `rnd` is the byte `rand() % 256`
   * would produce. The result keeps the array sizes and the stack bound,
   * and never changes the configuration or the keys.
   */
  function Step(m: Machine, rnd: Byte): (r: Outcome)
    requires WellFormed(m)
    ensures Keeps(m, r.next)
  {
    if m.pc >= MemorySize - 1 then Outcome(m, true)
    else Execute(m, Current(m), rnd)
  }

  /** What the frame driver does when a cycle fails. */
  datatype Policy =
    | Halt          // the normal build: exit(EXIT_FAILURE)
    | ForceAdvance  // the test build: pc += 2 and carry on

  /**
   * The cycles of a frame, one per random byte in `rnds`, in order. The
   * flag says a failed cycle halted the interpreter; the cycles after it do
   * not run.
   */
  function Run(m: Machine, rnds: seq<Byte>, policy: Policy): (r: (Machine, bool))
    requires WellFormed(m)
    ensures WellFormed(r.0)
    ensures r.0.cyclesPerFrame == m.cyclesPerFrame && r.0.keys == m.keys
    decreases |rnds|
  {
    if |rnds| == 0 then (m, false)
    else
      var out := Step(m, rnds[0]);
      if !out.failed then Run(out.next, rnds[1..], policy)
      else if policy == Halt then (out.next, true)
      else Run(Advance(out.next), rnds[1..], policy)
  }

  /** A timer one frame later: one less, but never below zero. */
  function CountDown(t: Byte): (r: Byte)
    ensures t == 0 ==> r == 0
    ensures t > 0 ==> r + 1 == t
  {
    if t > 0 then t - 1 else 0
  }

  /**
   * One `emulator_tick`: clear the draw flag, run `cyclesPerFrame` cycles,
   * then count both timers down. A halt stops the frame where it failed.
   */
  function Frame(m: Machine, rnds: seq<Byte>, policy: Policy): (r: (Machine, bool))
    requires WellFormed(m) && |rnds| == m.cyclesPerFrame
    ensures WellFormed(r.0)
  {
    var run := Run(m.(drawFlag := false), rnds, policy);
    if run.1 then run
    else (run.0.(delayTimer := CountDown(run.0.delayTimer), soundTimer := CountDown(run.0.soundTimer)), false)
  }

  /** Memory after a reset: the font at address 0, zero everywhere else. */
  function ResetMemory(): (mem: seq<Byte>)
  {
    FontSet + seq(MemorySize - |FontSet|, _ => 0)
  }

  /**
   * `reset_emulator`: memory and screen cleared and the font loaded, PC at
   * the program start, the other scalars zero and 16 cycles per frame. The
   * registers and the stack slots are not touched.
   */
  function Reset(m: Machine): (r: Machine)
    ensures |m.v| == RegisterCount && |m.stack| == StackSize ==> WellFormed(r)
    ensures |r.memory| == MemorySize && r.memory[..|FontSet|] == FontSet
    ensures forall k :: |FontSet| <= k < MemorySize ==> r.memory[k] == 0
    ensures |r.screen| == ScreenBytes && forall px, py :: 0 <= px < Width && 0 <= py < Height ==> !PixelOn(r.screen, px, py)
    ensures r.pc == MemoryStart && r.i == 0 && r.sp == 0 && r.delayTimer == 0 && r.soundTimer == 0
    ensures r.keys == 0 && !r.drawFlag && r.cyclesPerFrame == DefaultCyclesPerFrame
    ensures r.v == m.v && r.stack == m.stack
  {
    m.(cyclesPerFrame := DefaultCyclesPerFrame,
       memory := ResetMemory(),
       screen := BlankScreen(),
       drawFlag := false,
       keys := 0,
       pc := MemoryStart,
       i := 0,
       sp := 0,
       delayTimer := 0,
       soundTimer := 0)
  }

  /** The size check and copy of `load_rom`: a ROM larger than the program area is refused. */
  function LoadRom(memory: seq<Byte>, rom: seq<Byte>): (r: Option<seq<Byte>>)
    requires |memory| == MemorySize
    ensures r.None? <==> |rom| > MemorySize - MemoryStart
    ensures r.Some? ==> |r.value| == MemorySize
    ensures r.Some? ==> forall k :: 0 <= k < |rom| ==> r.value[MemoryStart + k] == rom[k]
    ensures r.Some? ==> forall k :: 0 <= k < MemorySize && !(MemoryStart <= k < MemoryStart + |rom|) ==> r.value[k] == memory[k]
  {
    if |rom| > MemorySize - MemoryStart then None
    else Some(memory[..MemoryStart] + rom + memory[MemoryStart + |rom|..])
  }
}
