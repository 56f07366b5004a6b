/**
 * The interpreter as the source runs it: `struct emulator` as a class whose
 * arrays are updated in place, and `emulator_cycle`, `emulator_tick`,
 * `reset_emulator` and `load_rom` as methods. Every method is proved to
 * leave the object in the state that the corresponding function of
 * `Semantics` computes from the state it started in.
 */
module Interpreter {
  import opened State
  import opened Opcode
  import opened Display
  import opened Semantics

  class Emulator {
    var cyclesPerFrame: Byte
    const screen: array<bv8>
    var drawFlag: bool
    var keys: bv16
    const memory: array<Byte>
    const stack: array<Word>
    var sp: Word
    const v: array<Byte>
    var i: Word
    var pc: Word
    var delayTimer: Byte
    var soundTimer: Byte

    /** The array sizes of the struct declaration and the stack bound asserted by every cycle. */
    ghost predicate Valid()
      reads this
    {
      && screen.Length == ScreenBytes
      && memory.Length == MemorySize
      && stack.Length == StackSize
      && v.Length == RegisterCount
      && sp < StackSize
      && memory != v
    }

    /** The object's state as a `Machine` value. */
    ghost function State(): (m: Machine)
      reads this, screen, memory, stack, v
      ensures Valid() ==> WellFormed(m)
    {
      Machine(cyclesPerFrame, screen[..], drawFlag, keys, memory[..], stack[..], sp, v[..], i, pc, delayTimer, soundTimer)
    }

    /** A zero-initialised interpreter, as the global `struct emulator` starts out. */
    constructor ()
      ensures Valid()
      ensures fresh(screen) && fresh(memory) && fresh(stack) && fresh(v)
      ensures State() == Machine(0, seq(ScreenBytes, _ => 0), false, 0, seq(MemorySize, _ => 0),
                                 seq(StackSize, _ => 0), 0, seq(RegisterCount, _ => 0), 0, 0, 0, 0)
    {
      cyclesPerFrame := 0;
      screen := new bv8[ScreenBytes](_ => 0);
      drawFlag := false;
      keys := 0;
      memory := new Byte[MemorySize](_ => 0);
      stack := new Word[StackSize](_ => 0);
      sp := 0;
      v := new Byte[RegisterCount](_ => 0);
      i := 0;
      pc := 0;
      delayTimer := 0;
      soundTimer := 0;
    }

    /** Sets every framebuffer byte to zero. */
    method ClearScreen()
      requires Valid()
      modifies screen
      ensures screen[..] == BlankScreen()
    {
      var k := 0;
      while k < screen.Length
        invariant 0 <= k <= screen.Length
        invariant forall j :: 0 <= j < k ==> screen[j] == 0
      {
        screen[k] := 0;
        k := k + 1;
      }
    }

    /** 00E0 (CLS), 00EE (RET), and the other words of the 0 group. */
    method ExecuteSystem(f: Fields) returns (failed: bool)
      requires Valid()
      modifies this, screen
      ensures Valid() && Outcome(State(), failed) == System(old(State()), f)
    {
      failed := false;
      if f.kk == 0xE0 {
        ClearScreen();
        drawFlag := true;
        pc := Inc2(pc);
      } else if f.kk == 0xEE {
        if sp == 0 {
          return true;
        }
        sp := sp - 1;
        pc := stack[sp];
      }
    }

    /** 2nnn (CALL). */
    method ExecuteCall(f: Fields) returns (failed: bool)
      requires Valid()
      modifies this, stack
      ensures Valid() && Outcome(State(), failed) == Call(old(State()), f)
    {
      if sp + 1 >= stack.Length {
        return true;
      }
      stack[sp] := Inc2(pc);
      sp := sp + 1;
      pc := f.nnn;
      failed := false;
    }

    /** The register operations of the 8 group on the register array; VF is written first, as in the source. */
    method RegisterOperation(x: nat, y: nat, n: nat) returns (ok: bool)
      requires Valid() && x < RegisterCount && y < RegisterCount
      modifies v
      ensures ok == Alu(old(v[..]), x, y, n).Some?
      ensures v[..] == if ok then Alu(old(v[..]), x, y, n).value else old(v[..])
    {
      ok := true;
      match n {
        case 0x0 => v[x] := v[y];
        case 0x1 => v[x] := Or8(v[x], v[y]);
        case 0x2 => v[x] := And8(v[x], v[y]);
        case 0x3 => v[x] := Xor8(v[x], v[y]);
        case 0x4 =>
          var sum := Wrap8(v[x] as int + v[y]);
          v[VF] := if sum < v[x] then 1 else 0;
          v[x] := Wrap8(v[x] as int + v[y]);
        case 0x5 =>
          v[VF] := if v[x] > v[y] then 1 else 0;
          v[x] := Wrap8(v[x] as int - v[y]);
        case 0x6 =>
          v[VF] := v[x] % 2;
          v[x] := v[x] / 2;
        case 0x7 =>
          v[VF] := if v[y] > v[x] then 1 else 0;
          v[x] := Wrap8(v[y] as int - v[x]);
        case 0xE =>
          v[VF] := v[x] / 0x80 % 2;
          v[x] := Wrap8(v[x] as int * 2);
        case _ =>
          ok := false;
      }
    }

    /** 8xy?: a register operation, then PC moves on; an unknown one is refused. */
    method ExecuteArith(f: Fields) returns (failed: bool)
      requires Valid() && f.x < RegisterCount && f.y < RegisterCount
      modifies this, v
      ensures Valid() && Outcome(State(), failed) == Arith(old(State()), f)
    {
      var ok := RegisterOperation(f.x, f.y, f.n);
      if !ok {
        return true;
      }
      pc := Inc2(pc);
      failed := false;
    }

    /** XORs pixel (px, py) into the framebuffer and reports whether it was lit. */
    method FlipScreenPixel(px: nat, py: nat) returns (wasLit: bool)
      requires Valid() && px < Width && py < Height
      modifies screen
      ensures (screen[..], wasLit) == FlipPixel(old(screen[..]), px, py)
    {
      var index := py * (Width / 8) + px / 8;
      var mask := BitMask(px % 8);
      wasLit := screen[index] & mask != 0;
      screen[index] := screen[index] ^ mask;
    }

    /**
     * One sprite row of DRW: each set bit toggles its pixel on screen row
     * `py`, wrapping horizontally. Reports whether a lit pixel was hit.
     */
    method DrawSpriteRow(sprite: Byte, x0: nat, py: nat) returns (hit: bool)
      requires Valid() && x0 < Width && py < Height
      modifies screen
      ensures (screen[..], hit) == DrawCols(old(screen[..]), sprite, x0, py, 8)
    {
      hit := false;
      var col := 0;
      while col < 8
        invariant 0 <= col <= 8
        invariant (screen[..], hit) == DrawCols(old(screen[..]), sprite, x0, py, col)
      {
        hit := DrawNextColumn(old(screen[..]), sprite, x0, py, col, hit);
        col := col + 1;
      }
    }

    /** Draws column `col` of a sprite row onto the columns drawn before it. */
    method DrawNextColumn(ghost screen0: seq<bv8>, sprite: Byte, x0: nat, py: nat, col: nat, hit: bool) returns (hit': bool)
      requires Valid() && |screen0| == ScreenBytes && x0 < Width && py < Height && col < 8
      requires (screen[..], hit) == DrawCols(screen0, sprite, x0, py, col)
      modifies screen
      ensures (screen[..], hit') == DrawCols(screen0, sprite, x0, py, col + 1)
    {
      hit' := hit;
      if SpriteBit(sprite, col) {
        ghost var flip := FlipPixel(screen[..], (x0 + col) % Width, py);
        assert DrawCols(screen0, sprite, x0, py, col + 1) == (flip.0, hit || flip.1);
        var wasLit := FlipScreenPixel((x0 + col) % Width, py);
        hit' := hit || wasLit;
      } else {
        assert DrawCols(screen0, sprite, x0, py, col + 1) == DrawCols(screen0, sprite, x0, py, col);
      }
    }

    /** Draws sprite row `row`, read from memory at I + row, onto the rows drawn before it. */
    method DrawNextRow(ghost screen0: seq<bv8>, x0: nat, y0: nat, row: nat, hit: bool) returns (hit': bool)
      requires Valid() && |screen0| == ScreenBytes && x0 < Width && y0 < Height && i + row < MemorySize
      requires (screen[..], hit) == DrawRows(screen0, memory[..], i, x0, y0, row)
      modifies screen
      ensures (screen[..], hit') == DrawRows(screen0, memory[..], i, x0, y0, row + 1)
    {
      ghost var prev := DrawRows(screen0, memory[..], i, x0, y0, row);
      ghost var line := DrawCols(prev.0, memory[i + row], x0, (y0 + row) % Height, 8);
      assert DrawRows(screen0, memory[..], i, x0, y0, row + 1) == (line.0, prev.1 || line.1);
      var rowHit := DrawSpriteRow(memory[i + row], x0, (y0 + row) % Height);
      hit' := hit || rowHit;
    }

    /**
     * The row loop of DRW: rows are drawn from the top until the sprite is
     * complete or a row's address is past the end of memory. Reports
     * whether every row was drawn and whether a lit pixel was hit.
     */
    method DrawSpriteRows(x0: nat, y0: nat, height: nat) returns (complete: bool, hit: bool)
      requires Valid() && x0 < Width && y0 < Height
      modifies screen
      ensures var rows := DrawnRows(i, height);
        && complete == (rows == height)
        && (screen[..], hit) == DrawRows(old(screen[..]), memory[..], i, x0, y0, rows)
    {
      ghost var screen0 := screen[..];
      hit := false;
      var row := 0;
      while row < height
        invariant 0 <= row <= height
        invariant row == 0 || i + row <= MemorySize
        invariant (screen[..], hit) == DrawRows(screen0, memory[..], i, x0, y0, row)
      {
        if i + row >= MemorySize {
          assert DrawnRows(i, height) == row;
          return false, hit;
        }
        hit := DrawNextRow(screen0, x0, y0, row, hit);
        row := row + 1;
      }
      assert DrawnRows(i, height) == height;
      complete := true;
    }

    /**
     * Dxyn (DRW): VF is cleared, the sprite rows are XORed onto the screen
     * and VF becomes 1 if a lit pixel was hit; a row past the end of memory
     * stops the instruction with the rows before it drawn. The source sets
     * VF pixel by pixel; nothing reads it in between, so setting it once the
     * rows are drawn gives the same state.
     */
    method DrawSprite(f: Fields) returns (failed: bool)
      requires Valid() && f.x < RegisterCount && f.y < RegisterCount
      modifies this, screen, v
      ensures Valid() && Outcome(State(), failed) == Draw(old(State()), f)
    {
      var x0, y0 := v[f.x] % Width, v[f.y] % Height;
      v[VF] := 0;
      var complete, hit := DrawSpriteRows(x0, y0, f.n);
      if hit {
        v[VF] := 1;
      }
      if !complete {
        return true;
      }
      drawFlag := true;
      pc := Inc2(pc);
      failed := false;
    }

    /** Ex9E (SKP), ExA1 (SKNP), and the other words of the E group. */
    method ExecuteKeySkip(f: Fields) returns (failed: bool)
      requires Valid() && f.x < RegisterCount
      modifies this
      ensures Valid() && Outcome(State(), failed) == KeySkip(old(State()), f)
    {
      failed := false;
      if f.kk == 0x9E || f.kk == 0xA1 {
        if v[f.x] >= 16 {
          return true;
        }
        var down := KeyDown(keys, v[f.x]);
        if down == (f.kk == 0x9E) {
          pc := Inc2(pc);
        }
        pc := Inc2(pc);
      }
    }

    /** Fx0A (LD Vx, K): scans the keys from 0 up and takes the first one held. */
    method WaitForKey(f: Fields) returns (failed: bool)
      requires Valid() && f.x < RegisterCount
      modifies this, v
      ensures Valid() && Outcome(State(), failed) == WaitKey(old(State()), f)
    {
      var k := 0;
      while k < 16 && !KeyDown(keys, k)
        invariant 0 <= k <= 16
        invariant FirstKeyFrom(keys, k) == FirstKeyFrom(keys, 0)
      {
        k := k + 1;
      }
      if k < 16 {
        v[f.x] := k;
        pc := Inc2(pc);
      }
      failed := false;
    }

    /** Fx55 (LD [I], Vx): V0..Vx copied to memory from address I up. */
    method DumpRegisters(x: nat)
      requires Valid() && x < RegisterCount && i + x < MemorySize
      modifies memory
      ensures memory[..] == StoreRegisters(old(memory[..]), i, v[..], x)
    {
      var k := 0;
      while k <= x
        invariant 0 <= k <= x + 1
        invariant forall j :: 0 <= j < MemorySize ==> memory[j] == if i <= j < i + k then v[j - i] else old(memory[j])
      {
        memory[i + k] := v[k];
        k := k + 1;
      }
      assert forall j :: 0 <= j < MemorySize ==> memory[..][j] == StoreRegisters(old(memory[..]), i, v[..], x)[j];
    }

    /** Fx65 (LD Vx, [I]): V0..Vx copied from memory from address I up. */
    method LoadRegistersFromMemory(x: nat)
      requires Valid() && x < RegisterCount && i + x < MemorySize
      modifies v
      ensures v[..] == LoadRegisters(old(v[..]), memory[..], i, x)
    {
      var k := 0;
      while k <= x
        invariant 0 <= k <= x + 1
        invariant forall j :: 0 <= j < RegisterCount ==> v[j] == if j < k then memory[i + j] else old(v[j])
      {
        v[k] := memory[i + k];
        k := k + 1;
      }
      assert forall j :: 0 <= j < RegisterCount ==> v[..][j] == LoadRegisters(old(v[..]), memory[..], i, x)[j];
    }

    /** The F group: timers, index arithmetic, font, BCD, register dump and load. */
    method ExecuteMisc(f: Fields) returns (failed: bool)
      requires Valid() && f.x < RegisterCount
      modifies this, memory, v
      ensures Valid() && Outcome(State(), failed) == Misc(old(State()), f)
    {
      failed := false;
      if f.kk == 0x07 {
        v[f.x] := delayTimer;
        pc := Inc2(pc);
      } else if f.kk == 0x0A {
        failed := WaitForKey(f);
      } else if f.kk == 0x15 {
        delayTimer := v[f.x];
        pc := Inc2(pc);
      } else if f.kk == 0x18 {
        soundTimer := v[f.x];
        pc := Inc2(pc);
      } else if f.kk == 0x1E {
        i := Wrap16(i as int + v[f.x]);
        pc := Inc2(pc);
      } else if f.kk == 0x29 {
        if v[f.x] >= 16 {
          return true;
        }
        i := v[f.x] as int * GlyphSize;
        pc := Inc2(pc);
      } else if f.kk == 0x33 {
        if i + 2 >= MemorySize {
          return true;
        }
        memory[i] := v[f.x] / 100;
        memory[i + 1] := v[f.x] / 10 % 10;
        memory[i + 2] := v[f.x] % 10;
        pc := Inc2(pc);
      } else if f.kk == 0x55 {
        if i + f.x >= MemorySize {
          return true;
        }
        DumpRegisters(f.x);
        pc := Inc2(pc);
      } else if f.kk == 0x65 {
        if i + f.x >= MemorySize {
          return true;
        }
        LoadRegistersFromMemory(f.x);
        pc := Inc2(pc);
      } else {
        return true;
      }
    }

    /**
     * `emulator_cycle`: fetch the word at PC, decode it and execute it.
     * `rnd` is the byte `rand() % 256` yields if the instruction is RND.
     * The result is true when the source returns 1.
     */
    method Cycle(rnd: Byte) returns (failed: bool)
      requires Valid()
      modifies this, screen, memory, stack, v
      ensures Valid() && Outcome(State(), failed) == Step(old(State()), rnd)
    {
      if pc >= MemorySize - 1 {
        return true;
      }
      var op := memory[pc] as int * 256 + memory[pc + 1] as int;
      var f := Decode(op);
      assert f == Current(old(State()));
      failed := Dispatch(f, rnd);
    }

    /** Executes one decoded instruction, dispatching on its group nibble. */
    method Dispatch(f: Fields, rnd: Byte) returns (failed: bool)
      requires Valid() && f == Decode(f.op)
      modifies this, screen, memory, stack, v
      ensures Valid() && Outcome(State(), failed) == Execute(old(State()), f, rnd)
    {
      failed := false;
      match f.group {
        case 0x0 => failed := ExecuteSystem(f);
        case 0x1 => pc := f.nnn;
        case 0x2 => failed := ExecuteCall(f);
        case 0x3 =>
          if v[f.x] == f.kk {
            pc := Inc2(pc);
          }
          pc := Inc2(pc);
        case 0x4 =>
          if v[f.x] != f.kk {
            pc := Inc2(pc);
          }
          pc := Inc2(pc);
        case 0x5 =>
          if f.n != 0 {
            return true;
          }
          if v[f.x] == v[f.y] {
            pc := Inc2(pc);
          }
          pc := Inc2(pc);
        case 0x6 =>
          v[f.x] := f.kk;
          pc := Inc2(pc);
        case 0x7 =>
          v[f.x] := Wrap8(v[f.x] as int + f.kk);
          pc := Inc2(pc);
        case 0x8 => failed := ExecuteArith(f);
        case 0x9 =>
          if f.n != 0 {
            return true;
          }
          if v[f.x] != v[f.y] {
            pc := Inc2(pc);
          }
          pc := Inc2(pc);
        case 0xA =>
          i := f.nnn;
          pc := Inc2(pc);
        case 0xB => pc := f.nnn as int + v[0];
        case 0xC =>
          v[f.x] := And8(rnd, f.kk);
          pc := Inc2(pc);
        case 0xD => failed := DrawSprite(f);
        case 0xE => failed := ExecuteKeySkip(f);
        case _ => failed := ExecuteMisc(f);
      }
    }

    /** The end of a frame: each timer above zero goes down by one. */
    method CountDownTimers()
      requires Valid()
      modifies this
      ensures Valid()
      ensures State() == old(State()).(delayTimer := CountDown(old(delayTimer)), soundTimer := CountDown(old(soundTimer)))
    {
      if delayTimer > 0 {
        delayTimer := delayTimer - 1;
      }
      if soundTimer > 0 {
        soundTimer := soundTimer - 1;
      }
    }

    /**
     * One cycle of a frame whose remaining random bytes are `rest`: one
     * `emulator_cycle`, with a failure either halting (`Halt`) or moving PC
     * past the word (`ForceAdvance`). The rest of the frame from the new
     * state gives what it gave from the old one.
     */
    method CycleUnder(rest: seq<Byte>, policy: Policy) returns (halt: bool)
      requires Valid() && |rest| > 0
      modifies this, screen, memory, stack, v
      ensures Valid()
      ensures halt ==> Run(old(State()), rest, policy) == (State(), true)
      ensures !halt ==> Run(old(State()), rest, policy) == Run(State(), rest[1..], policy)
    {
      var failed := Cycle(rest[0]);
      halt := false;
      if failed {
        if policy == Halt {
          return true;
        }
        pc := Inc2(pc);
      }
    }

    /**
     * The cycle loop of `emulator_tick`: `rnds[j]` is the random byte of
     * cycle j. Under `Halt` a failed cycle ends the loop at once (the source
     * exits) and is reported.
     */
    method RunFrameCycles(rnds: seq<Byte>, policy: Policy) returns (halted: bool)
      requires Valid()
      modifies this, screen, memory, stack, v
      ensures Valid() && (State(), halted) == Run(old(State()), rnds, policy)
    {
      ghost var start := State();
      var j := 0;
      while j < |rnds|
        invariant Valid() && 0 <= j <= |rnds|
        invariant Run(start, rnds, policy) == Run(State(), rnds[j..], policy)
      {
        assert rnds[j..][1..] == rnds[j + 1..];
        var halt := CycleUnder(rnds[j..], policy);
        if halt {
          return true;
        }
        j := j + 1;
      }
      halted := false;
    }

    /**
     * `emulator_tick`: clear the draw flag, run `cyclesPerFrame` cycles and
     * count the timers down. When a cycle fails, the `Halt` policy stops at
     * once and reports it, leaving the timers as they are; the
     * `ForceAdvance` policy moves PC on and carries on.
     */
    method Tick(rnds: seq<Byte>, policy: Policy) returns (halted: bool)
      requires Valid() && |rnds| == cyclesPerFrame
      modifies this, screen, memory, stack, v
      ensures Valid() && (State(), halted) == Frame(old(State()), rnds, policy)
    {
      drawFlag := false;
      assert State() == old(State()).(drawFlag := false);
      halted := RunFrameCycles(rnds, policy);
      if !halted {
        CountDownTimers();
      }
    }

    /** `memset` of the whole memory to zero. */
    method ClearMemory()
      requires Valid()
      modifies memory
      ensures forall j :: 0 <= j < MemorySize ==> memory[j] == 0
    {
      var k := 0;
      while k < memory.Length
        invariant 0 <= k <= memory.Length
        invariant forall j :: 0 <= j < k ==> memory[j] == 0
      {
        memory[k] := 0;
        k := k + 1;
      }
    }

    /** `memcpy` of the font to address 0; the rest of memory is kept. */
    method CopyFont()
      requires Valid()
      modifies memory
      ensures forall j :: 0 <= j < MemorySize ==> memory[j] == if j < |FontSet| then FontSet[j] else old(memory[j])
    {
      var k := 0;
      while k < |FontSet|
        invariant 0 <= k <= |FontSet|
        invariant forall j :: 0 <= j < MemorySize ==> memory[j] == if j < k then FontSet[j] else old(memory[j])
      {
        memory[k] := FontSet[k];
        k := k + 1;
      }
    }

    /**
     * `reset_emulator`: memory and screen cleared, the font copied to
     * address 0, PC at the program start and the other scalars zeroed. The
     * registers and the stack slots keep their contents.
     */
    method Reset()
      requires Valid()
      modifies this, memory, screen
      ensures Valid() && State() == Semantics.Reset(old(State()))
    {
      cyclesPerFrame := DefaultCyclesPerFrame;
      ClearMemory();
      ClearScreen();
      drawFlag := false;
      keys := 0;
      pc := MemoryStart;
      i := 0;
      sp := 0;
      delayTimer := 0;
      soundTimer := 0;
      CopyFont();
      assert forall j :: 0 <= j < MemorySize ==> memory[..][j] == ResetMemory()[j];
      assert memory[..] == ResetMemory();
    }

    /**
     * The size check and copy of `load_rom`, given the bytes of the file:
     * a ROM larger than the program area is refused and memory is left as
     * it was; otherwise the ROM is copied to the program start.
     */
    method LoadRom(rom: seq<Byte>) returns (ok: bool)
      requires Valid()
      modifies memory
      ensures Valid()
      ensures var r := Semantics.LoadRom(old(memory[..]), rom);
        ok == r.Some? && memory[..] == if ok then r.value else old(memory[..])
    {
      if |rom| > MemorySize - MemoryStart {
        return false;
      }
      var k := 0;
      while k < |rom|
        invariant 0 <= k <= |rom|
        invariant forall j :: 0 <= j < MemorySize ==>
          memory[j] == if MemoryStart <= j < MemoryStart + k then rom[j - MemoryStart] else old(memory[j])
      {
        memory[MemoryStart + k] := rom[k];
        k := k + 1;
      }
      assert forall j :: 0 <= j < MemorySize ==> memory[..][j] == Semantics.LoadRom(old(memory[..]), rom).value[j];
      ok := true;
    }

    /** `emulator_init`: a reset followed by loading the ROM. */
    method Init(rom: seq<Byte>) returns (ok: bool)
      requires Valid()
      modifies this, memory, screen
      ensures Valid()
      ensures var r := Semantics.Reset(old(State()));
        var mem := Semantics.LoadRom(r.memory, rom);
        && ok == mem.Some?
        && State() == if ok then r.(memory := mem.value) else r
    {
      Reset();
      ok := LoadRom(rom);
    }
  }
}
