/**
 * Properties of the instruction semantics: what each instruction computes,
 * stated independently of how the interpreter computes it.
 */
module Properties {
  import opened State
  import opened Opcode
  import opened Display
  import opened Semantics

  // ---------------------------------------------------------------------
  // 8xy? register operations
  // ---------------------------------------------------------------------

  /** The low nibbles that the 8 group handles; every other one is refused. */
  lemma AluDefinedNibbles(v: seq<Byte>, x: nat, y: nat, n: nat)
    requires |v| == RegisterCount && x < RegisterCount && y < RegisterCount
    ensures Alu(v, x, y, n).Some? <==> n <= 7 || n == 0xE
  {
  }

  /**
   * A register operation writes only its target register and VF, and the
   * four operations without a flag (LD, OR, AND, XOR) leave VF alone.
   */
  lemma AluFrame(v: seq<Byte>, x: nat, y: nat, n: nat)
    requires |v| == RegisterCount && x < RegisterCount && y < RegisterCount
    requires Alu(v, x, y, n).Some?
    ensures |Alu(v, x, y, n).value| == RegisterCount
    ensures forall k :: 0 <= k < RegisterCount && k != x && k != VF ==> Alu(v, x, y, n).value[k] == v[k]
    ensures n <= 3 && x != VF ==> Alu(v, x, y, n).value[VF] == v[VF]
  {
  }

  /** 8xy4 with neither operand in VF: VF is the carry out of the 8-bit sum. */
  lemma AddCarries(v: seq<Byte>, x: nat, y: nat)
    requires |v| == RegisterCount && x < VF && y < VF
    ensures var r := Alu(v, x, y, 4).value;
      && r[VF] == (if v[x] as int + v[y] >= 0x100 then 1 else 0)
      && r[x] as int + 0x100 * r[VF] as int == v[x] as int + v[y]
  {
  }

  /**
   * 8xy5 with neither operand in VF: Vx becomes Vx - Vy modulo 256 and VF
   * is 1 exactly when Vx was strictly greater than Vy.
   */
  lemma SubtractsWithFlag(v: seq<Byte>, x: nat, y: nat)
    requires |v| == RegisterCount && x < VF && y < VF
    ensures var r := Alu(v, x, y, 5).value;
      && (r[VF] == 1 <==> v[x] > v[y])
      && (r[VF] == 0 <==> v[x] <= v[y])
      && r[x] as int + v[y] == v[x] as int + (if v[x] < v[y] then 0x100 else 0)
  {
  }

  /** 8xy7 with neither operand in VF: Vx becomes Vy - Vx modulo 256 and VF is 1 exactly when Vy > Vx. */
  lemma SubtractsReversedWithFlag(v: seq<Byte>, x: nat, y: nat)
    requires |v| == RegisterCount && x < VF && y < VF
    ensures var r := Alu(v, x, y, 7).value;
      && (r[VF] == 1 <==> v[y] > v[x])
      && (r[VF] == 0 <==> v[y] <= v[x])
      && r[x] as int + v[x] == v[y] as int + (if v[y] < v[x] then 0x100 else 0)
  {
  }

  /** 8xy6 on a register other than VF: VF gets the bit shifted out, Vx the rest. */
  lemma ShiftsRight(v: seq<Byte>, x: nat, y: nat)
    requires |v| == RegisterCount && x < VF && y < RegisterCount
    ensures var r := Alu(v, x, y, 6).value;
      r[VF] < 2 && r[x] < 0x80 && 2 * r[x] as int + r[VF] == v[x]
  {
  }

  /** 8xyE on a register other than VF: VF gets the bit shifted out, Vx the rest. */
  lemma ShiftsLeft(v: seq<Byte>, x: nat, y: nat)
    requires |v| == RegisterCount && x < VF && y < RegisterCount
    ensures var r := Alu(v, x, y, 0xE).value;
      r[VF] < 2 && r[x] % 2 == 0 && r[x] as int + 0x100 * r[VF] as int == 2 * v[x] as int
  {
  }

  /**
   * With VF as the target, the flag is overwritten by the result, which is
   * itself computed from the flag: SHR VF always leaves 0 and SHL VF leaves
   * twice the bit shifted out.
   */
  lemma ShiftsIntoFlag(v: seq<Byte>, y: nat)
    requires |v| == RegisterCount && y < RegisterCount
    ensures Alu(v, VF, y, 6).value[VF] == 0
    ensures Alu(v, VF, y, 0xE).value[VF] == 2 * (v[VF] as int / 0x80)
  {
  }

  // ---------------------------------------------------------------------
  // One cycle
  // ---------------------------------------------------------------------

  /** A PC with no room for a whole instruction is refused and nothing changes. */
  lemma PcPastMemoryFails(m: Machine, rnd: Byte)
    requires WellFormed(m) && m.pc >= MemorySize - 1
    ensures Step(m, rnd) == Outcome(m, true)
  {
  }

  /**
   * The complete list of the conditions under which a cycle reports an
   * error: a PC at the end of memory, a return on an empty stack, a call
   * on a full one, a malformed 5xy?/9xy?, an unknown 8xy? or Fx??, a
   * sprite that runs past the end of memory, a key or font digit above 15,
   * and a BCD, dump or load that runs past the end of memory.
   */
  lemma FailureConditions(m: Machine, rnd: Byte)
    requires WellFormed(m) && m.pc < MemorySize - 1
    ensures var f := Current(m);
      Step(m, rnd).failed <==>
        || (f.group == 0x0 && f.kk == 0xEE && m.sp == 0)
        || (f.group == 0x2 && m.sp == StackSize - 1)
        || ((f.group == 0x5 || f.group == 0x9) && f.n != 0)
        || (f.group == 0x8 && !(f.n <= 7 || f.n == 0xE))
        || (f.group == 0xD && f.n > 0 && m.i + f.n > MemorySize)
        || (f.group == 0xE && (f.kk == 0x9E || f.kk == 0xA1) && m.v[f.x] >= 16)
        || (f.group == 0xF && !(f.kk in {0x07, 0x0A, 0x15, 0x18, 0x1E, 0x29, 0x33, 0x55, 0x65}))
        || (f.group == 0xF && f.kk == 0x29 && m.v[f.x] >= 16)
        || (f.group == 0xF && f.kk == 0x33 && m.i + 2 >= MemorySize)
        || (f.group == 0xF && (f.kk == 0x55 || f.kk == 0x65) && m.i + f.x >= MemorySize)
  {
  }

  /** Every refusal except that of DRW happens before the instruction writes anything. */
  lemma FailureChangesNothing(m: Machine, rnd: Byte)
    requires WellFormed(m)
    requires m.pc >= MemorySize - 1 || Current(m).group != 0xD
    ensures Step(m, rnd).failed ==> Step(m, rnd).next == m
  {
  }

  /**
   * A word of the 0 group other than 00E0 and 00EE, or of the E group
   * other than Ex9E and ExA1, is accepted but leaves the whole state as it
   * was, PC included: the interpreter executes it again on every cycle.
   */
  lemma IgnoredWordsSpin(m: Machine, rnd: Byte)
    requires WellFormed(m) && m.pc < MemorySize - 1
    requires var f := Current(m);
      || (f.group == 0x0 && f.kk != 0xE0 && f.kk != 0xEE)
      || (f.group == 0xE && f.kk != 0x9E && f.kk != 0xA1)
    ensures Step(m, rnd) == Outcome(m, false)
  {
  }

  /**
   * 00E0 (CLS), recognised by its low byte alone: every pixel goes dark,
   * the draw flag is raised and PC moves on; registers and memory stay.
   */
  lemma ClearStep(m: Machine, rnd: Byte)
    requires WellFormed(m) && m.pc < MemorySize - 1
    requires Current(m).group == 0x0 && Current(m).kk == 0xE0
    ensures var r := Step(m, rnd);
      && !r.failed
      && (forall px, py :: 0 <= px < Width && 0 <= py < Height ==> !PixelOn(r.next.screen, px, py))
      && r.next == m.(screen := r.next.screen, drawFlag := true, pc := m.pc + 2)
  {
  }

  /** 1nnn (JP): PC becomes nnn and nothing else changes. */
  lemma JumpStep(m: Machine, rnd: Byte)
    requires WellFormed(m) && m.pc < MemorySize - 1 && Current(m).group == 0x1
    ensures Step(m, rnd) == Outcome(m.(pc := Current(m).nnn), false)
  {
  }

  /**
   * 2nnn (CALL) pushes the address of the next instruction and jumps. A
   * call is refused once 11 return addresses are stacked, so the twelfth
   * slot is never written and SP stays below the stack size.
   */
  lemma CallPushes(m: Machine, rnd: Byte)
    requires WellFormed(m) && m.pc < MemorySize - 1 && Current(m).group == 0x2
    ensures var r := Step(m, rnd);
      && (r.failed <==> m.sp == StackSize - 1)
      && (!r.failed ==> r.next.sp == m.sp + 1 && r.next.stack[m.sp] == m.pc + 2 && r.next.pc == Current(m).nnn)
      && (!r.failed ==> forall k :: 0 <= k < StackSize && k != m.sp ==> r.next.stack[k] == m.stack[k])
      && (!r.failed ==> r.next == m.(stack := m.stack[m.sp := m.pc + 2], sp := m.sp + 1, pc := Current(m).nnn))
      && (r.failed ==> r.next == m)
  {
  }

  /** 00EE (RET) pops the top return address into PC, and is refused on an empty stack. */
  lemma ReturnPops(m: Machine, rnd: Byte)
    requires WellFormed(m) && m.pc < MemorySize - 1
    requires Current(m).group == 0x0 && Current(m).kk == 0xEE
    ensures var r := Step(m, rnd);
      && (r.failed <==> m.sp == 0)
      && (!r.failed ==> r.next == m.(sp := m.sp - 1, pc := m.stack[m.sp - 1]))
  {
  }

  /**
   * A call whose target is a return comes back to the instruction after
   * the call, with SP and every register as before; only the stack slot
   * that held the return address keeps it.
   */
  lemma CallThenReturn(m: Machine, rnd1: Byte, rnd2: Byte)
    requires WellFormed(m) && m.pc < MemorySize - 1 && Current(m).group == 0x2
    requires m.sp < StackSize - 1
    requires var c := Step(m, rnd1).next;
      c.pc < MemorySize - 1 && Current(c).group == 0x0 && Current(c).kk == 0xEE
    ensures var c := Step(m, rnd1);
      var r := Step(c.next, rnd2);
      && !c.failed && !r.failed
      && r.next == m.(stack := m.stack[m.sp := m.pc + 2], pc := m.pc + 2)
  {
    CallPushes(m, rnd1);
    ReturnPops(Step(m, rnd1).next, rnd2);
  }

  /**
   * 3xkk (SE), 4xkk (SNE): PC moves past the next instruction when Vx
   * equals kk (SE) or differs from it (SNE), and past this one otherwise;
   * nothing else changes.
   */
  lemma SkipOnByte(m: Machine, rnd: Byte)
    requires WellFormed(m) && m.pc < MemorySize - 1
    requires Current(m).group == 0x3 || Current(m).group == 0x4
    ensures var f, r := Current(m), Step(m, rnd);
      var skip := (m.v[f.x] == f.kk) == (f.group == 0x3);
      && !r.failed
      && r.next == m.(pc := m.pc + if skip then 4 else 2)
  {
  }

  /**
   * 5xy0 (SE), 9xy0 (SNE) compare two registers the same way; a nonzero
   * low nibble is refused.
   */
  lemma SkipOnRegisters(m: Machine, rnd: Byte)
    requires WellFormed(m) && m.pc < MemorySize - 1
    requires Current(m).group == 0x5 || Current(m).group == 0x9
    ensures var f, r := Current(m), Step(m, rnd);
      var skip := (m.v[f.x] == m.v[f.y]) == (f.group == 0x5);
      && (r.failed <==> f.n != 0)
      && (!r.failed ==> r.next == m.(pc := m.pc + if skip then 4 else 2))
  {
  }

  /**
   * Ex9E (SKP), ExA1 (SKNP): a key number above 15 is refused; otherwise
   * PC moves past the next instruction when the key is held (SKP) or not
   * held (SKNP).
   */
  lemma SkipOnKey(m: Machine, rnd: Byte)
    requires WellFormed(m) && m.pc < MemorySize - 1 && Current(m).group == 0xE
    requires Current(m).kk == 0x9E || Current(m).kk == 0xA1
    ensures var f, r := Current(m), Step(m, rnd);
      && (r.failed <==> m.v[f.x] >= 16)
      && (!r.failed ==> r.next == m.(pc := m.pc + if KeyDown(m.keys, m.v[f.x]) == (f.kk == 0x9E) then 4 else 2))
  {
  }

  /**
   * 8xy?: the register file becomes the result of the register operation
   * and PC moves on; an unknown operation is refused.
   */
  lemma ArithStep(m: Machine, rnd: Byte)
    requires WellFormed(m) && m.pc < MemorySize - 1 && Current(m).group == 0x8
    ensures var f, r := Current(m), Step(m, rnd);
      var a := Alu(m.v, f.x, f.y, f.n);
      && (r.failed <==> a.None?)
      && (a.Some? ==> r.next == m.(v := a.value, pc := m.pc + 2))
  {
  }

  /** 6xkk (LD Vx, byte): Vx becomes kk; nothing else but PC changes. */
  lemma LoadByteStep(m: Machine, rnd: Byte)
    requires WellFormed(m) && m.pc < MemorySize - 1 && Current(m).group == 0x6
    ensures var f, r := Current(m), Step(m, rnd);
      && !r.failed
      && r.next == m.(v := m.v[f.x := f.kk], pc := m.pc + 2)
  {
  }

  /** Annn (LD I): I becomes nnn; nothing else but PC changes. */
  lemma LoadIndexStep(m: Machine, rnd: Byte)
    requires WellFormed(m) && m.pc < MemorySize - 1 && Current(m).group == 0xA
    ensures var r := Step(m, rnd);
      !r.failed && r.next == m.(i := Current(m).nnn, pc := m.pc + 2)
  {
  }

  /** 7xkk (ADD): Vx grows by kk modulo 256 and VF is not touched, even on a carry. */
  lemma AddByteStep(m: Machine, rnd: Byte)
    requires WellFormed(m) && m.pc < MemorySize - 1 && Current(m).group == 0x7
    ensures var f, r := Current(m), Step(m, rnd);
      && !r.failed
      && r.next.v[f.x] == (m.v[f.x] as int + f.kk) % 0x100
      && (forall k :: 0 <= k < RegisterCount && k != f.x ==> r.next.v[k] == m.v[k])
      && r.next.pc == m.pc + 2
      && r.next == m.(v := m.v[f.x := (m.v[f.x] as int + f.kk) % 0x100], pc := m.pc + 2)
  {
  }

  /** Bnnn (JP V0): PC becomes nnn + V0, which may lie past the end of memory. */
  lemma JumpOffsetStep(m: Machine, rnd: Byte)
    requires WellFormed(m) && m.pc < MemorySize - 1 && Current(m).group == 0xB
    ensures var r := Step(m, rnd);
      !r.failed && r.next == m.(pc := Current(m).nnn + m.v[0]) && r.next.pc <= 0xFFF + 0xFF
  {
  }

  /** Cxkk (RND): Vx gets the random byte masked by kk; nothing else but PC changes. */
  lemma RandomStep(m: Machine, rnd: Byte)
    requires WellFormed(m) && m.pc < MemorySize - 1 && Current(m).group == 0xC
    ensures var f, r := Current(m), Step(m, rnd);
      && !r.failed
      && r.next == m.(v := m.v[f.x := And8(rnd, f.kk)], pc := m.pc + 2)
  {
  }

  /** A cycle whose instruction is in the D group is a DRW. */
  lemma StepIsDraw(m: Machine, rnd: Byte)
    requires WellFormed(m) && m.pc < MemorySize - 1 && Current(m).group == 0xD
    ensures Step(m, rnd) == Draw(m, Current(m))
  {
  }

  /**
   * Dxyn (DRW) with the sprite inside memory: PC moves on, the draw flag is
   * raised, VF ends up 0 or 1, and no other register and nothing but the
   * screen changes.
   */
  lemma DrawStep(m: Machine, rnd: Byte)
    requires WellFormed(m) && m.pc < MemorySize - 1 && Current(m).group == 0xD
    requires Current(m).n == 0 || m.i + Current(m).n <= MemorySize
    ensures var r := Step(m, rnd);
      && !r.failed
      && r.next.pc == m.pc + 2 && r.next.drawFlag
      && (r.next.v[VF] == 0 || r.next.v[VF] == 1)
      && (forall k :: 0 <= k < VF ==> r.next.v[k] == m.v[k])
      && r.next.(screen := m.screen, v := m.v, pc := m.pc, drawFlag := m.drawFlag) == m
  {
    StepIsDraw(m, rnd);
    assert DrawnRows(m.i, Current(m).n) == Current(m).n;
  }

  /**
   * DRW on the screen: pixel (qx, qy) is toggled exactly when a set bit of
   * the sprite, placed at (Vx mod 64, Vy mod 32) and wrapped around the
   * edges, lands on it.
   */
  lemma DrawStepPixel(m: Machine, rnd: Byte, qx: nat, qy: nat)
    requires WellFormed(m) && m.pc < MemorySize - 1 && Current(m).group == 0xD
    requires Current(m).n == 0 || m.i + Current(m).n <= MemorySize
    requires qx < Width && qy < Height
    ensures var f := Current(m);
      var x0, y0 := m.v[f.x] % Width, m.v[f.y] % Height;
      PixelOn(Step(m, rnd).next.screen, qx, qy) <==> PixelOn(m.screen, qx, qy) != Covers(m.memory, m.i, x0, y0, f.n, qx, qy)
  {
    var f := Current(m);
    var x0, y0 := m.v[f.x] % Width, m.v[f.y] % Height;
    StepIsDraw(m, rnd);
    assert DrawnRows(m.i, f.n) == f.n;
    if f.n > 0 {
      DrawRowsPixel(m.screen, m.memory, m.i, x0, y0, f.n, qx, qy);
    }
  }

  /**
   * DRW on VF: VF becomes 1 exactly when a set bit of the sprite lands on
   * a pixel that was lit before the instruction.
   */
  lemma DrawStepCollision(m: Machine, rnd: Byte)
    requires WellFormed(m) && m.pc < MemorySize - 1 && Current(m).group == 0xD
    requires Current(m).n == 0 || m.i + Current(m).n <= MemorySize
    ensures var f := Current(m);
      var x0, y0 := m.v[f.x] % Width, m.v[f.y] % Height;
      (Step(m, rnd).next.v[VF] == 1
       <==> exists row, col :: 0 <= row < f.n && 0 <= col < 8 && Hit(m.screen, m.memory, m.i, x0, y0, row, col))
  {
    var f := Current(m);
    var x0, y0 := m.v[f.x] % Width, m.v[f.y] % Height;
    StepIsDraw(m, rnd);
    assert DrawnRows(m.i, f.n) == f.n;
    if f.n > 0 {
      DrawRowsCollision(m.screen, m.memory, m.i, x0, y0, f.n);
    }
  }

  /**
   * Dxyn with a sprite that runs past the end of memory: the rows that fit
   * are drawn and VF holds their collision flag, then the instruction is
   * refused with PC, the draw flag and V0..VE unchanged.
   */
  lemma DrawPastMemory(m: Machine, rnd: Byte)
    requires WellFormed(m) && m.pc < MemorySize - 1 && Current(m).group == 0xD
    requires Current(m).n > 0 && m.i + Current(m).n > MemorySize
    ensures var f, r := Current(m), Step(m, rnd);
      var x0, y0 := m.v[f.x] % Width, m.v[f.y] % Height;
      var rows := if m.i >= MemorySize then 0 else MemorySize - m.i;
      r.failed && rows < f.n
    ensures var f, r := Current(m), Step(m, rnd);
      var x0, y0 := m.v[f.x] % Width, m.v[f.y] % Height;
      var rows := if m.i >= MemorySize then 0 else MemorySize - m.i;
      r.next.screen == DrawRows(m.screen, m.memory, m.i, x0, y0, rows).0
    ensures var r := Step(m, rnd);
      r.next.pc == m.pc && r.next.drawFlag == m.drawFlag
    ensures var r := Step(m, rnd);
      r.next.(screen := m.screen, v := m.v) == m
    ensures var f, r := Current(m), Step(m, rnd);
      var x0, y0 := m.v[f.x] % Width, m.v[f.y] % Height;
      var rows := if m.i >= MemorySize then 0 else MemorySize - m.i;
      r.next.v == m.v[VF := if DrawRows(m.screen, m.memory, m.i, x0, y0, rows).1 then 1 else 0]
  {
    var f := Current(m);
    var x0, y0 := m.v[f.x] % Width, m.v[f.y] % Height;
    var rows := if m.i >= MemorySize then 0 else MemorySize - m.i;
    StepIsDraw(m, rnd);
    assert DrawnRows(m.i, f.n) == rows;
  }

  /** Key k is held exactly when bit k of the key mask, counted from the least significant end, is set. */
  lemma KeyDownIsBit(keys: bv16, k: nat)
    requires k < 16
    ensures KeyDown(keys, k) <==> (keys >> k) & 1 == 1
  {
    match k
    case 0 => assert KeyDown(keys, 0) <==> (keys >> 0) & 1 == 1;
    case 1 => assert KeyDown(keys, 1) <==> (keys >> 1) & 1 == 1;
    case 2 => assert KeyDown(keys, 2) <==> (keys >> 2) & 1 == 1;
    case 3 => assert KeyDown(keys, 3) <==> (keys >> 3) & 1 == 1;
    case 4 => assert KeyDown(keys, 4) <==> (keys >> 4) & 1 == 1;
    case 5 => assert KeyDown(keys, 5) <==> (keys >> 5) & 1 == 1;
    case 6 => assert KeyDown(keys, 6) <==> (keys >> 6) & 1 == 1;
    case 7 => assert KeyDown(keys, 7) <==> (keys >> 7) & 1 == 1;
    case 8 => assert KeyDown(keys, 8) <==> (keys >> 8) & 1 == 1;
    case 9 => assert KeyDown(keys, 9) <==> (keys >> 9) & 1 == 1;
    case 10 => assert KeyDown(keys, 10) <==> (keys >> 10) & 1 == 1;
    case 11 => assert KeyDown(keys, 11) <==> (keys >> 11) & 1 == 1;
    case 12 => assert KeyDown(keys, 12) <==> (keys >> 12) & 1 == 1;
    case 13 => assert KeyDown(keys, 13) <==> (keys >> 13) & 1 == 1;
    case 14 => assert KeyDown(keys, 14) <==> (keys >> 14) & 1 == 1;
    case 15 => assert KeyDown(keys, 15) <==> (keys >> 15) & 1 == 1;
  }

  /** Whether no key is held: the key mask is zero exactly when the scan finds no key. */
  lemma NoKeyFound(keys: bv16)
    ensures FirstKeyFrom(keys, 0).None? <==> keys == 0
  {
    if FirstKeyFrom(keys, 0).None? {
      assert !KeyDown(keys, 0) && !KeyDown(keys, 1) && !KeyDown(keys, 2) && !KeyDown(keys, 3);
      assert !KeyDown(keys, 4) && !KeyDown(keys, 5) && !KeyDown(keys, 6) && !KeyDown(keys, 7);
      assert !KeyDown(keys, 8) && !KeyDown(keys, 9) && !KeyDown(keys, 10) && !KeyDown(keys, 11);
      assert !KeyDown(keys, 12) && !KeyDown(keys, 13) && !KeyDown(keys, 14) && !KeyDown(keys, 15);
    }
  }

  /**
   * Fx0A (LD Vx, K): with no key held the cycle changes nothing, so the
   * instruction blocks; otherwise Vx gets the lowest held key and PC moves on.
   */
  lemma WaitKeyStep(m: Machine, rnd: Byte)
    requires WellFormed(m) && m.pc < MemorySize - 1
    requires Current(m).group == 0xF && Current(m).kk == 0x0A
    ensures var f, r := Current(m), Step(m, rnd);
      && !r.failed
      && (m.keys == 0 ==> r.next == m)
      && (m.keys != 0 ==>
            exists k :: 0 <= k < 16 && KeyDown(m.keys, k) && (forall j :: 0 <= j < k ==> !KeyDown(m.keys, j))
              && r.next == m.(v := m.v[f.x := k], pc := m.pc + 2))
  {
    NoKeyFound(m.keys);
    var f := Current(m);
    if m.keys != 0 {
      var k := FirstKeyFrom(m.keys, 0).value;
      assert Step(m, rnd).next == m.(v := m.v[f.x := k], pc := m.pc + 2);
    }
  }

  /** Fx07, Fx15, Fx18: the delay timer is copied to Vx, Vx to the delay timer, Vx to the sound timer. */
  lemma TimerTransfers(m: Machine, rnd: Byte)
    requires WellFormed(m) && m.pc < MemorySize - 1 && Current(m).group == 0xF
    ensures var f, r := Current(m), Step(m, rnd);
      && (f.kk == 0x07 ==> r == Outcome(m.(v := m.v[f.x := m.delayTimer], pc := m.pc + 2), false))
      && (f.kk == 0x15 ==> r == Outcome(m.(delayTimer := m.v[f.x], pc := m.pc + 2), false))
      && (f.kk == 0x18 ==> r == Outcome(m.(soundTimer := m.v[f.x], pc := m.pc + 2), false))
  {
  }

  /** Fx1E (ADD I, Vx): I grows by Vx modulo 2^16 and VF is left alone. */
  lemma AddIndexStep(m: Machine, rnd: Byte)
    requires WellFormed(m) && m.pc < MemorySize - 1 && Current(m).group == 0xF && Current(m).kk == 0x1E
    ensures var f, r := Current(m), Step(m, rnd);
      && !r.failed
      && r.next.i == (m.i as int + m.v[f.x]) % 0x1_0000
      && r.next == m.(i := r.next.i, pc := m.pc + 2)
  {
  }

  /**
   * Fx29 (LD F, Vx): I points at the five-byte glyph of digit Vx, which
   * lies inside the font; a digit above 15 is refused.
   */
  lemma FontStep(m: Machine, rnd: Byte)
    requires WellFormed(m) && m.pc < MemorySize - 1 && Current(m).group == 0xF && Current(m).kk == 0x29
    ensures var f, r := Current(m), Step(m, rnd);
      && (r.failed <==> m.v[f.x] >= 16)
      && (!r.failed ==> r.next == m.(i := GlyphSize * m.v[f.x], pc := m.pc + 2))
      && (!r.failed ==> r.next.i + GlyphSize <= |FontSet|)
  {
  }

  /**
   * Fx33 (LD B, Vx): the hundreds, tens and units of Vx are stored at I,
   * I+1 and I+2, and the rest of memory is untouched; refused when I+2
   * is not an address.
   */
  lemma BcdStep(m: Machine, rnd: Byte)
    requires WellFormed(m) && m.pc < MemorySize - 1 && Current(m).group == 0xF && Current(m).kk == 0x33
    ensures var f, r := Current(m), Step(m, rnd);
      && (r.failed <==> m.i + 2 >= MemorySize)
      && (!r.failed ==>
            && r.next.memory[m.i] < 10 && r.next.memory[m.i + 1] < 10 && r.next.memory[m.i + 2] < 10
            && r.next.memory[m.i] as int * 100 + r.next.memory[m.i + 1] as int * 10 + r.next.memory[m.i + 2] as int == m.v[f.x]
            && (forall k :: 0 <= k < MemorySize && !(m.i <= k <= m.i + 2) ==> r.next.memory[k] == m.memory[k])
            && r.next == m.(memory := r.next.memory, pc := m.pc + 2))
  {
  }

  /** The BCD of 159 is 1, 5, 9. */
  lemma BcdExample()
    ensures Bcd(159) == [1, 5, 9]
  {
  }

  /**
   * Fx55 (LD [I], Vx) and Fx65 (LD Vx, [I]) copy V0..Vx to and from
   * memory at I, leave I where it was, and are refused when I+x is not an
   * address.
   */
  lemma DumpAndLoadStep(m: Machine, rnd: Byte)
    requires WellFormed(m) && m.pc < MemorySize - 1 && Current(m).group == 0xF
    requires Current(m).kk == 0x55 || Current(m).kk == 0x65
    ensures var f, r := Current(m), Step(m, rnd);
      && (r.failed <==> m.i + f.x >= MemorySize)
      && (!r.failed && f.kk == 0x55 ==> r.next == m.(memory := StoreRegisters(m.memory, m.i, m.v, f.x), pc := m.pc + 2))
      && (!r.failed && f.kk == 0x65 ==> r.next == m.(v := LoadRegisters(m.v, m.memory, m.i, f.x), pc := m.pc + 2))
  {
  }

  /** Loading registers back from where they were dumped restores V0..Vx and keeps the others. */
  lemma DumpThenLoad(memory: seq<Byte>, addr: nat, v: seq<Byte>, w: seq<Byte>, x: nat)
    requires addr + x < |memory| && x < |v| && |w| == |v|
    ensures LoadRegisters(w, StoreRegisters(memory, addr, v, x), addr, x) == v[..x + 1] + w[x + 1..]
  {
    var r := LoadRegisters(w, StoreRegisters(memory, addr, v, x), addr, x);
    assert forall k :: 0 <= k < |r| ==> r[k] == (v[..x + 1] + w[x + 1..])[k];
  }

  /** Dumping registers that were just loaded from memory leaves memory as it was. */
  lemma LoadThenDump(memory: seq<Byte>, addr: nat, v: seq<Byte>, x: nat)
    requires addr + x < |memory| && x < |v|
    ensures StoreRegisters(memory, addr, LoadRegisters(v, memory, addr, x), x) == memory
  {
    var r := StoreRegisters(memory, addr, LoadRegisters(v, memory, addr, x), x);
    assert forall k :: 0 <= k < |r| ==> r[k] == memory[k];
  }

  // ---------------------------------------------------------------------
  // Frames
  // ---------------------------------------------------------------------

  /**
   * A machine that makes no progress: its instruction jumps to itself, is
   * an ignored word of the 0 or E group, or waits for a key while none is
   * held.
   */
  predicate Stalled(m: Machine)
  {
    && WellFormed(m) && m.pc < MemorySize - 1
    && var f := Current(m);
      || (f.group == 0x1 && f.nnn == m.pc)
      || (f.group == 0x0 && f.kk != 0xE0 && f.kk != 0xEE)
      || (f.group == 0xE && f.kk != 0x9E && f.kk != 0xA1)
      || (f.group == 0xF && f.kk == 0x0A && m.keys == 0)
  }

  /** A stalled machine's cycle succeeds and changes nothing, whatever the random byte. */
  lemma StalledStep(m: Machine, rnd: Byte)
    requires Stalled(m)
    ensures Step(m, rnd) == Outcome(m, false)
  {
  }

  /** Any number of cycles of a stalled machine change nothing. */
  lemma {:induction false} StalledCycles(m: Machine, rnds: seq<Byte>, policy: Policy)
    requires Stalled(m)
    ensures Run(m, rnds, policy) == (m, false)
    decreases |rnds|
  {
    if |rnds| > 0 {
      StalledStep(m, rnds[0]);
      StalledCycles(m, rnds[1..], policy);
    }
  }

  /**
   * A frame of a stalled machine only clears the draw flag and counts both
   * timers down by one, stopping at zero.
   */
  lemma StalledFrame(m: Machine, rnds: seq<Byte>, policy: Policy)
    requires Stalled(m) && |rnds| == m.cyclesPerFrame
    ensures Frame(m, rnds, policy) == (m.(drawFlag := false,
                                          delayTimer := if m.delayTimer > 0 then m.delayTimer - 1 else 0,
                                          soundTimer := if m.soundTimer > 0 then m.soundTimer - 1 else 0), false)
  {
    var cleared := m.(drawFlag := false);
    assert Current(cleared) == Current(m);
    StalledCycles(cleared, rnds, policy);
  }

  /** Timers set to 2 read 1, 0 and 0 after one, two and three frames of a stalled machine. */
  lemma TimersCountDownToZero(m: Machine, r1: seq<Byte>, r2: seq<Byte>, r3: seq<Byte>, policy: Policy)
    requires Stalled(m) && m.delayTimer == 2 && m.soundTimer == 2
    requires |r1| == |r2| == |r3| == m.cyclesPerFrame
    ensures var f1 := Frame(m, r1, policy).0;
      && f1.delayTimer == 1 && f1.soundTimer == 1
      && Frame(f1, r2, policy).0.delayTimer == 0 && Frame(f1, r2, policy).0.soundTimer == 0
      && Frame(Frame(f1, r2, policy).0, r3, policy).0.delayTimer == 0
      && Frame(Frame(f1, r2, policy).0, r3, policy).0.soundTimer == 0
  {
    StalledFrame(m, r1, policy);
    var f1 := Frame(m, r1, policy).0;
    assert Current(f1) == Current(m);
    StalledFrame(f1, r2, policy);
    var f2 := Frame(f1, r2, policy).0;
    assert Current(f2) == Current(m);
    StalledFrame(f2, r3, policy);
  }

  /** In the test build a failed cycle never stops the frame. */
  lemma {:induction false} ForceAdvanceNeverHalts(m: Machine, rnds: seq<Byte>)
    requires WellFormed(m)
    ensures !Run(m, rnds, ForceAdvance).1
    decreases |rnds|
  {
    if |rnds| > 0 {
      var out := Step(m, rnds[0]);
      if out.failed {
        ForceAdvanceNeverHalts(Advance(out.next), rnds[1..]);
      } else {
        ForceAdvanceNeverHalts(out.next, rnds[1..]);
      }
    }
  }

  /**
   * The normal and the test build run the same cycles until one fails:
   * when the normal build does not halt, both reach the same state.
   */
  lemma {:induction false} BuildsAgreeWithoutFailure(m: Machine, rnds: seq<Byte>)
    requires WellFormed(m)
    ensures !Run(m, rnds, Halt).1 ==> Run(m, rnds, Halt) == Run(m, rnds, ForceAdvance)
    decreases |rnds|
  {
    if |rnds| > 0 {
      var out := Step(m, rnds[0]);
      if !out.failed {
        BuildsAgreeWithoutFailure(out.next, rnds[1..]);
      }
    }
  }

  /**
   * A failed cycle in the normal build ends the frame with the state that
   * cycle left: the cycles after it do not run.
   */
  lemma HaltEndsFrame(m: Machine, rnds: seq<Byte>)
    requires WellFormed(m) && |rnds| > 0 && Step(m, rnds[0]).failed
    ensures Run(m, rnds, Halt) == (Step(m, rnds[0]).next, true)
  {
  }

  /** A halted frame stops where the cycle failed: the timers are not counted down. */
  lemma HaltSkipsTimers(m: Machine, rnds: seq<Byte>)
    requires WellFormed(m) && |rnds| == m.cyclesPerFrame
    ensures var run := Run(m.(drawFlag := false), rnds, Halt);
      run.1 ==> Frame(m, rnds, Halt) == run
  {
  }

  // ---------------------------------------------------------------------
  // Start-up
  // ---------------------------------------------------------------------

  /**
   * A reset followed by loading a ROM of at least two bytes gives a
   * well-formed machine whose first instruction is the ROM's first word,
   * with the font still in place below the program area.
   */
  lemma InitStartsAtRom(m: Machine, rom: seq<Byte>)
    requires |m.v| == RegisterCount && |m.stack| == StackSize
    requires 2 <= |rom| <= MemorySize - MemoryStart
    ensures var r := Reset(m);
      var mem := LoadRom(r.memory, rom);
      && mem.Some?
      && WellFormed(r.(memory := mem.value))
      && r.pc < MemorySize - 1
      && Current(r.(memory := mem.value)).op == rom[0] as int * 256 + rom[1]
      && mem.value[..|FontSet|] == FontSet
  {
    var r := Reset(m);
    var mem := LoadRom(r.memory, rom).value;
    var booted := r.(memory := mem);
    assert mem[MemoryStart] == rom[0] && mem[MemoryStart + 1] == rom[1];
    var op := Current(booted).op;
    assert op == op / 256 * 256 + op % 256;
    assert mem[..|FontSet|] == r.memory[..|FontSet|];
  }
}
