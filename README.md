# c8emu core in Dafny

A model of the CHIP-8 interpreter core of c8emu: the machine state
(`struct emulator`), one fetch-decode-execute cycle (`emulator_cycle`), one
frame (`emulator_tick`), the reset (`reset_emulator`) and the ROM size check
and copy of `load_rom`.

The model has two layers.

- `State`, `Opcode`, `Display` and `Semantics` describe the machine as a value
  (`Machine`) and every instruction as a function on it. `Semantics.Step` is one
  cycle: it refuses a PC that leaves no room for a whole word, then fetches,
  decodes and executes. `Semantics.Run` runs the cycles of a frame and
  `Semantics.Frame` adds the draw-flag clear and the timer countdown.
- `Interpreter.Emulator` is the struct as a class. The framebuffer, memory,
  stack and registers are arrays that its methods update in place, as the C
  code does. Each method is proved to leave the object in exactly the state
  the matching `Semantics` function computes from the state it started in.
  `Cycle` matches `Step`, `Tick` matches `Frame`, `Reset` matches `Reset`,
  and `LoadRom` matches `LoadRom`.

The module `Properties` states what each instruction does, independently of
how the dispatch computes it: which cycles fail, the stack discipline, the
skips, the arithmetic flags, pixel-exact drawing and collision, BCD, register
dump and load, stalled machines and the timer countdown.

Host inputs are parameters. `rand() % 256` is the byte `rnd` given to a
cycle; a frame takes one such byte per cycle. The key mask is a field that
only the host writes. What a failed cycle does to the frame is a `Policy`:

- `Halt` is the normal build, which calls `exit`; the frame stops and
  reports it.
- `ForceAdvance` is the test build, which moves PC past the failing word
  and carries on.

Behaviour kept as the code has it:

- 8xy5 and 8xy7 set VF only when the minuend is strictly greater. The usual
  description of CHIP-8 uses "greater or equal"; the model follows the code
  (`Properties.SubtractsWithFlag`).
- The 8 group writes VF before it computes the result. With VF as an
  operand the result therefore uses the new flag, not the old register
  (`Properties.ShiftsIntoFlag`). The usual description computes the flag
  from the operands before the write; the model follows the code.
- The 0 group looks only at the low byte, so 0xE0 and 0xEE under any x
  nibble are CLS and RET.
- An unknown word of the 0 or E group returns 0 and leaves PC where it
  was, so the interpreter runs it again on every cycle.
- An unknown word of the 8 or F group fails, and so do 5xyn and 9xyn
  with n ≠ 0.
- DRW that runs past the end of memory fails after the rows before it have
  been drawn and VF has been written.
- A reset does not clear the V registers or the stack slots.

## Model

| member | source | states |
|---|---|---|
| Opcode.Fetch | src/emulator.c:141 | the instruction word has memory[pc] as its high byte and memory[pc+1] as its low byte |
| Opcode.Decode | src/emulator.c:143-153 | every decoded field is in range: group, x, y and n below 16, nnn at most 0xFFF |
| Opcode.FieldsPartitionWord | src/emulator.c:143-147 | kk is y and n, nnn is x and kk, and the group with nnn rebuilds the word |
| Opcode.DecodeEncode | src/emulator.c:143-147 | decoding a word built from four nibbles gives back those nibbles |
| Display.PixelIndex | src/emulator.c:430 | the byte of pixel (px, py) lies in the framebuffer and selects row py and byte px/8 of that row |
| Display.PixelAddressInjective | src/emulator.c:430-431 | two pixels with the same byte index and bit mask are the same pixel |
| Display.FlipPixelEffect | src/emulator.c:434-439 | XORing one pixel's mask toggles that pixel and leaves every other pixel as it was |
| Display.FlipPixel | src/emulator.c:430-439 | the flip keeps the framebuffer size and reports whether the pixel was lit before it |
| Display.DrawCols | src/emulator.c:423-440 | drawing a sprite row keeps the framebuffer size (its effect: `DrawColsPixel`, `DrawColsCollision`) |
| Display.DrawRows | src/emulator.c:415-441 | drawing the sprite rows keeps the framebuffer size (its effect: `DrawRowsPixel`, `DrawRowsCollision`) |
| Display.DrawColsPixel | src/emulator.c:423-440 | after a sprite row is drawn, a pixel is toggled exactly when a set bit of the row, wrapped horizontally, lands on it |
| Display.DrawColsCollision | src/emulator.c:423-440 | a sprite row reports a hit exactly when one of its set bits lands on a pixel lit beforehand |
| Display.DrawRowsPixel | src/emulator.c:415-441 | after the rows are drawn, a pixel is toggled exactly when a set bit of the sprite, wrapped both ways, lands on it |
| Display.DrawRowsCollision | src/emulator.c:415-441 | drawing the rows reports a hit exactly when some set bit of some row lands on a pixel lit before the drawing |
| Display.RowUntouched | src/emulator.c:415-441 | rows drawn earlier never touch the pixels of a later row (a sprite has at most 15 rows, fewer than the 32 screen rows) |
| Display.DrawRowsTwice | src/emulator.c:415-441 | drawing the same sprite twice at the same place restores the screen |
| Display.ScreenExtensionality | src/emulator.h:35-36 | two framebuffers that light the same pixels are equal byte for byte |
| Semantics.FirstKeyFrom | src/emulator.c:502-517 | the key found is held and is the lowest held key; no result means no key is held |
| Semantics.Bcd | src/emulator.c:561-574 | three decimal digits, each below 10, whose weighted sum is the byte |
| Semantics.StoreRegisters | src/emulator.c:577-591 | memory[I..I+x] gets V0..Vx and every other byte is kept |
| Semantics.LoadRegisters | src/emulator.c:594-608 | V0..Vx get memory[I..I+x] and the other registers are kept |
| Semantics.DrawnRows | src/emulator.c:415-419 | DRW stops short exactly when n > 0 and I + n - 1 is not an address |
| Semantics.Current | src/emulator.c:141-147 | the instruction at PC is the decoded big-endian word at pc and pc+1 |
| Semantics.Inc2 | src/emulator.c:169 | `pc += 2` on a uint16_t: two more, wrapping past 0xFFFF |
| Semantics.SkipIf | src/emulator.c:213-234 | a skip never fails, changes only PC, and moves it by 4 when the test holds and by 2 otherwise |
| Semantics.KeyDown | src/emulator.c:460 | a held key implies a nonzero key mask (`Properties.KeyDownIsBit` gives the bit it tests) |
| Semantics.CountDown | src/emulator.c:635-640 | a timer at zero stays at zero; any other drops by one |
| Semantics.Alu | src/emulator.c:267-354 | defined exactly for the low nibbles 0-7 and E, and writes no register but Vx and VF |
| Semantics.System | src/emulator.c:160-187 | the 0 group keeps the array sizes, the stack bound, the speed and the keys (its effects: `Properties.ClearStep`, `ReturnPops`, `IgnoredWordsSpin`) |
| Semantics.Call | src/emulator.c:197-210 | CALL keeps the stack bound sp < 12 and the array sizes (its effect: `Properties.CallPushes`) |
| Semantics.Arith | src/emulator.c:267-358 | the 8 group keeps the machine well-formed (its effect: `Properties.ArithStep`) |
| Semantics.Draw | src/emulator.c:404-446 | DRW keeps the machine well-formed (its effect: `Properties.DrawStepPixel`, `DrawStepCollision`, `DrawPastMemory`) |
| Semantics.KeySkip | src/emulator.c:447-488 | the E group keeps the machine well-formed (its effect: `Properties.SkipOnKey`) |
| Semantics.WaitKey | src/emulator.c:502-517 | Fx0A keeps the machine well-formed (its effect: `Properties.WaitKeyStep`) |
| Semantics.Misc | src/emulator.c:489-613 | the F group keeps the machine well-formed (its effects: `Properties.TimerTransfers` to `DumpAndLoadStep`) |
| Semantics.Execute | src/emulator.c:159-619 | every instruction keeps the array sizes, the stack bound, the speed and the keys |
| Semantics.Step | src/emulator.c:131-620 | one cycle keeps the array sizes and the stack bound sp < 12, and changes neither the speed nor the keys |
| Semantics.Run | src/emulator.c:625-634 | the frame's cycles keep the machine well-formed and keep the speed and the keys |
| Semantics.Frame | src/emulator.c:622-640 | a frame keeps the machine well-formed |
| Semantics.Reset | src/emulator.c:68-91 | font at address 0, zeros above it, dark screen, PC at 0x200, I, SP, timers and keys zero, speed 16; V and the stack kept |
| Semantics.LoadRom | src/emulator.c:111-116 | refused exactly when the ROM is bigger than 0x1000 - 0x200 bytes; otherwise the ROM sits at 0x200 and the rest of memory is kept |
| Properties.AluDefinedNibbles | src/emulator.c:267-354 | the 8 group handles exactly the low nibbles 0-7 and E |
| Properties.AluFrame | src/emulator.c:267-351 | a register operation writes only Vx and VF; LD, OR, AND and XOR leave VF alone |
| Properties.AddCarries | src/emulator.c:295-307 | 8xy4: VF is the carry out of the 8-bit sum and Vx the sum modulo 256 |
| Properties.SubtractsWithFlag | src/emulator.c:310-321 | 8xy5: VF is 1 exactly when Vx > Vy, and Vx becomes Vx - Vy modulo 256 |
| Properties.SubtractsReversedWithFlag | src/emulator.c:332-342 | 8xy7: VF is 1 exactly when Vy > Vx, and Vx becomes Vy - Vx modulo 256 |
| Properties.ShiftsRight | src/emulator.c:324-329 | 8xy6: VF gets bit 0 of Vx and Vx the other seven bits |
| Properties.ShiftsLeft | src/emulator.c:345-351 | 8xyE: VF gets bit 7 of Vx and Vx doubles modulo 256 |
| Properties.ShiftsIntoFlag | src/emulator.c:324-351 | with VF as the target, SHR leaves 0 in VF and SHL leaves twice the bit shifted out |
| Properties.PcPastMemoryFails | src/emulator.c:135-138 | a PC at 0xFFF or beyond fails the cycle and changes nothing |
| Properties.FailureConditions | src/emulator.c:131-620 | the complete list of the conditions under which a cycle returns 1 |
| Properties.FailureChangesNothing | src/emulator.c:131-620 | every failure other than DRW's leaves the state untouched |
| Properties.IgnoredWordsSpin | src/emulator.c:160-487 | unknown 0 group words (184-185) and E group words (485-487) succeed without changing anything, PC included |
| Properties.ClearStep | src/emulator.c:164-170 | 00E0 darkens every pixel, raises the draw flag and moves PC on, whatever the x nibble |
| Properties.JumpStep | src/emulator.c:190-194 | 1nnn sets PC to nnn and nothing else |
| Properties.CallPushes | src/emulator.c:197-210 | 2nnn fails, changing nothing, exactly when 11 addresses are already stacked; otherwise PC+2 goes into slot sp, sp grows by one, PC becomes nnn and nothing else changes |
| Properties.ReturnPops | src/emulator.c:173-182 | 00EE pops the top address into PC; it fails exactly on an empty stack |
| Properties.CallThenReturn | src/emulator.c:173-210 | a call to a return comes back to the word after the call with SP as before |
| Properties.SkipOnByte | src/emulator.c:213-234 | 3xkk and 4xkk skip the next word exactly when Vx equals (3) or differs from (4) kk |
| Properties.SkipOnRegisters | src/emulator.c:237-250 | 5xy0 and 9xy0 skip exactly when Vx equals (5) or differs from (9) Vy; a nonzero n fails |
| Properties.LoadByteStep | src/emulator.c:253-258 | 6xkk sets Vx to kk and moves PC on |
| Properties.AddByteStep | src/emulator.c:261-266 | 7xkk adds kk to Vx modulo 256 without touching VF; nothing else but PC changes |
| Properties.ArithStep | src/emulator.c:267-358 | 8xy? replaces the registers by the register operation's result, or fails on an unknown nibble |
| Properties.LoadIndexStep | src/emulator.c:379-385 | Annn sets I to nnn and moves PC on |
| Properties.JumpOffsetStep | src/emulator.c:388-392 | Bnnn sets PC to nnn + V0, which can lie past the end of memory |
| Properties.RandomStep | src/emulator.c:395-401 | Cxkk sets Vx to the random byte AND kk |
| Properties.StepIsDraw | src/emulator.c:404-446 | a D group word is executed as DRW |
| Properties.DrawStep | src/emulator.c:404-446 | DRW inside memory moves PC on, raises the draw flag, leaves VF at 0 or 1 and changes nothing else but the screen |
| Properties.DrawStepPixel | src/emulator.c:404-446 | DRW toggles exactly the pixels the wrapped sprite at (Vx mod 64, Vy mod 32) covers |
| Properties.DrawStepCollision | src/emulator.c:411-439 | VF ends at 1 exactly when a set sprite bit lands on a pixel that was lit before |
| Properties.DrawPastMemory | src/emulator.c:404-419 | a sprite past the end of memory fails with the rows that fit drawn, VF holding their collision flag, V0..VE, PC and the draw flag kept |
| Properties.SkipOnKey | src/emulator.c:447-484 | Ex9E and ExA1 skip exactly when key Vx is held (9E) or not held (A1); a key above 15 fails |
| Properties.KeyDownIsBit | src/emulator.c:460 | key k is held exactly when bit k of the mask is set, as `keys & (1 << k)` tests |
| Properties.NoKeyFound | src/emulator.c:502-517 | the key scan finds nothing exactly when the key mask is zero |
| Properties.WaitKeyStep | src/emulator.c:502-517 | Fx0A with no key held changes nothing; otherwise Vx gets the lowest held key and PC moves on |
| Properties.TimerTransfers | src/emulator.c:493-533 | Fx07, Fx15 and Fx18 copy between Vx and the timers |
| Properties.AddIndexStep | src/emulator.c:536-542 | Fx1E adds Vx to I modulo 2^16 and leaves VF alone |
| Properties.FontStep | src/emulator.c:546-557 | Fx29 points I at digit Vx's glyph inside the font; a digit above 15 fails |
| Properties.BcdStep | src/emulator.c:561-574 | Fx33 stores the digits of Vx at I, I+1, I+2 and nothing else, or fails when I+2 is not an address |
| Properties.BcdExample | src/test.c:284-293 | the digits of 159 are 1, 5, 9 |
| Properties.DumpAndLoadStep | src/emulator.c:577-608 | Fx55 and Fx65 copy V0..Vx to and from memory at I, keep I, and fail when I+x is not an address |
| Properties.DumpThenLoad | src/emulator.c:577-608 | loading back what was dumped restores V0..Vx |
| Properties.LoadThenDump | src/emulator.c:577-608 | dumping what was just loaded leaves memory as it was |
| Properties.StalledStep | src/emulator.c:184-517 | a self-jump (190-194), an ignored 0 or E group word (184-185, 485-487) or Fx0A with no key held (502-517) succeeds and changes nothing |
| Properties.StalledCycles | src/emulator.c:625-634 | any number of cycles of a stalled machine changes nothing |
| Properties.StalledFrame | src/emulator.c:622-640 | a frame of a stalled machine only clears the draw flag and counts the timers down to no lower than zero |
| Properties.TimersCountDownToZero | src/test.c:321-336 | timers at 2 read 1, then 0, then stay at 0 over three frames |
| Properties.ForceAdvanceNeverHalts | src/emulator.c:628-632 | in the test build a failed cycle never stops the frame |
| Properties.BuildsAgreeWithoutFailure | src/emulator.c:625-634 | the normal and the test build reach the same state when no cycle fails |
| Properties.HaltEndsFrame | src/emulator.c:626-629 | in the normal build the first failed cycle ends the frame with the state it left |
| Properties.HaltSkipsTimers | src/emulator.c:622-640 | a halted frame does not count the timers down |
| Properties.InitStartsAtRom | src/emulator.c:126-129 | after reset and load the first instruction is the ROM's first word and the font is in place |
| Interpreter.Emulator.constructor | src/emulator.h:32-56 | a zero-initialised interpreter with arrays of the declared sizes |
| Interpreter.Emulator.ClearScreen | src/emulator.c:167 | every framebuffer byte becomes zero |
| Interpreter.Emulator.ExecuteSystem | src/emulator.c:160-187 | the new state and result are those of `Semantics.System` |
| Interpreter.Emulator.ExecuteCall | src/emulator.c:197-210 | the new state and result are those of `Semantics.Call` |
| Interpreter.Emulator.RegisterOperation | src/emulator.c:267-354 | the register array becomes the register operation's result, or is kept for an unknown nibble |
| Interpreter.Emulator.ExecuteArith | src/emulator.c:267-358 | the new state and result are those of `Semantics.Arith` |
| Interpreter.Emulator.FlipScreenPixel | src/emulator.c:430-439 | the framebuffer and the hit flag are those of `Display.FlipPixel` |
| Interpreter.Emulator.DrawSpriteRow | src/emulator.c:423-440 | the column loop leaves the framebuffer and hit flag of `Display.DrawCols` over 8 columns |
| Interpreter.Emulator.DrawNextColumn | src/emulator.c:424-439 | one column extends the drawing of the earlier columns by that column |
| Interpreter.Emulator.DrawNextRow | src/emulator.c:415-440 | one row extends the drawing of the earlier rows by that row |
| Interpreter.Emulator.DrawSpriteRows | src/emulator.c:415-441 | the row loop draws `DrawnRows` rows as `Display.DrawRows` does and reports whether it drew them all |
| Interpreter.Emulator.DrawSprite | src/emulator.c:404-446 | the new state and result are those of `Semantics.Draw` |
| Interpreter.Emulator.ExecuteKeySkip | src/emulator.c:447-488 | the new state and result are those of `Semantics.KeySkip` |
| Interpreter.Emulator.WaitForKey | src/emulator.c:502-517 | the key scan loop gives the state and result of `Semantics.WaitKey` |
| Interpreter.Emulator.DumpRegisters | src/emulator.c:577-591 | memory becomes `Semantics.StoreRegisters` of the old memory |
| Interpreter.Emulator.LoadRegistersFromMemory | src/emulator.c:594-608 | the registers become `Semantics.LoadRegisters` of the old registers |
| Interpreter.Emulator.ExecuteMisc | src/emulator.c:489-613 | the new state and result are those of `Semantics.Misc` |
| Interpreter.Emulator.Cycle | src/emulator.c:131-620 | the new state and result are those of `Semantics.Step` |
| Interpreter.Emulator.Dispatch | src/emulator.c:159-619 | the new state and result are those of `Semantics.Execute` |
| Interpreter.Emulator.CountDownTimers | src/emulator.c:635-640 | each timer above zero drops by one and nothing else changes |
| Interpreter.Emulator.CycleUnder | src/emulator.c:626-633 | one turn of the frame loop leaves the rest of `Semantics.Run` unchanged, or halts where it does |
| Interpreter.Emulator.RunFrameCycles | src/emulator.c:625-634 | the cycle loop ends in the state and halt flag of `Semantics.Run` |
| Interpreter.Emulator.Tick | src/emulator.c:622-640 | the new state and halt flag are those of `Semantics.Frame` |
| Interpreter.Emulator.ClearMemory | src/emulator.c:72 | every memory byte becomes zero |
| Interpreter.Emulator.CopyFont | src/emulator.c:86 | the font lands at address 0 and the rest of memory is kept |
| Interpreter.Emulator.Reset | src/emulator.c:68-91 | the new state is `Semantics.Reset` of the old one |
| Interpreter.Emulator.LoadRom | src/emulator.c:111-116 | memory becomes `Semantics.LoadRom` of the old memory, or is kept when the ROM is refused |
| Interpreter.Emulator.Init | src/emulator.c:126-129 | the state is a reset followed by the ROM load |

## Left out

- File handling in `load_rom` is not modelled: `fopen`, `fseek` and `ftell`, and a short `fread`. The ROM is given as a byte sequence. A ROM that is too big makes `LoadRom` return false, where the program calls `exit`.
- `srand(time(NULL))` in `reset_emulator` is not modelled; `rand()` becomes the `rnd` argument of a cycle.
- Error messages, the `DEBUG` trace macro and `unknown_opcode` print text and change no state. They are not modelled.
- `beep_flag` is declared but never written by the core, so it is not part of `Machine`.
- `main.c` (the SDL front end and key mapping) and `beep.c` (audio) are not part of this model.
- `test.c` is not modelled as code. Two of its expectations are proved as lemmas: `Properties.BcdExample` and `Properties.TimersCountDownToZero`.
- `assert(emulator->_sp < STACK_SIZE)` on entry to a cycle becomes the `WellFormed` precondition. `Semantics.Step` proves that every cycle keeps it.
- The shifts and masks of the decoder are modelled as division and remainder by powers of two, which agree with them on unsigned values. The framebuffer and key masks stay bit-vectors.
- `exit(EXIT_FAILURE)` in `emulator_tick` becomes the `Halt` policy, and the `TEST` build's `pc += 2` becomes `ForceAdvance`.
- Interpreter.Emulator.DrawSprite: the source writes VF inside the pixel loop. The method writes it once after the rows are drawn. Nothing reads VF in between, so the state after the instruction is the same, but the order of writes is not modelled.
- Properties.AddCarries, Properties.SubtractsWithFlag, Properties.SubtractsReversedWithFlag, Properties.ShiftsRight, Properties.ShiftsLeft: stated only for operands other than VF. With VF as an operand, `Semantics.Alu` gives the code's result, and `Properties.ShiftsIntoFlag` states the shift case.
