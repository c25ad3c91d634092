# LED tower firmware: a verified model of the frame buffer and the animation rotation

The firmware drives a tower of 16 layers of 32 LEDs from a PIC16F1829. It keeps the
whole picture in one global `LED_Buffer[16][4]`. LED `x` of layer `y` is bit `x % 8`
of byte `LED_Buffer[y][x / 8]`. The firmware edits that buffer in place and sends
it down a chain of MAX6969 drivers through the synchronous serial port.
A Timer0 interrupt counts overflows and moves on to the next of nine animations
about every 16 seconds.

This project models, in Dafny:

- **frame.dfy** (`FrameSpec`): the buffer as a value (`Grid`, 16 rows of 4 `bv8`), the
  pixel mapping, and one function per buffer operation. Lemmas say what each
  operation does to every LED.
- **serial.dfy** (`Serial`): what `Update_Display` writes to the bus, as a sequence of
  events (`Byte(b)`, `LatchHigh`, `LatchLow`), and a decoder that reads a frame back.
- **tower.dfy** (`Tower.LedTower`): the buffer operations as methods of a class
  holding `LED_Buffer` as an `array2<bv8>` and `g_temp` as an `array<bv8>`. Each method
  rewrites the array with the source's loops and is proved against the
  `FrameSpec` function. A ghost `Trace` records every byte sent and every `LE` edge.
- **popcount.dfy** (`PopCount`): `countSetBits`, Kernighan's loop, proved against a
  bit-by-bit reference count.
- **scheduler.dfy** (`Scheduler`): the counter part of the interrupt routine and the
  `switch` in `main`, as functions on a `State` and as methods of a `Controller` class.
  Lemmas cover the counter's range, exactly when the rotation happens, the cycle
  through the nine animations over whole rotations of the machine (overflows, then
  main's loop), and the restart of a finite animation that returns to main.
- **wrappers.dfy** (`Wrappers`): the `Option` type.

XC8's `char` is unsigned 8-bit, so the `state` arguments are `bv8`. This matters for
`Switch_Row` and `Switch_Col`, which compare `state == ON`. `LED_VSweep` passes `~1 == 0xFE`,
and that value darkens the row. Index arguments are integers with a precondition that
keeps them inside the buffer: the C code indexes the array without a check.

Two facts of Source.c that a reader of the comments might miss:

- The switch in main has nine live cases, 0 to 8 (`LED_Text` at 8; the `LED_New` case is
  commented out, Source.c:88).
- `ISR_TIMER` is 15531 (Source.c:23), so the period is 15532 overflows, although the
  comment at Source.c:150 says 19531.

## Model

| member | source | states |
|---|---|---|
| Tower.LedTower.constructor | Source.c:32 | The buffer starts all zero (`= {0}`) and nothing has been sent. |
| Tower.LedTower.UpdateDisplay | Source.c:177-192 | Appends exactly one frame to the trace: the 64 bytes of the current buffer, then LE high, then LE low. Only the trace changes. |
| Serial.SerializedAt | Source.c:180-185 | The byte writes go out row-major: the write numbered 4y + i carries `LED_Buffer[y][i]`. |
| Serial.FrameLayout | Source.c:177-192 | A refresh is 66 events: 64 byte writes, `[0][0]` first and `[15][3]` last, then LE high at position 64 and LE low at 65. |
| Serial.ReceivedFrame | Source.c:177-192 | Decoding the events of one refresh gives back exactly the buffer that was sent. |
| FrameSpec.GridFromPixels | Source.c:238 | Two buffers that light the same LEDs under the `[y][x/8]`, bit `x%8` mapping are equal, so a pixel-by-pixel description fixes the whole buffer. |
| Tower.LedTower.ClearBuffer | Source.c:194-200 | All 64 bytes become 0 and nothing is sent. |
| FrameSpec.BlankIsDark | Source.c:194-200 | After Clear_Buffer every LED is dark. |
| Tower.LedTower.InvertDisplay | Source.c:226-233 | Every byte becomes its XOR with 0xFF, then one frame of the new buffer is sent. |
| FrameSpec.InvertedPixel | Source.c:226-233 | Invert_Display flips every LED. |
| FrameSpec.InvertedTwice | Source.c:226-233 | Inverting twice gives back the original buffer exactly. |
| Tower.LedTower.SwitchPixel | Source.c:235-245 | Sets bit `x%8` of byte `[y][x/8]` when state is non-zero and clears it when state is 0. Then one frame is sent. |
| FrameSpec.WithPixelPixel | Source.c:235-245 | Switch_Pixel changes the addressed LED to the requested value. Every other LED of the buffer keeps its value. |
| Tower.LedTower.GetPixel | Source.c:247-253 | As written: the byte is replaced by its value masked with `1 << x%8`. The result is 1 exactly when `x % 8 == 0` and the LED was lit, and 0 otherwise. |
| FrameSpec.GetPixelAnswer | Source.c:247-253 | The masked byte equals 1 only for bit 0: for x%8 ≠ 0 a lit LED still reads 0. |
| FrameSpec.MaskedAtPixel | Source.c:247-253 | Get_Pixel darkens the other seven LEDs of the byte it reads and leaves the LED it reads and all other bytes as they were. |
| FrameSpec.GetPixelCounterexample | Source.c:247-253 | With only LED (0,1) lit, reading (0,1) answers 0, and reading (0,0) darkens (0,1). |
| Tower.LedTower.ReadPixel | Source.c:247-253 | The read the function is evidently meant to be: it returns whether LED (y,x) is lit and writes nothing. |
| Tower.LedTower.SwitchRow | Source.c:256-269 | Row l becomes four 0xFF bytes when state == ON (1) and four 0 bytes for any other state, including 0xFE. Then one frame is sent. |
| FrameSpec.WithRowPixel | Source.c:256-269 | Switch_Row sets every LED of layer l and changes no LED of any other layer. |
| Tower.LedTower.SwitchCol | Source.c:271-284 | In each of the 16 rows, bit `c%8` of byte `c/8` is set when state == ON and cleared otherwise (requires c < 32). Then one frame is sent. |
| FrameSpec.WithColumnPixel | Source.c:271-284 | Switch_Col sets LED c of every layer and no other LED. |
| Tower.LedTower.ShiftRight | Source.c:297-308 | Every row is rotated one LED along, with the carry threaded from byte to byte. Nothing is sent. |
| FrameSpec.RotatedRowByte | Source.c:299-306 | Byte i of a shifted row is the old byte shifted left once, with bit 0 taken from bit 7 of byte i-1. Byte 0 takes it from byte 3. |
| FrameSpec.RotatedRowBit | Source.c:297-308 | Bit k of byte i moves to bit k+1, and bit 7 carries into bit 0 of byte (i+1) % 4. |
| FrameSpec.RotatedRowPixel | Source.c:297-308 | After one shift, LED (x+1) % 32 of a layer shows what LED x showed. |
| FrameSpec.ShiftedRightPixel | Source.c:297-308 | The same, for every layer of the buffer. |
| FrameSpec.RotatedRowNPixel | Source.c:297-308 | After n shifts of a layer, LED (x+n) % 32 shows what LED x showed. |
| FrameSpec.ShiftedRightNLayer | Source.c:297-308 | n shifts of the buffer rotate each layer independently n times. |
| FrameSpec.ShiftedRightNPixel | Source.c:297-308 | After n Shift_Right calls, pixel (y, (x+n) % 32) equals the old pixel (y, x). |
| FrameSpec.RotatedRowFullTurns | Source.c:297-308 | A layer shifted any multiple of 32 times is unchanged. |
| FrameSpec.ShiftedRightFullTurns | Source.c:297-308 | Shift_Right applied any multiple of 32 times (32 in particular) restores the buffer. |
| Tower.LedTower.ShiftDown | Source.c:202-222 | Row 15 is saved in g_temp. Rows 15..1 each take the row below, row 0 takes the saved row. Then one frame is sent. |
| FrameSpec.ShiftedDownLayer | Source.c:207-218 | The new row y is the old row y-1 for 1 ≤ y ≤ 15, and the new row 0 is the old row 15. |
| FrameSpec.ShiftedDownNLayer | Source.c:202-222 | After n Shift_Down calls, row y holds the old row (y - n) mod 16. |
| FrameSpec.ShiftedDownFullTurns | Source.c:202-222 | Shift_Down applied any multiple of 16 times (16 in particular) restores the buffer. |
| PopCount.DropLowest | Source.c:291 | `n &= (n-1)` on a non-zero word removes exactly one set bit. |
| PopCount.NoOnes | Source.c:289 | A word has no set bits exactly when it is 0, which is the loop's exit test. |
| PopCount.OnesBound | Source.c:286 | A 32-bit `unsigned long` has at most 32 set bits, so the count fits the `unsigned int` result. |
| PopCount.CountSetBits | Source.c:286-295 | Returns the number of set bits of the argument, at most 32. The loop ends because each pass removes one set bit. |
| Scheduler.Controller.constructor | Source.c:27-28 | Power-on: g_Counter and g_LED_Counter are 0, TMR0IF is clear and TMR0IE is set (what `INTCON = 0b11100000` at Source.c:130 leaves), and control is at the switch in main. |
| Scheduler.Isr | Source.c:146-162 | Changes nothing unless TMR0IF and TMR0IE are both set. Otherwise it clears TMR0IF and increments g_Counter. Past ISR_TIMER it resets g_Counter to 0, increments g_LED_Counter and returns to the checkpoint. |
| Scheduler.Controller.Interrupt | Source.c:146-162 | The interrupt routine's field updates, in the source's order, give the state `Isr` describes. |
| Scheduler.IsrKeepsCounter | Source.c:150-152 | g_Counter stays within 0..15531. |
| Scheduler.TicksCount | Source.c:146-162 | After n overflows with the interrupt enabled, g_Counter is (start + n) mod 15532 and g_LED_Counter has risen by (start + n) div 15532: once per 15532 overflows. |
| Scheduler.TickRotates | Source.c:150-153 | An overflow moves g_LED_Counter on, by exactly one, only when g_Counter was at ISR_TIMER. |
| Scheduler.CaseOf | Source.c:86-100 | The switch has an animation for exactly the indices 0..8. |
| Scheduler.CasesAreAnimations | Source.c:86-100 | Each of the nine animations has exactly one case label. |
| Scheduler.Dispatch | Source.c:86-100 | Cases 0..8 start their animation and leave the checkpoint. `default` sets g_LED_Counter to 0 and starts nothing. |
| Scheduler.Controller.Switch | Source.c:86-100 | The switch statement, case by case, does what `Dispatch` describes. |
| Scheduler.Settle | Source.c:86-100 | From the checkpoint, the `while (1)` loop always starts an animation, after at most one pass through `default`. |
| Scheduler.SettleStarts | Source.c:86-100 | The loop starts case g_LED_Counter when it is 0..8 and case 0 otherwise, and g_LED_Counter then matches the running case. |
| Scheduler.RotationNext | Source.c:146-162 | While animation i runs, the overflow that wraps g_Counter rotates: main then starts animation (i+1) mod 9, with g_Counter at 0. |
| Scheduler.QuietTicks | Source.c:146-162 | While g_Counter stays within ISR_TIMER, overflows only count: g_LED_Counter and the checkpoint flag keep their values. |
| Scheduler.WrapTicks | Source.c:146-162 | The overflows left until the counter passes ISR_TIMER wrap it exactly once: g_Counter is 0, g_LED_Counter has risen by one and control is at the checkpoint. |
| Scheduler.Rotate | Source.c:86-162 | One rotation of the machine (overflows until g_Counter wraps, then main's loop) always starts an animation, the one g_LED_Counter then names, with g_Counter at 0 and control inside the animation. |
| Scheduler.RotateStep | Source.c:86-162 | From running case i, one rotation starts case (i+1) mod 9. |
| Scheduler.Rotations | Source.c:86-162 | After any number of rotations the interrupt is still enabled and g_Counter is in range; after at least one, g_Counter is 0 and an animation is running. |
| Scheduler.RotationsCycle | Source.c:86-162 | k rotations of the machine from running case i reach case (i+k) mod 9, so nine rotations return to the same animation. |
| Scheduler.RotationReaches | Source.c:86-162 | Every animation starts within nine rotations of the machine from any running case. |
| Scheduler.Return | Source.c:86-101 | An animation that returns puts control back at the top of main's loop and changes nothing else. |
| Scheduler.Controller.AnimationReturns | Source.c:86-101 | The return of a finite animation's call, as a step of the controller, is what `Return` describes. |
| Scheduler.ReturnRestarts | Source.c:86-101 | When a running animation returns, main's loop starts the same case again with g_LED_Counter unchanged. This holds for every case; the five whose calls do return are `LED_Paparazzi`, `LED_H_Sweep`, `LED_Diagonal`, `LED_VSweep` and `LED_Checkerboard`. |

## Left out

- `Sys_Init` and `ADC`: peripheral register set-up and an A/D busy-wait, with no logic over the buffer. The only register values kept are the Timer0 interrupt bits of the `INTCON` write, TMR0IE = 1 and TMR0IF = 0, as the controller's initial state.
- `delay`, `__delay_ms` and the two `NOP()`s that hold LE high: wall-clock timing. `ShiftDown` takes `d` and ignores it.
- The `while (!TRMT)` waits in `Update_Display`: hardware handshakes. Each byte write completes at once.
- The `STKPTR`/`TOSH`/`TOSL` stack surgery in `main` and in the interrupt routine is PIC call-stack behaviour. It is modelled as the `atCheckpoint` flag: the rotation sets it, and the switch clears it when it starts an animation.
- The `atCheckpoint` flag also stands for the end of the running animation: the rotation sets it, and so does the return of a finite animation (`Return`). The model does not describe the animation being abandoned mid-call, or its half-finished buffer. Which animations return is read from their bodies, which are not modelled; the restart lemma holds for every case.
- `BRIGHTNESS` (`CCPR1L`), the PWM duty register, and `rand`/`srand`: a register and a library outside the model.
- The animation routines (`LED_Paparazzi` through `LED_Text`), including their `memcpy` loads of constant bitmaps: delay-driven infinite loops over `rand` and data tables.
- The buffer methods' preconditions keep indices inside the buffer, so the out-of-range calls the animations make are outside the model. These are Switch_Col with column 32 from `LED_H_Sweep`, row 16 and row -1 in `LED_Checkerboard`, x up to 40 in `LED_Diagonal`, and the 64-byte `memcpy` starting at row i.
- Tower.LedTower.SwitchPixel: the source's third branch (`else ;`, reached when `state` is neither true nor false) can never run, so the model has two branches.
- `g_temp` is `unsigned char g_temp[1][4]` in the source. The model keeps its one row as a 4-byte array.
- Scheduler.Isr: g_LED_Counter is an unbounded integer. The 16-bit `int` would overflow only after 32767 rotations with no dispatch between them, and every rotation returns to the switch, which resets any value above 8.
- Scheduler.Dispatch: it applies only at the checkpoint (`requires atCheckpoint`), because the switch only runs when control is at the top of `main`'s loop.
- The interrupt is modelled as a step between other steps. Its interleaving with a half-executed buffer operation (say, the rotation firing in the middle of `Update_Display`) is not modelled.

## Findings

| source | as written | input that shows it | evidently intended | confidence | as-written member | corrected member |
|---|---|---|---|---|---|---|
| Source.c:247-253 | `Get_Pixel` tests `(LED_Buffer[y][x/8] &= 1 << (x % 8)) == 1`. This overwrites the byte with the mask result, and compares against 1 rather than against non-zero. | Only LED (0,1) lit: `Get_Pixel(0,1)` returns 0, and `Get_Pixel(0,0)` darkens LED (0,1). | Return whether bit `x % 8` of `LED_Buffer[y][x/8]` is set, leaving the buffer unchanged. | not executed | Tower.LedTower.GetPixel, FrameSpec.GetPixelCounterexample | Tower.LedTower.ReadPixel |
