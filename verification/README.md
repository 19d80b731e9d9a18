# light_control in Dafny

A model of the control core of the `light_control` firmware. The firmware runs on a
microcontroller that drives a strip of addressable LEDs, a small menu display and
three buttons (Up, Down, Enter). The model covers four parts:

- **Input cell** (`Input`, `input.dfy`). The interrupt handler `handleInput` debounces
  each button with a 200 ms window. The window is measured with wrapping 32-bit
  `millis()` arithmetic. An accepted press overwrites the single pending-button slot.
  The main loop reads that slot and clears it once per tick.
- **Menu selector** (`Menu`, `menu.dfy`). `menuItem` is clamped between Off (0) and
  Right (4). Up moves it down and Down moves it up. The module also models the row
  prefixes `drawMenu` prints: `->` on the selected row, two spaces on every other row.
- **Preset resolver** (`Preset`, `preset.dfy`). It gives the target frame for each
  menu item: all black, all white, or one white third of the strip (left, centre or
  right). The strip length `n` is a parameter; the firmware uses 144.
- **Cross-fade engine** (`CrossFade`, `crossfade.dfy`). Enter snapshots the visible
  frame and installs the target. Every tick of a running fade adds 2 to the 8-bit
  progress counter, including the tick that consumes the Enter. The fade ends when
  the counter reaches 255 or wraps, and then the strip shows the target exactly.

`Firmware` (`firmware.dfy`) combines the four parts into one state. It has one
`Tick` per call of `loop` and a `Run` over any interleaving of interrupt calls and
ticks. `Units` (`units.dfy`) holds the 8-bit and 32-bit wrap-around arithmetic.

Each loop tick and each interrupt-handler call is one atomic step. `millis()` is the
timestamp carried by each interrupt event. FastLED's `blend` is a function parameter
`blend: (Color, Color, Byte) -> Color`, so nothing depends on how it rounds.

Two points of the code worth knowing:
- Enter never resets `pct`: the Enter arm (light_control.cpp:154-176) does not touch
  it, and the model keeps that. A fade that starts from idle still begins at 0,
  because an idle engine always has `pct == 0` (`CrossFade.Valid`). An Enter during
  a fade keeps the current progress, so the re-armed fade finishes sooner
  (`Firmware.EnterShowsPreset`).
- The timestamp table `last_interrupt_time` is declared with three slots but is
  indexed by the button ids 1..3, so Enter (id 3) is one past the end (see
  Findings). The model starts from a 4-slot table, one slot per id.

## Model

| member | source | states |
|---|---|---|
| Units.SubUndoesAdvance | light_control.cpp:54-55 | Unsigned 32-bit subtraction gives back the elapsed time `d` between `t` and `t + d`, even when the clock wrapped in between |
| Firmware.Initial | light_control.cpp:26-49 | The initial values of the globals, the state in which `setup` attaches the handlers: nothing pending, menu at All, no transition, the strip showing the given frame, and every debounce timestamp 0. The timestamp table has 4 slots, one per id, instead of the declared 3 (see Findings) |
| Input.Press | light_control.cpp:53-59 | A press changes the cell exactly when it passes the debounce test. An accepted press sets pending to the button and stamps only its own slot with `now`. Every other slot keeps its value |
| Input.Consume | light_control.cpp:147-178 | The main loop gets the pending button, then the pending slot is set to None. The timestamps are not changed |
| Input.DeclaredTableMissesEnter | light_control.cpp:49-56 | A 3-slot timestamp table cannot be indexed by Enter (id 3), but it can be indexed by Up and Down |
| Input.IntendedTableServesEveryButton | light_control.cpp:53-69 | With one slot per id, every button meets the index precondition, and pressing keeps the table shape |
| Input.AcceptedIffWindowElapsed | light_control.cpp:54-55 | A press `d` ms after the button's last accepted press is accepted if and only if `d > 200`, across 32-bit wrap-around. Exactly 200 ms is rejected |
| Input.RepeatWithinWindowDiscarded | light_control.cpp:55-58 | A repeat press of the same button within 200 ms of an accepted press leaves the cell exactly as the first press left it |
| Input.LastWriterWins | light_control.cpp:57 | When two presses are both accepted, pending holds the second button, whatever was there before. Nothing is queued |
| Input.DebounceIsPerButton | light_control.cpp:55-56 | A press of one button never changes whether a press of a different button is accepted |
| Input.ConsumeReportsOnce | light_control.cpp:147-178 | After a consume, a second consume with no press in between reports None |
| Menu.Navigate | light_control.cpp:148-153 | Up lowers the selector by one and is a no-op at 0. Down raises it by one and is a no-op at 4. Enter and None leave it alone. The selector stays in range |
| Menu.NavigateAllStaysInRange | light_control.cpp:148-153 | After any sequence of buttons, the selector is still in [0, 4] |
| Menu.UpDownAreInverse | light_control.cpp:148-153 | Away from the ends, Up undoes Down and Down undoes Up |
| Menu.UpsReachFirstItem | light_control.cpp:148-150 | At least `m` Up presses from item `m` reach Off, and extra presses stay there |
| Menu.MenuLines | light_control.cpp:80-106 | The display lines are a title, a rule, and the five item rows in menu order |
| Menu.MarkerOnSelectedRowOnly | light_control.cpp:82-106 | The `->` marker is on a row if and only if that row is selected. Every label starts at the same column |
| Preset.FillSolid | light_control.cpp:167-173 | `fill_solid` on a span that fits the buffer: LEDs inside the span take the colour and all other LEDs keep theirs |
| Preset.SpanFitsStrip | light_control.cpp:166-174 | Every preset span lies inside the strip for every `n`. Left, Center and Right each light exactly `n/3` LEDs |
| Preset.Resolve | light_control.cpp:156-174 | The target frame has `n` LEDs and depends only on the menu item. It is white exactly on the item's span and black everywhere else |
| Preset.OffAndAllAreUniform | light_control.cpp:159-165 | Off gives an all-black frame and All gives an all-white frame |
| Preset.SpansOfFirmwareStrip | light_control.cpp:166-174 | On 144 LEDs the spans are Left [0, 48), Center [48, 96) and Right [96, 144) |
| Preset.ThirdsTileStrip | light_control.cpp:166-174 | When `n` is a multiple of 6, each LED is white in exactly one of Left, Center and Right |
| CrossFade.BlendFrame | light_control.cpp:192 | Each LED of the blended frame is `blend` of that LED's previous and target colours at the same amount |
| CrossFade.Arm | light_control.cpp:155-157 | Enter sets `prevLeds` to the visible frame, installs the target and starts the transition. The progress is not reset |
| CrossFade.Advance | light_control.cpp:181-197 | An idle engine is untouched. An active engine ends if and only if `pct + 2` reaches 255 or more; it then has `pct` 0 and shows the target exactly. Otherwise it shows the blend at `pct + 2`. Even, idle-means-zero progress is preserved |
| CrossFade.ProgressNeverFull | light_control.cpp:181-189 | From a reachable state, after any number of ticks neither the progress nor, in a running fade, the incremented progress compared with 255 equals 255, so every fade ends through the wrap-around test |
| CrossFade.StepsWhileActive | light_control.cpp:183-193 | While it runs, a fade at progress `p` shows after `k` ticks the blend at `p + 2k` |
| CrossFade.FinishesAfterTicksToFinish | light_control.cpp:183-190 | A fade at even progress `p` ends after exactly `(256 - p)/2` ticks, with `pct` 0 and the strip showing the target. One tick earlier it is still active |
| CrossFade.FromZeroFinishesOn128thTick | light_control.cpp:181-192 | From progress 0, ticks 1..127 blend at 2, 4, ..., 254, and tick 128 ends the fade with the target shown exactly |
| Firmware.Tick | light_control.cpp:145-197 | After a tick nothing is pending and the timestamps are unchanged. The menu moves by the consumed button. On Enter, `prevLeds` is the previously visible frame, the target is the selected preset, progress continues from its old value, and the armed fade advances one step in the same tick. With any other button a running fade advances one step and an idle fade does not change. Validity is preserved |
| Firmware.Run | light_control.cpp:53-197 | Every state reachable by interrupt calls and loop ticks is valid: the selector is in [0, 4], the buffers have `n` LEDs, and progress is even and 0 when idle |
| Firmware.QuietTicksOnlyFade | light_control.cpp:147-197 | Loop ticks with nothing pending change only the cross-fade |
| Firmware.EnterShowsPreset | light_control.cpp:154-190 | After a pending Enter, the strip shows the selected preset exactly after `(256 - pct)/2` ticks. That is 128 ticks from idle, and fewer when the fade was already running. The menu and the debounce timestamps are unchanged and nothing is pending |
| Firmware.DoubleEnterScenario | light_control.cpp:53-197 | On 6 LEDs with menu item All, a second Enter within 200 ms is discarded: the state after both presses equals the state after the first, and Enter's timestamp stays at the first press. After 128 ticks the single transition has ended with every LED white |

## Left out

- `setup()` (light_control.cpp:111-143): pin modes, interrupt registration, the fatal
  display-init loop and the rainbow boot animation. These are hardware I/O and
  floating-point hue steps. The model starts from whatever frame the boot animation
  left (`Firmware.Initial` takes it as a parameter).
- Button presses during the boot animation: `setup` attaches the handlers
  (light_control.cpp:118-121) before the roughly 3.6 s animation (138-142). Such
  presses are the `Interrupt` events at the start of a `Firmware.Run` from
  `Firmware.Initial`, so the first `loop` may see a pending button and non-zero
  timestamps.
- `handlePowerInput` and `power` (light_control.cpp:51, 71-73): a boolean flip that
  nothing reads.
- `outputMenuSerial` (light_control.cpp:144, 164): set but never read.
- The internals of FastLED's `blend`, `FastLED.show()` and the display calls
  (`clearDisplay`, `setCursor`, `display()`). The library code is not part of this
  model, so no claim is made about blend rounding or about each channel changing
  monotonically during a fade. Only the printed lines of `drawMenu` are modelled.
- Races between the interrupt handlers and `loop`. One example: a press that lands
  between the read of `buttonPressed` and its clear is lost. Each handler call and
  each tick is atomic here.
- `old_pct` as a separate static: it is always reassigned from `pct` before it is
  read, so `CrossFade.Advance` uses a local.
- `byte` values of `buttonPressed` other than 0..3: only the handlers write it, and
  they write only those ids.

## Findings

| source | as written | input that shows it | evidently intended | confidence | as-written member | corrected member |
|---|---|---|---|---|---|---|
| light_control.cpp:49-56 | `last_interrupt_time` is declared with 3 slots but indexed by the button id, and BUTTON_ENTER is 3 | one Enter press: `handleInput(3)` reads and writes `last_interrupt_time[3]`, one past the end | one debounce slot for each button, Enter included | not executed; high (the index is fixed by the constants) | Input.DeclaredTableMissesEnter | Input.IntendedTableServesEveryButton |

`Input.Press` keeps the C index precondition `Id(b) < |last|`. A 3-slot table cannot
meet it for Enter. The rest of the model uses the 4-slot table (`Input.Valid`), where
every id has its own slot.
