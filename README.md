# ST7789 display demo: text terminal and keyword state machine

A model of the sequential logic of the Zephyr ST7789 demo application
(`applications/zephyr_st7789_demo/src/main.c`). The application shows a text
terminal on a 240 x 320 RGB565 panel and echoes each byte the main loop picks
up from the UART. When the bytes spell one of three keywords, it shows one of three pictures
for two seconds and then returns to the welcome screen.

The model has six modules:

- `Color`: the `RGB_TO_RGB565` macro. Its operands are promoted to a 32-bit
  value (`bv32`) and the result is cast to `uint16_t` (`bv16`). The module also
  holds the named colours.
- `Board`: the display buffer descriptor, the pictures and the I/O events. The
  `Io` class keeps a ghost log of everything the program does to the outside
  world: each `display_write` appends one `Written` event (with a snapshot of
  the buffer), each `uart_poll_out` appends `Transmitted` and each `k_msleep`
  appends `Slept`.
- `Terminal`: the renderer `display_write_char`, in two forms:
  - `RenderChar`, a pure specification that takes the cursor and `char_buf`
    and returns the new cursor, the new buffer and the writes made;
  - `CharTerminal`, a class whose fields are the statics `pos_x`, `pos_y` and
    `char_buf` (an array of 256 `uint16_t`). Its `WriteChar` method runs the
    source's loops and is proved to do what `RenderChar` says.

  The font is a 4096-byte parameter. A `char` is treated as an unsigned byte.
- `Strips`: `display_clean_set_bg`, which fills the buffer and then writes it
  in horizontal strips down the screen.
- `Keywords`: the per-byte comparison chain of the `new_char_arrived` case.
  There is ONE shared `keyword_pos`, compared against `keyword_gecko`,
  `keyword_silabs` and `keyword_efr32` in that order. The arrays keep their
  terminating NUL.
- `Demo`: the main loop's `switch`, with `uart_cb` taken as an atomic event
  between two iterations. There are two forms:
  - pure functions over `Control` (`demo_app_state`, `keyword_pos`,
    `uart_new_ch`) and over `Sys` (control, renderer and I/O log);
  - a `DemoApp` class whose `Step` method executes one iteration of the loop
    and is proved to match `MainStep`.

### One shared keyword position

The loop keeps one `keyword_pos` (`main.c:257`) and compares each byte with the
entry at that index of `keyword_gecko`, then `keyword_silabs`, then
`keyword_efr32`. As a result, a mixed prefix advances the position. For example, "gilabs"
completes "silabs" (`Demo.MixedPrefixCompletes`), and "gel" leaves the position
at 3. A byte that matches nothing resets the position and is consumed
(`Demo.MismatchIsConsumed`).

### The NUL overrun

A NUL received at position 5 matches the terminator `keyword_gecko[5]`, and the
position becomes 6. The next comparison then reads `keyword_gecko[6]`, one past
the end of the array. This is undefined behaviour in C.

The model does not hide this. `Keywords.KeywordStep` returns
`Failure(OutOfBoundsRead(...))` for such a read. `Keywords.NulAtFiveOverruns`
and `Demo.NulAfterSilabOverruns` exhibit the fault, and
`Demo.NonNulKeepsMixedPrefix` proves that input without NUL bytes never reaches
it. The imperative `DemoApp.Step` takes an iteration only when the comparison
stays inside the arrays.

## Model

| member | source | states |
|---|---|---|
| `Color.PromotedRgb` | applications/zephyr_st7789_demo/src/main.c:38-41 | the macro's expression before the cast always fits in 16 bits, so the `uint16_t` cast loses nothing |
| `Color.Rgb565` | applications/zephyr_st7789_demo/src/main.c:38-41 | the packed colour has `r >> 3` in bits 15-11, `g >> 2` in bits 10-5 and `b >> 3` in bits 4-0 |
| `Color.UnpackRgb565` | applications/zephyr_st7789_demo/src/main.c:38-41 | reading the three fields back from a packed colour gives exactly the top 5, 6 and 5 bits of r, g and b |
| `Color.PackUnpacked` | applications/zephyr_st7789_demo/src/main.c:38-41 | every 16-bit colour is the packing of its own fields: nothing else is stored |
| `Color.NamedColours` | applications/zephyr_st7789_demo/src/main.c:43-47 | RED, GREEN and BLUE are 0xF800, 0x07E0 and 0x001F; (255,255,255) packs to WHITE 0xFFFF and (0,0,0) to BLACK |
| `Terminal.ClearGrid` | applications/zephyr_st7789_demo/src/main.c:91-100 | the nested loops over m rows make 30m writes, each of the whole cell buffer as it stands, through the cell descriptor |
| `Terminal.ClearScreen` | applications/zephyr_st7789_demo/src/main.c:91-100 | a full clear is exactly 600 writes, one per cell of the 30 x 20 grid |
| `Terminal.Glyph` | applications/zephyr_st7789_demo/src/main.c:114-123 | the rasterised glyph has 128 pixels; `Terminal.RenderCharBuffer` states the colour of each one |
| `Terminal.GlyphAt` | applications/zephyr_st7789_demo/src/main.c:114-123 | entry `j * 8 + i` of the glyph is `color` exactly when bit `0x80 >> i` of font row `ch * 16 + j` is set, else the background |
| `Terminal.ClearGridAt` | applications/zephyr_st7789_demo/src/main.c:91-100 | clearing m rows makes 30m writes, and write k goes to cell (k mod 30, k div 30) |
| `Terminal.ClearScreenWrites` | applications/zephyr_st7789_demo/src/main.c:85-101 | a clear is 600 writes of an all-background buffer, write k at pixel (8(k mod 30), 16(k div 30)), each cell once |
| `Terminal.RenderChar` | applications/zephyr_st7789_demo/src/main.c:63-147 | one call keeps the buffer at 256 entries and keeps a cursor that was on the 30 x 20 grid on the grid |
| `Terminal.RenderCharCursor` | applications/zephyr_st7789_demo/src/main.c:79-146 | an ordinary byte moves the cursor to the next cell in row-major order (the last cell wraps to the first); `'\r'` moves it to column 0 of the next row (row 19 wraps to 0); NUL moves it to (0, 0); the cursor stays on the grid |
| `Terminal.RenderCharWrites` | applications/zephyr_st7789_demo/src/main.c:85-130 | a call writes a full clear exactly when the byte is NUL or the cursor is (0, 0) on entry, then exactly one write of the glyph buffer at the entry cell for an ordinary byte, and nothing else |
| `Terminal.RenderCharBuffer` | applications/zephyr_st7789_demo/src/main.c:87-123 | for an ordinary byte, pixel (i, j) is `color` exactly when bit `0x80 >> i` of `font[ch*16+j]` is set, else `bg_color`; entries 128-255 are background after a clear and untouched otherwise; NUL and `'\r'` leave the cleared or unchanged buffer |
| `Terminal.RenderString` | applications/zephyr_st7789_demo/src/main.c:336-345 | drawing a string keeps the buffer size and keeps the cursor on the grid |
| `Terminal.NulForgetsState` | applications/zephyr_st7789_demo/src/main.c:79-105 | after NUL the cursor, buffer and writes do not depend on the earlier state: cursor (0, 0), buffer all background |
| `Terminal.CharTerminal.constructor` | applications/zephyr_st7789_demo/src/main.c:68-76 | the statics start zeroed: cursor (0, 0), buffer all 0 |
| `Terminal.CharTerminal.FillBuffer` | applications/zephyr_st7789_demo/src/main.c:87-89 | the fill loop sets all 256 entries of `char_buf` to the background |
| `Terminal.CharTerminal.WriteAllCells` | applications/zephyr_st7789_demo/src/main.c:91-100 | the nested loops write the buffer to every cell, row by row, left to right |
| `Terminal.CharTerminal.DrawGlyph` | applications/zephyr_st7789_demo/src/main.c:114-123 | the rasterising loops put the glyph in entries 0-127 and leave 128-255 as they were |
| `Terminal.CharTerminal.WriteChar` | applications/zephyr_st7789_demo/src/main.c:63-147 | `display_write_char` leaves the cursor and `char_buf` as `RenderChar` says and appends exactly its writes to the log |
| `Strips.StripsFrom` | applications/zephyr_st7789_demo/src/main.c:161-165 | the strip loop from y writes nothing exactly when y is already at or past `y_resolution`; every write is the whole buffer at x = 0 and a row between y and the bottom edge |
| `Strips.StripsFromAt` | applications/zephyr_st7789_demo/src/main.c:161-165 | strip k of a loop started at y0 is written at x = 0, y = y0 + k * height, above the bottom edge |
| `Strips.StripsFromEnd` | applications/zephyr_st7789_demo/src/main.c:161 | the loop stops only once y reaches `y_resolution` |
| `Strips.StripsCoverScreen` | applications/zephyr_st7789_demo/src/main.c:161-165 | strip k is written if and only if k * height < `y_resolution`, at (0, k * height), in increasing order |
| `Strips.CleanSetBg` | applications/zephyr_st7789_demo/src/main.c:149-166 | the first `buf_size` entries become `bg_color` and the rest stay as they were; the writes appended are exactly the strips of the filled buffer |
| `Keywords.KeywordStep` | applications/zephyr_st7789_demo/src/main.c:370-405 | for a position 0-5 and a byte other than NUL, no read leaves the arrays and the position stays in 0-5; a finished keyword means the byte equals that keyword's last character at its last index; a nonzero new position is the old one plus one, reached by a byte that matches some keyword at that index (the converse is `Keywords.MatchAdvances`) |
| `Keywords.MatchAdvances` | applications/zephyr_st7789_demo/src/main.c:370-399 | conversely, a byte other than NUL equal to entry `pos` of keyword k advances the shared position to `pos + 1`, or finishes k when `pos` is k's last index |
| `Keywords.MismatchResets` | applications/zephyr_st7789_demo/src/main.c:400-405 | a byte that matches no keyword at the position resets it to 0 |
| `Keywords.AtMostOneKeywordMatches` | applications/zephyr_st7789_demo/src/main.c:177-179 | apart from the terminators, no two keywords share a character at an index, so for bytes other than NUL the order of the tests is unobservable |
| `Keywords.NulAtFiveOverruns` | applications/zephyr_st7789_demo/src/main.c:370-371 | NUL at position 5 matches the terminator of `keyword_gecko` and moves the position to 6; from 6, every byte reads `keyword_gecko[6]` out of bounds |
| `Keywords.StepKeepsMixedPrefix` | applications/zephyr_st7789_demo/src/main.c:370-405 | for a byte other than NUL the step never faults, and the last `keyword_pos` bytes received stay a mixed prefix (each byte matches some keyword at its own index); a finished keyword is preceded by such a prefix ending in its last character |
| `Demo.ControlStepFrame` | applications/zephyr_st7789_demo/src/main.c:322-449 | `ControlStep`, the loop's effect on the control state, faults only in `new_char_arrived` when the keyword comparison reads out of bounds; no case leaves `new_char_arrived` set or changes the received byte; only `show_welcome` and `new_char_arrived` move the keyword position |
| `Demo.WelcomeScreen` | applications/zephyr_st7789_demo/src/main.c:325-345 | the welcome screen opens with the full 600-write clear of the NUL call and leaves the renderer's cursor on the grid and its buffer at 256 entries |
| `Demo.Effects` | applications/zephyr_st7789_demo/src/main.c:322-449 | one iteration keeps the buffer at 256 entries; outside `show_welcome` and `new_char_arrived` it leaves the renderer alone and makes at most one external call (the picture write or the sleep) |
| `Demo.MainStep` | applications/zephyr_st7789_demo/src/main.c:322-449 | an iteration succeeds exactly when its control step does, then only appends to the I/O log and keeps the buffer at 256 entries |
| `Demo.WaitingIsIdle` | applications/zephyr_st7789_demo/src/main.c:353-356 | an iteration in `waiting_for_uart_input` or in the unhandled `enter_keyword` (the `default` at lines 446-447) changes nothing: control state, renderer and I/O log stay as they were |
| `Demo.DeliverOutcome` | applications/zephyr_st7789_demo/src/main.c:199-215 | `Deliver`, one byte taken by the callback and then handled by the loop, never faults at a position 0-5 for a byte other than NUL; it leaves that byte as `uart_new_ch`, moves the position up by at most one, and either waits for input or resets the position to 0 |
| `Demo.TypeHoldsLastByte` | applications/zephyr_st7789_demo/src/main.c:199-215 | `Type`, bytes delivered one at a time, moves the position by at most one per byte, and after a non-empty run holds its last byte and is no longer in `new_char_arrived` |
| `Demo.TypeAppend` | applications/zephyr_st7789_demo/src/main.c:199-215 | typing u then v is typing v from the state u leaves |
| `Demo.DeliverKeepsMixedPrefix` | applications/zephyr_st7789_demo/src/main.c:359-406 | one delivered byte other than NUL never faults and keeps the position in 0-5 with the last `keyword_pos` bytes a mixed prefix |
| `Demo.UartEvent` | applications/zephyr_st7789_demo/src/main.c:199-215 | the callback changes nothing unless the interrupt is pending, the receiver is ready and a byte is read; otherwise the state becomes `new_char_arrived` holding the last byte read, and the keyword position is never touched |
| `Demo.UartKeepsLastByte` | applications/zephyr_st7789_demo/src/main.c:211-214 | a burst of bytes leaves the same state as its last byte alone |
| `Demo.UartPreemptsPicture` | applications/zephyr_st7789_demo/src/main.c:211-214 | a byte that arrives while a picture is pending replaces the pending state |
| `Demo.TypeKeywordPrefix` | applications/zephyr_st7789_demo/src/main.c:370-399 | typing the first i characters of a keyword from position 0 waits at position i |
| `Demo.TypeKeywordFinishes` | applications/zephyr_st7789_demo/src/main.c:370-399 | "gecko", "silabs" and "efr32" typed from position 0 each end in their own `finished_*` state with the position reset to 0 |
| `Demo.TypeOneMore` | applications/zephyr_st7789_demo/src/main.c:199-215 | typing one more byte hands the state after the earlier bytes to the callback and the next loop iteration |
| `Demo.TypeProgress` | applications/zephyr_st7789_demo/src/main.c:359-406 | a typed byte whose comparison moves the position to p leaves the loop waiting at p |
| `Demo.TypeCompleted` | applications/zephyr_st7789_demo/src/main.c:359-406 | a typed byte that completes keyword k enters k's `finished_*` state at position 0 |
| `Demo.NonNulKeepsMixedPrefix` | applications/zephyr_st7789_demo/src/main.c:257 | whatever came before, a run of bytes other than NUL never faults, keeps the shared position in 0-5 and keeps the last `keyword_pos` bytes a mixed prefix |
| `Demo.MixedPrefixCompletes` | applications/zephyr_st7789_demo/src/main.c:370-399 | because the position is shared, "gilabs" typed from position 0 shows the silabs logo |
| `Demo.MismatchIsConsumed` | applications/zephyr_st7789_demo/src/main.c:400-405 | the second "g" of "ggecko" resets the position and is not retried, so "gecko" is never recognised |
| `Demo.CapitalLResets` | applications/zephyr_st7789_demo/src/main.c:380-405 | "siL" resets the position to 0, and "siLabs" ends waiting at position 1 |
| `Demo.NulAfterSilabOverruns` | applications/zephyr_st7789_demo/src/main.c:370-371 | "silab" then NUL leaves position 6, and any next byte reads past `keyword_gecko` |
| `Demo.EchoFollowsDraw` | applications/zephyr_st7789_demo/src/main.c:359-367 | a received byte is drawn, then echoed once; the renderer moves as for any other call |
| `Demo.PictureCycle` | applications/zephyr_st7789_demo/src/main.c:408-444 | a finished keyword makes one full-frame write of its own picture, then sleeps 2000 ms, then redraws the welcome screen, resets the position and waits for input |
| `Demo.WelcomeIgnoresPriorState` | applications/zephyr_st7789_demo/src/main.c:325-345 | the welcome screen starts with NUL, so what it draws does not depend on the renderer's earlier state, and drawing it twice draws the same thing twice |
| `Demo.DemoApp.constructor` | applications/zephyr_st7789_demo/src/main.c:320 | the loop starts in `show_welcome` at position 0, with nothing shown or sent |
| `Demo.DemoApp.UartCallback` | applications/zephyr_st7789_demo/src/main.c:199-215 | the callback's read loop changes only the control state, exactly as `UartEvent` says |
| `Demo.DemoApp.DrawString` | applications/zephyr_st7789_demo/src/main.c:336-345 | a `for` loop of `display_write_char` calls renders the string as `RenderString` says |
| `Demo.DemoApp.ShowWelcomeCase` | applications/zephyr_st7789_demo/src/main.c:325-352 | the `show_welcome` case is one `MainStep` |
| `Demo.DemoApp.CompareKeywords` | applications/zephyr_st7789_demo/src/main.c:370-405 | the `if / else if` chain over the three arrays at the shared position leaves the control state exactly as `ControlStep` says: advanced, finished or reset |
| `Demo.DemoApp.NewCharArrivedCase` | applications/zephyr_st7789_demo/src/main.c:359-406 | the `new_char_arrived` case's draw, echo and if-chain are one `MainStep` |
| `Demo.DemoApp.Step` | applications/zephyr_st7789_demo/src/main.c:322-449 | one iteration of the `while`/`switch` changes the state, the renderer and the I/O log exactly as `MainStep` says |

## Left out

- Device bring-up is not modelled: `uart_init`, `device_is_ready`, the
  display capabilities and the pixel-format check, blanking, and the startup
  exits. These are calls into the Zephyr driver model.
- Logging and `printk` are not modelled.
- The startup allocation with `k_malloc`, the full-screen fill at lines
  301-303 and the first full-frame write at line 314 are not modelled. They
  are one-shot start-up work before the loop. `DemoApp` starts with an empty
  log.
- The driver calls themselves are not modelled. `display_write`,
  `uart_poll_out` and `k_msleep` appear only as ghost log entries. What
  `uart_fifo_read` returns is a parameter of the callback.
- The contents of the font table and of the three pictures are not part of
  this model. The font is a 4096-byte parameter and the pictures are names.
- Races between the interrupt and the loop are not modelled, such as a byte
  received during `show_welcome` being overwritten at line 351. The callback
  is an atomic step between two iterations.
- A signed `char` is not modelled. Bytes 128-255 are taken as unsigned at the
  font lookup of line 116, as on ARM GCC.
- `Demo.DemoApp.Step`: requires that the iteration's keyword comparison stays
  inside the arrays. An out-of-bounds read has undefined behaviour in C, so the
  step after one is not modelled. The pure `Demo.MainStep` returns the fault
  instead.
- `Demo.DemoApp.NewCharArrivedCase`: the same requirement as `Step`.
- `Strips.CleanSetBg`: requires a buffer of at least `buf_size` entries (the
  fill loop at lines 156-158 would otherwise write past its end; the function
  has no call site in this file), `buf_size` below 65536, and a positive
  `height` unless `y_resolution` is 0. The `uint16_t` fill counter never
  exceeds 65535, so for larger sizes the source's loop never ends. A zero
  height on a screen with rows would make the strip loop at line 161 spin
  forever; with no rows the loop body never runs and nothing is written.
- `Terminal.CharTerminal.WriteChar`: requires a cursor on the grid. The
  statics start at (0, 0) and every call keeps the cursor on the grid, so this
  always holds. The `int16_t` width of `pos_x` and `pos_y` therefore never
  matters.
- `Demo.Type`: each byte is delivered alone and handled before the next
  arrives. Bursts are covered separately by `Demo.UartKeepsLastByte`.
- The unreachable `default` branch is not modelled separately. `enter_keyword`
  has no case and, like `waiting_for_uart_input`, leaves everything unchanged.
