# autocata, modelled in Dafny

autocata holds a key down in the Guild Wars 2 client and releases it when an
on-screen progress bar reaches a percentage given on the command line. It then
waits two seconds, presses the key again, and repeats. It stops when Ctrl_L
and S are held together. All of it lives in `main.cpp`:

- `findWindow` searches the X window tree for the window titled "Guild Wars 2".
- `keyIsPressed` reads one key out of the X keymap.
- `getProgress` turns a window frame into a percentage.
- `main` validates the argument and runs the press/release loop.

The model has one module per part of `main.cpp`:

| module | file | models |
|---|---|---|
| `WindowSearch` | `window_search.dfy` | `findWindow`: a recursive method with the source's child loop, left by an early return on the first match, proved against a preorder reference definition |
| `Keymap` | `keymap.dfy` | `keyIsPressed`: the byte/bit selection of keycode `kc` in the 32-byte keymap |
| `ProgressEstimator` | `progress.dfy` | the last steps of `getProgress`: the frame `cv::rectangle` paints on the crop, the threshold at 180 (`Binarize` is the definition of `THRESH_BINARY` with threshold 180 and maximum 255: brighter pixels become 255, the rest 0), the first-maximum scan of `cv::minMaxLoc`, and `100 * x / cols` |
| `Arguments` | `arguments.dfy` | the argument checks of `main` and exit codes 1, 2, 3 |
| `ControlLoop` | `control_loop.dfy` | the `while (true)` loop of `main`: a method over a finite trace of polls, proved equal to a pure pass-by-pass definition (`Step`, `Run`), with lemmas about the key events it emits. The loop body after the two reads is the method `Pass`, where `return` stands for `continue`. The `getProgress` call of each pass is the helper method `GetProgress`, which keeps the body of `Progress` out of the loop's proof |
| `Arith`, `Bytes`, `Wrappers` | `arith.dfy`, `bytes.dfy`, `wrappers.dfy` | division facts, the 0..255 byte type, `Option` |

The outside world becomes data:

- Every X window is a `Window` value. It carries what `XFetchName` reports (a name or `None`) and what `XQueryTree` reports (`QueryFailed`, or the children in order).
- Every pass of the loop reads one `Poll`. A poll holds the grayscale crop of the progress bar as grabbed, the two keymaps the two `keyIsPressed` calls see, and the millisecond clock. The frame that `cv::rectangle` then paints on the crop is part of the model (`Paint`).
- The loop's effects come back as a trace of key events (`Press`, `Release`) and of once-a-second frame-rate reports.

Four behaviours of the code are worth knowing, and the model follows all four:

- The percentage comes from the first pixel above the threshold in row-major order: the topmost bright row, then its leftmost bright pixel. It is not the rightmost lit pixel of the bar.
- The percentage is at most 99, because `maxLoc.x < cols`.
- `cv::rectangle` draws on the very pixels the crop shares. The crop's first and last row and column become BGR (255, 0, 0), which is gray 29, so they are never above the threshold. Only pixels inside that frame decide the percentage.
- The threshold test comes before the hot-key test, and a hit ends the pass with the `continue` at line 129. With an argument of 0 every pass is a hit, because the percentage is never negative, so Ctrl_L+S can never stop the program.

Because of the second and third, an argument of 99 is reached only once the bar's first bright pixel sits in the last percent of the crop's width, left of the painted last column. That needs a crop at least 200 pixels wide. For a window `W` pixels wide the crop is `x2 - x1`, about `226.9 - 0.0488 * W` pixels. Lines 57 and 59 truncate `x1` and `x2` to `int`, so the crop stays 200 pixels wide for some windows up to 568 pixels wide (568 gives `x1 = 176`, `x2 = 376`). From `W = 569` on it is always under 200, and on such a window an argument of 99 never releases the key. Without the truncation the limit would be about 551.

## Model

| member | source | states |
|---|---|---|
| `WindowSearch.FindWindow` | main.cpp:14-41 | returns the id of the first window in preorder whose fetched name equals the title, or 0 if there is none. Also returns the ids whose names were fetched, in call order: every window up to and including that match, and none after it |
| `WindowSearch.MatchingRoot` | main.cpp:17-22 | a window whose own name matches is returned at once, having fetched only its own name |
| `WindowSearch.FoundIsFirstMatch` | main.cpp:25-40 | a non-zero result is the id of a matching window in the subtree, and no window before it in preorder matches |
| `WindowSearch.NotFoundIff` | main.cpp:26-40 | the result is 0 exactly when no window reachable through successful tree queries has the title |
| `WindowSearch.FailedQuery` | main.cpp:29-39 | when `XQueryTree` fails, the children are never reached: the window matches by its own name or the result is 0 |
| `WindowSearch.FirstMatchIsFirst` | main.cpp:30-37 | the reference position is the first match: nothing before it matches, and the node at it does |
| `Keymap.KeyIsPressedReadsBit` | main.cpp:43-48 | `keyIsPressed` is true exactly when bit `kc % 8` of byte `kc / 8` of the keymap is set |
| `Keymap.MaskTestsBit` | main.cpp:47 | `b & (1 << j)` is non-zero exactly when bit `j` of `b` is set |
| `ProgressEstimator.ArgMaxFirstIsFirstMax` | main.cpp:72 | the `minMaxLoc` scan yields a position holding the maximum, and every value before it is strictly smaller (ties go to the first occurrence) |
| `ProgressEstimator.PaintAt` | main.cpp:62-63 | on the crop, the first and last row and column read gray 29, the conversion of BGR (255, 0, 0); every other pixel keeps its value |
| `ProgressEstimator.Progress` | main.cpp:82 | the percentage lies in 0..99 |
| `ProgressEstimator.MaxLocPixel` | main.cpp:69-72 | `maxLoc` lands on a pixel above the threshold; when no pixel is above it, `maxLoc` is the first pixel, row 0 and column 0 |
| `ProgressEstimator.FirstBrightPixel` | main.cpp:62-82 | if the first bright pixel inside the painted frame, in row-major order, is in column `c`, the percentage is `100 * c / cols` |
| `ProgressEstimator.AllDark` | main.cpp:62-82 | a crop with no pixel above the threshold inside the frame reads as 0 percent |
| `ProgressEstimator.BrightColumn` | main.cpp:62-82 | a crop whose only bright pixels inside the frame form column `x` reads as `100 * x / cols` percent |
| `ProgressEstimator.BorderNeverDecides` | main.cpp:62-82 | two crops of the same size that agree inside the frame read the same percentage, whatever their border pixels |
| `ProgressEstimator.MaxLocNotLast` | main.cpp:62-72 | `maxLoc.x` is 0 or lies left of the painted last column |
| `ProgressEstimator.NinetyNineNeedsWidth` | main.cpp:62-82 | a percentage of 99 needs a crop at least 200 pixels wide |
| `Arguments.Validate` | main.cpp:86-100 | start-up exits with status 1, 2 or 3, or accepts the parsed value of the first argument, which then lies in 0..99 |
| `Arguments.ExitCodes` | main.cpp:86-100 | status 1 exactly when there is no argument; status 2 exactly when `stoi` fails on it; status 3 exactly when it parses to a value outside 0..99 |
| `Arguments.AcceptsRange` | main.cpp:97-100 | every parsed value from 0 to 99 is accepted unchanged |
| `ControlLoop.Observe` | main.cpp:116-131 | the progress a pass reads lies in 0..99 |
| `ControlLoop.MainLoop` | main.cpp:109-145 | the key events, reports, frame counter, number of passes and stop flag are exactly those of the pass-by-pass definition `Run` from the initial press |
| `ControlLoop.Pass` | main.cpp:117-144 | one pass of the loop body moves the frame counter, `fpsTime`, key events and reports, and asks for the `break`, exactly as one `Step` |
| `ControlLoop.RunShape` | main.cpp:114-135 | the loop makes one pass per poll, up to and including the first poll below the threshold with both hot keys down. It has stopped exactly when such a poll exists |
| `ControlLoop.RunKeys` | main.cpp:112-135 | the key events are the initial press, one release-press cycle for each threshold hit before the stopping poll, and one final release if the loop stopped |
| `ControlLoop.KeyTrace` | main.cpp:112-135 | presses and releases alternate, starting with a press. The last event is a release exactly when the loop was left, so the key is never left held after Ctrl_L+S |
| `ControlLoop.Session` | main.cpp:131-135 | the loop is left exactly when some poll is below the threshold with Ctrl_L and S both down in that same poll |
| `ControlLoop.ZeroThresholdNeverStops` | main.cpp:118-135 | with an argument of 0 the loop is never left: every pass hits the threshold and skips the hot-key test |
| `ControlLoop.HotkeyNeedsBoth` | main.cpp:131 | Ctrl_L alone, or S alone, never stops the loop |
| `ControlLoop.ThresholdBeforeHotkey` | main.cpp:118-131 | a pass at or above the threshold releases and presses again, resets the counter and the frame-rate clock, and never stops, whatever the keys |
| `ControlLoop.NothingAfterStop` | main.cpp:135 | once the loop has been left, later polls change nothing |
| `ControlLoop.FpsWindow` | main.cpp:137-144 | below the threshold and without the hot keys, a pass reports the frame count and progress, then resets, exactly when more than 1000 ms have passed; otherwise it only counts the frame |
| `ControlLoop.CountersKept` | main.cpp:117-143 | the frame counter stays between 0 and the number of passes made, and every report counts at least one frame; every pass keeps this |
| `ControlLoop.SessionCounters` | main.cpp:109-145 | the same bounds hold at the end of every session started by the initial press |

## Left out

- X11 calls are inputs, not calls. `XOpenDisplay`, `XDefaultRootWindow`, `XGetWindowAttributes`, `XGetImage` (`windowToMat`), `XQueryKeymap`, `XKeysymToKeycode`, `XTestFakeKeyEvent` and `XFlush` become the window tree, the polls, the keycodes in `Config` and the emitted key-event trace.
- `XFree` and `XCloseDisplay` free memory and have no modelled effect.
- The region of interest in `getProgress` is not modelled: the floating-point rectangle of lines 57-61, the crop and `cv::cvtColor`. Each poll carries the grayscale crop directly, and the crop is assumed non-empty.
- `Paint` paints gray 29 on the gray crop, where the source paints BGR (255, 0, 0) before conversion. `cv::cvtColor` works pixel by pixel, so the two orders give the same gray image.
- `std::stoi` is an abstract parameter (`stoi`). Its acceptance rules (leading whitespace, trailing characters, the `int` range) are not spelled out; `None` stands for every input on which it throws.
- The clock and the two-second `sleep_for` are not modelled. Each poll carries a clock reading in milliseconds. The source tests `duration_cast<milliseconds>(now - fpsTime)`, which truncates the elapsed time to whole milliseconds. `clock` stands for a reading whose difference from `fpsTime` is that truncated elapsed time. The cooldown is only the time that passes between polls.
- Console output other than the frame-rate report is left out. The frame-rate report is modelled as `FpsReport(frames, progress)`.
- The loop runs over a finite trace of polls instead of forever; a trace with no stopping poll models a loop still running.
- `MainLoop`: `frameCount` is an unbounded integer, so 32-bit `int` overflow is not modelled. The counter is reset at least once a second, so it does not overflow in practice.
- The case of no window titled "Guild Wars 2" is not modelled: `main` then uses window 0 unchecked.
- `findWindow` passes its own `window` variable as the parent-return argument of `XQueryTree`. That variable is not read afterwards, so the model does not represent the overwrite.
- `Keymap.KeyIsPressed`: the keymap bytes are unsigned 0..255. The source's `char` may be signed, but masking with `1 << j` for `j < 8` reads the same bit after integer promotion. `>> 3` and `& 7` on the non-negative keycode are written as `/ 8` and `% 8`, and `&` as the digit-by-digit `And`.
- The two `keyIsPressed` calls short-circuit, and they come after the threshold test: S is not queried when Ctrl_L is up, and neither is queried on a threshold hit. The model evaluates both on the poll's two keymaps before the pass. The results are pure, so the outcome is the same.
