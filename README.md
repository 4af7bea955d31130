# term-timer in Dafny

A model of `timer.cpp`, the whole of term-timer: a terminal countdown timer
that asks for a duration as `HH:MM:SS`, counts it down once per second on a
full-screen ncurses display, flashes when the time is up, and waits for a key.

The model has five modules:

- `CppInt` — the C++ integer behaviour the program relies on. `int` is 32
  bits wide and `std::size_t` 64 bits wide. C++ `/` truncates toward zero.
  Narrowing an unsigned value to `int` keeps its low 32 bits. Signed
  overflow is undefined in C++; the model assumes it wraps the same way, as
  common compilers do.
- `Decimal` — decimal numerals. It covers `std::stoi` on a run of digits and
  `operator<<` of a non-negative number under `std::setfill('0') << std::setw(2)`.
- `Duration` — the duration parser of `getTimeInput` (the `(\d+):(\d+):(\d+)`
  match, the `stoi` calls and the total in seconds) and the formatter
  `getRemainingTime`, including its sentinel text "Countdown finished".
- `Screen` — the row and column arithmetic of `centerText`, and where the
  "Invalid input" message is placed.
- `Countdown` — the `displayTimer` loop as a state machine over the flags
  `endtimer`, `flashBackground` and `shouldExit`. The class `Timer` holds the
  fields `countdownLength` and `shouldExit` and has these methods:
  `GetTimeInput`, `DisplayTimer` (with its loop body `DrawPass`),
  `GetRemainingTime` and `Start`.

Everything outside the program becomes input:

- The clock is a sequence of observations. Each observation gives the whole
  seconds elapsed since the start, whether `kbhit` finds a key waiting, and
  the screen size `LINES`×`COLS`.
- The typed lines are a sequence of strings.
- What the program draws is collected as frames. A frame records the texts
  placed with their row and column, and whether reverse video was switched
  on for it.

`DisplayTimer` is proved against the function `Countdown.Display`. Its loop
invariant is stated through the tail-recursive `Countdown.Loop`. The
properties of the loop are lemmas about `Countdown.Run`, which is the
specification of the loop.

## Model

| member | source | states |
|---|---|---|
| CppInt.TruncDiv | timer.cpp:118 | C++ `/` on `int`, rounding toward zero; used by `Screen.Row`, whose lemma `Screen.RowCentered` states the row it gives |
| CppInt.ToInt32 | timer.cpp:122 | a value stored in an `int` lies in [-2^31, 2^31), and every value in that range is stored unchanged |
| CppInt.ToInt32Wraps | timer.cpp:122 | the stored value differs from the true one by a whole multiple of 2^32, so it keeps the low 32 bits |
| Decimal.Value | timer.cpp:147-149 | `std::stoi` on a digit run; `Decimal.ValueShow`, `Decimal.ValueLeadingZeros` and `Decimal.ZeroPadNumeral` state its properties |
| Decimal.Show | timer.cpp:104-107 | `operator<<` of a non-negative number; `Decimal.ShowNumeral` and `Decimal.ValueShow` state what it writes |
| Decimal.ZeroPad | timer.cpp:105-107 | `setfill('0') << setw(width)`; its result is `max(width, length)` long, and `Decimal.ZeroPadNumeral` states it keeps the value |
| Decimal.ShowNumeral | timer.cpp:104-107 | `operator<<` writes a non-empty run of digits with no leading zero (it starts with '0' only for 0); it is one digit exactly below 10 and at most two below 100 |
| Decimal.ValueShow | timer.cpp:104-107 | reading back a written number with `stoi` gives the number |
| Decimal.ValueLeadingZeros | timer.cpp:147-149 | leading zeros do not change the value `stoi` reads |
| Decimal.ZeroPadNumeral | timer.cpp:105-107 | padding with '0' to width 2 keeps a numeral a numeral and keeps its value |
| Duration.ParseDuration | timer.cpp:142-153 | one attempt of `getTimeInput`: the pattern check, the three `stoi` calls, the guard and the total; `Duration.ParseAcceptsExactlyPattern`, `Duration.ParseValue`, `Duration.ParseFields` and the `ParseRejects` lemmas state what it accepts and the value it gives |
| Duration.Clock | timer.cpp:104-107 | the three fields, each padded to two digits, joined by ':'; `Duration.ClockRoundTrip` and `Duration.ClockShape` state its properties |
| Duration.RemainingTime | timer.cpp:93-110 | `getRemainingTime`; `Duration.FinishedIff`, `Duration.RemainingTimeFields`, `Duration.RemainingTimeWidth` and `Duration.RoundTrip` state its properties |
| Duration.HoursMinutesSeconds | timer.cpp:100-102 | the hours, minutes and seconds recombine to the remainder as h*3600+m*60+s, with minutes and seconds below 60 |
| Duration.FinishedIff | timer.cpp:94-98 | the text is the sentinel "Countdown finished" exactly when the remaining time is <= 0 |
| Duration.RemainingTimeFields | timer.cpp:100-107 | a positive remainder is written as three colon-separated numerals: hours of at least two digits, with no leading zero once they take three or more, then exactly two-digit minutes and seconds below 60; their values recombine to the remainder |
| Duration.RemainingTimeWidth | timer.cpp:104-107 | below 100 hours the text is exactly 8 characters: digits with colons at positions 2 and 5 |
| Duration.ClockShape | timer.cpp:104-107 | three numbers below 100 make an 8-character `HH:MM:SS` clock |
| Duration.TwoDigits | timer.cpp:105-107 | a number below 100 is written as exactly two digits |
| Duration.PadOneDigit | timer.cpp:105-107 | a number below 10 is written as '0' followed by its digit |
| Duration.ClockOneDigit | timer.cpp:104-107 | three numbers below 10 make the clock `0h:0m:0s` |
| Duration.RemainingTimeUnderTen | timer.cpp:93-110 | with under ten seconds left, the text is `00:00:0` followed by the digit |
| Duration.RemainingTimeExamples | timer.cpp:93-110 | concrete values: 10 s after 9 s gives "00:00:01"; after 10 s or 11 s it gives the sentinel; 3661 s from the start gives "01:01:01" |
| Duration.ClockRoundTrip | timer.cpp:100-107 | parsing a zero-padded clock gives back h*3600+m*60+s |
| Duration.RoundTrip | timer.cpp:93-110 | parsing the text of a positive remainder gives back the remainder |
| Duration.ParseAcceptsExactlyPattern | timer.cpp:142-146 | a line is accepted if and only if the whole line matches `\d+:\d+:\d+`; the non-negativity guard never rejects a matching line |
| Duration.ParseFields | timer.cpp:146-152 | every line `h:m:s` made of digit runs is accepted with the value stoi(h)*3600 + stoi(m)*60 + stoi(s) |
| Duration.ParseValue | timer.cpp:146-152 | an accepted line consists of three digit runs, and its value is their weighted sum |
| Duration.ParseIgnoresLeadingZeros | timer.cpp:147-149 | leading zeros in any field do not change the duration read |
| Duration.ParseShown | timer.cpp:146-152 | unpadded `h:m:s` is read as h*3600+m*60+s, for all h, m and s |
| Duration.ParseRejectsOneField | timer.cpp:142-146 | "abc" and "" are rejected |
| Duration.ParseRejectsTwoFields | timer.cpp:142-146 | "12:34" is rejected |
| Duration.ParseRejectsFourFields | timer.cpp:142-146 | "1:2:3:4" is rejected |
| Duration.ParseRejectsBadFields | timer.cpp:142-146 | three colon-free fields are rejected if any of them is not a non-empty digit run |
| Duration.ParseRejectsEmptyField | timer.cpp:142-146 | "1::3" is rejected |
| Duration.ParseRejectsSign | timer.cpp:142-146 | "+1:2:3" is rejected, although `stoi` alone would accept the sign |
| Duration.ParseRejectsSpaces | timer.cpp:142-146 | leading or trailing spaces are rejected |
| Duration.JoinSplit | timer.cpp:142-146 | cutting a line at its colons and joining the pieces back gives the line (the basis for modelling the regex match) |
| Duration.SplitJoin3 | timer.cpp:142-146 | three colon-free fields joined by ':' split back into exactly those fields |
| Duration.TotalAsWritten | timer.cpp:152 | the total as computed in 32-bit `int`: always in the `int` range, and exact when the true total fits |
| Duration.OverflowingHours | timer.cpp:147-152 | for 596524 <= h <= 1193046, "h:00:00" is accepted for h*3600 s, but as written the total wraps to a negative value and the countdown is over at once |
| Screen.Row | timer.cpp:115-121 | the row of `centerText`; `Screen.RowCentered` states it |
| Screen.Column | timer.cpp:122 | the column of `centerText`, with the unsigned subtraction and the narrowing to `int`; `Screen.ColumnCentered` and `Screen.ColumnOverhang` state it |
| Screen.CenterText | timer.cpp:112-124 | where `centerText` places a text; `Screen.CenterTextCentered` states it |
| Screen.RowCentered | timer.cpp:115-119 | row 0 for "top"; otherwise the middle row (LINES-1)/2, which splits the rows above and below evenly, up to one |
| Screen.ColumnCentered | timer.cpp:122 | a text that fits starts at (COLS-length)/2, with free columns left and right differing by at most one |
| Screen.ColumnOverhang | timer.cpp:122 | a text wider than the screen wraps the unsigned subtraction, so the column is negative: half the overhang, rounded up |
| Screen.CenterTextCentered | timer.cpp:112-124 | a text that fits is placed centred on the row its position selects |
| Screen.InvalidInputAsWritten | timer.cpp:157 | as written, "Invalid input" goes to row LINES, which is outside the screen |
| Screen.InvalidInput | timer.cpp:157 | corrected: "Invalid input" goes to column 0 of the last row, LINES-1, which is on the screen |
| Countdown.ReadAll | timer.cpp:47-50 | one pass is read per observation |
| Countdown.ReadAllAt | timer.cpp:47-50 | pass i is read from observation i: the remaining-time text, the key poll and the screen size |
| Countdown.Run | timer.cpp:46-79 | at most one frame per pass; exactly one per pass unless the loop ended; no frame at all when `shouldExit` is already set |
| Countdown.LoopRun | timer.cpp:46-79 | the loop from pass i, with the frames drawn so far, appends the frames of the run over the remaining passes and ends with that run's flags |
| Countdown.ReadPass | timer.cpp:47-50 | what one pass reads; `Countdown.ReadAllAt` and `Duration.FinishedIff` state its contents |
| Countdown.Next | timer.cpp:55-78 | the flags after one pass; `Countdown.FlashTogglesOnlyWhenFinished`, `Countdown.EndtimerSticky` and `Countdown.ExitOnlyOnKeyAfterFinish` state how each flag moves |
| Countdown.Render | timer.cpp:52-65 | the frame one pass draws; `Countdown.ReverseOnlyWhenFinished` and `Countdown.RunFrames` state its contents |
| Countdown.Loop | timer.cpp:46-79 | the loop as the method runs it, pass by pass; `Countdown.LoopRun` proves it equal to `Countdown.Run` |
| Countdown.AckFrame | timer.cpp:81-85 | the closing frame: "Countdown finished. Press any key to exit." centred in the middle row |
| Countdown.Display | timer.cpp:39-91 | all of `displayTimer`; `Countdown.ClosingFrameIff` and the `Run` lemmas state its frames and flags |
| Countdown.ClosingFrameIff | timer.cpp:74-88 | from a fresh timer, the closing frame follows the loop's frames if and only if some observation finds a key waiting once some observation up to it has found no time left; otherwise only the loop's frames are drawn |
| Countdown.FirstAccepted | timer.cpp:130-161 | the value of the first line accepted; `Countdown.Timer.GetTimeInput` states that every earlier line was rejected |
| Countdown.FlashTogglesOnlyWhenFinished | timer.cpp:55-60 | `flashBackground` changes on a pass if and only if that pass finds no time left |
| Countdown.EndtimerSticky | timer.cpp:67-68 | `endtimer` after a pass holds if and only if it held before or the pass finds no time left |
| Countdown.ExitOnlyOnKeyAfterFinish | timer.cpp:74-78 | `shouldExit` after a pass holds if and only if it held before, or a key is waiting and `endtimer` holds |
| Countdown.ReverseOnlyWhenFinished | timer.cpp:55-58 | reverse video is switched on for a frame if and only if the pass finds no time left and the flash flag was set |
| Countdown.RunStopsAtFirstExit | timer.cpp:46-79 | among the frames drawn, a pass that finds a key waiting after the sentinel can only be the last one, and the last one is such a pass exactly when the loop ended |
| Countdown.RunExitsIff | timer.cpp:46-79 | the loop ends if and only if some pass finds a key waiting once the sentinel has been read |
| Countdown.ExitsAtObserved | timer.cpp:46-79 | on observations: pass i ends the loop if and only if a key is waiting at i and some observation up to i found no time left |
| Countdown.ExitImpliesFinished | timer.cpp:67-78 | when the loop has ended, `endtimer` holds |
| Countdown.EndtimerTracksClock | timer.cpp:46-72 | with a clock that never goes backwards, `endtimer` after a run says whether the last frame found no time left |
| Countdown.RunFrameAt | timer.cpp:50-65 | frame k is pass k drawn with the flags held after the first k passes |
| Countdown.FlashBefore | timer.cpp:55-60 | the flash flag before pass k is the starting flag flipped once per earlier pass that read the sentinel |
| Countdown.RunFrames | timer.cpp:50-65 | every frame shows the text of its pass in the middle row and "Timer" on the top row; it is in reverse video if and only if it reads the sentinel and the flash flag, flipped once per earlier sentinel, is set |
| Countdown.RunFlags | timer.cpp:46-79 | a run ends with the flags held after its last frame |
| Countdown.FlashParity | timer.cpp:55-60 | the flash flag after a run is its starting value flipped once per frame that read the sentinel |
| Countdown.ReverseInEffect | timer.cpp:57 | as written, `attron(A_REVERSE)` stays in effect, so one flag per frame says whether reverse video is on |
| Countdown.ReverseInEffectIff | timer.cpp:55-78 | as written, frame k is in reverse video if and only if reverse video was already on or some frame up to k switched it on |
| Countdown.ReverseStaysOn | timer.cpp:55-78 | as written, once reverse video is on it stays on for every later frame, because `attroff` is reached only on exit |
| Countdown.StuckReverse | timer.cpp:55-78 | three finished passes with no key: the loop asks for plain, reverse, plain, but as written the third frame is still in reverse video |
| Countdown.TwoSecondInput | timer.cpp:142-152 | "00:00:02" is read as 2 seconds |
| Countdown.TwoSecondPasses | timer.cpp:93-110 | observations at 0 to 4 s of a two-second countdown read "00:00:02", "00:00:01", then the sentinel |
| Countdown.TwoSecondRun | timer.cpp:46-79 | over those passes, the loop draws 00:00:02 and 00:00:01, then the sentinel plain and then reversed, and ends on the key waiting at the fourth pass |
| Countdown.TwoSecondCountdown | timer.cpp:39-91 | all of `displayTimer` for the two-second scenario: four timer frames followed by the closing "Countdown finished. Press any key to exit." frame |
| Countdown.Timer.constructor | timer.cpp:21 | `shouldExit` starts false |
| Countdown.Timer.GetTimeInput | timer.cpp:126-165 | returns the value of the first accepted line; every earlier line was rejected with one "Invalid input" message each; when no line is accepted, every line was read |
| Countdown.Timer.DisplayTimer | timer.cpp:39-91 | the frames drawn and the final `shouldExit` are those of `Display`: the loop over the observations, then the closing frame if the loop ended after the finish |
| Countdown.Timer.DrawPass | timer.cpp:47-78 | one pass draws the frame `Render` gives and moves the three flags as `Next` gives |
| Countdown.Timer.GetRemainingTime | timer.cpp:93-110 | returns the formatter's text, which is the sentinel exactly when `countdownLength - elapsed <= 0` |
| Countdown.Timer.Start | timer.cpp:23-32 | sets `countdownLength` to the first accepted duration and then runs `displayTimer` on it; changes nothing when no line is accepted |

## Left out

- Terminal output is not modelled: `initscr`/`endwin`, `curs_set`, `clear`, `box`, `refresh`, `flushinp`, the prompt text and the cursor `move` of `getTimeInput`. Frames record only the texts placed with `mvprintw` and whether reverse video was switched on.
- The `SIGTERM` handler is not modelled; it does nothing.
- The clock, `sleep_for` and `kbhit`'s `select` are not modelled. They become observations: elapsed whole seconds, a key-waiting flag and the screen size.
- The unbounded `while (!shouldExit)` loop runs over a finite sequence of observations. When the observations run out first, `DisplayTimer` returns the frames drawn so far.
- The blocking `getch` after the closing frame is not modelled; `DisplayTimer` ends with that frame. The closing frame's screen size is a parameter.
- Countdown.Timer.GetTimeInput: the source retries forever. The model reads a finite sequence of lines and returns no value when none is accepted. One screen size stands for every attempt.
- `getstr` into a 256-byte buffer is not modelled, and neither is a line longer than the buffer. Every typed line is taken whole.
- The `std::regex` engine is not modelled. The pattern is matched by cutting the line at its colons and checking each piece. `Duration.ParseAcceptsExactlyPattern` proves this equals the pattern `\d+:\d+:\d+`.
- Duration.ParseDuration: `std::stoi` throws `std::out_of_range` for a field of 2^31 or more, which ends the program. The model reads a field of any length. The 32-bit total is stated separately by `Duration.TotalAsWritten`.
- `countdownLength` is left uninitialised by the constructor in the source; the model starts it at 0. `start` always sets it before it is read.
- `elapsedSeconds` and `countdownLength - elapsedSeconds` are treated as unbounded integers: the narrowing of the clock's `long long` count to `int` and the overflow of the subtraction are not modelled.
- The `terminalHeight` argument of `centerText` is unused in the source and is dropped.
- Countdown.Timer.GetTimeInput: each rejected line is recorded as `Screen.InvalidInput`, the corrected row LINES-1, not the row LINES of the source, where ncurses draws nothing (see Findings; `Screen.InvalidInputAsWritten` states the source's placement).
- Countdown.Timer.DrawPass and Countdown.Render switch reverse video per frame, which is the corrected behaviour. The as-written attribute, which stays on, is stated by `Countdown.ReverseInEffect` (see Findings).

## Findings

| source | as written | input that shows it | evidently intended | confidence | as-written member | corrected member |
|---|---|---|---|---|---|---|
| timer.cpp:55-78 | `attron(A_REVERSE)` on every other finished frame, but `attroff` only when a key ends the loop, so reverse video stays on after the first reversed frame | three finished passes with no key waiting: frames 2 and 3 are both reversed | the background alternates between plain and reverse video once per second | not executed | Countdown.ReverseInEffect, Countdown.StuckReverse | Countdown.RunFrames |
| timer.cpp:157 | `mvprintw(LINES, 0, "Invalid input")`: row LINES is one past the last row, so the move fails and the message is never shown | any rejected line, e.g. "abc", on any screen | the message on the last row, LINES-1 | not executed | Screen.InvalidInputAsWritten | Screen.InvalidInput |
| timer.cpp:152 | `(hours * 3600) + (minutes * 60) + seconds` in 32-bit `int` overflows; this is undefined in C++, and the model assumes it wraps as common compilers do | "596524:00:00" (2147486400 s) | the countdown runs for the full duration entered | not executed; depends on the wrap-around assumption | Duration.TotalAsWritten, Duration.OverflowingHours | Duration.ParseFields |
