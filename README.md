# bt-type: the typing session, in Dafny

bt-type is a terminal typing trainer. `create_game` reads a text file into a
byte buffer with two cursors: `curser`, up to which the text has been printed,
and `active_curser`, up to which it has been judged. The main loop then repeats
two steps until `curser` reaches the end of the text:

1. `line_print` prints from `curser` and moves it up to the next newline, which
   it does not print yet.
2. For every byte it has just revealed, one keystroke is read with `getchar`.
   The reference byte is echoed in green when the keystroke equals it and in
   red otherwise.

This project models that core:

- `bytes.dfy` (module `Bytes`): the text bytes and `getchar`'s results.
- `text_scan.dfy` (module `TextScan`): the scan of `line_print` as a function,
  its declarative characterisation, and how it relates to the first NUL of the
  text.
- `feedback.dfy` (module `Feedback`): the green/red verdict and the echoes of a
  stretch of judged positions.
- `session.dfy` (module `Session`): a whole session, described by the positions
  the cursor stops at, one per round.
- `game.dfy` (module `Game`): `struct bt` as a class with its cursors,
  `line_print` and the judging loop as methods, and the main loop as `Play`.
  Each method is proved against the functions above.
- `as_written.dfy` (module `AsWritten`): two places where the code does not do
  what it evidently means to, modelled as written (see "## Findings").

A file may contain a NUL byte before its end. There `line_print` makes no
progress, and the loop of `main` never ends, and it reads no more input. The
model's `Play` returns `Stalled(p)` at that point, where `p` is the position of
the first NUL.

## Model

| member | source | states |
|---|---|---|
| TextScan.LineEnd | main.c:98-111 | the scan of `line_print` stays within the buffer and advances whenever it does not start on a NUL or at the end |
| TextScan.LineEndStops | main.c:100-110 | the scan passes no NUL and no newline other than one at its start, and stops at the end of the buffer, at a NUL, or in front of a newline |
| TextScan.LineEndCharacterized | main.c:100-110 | a position satisfies that description if and only if it is where the scan stops |
| TextScan.FirstNul | main.c:100 | the first NUL at or after a position, or the end of the buffer |
| TextScan.FirstNulIsFirst | main.c:100 | no byte before the first NUL is a NUL |
| TextScan.LineEndBeforeNul | main.c:100-110 | a scan never passes the first NUL; it stays put exactly when it starts on the first NUL; it does not move the first NUL ahead of it |
| TextScan.FirstNulAfter | main.c:100-104 | advancing over non-NUL bytes leaves the first NUL ahead unchanged |
| Feedback.Matches | main.c:147 | the comparison of a keystroke with a text byte, taken as unsigned values: a match is never end of input, and EOF matches no byte |
| Feedback.KeyAt | main.c:145 | the keystroke `getchar` returns for a position of the input stream is EOF exactly when the stream has run out, and otherwise the byte at that position |
| Feedback.Verdict | main.c:147-154 | the echo always shows the reference byte, green exactly when the keystroke equals it; EOF is always red |
| Feedback.Echo | main.c:143-155 | judging a stretch yields one echo per position |
| Feedback.EchoMeaning | main.c:143-155 | the j-th echo shows the j-th reference byte, green exactly when the j-th keystroke (EOF once input has run out) equals it |
| Feedback.EchoSplit | main.c:143-155 | judging two adjacent stretches one after the other, each with the keystrokes that follow, is the same as judging them in one go |
| Feedback.AllGreenIffTypedExactly | main.c:143-155 | a stretch is all green if and only if the keystrokes spell it out exactly, with no slip and without running out of input |
| Feedback.TypingTheTextIsAllGreen | main.c:145-149 | typing the text itself makes every position green |
| Session.Stops | main.c:138-156 | a session has at most one round per byte ahead of the cursor |
| Session.StopsAreScans | main.c:138-140 | each stop lies strictly past the previous one (or past the start) and is where `line_print` from there stops |
| Session.StopsEndAtNul | main.c:100-138 | no stop passes the first NUL; the last stop is the first NUL or the end of the text; a session has no round exactly when it starts there |
| Session.StopsAreLines | main.c:100-110 | every round passes no NUL and no newline except its first byte; every stop but the last stands on a newline |
| Session.NextRound | main.c:138-156 | one more round extends the stops by its stop, the printed text by its stretch, and the echoes by the echoes of that stretch |
| Game.Game.Valid | main.c:43-51 | the invariant of `struct bt`: `active_curser <= curser <= size`, with `size` the buffer's length; every method and every pass of the main loop keeps it |
| Game.Input.GetChar | main.c:145 | `getchar` yields the next byte of standard input, or EOF once input has run out, and consumes one position |
| Game.Game.constructor | main.c:89-92 | a new game holds the file's bytes, with `size` their count and both cursors at 0 |
| Game.Game.LinePrint | main.c:98-111 | `line_print` moves `curser` to where the line scan stops and prints exactly the bytes it passed |
| Game.Game.Judge | main.c:143-155 | the judging loop consumes one keystroke per revealed position, echoes those positions as `Echo` says, and leaves `active_curser` equal to `curser` |
| Game.Game.Turn | main.c:139-155 | one pass of the main loop prints the next stretch and judges exactly that stretch |
| Game.Play | main.c:138-156 | the session ends at the first NUL (Completed when that is the end of the text, Stalled otherwise); its stops are `Stops`; it printed every byte up to there exactly once and in order; it consumed one keystroke per byte; it echoed them as `Echo` says |
| AsWritten.ScanAsWritten | main.c:100-110 | the scan without the bound on `size` stops at a NUL or in front of a newline somewhere in memory, passing no NUL before it |
| AsWritten.ScanOverrunsBuffer | main.c:100-106 | for the one-byte text "a", the scan as written moves the cursor past `size` when the memory after it holds 'x' and a NUL, while the bounded scan stops at `size`; when that memory starts with a newline, the scan as written stops at `size` too |
| AsWritten.ScanAsWrittenWithTerminator | main.c:100-110 | when a NUL follows the buffer, the scan as written stops where the bounded scan does |
| AsWritten.SignedChar | main.c:48 | a byte read as a signed `char` lies in -128..127 and keeps its value exactly when it is ASCII |
| AsWritten.MatchesAsWritten | main.c:145-147 | comparing `getchar`'s `int` with a signed `char` agrees with the byte comparison on ASCII bytes; on any other byte it holds only for EOF against 0xFF |
| AsWritten.SignednessMisjudges | main.c:147 | the byte 0xC3, typed correctly, is judged wrong, and EOF against the byte 0xFF is judged right |

## Left out

- File I/O in `create_game` (main.c:59-88, main.c:92-95) is not modelled: `fopen`, `fseek`, `ftell`, `fread`, `fclose` and their failure messages. `Game.Game.constructor` takes the file's bytes directly, and a short read or an `ftell` failure is not modelled.
- `malloc` failure and `free_game` (main.c:53-57) are not modelled, because Dafny allocation does not fail and memory is not freed explicitly.
- The `state` array (main.c:49, main.c:80) is left out: it is allocated but never read or written.
- The argument check and error exits of `main` (main.c:120-133) are left out, because they are command-line handling.
- Raw terminal mode (`enable_raw_mode`, `restore_mode`, main.c:135-136) is left out, because it is terminal configuration.
- `printf`, `fflush`, the `"\r"` and the colour escapes are not emitted. The model returns the bytes printed and the echoes (byte and colour) instead of writing them.
- Game.Play: where the source spins forever at a NUL byte, the model stops with `Stalled(p)` instead of looping.
- Game.Play: the order in which printing and judging interleave across rounds is captured only through the stops, since round i covers the text between stop i-1 and stop i.
- Cursors are `size_t` in the source and `nat` here. In the model neither cursor passes `size`. In the source `curser` can run past `size` (see "## Findings"), but never far enough to wrap a `size_t`, so `nat` loses nothing.
- Feedback.Verdict: compares the keystroke with the byte as an unsigned value. That is the corrected comparison; the as-written one is `AsWritten.MatchesAsWritten` (see "## Findings").
- Game.Game.LinePrint: bounds the scan by `size`. That is the corrected scan; the as-written one is `AsWritten.ScanAsWritten` (see "## Findings").

## Findings

| source | as written | input that shows it | evidently intended | confidence | as-written member | corrected member |
|---|---|---|---|---|---|---|
| main.c:100-106 | `line_print` reads `txt[curser]` without testing `curser < size`. The buffer holds exactly `size` bytes and has no terminator, so the last byte of every stretch that reaches the end is followed by a read of `txt[size]`. If that memory is neither NUL nor a newline, the cursor goes past `size`, and the loop `curser != size` at main.c:138 no longer ends at the end of the text. | the file "a", with the byte after the buffer being 'x' followed by a NUL: the cursor ends at 2, past `size` = 1 | the scan stops at the end of the buffer | high; not executed | AsWritten.ScanAsWritten, AsWritten.ScanOverrunsBuffer | TextScan.LineEnd, TextScan.LineEndStops |
| main.c:145-147 | The `int` returned by `getchar` (0..255 or EOF) is compared with the plain `char` of the text. Where `char` is signed (as on x86-64 Linux), every byte from 0x80 on reads as negative. | the byte 0xC3 (start of a UTF-8 "é") typed correctly is echoed red; at end of input, EOF against the byte 0xFF is echoed green | compare the keystroke with the byte as an unsigned value | medium, because it depends on `char` being signed; not executed | AsWritten.MatchesAsWritten, AsWritten.SignednessMisjudges | Feedback.Verdict |
