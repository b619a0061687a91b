# KiloKilo: the screen refresh, the quit key and the cursor report

KiloKilo is a small terminal text editor in C, at an early stage. It puts the
terminal in raw mode and finds out the window size. It then repeatedly
redraws the screen and reads a key. The screen shows a column of `~` with a
centred welcome banner a third of the way down (row `rows / 3`), and Ctrl-Q
quits. There is no document, editing, search, save, prompt or status bar yet.

The model is made of these modules:

- **`AppendBuffer`** (`append_buffer.dfy`): `struct abuf` as a class with the
  block `b` and its length `len`, built by `ABUF_INIT` and grown by
  `abAppend`. Whether `realloc` succeeds is a parameter.
- **`Screen`** (`screen.dfy`): the exact bytes one refresh writes, as a pure
  function of the window height and width. Beside it is an independent
  description as screen lines joined by CR LF. Proved about it:
  - the banner geometry;
  - the number of line breaks and escape sequences;
  - the total length.
- **`Render`** (`render.dfy`): `editorDrawRows` and `editorRefreshScreen` as
  methods that fill an append buffer one fragment at a time. Each is proved
  to produce exactly the bytes that `Screen` specifies.
- **`Keys`** (`keys.dfy`): `CTRL_KEY` and the keypress dispatch.
- **`CursorReport`** (`cursor_report.dfy`): the part of `getCursorPosition`
  that does not touch the terminal:
  - the collection of the reply into a 32-byte buffer;
  - the `ESC [` check;
  - `sscanf("%d;%d")`;
  - a round trip from a terminal's Cursor Position Report back to its
    coordinates.

  The collection loop as written has no effective bound (see Findings).
  The model keeps the as-written loop and the bounded one side by side.
- **`Wrappers`** (`wrappers.dfy`): the `Option` type used for the parse
  result.
- **`Terminal`** (`terminal.dfy`): the ESC character that both the frame and
  the cursor report use.

## Model

| member | source | states |
|---|---|---|
| AppendBuffer.Buffer.Init | kilokilo.c:120-127 | the initial buffer holds no bytes and has length 0 |
| AppendBuffer.Buffer.Append | kilokilo.c:129-137 | on a successful allocation the first `n` bytes of `s` are appended after the old contents and the length grows by `n`; on a failed allocation the buffer is unchanged; the length always equals the block's size |
| Screen.BannerLen | kilokilo.c:149-153 | the banner is shown in full, or cut to exactly the width, never longer than either |
| Screen.Padding | kilokilo.c:154 | the left padding is half the width left over by the banner, rounded down |
| Screen.PadPrefix | kilokilo.c:155-160 | a padding of `p` occupies exactly `p` columns |
| Screen.WelcomeRow | kilokilo.c:148-161 | the welcome row never exceeds the window width |
| Screen.WelcomeRowShape | kilokilo.c:148-161 | the banner is 32 characters, cut to `min(cols, 32)`; it is preceded by `(cols - shown) / 2` columns of padding, `~` first and spaces after; the slack on the right is the padding or one more |
| Screen.RowText | kilokilo.c:146-164 | row `rows / 3` shows the welcome row and every other row a `~`; no row text is wider than a window that has any columns |
| Screen.Row | kilokilo.c:146-171 | a row is its text, EL, and CR LF; it ends in a line feed exactly when another row follows |
| Screen.RowsUpTo | kilokilo.c:145-172 | the first `n` rows in order, each taking at least the three bytes of its EL |
| Screen.DrawnRows | kilokilo.c:143-173 | what the row loop emits, nothing for a non-positive height; the last byte is the end of the last row's EL, with no line break after it |
| Screen.Frame | kilokilo.c:175-188 | the bytes of one refresh: hide the cursor and home it, the drawn rows, then home it and show it; at least 18 bytes, starting with the hide and ending with the show |
| Screen.Lines | kilokilo.c:143-172 | one screen line per row, none for a non-positive height |
| Screen.RowsUpToJoined | kilokilo.c:145-172 | the first `n` rows emitted are the first `n` screen lines joined by CR LF, followed by one more CR LF unless the last row has been drawn |
| Screen.DrawnRowsAreJoinedLines | kilokilo.c:143-173 | the row loop emits exactly the screen lines joined by CR LF; every line other than row `rows / 3` is `~` plus EL, and that row is the welcome row plus EL |
| Screen.BannerIsPrintable | kilokilo.c:148-161 | the welcome row holds only printable characters: no escape and no line break |
| Screen.LineCounts | kilokilo.c:146-168 | each screen line holds no CR and exactly one ESC |
| Screen.JoinCounts | kilokilo.c:169-171 | joining `k` such lines adds `k - 1` CRs and no ESC |
| Screen.DrawnRowsCounts | kilokilo.c:143-173 | the drawn rows hold `rows - 1` CRs and `rows` ESCs (none of either for a non-positive height) |
| Screen.FrameEscapeCount | kilokilo.c:175-186 | a frame holds exactly four escape sequences more than its rows: hide, home, home, show |
| Screen.RowLength | kilokilo.c:146-171 | a row is its text, three bytes of EL, and two bytes of CR LF unless it is the last |
| Screen.RowsUpToLength | kilokilo.c:145-172 | closed form of the length of the first `n` rows |
| Screen.FrameLength | kilokilo.c:143-190 | the drawn rows are `6 * rows - 3` bytes plus the welcome row's width; the frame adds 18 bytes of cursor control |
| Render.DrawPadding | kilokilo.c:154-160 | the `if (padding)` tilde followed by the `while (padding--)` countdown appends exactly the padding prefix |
| Render.DrawWelcome | kilokilo.c:148-161 | the welcome branch appends exactly the welcome row for the width |
| Render.DrawRow | kilokilo.c:146-171 | one loop pass appends exactly row `y`: its text, EL, and CR LF unless last |
| Render.DrawRows | kilokilo.c:143-173 | `editorDrawRows` appends exactly the drawn rows of the specification; the loop invariant is that the buffer holds the first `y` rows |
| Render.RefreshScreen | kilokilo.c:175-190 | the single write of `editorRefreshScreen` sends exactly the specified frame |
| Keys.CtrlKey | kilokilo.c:15 | the Ctrl chord keeps the key's low five bits: the result is below 0x20, equals the key modulo 32, and leaves a control byte unchanged |
| Keys.CtrlKeyIgnoresCase | kilokilo.c:15 | a lower-case letter and its upper-case form give the same chord, numbered 1 to 26 |
| Keys.ProcessKeypress | kilokilo.c:192-202 | a key quits if and only if it is byte 0x11 |
| Keys.QuitOnlyOnCtrlQ | kilokilo.c:195-201 | quitting happens exactly on Ctrl-q, equally reached as Ctrl-Q; no printable byte quits; the quit byte is a fixed point of the chord |
| CursorReport.CollectUnbounded | kilokilo.c:84-90 | the loop as written collects a prefix of the reply without `R` and stops only at the end of the reply or at an `R` |
| CursorReport.UnboundedCollectOverruns | kilokilo.c:84-91 | a reply of 32 bytes or more without `R` makes the loop as written store 32 bytes or more into the 32-byte buffer |
| CursorReport.OverrunWitness | kilokilo.c:84-91 | 32 digits with no `R` are all stored, so the terminator goes to index 32 |
| CursorReport.CollectAtMost | kilokilo.c:84-90 | the bounded loop collects a prefix without `R`, no longer than the limit, stopping at the end, the limit or an `R` |
| CursorReport.Collect | kilokilo.c:76-91 | the collected reply always leaves room for the terminator in the 32-byte buffer |
| CursorReport.CollectAtMostIs | kilokilo.c:84-90 | any `R`-free prefix that ends at one of the three stopping points is the collected reply |
| CursorReport.BoundAgreesWhenReplyFits | kilokilo.c:84-90 | when the reply fits, the bounded loop and the loop as written collect the same bytes |
| CursorReport.IsSpace | kilokilo.c:95 | the six characters of C's `isspace` in the "C" locale, none of which can begin a number |
| CursorReport.SkipSpace | kilokilo.c:95 | `%d` drops a prefix made only of white space and keeps the rest of the text, which does not start with white space |
| CursorReport.DigitRun | kilokilo.c:95 | `%d` reads digits exactly as far as they run |
| CursorReport.ScanDigits | kilokilo.c:95 | digits are read exactly when the text starts with a digit; what remains is a proper suffix that does not start with a digit |
| CursorReport.ScanSigned | kilokilo.c:95 | after white space, `%d` succeeds exactly when the text starts with a digit, or with a sign and then a digit; the rest does not start with a digit; a negative value comes only from a leading `-` |
| CursorReport.ScanInt | kilokilo.c:95 | `%d` succeeds exactly when, after its white space, the text starts with a digit or with a sign and a digit; it then consumes at least one character, and the rest does not start with a digit |
| CursorReport.ScanRowCol | kilokilo.c:95 | `%d;%d` succeeds only if its first `%d` succeeds and is followed straight away by `;` and a second successful `%d`; the row and the column are the two values read |
| CursorReport.CString | kilokilo.c:91-95 | the string `sscanf` sees is the buffer's prefix before the first NUL |
| CursorReport.CStringStopsAtNul | kilokilo.c:91-95 | whatever follows the stored terminator is invisible to the parse |
| CursorReport.TerminatedText | kilokilo.c:91-95 | the text `sscanf` reads from `&buf[2]` after the terminator is stored is the collected reply after its first two bytes, up to any NUL in it |
| CursorReport.ParseReply | kilokilo.c:93-96 | a reply is accepted only if it starts with `ESC [` |
| CursorReport.GetCursorPosition | kilokilo.c:75-99 | after the status query the result is no position if the query was not fully written; otherwise the reply is read byte by byte into a 32-element array, NUL-terminated, and the array from index 2 is scanned; the result is proved equal to the parse of the collected reply |
| CursorReport.Decimal | kilokilo.c:79-80 | a number in a report is a non-empty run of decimal digits |
| CursorReport.DecimalValue | kilokilo.c:79-80 | the digits of a number read back to that number |
| CursorReport.ScanIntDigits | kilokilo.c:95 | `%d` reads back a digit run and stops at the first non-digit |
| CursorReport.ScanIntUnsigned | kilokilo.c:95 | text starting with a digit is read with no skip and no sign |
| CursorReport.ScanIntSkipsSpace | kilokilo.c:95 | a leading white-space character does not change what `%d` reads |
| CursorReport.ScanIntSigned | kilokilo.c:95 | a `-` negates the value that follows and a `+` keeps it |
| CursorReport.ScanRowColDigits | kilokilo.c:95 | `%d;%d` reads back two digit runs around a `;` |
| CursorReport.ReportBodyPlain | kilokilo.c:79-88 | a report holds no `R` before its last byte and no NUL in its parameters |
| CursorReport.CollectReport | kilokilo.c:79-90 | the collected reply to a report that fits is the report up to its `R`, whatever follows |
| CursorReport.ParseReportBody | kilokilo.c:93-96 | the body of a report passes the `ESC [` check and scans to its row and column |
| CursorReport.ReportRoundTrip | kilokilo.c:79-98 | a report of at most 32 bytes is parsed back to the row and column it carries |

## Left out

- Raw mode (`enableRowMode`, `disableRowMode`, `atexit`): terminal attributes are operating-system state. The code clears `CS8` where raw mode usually sets it; that is not modelled either.
- `die`, `perror` and `exit`: process termination is not modelled.
- `editorReadKey`: the retry loop over `read` with its `EAGAIN` handling is I/O. `ProcessKeypress` takes the byte it would return.
- `getWindowSize`: the `ioctl` query and its fallback (move the cursor far right and down, then ask for its position) are I/O. The window extents are parameters of `Render`, and the fallback's parse is `CursorReport`.
- `main` and `initEditor`: the refresh and keypress loop is not modelled.
- `abFree` and the final `write`: releasing memory is not modelled. The write is the value `RefreshScreen` returns.
- `Keys.ProcessKeypress`: the screen clear (`ESC [2J`, `ESC [H`) and `exit(0)` on quit are not modelled. Quitting is the `Quit` action.
- `Render.DrawRows`, `Render.DrawRow`, `Render.DrawWelcome`, `Render.DrawPadding` and `Render.RefreshScreen` always pass a successful allocation to `Append`. The frame a failed `realloc` would leave is not modelled; `Append` itself models that case.
- `Render.DrawRows` and the other `Render` methods require a non-negative width. With a negative width the banner length goes negative and is passed to `abAppend` as the length. What happens then depends on the buffer's length. If the old length plus the negative length is still non-negative, `realloc` shrinks the block and `memcpy` receives the negative length converted to a huge size, which is undefined behaviour. If the sum is negative, `realloc` is asked for a huge size, fails, and the banner is skipped.
- `AppendBuffer.Buffer.Append`: `len` is an unbounded integer, so an `int` overflow of the length is not modelled. The NULL initial block is modelled as an empty sequence.
- `CursorReport.ScanInt`: values outside the range of `int` are read as unbounded integers. C leaves that case undefined.
- `CursorReport.GetCursorPosition`: `sscanf` may store the row even when it then fails on the column. Only the success or failure of the call is modelled, not the partial write to `*row`.
- `CursorReport.GetCursorPosition`: a failed `read` and the end of the terminal's answer are the same in the model. Both end the reply, as both end the loop in the code.
- `CursorReport.GetCursorPosition` follows the bounded loop (`Collect`). The loop as written is `CollectUnbounded`, see Findings.

## Findings

| source | as written | input that shows it | evidently intended | confidence | as-written member | corrected member |
|---|---|---|---|---|---|---|
| kilokilo.c:84 | `while (1 < sizeof(buf) - 1)` compares two constants, so the condition is always true and nothing bounds `i` | a reply of 32 bytes without `R`, such as 32 `1` characters: all 32 are stored, and the terminator then goes to `buf[32]`, past the end of the 32-byte buffer | `while (i < sizeof(buf) - 1)`: at most 31 bytes stored, leaving room for the terminator | not executed | CursorReport.OverrunWitness | CursorReport.BoundAgreesWhenReplyFits |
