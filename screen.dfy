/**
 * The exact byte string one screen refresh writes to the terminal, as a
 * function of the window extents. Rows are drawn as `~` except for the
 * centred welcome banner on row `rows / 3`; every row ends with Erase in
 * Line (ECMA-48 section 8.3.41) and rows are separated by CR LF; the frame
 * is bracketed by hiding the cursor (DEC private mode 25) and moving it home
 * (CUP, ECMA-48 section 8.3.21), and by moving it home and showing it again.
 */
module Screen {
  import opened Terminal

  /** EL with no parameter: erase from the cursor to the end of the line. */
  const EraseLine: string := [Esc] + "[K"
  /** CUP with no parameters: cursor to row 1, column 1. */
  const CursorHome: string := [Esc] + "[H"
  const HideCursor: string := [Esc] + "[?25l"
  const ShowCursor: string := [Esc] + "[?25h"
  const CRLF: string := "\r\n"
  const Version: string := "0.0.1"
  const Welcome: string := "KiloKilo editor -- version " + Version

  /** Number of banner characters shown: the banner truncated to the width. */
  function BannerLen(cols: int): (n: nat)
    requires cols >= 0
    ensures n <= |Welcome| && n <= cols
    ensures n == |Welcome| || n == cols
  {
    if |Welcome| > cols then cols else |Welcome|
  }

  /** Columns left of the banner: half the slack, rounded down. */
  function Padding(cols: int): (p: nat)
    requires cols >= 0
    ensures 2 * p <= cols - BannerLen(cols) <= 2 * p + 1
  {
    (cols - BannerLen(cols)) / 2
  }

  function Spaces(n: nat): (s: string)
    ensures |s| == n && forall i :: 0 <= i < n ==> s[i] == ' '
  {
    seq(n, _ => ' ')
  }

  /** The padding: a `~` in column 0 when there is any, then spaces. */
  function PadPrefix(p: nat): (s: string)
    ensures |s| == p
  {
    if p == 0 then "" else "~" + Spaces(p - 1)
  }

  /** The text of the welcome row, without its erase and line break. */
  function WelcomeRow(cols: int): (r: string)
    requires cols >= 0
    ensures |r| <= cols
  {
    PadPrefix(Padding(cols)) + Welcome[..BannerLen(cols)]
  }

  /**
   * The welcome row is the banner cut to `min(32, cols)` characters,
   * preceded by half the remaining width (rounded down) of padding whose
   * first character is `~` and whose others are spaces; the space left on
   * the right is the padding or one more.
   */
  lemma {:induction false} WelcomeRowShape(cols: int)
    requires cols >= 0
    ensures var r := WelcomeRow(cols);
      && |Welcome| == 32
      && BannerLen(cols) == (if cols < 32 then cols else 32)
      && Padding(cols) == (cols - BannerLen(cols)) / 2
      && |r| == Padding(cols) + BannerLen(cols)
      && Padding(cols) <= cols - |r| <= Padding(cols) + 1
      && (Padding(cols) > 0 ==> r[0] == '~')
      && (forall i :: 0 < i < Padding(cols) ==> r[i] == ' ')
      && r[Padding(cols)..] == Welcome[..BannerLen(cols)]
  {
    var r := WelcomeRow(cols);
    var p := Padding(cols);
    assert r[..p] == PadPrefix(p);
    forall i | 0 < i < p ensures r[i] == ' ' {
      assert r[i] == PadPrefix(p)[i] == Spaces(p - 1)[i - 1];
    }
  }

  /**
   * What row `y` shows: the banner on row `rows / 3`, a tilde elsewhere.
   * No row text is wider than a window that has any columns.
   */
  function RowText(rows: int, cols: int, y: int): (t: string)
    requires cols >= 0
    ensures 0 < cols ==> |t| <= cols
  {
    if y == rows / 3 then WelcomeRow(cols) else "~"
  }

  /**
   * Row `y` as emitted: its text, EL, and CR LF unless it is the last. The
   * row ends in a line feed exactly when a further row follows.
   */
  function Row(rows: int, cols: int, y: int): (r: string)
    requires cols >= 0
    ensures |r| >= 3 && (r[|r| - 1] == '\n' <==> y < rows - 1)
  {
    RowText(rows, cols, y) + EraseLine + (if y < rows - 1 then CRLF else "")
  }

  /** The first `n` rows, in order; every row takes at least its EL. */
  function RowsUpTo(rows: int, cols: int, n: nat): (s: string)
    requires cols >= 0
    ensures |s| >= 3 * n
  {
    if n == 0 then "" else RowsUpTo(rows, cols, n - 1) + Row(rows, cols, n - 1)
  }

  /**
   * Everything the row loop emits; nothing for a non-positive height. The
   * last byte is the final of the last row's EL: no line break follows the
   * last row, so the screen does not scroll.
   */
  function DrawnRows(rows: int, cols: int): (d: string)
    requires cols >= 0
    ensures rows > 0 ==> |d| >= 3 && d[|d| - 1] == 'K'
  {
    if rows <= 0 then "" else RowsUpTo(rows, cols, rows)
  }

  /**
   * The whole frame of one refresh: the cursor is hidden before anything
   * else and shown again after everything else.
   */
  function Frame(rows: int, cols: int): (f: string)
    requires cols >= 0
    ensures |f| >= 18
    ensures f[..|HideCursor|] == HideCursor && f[|f| - |ShowCursor|..] == ShowCursor
  {
    HideCursor + CursorHome + DrawnRows(rows, cols) + CursorHome + ShowCursor
  }

  // ---------------------------------------------------------------------
  // An independent description: one line per screen row, joined by CR LF.

  function Lines(rows: int, cols: int): (ls: seq<string>)
    requires cols >= 0
    ensures |ls| == if rows <= 0 then 0 else rows
  {
    seq(if rows <= 0 then 0 else rows, y => RowText(rows, cols, y) + EraseLine)
  }

  function JoinCRLF(ls: seq<string>): string
  {
    if |ls| == 0 then ""
    else if |ls| == 1 then ls[0]
    else JoinCRLF(ls[..|ls| - 1]) + CRLF + ls[|ls| - 1]
  }

  lemma {:induction false} Assoc(a: string, b: string, c: string)
    ensures (a + b) + c == a + (b + c)
  {
  }

  lemma {:induction false} JoinStep(ls: seq<string>, n: nat)
    requires 2 <= n <= |ls|
    ensures JoinCRLF(ls[..n]) == JoinCRLF(ls[..n - 1]) + CRLF + ls[n - 1]
  {
    assert ls[..n][..n - 1] == ls[..n - 1];
  }

  lemma {:induction false} RowIsLine(rows: int, cols: int, y: nat)
    requires cols >= 0 && y < rows
    ensures Row(rows, cols, y) == Lines(rows, cols)[y] + (if y < rows - 1 then CRLF else "")
  {
  }

  lemma {:induction false} RowsUpToJoined(rows: int, cols: int, n: nat)
    requires cols >= 0 && n <= rows
    ensures RowsUpTo(rows, cols, n)
         == JoinCRLF(Lines(rows, cols)[..n]) + (if 0 < n < rows then CRLF else "")
  {
    var ls := Lines(rows, cols);
    if n > 1 {
      RowsUpToJoined(rows, cols, n - 1);
      JoinStep(ls, n);
      RowIsLine(rows, cols, n - 1);
      var before := JoinCRLF(ls[..n - 1]);
      var line := ls[n - 1];
      var tail := if n < rows then CRLF else "";
      assert RowsUpTo(rows, cols, n - 1) == before + CRLF;
      assert Row(rows, cols, n - 1) == line + tail;
      Assoc(before + CRLF, line, tail);
    } else if n == 1 {
      RowIsLine(rows, cols, 0);
      assert ls[..1] == [ls[0]];
    }
  }

  /**
   * The row loop emits exactly `rows` lines, each being its row text
   * followed by EL, with CR LF between consecutive lines and none after the
   * last.
   */
  lemma {:induction false} DrawnRowsAreJoinedLines(rows: int, cols: int)
    requires cols >= 0
    ensures DrawnRows(rows, cols) == JoinCRLF(Lines(rows, cols))
    ensures forall y :: 0 <= y < rows && y != rows / 3 ==> Lines(rows, cols)[y] == "~" + EraseLine
    ensures rows > 0 ==> Lines(rows, cols)[rows / 3] == WelcomeRow(cols) + EraseLine
  {
    if rows > 0 {
      RowsUpToJoined(rows, cols, rows);
      assert Lines(rows, cols)[..rows] == Lines(rows, cols);
    }
  }

  // ---------------------------------------------------------------------
  // Counting properties of the drawn rows.

  /** A character a terminal displays as one glyph (ASCII space to tilde). */
  predicate Printable(c: char)
  {
    ' ' <= c <= '~'
  }

  /** The welcome row is plain printable text: no escape, no line break. */
  lemma {:induction false} BannerIsPrintable(cols: int)
    requires cols >= 0
    ensures forall c :: c in WelcomeRow(cols) ==> Printable(c)
  {
    assert forall c :: c in Welcome ==> Printable(c);
    var k := BannerLen(cols);
    assert forall c :: c in Welcome[..k] ==> c in Welcome;
    assert forall c :: c in PadPrefix(Padding(cols)) ==> c == '~' || c == ' ';
  }

  /** A screen line (its text and EL) holds no CR and exactly one ESC. */
  lemma {:induction false} LineCounts(rows: int, cols: int, y: int)
    requires cols >= 0
    ensures multiset(RowText(rows, cols, y) + EraseLine)['\r'] == 0
    ensures multiset(RowText(rows, cols, y) + EraseLine)[Esc] == 1
  {
    BannerIsPrintable(cols);
    var t := RowText(rows, cols, y);
    assert '\r' !in t && Esc !in t;
    assert multiset(t)['\r'] == 0 && multiset(t)[Esc] == 0;
    assert multiset(EraseLine)['\r'] == 0 && multiset(EraseLine)[Esc] == 1;
  }

  /** Joining lines free of CR, one ESC each, adds one CR per break and no ESC. */
  lemma {:induction false} JoinCounts(ls: seq<string>)
    requires forall i :: 0 <= i < |ls| ==> multiset(ls[i])['\r'] == 0 && multiset(ls[i])[Esc] == 1
    ensures multiset(JoinCRLF(ls))['\r'] == if |ls| == 0 then 0 else |ls| - 1
    ensures multiset(JoinCRLF(ls))[Esc] == |ls|
  {
    if |ls| > 1 {
      var init := ls[..|ls| - 1];
      JoinCounts(init);
      var front := JoinCRLF(init);
      var last := ls[|ls| - 1];
      assert JoinCRLF(ls) == front + CRLF + last;
      assert multiset(CRLF)['\r'] == 1 && multiset(CRLF)[Esc] == 0;
      assert multiset(front + CRLF + last) == multiset(front) + multiset(CRLF) + multiset(last);
    }
  }

  /**
   * CR appears exactly `rows - 1` times in the drawn rows (one per line
   * break) and ESC exactly `rows` times (one EL per row).
   */
  lemma {:induction false} DrawnRowsCounts(rows: int, cols: int)
    requires cols >= 0
    ensures multiset(DrawnRows(rows, cols))['\r'] == if rows <= 0 then 0 else rows - 1
    ensures multiset(DrawnRows(rows, cols))[Esc] == if rows <= 0 then 0 else rows
  {
    DrawnRowsAreJoinedLines(rows, cols);
    var ls := Lines(rows, cols);
    forall i | 0 <= i < |ls|
      ensures multiset(ls[i])['\r'] == 0 && multiset(ls[i])[Esc] == 1
    {
      LineCounts(rows, cols, i);
    }
    JoinCounts(ls);
  }

  lemma {:induction false} ControlEscapes()
    ensures multiset(HideCursor)[Esc] == 1 && multiset(ShowCursor)[Esc] == 1
    ensures multiset(CursorHome)[Esc] == 1
  {
    assert multiset(HideCursor) == multiset([Esc]) + multiset("[?25l");
    assert multiset(ShowCursor) == multiset([Esc]) + multiset("[?25h");
    assert multiset(CursorHome) == multiset([Esc]) + multiset("[H");
  }

  /** The frame adds exactly four escape sequences to the drawn rows. */
  lemma {:induction false} FrameEscapeCount(rows: int, cols: int)
    requires cols >= 0
    ensures multiset(Frame(rows, cols))[Esc] == 4 + if rows <= 0 then 0 else rows
  {
    DrawnRowsCounts(rows, cols);
    ControlEscapes();
    var drawn := DrawnRows(rows, cols);
    var e := if rows <= 0 then 0 else rows;
    var head := HideCursor + CursorHome;
    assert multiset(head)[Esc] == 2;
    var upTo := head + drawn;
    assert multiset(upTo)[Esc] == 2 + e;
    var homed := upTo + CursorHome;
    assert multiset(homed)[Esc] == 3 + e;
    assert Frame(rows, cols) == homed + ShowCursor;
  }

  lemma {:induction false} RowLength(rows: int, cols: int, y: int)
    requires cols >= 0
    ensures |Row(rows, cols, y)|
         == (if y == rows / 3 then |WelcomeRow(cols)| else 1) + 3 + (if y < rows - 1 then 2 else 0)
  {
  }

  lemma {:induction false} RowsUpToLength(rows: int, cols: int, n: nat)
    requires cols >= 0 && n <= rows
    ensures |RowsUpTo(rows, cols, n)|
         == 4 * n + 2 * (if 0 < n == rows then n - 1 else n)
          + (if rows / 3 < n then |WelcomeRow(cols)| - 1 else 0)
  {
    if n > 0 {
      RowsUpToLength(rows, cols, n - 1);
      RowLength(rows, cols, n - 1);
    }
  }

  /**
   * Every row costs its text plus three bytes of EL, each break two bytes,
   * and the banner row replaces one tilde by the banner.
   */
  lemma {:induction false} FrameLength(rows: int, cols: int)
    requires cols >= 0
    ensures |DrawnRows(rows, cols)|
         == if rows <= 0 then 0 else 6 * rows - 3 + |WelcomeRow(cols)|
    ensures |Frame(rows, cols)| == 18 + |DrawnRows(rows, cols)|
  {
    if rows > 0 {
      RowsUpToLength(rows, cols, rows);
    }
  }
}
