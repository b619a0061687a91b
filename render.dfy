/**
 * The refresh as the editor performs it: appends, one fragment at a time,
 * onto an append buffer, then a single write of the whole buffer. Each
 * method is proved to produce exactly the frame specified in module Screen.
 */
module Render {
  import opened AppendBuffer
  import opened Screen

  /** Growing the padding by one space keeps its shape. */
  lemma {:induction false} PadPrefixGrows(p: nat)
    requires p >= 1
    ensures PadPrefix(p + 1) == PadPrefix(p) + " "
  {
    assert Spaces(p) == Spaces(p - 1) + " ";
  }

  /**
   * The padding before the banner: a `~` if there is any padding at all,
   * then the `while (padding--)` countdown of spaces.
   */
  method DrawPadding(ab: Buffer, padding: int)
    requires ab.Valid() && padding >= 0
    modifies ab
    ensures ab.Valid() && ab.b == old(ab.b) + PadPrefix(padding)
  {
    var left := padding;
    if left != 0 {
      ab.Append("~", 1, true);
      left := left - 1;
    }
    while left != 0
      invariant ab.Valid()
      invariant 0 <= left <= padding && (left < padding || padding == 0)
      invariant ab.b == old(ab.b) + PadPrefix(padding - left)
    {
      left := left - 1;
      PadPrefixGrows(padding - left - 1);
      ab.Append(" ", 1, true);
    }
  }

  /** The welcome branch of the row loop: padding, then the banner cut to the width. */
  method DrawWelcome(ab: Buffer, cols: int)
    requires ab.Valid() && cols >= 0
    modifies ab
    ensures ab.Valid() && ab.b == old(ab.b) + WelcomeRow(cols)
  {
    var welcomeLen := |Welcome|;
    if welcomeLen > cols {
      welcomeLen := cols;
    }
    var padding := (cols - welcomeLen) / 2;
    assert welcomeLen == BannerLen(cols) && padding == Padding(cols);
    DrawPadding(ab, padding);
    ab.Append(Welcome, welcomeLen, true);
    Assoc(old(ab.b), PadPrefix(padding), Welcome[..welcomeLen]);
  }

  /** One pass of the row loop: the row's text, EL, and CR LF unless last. */
  method DrawRow(ab: Buffer, rows: int, cols: int, y: int)
    requires ab.Valid() && cols >= 0
    modifies ab
    ensures ab.Valid() && ab.b == old(ab.b) + Row(rows, cols, y)
  {
    ghost var text := RowText(rows, cols, y);
    if y == rows / 3 {
      DrawWelcome(ab, cols);
    } else {
      ab.Append("~", 1, true);
    }
    assert ab.b == old(ab.b) + text;
    ab.Append(EraseLine, 3, true);
    Assoc(old(ab.b), text, EraseLine);
    ghost var tail := if y < rows - 1 then CRLF else "";
    if y < rows - 1 {
      ab.Append(CRLF, 2, true);
    }
    Assoc(old(ab.b), text + EraseLine, tail);
  }

  /**
   * editorDrawRows: one row per screen line, the banner on line `rows / 3`,
   * EL after each row and CR LF after every row but the last.
   */
  method DrawRows(ab: Buffer, rows: int, cols: int)
    requires ab.Valid() && cols >= 0
    modifies ab
    ensures ab.Valid() && ab.b == old(ab.b) + DrawnRows(rows, cols)
  {
    var y := 0;
    while y < rows
      invariant ab.Valid()
      invariant 0 <= y <= if rows > 0 then rows else 0
      invariant ab.b == old(ab.b) + RowsUpTo(rows, cols, y)
    {
      DrawRow(ab, rows, cols, y);
      Assoc(old(ab.b), RowsUpTo(rows, cols, y), Row(rows, cols, y));
      y := y + 1;
    }
  }

  /**
   * editorRefreshScreen: hide the cursor, home it, draw the rows, home it
   * again, show it, and hand the whole buffer to one write; `written` is
   * what that write sends.
   */
  method RefreshScreen(rows: int, cols: int) returns (written: string)
    requires cols >= 0
    ensures written == Frame(rows, cols)
  {
    var ab := new Buffer.Init();
    ab.Append(HideCursor, 6, true);
    ab.Append(CursorHome, 3, true);
    ghost var head := ab.b;
    assert head == HideCursor + CursorHome;
    DrawRows(ab, rows, cols);
    ghost var drawn := ab.b;
    assert drawn == HideCursor + CursorHome + DrawnRows(rows, cols);
    ab.Append(CursorHome, 3, true);
    ab.Append(ShowCursor, 6, true);
    assert ab.b == drawn + CursorHome + ShowCursor;
    written := ab.b[..ab.len];
  }
}
