/**
 * Keyboard input: the Ctrl-chord transform and the one command this editor
 * has, quit on Ctrl-Q. Keys are raw bytes as read from the terminal.
 */
module Keys {

  type Byte = bv8

  /**
   * CTRL_KEY: the byte a terminal sends for Ctrl plus the key, which keeps
   * the key's low five bits.
   */
  function CtrlKey(k: Byte): (r: Byte)
    ensures r < 0x20
    ensures r == k % 32
    ensures k < 0x20 ==> r == k
  {
    k & 0x1F
  }

  const LowerQ: Byte := 0x71  // 'q'
  const UpperQ: Byte := 0x51  // 'Q'

  predicate IsLowerLetter(k: Byte)
  {
    0x61 <= k <= 0x7A
  }

  /** Ctrl makes no difference between a letter and its upper-case form. */
  lemma {:induction false} CtrlKeyIgnoresCase(k: Byte)
    requires IsLowerLetter(k)
    ensures CtrlKey(k) == CtrlKey(k - 0x20)
    ensures 1 <= CtrlKey(k) <= 26
  {
  }

  datatype Action = Quit | Ignore

  /**
   * editorProcessKeypress, without its I/O: the byte of Ctrl-Q quits (after
   * clearing the screen), and every other byte does nothing.
   */
  function ProcessKeypress(c: Byte): (a: Action)
    ensures a == Quit <==> c == 0x11
  {
    if c == CtrlKey(LowerQ) then Quit else Ignore
  }

  /**
   * Quitting answers exactly to the Ctrl chord of q (equally of Q); no
   * printable byte quits, so typing q or Q is ignored.
   */
  lemma {:induction false} QuitOnlyOnCtrlQ(c: Byte)
    ensures ProcessKeypress(c) == Quit <==> c == CtrlKey(LowerQ)
    ensures ProcessKeypress(CtrlKey(LowerQ)) == Quit && ProcessKeypress(CtrlKey(UpperQ)) == Quit
    ensures 0x20 <= c < 0x7F ==> ProcessKeypress(c) == Ignore
    ensures ProcessKeypress(c) == Quit ==> CtrlKey(c) == c
  {
  }
}
