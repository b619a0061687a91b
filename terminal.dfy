/** Control characters shared by everything that talks to the terminal. */
module Terminal {
  /** ESC, which introduces every control sequence (ECMA-48 section 5.4). */
  const Esc: char := '\U{1B}'
}
