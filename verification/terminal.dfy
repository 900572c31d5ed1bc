/** Keyboard input as `getch` reports it to the screens of the reader. */
module Terminal {

  /** The arrow and paging keys the screens react to, or a typed byte. */
  datatype Key = Up | Down | Left | PageUp | PageDown | Typed(c: char)

  /** `getch()` returns 10 for the Enter key. */
  const Enter: Key := Typed('\n')
}
