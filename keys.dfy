/** The key codes a text-editing window reacts to, and the two ways handling a key can end. */
module Keys {

  /** A decoded key: the arrows, ENTER (`KEY_ENTER`), BACKSPACE (`KEY_BACKSPACE`)
      and every other code, which the handler inserts as a character. On macOS
      the window of src/TextEditWindow.cpp also reads 10 as ENTER and 127 as
      BACKSPACE; the one of src/Window.cpp inserts those codes as characters. */
  datatype Key = Left | Right | Up | Down | Enter | Backspace | Char(c: char)

  /** `Done` when the handler returned normally; `OutOfRange` when a `std::string`
      member it called threw `std::out_of_range` (the handler does not catch it,
      and nothing has been changed by then). */
  datatype Outcome = Done | OutOfRange
}
