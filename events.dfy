/**
 * The input events the command editor reacts to.
 *
 * These are stand-ins for two external types: the application's `Event`
 * (a mouse click, a double click or a key press) and the terminal library's
 * key event. Only the keys that the editor distinguishes are kept, with
 * `Other` for every key it ignores.
 */
module Events {

  /** Terminal coordinates are unsigned 16-bit integers. */
  type u16 = x: int | 0 <= x < 0x1_0000

  /** Function-key numbers are unsigned 8-bit integers. */
  type u8 = x: int | 0 <= x < 0x100

  datatype Key =
    | Char(c: char)     // a plain character, including '\t' and '\n' (enter)
    | Alt(c: char)      // a character typed with alt held
    | Ctrl(c: char)     // a character typed with control held
    | Up
    | Down
    | F(n: u8)          // a numbered function key
    | PageUp
    | PageDown
    | Esc
    | Backspace
    | Other             // any key the editor does not react to

  datatype Event =
    | Click(x: u16, y: u16)
    | DoubleClick(x: u16, y: u16)  // delivered after a click at the same position
    | Key(key: Key)
}
