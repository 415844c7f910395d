/** The optional value Rust's `Option` carries (check_winner, from_str(..).ok()). */
module Options {
  datatype Option<+T> = None | Some(value: T)
}
