/** Absent-or-present values, used for null pointers, blocked steps and error returns. */
module Options {
  datatype Option<+T> = None | Some(value: T) {
    function GetOr(default: T): T {
      if Some? then value else default
    }
  }
}
