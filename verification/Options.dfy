/** A value that may be missing. */
module Options {

  datatype Option<T> = None | Some(value: T) {
    function GetOr(default: T): T { if None? then default else value }
  }
}
