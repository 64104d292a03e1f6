/** A value that may be missing, for the sources' `None`, `std::optional` and raised exceptions. */
module Options {

  datatype Option<+T> = None | Some(value: T) {
    function GetOr(default: T): T { if Some? then value else default }
  }
}
