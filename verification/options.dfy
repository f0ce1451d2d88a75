/** A nullable value: the model's stand-in for a SQL NULL or a pandas NaN cell. */
module Options {

  datatype Option<+T> = None | Some(value: T) {

    /** The value, or `default` when the cell is null (pandas `fillna`). */
    function GetOr(default: T): T
    {
      match this
      case Some(v) => v
      case None => default
    }
  }
}
