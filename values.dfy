/** Values shared by every part of the model. */
module Values {

  /** An optional value, standing for Python's `None` or a present value. */
  datatype Option<T> = None | Some(value: T) {
    function GetOr(default: T): T {
      match this
      case Some(v) => v
      case None => default
    }
  }

  /**
   * One spreadsheet cell as pandas hands it over: `Missing` is a value for
   * which `pd.isna` holds (NaN or None); `Text(s)` is any other value, given
   * by the text `str(value)` produces for it.
   */
  datatype Cell = Missing | Text(s: string)
}
