/**
 * Model of the uniqueness guard inside `DataHolder.read_in` in ms/io.py.
 * Reading the file into a frame is not modelled: the frame `df` that the
 * reader produced is a parameter, and the result is that frame when the
 * guard lets it through.
 */
module DataHolder {
  import opened Wrappers
  import opened UniqueCols

  /**
   * `read_in` after the file has been read: when `unique_cols` is given,
   * the same comprehension and the same raise as `check_unique_cols`.
   */
  function ReadIn<T(==)>(df: DataFrame<T>, uniqueCols: Option<seq<string>>): (r: Result<DataFrame<T>, CheckError>)
    ensures r.Success? ==> r.value == df
    ensures uniqueCols.None? ==> r.Success?
    ensures r.Failure? ==> uniqueCols.Some? && CheckUniqueCols(df, uniqueCols.value) == Failure(r.error)
  {
    match uniqueCols
    case None => Success(df)
    case Some(cols) =>
      match NonUniqueCols(df, cols)
      case Failure(name) => Failure(MissingColumn(name))
      case Success(nonUnique) =>
        if |nonUnique| > 0 then Failure(Duplicates(nonUnique)) else Success(df)
  }

  /**
   * With `unique_cols` given, `read_in` passes the frame on exactly when
   * `check_unique_cols` would return `True`: every named column exists and
   * has no repeated value.
   */
  lemma ReadInSameRule<T>(df: DataFrame<T>, cols: seq<string>)
    ensures ReadIn(df, Some(cols)).Success? <==> CheckUniqueCols(df, cols).Success?
    ensures ReadIn(df, Some(cols)) == Success(df) <==>
      forall i | 0 <= i < |cols| :: cols[i] in df && Distinct(df[cols[i]])
  {
    CheckPassesIff(df, cols);
  }
}
