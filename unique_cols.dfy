/**
 * Model of `check_unique_cols` in ms/utils.py: a validator that a pandas
 * DataFrame holds no repeated value in each of the named columns.
 *
 * A DataFrame is a map from column name to the column's values.  A column is
 * unique when its number of distinct values (`len(df[col].unique())`) equals
 * its length.  Reading a column that is not in the frame raises `KeyError`
 * in pandas; the list comprehension reads the named columns left to right,
 * so the first missing one is the one reported.
 */
module UniqueCols {
  import opened Wrappers

  type DataFrame<T> = map<string, seq<T>>

  /** `len(col.unique())`: the number of distinct values in `col`. */
  function DistinctCount<T(==)>(col: seq<T>): (n: nat)
    ensures n <= |col|
    ensures n == |col| <==> Distinct(col)
  {
    UniqueIffDistinct(col);
    |set x | x in col|
  }

  /** The test the comprehension applies to one column: no value repeats. */
  predicate IsUnique<T(==)>(col: seq<T>)
    ensures IsUnique(col) <==> Distinct(col)
  {
    DistinctCount(col) == |col|
  }

  /** No value occurs twice in `col`. */
  predicate Distinct<T(==)>(col: seq<T>) {
    forall i, j | 0 <= i < j < |col| :: col[i] != col[j]
  }

  /** The errors `check_unique_cols` can raise. */
  datatype CheckError =
    | Duplicates(cols: seq<string>)   // ValueError listing the non-unique columns
    | MissingColumn(name: string)     // KeyError from `df[col]`

  /** `a` is `b` with some elements left out, order kept. */
  predicate IsSubsequence<E(==)>(a: seq<E>, b: seq<E>) {
    if a == [] then true
    else if b == [] then false
    else (a[0] == b[0] && IsSubsequence(a[1..], b[1..])) || IsSubsequence(a, b[1..])
  }

  /** Every name in `cols` is a column of `df`. */
  predicate AllPresent<T>(df: DataFrame<T>, cols: seq<string>) {
    forall i | 0 <= i < |cols| :: cols[i] in df
  }

  /**
   * The list comprehension of `check_unique_cols`: the named columns that
   * are not unique, in the order of `cols`, or the first name that is not
   * a column of `df`.
   */
  function NonUniqueCols<T(==)>(df: DataFrame<T>, cols: seq<string>): (r: Result<seq<string>, string>)
    ensures r.Success? <==> AllPresent(df, cols)
    ensures r.Failure? ==> r.error in cols && r.error !in df
    ensures r.Success? ==> IsSubsequence(r.value, cols)
    ensures r.Success? ==> forall c ::
      multiset(r.value)[c] == if c in df && !IsUnique(df[c]) then multiset(cols)[c] else 0
  {
    if cols == [] then Success([])
    else if cols[0] !in df then Failure(cols[0])
    else
      match NonUniqueCols(df, cols[1..])
      case Failure(name) => Failure(name)
      case Success(rest) =>
        assert cols == [cols[0]] + cols[1..];
        if IsUnique(df[cols[0]]) then
          SubsequenceDrop(rest, cols);
          Success(rest)
        else
          assert ([cols[0]] + rest)[1..] == rest;
          Success([cols[0]] + rest)
  }

  lemma SubsequenceDrop<E>(a: seq<E>, b: seq<E>)
    requires b != [] && IsSubsequence(a, b[1..])
    ensures IsSubsequence(a, b)
  {
  }

  /** `check_unique_cols(df, cols)`: `True`, or the error it raises. */
  function CheckUniqueCols<T(==)>(df: DataFrame<T>, cols: seq<string>): (r: Result<bool, CheckError>)
    ensures r.Success? ==> r.value
    ensures r.Failure? && r.error.Duplicates? ==> r.error.cols != []
  {
    match NonUniqueCols(df, cols)
    case Failure(name) => Failure(MissingColumn(name))
    case Success(nonUnique) =>
      if |nonUnique| > 0 then Failure(Duplicates(nonUnique)) else Success(true)
  }

  // ----- uniqueness is distinctness -----

  lemma DistinctCons<T>(col: seq<T>)
    requires col != []
    ensures Distinct(col) <==> col[0] !in col[1..] && Distinct(col[1..])
  {
    var rest := col[1..];
    if col[0] in rest {
      var j :| 0 <= j < |rest| && rest[j] == col[0];
      assert col[j + 1] == col[0];
    }
    if Distinct(rest) && col[0] !in rest {
      forall i, j | 0 <= i < j < |col| ensures col[i] != col[j] {
        assert col[j] == rest[j - 1];
        if i > 0 {
          assert col[i] == rest[i - 1];
        }
      }
    }
  }

  /**
   * A column has as many distinct values as entries exactly when no value
   * occurs twice; it never has more.
   */
  lemma {:induction false} UniqueIffDistinct<T>(col: seq<T>)
    ensures |set x | x in col| <= |col|
    ensures |set x | x in col| == |col| <==> Distinct(col)
  {
    if col != [] {
      var rest := col[1..];
      UniqueIffDistinct(rest);
      DistinctCons(col);
      assert (set x | x in col) == {col[0]} + (set x | x in rest);
      if col[0] in rest {
        assert (set x | x in col) == (set x | x in rest);
      } else {
        assert col[0] !in (set x | x in rest);
      }
    }
  }

  // ----- what check_unique_cols returns and raises -----

  /**
   * `check_unique_cols` returns `True` exactly when every named column
   * exists and has no repeated value; in particular for an empty list.
   */
  lemma CheckPassesIff<T>(df: DataFrame<T>, cols: seq<string>)
    ensures CheckUniqueCols(df, cols) == Success(true) <==>
      forall i | 0 <= i < |cols| :: cols[i] in df && Distinct(df[cols[i]])
  {
    var r := NonUniqueCols(df, cols);
    if r.Success? {
      if r.value == [] {
        forall i | 0 <= i < |cols| ensures Distinct(df[cols[i]]) {
          assert cols[i] in multiset(cols);
          assert multiset(r.value)[cols[i]] == 0;
        }
      } else {
        var c := r.value[0];
        assert c in multiset(r.value);
        assert c in multiset(cols);
        var i :| 0 <= i < |cols| && cols[i] == c;
      }
    } else {
      var i :| 0 <= i < |cols| && cols[i] == r.error;
    }
  }

  /**
   * `ValueError` is raised exactly when every named column exists and at
   * least one of them has a repeated value.
   */
  lemma RaisesIff<T>(df: DataFrame<T>, cols: seq<string>)
    ensures CheckUniqueCols(df, cols).Failure? && CheckUniqueCols(df, cols).error.Duplicates? <==>
      AllPresent(df, cols) && exists i | 0 <= i < |cols| :: !Distinct(df[cols[i]])
  {
    CheckPassesIff(df, cols);
  }

  /**
   * The `ValueError` lists exactly the named columns that have a repeated
   * value, in the order they are named, a column named twice listed twice.
   */
  lemma ReportsExactly<T>(df: DataFrame<T>, cols: seq<string>)
    requires CheckUniqueCols(df, cols).Failure? && CheckUniqueCols(df, cols).error.Duplicates?
    ensures var reported := CheckUniqueCols(df, cols).error.cols;
      IsSubsequence(reported, cols) &&
      forall c | c in cols :: multiset(reported)[c] == if Distinct(df[c]) then 0 else multiset(cols)[c]
  {
    var reported := CheckUniqueCols(df, cols).error.cols;
    forall c | c in cols
      ensures multiset(reported)[c] == if Distinct(df[c]) then 0 else multiset(cols)[c]
    {
      var i :| 0 <= i < |cols| && cols[i] == c;
    }
  }

  /**
   * A missing column raises `KeyError` for the first missing name in
   * `cols`, before any uniqueness is judged.
   */
  lemma {:induction false} MissingFirst<T>(df: DataFrame<T>, cols: seq<string>)
    ensures CheckUniqueCols(df, cols).Failure? && CheckUniqueCols(df, cols).error.MissingColumn? <==>
      !AllPresent(df, cols)
    ensures CheckUniqueCols(df, cols).Failure? && CheckUniqueCols(df, cols).error.MissingColumn? ==>
      exists i | 0 <= i < |cols| ::
        cols[i] == CheckUniqueCols(df, cols).error.name && cols[i] !in df && AllPresent(df, cols[..i])
  {
    if cols != [] && cols[0] in df {
      MissingFirst(df, cols[1..]);
      var r := NonUniqueCols(df, cols[1..]);
      if r.Failure? {
        var i :| 0 <= i < |cols[1..]| && cols[1..][i] == r.error && cols[1..][i] !in df
          && AllPresent(df, cols[1..][..i]);
        assert cols[..i + 1] == [cols[0]] + cols[1..][..i];
        assert cols[i + 1] == r.error;
      }
    } else if cols != [] {
      assert cols[..0] == [];
    }
  }

  /**
   * Only the named columns are read: two frames that agree on them give the
   * same verdict, whatever their other columns hold.
   */
  lemma {:induction false} IgnoresUnnamed<T>(df1: DataFrame<T>, df2: DataFrame<T>, cols: seq<string>)
    requires forall c | c in cols :: (c in df1 <==> c in df2) && (c in df1 ==> df1[c] == df2[c])
    ensures CheckUniqueCols(df1, cols) == CheckUniqueCols(df2, cols)
    ensures NonUniqueCols(df1, cols) == NonUniqueCols(df2, cols)
  {
    if cols != [] {
      assert cols[0] in cols;
      IgnoresUnnamed(df1, df2, cols[1..]);
    }
  }
}
