/** The feature matrix of the relevance-feedback method and its z-score
    normalisation. Each stored histogram row starts with the image size and
    continues with the bin counts; an image's feature row is its colour-code
    bins over the size followed by its intensity bins over the size. The
    spreadsheets are given as maps from image number to stored row, and the
    column means and standard deviations are given inputs. */
module FeatureMatrix {
  import opened Common

  /** The collection holds images 1..ImageCount. */
  const ImageCount: nat := 100

  /** The bins of a stored row (cells 1..), each divided by cell 0, the
      image size. Reading cell 0 of an empty row raises IndexError; a zero
      size raises ZeroDivisionError once there is a bin to divide. */
  function Fractions(row: seq<real>): (r: Result<seq<real>>)
    ensures r.Ok? <==> |row| == 1 || (|row| > 1 && row[0] != 0.0)
    ensures r == Err(IndexError) <==> row == []
    ensures r.Ok? ==> |r.value| == |row| - 1
    ensures r.Ok? ==> forall j :: 0 <= j < |r.value| ==> r.value[j] * row[0] == row[j + 1]
  {
    if row == [] then Err(IndexError)
    else if |row| == 1 then Ok([])
    else if row[0] == 0.0 then Err(ZeroDivisionError)
    else Ok(DivideAll(row[1..], row[0]))
  }

  /** An image's feature row from its stored colour-code and intensity
      rows: both sizes are read first, then the colour fractions, then the
      intensity fractions. */
  function Row(colorRow: seq<real>, intensRow: seq<real>): Result<seq<real>>
  {
    if colorRow == [] || intensRow == [] then Err(IndexError)
    else match Fractions(colorRow)
      case Err(e) => Err(e)
      case Ok(c) =>
        match Fractions(intensRow)
        case Err(e) => Err(e)
        case Ok(x) => Ok(c + x)
  }

  /** The feature row of image `i`, with the lookups the source does in the
      order it does them. */
  function RowFor(color: map<int, seq<real>>, intens: map<int, seq<real>>, i: int): Result<seq<real>>
  {
    if i !in color then Err(KeyError)
    else if color[i] == [] then Err(IndexError)
    else if i !in intens then Err(KeyError)
    else Row(color[i], intens[i])
  }

  /** The rows of images 1..n, or the error of the first image that fails. */
  function Rows(color: map<int, seq<real>>, intens: map<int, seq<real>>, n: nat): Result<map<int, seq<real>>>
  {
    if n == 0 then Ok(map[])
    else match Rows(color, intens, n - 1)
      case Err(e) => Err(e)
      case Ok(m) =>
        match RowFor(color, intens, n)
        case Err(e) => Err(e)
        case Ok(row) => Ok(m[n := row])
  }

  predicate SameLength(m: map<int, seq<real>>)
  {
    forall a, b :: a in m && b in m ==> |m[a]| == |m[b]|
  }

  /** The image rows in image-number order. */
  function Ordered(m: map<int, seq<real>>): seq<seq<real>>
    requires forall i :: 1 <= i <= ImageCount ==> i in m
  {
    seq(ImageCount, k requires 0 <= k < ImageCount => m[k + 1])
  }

  /** `feature_mtx`: the rows of images 1..100 in order; building the data
      frame fails with ValueError when the rows differ in length. */
  function Matrix(color: map<int, seq<real>>, intens: map<int, seq<real>>): Result<seq<seq<real>>>
  {
    match Rows(color, intens, ImageCount)
    case Err(e) => Err(e)
    case Ok(m) =>
      RowsShape(color, intens, ImageCount);
      if SameLength(m) then Ok(Ordered(m)) else Err(ValueError)
  }

  /** Once an image fails, the rows of every later prefix fail the same way. */
  lemma {:induction false} RowsErrorPersists(color: map<int, seq<real>>, intens: map<int, seq<real>>, n: nat, m: nat)
    requires n <= m && Rows(color, intens, n).Err?
    ensures Rows(color, intens, m) == Rows(color, intens, n)
    decreases m - n
  {
    if n < m {
      RowsErrorPersists(color, intens, n, m - 1);
    }
  }

  /** The rows of images 1..n exist exactly when every one of those images
      has a row, and then they are keyed by image number. */
  lemma {:induction false} RowsShape(color: map<int, seq<real>>, intens: map<int, seq<real>>, n: nat)
    ensures Rows(color, intens, n).Ok? <==> forall i :: 1 <= i <= n ==> RowFor(color, intens, i).Ok?
    ensures Rows(color, intens, n).Ok? ==>
              (forall i :: i in Rows(color, intens, n).value <==> 1 <= i <= n) &&
              forall i :: 1 <= i <= n ==> Rows(color, intens, n).value[i] == RowFor(color, intens, i).value
  {
    if n > 0 {
      RowsShape(color, intens, n - 1);
    }
  }

  /** The colour fractions come first, then the intensity fractions; the
      row has `(|colorRow| - 1) + (|intensRow| - 1)` features. */
  lemma RowLayout(colorRow: seq<real>, intensRow: seq<real>)
    requires Row(colorRow, intensRow).Ok?
    ensures var r := Row(colorRow, intensRow).value;
            |r| == (|colorRow| - 1) + (|intensRow| - 1) &&
            (forall j :: 0 <= j < |colorRow| - 1 ==> r[j] * colorRow[0] == colorRow[j + 1]) &&
            (forall j :: |colorRow| - 1 <= j < |r| ==> r[j] * intensRow[0] == intensRow[j - |colorRow| + 2])
  {
    var c, x := Fractions(colorRow).value, Fractions(intensRow).value;
    var r := Row(colorRow, intensRow).value;
    assert r == c + x;
    forall j | |colorRow| - 1 <= j < |r|
      ensures r[j] * intensRow[0] == intensRow[j - |colorRow| + 2]
    {
      assert r[j] == x[j - (|colorRow| - 1)];
    }
  }

  /** The fractions of a row add up to its bin total over its size; when
      the bins count every pixel once they add up to 1. */
  lemma FractionsSum(row: seq<real>)
    requires |row| > 1 && Fractions(row).Ok?
    ensures Sum(Fractions(row).value) == Sum(row[1..]) / row[0]
    ensures Sum(row[1..]) == row[0] ==> Sum(Fractions(row).value) == 1.0
  {
    SumDivideAll(row[1..], row[0]);
  }

  /** The loop `for j in range(1, len(row))` appending `row[j] / size`. */
  method ScaleBins(row: seq<real>) returns (r: Result<seq<real>>)
    ensures r == Fractions(row)
  {
    if row == [] {
      return Err(IndexError);
    }
    var size := row[0];
    var features: seq<real> := [];
    var j := 1;
    while j < |row|
      invariant 1 <= j <= |row|
      invariant j > 1 ==> size != 0.0 && features == DivideAll(row[1..j], size)
      invariant j == 1 ==> features == []
    {
      if size == 0.0 {
        return Err(ZeroDivisionError);
      }
      features := features + [row[j] / size];
      j := j + 1;
    }
    if |row| > 1 {
      assert row[1..j] == row[1..];
    }
    r := Ok(features);
  }

  /** One iteration of the image loop: the two sizes, then the colour
      features and the intensity features, concatenated. */
  method FeatureRow(colorRow: seq<real>, intensRow: seq<real>) returns (r: Result<seq<real>>)
    ensures r == Row(colorRow, intensRow)
  {
    if colorRow == [] || intensRow == [] {
      return Err(IndexError);
    }
    var colorFeatures := ScaleBins(colorRow);
    if colorFeatures.Err? {
      return Err(colorFeatures.error);
    }
    var intensFeatures := ScaleBins(intensRow);
    if intensFeatures.Err? {
      return Err(intensFeatures.error);
    }
    r := Ok(colorFeatures.value + intensFeatures.value);
  }

  /** `feature_mtx`: fills `all` with one feature row per image 1..100 and
      orders the rows by image number. */
  method BuildFeatureMatrix(color: map<int, seq<real>>, intens: map<int, seq<real>>)
    returns (r: Result<seq<seq<real>>>)
    ensures r == Matrix(color, intens)
  {
    var all: map<int, seq<real>> := map[];
    var i := 1;
    while i <= ImageCount
      invariant 1 <= i <= ImageCount + 1
      invariant Rows(color, intens, i - 1) == Ok(all)
    {
      if i !in color || color[i] == [] || i !in intens {
        RowsErrorPersists(color, intens, i, ImageCount);
        return if i !in color then Err(KeyError) else if color[i] == [] then Err(IndexError) else Err(KeyError);
      }
      var row := FeatureRow(color[i], intens[i]);
      if row.Err? {
        RowsErrorPersists(color, intens, i, ImageCount);
        return Err(row.error);
      }
      all := all[i := row.value];
      i := i + 1;
    }
    RowsShape(color, intens, ImageCount);
    if !SameLength(all) {
      return Err(ValueError);
    }
    r := Ok(Ordered(all));
  }

  /** A column is constant and equal to its mean when its standard
      deviation is zero. */
  predicate ConsistentStats(column: seq<real>, mean: real, sd: real)
  {
    sd == 0.0 ==> forall i :: 0 <= i < |column| ==> column[i] == mean
  }

  /** `(feature - avg) / std` followed by `fillna(0)`: with a zero standard
      deviation every quotient is 0/0, which becomes 0. */
  function NormalizeColumn(column: seq<real>, mean: real, sd: real): (r: seq<real>)
    requires ConsistentStats(column, mean, sd)
    ensures |r| == |column|
    ensures sd != 0.0 ==> forall i :: 0 <= i < |r| ==> r[i] * sd + mean == column[i]
    ensures sd == 0.0 ==> forall i :: 0 <= i < |r| ==> r[i] == 0.0
  {
    if sd == 0.0 then seq(|column|, i => 0.0) else DivideAll(SubtractAll(column, mean), sd)
  }

  /** With the exact mean, the normalised column sums to zero. */
  lemma ZScoreSumsToZero(column: seq<real>, mean: real, sd: real)
    requires ConsistentStats(column, mean, sd)
    requires |column| > 0 && mean == Sum(column) / |column| as real
    ensures Sum(NormalizeColumn(column, mean, sd)) == 0.0
  {
    if sd == 0.0 {
      SumOfZeros(NormalizeColumn(column, mean, sd));
    } else {
      var d := SubtractAll(column, mean);
      DeviationsSumToZero(column, mean);
      SumDivideAll(d, sd);
      ZeroOver(sd);
      assert NormalizeColumn(column, mean, sd) == DivideAll(d, sd);
    }
  }

  /** The deviations from the exact mean sum to zero. */
  lemma DeviationsSumToZero(column: seq<real>, mean: real)
    requires |column| > 0 && mean == Sum(column) / |column| as real
    ensures Sum(SubtractAll(column, mean)) == 0.0
  {
    SumSubtractAll(column, mean);
    CountTimesMean(Sum(column), |column| as real, mean);
  }

  lemma ZeroOver(t: real)
    requires t != 0.0
    ensures 0.0 / t == 0.0
  {
  }

  lemma CountTimesMean(total: real, count: real, mean: real)
    requires count > 0.0 && mean == total / count
    ensures count * mean == total
  {
  }

  /** The sum of the squares of the first `n` entries of `s`. */
  function SumOfSquares(s: seq<real>, n: nat): real
    requires n <= |s|
  {
    if n == 0 then 0.0 else SumOfSquares(s, n - 1) + s[n - 1] * s[n - 1]
  }

  /** With pandas' sample standard deviation (`sd * sd * (n - 1)` is the
      sum of squared deviations from the mean), the z-scores of a column
      have a sum of squares of `n - 1`: unit sample variance. A zero
      deviation gives the all-zero column of `ZScoreSumsToZero` instead. */
  lemma ZScoreUnitVariance(column: seq<real>, mean: real, sd: real)
    requires ConsistentStats(column, mean, sd)
    requires |column| > 1 && sd != 0.0
    requires sd * sd * (|column| - 1) as real == SumOfSquares(SubtractAll(column, mean), |column|)
    ensures SumOfSquares(NormalizeColumn(column, mean, sd), |column|) == (|column| - 1) as real
  {
    var d := SubtractAll(column, mean);
    assert SquaresSumTo(d, |column|, sd, (|column| - 1) as real);
    NormalizedDeviations(column, mean, sd);
    ScaledSumOfSquares(d, sd, |column|, (|column| - 1) as real);
  }

  /** With a non-zero deviation the z-scores are the deviations over it. */
  lemma NormalizedDeviations(column: seq<real>, mean: real, sd: real)
    requires ConsistentStats(column, mean, sd) && sd != 0.0
    ensures NormalizeColumn(column, mean, sd) == DivideAll(SubtractAll(column, mean), sd)
  {
  }

  /** The squares of the first `n` entries of `s` sum to `t * t * k`. */
  predicate SquaresSumTo(s: seq<real>, n: nat, t: real, k: real)
    requires n <= |s|
  {
    t * t * k == SumOfSquares(s, n)
  }

  /** If the squares of `s` sum to `t * t * k`, those of `s / t` sum to `k`. */
  lemma ScaledSumOfSquares(s: seq<real>, t: real, n: nat, k: real)
    requires t != 0.0 && n <= |s|
    requires SquaresSumTo(s, n, t, k)
    ensures SumOfSquares(DivideAll(s, t), n) == k
  {
    SquaresOfQuotients(s, t, t * t, n);
    CancelSquare(SumOfSquares(DivideAll(s, t), n), k, t, t * t);
  }

  /** Dividing every entry by `t` divides the sum of squares by `t * t`. */
  lemma {:induction false} SquaresOfQuotients(s: seq<real>, t: real, squared: real, n: nat)
    requires t != 0.0 && squared == t * t && n <= |s|
    ensures SumOfSquares(DivideAll(s, t), n) * squared == SumOfSquares(s, n)
  {
    if n > 0 {
      SquaresOfQuotients(s, t, squared, n - 1);
      var x := DivideAll(s, t)[n - 1];
      QuotientSquare(x, t, squared, s[n - 1]);
      AddTimes(SumOfSquares(DivideAll(s, t), n - 1), x * x, squared);
    }
  }

  lemma AddTimes(a: real, b: real, c: real)
    ensures (a + b) * c == a * c + b * c
  {
  }

  lemma QuotientSquare(x: real, t: real, squared: real, y: real)
    requires x * t == y && squared == t * t
    ensures x * x * squared == y * y
  {
    assert x * x * (t * t) == (x * t) * (x * t);
  }

  /** `t * t` cancels from both sides, one factor `t` at a time. */
  lemma CancelSquare(a: real, b: real, t: real, squared: real)
    requires t != 0.0 && squared == t * t && a * squared == squared * b
    ensures a == b
  {
    TimesSquare(a, t, squared);
    TimesSquare(b, t, squared);
    CancelFactor(a * t, b * t, t);
    CancelFactor(a, b, t);
  }

  lemma TimesSquare(a: real, t: real, squared: real)
    requires squared == t * t
    ensures a * squared == (a * t) * t
  {
  }

  lemma CancelFactor(a: real, b: real, c: real)
    requires c != 0.0 && a * c == b * c
    ensures a == b
  {
    assert (a - b) * c == 0.0;
  }

  /** With a positive standard deviation the normalisation keeps the order
      of the values. */
  lemma ZScorePreservesOrder(column: seq<real>, mean: real, sd: real, i: nat, j: nat)
    requires ConsistentStats(column, mean, sd)
    requires sd > 0.0 && i < |column| && j < |column|
    ensures column[i] < column[j] <==> NormalizeColumn(column, mean, sd)[i] < NormalizeColumn(column, mean, sd)[j]
  {
    var z := NormalizeColumn(column, mean, sd);
    assert z[i] == (column[i] - mean) / sd && z[j] == (column[j] - mean) / sd;
  }

  /** Column `k` of a matrix given by rows. */
  function ColumnOf(matrix: seq<seq<real>>, k: nat): (c: seq<real>)
    requires forall i :: 0 <= i < |matrix| ==> k < |matrix[i]|
    ensures |c| == |matrix| && forall i :: 0 <= i < |matrix| ==> c[i] == matrix[i][k]
  {
    seq(|matrix|, i requires 0 <= i < |matrix| => matrix[i][k])
  }

  /** The z-score step of `get_normalized_matrix`: every feature column
      normalised with its own mean and standard deviation. The result is
      given column by column. */
  method NormalizeMatrix(matrix: seq<seq<real>>, width: nat, avg: seq<real>, std: seq<real>)
    returns (normalized: seq<seq<real>>)
    requires forall i :: 0 <= i < |matrix| ==> |matrix[i]| == width
    requires |avg| == width && |std| == width
    requires forall k :: 0 <= k < width ==> ConsistentStats(ColumnOf(matrix, k), avg[k], std[k])
    ensures |normalized| == width
    ensures forall k :: 0 <= k < width ==> normalized[k] == NormalizeColumn(ColumnOf(matrix, k), avg[k], std[k])
  {
    normalized := [];
    var idx := 0;
    while idx < width
      invariant 0 <= idx <= width
      invariant |normalized| == idx
      invariant forall k :: 0 <= k < idx ==> normalized[k] == NormalizeColumn(ColumnOf(matrix, k), avg[k], std[k])
    {
      normalized := normalized + [NormalizeColumn(ColumnOf(matrix, idx), avg[idx], std[idx])];
      idx := idx + 1;
    }
  }
}
