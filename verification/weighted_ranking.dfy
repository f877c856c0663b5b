/** Ranking on the normalised feature matrix: the weighted Manhattan
    distance between two feature columns, the ranking of every image
    against a query, and the relevance-feedback ranking whose weights come
    from the relevant images' feature spread. The matrix is given column by
    column, one column per image; the standard deviations and means of the
    relevant images' features are computed by a given function. */
module WeightedRanking {
  import opened Common
  import opened Ranking
  import ImagePaths
  import WeightUpdate

  /** A weight: one float for all features, or one value per feature. */
  datatype Weight = Uniform(w: real) | PerFeature(ws: seq<real>)

  /** `sum(ws[i] * |q[i] - r[i]|)` over the first `n` features. */
  function WeightedSum(ws: seq<real>, q: seq<real>, r: seq<real>, n: nat): real
    requires n <= |ws| && n <= |q| && n <= |r|
  {
    if n == 0 then 0.0 else WeightedSum(ws, q, r, n - 1) + ws[n - 1] * Abs(q[n - 1] - r[n - 1])
  }

  /** The same weight for each of `n` features. */
  function Constant(w: real, n: nat): (c: seq<real>)
    ensures |c| == n && forall i :: 0 <= i < n ==> c[i] == w
  {
    seq(n, i => w)
  }

  /** `calculate_weighted_dist`. A float weight multiplies every term of
      the element-wise difference; a weight vector is indexed for every
      feature of the query, which fails when it is shorter. */
  function WeightedDistance(q: seq<real>, r: seq<real>, weight: Weight): Result<real>
    requires |q| == |r|
  {
    match weight
    case Uniform(w) => Ok(WeightedSum(Constant(w, |q|), q, r, |q|))
    case PerFeature(ws) => if |ws| < |q| then Err(IndexError) else Ok(WeightedSum(ws, q, r, |q|))
  }

  /** `sum(|q[i] - r[i]|)` over the first `n` features: the unweighted
      Manhattan distance. */
  function L1(q: seq<real>, r: seq<real>, n: nat): real
    requires n <= |q| && n <= |r|
  {
    if n == 0 then 0.0 else L1(q, r, n - 1) + Abs(q[n - 1] - r[n - 1])
  }

  /** Equal weights scale the unweighted Manhattan distance. */
  lemma {:induction false} EqualWeightsScaleL1(ws: seq<real>, w: real, q: seq<real>, r: seq<real>, n: nat)
    requires n <= |ws| && n <= |q| && n <= |r|
    requires forall i :: 0 <= i < n ==> ws[i] == w
    ensures WeightedSum(ws, q, r, n) == w * L1(q, r, n)
  {
    if n > 0 {
      EqualWeightsScaleL1(ws, w, q, r, n - 1);
      ScaleStep(w, L1(q, r, n - 1), Abs(q[n - 1] - r[n - 1]));
    }
  }

  lemma ScaleStep(w: real, x: real, a: real)
    ensures w * x + w * a == w * (x + a)
  {
  }

  /** Only the first `n` weights matter to the sum over `n` features. */
  lemma {:induction false} PrefixWeights(ws: seq<real>, vs: seq<real>, q: seq<real>, r: seq<real>, n: nat)
    requires n <= |ws| && n <= |vs| && n <= |q| && n <= |r|
    requires forall i :: 0 <= i < n ==> ws[i] == vs[i]
    ensures WeightedSum(ws, q, r, n) == WeightedSum(vs, q, r, n)
  {
    if n > 0 {
      PrefixWeights(ws, vs, q, r, n - 1);
    }
  }

  lemma {:induction false} WeightedSumNonNegative(ws: seq<real>, q: seq<real>, r: seq<real>, n: nat)
    requires n <= |ws| && n <= |q| && n <= |r|
    requires forall i :: 0 <= i < n ==> ws[i] >= 0.0
    ensures WeightedSum(ws, q, r, n) >= 0.0
  {
    if n > 0 {
      WeightedSumNonNegative(ws, q, r, n - 1);
    }
  }

  lemma {:induction false} WeightedSumSelf(ws: seq<real>, q: seq<real>, n: nat)
    requires n <= |ws| && n <= |q|
    ensures WeightedSum(ws, q, q, n) == 0.0
  {
    if n > 0 {
      WeightedSumSelf(ws, q, n - 1);
    }
  }

  lemma {:induction false} WeightedSumSymmetric(ws: seq<real>, q: seq<real>, r: seq<real>, n: nat)
    requires n <= |ws| && n <= |q| && n <= |r|
    ensures WeightedSum(ws, q, r, n) == WeightedSum(ws, r, q, n)
  {
    if n > 0 {
      WeightedSumSymmetric(ws, q, r, n - 1);
    }
  }

  /** Dividing every weight by a total divides the distance by it, so
      normalised weights rank images as the raw weights do. */
  lemma {:induction false} WeightedSumDivided(ws: seq<real>, t: real, q: seq<real>, r: seq<real>, n: nat)
    requires t != 0.0 && n <= |ws| && n <= |q| && n <= |r|
    ensures WeightedSum(DivideAll(ws, t), q, r, n) == WeightedSum(ws, q, r, n) / t
  {
    if n > 0 {
      WeightedSumDivided(ws, t, q, r, n - 1);
      var x, y, a := WeightedSum(ws, q, r, n - 1), ws[n - 1], Abs(q[n - 1] - r[n - 1]);
      assert DivideAll(ws, t)[n - 1] == y / t;
      DivideStep(x, y, a, t);
      assert WeightedSum(DivideAll(ws, t), q, r, n) == x / t + (y / t) * a;
    }
  }

  lemma DivideStep(x: real, y: real, a: real, t: real)
    requires t != 0.0
    ensures x / t + (y / t) * a == (x + y * a) / t
  {
  }

  predicate NonNegativeWeight(weight: Weight)
  {
    match weight
    case Uniform(w) => w >= 0.0
    case PerFeature(ws) => forall i :: 0 <= i < |ws| ==> ws[i] >= 0.0
  }

  /** A float weight gives that multiple of the Manhattan distance, the
      same as a vector holding the float for every feature. */
  lemma WeightedDistanceUniform(q: seq<real>, r: seq<real>, w: real)
    requires |q| == |r|
    ensures WeightedDistance(q, r, Uniform(w)) == WeightedDistance(q, r, PerFeature(Constant(w, |q|)))
    ensures WeightedDistance(q, r, Uniform(w)) == Ok(w * L1(q, r, |q|))
  {
    ConstantScalesL1(w, q, r);
  }

  lemma ConstantScalesL1(w: real, q: seq<real>, r: seq<real>)
    requires |q| == |r|
    ensures WeightedSum(Constant(w, |q|), q, r, |q|) == w * L1(q, r, |q|)
  {
    EqualWeightsScaleL1(Constant(w, |q|), w, q, r, |q|);
  }

  /** The weighted distance is defined when the weights cover the
      features; it is then symmetric, zero from a column to itself, and
      not negative under non-negative weights. */
  lemma WeightedDistanceProperties(q: seq<real>, r: seq<real>, weight: Weight)
    requires |q| == |r|
    ensures WeightedDistance(q, r, weight).Ok? <==> weight.Uniform? || |weight.ws| >= |q|
    ensures WeightedDistance(q, r, weight) == WeightedDistance(r, q, weight)
    ensures WeightedDistance(q, r, weight).Ok? ==> WeightedDistance(q, q, weight) == Ok(0.0)
    ensures WeightedDistance(q, r, weight).Ok? && NonNegativeWeight(weight) ==> WeightedDistance(q, r, weight).value >= 0.0
  {
    if weight.Uniform? || |weight.ws| >= |q| {
      var ws := if weight.Uniform? then Constant(weight.w, |q|) else weight.ws;
      assert WeightedDistance(q, r, weight) == Ok(WeightedSum(ws, q, r, |q|));
      assert WeightedDistance(r, q, weight) == Ok(WeightedSum(ws, r, q, |q|));
      assert WeightedDistance(q, q, weight) == Ok(WeightedSum(ws, q, q, |q|));
      WeightedSumSymmetric(ws, q, r, |q|);
      WeightedSumSelf(ws, q, |q|);
      if NonNegativeWeight(weight) {
        WeightedSumNonNegative(ws, q, r, |q|);
      }
    }
  }

  /** `calculate_weighted_dist`: a float weight takes the vectorised
      path; a weight vector the accumulating loop. */
  method WeightedDist(q: seq<real>, r: seq<real>, weight: Weight) returns (d: Result<real>)
    requires |q| == |r|
    ensures d == WeightedDistance(q, r, weight)
  {
    if weight.Uniform? {
      return Ok(WeightedSum(Constant(weight.w, |q|), q, r, |q|));
    }
    var ws := weight.ws;
    var distance := 0.0;
    var i := 0;
    while i < |q|
      invariant 0 <= i <= |q|
      invariant i <= |ws|
      invariant distance == WeightedSum(ws, q, r, i)
    {
      if i >= |ws| {
        return Err(IndexError);
      }
      distance := distance + ws[i] * Abs(q[i] - r[i]);
      i := i + 1;
    }
    d := Ok(distance);
  }

  /** A column of the normalised matrix: an image number and its features. */
  datatype Column = Column(num: nat, features: seq<real>)

  /** Every column of a data frame has the same length. */
  predicate Rectangular(m: seq<Column>)
  {
    forall i, j :: 0 <= i < |m| && 0 <= j < |m| ==> |m[i].features| == |m[j].features|
  }

  /** `normalized_matrix[num]`: the features of the first column labelled
      `num`. */
  function Lookup(m: seq<Column>, num: int): (r: Option<seq<real>>)
    ensures r.None? <==> forall k :: 0 <= k < |m| ==> m[k].num != num
    ensures r.Some? ==> exists k :: 0 <= k < |m| && m[k].num == num && m[k].features == r.value
  {
    if m == [] then None
    else if m[0].num == num then Some(m[0].features)
    else
      var r := Lookup(m[1..], num);
      assert forall k :: 1 <= k < |m| ==> m[k] == m[1..][k - 1];
      if r.Some? then
        assert exists k :: 0 <= k < |m| - 1 && m[1..][k].num == num && m[1..][k].features == r.value;
        r
      else r
  }

  /** The `(distance, path)` entries of the first `n` columns against the
      query's features, or the first error. */
  function Scored(m: seq<Column>, query: seq<real>, weight: Weight, n: nat): (r: Result<seq<Entry>>)
    requires n <= |m|
    requires forall k :: 0 <= k < |m| ==> |m[k].features| == |query|
    ensures r.Ok? ==> |r.value| == n
  {
    if n == 0 then Ok([])
    else match Scored(m, query, weight, n - 1)
      case Err(e) => Err(e)
      case Ok(s) =>
        match WeightedDistance(query, m[n - 1].features, weight)
        case Err(e) => Err(e)
        case Ok(d) => Ok(s + [Entry(d, ImagePaths.ImagePath(m[n - 1].num))])
  }

  /** `calculate_distance`: every column ranked against the query's,
      ascending by `(distance, path)`; KeyError when no column carries the
      query's number. */
  function DistanceRanking(m: seq<Column>, queryNum: int, weight: Weight): Result<seq<Entry>>
    requires Rectangular(m)
  {
    match Lookup(m, queryNum)
    case None => Err(KeyError)
    case Some(query) =>
      match Scored(m, query, weight, |m|)
      case Err(e) => Err(e)
      case Ok(s) => Ok(Sort(s))
  }

  /** Each scored entry is the distance of one column, in column order. */
  lemma {:induction false} ScoredEntries(m: seq<Column>, query: seq<real>, weight: Weight, n: nat)
    requires n <= |m|
    requires forall k :: 0 <= k < |m| ==> |m[k].features| == |query|
    requires Scored(m, query, weight, n).Ok?
    ensures forall k :: 0 <= k < n ==>
              WeightedDistance(query, m[k].features, weight).Ok? &&
              Scored(m, query, weight, n).value[k] ==
                Entry(WeightedDistance(query, m[k].features, weight).value, ImagePaths.ImagePath(m[k].num))
  {
    if n > 0 {
      ScoredEntries(m, query, weight, n - 1);
    }
  }

  /** Scoring succeeds exactly when a per-feature weight covers every
      feature (or there is nothing to score). */
  lemma {:induction false} ScoredSucceeds(m: seq<Column>, query: seq<real>, weight: Weight, n: nat)
    requires n <= |m|
    requires forall k :: 0 <= k < |m| ==> |m[k].features| == |query|
    ensures Scored(m, query, weight, n).Ok? <==> n == 0 || weight.Uniform? || |weight.ws| >= |query|
    ensures Scored(m, query, weight, n).Err? ==> Scored(m, query, weight, n).error == IndexError
  {
    if n > 0 {
      ScoredSucceeds(m, query, weight, n - 1);
    }
  }

  /** `calculate_distance` fails with KeyError exactly when no column
      carries the query's number, and otherwise with IndexError exactly
      when a weight vector is shorter than the features. */
  lemma DistanceRankingErrors(m: seq<Column>, queryNum: int, weight: Weight)
    requires Rectangular(m)
    ensures DistanceRanking(m, queryNum, weight) == Err(KeyError) <==> Lookup(m, queryNum).None?
    ensures Lookup(m, queryNum).Some? ==>
              (DistanceRanking(m, queryNum, weight).Ok? <==>
                 weight.Uniform? || |weight.ws| >= |Lookup(m, queryNum).value|)
  {
    var l := Lookup(m, queryNum);
    if l.Some? {
      var q :| 0 <= q < |m| && m[q].num == queryNum && m[q].features == l.value;
      ScoredSucceeds(m, l.value, weight, |m|);
    }
  }

  /** A successful ranking is the sorted list of every column's score
      against the query's features. */
  lemma DistanceRankingSorts(m: seq<Column>, queryNum: int, weight: Weight)
    requires Rectangular(m) && DistanceRanking(m, queryNum, weight).Ok?
    ensures Lookup(m, queryNum).Some?
    ensures forall k :: 0 <= k < |m| ==> |m[k].features| == |Lookup(m, queryNum).value|
    ensures Scored(m, Lookup(m, queryNum).value, weight, |m|).Ok?
    ensures DistanceRanking(m, queryNum, weight).value ==
              Sort(Scored(m, Lookup(m, queryNum).value, weight, |m|).value)
  {
    var q :| 0 <= q < |m| && m[q].num == queryNum && m[q].features == Lookup(m, queryNum).value;
  }

  /** Under non-negative weights every score is non-negative. */
  lemma ScoredNonNegative(m: seq<Column>, query: seq<real>, weight: Weight)
    requires forall k :: 0 <= k < |m| ==> |m[k].features| == |query|
    requires Scored(m, query, weight, |m|).Ok? && NonNegativeWeight(weight)
    ensures forall e :: e in Scored(m, query, weight, |m|).value ==> e.distance >= 0.0
  {
    var s := Scored(m, query, weight, |m|).value;
    ScoredEntries(m, query, weight, |m|);
    forall k | 0 <= k < |m| ensures s[k].distance >= 0.0 {
      WeightedDistanceProperties(query, m[k].features, weight);
    }
  }

  /** `calculate_distance` ranks every column, the query's included: one
      entry per column, sorted ascending, with the query's own entry at
      distance 0. */
  lemma DistanceRankingShape(m: seq<Column>, queryNum: int, weight: Weight)
    requires Rectangular(m) && DistanceRanking(m, queryNum, weight).Ok?
    ensures var ranking := DistanceRanking(m, queryNum, weight).value;
            |ranking| == |m| && Sorted(ranking) &&
            (forall k :: 0 <= k < |m| ==> exists e :: e in ranking && e.path == ImagePaths.ImagePath(m[k].num)) &&
            queryNum >= 0 && Entry(0.0, ImagePaths.ImagePath(queryNum)) in ranking
  {
    DistanceRankingSorts(m, queryNum, weight);
    var query := Lookup(m, queryNum).value;
    var q :| 0 <= q < |m| && m[q].num == queryNum && m[q].features == query;
    SortSortedPermutation(Scored(m, query, weight, |m|).value);
    SortedScoresHaveEveryPath(m, query, weight);
    QueryScoresZero(m, query, weight, q);
  }

  /** Every column's path appears in the sorted scores. */
  lemma SortedScoresHaveEveryPath(m: seq<Column>, query: seq<real>, weight: Weight)
    requires forall k :: 0 <= k < |m| ==> |m[k].features| == |query|
    requires Scored(m, query, weight, |m|).Ok?
    ensures forall k :: 0 <= k < |m| ==>
              exists e :: e in Sort(Scored(m, query, weight, |m|).value) && e.path == ImagePaths.ImagePath(m[k].num)
  {
    var s := Scored(m, query, weight, |m|).value;
    SortPermutation(s);
    ScoredEntries(m, query, weight, |m|);
    forall k | 0 <= k < |m|
      ensures exists e :: e in Sort(s) && e.path == ImagePaths.ImagePath(m[k].num)
    {
      assert s[k] in multiset(Sort(s));
    }
  }

  /** The query's own column is scored at distance 0. */
  lemma QueryScoresZero(m: seq<Column>, query: seq<real>, weight: Weight, q: nat)
    requires forall k :: 0 <= k < |m| ==> |m[k].features| == |query|
    requires Scored(m, query, weight, |m|).Ok?
    requires q < |m| && m[q].features == query
    ensures Entry(0.0, ImagePaths.ImagePath(m[q].num)) in Sort(Scored(m, query, weight, |m|).value)
  {
    var s := Scored(m, query, weight, |m|).value;
    SortPermutation(s);
    ScoredEntries(m, query, weight, |m|);
    WeightedDistanceProperties(query, query, weight);
    assert s[q] == Entry(0.0, ImagePaths.ImagePath(m[q].num));
    assert s[q] in multiset(Sort(s));
  }

  /** Under non-negative weights the ranking starts at distance 0: no image
      is nearer the query than the query itself. */
  lemma DistanceRankingStartsAtZero(m: seq<Column>, queryNum: int, weight: Weight)
    requires Rectangular(m) && DistanceRanking(m, queryNum, weight).Ok?
    requires NonNegativeWeight(weight)
    ensures |DistanceRanking(m, queryNum, weight).value| > 0
    ensures DistanceRanking(m, queryNum, weight).value[0].distance == 0.0
  {
    DistanceRankingSorts(m, queryNum, weight);
    DistanceRankingShape(m, queryNum, weight);
    var query := Lookup(m, queryNum).value;
    var s := Scored(m, query, weight, |m|).value;
    var ranking := Sort(s);
    SortPermutation(s);
    SortSorted(s);
    SortedHeadIsLeast(ranking, Entry(0.0, ImagePaths.ImagePath(queryNum)));
    ScoredNonNegative(m, query, weight);
    assert ranking[0] in multiset(s);
  }

  /** `calculate_distance`: one entry per column, then `sorted`. */
  method CalculateDistance(m: seq<Column>, queryNum: int, weight: Weight) returns (r: Result<seq<Entry>>)
    requires Rectangular(m)
    ensures r == DistanceRanking(m, queryNum, weight)
  {
    var lookup := Lookup(m, queryNum);
    if lookup.None? {
      return Err(KeyError);
    }
    var query := lookup.value;
    var q :| 0 <= q < |m| && m[q].num == queryNum && m[q].features == query;
    assert forall k :: 0 <= k < |m| ==> |m[k].features| == |query|;
    var results: seq<Entry> := [];
    var i := 0;
    while i < |m|
      invariant 0 <= i <= |m|
      invariant Scored(m, query, weight, i) == Ok(results)
    {
      var distance := WeightedDist(query, m[i].features, weight);
      if distance.Err? {
        ScoredErrorPersists(m, query, weight, i + 1, |m|);
        return Err(distance.error);
      }
      results := results + [Entry(distance.value, ImagePaths.ImagePath(m[i].num))];
      i := i + 1;
    }
    r := Ok(Sort(results));
  }

  lemma {:induction false} ScoredErrorPersists(m: seq<Column>, query: seq<real>, weight: Weight, n: nat, n': nat)
    requires n <= n' <= |m|
    requires forall k :: 0 <= k < |m| ==> |m[k].features| == |query|
    requires Scored(m, query, weight, n).Err?
    ensures Scored(m, query, weight, n') == Scored(m, query, weight, n)
    decreases n' - n
  {
    if n < n' {
      ScoredErrorPersists(m, query, weight, n, n' - 1);
    }
  }

  /** The features of the relevant images keyed by image number: each
      path's number is read back with `get_img_num` and its column looked
      up, path by path. */
  function RelevantFeatures(relevant: seq<string>, m: seq<Column>): Result<map<int, seq<real>>>
  {
    if relevant == [] then Ok(map[])
    else match RelevantFeatures(relevant[..|relevant| - 1], m)
      case Err(e) => Err(e)
      case Ok(rf) =>
        match ImagePaths.GetImgNum(relevant[|relevant| - 1])
        case Err(e) => Err(e)
        case Ok(num) =>
          match Lookup(m, num)
          case None => Err(KeyError)
          case Some(features) => Ok(rf[num := features])
  }

  /** Which relevant images were found, and where: the map is empty exactly
      when no path is relevant, and each entry holds the features of a
      column carrying that number. */
  lemma {:induction false} RelevantFeaturesShape(relevant: seq<string>, m: seq<Column>)
    requires RelevantFeatures(relevant, m).Ok?
    ensures RelevantFeatures(relevant, m).value == map[] <==> relevant == []
    ensures forall num :: num in RelevantFeatures(relevant, m).value ==>
              exists k :: 0 <= k < |m| && m[k].num == num &&
                m[k].features == RelevantFeatures(relevant, m).value[num]
  {
    if relevant != [] {
      var init := relevant[..|relevant| - 1];
      RelevantFeaturesShape(init, m);
      var num := ImagePaths.GetImgNum(relevant[|relevant| - 1]).value;
      assert num in RelevantFeatures(relevant, m).value;
    }
  }

  /** The number of features of each column; none for an empty matrix. */
  function FeatureCount(m: seq<Column>): (n: nat)
    ensures Rectangular(m) ==> forall k :: 0 <= k < |m| ==> |m[k].features| == n
  {
    if m == [] then 0 else |m[0].features|
  }

  /** What `rf_matrix.T.std()` and `rf_matrix.T.mean()` give: a deviation
      and a mean for each of the `n` features of the relevant images' rows,
      and none when no image is relevant. */
  ghost predicate StatsPerFeature(stats: map<int, seq<real>> -> (seq<real>, seq<real>), n: nat)
  {
    forall rf: map<int, seq<real>> ::
      |stats(rf).0| == |stats(rf).1| &&
      (rf == map[] ==> stats(rf).0 == []) &&
      (rf != map[] && (forall num :: num in rf ==> |rf[num]| == n) ==> |stats(rf).0| == n)
  }

  /** The feedback weights from the relevant images' deviations and means:
      `check_std`, then `compute_new_weights`, then
      `compute_normalized_weights`. */
  function FeedbackWeights(std: seq<real>, avg: seq<real>): Result<seq<real>>
  {
    match WeightUpdate.CheckStdResult(std, avg)
    case Err(e) => Err(e)
    case Ok(checked) =>
      match WeightUpdate.NormalizedWeights(WeightUpdate.NewWeights(checked))
      case None => Err(NotANumber)
      case Some(ws) => Ok(ws)
  }

  /** `calculate_updated_weight`: the ranking of every image against the
      query under the feedback weights. `stats` gives the standard
      deviations and the means of the relevant images' features. */
  function UpdatedRanking(relevant: seq<string>, m: seq<Column>, queryNum: int,
                          stats: map<int, seq<real>> -> (seq<real>, seq<real>)): Result<seq<Entry>>
    requires Rectangular(m)
    requires StatsPerFeature(stats, FeatureCount(m))
  {
    match RelevantFeatures(relevant, m)
    case Err(e) => Err(e)
    case Ok(rf) =>
      match FeedbackWeights(stats(rf).0, stats(rf).1)
      case Err(e) => Err(e)
      case Ok(ws) => DistanceRanking(m, queryNum, PerFeature(ws))
  }

  /** A sum of non-negative terms with a positive one is positive. */
  lemma SumPositive(s: seq<real>, k: nat)
    requires WeightUpdate.NonNegative(s) && k < |s| && s[k] > 0.0
    ensures Sum(s) > 0.0
  {
    SumNonNegative(s);
    if Sum(s) == 0.0 {
      SumZeroMeansAllZero(s);
    }
  }

  /** The deviations `check_std` returns: non-negative, and zero only where
      the deviation and the mean were both zero. */
  lemma CheckedDeviations(std: seq<real>, avg: seq<real>)
    requires WeightUpdate.NonNegative(std) && |std| <= |avg| && WeightUpdate.CheckStdResult(std, avg).Ok?
    ensures var c := WeightUpdate.CheckStdResult(std, avg).value;
            WeightUpdate.NonNegative(c) &&
            (forall k :: 0 <= k < |std| && std[k] != 0.0 ==> c[k] == std[k]) &&
            (forall k :: 0 <= k < |std| && c[k] == 0.0 ==> std[k] == 0.0 && k < |avg| && avg[k] == 0.0)
  {
    WeightUpdate.CheckStdShape(std, avg);
    WeightUpdate.CheckFromNonNegative(std, avg, 0);
  }

  /** Under non-negative deviations with a mean for each, the feedback
      weights exist exactly when some deviation is non-zero (or there are
      no features); they are then non-negative, sum to one, and give no
      weight to a feature whose deviation and mean are both zero. */
  lemma FeedbackWeightsProperties(std: seq<real>, avg: seq<real>)
    requires WeightUpdate.NonNegative(std) && |std| <= |avg|
    ensures FeedbackWeights(std, avg).Ok? <==> std == [] || exists k :: 0 <= k < |std| && std[k] != 0.0
    ensures FeedbackWeights(std, avg).Ok? ==>
              var ws := FeedbackWeights(std, avg).value;
              |ws| == |std| && WeightUpdate.NonNegative(ws) && (ws != [] ==> Sum(ws) == 1.0) &&
              forall k :: 0 <= k < |std| && std[k] == 0.0 && avg[k] == 0.0 ==> ws[k] == 0.0
  {
    WeightUpdate.CheckStdError(std, avg);
    if WeightUpdate.CheckStdResult(std, avg).Ok? {
      CheckedWeights(std, avg);
      var nw := WeightUpdate.NewWeights(WeightUpdate.CheckStdResult(std, avg).value);
      SumNonNegative(nw);
      if nw != [] && Sum(nw) != 0.0 {
        WeightUpdate.NormalizedWeightsSumToOne(nw);
      }
    }
  }

  /** The raw weights of the checked deviations are non-negative, have a
      positive total exactly when some deviation is non-zero, and are zero
      for a feature whose deviation and mean are both zero. */
  lemma CheckedWeights(std: seq<real>, avg: seq<real>)
    requires WeightUpdate.NonNegative(std) && |std| <= |avg| && WeightUpdate.CheckStdResult(std, avg).Ok?
    ensures var nw := WeightUpdate.NewWeights(WeightUpdate.CheckStdResult(std, avg).value);
            |nw| == |std| && WeightUpdate.NonNegative(nw) &&
            (Sum(nw) > 0.0 <==> exists k :: 0 <= k < |std| && std[k] != 0.0) &&
            (forall k :: 0 <= k < |std| && std[k] == 0.0 && avg[k] == 0.0 ==> nw[k] == 0.0)
  {
    var c := WeightUpdate.CheckStdResult(std, avg).value;
    CheckedDeviations(std, avg);
    var nw := WeightUpdate.NewWeights(c);
    WeightUpdate.NewWeightsNonNegative(c);
    WeightUpdate.CheckStdShape(std, avg);
    forall k | 0 <= k < |std| && std[k] == 0.0 && avg[k] == 0.0 ensures nw[k] == 0.0 {
      assert WeightUpdate.Kept(std, avg, k);
    }
    if exists k :: 0 <= k < |std| && std[k] != 0.0 {
      var k :| 0 <= k < |std| && std[k] != 0.0;
      WeightUpdate.NewWeightsOrder(c, k, k);
      SumPositive(nw, k);
    } else {
      WeightUpdate.CheckStdError(std, avg);
      forall k | 0 <= k < |nw| ensures nw[k] == 0.0 {
        assert WeightUpdate.Kept(std, avg, k);
      }
      SumOfZeros(nw);
    }
  }

  /** A feature that varies more among the relevant images gets a smaller
      feedback weight. */
  lemma FeedbackWeightsOrder(std: seq<real>, avg: seq<real>, i: nat, j: nat)
    requires WeightUpdate.NonNegative(std) && |std| <= |avg| && FeedbackWeights(std, avg).Ok?
    requires i < |std| && j < |std| && 0.0 < std[i] < std[j]
    ensures |FeedbackWeights(std, avg).value| == |std|
    ensures FeedbackWeights(std, avg).value[j] < FeedbackWeights(std, avg).value[i]
  {
    var c := WeightUpdate.CheckStdResult(std, avg).value;
    CheckedDeviations(std, avg);
    var nw := WeightUpdate.NewWeights(c);
    WeightUpdate.NewWeightsNonNegative(c);
    WeightUpdate.NewWeightsOrder(c, i, j);
    WeightUpdate.NormalizedWeightsKeepOrder(nw, i, j);
  }

  /** The relevance-feedback ranking keeps every property of
      `calculate_distance`: one entry per image, sorted, starting at the
      query's distance 0. */
  lemma UpdatedRankingProperties(relevant: seq<string>, m: seq<Column>, queryNum: int,
                                 stats: map<int, seq<real>> -> (seq<real>, seq<real>))
    requires Rectangular(m) && StatsPerFeature(stats, FeatureCount(m))
    requires forall rf :: WeightUpdate.NonNegative(stats(rf).0)
    requires UpdatedRanking(relevant, m, queryNum, stats).Ok?
    ensures var ranking := UpdatedRanking(relevant, m, queryNum, stats).value;
            |ranking| == |m| && Sorted(ranking) &&
            Entry(0.0, ImagePaths.ImagePath(queryNum)) in ranking &&
            ranking[0].distance == 0.0
  {
    var rf := RelevantFeatures(relevant, m).value;
    var std, avg := stats(rf).0, stats(rf).1;
    FeedbackWeightsProperties(std, avg);
    var ws := FeedbackWeights(std, avg).value;
    DistanceRankingShape(m, queryNum, PerFeature(ws));
    DistanceRankingStartsAtZero(m, queryNum, PerFeature(ws));
  }

  /** Once the relevant features and the feedback weights are found, the
      weights cover every feature of a relevant image, so the ranking fails
      only for a missing query (KeyError) or, when no image is relevant and
      the columns have features, at the first index of the empty weight
      list (IndexError). */
  lemma UpdatedRankingNeedsRelevant(relevant: seq<string>, m: seq<Column>, queryNum: int,
                                    stats: map<int, seq<real>> -> (seq<real>, seq<real>))
    requires Rectangular(m) && StatsPerFeature(stats, FeatureCount(m))
    requires RelevantFeatures(relevant, m).Ok?
    requires FeedbackWeights(stats(RelevantFeatures(relevant, m).value).0,
                             stats(RelevantFeatures(relevant, m).value).1).Ok?
    ensures UpdatedRanking(relevant, m, queryNum, stats).Ok? <==>
              Lookup(m, queryNum).Some? && (relevant != [] || FeatureCount(m) == 0)
    ensures Lookup(m, queryNum).Some? && relevant == [] && FeatureCount(m) > 0 ==>
              UpdatedRanking(relevant, m, queryNum, stats) == Err(IndexError)
  {
    var rf := RelevantFeatures(relevant, m).value;
    RelevantFeaturesShape(relevant, m);
    var std, avg := stats(rf).0, stats(rf).1;
    var ws := FeedbackWeights(std, avg).value;
    assert |ws| == |std|;
    if relevant != [] {
      forall num | num in rf ensures |rf[num]| == FeatureCount(m) {
        var k :| 0 <= k < |m| && m[k].num == num && m[k].features == rf[num];
      }
      assert |std| == FeatureCount(m);
    } else {
      assert std == [];
    }
    DistanceRankingErrors(m, queryNum, PerFeature(ws));
    var l := Lookup(m, queryNum);
    if l.Some? {
      var q :| 0 <= q < |m| && m[q].num == queryNum && m[q].features == l.value;
      assert |l.value| == FeatureCount(m);
      ScoredSucceeds(m, l.value, PerFeature(ws), |m|);
    }
  }

  /** `calculate_updated_weight`: gathers the relevant images' features,
      then runs the weight pipeline and `calculate_distance`. */
  method CalculateUpdatedWeight(relevant: seq<string>, m: seq<Column>, queryNum: int,
                                stats: map<int, seq<real>> -> (seq<real>, seq<real>))
    returns (r: Result<seq<Entry>>)
    requires Rectangular(m) && StatsPerFeature(stats, FeatureCount(m))
    ensures r == UpdatedRanking(relevant, m, queryNum, stats)
  {
    var rfFeatures: map<int, seq<real>> := map[];
    var i := 0;
    while i < |relevant|
      invariant 0 <= i <= |relevant|
      invariant RelevantFeatures(relevant[..i], m) == Ok(rfFeatures)
    {
      assert relevant[..i + 1][..i] == relevant[..i];
      var imgNum := ImagePaths.GetImgNum(relevant[i]);
      if imgNum.Err? {
        RelevantFeaturesErrorPersists(relevant, m, i + 1);
        return Err(imgNum.error);
      }
      var imgFeatures := Lookup(m, imgNum.value);
      if imgFeatures.None? {
        RelevantFeaturesErrorPersists(relevant, m, i + 1);
        return Err(KeyError);
      }
      rfFeatures := rfFeatures[imgNum.value := imgFeatures.value];
      i := i + 1;
    }
    assert relevant[..i] == relevant;
    var std, avg := stats(rfFeatures).0, stats(rfFeatures).1;
    var checked := WeightUpdate.CheckStd(std, avg);
    if checked.Err? {
      return Err(checked.error);
    }
    var updated := WeightUpdate.ComputeNewWeights(checked.value);
    var normalized := WeightUpdate.NormalizedWeights(updated);
    if normalized.None? {
      return Err(NotANumber);
    }
    r := CalculateDistance(m, queryNum, PerFeature(normalized.value));
  }

  lemma {:induction false} RelevantFeaturesErrorPersists(relevant: seq<string>, m: seq<Column>, n: nat)
    requires n <= |relevant| && RelevantFeatures(relevant[..n], m).Err?
    ensures RelevantFeatures(relevant, m) == RelevantFeatures(relevant[..n], m)
    decreases |relevant| - n
  {
    if n < |relevant| {
      assert relevant[..n + 1][..n] == relevant[..n];
      RelevantFeaturesErrorPersists(relevant, m, n + 1);
    } else {
      assert relevant[..n] == relevant;
    }
  }
}
