/** The relevance-feedback weight update: zero standard deviations of
    features the relevant images share at a non-zero mean are replaced by
    half the smallest non-zero deviation, every deviation is turned into a
    weight by taking its reciprocal, and the weights are normalised to sum
    to one. The deviations and means are given inputs. */
module WeightUpdate {
  import opened Common

  /** `filter(None, vals)`: the non-zero values, in order. */
  function NonZero(s: seq<real>): (r: seq<real>)
    ensures forall x :: x in r <==> x in s && x != 0.0
  {
    if s == [] then []
    else NonZero(s[..|s| - 1]) + (if s[|s| - 1] != 0.0 then [s[|s| - 1]] else [])
  }

  /** Python's `min` of a non-empty sequence. */
  function Min(s: seq<real>): (m: real)
    requires s != []
    ensures m in s
    ensures forall i :: 0 <= i < |s| ==> m <= s[i]
  {
    if |s| == 1 then s[0]
    else
      var m' := Min(s[..|s| - 1]);
      assert forall i :: 0 <= i < |s| - 1 ==> s[i] == s[..|s| - 1][i];
      if s[|s| - 1] < m' then s[|s| - 1] else m'
  }

  /** One iteration of the `check_std` loop at index `i`, on the list as
      updated so far. */
  function Step(vals: seq<real>, avg: seq<real>, i: nat): (r: Result<seq<real>>)
    requires i < |vals|
    ensures r.Ok? ==> |r.value| == |vals|
  {
    if vals[i] != 0.0 then Ok(vals)
    else if i >= |avg| then Err(IndexError)
    else if avg[i] == 0.0 then Ok(vals)
    else if NonZero(vals) == [] then Err(ValueError)
    else Ok(vals[i := 0.5 * Min(NonZero(vals))])
  }

  /** The `check_std` loop from index `i` on. */
  function CheckFrom(vals: seq<real>, avg: seq<real>, i: nat): (r: Result<seq<real>>)
    requires i <= |vals|
    ensures r.Ok? ==> |r.value| == |vals|
    decreases |vals| - i
  {
    if i == |vals| then Ok(vals)
    else match Step(vals, avg, i)
      case Err(e) => Err(e)
      case Ok(v) => CheckFrom(v, avg, i + 1)
  }

  /** A deviation `check_std` keeps: non-zero, or zero at a zero mean. */
  predicate Kept(std: seq<real>, avg: seq<real>, k: nat)
    requires k < |std|
  {
    std[k] != 0.0 || (k < |avg| && avg[k] == 0.0)
  }

  /** A deviation `check_std` replaces: zero at a non-zero mean. */
  predicate Replaced(std: seq<real>, avg: seq<real>, k: nat)
    requires k < |std|
  {
    std[k] == 0.0 && k < |avg| && avg[k] != 0.0
  }

  /** What the loop does from index `i` on: it keeps the entries before
      `i` and those it does not replace, and sets each replaced entry to
      half the smallest non-zero value of the list as it stands at that
      point, earlier replacements included. */
  lemma {:induction false} CheckFromShape(vals: seq<real>, avg: seq<real>, i: nat)
    requires i <= |vals| && CheckFrom(vals, avg, i).Ok?
    ensures var t := CheckFrom(vals, avg, i).value;
            |t| == |vals| && t[..i] == vals[..i] &&
            (forall k :: i <= k < |vals| && Kept(vals, avg, k) ==> t[k] == vals[k]) &&
            (forall k :: i <= k < |vals| && Replaced(vals, avg, k) ==>
               NonZero(t[..k] + vals[k..]) != [] && t[k] == 0.5 * Min(NonZero(t[..k] + vals[k..])))
    decreases |vals| - i
  {
    if i < |vals| {
      var v := Step(vals, avg, i).value;
      CheckFromShape(v, avg, i + 1);
      var t := CheckFrom(vals, avg, i).value;
      assert t == CheckFrom(v, avg, i + 1).value;
      assert t[..i] == v[..i] == vals[..i] by {
        assert t[..i] == t[..i + 1][..i];
        assert v[..i] == v[..i + 1][..i];
      }
      assert t[i] == v[i] by {
        assert t[i] == t[..i + 1][i];
      }
      forall k | i <= k < |vals| && Replaced(vals, avg, k)
        ensures NonZero(t[..k] + vals[k..]) != [] && t[k] == 0.5 * Min(NonZero(t[..k] + vals[k..]))
      {
        if k == i {
          assert t[..k] + vals[k..] == vals;
        } else {
          assert v[k..] == vals[k..];
        }
      }
    }
  }

  /** `check_std` on the deviations and means of the relevant images. */
  function CheckStdResult(std: seq<real>, avg: seq<real>): Result<seq<real>>
  {
    CheckFrom(std, avg, 0)
  }

  /** `check_std`: overwrites zero deviations in place, from left to right. */
  method CheckStd(std: seq<real>, avg: seq<real>) returns (r: Result<seq<real>>)
    ensures r == CheckStdResult(std, avg)
  {
    var vals := std;
    var i := 0;
    while i < |vals|
      invariant 0 <= i <= |vals| == |std|
      invariant CheckFrom(vals, avg, i) == CheckFrom(std, avg, 0)
      decreases |vals| - i
    {
      if vals[i] == 0.0 {
        if i >= |avg| {
          return Err(IndexError);
        }
        if avg[i] != 0.0 {
          var nonZero := NonZero(vals);
          if nonZero == [] {
            return Err(ValueError);
          }
          vals := vals[i := 0.5 * Min(nonZero)];
        }
      }
      i := i + 1;
    }
    return Ok(vals);
  }

  /** `check_std` keeps the length, every non-zero deviation and every zero
      one at a zero mean, and replaces each zero deviation at a non-zero
      mean by half the least non-zero value of the list as updated so far. */
  lemma CheckStdShape(std: seq<real>, avg: seq<real>)
    requires CheckStdResult(std, avg).Ok?
    ensures var t := CheckStdResult(std, avg).value;
            |t| == |std| &&
            (forall k :: 0 <= k < |std| && Kept(std, avg, k) ==> t[k] == std[k]) &&
            (forall k :: 0 <= k < |std| && Replaced(std, avg, k) ==>
               NonZero(t[..k] + std[k..]) != [] && t[k] == 0.5 * Min(NonZero(t[..k] + std[k..])))
  {
    CheckFromShape(std, avg, 0);
  }

  lemma NonZeroEmpty(s: seq<real>)
    ensures NonZero(s) == [] <==> forall k :: 0 <= k < |s| ==> s[k] == 0.0
  {
    if NonZero(s) != [] {
      assert NonZero(s)[0] in NonZero(s);
    }
    if exists k :: 0 <= k < |s| && s[k] != 0.0 {
      var k :| 0 <= k < |s| && s[k] != 0.0;
      assert s[k] in NonZero(s);
    }
  }

  lemma {:induction false} CheckFromError(vals: seq<real>, avg: seq<real>, i: nat)
    requires i <= |vals| <= |avg|
    ensures CheckFrom(vals, avg, i).Err? <==>
              NonZero(vals) == [] && exists k :: i <= k < |vals| && avg[k] != 0.0
    ensures CheckFrom(vals, avg, i).Err? ==> CheckFrom(vals, avg, i).error == ValueError
    decreases |vals| - i
  {
    if i < |vals| {
      var step := Step(vals, avg, i);
      if step.Ok? {
        var v := step.value;
        CheckFromError(v, avg, i + 1);
        if v != vals {
          var m := Min(NonZero(vals));
          assert v[i] == 0.5 * m && m != 0.0;
          assert v[i] in NonZero(v);
        } else if vals[i] != 0.0 {
          assert vals[i] in NonZero(vals);
        }
      }
    }
  }

  /** With a mean for every deviation, `check_std` fails exactly when every
      deviation is zero and some mean is not, and the failure is the
      ValueError of `min` on an empty sequence. */
  lemma CheckStdError(std: seq<real>, avg: seq<real>)
    requires |std| <= |avg|
    ensures CheckStdResult(std, avg).Err? <==>
              (forall k :: 0 <= k < |std| ==> std[k] == 0.0) && exists k :: 0 <= k < |std| && avg[k] != 0.0
    ensures CheckStdResult(std, avg).Err? ==> CheckStdResult(std, avg).error == ValueError
  {
    CheckFromError(std, avg, 0);
    NonZeroEmpty(std);
  }

  predicate NonNegative(s: seq<real>)
  {
    forall k :: 0 <= k < |s| ==> s[k] >= 0.0
  }

  /** The least non-zero value of a non-negative list is positive. */
  lemma MinNonZeroPositive(s: seq<real>)
    requires NonNegative(s) && NonZero(s) != []
    ensures Min(NonZero(s)) > 0.0
  {
    var m := Min(NonZero(s));
    assert m in s;
  }

  lemma {:induction false} CheckFromNonNegative(vals: seq<real>, avg: seq<real>, i: nat)
    requires i <= |vals| && NonNegative(vals) && CheckFrom(vals, avg, i).Ok?
    ensures NonNegative(CheckFrom(vals, avg, i).value)
    decreases |vals| - i
  {
    if i < |vals| {
      var v := Step(vals, avg, i).value;
      if v != vals {
        MinNonZeroPositive(vals);
      }
      CheckFromNonNegative(v, avg, i + 1);
    }
  }

  lemma SpliceNonNegative(t: seq<real>, s: seq<real>, k: nat)
    requires NonNegative(t) && NonNegative(s) && |t| == |s| && k <= |s|
    ensures NonNegative(t[..k] + s[k..])
  {
    var l := t[..k] + s[k..];
    forall i | 0 <= i < |l| ensures l[i] >= 0.0 {
      if i < k { assert l[i] == t[i]; } else { assert l[i] == s[i]; }
    }
  }

  /** The least non-zero value is at most each non-zero value. */
  lemma MinNonZeroAtMost(s: seq<real>, x: real)
    requires x in s && x != 0.0
    ensures NonZero(s) != [] && Min(NonZero(s)) <= x
  {
    var nz := NonZero(s);
    assert x in nz;
    var j :| 0 <= j < |nz| && nz[j] == x;
  }

  /** On non-negative deviations every replacement is positive and at most
      half of each earlier replacement: the replacements halve in turn. */
  lemma CheckStdReplacementsHalve(std: seq<real>, avg: seq<real>, a: nat, b: nat)
    requires NonNegative(std) && CheckStdResult(std, avg).Ok?
    requires a < b < |std| && Replaced(std, avg, a) && Replaced(std, avg, b)
    ensures var t := CheckStdResult(std, avg).value;
            t[a] > 0.0 && t[b] > 0.0 && t[b] <= t[a] / 2.0
  {
    var t := CheckStdResult(std, avg).value;
    CheckStdShape(std, avg);
    CheckFromNonNegative(std, avg, 0);
    SpliceNonNegative(t, std, a);
    SpliceNonNegative(t, std, b);
    var la := t[..a] + std[a..];
    var lb := t[..b] + std[b..];
    MinNonZeroPositive(la);
    MinNonZeroPositive(lb);
    assert lb[a] == t[a];
    MinNonZeroAtMost(lb, t[a]);
  }

  /** A worked case: two zero deviations at non-zero means before a 4; the
      first becomes 2 and the second half of that new minimum. */
  lemma CheckStdExample()
    ensures CheckStdResult([0.0, 0.0, 4.0], [1.0, 1.0, 1.0]) == Ok([2.0, 1.0, 4.0])
  {
    var avg := [1.0, 1.0, 1.0];
    var s0, s1, s2 := [0.0, 0.0, 4.0], [2.0, 0.0, 4.0], [2.0, 1.0, 4.0];
    ExampleFirstStep();
    ExampleSecondStep();
    assert Step(s2, avg, 2) == Ok(s2);
    assert CheckFrom(s2, avg, 2) == Ok(s2);
    assert CheckFrom(s1, avg, 1) == CheckFrom(s2, avg, 2);
    assert CheckFrom(s0, avg, 0) == CheckFrom(s1, avg, 1);
  }

  lemma ExampleFirstStep()
    ensures Step([0.0, 0.0, 4.0], [1.0, 1.0, 1.0], 0) == Ok([2.0, 0.0, 4.0])
  {
    var s0 := [0.0, 0.0, 4.0];
    assert NonZero(s0) == [4.0] by {
      assert s0[..2] == [0.0, 0.0] && [0.0, 0.0][..1] == [0.0] && [0.0][..0] == [];
    }
    assert Min([4.0]) == 4.0;
    assert s0[0 := 2.0] == [2.0, 0.0, 4.0];
  }

  lemma ExampleSecondStep()
    ensures Step([2.0, 0.0, 4.0], [1.0, 1.0, 1.0], 1) == Ok([2.0, 1.0, 4.0])
  {
    var s1 := [2.0, 0.0, 4.0];
    assert NonZero(s1) == [2.0, 4.0] by {
      assert s1[..2] == [2.0, 0.0] && [2.0, 0.0][..1] == [2.0] && [2.0][..0] == [];
    }
    assert Min([2.0, 4.0]) == 2.0 by {
      assert [2.0, 4.0][..1] == [2.0];
    }
    assert s1[1 := 1.0] == [2.0, 1.0, 4.0];
  }

  /** `1 / s` for a non-zero deviation, 0 for a zero one. */
  function Reciprocal(s: real): (w: real)
    ensures s != 0.0 ==> w * s == 1.0
    ensures s == 0.0 ==> w == 0.0
  {
    if s != 0.0 then 1.0 / s else 0.0
  }

  /** The weights `compute_new_weights` gives. */
  function NewWeights(std: seq<real>): (w: seq<real>)
    ensures |w| == |std|
    ensures forall i :: 0 <= i < |std| ==> w[i] == Reciprocal(std[i])
  {
    seq(|std|, i requires 0 <= i < |std| => Reciprocal(std[i]))
  }

  /** `compute_new_weights`: one weight appended per deviation. */
  method ComputeNewWeights(std: seq<real>) returns (weights: seq<real>)
    ensures weights == NewWeights(std)
    ensures forall i :: 0 <= i < |std| && std[i] != 0.0 ==> weights[i] * std[i] == 1.0
    ensures forall i :: 0 <= i < |std| && std[i] == 0.0 ==> weights[i] == 0.0
  {
    weights := [];
    var i := 0;
    while i < |std|
      invariant 0 <= i <= |std|
      invariant weights == NewWeights(std[..i])
    {
      weights := weights + [if std[i] != 0.0 then 1.0 / std[i] else 0.0];
      i := i + 1;
    }
    assert std[..i] == std;
  }

  /** Non-negative deviations give non-negative weights, positive ones
      positive weights, and a larger deviation a smaller weight. */
  lemma NewWeightsOrder(std: seq<real>, i: nat, j: nat)
    requires i < |std| && j < |std|
    ensures std[i] >= 0.0 ==> NewWeights(std)[i] >= 0.0
    ensures std[i] > 0.0 ==> NewWeights(std)[i] > 0.0
    ensures 0.0 < std[i] < std[j] ==> NewWeights(std)[j] < NewWeights(std)[i]
  {
    var w := NewWeights(std);
    if std[i] > 0.0 {
      assert w[i] == 1.0 / std[i];
    }
    if 0.0 < std[i] < std[j] {
      assert w[j] == 1.0 / std[j];
      ReciprocalDecreasing(std[i], std[j]);
    }
  }

  /** Non-negative deviations give non-negative weights. */
  lemma NewWeightsNonNegative(std: seq<real>)
    requires NonNegative(std)
    ensures NonNegative(NewWeights(std))
  {
    forall k | 0 <= k < |std| ensures NewWeights(std)[k] >= 0.0 {
      NewWeightsOrder(std, k, k);
    }
  }

  lemma ReciprocalDecreasing(x: real, y: real)
    requires 0.0 < x < y
    ensures 1.0 / y < 1.0 / x
  {
    assert 1.0 / x - 1.0 / y == (y - x) / (x * y);
  }

  /** `compute_normalized_weights`: each weight over the total. When the
      total of a non-empty list is zero the source divides by zero and
      goes on with NaN weights; that case is `None`. */
  function NormalizedWeights(w: seq<real>): (r: Option<seq<real>>)
    ensures r.None? <==> w != [] && Sum(w) == 0.0
    ensures r.Some? ==> |r.value| == |w|
    ensures r.Some? ==> forall i :: 0 <= i < |w| ==> r.value[i] * Sum(w) == w[i]
  {
    if w == [] then Some([])
    else if Sum(w) == 0.0 then None
    else Some(DivideAll(w, Sum(w)))
  }

  /** The normalised weights sum to one, and keep their signs when the
      total is positive. */
  lemma NormalizedWeightsSumToOne(w: seq<real>)
    requires Sum(w) != 0.0
    ensures NormalizedWeights(w).Some?
    ensures Sum(NormalizedWeights(w).value) == 1.0
    ensures NonNegative(w) ==> NonNegative(NormalizedWeights(w).value)
  {
    assert w != [];
    SumDivideAll(w, Sum(w));
    assert Sum(w) / Sum(w) == 1.0;
    if NonNegative(w) {
      SumNonNegative(w);
      var r := NormalizedWeights(w).value;
      forall i | 0 <= i < |r| ensures r[i] >= 0.0 {
        assert r[i] == w[i] / Sum(w);
      }
    }
  }

  /** Normalising keeps the order of non-negative weights. */
  lemma NormalizedWeightsKeepOrder(w: seq<real>, i: nat, j: nat)
    requires NonNegative(w) && i < |w| && j < |w| && w[j] < w[i]
    ensures NormalizedWeights(w).Some?
    ensures NormalizedWeights(w).value[j] < NormalizedWeights(w).value[i]
  {
    SumNonNegative(w);
    if Sum(w) == 0.0 {
      SumZeroMeansAllZero(w);
    }
    var r := NormalizedWeights(w).value;
    ScaledLess(r[j], r[i], Sum(w));
  }

  lemma ScaledLess(a: real, b: real, t: real)
    requires t > 0.0 && a * t < b * t
    ensures a < b
  {
  }
}
