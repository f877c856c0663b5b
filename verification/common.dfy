/** Shared vocabulary: the Python exceptions the tool can raise, absolute
    values and sums over sequences of reals. */
module Common {

  /** The Python exceptions the modelled code can raise on bad input. */
  datatype Error =
    | ValueError   // int() of a non-numeric string, min() of an empty sequence
    | KeyError     // a dictionary or DataFrame column lookup that misses
    | IndexError   // a list index past the end
    | ZeroDivisionError  // a Python float divided by zero
    | NotANumber   // the source goes on with NaN values, which are not modelled

  datatype Result<T> = Ok(value: T) | Err(error: Error)

  datatype Option<T> = None | Some(value: T)

  function Abs(x: real): (r: real)
    ensures r >= 0.0
    ensures r == x || r == -x
  {
    if x < 0.0 then -x else x
  }

  /** Left-to-right sum, as a Python loop `acc += x` computes it. */
  function Sum(s: seq<real>): real
  {
    if s == [] then 0.0 else Sum(s[..|s| - 1]) + s[|s| - 1]
  }

  lemma {:induction false} SumAppend(a: seq<real>, b: seq<real>)
    ensures Sum(a + b) == Sum(a) + Sum(b)
  {
    if b != [] {
      assert (a + b)[..|a + b| - 1] == a + b[..|b| - 1];
      SumAppend(a, b[..|b| - 1]);
    } else {
      assert a + b == a;
    }
  }

  lemma {:induction false} SumNonNegative(s: seq<real>)
    requires forall i :: 0 <= i < |s| ==> s[i] >= 0.0
    ensures Sum(s) >= 0.0
  {
    if s != [] {
      SumNonNegative(s[..|s| - 1]);
    }
  }

  lemma {:induction false} SumOfZeros(s: seq<real>)
    requires forall i :: 0 <= i < |s| ==> s[i] == 0.0
    ensures Sum(s) == 0.0
  {
    if s != [] {
      SumOfZeros(s[..|s| - 1]);
    }
  }

  /** A sum of non-negative terms is zero only if every term is. */
  lemma {:induction false} SumZeroMeansAllZero(s: seq<real>)
    requires forall i :: 0 <= i < |s| ==> s[i] >= 0.0
    requires Sum(s) == 0.0
    ensures forall i :: 0 <= i < |s| ==> s[i] == 0.0
  {
    if s != [] {
      SumNonNegative(s[..|s| - 1]);
      SumZeroMeansAllZero(s[..|s| - 1]);
      forall i | 0 <= i < |s| ensures s[i] == 0.0 {
        if i < |s| - 1 {
          assert s[i] == s[..|s| - 1][i];
        }
      }
    }
  }

  /** Every element divided by `t`. */
  function DivideAll(s: seq<real>, t: real): (r: seq<real>)
    requires t != 0.0
    ensures |r| == |s| && forall i :: 0 <= i < |s| ==> r[i] * t == s[i]
  {
    seq(|s|, i requires 0 <= i < |s| => s[i] / t)
  }

  /** Dividing every term divides the sum. */
  lemma {:induction false} SumDivideAll(s: seq<real>, t: real)
    requires t != 0.0
    ensures Sum(DivideAll(s, t)) == Sum(s) / t
  {
    if s != [] {
      assert DivideAll(s, t)[..|s| - 1] == DivideAll(s[..|s| - 1], t);
      SumDivideAll(s[..|s| - 1], t);
    }
  }

  /** `m` subtracted from every element. */
  function SubtractAll(s: seq<real>, m: real): (r: seq<real>)
    ensures |r| == |s| && forall i :: 0 <= i < |s| ==> r[i] + m == s[i]
  {
    seq(|s|, i requires 0 <= i < |s| => s[i] - m)
  }

  /** Subtracting `m` from every term subtracts `|s| * m` from the sum. */
  lemma {:induction false} SumSubtractAll(s: seq<real>, m: real)
    ensures Sum(SubtractAll(s, m)) == Sum(s) - |s| as real * m
  {
    if s != [] {
      assert SubtractAll(s, m)[..|s| - 1] == SubtractAll(s[..|s| - 1], m);
      SumSubtractAll(s[..|s| - 1], m);
    }
  }
}
