/** The belief state: a non-negative score per cell, kept either normalised
    (agent_6.py) or as unnormalised confidence (agent_7.py, agent_9.py).
    Beliefs are reals; the flat index of (x, y) is `Grid.Index(x, y, dim)`. */
module Belief {
  import opened Wrappers
  import opened Grid

  function Sum(s: seq<real>): real
  {
    if s == [] then 0.0 else Sum(s[..|s| - 1]) + s[|s| - 1]
  }

  /** Every entry of `s` times `c` (numpy's `array *= c`). */
  function Scale(s: seq<real>, c: real): (r: seq<real>)
    ensures |r| == |s| && forall i :: 0 <= i < |s| ==> r[i] == s[i] * c
  {
    seq(|s|, i requires 0 <= i < |s| => s[i] * c)
  }

  ghost predicate NonNegative(s: seq<real>)
  {
    forall i :: 0 <= i < |s| ==> s[i] >= 0.0
  }

  /** `np.amax`. */
  function Max(s: seq<real>): (m: real)
    requires |s| > 0
    ensures exists k :: 0 <= k < |s| && s[k] == m
    ensures forall k :: 0 <= k < |s| ==> s[k] <= m
  {
    if |s| == 1 then s[0]
    else
      var rest := Max(s[..|s| - 1]);
      assert forall k :: 0 <= k < |s| - 1 ==> s[..|s| - 1][k] == s[k];
      if s[|s| - 1] > rest then s[|s| - 1] else rest
  }

  /** The number of cells whose belief is positive. */
  function PositiveCount(s: seq<real>): nat
  {
    if s == [] then 0 else PositiveCount(s[..|s| - 1]) + (if s[|s| - 1] > 0.0 then 1 else 0)
  }

  lemma {:induction false} SumScale(s: seq<real>, c: real)
    ensures Sum(Scale(s, c)) == c * Sum(s)
  {
    if s != [] {
      ScalePrefix(s, c);
      SumScale(s[..|s| - 1], c);
    }
  }

  lemma ScalePrefix(s: seq<real>, c: real)
    requires s != []
    ensures Scale(s, c)[..|s| - 1] == Scale(s[..|s| - 1], c)
  {
    var a, b := Scale(s, c)[..|s| - 1], Scale(s[..|s| - 1], c);
    assert |a| == |b|;
    forall k | 0 <= k < |a| ensures a[k] == b[k] {
      assert a[k] == s[k] * c;
    }
  }

  lemma {:induction false} SumUpdate(s: seq<real>, i: int, v: real)
    requires 0 <= i < |s|
    ensures Sum(s[i := v]) == Sum(s) - s[i] + v
  {
    var t := s[i := v];
    if i == |s| - 1 {
      assert t[..|t| - 1] == s[..|s| - 1];
    } else {
      assert t[..|t| - 1] == s[..|s| - 1][i := v];
      SumUpdate(s[..|s| - 1], i, v);
    }
  }

  lemma {:induction false} SumConstant(n: nat, v: real)
    ensures Sum(seq(n, _ => v)) == (n as real) * v
  {
    if n > 0 {
      assert seq(n, _ => v)[..n - 1] == seq(n - 1, _ => v);
      SumConstant(n - 1, v);
    }
  }

  /** An entry of a non-negative sequence is at most its sum. */
  lemma {:induction false} EntryAtMostSum(s: seq<real>, i: int)
    requires NonNegative(s) && 0 <= i < |s|
    ensures s[i] <= Sum(s)
  {
    SumNonNegative(s[..|s| - 1]);
    if i < |s| - 1 {
      EntryAtMostSum(s[..|s| - 1], i);
    }
  }

  lemma {:induction false} SumNonNegative(s: seq<real>)
    requires NonNegative(s)
    ensures Sum(s) >= 0.0
  {
    if s != [] {
      SumNonNegative(s[..|s| - 1]);
    }
  }

  /** A non-negative sequence that sums to 1 has a positive maximum. */
  lemma {:induction false} MaxPositiveWhenNormalised(s: seq<real>)
    requires |s| > 0 && NonNegative(s) && Sum(s) == 1.0
    ensures Max(s) > 0.0
  {
    if Max(s) <= 0.0 {
      AllZero(s);
      assert false;
    }
  }

  lemma {:induction false} AllZero(s: seq<real>)
    requires forall i :: 0 <= i < |s| ==> s[i] == 0.0
    ensures Sum(s) == 0.0
  {
    if s != [] {
      AllZero(s[..|s| - 1]);
    }
  }

  /** Zeroing a positive entry removes exactly one positive cell. */
  lemma {:induction false} PositiveCountZero(s: seq<real>, i: int)
    requires 0 <= i < |s| && s[i] > 0.0
    ensures PositiveCount(s[i := 0.0]) == PositiveCount(s) - 1
  {
    var t := s[i := 0.0];
    if i == |s| - 1 {
      assert t[..|t| - 1] == s[..|s| - 1];
    } else {
      assert t[..|t| - 1] == s[..|s| - 1][i := 0.0];
      PositiveCountZero(s[..|s| - 1], i);
    }
  }

  /** Scaling by a positive factor keeps the set of positive cells. */
  lemma {:induction false} PositiveCountScale(s: seq<real>, c: real)
    requires c > 0.0
    ensures PositiveCount(Scale(s, c)) == PositiveCount(s)
  {
    if s != [] {
      ScalePrefix(s, c);
      PositiveCountScale(s[..|s| - 1], c);
      assert s[|s| - 1] > 0.0 <==> s[|s| - 1] * c > 0.0;
    }
  }

  /** The uniform prior 1/dim² of agent_6.py sums to one. */
  lemma UniformSumsToOne(n: nat)
    requires n > 0
    ensures Sum(seq(n, _ => 1.0 / (n as real))) == 1.0
  {
    SumConstant(n, 1.0 / (n as real));
  }

  datatype BeliefError = InvalidStatus | ZeroDivision

  /** `get_scalar`: the factor that renormalises the belief after a blocked
      cell or a failed examine. numpy yields an infinite factor when the belief
      is 1; reals have no infinity, so that case is the ZeroDivision error. */
  function GetScalar(fnr: seq<real>, belief: real, status: Status, terrain: Terrain): (r: Result<real, BeliefError>)
    requires |fnr| == 3
    requires status == Examine ==> terrain.IsSurface()
    ensures r.Success? <==> (status == Blocked || status == Examine) && belief != 1.0
    ensures status != Blocked && status != Examine ==> r == Failure(InvalidStatus)
    ensures r.Success? && status == Blocked ==> r.value * (1.0 - belief) == 1.0
    ensures r.Success? && status == Examine ==>
              r.value * (1.0 - belief) == 1.0 - fnr[terrain.RateIndex()] * belief
  {
    if status == Blocked then
      if belief == 1.0 then Failure(ZeroDivision) else Success(1.0 / (1.0 - belief))
    else if status == Examine then
      if belief == 1.0 then Failure(ZeroDivision)
      else Success((1.0 - fnr[terrain.RateIndex()] * belief) / (1.0 - belief))
    else Failure(InvalidStatus)
  }

  /** The blocked update of agent_6.py: rescale everything by 1/(1-p), then zero
      the cell. The belief stays a distribution and the cell holds exactly 0. */
  lemma NormalisedBlockedUpdate(s: seq<real>, i: int, c: real)
    requires NonNegative(s) && Sum(s) == 1.0 && 0 <= i < |s|
    requires c * (1.0 - s[i]) == 1.0
    ensures var t := Scale(s, c)[i := 0.0];
      Sum(t) == 1.0 && NonNegative(t) && t[i] == 0.0 &&
      (forall j :: 0 <= j < |s| && s[j] == 0.0 ==> t[j] == 0.0)
  {
    EntryAtMostSum(s, i);
    BlockedScale(c, s[i]);
    ScaledUpdateSum(s, i, c, 0.0);
    ScaledUpdateNonNegative(s, i, c, 0.0);
  }

  /** The factor of the blocked update is positive and removes `p` exactly. */
  lemma BlockedScale(c: real, p: real)
    requires p <= 1.0 && c * (1.0 - p) == 1.0
    ensures c > 0.0 && c * 1.0 - p * c + 0.0 == 1.0
  {
    assert c * (1.0 - p) == c - p * c;
    if c <= 0.0 {
      MulNonNegative(-c, 1.0 - p);
    }
  }

  /** The failed-examine update of agent_6.py: rescale by (1-fnr·p)/(1-p), then
      set the cell to p·fnr. The belief stays a distribution. */
  lemma NormalisedExamineUpdate(s: seq<real>, i: int, c: real, fnr: real)
    requires NonNegative(s) && Sum(s) == 1.0 && 0 <= i < |s|
    requires 0.0 <= fnr <= 1.0 && s[i] != 1.0
    requires c * (1.0 - s[i]) == 1.0 - fnr * s[i]
    ensures var t := Scale(s, c)[i := s[i] * fnr];
      Sum(t) == 1.0 && NonNegative(t) &&
      (forall j :: 0 <= j < |s| && s[j] == 0.0 ==> t[j] == 0.0)
  {
    EntryAtMostSum(s, i);
    ExamineScale(c, s[i], fnr);
    MulNonNegative(s[i], fnr);
    ScaledUpdateSum(s, i, c, s[i] * fnr);
    ScaledUpdateNonNegative(s, i, c, s[i] * fnr);
  }

  /** The factor of the failed-examine update is non-negative and trades `p`
      for `p·fnr` exactly. */
  lemma ExamineScale(c: real, p: real, fnr: real)
    requires 0.0 <= p <= 1.0 && p != 1.0 && 0.0 <= fnr <= 1.0
    requires c * (1.0 - p) == 1.0 - fnr * p
    ensures c >= 0.0 && c * 1.0 - p * c + p * fnr == 1.0
  {
    assert c * (1.0 - p) == c - p * c;
    assert fnr * p == p * fnr;
    MulLeq(fnr, p);
    if c < 0.0 {
      MulNonNegative(-c, 1.0 - p);
    }
  }

  /** The sum after rescaling by `c` and then setting entry `i` to `v`. */
  lemma ScaledUpdateSum(s: seq<real>, i: int, c: real, v: real)
    requires Sum(s) == 1.0 && 0 <= i < |s|
    ensures Sum(Scale(s, c)[i := v]) == c * 1.0 - s[i] * c + v
  {
    SumScale(s, c);
    SumUpdate(Scale(s, c), i, v);
  }

  /** Rescaling by a non-negative `c` and setting entry `i` to a non-negative
      `v` keeps every entry non-negative, and every other zero at zero. */
  lemma ScaledUpdateNonNegative(s: seq<real>, i: int, c: real, v: real)
    requires NonNegative(s) && 0 <= i < |s| && c >= 0.0 && v >= 0.0
    ensures NonNegative(Scale(s, c)[i := v])
    ensures forall j :: 0 <= j < |s| && j != i && s[j] == 0.0 ==> Scale(s, c)[i := v][j] == 0.0
  {
    var t := Scale(s, c)[i := v];
    forall j | 0 <= j < |t| ensures t[j] >= 0.0 {
      if j != i {
        MulNonNegative(s[j], c);
      }
    }
  }

  lemma MulNonNegative(a: real, b: real)
    requires a >= 0.0 && b >= 0.0
    ensures a * b >= 0.0
  {
  }

  lemma MulLeq(a: real, b: real)
    requires 0.0 <= a <= 1.0 && b >= 0.0
    ensures a * b <= b
  {
  }

  /** The unnormalised update of agent_9.py on one cell: Blocked zeroes it,
      Empty keeps it, Examine multiplies it by the terrain's rate. */
  function Unnormalised(s: seq<real>, i: int, status: Status, rate: real): (r: Result<seq<real>, BeliefError>)
    requires 0 <= i < |s|
    ensures r.Success? <==> status == Blocked || status == Empty || status == Examine
    ensures r.Success? ==> |r.value| == |s| && forall j :: 0 <= j < |s| && j != i ==> r.value[j] == s[j]
    ensures status == Blocked ==> r.Success? && r.value[i] == 0.0
    ensures status == Empty ==> r == Success(s)
    ensures status == Examine ==> r.Success? && r.value[i] == s[i] * rate
  {
    match status
    case Blocked => Success(s[i := 0.0])
    case Empty => Success(s)
    case Examine => Success(s[i := s[i] * rate])
    case _ => Failure(InvalidStatus)
  }

  /** With a rate in [0, 1] the unnormalised update keeps every belief
      non-negative, never raises a belief, and keeps a zero at zero. */
  lemma UnnormalisedKeepsBounds(s: seq<real>, i: int, status: Status, rate: real)
    requires 0 <= i < |s| && NonNegative(s) && 0.0 <= rate <= 1.0
    requires Unnormalised(s, i, status, rate).Success?
    ensures var t := Unnormalised(s, i, status, rate).value;
      NonNegative(t) && (forall j :: 0 <= j < |s| ==> t[j] <= s[j]) &&
      (forall j :: 0 <= j < |s| && s[j] == 0.0 ==> t[j] == 0.0)
  {
    UnnormalisedEntry(s, i, status, rate);
    var t := Unnormalised(s, i, status, rate).value;
    assert t == s[i := t[i]];
    UpdateWithin(s, i, t[i]);
  }

  /** The updated entry lies between zero and its old value. */
  lemma UnnormalisedEntry(s: seq<real>, i: int, status: Status, rate: real)
    requires 0 <= i < |s| && s[i] >= 0.0 && 0.0 <= rate <= 1.0
    requires Unnormalised(s, i, status, rate).Success?
    ensures 0.0 <= Unnormalised(s, i, status, rate).value[i] <= s[i]
  {
    var v := Unnormalised(s, i, status, rate).value[i];
    if status == Examine {
      ExaminedEntry(s, i, rate);
    } else if status == Blocked {
      assert v == 0.0;
    } else {
      assert v == s[i];
    }
  }

  /** A failed examination leaves entry `i` between zero and its old value. */
  lemma ExaminedEntry(s: seq<real>, i: int, rate: real)
    requires 0 <= i < |s| && s[i] >= 0.0 && 0.0 <= rate <= 1.0
    ensures 0.0 <= Unnormalised(s, i, Examine, rate).value[i] <= s[i]
  {
    var x := s[i];
    RateWithin(x, rate);
    assert Unnormalised(s, i, Examine, rate).value[i] == x * rate;
  }

  /** A rate in [0, 1] keeps a non-negative belief between zero and itself. */
  lemma RateWithin(x: real, rate: real)
    requires x >= 0.0 && 0.0 <= rate <= 1.0
    ensures 0.0 <= x * rate <= x
  {
    MulLeq(rate, x);
    MulNonNegative(x, rate);
  }

  /** Lowering entry `i` to a non-negative `v` keeps every entry between zero
      and its old value, and a zero at zero. */
  lemma UpdateWithin(s: seq<real>, i: int, v: real)
    requires 0 <= i < |s| && NonNegative(s) && 0.0 <= v <= s[i]
    ensures var t := s[i := v];
      NonNegative(t) && (forall j :: 0 <= j < |s| ==> t[j] <= s[j]) &&
      (forall j :: 0 <= j < |s| && s[j] == 0.0 ==> t[j] == 0.0)
  {
  }

  /** The update applied to the belief array in place. */
  method UpdateUnnormalised(a: array<real>, i: int, status: Status, rate: real)
    returns (r: Result<(), BeliefError>)
    requires 0 <= i < a.Length
    modifies a
    ensures r.Success? <==> Unnormalised(old(a[..]), i, status, rate).Success?
    ensures r.Success? ==> a[..] == Unnormalised(old(a[..]), i, status, rate).value
    ensures r.Failure? ==> a[..] == old(a[..]) && r.error == InvalidStatus
  {
    ghost var before := a[..];
    if status == Blocked {
      a[i] := 0.0;
      assert a[..] == old(a[..])[i := 0.0];
      assert Unnormalised(old(a[..]), i, status, rate) == Success(old(a[..])[i := 0.0]);
    } else if status == Empty {
      assert Unnormalised(old(a[..]), i, status, rate) == Success(old(a[..]));
    } else if status == Examine {
      var v := a[i];
      a[i] := v * rate;
      assert a[..] == Unnormalised(before, i, status, rate).value by {
        var u := Unnormalised(before, i, status, rate).value;
        forall j | 0 <= j < a.Length ensures a[j] == u[j] {
        }
      }
    } else {
      return Failure(InvalidStatus);
    }
    return Success(());
  }

  /** `1 - fnr` for every terrain. */
  function Complements(fnr: seq<real>): (r: seq<real>)
    ensures |r| == |fnr|
  {
    seq(|fnr|, i requires 0 <= i < |fnr| => 1.0 - fnr[i])
  }

  /** The terrain confidences of agent_7.py: (1 - fnr_t) divided by the mean of
      the (1 - fnr) values. They average exactly 1, and none is negative when
      every rate is at most 1. */
  function Confidences(fnr: seq<real>): (r: seq<real>)
    requires |fnr| > 0 && Sum(Complements(fnr)) != 0.0
    ensures |r| == |fnr|
    ensures Sum(r) == |fnr| as real
    ensures (forall t :: 0 <= t < |fnr| ==> fnr[t] <= 1.0) ==> forall t :: 0 <= t < |r| ==> r[t] >= 0.0
  {
    var mean := Sum(Complements(fnr)) / (|fnr| as real);
    SumScale(Complements(fnr), 1.0 / mean);
    MeanComplementPositive(fnr);
    Scale(Complements(fnr), 1.0 / mean)
  }

  lemma MeanComplementPositive(fnr: seq<real>)
    requires |fnr| > 0 && Sum(Complements(fnr)) != 0.0
    ensures (forall t :: 0 <= t < |fnr| ==> fnr[t] <= 1.0) ==> Sum(Complements(fnr)) > 0.0
  {
    if forall t :: 0 <= t < |fnr| ==> fnr[t] <= 1.0 {
      SumNonNegative(Complements(fnr));
    }
  }

  /** `belief_is_greater`: the belief of `a` is at least that of `b`. */
  predicate BeliefIsGreater(s: seq<real>, a: int, b: int)
    requires 0 <= a < |s| && 0 <= b < |s|
  {
    s[a] >= s[b]
  }
}
