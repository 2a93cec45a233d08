/** Retention policies (src/parser/retention_policy.h, src/parser/retention_policy.cpp:49-62). */
module Policies {
  import opened Times

  datatype Elem = Elem(freq: nat, duration: nat)

  type Policy = seq<Elem>

  datatype PolicyError =
    | NoError
    | DividesByZero(index: nat)
    | DurationNotMultiple(index: nat)
    | FreqNotMultiple(index: nat)
    | FreqLongerThanPrevious(index: nat)

  predicate PositiveFreqs(p: Policy) {
    forall i :: 0 <= i < |p| ==> p[i].freq > 0
  }

  predicate PositiveDurations(p: Policy) {
    forall i :: 0 <= i < |p| ==> p[i].duration > 0
  }

  /** The frequencies that the checks of element i divide by. */
  predicate Divisible(p: Policy, i: nat)
    requires i < |p|
  {
    p[i].freq > 0 && (i > 0 ==> p[i - 1].freq > 0)
  }

  /** Element i passes the checks. */
  ghost predicate Consistent(p: Policy, i: nat)
    requires i < |p| && Divisible(p, i)
  {
    && Divides(p[i].freq, p[i].duration)
    && (i > 0 ==> Divides(p[i - 1].freq, p[i].freq) && p[i].freq <= p[i - 1].duration)
  }

  ghost predicate ValidPolicy(p: Policy) {
    PositiveFreqs(p) && forall i: nat :: i < |p| ==> Consistent(p, i)
  }

  /** The elements from i up to n have positive frequencies and pass the checks. */
  ghost predicate ConsistentUpTo(p: Policy, i: nat, n: nat)
    requires i <= n <= |p|
  {
    && (forall j :: 0 <= j < n ==> p[j].freq > 0)
    && (forall j: nat :: i <= j < n ==> Consistent(p, j))
  }

  /**
   * What stops the validation, from element i on. The source does not check for a frequency of 0: it
   * divides by it, which is the end of the process and not an exception.
   */
  function FirstFault(p: Policy, i: nat): (e: PolicyError)
    requires i <= |p| && forall j :: 0 <= j < i ==> p[j].freq > 0
    decreases |p| - i
  {
    if i == |p| then NoError
    else if p[i].freq == 0 then DividesByZero(i)
    else if p[i].duration % p[i].freq != 0 then DurationNotMultiple(i)
    else if i > 0 && p[i].freq % p[i - 1].freq != 0 then FreqNotMultiple(i)
    else if i > 0 && p[i].freq > p[i - 1].duration then FreqLongerThanPrevious(i)
    else FirstFault(p, i + 1)
  }

  /** The element named by the fault has frequency 0 or fails a check, and none before it does either. */
  lemma {:induction false} FaultIsFirst(p: Policy, i: nat)
    requires i <= |p| && forall j :: 0 <= j < i ==> p[j].freq > 0
    ensures FirstFault(p, i) == NoError ==> ConsistentUpTo(p, i, |p|)
    ensures FirstFault(p, i) != NoError ==>
              && i <= FirstFault(p, i).index < |p| && ConsistentUpTo(p, i, FirstFault(p, i).index)
              && (FirstFault(p, i).DividesByZero? <==> p[FirstFault(p, i).index].freq == 0)
              && (p[FirstFault(p, i).index].freq > 0 ==> !Consistent(p, FirstFault(p, i).index))
    decreases |p| - i
  {
    if i < |p| && p[i].freq > 0 {
      FaultIsFirst(p, i + 1);
    }
  }

  /** retention_policy_validate accepts exactly the valid policies. */
  lemma {:induction false} FaultlessIsValid(p: Policy)
    ensures FirstFault(p, 0) == NoError <==> ValidPolicy(p)
  {
    FaultIsFirst(p, 0);
  }

  /** The validation divides by zero if and only if all elements before the first frequency of 0 pass the checks. */
  lemma {:induction false} DividesByZeroIff(p: Policy, i: nat)
    requires i <= |p| && forall j :: 0 <= j < i ==> p[j].freq > 0
    ensures FirstFault(p, i).DividesByZero? <==> exists n: nat ::
            i <= n < |p| && p[n].freq == 0 && ConsistentUpTo(p, i, n)
  {
    FaultIsFirst(p, i);
    if n: nat :| i <= n < |p| && p[n].freq == 0 && ConsistentUpTo(p, i, n) {
      var e := FirstFault(p, i);
      assert e != NoError && e.index <= n;
    }
  }

  /** A first element with frequency 0 is never rejected, whatever follows. */
  lemma {:induction false} ZeroFrequencyDivides(duration: nat, rest: Policy)
    ensures FirstFault([Elem(0, duration)] + rest, 0) == DividesByZero(0)
    ensures !ValidPolicy([Elem(0, duration)] + rest)
  {
    FaultlessIsValid([Elem(0, duration)] + rest);
  }

  /** A duration of 0 passes the checks at the end of a policy, and only there. */
  lemma {:induction false} ZeroDurationPassesLast(p: Policy, freq: nat)
    requires ValidPolicy(p) && freq > 0
    requires p != [] ==> Divides(p[|p| - 1].freq, freq) && freq <= p[|p| - 1].duration
    ensures ValidPolicy(p + [Elem(freq, 0)])
    ensures forall i :: 0 <= i < |p| - 1 ==> p[i].duration > 0
  {
    var q := p + [Elem(freq, 0)];
    forall i: nat | i < |q|
      ensures q[i].freq > 0 && Consistent(q, i)
    {
      assert i < |p| ==> Consistent(p, i);
    }
    forall i | 0 <= i < |p| - 1
      ensures p[i].duration > 0
    {
      assert Consistent(p, i + 1);
    }
  }

  /** retention_policy_validate */
  method Validate(p: Policy) returns (e: PolicyError)
    ensures e == FirstFault(p, 0)
    ensures e == NoError <==> ValidPolicy(p)
    ensures e != NoError ==> e.index < |p| && ConsistentUpTo(p, 0, e.index)
    ensures e.DividesByZero? ==> p[e.index].freq == 0
    ensures e.DurationNotMultiple? ==> p[e.index].freq > 0 && !Divides(p[e.index].freq, p[e.index].duration)
    ensures e.FreqNotMultiple? ==>
              e.index > 0 && p[e.index - 1].freq > 0 && !Divides(p[e.index - 1].freq, p[e.index].freq)
    ensures e.FreqLongerThanPrevious? ==> e.index > 0 && p[e.index].freq > p[e.index - 1].duration
  {
    FaultlessIsValid(p);
    FaultIsFirst(p, 0);
    for i := 0 to |p|
      invariant forall j :: 0 <= j < i ==> p[j].freq > 0
      invariant FirstFault(p, 0) == FirstFault(p, i)
    {
      if p[i].freq == 0 {
        return DividesByZero(i);
      }
      if p[i].duration % p[i].freq != 0 {
        return DurationNotMultiple(i);
      }
      if i > 0 && p[i].freq % p[i - 1].freq != 0 {
        return FreqNotMultiple(i);
      }
      if i > 0 && p[i].freq > p[i - 1].duration {
        return FreqLongerThanPrevious(i);
      }
    }
    return NoError;
  }

  /** The pairwise checks make every frequency a multiple of every earlier one. */
  lemma {:induction false} FrequencyChain(p: Policy, i: nat, j: nat)
    requires ValidPolicy(p) && i <= j < |p|
    ensures Divides(p[i].freq, p[j].freq)
    decreases j
  {
    if i == j {
      MultipleIsDivisible(p[i].freq, 1);
    } else {
      FrequencyChain(p, i, j - 1);
      assert Consistent(p, j);
      DividesTransitive(p[i].freq, p[j - 1].freq, p[j].freq);
    }
  }

  /**
   * Two elements whose frequencies are f and r times f, for m and n slots: the policy is valid if and only if
   * the second frequency is not longer than the first duration.
   */
  lemma {:induction false} TwoElements(f: nat, m: nat, r: nat, n: nat)
    requires f > 0 && r > 0
    ensures ValidPolicy([Elem(f, m * f), Elem(r * f, n * (r * f))]) <==> r <= m
  {
    var p := [Elem(f, m * f), Elem(r * f, n * (r * f))];
    assert r * f >= f by { MulMonotone(1, r, f); }
    MultipleIsDivisible(f, m);
    MultipleIsDivisible(f, r);
    MultipleIsDivisible(r * f, n);
    if r <= m {
      MulMonotone(r, m, f);
    } else {
      MulMonotone(m + 1, r, f);
      assert !Consistent(p, 1);
    }
  }

  /**
   * A duration that is not a multiple of its frequency, or a frequency that is not one of the frequency before,
   * is rejected.
   */
  lemma {:induction false} MustDivide(p: Policy, i: nat)
    requires i < |p| && ValidPolicy(p)
    ensures p[i].duration % p[i].freq == 0 && (i > 0 ==> p[i].freq % p[i - 1].freq == 0)
  {
    assert Consistent(p, i);
  }
}
