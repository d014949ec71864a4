/** The FIFO admission test that the Formix.Semaphore and
    Formix.Synchronization revisions both run in CanExecute, stated once over
    the sequence of usages of the queued entries (in queue order), together
    with the capacity invariant it maintains.

    Walking the queue with `remains = Value` and subtracting each entry's
    usage, the entry at position i is admitted when, on reaching it,
    `remains >= usage`; the loops also give up early once `remains <= 0`.
    With positive usages the early exit never changes the answer, so the
    test is `Admissible` below. */
module Admission {
  import opened Sequences

  /** Total usage of a sequence of entries. */
  function Sum(us: seq<int>): int
  {
    if us == [] then 0 else Sum(us[..|us| - 1]) + us[|us| - 1]
  }

  ghost predicate Positive(us: seq<int>)
  {
    forall i :: 0 <= i < |us| ==> us[i] > 0
  }

  ghost predicate NonNegative(us: seq<int>)
  {
    forall i :: 0 <= i < |us| ==> us[i] >= 0
  }

  /** The entry at position i fits in what `value` leaves once every entry
      queued before it has been counted. */
  predicate Admissible(us: seq<int>, value: int, i: int)
  {
    0 <= i < |us| && value - Sum(us[..i]) >= us[i]
  }

  /** Every running entry is admissible at its current position. */
  ghost predicate RunningAdmissible(us: seq<int>, running: seq<bool>, value: int)
  {
    |running| == |us| &&
    forall i :: 0 <= i < |us| && running[i] ==> Admissible(us, value, i)
  }

  /** Total usage of the running entries. */
  function RunningSum(us: seq<int>, running: seq<bool>): int
    requires |running| == |us|
  {
    if us == [] then 0
    else
      var n := |us| - 1;
      RunningSum(us[..n], running[..n]) + (if running[n] then us[n] else 0)
  }

  /** Number of running entries. */
  function CountTrue(bs: seq<bool>): (n: nat)
    ensures n <= |bs|
    ensures n == 0 <==> true !in bs
  {
    if bs == [] then 0
    else
      var m := |bs| - 1;
      assert bs == bs[..m] + [bs[m]];
      CountTrue(bs[..m]) + (if bs[m] then 1 else 0)
  }

  // ---------------------------------------------------------------------
  // Arithmetic of prefix sums

  lemma SumStep(us: seq<int>, i: nat)
    requires i < |us|
    ensures Sum(us[..i + 1]) == Sum(us[..i]) + us[i]
  {
    assert us[..i + 1][..i] == us[..i];
  }

  lemma {:induction false} SumAppend(a: seq<int>, b: seq<int>)
    ensures Sum(a + b) == Sum(a) + Sum(b)
  {
    if b == [] {
      assert a + b == a;
    } else {
      var n := |b| - 1;
      assert (a + b)[..|a + b| - 1] == a + b[..n];
      assert (a + b)[|a + b| - 1] == b[n];
      SumAppend(a, b[..n]);
    }
  }

  lemma {:induction false} SumRemoveIndex(s: seq<int>, k: nat)
    requires k < |s|
    ensures Sum(RemoveIndex(s, k)) == Sum(s) - s[k]
  {
    var n := |s| - 1;
    var r := RemoveIndex(s, k);
    if k < n {
      assert r[..|r| - 1] == RemoveIndex(s[..n], k);
      SumRemoveIndex(s[..n], k);
    } else {
      assert r == s[..n];
    }
  }

  /** With positive usages, a longer prefix carries at least one more unit
      of usage per extra entry. */
  lemma {:induction false} SumPrefixGrows(us: seq<int>, j: nat, k: nat)
    requires Positive(us) && j <= k <= |us|
    ensures Sum(us[..j]) + (k - j) <= Sum(us[..k])
  {
    if j < k {
      SumPrefixGrows(us, j, k - 1);
      SumStep(us, k - 1);
    }
  }

  /** The sum taken from the front. */
  lemma SumCons(us: seq<int>)
    requires us != []
    ensures Sum(us) == us[0] + Sum(us[1..])
  {
    assert us == [us[0]] + us[1..];
    SumAppend([us[0]], us[1..]);
    assert [us[0]][..0] == [];
  }

  /** With non-negative usages no prefix outweighs the whole. */
  lemma SumPrefixAtMost(us: seq<int>, k: nat)
    requires NonNegative(us) && k <= |us|
    ensures Sum(us[..k]) <= Sum(us)
  {
    assert us == us[..k] + us[k..];
    SumAppend(us[..k], us[k..]);
    SumNonNegative(us[k..]);
  }

  lemma {:induction false} SumNonNegative(us: seq<int>)
    requires NonNegative(us)
    ensures Sum(us) >= 0
  {
    if us != [] {
      SumNonNegative(us[..|us| - 1]);
    }
  }

  lemma PositiveRemoveIndex(us: seq<int>, k: nat)
    requires Positive(us) && k < |us|
    ensures Positive(RemoveIndex(us, k)) && NonNegative(us)
  {
  }

  // ---------------------------------------------------------------------
  // Properties of the admission test

  /** An admitted entry and everything queued before it fit in the value. */
  lemma AdmittedFits(us: seq<int>, value: int, i: nat)
    requires Admissible(us, value, i)
    ensures Sum(us[..i + 1]) <= value
  {
    SumStep(us, i);
  }

  /** A freshly enqueued entry, at the tail, is admitted exactly when the
      whole queue before it plus its own usage fits. */
  lemma AdmissibleAtTail(us: seq<int>, u: int, value: int)
    ensures Admissible(us + [u], value, |us|) <==> Sum(us) + u <= value
  {
    assert (us + [u])[..|us|] == us;
  }

  /** FIFO: admission is prefix-closed. If an entry passes, every entry
      queued before it passes too. */
  lemma PrefixClosed(us: seq<int>, value: int, i: nat, j: nat)
    requires Positive(us) && Admissible(us, value, i) && j < i
    ensures Admissible(us, value, j)
  {
    SumPrefixGrows(us, j + 1, i);
    SumStep(us, j);
  }

  /** With a value of 1 (the mutex) only the head of the queue can pass. */
  lemma MutexAdmitsOnlyHead(us: seq<int>, i: nat)
    requires Positive(us) && Admissible(us, 1, i)
    ensures i == 0
  {
    SumPrefixGrows(us, 0, i);
  }

  /** Appending at the tail does not change any verdict before the tail. */
  lemma AdmissibleAfterAppend(us: seq<int>, u: int, value: int, i: nat)
    requires Admissible(us, value, i)
    ensures Admissible(us + [u], value, i)
  {
    assert (us + [u])[..i] == us[..i];
  }

  /** Removing another entry keeps an admissible entry admissible, at its
      shifted position. */
  lemma AdmissibleAfterRemove(us: seq<int>, value: int, i: nat, k: nat)
    requires NonNegative(us) && k < |us| && k != i && Admissible(us, value, i)
    ensures Admissible(RemoveIndex(us, k), value, if k < i then i - 1 else i)
  {
    var r := RemoveIndex(us, k);
    if k > i {
      assert r[..i] == us[..i];
    } else {
      assert r[..i - 1] == RemoveIndex(us[..i], k);
      SumRemoveIndex(us[..i], k);
    }
  }

  // ---------------------------------------------------------------------
  // The capacity invariant

  lemma RunningAdmissibleAppend(us: seq<int>, running: seq<bool>, value: int, u: int)
    requires RunningAdmissible(us, running, value)
    ensures RunningAdmissible(us + [u], running + [false], value)
  {
    forall i | 0 <= i < |us| && running[i] ensures Admissible(us + [u], value, i) {
      AdmissibleAfterAppend(us, u, value, i);
    }
  }

  lemma RunningAdmissibleRemove(us: seq<int>, running: seq<bool>, value: int, k: nat)
    requires NonNegative(us) && RunningAdmissible(us, running, value) && k < |us|
    ensures RunningAdmissible(RemoveIndex(us, k), RemoveIndex(running, k), value)
  {
    var r, rr := RemoveIndex(us, k), RemoveIndex(running, k);
    forall i | 0 <= i < |r| && rr[i] ensures Admissible(r, value, i) {
      var i' := if i < k then i else i + 1;
      AdmissibleAfterRemove(us, value, i', k);
    }
  }

  /** Starting an admissible entry keeps the invariant: `raised` differs
      from `running` by at most the flag at p being set. */
  lemma RunningAdmissibleRaise(us: seq<int>, running: seq<bool>, raised: seq<bool>, value: int, p: nat)
    requires RunningAdmissible(us, running, value) && Admissible(us, value, p) && |raised| == |us|
    requires forall i :: 0 <= i < |us| && raised[i] && i != p ==> running[i]
    ensures RunningAdmissible(us, raised, value)
  {
  }

  /** Stopping entries keeps the invariant. */
  lemma RunningAdmissibleLower(us: seq<int>, running: seq<bool>, lowered: seq<bool>, value: int)
    requires RunningAdmissible(us, running, value) && |lowered| == |us|
    requires forall i :: 0 <= i < |us| && lowered[i] ==> running[i]
    ensures RunningAdmissible(us, lowered, value)
  {
  }

  /** The sum of running usage never exceeds the value, whenever anything
      runs at all. */
  lemma {:induction false} CapacityBound(us: seq<int>, running: seq<bool>, value: int)
    requires NonNegative(us) && RunningAdmissible(us, running, value)
    ensures true in running ==> RunningSum(us, running) <= value
    ensures true !in running ==> RunningSum(us, running) == 0
  {
    if us != [] {
      var n := |us| - 1;
      var ps, pr := us[..n], running[..n];
      assert running == pr + [running[n]];
      forall i | 0 <= i < n && pr[i] ensures Admissible(ps, value, i) {
        assert ps[..i] == us[..i];
      }
      CapacityBound(ps, pr, value);
      if running[n] {
        RunningSumAtMostSum(ps, pr);
        assert ps == us[..n];
      }
    }
  }

  lemma {:induction false} RunningSumAtMostSum(us: seq<int>, running: seq<bool>)
    requires NonNegative(us) && |running| == |us|
    ensures 0 <= RunningSum(us, running) <= Sum(us)
  {
    if us != [] {
      var n := |us| - 1;
      RunningSumAtMostSum(us[..n], running[..n]);
    }
  }

  /** With a value of 1 at most one entry runs at a time. */
  lemma MutexRunsAlone(us: seq<int>, running: seq<bool>)
    requires Positive(us) && RunningAdmissible(us, running, 1)
    ensures CountTrue(running) <= 1
  {
    forall i | 0 <= i < |running| && running[i] ensures i == 0 {
      MutexAdmitsOnlyHead(us, i);
    }
    CountTrueOnlyHead(running);
  }

  lemma {:induction false} CountTrueOnlyHead(bs: seq<bool>)
    requires forall i :: 0 < i < |bs| ==> !bs[i]
    ensures CountTrue(bs) <= 1
  {
    if |bs| > 1 {
      CountTrueOnlyHead(bs[..|bs| - 1]);
    }
  }

  /** No overtaking, on a concrete queue: with 5 units, a running entry of 2
      at the head, then A(4) and B(1), B does not overtake A even though the
      3 free units would hold it. */
  lemma NoOvertaking()
    ensures Admissible([2, 4, 1], 5, 0)
    ensures !Admissible([2, 4, 1], 5, 1) && !Admissible([2, 4, 1], 5, 2)
  {
    assert [2, 4, 1][..1] == [2];
    assert [2, 4, 1][..2] == [2, 4];
    assert [2, 4][..1] == [2];
  }
}
