/** Transition systems given by an initial-state predicate and a step relation,
    and the invariance principle shared by the synchronization models. */
module Machines {

  ghost predicate StepAt<S(!new)>(next: (S, S) -> bool, trace: seq<S>, i: int)
    requires 0 <= i < |trace| - 1
  {
    next(trace[i], trace[i + 1])
  }

  ghost predicate IsTrace<S(!new)>(init: S -> bool, next: (S, S) -> bool, trace: seq<S>) {
    && |trace| > 0
    && init(trace[0])
    && forall i :: 0 <= i < |trace| - 1 ==> StepAt(next, trace, i)
  }

  ghost predicate Reachable<S(!new)>(init: S -> bool, next: (S, S) -> bool, s: S) {
    exists trace :: IsTrace(init, next, trace) && trace[|trace| - 1] == s
  }

  lemma {:induction false} InvariantAlong<S(!new)>(init: S -> bool, next: (S, S) -> bool, inv: S -> bool,
                                                   trace: seq<S>, k: nat)
    requires IsTrace(init, next, trace)
    requires forall s :: init(s) ==> inv(s)
    requires forall s, s' :: inv(s) && next(s, s') ==> inv(s')
    requires k < |trace|
    ensures inv(trace[k])
  {
    if k > 0 {
      InvariantAlong(init, next, inv, trace, k - 1);
      assert StepAt(next, trace, k - 1);
    }
  }

  /** What holds initially and is kept by every step holds in every reachable state. */
  lemma Invariance<S(!new)>(init: S -> bool, next: (S, S) -> bool, inv: S -> bool, s: S)
    requires forall s :: init(s) ==> inv(s)
    requires forall s, s' :: inv(s) && next(s, s') ==> inv(s')
    requires Reachable(init, next, s)
    ensures inv(s)
  {
    var trace :| IsTrace(init, next, trace) && trace[|trace| - 1] == s;
    InvariantAlong(init, next, inv, trace, |trace| - 1);
  }

  lemma PrefixReachable<S(!new)>(init: S -> bool, next: (S, S) -> bool, trace: seq<S>, k: nat)
    requires IsTrace(init, next, trace) && k < |trace|
    ensures Reachable(init, next, trace[k])
  {
    var prefix := trace[..k + 1];
    forall i | 0 <= i < |prefix| - 1 ensures StepAt(next, prefix, i) {
      assert StepAt(next, trace, i);
    }
    assert IsTrace(init, next, prefix) && prefix[|prefix| - 1] == trace[k];
  }

  lemma InitReachable<S(!new)>(init: S -> bool, next: (S, S) -> bool, s: S)
    requires init(s)
    ensures Reachable(init, next, s)
  {
    assert IsTrace(init, next, [s]);
    assert [s][|[s]| - 1] == s;
  }

  lemma StepReachable<S(!new)>(init: S -> bool, next: (S, S) -> bool, s: S, s': S)
    requires Reachable(init, next, s) && next(s, s')
    ensures Reachable(init, next, s')
  {
    var trace :| IsTrace(init, next, trace) && trace[|trace| - 1] == s;
    var longer := trace + [s'];
    forall i | 0 <= i < |longer| - 1
      ensures StepAt(next, longer, i)
    {
      if i < |trace| - 1 {
        assert StepAt(next, trace, i);
      }
    }
    assert IsTrace(init, next, longer) && longer[|longer| - 1] == s';
  }
}

/** Weighted sums over a table of threads, indexed by thread number. */
module Counting {

  ghost function Total<T>(s: seq<T>, w: T -> nat): nat {
    if s == [] then 0 else w(s[0]) + Total(s[1..], w)
  }

  /** Moving one thread changes the total by that thread's weights alone. */
  lemma {:induction false} TotalUpdate<T>(s: seq<T>, i: nat, x: T, w: T -> nat)
    requires i < |s|
    ensures Total(s[i := x], w) == Total(s, w) - w(s[i]) + w(x)
    ensures Total(s, w) >= w(s[i])
  {
    var u := s[i := x];
    if i == 0 {
      assert u[1..] == s[1..];
    } else {
      TotalUpdate(s[1..], i - 1, x, w);
      assert u[1..] == s[1..][i - 1 := x];
    }
  }

  lemma {:induction false} TotalZero<T>(s: seq<T>, w: T -> nat)
    ensures Total(s, w) == 0 <==> forall i :: 0 <= i < |s| ==> w(s[i]) == 0
  {
    if s != [] {
      TotalZero(s[1..], w);
      if Total(s, w) == 0 {
        forall i | 0 <= i < |s| ensures w(s[i]) == 0 {
          if i > 0 { assert s[i] == s[1..][i - 1]; }
        }
      }
      if forall i :: 0 <= i < |s| ==> w(s[i]) == 0 {
        forall i | 0 <= i < |s[1..]| ensures w(s[1..][i]) == 0 {
          assert s[1..][i] == s[i + 1];
        }
      }
    }
  }

  lemma TotalPositive<T>(s: seq<T>, w: T -> nat) returns (i: nat)
    requires Total(s, w) > 0
    ensures i < |s| && w(s[i]) > 0
  {
    TotalZero(s, w);
    i :| 0 <= i < |s| && w(s[i]) > 0;
  }

  lemma TotalAtLeast<T>(s: seq<T>, i: nat, w: T -> nat)
    requires i < |s|
    ensures Total(s, w) >= w(s[i])
  {
    TotalUpdate(s, i, s[i], w);
  }

  /** Two threads count separately. */
  lemma TotalAtLeastTwo<T>(s: seq<T>, i: nat, j: nat, w: T -> nat)
    requires i < |s| && j < |s| && i != j
    ensures Total(s, w) >= w(s[i]) + w(s[j])
  {
    if i < j {
      TotalSplit(s, j, w);
      TotalAtLeast(s[..j], i, w);
      TotalAtLeast(s[j..], 0, w);
    } else {
      TotalSplit(s, i, w);
      TotalAtLeast(s[..i], j, w);
      TotalAtLeast(s[i..], 0, w);
    }
  }

  lemma {:induction false} TotalSplit<T>(s: seq<T>, k: nat, w: T -> nat)
    requires k <= |s|
    ensures Total(s, w) == Total(s[..k], w) + Total(s[k..], w)
  {
    if k == 0 {
      assert s[0..] == s;
    } else {
      TotalSplit(s[1..], k - 1, w);
      assert s[1..][..k - 1] == s[..k][1..];
      assert s[1..][k - 1..] == s[k..];
    }
  }

  lemma {:induction false} TotalBound<T>(s: seq<T>, w: T -> nat, b: nat)
    requires forall i :: 0 <= i < |s| ==> w(s[i]) <= b
    ensures Total(s, w) <= b * |s|
  {
    if s != [] {
      forall i | 0 <= i < |s[1..]| ensures w(s[1..][i]) <= b {
        assert s[1..][i] == s[i + 1];
      }
      TotalBound(s[1..], w, b);
      assert b * |s| == b + b * |s[1..]|;
    }
  }

  lemma {:induction false} TotalMonotone<T>(s: seq<T>, wa: T -> nat, wb: T -> nat)
    requires forall i :: 0 <= i < |s| ==> wa(s[i]) <= wb(s[i])
    ensures Total(s, wa) <= Total(s, wb)
  {
    if s != [] {
      forall i | 0 <= i < |s[1..]| ensures wa(s[1..][i]) <= wb(s[1..][i]) {
        assert s[1..][i] == s[i + 1];
      }
      TotalMonotone(s[1..], wa, wb);
    }
  }
}
