/** Sums over a sequence of threads, users or slots, and how one update changes them. */
module Sums {

  function Sum<T>(f: T -> int, s: seq<T>): (n: int)
  {
    if |s| == 0 then 0 else f(s[0]) + Sum(f, s[1..])
  }

  lemma {:induction false} SumUpdate<T>(f: T -> int, s: seq<T>, i: nat, v: T)
    requires i < |s|
    ensures Sum(f, s[i := v]) == Sum(f, s) - f(s[i]) + f(v)
  {
    if i == 0 {
      assert s[0 := v][1..] == s[1..];
    } else {
      assert s[i := v][1..] == s[1..][i - 1 := v];
      SumUpdate(f, s[1..], i - 1, v);
    }
  }

  lemma {:induction false} SumAppend<T>(f: T -> int, s: seq<T>, v: T)
    ensures Sum(f, s + [v]) == Sum(f, s) + f(v)
  {
    if |s| == 0 {
      assert s + [v] == [v];
    } else {
      assert (s + [v])[1..] == s[1..] + [v];
      SumAppend(f, s[1..], v);
    }
  }

  /** A sum of non-negative terms is at least each of them. */
  lemma {:induction false} SumMember<T>(f: T -> int, s: seq<T>, i: nat)
    requires i < |s| && forall j :: 0 <= j < |s| ==> f(s[j]) >= 0
    ensures f(s[i]) <= Sum(f, s)
  {
    SumNonNegative(f, s[1..]);
    if i > 0 {
      SumMember(f, s[1..], i - 1);
    }
  }

  lemma {:induction false} SumNonNegative<T>(f: T -> int, s: seq<T>)
    requires forall j :: 0 <= j < |s| ==> f(s[j]) >= 0
    ensures Sum(f, s) >= 0
  {
    if |s| > 0 {
      SumNonNegative(f, s[1..]);
    }
  }

  lemma {:induction false} SumZero<T>(f: T -> int, s: seq<T>)
    requires forall j :: 0 <= j < |s| ==> f(s[j]) == 0
    ensures Sum(f, s) == 0
  {
    if |s| > 0 {
      SumZero(f, s[1..]);
    }
  }

  /** A positive sum of non-negative terms has a positive term. */
  lemma {:induction false} SumPositive<T>(f: T -> int, s: seq<T>) returns (i: nat)
    requires Sum(f, s) > 0 && forall j :: 0 <= j < |s| ==> f(s[j]) >= 0
    ensures i < |s| && f(s[i]) > 0
  {
    if f(s[0]) > 0 {
      i := 0;
    } else {
      i := SumPositive(f, s[1..]);
      i := i + 1;
    }
  }
}
