/**
 The minimum excludant of a finite set of non-negative integers: the least
 non-negative integer that is not a member.
 */
module MinExcludant {

  /** `m` is the minimum excludant of `s`. */
  ghost predicate IsMex(s: set<nat>, m: nat)
  {
    m !in s && forall x: nat :: x < m ==> x in s
  }

  /** The integers `0 .. k-1`: there are `k` of them. */
  function Below(k: nat): (r: set<nat>)
    ensures forall x: nat :: x in r <==> x < k
    ensures |r| == k
  {
    if k == 0 then {} else Below(k - 1) + {k - 1}
  }

  /** A set holding every integer below `k` has at least `k` members; this is
      why counting up from 0 must stop. */
  lemma HoldsBelowSize(s: set<nat>, k: nat)
    requires forall x: nat :: x < k ==> x in s
    ensures k <= |s|
  {
    var low := Below(k);
    assert low <= s;
    assert s == low + (s - low);
    assert low * (s - low) == {};
  }

  /** Counting up from `k`, every integer below `k` being a member. */
  function MexFrom(s: set<nat>, k: nat): (m: nat)
    requires forall x: nat :: x < k ==> x in s
    ensures k <= m <= |s|
    ensures IsMex(s, m)
    decreases |s| - k
  {
    HoldsBelowSize(s, k);
    if k in s then
      HoldsBelowSize(s, k + 1);
      MexFrom(s, k + 1)
    else
      k
  }

  /** The minimum excludant; a set of `c` members excludes some integer `<= c`. */
  function Mex(s: set<nat>): (m: nat)
    ensures IsMex(s, m)
    ensures m <= |s|
  {
    MexFrom(s, 0)
  }

  /** The minimum excludant is unique, so any value with the two defining
      properties is `Mex(s)`. */
  lemma MexUnique(s: set<nat>, m: nat)
    requires IsMex(s, m)
    ensures Mex(s) == m
  {
  }

  /** The counting loop: start at 0 and step up while the counter is a member.
      The result is absent, everything below it is present, and it is at most
      the number of members. */
  method FindMex(options: set<nat>) returns (mex: nat)
    ensures mex !in options
    ensures forall x: nat :: x < mex ==> x in options
    ensures mex <= |options|
  {
    mex := 0;
    while mex in options
      invariant forall x: nat :: x < mex ==> x in options
      invariant mex <= |options|
      decreases |options| - mex
    {
      HoldsBelowSize(options, mex + 1);
      mex := mex + 1;
    }
  }
}
