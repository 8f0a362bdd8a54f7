/**
 The Grundy table of the one-dimensional splitting game: a move on a board of
 size `i` splits it at `j` into independent boards of sizes `j` and `i-1-j`,
 whose values combine by Nim-addition. The table is built by dynamic
 programming, each entry being the minimum excludant of the values of its
 splits; boards of size 0 and 1 are given the value 0.
 */
module SplitGame {
  import opened Nim
  import opened MinExcludant

  /** Reference recurrence: the value of the move that splits a board of size
      `i` at `j`, leaving boards of sizes `j` and `i-1-j`. */
  function MoveValue(i: nat, j: nat): (r: nat)
    requires j < i
    decreases i, 0
  {
    Xor(Grundy(j), Grundy(i - 1 - j))
  }

  /** Reference recurrence: the values of ALL moves from a board of size `i`. */
  function Moves(i: nat): (r: set<nat>)
    decreases i, 1
  {
    set j: nat | j < i :: MoveValue(i, j)
  }

  /** Reference recurrence: the Grundy value of a board of size `i`, with the
      base values 0 for sizes 0 and 1. From size 2 on it is absent from the
      values of the moves, and every smaller value is present. */
  function Grundy(i: nat): (r: nat)
    ensures i < 2 ==> r == 0
    ensures 2 <= i ==> r !in Moves(i)
    ensures 2 <= i ==> forall x: nat :: x < r ==> x in Moves(i)
    decreases i, 2
  {
    if i < 2 then 0 else Mex(Moves(i))
  }

  /** The table the builder produces for bound `n`: the values of sizes
      `0 .. n-1`, and never fewer than the two base entries. */
  ghost function GrundyTable(n: nat): (r: seq<nat>)
  {
    seq(if n < 2 then 2 else n, k requires 0 <= k => Grundy(k))
  }

  /** The value of the split at `j` of a board of size `i`, with the values of
      the smaller boards read from the table `g`. */
  function SplitValue(g: seq<nat>, i: nat, j: nat): (r: nat)
    requires j < i <= |g|
  {
    Xor(g[j], g[i - 1 - j])
  }

  /** The candidate set after the first `k` split points `j = 0 .. k-1` of a
      board of size `i` have been added, read from the table `g`: exactly the
      values of those split points, and so at most `k` of them. */
  function Splits(g: seq<nat>, i: nat, k: nat): (r: set<nat>)
    requires i <= |g| && k <= i
    ensures forall j: nat :: j < k ==> SplitValue(g, i, j) in r
    ensures |r| <= k
    decreases k
  {
    if k == 0 then {} else Splits(g, i, k - 1) + {SplitValue(g, i, k - 1)}
  }

  /** Every candidate is the value of one of the first `k` split points. */
  lemma {:induction false} SplitsHas(g: seq<nat>, i: nat, k: nat, v: nat)
    requires i <= |g| && k <= i
    requires v in Splits(g, i, k)
    ensures exists j: nat :: j < k && v == SplitValue(g, i, j)
    decreases k
  {
    if v != SplitValue(g, i, k - 1) {
      SplitsHas(g, i, k - 1, v);
    }
  }

  /** Enumerating only the first half of the split points, `j < ceil(i/2)`,
      gives the same set as enumerating all of them: the split at `j` and the
      split at `i-1-j` have the same value because Nim-addition commutes. */
  lemma SplitsHalfCoverAll(g: seq<nat>, i: nat)
    requires i <= |g|
    ensures Splits(g, i, (i + 1) / 2) == Splits(g, i, i)
  {
    var half := (i + 1) / 2;
    forall v | v in Splits(g, i, half)
      ensures v in Splits(g, i, i)
    {
      SplitsHas(g, i, half, v);
    }
    forall v | v in Splits(g, i, i)
      ensures v in Splits(g, i, half)
    {
      SplitsHas(g, i, i, v);
      var j: nat :| j < i && v == SplitValue(g, i, j);
      if half <= j {
        var mirror: nat := i - 1 - j;
        XorCommutes(g[j], g[i - 1 - j]);
        assert i - 1 - mirror == j;
        assert v == SplitValue(g, i, mirror);
      }
    }
  }

  /** Every member of `Moves(i)` is the value of some split point. */
  lemma MovesHas(i: nat, v: nat)
    requires v in Moves(i)
    ensures exists j: nat :: j < i && v == MoveValue(i, j)
  {
  }

  /** Over a table that agrees with the recurrence below `i`, the splits of
      size `i` are exactly its moves. */
  lemma SplitsOfTable(g: seq<nat>, i: nat)
    requires i <= |g|
    requires forall k :: 0 <= k < i ==> g[k] == Grundy(k)
    ensures Splits(g, i, i) == Moves(i)
  {
    forall v | v in Moves(i)
      ensures v in Splits(g, i, i)
    {
      MovesHas(i, v);
      var j: nat :| j < i && v == MoveValue(i, j);
      assert v == SplitValue(g, i, j);
    }
    forall v | v in Splits(g, i, i)
      ensures v in Moves(i)
    {
      SplitsHas(g, i, i, v);
      var j: nat :| j < i && v == SplitValue(g, i, j);
      assert v == MoveValue(i, j);
    }
  }

  /** The value appended for size `i` is the recurrence's value as soon as it
      is the minimum excludant of the half-enumerated splits over a table that
      is correct below `i`. */
  lemma AppendedIsGrundy(g: seq<nat>, i: nat, v: nat)
    requires 2 <= i <= |g|
    requires forall k :: 0 <= k < i ==> g[k] == Grundy(k)
    requires IsMex(Splits(g, i, (i + 1) / 2), v)
    ensures v == Grundy(i)
  {
    SplitsHalfCoverAll(g, i);
    SplitsOfTable(g, i);
    MexUnique(Moves(i), v);
  }

  /** Entries stay small: the value of size `i >= 2` is at most `ceil(i/2)`,
      the number of split points the builder enumerates. */
  lemma GrundyBound(i: nat)
    requires 2 <= i
    ensures Grundy(i) <= (i + 1) / 2
  {
    var g := GrundyTable(i);
    SplitsOfTable(g, i);
    SplitsHalfCoverAll(g, i);
  }

  /** The table for a bound is a prefix of the table for any larger bound. */
  lemma GrundyTablePrefix(n: nat, m: nat)
    requires n <= m
    ensures GrundyTable(n) == GrundyTable(m)[..|GrundyTable(n)|]
  {
  }

  /** The table `[0, 0, 1, 2, 0, 1]` worked out by hand. */
  function FirstSix(): (r: seq<nat>)
  {
    [0, 0, 1, 2, 0, 1]
  }

  /** Size 2 has the one split value `0 ^ 0`. */
  lemma FirstSixTwo(g: seq<nat>)
    requires g == FirstSix()
    requires forall k :: 0 <= k < 2 ==> g[k] == Grundy(k)
    ensures g[2] == Grundy(2)
  {
    XorIdentities(0);
    assert Splits(g, 2, 1) == {0};
    AppendedIsGrundy(g, 2, g[2]);
  }

  /** Size 3 has the split values `0 ^ 1` and `0 ^ 0`. */
  lemma FirstSixThree(g: seq<nat>)
    requires g == FirstSix()
    requires forall k :: 0 <= k < 3 ==> g[k] == Grundy(k)
    ensures g[3] == Grundy(3)
  {
    XorIdentities(0);
    XorIdentities(1);
    assert Splits(g, 3, 2) == {1, 0};
    AppendedIsGrundy(g, 3, g[3]);
  }

  /** Size 4 has the split values `0 ^ 2` and `0 ^ 1`. */
  lemma FirstSixFour(g: seq<nat>)
    requires g == FirstSix()
    requires forall k :: 0 <= k < 4 ==> g[k] == Grundy(k)
    ensures g[4] == Grundy(4)
  {
    XorIdentities(1);
    XorIdentities(2);
    assert Splits(g, 4, 2) == {2, 1};
    AppendedIsGrundy(g, 4, g[4]);
  }

  /** Size 5 has the split values `0 ^ 0`, `0 ^ 2` and `1 ^ 1`. */
  lemma FirstSixFive(g: seq<nat>)
    requires g == FirstSix()
    requires forall k :: 0 <= k < 5 ==> g[k] == Grundy(k)
    ensures g[5] == Grundy(5)
  {
    XorIdentities(0);
    XorIdentities(1);
    XorIdentities(2);
    assert Splits(g, 5, 3) == {0, 2};
    AppendedIsGrundy(g, 5, g[5]);
  }

  /** The first six entries, worked out from the recurrence. */
  lemma FirstSixValues()
    ensures GrundyTable(6) == FirstSix()
  {
    var g := FirstSix();
    FirstSixTwo(g);
    FirstSixThree(g);
    FirstSixFour(g);
    FirstSixFive(g);
    assert forall k :: 0 <= k < 6 ==> g[k] == Grundy(k);
  }

  /** The inner loop: collect the value of each split point in the first half
      of a board of size `i`. The set it builds is that of all split points. */
  method CollectOptions(results: seq<nat>, i: nat) returns (options: set<nat>)
    requires i <= |results|
    ensures options == Splits(results, i, (i + 1) / 2)
    ensures options == Splits(results, i, i)
    ensures |options| <= (i + 1) / 2
  {
    options := {};
    var j := 0;
    while j < (i + 1) / 2
      invariant j <= (i + 1) / 2
      invariant options == Splits(results, i, j)
    {
      options := options + {Xor(results[j], results[i - 1 - j])};
      j := j + 1;
    }
    SplitsHalfCoverAll(results, i);
  }

  /** The whole builder: seed the base entries, then for each size from 2 up
      to `n-1` append the minimum excludant of its options. */
  method BuildTable(n: nat) returns (results: seq<nat>)
    ensures |results| == if n < 2 then 2 else n
    ensures results[0] == 0 && results[1] == 0
    ensures results == GrundyTable(n)
  {
    results := [0, 0];
    var i := 2;
    while i < n
      invariant |results| == i
      invariant i <= if n < 2 then 2 else n
      invariant forall k :: 0 <= k < i ==> results[k] == Grundy(k)
    {
      var options := CollectOptions(results, i);
      var mex := FindMex(options);
      AppendedIsGrundy(results, i, mex);
      results := results + [mex];
      i := i + 1;
    }
  }

  /** Rebuilding with a larger bound never changes the entries already
      computed: the table for `n` is a prefix of the table for `m >= n`. */
  method RebuildKeepsPrefix(n: nat, m: nat) returns (small: seq<nat>, large: seq<nat>)
    requires n <= m
    ensures |small| <= |large|
    ensures small == large[..|small|]
  {
    small := BuildTable(n);
    large := BuildTable(m);
    GrundyTablePrefix(n, m);
  }
}
