# Grundy values of a one-dimensional splitting game

The script `gamet.py` tabulates the Sprague–Grundy value of every board size
from 0 up to a fixed bound. A move on a board of size `i` splits it at a point
`j` into two independent boards of sizes `j` and `i-1-j`. The value of that
move is the Nim-sum (bitwise XOR) of the two smaller boards' values. The
value of size `i` is the minimum excludant (mex) of its move values. Boards
of size 0 and 1 are given the value 0.

The model has three modules:

- `Nim` (nim.dfy): `Xor` on unbounded non-negative integers, as Python's `^`.
  It is proved to be exclusive-or on every bit, commutative, with 0 as
  identity and every value its own inverse.
- `MinExcludant` (mex.dfy): the mex as a function (`Mex`) and as the
  script's counting loop (`FindMex`). The loop is proved to terminate with
  the mex, which is at most the size of the set.
- `SplitGame` (gamet.dfy): the reference recurrence `Grundy`/`Moves`, which
  enumerates ALL split points. Beside it is the script's table builder as an
  imperative method `BuildTable` with the inner loop `CollectOptions`, which
  enumerates only the first `ceil(i/2)` split points. `BuildTable` is proved
  to return exactly `GrundyTable(n)`: the recurrence's values for sizes
  `0 .. n-1`.

The hard-coded bound 500 of the script is the parameter `n`. `ceil(i/2)` is
written `(i + 1) / 2`, which is equal for every `i` below 2^53. The list
`results` is a `seq<nat>` that the method reassigns with one element appended
per outer iteration. The candidate set `options` is a `set<nat>`.

As written, the loop `range(2, n)` never removes the two seed entries. So
for `n < 2` the table still has two entries: its length is `max(n, 2)`.

The seed value 0 for size 1 is a base value of the game. The split
recurrence is not applied to it (applied there, it would give `mex {0} = 1`).

The first six entries, worked out from the code, are `0, 0, 1, 2, 0, 1`
(`FirstSixValues`).

## Model

| member | source | states |
|---|---|---|
| `Nim.Xor` | gamet.py:11 | Python's `^` on non-negative integers; the result is 0 exactly when the two operands are equal |
| `Nim.XorIsBitwise` | gamet.py:11 | bit `k` of `Xor(a, b)` is the sum modulo 2 of bit `k` of `a` and of `b`, for every `k`: `Xor` is Python's `^` on non-negative integers |
| `Nim.XorCommutes` | gamet.py:9 | `Xor(a, b) == Xor(b, a)`: the symmetry the comment relies on |
| `Nim.XorIdentities` | gamet.py:11 | `Xor(a, 0) == Xor(0, a) == a` and `Xor(a, a) == 0` |
| `MinExcludant.HoldsBelowSize` | gamet.py:14-15 | a set holding every integer below `k` has at least `k` members, so counting up through members must stop |
| `MinExcludant.MexFrom` | gamet.py:13-15 | counting up from `k`, with every integer below `k` a member, reaches a value that is absent, has every smaller integer present, and lies between `k` and the set's size |
| `MinExcludant.Mex` | gamet.py:13-15 | the result is not in the set, every smaller non-negative integer is, and it is at most the set's size |
| `MinExcludant.MexUnique` | gamet.py:13-15 | any value absent from the set with every smaller value present equals `Mex(s)` |
| `MinExcludant.FindMex` | gamet.py:13-15 | the `while mex in options` loop terminates with a value absent from `options`, every smaller value present, and at most the number of members of `options` |
| `SplitGame.Grundy` | gamet.py:4-16 | the reference recurrence over ALL split points: sizes 0 and 1 have value 0, and for size `i >= 2` the value is absent from the values of its moves (`Moves(i)`, each `Xor(Grundy(j), Grundy(i-1-j))`), with every smaller value present |
| `SplitGame.Splits` | gamet.py:8-11 | the `options` set after split points `0 .. k-1` were added: it holds the value `results[j] ^ results[i-1-j]` of each of them and has at most `k` members |
| `SplitGame.SplitsHas` | gamet.py:8-11 | every member of that set is the value of one of the first `k` split points, so the set holds nothing else |
| `SplitGame.SplitsHalfCoverAll` | gamet.py:9-11 | the values of split points `0 .. ceil(i/2)-1` are the same set as the values of all split points `0 .. i-1` |
| `SplitGame.SplitsOfTable` | gamet.py:9-11 | over a table that agrees with the recurrence below `i`, the split values of size `i` are exactly the reference `Moves(i)` |
| `SplitGame.AppendedIsGrundy` | gamet.py:8-16 | the mex of the half-enumerated candidate set over a table correct below `i` is the recurrence value `Grundy(i)` |
| `SplitGame.GrundyBound` | gamet.py:9-16 | for `i >= 2`, `Grundy(i) <= ceil(i/2)` |
| `SplitGame.GrundyTablePrefix` | gamet.py:4-16 | the table for bound `n` is a prefix of the table for any bound `m >= n` |
| `SplitGame.FirstSixValues` | gamet.py:4-16 | the table for bound 6 is `FirstSix()`, that is `[0, 0, 1, 2, 0, 1]` |
| `SplitGame.CollectOptions` | gamet.py:8-11 | the inner loop builds exactly the values of split points `0 .. ceil(i/2)-1`. That set equals the set over all split points and has at most `ceil(i/2)` members |
| `SplitGame.BuildTable` | gamet.py:4-16 | the result has `max(n, 2)` entries, starts with the base values 0 and 0, and equals `GrundyTable(n)`: entry `k` is the recurrence value `Grundy(k)` |
| `SplitGame.RebuildKeepsPrefix` | gamet.py:4-16 | building the table for bound `n` and for a bound `m >= n` gives a first table that is a prefix of the second: a larger bound never changes earlier entries |

## Left out

- The output loop that prints each index and value (gamet.py:21-22) and the commented-out print of zero positions (gamet.py:18-19). They are output only and contain no logic.
- The floating-point division inside `math.ceil(i/2)` is replaced by the integer expression `(i + 1) / 2`. The two agree for every `i` below 2^53, far beyond any bound the script can reach. Above that, Python's rounded `i/2` can drop the last first-half split point (for `i = 2^53 + 1` the float half rounds to 2^52), which the model does not capture.
- The literal bound 500 is replaced by the parameter `n`. No upper limit on `n` is checked, because the script checks none.
- Running time and memory use are not modelled.
- Python's hash-set representation is not modelled. The candidate set is a mathematical `set<nat>`.
