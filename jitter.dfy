/** `JITTER_MAP` and `applyJitter`: with a small probability a cell shows
    one of a few look-alike characters instead of its own. The random
    numbers are parameters: for cell (y, x), `roll(y, x).0` is the draw
    compared with the probability and `roll(y, x).1` the draw that picks
    the alternative. */
module Jitter {
  import opened Util
  import opened Grids

  /** The alternatives of a character; empty for a character without an
      entry. */
  function Alternatives(c: char): (r: seq<char>)
    ensures ' ' !in r && |r| <= 5
    ensures r != [] <==> c in ".-#/\\_|@*oO"
  {
    match c
    case '.' => ['·', ':', ',', '*']
    case '-' => ['_', '─', '~', '=']
    case '#' => ['@', '>', '=', '0']
    case '/' => ['|', '/']
    case '\\' => ['|', '\\']
    case '_' => ['-', '_', '=']
    case '|' => ['!', '|', 'l']
    case '@' => ['&', '%', '@']
    case '*' => ['+', '*', 'x', '✦']
    case 'o' => ['○', '●', '◯', '⊙']
    case 'O' => ['○', '●', '◯', '⊙', '⬢']
    case _ => []
  }

  /** Draws in [0,1), as `Math.random` returns them. */
  ghost predicate UnitRolls(roll: (int, int) -> (real, real)) {
    forall y, x :: 0.0 <= roll(y, x).0 < 1.0 && 0.0 <= roll(y, x).1 < 1.0
  }

  /** A draw in [0,1) scaled by n > 0 and truncated is an index below n. */
  lemma ScaledIndex(n: nat, r: real)
    requires n > 0 && 0.0 <= r < 1.0
    ensures 0 <= (r * n as real).Floor < n
    ensures (r * n as real).Floor as real <= r * n as real < (r * n as real).Floor as real + 1.0
  {
    MulBelowOne(n as real, r);
    FloorBounds(r * n as real);
  }

  lemma FloorBounds(x: real)
    ensures x.Floor as real <= x < x.Floor as real + 1.0
  {
  }

  lemma MulBelowOne(m: real, r: real)
    requires m > 0.0 && 0.0 <= r < 1.0
    ensures 0.0 <= r * m < m
  {
    assert m * (1.0 - r) > 0.0;
  }

  /** `alternatives[(r * alternatives.length) | 0]` for a draw r in [0,1). */
  function Pick(alts: seq<char>, r: real): (c: char)
    requires |alts| > 0 && 0.0 <= r < 1.0
    ensures c in alts
    ensures exists i :: 0 <= i < |alts| && alts[i] == c && i as real <= r * |alts| as real < i as real + 1.0
  {
    ScaledIndex(|alts|, r);
    var i := (r * |alts| as real).Floor;
    alts[i]
  }

  /** One cell: replaced by a picked alternative when the first draw is
      below p and the character has alternatives; otherwise unchanged. */
  function JitterCell(c: char, r1: real, r2: real, p: real): (d: char)
    requires 0.0 <= r2 < 1.0
    ensures d == c || d in Alternatives(c)
    ensures r1 >= p ==> d == c
    ensures Alternatives(c) == [] ==> d == c
    ensures r1 < p && Alternatives(c) != [] ==> d in Alternatives(c)
  {
    if r1 < p && Alternatives(c) != [] then Pick(Alternatives(c), r2) else c
  }

  /** `applyJitter`: the grid, cell by cell through JitterCell. */
  function ApplyJitter(g: Grid, roll: (int, int) -> (real, real), p: real): (out: Grid)
    requires UnitRolls(roll)
    ensures |out| == |g| && forall y :: 0 <= y < |g| ==> |out[y]| == |g[y]|
    ensures forall y, x :: 0 <= y < |g| && 0 <= x < |g[y]| ==>
      out[y][x] == g[y][x] || out[y][x] in Alternatives(g[y][x])
  {
    seq(|g|, y requires 0 <= y < |g| =>
      seq(|g[y]|, x requires 0 <= x < |g[y]| => JitterCell(g[y][x], roll(y, x).0, roll(y, x).1, p)))
  }

  /** A probability of 0 or less leaves every grid as it is; so does a
      grid of characters without alternatives, whatever the draws. */
  lemma JitterIdentity(g: Grid, roll: (int, int) -> (real, real), p: real)
    requires UnitRolls(roll)
    requires p <= 0.0 || forall y, x :: 0 <= y < |g| && 0 <= x < |g[y]| ==> Alternatives(g[y][x]) == []
    ensures ApplyJitter(g, roll, p) == g
  {
    var out := ApplyJitter(g, roll, p);
    forall y | 0 <= y < |g|
      ensures out[y] == g[y]
    {
      forall x | 0 <= x < |g[y]|
        ensures out[y][x] == g[y][x]
      {
        assert 0.0 <= roll(y, x).0;
      }
    }
  }

  /** A cell changes only when its first draw is below p. */
  lemma JitterOnlyBelow(g: Grid, roll: (int, int) -> (real, real), p: real, y: nat, x: nat)
    requires UnitRolls(roll) && y < |g| && x < |g[y]|
    requires ApplyJitter(g, roll, p)[y][x] != g[y][x]
    ensures roll(y, x).0 < p && Alternatives(g[y][x]) != []
  {
  }
}
