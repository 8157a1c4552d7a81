/** The frame each transition draws: the organic transition tweens every
    cell by its own progress and activity; the field-based transitions
    advance a front across the cells in the order of a field. */
module Render {
  import opened Util
  import opened Grids
  import opened Tween

  // ---------------------------------------------------------------------
  // The organic frame

  /** The organic frame, cell by cell through `tweenChar`. */
  function OrganicGrid(l: seq<char>, pow: real -> real, src: Grid, tgt: Grid, prog: Field, act: Field, w: nat, h: nat): (out: Grid)
    requires |l| >= 1 && IsUnitMap(pow)
    requires IsGrid(src, w, h) && IsGrid(tgt, w, h) && IsGrid(prog, w, h) && IsGrid(act, w, h)
    ensures IsGrid(out, w, h)
    ensures forall y, x :: 0 <= y < h && 0 <= x < w && src[y][x] == tgt[y][x] ==> out[y][x] == src[y][x]
    ensures forall y, x :: 0 <= y < h && 0 <= x < w && src[y][x] != tgt[y][x] ==> out[y][x] in l
  {
    seq(h, y requires 0 <= y < h =>
      seq(w, x requires 0 <= x < w => TweenChar(l, pow, src[y][x], tgt[y][x], prog[y][x], act[y][x])))
  }

  /** `organicTransition`'s outer loop. */
  method OrganicFrame(l: seq<char>, pow: real -> real, src: Grid, tgt: Grid, prog: Field, act: Field, w: nat, h: nat)
    returns (out: Grid)
    requires |l| >= 1 && IsUnitMap(pow)
    requires IsGrid(src, w, h) && IsGrid(tgt, w, h) && IsGrid(prog, w, h) && IsGrid(act, w, h)
    ensures out == OrganicGrid(l, pow, src, tgt, prog, act, w, h)
  {
    ghost var want := OrganicGrid(l, pow, src, tgt, prog, act, w, h);
    out := [];
    var y := 0;
    while y < h
      invariant 0 <= y <= h && |out| == y
      invariant forall r :: 0 <= r < y ==> out[r] == want[r]
    {
      var row := OrganicRow(l, pow, src, tgt, prog, act, w, h, y);
      assert row == want[y];
      out := out + [row];
      y := y + 1;
    }
  }

  /** `organicTransition`'s inner loop: row y of the organic frame. */
  method OrganicRow(l: seq<char>, pow: real -> real, src: Grid, tgt: Grid, prog: Field, act: Field, w: nat, h: nat, y: nat)
    returns (row: seq<char>)
    requires |l| >= 1 && IsUnitMap(pow) && y < h
    requires IsGrid(src, w, h) && IsGrid(tgt, w, h) && IsGrid(prog, w, h) && IsGrid(act, w, h)
    ensures |row| == w
    ensures forall c :: 0 <= c < w ==> row[c] == TweenChar(l, pow, src[y][c], tgt[y][c], prog[y][c], act[y][c])
  {
    row := [];
    var x := 0;
    while x < w
      invariant 0 <= x <= w && |row| == x
      invariant forall c :: 0 <= c < x ==> row[c] == TweenChar(l, pow, src[y][c], tgt[y][c], prog[y][c], act[y][c])
    {
      row := row + [TweenChar(l, pow, src[y][x], tgt[y][x], prog[y][x], act[y][x])];
      x := x + 1;
    }
  }

  /** Every character of both grids is on the ladder. */
  predicate OnLadder(l: seq<char>, g: Grid, w: nat, h: nat)
    requires IsGrid(g, w, h)
  {
    forall y, x :: 0 <= y < h && 0 <= x < w ==> g[y][x] in l
  }

  /** A cell whose progress has reached 1 shows its target, for
      non-negative activity. */
  lemma TweenCharComplete(l: seq<char>, pow: real -> real, a: char, b: char, p: real, activity: real)
    requires ValidLadder(l) && IsUnitMap(pow) && a in l && b in l
    requires p >= 1.0 && activity >= 0.0
    ensures TweenChar(l, pow, a, b, p, activity) == b
  {
    BoostReaches(p, activity);
    TweenCharEndpoints(l, pow, a, b, p, activity);
  }

  lemma BoostReaches(p: real, activity: real)
    requires p >= 1.0 && activity >= 0.0
    ensures p * (1.0 + activity * 0.5) >= 1.0
  {
    MulMonotone(1.0 + activity * 0.5, 1.0, p);
  }

  /** A cell without progress shows its source, whatever its activity. */
  lemma TweenCharStart(l: seq<char>, pow: real -> real, a: char, b: char, activity: real)
    requires ValidLadder(l) && IsUnitMap(pow) && a in l && b in l
    ensures TweenChar(l, pow, a, b, 0.0, activity) == a
  {
    TweenCharEndpoints(l, pow, a, b, 0.0, activity);
  }

  /** With no progress anywhere the organic frame is the source. */
  lemma OrganicStart(l: seq<char>, pow: real -> real, src: Grid, tgt: Grid, prog: Field, act: Field, w: nat, h: nat)
    requires ValidLadder(l) && IsUnitMap(pow)
    requires IsGrid(src, w, h) && IsGrid(tgt, w, h) && IsGrid(prog, w, h) && IsGrid(act, w, h)
    requires OnLadder(l, src, w, h) && OnLadder(l, tgt, w, h)
    requires forall y, x :: 0 <= y < h && 0 <= x < w ==> prog[y][x] == 0.0
    ensures OrganicGrid(l, pow, src, tgt, prog, act, w, h) == src
  {
    var out := OrganicGrid(l, pow, src, tgt, prog, act, w, h);
    forall y | 0 <= y < h
      ensures out[y] == src[y]
    {
      forall x | 0 <= x < w
        ensures out[y][x] == src[y][x]
      {
        TweenCharStart(l, pow, src[y][x], tgt[y][x], act[y][x]);
      }
    }
  }

  /** Once every cell's progress has reached 1 (with non-negative activity)
      the organic frame is the target. */
  lemma OrganicComplete(l: seq<char>, pow: real -> real, src: Grid, tgt: Grid, prog: Field, act: Field, w: nat, h: nat)
    requires ValidLadder(l) && IsUnitMap(pow)
    requires IsGrid(src, w, h) && IsGrid(tgt, w, h) && IsGrid(prog, w, h) && IsGrid(act, w, h)
    requires OnLadder(l, src, w, h) && OnLadder(l, tgt, w, h)
    requires forall y, x :: 0 <= y < h && 0 <= x < w ==> prog[y][x] >= 1.0 && act[y][x] >= 0.0
    ensures OrganicGrid(l, pow, src, tgt, prog, act, w, h) == tgt
  {
    var out := OrganicGrid(l, pow, src, tgt, prog, act, w, h);
    forall y | 0 <= y < h
      ensures out[y] == tgt[y]
    {
      forall x | 0 <= x < w
        ensures out[y][x] == tgt[y][x]
      {
        TweenCharComplete(l, pow, src[y][x], tgt[y][x], prog[y][x], act[y][x]);
      }
    }
  }

  // ---------------------------------------------------------------------
  // The field-based frame

  /** The width of the front, `rampWidth`. */
  const RampWidth: real := 0.3

  /** A cell's progress: 0 until the global progress reaches the cell's
      field value, then rising linearly to 1 over the ramp width. */
  function LocalProgress(gp: real, fv: real): (lp: real)
    ensures 0.0 <= lp <= 1.0
    ensures gp <= fv ==> lp == 0.0
    ensures gp >= fv + RampWidth ==> lp == 1.0
    ensures fv <= gp <= fv + RampWidth ==> lp * RampWidth == gp - fv
  {
    Clamp((gp - fv) / RampWidth, 0.0, 1.0)
  }

  /** The front only moves forward: more global progress never lowers a
      cell's progress, and a lower field value is reached first. */
  lemma LocalProgressMonotone(gp: real, gq: real, fv: real, fu: real)
    requires gp <= gq && fu <= fv
    ensures LocalProgress(gp, fv) <= LocalProgress(gq, fu)
  {
  }

  /** One cell of `fieldBasedTransition`: a cell blank in both grids stays
      blank; any other cell is tweened at full activity. */
  function FieldCell(l: seq<char>, pow: real -> real, a: char, b: char, gp: real, fv: real): (c: char)
    requires |l| >= 1 && IsUnitMap(pow)
    ensures a == ' ' && b == ' ' ==> c == ' '
    ensures a == b ==> c == a
    ensures a != b ==> c in l
  {
    if a == ' ' && b == ' ' then ' ' else TweenChar(l, pow, a, b, LocalProgress(gp, fv), 1.0)
  }

  /** A cell shows its source until the front reaches its field value, and
      its target two thirds of the ramp later (activity 1 boosts the
      progress by half). */
  lemma FieldCellFront(l: seq<char>, pow: real -> real, a: char, b: char, gp: real, fv: real)
    requires ValidLadder(l) && IsUnitMap(pow) && a in l && b in l
    ensures gp <= fv ==> FieldCell(l, pow, a, b, gp, fv) == a
    ensures gp >= fv + 0.2 ==> FieldCell(l, pow, a, b, gp, fv) == b
  {
    var lp := LocalProgress(gp, fv);
    if gp >= fv + 0.2 {
      assert lp >= 0.2 / RampWidth;
    }
    TweenCharEndpoints(l, pow, a, b, lp, 1.0);
  }

  /** The field-based frame. */
  function FieldGrid(l: seq<char>, pow: real -> real, src: Grid, tgt: Grid, field: Field, gp: real, w: nat, h: nat): (out: Grid)
    requires |l| >= 1 && IsUnitMap(pow)
    requires IsGrid(src, w, h) && IsGrid(tgt, w, h) && IsGrid(field, w, h)
    ensures IsGrid(out, w, h)
    ensures forall y, x :: 0 <= y < h && 0 <= x < w && src[y][x] == tgt[y][x] ==> out[y][x] == src[y][x]
    ensures forall y, x :: 0 <= y < h && 0 <= x < w && src[y][x] != tgt[y][x] ==> out[y][x] in l
  {
    seq(h, y requires 0 <= y < h =>
      seq(w, x requires 0 <= x < w => FieldCell(l, pow, src[y][x], tgt[y][x], gp, field[y][x])))
  }

  /** `fieldBasedTransition`'s outer loop. */
  method FieldFrame(l: seq<char>, pow: real -> real, src: Grid, tgt: Grid, field: Field, gp: real, w: nat, h: nat)
    returns (out: Grid)
    requires |l| >= 1 && IsUnitMap(pow)
    requires IsGrid(src, w, h) && IsGrid(tgt, w, h) && IsGrid(field, w, h)
    ensures out == FieldGrid(l, pow, src, tgt, field, gp, w, h)
  {
    ghost var want := FieldGrid(l, pow, src, tgt, field, gp, w, h);
    out := [];
    var y := 0;
    while y < h
      invariant 0 <= y <= h && |out| == y
      invariant forall r :: 0 <= r < y ==> out[r] == want[r]
    {
      var row := FieldRow(l, pow, src, tgt, field, gp, w, h, y);
      assert row == want[y];
      out := out + [row];
      y := y + 1;
    }
  }

  /** `fieldBasedTransition`'s inner loop: row y of the field-based frame,
      a blank cell of both grids staying blank. */
  method FieldRow(l: seq<char>, pow: real -> real, src: Grid, tgt: Grid, field: Field, gp: real, w: nat, h: nat, y: nat)
    returns (row: seq<char>)
    requires |l| >= 1 && IsUnitMap(pow) && y < h
    requires IsGrid(src, w, h) && IsGrid(tgt, w, h) && IsGrid(field, w, h)
    ensures |row| == w
    ensures forall c :: 0 <= c < w ==> row[c] == FieldCell(l, pow, src[y][c], tgt[y][c], gp, field[y][c])
  {
    row := [];
    var x := 0;
    while x < w
      invariant 0 <= x <= w && |row| == x
      invariant forall c :: 0 <= c < x ==> row[c] == FieldCell(l, pow, src[y][c], tgt[y][c], gp, field[y][c])
    {
      var a, b := src[y][x], tgt[y][x];
      if a == ' ' && b == ' ' {
        row := row + [' '];
      } else {
        var lp := Clamp((gp - field[y][x]) / RampWidth, 0.0, 1.0);
        row := row + [TweenChar(l, pow, a, b, lp, 1.0)];
      }
      x := x + 1;
    }
  }

  /** Behind the front (global progress at most every field value) the
      frame is the source. */
  lemma FieldGridBehind(l: seq<char>, pow: real -> real, src: Grid, tgt: Grid, field: Field, gp: real, w: nat, h: nat)
    requires ValidLadder(l) && IsUnitMap(pow)
    requires IsGrid(src, w, h) && IsGrid(tgt, w, h) && IsGrid(field, w, h)
    requires OnLadder(l, src, w, h) && OnLadder(l, tgt, w, h)
    requires forall y, x :: 0 <= y < h && 0 <= x < w ==> gp <= field[y][x]
    ensures FieldGrid(l, pow, src, tgt, field, gp, w, h) == src
  {
    var out := FieldGrid(l, pow, src, tgt, field, gp, w, h);
    forall y | 0 <= y < h
      ensures out[y] == src[y]
    {
      forall x | 0 <= x < w
        ensures out[y][x] == src[y][x]
      {
        FieldCellFront(l, pow, src[y][x], tgt[y][x], gp, field[y][x]);
      }
    }
  }

  /** Once the front has passed every field value by 0.2 the frame is the
      target. */
  lemma FieldGridPast(l: seq<char>, pow: real -> real, src: Grid, tgt: Grid, field: Field, gp: real, w: nat, h: nat)
    requires ValidLadder(l) && IsUnitMap(pow)
    requires IsGrid(src, w, h) && IsGrid(tgt, w, h) && IsGrid(field, w, h)
    requires OnLadder(l, src, w, h) && OnLadder(l, tgt, w, h)
    requires forall y, x :: 0 <= y < h && 0 <= x < w ==> gp >= field[y][x] + 0.2
    ensures FieldGrid(l, pow, src, tgt, field, gp, w, h) == tgt
  {
    var out := FieldGrid(l, pow, src, tgt, field, gp, w, h);
    forall y | 0 <= y < h
      ensures out[y] == tgt[y]
    {
      forall x | 0 <= x < w
        ensures out[y][x] == tgt[y][x]
      {
        FieldCellFront(l, pow, src[y][x], tgt[y][x], gp, field[y][x]);
      }
    }
  }

  /** The eased global progress of a field-based transition. It is not
      clamped: it is at most 0 before the start and at least 1 from the
      end of the duration on. */
  function GlobalProgress(elapsed: real, duration: real): (gp: real)
    requires duration > 0.0
    ensures 0.0 <= elapsed <= duration ==> 0.0 <= gp <= 1.0
    ensures elapsed <= 0.0 ==> gp <= 0.0
    ensures elapsed >= duration ==> gp >= 1.0
  {
    var t := elapsed / duration;
    DivUnit(elapsed, duration);
    EaseOutside(t);
    EaseInOutCubic(t)
  }

  lemma DivUnit(e: real, d: real)
    requires d > 0.0
    ensures e <= 0.0 ==> e / d <= 0.0
    ensures e >= d ==> e / d >= 1.0
    ensures 0.0 <= e <= d ==> 0.0 <= e / d <= 1.0
  {
    var t := e / d;
    assert t * d == e;
    if t > 0.0 && e <= 0.0 {
      MulNonneg(t, d);
      assert false;
    }
    if t < 1.0 && e >= d {
      MulMonotone(d, t, 1.0);
    }
    if 0.0 <= e <= d && t > 1.0 {
      MulMonotone(d, 1.0, t);
    }
    if 0.0 <= e <= d && t < 0.0 {
      MulMonotone(d, t, 0.0);
    }
  }
}
