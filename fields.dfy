/** The per-cell fields of the field-based transition: the chamfer distance
    to ink, layered noise, concentric ripples, and the histogram
    equalisation and box blur applied to them. Every field is read as
    "this cell changes once the global progress passes its value". */
module Fields {
  import opened Util
  import opened Grids
  import Activity

  /** The "not yet reached" distance of the transform. */
  const INF: real := 1000000000.0

  /** The diagonal chamfer weight: 1.414 exactly, not the square root of 2. */
  const DIAG: real := 1.414

  predicate AllBlank(g: Grid, w: nat, h: nat)
    requires IsGrid(g, w, h)
  {
    forall y, x :: 0 <= y < h && 0 <= x < w ==> g[y][x] == ' '
  }

  // ---------------------------------------------------------------------
  // Distance field

  /** What every raster pass keeps: ink cells at 0, other cells between 1
      and INF, and, on a grid without ink, every cell still at INF. */
  predicate DistInv(g: Grid, d: array2<real>)
    requires IsGrid(g, d.Length1, d.Length0)
    reads d
  {
    forall y, x :: 0 <= y < d.Length0 && 0 <= x < d.Length1 ==>
      && (g[y][x] != ' ' ==> d[y, x] == 0.0)
      && (g[y][x] == ' ' ==> 1.0 <= d[y, x] <= INF)
      && (AllBlank(g, d.Length1, d.Length0) ==> d[y, x] == INF)
  }

  /** The forward pass's steps hold at (y, x): the cell is no farther than
      its left and upper neighbours plus 1 and its upper diagonal neighbours
      plus DIAG. */
  predicate ForwardRelaxed(d: array2<real>, y: nat, x: nat)
    requires y < d.Length0 && x < d.Length1
    reads d
  {
    && (x > 0 ==> d[y, x] <= d[y, x - 1] + 1.0)
    && (y > 0 ==> d[y, x] <= d[y - 1, x] + 1.0)
    && (x > 0 && y > 0 ==> d[y, x] <= d[y - 1, x - 1] + DIAG)
    && (x < d.Length1 - 1 && y > 0 ==> d[y, x] <= d[y - 1, x + 1] + DIAG)
  }

  /** The backward pass's steps hold at (y, x): the cell is no farther than
      its right and lower neighbours plus 1 and its lower diagonal
      neighbours plus DIAG. */
  predicate BackwardRelaxed(d: array2<real>, y: nat, x: nat)
    requires y < d.Length0 && x < d.Length1
    reads d
  {
    && (x < d.Length1 - 1 ==> d[y, x] <= d[y, x + 1] + 1.0)
    && (y < d.Length0 - 1 ==> d[y, x] <= d[y + 1, x] + 1.0)
    && (x < d.Length1 - 1 && y < d.Length0 - 1 ==> d[y, x] <= d[y + 1, x + 1] + DIAG)
    && (x > 0 && y < d.Length0 - 1 ==> d[y, x] <= d[y + 1, x - 1] + DIAG)
  }

  /** The forward pass's value at (y, x) is attained: it is the cell's value
      o before the pass, or its left or upper neighbour plus 1, or an upper
      diagonal neighbour plus DIAG. Together with ForwardRelaxed and
      d[y, x] <= o this makes the cell exactly the minimum of these. */
  predicate ForwardAttained(d: array2<real>, o: real, y: nat, x: nat)
    requires y < d.Length0 && x < d.Length1
    reads d
  {
    || d[y, x] == o
    || (x > 0 && d[y, x] == d[y, x - 1] + 1.0)
    || (y > 0 && d[y, x] == d[y - 1, x] + 1.0)
    || (x > 0 && y > 0 && d[y, x] == d[y - 1, x - 1] + DIAG)
    || (x < d.Length1 - 1 && y > 0 && d[y, x] == d[y - 1, x + 1] + DIAG)
  }

  /** The backward pass's value at (y, x) is attained: the value o before
      the pass, or a right or lower neighbour plus 1, or a lower diagonal
      neighbour plus DIAG. */
  predicate BackwardAttained(d: array2<real>, o: real, y: nat, x: nat)
    requires y < d.Length0 && x < d.Length1
    reads d
  {
    || d[y, x] == o
    || (x < d.Length1 - 1 && d[y, x] == d[y, x + 1] + 1.0)
    || (y < d.Length0 - 1 && d[y, x] == d[y + 1, x] + 1.0)
    || (x < d.Length1 - 1 && y < d.Length0 - 1 && d[y, x] == d[y + 1, x + 1] + DIAG)
    || (x > 0 && y < d.Length0 - 1 && d[y, x] == d[y + 1, x - 1] + DIAG)
  }

  /** One cell of the forward pass: the four steps in the source's order,
      each keeping the shorter of the cell and the neighbour plus the step.
      No step reads the cell itself as a neighbour, so the steps are taken
      on a local and written once. */
  method ForwardCell(g: Grid, d: array2<real>, y: nat, x: nat)
    requires IsGrid(g, d.Length1, d.Length0) && DistInv(g, d) && y < d.Length0 && x < d.Length1
    modifies d
    ensures DistInv(g, d) && ForwardRelaxed(d, y, x) && d[y, x] <= old(d[y, x])
    ensures ForwardAttained(d, old(d[y, x]), y, x)
    ensures forall r, c :: 0 <= r < d.Length0 && 0 <= c < d.Length1 && (r != y || c != x) ==> d[r, c] == old(d[r, c])
  {
    var w := d.Length1;
    var v := d[y, x];
    if x > 0 { v := Min(v, d[y, x - 1] + 1.0); }
    if y > 0 { v := Min(v, d[y - 1, x] + 1.0); }
    if x > 0 && y > 0 { v := Min(v, d[y - 1, x - 1] + DIAG); }
    if x < w - 1 && y > 0 { v := Min(v, d[y - 1, x + 1] + DIAG); }
    d[y, x] := v;
  }

  /** One cell of the backward pass, as ForwardCell with the right, lower
      and lower diagonal neighbours. */
  method BackwardCell(g: Grid, d: array2<real>, y: nat, x: nat)
    requires IsGrid(g, d.Length1, d.Length0) && DistInv(g, d) && y < d.Length0 && x < d.Length1
    modifies d
    ensures DistInv(g, d) && BackwardRelaxed(d, y, x) && d[y, x] <= old(d[y, x])
    ensures BackwardAttained(d, old(d[y, x]), y, x)
    ensures forall r, c :: 0 <= r < d.Length0 && 0 <= c < d.Length1 && (r != y || c != x) ==> d[r, c] == old(d[r, c])
  {
    var h, w := d.Length0, d.Length1;
    var v := d[y, x];
    if x < w - 1 { v := Min(v, d[y, x + 1] + 1.0); }
    if y < h - 1 { v := Min(v, d[y + 1, x] + 1.0); }
    if x < w - 1 && y < h - 1 { v := Min(v, d[y + 1, x + 1] + DIAG); }
    if x > 0 && y < h - 1 { v := Min(v, d[y + 1, x - 1] + DIAG); }
    d[y, x] := v;
  }

  /** One row of the forward pass, left to right: no distance grows, only
      row y changes, and afterwards every cell of the row is relaxed and
      attained against its left, upper and upper diagonal neighbours. */
  method ForwardRow(g: Grid, d: array2<real>, y: nat)
    requires IsGrid(g, d.Length1, d.Length0) && DistInv(g, d) && y < d.Length0
    modifies d
    ensures DistInv(g, d)
    ensures forall r, c :: 0 <= r < d.Length0 && 0 <= c < d.Length1 ==> d[r, c] <= old(d[r, c])
    ensures forall r, c :: 0 <= r < d.Length0 && 0 <= c < d.Length1 && r != y ==> d[r, c] == old(d[r, c])
    ensures forall c :: 0 <= c < d.Length1 ==> ForwardRelaxed(d, y, c) && ForwardAttained(d, old(d[y, c]), y, c)
  {
    var h, w := d.Length0, d.Length1;
    for x := 0 to w
      invariant DistInv(g, d)
      invariant forall r, c :: 0 <= r < h && 0 <= c < w ==> d[r, c] <= old(d[r, c])
      invariant forall r, c :: 0 <= r < h && 0 <= c < w && (r != y || c >= x) ==> d[r, c] == old(d[r, c])
      invariant forall c :: 0 <= c < x ==> ForwardRelaxed(d, y, c) && ForwardAttained(d, old(d[y, c]), y, c)
    {
      label before:
      ForwardCell(g, d, y, x);
      forall c | 0 <= c < x
        ensures ForwardRelaxed(d, y, c) && ForwardAttained(d, old(d[y, c]), y, c)
      {
        var o := old(d[y, c]);
        assert old@before(ForwardRelaxed(d, y, c) && ForwardAttained(d, o, y, c));
      }
    }
  }

  /** The forward pass, top-left to bottom-right: no distance grows, and
      afterwards every cell is the minimum of its value before the pass, its
      left and upper neighbours plus 1 and its upper diagonal neighbours plus
      DIAG, all of which are final when the cell is visited. */
  method ForwardPass(g: Grid, d: array2<real>)
    requires IsGrid(g, d.Length1, d.Length0) && DistInv(g, d)
    modifies d
    ensures DistInv(g, d)
    ensures forall y, x :: 0 <= y < d.Length0 && 0 <= x < d.Length1 ==> d[y, x] <= old(d[y, x])
    ensures forall y, x :: 0 <= y < d.Length0 && 0 <= x < d.Length1 ==> ForwardRelaxed(d, y, x)
    ensures forall y, x :: 0 <= y < d.Length0 && 0 <= x < d.Length1 ==> ForwardAttained(d, old(d[y, x]), y, x)
  {
    var h, w := d.Length0, d.Length1;
    for y := 0 to h
      invariant DistInv(g, d)
      invariant forall r, c :: 0 <= r < h && 0 <= c < w ==> d[r, c] <= old(d[r, c])
      invariant forall r, c :: 0 <= r < y && 0 <= c < w ==> ForwardRelaxed(d, r, c)
      invariant forall r, c :: 0 <= r < y && 0 <= c < w ==> ForwardAttained(d, old(d[r, c]), r, c)
      invariant forall r, c :: y <= r < h && 0 <= c < w ==> d[r, c] == old(d[r, c])
    {
      label before:
      ForwardRow(g, d, y);
      forall r, c | 0 <= r < y && 0 <= c < w
        ensures ForwardRelaxed(d, r, c) && ForwardAttained(d, old(d[r, c]), r, c)
      {
        var o := old(d[r, c]);
        assert old@before(ForwardRelaxed(d, r, c) && ForwardAttained(d, o, r, c));
      }
    }
  }

  /** One row of the backward pass, right to left: no distance grows, only
      row y changes, and afterwards every cell of the row is relaxed and
      attained against its right, lower and lower diagonal neighbours. */
  method BackwardRow(g: Grid, d: array2<real>, y: nat)
    requires IsGrid(g, d.Length1, d.Length0) && DistInv(g, d) && y < d.Length0
    modifies d
    ensures DistInv(g, d)
    ensures forall r, c :: 0 <= r < d.Length0 && 0 <= c < d.Length1 ==> d[r, c] <= old(d[r, c])
    ensures forall r, c :: 0 <= r < d.Length0 && 0 <= c < d.Length1 && r != y ==> d[r, c] == old(d[r, c])
    ensures forall c :: 0 <= c < d.Length1 ==> BackwardRelaxed(d, y, c) && BackwardAttained(d, old(d[y, c]), y, c)
  {
    var h, w := d.Length0, d.Length1;
    var x := w;
    while x > 0
      invariant 0 <= x <= w
      invariant DistInv(g, d)
      invariant forall r, c :: 0 <= r < h && 0 <= c < w ==> d[r, c] <= old(d[r, c])
      invariant forall r, c :: 0 <= r < h && 0 <= c < w && (r != y || c < x) ==> d[r, c] == old(d[r, c])
      invariant forall c :: x <= c < w ==> BackwardRelaxed(d, y, c) && BackwardAttained(d, old(d[y, c]), y, c)
    {
      x := x - 1;
      label before:
      BackwardCell(g, d, y, x);
      forall c | x < c < w
        ensures BackwardRelaxed(d, y, c) && BackwardAttained(d, old(d[y, c]), y, c)
      {
        var o := old(d[y, c]);
        assert old@before(BackwardRelaxed(d, y, c) && BackwardAttained(d, o, y, c));
      }
    }
  }

  /** The backward pass, bottom-right to top-left: no distance grows, and
      afterwards every cell is the minimum of its value before the pass, its
      right and lower neighbours plus 1 and its lower diagonal neighbours
      plus DIAG, all of which are final when the cell is visited. */
  method BackwardPass(g: Grid, d: array2<real>)
    requires IsGrid(g, d.Length1, d.Length0) && DistInv(g, d)
    modifies d
    ensures DistInv(g, d)
    ensures forall y, x :: 0 <= y < d.Length0 && 0 <= x < d.Length1 ==> d[y, x] <= old(d[y, x])
    ensures forall y, x :: 0 <= y < d.Length0 && 0 <= x < d.Length1 ==> BackwardRelaxed(d, y, x)
    ensures forall y, x :: 0 <= y < d.Length0 && 0 <= x < d.Length1 ==> BackwardAttained(d, old(d[y, x]), y, x)
  {
    var h, w := d.Length0, d.Length1;
    var y := h;
    while y > 0
      invariant 0 <= y <= h
      invariant DistInv(g, d)
      invariant forall r, c :: 0 <= r < h && 0 <= c < w ==> d[r, c] <= old(d[r, c])
      invariant forall r, c :: y <= r < h && 0 <= c < w ==> BackwardRelaxed(d, r, c)
      invariant forall r, c :: y <= r < h && 0 <= c < w ==> BackwardAttained(d, old(d[r, c]), r, c)
      invariant forall r, c :: 0 <= r < y && 0 <= c < w ==> d[r, c] == old(d[r, c])
    {
      y := y - 1;
      label before:
      BackwardRow(g, d, y);
      forall r, c | y < r < h && 0 <= c < w
        ensures BackwardRelaxed(d, r, c) && BackwardAttained(d, old(d[r, c]), r, c)
      {
        var o := old(d[r, c]);
        assert old@before(BackwardRelaxed(d, r, c) && BackwardAttained(d, o, r, c));
      }
    }
  }

  /** The final `map`: unreached cells become 1, the rest are divided by the
      largest reached distance (at least 1). */
  function Normalise(v: real, m: real): (r: real)
    requires m >= 1.0
    ensures (v == 0.0 || 1.0 <= v <= INF) && (v < INF ==> v <= m) ==>
      0.0 <= r <= 1.0 && (r == 0.0 <==> v == 0.0)
  {
    if v >= INF then 1.0
    else
      assert v > 0.0 ==> v / m > 0.0;
      v / m
  }

  /** `buildDistanceField`: 0 exactly at ink cells, every value in [0,1],
      and 1 everywhere on a grid without ink. */
  method BuildDistanceField(g: Grid, w: nat, h: nat) returns (f: Field)
    requires IsGrid(g, w, h)
    ensures IsGrid(f, w, h)
    ensures forall y, x :: 0 <= y < h && 0 <= x < w ==> 0.0 <= f[y][x] <= 1.0
    ensures forall y, x :: 0 <= y < h && 0 <= x < w ==> (f[y][x] == 0.0 <==> g[y][x] != ' ')
    ensures AllBlank(g, w, h) ==> forall y, x :: 0 <= y < h && 0 <= x < w ==> f[y][x] == 1.0
  {
    var d := new real[h, w]((_, _) => INF);
    for y := 0 to h
      invariant forall r, c :: 0 <= r < h && 0 <= c < w ==>
        d[r, c] == (if r < y && g[r][c] != ' ' then 0.0 else INF)
    {
      for x := 0 to w
        invariant forall r, c :: 0 <= r < h && 0 <= c < w ==>
          d[r, c] == (if (r < y || (r == y && c < x)) && g[r][c] != ' ' then 0.0 else INF)
      {
        if g[y][x] != ' ' { d[y, x] := 0.0; }
      }
    }
    ForwardPass(g, d);
    BackwardPass(g, d);
    var mx := LargestReached(g, d);
    f := ToField(g, d, Max(1.0, mx));
  }

  /** The largest distance below INF (0 when there is none). */
  method LargestReached(g: Grid, d: array2<real>) returns (mx: real)
    requires IsGrid(g, d.Length1, d.Length0)
    ensures mx >= 0.0
    ensures forall y, x :: 0 <= y < d.Length0 && 0 <= x < d.Length1 && d[y, x] < INF ==> d[y, x] <= mx
    ensures mx == 0.0 || exists y, x :: 0 <= y < d.Length0 && 0 <= x < d.Length1 && d[y, x] < INF && d[y, x] == mx
  {
    mx := 0.0;
    for y := 0 to d.Length0
      invariant mx >= 0.0
      invariant forall r, c :: 0 <= r < y && 0 <= c < d.Length1 && d[r, c] < INF ==> d[r, c] <= mx
      invariant mx == 0.0 || exists r, c :: 0 <= r < d.Length0 && 0 <= c < d.Length1 && d[r, c] < INF && d[r, c] == mx
    {
      for x := 0 to d.Length1
        invariant mx >= 0.0
        invariant forall r, c :: 0 <= r < d.Length0 && 0 <= c < d.Length1 && (r < y || (r == y && c < x)) && d[r, c] < INF ==> d[r, c] <= mx
        invariant mx == 0.0 || exists r, c :: 0 <= r < d.Length0 && 0 <= c < d.Length1 && d[r, c] < INF && d[r, c] == mx
      {
        if d[y, x] < INF && d[y, x] > mx {
          mx := d[y, x];
          assert d[y, x] < INF && d[y, x] == mx;
        }
      }
    }
  }

  /** The normalised copy of the distances. */
  method ToField(g: Grid, d: array2<real>, m: real) returns (f: Field)
    requires IsGrid(g, d.Length1, d.Length0) && DistInv(g, d) && m >= 1.0
    requires forall y, x :: 0 <= y < d.Length0 && 0 <= x < d.Length1 && d[y, x] < INF ==> d[y, x] <= m
    ensures IsGrid(f, d.Length1, d.Length0)
    ensures forall y, x :: 0 <= y < d.Length0 && 0 <= x < d.Length1 ==> 0.0 <= f[y][x] <= 1.0
    ensures forall y, x :: 0 <= y < d.Length0 && 0 <= x < d.Length1 ==> (f[y][x] == 0.0 <==> g[y][x] != ' ')
    ensures AllBlank(g, d.Length1, d.Length0) ==> forall y, x :: 0 <= y < d.Length0 && 0 <= x < d.Length1 ==> f[y][x] == 1.0
  {
    f := [];
    for y := 0 to d.Length0
      invariant |f| == y && forall r :: 0 <= r < y ==> |f[r]| == d.Length1
      invariant forall r, c :: 0 <= r < y && 0 <= c < d.Length1 ==> f[r][c] == Normalise(d[r, c], m)
    {
      var row := [];
      for x := 0 to d.Length1
        invariant |row| == x && forall c :: 0 <= c < x ==> row[c] == Normalise(d[y, c], m)
      {
        row := row + [Normalise(d[y, x], m)];
      }
      f := f + [row];
    }
    forall y, x | 0 <= y < d.Length0 && 0 <= x < d.Length1
      ensures 0.0 <= f[y][x] <= 1.0 && (f[y][x] == 0.0 <==> g[y][x] != ' ')
    {
    }
  }

  // ---------------------------------------------------------------------
  // Noise field

  /** One cell of `buildNoiseField`: the octaves' noise values mapped into
      [0,1] and averaged with weights 1, 1/2, 1/4, ... */
  method NoiseCell(noise: (real, real) -> real, x: int, y: int, scale: real, octaves: real) returns (v: real)
    requires Activity.NoiseBounded(noise) && octaves > 0.0
    ensures 0.0 <= v <= 1.0
  {
    var amp, freq, sum, norm := 1.0, 1.0, 0.0, 0.0;
    var o := 0;
    while (o as real) < octaves
      invariant amp > 0.0 && 0.0 <= sum <= norm
      invariant o > 0 ==> norm > 0.0
      decreases octaves.Floor + 1 - o
    {
      var n := noise((x as real * scale) * freq, (y as real * scale) * freq);
      assert -1.0 <= n <= 1.0;
      var t := (n + 1.0) / 2.0;
      MulUnitInterval(amp, t);
      var term := amp * t;
      assert 0.0 <= term <= amp;
      sum := sum + term;
      norm := norm + amp;
      amp := amp * 0.5;
      freq := freq * 2.0;
      o := o + 1;
    }
    v := sum / norm;
  }

  /** `buildNoiseField`: every value in [0,1]. */
  method BuildNoiseField(noise: (real, real) -> real, w: nat, h: nat, scale: real, octaves: real) returns (f: Field)
    requires Activity.NoiseBounded(noise) && octaves > 0.0
    ensures IsGrid(f, w, h)
    ensures forall y, x :: 0 <= y < h && 0 <= x < w ==> 0.0 <= f[y][x] <= 1.0
  {
    f := [];
    for y := 0 to h
      invariant |f| == y && forall r :: 0 <= r < y ==> |f[r]| == w
      invariant forall r, c :: 0 <= r < y && 0 <= c < w ==> 0.0 <= f[r][c] <= 1.0
    {
      var row := [];
      for x := 0 to w
        invariant |row| == x && forall c :: 0 <= c < x ==> 0.0 <= row[c] <= 1.0
      {
        var v := NoiseCell(noise, x, y, scale, octaves);
        row := row + [v];
      }
      f := f + [row];
    }
  }

  // ---------------------------------------------------------------------
  // Ripple field

  /** JavaScript's floating-point `%` stays abstract: for a non-negative
      dividend it is taken to give a value in [0, |wl|). */
  ghost predicate RemainderBounded(rem: (real, real) -> real) {
    forall r, wl :: r >= 0.0 && wl != 0.0 ==> 0.0 <= rem(r, wl) < Abs(wl)
  }

  ghost predicate HypotNonneg(hypot: (real, real) -> real) {
    forall a, b :: hypot(a, b) >= 0.0
  }

  /** The raw ripple value of a cell: distance from the grid centre, modulo
      the wavelength. */
  function RippleRaw(hypot: (real, real) -> real, rem: (real, real) -> real, w: nat, h: nat, wl: real, y: int, x: int): (r: real)
    ensures HypotNonneg(hypot) && RemainderBounded(rem) && wl != 0.0 ==> 0.0 <= r < Abs(wl)
  {
    var d := hypot(x as real - w as real / 2.0, y as real - h as real / 2.0);
    rem(d, wl)
  }

  /** mx is the largest raw ripple value of the grid, or 0. */
  ghost predicate IsRippleMax(hypot: (real, real) -> real, rem: (real, real) -> real, w: nat, h: nat, wl: real, mx: real) {
    && (forall r, c :: 0 <= r < h && 0 <= c < w ==> RippleRaw(hypot, rem, w, h, wl, r, c) <= mx)
    && (mx == 0.0 || exists r, c :: 0 <= r < h && 0 <= c < w && RippleRaw(hypot, rem, w, h, wl, r, c) == mx)
  }

  /** f is the ripple field: every raw value divided by the largest raw
      value, or by 1 when that is smaller. */
  ghost predicate IsRippleField(hypot: (real, real) -> real, rem: (real, real) -> real, w: nat, h: nat, wl: real, f: Field)
    requires IsGrid(f, w, h)
  {
    exists mx :: IsRippleMax(hypot, rem, w, h, wl, mx) &&
      forall y, x :: 0 <= y < h && 0 <= x < w ==> f[y][x] == RippleRaw(hypot, rem, w, h, wl, y, x) / Max(1.0, mx)
  }

  /** `buildRippleField`: the raw values divided by their maximum (at least
      1), so every value is in [0,1], zero exactly where the raw value is,
      and the order of the raw values is kept. */
  method BuildRippleField(hypot: (real, real) -> real, rem: (real, real) -> real, w: nat, h: nat, wl: real) returns (f: Field)
    requires HypotNonneg(hypot) && RemainderBounded(rem) && wl != 0.0
    ensures IsGrid(f, w, h)
    ensures forall y, x :: 0 <= y < h && 0 <= x < w ==> 0.0 <= f[y][x] <= 1.0
    ensures forall y, x :: 0 <= y < h && 0 <= x < w ==> (f[y][x] == 0.0 <==> RippleRaw(hypot, rem, w, h, wl, y, x) == 0.0)
    ensures forall y, x, y', x' ::
      (0 <= y < h && 0 <= x < w && 0 <= y' < h && 0 <= x' < w &&
       RippleRaw(hypot, rem, w, h, wl, y, x) <= RippleRaw(hypot, rem, w, h, wl, y', x')) ==> f[y][x] <= f[y'][x']
    ensures IsRippleField(hypot, rem, w, h, wl, f)
  {
    var mx := RippleMax(hypot, rem, w, h, wl);
    var m := Max(1.0, mx);
    f := RippleScaled(hypot, rem, w, h, wl, m);
    assert IsRippleMax(hypot, rem, w, h, wl, mx);
    forall y, x, y', x' | 0 <= y < h && 0 <= x < w && 0 <= y' < h && 0 <= x' < w &&
      RippleRaw(hypot, rem, w, h, wl, y, x) <= RippleRaw(hypot, rem, w, h, wl, y', x')
      ensures f[y][x] <= f[y'][x']
    {
      DivMonotone(RippleRaw(hypot, rem, w, h, wl, y, x), RippleRaw(hypot, rem, w, h, wl, y', x'), m);
    }
    forall y, x | 0 <= y < h && 0 <= x < w
      ensures 0.0 <= f[y][x] <= 1.0
    {
      ScaledUnit(RippleRaw(hypot, rem, w, h, wl, y, x), mx);
    }
  }

  /** A value in [0, mx] divided by max(1, mx) is in [0,1], and zero only
      when the value is. */
  lemma ScaledUnit(v: real, mx: real)
    requires 0.0 <= v <= mx
    ensures 0.0 <= v / Max(1.0, mx) <= 1.0
    ensures v / Max(1.0, mx) == 0.0 <==> v == 0.0
  {
    var m := Max(1.0, mx);
    DivMonotone(0.0, v, m);
    DivMonotone(v, m, m);
  }


  /** The first loop of `buildRippleField`: the largest raw value, or 0. */
  method RippleMax(hypot: (real, real) -> real, rem: (real, real) -> real, w: nat, h: nat, wl: real) returns (mx: real)
    ensures mx >= 0.0
    ensures forall r, c :: 0 <= r < h && 0 <= c < w ==> RippleRaw(hypot, rem, w, h, wl, r, c) <= mx
    ensures mx == 0.0 || exists r, c :: 0 <= r < h && 0 <= c < w && RippleRaw(hypot, rem, w, h, wl, r, c) == mx
  {
    mx := 0.0;
    for y := 0 to h
      invariant mx >= 0.0
      invariant forall r, c :: 0 <= r < y && 0 <= c < w ==> RippleRaw(hypot, rem, w, h, wl, r, c) <= mx
      invariant mx == 0.0 || exists r, c :: 0 <= r < h && 0 <= c < w && RippleRaw(hypot, rem, w, h, wl, r, c) == mx
    {
      for x := 0 to w
        invariant mx >= 0.0
        invariant forall r, c :: 0 <= r < h && 0 <= c < w && (r < y || (r == y && c < x)) ==> RippleRaw(hypot, rem, w, h, wl, r, c) <= mx
        invariant mx == 0.0 || exists r, c :: 0 <= r < h && 0 <= c < w && RippleRaw(hypot, rem, w, h, wl, r, c) == mx
      {
        var r := hypot(x as real - w as real / 2.0, y as real - h as real / 2.0);
        var v := rem(r, wl);
        if v > mx {
          mx := v;
          assert RippleRaw(hypot, rem, w, h, wl, y, x) == mx;
        }
      }
    }
  }

  /** The second loop of `buildRippleField`: every raw value divided by m. */
  method RippleScaled(hypot: (real, real) -> real, rem: (real, real) -> real, w: nat, h: nat, wl: real, m: real) returns (f: Field)
    requires m > 0.0
    ensures IsGrid(f, w, h)
    ensures forall r, c :: 0 <= r < h && 0 <= c < w ==> f[r][c] == RippleRaw(hypot, rem, w, h, wl, r, c) / m
  {
    f := [];
    for y := 0 to h
      invariant |f| == y && forall r :: 0 <= r < y ==> |f[r]| == w
      invariant forall r, c :: 0 <= r < y && 0 <= c < w ==> f[r][c] == RippleRaw(hypot, rem, w, h, wl, r, c) / m
    {
      var row := [];
      for x := 0 to w
        invariant |row| == x && forall c :: 0 <= c < x ==> row[c] == RippleRaw(hypot, rem, w, h, wl, y, c) / m
      {
        row := row + [RippleRaw(hypot, rem, w, h, wl, y, x) / m];
      }
      f := f + [row];
    }
  }

  /** Division by a common positive divisor keeps the order. */
  lemma DivMonotone(a: real, b: real, m: real)
    requires m > 0.0 && a <= b
    ensures a / m <= b / m
  {
    assert b / m - a / m == (b - a) / m;
  }

  // ---------------------------------------------------------------------
  // Equalisation

  /** The histogram bin of a value: the clamped value times 255, truncated,
      at most 255. */
  function Bin(v: real): (i: nat)
    ensures i < 256
    ensures v >= 1.0 ==> i == 255
  {
    var c := Clamp(v, 0.0, 1.0);
    MulUnitInterval(c, 255.0 / 255.0);
    assert 0.0 <= c * 255.0 <= 255.0;
    MinInt(255, (c * 255.0).Floor)
  }

  lemma BinMonotone(u: real, v: real)
    requires u <= v
    ensures Bin(u) <= Bin(v)
  {
    MulMonotone(255.0, Clamp(u, 0.0, 1.0), Clamp(v, 0.0, 1.0));
  }

  function Sum(s: seq<int>): int {
    if s == [] then 0 else Sum(s[..|s| - 1]) + s[|s| - 1]
  }

  predicate Nonneg(s: seq<int>) {
    forall i :: 0 <= i < |s| ==> s[i] >= 0
  }

  /** Raising one entry by one raises the sum by one. */
  lemma {:induction false} SumIncrement(s: seq<int>, i: nat)
    requires i < |s|
    ensures Sum(s[i := s[i] + 1]) == Sum(s) + 1
  {
    var t := s[i := s[i] + 1];
    if i == |s| - 1 {
      assert t[..|t| - 1] == s[..|s| - 1];
    } else {
      assert t[..|t| - 1] == s[..|s| - 1][i := s[i] + 1];
      SumIncrement(s[..|s| - 1], i);
    }
  }

  /** Prefix sums of non-negative counts grow with the prefix. */
  lemma {:induction false} PrefixSumMonotone(s: seq<int>, i: nat, j: nat)
    requires Nonneg(s) && i <= j <= |s|
    ensures 0 <= Sum(s[..i]) <= Sum(s[..j])
  {
    if i < j {
      PrefixSumMonotone(s, i, j - 1);
      assert s[..j][..j - 1] == s[..j - 1];
    } else if i > 0 {
      PrefixSumMonotone(s, i - 1, i);
    } else {
      assert s[..0] == [];
    }
  }

  /** The number of values of `row` whose bin lies in [lo, hi). */
  function RowBinCount(row: seq<real>, lo: int, hi: int): nat {
    if row == [] then 0
    else RowBinCount(row[..|row| - 1], lo, hi) + (if lo <= Bin(row[|row| - 1]) < hi then 1 else 0)
  }

  /** The number of values of `row` in bin b. */
  function RowTally(row: seq<real>, b: int): nat {
    RowBinCount(row, b, b + 1)
  }

  /** The number of cells of `field` whose bin lies in [lo, hi). */
  function BinCount(field: Field, lo: int, hi: int): nat {
    if field == [] then 0
    else BinCount(field[..|field| - 1], lo, hi) + RowBinCount(field[|field| - 1], lo, hi)
  }

  lemma {:induction false} RowBinCountSplit(row: seq<real>, lo: int, mid: int, hi: int)
    requires lo <= mid <= hi
    ensures RowBinCount(row, lo, mid) + RowBinCount(row, mid, hi) == RowBinCount(row, lo, hi)
  {
    if row != [] {
      RowBinCountSplit(row[..|row| - 1], lo, mid, hi);
    }
  }

  /** Counting the bins of [lo, mid) and of [mid, hi) counts those of
      [lo, hi). */
  lemma {:induction false} BinCountSplit(field: Field, lo: int, mid: int, hi: int)
    requires lo <= mid <= hi
    ensures BinCount(field, lo, mid) + BinCount(field, mid, hi) == BinCount(field, lo, hi)
  {
    if field != [] {
      BinCountSplit(field[..|field| - 1], lo, mid, hi);
      RowBinCountSplit(field[|field| - 1], lo, mid, hi);
    }
  }

  /** With one count per bin, the counts of the bins below i add up to the
      number of cells whose bin is below i. */
  lemma {:induction false} SumCounts(hist: seq<int>, field: Field, i: nat)
    requires |hist| == 256 && i <= 256
    requires forall b :: 0 <= b < 256 ==> hist[b] == BinCount(field, b, b + 1)
    ensures Sum(hist[..i]) == BinCount(field, 0, i)
  {
    if i == 0 {
      assert hist[..0] == [];
      BinCountSplit(field, 0, 0, 0);
    } else {
      SumCounts(hist, field, i - 1);
      assert hist[..i][..i - 1] == hist[..i - 1];
      BinCountSplit(field, 0, i - 1, i);
    }
  }

  /** The histogram pass: the count of every bin, and the number of cells. */
  method Histogram(field: Field, w: nat, h: nat) returns (hist: seq<int>, total: int)
    requires IsGrid(field, w, h)
    ensures |hist| == 256 && Nonneg(hist)
    ensures forall b :: 0 <= b < 256 ==> hist[b] == BinCount(field, b, b + 1)
    ensures Sum(hist) == total == w * h
  {
    hist := seq(256, _ => 0);
    ZeroSum(256);
    total := 0;
    assert field[..0] == [];
    for y := 0 to h
      invariant |hist| == 256 && Nonneg(hist)
      invariant forall b :: 0 <= b < 256 ==> hist[b] == BinCount(field[..y], b, b + 1)
      invariant Sum(hist) == total == y * w
    {
      hist, total := HistogramRow(field[y], w, hist, total);
      assert field[..y + 1][..y] == field[..y];
      assert field[y][..w] == field[y];
    }
    assert field[..h] == field;
  }

  /** The inner loop of the histogram pass: one more row counted. */
  method HistogramRow(row: seq<real>, w: nat, hist: seq<int>, total: int) returns (counts: seq<int>, n: int)
    requires |hist| == 256 && Nonneg(hist) && |row| == w && Sum(hist) == total
    ensures |counts| == 256 && Nonneg(counts)
    ensures forall b :: 0 <= b < 256 ==> counts[b] == hist[b] + RowTally(row, b)
    ensures Sum(counts) == n == total + w
  {
    counts, n := hist, total;
    assert row[..0] == [];
    for x := 0 to w
      invariant |counts| == 256 && Nonneg(counts)
      invariant forall b :: 0 <= b < 256 ==> counts[b] == hist[b] + RowTally(row[..x], b)
      invariant Sum(counts) == n == total + x
    {
      assert row[..x + 1][..x] == row[..x];
      var b := Bin(row[x]);
      SumIncrement(counts, b);
      counts := counts[b := counts[b] + 1];
      n := n + 1;
    }
    assert row[..w] == row;
  }

  lemma {:induction false} ZeroSum(k: nat)
    ensures Sum(seq(k, _ => 0)) == 0
  {
    if k > 0 {
      assert seq(k, _ => 0)[..k - 1] == seq(k - 1, _ => 0);
      ZeroSum(k - 1);
    }
  }

  /** The cumulative table: entry i is the sum of the counts of bins 0 to
      i, over the total. */
  method CumulativeShares(hist: seq<int>, total: int) returns (cdf: seq<real>)
    requires |hist| == 256 && Nonneg(hist) && Sum(hist) == total > 0
    ensures |cdf| == 256
    ensures forall i :: 0 <= i < 256 ==> cdf[i] == Sum(hist[..i + 1]) as real / total as real
  {
    cdf := [];
    var acc := 0;
    for i := 0 to 256
      invariant |cdf| == i && acc == Sum(hist[..i])
      invariant forall k :: 0 <= k < i ==> cdf[k] == Sum(hist[..k + 1]) as real / total as real
    {
      assert hist[..i + 1][..i] == hist[..i];
      acc := acc + hist[i];
      cdf := cdf + [acc as real / total as real];
    }
  }

  /** The shares are in [0,1], grow with the bin, and reach 1 at the last
      bin. */
  lemma CdfShape(hist: seq<int>, total: int, i: nat, j: nat)
    requires |hist| == 256 && Nonneg(hist) && Sum(hist) == total > 0 && i <= j < 256
    ensures 0.0 <= Sum(hist[..i + 1]) as real / total as real <= Sum(hist[..j + 1]) as real / total as real <= 1.0
    ensures Sum(hist[..256]) as real / total as real == 1.0
  {
    PrefixSumMonotone(hist, i + 1, j + 1);
    PrefixSumMonotone(hist, j + 1, 256);
    assert hist[..256] == hist;
    ShareBounds(Sum(hist[..i + 1]), Sum(hist[..j + 1]), total);
  }

  lemma ShareBounds(a: int, b: int, t: int)
    requires 0 <= a <= b <= t && t > 0
    ensures 0.0 <= a as real / t as real <= b as real / t as real <= 1.0
    ensures t as real / t as real == 1.0
  {
    DivMonotone(0.0, a as real, t as real);
    DivMonotone(a as real, b as real, t as real);
    DivMonotone(b as real, t as real, t as real);
  }

  /** The equalised value of a cell holding v: the share of the field's
      cells whose bin is at most v's bin. */
  function Share(field: Field, w: nat, h: nat, v: real): real
    requires w * h > 0
  {
    BinCount(field, 0, Bin(v) + 1) as real / (w * h) as real
  }

  /** The equalised field, cell by cell. */
  function Equalized(field: Field, w: nat, h: nat): (r: Field)
    requires IsGrid(field, w, h) && w * h > 0
    ensures IsGrid(r, w, h)
  {
    seq(h, y requires 0 <= y < h => seq(w, x requires 0 <= x < w => Share(field, w, h, field[y][x])))
  }

  /** Replaces every cell of `field` by the entry of `cdf` for its bin. */
  method LookUpBins(field: Field, w: nat, h: nat, cdf: seq<real>) returns (out: Field)
    requires IsGrid(field, w, h) && |cdf| == 256
    ensures IsGrid(out, w, h)
    ensures forall r, c :: 0 <= r < h && 0 <= c < w ==> out[r][c] == cdf[Bin(field[r][c])]
  {
    out := [];
    for y := 0 to h
      invariant |out| == y && forall r :: 0 <= r < y ==> |out[r]| == w
      invariant forall r, c :: 0 <= r < y && 0 <= c < w ==> out[r][c] == cdf[Bin(field[r][c])]
    {
      var row := [];
      for x := 0 to w
        invariant |row| == x && forall c :: 0 <= c < x ==> row[c] == cdf[Bin(field[y][c])]
      {
        row := row + [cdf[Bin(field[y][x])]];
      }
      out := out + [row];
    }
  }

  /** Histogram equalisation: each cell replaced by the share of cells in
      its bin or below. The result is in [0,1], keeps the order of the
      input, and is 1 wherever the input is at least 1. */
  method Equalize(field: Field, w: nat, h: nat) returns (out: Field)
    requires IsGrid(field, w, h) && w * h > 0
    ensures out == Equalized(field, w, h)
    ensures IsGrid(out, w, h) && UnitField(out, w, h)
    ensures forall y, x :: 0 <= y < h && 0 <= x < w && field[y][x] >= 1.0 ==> out[y][x] == 1.0
    ensures forall y, x, y', x' ::
      (0 <= y < h && 0 <= x < w && 0 <= y' < h && 0 <= x' < w && field[y][x] <= field[y'][x']) ==> out[y][x] <= out[y'][x']
  {
    var hist, total := Histogram(field, w, h);
    var cdf := CumulativeShares(hist, total);
    forall i | 0 <= i < 256
      ensures cdf[i] == BinCount(field, 0, i + 1) as real / (w * h) as real
    {
      SumCounts(hist, field, i + 1);
    }
    out := LookUpBins(field, w, h, cdf);
    GridsEqual(out, Equalized(field, w, h), w, h);
    forall y, x, y', x' | 0 <= y < h && 0 <= x < w && 0 <= y' < h && 0 <= x' < w && field[y][x] <= field[y'][x']
      ensures 0.0 <= out[y][x] <= out[y'][x'] <= 1.0
    {
      BinMonotone(field[y][x], field[y'][x']);
      CdfShape(hist, total, Bin(field[y][x]), Bin(field[y'][x']));
    }
    forall y, x | 0 <= y < h && 0 <= x < w
      ensures 0.0 <= out[y][x] <= 1.0 && (field[y][x] >= 1.0 ==> out[y][x] == 1.0)
    {
      CdfShape(hist, total, Bin(field[y][x]), 255);
    }
  }

  // ---------------------------------------------------------------------
  // Box blur

  /** The values of the in-grid cells among the first k offsets of the 3x3
      block around (y, x), in the order the neighbour loops visit them. */
  function BlurValues(g: Field, w: nat, h: nat, y: int, x: int, k: nat): seq<real>
    requires IsGrid(g, w, h) && k <= 9
  {
    if k == 0 then []
    else
      var ny := y + Activity.DY(k - 1);
      var nx := x + Activity.DX(k - 1);
      BlurValues(g, w, h, y, x, k - 1) + (if Activity.InGrid(w, h, ny, nx) then [g[ny][nx]] else [])
  }

  function SumR(s: seq<real>): real {
    if s == [] then 0.0 else SumR(s[..|s| - 1]) + s[|s| - 1]
  }

  lemma {:induction false} BlurValuesBounded(g: Field, w: nat, h: nat, y: int, x: int, k: nat, lo: real, hi: real)
    requires IsGrid(g, w, h) && k <= 9
    requires forall r, c :: 0 <= r < h && 0 <= c < w ==> lo <= g[r][c] <= hi
    ensures forall i :: 0 <= i < |BlurValues(g, w, h, y, x, k)| ==> lo <= BlurValues(g, w, h, y, x, k)[i] <= hi
  {
    if k > 0 {
      BlurValuesBounded(g, w, h, y, x, k - 1, lo, hi);
    }
  }

  lemma SumRAppend(s: seq<real>, v: real)
    ensures SumR(s + [v]) == SumR(s) + v
  {
    assert (s + [v])[..|s|] == s;
  }

  /** The sum of n values in [lo, hi] lies between n*lo and n*hi. */
  lemma {:induction false} SumRBounds(s: seq<real>, lo: real, hi: real)
    requires forall i :: 0 <= i < |s| ==> lo <= s[i] <= hi
    ensures |s| as real * lo <= SumR(s) <= |s| as real * hi
  {
    if s != [] {
      var t := s[..|s| - 1];
      SumRBounds(t, lo, hi);
      AddBounds(|t| as real, SumR(t), s[|s| - 1], lo, hi);
    }
  }

  lemma AddBounds(c: real, s: real, v: real, lo: real, hi: real)
    requires c * lo <= s <= c * hi && lo <= v <= hi
    ensures (c + 1.0) * lo <= s + v <= (c + 1.0) * hi
  {
    assert (c + 1.0) * lo == c * lo + lo;
    assert (c + 1.0) * hi == c * hi + hi;
  }

  /** The block always holds the cell itself. */
  lemma BlurCountPositive(g: Field, w: nat, h: nat, y: int, x: int)
    requires IsGrid(g, w, h) && Activity.InGrid(w, h, y, x)
    ensures |BlurValues(g, w, h, y, x, 9)| >= 1
  {
    assert Activity.DY(4) == 0 && Activity.DX(4) == 0;
    assert |BlurValues(g, w, h, y, x, 5)| >= 1;
    assert |BlurValues(g, w, h, y, x, 6)| >= 1;
    assert |BlurValues(g, w, h, y, x, 7)| >= 1;
    assert |BlurValues(g, w, h, y, x, 8)| >= 1;
  }

  /** One blurred cell: the mean of the in-grid cells of its 3x3 block. */
  function BlurCell(g: Field, w: nat, h: nat, y: int, x: int): (r: real)
    requires IsGrid(g, w, h) && Activity.InGrid(w, h, y, x)
    ensures UnitField(g, w, h) ==> 0.0 <= r <= 1.0
  {
    BlurCountPositive(g, w, h, y, x);
    var vals := BlurValues(g, w, h, y, x, 9);
    BlurMeanUnit(g, w, h, y, x);
    SumR(vals) / |vals| as real
  }

  lemma BlurMeanUnit(g: Field, w: nat, h: nat, y: int, x: int)
    requires IsGrid(g, w, h) && Activity.InGrid(w, h, y, x)
    ensures var vals := BlurValues(g, w, h, y, x, 9);
      |vals| >= 1 && (UnitField(g, w, h) ==> 0.0 <= SumR(vals) / |vals| as real <= 1.0)
  {
    BlurCountPositive(g, w, h, y, x);
    if UnitField(g, w, h) {
      BlurValuesBounded(g, w, h, y, x, 9, 0.0, 1.0);
      MeanOfBounded(BlurValues(g, w, h, y, x, 9), 0.0, 1.0);
    }
  }

  /** A blurred cell lies within any bounds that hold for the whole grid;
      in particular the blur fixes a constant grid. */
  lemma BlurCellBounds(g: Field, w: nat, h: nat, y: int, x: int, lo: real, hi: real)
    requires IsGrid(g, w, h) && Activity.InGrid(w, h, y, x)
    requires forall r, c :: 0 <= r < h && 0 <= c < w ==> lo <= g[r][c] <= hi
    ensures lo <= BlurCell(g, w, h, y, x) <= hi
  {
    var vals := BlurValues(g, w, h, y, x, 9);
    BlurValuesBounded(g, w, h, y, x, 9, lo, hi);
    BlurCountPositive(g, w, h, y, x);
    MeanOfBounded(vals, lo, hi);
  }

  /** The mean of values in [lo, hi] lies in [lo, hi]. */
  lemma MeanOfBounded(s: seq<real>, lo: real, hi: real)
    requires |s| >= 1
    requires forall i :: 0 <= i < |s| ==> lo <= s[i] <= hi
    ensures lo <= SumR(s) / |s| as real <= hi
  {
    SumRBounds(s, lo, hi);
    MeanBounds(|s| as real, SumR(s), lo, hi);
  }

  lemma MeanBounds(n: real, s: real, lo: real, hi: real)
    requires n >= 1.0 && n * lo <= s <= n * hi
    ensures lo <= s / n <= hi
  {
    assert (n * lo) / n == lo;
    assert (n * hi) / n == hi;
    DivMonotone(n * lo, s, n);
    DivMonotone(s, n * hi, n);
  }

  /** One cell's sum and count, as the neighbour loops accumulate them. */
  method BlurOne(g: Field, w: nat, h: nat, y: int, x: int) returns (v: real)
    requires IsGrid(g, w, h) && Activity.InGrid(w, h, y, x)
    ensures v == BlurCell(g, w, h, y, x)
  {
    var sum, count := 0.0, 0;
    for dy := -1 to 2
      invariant sum == SumR(BlurValues(g, w, h, y, x, 3 * (dy + 1)))
      invariant count == |BlurValues(g, w, h, y, x, 3 * (dy + 1))|
    {
      sum, count := BlurRow(g, w, h, y, x, dy, sum, count);
    }
    BlurCountPositive(g, w, h, y, x);
    v := sum / count as real;
  }

  /** The inner neighbour loop: the three cells of block row dy. */
  method BlurRow(g: Field, w: nat, h: nat, y: int, x: int, dy: int, sum: real, count: nat)
    returns (sum': real, count': nat)
    requires IsGrid(g, w, h) && -1 <= dy <= 1
    requires sum == SumR(BlurValues(g, w, h, y, x, 3 * (dy + 1)))
    requires count == |BlurValues(g, w, h, y, x, 3 * (dy + 1))|
    ensures sum' == SumR(BlurValues(g, w, h, y, x, 3 * (dy + 1) + 3))
    ensures count' == |BlurValues(g, w, h, y, x, 3 * (dy + 1) + 3)|
  {
    sum', count' := sum, count;
    for dx := -1 to 2
      invariant sum' == SumR(BlurValues(g, w, h, y, x, 3 * (dy + 1) + (dx + 1)))
      invariant count' == |BlurValues(g, w, h, y, x, 3 * (dy + 1) + (dx + 1))|
    {
      sum', count' := BlurVisit(g, w, h, y, x, dy, dx, sum', count');
    }
  }

  /** The body of the neighbour loops: an in-grid neighbour adds its value
      to the sum and one to the count. */
  method BlurVisit(g: Field, w: nat, h: nat, y: int, x: int, dy: int, dx: int, sum: real, count: nat)
    returns (sum': real, count': nat)
    requires IsGrid(g, w, h) && -1 <= dy <= 1 && -1 <= dx <= 1
    requires sum == SumR(BlurValues(g, w, h, y, x, 3 * (dy + 1) + (dx + 1)))
    requires count == |BlurValues(g, w, h, y, x, 3 * (dy + 1) + (dx + 1))|
    ensures sum' == SumR(BlurValues(g, w, h, y, x, 3 * (dy + 1) + (dx + 1) + 1))
    ensures count' == |BlurValues(g, w, h, y, x, 3 * (dy + 1) + (dx + 1) + 1)|
  {
    var k := 3 * (dy + 1) + (dx + 1);
    assert Activity.DY(k) == dy && Activity.DX(k) == dx;
    var vals := BlurValues(g, w, h, y, x, k);
    var yy, xx := y + dy, x + dx;
    sum', count' := sum, count;
    if yy >= 0 && yy < h && xx >= 0 && xx < w {
      SumRAppend(vals, g[yy][xx]);
      sum' := sum + g[yy][xx];
      count' := count + 1;
    } else {
      assert vals + [] == vals;
    }
  }

  /** One blur pass, reading only the previous pass's grid. */
  method BlurPass(g: Field, w: nat, h: nat) returns (blurred: Field)
    requires IsGrid(g, w, h)
    ensures IsGrid(blurred, w, h)
    ensures forall y, x :: 0 <= y < h && 0 <= x < w ==> blurred[y][x] == BlurCell(g, w, h, y, x)
    ensures blurred == Blurred(g, w, h)
  {
    blurred := g;
    for y := 0 to h
      invariant IsGrid(blurred, w, h)
      invariant forall r, c :: 0 <= r < h && 0 <= c < w && r < y ==> blurred[r][c] == BlurCell(g, w, h, r, c)
    {
      for x := 0 to w
        invariant IsGrid(blurred, w, h)
        invariant forall r, c :: 0 <= r < h && 0 <= c < w && (r < y || (r == y && c < x)) ==> blurred[r][c] == BlurCell(g, w, h, r, c)
      {
        var v := BlurOne(g, w, h, y, x);
        blurred := blurred[y := blurred[y][x := v]];
      }
    }
    GridsEqual(blurred, Blurred(g, w, h), w, h);
  }

  /** A whole blur pass: every cell replaced by the mean of its block. A
      field in [0,1] stays in [0,1]. */
  function Blurred(g: Field, w: nat, h: nat): (r: Field)
    requires IsGrid(g, w, h)
    ensures IsGrid(r, w, h)
    ensures UnitField(g, w, h) ==> UnitField(r, w, h)
  {
    seq(h, y requires 0 <= y < h => seq(w, x requires 0 <= x < w => BlurCell(g, w, h, y, x)))
  }

  /** n blur passes, each reading the grid the previous one produced. */
  function BlurTimes(g: Field, w: nat, h: nat, n: nat): (r: Field)
    requires IsGrid(g, w, h)
    ensures IsGrid(r, w, h)
    ensures UnitField(g, w, h) ==> UnitField(r, w, h)
  {
    if n == 0 then g else Blurred(BlurTimes(g, w, h, n - 1), w, h)
  }

  /** The number of turns of the loop `for (pass = 0; pass < blur; pass++)`:
      the least n with n >= blur, and 0 for blur <= 0. */
  function Passes(blur: real): (n: nat)
    ensures n as real >= blur
    ensures n > 0 ==> (n - 1) as real < blur
  {
    if blur <= 0.0 then 0
    else if blur.Floor as real == blur then blur.Floor
    else blur.Floor + 1
  }

  /** `equalizeAndBlur`: the field itself when equalisation is off or the
      field has no cells; otherwise the equalised field, blurred while the
      pass counter is below FIELD_BLUR, with every value in [0,1]. The width
      is that of the first row, as in the source, which reads `field[0]`. */
  method EqualizeAndBlur(field: Field, equalize: bool, blur: real) returns (out: Field)
    requires |field| >= 1 && IsGrid(field, |field[0]|, |field|)
    ensures !equalize ==> out == field
    ensures IsGrid(out, |field[0]|, |field|)
    ensures equalize && |field[0]| > 0 ==> UnitField(out, |field[0]|, |field|)
    ensures equalize && |field[0]| == 0 ==> out == field
    ensures equalize && |field[0]| > 0 ==>
      out == BlurTimes(Equalized(field, |field[0]|, |field|), |field[0]|, |field|, Passes(blur))
    ensures equalize && blur <= 0.0 && |field[0]| > 0 ==>
      forall y, x, y', x' ::
        (0 <= y < |field| && 0 <= x < |field[0]| && 0 <= y' < |field| && 0 <= x' < |field[0]| &&
         field[y][x] <= field[y'][x']) ==> out[y][x] <= out[y'][x']
  {
    if !equalize { return field; }
    var h, w := |field|, |field[0]|;
    if w * h == 0 { return field; }
    out := Equalize(field, w, h);
    ghost var equalized := out;
    if blur > 0.0 {
      var pass := 0;
      while (pass as real) < blur
        invariant IsGrid(out, w, h) && UnitField(equalized, w, h)
        invariant pass <= Passes(blur) && out == BlurTimes(equalized, w, h, pass)
        decreases Passes(blur) - pass
      {
        out := BlurPass(out, w, h);
        pass := pass + 1;
      }
    }
  }
}
