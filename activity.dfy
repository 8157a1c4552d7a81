/** `updateActivity`: the double-buffered activity grid and the per-cell
    transition progress of the organic transition. */
module Activity {
  import opened Util
  import opened Grids

  function ZeroField(w: nat, h: nat): (f: Field)
    ensures IsGrid(f, w, h)
    ensures forall y, x :: 0 <= y < h && 0 <= x < w ==> f[y][x] == 0.0
  {
    seq(h, _ => seq(w, _ => 0.0))
  }

  predicate InGrid(w: nat, h: nat, y: int, x: int) {
    0 <= y < h && 0 <= x < w
  }

  /** (ny, nx) is in the 3x3 block centred on (y, x), the cell itself
      included. */
  predicate Near(y: int, x: int, ny: int, nx: int) {
    -1 <= ny - y <= 1 && -1 <= nx - x <= 1
  }

  /** The k-th offset of the neighbour loops (dy outer, dx inner). */
  function DY(k: int): int { k / 3 - 1 }
  function DX(k: int): int { k % 3 - 1 }

  /** `maxNeighbor` after the first k offsets: 0 to start with, raised by
      every in-grid neighbour visited. */
  function NeighbourMaxUpTo(g: Field, w: nat, h: nat, y: int, x: int, k: nat): real
    requires IsGrid(g, w, h) && k <= 9
  {
    if k == 0 then 0.0
    else
      var m := NeighbourMaxUpTo(g, w, h, y, x, k - 1);
      var ny := y + DY(k - 1);
      var nx := x + DX(k - 1);
      if InGrid(w, h, ny, nx) then Max(m, g[ny][nx]) else m
  }

  lemma {:induction false} NeighbourMaxUpToSpec(g: Field, w: nat, h: nat, y: int, x: int, k: nat)
    requires IsGrid(g, w, h) && k <= 9
    ensures var m := NeighbourMaxUpTo(g, w, h, y, x, k);
      && m >= 0.0
      && (forall j :: 0 <= j < k && InGrid(w, h, y + DY(j), x + DX(j)) ==> g[y + DY(j)][x + DX(j)] <= m)
      && (m == 0.0 || exists j :: 0 <= j < k && InGrid(w, h, y + DY(j), x + DX(j)) && m == g[y + DY(j)][x + DX(j)])
  {
    if k > 0 {
      NeighbourMaxUpToSpec(g, w, h, y, x, k - 1);
    }
  }

  /** The largest previous activity in the 3x3 block around (y, x), or 0. */
  function NeighbourMax(g: Field, w: nat, h: nat, y: int, x: int): (m: real)
    requires IsGrid(g, w, h)
    ensures m >= 0.0
    ensures forall ny, nx :: Near(y, x, ny, nx) && InGrid(w, h, ny, nx) ==> g[ny][nx] <= m
    ensures m == 0.0 || exists ny, nx :: Near(y, x, ny, nx) && InGrid(w, h, ny, nx) && m == g[ny][nx]
  {
    NeighbourMaxUpToSpec(g, w, h, y, x, 9);
    forall ny, nx | Near(y, x, ny, nx) && InGrid(w, h, ny, nx)
      ensures g[ny][nx] <= NeighbourMaxUpTo(g, w, h, y, x, 9)
    {
      var j := 3 * (ny - y + 1) + (nx - x + 1);
      assert DY(j) == ny - y && DX(j) == nx - x;
    }
    NeighbourMaxUpTo(g, w, h, y, x, 9)
  }

  /** 1 where source and target differ, else 0. */
  function Instant(a: char, b: char): (r: real)
    ensures r == 1.0 <==> a != b
    ensures r == 0.0 <==> a == b
  {
    if a != b then 1.0 else 0.0
  }

  /** One cell of the new activity: the largest of the instant value, the
      neighbour influence and the decayed previous value. */
  function ActivityCell(inst: real, nmax: real, prev: real, influence: real, speed: real, decay: real): (r: real)
    ensures r >= inst && r >= nmax * influence * speed && r >= prev * decay
    ensures r == inst || r == nmax * influence * speed || r == prev * decay
  {
    Max(Max(inst, nmax * influence * speed), prev * decay)
  }

  /** The new activity is 1 where the grids differ and stays in [0,1] when
      its inputs do. */
  lemma ActivityCellBounds(inst: real, nmax: real, prev: real, influence: real, speed: real, decay: real)
    ensures var r := ActivityCell(inst, nmax, prev, influence, speed, decay);
      (0.0 <= inst <= 1.0 && 0.0 <= nmax <= 1.0 && 0.0 <= prev <= 1.0
       && 0.0 <= influence <= 1.0 && 0.0 <= speed <= 1.0 && 0.0 <= decay <= 1.0) ==>
      0.0 <= r <= 1.0 && (inst == 1.0 ==> r == 1.0)
  {
    if 0.0 <= nmax <= 1.0 && 0.0 <= influence <= 1.0 && 0.0 <= speed <= 1.0 {
      MulUnitInterval(nmax, influence);
      MulUnitInterval(nmax * influence, speed);
    }
    if 0.0 <= prev <= 1.0 && 0.0 <= decay <= 1.0 {
      MulUnitInterval(prev, decay);
    }
  }

  /** `variance`: the noise at (x,y) scaled into [0, LOCAL_VARIANCE]. */
  function Variance(noise: (real, real) -> real, x: int, y: int, localVariance: real): (v: real)
    ensures NoiseBounded(noise) && localVariance >= 0.0 ==> 0.0 <= v <= localVariance
  {
    var n := noise(x as real * 0.1, y as real * 0.1);
    ScaledNoise(n, localVariance);
    (n + 1.0) * 0.5 * localVariance
  }

  /** A noise value in [-1,1] mapped to [0,1] and scaled by lv >= 0 lies in
      [0, lv]. */
  lemma ScaledNoise(n: real, lv: real)
    ensures -1.0 <= n <= 1.0 && lv >= 0.0 ==> 0.0 <= (n + 1.0) * 0.5 * lv <= lv
  {
    if -1.0 <= n <= 1.0 && lv >= 0.0 {
      MulUnitInterval(lv, (n + 1.0) * 0.5);
      assert (n + 1.0) * 0.5 * lv == lv * ((n + 1.0) * 0.5);
    }
  }

  ghost predicate NoiseBounded(noise: (real, real) -> real) {
    forall u, v :: -1.0 <= noise(u, v) <= 1.0
  }

  /** The per-tick increment: the base rate, sped up by variance and
      activity. */
  function Increment(variance: real, activity: real, baseMs: real): (r: real)
    requires baseMs != 0.0
    ensures baseMs > 0.0 && variance >= 0.0 && activity >= 0.0 ==> r >= (1.0 / 60.0) * (1000.0 / baseMs) > 0.0
  {
    IncrementBounds(variance, activity, baseMs);
    (1.0 + variance * activity) * (1.0 / 60.0) * (1000.0 / baseMs)
  }

  lemma IncrementBounds(variance: real, activity: real, baseMs: real)
    requires baseMs != 0.0
    ensures baseMs > 0.0 && variance >= 0.0 && activity >= 0.0 ==>
      (1.0 + variance * activity) * (1.0 / 60.0) * (1000.0 / baseMs) >= (1.0 / 60.0) * (1000.0 / baseMs) > 0.0
  {
    if baseMs > 0.0 && variance >= 0.0 && activity >= 0.0 {
      var rate := (1.0 / 60.0) * (1000.0 / baseMs);
      assert 1000.0 / baseMs > 0.0;
      MulNonneg(variance, activity);
      var speed := 1.0 + variance * activity;
      MulMonotone(rate, 1.0, speed);
      assert (1.0 + variance * activity) * (1.0 / 60.0) * (1000.0 / baseMs) == rate * speed;
    }
  }

  /** One progress cell after a tick: never above 1; with a non-negative
      variance and activity and a positive base duration it never goes down
      from a value at most 1, and gains at least the base rate until it
      saturates. */
  function ProgressCell(p: real, variance: real, activity: real, baseMs: real): (r: real)
    requires baseMs != 0.0
    ensures r <= 1.0
    ensures baseMs > 0.0 && variance >= 0.0 && activity >= 0.0 ==>
      && (p <= 1.0 ==> p <= r)
      && r >= Min(1.0, p + (1.0 / 60.0) * (1000.0 / baseMs))
  {
    Min(1.0, p + Increment(variance, activity, baseMs))
  }

  /** The three passes of `updateActivity`: activity 1 where the grids
      differ; then, reading only the previous grid, the neighbour influence
      and the decay; then each progress cell advanced by its increment. */
  method UpdateActivity(src: Grid, tgt: Grid, prevAct: Field, prevProg: Field, w: nat, h: nat,
                        influence: real, speed: real, decay: real, localVariance: real, baseMs: real,
                        noise: (real, real) -> real)
    returns (act: Field, prog: Field)
    requires IsGrid(src, w, h) && IsGrid(tgt, w, h) && IsGrid(prevAct, w, h) && IsGrid(prevProg, w, h)
    requires baseMs != 0.0
    ensures IsGrid(act, w, h) && IsGrid(prog, w, h)
    ensures forall y, x :: 0 <= y < h && 0 <= x < w ==>
      act[y][x] == ActivityCell(Instant(src[y][x], tgt[y][x]), NeighbourMax(prevAct, w, h, y, x), prevAct[y][x], influence, speed, decay)
    ensures forall y, x :: 0 <= y < h && 0 <= x < w ==>
      prog[y][x] == ProgressCell(prevProg[y][x], Variance(noise, x, y, localVariance), act[y][x], baseMs)
  {
    var inst := InstantPass(src, tgt, w, h);
    act := InfluencePass(inst, prevAct, w, h, influence, speed, decay);
    prog := ProgressPass(prevProg, act, w, h, localVariance, baseMs, noise);
  }

  /** First pass: 1 where source and target differ, else 0. */
  method InstantPass(src: Grid, tgt: Grid, w: nat, h: nat) returns (act: Field)
    requires IsGrid(src, w, h) && IsGrid(tgt, w, h)
    ensures IsGrid(act, w, h)
    ensures forall y, x :: 0 <= y < h && 0 <= x < w ==> act[y][x] == Instant(src[y][x], tgt[y][x])
  {
    act := ZeroField(w, h);
    for y := 0 to h
      invariant IsGrid(act, w, h)
      invariant forall r, c :: 0 <= r < h && 0 <= c < w ==> act[r][c] == (if r < y then Instant(src[r][c], tgt[r][c]) else 0.0)
    {
      for x := 0 to w
        invariant IsGrid(act, w, h)
        invariant forall r, c :: 0 <= r < h && 0 <= c < w ==>
          act[r][c] == (if r < y || (r == y && c < x) then Instant(src[r][c], tgt[r][c]) else 0.0)
      {
        if src[y][x] != tgt[y][x] {
          act := act[y := act[y][x := 1.0]];
        }
      }
    }
  }

  /** Second pass: each cell raised to the neighbour influence and to its
      decayed previous value, neighbours read from the previous grid. */
  method InfluencePass(inst: Field, prevAct: Field, w: nat, h: nat, influence: real, speed: real, decay: real)
    returns (act: Field)
    requires IsGrid(inst, w, h) && IsGrid(prevAct, w, h)
    ensures IsGrid(act, w, h)
    ensures forall y, x :: 0 <= y < h && 0 <= x < w ==>
      act[y][x] == ActivityCell(inst[y][x], NeighbourMax(prevAct, w, h, y, x), prevAct[y][x], influence, speed, decay)
  {
    act := inst;
    for y := 0 to h
      invariant IsGrid(act, w, h)
      invariant forall r, c :: 0 <= r < h && 0 <= c < w ==>
        act[r][c] == (if r < y then InfluenceAt(inst, prevAct, w, h, r, c, influence, speed, decay) else inst[r][c])
    {
      for x := 0 to w
        invariant IsGrid(act, w, h)
        invariant forall r, c :: 0 <= r < h && 0 <= c < w ==>
          act[r][c] == (if r < y || (r == y && c < x) then InfluenceAt(inst, prevAct, w, h, r, c, influence, speed, decay) else inst[r][c])
      {
        var maxNeighbor := MaxNeighbour(prevAct, w, h, y, x);
        assert act[y][x] == inst[y][x];
        assert maxNeighbor == NeighbourMax(prevAct, w, h, y, x);
        var v := Max(act[y][x], maxNeighbor * influence * speed);
        v := Max(v, prevAct[y][x] * decay);
        assert v == ActivityCell(inst[y][x], maxNeighbor, prevAct[y][x], influence, speed, decay);
        assert v == InfluenceAt(inst, prevAct, w, h, y, x, influence, speed, decay);
        act := act[y := act[y][x := v]];
      }
    }
  }

  /** Cell (y,x) after the second pass. */
  function InfluenceAt(inst: Field, prevAct: Field, w: nat, h: nat, y: int, x: int,
                       influence: real, speed: real, decay: real): real
    requires IsGrid(inst, w, h) && IsGrid(prevAct, w, h) && InGrid(w, h, y, x)
  {
    ActivityCell(inst[y][x], NeighbourMax(prevAct, w, h, y, x), prevAct[y][x], influence, speed, decay)
  }

  /** Third pass: every progress cell advanced by its own increment. */
  method ProgressPass(prevProg: Field, act: Field, w: nat, h: nat, localVariance: real, baseMs: real,
                      noise: (real, real) -> real)
    returns (prog: Field)
    requires IsGrid(prevProg, w, h) && IsGrid(act, w, h) && baseMs != 0.0
    ensures IsGrid(prog, w, h)
    ensures forall y, x :: 0 <= y < h && 0 <= x < w ==>
      prog[y][x] == ProgressCell(prevProg[y][x], Variance(noise, x, y, localVariance), act[y][x], baseMs)
  {
    prog := prevProg;
    for y := 0 to h
      invariant IsGrid(prog, w, h)
      invariant forall r, c :: 0 <= r < h && 0 <= c < w ==>
        prog[r][c] == (if r < y then ProgressCell(prevProg[r][c], Variance(noise, c, r, localVariance), act[r][c], baseMs) else prevProg[r][c])
    {
      for x := 0 to w
        invariant IsGrid(prog, w, h)
        invariant forall r, c :: 0 <= r < h && 0 <= c < w ==>
          prog[r][c] == (if r < y || (r == y && c < x) then ProgressCell(prevProg[r][c], Variance(noise, c, r, localVariance), act[r][c], baseMs) else prevProg[r][c])
      {
        var variance := (noise(x as real * 0.1, y as real * 0.1) + 1.0) * 0.5 * localVariance;
        var localSpeed := 1.0 + variance * act[y][x];
        var increment := localSpeed * (1.0 / 60.0) * (1000.0 / baseMs);
        prog := prog[y := prog[y][x := Min(1.0, prog[y][x] + increment)]];
      }
    }
  }

  /** The neighbour loops of one cell. */
  method MaxNeighbour(g: Field, w: nat, h: nat, y: int, x: int) returns (m: real)
    requires IsGrid(g, w, h)
    ensures m == NeighbourMax(g, w, h, y, x)
  {
    m := 0.0;
    for dy := -1 to 2
      invariant m == NeighbourMaxUpTo(g, w, h, y, x, 3 * (dy + 1))
    {
      for dx := -1 to 2
        invariant m == NeighbourMaxUpTo(g, w, h, y, x, 3 * (dy + 1) + (dx + 1))
      {
        var k := 3 * (dy + 1) + (dx + 1);
        assert DY(k) == dy && DX(k) == dx;
        var ny, nx := y + dy, x + dx;
        if ny >= 0 && ny < h && nx >= 0 && nx < w {
          m := Max(m, g[ny][nx]);
        }
      }
    }
  }

  /** Over a whole tick: with parameters in [0,1] and a previous activity
      grid in [0,1], the new grid is in [0,1] and is exactly 1 wherever the
      two grids differ. */
  lemma ActivityStaysInUnit(src: Grid, tgt: Grid, prevAct: Field, w: nat, h: nat,
                            influence: real, speed: real, decay: real, y: int, x: int)
    requires IsGrid(src, w, h) && IsGrid(tgt, w, h) && IsGrid(prevAct, w, h) && UnitField(prevAct, w, h)
    requires 0.0 <= influence <= 1.0 && 0.0 <= speed <= 1.0 && 0.0 <= decay <= 1.0
    requires InGrid(w, h, y, x)
    ensures var r := ActivityCell(Instant(src[y][x], tgt[y][x]), NeighbourMax(prevAct, w, h, y, x), prevAct[y][x], influence, speed, decay);
      0.0 <= r <= 1.0 && (src[y][x] != tgt[y][x] ==> r == 1.0)
  {
    var m := NeighbourMax(prevAct, w, h, y, x);
    assert m <= 1.0;
    ActivityCellBounds(Instant(src[y][x], tgt[y][x]), m, prevAct[y][x], influence, speed, decay);
  }
}
