/** Character grids, font frames and `centerASCII`. */
module Grids {
  import opened Util
  import opened Text

  /** A frame of rows of single characters, and a per-cell scalar field. */
  type Grid = seq<seq<char>>
  type Field = seq<seq<real>>

  /** A named frame: its lines, each padded to the grid width. */
  datatype Font = Font(name: string, lines: seq<string>)

  /** g has h rows of w cells each. */
  predicate IsGrid<T>(g: seq<seq<T>>, w: nat, h: nat) {
    |g| == h && forall y :: 0 <= y < |g| ==> |g[y]| == w
  }

  /** Two grids of one size with the same cells are equal. */
  lemma GridsEqual<T>(a: seq<seq<T>>, b: seq<seq<T>>, w: nat, h: nat)
    requires IsGrid(a, w, h) && IsGrid(b, w, h)
    requires forall y, x :: 0 <= y < h && 0 <= x < w ==> a[y][x] == b[y][x]
    ensures a == b
  {
    forall y | 0 <= y < h
      ensures a[y] == b[y]
    {
      assert forall x :: 0 <= x < w ==> a[y][x] == b[y][x];
    }
  }

  /** A grid of values in [0,1]. */
  predicate UnitField(f: Field, w: nat, h: nat)
    requires IsGrid(f, w, h)
  {
    forall y, x :: 0 <= y < h && 0 <= x < w ==> 0.0 <= f[y][x] <= 1.0
  }

  function Blank(w: nat, h: nat): (g: Grid)
    ensures IsGrid(g, w, h)
    ensures forall y, x :: 0 <= y < h && 0 <= x < w ==> g[y][x] == ' '
  {
    seq(h, _ => seq(w, _ => ' '))
  }

  /** The lines of a frame built from raw text, as font loading and `addFont`
      do: trailing white space removed, split at newlines, each line padded
      to width w. */
  function FontLines(text: string, w: nat): (lines: seq<string>)
    ensures |lines| == |Split(TrimEnd(text), '\n')| >= 1
    ensures forall i :: 0 <= i < |lines| ==>
      lines[i] == PadEnd(Split(TrimEnd(text), '\n')[i], w) && |lines[i]| >= w
  {
    var parts := Split(TrimEnd(text), '\n');
    seq(|parts|, i requires 0 <= i < |parts| => PadEnd(parts[i], w))
  }

  /** The longest trimmed line (0 for no lines). */
  function MaxTrimmedLen(lines: seq<string>): (m: nat)
    ensures forall i :: 0 <= i < |lines| ==> |TrimEnd(lines[i])| <= m
    ensures |lines| > 0 ==> exists i :: 0 <= i < |lines| && |TrimEnd(lines[i])| == m
    ensures |lines| == 0 ==> m == 0
  {
    if |lines| == 0 then 0
    else
      var rest := MaxTrimmedLen(lines[1..]);
      var here := |TrimEnd(lines[0])|;
      assert forall i :: 1 <= i < |lines| ==> lines[i] == lines[1..][i - 1];
      if here >= rest then here else rest
  }

  function PadX(lines: seq<string>, w: nat): (p: nat)
    ensures MaxTrimmedLen(lines) <= w ==> 2 * p <= w - MaxTrimmedLen(lines) <= 2 * p + 1
    ensures MaxTrimmedLen(lines) >= w ==> p == 0
  {
    MaxInt(0, (w - MaxTrimmedLen(lines)) / 2)
  }

  function PadY(lines: seq<string>, h: nat): (p: nat)
    ensures |lines| <= h ==> 2 * p <= h - |lines| <= 2 * p + 1
    ensures |lines| >= h ==> p == 0
  {
    MaxInt(0, (h - |lines|) / 2)
  }

  /** Cell (y,x) after the first n lines have been copied at offsets
      (padX, padY): a character of the trimmed line it falls on, else ' '. */
  function Placed(lines: seq<string>, padX: int, padY: int, n: nat, y: int, x: int): char
    requires n <= |lines|
  {
    var ly := y - padY;
    var lx := x - padX;
    if 0 <= ly < n && 0 <= lx < |TrimEnd(lines[ly])| then TrimEnd(lines[ly])[lx] else ' '
  }

  /** Cell (y,x) of the centred frame. */
  function CenteredCell(lines: seq<string>, w: nat, h: nat, y: int, x: int): (r: char)
    ensures var ly, lx := y - PadY(lines, h), x - PadX(lines, w);
      && (0 <= ly < |lines| && 0 <= lx < |TrimEnd(lines[ly])| ==> r == TrimEnd(lines[ly])[lx])
      && (r != ' ' ==> 0 <= ly < |lines| && 0 <= lx < |TrimEnd(lines[ly])|)
    ensures y < PadY(lines, h) || x < PadX(lines, w) || y >= PadY(lines, h) + |lines| ==> r == ' '
  {
    Placed(lines, PadX(lines, w), PadY(lines, h), |lines|, y, x)
  }

  /** The inner loop of `centerASCII`: the characters of t copied into the
      row from column padX on, as far as the row reaches. */
  method CopyLine(row: seq<char>, t: string, padX: nat) returns (out: seq<char>)
    ensures |out| == |row|
    ensures forall c :: 0 <= c < |row| ==> out[c] == (if padX <= c < padX + |t| then t[c - padX] else row[c])
  {
    out := row;
    var x := 0;
    while x < |t| && x + padX < |row|
      invariant 0 <= x <= |t| && |out| == |row|
      invariant forall c :: 0 <= c < |row| ==> out[c] == (if padX <= c < padX + x then t[c - padX] else row[c])
    {
      out := out[x + padX := t[x]];
      x := x + 1;
    }
  }

  /** g is the h-by-w grid of the first n lines copied at (padX, padY). */
  ghost predicate PlacedUpTo(g: Grid, lines: seq<string>, padX: nat, padY: nat, n: nat, w: nat, h: nat)
    requires n <= |lines|
  {
    IsGrid(g, w, h) && forall r, c :: 0 <= r < h && 0 <= c < w ==> g[r][c] == Placed(lines, padX, padY, n, r, c)
  }

  /** One turn of the outer loop of `centerASCII`: line n copied onto row
      n + padY when that row is inside the grid. */
  method PlaceLine(g: Grid, lines: seq<string>, padX: nat, padY: nat, n: nat, w: nat, h: nat) returns (g': Grid)
    requires n < |lines| && PlacedUpTo(g, lines, padX, padY, n, w, h)
    ensures PlacedUpTo(g', lines, padX, padY, n + 1, w, h)
  {
    g' := g;
    var t := TrimEnd(lines[n]);
    if n + padY < h {
      var row := CopyLine(g[n + padY], t, padX);
      g' := g[n + padY := row];
    }
    forall r, c | 0 <= r < h && 0 <= c < w
      ensures g'[r][c] == Placed(lines, padX, padY, n + 1, r, c)
    {
      if r == n + padY {
        assert g'[r][c] == if padX <= c < padX + |t| then t[c - padX] else g[r][c];
      }
    }
  }

  /** `centerASCII`: an h-by-w grid holding each trimmed line at the
      centring offsets, clipped at the right and bottom edges; every other
      cell is blank. */
  method CenterASCII(font: Font, w: nat, h: nat) returns (g: Grid)
    ensures IsGrid(g, w, h)
    ensures forall y, x :: 0 <= y < h && 0 <= x < w ==> g[y][x] == CenteredCell(font.lines, w, h, y, x)
  {
    var lines := font.lines;
    var maxLen := MaxTrimmedLen(lines);
    var padX: nat := MaxInt(0, (w - maxLen) / 2);
    var padY: nat := MaxInt(0, (h - |lines|) / 2);
    g := Blank(w, h);
    var y := 0;
    while y < |lines|
      invariant 0 <= y <= |lines|
      invariant PlacedUpTo(g, lines, padX, padY, y, w, h)
    {
      g := PlaceLine(g, lines, padX, padY, y, w, h);
      y := y + 1;
    }
    assert padX == PadX(lines, w) && padY == PadY(lines, h);
    forall r, c | 0 <= r < h && 0 <= c < w
      ensures g[r][c] == CenteredCell(lines, w, h, r, c)
    {
      assert g[r][c] == Placed(lines, padX, padY, |lines|, r, c);
    }
  }

  /** Round trip: when the frame fits, every trimmed line can be read back
      from the centred grid at the offsets (PadX, PadY + line index). */
  lemma CenterRoundTrip(lines: seq<string>, w: nat, h: nat, ly: nat)
    requires MaxTrimmedLen(lines) <= w && |lines| <= h && ly < |lines|
    ensures PadY(lines, h) + ly < h
    ensures PadX(lines, w) + |TrimEnd(lines[ly])| <= w
    ensures forall lx :: 0 <= lx < |TrimEnd(lines[ly])| ==>
      CenteredCell(lines, w, h, PadY(lines, h) + ly, PadX(lines, w) + lx) == TrimEnd(lines[ly])[lx]
  {
    var m := MaxTrimmedLen(lines);
    assert (w - m) / 2 <= w - m;
    assert (h - |lines|) / 2 <= h - |lines|;
  }

  /** A frame loaded from text centres the same way whatever the padding
      width: the centred grid shows the trimmed pieces of the text. */
  lemma FontLinesTrim(text: string, w: nat, i: nat)
    requires i < |FontLines(text, w)|
    ensures TrimEnd(FontLines(text, w)[i]) == TrimEnd(Split(TrimEnd(text), '\n')[i])
  {
    TrimEndPadEnd(Split(TrimEnd(text), '\n')[i], w);
  }
}
