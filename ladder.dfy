/** `buildDynamicLadder`: the density-ordered ramp of characters that the
    tweener interpolates along, rebuilt for every source/target pair. */
module Ladder {
  import opened Util
  import opened Grids

  /** The fixed base ramp, blank to solid. 'L' occurs twice (after 'l' and
      after 'C'); the ladder keeps only its first place. */
  const BaseRamp: seq<char> :=
    [' ', '.', ',', '·', '\'', ':', ';', '-', '_', '=', '+', '*'] +
    ['!', '?', '/', '\\', '|', '(', ')', '[', ']', '{', '}', 'i'] +
    ['I', 'l', 'L', '1', 't', 'f', 'j', 'r', 'x', 'n', 'u', 'v'] +
    ['c', 'z', 'X', 'Y', 'U', 'J', 'C', 'L', 'Q', '0', 'O', 'Z'] +
    ['m', 'p', 'q', 'd', 'b', 'k', 'h', 'a', 'o', 'N', 'H', 'K'] +
    ['M', 'W', '&', '8', '%', '@', '#', '█', '▓', '▒', '░']

  /** `estimateDensity`: the score of the density table, 50 for a character
      the table does not list ('·' and '\'' among them). */
  function EstimateDensity(c: char): (r: int)
    ensures 0 <= r <= 67
    ensures r == 0 <==> c == ' '
    ensures r == 67 <==> c == '░'
  {
    match c
    case ' ' => 0 case '.' => 1 case ',' => 2 case ':' => 3 case ';' => 4 case '-' => 5
    case '_' => 6 case '=' => 7 case '+' => 8 case '*' => 9 case '!' => 10 case '?' => 11
    case '/' => 12 case '\\' => 13 case '|' => 14 case '(' => 15 case ')' => 16 case '[' => 17
    case ']' => 18 case '{' => 19 case '}' => 20 case 'i' => 21 case 'I' => 22 case 'l' => 23
    case 'L' => 24 case '1' => 25 case 't' => 26 case 'f' => 27 case 'j' => 28 case 'r' => 29
    case 'x' => 30 case 'n' => 31 case 'u' => 32 case 'v' => 33 case 'c' => 34 case 'z' => 35
    case 'X' => 36 case 'Y' => 37 case 'U' => 38 case 'J' => 39 case 'C' => 40 case 'Q' => 41
    case '0' => 42 case 'O' => 43 case 'Z' => 44 case 'm' => 45 case 'p' => 46 case 'q' => 47
    case 'd' => 48 case 'b' => 49 case 'k' => 50 case 'h' => 51 case 'a' => 52 case 'o' => 53
    case 'N' => 54 case 'H' => 55 case 'K' => 56 case 'M' => 57 case 'W' => 58 case '&' => 59
    case '8' => 60 case '%' => 61 case '@' => 62 case '#' => 63 case '█' => 64 case '▓' => 65
    case '▒' => 66 case '░' => 67
    case _ => 50
  }

  /** Two base-ramp characters are missing from the table and score 50, so
      a leftover placed next to them in the ladder is compared with 50. */
  lemma UnscoredRampCharacters()
    ensures BaseRamp[3] == '·' && BaseRamp[4] == '\''
    ensures EstimateDensity('·') == 50 && EstimateDensity('\'') == 50
  {
  }

  predicate InRamp(c: char) { c in BaseRamp }
  predicate NotSpace(c: char) { c != ' ' }

  // ---------------------------------------------------------------------
  // Sequences used as JavaScript Sets (insertion-ordered, no duplicates)

  /** The elements of s that satisfy p, in order. */
  function Filter(s: seq<char>, p: char -> bool): (r: seq<char>)
    ensures forall c :: c in r <==> c in s && p(c)
    ensures NoDup(s) ==> NoDup(r)
  {
    if s == [] then []
    else
      var rest := Filter(s[1..], p);
      assert forall c :: c in s[1..] ==> c in s;
      if p(s[0]) then
        NoDupCons(s[0], rest);
        [s[0]] + rest
      else rest
  }

  lemma NoDupCons(x: char, s: seq<char>)
    ensures NoDup(s) && x !in s ==> NoDup([x] + s)
  {
    if NoDup(s) && x !in s {
      var t := [x] + s;
      forall i, j | 0 <= i < j < |t| ensures t[i] != t[j] {
        if i == 0 {
          assert t[j] == s[j - 1];
        } else {
          assert t[i] == s[i - 1] && t[j] == s[j - 1];
        }
      }
    }
  }

  lemma {:induction false} FilterAppend(a: seq<char>, b: seq<char>, p: char -> bool)
    ensures Filter(a + b, p) == Filter(a, p) + Filter(b, p)
  {
    if a == [] {
      assert a + b == b;
    } else {
      assert (a + b)[1..] == a[1..] + b;
      FilterAppend(a[1..], b, p);
    }
  }

  /** `set.add(c)` */
  function SetAdd(s: seq<char>, c: char): (r: seq<char>)
    ensures forall x :: x in r <==> x in s || x == c
    ensures NoDup(s) ==> NoDup(r)
  {
    if c in s then s
    else
      assert forall i :: 0 <= i < |s| ==> (s + [c])[i] == s[i];
      s + [c]
  }

  // ---------------------------------------------------------------------
  // The backbone: base-ramp characters that occur, in ramp order

  /** The walk over the base ramp: each character of s is kept at its first
      place in the ramp and then removed from s, so a repeated ramp entry
      is taken once. */
  function Backbone(ramp: seq<char>, s: set<char>): (r: seq<char>)
    ensures forall c :: c in r <==> c in ramp && c in s
    ensures NoDup(r)
    ensures |ramp| > 0 && ramp[0] in s ==> |r| > 0 && r[0] == ramp[0]
    decreases |ramp|
  {
    if ramp == [] then []
    else
      assert forall c :: c in ramp[1..] ==> c in ramp;
      assert forall c :: c in ramp ==> c == ramp[0] || c in ramp[1..];
      if ramp[0] in s then
        var rest := Backbone(ramp[1..], s - {ramp[0]});
        NoDupCons(ramp[0], rest);
        [ramp[0]] + rest
      else Backbone(ramp[1..], s)
  }

  /** The backbone lists its characters in the order of their first place
      in the ramp. */
  predicate InRampOrder(ramp: seq<char>, r: seq<char>) {
    forall i, j :: 0 <= i < j < |r| ==> r[i] in ramp && r[j] in ramp && FirstIndex(ramp, r[i]) < FirstIndex(ramp, r[j])
  }

  lemma {:induction false} BackboneInRampOrder(ramp: seq<char>, s: set<char>)
    ensures InRampOrder(ramp, Backbone(ramp, s))
    decreases |ramp|
  {
    var r := Backbone(ramp, s);
    if ramp != [] {
      var t := if ramp[0] in s then s - {ramp[0]} else s;
      var rest := Backbone(ramp[1..], t);
      BackboneInRampOrder(ramp[1..], t);
      forall k | 0 <= k < |rest|
        ensures rest[k] in ramp && FirstIndex(ramp, rest[k]) == FirstIndex(ramp[1..], rest[k]) + 1
      {
        assert rest[k] in rest;
      }
      if ramp[0] in s {
        assert r == [ramp[0]] + rest;
        forall i, j | 0 <= i < j < |r|
          ensures r[i] in ramp && r[j] in ramp && FirstIndex(ramp, r[i]) < FirstIndex(ramp, r[j])
        {
          assert r[j] == rest[j - 1];
          if i > 0 {
            assert r[i] == rest[i - 1];
            assert FirstIndex(ramp[1..], rest[i - 1]) < FirstIndex(ramp[1..], rest[j - 1]);
          }
        }
      } else {
        assert r == rest;
        forall i, j | 0 <= i < j < |r|
          ensures r[i] in ramp && r[j] in ramp && FirstIndex(ramp, r[i]) < FirstIndex(ramp, r[j])
        {
          assert r[i] == rest[i] && r[j] == rest[j];
          assert FirstIndex(ramp[1..], rest[i]) < FirstIndex(ramp[1..], rest[j]);
        }
      }
    }
  }

  // ---------------------------------------------------------------------
  // Placing the leftovers

  /** Position i (1 <= i < |l|) brackets density d: the scores of its two
      neighbours enclose d. */
  predicate Brackets(l: seq<char>, i: int, d: int)
    requires 1 <= i < |l|
  {
    EstimateDensity(l[i - 1]) <= d <= EstimateDensity(l[i])
  }

  /** The first bracketing position at or after i, or |l| if there is none. */
  function FirstBracket(l: seq<char>, d: int, i: nat): (k: nat)
    requires 1 <= i
    ensures k <= |l|
    ensures k < |l| ==> i <= k && Brackets(l, k, d)
    ensures forall j :: i <= j < k ==> !Brackets(l, j, d)
    decreases |l| - i
  {
    if i >= |l| then |l|
    else if Brackets(l, i, d) then i
    else FirstBracket(l, d, i + 1)
  }

  /** Where a leftover character goes: the first position i >= 1 whose
      neighbours' scores bracket its own, or the end of the ladder. */
  function InsertionPoint(l: seq<char>, c: char): (k: nat)
    ensures k <= |l|
    ensures |l| >= 1 ==> 1 <= k
    ensures k < |l| ==> Brackets(l, k, EstimateDensity(c))
    ensures forall j :: 1 <= j < k ==> !Brackets(l, j, EstimateDensity(c))
  {
    FirstBracket(l, EstimateDensity(c), 1)
  }

  /** One step of the leftover loop: `splice(i, 0, c)` at the insertion
      point, which is a `push` when nothing brackets c. */
  function InsertByDensity(l: seq<char>, c: char): (r: seq<char>)
    ensures var k := InsertionPoint(l, c);
      |r| == |l| + 1 && r[k] == c && r[..k] == l[..k] && r[k + 1..] == l[k..]
    ensures |l| >= 1 ==> r[0] == l[0]
    ensures forall x :: x in r <==> x in l || x == c
  {
    var k := InsertionPoint(l, c);
    var r := l[..k] + [c] + l[k..];
    assert l == l[..k] + l[k..];
    assert forall x :: x in r <==> x in l[..k] || x == c || x in l[k..];
    r
  }

  lemma NoDupInsert(l: seq<char>, c: char)
    requires NoDup(l) && c !in l
    ensures NoDup(InsertByDensity(l, c))
  {
    var r := InsertByDensity(l, c);
    var k := InsertionPoint(l, c);
    forall i, j | 0 <= i < j < |r| ensures r[i] != r[j] {
      var i' := if i < k then i else i - 1;
      var j' := if j <= k then j else j - 1;
      if i == k {
        assert r[j] == l[j - 1];
      } else if j == k {
        assert r[i] == l[i];
      } else {
        assert r[i] == l[i'] && r[j] == l[j'];
      }
    }
  }

  lemma FilterSkip(a: seq<char>, c: char, b: seq<char>, p: char -> bool)
    requires !p(c)
    ensures Filter(a + [c] + b, p) == Filter(a + b, p)
  {
    FilterAppend(a + [c], b, p);
    FilterAppend(a, [c], p);
    FilterAppend(a, b, p);
    assert Filter([c], p) == [];
  }

  /** Inserting a character that p rejects leaves the characters that p
      accepts, and their order, untouched. */
  lemma FilterInsert(l: seq<char>, c: char, p: char -> bool)
    requires !p(c)
    ensures Filter(InsertByDensity(l, c), p) == Filter(l, p)
  {
    var k := InsertionPoint(l, c);
    FilterSkip(l[..k], c, l[k..], p);
    assert l[..k] + l[k..] == l;
  }

  /** The leftover loop: each leftover, in turn, at its insertion point. */
  function InsertAll(l: seq<char>, rem: seq<char>): seq<char>
    decreases |rem|
  {
    if rem == [] then l else InsertAll(InsertByDensity(l, rem[0]), rem[1..])
  }

  /** Placing leftovers that are new and rejected by p keeps the first
      character, adds each leftover once, and leaves the characters p
      accepts in their order. */
  lemma {:induction false} InsertAllShape(l: seq<char>, rem: seq<char>, p: char -> bool)
    requires |l| >= 1 && NoDup(l) && NoDup(rem)
    requires forall c :: c in rem ==> c !in l && !p(c)
    ensures var r := InsertAll(l, rem);
      && |r| == |l| + |rem| && r[0] == l[0] && NoDup(r)
      && (forall c :: c in r <==> c in l || c in rem)
      && Filter(r, p) == Filter(l, p)
    decreases |rem|
  {
    if rem != [] {
      var l' := InsertByDensity(l, rem[0]);
      NoDupInsert(l, rem[0]);
      FilterInsert(l, rem[0], p);
      NoDupTail(rem);
      assert forall c :: c in rem <==> c == rem[0] || c in rem[1..];
      InsertAllShape(l', rem[1..], p);
    }
  }

  // ---------------------------------------------------------------------
  // `Array.from(charSet).sort()`

  predicate Sorted(s: seq<char>) { forall i, j :: 0 <= i < j < |s| ==> s[i] <= s[j] }
  predicate StrictlySorted(s: seq<char>) { forall i, j :: 0 <= i < j < |s| ==> s[i] < s[j] }

  lemma SortedTail(s: seq<char>)
    requires s != []
    ensures Sorted(s) ==> Sorted(s[1..]) && forall c :: c in s ==> s[0] <= c
    ensures StrictlySorted(s) ==> StrictlySorted(s[1..]) && forall c :: c in s[1..] ==> s[0] < c
  {
    assert forall k :: 0 <= k < |s| - 1 ==> s[1..][k] == s[k + 1];
  }

  lemma SortedCons(a: char, s: seq<char>)
    requires forall c :: c in s ==> a <= c
    ensures Sorted(s) ==> Sorted([a] + s)
    ensures StrictlySorted(s) && a !in s ==> StrictlySorted([a] + s)
  {
    var t := [a] + s;
    assert forall k :: 1 <= k < |t| ==> t[k] == s[k - 1] && t[k] in s;
  }

  function InsertSorted(x: char, s: seq<char>): (r: seq<char>)
    requires Sorted(s)
    ensures forall c :: c in r <==> c == x || c in s
    ensures Sorted(r)
    ensures StrictlySorted(s) && x !in s ==> StrictlySorted(r)
  {
    if s == [] then [x]
    else
      SortedTail(s);
      if x <= s[0] then
        SortedCons(x, s);
        [x] + s
      else
        var rest := InsertSorted(x, s[1..]);
        assert s == [s[0]] + s[1..];
        SortedCons(s[0], rest);
        [s[0]] + rest
  }

  lemma {:induction false} InsertSortedPerm(x: char, s: seq<char>)
    requires Sorted(s)
    ensures multiset(InsertSorted(x, s)) == multiset(s) + multiset{x}
  {
    if s != [] && x > s[0] {
      var t := s[1..];
      SortedTail(s);
      InsertSortedPerm(x, t);
      assert s == [s[0]] + t;
      assert InsertSorted(x, s) == [s[0]] + InsertSorted(x, t);
      ConsMultiset(s[0], InsertSorted(x, t));
      ConsMultiset(s[0], t);
    } else if s != [] {
      assert InsertSorted(x, s) == [x] + s;
    }
  }

  lemma ConsMultiset(c: char, s: seq<char>)
    ensures multiset([c] + s) == multiset{c} + multiset(s)
  {
  }

  /** The default `sort()`: characters in code-unit order. */
  function SortChars(s: seq<char>): (r: seq<char>)
    ensures multiset(r) == multiset(s)
    ensures forall c :: c in r <==> c in s
    ensures Sorted(r)
    ensures NoDup(s) ==> StrictlySorted(r)
  {
    if s == [] then []
    else
      assert s == [s[0]] + s[1..];
      NoDupTail(s);
      InsertSortedPerm(s[0], SortChars(s[1..]));
      InsertSorted(s[0], SortChars(s[1..]))
  }

  /** Two strictly sorted sequences with the same elements are equal. */
  lemma {:induction false} StrictlySortedUnique(a: seq<char>, b: seq<char>)
    requires StrictlySorted(a) && StrictlySorted(b)
    requires forall c :: c in a <==> c in b
    ensures a == b
    decreases |a|
  {
    if a != [] {
      assert a[0] in b;
    }
    if b != [] {
      assert b[0] in a;
    }
    if a != [] && b != [] {
      SortedTail(a);
      SortedTail(b);
      assert a == [a[0]] + a[1..] && b == [b[0]] + b[1..];
      assert a[0] == b[0];
      forall c ensures c in a[1..] <==> c in b[1..] {
        if c in a[1..] {
          assert c in b && c != b[0];
        }
        if c in b[1..] {
          assert c in a && c != a[0];
        }
      }
      StrictlySortedUnique(a[1..], b[1..]);
      assert a == [a[0]] + a[1..] && b == [b[0]] + b[1..];
    }
  }

  ghost function SetToSeq(s: set<char>): (r: seq<char>)
    ensures NoDup(r) && forall c :: c in r <==> c in s
    decreases s
  {
    if s == {} then []
    else
      var c :| c in s;
      var rest := SetToSeq(s - {c});
      NoDupCons(c, rest);
      [c] + rest
  }

  /** The characters of s in increasing order. */
  ghost function SortedEnum(s: set<char>): (r: seq<char>)
    ensures StrictlySorted(r) && forall c :: c in r <==> c in s
  {
    SortChars(SetToSeq(s))
  }

  lemma NoDupTail(s: seq<char>)
    requires s != []
    ensures NoDup(s) ==> NoDup(s[1..]) && s[0] !in s[1..]
  {
    if NoDup(s) {
      forall i, j | 0 <= i < j < |s| - 1 ensures s[1..][i] != s[1..][j] {
        assert s[1..][i] == s[i + 1] && s[1..][j] == s[j + 1];
      }
    }
  }

  ghost function SeqSet(s: seq<char>): set<char> { set c | c in s }

  lemma {:induction false} NoDupCard(s: seq<char>)
    requires NoDup(s)
    ensures |SeqSet(s)| == |s|
  {
    if s != [] {
      NoDupTail(s);
      NoDupCard(s[1..]);
      assert SeqSet(s) == {s[0]} + SeqSet(s[1..]);
    }
  }

  lemma {:induction false} FilterAll(s: seq<char>, p: char -> bool)
    requires forall c :: c in s ==> p(c)
    ensures Filter(s, p) == s
  {
    if s != [] {
      assert forall c :: c in s[1..] ==> c in s;
      FilterAll(s[1..], p);
    }
  }

  // ---------------------------------------------------------------------
  // The ladder as a function of the characters that occur

  /** The ladder a ramp gives for the set S of characters of both grids
      plus space: the backbone, then the leftovers in sorted order at their
      insertion points. */
  ghost function LadderFrom(ramp: seq<char>, S: set<char>): seq<char> {
    InsertAll(Backbone(ramp, S), SortedEnum(S - SeqSet(ramp)))
  }

  ghost function LadderOf(S: set<char>): seq<char> {
    LadderFrom(BaseRamp, S)
  }

  /** The ladder holds every character of S exactly once, starts with the
      ramp's first character, and its ramp characters are the backbone, in
      ramp order. */
  lemma LadderFromShape(ramp: seq<char>, S: set<char>, p: char -> bool)
    requires |ramp| >= 1 && ramp[0] in S
    requires forall c :: p(c) <==> c in ramp
    ensures var L := LadderFrom(ramp, S);
      && |L| >= 1 && L[0] == ramp[0] && NoDup(L)
      && (forall c :: c in L <==> c in S)
      && |L| == |S|
      && Filter(L, p) == Backbone(ramp, S)
  {
    var bb := Backbone(ramp, S);
    var rem := SortedEnum(S - SeqSet(ramp));
    FilterAll(bb, p);
    InsertAllShape(bb, rem, p);
    var L := LadderFrom(ramp, S);
    NoDupCard(L);
    assert SeqSet(L) == S;
  }

  /** For the base ramp: the ladder starts with the blank, holds each
      character once, and keeps the base-ramp characters in ramp order. */
  lemma LadderShape(S: set<char>)
    requires ' ' in S
    ensures var L := LadderOf(S);
      && |L| >= 1 && L[0] == ' ' && NoDup(L)
      && (forall c :: c in L <==> c in S)
      && |L| == |S|
      && Filter(L, InRamp) == Backbone(BaseRamp, S)
  {
    assert BaseRamp[0] == ' ';
    LadderFromShape(BaseRamp, S, InRamp);
  }

  // ---------------------------------------------------------------------
  // The method

  /** The characters in the first n rows of g. */
  ghost function RowsChars(g: Grid, n: nat): set<char>
    requires n <= |g|
  {
    if n == 0 then {} else RowsChars(g, n - 1) + SeqSet(g[n - 1])
  }

  /** Space plus every character of either grid. */
  ghost function GridChars(src: Grid, tgt: Grid, h: nat): set<char>
    requires h <= |src| && h <= |tgt|
  {
    {' '} + RowsChars(src, h) + RowsChars(tgt, h)
  }

  /** Every cell of the first n rows is among their characters. */
  lemma {:induction false} RowsCharsHas(g: Grid, n: nat, r: nat, c: nat)
    requires r < n <= |g| && c < |g[r]|
    ensures g[r][c] in RowsChars(g, n)
  {
    if r == n - 1 {
      assert g[r][c] in SeqSet(g[n - 1]);
    } else {
      RowsCharsHas(g, n - 1, r, c);
    }
  }

  /** Every cell of either grid is among the characters the ladder is
      built from. */
  lemma GridCharsHas(src: Grid, tgt: Grid, w: nat, h: nat, y: nat, x: nat)
    requires IsGrid(src, w, h) && IsGrid(tgt, w, h) && y < h && x < w
    ensures src[y][x] in GridChars(src, tgt, h) && tgt[y][x] in GridChars(src, tgt, h)
  {
    RowsCharsHas(src, h, y, x);
    RowsCharsHas(tgt, h, y, x);
  }

  /** The two nested loops that fill `chars`: space first, then the
      characters of both grids, each once, in the order they are met. */
  method CollectChars(src: Grid, tgt: Grid, w: nat, h: nat) returns (chars: seq<char>)
    requires IsGrid(src, w, h) && IsGrid(tgt, w, h)
    ensures NoDup(chars) && |chars| >= 1 && chars[0] == ' '
    ensures forall c :: c in chars <==> c in GridChars(src, tgt, h)
  {
    chars := [' '];
    for y := 0 to h
      invariant NoDup(chars) && |chars| >= 1 && chars[0] == ' '
      invariant forall c :: c in chars <==> c in GridChars(src, tgt, y)
    {
      for x := 0 to w
        invariant NoDup(chars) && |chars| >= 1 && chars[0] == ' '
        invariant forall c :: c in chars <==>
          c in GridChars(src, tgt, y) || c in src[y][..x] || c in tgt[y][..x]
      {
        assert src[y][..x + 1] == src[y][..x] + [src[y][x]];
        assert tgt[y][..x + 1] == tgt[y][..x] + [tgt[y][x]];
        chars := SetAdd(chars, src[y][x]);
        chars := SetAdd(chars, tgt[y][x]);
      }
      assert src[y][..w] == src[y] && tgt[y][..w] == tgt[y];
    }
  }

  /** The walk over the ramp: each ramp character still in charSet is
      pushed and deleted from it. */
  method TakeRamp(ramp: seq<char>, chars: seq<char>) returns (ladder: seq<char>, charSet: seq<char>)
    requires NoDup(chars)
    ensures ladder == Backbone(ramp, SeqSet(chars))
    ensures NoDup(charSet) && forall c :: c in charSet <==> c in chars && c !in ramp
  {
    ghost var S := SeqSet(chars);
    ghost var left := S;
    charSet := chars;
    ladder := [];
    assert ramp[0..] == ramp;
    for i := 0 to |ramp|
      invariant NoDup(charSet)
      invariant forall c :: c in charSet <==> c in left
      invariant forall c :: c in left <==> c in chars && c !in ramp[..i]
      invariant ladder + Backbone(ramp[i..], left) == Backbone(ramp, S)
    {
      assert ramp[..i + 1] == ramp[..i] + [ramp[i]];
      assert ramp[i..] == [ramp[i]] + ramp[i + 1..];
      ladder, charSet, left := TakeOne(ramp[i], ladder, charSet, left, ramp[i + 1..]);
    }
    assert ramp[..|ramp|] == ramp && ramp[|ramp|..] == [];
    assert ladder + [] == ladder;
  }

  /** One step of the ramp walk: a ramp character still in charSet is
      pushed and deleted from it; any other is skipped. */
  method TakeOne(ch: char, ladder: seq<char>, charSet: seq<char>, ghost left: set<char>, ghost rest: seq<char>)
    returns (ladder': seq<char>, charSet': seq<char>, ghost left': set<char>)
    requires NoDup(charSet) && forall c :: c in charSet <==> c in left
    ensures NoDup(charSet') && forall c :: c in charSet' <==> c in left'
    ensures left' == left - {ch}
    ensures ladder' + Backbone(rest, left') == ladder + Backbone([ch] + rest, left)
  {
    assert ([ch] + rest)[0] == ch && ([ch] + rest)[1..] == rest;
    left' := left - {ch};
    if ch in charSet {
      ladder' := ladder + [ch];
      charSet' := Filter(charSet, x => x != ch);
    } else {
      assert left' == left;
      ladder', charSet' := ladder, charSet;
    }
  }

  /** The inner loop for one leftover: `splice` it in at the first
      bracketing position, or `push` it when there is none. */
  method PlaceOne(l: seq<char>, ch: char) returns (ladder: seq<char>)
    ensures ladder == InsertByDensity(l, ch)
  {
    ladder := l;
    var inserted := false;
    var density := EstimateDensity(ch);
    var i := 1;
    while i < |ladder|
      invariant 1 <= i
      invariant ladder == l && !inserted
      invariant forall k :: 1 <= k < i && k < |l| ==> !Brackets(l, k, density)
    {
      var prev := EstimateDensity(ladder[i - 1]);
      var next := EstimateDensity(ladder[i]);
      if density >= prev && density <= next {
        assert Brackets(l, i, density);
        ghost var k := InsertionPoint(l, ch);
        assert k < |l| ==> Brackets(l, k, density);
        assert k == i;
        ladder := ladder[..i] + [ch] + ladder[i..];
        inserted := true;
        break;
      }
      i := i + 1;
    }
    if !inserted {
      assert InsertionPoint(l, ch) == |l|;
      ladder := ladder + [ch];
    }
  }

  /** The outer leftover loop. */
  method PlaceAll(l: seq<char>, remaining: seq<char>) returns (ladder: seq<char>)
    ensures ladder == InsertAll(l, remaining)
  {
    ladder := l;
    for j := 0 to |remaining|
      invariant InsertAll(ladder, remaining[j..]) == InsertAll(l, remaining)
    {
      assert remaining[j..] == [remaining[j]] + remaining[j + 1..];
      ladder := PlaceOne(ladder, remaining[j]);
    }
    assert remaining[|remaining|..] == [];
  }

  /** `buildDynamicLadder`: collects the characters of both grids plus
      space, keeps the base-ramp ones in ramp order, then inserts each
      leftover, in sorted order, at its insertion point. */
  method BuildDynamicLadder(src: Grid, tgt: Grid, w: nat, h: nat) returns (ladder: seq<char>)
    requires IsGrid(src, w, h) && IsGrid(tgt, w, h)
    ensures ladder == LadderOf(GridChars(src, tgt, h))
    ensures |ladder| >= 1 && ladder[0] == ' ' && NoDup(ladder)
    ensures forall c :: c in ladder <==> c in GridChars(src, tgt, h)
    ensures Filter(ladder, InRamp) == Backbone(BaseRamp, GridChars(src, tgt, h))
  {
    var chars := CollectChars(src, tgt, w, h);
    ghost var S := GridChars(src, tgt, h);
    assert SeqSet(chars) == S;
    var charSet;
    ladder, charSet := TakeRamp(BaseRamp, chars);
    var remaining := SortChars(Filter(charSet, NotSpace));
    assert remaining == SortedEnum(S - SeqSet(BaseRamp)) by {
      StrictlySortedUnique(remaining, SortedEnum(S - SeqSet(BaseRamp)));
    }
    ladder := PlaceAll(ladder, remaining);
    LadderShape(S);
  }
}
