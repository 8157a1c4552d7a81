/** `createSmartTweener` and its `tweenChar`: one cell's character between
    source and target, chosen along the dynamic ladder. */
module Tween {
  import opened Util
  import opened Ladder

  /** A ladder as `buildDynamicLadder` produces it: non-empty, blank first,
      no character twice. */
  predicate ValidLadder(l: seq<char>) {
    |l| >= 1 && l[0] == ' ' && NoDup(l)
  }

  /** The `LUT` map, built from `[...ladder].map((ch,i)=>[ch,i])`: a later
      entry for the same character replaces an earlier one. */
  function Lut(l: seq<char>): (m: map<char, nat>)
    ensures forall c :: c in m <==> c in l
    ensures forall c :: c in m ==> m[c] < |l| && l[m[c]] == c && c !in l[m[c] + 1..]
  {
    if l == [] then map[]
    else
      var m := Lut(l[..|l| - 1]);
      var r := m[l[|l| - 1] := |l| - 1];
      LutStep(l, m, r);
      r
  }

  /** The entry for the ladder's last character, added to the table of the
      rest, keeps the table's properties. */
  lemma LutStep(l: seq<char>, m: map<char, nat>, r: map<char, nat>)
    requires |l| >= 1 && r == m[l[|l| - 1] := |l| - 1]
    requires forall c :: c in m <==> c in l[..|l| - 1]
    requires forall c :: c in m ==> m[c] < |l| - 1 && l[..|l| - 1][m[c]] == c && c !in l[..|l| - 1][m[c] + 1..]
    ensures forall c :: c in r <==> c in l
    ensures forall c :: c in r ==> r[c] < |l| && l[r[c]] == c && c !in l[r[c] + 1..]
  {
    var init, last := l[..|l| - 1], l[|l| - 1];
    assert l == init + [last];
    forall c
      ensures c in r <==> c in l
    {
      assert c in l <==> c in init || c == last;
    }
    forall c | c in r
      ensures r[c] < |l| && l[r[c]] == c && c !in l[r[c] + 1..]
    {
      if c != last {
        assert l[m[c] + 1..] == init[m[c] + 1..] + [last];
      }
    }
  }

  /** In a ladder without repeats the table gives each character's one
      index. */
  lemma LutIndex(l: seq<char>, k: nat)
    requires NoDup(l) && k < |l|
    ensures l[k] in Lut(l) && Lut(l)[l[k]] == k
  {
  }

  /** `glyphIndex`: 0 for the blank, the table index for a ladder
      character, and `floor(MAX_DENS*0.5)` for anything else. */
  function GlyphIndex(l: seq<char>, c: char): (i: int)
    requires |l| >= 1
    ensures 0 <= i < |l|
    ensures c == ' ' ==> i == 0
    ensures c != ' ' && c in l ==> l[i] == c
    ensures c != ' ' && c !in l ==> i == (|l| - 1) / 2
  {
    if c == ' ' then 0
    else if c in Lut(l) then Lut(l)[c]
    else (|l| - 1) / 2
  }

  /** For a ladder with the blank first, every ladder character is found at
      its glyph index. */
  lemma GlyphIndexRoundTrip(l: seq<char>, c: char)
    requires ValidLadder(l) && c in l
    ensures l[GlyphIndex(l, c)] == c
  {
  }

  /** Ladder positions are told apart by their glyph index. */
  lemma GlyphIndexOfPosition(l: seq<char>, k: nat)
    requires ValidLadder(l) && k < |l|
    ensures GlyphIndex(l, l[k]) == k
  {
    LutIndex(l, k);
    if l[k] == ' ' {
      assert l[0] == l[k];
    }
  }

  predicate Between(i: int, a: int, b: int) {
    (a <= i <= b) || (b <= i <= a)
  }

  /** `Math.pow(clamp(progress*activityBoost,0,1),1.8)`, with the power
      abstracted as a monotone unit map. */
  function Adjusted(pow: real -> real, progress: real, activity: real): (t: real)
    requires IsUnitMap(pow)
    ensures 0.0 <= t <= 1.0
    ensures progress * (1.0 + activity * 0.5) <= 0.0 ==> t == 0.0
    ensures progress * (1.0 + activity * 0.5) >= 1.0 ==> t == 1.0
  {
    var c := Clamp(progress * (1.0 + activity * 0.5), 0.0, 1.0);
    UnitMapRange(pow, c);
    pow(c)
  }

  /** The ladder index `tweenChar` reads: a plain interpolation for
      neighbouring glyphs, an eased one for wider gaps, rounded and clamped. */
  function TweenIndex(l: seq<char>, pow: real -> real, a: char, b: char, progress: real, activity: real): (i: int)
    requires |l| >= 1 && IsUnitMap(pow)
    ensures 0 <= i < |l|
    ensures Between(i, GlyphIndex(l, a), GlyphIndex(l, b))
    ensures progress * (1.0 + activity * 0.5) <= 0.0 ==> i == GlyphIndex(l, a)
    ensures progress * (1.0 + activity * 0.5) >= 1.0 ==> i == GlyphIndex(l, b)
  {
    var ia := GlyphIndex(l, a);
    var ib := GlyphIndex(l, b);
    var v := Lerp(ia as real, ib as real, Weight(pow, ia, ib, progress, activity));
    RoundBetween(MinInt(ia, ib), v, MaxInt(ia, ib));
    ClampInt(Round(v), 0, |l| - 1)
  }

  /** `tweenChar`: equal characters stay; otherwise a ladder character
      whose index lies between the two glyph indices. */
  function TweenChar(l: seq<char>, pow: real -> real, a: char, b: char, progress: real, activity: real): (c: char)
    requires |l| >= 1 && IsUnitMap(pow)
    ensures a == b ==> c == a
    ensures a != b ==> c in l
    ensures a != b ==> exists k :: 0 <= k < |l| && Between(k, GlyphIndex(l, a), GlyphIndex(l, b)) && l[k] == c
  {
    if a == b then a else l[TweenIndex(l, pow, a, b, progress, activity)]
  }

  /** At the ends of the progress range the tween shows the source and the
      target, for characters of a valid ladder. */
  lemma TweenCharEndpoints(l: seq<char>, pow: real -> real, a: char, b: char, progress: real, activity: real)
    requires ValidLadder(l) && IsUnitMap(pow) && a in l && b in l
    ensures progress * (1.0 + activity * 0.5) <= 0.0 ==> TweenChar(l, pow, a, b, progress, activity) == a
    ensures progress * (1.0 + activity * 0.5) >= 1.0 ==> TweenChar(l, pow, a, b, progress, activity) == b
  {
    GlyphIndexRoundTrip(l, a);
    GlyphIndexRoundTrip(l, b);
  }

  /** A character outside the ladder starts from the middle of the ladder,
      not from itself. */
  lemma TweenCharUnknownSource(l: seq<char>, pow: real -> real, a: char, b: char, activity: real)
    requires ValidLadder(l) && IsUnitMap(pow) && a != b && a !in l
    ensures TweenChar(l, pow, a, b, 0.0, activity) == l[(|l| - 1) / 2]
  {
    var i := TweenIndex(l, pow, a, b, 0.0, activity);
    assert 0.0 * (1.0 + activity * 0.5) <= 0.0;
    assert i == GlyphIndex(l, a) == (|l| - 1) / 2;
    assert TweenChar(l, pow, a, b, 0.0, activity) == l[i];
  }

  /** More progress never lowers the adjusted progress, for non-negative
      activity. */
  lemma AdjustedMonotone(pow: real -> real, p: real, q: real, activity: real)
    requires IsUnitMap(pow) && activity >= 0.0 && p <= q
    ensures Adjusted(pow, p, activity) <= Adjusted(pow, q, activity)
  {
    var boost := 1.0 + activity * 0.5;
    MulMonotone(boost, p, q);
    assert Clamp(p * boost, 0.0, 1.0) <= Clamp(q * boost, 0.0, 1.0);
  }

  /** The eased or plain interpolation weight, as `tweenChar` picks it. */
  function Weight(pow: real -> real, ia: int, ib: int, progress: real, activity: real): (e: real)
    requires IsUnitMap(pow)
    ensures 0.0 <= e <= 1.0
  {
    var t := Adjusted(pow, progress, activity);
    if AbsInt(ib - ia) <= 1 then t else EaseInOutCubic(t)
  }

  lemma WeightMonotone(pow: real -> real, ia: int, ib: int, p: real, q: real, activity: real)
    requires IsUnitMap(pow) && activity >= 0.0 && p <= q
    ensures Weight(pow, ia, ib, p, activity) <= Weight(pow, ia, ib, q, activity)
  {
    AdjustedMonotone(pow, p, q, activity);
    if AbsInt(ib - ia) > 1 {
      EaseMonotone(Adjusted(pow, p, activity), Adjusted(pow, q, activity));
    }
  }

  /** The rounded interpolation moves from ia toward ib as the weight grows. */
  lemma RoundLerpMonotone(ia: int, ib: int, s: real, t: real)
    requires s <= t
    ensures ia <= ib ==> Round(Lerp(ia as real, ib as real, s)) <= Round(Lerp(ia as real, ib as real, t))
    ensures ib <= ia ==> Round(Lerp(ia as real, ib as real, t)) <= Round(Lerp(ia as real, ib as real, s))
  {
    LerpMonotone(ia as real, ib as real, s, t);
    if ia <= ib {
      RoundMonotone(Lerp(ia as real, ib as real, s), Lerp(ia as real, ib as real, t));
    }
    if ib <= ia {
      RoundMonotone(Lerp(ia as real, ib as real, t), Lerp(ia as real, ib as real, s));
    }
  }

  /** With non-negative activity, the ladder index moves monotonically from
      the source glyph toward the target glyph as progress grows. */
  lemma TweenIndexMonotone(l: seq<char>, pow: real -> real, a: char, b: char, p: real, q: real, activity: real)
    requires |l| >= 1 && IsUnitMap(pow) && activity >= 0.0 && p <= q
    ensures GlyphIndex(l, a) <= GlyphIndex(l, b) ==> TweenIndex(l, pow, a, b, p, activity) <= TweenIndex(l, pow, a, b, q, activity)
    ensures GlyphIndex(l, b) <= GlyphIndex(l, a) ==> TweenIndex(l, pow, a, b, q, activity) <= TweenIndex(l, pow, a, b, p, activity)
  {
    var ia := GlyphIndex(l, a);
    var ib := GlyphIndex(l, b);
    WeightMonotone(pow, ia, ib, p, q, activity);
    RoundLerpMonotone(ia, ib, Weight(pow, ia, ib, p, activity), Weight(pow, ia, ib, q, activity));
  }
}
