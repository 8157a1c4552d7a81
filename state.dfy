/** The values the engine keeps between ticks and the invariant that ties
    them together, stated over plain values so that the engine's methods
    can rely on it without unfolding their heap. */
module EngineState {
  import opened Util
  import opened Text
  import opened Grids
  import opened Ladder
  import opened Controls
  import opened Render
  import opened Tween

  /** The two centred frames of the running transition, `lastPrep`. */
  datatype Prep = Prep(source: Grid, target: Grid)

  /** g is the centred h x w frame of the font, as `centerASCII` builds it. */
  predicate IsCentred(g: Grid, font: Font, w: nat, h: nat) {
    IsGrid(g, w, h) && forall y, x :: 0 <= y < h && 0 <= x < w ==> g[y][x] == CenteredCell(font.lines, w, h, y, x)
  }

  /** The frames of a transition have the engine's size. */
  predicate PrepFits(lastPrep: Option<Prep>, w: nat, h: nat) {
    lastPrep.Some? ==> IsGrid(lastPrep.value.source, w, h) && IsGrid(lastPrep.value.target, w, h)
  }

  /** A tweener is the ladder `buildDynamicLadder` makes from S, the
      characters of both current frames, so both frames are on it. The
      ladder is stated for the set S, so that its definition is unfolded
      only where a ladder of S is built. */
  ghost predicate TweenerFits(tweener: Option<seq<char>>, lastPrep: Option<Prep>, w: nat, h: nat) {
    tweener.Some? ==>
      && PrepFits(lastPrep, w, h) && lastPrep.Some?
      && (forall S :: S == GridChars(lastPrep.value.source, lastPrep.value.target, h) ==> tweener.value == LadderOf(S))
      && ValidLadder(tweener.value)
      && OnLadder(tweener.value, lastPrep.value.source, w, h)
      && OnLadder(tweener.value, lastPrep.value.target, w, h)
  }

  /** A cached field has the engine's size and values in [0,1]. */
  ghost predicate CacheFits(fieldCache: Option<Field>, w: nat, h: nat) {
    fieldCache.Some? ==> IsGrid(fieldCache.value, w, h) && UnitField(fieldCache.value, w, h)
  }

  /** What every engine method keeps: every key has a value, there is a
      font, the grids have the engine's size, a running transition has its
      frames, its next font and a positive duration, and the caches belong
      to the current frames. */
  ghost predicate StateFits(config: Config, fonts: seq<Font>, activity: Field, progress: Field, lastPrep: Option<Prep>,
                            inTransition: bool, nextFont: Option<Font>, transitionDuration: real,
                            tweener: Option<seq<char>>, fieldCache: Option<Field>, w: nat, h: nat)
  {
    && Complete(config)
    && |fonts| >= 1
    && IsGrid(activity, w, h) && IsGrid(progress, w, h)
    && PrepFits(lastPrep, w, h)
    && (inTransition ==> lastPrep.Some? && nextFont.Some? && transitionDuration > 0.0)
    && TweenerFits(tweener, lastPrep, w, h)
    && CacheFits(fieldCache, w, h)
  }
}
