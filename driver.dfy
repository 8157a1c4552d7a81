/** The engine's module state and the loop that drives it: each animation
    tick either starts a transition (next font, type, duration, fresh
    frames) or continues the current one, draws the frame of its type, and
    ends it after the duration and the hold. The control methods and keys
    change the same state. */
module Driver {
  import opened Util
  import opened Text
  import opened Grids
  import opened Ladder
  import opened Tween
  import Activity
  import Fields
  import opened Jitter
  import opened Schedule
  import opened Controls
  import opened Render
  import opened EngineState

  /** The name `say` gives a font: `live_` and the clock reading modulo
      one million. */
  function LiveName(now: nat): string {
    "live_" + NatToString(now % 1000000)
  }

  /** The name is `live_` followed by the decimal numeral, without a
      leading zero, of the clock reading modulo one million. */
  lemma LiveNameDigits(now: nat)
    ensures exists digits: string ::
      && LiveName(now) == "live_" + digits
      && IsDecimal(digits, now % 1000000)
      && (|digits| > 1 ==> digits[0] != '0')
  {
    var digits := NatToString(now % 1000000);
    assert LiveName(now) == "live_" + digits;
  }

  /** JavaScript truthiness of a number. */
  predicate Truthy(v: real) { v != 0.0 }

  class Engine {
    /** Grid size, fixed for the engine's life. */
    const W: nat
    const H: nat
    /** The Perlin noise, `Math.pow(., 1.8)`, `Math.hypot` and the floating
        remainder, as functions with the properties the engine relies on. */
    const noise: (real, real) -> real
    const pow: real -> real
    const hypot: (real, real) -> real
    const rem: (real, real) -> real

    var config: Config
    var fonts: seq<Font>
    var currentFont: Font
    var nextFont: Option<Font>
    var idx: nat
    var transitionType: TransitionType
    var transitionStart: real
    var transitionDuration: real
    var inTransition: bool
    var paused: bool
    /** `currentTweener`, represented by its ladder. */
    var tweener: Option<seq<char>>
    var fieldCache: Option<Field>
    var lastPrep: Option<Prep>
    /** `activityGrid` and `transitionProgress`. */
    var activity: Field
    var progress: Field

    /** The oracles behave as the engine relies on, and the grid has a row. */
    ghost predicate Oracles() {
      && H >= 1
      && Activity.NoiseBounded(noise) && IsUnitMap(pow) && Fields.HypotNonneg(hypot) && Fields.RemainderBounded(rem)
    }

    /** What every method keeps: the oracles behave and the state fits the
        engine's size (StateFits). */
    ghost predicate Valid()
      reads this`config, this`fonts, this`activity, this`progress, this`lastPrep, this`inTransition,
            this`nextFont, this`transitionDuration, this`tweener, this`fieldCache
    {
      && Oracles()
      && StateFits(config, fonts, activity, progress, lastPrep, inTransition, nextFont, transitionDuration, tweener, fieldCache, W, H)
    }

    /** The state the frame of a tick is computed from. */
    ghost predicate FrameReady(roll: (int, int) -> (real, real))
      reads this`lastPrep, this`tweener, this`fieldCache, this`transitionType, this`activity,
            this`progress, this`transitionDuration, this`config
    {
      && lastPrep.Some? && IsGrid(lastPrep.value.source, W, H) && IsGrid(lastPrep.value.target, W, H)
      && tweener.Some? && |tweener.value| >= 1 && IsUnitMap(pow)
      && IsGrid(activity, W, H) && IsGrid(progress, W, H)
      && (transitionType != Organic ==> fieldCache.Some? && IsGrid(fieldCache.value, W, H))
      && transitionDuration > 0.0 && Complete(config) && UnitRolls(roll)
    }

    /** The frame a tick draws, `elapsed` after the start: the organic or the
        field-based frame, jittered. */
    ghost function ExpectedFrame(elapsed: real, roll: (int, int) -> (real, real)): (f: Grid)
      requires FrameReady(roll)
      reads this`lastPrep, this`tweener, this`fieldCache, this`transitionType, this`activity,
            this`progress, this`transitionDuration, this`config
      ensures IsGrid(f, W, H)
    {
      var src, tgt := lastPrep.value.source, lastPrep.value.target;
      var out :=
        if transitionType == Organic then OrganicGrid(tweener.value, pow, src, tgt, progress, activity, W, H)
        else FieldGrid(tweener.value, pow, src, tgt, fieldCache.value, GlobalProgress(elapsed, transitionDuration), W, H);
      ApplyJitter(out, roll, config[JitterProb])
    }

    /** The activity and progress grids are one step of the organic update
        from `act` and `prog`, cell by cell. */
    ghost predicate Stepped(act: Field, prog: Field)
      requires lastPrep.Some? && IsGrid(lastPrep.value.source, W, H) && IsGrid(lastPrep.value.target, W, H)
      requires IsGrid(act, W, H) && IsGrid(prog, W, H) && IsGrid(activity, W, H) && IsGrid(progress, W, H)
      requires SaneConfig(config)
      reads this`lastPrep, this`activity, this`progress, this`config
    {
      var src, tgt := lastPrep.value.source, lastPrep.value.target;
      forall y, x :: 0 <= y < H && 0 <= x < W ==>
        && activity[y][x] == Activity.ActivityCell(Activity.Instant(src[y][x], tgt[y][x]),
             Activity.NeighbourMax(act, W, H, y, x), act[y][x],
             config[NeighborInfluence], config[PropagationSpeed], config[ActivityDecay])
        && progress[y][x] == Activity.ProgressCell(prog[y][x],
             Activity.Variance(noise, x, y, config[LocalVariance]), activity[y][x], config[TransitionBaseMs])
    }

    /** f is a field built for the running transition: in [0,1], and, with
        equalisation off, zero exactly at the target's ink for a distance
        field, and the ripple field of the wavelength for a ripple field. */
    ghost predicate BuiltField(f: Field)
      reads this`config, this`transitionType, this`lastPrep
    {
      && lastPrep.Some? && IsGrid(lastPrep.value.target, W, H)
      && IsGrid(f, W, H) && UnitField(f, W, H)
      && EqualizeField in config && RippleWavelen in config
      && (!Truthy(config[EqualizeField]) && transitionType == DistanceField ==>
            forall y, x :: 0 <= y < H && 0 <= x < W ==> (f[y][x] == 0.0 <==> lastPrep.value.target[y][x] != ' '))
      && (!Truthy(config[EqualizeField]) && transitionType == RippleField ==>
            && (forall y, x :: 0 <= y < H && 0 <= x < W ==>
                  (f[y][x] == 0.0 <==> Fields.RippleRaw(hypot, rem, W, H, config[RippleWavelen], y, x) == 0.0))
            && Fields.IsRippleField(hypot, rem, W, H, config[RippleWavelen], f))
    }

    /** The state right after a start at clock reading `time`, from a state
        with index `i`, type `t` and current font `cur`. */
    ghost predicate Started(time: real, rDuration: real, rStrategy: real, i: nat, t: TransitionType, cur: Font)
      reads this`transitionStart, this`idx, this`fonts, this`nextFont, this`transitionDuration, this`config,
            this`transitionType, this`lastPrep
    {
      && transitionStart == time
      && |fonts| >= 1 && idx == NextIndex(i, |fonts|) && nextFont == Some(fonts[idx])
      && TransitionBaseMs in config && transitionDuration == Duration(config[TransitionBaseMs], rDuration)
      && transitionType == StartStrategyAsWritten(rStrategy, t)
      && lastPrep.Some? && IsCentred(lastPrep.value.source, cur, W, H) && IsCentred(lastPrep.value.target, fonts[idx], W, H)
    }

    /** The state of a transition that keeps running, with the clock
        started at `time` if it had not been. */
    ghost predicate Continued(time: real, i: nat, nf: Option<Font>, lp: Option<Prep>, t: TransitionType, d: real, start: real)
      reads this`transitionStart, this`idx, this`nextFont, this`transitionDuration,
            this`transitionType, this`lastPrep
    {
      && idx == i && nextFont == nf && lastPrep == lp
      && transitionType == t && transitionDuration == d
      && transitionStart == (if start == 0.0 then time else start)
    }

    /** A start from index 1, the index a new engine has: the first
        transition goes to the font after `fonts[1]`, wrapping around. With
        two fonts it morphs the first font into itself; with three or more
        `fonts[1]` waits for the second round. */
    lemma StartFromIndexOne(time: real, rDuration: real, rStrategy: real, t: TransitionType, cur: Font)
      requires Started(time, rDuration, rStrategy, 1, t, cur)
      ensures idx == 2 % |fonts| && nextFont == Some(fonts[2 % |fonts|])
      ensures |fonts| == 1 ==> nextFont == Some(fonts[0])
      ensures |fonts| == 2 ==> nextFont == Some(fonts[0])
      ensures |fonts| >= 3 ==> nextFont == Some(fonts[2])
    {
      if |fonts| >= 3 {
        assert 2 % |fonts| == 2;
      }
    }

    /** The module's initial state: the fonts from their raw text, the first
        one current, index 1, organic, not started, not paused. */
    constructor (w: nat, h: nat, art: seq<(string, string)>,
                 noise: (real, real) -> real, pow: real -> real,
                 hypot: (real, real) -> real, rem: (real, real) -> real)
      requires h >= 1 && |art| >= 1
      requires Activity.NoiseBounded(noise) && IsUnitMap(pow) && Fields.HypotNonneg(hypot) && Fields.RemainderBounded(rem)
      ensures Valid()
      ensures W == w && H == h && this.noise == noise && this.pow == pow && this.hypot == hypot && this.rem == rem
      ensures config == DefaultConfig()
      ensures |fonts| == |art| && forall i :: 0 <= i < |art| ==> fonts[i] == Font(art[i].0, FontLines(art[i].1, w))
      ensures currentFont == fonts[0] && nextFont == (if |fonts| >= 2 then Some(fonts[1]) else None) && idx == 1
      ensures transitionType == Organic
      ensures transitionStart == 0.0 && transitionDuration == 3000.0 && !inTransition && !paused
      ensures tweener.None? && fieldCache.None? && lastPrep.None?
      ensures activity == Activity.ZeroField(w, h) && progress == Activity.ZeroField(w, h)
    {
      W, H := w, h;
      this.noise, this.pow, this.hypot, this.rem := noise, pow, hypot, rem;
      var c := DefaultConfig();
      config := c;
      var fs := seq(|art|, i requires 0 <= i < |art| => Font(art[i].0, FontLines(art[i].1, w)));
      fonts := fs;
      currentFont := fs[0];
      nextFont := if |fs| >= 2 then Some(fs[1]) else None;
      idx := 1;
      transitionType := Organic;
      transitionStart := 0.0;
      transitionDuration := c[TransitionBaseMs];
      inTransition := false;
      paused := false;
      tweener := None;
      fieldCache := None;
      lastPrep := None;
      activity := Activity.ZeroField(w, h);
      progress := Activity.ZeroField(w, h);
    }

    /** `prepareTransition`: the centred frames of the current and the next
        font, fresh activity and progress grids, and no tweener or field. */
    method PrepareTransition() returns (prep: Prep)
      requires Valid() && nextFont.Some?
      modifies this`activity, this`progress, this`tweener, this`fieldCache
      ensures Valid()
      ensures activity == Activity.ZeroField(W, H) && progress == Activity.ZeroField(W, H)
      ensures tweener == None && fieldCache == None
      ensures IsCentred(prep.source, currentFont, W, H) && IsCentred(prep.target, nextFont.value, W, H)
    {
      var src := CenterASCII(currentFont, W, H);
      var tgt := CenterASCII(nextFont.value, W, H);
      activity := Activity.ZeroField(W, H);
      progress := Activity.ZeroField(W, H);
      tweener := None;
      fieldCache := None;
      prep := Prep(src, tgt);
    }

    /** The start branch of `animate`: duration, next font in round-robin
        order, transition type, and the new frames. */
    method BeginTransition(time: real, rDuration: real, rStrategy: real)
      requires Valid() && SaneConfig(config) && !inTransition
      requires 0.0 <= rDuration < 1.0 && 0.0 <= rStrategy < 1.0
      modifies this`nextFont, this`activity, this`progress, this`tweener, this`fieldCache, this`inTransition,
               this`transitionStart, this`transitionDuration, this`idx, this`transitionType, this`lastPrep
      ensures Valid() && inTransition
      ensures Started(time, rDuration, rStrategy, old(idx), old(transitionType), currentFont)
      ensures activity == Activity.ZeroField(W, H) && progress == Activity.ZeroField(W, H)
      ensures tweener.None? && fieldCache.None?
    {
      var duration := Duration(config[TransitionBaseMs], rDuration);
      var next := NextIndex(idx, |fonts|);
      var t := ChooseStartStrategy(rStrategy, transitionType);
      nextFont := Some(fonts[next]);
      var prep := PrepareTransition();
      Commit(time, duration, next, t, prep);
    }

    /** The last assignments of the start branch: the transition runs from
        `time` on the new frames. */
    method Commit(time: real, duration: real, next: nat, t: TransitionType, prep: Prep)
      requires Valid() && nextFont.Some? && tweener.None? && fieldCache.None? && duration > 0.0
      requires IsGrid(prep.source, W, H) && IsGrid(prep.target, W, H)
      modifies this`inTransition, this`transitionStart, this`transitionDuration, this`idx,
               this`transitionType, this`lastPrep
      ensures Valid()
      ensures inTransition && transitionStart == time && transitionDuration == duration
      ensures idx == next && transitionType == t && lastPrep == Some(prep)
    {
      inTransition, transitionStart, transitionDuration := true, time, duration;
      idx, transitionType, lastPrep := next, t, Some(prep);
    }

    /** The lazy `createSmartTweener` of both transition kinds. */
    method EnsureTweener()
      requires Valid() && lastPrep.Some?
      modifies this`tweener
      ensures Valid() && tweener.Some?
      ensures old(tweener).Some? ==> tweener == old(tweener)
      ensures old(tweener).None? ==> tweener.value == LadderOf(GridChars(lastPrep.value.source, lastPrep.value.target, H))
    {
      if tweener.None? {
        var src, tgt := lastPrep.value.source, lastPrep.value.target;
        var l := BuildDynamicLadder(src, tgt, W, H);
        forall y, x | 0 <= y < H && 0 <= x < W
          ensures src[y][x] in l && tgt[y][x] in l
        {
          GridCharsHas(src, tgt, W, H, y, x);
        }
        assert TweenerFits(Some(l), lastPrep, W, H);
        tweener := Some(l);
      }
    }

    /** The lazy field of `fieldBasedTransition`: raw field of the type,
        then equalised and blurred. */
    method EnsureField()
      requires Valid() && SaneConfig(config) && lastPrep.Some? && transitionType != Organic
      modifies this`fieldCache
      ensures Valid() && fieldCache.Some?
      ensures old(fieldCache).Some? ==> fieldCache == old(fieldCache)
      ensures old(fieldCache).None? ==> BuiltField(fieldCache.value)
    {
      if fieldCache.None? {
        var raw: Field;
        if transitionType == DistanceField {
          raw := Fields.BuildDistanceField(lastPrep.value.target, W, H);
        } else if transitionType == NoiseField {
          raw := Fields.BuildNoiseField(noise, W, H, config[NoiseScale], config[NoiseOctaves]);
        } else {
          raw := Fields.BuildRippleField(hypot, rem, W, H, config[RippleWavelen]);
        }
        var f := Fields.EqualizeAndBlur(raw, Truthy(config[EqualizeField]), config[FieldBlur]);
        fieldCache := Some(f);
      }
    }

    /** `organicTransition` before the jitter: the activity and progress
        update, then the organic frame. */
    method OrganicStep() returns (out: Grid)
      requires Valid() && SaneConfig(config) && lastPrep.Some? && transitionType == Organic
      modifies this`activity, this`progress, this`tweener
      ensures Valid() && tweener.Some?
      ensures old(tweener).Some? ==> tweener == old(tweener)
      ensures Stepped(old(activity), old(progress))
      ensures out == OrganicGrid(tweener.value, pow, lastPrep.value.source, lastPrep.value.target, progress, activity, W, H)
    {
      var src, tgt := lastPrep.value.source, lastPrep.value.target;
      activity, progress := Activity.UpdateActivity(src, tgt, activity, progress, W, H,
        config[NeighborInfluence], config[PropagationSpeed], config[ActivityDecay],
        config[LocalVariance], config[TransitionBaseMs], noise);
      EnsureTweener();
      out := OrganicFrame(tweener.value, pow, src, tgt, progress, activity, W, H);
    }

    /** `fieldBasedTransition` before the jitter. */
    method FieldStep(elapsed: real) returns (out: Grid)
      requires Valid() && SaneConfig(config) && lastPrep.Some? && transitionType != Organic && transitionDuration > 0.0
      modifies this`tweener, this`fieldCache
      ensures Valid() && tweener.Some? && fieldCache.Some?
      ensures old(tweener).Some? ==> tweener == old(tweener)
      ensures old(fieldCache).Some? ==> fieldCache == old(fieldCache)
      ensures old(fieldCache).None? ==> BuiltField(fieldCache.value)
      ensures out == FieldGrid(tweener.value, pow, lastPrep.value.source, lastPrep.value.target, fieldCache.value,
                               GlobalProgress(elapsed, transitionDuration), W, H)
    {
      EnsureField();
      ghost var cache := fieldCache;
      EnsureTweener();
      assert fieldCache == cache;
      var gp := GlobalProgress(elapsed, transitionDuration);
      out := FieldFrame(tweener.value, pow, lastPrep.value.source, lastPrep.value.target, fieldCache.value, gp, W, H);
    }

    /** The drawing part of a tick: the frame of the running type, then the
        jitter. Only an organic tick changes the activity and progress. */
    method DrawFrame(elapsed: real, roll: (int, int) -> (real, real)) returns (frame: Grid)
      requires Valid() && SaneConfig(config) && lastPrep.Some? && transitionDuration > 0.0 && UnitRolls(roll)
      modifies this`activity, this`progress, this`tweener, this`fieldCache
      ensures Valid() && FrameReady(roll)
      ensures frame == ExpectedFrame(elapsed, roll)
      ensures old(tweener).Some? ==> tweener == old(tweener)
      ensures old(fieldCache).Some? ==> fieldCache == old(fieldCache)
      ensures transitionType == Organic ==> fieldCache == old(fieldCache) && Stepped(old(activity), old(progress))
      ensures transitionType != Organic ==> fieldCache.Some? && (old(fieldCache).None? ==> BuiltField(fieldCache.value))
      ensures transitionType != Organic ==> activity == old(activity) && progress == old(progress)
    {
      var out: Grid;
      if transitionType == Organic {
        out := OrganicStep();
      } else {
        out := FieldStep(elapsed);
      }
      frame := ApplyJitter(out, roll, config[JitterProb]);
    }

    /** `animate(time)`. A paused tick changes nothing. Otherwise a tick that
        finds no transition running starts one; the frame of the running
        transition is drawn; and the transition ends, making the next font
        current, once the elapsed time exceeds the duration plus the hold. */
    method Animate(time: real, rDuration: real, rStrategy: real, roll: (int, int) -> (real, real))
      returns (frame: Option<Grid>, ghost elapsed: real)
      requires Valid() && SaneConfig(config)
      requires 0.0 <= rDuration < 1.0 && 0.0 <= rStrategy < 1.0 && UnitRolls(roll)
      modifies this`currentFont, this`nextFont, this`activity, this`progress, this`tweener, this`fieldCache,
               this`inTransition, this`transitionStart, this`transitionDuration, this`idx, this`transitionType,
               this`lastPrep
      ensures Valid()
      ensures old(paused) ==> frame.None? && unchanged(this)
      ensures !old(paused) ==> elapsed == time - transitionStart
      ensures !old(paused) ==> frame.Some? && FrameReady(roll) && frame.value == ExpectedFrame(elapsed, roll)
      ensures !old(paused) && !old(inTransition) ==>
        Started(time, rDuration, rStrategy, old(idx), old(transitionType), old(currentFont))
      ensures !old(paused) && old(inTransition) ==>
        Continued(time, old(idx), old(nextFont), old(lastPrep), old(transitionType),
                  old(transitionDuration), old(transitionStart))
      ensures !old(paused) ==>
        && (inTransition <==> elapsed <= transitionDuration + config[HoldMs])
        && currentFont == (if inTransition then old(currentFont) else nextFont.value)
      ensures !old(paused) && !old(inTransition) ==>
        && (transitionType == Organic ==> Stepped(Activity.ZeroField(W, H), Activity.ZeroField(W, H)))
        && (transitionType != Organic ==> activity == Activity.ZeroField(W, H) && progress == Activity.ZeroField(W, H))
        && (transitionType == Organic ==> fieldCache.None?)
        && (transitionType != Organic ==> fieldCache.Some? && BuiltField(fieldCache.value))
      ensures !old(paused) && old(inTransition) ==>
        && (transitionType == Organic ==> Stepped(old(activity), old(progress)))
        && (transitionType != Organic ==> activity == old(activity) && progress == old(progress))
        && (old(fieldCache).Some? ==> fieldCache == old(fieldCache))
        && (transitionType == Organic ==> fieldCache == old(fieldCache))
        && (transitionType != Organic ==> fieldCache.Some? && (old(fieldCache).None? ==> BuiltField(fieldCache.value)))
    {
      if paused {
        return None, 0.0;
      }
      var g: Grid;
      if inTransition {
        g, elapsed := ContinueTick(time, roll);
      } else {
        g, elapsed := StartTick(time, rDuration, rStrategy, roll);
      }
      frame := Some(g);
    }

    /** A tick that finds no transition running: one starts, its first
        frame is drawn, and it ends at once if the clock is already past
        its duration and hold. */
    method StartTick(time: real, rDuration: real, rStrategy: real, roll: (int, int) -> (real, real))
      returns (frame: Grid, ghost elapsed: real)
      requires Valid() && SaneConfig(config) && !inTransition
      requires 0.0 <= rDuration < 1.0 && 0.0 <= rStrategy < 1.0 && UnitRolls(roll)
      modifies this`currentFont, this`nextFont, this`activity, this`progress, this`tweener, this`fieldCache,
               this`inTransition, this`transitionStart, this`transitionDuration, this`idx, this`transitionType,
               this`lastPrep
      ensures Valid() && elapsed == 0.0
      ensures FrameReady(roll) && frame == ExpectedFrame(elapsed, roll)
      ensures Started(time, rDuration, rStrategy, old(idx), old(transitionType), old(currentFont))
      ensures inTransition <==> elapsed <= transitionDuration + config[HoldMs]
      ensures currentFont == (if inTransition then old(currentFont) else nextFont.value)
      ensures transitionType == Organic ==> Stepped(Activity.ZeroField(W, H), Activity.ZeroField(W, H))
      ensures transitionType != Organic ==> activity == Activity.ZeroField(W, H) && progress == Activity.ZeroField(W, H)
      ensures transitionType == Organic ==> fieldCache.None?
      ensures transitionType != Organic ==> fieldCache.Some? && BuiltField(fieldCache.value)
    {
      // The first tick's clock start is overwritten by the start itself.
      BeginTransition(time, rDuration, rStrategy);
      elapsed := 0.0;
      frame := DrawStarted(roll, time, rDuration, rStrategy, old(idx), old(transitionType), old(currentFont));
    }

    /** The first frame of a transition that has just started, drawn at
        elapsed time 0; the start's choices stay as they were made. */
    method DrawStarted(roll: (int, int) -> (real, real), ghost time: real, ghost rDuration: real, ghost rStrategy: real,
                       ghost i: nat, ghost t: TransitionType, ghost cur: Font)
      returns (frame: Grid)
      requires Valid() && SaneConfig(config) && inTransition && UnitRolls(roll)
      requires Started(time, rDuration, rStrategy, i, t, cur)
      modifies this`activity, this`progress, this`tweener, this`fieldCache, this`inTransition, this`currentFont
      ensures Valid() && FrameReady(roll) && frame == ExpectedFrame(0.0, roll)
      ensures Started(time, rDuration, rStrategy, i, t, cur)
      ensures inTransition <==> 0.0 <= transitionDuration + config[HoldMs]
      ensures currentFont == if inTransition then old(currentFont) else nextFont.value
      ensures transitionType == Organic ==> Stepped(old(activity), old(progress))
      ensures transitionType != Organic ==> activity == old(activity) && progress == old(progress)
      ensures old(fieldCache).Some? ==> fieldCache == old(fieldCache)
      ensures transitionType == Organic ==> fieldCache == old(fieldCache)
      ensures transitionType != Organic ==> fieldCache.Some? && (old(fieldCache).None? ==> BuiltField(fieldCache.value))
    {
      frame := DrawAndEnd(0.0, roll);
    }

    /** A tick of a running transition: the clock starts if it had not, the
        frame is drawn, and the transition ends once the duration and the
        hold are over. */
    method ContinueTick(time: real, roll: (int, int) -> (real, real))
      returns (frame: Grid, ghost elapsed: real)
      requires Valid() && SaneConfig(config) && inTransition && UnitRolls(roll)
      modifies this`currentFont, this`activity, this`progress, this`tweener, this`fieldCache,
               this`inTransition, this`transitionStart
      ensures Valid() && elapsed == time - transitionStart
      ensures FrameReady(roll) && frame == ExpectedFrame(elapsed, roll)
      ensures Continued(time, old(idx), old(nextFont), old(lastPrep), old(transitionType),
                        old(transitionDuration), old(transitionStart))
      ensures inTransition <==> elapsed <= transitionDuration + config[HoldMs]
      ensures currentFont == (if inTransition then old(currentFont) else nextFont.value)
      ensures transitionType == Organic ==> Stepped(old(activity), old(progress))
      ensures transitionType != Organic ==> activity == old(activity) && progress == old(progress)
      ensures old(fieldCache).Some? ==> fieldCache == old(fieldCache)
      ensures transitionType == Organic ==> fieldCache == old(fieldCache)
      ensures transitionType != Organic ==> fieldCache.Some? && (old(fieldCache).None? ==> BuiltField(fieldCache.value))
    {
      if transitionStart == 0.0 {
        transitionStart := time;
      }
      var dt := time - transitionStart;
      elapsed := dt;
      frame := DrawContinued(dt, roll, time, old(idx), old(nextFont), old(lastPrep), old(transitionType),
                             old(transitionDuration), old(transitionStart));
    }

    /** The frame of a running transition, `elapsed` after its start; the
        transition's font, type, frames and timing stay as they were. */
    method DrawContinued(elapsed: real, roll: (int, int) -> (real, real), ghost time: real, ghost i: nat,
                         ghost nf: Option<Font>, ghost lp: Option<Prep>, ghost t: TransitionType,
                         ghost d: real, ghost start: real)
      returns (frame: Grid)
      requires Valid() && SaneConfig(config) && inTransition && UnitRolls(roll)
      requires Continued(time, i, nf, lp, t, d, start)
      modifies this`activity, this`progress, this`tweener, this`fieldCache, this`inTransition, this`currentFont
      ensures Valid() && FrameReady(roll) && frame == ExpectedFrame(elapsed, roll)
      ensures Continued(time, i, nf, lp, t, d, start)
      ensures inTransition <==> elapsed <= transitionDuration + config[HoldMs]
      ensures currentFont == if inTransition then old(currentFont) else nextFont.value
      ensures transitionType == Organic ==> Stepped(old(activity), old(progress))
      ensures transitionType != Organic ==> activity == old(activity) && progress == old(progress)
      ensures old(fieldCache).Some? ==> fieldCache == old(fieldCache)
      ensures transitionType == Organic ==> fieldCache == old(fieldCache)
      ensures transitionType != Organic ==> fieldCache.Some? && (old(fieldCache).None? ==> BuiltField(fieldCache.value))
    {
      frame := DrawAndEnd(elapsed, roll);
    }

    /** The rest of a tick: the frame drawn `elapsed` after the start, then
        the end of the transition once the duration and the hold are over. */
    method DrawAndEnd(elapsed: real, roll: (int, int) -> (real, real)) returns (frame: Grid)
      requires Valid() && SaneConfig(config) && inTransition && UnitRolls(roll)
      modifies this`activity, this`progress, this`tweener, this`fieldCache, this`inTransition, this`currentFont
      ensures Valid() && FrameReady(roll) && frame == ExpectedFrame(elapsed, roll)
      ensures inTransition <==> elapsed <= transitionDuration + config[HoldMs]
      ensures currentFont == if inTransition then old(currentFont) else nextFont.value
      ensures transitionType == Organic ==> Stepped(old(activity), old(progress))
      ensures transitionType != Organic ==> activity == old(activity) && progress == old(progress)
      ensures old(fieldCache).Some? ==> fieldCache == old(fieldCache)
      ensures transitionType == Organic ==> fieldCache == old(fieldCache)
      ensures transitionType != Organic ==> fieldCache.Some? && (old(fieldCache).None? ==> BuiltField(fieldCache.value))
    {
      frame := DrawFrame(elapsed, roll);
      EndIfDone(elapsed, roll);
    }

    /** The last part of a tick: the transition ends, and the next font
        becomes current, once `elapsed` exceeds the duration plus the hold. */
    method EndIfDone(elapsed: real, ghost roll: (int, int) -> (real, real))
      requires Valid() && inTransition && FrameReady(roll)
      modifies this`inTransition, this`currentFont
      ensures Valid() && FrameReady(roll)
      ensures ExpectedFrame(elapsed, roll) == old(ExpectedFrame(elapsed, roll))
      ensures inTransition <==> elapsed <= transitionDuration + config[HoldMs]
      ensures currentFont == if inTransition then old(currentFont) else old(nextFont).value
    {
      if elapsed > transitionDuration + config[HoldMs] {
        inTransition := false;
        currentFont := nextFont.value;
      }
    }

    // -------------------------------------------------------------------
    // Controls

    /** The keyboard handler: the key's command, applied. */
    method KeyDown(code: string, key: string)
      requires Valid()
      modifies this`paused, this`inTransition, this`config, this`transitionType
      ensures Valid()
      ensures Applied(CommandOf(code, key), old(paused), old(inTransition), old(config), old(transitionType))
    {
      var cmd := CommandOf(code, key);
      Apply(cmd);
    }

    /** The state after command `cmd` from the given values: a pause toggle,
        a restart (for the keys that restart), a configuration step, and a
        type chosen by name. */
    ghost predicate Applied(cmd: Command, p: bool, running: bool, c: Config, t: TransitionType)
      requires Complete(c)
      reads this`paused, this`inTransition, this`config, this`transitionType
    {
      && paused == (if cmd == TogglePause then !p else p)
      && inTransition == (if cmd.Restarts() then false else running)
      && config == KeyConfig(cmd, c)
      && transitionType == (if cmd.Choose? then cmd.t else t)
    }

    /** What a command changes: the pause flag, the configuration, or the
        chosen type, and whether the transition restarts. */
    method Apply(cmd: Command)
      requires Valid()
      modifies this`paused, this`inTransition, this`config, this`transitionType
      ensures Valid()
      ensures Applied(cmd, old(paused), old(inTransition), old(config), old(transitionType))
    {
      if cmd == TogglePause {
        Pause();
      } else if cmd.Choose? {
        ChooseType(cmd.t);
      } else {
        Configure(cmd);
      }
    }

    /** A type chosen by name (`use` or one of the keys o/d/r/f), and a
        restart. The start that follows draws the type afresh, so the choice
        shows only until then (Schedule.ChosenTypeIsDiscarded). */
    method ChooseType(t: TransitionType)
      requires Valid()
      modifies this`transitionType, this`inTransition
      ensures Valid() && transitionType == t && !inTransition
      ensures Applied(Choose(t), old(paused), old(inTransition), old(config), old(transitionType))
    {
      transitionType, inTransition := t, false;
    }

    /** The keys that step the configuration; [ and ] also restart. */
    method Configure(cmd: Command)
      requires Valid()
      modifies this`config, this`inTransition
      requires cmd != TogglePause && !cmd.Choose?
      ensures Valid() && Applied(cmd, old(paused), old(inTransition), old(config), old(transitionType))
    {
      config := KeyConfig(cmd, config);
      if cmd.Restarts() {
        inTransition := false;
      }
    }

    /** `use(name)`: a known type name is chosen and the transition
        restarts; an unknown name changes nothing. */
    method Use(name: string)
      requires Valid()
      modifies this`transitionType, this`inTransition
      ensures Valid()
      ensures TypeNamed(name).Some? ==> transitionType == TypeNamed(name).value && !inTransition
      ensures TypeNamed(name).None? ==> unchanged(this)
    {
      var t := TypeNamed(name);
      if t.Some? {
        ChooseType(t.value);
      }
    }

    /** `next()`: the next tick starts a new transition. */
    method Next()
      requires Valid()
      modifies this`inTransition
      ensures Valid() && !inTransition
    {
      inTransition := false;
    }

    /** `set(key, value)`: an existing key takes the value; an unknown key
        changes nothing. */
    method Set(key: string, value: real)
      requires Valid()
      modifies this`config
      ensures Valid()
      ensures config == SetConfig(old(config), key, value)
    {
      config := SetConfig(config, key, value);
    }

    /** `addFont(name, ascii)`: one font appended, its lines built from the
        text as at load time. */
    method AddFont(name: string, ascii: string)
      requires Valid()
      modifies this`fonts
      ensures Valid()
      ensures fonts == old(fonts) + [Font(name, FontLines(ascii, W))]
    {
      fonts := fonts + [Font(name, FontLines(ascii, W))];
    }

    /** `say(ascii)` at clock reading `now` (milliseconds): a font named
        after the clock is appended and becomes the next one shown. */
    method Say(ascii: string, now: nat)
      requires Valid()
      modifies this`fonts, this`idx, this`inTransition
      ensures Valid()
      ensures fonts == old(fonts) + [Font(LiveName(now), FontLines(ascii, W))]
      ensures idx == |old(fonts)| - 1 && !inTransition
      ensures NextIndex(idx, |fonts|) == |fonts| - 1
    {
      var name := LiveName(now);
      AddFont(name, ascii);
      var n := |fonts|;
      idx := n - 2;
      Next();
      SayThenStart(n);
    }

    /** `pause()`: toggles the pause. */
    method Pause()
      requires Valid()
      modifies this`paused
      ensures Valid() && paused == !old(paused)
      ensures Applied(TogglePause, old(paused), old(inTransition), old(config), old(transitionType))
    {
      paused := !paused;
    }
  }
}
