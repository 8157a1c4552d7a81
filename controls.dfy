/** `CONFIG` and the steps the keyboard controls and the `set` call apply to
    it. Every value is a number; `true` and `false` are 1.0 and 0.0. */
module Controls {
  import opened Util
  import opened Schedule

  /** The 31 keys of `CONFIG`. */
  datatype Key =
    | GridW | GridH | CellW | CellH | FontPx | HoldMs
    | TransitionBaseMs | NeighborInfluence | ActivityDecay | PropagationSpeed | LocalVariance | JitterProb
    | EqualizeField | FieldBlur | GlyphSeeds | NoiseScale | NoiseOctaves | SpiralTurns
    | SpiralPrecess | RippleWavelen | RippleDirection | BrushWidth | BrushVariance | FloodAngleDeg
    | FloodAniso | QcWaves | QcFreq | ShockSeeds | ShockFreq | ShockDecay
    | LowPower

  /** The key's name in `CONFIG`. */
  function KeyName(k: Key): (r: string)
    ensures 6 <= |r| <= 18
    ensures 'A' <= r[0] <= 'Z'
  {
    match k
    case GridW => "GRID_W"
    case GridH => "GRID_H"
    case CellW => "CELL_W"
    case CellH => "CELL_H"
    case FontPx => "FONT_PX"
    case HoldMs => "HOLD_MS"
    case TransitionBaseMs => "TRANSITION_BASE_MS"
    case NeighborInfluence => "NEIGHBOR_INFLUENCE"
    case ActivityDecay => "ACTIVITY_DECAY"
    case PropagationSpeed => "PROPAGATION_SPEED"
    case LocalVariance => "LOCAL_VARIANCE"
    case JitterProb => "JITTER_PROB"
    case EqualizeField => "EQUALIZE_FIELD"
    case FieldBlur => "FIELD_BLUR"
    case GlyphSeeds => "GLYPH_SEEDS"
    case NoiseScale => "NOISE_SCALE"
    case NoiseOctaves => "NOISE_OCTAVES"
    case SpiralTurns => "SPIRAL_TURNS"
    case SpiralPrecess => "SPIRAL_PRECESS"
    case RippleWavelen => "RIPPLE_WAVELEN"
    case RippleDirection => "RIPPLE_DIRECTION"
    case BrushWidth => "BRUSH_WIDTH"
    case BrushVariance => "BRUSH_VARIANCE"
    case FloodAngleDeg => "FLOOD_ANGLE_DEG"
    case FloodAniso => "FLOOD_ANISO"
    case QcWaves => "QC_WAVES"
    case QcFreq => "QC_FREQ"
    case ShockSeeds => "SHOCK_SEEDS"
    case ShockFreq => "SHOCK_FREQ"
    case ShockDecay => "SHOCK_DECAY"
    case LowPower => "LOW_POWER"
  }

  /** The keys in the order `CONFIG` lists them: the i-th key for i < 31. */
  function KeyAt(i: nat): (r: Option<Key>)
    ensures r.Some? <==> i < 31
  {
    match i
    case 0 => Some(GridW)
    case 1 => Some(GridH)
    case 2 => Some(CellW)
    case 3 => Some(CellH)
    case 4 => Some(FontPx)
    case 5 => Some(HoldMs)
    case 6 => Some(TransitionBaseMs)
    case 7 => Some(NeighborInfluence)
    case 8 => Some(ActivityDecay)
    case 9 => Some(PropagationSpeed)
    case 10 => Some(LocalVariance)
    case 11 => Some(JitterProb)
    case 12 => Some(EqualizeField)
    case 13 => Some(FieldBlur)
    case 14 => Some(GlyphSeeds)
    case 15 => Some(NoiseScale)
    case 16 => Some(NoiseOctaves)
    case 17 => Some(SpiralTurns)
    case 18 => Some(SpiralPrecess)
    case 19 => Some(RippleWavelen)
    case 20 => Some(RippleDirection)
    case 21 => Some(BrushWidth)
    case 22 => Some(BrushVariance)
    case 23 => Some(FloodAngleDeg)
    case 24 => Some(FloodAniso)
    case 25 => Some(QcWaves)
    case 26 => Some(QcFreq)
    case 27 => Some(ShockSeeds)
    case 28 => Some(ShockFreq)
    case 29 => Some(ShockDecay)
    case 30 => Some(LowPower)
    case _ => None
  }

  /** The position of a key in that order. */
  function KeyIndex(k: Key): (i: nat)
    ensures KeyAt(i) == Some(k)
  {
    match k
    case GridW => 0
    case GridH => 1
    case CellW => 2
    case CellH => 3
    case FontPx => 4
    case HoldMs => 5
    case TransitionBaseMs => 6
    case NeighborInfluence => 7
    case ActivityDecay => 8
    case PropagationSpeed => 9
    case LocalVariance => 10
    case JitterProb => 11
    case EqualizeField => 12
    case FieldBlur => 13
    case GlyphSeeds => 14
    case NoiseScale => 15
    case NoiseOctaves => 16
    case SpiralTurns => 17
    case SpiralPrecess => 18
    case RippleWavelen => 19
    case RippleDirection => 20
    case BrushWidth => 21
    case BrushVariance => 22
    case FloodAngleDeg => 23
    case FloodAniso => 24
    case QcWaves => 25
    case QcFreq => 26
    case ShockSeeds => 27
    case ShockFreq => 28
    case ShockDecay => 29
    case LowPower => 30
  }

  /** The first key from position i on with the given name. */
  function FindKey(name: string, i: nat): (r: Option<Key>)
    requires i <= 31
    ensures r.Some? ==> KeyName(r.value) == name
    ensures r.None? ==> forall j :: i <= j < 31 ==> KeyName(KeyAt(j).value) != name
    decreases 31 - i
  {
    if i == 31 then None
    else if KeyName(KeyAt(i).value) == name then KeyAt(i)
    else FindKey(name, i + 1)
  }

  /** `key in CONFIG`, returning the key named: some key exactly when one
      has that name. */
  function KeyNamed(name: string): (r: Option<Key>)
    ensures r.Some? ==> KeyName(r.value) == name
    ensures r.None? ==> forall k :: KeyName(k) != name
  {
    FindKeyComplete(name);
    FindKey(name, 0)
  }

  lemma FindKeyComplete(name: string)
    ensures FindKey(name, 0).None? ==> forall k :: KeyName(k) != name
  {
    if FindKey(name, 0).None? {
      forall k
        ensures KeyName(k) != name
      {
        var j := KeyIndex(k);
        assert KeyAt(j).value == k;
      }
    }
  }

  /** Every value is a number; `true` and `false` are 1.0 and 0.0. */
  type Config = map<Key, real>

  /** Every key has a value. */
  predicate Complete(c: Config) {
    forall k: Key :: k in c
  }

  /** The value of each key at load time. */
  function DefaultValue(k: Key): (r: real)
    ensures 0.0 <= r <= 3000.0
    ensures r == 0.0 <==> k == LowPower
  {
    match k
    case GridW => 120.0
    case GridH => 12.0
    case CellW => 8.0
    case CellH => 12.0
    case FontPx => 16.0
    case HoldMs => 100.0
    case TransitionBaseMs => 3000.0
    case NeighborInfluence => 0.3
    case ActivityDecay => 0.85
    case PropagationSpeed => 0.015
    case LocalVariance => 0.4
    case JitterProb => 0.001
    case EqualizeField => 1.0
    case FieldBlur => 2.0
    case GlyphSeeds => 8.0
    case NoiseScale => 0.1
    case NoiseOctaves => 3.0
    case SpiralTurns => 8.5
    case SpiralPrecess => 0.6
    case RippleWavelen => 8.0
    case RippleDirection => 1.0
    case BrushWidth => 5.0
    case BrushVariance => 0.6
    case FloodAngleDeg => 45.0
    case FloodAniso => 0.7
    case QcWaves => 6.0
    case QcFreq => 0.12
    case ShockSeeds => 4.0
    case ShockFreq => 0.4
    case ShockDecay => 0.3
    case LowPower => 0.0
  }

  /** The configuration at load time. */
  function DefaultConfig(): (c: Config)
    ensures Complete(c)
    ensures c[TransitionBaseMs] == 3000.0 && c[HoldMs] == 100.0
    ensures c[NeighborInfluence] == 0.3 && c[PropagationSpeed] == 0.015
  {
    map k: Key :: DefaultValue(k)
  }

  /** The values the engine divides by or loops on are usable: a positive
      base duration, at least one noise octave, a non-zero wavelength. */
  predicate SaneConfig(c: Config) {
    && Complete(c)
    && c[TransitionBaseMs] > 0.0
    && c[NoiseOctaves] > 0.0
    && c[RippleWavelen] != 0.0
  }

  lemma DefaultConfigSane()
    ensures SaneConfig(DefaultConfig())
  {
  }

  /** `set(key, value)`: the key with that name is written and no other;
      an unknown name changes nothing; the key set never changes. */
  function SetConfig(c: Config, name: string, value: real): (r: Config)
    requires Complete(c)
    ensures Complete(r) && r.Keys == c.Keys
    ensures KeyNamed(name).None? ==> r == c
    ensures KeyNamed(name).Some? ==> KeyName(KeyNamed(name).value) == name && r[KeyNamed(name).value] == value
    ensures forall k :: Some(k) != KeyNamed(name) ==> r[k] == c[k]
  {
    match KeyNamed(name)
    case Some(k) => c[k := value]
    case None => c
  }

  // ---------------------------------------------------------------------
  // Base duration: '[' shortens, ']' lengthens

  /** '[': `Math.max(800, base*0.8)`. */
  function Faster(base: real): (b: real)
    ensures b >= 800.0
    ensures b <= base || base < 800.0
  {
    Max(800.0, base * 0.8)
  }

  /** ']': `Math.min(10000, base*1.25)`. */
  function Slower(base: real): (b: real)
    ensures b <= 10000.0
  {
    Min(10000.0, base * 1.25)
  }

  /** Both keys keep a base duration in [800, 10000] there; as the default
      3000 lies in that range, keys alone never leave it. */
  lemma BaseStaysInRange(base: real)
    requires 800.0 <= base <= 10000.0
    ensures 800.0 <= Faster(base) <= 10000.0
    ensures 800.0 <= Slower(base) <= 10000.0
  {
  }

  /** Away from the bounds the two keys undo each other. */
  lemma FasterSlowerInverse(base: real)
    ensures 1000.0 <= base <= 10000.0 ==> Slower(Faster(base)) == base
    ensures 800.0 <= base <= 8000.0 ==> Faster(Slower(base)) == base
  {
  }

  /** Any positive base stays positive after either key. */
  lemma BaseStaysPositive(base: real)
    requires base > 0.0
    ensures Faster(base) > 0.0 && Slower(base) > 0.0
  {
  }

  // ---------------------------------------------------------------------
  // Neighbour influence: 'q' raises, 'a' lowers

  function InfluenceUp(v: real): (r: real)
    ensures 0.0 <= r <= 1.0
  {
    Clamp(v + 0.1, 0.0, 1.0)
  }

  function InfluenceDown(v: real): (r: real)
    ensures 0.0 <= r <= 1.0
  {
    Clamp(v - 0.1, 0.0, 1.0)
  }

  /** Inside [0, 1] the keys move by exactly 0.1 and undo each other. */
  lemma InfluenceSteps(v: real)
    ensures 0.0 <= v <= 0.9 ==> InfluenceUp(v) == v + 0.1 && InfluenceDown(InfluenceUp(v)) == v
    ensures 0.1 <= v <= 1.0 ==> InfluenceDown(v) == v - 0.1 && InfluenceUp(InfluenceDown(v)) == v
    ensures InfluenceUp(1.0) == 1.0 && InfluenceDown(0.0) == 0.0
  {
  }

  // ---------------------------------------------------------------------
  // Propagation speed: 'w' raises, 's' lowers

  function SpeedUp(v: real): (r: real)
    ensures 0.05 <= r <= 0.5
  {
    Clamp(v + 0.05, 0.05, 0.5)
  }

  function SpeedDown(v: real): (r: real)
    ensures 0.05 <= r <= 0.5
  {
    Clamp(v - 0.05, 0.05, 0.5)
  }

  /** Inside [0.05, 0.5] the keys move by exactly 0.05 and undo each other. */
  lemma SpeedSteps(v: real)
    ensures 0.05 <= v <= 0.45 ==> SpeedUp(v) == v + 0.05 && SpeedDown(SpeedUp(v)) == v
    ensures 0.1 <= v <= 0.5 ==> SpeedDown(v) == v - 0.05 && SpeedUp(SpeedDown(v)) == v
  {
  }

  /** The default speed 0.015 lies below the keys' range, so the key meant
      to lower it raises it to 0.05. */
  lemma DefaultSpeedBelowRange()
    ensures DefaultConfig()[PropagationSpeed] < 0.05
    ensures SpeedDown(DefaultConfig()[PropagationSpeed]) == 0.05
  {
  }

  // ---------------------------------------------------------------------
  // The keyboard handler

  /** What a key press asks for. Space is recognised by its code, every
      other key by its key name. */
  datatype Command =
    | TogglePause | Restart | Shorten | Lengthen | Choose(t: TransitionType)
    | RaiseInfluence | LowerInfluence | RaiseSpeed | LowerSpeed | Ignored
  {
    /** The commands after which the next tick starts a new transition. */
    predicate Restarts() {
      Restart? || Shorten? || Lengthen? || Choose?
    }
  }

  function CommandOf(code: string, key: string): (r: Command)
    ensures code == "Space" ==> r == TogglePause
    ensures r == Ignored <==>
      code != "Space" && key !in {"n", "Enter", "[", "]", "o", "d", "r", "f", "q", "a", "w", "s"}
    ensures r.Restarts() <==> code != "Space" && key in {"n", "Enter", "[", "]", "o", "d", "r", "f"}
  {
    if code == "Space" then TogglePause
    else if key == "n" || key == "Enter" then Restart
    else if key == "[" then Shorten
    else if key == "]" then Lengthen
    else if key == "o" then Choose(Organic)
    else if key == "d" then Choose(DistanceField)
    else if key == "r" then Choose(RippleField)
    else if key == "f" then Choose(NoiseField)
    else if key == "q" then RaiseInfluence
    else if key == "a" then LowerInfluence
    else if key == "w" then RaiseSpeed
    else if key == "s" then LowerSpeed
    else Ignored
  }

  /** The configuration after a command: one of three keys stepped, or
      unchanged. */
  function KeyConfig(cmd: Command, c: Config): (r: Config)
    requires Complete(c)
    ensures Complete(r) && r.Keys == c.Keys
    ensures forall k :: k != TransitionBaseMs && k != NeighborInfluence && k != PropagationSpeed ==> r[k] == c[k]
  {
    match cmd
    case Shorten => c[TransitionBaseMs := Faster(c[TransitionBaseMs])]
    case Lengthen => c[TransitionBaseMs := Slower(c[TransitionBaseMs])]
    case RaiseInfluence => c[NeighborInfluence := InfluenceUp(c[NeighborInfluence])]
    case LowerInfluence => c[NeighborInfluence := InfluenceDown(c[NeighborInfluence])]
    case RaiseSpeed => c[PropagationSpeed := SpeedUp(c[PropagationSpeed])]
    case LowerSpeed => c[PropagationSpeed := SpeedDown(c[PropagationSpeed])]
    case _ => c
  }

  /** The three stepped values stay in their ranges under every key, and a
      configuration whose values lie in those ranges keeps them there. */
  predicate KeyRanges(c: Config)
    requires Complete(c)
  {
    && 800.0 <= c[TransitionBaseMs] <= 10000.0
    && 0.0 <= c[NeighborInfluence] <= 1.0
    && 0.05 <= c[PropagationSpeed] <= 0.5
  }

  lemma KeysKeepRanges(cmd: Command, c: Config)
    requires Complete(c) && KeyRanges(c)
    ensures Complete(KeyConfig(cmd, c)) && KeyRanges(KeyConfig(cmd, c))
  {
    BaseStaysInRange(c[TransitionBaseMs]);
  }

  /** A key press keeps a positive base duration positive, so the engine's
      configuration stays usable. */
  lemma KeysKeepSane(cmd: Command, c: Config)
    requires SaneConfig(c)
    ensures SaneConfig(KeyConfig(cmd, c))
  {
    BaseStaysPositive(c[TransitionBaseMs]);
  }
}
