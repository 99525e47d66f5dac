/** Choosing between resource configurations: ResTable_config::match and isBetterThan.
  *
  * isBetterThan walks a fixed list of axes and lets the first axis that tells two
  * configurations apart decide.  This module models each axis as the original codes it
  * and proves that, on the configurations match accepts, the whole comparison is the
  * lexicographic order of an integer key per axis - with the exact exceptions.
  */
module ResourceConfig {
  import opened Common

  type Code = s: seq<uint8> | |s| == 2 witness [0, 0]
  type Script = s: seq<uint8> | |s| == 4 witness [0, 0, 0, 0]
  type Variant = s: seq<uint8> | |s| == 8 witness [0, 0, 0, 0, 0, 0, 0, 0]

  datatype Config = Config(
    mcc: uint16, mnc: uint16,
    language: Code, country: Code,
    orientation: uint8, touchscreen: uint8, density: uint16,
    keyboard: uint8, navigation: uint8, inputFlags: uint8, inputPad0: uint8,
    screenWidth: uint16, screenHeight: uint16,
    sdkVersion: uint16, minorVersion: uint16,
    screenLayout: uint8, uiMode: uint8, smallestScreenWidthDp: uint16,
    screenWidthDp: uint16, screenHeightDp: uint16,
    localeScript: Script, localeVariant: Variant
  ) {
    // The unions of the original: a group is nonzero when any of its bytes is.
    predicate Imsi() { mcc != 0 || mnc != 0 }
    predicate Locale() { language != [0, 0] || country != [0, 0] }
    predicate ScreenType() { orientation != 0 || touchscreen != 0 || density != 0 }
    predicate Input() { keyboard != 0 || navigation != 0 || inputFlags != 0 || inputPad0 != 0 }
    predicate ScreenSize() { screenWidth != 0 || screenHeight != 0 }
    predicate Version() { sdkVersion != 0 || minorVersion != 0 }
    predicate ScreenConfig() { screenLayout != 0 || uiMode != 0 || smallestScreenWidthDp != 0 }
    predicate ScreenSizeDp() { screenWidthDp != 0 || screenHeightDp != 0 }

    // The masked bit fields.
    function SizeClass(): uint8 { screenLayout % 16 }              // MASK_SCREENSIZE 0x0f
    function LongClass(): uint8 { screenLayout / 16 % 4 * 16 }     // MASK_SCREENLONG 0x30
    function LayoutDir(): uint8 { screenLayout / 64 * 64 }         // MASK_LAYOUTDIR  0xc0
    function UiType(): uint8 { uiMode % 16 }                       // MASK_UI_MODE_TYPE 0x0f
    function UiNight(): uint8 { uiMode / 16 % 4 * 16 }             // MASK_UI_MODE_NIGHT 0x30
    function KeysHidden(): uint8 { inputFlags % 4 }                // MASK_KEYSHIDDEN 0x03
    function NavHidden(): uint8 { inputFlags / 4 % 4 * 4 }         // MASK_NAVHIDDEN  0x0c
  }

  const DENSITY_MEDIUM := 160
  const DENSITY_ANY := 0xfffe
  const DENSITY_NONE := 0xffff
  const SCREENSIZE_NORMAL := 2
  const KEYSHIDDEN_NO := 1
  const KEYSHIDDEN_SOFT := 3

  // ----- match -----

  /** An option set on the configuration has to equal the device's setting. */
  predicate Wants(own: int, setting: int) { own != 0 ==> own == setting }

  /** A size set on the configuration must not exceed the device's. */
  predicate Fits(own: int, setting: int) { own != 0 ==> own <= setting }

  predicate Matches(c: Config, r: Config) {
    && (c.Imsi() ==> Wants(c.mcc, r.mcc) && Wants(c.mnc, r.mnc))
    && (c.Locale() ==>
          && (c.language[0] != 0 ==> c.language == r.language)
          && (c.country[0] != 0 ==> c.country == r.country))
    && (c.ScreenConfig() ==>
          && Wants(c.LayoutDir(), r.LayoutDir())
          && Fits(c.SizeClass(), r.SizeClass())
          && Wants(c.LongClass(), r.LongClass())
          && Wants(c.UiType(), r.UiType())
          && Wants(c.UiNight(), r.UiNight())
          && Fits(c.smallestScreenWidthDp, r.smallestScreenWidthDp))
    && (c.ScreenSizeDp() ==>
          Fits(c.screenWidthDp, r.screenWidthDp) && Fits(c.screenHeightDp, r.screenHeightDp))
    && (c.ScreenType() ==>
          Wants(c.orientation, r.orientation) && Wants(c.touchscreen, r.touchscreen))
    && (c.Input() ==>
          && (c.KeysHidden() == 0 || c.KeysHidden() == r.KeysHidden()
              || (c.KeysHidden() == KEYSHIDDEN_NO && r.KeysHidden() == KEYSHIDDEN_SOFT))
          && Wants(c.NavHidden(), r.NavHidden())
          && Wants(c.keyboard, r.keyboard)
          && Wants(c.navigation, r.navigation))
    && (c.ScreenSize() ==>
          Fits(c.screenWidth, r.screenWidth) && Fits(c.screenHeight, r.screenHeight))
    && (c.Version() ==>
          Fits(c.sdkVersion, r.sdkVersion) && Wants(c.minorVersion, r.minorVersion))
  }

  // ----- isBetterThan -----

  datatype Axis =
    | Mcc | Mnc | Language | Country | ScriptAxis | VariantAxis | LayoutDirection
    | SmallestWidth | SizeDp | LayoutSize | LayoutLong | Orientation | UiModeType | UiModeNight
    | Density | Touchscreen | KeysHiddenAxis | NavHiddenAxis | Keyboard | Navigation
    | SizePx | Sdk | Minor

  /** The order in which isBetterThan looks at the axes. */
  const AXES: seq<Axis> := [
    Mcc, Mnc, Language, Country, ScriptAxis, VariantAxis, LayoutDirection,
    SmallestWidth, SizeDp, LayoutSize, LayoutLong, Orientation, UiModeType, UiModeNight,
    Density, Touchscreen, KeysHiddenAxis, NavHiddenAxis, Keyboard, Navigation,
    SizePx, Sdk, Minor]

  /** What one axis says: a return statement of the original, or falling through to the next test. */
  datatype Verdict = Undecided | Decided(better: bool)

  /** The usual axis: when the two differ and the device has a setting, being set is better. */
  function JudgeSet(guard: bool, mine: int, other: int, setting: int): Verdict {
    if guard && mine != other && setting != 0 then Decided(mine != 0) else Undecided
  }

  function EffectiveDensity(d: uint16): uint16 {
    if d == 0 then DENSITY_MEDIUM else d
  }

  function RequestedDensity(r: Config): uint16 {
    if r.density == 0 || r.density == DENSITY_ANY then DENSITY_MEDIUM else r.density
  }

  /** The scaling rule: scaling down counts as twice as good as scaling up (32-bit products). */
  predicate PrefersDensity(mine: uint16, other: uint16, q: uint16) {
    var bigger := other <= mine;
    var h, l := if bigger then mine else other, if bigger then other else mine;
    if q >= h then bigger
    else if l >= q then !bigger
    else if Int32((2 * l - q) * h) > Int32(q * q) then !bigger
    else bigger
  }

  function Delta(useWidth: bool, width: int, useHeight: bool, height: int): int {
    (if useWidth then width else 0) + (if useHeight then height else 0)
  }

  function DpDelta(c: Config, r: Config): int {
    Delta(r.screenWidthDp != 0, r.screenWidthDp - c.screenWidthDp,
          r.screenHeightDp != 0, r.screenHeightDp - c.screenHeightDp)
  }

  function PxDelta(c: Config, r: Config): int {
    Delta(r.screenWidth != 0, r.screenWidth - c.screenWidth,
          r.screenHeight != 0, r.screenHeight - c.screenHeight)
  }

  function JudgeLayoutSize(a: Config, b: Config, r: Config): Verdict {
    if a.SizeClass() != b.SizeClass() && r.SizeClass() != 0 then
      var normalised := r.SizeClass() >= SCREENSIZE_NORMAL;
      var mine := if normalised && a.SizeClass() == 0 then SCREENSIZE_NORMAL else a.SizeClass();
      var other := if normalised && b.SizeClass() == 0 then SCREENSIZE_NORMAL else b.SizeClass();
      if mine == other then Decided(a.SizeClass() != 0) else Decided(mine > other)
    else Undecided
  }

  function JudgeDensity(a: Config, b: Config, r: Config): Verdict {
    if (a.ScreenType() || b.ScreenType()) && a.density != b.density then
      var mine, other := EffectiveDensity(a.density), EffectiveDensity(b.density);
      if mine == DENSITY_ANY then Decided(true)
      else if other == DENSITY_ANY then Decided(false)
      else Decided(PrefersDensity(mine, other, RequestedDensity(r)))
    else Undecided
  }

  function JudgeKeysHidden(a: Config, b: Config, r: Config): Verdict {
    var mine, other, setting := a.KeysHidden(), b.KeysHidden(), r.KeysHidden();
    if (a.Input() || b.Input()) && mine != other && setting != 0 then
      if mine == 0 then Decided(false)
      else if other == 0 then Decided(true)
      else if setting == mine then Decided(true)
      else if setting == other then Decided(false)
      else Undecided
    else Undecided
  }

  function JudgeNavHidden(a: Config, b: Config, r: Config): Verdict {
    if (a.Input() || b.Input()) && a.NavHidden() != b.NavHidden() && r.NavHidden() != 0 then
      if a.NavHidden() == 0 then Decided(false)
      else if b.NavHidden() == 0 then Decided(true)
      else Undecided
    else Undecided
  }

  function Judge(axis: Axis, a: Config, b: Config, r: Config): Verdict {
    match axis
    case Mcc => JudgeSet(a.Imsi() || b.Imsi(), a.mcc, b.mcc, r.mcc)
    case Mnc => JudgeSet(a.Imsi() || b.Imsi(), a.mnc, b.mnc, r.mnc)
    case Language => JudgeSet(a.Locale() || b.Locale(), a.language[0], b.language[0], r.language[0])
    case Country => JudgeSet(a.Locale() || b.Locale(), a.country[0], b.country[0], r.country[0])
    case ScriptAxis =>
      JudgeSet(a.localeScript[0] != 0 || b.localeScript[0] != 0,
               a.localeScript[0], b.localeScript[0], r.localeScript[0])
    case VariantAxis =>
      JudgeSet(a.localeVariant[0] != 0 || b.localeVariant[0] != 0,
               a.localeVariant[0], b.localeVariant[0], r.localeVariant[0])
    case LayoutDirection =>
      if a.LayoutDir() != b.LayoutDir() && r.LayoutDir() != 0
      then Decided(a.LayoutDir() > b.LayoutDir()) else Undecided
    case SmallestWidth =>
      if a.smallestScreenWidthDp != b.smallestScreenWidthDp
      then Decided(a.smallestScreenWidthDp > b.smallestScreenWidthDp) else Undecided
    case SizeDp =>
      if (a.ScreenSizeDp() || b.ScreenSizeDp()) && DpDelta(a, r) != DpDelta(b, r)
      then Decided(DpDelta(a, r) < DpDelta(b, r)) else Undecided
    case LayoutSize => JudgeLayoutSize(a, b, r)
    case LayoutLong =>
      JudgeSet(a.screenLayout != 0 || b.screenLayout != 0, a.LongClass(), b.LongClass(), r.LongClass())
    case Orientation => JudgeSet(true, a.orientation, b.orientation, r.orientation)
    case UiModeType => JudgeSet(a.uiMode != 0 || b.uiMode != 0, a.UiType(), b.UiType(), r.UiType())
    case UiModeNight => JudgeSet(a.uiMode != 0 || b.uiMode != 0, a.UiNight(), b.UiNight(), r.UiNight())
    case Density => JudgeDensity(a, b, r)
    case Touchscreen => JudgeSet(a.ScreenType() || b.ScreenType(), a.touchscreen, b.touchscreen, r.touchscreen)
    case KeysHiddenAxis => JudgeKeysHidden(a, b, r)
    case NavHiddenAxis => JudgeNavHidden(a, b, r)
    case Keyboard => JudgeSet(a.Input() || b.Input(), a.keyboard, b.keyboard, r.keyboard)
    case Navigation => JudgeSet(a.Input() || b.Input(), a.navigation, b.navigation, r.navigation)
    case SizePx =>
      if (a.ScreenSize() || b.ScreenSize()) && PxDelta(a, r) != PxDelta(b, r)
      then Decided(PxDelta(a, r) < PxDelta(b, r)) else Undecided
    case Sdk =>
      if (a.Version() || b.Version()) && a.sdkVersion != b.sdkVersion && r.sdkVersion != 0
      then Decided(a.sdkVersion > b.sdkVersion) else Undecided
    case Minor => JudgeSet(a.Version() || b.Version(), a.minorVersion, b.minorVersion, r.minorVersion)
  }

  /** The first axis with a verdict decides; without one neither is better. */
  predicate Decide(axes: seq<Axis>, a: Config, b: Config, r: Config) {
    axes != [] &&
    match Judge(axes[0], a, b, r)
    case Decided(better) => better
    case Undecided => Decide(axes[1..], a, b, r)
  }

  predicate IsBetterThan(a: Config, b: Config, r: Config) {
    Decide(AXES, a, b, r)
  }

  // ----- the reference order: an integer key per axis -----

  function IsSet(x: int): int { if x != 0 then 1 else 0 }

  /** The larger density that a density d below q stands level with under the two-to-one rule
    * (beyond all 16-bit densities when d is at most half of q). */
  function Level(d: int, q: int): int {
    if 2 * d > q then q * q / (2 * d - q) else q * q + 0x1_0000
  }

  /** Densities in order of preference for a device of density q: at or above q, nearer is
    * better; a density below q ranks just after the larger density it stands level with. */
  function DensityKey(d: int, q: int): int {
    if d == DENSITY_ANY then 1
    else if d >= q then -d * 0x2_0000
    else -Level(d, q) * 0x2_0000 - 0x1_0000 + d
  }

  function Key(axis: Axis, c: Config, r: Config): int {
    match axis
    case Mcc => IsSet(c.mcc)
    case Mnc => IsSet(c.mnc)
    case Language => IsSet(c.language[0])
    case Country => IsSet(c.country[0])
    case ScriptAxis => if r.localeScript[0] == 0 then 0 else IsSet(c.localeScript[0])
    case VariantAxis => if r.localeVariant[0] == 0 then 0 else IsSet(c.localeVariant[0])
    case LayoutDirection => c.LayoutDir()
    case SmallestWidth => c.smallestScreenWidthDp
    case SizeDp => -DpDelta(c, r)
    case LayoutSize =>
      if c.SizeClass() == 0 && r.SizeClass() >= SCREENSIZE_NORMAL
      then 2 * SCREENSIZE_NORMAL - 1 else 2 * c.SizeClass()
    case LayoutLong => IsSet(c.LongClass())
    case Orientation => IsSet(c.orientation)
    case UiModeType => IsSet(c.UiType())
    case UiModeNight => IsSet(c.UiNight())
    case Density => DensityKey(EffectiveDensity(c.density), RequestedDensity(r))
    case Touchscreen => IsSet(c.touchscreen)
    case KeysHiddenAxis => if c.KeysHidden() == 0 then 0 else if c.KeysHidden() == r.KeysHidden() then 2 else 1
    case NavHiddenAxis => IsSet(c.NavHidden())
    case Keyboard => IsSet(c.keyboard)
    case Navigation => IsSet(c.navigation)
    case SizePx => -PxDelta(c, r)
    case Sdk => c.sdkVersion
    case Minor => IsSet(c.minorVersion)
  }

  /** a's keys are lexicographically above b's. */
  predicate KeysAbove(axes: seq<Axis>, a: Config, b: Config, r: Config) {
    axes != [] &&
    var ka, kb := Key(axes[0], a, r), Key(axes[0], b, r);
    ka > kb || (ka == kb && KeysAbove(axes[1..], a, b, r))
  }

  predicate SameKeys(axes: seq<Axis>, a: Config, b: Config, r: Config) {
    forall axis | axis in axes :: Key(axis, a, r) == Key(axis, b, r)
  }

  /** Requests for which none of the density rule's products leaves 32 bits: moderate ones, and the
    * largest value (DENSITY_NONE), for which the rule never gets to its products. */
  predicate Orderable(q: uint16) { q <= 32770 || q == DENSITY_NONE }

  predicate InRange(r: Config) { Orderable(RequestedDensity(r)) }

  // ----- the exceptions -----

  /** Two different nonempty scripts (by first letter) when the device has a script; likewise
    * variants; and an absent density against an explicit 160 when the device's is at least 160.
    * On such an axis the original finds each configuration better than the other. */
  predicate ClashesOn(axis: Axis, a: Config, b: Config, r: Config) {
    match axis
    case ScriptAxis =>
      r.localeScript[0] != 0 && a.localeScript[0] != 0 && b.localeScript[0] != 0
      && a.localeScript[0] != b.localeScript[0]
    case VariantAxis =>
      r.localeVariant[0] != 0 && a.localeVariant[0] != 0 && b.localeVariant[0] != 0
      && a.localeVariant[0] != b.localeVariant[0]
    case Density => MixesDefaultDensity(a, b) && RequestedDensity(r) >= DENSITY_MEDIUM
    case _ => false
  }

  predicate MixesDefaultDensity(a: Config, b: Config) {
    (a.density == 0 && b.density == DENSITY_MEDIUM) || (a.density == DENSITY_MEDIUM && b.density == 0)
  }

  /** Absent density against explicit 160 on a low density device: the original stops at the
    * density without preferring either, and never looks at the later axes. */
  predicate StopsOn(axis: Axis, a: Config, b: Config, r: Config) {
    axis == Density && MixesDefaultDensity(a, b) && RequestedDensity(r) < DENSITY_MEDIUM
  }

  /** The keys agree up to an axis on which the two clash (and the comparison gets that far). */
  predicate ClashIn(axes: seq<Axis>, a: Config, b: Config, r: Config) {
    axes != [] &&
    (ClashesOn(axes[0], a, b, r)
     || (!StopsOn(axes[0], a, b, r) && Key(axes[0], a, r) == Key(axes[0], b, r)
         && ClashIn(axes[1..], a, b, r)))
  }

  predicate Clash(a: Config, b: Config, r: Config) {
    ClashIn(AXES, a, b, r)
  }

  /** The keys agree up to an axis on which the comparison stops. */
  predicate StopIn(axes: seq<Axis>, a: Config, b: Config, r: Config) {
    axes != [] &&
    (StopsOn(axes[0], a, b, r)
     || (Key(axes[0], a, r) == Key(axes[0], b, r) && StopIn(axes[1..], a, b, r)))
  }

  // ----- densities -----

  lemma ProductsFit(l: uint16, h: uint16, q: uint16)
    requires 1 <= l < q < h && q <= 32770
    ensures Int32((2 * l - q) * h) == (2 * l - q) * h
    ensures Int32(q * q) == q * q
  {
    assert -32768 <= 2 * l - q <= 32768;
    assert -32768 * 0xffff <= (2 * l - q) * h <= 32768 * 0xffff by {
      MulRange(2 * l - q, h, 32768, 0xffff);
    }
    MulRange(q, q, 32770, 32770);
  }

  lemma MulRange(x: int, y: nat, m: nat, n: nat)
    requires -(m as int) <= x <= m && y <= n
    ensures -(m * n) <= x * y <= m * n
  {
    assert (m - x) * y >= 0 && (m + x) * y >= 0;
    assert m * (n - y) >= 0;
    assert (m - x) * y == m * y - x * y && (m + x) * y == m * y + x * y;
    assert m * (n - y) == m * n - m * y;
  }

  lemma MulOrder(k: int, x: int, y: int)
    requires k >= 0 && x <= y
    ensures k * x <= k * y
  {
  }

  /** k*h exceeds s exactly when h exceeds the rounded-down quotient s/k. */
  lemma QuotientBound(k: int, h: int, s: int)
    requires k > 0
    ensures k * h > s <==> h > s / k
  {
    var d := s / k;
    assert k * d <= s < k * (d + 1) by { assert s == k * d + s % k; }
    if h > d {
      MulOrder(k, d + 1, h);
    } else {
      MulOrder(k, h, d);
    }
  }

  lemma QuotientOrder(j: int, k: int, s: int)
    requires 0 < j <= k && s >= 0
    ensures 0 <= s / k <= s / j
  {
    var h := s / k;
    QuotientBound(k, h, s);
    assert (k - j) * h >= 0;
    assert k * h == j * h + (k - j) * h;
    QuotientBound(j, h, s);
  }

  lemma LevelFalls(l: int, h: int, q: int)
    requires 1 <= l < h < q
    ensures Level(l, q) >= Level(h, q)
  {
    assert q * q >= 0;
    if 2 * l > q {
      QuotientOrder(2 * l - q, 2 * h - q, q * q);
    } else if 2 * h > q {
      QuotientOrder(1, 2 * h - q, q * q);
    }
  }

  lemma LevelIsAbove(l: int, q: int)
    requires 1 <= l < q
    ensures Level(l, q) >= q
  {
    if 2 * l > q {
      var k := 2 * l - q;
      assert (q - k) * q >= 0;
      assert q * q == k * q + (q - k) * q;
      QuotientBound(k, q, q * q);
    } else {
      assert (q - 1) * q >= 0;
    }
  }

  lemma LevelAgainstLarger(l: uint16, h: uint16, q: uint16)
    requires 1 <= l < q < h && q <= 32770
    ensures (Int32((2 * l - q) * h) > Int32(q * q)) == (h > Level(l, q))
  {
    ProductsFit(l, h, q);
    var p, k, square := (2 * l - q) * h, 2 * l - q, q * q;
    if 2 * l > q {
      QuotientBound(k, h, square);
      assert Level(l, q) == square / k;
    } else {
      assert p <= 0 <= square by { MulOrder(h, k, 0); MulOrder(q, 0, q); }
    }
  }

  /** The nonlinear density rule is the order of the density keys. */
  lemma DensityRuleIsKeyOrder(mine: uint16, other: uint16, q: uint16)
    requires mine != other && mine != DENSITY_ANY && other != DENSITY_ANY
    requires mine >= 1 && other >= 1 && q >= 1 && Orderable(q)
    ensures PrefersDensity(mine, other, q) == (DensityKey(mine, q) > DensityKey(other, q))
    ensures DensityKey(mine, q) != DensityKey(other, q)
  {
    var h, l := if other <= mine then mine else other, if other <= mine then other else mine;
    if h < q {
      LevelFalls(l, h, q);
    } else if l < q {
      LevelIsAbove(l, q);
      if q < h { LevelAgainstLarger(l, h, q); }
    }
  }

  // ----- requests at which the rule is an order -----

  /** A density as the rule compares them. */
  predicate Proper(d: uint16) { d >= 1 && d != DENSITY_ANY }

  ghost predicate RuleIsTransitive(q: uint16) {
    forall a: uint16, b: uint16, c: uint16 | Proper(a) && Proper(b) && Proper(c) ::
      PrefersDensity(a, b, q) && PrefersDensity(b, c, q) ==> PrefersDensity(a, c, q)
  }

  ghost predicate RuleIsKeyOrder(q: uint16) {
    forall a: uint16, b: uint16 | Proper(a) && Proper(b) && a != b ::
      PrefersDensity(a, b, q) <==> DensityKey(a, q) > DensityKey(b, q)
  }

  /** Densities of which the first is preferred to the second and the second to the third, but not the first
    * to the third; none is one of the special values. */
  predicate Unordered(a: uint16, b: uint16, c: uint16, q: uint16) {
    && Proper(a) && Proper(b) && Proper(c) && DENSITY_MEDIUM !in {a, b, c} && a != b && b != c && a != c
    && PrefersDensity(a, b, q) && PrefersDensity(b, c, q) && !PrefersDensity(a, c, q)
  }

  /** The rule across the request is one comparison of wrapped products. */
  lemma RuleAcross(l: uint16, h: uint16, q: uint16, p: int, s: int)
    requires l < q < h && (2 * l - q) * h == p && q * q == s
    ensures PrefersDensity(l, h, q) <==> Int32(p) > Int32(s)
    ensures PrefersDensity(h, l, q) <==> !PrefersDensity(l, h, q)
  {
    hide Int32;
  }

  lemma RuleAbove(a: uint16, c: uint16, q: uint16)
    requires q < c < a
    ensures !PrefersDensity(a, c, q)
  {
  }

  /** The last density whose product with the one just below the request fits 32 bits. */
  lemma WrapPoint(q: uint16) returns (h: uint16)
    requires 32772 <= q <= 46340
    ensures 46341 <= h < 65533
    ensures (q - 2) * h <= 0x7fff_ffff < (q - 2) * (h + 1)
  {
    var d := 0x7fff_ffff / (q - 2);
    QuotientBound(q - 2, d, 0x7fff_ffff);
    QuotientBound(q - 2, d + 1, 0x7fff_ffff);
    QuotientBound(q - 2, 65533, 0x7fff_ffff);
    QuotientBound(q - 2, 46341, 0x7fff_ffff);
    MulOrder(65533, 32770, q - 2);
    MulOrder(46341, q - 2, 46338);
    h := d;
  }

  /** Where the square of the request fits 32 bits, the densities on either side of that point. */
  lemma ProductWraps(q: uint16) returns (h: uint16)
    requires 32772 <= q <= 46340
    ensures 46341 <= h < 65533 && Unordered(h + 1, q - 1, h, q)
  {
    h := WrapPoint(q);
    var p, s := (q - 2) * h, q * q;
    JustBelow(q, h);
    JustBelow(q, h + 1);
    assert (q - 2) * (h + 1) == p + (q - 2);
    SquareFits(q);
    hide PrefersDensity;
    RuleAcross(q - 1, h, q, p, s);
    RuleAcross(q - 1, h + 1, q, p + (q - 2), s);
    RuleAbove(h + 1, h, q);
    WrapsBetween(q - 2, p, s);
  }

  lemma JustBelow(q: int, h: int)
    ensures (2 * (q - 1) - q) * h == (q - 2) * h
  {
    assert 2 * (q - 1) - q == q - 2;
  }

  lemma SquareFits(q: uint16)
    requires q <= 46340
    ensures q * q <= 46340 * 46340
  {
    MulRange(q, q, 46340, 46340);
  }

  /** The smaller product still looks larger than the square, the other no longer does. */
  lemma WrapsBetween(k: int, p: int, s: int)
    requires 0 < k < 46340 && p <= 0x7fff_ffff < p + k && 0 <= s <= 46340 * 46340
    ensures Int32(p) > Int32(s) > Int32(p + k)
  {
  }

  /** Where the square wraps but its product with the smallest density does not look larger. */
  lemma SquareWraps(q: uint16)
    requires 46342 <= q <= 65532
    ensures Unordered(1, q + 1, q - 1, q)
  {
    MulRange(q, q, 65532, 65532);
    MulOrder(q, 46342, q);
    MulOrder(46342, 46342, q);
    assert (2 - q) * (q + 1) == -(q * q - q - 2);
    assert (2 * (q - 1) - q) * (q + 1) == q * q - q - 2;
  }

  lemma UnorderedBeyond(q: uint16) returns (a: uint16, b: uint16, c: uint16)
    requires !Orderable(q) && q != DENSITY_ANY
    ensures Unordered(a, b, c, q)
  {
    if q == 32771 {
      a, b, c := 65535, 32770, 65533;
    } else if q <= 46340 {
      c := ProductWraps(q);
      a, b := c + 1, q - 1;
    } else if q == 46341 {
      a, b, c := 46343, 46340, 46342;
    } else if q <= 65532 {
      SquareWraps(q);
      a, b, c := 1, q + 1, q - 1;
    } else {
      a, b, c := 1, 65535, 65532;
    }
  }

  /** The density rule is the order of the keys at the orderable requests, and at every other it is no order
    * at all. */
  lemma RuleIsOrderIffOrderable(q: uint16)
    requires Proper(q)
    ensures RuleIsKeyOrder(q) <==> Orderable(q)
    ensures RuleIsTransitive(q) <==> Orderable(q)
  {
    hide PrefersDensity, DensityKey;
    if Orderable(q) {
      forall a: uint16, b: uint16 | Proper(a) && Proper(b) && a != b
        ensures PrefersDensity(a, b, q) <==> DensityKey(a, q) > DensityKey(b, q)
      {
        DensityRuleIsKeyOrder(a, b, q);
      }
      KeyOrderIsTransitive(q);
    } else {
      var a, b, c := UnorderedBeyond(q);
    }
  }

  lemma KeyOrderIsTransitive(q: uint16)
    requires Proper(q) && RuleIsKeyOrder(q)
    ensures RuleIsTransitive(q)
  {
    hide PrefersDensity, DensityKey;
    forall a: uint16, b: uint16, c: uint16
      | Proper(a) && Proper(b) && Proper(c) && PrefersDensity(a, b, q) && PrefersDensity(b, c, q)
      ensures PrefersDensity(a, c, q)
    {
      assert a != b ==> DensityKey(a, q) > DensityKey(b, q);
      assert b != c ==> DensityKey(b, q) > DensityKey(c, q);
    }
  }

  // ----- each axis compares keys -----

  predicate ComparesKeys(axis: Axis, a: Config, b: Config, r: Config) {
    var ka, kb := Key(axis, a, r), Key(axis, b, r);
    Judge(axis, a, b, r) == if ka == kb then Undecided else Decided(ka > kb)
  }

  /** On configurations the device accepts, an axis without an exception compares the keys. */
  lemma AxisComparesKeys(axis: Axis, a: Config, b: Config, r: Config)
    requires Matches(a, r) && Matches(b, r) && InRange(r)
    requires !ClashesOn(axis, a, b, r) && !StopsOn(axis, a, b, r)
    ensures ComparesKeys(axis, a, b, r)
  {
    match axis
    case Density => DensityComparesKeys(a, b, r);
    case Mcc | Mnc | Language | Country | ScriptAxis | VariantAxis => LocaleComparesKeys(axis, a, b, r);
    case LayoutDirection | SmallestWidth | SizeDp | LayoutSize | LayoutLong => ScreenComparesKeys(axis, a, b, r);
    case Orientation | UiModeType | UiModeNight | Touchscreen => ModeComparesKeys(axis, a, b, r);
    case KeysHiddenAxis | NavHiddenAxis | Keyboard | Navigation => InputComparesKeys(axis, a, b, r);
    case SizePx | Sdk | Minor => VersionComparesKeys(axis, a, b, r);
  }

  lemma LocaleComparesKeys(axis: Axis, a: Config, b: Config, r: Config)
    requires axis in {Mcc, Mnc, Language, Country, ScriptAxis, VariantAxis}
    requires Matches(a, r) && Matches(b, r) && !ClashesOn(axis, a, b, r)
    ensures ComparesKeys(axis, a, b, r)
  {
  }

  lemma ScreenComparesKeys(axis: Axis, a: Config, b: Config, r: Config)
    requires axis in {LayoutDirection, SmallestWidth, SizeDp, LayoutSize, LayoutLong}
    requires Matches(a, r) && Matches(b, r)
    ensures ComparesKeys(axis, a, b, r)
  {
  }

  lemma ModeComparesKeys(axis: Axis, a: Config, b: Config, r: Config)
    requires axis in {Orientation, UiModeType, UiModeNight, Touchscreen}
    requires Matches(a, r) && Matches(b, r)
    ensures ComparesKeys(axis, a, b, r)
  {
  }

  lemma InputComparesKeys(axis: Axis, a: Config, b: Config, r: Config)
    requires axis in {KeysHiddenAxis, NavHiddenAxis, Keyboard, Navigation}
    requires Matches(a, r) && Matches(b, r)
    ensures ComparesKeys(axis, a, b, r)
  {
  }

  lemma VersionComparesKeys(axis: Axis, a: Config, b: Config, r: Config)
    requires axis in {SizePx, Sdk, Minor}
    requires Matches(a, r) && Matches(b, r)
    ensures ComparesKeys(axis, a, b, r)
  {
  }

  lemma DensityComparesKeys(a: Config, b: Config, r: Config)
    requires InRange(r) && !ClashesOn(Density, a, b, r) && !StopsOn(Density, a, b, r)
    ensures ComparesKeys(Density, a, b, r)
  {
    var mine, other, q := EffectiveDensity(a.density), EffectiveDensity(b.density), RequestedDensity(r);
    if a.density != b.density {
      assert mine != other;
      if mine == DENSITY_ANY || other == DENSITY_ANY {
        DensityKeyNegative(if mine == DENSITY_ANY then other else mine, q);
      } else {
        DensityRuleIsKeyOrder(mine, other, q);
      }
    }
  }

  lemma DensityKeyNegative(d: uint16, q: uint16)
    requires d >= 1 && d != DENSITY_ANY
    ensures DensityKey(d, q) < 0
  {
    if 1 <= d < q { LevelIsAbove(d, q); }
  }

  // ----- the whole comparison -----

  /** Without a clash the comparison is the lexicographic order of the keys, cut short where it stops. */
  lemma {:induction false} DecideIsKeyOrder(axes: seq<Axis>, a: Config, b: Config, r: Config)
    requires Matches(a, r) && Matches(b, r) && InRange(r)
    requires !ClashIn(axes, a, b, r)
    ensures Decide(axes, a, b, r) == (KeysAbove(axes, a, b, r) && !StopIn(axes, a, b, r))
  {
    if axes != [] {
      if !StopsOn(axes[0], a, b, r) {
        AxisComparesKeys(axes[0], a, b, r);
        if Key(axes[0], a, r) == Key(axes[0], b, r) {
          DecideIsKeyOrder(axes[1..], a, b, r);
        } else {
          NoStopPastDifference(axes, a, b, r);
        }
      }
    }
  }

  lemma NoStopPastDifference(axes: seq<Axis>, a: Config, b: Config, r: Config)
    requires axes != [] && Key(axes[0], a, r) != Key(axes[0], b, r)
    ensures !StopIn(axes, a, b, r)
  {
  }

  /** Two accepted configurations are each better than the other exactly when they clash. */
  lemma {:induction false} MutuallyBetterIffClash(axes: seq<Axis>, a: Config, b: Config, r: Config)
    requires Matches(a, r) && Matches(b, r) && InRange(r)
    ensures Decide(axes, a, b, r) && Decide(axes, b, a, r) <==> ClashIn(axes, a, b, r)
  {
    if axes != [] && !ClashesOn(axes[0], a, b, r) {
      if !StopsOn(axes[0], a, b, r) {
        AxisComparesKeys(axes[0], a, b, r);
        AxisComparesKeys(axes[0], b, a, r);
        if Key(axes[0], a, r) == Key(axes[0], b, r) {
          MutuallyBetterIffClash(axes[1..], a, b, r);
        }
      } else {
        StopIsNoClash(axes, a, b, r);
      }
    }
  }

  /** A stopped comparison prefers neither side, whatever the later axes say. */
  lemma StopIsNoClash(axes: seq<Axis>, a: Config, b: Config, r: Config)
    requires axes != [] && StopsOn(axes[0], a, b, r)
    ensures !Decide(axes, a, b, r) && !Decide(axes, b, a, r)
  {
  }

  // ----- order properties -----

  lemma {:induction false} KeysAboveTransitive(axes: seq<Axis>, a: Config, b: Config, c: Config, r: Config)
    requires KeysAbove(axes, a, b, r) && KeysAbove(axes, b, c, r)
    ensures KeysAbove(axes, a, c, r)
  {
    if Key(axes[0], a, r) == Key(axes[0], b, r) == Key(axes[0], c, r) {
      KeysAboveTransitive(axes[1..], a, b, c, r);
    }
  }

  lemma {:induction false} KeysAboveTotal(axes: seq<Axis>, a: Config, b: Config, r: Config)
    ensures KeysAbove(axes, a, b, r) || KeysAbove(axes, b, a, r) || SameKeys(axes, a, b, r)
    ensures SameKeys(axes, a, b, r) ==> !KeysAbove(axes, a, b, r)
  {
    if axes != [] {
      KeysAboveTotal(axes[1..], a, b, r);
    }
  }

  /** Equal density keys mean equal effective densities. */
  lemma DensityKeyInjective(a: Config, b: Config, r: Config)
    requires InRange(r) && Key(Density, a, r) == Key(Density, b, r)
    ensures EffectiveDensity(a.density) == EffectiveDensity(b.density)
  {
    var x, y, q := EffectiveDensity(a.density), EffectiveDensity(b.density), RequestedDensity(r);
    if x != y {
      if x == DENSITY_ANY || y == DENSITY_ANY {
        DensityKeyNegative(if x == DENSITY_ANY then y else x, q);
      } else {
        DensityRuleIsKeyOrder(x, y, q);
      }
    }
  }

  /** A configuration between two others on the keys cannot let both neighbours decide
    * while the outer comparison stops. */
  lemma {:induction false} StopIsNotBridged(axes: seq<Axis>, a: Config, b: Config, c: Config, r: Config)
    requires InRange(r)
    requires KeysAbove(axes, a, b, r) && KeysAbove(axes, b, c, r)
    requires !StopIn(axes, a, b, r) && !StopIn(axes, b, c, r)
    ensures !StopIn(axes, a, c, r)
  {
    if Key(axes[0], a, r) == Key(axes[0], c, r) {
      if StopsOn(axes[0], a, c, r) {
        DensityKeyInjective(a, b, r);
      } else {
        StopIsNotBridged(axes[1..], a, b, c, r);
      }
    }
  }

  /** No pair of the sequence clashes. */
  predicate NoClash(configs: seq<Config>, r: Config) {
    forall a, b | a in configs && b in configs :: !Clash(a, b, r)
  }

  predicate AllMatch(configs: seq<Config>, r: Config) {
    forall c | c in configs :: Matches(c, r)
  }

  /** On accepted configurations isBetterThan is a strict partial order exactly when no two clash. */
  lemma StrictPartialOrderIffNoClash(configs: seq<Config>, r: Config)
    requires AllMatch(configs, r) && InRange(r)
    ensures NoClash(configs, r) <==> StrictPartialOrder(configs, r)
  {
    forall a, b | a in configs && b in configs
      ensures Clash(a, b, r) <==> IsBetterThan(a, b, r) && IsBetterThan(b, a, r)
    {
      MutuallyBetterIffClash(AXES, a, b, r);
    }
    if NoClash(configs, r) {
      forall a, b, c | a in configs && b in configs && c in configs && IsBetterThan(a, b, r) && IsBetterThan(b, c, r)
        ensures IsBetterThan(a, c, r)
      {
        BetterIsTransitive(a, b, c, r);
      }
    }
  }

  lemma BetterIsTransitive(a: Config, b: Config, c: Config, r: Config)
    requires Matches(a, r) && Matches(b, r) && Matches(c, r) && InRange(r)
    requires !Clash(a, b, r) && !Clash(b, c, r) && !Clash(a, c, r)
    requires IsBetterThan(a, b, r) && IsBetterThan(b, c, r)
    ensures IsBetterThan(a, c, r)
  {
    DecideIsKeyOrder(AXES, a, b, r);
    DecideIsKeyOrder(AXES, b, c, r);
    DecideIsKeyOrder(AXES, a, c, r);
    KeysAboveTransitive(AXES, a, b, c, r);
    StopIsNotBridged(AXES, a, b, c, r);
  }

  // ----- ties -----

  predicate Tied(a: Config, b: Config, r: Config) {
    !IsBetterThan(a, b, r) && !IsBetterThan(b, a, r)
  }

  lemma {:induction false} StopIsSymmetric(axes: seq<Axis>, a: Config, b: Config, r: Config)
    ensures StopIn(axes, a, b, r) <==> StopIn(axes, b, a, r)
  {
    if axes != [] {
      StopIsSymmetric(axes[1..], a, b, r);
    }
  }

  lemma {:induction false} ClashIsSymmetric(axes: seq<Axis>, a: Config, b: Config, r: Config)
    ensures ClashIn(axes, a, b, r) <==> ClashIn(axes, b, a, r)
  {
    if axes != [] {
      ClashIsSymmetric(axes[1..], a, b, r);
    }
  }

  /** Without a clash two configurations are tied exactly when the comparison stops or all keys agree. */
  lemma TiedIffStopOrSameKeys(a: Config, b: Config, r: Config)
    requires Matches(a, r) && Matches(b, r) && InRange(r) && !Clash(a, b, r)
    ensures Tied(a, b, r) <==> StopIn(AXES, a, b, r) || SameKeys(AXES, a, b, r)
  {
    hide Matches, SameKeys, StopIn, KeysAbove, ClashIn, Decide, InRange;
    ClashIsSymmetric(AXES, a, b, r);
    StopIsSymmetric(AXES, a, b, r);
    DecideIsKeyOrder(AXES, a, b, r);
    DecideIsKeyOrder(AXES, b, a, r);
    KeysAboveTotal(AXES, a, b, r);
    KeysAboveTotal(AXES, b, a, r);
    SameKeysSymmetric(a, b, r);
  }

  lemma SameKeysSymmetric(a: Config, b: Config, r: Config)
    ensures SameKeys(AXES, a, b, r) <==> SameKeys(AXES, b, a, r)
  {
    hide Key;
  }

  lemma {:induction false} StopMeansDefault(axes: seq<Axis>, a: Config, b: Config, r: Config)
    requires StopIn(axes, a, b, r)
    ensures MixesDefaultDensity(a, b) && RequestedDensity(r) < DENSITY_MEDIUM
  {
    if !StopsOn(axes[0], a, b, r) {
      StopMeansDefault(axes[1..], a, b, r);
    }
  }

  /** Where the keys agree, a comparison that could stop does. */
  lemma {:induction false} SameKeysStop(axes: seq<Axis>, a: Config, b: Config, r: Config)
    requires Density in axes && SameKeys(axes, a, b, r) && StopsOn(Density, a, b, r)
    ensures StopIn(axes, a, b, r)
  {
    hide Key;
    if axes[0] != Density {
      SameKeysStop(axes[1..], a, b, r);
    }
  }

  /** A comparison stops for a configuration with the same keys and density, too. */
  lemma {:induction false} StopCarries(axes: seq<Axis>, a: Config, b: Config, c: Config, r: Config)
    requires SameKeys(axes, a, b, r) && a.density == b.density && StopIn(axes, b, c, r)
    ensures StopIn(axes, a, c, r)
  {
    hide Key;
    if !StopsOn(axes[0], b, c, r) {
      StopCarries(axes[1..], a, b, c, r);
    }
  }

  /** Of two configurations with the same keys that do not stop, one stops with a third as the other does. */
  lemma StopPasses(a: Config, b: Config, c: Config, r: Config)
    requires InRange(r) && SameKeys(AXES, a, b, r) && !StopIn(AXES, a, b, r) && StopIn(AXES, b, c, r)
    ensures StopIn(AXES, a, c, r)
  {
    hide Key, StopIn;
    StopMeansDefault(AXES, b, c, r);
    assert Density in AXES by { assert AXES[14] == Density; }
    DensityKeyInjective(a, b, r);
    if MixesDefaultDensity(a, b) {
      SameKeysStop(AXES, a, b, r);
    }
    StopCarries(AXES, a, b, c, r);
  }

  /** Two configurations that both stop with a third do not stop with each other. */
  lemma StopsWithThird(a: Config, b: Config, c: Config, r: Config)
    requires StopIn(AXES, a, c, r) && StopIn(AXES, b, c, r)
    ensures !StopIn(AXES, a, b, r)
  {
    hide StopIn;
    StopMeansDefault(AXES, a, c, r);
    StopMeansDefault(AXES, b, c, r);
    if StopIn(AXES, a, b, r) {
      StopMeansDefault(AXES, a, b, r);
    }
  }

  predicate TiesAreTransitive(configs: seq<Config>, r: Config) {
    forall a, b, c | a in configs && b in configs && c in configs :: Tied(a, b, r) && Tied(b, c, r) ==> Tied(a, c, r)
  }

  /** Configurations whose comparison with the same third one stops agree on all keys. */
  predicate StopsAgree(configs: seq<Config>, r: Config) {
    forall a, b, c | a in configs && b in configs && c in configs ::
      StopIn(AXES, a, c, r) && StopIn(AXES, b, c, r) ==> SameKeys(AXES, a, b, r)
  }

  /** Without clashes, ties are transitive exactly when comparisons that stop at the same configuration
    * agree on all keys. */
  lemma TiesAreTransitiveIff(configs: seq<Config>, r: Config)
    requires AllMatch(configs, r) && InRange(r) && NoClash(configs, r)
    ensures TiesAreTransitive(configs, r) <==> StopsAgree(configs, r)
  {
    hide Matches, Clash, StopIn, SameKeys, Tied, InRange;
    forall a, b | a in configs && b in configs
      ensures Tied(a, b, r) <==> StopIn(AXES, a, b, r) || SameKeys(AXES, a, b, r)
      ensures StopIn(AXES, a, b, r) <==> StopIn(AXES, b, a, r)
    {
      TiedIffStopOrSameKeys(a, b, r);
      StopIsSymmetric(AXES, a, b, r);
    }
    forall a, b, c | a in configs && b in configs && c in configs && StopsAgree(configs, r) && Tied(a, b, r) && Tied(b, c, r)
      ensures Tied(a, c, r)
    {
      TiePasses(a, b, c, r);
    }
    forall a, b, c | a in configs && b in configs && c in configs && TiesAreTransitive(configs, r)
                     && StopIn(AXES, a, c, r) && StopIn(AXES, b, c, r)
      ensures SameKeys(AXES, a, b, r)
    {
      assert Tied(a, c, r) && Tied(c, b, r);
      StopsWithThird(a, b, c, r);
    }
  }

  lemma TiePasses(a: Config, b: Config, c: Config, r: Config)
    requires InRange(r)
    requires StopIn(AXES, a, b, r) || SameKeys(AXES, a, b, r)
    requires StopIn(AXES, b, c, r) || SameKeys(AXES, b, c, r)
    requires StopIn(AXES, a, b, r) && StopIn(AXES, c, b, r) ==> SameKeys(AXES, a, c, r)
    ensures StopIn(AXES, a, c, r) || SameKeys(AXES, a, c, r)
  {
    hide StopIn, InRange;
    StopIsSymmetric(AXES, a, b, r);
    StopIsSymmetric(AXES, b, c, r);
    StopIsSymmetric(AXES, a, c, r);
    if StopIn(AXES, a, b, r) {
      if !StopIn(AXES, b, c, r) {
        SameKeysSymmetric(b, c, r);
        StopIsSymmetric(AXES, c, b, r);
        StopPasses(c, b, a, r);
        StopIsSymmetric(AXES, c, a, r);
      }
    } else if StopIn(AXES, b, c, r) {
      StopPasses(a, b, c, r);
    } else {
      SameKeysTransitive(a, b, c, r);
    }
  }

  lemma SameKeysTransitive(a: Config, b: Config, c: Config, r: Config)
    requires SameKeys(AXES, a, b, r) && SameKeys(AXES, b, c, r)
    ensures SameKeys(AXES, a, c, r)
  {
    hide Key;
  }

  predicate StrictPartialOrder(configs: seq<Config>, r: Config) {
    && (forall a | a in configs :: !IsBetterThan(a, a, r))
    && (forall a, b | a in configs && b in configs :: IsBetterThan(a, b, r) ==> !IsBetterThan(b, a, r))
    && (forall a, b, c | a in configs && b in configs && c in configs ::
          IsBetterThan(a, b, r) && IsBetterThan(b, c, r) ==> IsBetterThan(a, c, r))
  }

  /** On accepted configurations isBetterThan is a strict weak order exactly when no two clash and stopping
    * comparisons agree. */
  lemma StrictWeakOrderIff(configs: seq<Config>, r: Config)
    requires AllMatch(configs, r) && InRange(r)
    ensures StrictPartialOrder(configs, r) && TiesAreTransitive(configs, r) <==>
            NoClash(configs, r) && StopsAgree(configs, r)
  {
    hide AllMatch, InRange, NoClash, StopsAgree, TiesAreTransitive, StrictPartialOrder;
    StrictPartialOrderIffNoClash(configs, r);
    if NoClash(configs, r) {
      TiesAreTransitiveIff(configs, r);
    }
  }

  /** Configurations that agree before an axis and clash on it clash as a whole. */
  lemma {:induction false} ClashFromAxis(axes: seq<Axis>, i: nat, a: Config, b: Config, r: Config)
    requires i < |axes| && ClashesOn(axes[i], a, b, r)
    requires forall j | 0 <= j < i :: Key(axes[j], a, r) == Key(axes[j], b, r) && !StopsOn(axes[j], a, b, r)
    ensures ClashIn(axes, a, b, r)
  {
    if i > 0 {
      ClashFromAxis(axes[1..], i - 1, a, b, r);
    }
  }

  // ----- clashes and third parties -----

  /** Clashes only arise on the script, the variant and the density, none of which comes after the density. */
  lemma {:induction false} NoLateClash(i: nat, a: Config, b: Config, r: Config)
    requires 15 <= i <= |AXES|
    ensures !ClashIn(AXES[i..], a, b, r)
    decreases |AXES| - i
  {
    hide Key;
    if i < |AXES| {
      NoLateClash(i + 1, a, b, r);
      assert AXES[i..][1..] == AXES[i + 1..];
    }
  }

  /** On an axis on which two configurations clash, a third that clashes with neither there has another key. */
  lemma ThirdKeyDiffers(axis: Axis, x: Config, y: Config, z: Config, r: Config)
    requires InRange(r) && ClashesOn(axis, x, y, r) && !ClashesOn(axis, z, x, r) && !ClashesOn(axis, z, y, r)
    ensures Key(axis, z, r) != Key(axis, x, r) == Key(axis, y, r)
    ensures !StopsOn(axis, z, x, r) && !StopsOn(axis, z, y, r)
  {
    if axis == Density && Key(axis, z, r) == Key(axis, x, r) {
      DensityKeyInjective(z, x, r);
    }
  }

  /** What a comparison of one configuration with two that clash comes to, from the i-th axis on. */
  ghost predicate SameForBoth(i: nat, x: Config, y: Config, z: Config, r: Config)
    requires i <= |AXES|
  {
    var axes := AXES[i..];
    && (Decide(axes, z, x, r) <==> KeysAbove(axes, z, x, r)) && (Decide(axes, x, z, r) <==> !KeysAbove(axes, z, x, r))
    && (KeysAbove(axes, z, x, r) <==> KeysAbove(axes, z, y, r))
  }

  /** A configuration that clashes with neither of two clashing ones is better than both or worse than both,
    * on an axis no later than the one on which they clash. */
  lemma {:induction false} DecidedBeforeClash(i: nat, x: Config, y: Config, z: Config, r: Config)
    requires i <= |AXES| && Matches(x, r) && Matches(y, r) && Matches(z, r) && InRange(r)
    requires ClashIn(AXES[i..], x, y, r) && !ClashIn(AXES[i..], z, x, r) && !ClashIn(AXES[i..], z, y, r)
    ensures SameForBoth(i, x, y, z, r)
    decreases |AXES| - i
  {
    RestOfAxes(i, x, y, z, r);
    hide Key, Judge, Matches, InRange, ClashesOn, StopsOn, AXES;
    var axes := AXES[i..];
    AxisOfClash(axes, x, y, z, r);
    if Key(axes[0], z, r) == Key(axes[0], x, r) {
      DecidedBeforeClash(i + 1, x, y, z, r);
    }
  }

  /** After the density there are no clashes. */
  lemma RestOfAxes(i: nat, x: Config, y: Config, z: Config, r: Config)
    requires i <= |AXES| && ClashIn(AXES[i..], x, y, r)
    ensures i < |AXES| && AXES[i..][1..] == AXES[i + 1..]
    ensures AXES[i] == Density ==> !ClashIn(AXES[i..][1..], x, y, r)
  {
    hide Key, ClashesOn, StopsOn;
    assert i < |AXES| && AXES[i..][1..] == AXES[i + 1..];
    if AXES[i] == Density {
      NoLateClash(i + 1, x, y, r);
    }
  }

  /** One axis of it: the two have the same key, the third compares by keys, and where it does not differ
    * from them they clash later. */
  lemma AxisOfClash(axes: seq<Axis>, x: Config, y: Config, z: Config, r: Config)
    requires Matches(x, r) && Matches(y, r) && Matches(z, r) && InRange(r)
    requires ClashIn(axes, x, y, r) && !ClashIn(axes, z, x, r) && !ClashIn(axes, z, y, r)
    requires axes[0] == Density ==> !ClashIn(axes[1..], x, y, r)
    ensures Key(axes[0], x, r) == Key(axes[0], y, r)
    ensures ComparesKeys(axes[0], z, x, r) && ComparesKeys(axes[0], x, z, r)
    ensures Key(axes[0], z, r) == Key(axes[0], x, r) ==>
              ClashIn(axes[1..], x, y, r) && !ClashIn(axes[1..], z, x, r) && !ClashIn(axes[1..], z, y, r)
  {
    hide Key, Judge, Matches, InRange, ClashesOn;
    var axis := axes[0];
    NoClashReversed(axis, x, z, r);
    if ClashesOn(axis, x, y, r) {
      ThirdKeyDiffers(axis, x, y, z, r);
    }
    AxisComparesKeys(axis, z, x, r);
    AxisComparesKeys(axis, x, z, r);
  }

  lemma NoClashReversed(axis: Axis, a: Config, b: Config, r: Config)
    ensures ClashesOn(axis, a, b, r) <==> ClashesOn(axis, b, a, r)
    ensures StopsOn(axis, a, b, r) <==> StopsOn(axis, b, a, r)
  {
  }

  /** The same for whole comparisons. */
  lemma ThirdParty(x: Config, y: Config, z: Config, r: Config)
    requires Matches(x, r) && Matches(y, r) && Matches(z, r) && InRange(r)
    requires Clash(x, y, r) && !Clash(z, x, r) && !Clash(z, y, r)
    ensures IsBetterThan(z, x, r) <==> KeysAbove(AXES, z, x, r)
    ensures IsBetterThan(x, z, r) <==> !IsBetterThan(z, x, r)
    ensures IsBetterThan(z, x, r) <==> IsBetterThan(z, y, r)
  {
    hide Matches, InRange, ClashIn, Decide, KeysAbove;
    assert AXES[0..] == AXES;
    ClashIsSymmetric(AXES, x, y, r);
    DecidedBeforeClash(0, x, y, z, r);
    DecidedBeforeClash(0, y, x, z, r);
  }

  const PLAIN: Config := Config(
    0, 0, [0, 0], [0, 0], 0, 0, 0, 0, 0, 0, 0, 0, 0, 0, 0, 0, 0, 0, 0, 0,
    [0, 0, 0, 0], [0, 0, 0, 0, 0, 0, 0, 0])

  /** Clashes exist: two configurations that only set a script, say Latin and Cyrillic, are each
    * better than the other on every device that sets a script. */
  lemma ScriptsClash(a: Config, b: Config, r: Config)
    requires a == PLAIN.(localeScript := a.localeScript) && a.localeScript[0] != 0
    requires b == PLAIN.(localeScript := b.localeScript) && b.localeScript[0] != 0
    requires a.localeScript[0] != b.localeScript[0]
    requires r.localeScript[0] != 0 && InRange(r)
    ensures Matches(a, r) && Matches(b, r)
    ensures IsBetterThan(a, b, r) && IsBetterThan(b, a, r)
  {
    ClashFromAxis(AXES, 4, a, b, r);
    MutuallyBetterIffClash(AXES, a, b, r);
  }

  /** Where the comparison stops, ties are no equivalence: on a touch device below 160 dpi a
    * configuration with explicit 160 dpi ties with both a touchscreen one and a plain one, yet
    * touch beats plain. */
  lemma StopBreaksTies(touch: Config, plain: Config, medium: Config, r: Config)
    requires r == PLAIN.(density := r.density, touchscreen := r.touchscreen)
    requires 0 < r.density < DENSITY_MEDIUM && r.touchscreen != 0
    requires touch == PLAIN.(touchscreen := r.touchscreen) && plain == PLAIN
    requires medium == PLAIN.(density := DENSITY_MEDIUM)
    ensures Matches(touch, r) && Matches(plain, r) && Matches(medium, r)
    ensures IsBetterThan(touch, plain, r)
    ensures !IsBetterThan(touch, medium, r) && !IsBetterThan(medium, touch, r)
    ensures !IsBetterThan(plain, medium, r) && !IsBetterThan(medium, plain, r)
  {
    DefaultStops(touch, medium, r);
    DefaultStops(medium, touch, r);
    DefaultStops(plain, medium, r);
    DefaultStops(medium, plain, r);
    TouchBeatsPlain(touch, plain, r);
  }

  lemma TouchBeatsPlain(touch: Config, plain: Config, r: Config)
    requires r == PLAIN.(density := r.density, touchscreen := r.touchscreen) && r.touchscreen != 0
    requires touch == PLAIN.(touchscreen := r.touchscreen) && plain == PLAIN
    ensures IsBetterThan(touch, plain, r)
  {
    DecidedAt(AXES, 15, touch, plain, r);
  }

  lemma DefaultStops(a: Config, b: Config, r: Config)
    requires a == PLAIN.(touchscreen := a.touchscreen, density := a.density)
    requires b == PLAIN.(touchscreen := b.touchscreen, density := b.density)
    requires r == PLAIN.(density := r.density, touchscreen := r.touchscreen) && 0 < r.density < DENSITY_MEDIUM
    requires MixesDefaultDensity(a, b)
    ensures !IsBetterThan(a, b, r)
  {
    DecidedAt(AXES, 14, a, b, r);
  }

  lemma {:induction false} DecidedAt(axes: seq<Axis>, i: nat, a: Config, b: Config, r: Config)
    requires i < |axes| && Judge(axes[i], a, b, r).Decided?
    requires forall j | 0 <= j < i :: Judge(axes[j], a, b, r).Undecided?
    ensures Decide(axes, a, b, r) == Judge(axes[i], a, b, r).better
  {
    if i > 0 {
      DecidedAt(axes[1..], i - 1, a, b, r);
    }
  }

  // ----- requests at which isBetterThan is an order -----

  function OfDensity(d: uint16): Config { PLAIN.(density := d) }

  /** Configurations that set only a density are compared by the density rule. */
  lemma DensityDecides(x: uint16, y: uint16, r: Config)
    requires Proper(x) && Proper(y) && x != y
    ensures IsBetterThan(OfDensity(x), OfDensity(y), r) <==> PrefersDensity(x, y, RequestedDensity(r))
  {
    hide PrefersDensity;
    DecidedAt(AXES, 14, OfDensity(x), OfDensity(y), r);
  }

  lemma DensityMatches(x: uint16, r: Config)
    ensures Matches(OfDensity(x), r)
  {
  }

  lemma {:induction false} DensitiesNeverClash(axes: seq<Axis>, x: uint16, y: uint16, r: Config)
    requires Proper(x) && Proper(y) && x != DENSITY_MEDIUM && y != DENSITY_MEDIUM
    ensures !ClashIn(axes, OfDensity(x), OfDensity(y), r)
  {
    hide Key;
    if axes != [] {
      DensitiesNeverClash(axes[1..], x, y, r);
    }
  }

  lemma DensitiesDoNotClash(x: uint16, y: uint16, r: Config)
    requires Proper(x) && Proper(y) && x != DENSITY_MEDIUM && y != DENSITY_MEDIUM
    ensures !Clash(OfDensity(x), OfDensity(y), r)
  {
    DensitiesNeverClash(AXES, x, y, r);
  }

  /** Three configurations without a clash that the device accepts and isBetterThan does not order. */
  lemma UnorderedConfigs(r: Config) returns (configs: seq<Config>)
    requires !InRange(r)
    ensures AllMatch(configs, r) && NoClash(configs, r) && !StrictPartialOrder(configs, r)
  {
    hide Matches, Clash, IsBetterThan, PrefersDensity, OfDensity;
    var x, y, z := UnorderedBeyond(RequestedDensity(r));
    var a, b, c := OfDensity(x), OfDensity(y), OfDensity(z);
    configs := [a, b, c];
    DensityMatches(x, r);
    DensityMatches(y, r);
    DensityMatches(z, r);
    forall d, e | d in configs && e in configs
      ensures !Clash(d, e, r)
    {
      var m: uint16 := if d == a then x else if d == b then y else z;
      var n: uint16 := if e == a then x else if e == b then y else z;
      assert d == OfDensity(m) && e == OfDensity(n);
      DensitiesDoNotClash(m, n, r);
    }
    DensityDecides(x, y, r);
    DensityDecides(y, z, r);
    DensityDecides(x, z, r);
    assert a in configs && b in configs && c in configs;
  }

  /** The requests for which a set of accepted configurations without clashes is always ordered. */
  lemma AlwaysOrderedIffInRange(r: Config)
    ensures InRange(r) <==> forall configs | AllMatch(configs, r) && NoClash(configs, r) :: StrictPartialOrder(configs, r)
  {
    hide AllMatch, NoClash, StrictPartialOrder, InRange;
    if InRange(r) {
      forall configs | AllMatch(configs, r) && NoClash(configs, r)
        ensures StrictPartialOrder(configs, r)
      {
        StrictPartialOrderIffNoClash(configs, r);
      }
    } else {
      var configs := UnorderedConfigs(r);
    }
  }
}
