/** Which configuration isBetterThan prefers, field by field.
  *
  * The other theorems about the comparison hold for any list of axes.  Here every property is
  * stated on the fields of the configurations alone: what match asks of each of them, and, for
  * each of them in the order of the original, what decides between two configurations that the
  * device accepts and that agree on everything looked at before it.
  */
module ResourcePrecedence {
  import opened Common
  import opened ResourceConfig

  // ----- the masked fields -----

  lemma LowBits(b: bv8)
    ensures (b & 0x03) as int == (b as int) % 4
  {
  }

  lemma LowNibble(b: bv8)
    ensures (b & 0x0f) as int == (b as int) % 16
  {
  }

  lemma LowSix(b: bv8)
    ensures (b & 0x3f) as int == (b as int) % 64
  {
  }

  lemma HighSix(b: bv8)
    ensures (b & 0xfc) as int == (b as int) / 4 * 4
  {
  }

  lemma HighNibble(b: bv8)
    ensures (b & 0xf0) as int == (b as int) / 16 * 16
  {
  }

  lemma HighBits(b: bv8)
    ensures (b & 0xc0) as int == (b as int) / 64 * 64
  {
  }

  /** The middle digit of a number written with a high, a middle and a low digit. */
  lemma MiddleOf(x: int, high: int, middle: int, low: int)
    requires x == 16 * middle + low + 64 * high && 0 <= low < 16 && 0 <= middle < 4
    ensures x % 64 / 16 * 16 == x / 16 % 4 * 16
  {
    assert x % 64 == 16 * middle + low;
    assert x / 16 == middle + 4 * high;
  }

  lemma LowMiddleOf(x: int, high: int, middle: int, low: int)
    requires x == 4 * middle + low + 16 * high && 0 <= low < 4 && 0 <= middle < 4
    ensures x % 16 / 4 * 4 == x / 4 % 4 * 4
  {
    assert x % 16 == 4 * middle + low;
    assert x / 4 == middle + 4 * high;
  }

  lemma Bits30(b: bv8, x: uint8)
    requires b as int == x
    ensures (b & 0x30) as int == x / 16 % 4 * 16
  {
    var six := b & 0x3f;
    assert b & 0x30 == six & 0xf0;
    LowSix(b);
    HighNibble(six);
    MiddleOf(x, x / 64, x % 64 / 16, x % 64 % 16);
  }

  lemma Bits0c(b: bv8, x: uint8)
    requires b as int == x
    ensures (b & 0x0c) as int == x / 4 % 4 * 4
  {
    var four := b & 0x0f;
    assert b & 0x0c == four & 0xfc;
    LowNibble(b);
    HighSix(four);
    LowMiddleOf(x, x / 16, x % 16 / 4, x % 16 % 4);
  }

  /** The parts of the packed bytes are what the masks of the original cut out of them. */
  lemma MaskedFields(c: Config, layout: bv8, mode: bv8, flags: bv8)
    requires layout as int == c.screenLayout && mode as int == c.uiMode && flags as int == c.inputFlags
    ensures (layout & 0x0f) as int == c.SizeClass()
    ensures (layout & 0x30) as int == c.LongClass()
    ensures (layout & 0xc0) as int == c.LayoutDir()
    ensures (mode & 0x0f) as int == c.UiType()
    ensures (mode & 0x30) as int == c.UiNight()
    ensures (flags & 0x03) as int == c.KeysHidden()
    ensures (flags & 0x0c) as int == c.NavHidden()
  {
    LowNibble(layout);
    LowNibble(mode);
    LowBits(flags);
    HighBits(layout);
    Bits30(layout, c.screenLayout);
    Bits30(mode, c.uiMode);
    Bits0c(flags, c.inputFlags);
  }

  // ----- what match asks of each field -----

  /** A device accepts a configuration exactly when every option the configuration sets is the device's,
    * no size or version exceeds the device's, and the keyboard is at most less hidden than it says.
    * Density, script and variant never reject. */
  lemma MatchesIff(c: Config, r: Config)
    ensures Matches(c, r) <==>
              && (c.mcc == 0 || c.mcc == r.mcc) && (c.mnc == 0 || c.mnc == r.mnc)
              && (c.language[0] == 0 || (c.language[0] == r.language[0] && c.language[1] == r.language[1]))
              && (c.country[0] == 0 || (c.country[0] == r.country[0] && c.country[1] == r.country[1]))
              && (c.LayoutDir() == 0 || c.LayoutDir() == r.LayoutDir())
              && c.SizeClass() <= r.SizeClass()
              && (c.LongClass() == 0 || c.LongClass() == r.LongClass())
              && (c.UiType() == 0 || c.UiType() == r.UiType())
              && (c.UiNight() == 0 || c.UiNight() == r.UiNight())
              && c.smallestScreenWidthDp <= r.smallestScreenWidthDp
              && c.screenWidthDp <= r.screenWidthDp && c.screenHeightDp <= r.screenHeightDp
              && (c.orientation == 0 || c.orientation == r.orientation)
              && (c.touchscreen == 0 || c.touchscreen == r.touchscreen)
              && (c.KeysHidden() == 0 || c.KeysHidden() == r.KeysHidden()
                  || (c.KeysHidden() == 1 && r.KeysHidden() == 3))
              && (c.NavHidden() == 0 || c.NavHidden() == r.NavHidden())
              && (c.keyboard == 0 || c.keyboard == r.keyboard)
              && (c.navigation == 0 || c.navigation == r.navigation)
              && c.screenWidth <= r.screenWidth && c.screenHeight <= r.screenHeight
              && c.sdkVersion <= r.sdkVersion && (c.minorVersion == 0 || c.minorVersion == r.minorVersion)
  {
    PairIff(c.language, r.language);
    PairIff(c.country, r.country);
  }

  lemma PairIff(own: Code, setting: Code)
    ensures own == setting <==> own[0] == setting[0] && own[1] == setting[1]
  {
  }

  // ----- agreement on the fields looked at so far, in the order of the original -----

  predicate SameImsi(a: Config, b: Config) {
    a.mcc == b.mcc && a.mnc == b.mnc
  }

  predicate SameLocale(a: Config, b: Config) {
    SameImsi(a, b) && a.language[0] == b.language[0] && a.country[0] == b.country[0]
  }

  /** A script or variant only counts on a device that has one. */
  predicate SameVariant(a: Config, b: Config, r: Config) {
    && SameLocale(a, b)
    && (r.localeScript[0] == 0 || a.localeScript[0] == b.localeScript[0])
    && (r.localeVariant[0] == 0 || a.localeVariant[0] == b.localeVariant[0])
  }

  predicate SameWidth(a: Config, b: Config, r: Config) {
    SameVariant(a, b, r) && a.LayoutDir() == b.LayoutDir() && a.smallestScreenWidthDp == b.smallestScreenWidthDp
  }

  predicate SameSizeDp(a: Config, b: Config, r: Config) {
    SameWidth(a, b, r) && a.screenWidthDp + a.screenHeightDp == b.screenWidthDp + b.screenHeightDp
  }

  predicate SameLayout(a: Config, b: Config, r: Config) {
    SameSizeDp(a, b, r) && a.SizeClass() == b.SizeClass() && a.LongClass() == b.LongClass()
  }

  predicate SameMode(a: Config, b: Config, r: Config) {
    && SameLayout(a, b, r)
    && a.orientation == b.orientation && a.UiType() == b.UiType() && a.UiNight() == b.UiNight()
  }

  predicate SameTouch(a: Config, b: Config, r: Config) {
    SameMode(a, b, r) && a.density == b.density && a.touchscreen == b.touchscreen
  }

  predicate SameHidden(a: Config, b: Config, r: Config) {
    SameTouch(a, b, r) && a.KeysHidden() == b.KeysHidden() && a.NavHidden() == b.NavHidden()
  }

  predicate SameInput(a: Config, b: Config, r: Config) {
    SameHidden(a, b, r) && a.keyboard == b.keyboard && a.navigation == b.navigation
  }

  predicate SameSize(a: Config, b: Config, r: Config) {
    SameInput(a, b, r) && a.screenWidth + a.screenHeight == b.screenWidth + b.screenHeight
  }

  // ----- the first difference decides -----

  /** None of the first i axes tells the two apart. */
  predicate Open(i: nat, a: Config, b: Config, r: Config) {
    i <= |AXES| && forall j | 0 <= j < i :: Judge(AXES[j], a, b, r).Undecided?
  }

  lemma OpenNext(i: nat, a: Config, b: Config, r: Config)
    requires Open(i, a, b, r) && i < |AXES| && Judge(AXES[i], a, b, r).Undecided?
    ensures Open(i + 1, a, b, r)
  {
    hide Judge;
  }

  lemma DecidedNext(i: nat, a: Config, b: Config, r: Config)
    requires Open(i, a, b, r) && i < |AXES| && Judge(AXES[i], a, b, r).Decided?
    ensures IsBetterThan(a, b, r) == Judge(AXES[i], a, b, r).better
  {
    hide Judge, AXES;
    DecidedAt(AXES, i, a, b, r);
  }

  lemma FirstAxes()
    ensures |AXES| == 23
    ensures AXES[0] == Mcc && AXES[1] == Mnc && AXES[2] == Language && AXES[3] == Country
    ensures AXES[4] == ScriptAxis && AXES[5] == VariantAxis && AXES[6] == LayoutDirection && AXES[7] == SmallestWidth
  {
  }

  lemma MiddleAxes()
    ensures |AXES| == 23
    ensures AXES[8] == SizeDp && AXES[9] == LayoutSize && AXES[10] == LayoutLong && AXES[11] == Orientation
    ensures AXES[12] == UiModeType && AXES[13] == UiModeNight && AXES[14] == Density && AXES[15] == Touchscreen
  {
  }

  lemma LastAxes()
    ensures |AXES| == 23
    ensures AXES[16] == KeysHiddenAxis && AXES[17] == NavHiddenAxis && AXES[18] == Keyboard && AXES[19] == Navigation
    ensures AXES[20] == SizePx && AXES[21] == Sdk && AXES[22] == Minor
  {
  }

  /** The mobile country code comes first, the network code next: being set is better. */
  lemma ImsiDecides(a: Config, b: Config, r: Config)
    requires Matches(a, r) && Matches(b, r)
    ensures a.mcc != b.mcc ==> (IsBetterThan(a, b, r) <==> a.mcc != 0)
    ensures a.mcc == b.mcc && a.mnc != b.mnc ==> (IsBetterThan(a, b, r) <==> a.mnc != 0)
  {
    hide AXES, IsBetterThan;
    FirstAxes();
    if a.mcc != b.mcc {
      DecidedNext(0, a, b, r);
    } else if a.mnc != b.mnc {
      OpenNext(0, a, b, r);
      DecidedNext(1, a, b, r);
    }
  }

  lemma OpenAfterImsi(a: Config, b: Config, r: Config)
    requires SameImsi(a, b)
    ensures Open(2, a, b, r)
  {
    hide AXES;
    FirstAxes();
    OpenNext(0, a, b, r);
    OpenNext(1, a, b, r);
  }

  /** Then the language, then the country. */
  lemma LocaleDecides(a: Config, b: Config, r: Config)
    requires Matches(a, r) && Matches(b, r) && SameImsi(a, b)
    ensures a.language[0] != b.language[0] ==> (IsBetterThan(a, b, r) <==> a.language[0] != 0)
    ensures a.language[0] == b.language[0] && a.country[0] != b.country[0] ==>
              (IsBetterThan(a, b, r) <==> a.country[0] != 0)
  {
    hide AXES, IsBetterThan, Open;
    FirstAxes();
    OpenAfterImsi(a, b, r);
    if a.language[0] != b.language[0] {
      DecidedNext(2, a, b, r);
    } else if a.country[0] != b.country[0] {
      OpenNext(2, a, b, r);
      DecidedNext(3, a, b, r);
    }
  }

  lemma OpenAfterLocale(a: Config, b: Config, r: Config)
    requires SameLocale(a, b)
    ensures Open(4, a, b, r)
  {
    hide AXES, Open;
    FirstAxes();
    OpenAfterImsi(a, b, r);
    OpenNext(2, a, b, r);
    OpenNext(3, a, b, r);
  }

  /** Then, on a device that has one, the script; then likewise the variant.  The device does not choose among
    * several: with different ones set on both, each configuration is better. */
  lemma VariantDecides(a: Config, b: Config, r: Config)
    requires Matches(a, r) && Matches(b, r) && SameLocale(a, b)
    ensures r.localeScript[0] != 0 && a.localeScript[0] != b.localeScript[0] ==>
              (IsBetterThan(a, b, r) <==> a.localeScript[0] != 0)
    ensures (r.localeScript[0] == 0 || a.localeScript[0] == b.localeScript[0])
            && r.localeVariant[0] != 0 && a.localeVariant[0] != b.localeVariant[0] ==>
              (IsBetterThan(a, b, r) <==> a.localeVariant[0] != 0)
  {
    hide AXES, IsBetterThan, Open, Matches;
    FirstAxes();
    OpenAfterLocale(a, b, r);
    if r.localeScript[0] != 0 && a.localeScript[0] != b.localeScript[0] {
      DecidedNext(4, a, b, r);
    } else if r.localeVariant[0] != 0 && a.localeVariant[0] != b.localeVariant[0] {
      OpenNext(4, a, b, r);
      DecidedNext(5, a, b, r);
    }
  }

  lemma OpenAfterVariant(a: Config, b: Config, r: Config)
    requires SameVariant(a, b, r)
    ensures Open(6, a, b, r)
  {
    hide AXES, Open;
    FirstAxes();
    OpenAfterLocale(a, b, r);
    OpenNext(4, a, b, r);
    OpenNext(5, a, b, r);
  }

  /** Then the layout direction, then the smallest width: the larger is better. */
  lemma WidthDecides(a: Config, b: Config, r: Config)
    requires Matches(a, r) && Matches(b, r) && SameVariant(a, b, r)
    ensures a.LayoutDir() != b.LayoutDir() ==> (IsBetterThan(a, b, r) <==> a.LayoutDir() > b.LayoutDir())
    ensures a.LayoutDir() == b.LayoutDir() && a.smallestScreenWidthDp != b.smallestScreenWidthDp ==>
              (IsBetterThan(a, b, r) <==> a.smallestScreenWidthDp > b.smallestScreenWidthDp)
  {
    hide AXES, IsBetterThan, Open;
    FirstAxes();
    OpenAfterVariant(a, b, r);
    if a.LayoutDir() != b.LayoutDir() {
      DecidedNext(6, a, b, r);
    } else if a.smallestScreenWidthDp != b.smallestScreenWidthDp {
      OpenNext(6, a, b, r);
      DecidedNext(7, a, b, r);
    }
  }

  lemma OpenAfterWidth(a: Config, b: Config, r: Config)
    requires SameWidth(a, b, r)
    ensures Open(8, a, b, r)
  {
    hide AXES, Open;
    FirstAxes();
    OpenAfterVariant(a, b, r);
    OpenNext(6, a, b, r);
    OpenNext(7, a, b, r);
  }

  /** On accepted configurations the difference to the device's size is smaller where the sum of the sides is
    * larger, whichever of them the device sets. */
  lemma DeltaIsSum(a: Config, b: Config, r: Config)
    requires Matches(a, r) && Matches(b, r)
    ensures DpDelta(a, r) - DpDelta(b, r) ==
            b.screenWidthDp + b.screenHeightDp - a.screenWidthDp - a.screenHeightDp
    ensures PxDelta(a, r) - PxDelta(b, r) ==
            b.screenWidth + b.screenHeight - a.screenWidth - a.screenHeight
  {
  }

  /** Then the screen size in dp: the larger sum of width and height is better. */
  lemma SizeDpDecides(a: Config, b: Config, r: Config)
    requires Matches(a, r) && Matches(b, r) && SameWidth(a, b, r)
    requires a.screenWidthDp + a.screenHeightDp != b.screenWidthDp + b.screenHeightDp
    ensures IsBetterThan(a, b, r) <==> a.screenWidthDp + a.screenHeightDp > b.screenWidthDp + b.screenHeightDp
  {
    hide AXES, IsBetterThan, Open, Matches, DpDelta;
    MiddleAxes();
    OpenAfterWidth(a, b, r);
    DeltaIsSum(a, b, r);
    DecidedNext(8, a, b, r);
  }

  lemma OpenAfterSizeDp(a: Config, b: Config, r: Config)
    requires Matches(a, r) && Matches(b, r) && SameSizeDp(a, b, r)
    ensures Open(9, a, b, r)
  {
    hide AXES, Open, Matches, DpDelta;
    MiddleAxes();
    OpenAfterWidth(a, b, r);
    DeltaIsSum(a, b, r);
    OpenNext(8, a, b, r);
  }

  /** Then the size class, where none counts as normal on a device of at least normal size: the larger is better,
    * and between the two normal ones the one that says so.  Then the aspect. */
  lemma LayoutDecides(a: Config, b: Config, r: Config, mine: int, other: int)
    requires Matches(a, r) && Matches(b, r) && SameSizeDp(a, b, r)
    requires mine == (if a.SizeClass() == 0 && r.SizeClass() >= 2 then 2 else a.SizeClass())
    requires other == (if b.SizeClass() == 0 && r.SizeClass() >= 2 then 2 else b.SizeClass())
    ensures a.SizeClass() != b.SizeClass() ==>
              (IsBetterThan(a, b, r) <==> mine > other || (mine == other && a.SizeClass() != 0))
    ensures a.SizeClass() == b.SizeClass() && a.LongClass() != b.LongClass() ==>
              (IsBetterThan(a, b, r) <==> a.LongClass() != 0)
  {
    hide AXES, IsBetterThan, Open;
    MiddleAxes();
    OpenAfterSizeDp(a, b, r);
    if a.SizeClass() != b.SizeClass() {
      DecidedNext(9, a, b, r);
    } else if a.LongClass() != b.LongClass() {
      OpenNext(9, a, b, r);
      DecidedNext(10, a, b, r);
    }
  }

  lemma OpenAfterLayout(a: Config, b: Config, r: Config)
    requires Matches(a, r) && Matches(b, r) && SameLayout(a, b, r)
    ensures Open(11, a, b, r)
  {
    hide AXES, Open, Matches;
    MiddleAxes();
    OpenAfterSizeDp(a, b, r);
    OpenNext(9, a, b, r);
    OpenNext(10, a, b, r);
  }

  /** Then the orientation, the mode type and the night mode: being set is better. */
  lemma ModeDecides(a: Config, b: Config, r: Config)
    requires Matches(a, r) && Matches(b, r) && SameLayout(a, b, r)
    ensures a.orientation != b.orientation ==> (IsBetterThan(a, b, r) <==> a.orientation != 0)
    ensures a.orientation == b.orientation && a.UiType() != b.UiType() ==>
              (IsBetterThan(a, b, r) <==> a.UiType() != 0)
    ensures a.orientation == b.orientation && a.UiType() == b.UiType() && a.UiNight() != b.UiNight() ==>
              (IsBetterThan(a, b, r) <==> a.UiNight() != 0)
  {
    hide AXES, IsBetterThan, Open;
    MiddleAxes();
    OpenAfterLayout(a, b, r);
    if a.orientation != b.orientation {
      DecidedNext(11, a, b, r);
    } else {
      OpenNext(11, a, b, r);
      if a.UiType() != b.UiType() {
        DecidedNext(12, a, b, r);
      } else if a.UiNight() != b.UiNight() {
        OpenNext(12, a, b, r);
        DecidedNext(13, a, b, r);
      }
    }
  }

  lemma OpenAfterMode(a: Config, b: Config, r: Config)
    requires Matches(a, r) && Matches(b, r) && SameMode(a, b, r)
    ensures Open(14, a, b, r)
  {
    hide AXES, Open, Matches;
    MiddleAxes();
    OpenAfterLayout(a, b, r);
    OpenNext(11, a, b, r);
    OpenNext(12, a, b, r);
    OpenNext(13, a, b, r);
  }

  /** Then the density.  "Any" is best.  Otherwise, none standing for 160 on both sides: of two that do not exceed
    * the device's the larger is better, of two that do not fall short of it the smaller, and of one below and one
    * above it the upper, unless the lower one's product outweighs the square - in 32-bit integers, which is the
    * plain product up to 32770 dpi. */
  lemma DensityDecides(a: Config, b: Config, r: Config, mine: uint16, other: uint16, q: uint16)
    requires SameMode(a, b, r) && Matches(a, r) && Matches(b, r) && a.density != b.density
    requires mine == (if a.density == 0 then 160 else a.density)
    requires other == (if b.density == 0 then 160 else b.density)
    requires q == (if r.density == 0 || r.density == 0xfffe then 160 else r.density)
    ensures a.density == 0xfffe ==> IsBetterThan(a, b, r)
    ensures b.density == 0xfffe ==> !IsBetterThan(a, b, r)
    ensures a.density != 0xfffe && b.density != 0xfffe ==>
              && (mine <= q && other <= q ==> (IsBetterThan(a, b, r) <==> mine >= other))
              && (mine >= q && other >= q && mine + other > 2 * q ==> (IsBetterThan(a, b, r) <==> mine < other))
              && (mine < q < other ==> (IsBetterThan(a, b, r) <==> Int32((2 * mine - q) * other) > Int32(q * q)))
              && (other < q < mine ==> (IsBetterThan(a, b, r) <==> Int32((2 * other - q) * mine) <= Int32(q * q)))
    ensures a.density != 0xfffe && b.density != 0xfffe && q <= 32770 ==>
              && (mine < q < other ==> (IsBetterThan(a, b, r) <==> (2 * mine - q) * other > q * q))
              && (other < q < mine ==> (IsBetterThan(a, b, r) <==> (2 * other - q) * mine <= q * q))
  {
    hide AXES, IsBetterThan, Open, Matches, Int32;
    MiddleAxes();
    OpenAfterMode(a, b, r);
    DecidedNext(14, a, b, r);
    if q <= 32770 {
      if mine < q < other { ProductsFit(mine, other, q); }
      if other < q < mine { ProductsFit(other, mine, q); }
    }
  }

  /** Then the touchscreen: being set is better. */
  lemma TouchDecides(a: Config, b: Config, r: Config)
    requires Matches(a, r) && Matches(b, r) && SameMode(a, b, r) && a.density == b.density
    requires a.touchscreen != b.touchscreen
    ensures IsBetterThan(a, b, r) <==> a.touchscreen != 0
  {
    hide AXES, IsBetterThan, Open;
    MiddleAxes();
    OpenAfterMode(a, b, r);
    OpenNext(14, a, b, r);
    DecidedNext(15, a, b, r);
  }

  lemma OpenAfterTouch(a: Config, b: Config, r: Config)
    requires Matches(a, r) && Matches(b, r) && SameTouch(a, b, r)
    ensures Open(16, a, b, r)
  {
    hide AXES, Open, Matches;
    MiddleAxes();
    OpenAfterMode(a, b, r);
    OpenNext(14, a, b, r);
    OpenNext(15, a, b, r);
  }

  /** Then whether the keyboard is hidden: being set is better, and of two that are set the device's own. */
  lemma KeysHiddenDecides(a: Config, b: Config, r: Config)
    requires Matches(a, r) && Matches(b, r) && SameTouch(a, b, r) && a.KeysHidden() != b.KeysHidden()
    ensures IsBetterThan(a, b, r) <==>
            a.KeysHidden() != 0 && (b.KeysHidden() == 0 || a.KeysHidden() == r.KeysHidden())
  {
    hide AXES, IsBetterThan, Open;
    LastAxes();
    OpenAfterTouch(a, b, r);
    DecidedNext(16, a, b, r);
  }

  /** Then whether the navigation is. */
  lemma NavHiddenDecides(a: Config, b: Config, r: Config)
    requires Matches(a, r) && Matches(b, r) && SameTouch(a, b, r)
    requires a.KeysHidden() == b.KeysHidden() && a.NavHidden() != b.NavHidden()
    ensures IsBetterThan(a, b, r) <==> a.NavHidden() != 0
  {
    hide AXES, IsBetterThan, Open;
    LastAxes();
    OpenAfterTouch(a, b, r);
    OpenNext(16, a, b, r);
    DecidedNext(17, a, b, r);
  }

  lemma OpenAfterHidden(a: Config, b: Config, r: Config)
    requires Matches(a, r) && Matches(b, r) && SameHidden(a, b, r)
    ensures Open(18, a, b, r)
  {
    hide AXES, Open, Matches;
    LastAxes();
    OpenAfterTouch(a, b, r);
    OpenNext(16, a, b, r);
    OpenNext(17, a, b, r);
  }

  /** Then the keyboard and the navigation: being set is better. */
  lemma InputDecides(a: Config, b: Config, r: Config)
    requires Matches(a, r) && Matches(b, r) && SameHidden(a, b, r)
    ensures a.keyboard != b.keyboard ==> (IsBetterThan(a, b, r) <==> a.keyboard != 0)
    ensures a.keyboard == b.keyboard && a.navigation != b.navigation ==>
              (IsBetterThan(a, b, r) <==> a.navigation != 0)
  {
    hide AXES, IsBetterThan, Open;
    LastAxes();
    OpenAfterHidden(a, b, r);
    if a.keyboard != b.keyboard {
      DecidedNext(18, a, b, r);
    } else if a.navigation != b.navigation {
      OpenNext(18, a, b, r);
      DecidedNext(19, a, b, r);
    }
  }

  lemma OpenAfterInput(a: Config, b: Config, r: Config)
    requires Matches(a, r) && Matches(b, r) && SameInput(a, b, r)
    ensures Open(20, a, b, r)
  {
    hide AXES, Open, Matches;
    LastAxes();
    OpenAfterHidden(a, b, r);
    OpenNext(18, a, b, r);
    OpenNext(19, a, b, r);
  }

  /** Then the screen size in pixels: the larger sum of width and height is better. */
  lemma SizeDecides(a: Config, b: Config, r: Config)
    requires Matches(a, r) && Matches(b, r) && SameInput(a, b, r)
    requires a.screenWidth + a.screenHeight != b.screenWidth + b.screenHeight
    ensures IsBetterThan(a, b, r) <==> a.screenWidth + a.screenHeight > b.screenWidth + b.screenHeight
  {
    hide AXES, IsBetterThan, Open, Matches, PxDelta;
    LastAxes();
    OpenAfterInput(a, b, r);
    DeltaIsSum(a, b, r);
    DecidedNext(20, a, b, r);
  }

  lemma OpenAfterSize(a: Config, b: Config, r: Config)
    requires Matches(a, r) && Matches(b, r) && SameSize(a, b, r)
    ensures Open(21, a, b, r)
  {
    hide AXES, Open, Matches, PxDelta;
    LastAxes();
    OpenAfterInput(a, b, r);
    DeltaIsSum(a, b, r);
    OpenNext(20, a, b, r);
  }

  /** Last the version: the higher one is better, then the one with a minor version; without any difference
    * neither is better. */
  lemma VersionDecides(a: Config, b: Config, r: Config)
    requires Matches(a, r) && Matches(b, r) && SameSize(a, b, r)
    ensures a.sdkVersion != b.sdkVersion ==> (IsBetterThan(a, b, r) <==> a.sdkVersion > b.sdkVersion)
    ensures a.sdkVersion == b.sdkVersion ==>
              (IsBetterThan(a, b, r) <==> a.minorVersion != 0 && b.minorVersion == 0)
  {
    hide AXES, IsBetterThan, Open;
    LastAxes();
    OpenAfterSize(a, b, r);
    if a.sdkVersion != b.sdkVersion {
      DecidedNext(21, a, b, r);
    } else {
      OpenNext(21, a, b, r);
      if a.minorVersion != b.minorVersion {
        DecidedNext(22, a, b, r);
      } else {
        OpenNext(22, a, b, r);
        NothingDecides(a, b, r);
      }
    }
  }

  lemma NothingDecides(a: Config, b: Config, r: Config)
    requires Open(23, a, b, r)
    ensures !IsBetterThan(a, b, r)
  {
    hide Judge, AXES;
    LastAxes();
    Undecidable(AXES, a, b, r);
  }

  lemma {:induction false} Undecidable(axes: seq<Axis>, a: Config, b: Config, r: Config)
    requires forall j | 0 <= j < |axes| :: Judge(axes[j], a, b, r).Undecided?
    ensures !Decide(axes, a, b, r)
  {
    hide Judge;
    if axes != [] {
      Undecidable(axes[1..], a, b, r);
    }
  }
}
