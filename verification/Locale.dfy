/** Locales of a configuration (libs/androidfw/ResourceTypes.cpp): languages and regions packed into two
  * bytes, printed as a BCP 47 tag and parsed back.
  */
module Locale {
  type Byte = bv8
  type Text = seq<Byte>

  const HYPHEN: Byte := 0x2d
  const HIGH_BIT: Byte := 0x80
  const LANGUAGE_BASE: Byte := 0x61  // 'a'
  const REGION_BASE: Byte := 0x30    // '0'

  predicate IsLower(b: Byte) { 0x61 <= b <= 0x7a }

  predicate IsUpper(b: Byte) { 0x41 <= b <= 0x5a }

  predicate IsDigit(b: Byte) { 0x30 <= b <= 0x39 }

  function ToLower(b: Byte): Byte { if IsUpper(b) then b + 0x20 else b }

  function ToUpper(b: Byte): Byte { if IsLower(b) then b - 0x20 else b }

  // ----- two bytes for two or three letters -----

  type Packed = t: Text | |t| == 2 witness [0, 0]

  // The two packed bytes, and the three values in them.

  function PackedHigh(second: Byte, third: Byte): Byte { HIGH_BIT | (third << 2) | (second >> 3) }

  function PackedLow(first: Byte, second: Byte): Byte { (second << 5) | first }

  function First(p1: Byte): Byte { p1 & 0x1f }

  function Second(p0: Byte, p1: Byte): Byte { ((p1 & 0xe0) >> 5) + ((p0 & 0x03) << 3) }

  function Third(p0: Byte): Byte { (p0 & 0x7c) >> 2 }

  /** packLanguageOrRegion: two letters as they are, three in five bits each under a set high bit. */
  function Pack(text: Text, base: Byte): Packed
    requires |text| == 2 || |text| == 3
  {
    if |text| == 2 then text
    else
      var first, second, third := Value(text[0], base), Value(text[1], base), Value(text[2], base);
      [PackedHigh(second, third), PackedLow(first, second)]
  }

  /** unpackLanguageOrRegion. */
  function Unpack(p: Packed, base: Byte): (text: Text)
    ensures p[0] != 0 ==> |text| == 2 || |text| == 3
  {
    if IsThree(p) then [Letter(First(p[1]), base), Letter(Second(p[0], p[1]), base), Letter(Third(p[0]), base)]
    else if p[0] != 0 then p
    else []
  }

  /** A character whose distance to the base fits five bits. */
  predicate InRange(b: Byte, base: Byte) { b - base < 32 }

  // Values and letters.

  function Value(b: Byte, base: Byte): Byte { (b - base) & 0x7f }

  function Letter(x: Byte, base: Byte): Byte { x + base }

  predicate IsThree(p: Packed) { p[0] & HIGH_BIT != 0 }

  // Fifteen bits go in and the same come out.

  lemma FirstBack(x: Byte, y: Byte)
    requires x < 32
    ensures First(PackedLow(x, y)) == x
  {
  }

  lemma SecondParts(x: Byte, y: Byte, z: Byte)
    requires x < 32 && y < 32
    ensures (PackedLow(x, y) & 0xe0) >> 5 == y & 7 && PackedHigh(y, z) & 0x03 == y >> 3
  {
  }

  lemma SecondBack(x: Byte, y: Byte, z: Byte)
    requires x < 32 && y < 32
    ensures Second(PackedHigh(y, z), PackedLow(x, y)) == y
  {
    SecondParts(x, y, z);
    hide PackedHigh, PackedLow;
    assert (y & 7) + ((y >> 3) << 3) == y;
  }

  lemma ThirdBack(y: Byte, z: Byte)
    requires y < 32 && z < 32
    ensures Third(PackedHigh(y, z)) == z
  {
  }

  lemma OnlyFiveBits(p0: Byte, p1: Byte)
    ensures First(p1) < 32 && Second(p0, p1) < 32 && Third(p0) < 32
  {
  }

  lemma HighBitSet(y: Byte, z: Byte, low: Byte)
    ensures IsThree([PackedHigh(y, z), low])
  {
  }

  /** A letter in range is the letter of its value. */
  lemma LetterBack(b: Byte, base: Byte)
    requires InRange(b, base)
    ensures Value(b, base) < 32 && Letter(Value(b, base), base) == b
  {
    SmallMask(b - base);
  }

  lemma SmallMask(x: Byte)
    requires x < 32
    ensures x & 0x7f == x
  {
  }

  /** The letter of a value under 32 is in range. */
  lemma LetterInRange(x: Byte, base: Byte)
    requires x < 32
    ensures InRange(Letter(x, base), base)
  {
  }

  lemma ValueBack(x: Byte, base: Byte)
    requires x < 32
    ensures Value(Letter(x, base), base) == x
  {
  }

  /** Three characters survive packing exactly when each is within 32 of the base. */
  lemma PackThenUnpack(a: Byte, b: Byte, c: Byte, base: Byte)
    ensures Unpack(Pack([a, b, c], base), base) == [a, b, c] <==> InRange(a, base) && InRange(b, base) && InRange(c, base)
    ensures IsThree(Pack([a, b, c], base))
  {
    hide PackedHigh, PackedLow, First, Second, Third, Value, Letter, InRange, IsThree;
    var x, y, z := Value(a, base), Value(b, base), Value(c, base);
    var p := Pack([a, b, c], base);
    assert p == [PackedHigh(y, z), PackedLow(x, y)];
    HighBitSet(y, z, PackedLow(x, y));
    OnlyFiveBits(p[0], p[1]);
    LetterInRange(First(p[1]), base);
    LetterInRange(Second(p[0], p[1]), base);
    LetterInRange(Third(p[0]), base);
    if InRange(a, base) && InRange(b, base) && InRange(c, base) {
      LetterBack(a, base);
      LetterBack(b, base);
      LetterBack(c, base);
      FirstBack(x, y);
      SecondBack(x, y, z);
      ThirdBack(y, z);
    }
  }

  /** Two bytes with the high bit set are the packing of what they unpack to. */
  lemma UnpackThenPack(p: Packed, base: Byte)
    requires IsThree(p)
    ensures |Unpack(p, base)| == 3 && Pack(Unpack(p, base), base) == p
  {
    hide PackedHigh, PackedLow, First, Second, Third, Value, Letter;
    OnlyFiveBits(p[0], p[1]);
    ValueBack(First(p[1]), base);
    ValueBack(Second(p[0], p[1]), base);
    ValueBack(Third(p[0]), base);
    HighBack(p[0], p[1]);
    LowBack(p[0], p[1]);
  }

  lemma HighBack(p0: Byte, p1: Byte)
    requires p0 & HIGH_BIT != 0
    ensures PackedHigh(Second(p0, p1), Third(p0)) == p0
  {
  }

  lemma LowBack(p0: Byte, p1: Byte)
    ensures PackedLow(First(p1), Second(p0, p1)) == p1
  {
  }

  // ----- tags -----

  /** The locale of a configuration: fixed-size fields, zero-filled. */
  datatype Config = Config(language: Packed, country: Packed, script: Script, variant: Variant)

  type Script = t: Text | |t| == 4 witness [0, 0, 0, 0]
  type Variant = t: Text | |t| == 8 witness [0, 0, 0, 0, 0, 0, 0, 0]

  const ANY := Config([0, 0], [0, 0], [0, 0, 0, 0], [0, 0, 0, 0, 0, 0, 0, 0])

  /** One more component of a tag. */
  function Add(str: Text, part: Text): Text {
    if str == [] then part else str + [HYPHEN] + part
  }

  /** The bytes getBcp47Locale writes. */
  function Written(c: Config): Text {
    if c.language[0] == 0 && c.country[0] == 0 then []
    else
      var s0 := if c.language[0] != 0 then Unpack(c.language, LANGUAGE_BASE) else [];
      var s1 := if c.script[0] != 0 then Add(s0, c.script) else s0;
      var s2 := if c.country[0] != 0 then Add(s1, Unpack(c.country, REGION_BASE)) else s1;
      if c.variant[0] != 0 then Add(s2, c.variant) else s2
  }

  /** A text up to its terminating zero. */
  function CString(t: Text): (s: Text)
    ensures s <= t && 0 !in s
  {
    if t == [] || t[0] == 0 then [] else [t[0]] + CString(t[1..])
  }

  /** getBcp47Locale. */
  function GetBcp47Locale(c: Config): Text {
    CString(Written(c))
  }

  /** assignLocaleComponent: the size of a component says what it is; others are ignored. */
  function Assign(c: Config, part: Text): Config {
    if |part| == 2 || |part| == 3 then
      if c.language[0] != 0 then c.(country := Pack(part, REGION_BASE)) else c.(language := Pack(part, LANGUAGE_BASE))
    else if |part| == 4 then
      c.(script := [ToUpper(part[0]), ToLower(part[1]), ToLower(part[2]), ToLower(part[3])])
    else if 5 <= |part| <= 8 then c.(variant := Lowered(part) + c.variant[|part|..])
    else c
  }

  function Lowered(t: Text): (r: Text)
    ensures |r| == |t|
  {
    seq(|t|, i requires 0 <= i < |t| => ToLower(t[i]))
  }

  /** Where the first hyphen from a position on is, or the end. */
  function HyphenFrom(t: Text, i: nat): (h: nat)
    requires i <= |t|
    ensures i <= h <= |t| && (h < |t| ==> t[h] == HYPHEN)
    ensures forall k | i <= k < h :: t[k] != HYPHEN
    decreases |t| - i
  {
    if i == |t| || t[i] == HYPHEN then i else HyphenFrom(t, i + 1)
  }

  /** The components of a tag from a position on, assigned one after the other. */
  function AssignFrom(c: Config, tag: Text, start: nat): Config
    requires start <= |tag|
    decreases |tag| - start
  {
    var h := HyphenFrom(tag, start);
    var next := Assign(c, tag[start..h]);
    if h == |tag| then next else AssignFrom(next, tag, h + 1)
  }

  class ResTableConfig {
    var locale: Config

    /** setBcp47Locale: the fields are cleared, then filled component by component. */
    method SetBcp47Locale(tag: Text)
      modifies this
      ensures locale == AssignFrom(ANY, tag, 0)
    {
      hide Assign, HyphenFrom;
      locale := ANY;
      var start := 0;
      var separator := HyphenFrom(tag, 0);
      while separator < |tag|
        invariant 0 <= start <= separator <= |tag| && separator == HyphenFrom(tag, start)
        invariant AssignFrom(locale, tag, start) == AssignFrom(ANY, tag, 0)
        decreases |tag| - separator
      {
        AssignComponent(tag[start..separator]);
        start := separator + 1;
        separator := HyphenFrom(tag, start);
      }
      assert tag[start..] == tag[start..|tag|];
      AssignComponent(tag[start..]);
    }

    method LowerInto(start: Variant, part: Text) returns (variant: Variant)
      requires |part| <= 8
      ensures variant == Lowered(part) + start[|part|..]
    {
      variant := start;
      for i := 0 to |part|
        invariant variant == Lowered(part)[..i] + start[i..]
      {
        variant := variant[i := ToLower(part[i])];
      }
    }

    method AssignComponent(part: Text)
      modifies this
      ensures locale == Assign(old(locale), part)
    {
      hide Pack, Lowered, ToLower, ToUpper;
      var size := |part|;
      if size == 2 || size == 3 {
        if locale.language[0] != 0 {
          locale := locale.(country := Pack(part, REGION_BASE));
        } else {
          locale := locale.(language := Pack(part, LANGUAGE_BASE));
        }
      } else if size == 4 {
        var script: Script := [ToUpper(part[0]), ToLower(part[1]), ToLower(part[2]), ToLower(part[3])];
        locale := locale.(script := script);
      } else if 5 <= size <= 8 {
        var variant := LowerInto(locale.variant, part);
        locale := locale.(variant := variant);
      }
    }
  }

  // ----- round trip -----

  /** A text of some components: no hyphen, no zero. */
  predicate Plain(t: Text) {
    HYPHEN !in t && 0 !in t
  }

  /** Two or three lower-case letters (the two-letter form stored as it is), or nothing. */
  predicate LanguageOk(l: Packed) {
    || l == [0, 0]
    || (IsLower(l[0]) && IsLower(l[1]))
    || (IsThree(l) && forall b | b in Unpack(l, LANGUAGE_BASE) :: IsLower(b))
  }

  /** Two upper-case letters or three digits, or nothing. */
  predicate RegionOk(r: Packed) {
    || r == [0, 0]
    || (IsUpper(r[0]) && IsUpper(r[1]))
    || (IsThree(r) && forall b | b in Unpack(r, REGION_BASE) :: IsDigit(b))
  }

  /** Four letters in title case, or nothing. */
  predicate ScriptOk(s: Script) {
    s == [0, 0, 0, 0] || (IsUpper(s[0]) && IsLower(s[1]) && IsLower(s[2]) && IsLower(s[3]))
  }

  /** Five to eight lower-case letters or digits, or nothing; zeros after. */
  predicate VariantOk(v: Variant) {
    var t := CString(v);
    && (t == [] || |t| >= 5) && (forall b | b in t :: IsLower(b) || IsDigit(b))
    && forall i | |t| <= i < 8 :: v[i] == 0
  }

  predicate WellFormed(c: Config) {
    LanguageOk(c.language) && RegionOk(c.country) && ScriptOk(c.script) && VariantOk(c.variant)
  }

  /** One more component is assigned last. */
  lemma {:induction false} AddIsAssigned(c: Config, str: Text, part: Text, k: nat)
    requires HYPHEN !in part && k <= |str|
    ensures AssignFrom(c, str + [HYPHEN] + part, k) == Assign(AssignFrom(c, str, k), part)
    decreases |str| - k
  {
    hide Assign;
    var tag := str + [HYPHEN] + part;
    var h := HyphenFrom(str, k);
    HyphenIs(tag, k, h);
    assert tag[k..h] == str[k..h];
    if h < |str| {
      AddIsAssigned(Assign(c, str[k..h]), str, part, h + 1);
    } else {
      HyphenIs(tag, h + 1, |tag|);
      TailOf(str + [HYPHEN], part);
    }
  }

  lemma TailOf(a: Text, b: Text)
    ensures (a + b)[|a|..|a + b|] == b
  {
  }

  lemma HyphenIs(t: Text, i: nat, h: nat)
    requires i <= h <= |t| && (h < |t| ==> t[h] == HYPHEN) && forall k | i <= k < h :: t[k] != HYPHEN
    ensures HyphenFrom(t, i) == h
  {
  }

  lemma Assigned(str: Text, part: Text)
    requires HYPHEN !in part
    ensures AssignFrom(ANY, Add(str, part), 0) == Assign(AssignFrom(ANY, str, 0), part)
  {
    hide Assign;
    if str == [] {
      HyphenIs(part, 0, |part|);
      assert part[0..|part|] == part;
      NothingAssigned();
    } else {
      AddIsAssigned(ANY, str, part, 0);
    }
  }

  lemma NothingAssigned()
    ensures AssignFrom(ANY, [], 0) == ANY
  {
  }

  lemma {:induction false} CStringAppend(a: Text, b: Text)
    requires 0 !in a
    ensures CString(a + b) == a + CString(b)
  {
    if a == [] {
      assert a + b == b;
    } else {
      assert (a + b)[1..] == a[1..] + b;
      CStringAppend(a[1..], b);
    }
  }

  lemma CStringAdd(str: Text, part: Text)
    requires 0 !in str
    ensures CString(Add(str, part)) == Add(str, CString(part))
  {
    if str != [] {
      CStringAppend(str + [HYPHEN], part);
    }
  }

  // What each component of a well-formed locale reads back as.

  lemma PlainLanguage(l: Packed)
    requires LanguageOk(l) && l[0] != 0
    ensures var t := Unpack(l, LANGUAGE_BASE);
            Plain(t) && (|t| == 2 || |t| == 3) && Pack(t, LANGUAGE_BASE) == l
  {
    hide First, Second, Third, PackedLow, PackedHigh, Value, Letter;
    if IsThree(l) {
      UnpackThenPack(l, LANGUAGE_BASE);
    } else {
      LowLetters(l[0]);
    }
  }

  lemma PlainRegion(r: Packed)
    requires RegionOk(r) && r[0] != 0
    ensures var t := Unpack(r, REGION_BASE);
            Plain(t) && (|t| == 2 || |t| == 3) && Pack(t, REGION_BASE) == r && Pack(t, LANGUAGE_BASE)[0] != 0
  {
    hide First, Second, Third, PackedLow, PackedHigh, Value, Letter;
    var t := Unpack(r, REGION_BASE);
    if IsThree(r) {
      UnpackThenPack(r, REGION_BASE);
      PackThenUnpack(t[0], t[1], t[2], LANGUAGE_BASE);
      assert t == [t[0], t[1], t[2]];
      ThreeIsSomething(Pack(t, LANGUAGE_BASE));
    } else {
      LowLetters(r[0]);
    }
  }

  lemma ThreeIsSomething(p: Packed)
    requires IsThree(p)
    ensures p[0] != 0
  {
  }

  lemma LowLetters(b: Byte)
    requires IsLower(b) || IsUpper(b)
    ensures b & HIGH_BIT == 0 && b != 0
  {
  }

  lemma ScriptReads(c: Config, s: Script)
    requires ScriptOk(s) && s[0] != 0
    ensures Plain(s) && Assign(c, s) == c.(script := s)
  {
  }

  lemma LowerKept(b: Byte)
    requires IsLower(b) || IsDigit(b)
    ensures ToLower(b) == b && b != HYPHEN
  {
  }

  lemma VariantReads(c: Config, v: Variant)
    requires VariantOk(v) && v[0] != 0 && c.variant == ANY.variant
    ensures Plain(CString(v)) && Assign(c, CString(v)) == c.(variant := v)
  {
    hide IsLower, IsDigit, ToLower;
    var t := CString(v);
    forall i | 0 <= i < |t|
      ensures ToLower(t[i]) == t[i] != HYPHEN
    {
      assert t[i] in t;
      LowerKept(t[i]);
    }
    assert Lowered(t) == t;
    assert t + c.variant[|t|..] == v;
  }

  /** What parsing gives back: everything, except that without a language the region is taken for one. */
  function ReadBack(c: Config): Config {
    if c.language[0] == 0 && c.country[0] == 0 then ANY
    else if c.language[0] == 0 then
      c.(language := Reread(c.country), country := [0, 0])
    else c
  }

  /** A region taken for a language. */
  function Reread(country: Packed): Packed {
    var t := Unpack(country, REGION_BASE);
    if |t| == 2 || |t| == 3 then Pack(t, LANGUAGE_BASE) else [0, 0]
  }

  /** The four components in turn. */
  lemma ReadsBack(c: Config)
    requires WellFormed(c)
    ensures AssignFrom(ANY, GetBcp47Locale(c), 0) == ReadBack(c)
  {
    hide Unpack, Pack, AssignFrom, CString, IsThree;
    NothingAssigned();
    EmptyFields(c);
    if c.language[0] == 0 && c.country[0] == 0 {
      EmptyString();
    } else {
      var s0 := if c.language[0] != 0 then Unpack(c.language, LANGUAGE_BASE) else [];
      var s1 := if c.script[0] != 0 then Add(s0, c.script) else s0;
      var s2 := if c.country[0] != 0 then Add(s1, Unpack(c.country, REGION_BASE)) else s1;
      var g0 := if c.language[0] != 0 then ANY.(language := c.language) else ANY;
      if c.language[0] != 0 {
        PlainLanguage(c.language);
        Assigned([], s0);
      }
      assert 0 !in s0 && AssignFrom(ANY, s0, 0) == g0;
      var g1 := g0.(script := c.script);
      if c.script[0] != 0 {
        ScriptReads(g0, c.script);
        Assigned(s0, c.script);
      }
      assert 0 !in s1 && AssignFrom(ANY, s1, 0) == g1;
      var g2 := if c.language[0] != 0 then g1.(country := c.country) else g1.(language := Reread(c.country));
      if c.country[0] != 0 {
        PlainRegion(c.country);
        Assigned(s1, Unpack(c.country, REGION_BASE));
      }
      assert 0 !in s2 && AssignFrom(ANY, s2, 0) == g2;
      LastComponent(c, s2, g2);
    }
  }

  /** The variant, which is written with its zeros. */
  lemma LastComponent(c: Config, str: Text, sofar: Config)
    requires VariantOk(c.variant) && 0 !in str && AssignFrom(ANY, str, 0) == sofar && sofar.variant == ANY.variant
    requires c.variant[0] == 0 ==> c.variant == ANY.variant
    ensures AssignFrom(ANY, CString(if c.variant[0] != 0 then Add(str, c.variant) else str), 0) == sofar.(variant := c.variant)
  {
    hide AssignFrom, Assign, VariantOk;
    if c.variant[0] != 0 {
      CStringAdd(str, c.variant);
      VariantReads(sofar, c.variant);
      Assigned(str, CString(c.variant));
    } else {
      CStringAppend(str, []);
      EmptyString();
      assert str + [] == str;
    }
  }

  lemma EmptyString()
    ensures CString([]) == []
  {
  }

  /** A field that starts with zero is all zeros. */
  lemma EmptyFields(c: Config)
    requires WellFormed(c)
    ensures c.language[0] == 0 ==> c.language == ANY.language
    ensures c.country[0] == 0 ==> c.country == ANY.country
    ensures c.script[0] == 0 ==> c.script == ANY.script
    ensures c.variant[0] == 0 ==> c.variant == ANY.variant
  {
    if IsThree(c.language) { ThreeIsSomething(c.language); }
    if IsThree(c.country) { ThreeIsSomething(c.country); }
    hide Unpack, IsThree;
    assert c.variant[0] == 0 ==> CString(c.variant) == [];
  }

  /** A well-formed locale survives printing and parsing exactly when it has a language or is no locale at
    * all. */
  lemma LocaleRoundTrip(c: Config)
    requires WellFormed(c)
    ensures AssignFrom(ANY, GetBcp47Locale(c), 0) == c <==> c.language[0] != 0 || c == ANY
  {
    hide AssignFrom, GetBcp47Locale, WellFormed;
    ReadsBack(c);
    if c.language[0] == 0 && c.country[0] != 0 {
      RereadIsSomething(c);
    }
  }

  lemma RereadIsSomething(c: Config)
    requires WellFormed(c) && c.country[0] != 0
    ensures Reread(c.country)[0] != 0
  {
    PlainRegion(c.country);
  }

  // ----- the format -----

  /** The two packed bytes as one number: the high bit, then five bits for the third, the second and the first
    * character, each as its distance from the base. */
  lemma PackedNumber(a: Byte, b: Byte, c: Byte, base: Byte)
    requires InRange(a, base) && InRange(b, base) && InRange(c, base)
    ensures var p := Pack([a, b, c], base);
            ((p[0] as bv16) << 8) | (p[1] as bv16)
            == 0x8000 | (((c - base) as bv16) << 10) | (((b - base) as bv16) << 5) | ((a - base) as bv16)
  {
    hide PackedHigh, PackedLow, Value, InRange;
    LetterBack(a, base);
    LetterBack(b, base);
    LetterBack(c, base);
    ValueIs(a, base);
    ValueIs(b, base);
    ValueIs(c, base);
    PackedBits(a - base, b - base, c - base);
  }

  lemma ValueIs(b: Byte, base: Byte)
    requires InRange(b, base)
    ensures Value(b, base) == b - base < 32
  {
    SmallMask(b - base);
  }

  lemma PackedBits(x: Byte, y: Byte, z: Byte)
    requires x < 32 && y < 32 && z < 32
    ensures ((PackedHigh(y, z) as bv16) << 8) | (PackedLow(x, y) as bv16)
         == 0x8000 | ((z as bv16) << 10) | ((y as bv16) << 5) | (x as bv16)
  {
  }

  /** The components that there are, with hyphens between them. */
  function Joined(parts: seq<Text>): Text {
    if parts == [] then []
    else
      var rest := Joined(parts[1..]);
      if parts[0] == [] then rest else if rest == [] then parts[0] else parts[0] + [HYPHEN] + rest
  }

  /** A well-formed locale is printed as language, script, region and variant, each if it is set; without language
    * and region nothing is. */
  lemma PrintedForm(c: Config)
    requires WellFormed(c)
    ensures GetBcp47Locale(c) ==
              if c.language == [0, 0] && c.country == [0, 0] then []
              else Joined([Unpack(c.language, 0x61), if c.script[0] != 0 then c.script else [],
                           Unpack(c.country, 0x30), CString(c.variant)])
  {
    hide Unpack, CString, IsThree, VariantOk, LanguageOk, RegionOk, WellFormed, Joined, Plain;
    EmptyFields(c);
    if c.language[0] != 0 || c.country[0] != 0 {
      var language, region := Unpack(c.language, 0x61), Unpack(c.country, 0x30);
      var script := if c.script[0] != 0 then c.script else [];
      PlainComponents(c);
      var str := Add3(language, script, region);
      assert Written(c) == if c.variant[0] != 0 then Add(str, c.variant) else str;
      JoinedIs(language, script, region, CString(c.variant));
      if c.variant[0] != 0 {
        CStringAdd(str, c.variant);
      } else {
        CStringAppend(str, []);
        EmptyString();
        assert str + [] == str;
      }
      VariantEmptyIff(c.variant);
    }
  }

  /** Three components in turn. */
  function Add3(a: Text, b: Text, c: Text): Text {
    var ab := if b != [] then Add(a, b) else a;
    if c != [] then Add(ab, c) else ab
  }

  lemma JoinedIs(a: Text, b: Text, c: Text, d: Text)
    ensures Joined([a, b, c, d]) == if d != [] then Add(Add3(a, b, c), d) else Add3(a, b, c)
  {
    hide Joined;
    JoinedCons(d, []);
    JoinedCons(c, [d]);
    JoinedCons(b, [c, d]);
    JoinedCons(a, [b, c, d]);
    assert [d] + [] == [d] && [c] + [d] == [c, d] && [b] + [c, d] == [b, c, d] && [a] + [b, c, d] == [a, b, c, d];
    JoinedNone();
  }

  lemma JoinedNone()
    ensures Joined([]) == []
  {
  }

  lemma JoinedCons(part: Text, rest: seq<Text>)
    ensures Joined([part] + rest) ==
              if part == [] then Joined(rest) else if Joined(rest) == [] then part else part + [HYPHEN] + Joined(rest)
  {
    assert ([part] + rest)[1..] == rest;
  }

  lemma VariantEmptyIff(v: Variant)
    ensures CString(v) == [] <==> v[0] == 0
  {
  }

  lemma PlainComponents(c: Config)
    requires WellFormed(c)
    ensures var language, region := Unpack(c.language, 0x61), Unpack(c.country, 0x30);
            && (language == [] <==> c.language[0] == 0) && (region == [] <==> c.country[0] == 0)
            && 0 !in language && 0 !in region && (c.script[0] != 0 ==> 0 !in c.script)
  {
    hide Unpack;
    if c.language[0] != 0 { PlainLanguage(c.language); } else { UnpackNothing(c.language, 0x61); }
    if c.country[0] != 0 { PlainRegion(c.country); } else { UnpackNothing(c.country, 0x30); }
  }

  lemma UnpackNothing(p: Packed, base: Byte)
    requires p[0] == 0
    ensures Unpack(p, base) == []
  {
  }

  /** The same letter, in whichever case. */
  predicate SameIgnoringCase(a: Byte, b: Byte) {
    a == b || (0x61 <= a <= 0x7a && b == a - 0x20) || (0x41 <= a <= 0x5a && b == a + 0x20)
  }

  /** What a component does, written in any case: two or three characters are the language or, when there is one, the
    * region, as they are; four are the script, in title case; five to eight start the variant, in lower case;
    * anything else is ignored. */
  lemma AssignMeans(c: Config, part: Text)
    ensures var after := Assign(c, part);
            if |part| in {2, 3} then
              var own, base := if c.language[0] == 0 then after.language else after.country,
                               if c.language[0] == 0 then 0x61 else 0x30;
              && after == (if c.language[0] == 0 then c.(language := own) else c.(country := own))
              && (|part| == 2 ==> own == part)
              && (|part| == 3 && (forall b | b in part :: InRange(b, base)) ==> Unpack(own, base) == part)
            else if |part| == 4 then
              && after == c.(script := after.script)
              && !(0x61 <= after.script[0] <= 0x7a)
              && (forall i | 0 < i < 4 :: !(0x41 <= after.script[i] <= 0x5a))
              && forall i | 0 <= i < 4 :: SameIgnoringCase(after.script[i], part[i])
            else if 5 <= |part| <= 8 then
              && after == c.(variant := after.variant) && after.variant[|part|..] == c.variant[|part|..]
              && forall i | 0 <= i < |part| ::
                   SameIgnoringCase(after.variant[i], part[i]) && !(0x41 <= after.variant[i] <= 0x5a)
            else after == c
  {
    hide First, Second, Third, PackedLow, PackedHigh, Value, Letter, InRange, IsThree, Unpack, Pack, ToLower, ToUpper;
    if |part| == 2 {
      TwoAsTheyAre(part, 0x61);
      TwoAsTheyAre(part, 0x30);
    } else if |part| == 3 {
      assert part == [part[0], part[1], part[2]] && part[0] in part && part[1] in part && part[2] in part;
      PackThenUnpack(part[0], part[1], part[2], 0x61);
      PackThenUnpack(part[0], part[1], part[2], 0x30);
    } else if 4 <= |part| <= 8 {
      CasesChange();
    }
  }

  lemma TwoAsTheyAre(part: Text, base: Byte)
    requires |part| == 2
    ensures Pack(part, base) == part
  {
  }

  lemma CasesChange()
    ensures forall b {:trigger ToLower(b)} :: SameIgnoringCase(ToLower(b), b) && !(0x41 <= ToLower(b) <= 0x5a)
    ensures forall b {:trigger ToUpper(b)} :: SameIgnoringCase(ToUpper(b), b) && !(0x61 <= ToUpper(b) <= 0x7a)
  {
  }
}
