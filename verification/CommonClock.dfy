/** CommonClock: the transform from local to common time and its slewing, in exact rational
  * arithmetic.  LinearTransform itself is not part of this model: forward transformation is
  * b_zero + floor((a - a_zero) * numer / denom) and reduction is division by the greatest common
  * divisor.
  */
module CommonClock {
  import opened Common

  const COMMON_FREQ := 1000000

  // ----- divisors -----

  function Gcd(a: nat, b: nat): (g: nat)
    ensures a > 0 || b > 0 ==> g > 0
    decreases b
  {
    if b == 0 then a else Gcd(b, a % b)
  }

  /** Two numbers have no common divisor: 1 is a combination of them. */
  ghost predicate Coprime(a: int, b: int) {
    exists x: int, y: int :: Combination(a, x, b, y) == 1
  }

  function Combination(a: int, x: int, b: int, y: int): int { a * x + b * y }

  /** The gcd divides both numbers and is a combination of them. */
  lemma {:induction false} GcdFacts(a: nat, b: nat) returns (p: nat, q: nat, x: int, y: int)
    requires a > 0 || b > 0
    ensures Gcd(a, b) > 0 && a == p * Gcd(a, b) && b == q * Gcd(a, b)
    ensures Combination(a, x, b, y) == Gcd(a, b)
    decreases b
  {
    if b == 0 {
      p, q, x, y := 1, 0, 1, 0;
    } else {
      var k, m, g := a / b, a % b, Gcd(b, a % b);
      DivMod(a, b);
      assert Gcd(a, b) == g;
      var p', q', x', y' := GcdFacts(b, m);
      hide Gcd, Combination;
      p, q, x, y := GcdStep(a, b, k, m, g, p', q', x', y');
    }
  }

  lemma DivMod(a: nat, b: nat)
    requires b > 0
    ensures a == a / b * b + a % b && a / b >= 0 && 0 <= a % b < b
  {
  }

  lemma GcdStep(a: nat, b: nat, k: nat, m: nat, g: nat, p': nat, q': nat, x': int, y': int)
    returns (p: nat, q: nat, x: int, y: int)
    requires a == k * b + m && b == p' * g && m == q' * g && Combination(b, x', m, y') == g
    ensures a == p * g && b == q * g && Combination(a, x, b, y) == g
  {
    MulOrder(k, 0, p');
    p, q, x, y := k * p' + q', p', y', x' - k * y';
    MultipleStep(k, p', q', g);
    CombinationStep(a, b, k, m, x', y');
  }

  lemma MulOrder(k: int, x: int, y: int)
    requires k >= 0 && x <= y
    ensures k * x <= k * y
  {
  }

  lemma MultipleStep(k: int, p: int, q: int, g: int)
    ensures k * (p * g) + q * g == (k * p + q) * g
  {
    assert k * (p * g) == (k * p) * g;
  }

  lemma CombinationStep(a: int, b: int, k: int, m: int, x: int, y: int)
    requires a == k * b + m
    ensures Combination(a, y, b, x - k * y) == Combination(b, x, m, y)
  {
    assert a * y == k * b * y + m * y;
    assert b * (x - k * y) == b * x - k * b * y;
  }

  /** Dividing two numbers by their gcd makes them coprime and keeps their ratio. */
  lemma ReduceFacts(n: nat, d: nat)
    requires n > 0 && d > 0
    ensures Gcd(n, d) > 0
    ensures n / Gcd(n, d) > 0 && d / Gcd(n, d) > 0
    ensures n == n / Gcd(n, d) * Gcd(n, d) && d == d / Gcd(n, d) * Gcd(n, d)
    ensures Coprime(n / Gcd(n, d), d / Gcd(n, d))
  {
    var p, q, x, y := GcdFacts(n, d);
    var g := Gcd(n, d);
    QuotientExact(p, g);
    QuotientExact(q, g);
    Factor(g, p, x, q, y);
    CancelOne(g, p * x + q * y);
    assert Combination(p, x, q, y) == 1;
  }

  lemma Factor(g: int, p: int, x: int, q: int, y: int)
    ensures (p * g) * x + (q * g) * y == g * (p * x + q * y)
  {
    assert (p * g) * x == g * (p * x) && (q * g) * y == g * (q * y);
  }

  lemma QuotientExact(p: nat, g: nat)
    requires g > 0
    ensures p * g / g == p
  {
    var n := p * g;
    var d := n / g;
    assert g * d <= n < g * (d + 1) by { assert n == g * d + n % g; }
    if d < p {
      MulOrder(g, d + 1, p);
    } else if d > p {
      MulOrder(g, p + 1, d);
    }
  }

  lemma CancelOne(g: nat, z: int)
    requires g > 0 && g * z == g
    ensures z == 1
  {
    if z > 1 {
      MulOrder(g, 2, z);
    } else if z < 1 {
      MulOrder(g, z, 0);
    }
  }

  /** A factor of a number coprime to d is coprime to d. */
  lemma CoprimeFactor(p: int, k: int, d: int)
    requires Coprime(p * k, d)
    ensures Coprime(p, d)
  {
    var x, y :| Combination(p * k, x, d, y) == 1;
    assert p * (k * x) == (p * k) * x;
    assert Combination(p, k * x, d, y) == 1;
  }

  /** A number coprime to two numbers is coprime to their product. */
  lemma CoprimeProduct(n: int, c: int, d: int)
    requires Coprime(n, c) && Coprime(n, d)
    ensures Coprime(n, c * d)
  {
    var x, y :| Combination(n, x, c, y) == 1;
    var u, v :| Combination(n, u, d, v) == 1;
    calc {
      1;
      (n * x + c * y) * (n * u + d * v);
      { Expand(n, x, c * y, u, d * v); }
      n * (x * n * u + x * (d * v) + (c * y) * u) + (c * y) * (d * v);
      { assert (c * y) * (d * v) == (c * d) * (y * v) by { Regroup(c, y, d, v); } }
      n * (x * n * u + x * (d * v) + (c * y) * u) + (c * d) * (y * v);
    }
    assert Combination(n, x * n * u + x * (d * v) + (c * y) * u, c * d, y * v) == 1;
  }

  lemma Expand(n: int, x: int, cy: int, u: int, dv: int)
    ensures (n * x + cy) * (n * u + dv) == n * (x * n * u + x * dv + cy * u) + cy * dv
  {
    assert (n * x + cy) * (n * u + dv) == (n * x) * (n * u) + (n * x) * dv + cy * (n * u) + cy * dv;
    assert n * (x * n * u + x * dv + cy * u) == n * (x * n * u) + n * (x * dv) + n * (cy * u);
    assert (n * x) * (n * u) == n * (x * n * u);
  }

  lemma Regroup(c: int, y: int, d: int, v: int)
    ensures (c * y) * (d * v) == (c * d) * (y * v)
  {
    assert (c * y) * (d * v) == c * (y * (d * v));
    assert y * (d * v) == d * (y * v);
    assert c * (d * (y * v)) == (c * d) * (y * v);
  }

  // ----- the transform -----

  datatype Transform = Transform(aZero: int, bZero: int, numer: uint32, denom: uint32) {
    predicate Valid() { denom > 0 }
  }

  function Forward(t: Transform, a: int): int
    requires t.Valid()
  {
    t.bZero + (a - t.aZero) * t.numer / t.denom
  }

  /** LinearTransform::reduce. */
  function Reduce(n: nat, d: nat): (nat, nat)
    requires d > 0
  {
    (n / Gcd(n, d), d / Gcd(n, d))
  }

  /** The 32-bit numerator and denominator setSlew installs for the nominal rate n1/d1. */
  function SlewRate(n1: uint32, d1: uint32, ppm: int): (uint32, uint32)
    requires n1 > 0 && d1 > 0
  {
    var n2: uint32 := (1000000 + ppm) % 0x1_0000_0000;
    var (n1', d2) := Reduce(n1, 1000000);
    var (n2', d1') := Reduce(n2, d1);
    ReducePositive(n1, 1000000);
    var (n2'', d2') := Reduce(n2', d2);
    (n1' * n2'' % 0x1_0000_0000, d1' * d2' % 0x1_0000_0000)
  }

  lemma ReducePositive(n: nat, d: nat)
    requires n > 0 && d > 0
    ensures Reduce(n, d).0 > 0 && Reduce(n, d).1 > 0
  {
    ReduceFacts(n, d);
  }

  /** A positive number coprime to a multiple of itself is 1. */
  lemma CoprimeToMultiple(p: int, g: int)
    requires p > 0 && Coprime(p, p * g)
    ensures p == 1
  {
    var x, y :| Combination(p, x, p * g, y) == 1;
    assert p * (x + g * y) == 1 by { assert (p * g) * y == p * (g * y); }
    var z := x + g * y;
    if z < 1 {
      MulOrder(p, z, 0);
    } else if p > 1 {
      MulOrder(p, 1, z);
    }
  }

  lemma Cancel(g: int, a: int, b: int)
    requires g > 0 && a * g == b * g
    ensures a == b
  {
    if a < b {
      MulOrder(g, a + 1, b);
    } else if b < a {
      MulOrder(g, b + 1, a);
    }
  }

  /** The arithmetic of setSlew, spelled out: if all six reductions are exact and coprime, the result
    * is in lowest terms, exact and within the width of its inputs. */
  lemma SlewArithmetic(f: int, g: int, n1: int, d1: int, g1: int, n1': int, d2: int, n2: int,
                       g2: int, n2': int, d1': int, g3: int, n2'': int, d2': int)
    requires f > 0 && g > 0 && n1 > 0 && d1 > 0 && g1 > 0 && n1' > 0 && d2 > 0 && n2 > 0
    requires g2 > 0 && n2' > 0 && d1' > 0 && g3 > 0 && n2'' > 0 && d2' > 0
    requires 1000000 == n1 * g && f == d1 * g && Coprime(n1, d1)
    requires n1 == n1' * g1 && 1000000 == d2 * g1 && Coprime(n1', d2)
    requires n2 == n2' * g2 && d1 == d1' * g2 && Coprime(n2', d1')
    requires n2' == n2'' * g3 && d2 == d2' * g3 && Coprime(n2'', d2')
    ensures n1' == 1
    ensures Coprime(n2'', d1' * d2')
    ensures n2'' * f == d1' * d2' * n2
    ensures n2'' <= n2 && d1' * d2' <= f
  {
    assert d2 == n1' * g by {
      assert (n1' * g) * g1 == n1 * g by { assert (n1' * g) * g1 == (n1' * g1) * g; }
      Cancel(g1, d2, n1' * g);
    }
    CoprimeToMultiple(n1', g);
    CoprimeFactor(n2'', g3, d1');
    CoprimeProduct(n2'', d1', d2');
    SlewRatio(f, g, d1, n2, g2, n2', d1', g3, n2'', d2');
    SlewBounds(f, g, d1, n2, g2, n2', d1', g3, n2'', d2');
  }

  lemma SlewRatio(f: int, g: int, d1: int, n2: int, g2: int, n2': int, d1': int, g3: int, n2'': int, d2': int)
    requires f == d1 * g && g == d2' * g3 && n2 == n2' * g2 && d1 == d1' * g2 && n2' == n2'' * g3
    ensures n2'' * f == d1' * d2' * n2
  {
    calc {
      n2'' * f;
      n2'' * ((d1' * g2) * (d2' * g3));
      { Regroup(d1', g2, d2', g3); }
      n2'' * ((d1' * d2') * (g2 * g3));
      { assert n2'' * ((d1' * d2') * (g2 * g3)) == (d1' * d2') * (n2'' * (g2 * g3)); }
      (d1' * d2') * (n2'' * (g2 * g3));
      { assert n2'' * (g2 * g3) == (n2'' * g3) * g2; }
      d1' * d2' * n2;
    }
  }

  lemma SlewBounds(f: int, g: int, d1: int, n2: int, g2: int, n2': int, d1': int, g3: int, n2'': int, d2': int)
    requires g2 > 0 && n2' > 0 && d1' > 0 && g3 > 0 && n2'' > 0 && d2' > 0
    requires f == d1 * g && g == d2' * g3 && n2 == n2' * g2 && d1 == d1' * g2 && n2' == n2'' * g3
    ensures n2'' <= n2 && d1' * d2' <= f
  {
    MulOrder(n2'', 1, g3);
    MulOrder(n2', 1, g2);
    MulOrder(d1', 1, g2);
    MulOrder(d2', 1, g3);
    MulOrder(d1', d2', g);
    MulOrder(g, d1', d1);
  }

  /** Two lowest-terms forms of the same ratio have the same denominator. */
  lemma LowestTermsUnique(n: int, d: int, m: int, f: int)
    requires n > 0 && d > 0 && m > 0 && f > 0
    requires Coprime(n, d) && Coprime(m, f) && n * f == d * m
    ensures d == f
  {
    var j := CoprimeDivides(n, d, m, f);
    assert m * d == f * n;
    var k := CoprimeDivides(m, f, n, d);
    Antisymmetric(d, f, j, k);
  }

  /** If n is coprime to d and n * f is a multiple of d, then f is. */
  lemma CoprimeDivides(n: int, d: int, m: int, f: int) returns (j: int)
    requires Coprime(n, d) && n * f == d * m
    ensures f == d * j
  {
    var x, y :| Combination(n, x, d, y) == 1;
    j := m * x + f * y;
    calc {
      f;
      f * (n * x + d * y);
      { assert f * (n * x) == (n * f) * x && f * (d * y) == d * (f * y); }
      (d * m) * x + d * (f * y);
      { assert (d * m) * x == d * (m * x); }
      d * j;
    }
  }

  lemma Antisymmetric(d: int, f: int, j: int, k: int)
    requires d > 0 && f > 0 && f == d * j && d == f * k
    ensures d == f
  {
    if j < 1 {
      MulOrder(d, j, 0);
    } else if k < 1 {
      MulOrder(f, k, 0);
    } else {
      MulOrder(d, 1, j);
      MulOrder(f, 1, k);
    }
  }

  /** A remainder in place of the denominator keeps the ratio only if it is the denominator. */
  lemma OnlyThatDenominator(n: int, f: int, d: int, r: int, m: int)
    requires m > 0 && n * f == d * m
    ensures n * f == r * m <==> r == d
  {
    if n * f == r * m {
      Cancel(m, r, d);
    }
  }

  /** The denominator of the wanted rate in lowest terms. */
  function WantedDenom(freq: nat, ppm: int): nat
    requires freq > 0 && 1000000 + ppm > 0
  {
    freq / Gcd(freq, 1000000 + ppm)
  }

  /** A frequency Init accepts. */
  predicate Accepted(freq: nat) {
    freq > 0 && Reduce(COMMON_FREQ, freq).0 < 0x1_0000_0000 && Reduce(COMMON_FREQ, freq).1 < 0x1_0000_0000
  }

  /** What setSlew installs on every clock Init accepts: the numerator of the wanted rate in lowest terms,
    * and its denominator reduced to 32 bits.  So the rate installed is the wanted one,
    * (10^6 / freq) * (1 + ppm / 10^6), exactly when the wanted denominator fits 32 bits. */
  lemma SlewRateIsExact(freq: nat, ppm: int)
    requires Accepted(freq) && 0 < 1000000 + ppm < 0x1_0000_0000
    ensures var (n1, d1) := Reduce(COMMON_FREQ, freq);
            && n1 > 0 && d1 > 0
            && var (numer, denom) := SlewRate(n1, d1, ppm);
               && numer > 0 && denom == WantedDenom(freq, ppm) % 0x1_0000_0000
               && numer * freq == WantedDenom(freq, ppm) * (1000000 + ppm)
               && Coprime(numer, WantedDenom(freq, ppm))
               && (numer * freq == denom * (1000000 + ppm) <==> WantedDenom(freq, ppm) < 0x1_0000_0000)
  {
    hide Reduce, Gcd, Coprime, Combination, SlewRate;
    var g, n1, d1 := ReduceParts(COMMON_FREQ, freq);
    var g1, n1', d2 := ReduceParts(n1, 1000000);
    var n2 := 1000000 + ppm;
    var g2, n2', d1' := ReduceParts(n2, d1);
    var g3, n2'', d2' := ReduceParts(n2', d2);
    SlewArithmetic(freq, g, n1, d1, g1, n1', d2, n2, g2, n2', d1', g3, n2'', d2');
    MulOrder(d1', 1, d2');
    SlewRateFrom(n1, d1, ppm, n1', d2, n2', d1', n2'', d2');
    WantedIs(freq, n2, n2'', d1' * d2');
    OnlyThatDenominator(n2'', freq, d1' * d2', d1' * d2' % 0x1_0000_0000, n2);
    SmallModulus(d1' * d2');
  }

  lemma SmallModulus(d: nat)
    ensures d % 0x1_0000_0000 == d <==> d < 0x1_0000_0000
  {
  }

  /** The lowest-terms denominator of m / f is f divided by the gcd. */
  lemma WantedIs(f: nat, m: nat, n: nat, d: nat)
    requires f > 0 && m > 0 && n > 0 && d > 0 && Coprime(n, d) && n * f == d * m
    ensures d == f / Gcd(f, m)
  {
    hide Gcd, Coprime, Combination;
    ReduceFacts(f, m);
    var g := Gcd(f, m);
    var f', m' := f / g, m / g;
    CoprimeSwap(f', m');
    assert (n * f') * g == (d * m') * g by {
      assert (n * f') * g == n * (f' * g) && (d * m') * g == d * (m' * g);
    }
    Cancel(g, n * f', d * m');
    LowestTermsUnique(n, d, m', f');
  }

  lemma CoprimeSwap(a: int, b: int)
    requires Coprime(a, b)
    ensures Coprime(b, a)
  {
    var x, y :| Combination(a, x, b, y) == 1;
    assert Combination(b, y, a, x) == 1;
  }

  /** The rate setSlew installs, once its first numerator has reduced to 1. */
  lemma SlewRateFrom(n1: uint32, d1: uint32, ppm: int, n1': nat, d2: nat, n2': nat, d1': nat, n2'': nat, d2': nat)
    requires n1 > 0 && d1 > 0 && d2 > 0 && 0 < 1000000 + ppm < 0x1_0000_0000
    requires Reduce(n1, 1000000) == (n1', d2) && Reduce(1000000 + ppm, d1) == (n2', d1')
    requires Reduce(n2', d2) == (n2'', d2')
    requires n1' == 1 && n2'' < 0x1_0000_0000
    ensures SlewRate(n1, d1, ppm) == (n2'', d1' * d2' % 0x1_0000_0000)
  {
    hide Reduce;
    assert (1000000 + ppm) % 0x1_0000_0000 == 1000000 + ppm;
    assert n1' * n2'' == n2'';
  }

  /** Every frequency below 2^32 is accepted, and slews exactly at every adjustment that keeps the rate
    * positive. */
  lemma SlowClocksSlewExactly(freq: nat, ppm: int)
    requires 0 < freq < 0x1_0000_0000 && 0 < 1000000 + ppm < 0x1_0000_0000
    ensures Accepted(freq) && 0 < WantedDenom(freq, ppm) < 0x1_0000_0000
  {
    hide Reduce, Gcd, Coprime, Combination;
    var g, n1, d1 := ReduceParts(COMMON_FREQ, freq);
    SmallFactor(n1, g);
    SmallFactor(d1, g);
    ReduceFacts(freq, 1000000 + ppm);
    SmallFactor(WantedDenom(freq, ppm), Gcd(freq, 1000000 + ppm));
  }

  lemma ReduceParts(n: nat, d: nat) returns (g: nat, n': nat, d': nat)
    requires n > 0 && d > 0
    ensures Reduce(n, d) == (n', d') && g > 0 && n' > 0 && d' > 0
    ensures n == n' * g && d == d' * g && Coprime(n', d')
  {
    ReduceFacts(n, d);
    g := Gcd(n, d);
    n', d' := n / g, d / g;
  }

  lemma SmallFactor(p: nat, g: nat)
    requires p > 0 && g > 0
    ensures 0 < p <= p * g
  {
    MulOrder(p, 1, g);
  }

  /** Above 2^32 Hz the wanted denominator need not fit: at 5 GHz it is 5*10^9 for one part per million,
    * and setSlew installs its remainder - while without an adjustment it is 5000, and exact. */
  lemma SlewRateWrapsAbove32Bits()
    ensures Accepted(5000000000) && Reduce(COMMON_FREQ, 5000000000) == (1, 5000)
    ensures WantedDenom(5000000000, 1) == 5000000000 && WantedDenom(5000000000, 0) == 5000
    ensures SlewRate(1, 5000, 1) == (1000001, 5000000000 % 0x1_0000_0000)
    ensures 1000001 * 5000000000 != SlewRate(1, 5000, 1).1 * 1000001
    ensures SlewRate(1, 5000, 0) == (1, 5000)
  {
    hide Gcd, SlewRate;
    NominalAt5GHz();
    WantedAt5GHz();
    SlewedAt5GHz();
    SteadyAt5GHz();
  }

  lemma NominalAt5GHz()
    ensures Reduce(COMMON_FREQ, 5000000000) == (1, 5000)
  {
    assert Gcd(1000000, 5000000000) == Gcd(5000000000, 1000000) == Gcd(1000000, 0) == 1000000;
  }

  lemma WantedAt5GHz()
    ensures Gcd(5000000000, 1000001) == 1 && Gcd(5000000000, 1000000) == 1000000
  {
    assert Gcd(5000000000, 1000000) == Gcd(1000000, 0);
  }

  lemma SlewedAt5GHz()
    ensures SlewRate(1, 5000, 1) == (1000001, 5000000000 % 0x1_0000_0000)
  {
    hide SlewRate, Reduce, Gcd;
    ReduceByOne(1, 1000000);
    ReduceByOne(1000001, 5000);
    ReduceByOne(1000001, 1000000);
    SlewRateFrom(1, 5000, 1, 1, 1000000, 1000001, 5000, 1000001, 1000000);
  }

  lemma SteadyAt5GHz()
    ensures SlewRate(1, 5000, 0) == (1, 5000)
  {
    hide SlewRate, Reduce, Gcd;
    ReduceByOne(1, 1000000);
    ReduceSteady();
    SlewRateFrom(1, 5000, 0, 1, 1000000, 200, 1, 1, 5000);
  }

  lemma ReduceByOne(n: nat, d: nat)
    requires d > 1 && (n == 1 || n % d == 1)
    ensures Reduce(n, d) == (n, d)
  {
    if n == 1 {
      assert Gcd(1, d) == Gcd(d, 1) == Gcd(1, 0) == 1;
    } else {
      assert Gcd(n, d) == Gcd(d, 1) == Gcd(1, 0) == 1;
    }
  }

  lemma ReduceSteady()
    ensures Reduce(1000000, 5000) == (200, 1) && Reduce(200, 1000000) == (1, 5000)
  {
    assert Gcd(1000000, 5000) == Gcd(5000, 0) == 5000;
    assert Gcd(200, 1000000) == Gcd(1000000, 200) == Gcd(200, 0) == 200;
  }

  // ----- runs of slew changes -----

  /** A slew change on a valid basis: the new transform starts where the old one is at that time. */
  function Slewed(t: Transform, n1: uint32, d1: uint32, time: int, ppm: int): Transform
    requires t.Valid() && n1 > 0 && d1 > 0
  {
    var (numer, denom) := SlewRate(n1, d1, ppm);
    Transform(time, Forward(t, time), numer, denom)
  }

  datatype ClockOp = Slew(time: int, ppm: int) | Read(time: int)

  /** Times never go back, and every adjustment leaves a usable rate. */
  predicate InOrder(n1: uint32, d1: uint32, ops: seq<ClockOp>, start: int)
    requires n1 > 0 && d1 > 0
    decreases |ops|
  {
    ops != [] ==>
      && start <= ops[0].time
      && (ops[0].Slew? ==> SlewRate(n1, d1, ops[0].ppm).1 > 0)
      && InOrder(n1, d1, ops[1..], ops[0].time)
  }

  /** What the reads of a run return. */
  function Readings(t: Transform, n1: uint32, d1: uint32, ops: seq<ClockOp>, start: int): seq<int>
    requires t.Valid() && n1 > 0 && d1 > 0 && InOrder(n1, d1, ops, start)
    decreases |ops|
  {
    if ops == [] then []
    else
      match ops[0]
      case Read(time) => [Forward(t, time)] + Readings(t, n1, d1, ops[1..], time)
      case Slew(time, ppm) => Readings(Slewed(t, n1, d1, time, ppm), n1, d1, ops[1..], time)
  }

  lemma FloorOrder(x: int, y: int, d: int)
    requires d > 0 && x <= y
    ensures x / d <= y / d
  {
    var p, q := x / d, y / d;
    assert d * p <= x < d * (p + 1) by { assert x == d * p + x % d; }
    assert d * q <= y < d * (q + 1) by { assert y == d * q + y % d; }
    if q < p {
      MulOrder(d, q + 1, p);
    }
  }

  lemma ForwardIsMonotone(t: Transform, a: int, b: int)
    requires t.Valid() && a <= b
    ensures Forward(t, a) <= Forward(t, b)
  {
    MulOrder(t.numer, a - t.aZero, b - t.aZero);
    FloorOrder((a - t.aZero) * t.numer, (b - t.aZero) * t.numer, t.denom);
  }

  /** A clock at an exact rate reads 10^6 + ppm microseconds more for every second of its local ticks. */
  lemma SecondPasses(t: Transform, freq: nat, ppm: int, a: int)
    requires t.Valid() && t.numer * freq == t.denom * (1000000 + ppm)
    ensures Forward(t, a + freq) == Forward(t, a) + 1000000 + ppm
  {
    var x := (a - t.aZero) * t.numer;
    assert (a + freq - t.aZero) * t.numer == x + t.numer * freq;
    WholeQuotient(x, t.denom, 1000000 + ppm);
  }

  lemma WholeQuotient(x: int, d: int, k: int)
    requires d > 0
    ensures (x + d * k) / d == x / d + k
  {
    var q, r := x / d, x % d;
    assert x + d * k == d * (q + k) + r by { assert d * (q + k) == d * q + d * k; }
    QuotientIs(x + d * k, d, q + k, r);
  }

  lemma QuotientIs(x: int, d: int, q: int, r: int)
    requires d > 0 && x == d * q + r && 0 <= r < d
    ensures x / d == q
  {
    var p, s := x / d, x % d;
    assert d * (p - q) == r - s by { assert d * (p - q) == d * p - d * q; }
    if p > q {
      MulOrder(d, 1, p - q);
    } else if p < q {
      MulOrder(d, 1, q - p);
    }
  }

  /** Changing the slew does not move the clock at the moment of the change. */
  lemma SlewIsContinuous(t: Transform, n1: uint32, d1: uint32, time: int, ppm: int)
    requires t.Valid() && n1 > 0 && d1 > 0 && SlewRate(n1, d1, ppm).1 > 0
    ensures var slewed := Slewed(t, n1, d1, time, ppm);
            slewed.Valid() && Forward(slewed, time) == Forward(t, time)
  {
    var slewed := Slewed(t, n1, d1, time, ppm);
    assert (time - slewed.aZero) * slewed.numer == 0;
    ZeroQuotient(slewed.denom);
  }

  lemma ZeroQuotient(d: int)
    requires d > 0
    ensures 0 / d == 0
  {
  }

  /** The readings never decrease, starting from at least low. */
  ghost predicate Climbs(low: int, readings: seq<int>) {
    && (forall i | 0 <= i < |readings| :: low <= readings[i])
    && (forall i, j | 0 <= i < j < |readings| :: readings[i] <= readings[j])
  }

  lemma ClimbsCons(low: int, first: int, later: seq<int>)
    requires low <= first && Climbs(first, later)
    ensures Climbs(low, [first] + later)
  {
  }

  lemma ClimbsFromBelow(low: int, first: int, readings: seq<int>)
    requires low <= first && Climbs(first, readings)
    ensures Climbs(low, readings)
  {
  }

  lemma {:induction false} ReadingsNeverDecrease(t: Transform, n1: uint32, d1: uint32, ops: seq<ClockOp>, start: int)
    requires t.Valid() && n1 > 0 && d1 > 0 && InOrder(n1, d1, ops, start)
    ensures Climbs(Forward(t, start), Readings(t, n1, d1, ops, start))
    decreases |ops|
  {
    hide SlewRate, Forward, Slewed, Climbs;
    if ops == [] {
      NothingClimbs(Forward(t, start));
    } else {
      var time := ops[0].time;
      ForwardIsMonotone(t, start, time);
      match ops[0] {
        case Read(_) =>
          ReadingsNeverDecrease(t, n1, d1, ops[1..], time);
          ClimbsCons(Forward(t, start), Forward(t, time), Readings(t, n1, d1, ops[1..], time));
        case Slew(_, ppm) =>
          SlewIsContinuous(t, n1, d1, time, ppm);
          ReadingsNeverDecrease(Slewed(t, n1, d1, time, ppm), n1, d1, ops[1..], time);
          ClimbsFromBelow(Forward(t, start), Forward(t, time), Readings(Slewed(t, n1, d1, time, ppm), n1, d1, ops[1..], time));
      }
    }
  }

  lemma NothingClimbs(low: int)
    ensures Climbs(low, [])
  {
  }

  /** An adjustment after which the clock still has a rate: the installed denominator is not zero. */
  predicate KeepsARate(freq: nat, ppm: int)
    requires freq > 0
  {
    0 < 1000000 + ppm < 0x1_0000_0000 && WantedDenom(freq, ppm) % 0x1_0000_0000 != 0
  }

  /** Over any run of slew changes at non-decreasing times, common time read at non-decreasing local times
    * never decreases - on every clock Init accepts, with every adjustment that leaves a rate at all, exact
    * or not. */
  lemma CommonTimeNeverDecreases(t: Transform, freq: nat, ops: seq<ClockOp>, start: int)
    requires t.Valid() && Accepted(freq) && TimesInOrder(ops, start)
    requires forall op | op in ops && op.Slew? :: KeepsARate(freq, op.ppm)
    ensures var (n1, d1) := Reduce(COMMON_FREQ, freq);
            && n1 > 0 && d1 > 0 && InOrder(n1, d1, ops, start)
            && Climbs(Forward(t, start), Readings(t, n1, d1, ops, start))
  {
    hide KeepsARate;
    ReducePositive(COMMON_FREQ, freq);
    UsableSlews(freq, ops, start);
    var (n1, d1) := Reduce(COMMON_FREQ, freq);
    ReadingsNeverDecrease(t, n1, d1, ops, start);
  }

  predicate TimesInOrder(ops: seq<ClockOp>, start: int)
    decreases |ops|
  {
    ops != [] ==> start <= ops[0].time && TimesInOrder(ops[1..], ops[0].time)
  }

  lemma {:induction false} UsableSlews(freq: nat, ops: seq<ClockOp>, start: int)
    requires Accepted(freq) && TimesInOrder(ops, start)
    requires forall op | op in ops && op.Slew? :: KeepsARate(freq, op.ppm)
    requires 0 < Reduce(COMMON_FREQ, freq).0 && 0 < Reduce(COMMON_FREQ, freq).1
    ensures InOrder(Reduce(COMMON_FREQ, freq).0, Reduce(COMMON_FREQ, freq).1, ops, start)
    decreases |ops|
  {
    hide SlewRate, Reduce, KeepsARate;
    if ops != [] {
      if ops[0].Slew? {
        assert KeepsARate(freq, ops[0].ppm);
        UsableSlew(freq, ops[0].ppm);
      }
      UsableSlews(freq, ops[1..], ops[0].time);
    }
  }

  lemma UsableSlew(freq: nat, ppm: int)
    requires Accepted(freq) && KeepsARate(freq, ppm)
    ensures var (n1, d1) := Reduce(COMMON_FREQ, freq);
            n1 > 0 && d1 > 0 && SlewRate(n1, d1, ppm).1 > 0
  {
    SlewRateIsExact(freq, ppm);
  }

  // ----- the object -----

  class Clock {
    var curSlew: int
    var freqNumer: uint32
    var freqDenom: uint32
    var curTrans: Transform
    var durationTrans: Transform
    var valid: bool

    ghost predicate Valid()
      reads this
    {
      freqNumer > 0 && freqDenom > 0 && curTrans.Valid() && durationTrans.Valid()
    }

    constructor ()
      ensures Valid() && !valid && curTrans == durationTrans == Transform(0, 0, 1, 1)
    {
      curSlew, valid := 0, false;
      freqNumer, freqDenom := 1, 1;
      curTrans, durationTrans := Transform(0, 0, 1, 1), Transform(0, 0, 1, 1);
    }

    /** Set the nominal rate; fails when it does not fit 32 bits in lowest terms. */
    method Init(localFreq: nat) returns (ok: bool)
      requires Valid()
      modifies this
      ensures Valid() && valid == old(valid)
      ensures ok <==> localFreq > 0 && Reduce(COMMON_FREQ, localFreq).0 < 0x1_0000_0000
                                    && Reduce(COMMON_FREQ, localFreq).1 < 0x1_0000_0000
      ensures ok ==> (freqNumer, freqDenom) == Reduce(COMMON_FREQ, localFreq)
                     && curTrans == old(curTrans).(numer := freqNumer, denom := freqDenom) && durationTrans == curTrans
      ensures !ok ==> curTrans == old(curTrans) && freqNumer == old(freqNumer) && freqDenom == old(freqDenom)
    {
      if localFreq == 0 {
        return false;
      }
      var (numer, denom) := Reduce(COMMON_FREQ, localFreq);
      ReducePositive(COMMON_FREQ, localFreq);
      if numer > 0xFFFF_FFFF || denom > 0xFFFF_FFFF {
        return false;
      }
      freqNumer, freqDenom := numer, denom;
      curTrans := curTrans.(numer := numer, denom := denom);
      durationTrans := curTrans;
      ok := true;
    }

    method LocalToCommon(local: int) returns (common: Option<int>)
      requires Valid()
      ensures common == if valid then Some(Forward(curTrans, local)) else None
    {
      if !valid {
        return None;
      }
      return Some(Forward(curTrans, local));
    }

    method LocalDurationToCommonDuration(duration: int) returns (common: int)
      requires Valid()
      ensures common == Forward(durationTrans, duration)
    {
      common := Forward(durationTrans, duration);
    }

    /** Common time is known from here on: it reads exactly common at local. */
    method SetBasis(local: int, common: int)
      requires Valid()
      modifies this
      ensures Valid() && valid && Forward(curTrans, local) == common
      ensures curTrans == old(curTrans).(aZero := local, bZero := common) && durationTrans == old(durationTrans)
      ensures freqNumer == old(freqNumer) && freqDenom == old(freqDenom) && curSlew == old(curSlew)
    {
      curTrans := curTrans.(aZero := local, bZero := common);
      valid := true;
      assert (local - curTrans.aZero) * curTrans.numer == 0;
      ZeroQuotient(curTrans.denom);
    }

    method ResetBasis()
      requires Valid()
      modifies this
      ensures Valid() && !valid
      ensures curTrans == old(curTrans).(aZero := 0, bZero := 0) && durationTrans == old(durationTrans)
      ensures freqNumer == old(freqNumer) && freqDenom == old(freqDenom) && curSlew == old(curSlew)
    {
      curTrans := curTrans.(aZero := 0, bZero := 0);
      valid := false;
    }

    /** Change the rate at a local time; on a valid basis without moving the clock. */
    method SetSlew(changeTime: int, ppm: int)
      requires Valid()
      requires SlewRate(freqNumer, freqDenom, ppm).1 > 0
      modifies this
      ensures Valid() && valid == old(valid) && curSlew == ppm
      ensures freqNumer == old(freqNumer) && freqDenom == old(freqDenom) && durationTrans == old(durationTrans)
      ensures valid ==> curTrans == Slewed(old(curTrans), freqNumer, freqDenom, changeTime, ppm)
      ensures !valid ==> var (numer, denom) := SlewRate(freqNumer, freqDenom, ppm);
                         curTrans == Transform(0, 0, numer, denom)
    {
      var newLocalBasis, newCommonBasis := 0, 0;
      if valid {
        newLocalBasis, newCommonBasis := changeTime, Forward(curTrans, changeTime);
      }
      curSlew := ppm;
      var (n1, d2) := Reduce(freqNumer, 1000000);
      var (n2, d1) := Reduce((1000000 + curSlew) % 0x1_0000_0000, freqDenom);
      ReducePositive(freqNumer, 1000000);
      var reduced := Reduce(n2, d2);
      n2, d2 := reduced.0, reduced.1;
      curTrans := Transform(newLocalBasis, newCommonBasis, n1 * n2 % 0x1_0000_0000, d1 * d2 % 0x1_0000_0000);
    }
  }
}
