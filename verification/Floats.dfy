/** Doubles as exact numbers: how the decimal form of a double is rounded when it is printed (lib/value.c), and which
    double a decimal number is rounded to when it is read (lib/scanner.c). */
module Floats {
  import opened Text

  /** The finite double of magnitude m * 2^k units, where the unit is the least magnitude, 2^-1074. */
  datatype Double = Double(negative: bool, m: nat, k: nat)

  const TWO_TO_52: nat := 0x10_0000_0000_0000

  const TWO_TO_53: nat := 0x20_0000_0000_0000

  const MAX_K: nat := 2045

  const TWO_TO_179: nat := 0x8_0000_0000_0000_0000_0000_0000_0000_0000_0000_0000_0000

  /** How many units make one: 2^1074. */
  const UNITS: nat := TWO_TO_179 * TWO_TO_179 * TWO_TO_179 * TWO_TO_179 * TWO_TO_179 * TWO_TO_179

  predicate IsFloat(d: Double) {
    d.m < TWO_TO_53 && d.k <= MAX_K && (d.m >= TWO_TO_52 || d.k == 0)
  }

  type Float = d: Double | IsFloat(d) witness Double(false, 0, 0)

  function Power(b: nat, n: nat): nat {
    if n == 0 then 1 else b * Power(b, n - 1)
  }

  /** The magnitude in units. */
  function Magnitude(d: Double): nat {
    d.m * Power(2, d.k)
  }

  // ---------------------------------------------------------------- rounding

  /** The natural number nearest to a / b, the even one of two. */
  function RoundDiv(a: nat, b: nat): nat
    requires b > 0
  {
    var q, r := a / b, a % b;
    if 2 * r < b || (2 * r == b && q % 2 == 0) then q else q + 1
  }

  function Distance(a: int, b: int): nat {
    if a < b then b - a else a - b
  }

  lemma LessTimes(x: nat, y: nat, b: nat)
    ensures x < y ==> x * b + b <= y * b
    ensures x <= y ==> x * b <= y * b
  {
    if x < y {
      var d: nat := y - x - 1;
      assert y == x + 1 + d && (x + 1 + d) * b == x * b + b + d * b && d * b >= 0;
    }
  }

  lemma Product(x: nat, y: nat, z: nat)
    ensures x * y * z == x * (z * y) == x * (y * z)
  {
  }

  lemma RoundDivNear(a: nat, b: nat)
    requires b > 0
    ensures 2 * Distance(a, RoundDiv(a, b) * b) <= b
  {
    assert a == a / b * b + a % b;
    assert (a / b + 1) * b == a / b * b + b;
  }

  lemma RoundDivIs(a: nat, b: nat, c: nat)
    requires b > 0 && 2 * Distance(a, c * b) < b
    ensures RoundDiv(a, b) == c
  {
    hide RoundDiv;
    RoundDivNear(a, b);
    LessTimes(RoundDiv(a, b), c, b);
    LessTimes(c, RoundDiv(a, b), b);
  }

  /** No multiple of b is nearer to a. */
  lemma RoundDivNearest(a: nat, b: nat, c: nat)
    requires b > 0
    ensures Distance(a, RoundDiv(a, b) * b) <= Distance(a, c * b)
  {
    hide RoundDiv;
    if 2 * Distance(a, c * b) < b {
      RoundDivIs(a, b, c);
    } else {
      RoundDivNear(a, b);
    }
  }

  // ---------------------------------------------------------------- reading

  lemma {:induction false} PowerPositive(b: nat, n: nat)
    requires b > 0
    ensures Power(b, n) > 0
  {
    if n > 0 {
      PowerPositive(b, n - 1);
    }
  }

  /** The least k for which a < b * 2^k. */
  function Binade(a: nat, b: nat): (k: nat)
    requires b > 0
    decreases if a < b then 0 else a - b + 1
  {
    if a < b then 0 else 1 + Binade(a, 2 * b)
  }

  lemma {:induction false} BinadeIs(a: nat, b: nat)
    requires b > 0
    ensures var k := Binade(a, b); a < b * Power(2, k) && (k > 0 ==> a >= b * Power(2, k - 1))
    decreases if a < b then 0 else a - b + 1
  {
    if a >= b {
      BinadeIs(a, 2 * b);
      var k := Binade(a, 2 * b);
      assert 2 * b * Power(2, k) == b * Power(2, k + 1);
      if k > 0 {
        assert 2 * b * Power(2, k - 1) == b * Power(2, k);
      }
    }
  }

  lemma {:induction false} PowerMonotone(b: nat, m: nat, n: nat)
    requires b > 0 && m <= n
    ensures Power(b, m) <= Power(b, n)
    decreases n
  {
    if m < n {
      PowerMonotone(b, m, n - 1);
      assert b * Power(b, n - 1) >= Power(b, n - 1);
    }
  }

  lemma BinadeUnique(a: nat, b: nat, k: nat)
    requires b > 0 && a < b * Power(2, k) && (k > 0 ==> a >= b * Power(2, k - 1))
    ensures Binade(a, b) == k
  {
    hide Binade, Power;
    BinadeIs(a, b);
    var j := Binade(a, b);
    if j < k {
      PowerMonotone(2, j, k - 1);
      LessTimes(Power(2, j), Power(2, k - 1), b);
    } else if k < j {
      PowerMonotone(2, k, j - 1);
      LessTimes(Power(2, k), Power(2, j - 1), b);
    }
  }

  lemma RoundDivBetween(a: nat, b: nat, low: nat, high: nat)
    requires b > 0 && low * b <= a <= high * b
    ensures low <= RoundDiv(a, b) <= high
  {
    hide RoundDiv;
    RoundDivNear(a, b);
    LessTimes(RoundDiv(a, b), low, b);
    LessTimes(high, RoundDiv(a, b), b);
  }

  /** What is rounded has at most 53 bits, and no fewer unless the step is one unit. */
  lemma RoundedFits(a: nat, b: nat)
    requires b > 0
    ensures var k := Binade(a, TWO_TO_53 * b);
      Power(2, k) > 0 && RoundDiv(a, b * Power(2, k)) <= TWO_TO_53
      && (k > 0 ==> TWO_TO_52 * (b * Power(2, k)) <= a && RoundDiv(a, b * Power(2, k)) >= TWO_TO_52)
  {
    hide RoundDiv;
    BinadeIs(a, TWO_TO_53 * b);
    var k := Binade(a, TWO_TO_53 * b);
    PowerPositive(2, k);
    var w := b * Power(2, k);
    assert TWO_TO_53 * b * Power(2, k) == TWO_TO_53 * w;
    if k > 0 {
      assert TWO_TO_53 * b * Power(2, k - 1) == TWO_TO_52 * w;
      RoundDivBetween(a, w, TWO_TO_52, TWO_TO_53);
    } else {
      RoundDivBetween(a, w, 0, TWO_TO_53);
    }
  }

  /** The double nearest to a / b units; none if that is beyond the greatest one. */
  function Nearest(negative: bool, a: nat, b: nat): (f: Option<Float>)
    requires b > 0
  {
    var k := Binade(a, TWO_TO_53 * b);
    RoundedFits(a, b);
    var m := RoundDiv(a, b * Power(2, k));
    var d := if m < TWO_TO_53 then Double(negative, m, k) else Double(negative, TWO_TO_52, k + 1);
    if d.k > MAX_K then None else Some(d)
  }

  lemma NearestMagnitude(negative: bool, a: nat, b: nat)
    requires b > 0 && Nearest(negative, a, b).Some?
    ensures var k := Binade(a, TWO_TO_53 * b);
      Power(2, k) > 0 && Magnitude(Nearest(negative, a, b).value) == RoundDiv(a, b * Power(2, k)) * Power(2, k)
  {
    hide RoundDiv;
    RoundedFits(a, b);
  }

  /** No double is nearer. */
  lemma NearestIsNearest(negative: bool, a: nat, b: nat, g: Float)
    requires b > 0 && Nearest(negative, a, b).Some?
    ensures Distance(a, Magnitude(Nearest(negative, a, b).value) * b) <= Distance(a, Magnitude(g) * b)
  {
    hide RoundDiv, Nearest, Power, Distance, Binade;
    var k := Binade(a, TWO_TO_53 * b);
    NearestMagnitude(negative, a, b);
    var w := b * Power(2, k);
    Product(RoundDiv(a, w), Power(2, k), b);
    if g.k >= k {
      var c := LargerExponent(g, k, b);
      RoundDivNearest(a, w, c);
    } else {
      RoundedFits(a, b);
      RoundDivNearest(a, w, TWO_TO_52);
      SmallerExponent(g, k, b);
      StillFarther(a, TWO_TO_52 * w, Magnitude(g) * b);
    }
  }

  /** Of two doubles that are equally near, the one with an even magnitude in its own steps is chosen. */
  lemma NearestIsEven(negative: bool, a: nat, b: nat, g: Float)
    requires b > 0 && Nearest(negative, a, b).Some?
    requires Distance(a, Magnitude(Nearest(negative, a, b).value) * b) == Distance(a, Magnitude(g) * b)
    requires Magnitude(g) != Magnitude(Nearest(negative, a, b).value)
    ensures Nearest(negative, a, b).value.m % 2 == 0
  {
    hide RoundDiv, Nearest, Power, Distance, Binade;
    var k := Binade(a, TWO_TO_53 * b);
    NearestMagnitude(negative, a, b);
    RoundedFits(a, b);
    var w := b * Power(2, k);
    Product(RoundDiv(a, w), Power(2, k), b);
    NearestStep(negative, a, b);
    if g.k >= k {
      var c := LargerExponent(g, k, b);
      TieIsEven(a, w, c);
    } else {
      SmallerExponent(g, k, b);
      RoundDivNearest(a, w, TWO_TO_52);
      OnlyThere(a, TWO_TO_52 * w, Magnitude(g) * b, RoundDiv(a, w) * w);
      TieIsEven(a, w, TWO_TO_52);
    }
  }

  lemma NearestStep(negative: bool, a: nat, b: nat)
    requires b > 0 && Nearest(negative, a, b).Some?
    ensures var k := Binade(a, TWO_TO_53 * b);
      Power(2, k) > 0 && (RoundDiv(a, b * Power(2, k)) % 2 == 0 ==> Nearest(negative, a, b).value.m % 2 == 0)
  {
    hide RoundDiv, Power, Binade;
    RoundedFits(a, b);
  }

  lemma OnlyThere(a: nat, b: nat, c: nat, d: nat)
    requires c <= b <= a && Distance(a, d) <= Distance(a, b) && Distance(a, d) == Distance(a, c)
    ensures c == b
  {
  }

  lemma TieIsEven(a: nat, w: nat, c: nat)
    requires w > 0 && c * w != RoundDiv(a, w) * w && Distance(a, c * w) == Distance(a, RoundDiv(a, w) * w)
    ensures RoundDiv(a, w) % 2 == 0
  {
    var q, r := a / w, a % w;
    assert a == q * w + r && (q + 1) * w == q * w + w;
    LessTimes(c, q, w);
    LessTimes(q + 1, c, w);
    LessTimes(q, c, w);
  }

  /** A number is rounded to infinity exactly when it is not below the middle between the greatest double and the next
      power of two. */
  lemma NearestOverflows(negative: bool, a: nat, b: nat)
    requires b > 0
    ensures Nearest(negative, a, b) == None <==> 2 * a >= (2 * TWO_TO_53 - 1) * (b * Power(2, MAX_K))
  {
    hide Power, Binade, RoundDiv;
    var k := Binade(a, TWO_TO_53 * b);
    BinadeIs(a, TWO_TO_53 * b);
    RoundedFits(a, b);
    var w := b * Power(2, k);
    PowerPositive(2, k);
    RoundDivTop(a, w, TWO_TO_53);
    if k < MAX_K {
      PowerMonotone(2, k, MAX_K - 1);
      PowerNext(MAX_K - 1);
      BelowTop(a, b, Power(2, k), Power(2, MAX_K - 1), Power(2, MAX_K));
    } else if k > MAX_K {
      PowerMonotone(2, MAX_K, k - 1);
      AboveTop(a, b, Power(2, MAX_K), Power(2, k - 1));
    }
  }

  lemma PowerNext(n: nat)
    ensures Power(2, n + 1) == 2 * Power(2, n)
  {
  }

  lemma RoundDivTop(a: nat, w: nat, c: nat)
    requires w > 0 && c % 2 == 0 && c > 0 && a < c * w
    ensures RoundDiv(a, w) >= c <==> 2 * a >= (2 * c - 1) * w
    ensures RoundDiv(a, w) <= c
  {
    var q, r := a / w, a % w;
    assert a == q * w + r;
    LessTimes(c, q, w);
    assert q < c;
    LessTimes(q, c - 1, w);
    assert (c - 1) * w == c * w - w && (2 * c - 1) * w == 2 * (c * w) - w;
  }

  lemma BelowTop(a: nat, b: nat, p: nat, q: nat, top: nat)
    requires b > 0 && p <= q && top == 2 * q && a < TWO_TO_53 * b * p && q > 0
    ensures 2 * a < (2 * TWO_TO_53 - 1) * (b * top)
  {
    LessTimes(p, q, TWO_TO_53 * b);
    assert b * top == 2 * (b * q) && TWO_TO_53 * b * q == TWO_TO_53 * (b * q)
      && p * (TWO_TO_53 * b) == TWO_TO_53 * b * p && q * (TWO_TO_53 * b) == TWO_TO_53 * b * q;
    assert b * q > 0;
  }

  lemma AboveTop(a: nat, b: nat, top: nat, p: nat)
    requires b > 0 && top <= p && a >= TWO_TO_53 * b * p
    ensures 2 * a >= (2 * TWO_TO_53 - 1) * (b * top)
  {
    LessTimes(top, p, TWO_TO_53 * b);
    assert top * (TWO_TO_53 * b) == TWO_TO_53 * (b * top) && p * (TWO_TO_53 * b) == TWO_TO_53 * b * p;
    assert b * top >= 0;
  }

  lemma StillFarther(a: nat, b: nat, c: nat)
    requires c <= b <= a
    ensures Distance(a, b) <= Distance(a, c)
  {
  }

  lemma LargerExponent(g: Float, k: nat, b: nat) returns (c: nat)
    requires g.k >= k
    ensures Magnitude(g) * b == c * (b * Power(2, k))
  {
    var p, q := Power(2, k), Power(2, g.k - k);
    PowerSplit(2, k, g.k - k);
    hide Power;
    c := g.m * q;
    Product(g.m, q, p);
    Product(c, p, b);
    assert g.m * (p * q) == c * p;
  }

  lemma SmallerExponent(g: Float, k: nat, b: nat)
    requires g.k < k
    ensures Magnitude(g) * b <= TWO_TO_52 * (b * Power(2, k))
  {
    var p, q := Power(2, g.k), Power(2, k - 1);
    PowerMonotone(2, g.k, k - 1);
    assert Power(2, k) == 2 * q;
    hide Power;
    LessTimes(g.m, TWO_TO_53, p);
    LessTimes(g.m * p, TWO_TO_53 * q, b);
    Product(TWO_TO_53, q, b);
    Product(TWO_TO_52, 2 * q, b);
  }

  lemma {:induction false} PowerSplit(b: nat, m: nat, n: nat)
    ensures Power(b, m + n) == Power(b, m) * Power(b, n)
    decreases m
  {
    if m > 0 {
      PowerSplit(b, m - 1, n);
      assert b * (Power(b, m - 1) * Power(b, n)) == b * Power(b, m - 1) * Power(b, n);
    }
  }

  // ---------------------------------------------------------------- the way back

  lemma NearestFrom(negative: bool, a: nat, b: nat, k: nat, m: nat)
    requires b > 0 && Binade(a, TWO_TO_53 * b) == k && Power(2, k) > 0 && RoundDiv(a, b * Power(2, k)) == m
    ensures Nearest(negative, a, b) ==
      var d := if m < TWO_TO_53 then Double(negative, m, k) else Double(negative, TWO_TO_52, k + 1);
      if d.k > MAX_K then None else Some(d)
  {
    hide Binade, RoundDiv, Power;
  }

  /** A fraction that differs from a double by less than a quarter of its last bit is read as that double. */
  lemma NearestBack(d: Float, a: nat, b: nat)
    requires b > 0 && 4 * Distance(a, Magnitude(d) * b) < b * Power(2, d.k)
    ensures Nearest(d.negative, a, b) == Some(d)
  {
    var p := Power(2, d.k);
    PowerPositive(2, d.k);
    var w := b * p;
    Product(d.m, p, b);
    assert d.k > 0 ==> p == 2 * Power(2, d.k - 1);
    hide Power, RoundDiv, Binade, Nearest;
    LessTimes(d.m, TWO_TO_53, w);
    if d.k == 0 || a >= TWO_TO_52 * w {
      Product(TWO_TO_53, b, p);
      if d.k > 0 {
        Product(TWO_TO_53, b, Power(2, d.k - 1));
        Product(2, b, Power(2, d.k - 1));
      }
      BinadeUnique(a, TWO_TO_53 * b, d.k);
      RoundDivIs(a, w, d.m);
      NearestFrom(d.negative, a, b, d.k, d.m);
    } else {
      NearestBelow(d, a, b, w);
    }
  }

  /** Just below a power of two the steps are half as wide. */
  lemma NearestBelow(d: Float, a: nat, b: nat, w: nat)
    requires b > 0 && d.k > 0 && w == b * Power(2, d.k)
    requires 4 * Distance(a, d.m * w) < w && a < TWO_TO_52 * w
    ensures Nearest(d.negative, a, b) == Some(d)
  {
    hide Power, RoundDiv, Binade, Nearest;
    var p := Power(2, d.k - 1);
    PowerPositive(2, d.k - 1);
    PowerNext(d.k - 1);
    var half := b * p;
    Product(2, b, p);
    assert w == 2 * half;
    if d.k > 1 {
      PowerNext(d.k - 2);
      Product(2, b, Power(2, d.k - 2));
      Product(TWO_TO_53, b, Power(2, d.k - 2));
    }
    LessTimes(TWO_TO_52, d.m, w);
    assert d.m == TWO_TO_52;
    Product(TWO_TO_53, b, p);
    BinadeUnique(a, TWO_TO_53 * b, d.k - 1);
    RoundDivIs(a, half, TWO_TO_53);
    NearestFrom(d.negative, a, b, d.k - 1, TWO_TO_53);
  }

  // ---------------------------------------------------------------- decimal form

  /** How many digits are printed behind the point: DECIMAL_DIG, for a long double of 64 bits. */
  const DECIMAL_DIG: nat := 21

  const TEN_TO_21: nat := 1_000_000_000_000_000_000_000

  const TEN_TO_22: nat := 10_000_000_000_000_000_000_000

  /** A power of ten as a fraction: 10^x is Up(x) / Down(x). */
  function Up(x: int): nat {
    Power(10, if x > 0 then x else 0)
  }

  function Down(x: int): nat {
    Power(10, if x < 0 then 0 - x else 0)
  }

  lemma TenPowers(x: int)
    ensures Up(x) > 0 && Down(x) > 0 && (x <= 0 ==> Up(x) == 1) && (x >= 0 ==> Down(x) == 1)
    ensures x >= 0 ==> Up(x + 1) == 10 * Up(x)
    ensures x < 0 ==> Down(x) == 10 * Down(x + 1)
  {
    PowerPositive(10, if x > 0 then x else 0);
    PowerPositive(10, if x < 0 then 0 - x else 0);
  }

  /** The exponent of a / b in decimal form. */
  function Decade(a: nat, b: nat): (e: int)
    requires a > 0 && b > 0
    ensures (a >= b ==> e >= 0) && (a < b ==> e < 0) && (a < 10 * b ==> e <= 0)
    decreases if a < b then 1 else 0, Distance(a, b)
  {
    if a >= 10 * b then 1 + Decade(a, 10 * b) else if a < b then Decade(10 * a, b) - 1 else 0
  }

  /** 10^e <= a / b < 10^(e+1). */
  ghost predicate InDecade(a: nat, b: nat, e: int) {
    b * Up(e) <= a * Down(e) && a * Down(e + 1) < b * Up(e + 1)
  }

  lemma DecadeAbove(a: nat, b: nat, e: int)
    requires e >= 0 && InDecade(a, 10 * b, e)
    ensures InDecade(a, b, e + 1)
  {
    TenPowers(e);
    TenPowers(e + 1);
    hide Up, Down;
    Product(10, b, Up(e));
    Product(10, b, Up(e + 1));
    TenPowersMore(e + 1);
  }

  lemma DecadeBelow(a: nat, b: nat, e: int)
    requires e <= 0 && a < b && InDecade(10 * a, b, e)
    ensures InDecade(a, b, e - 1)
  {
    TenPowers(e);
    TenPowers(e - 1);
    TenPowers(e + 1);
    hide Up, Down;
    Product(10, a, Down(e));
    Product(10, a, Down(e + 1));
  }

  lemma TenPowersMore(x: int)
    ensures x >= 0 ==> Up(x + 1) == 10 * Up(x) && Down(x + 1) == 1
  {
    TenPowers(x);
    TenPowers(x + 1);
  }

  lemma {:induction false} DecadeIs(a: nat, b: nat)
    requires a > 0 && b > 0
    ensures InDecade(a, b, Decade(a, b))
    decreases if a < b then 1 else 0, Distance(a, b)
  {
    hide InDecade;
    if a >= 10 * b {
      DecadeIs(a, 10 * b);
      DecadeAbove(a, b, Decade(a, 10 * b));
    } else if a < b {
      DecadeIs(10 * a, b);
      DecadeBelow(a, b, Decade(10 * a, b));
    } else {
      DecadeOne(a, b);
    }
  }

  lemma DecadeOne(a: nat, b: nat)
    requires b <= a < 10 * b
    ensures InDecade(a, b, 0)
  {
    assert Power(10, 0) == 1 && Power(10, 1) == 10 * Power(10, 0);
  }

  /** The digits and the exponent that are printed for a / b. */
  function Decimal(a: nat, b: nat): (nat, int)
    requires b > 0
  {
    if a == 0 then (0, 0)
    else
      var e := Decade(a, b);
      TenPowers(e - DECIMAL_DIG);
      var n := RoundDiv(a * Down(e - DECIMAL_DIG), b * Up(e - DECIMAL_DIG));
      if n < TEN_TO_22 then (n, e) else (TEN_TO_21, e + 1)
  }

  /** What is printed differs from what is meant by less than one part in 2 * 10^21. */
  ghost predicate Close(n: nat, e: int, a: nat, b: nat) {
    2 * TEN_TO_21 * Distance(n * (b * Up(e - DECIMAL_DIG)), a * Down(e - DECIMAL_DIG)) <= a * Down(e - DECIMAL_DIG)
  }

  /** Moving the point by one place. */
  lemma ShiftOne(a: nat, b: nat, c: nat, x: int)
    ensures c * (b * Up(x)) <= a * Down(x) <==> 10 * c * (b * Up(x - 1)) <= a * Down(x - 1)
    ensures c * (b * Up(x)) > a * Down(x) <==> 10 * c * (b * Up(x - 1)) > a * Down(x - 1)
  {
    TenPowers(x);
    TenPowers(x - 1);
    hide Up, Down;
    var u, d := Up(x - 1), Down(x);
    if x > 0 {
      Product(10, b, u);
      Product(c, 10, b * u);
    } else {
      Product(10, a, d);
      Product(10, c, b);
    }
  }

  lemma {:induction false} Shift(a: nat, b: nat, c: nat, x: int, n: nat, q: nat)
    requires q == c * Power(10, n)
    ensures c * (b * Up(x)) <= a * Down(x) <==> q * (b * Up(x - n)) <= a * Down(x - n)
    decreases n
  {
    if n > 0 {
      var r := Power(10, n - 1);
      assert Power(10, n) == 10 * r;
      Product(c, 10, r);
      Product(10, c, r);
      ShiftOne(a, b, c, x);
      Shift(a, b, 10 * c, x - 1, n - 1, q);
    } else {
      assert q == c;
    }
  }

  lemma TenPowersOf()
    ensures Power(10, 21) == TEN_TO_21 && Power(10, 22) == TEN_TO_22
  {
    assert Power(10, 3) == 10 * Power(10, 2) && Power(10, 2) == 10 * Power(10, 1) && Power(10, 1) == 10 * Power(10, 0);
    PowerSplit(10, 3, 3);
    PowerSplit(10, 6, 6);
    PowerSplit(10, 12, 6);
    PowerSplit(10, 18, 3);
    assert Power(10, 22) == 10 * Power(10, 21);
  }

  /** In the scale of the digits, a / b has 22 of them in front of the point. */
  lemma DecadeScaled(a: nat, b: nat)
    requires a > 0 && b > 0
    ensures var x := Decade(a, b) - DECIMAL_DIG;
      TEN_TO_21 * (b * Up(x)) <= a * Down(x) < TEN_TO_22 * (b * Up(x))
  {
    var e := Decade(a, b);
    DecadeIs(a, b);
    TenPowersOf();
    hide Power, Up, Down, Decade;
    Shift(a, b, 1, e, 21, TEN_TO_21);
    Shift(a, b, 1, e + 1, 22, TEN_TO_22);
    assert e + 1 - 22 == e - DECIMAL_DIG == e - 21;
    assert 1 * (b * Up(e)) == b * Up(e) && 1 * (b * Up(e + 1)) == b * Up(e + 1);
    assert TEN_TO_21 * (b * Up(e - 21)) <= a * Down(e - 21);
    assert TEN_TO_22 * (b * Up(e - 21)) > a * Down(e - 21);
  }

  /** 22 digits are printed, the first of them not zero unless all are. */
  lemma DecimalDigits(a: nat, b: nat)
    requires b > 0
    ensures var (n, e) := Decimal(a, b); n < TEN_TO_22 && (a > 0 ==> n >= TEN_TO_21)
  {
    if a > 0 {
      var x := Decade(a, b) - DECIMAL_DIG;
      TenPowers(x);
      DecadeScaled(a, b);
      hide Up, Down, Decade, RoundDiv;
      RoundDivBetween(a * Down(x), b * Up(x), TEN_TO_21, TEN_TO_22);
    }
  }

  lemma CloseEnough(n: nat, w: nat, v: nat)
    requires 2 * Distance(v, n * w) <= w && TEN_TO_21 * w <= v
    ensures 2 * TEN_TO_21 * Distance(n * w, v) <= v
  {
    assert TEN_TO_21 * (2 * Distance(v, n * w)) <= TEN_TO_21 * w;
  }

  lemma CarryWhole(w: nat, v: nat)
    requires 2 * TEN_TO_21 * Distance(TEN_TO_22 * w, v) <= v
    ensures 2 * TEN_TO_21 * Distance(TEN_TO_21 * (10 * w), v) <= v
  {
  }

  lemma CarryPart(w: nat, v: nat)
    requires 2 * TEN_TO_21 * Distance(TEN_TO_22 * w, 10 * v) <= 10 * v
    ensures 2 * TEN_TO_21 * Distance(TEN_TO_21 * w, v) <= v
  {
  }

  /** A carry into one more digit moves the point and changes nothing else. */
  lemma Carry(a: nat, b: nat, e: int)
    requires Close(TEN_TO_22, e, a, b)
    ensures Close(TEN_TO_21, e + 1, a, b)
  {
    if e >= DECIMAL_DIG {
      CarryUp(a, b, e - DECIMAL_DIG);
    } else {
      CarryDown(a, b, e - DECIMAL_DIG);
    }
  }

  lemma CarryUp(a: nat, b: nat, x: nat)
    requires Close(TEN_TO_22, x + DECIMAL_DIG, a, b)
    ensures Close(TEN_TO_21, x + 1 + DECIMAL_DIG, a, b)
  {
    hide Up, Down, Distance;
    TenPowers(x);
    TenPowers(x + 1);
    Product(10, b, Up(x));
    CarryWhole(b * Up(x), a * Down(x));
  }

  lemma CarryDown(a: nat, b: nat, x: int)
    requires x < 0 && Close(TEN_TO_22, x + DECIMAL_DIG, a, b)
    ensures Close(TEN_TO_21, x + 1 + DECIMAL_DIG, a, b)
  {
    hide Up, Down, Distance;
    TenPowers(x);
    TenPowers(x + 1);
    Product(10, a, Down(x + 1));
    CarryPart(b * Up(x), a * Down(x + 1));
  }

  lemma DecimalClose(a: nat, b: nat)
    requires b > 0
    ensures var (n, e) := Decimal(a, b); Close(n, e, a, b)
  {
    hide RoundDiv, Up, Down, Decade;
    if a > 0 {
      var e := Decade(a, b);
      var x := e - DECIMAL_DIG;
      TenPowers(x);
      DecadeScaled(a, b);
      var w := b * Up(x);
      var n := RoundDiv(a * Down(x), w);
      RoundDivNear(a * Down(x), w);
      CloseEnough(n, w, a * Down(x));
      DecimalDigits(a, b);
      RoundDivBetween(a * Down(x), w, TEN_TO_21, TEN_TO_22);
      if n == TEN_TO_22 {
        Carry(a, b, e);
      }
    }
  }

  /** The double that n * 10^x is rounded to. */
  function FromDecimal(negative: bool, n: nat, x: int): Option<Float> {
    TenPowers(x);
    Nearest(negative, n * (UNITS * Up(x)), Down(x))
  }

  /** A decimal number is read as a double of its sign than which no other is nearer: n times a power of ten is compared
      with it, in units, or n with it and the power of ten. */
  lemma DecimalIsNearest(negative: bool, n: nat, x: int, g: Float)
    requires FromDecimal(negative, n, x).Some?
    ensures var f := FromDecimal(negative, n, x).value;
      && f.negative == negative
      && if x >= 0 then
           Distance(n * Power(10, x) * UNITS, Magnitude(f)) <= Distance(n * Power(10, x) * UNITS, Magnitude(g))
         else
           Distance(n * UNITS, Magnitude(f) * Power(10, -x)) <= Distance(n * UNITS, Magnitude(g) * Power(10, -x))
  {
    TenPowers(x);
    NearestIsNearest(negative, n * (UNITS * Up(x)), Down(x), g);
    NearestKeepsSign(negative, n * (UNITS * Up(x)), Down(x));
    hide Power, Magnitude, Distance, Nearest;
    if x >= 0 {
      Product(n, Power(10, x), UNITS);
      Product(n, UNITS, Power(10, x));
    }
  }

  lemma NearestKeepsSign(negative: bool, a: nat, b: nat)
    requires b > 0 && Nearest(negative, a, b).Some?
    ensures Nearest(negative, a, b).value.negative == negative
  {
    hide RoundDiv, Power, Binade;
  }

  function ToDecimal(f: Float): (nat, int) {
    Decimal(Magnitude(f), UNITS)
  }

  lemma CloseReads(n: nat, a: nat, b: nat, m: nat, p: nat)
    requires 2 * TEN_TO_21 * Distance(n, a * b) <= a * b && a == m * p && m < TWO_TO_53 && b * p > 0
    ensures 4 * Distance(n, a * b) < b * p
  {
    Product(m, p, b);
    LessTimes(m, TWO_TO_53, b * p);
  }

  /** The digits that are printed identify the double: it is read back as it was. */
  lemma FloatRoundTrip(f: Float)
    ensures var (n, e) := ToDecimal(f); FromDecimal(f.negative, n, e - DECIMAL_DIG) == Some(f)
  {
    var (n, e) := ToDecimal(f);
    var x := e - DECIMAL_DIG;
    DecimalClose(Magnitude(f), UNITS);
    TenPowers(x);
    PowerPositive(2, f.k);
    var p := Power(2, f.k);
    hide Power, Up, Down, Nearest, Decimal;
    CloseReads(n * (UNITS * Up(x)), Magnitude(f), Down(x), f.m, p);
    NearestBack(f, n * (UNITS * Up(x)), Down(x));
  }
}
