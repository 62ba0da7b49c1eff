/** The conversions between single and half precision, on their bit patterns. A pattern is a number;
    masks and shifts are written as remainders and quotients. */
module Half {
  import opened Bytes

  type Float = x: nat | x < 0x1_0000_0000
  type Code = h: nat | h < 0x1_0000

  // ---------- the formats of IEEE 754-2008, section 3.6 ----------

  const HIDDEN32: nat := 0x80_0000
  const HIDDEN16: nat := 0x400
  const INF16: nat := 0x7C00

  function Sign32(x: Float): nat { x / 0x8000_0000 }

  function Exp32(x: Float): (e: nat)
    ensures e < 256
  {
    x / HIDDEN32 % 256
  }

  function Man32(x: Float): (m: nat)
    ensures m < HIDDEN32
  {
    x % HIDDEN32
  }

  function Pack32(sign: nat, e: nat, m: nat): Float
    requires sign < 2 && e < 256 && m < HIDDEN32
  {
    sign * 0x8000_0000 + e * HIDDEN32 + m
  }

  lemma Unpacked32(sign: nat, e: nat, m: nat)
    requires sign < 2 && e < 256 && m < HIDDEN32
    ensures var x := Pack32(sign, e, m); Sign32(x) == sign && Exp32(x) == e && Man32(x) == m
  {
  }

  predicate NaN32(x: Float) { Exp32(x) == 255 && Man32(x) != 0 }
  predicate Finite32(x: Float) { Exp32(x) < 255 }
  predicate Zero32(x: Float) { x % 0x8000_0000 == 0 }

  /** The magnitude of a number as a multiple of 2^-149; infinity counts as the number that would follow
      the largest finite one. */
  function Mag32(x: Float): nat {
    if Exp32(x) == 0 then Man32(x) else (HIDDEN32 + Man32(x)) * Pow2(Exp32(x) - 1)
  }

  function Sign16(h: Code): nat { h / 0x8000 }

  /** Everything but the sign. */
  function Body16(h: Code): (b: nat)
    ensures b < 0x8000
  {
    h % 0x8000
  }

  predicate NaN16(h: Code) { Body16(h) > INF16 }
  predicate Finite16(h: Code) { Body16(h) < INF16 }

  /** The magnitude of a half without its sign as a multiple of 2^-24. Infinity counts as the number
      that would follow the largest finite one, which is how rounding treats it. */
  function Mag16(b: nat): nat
    requires b <= INF16
  {
    if b / HIDDEN16 == 0 then b else (HIDDEN16 + b % HIDDEN16) * Pow2(b / HIDDEN16 - 1)
  }

  /** The same as a multiple of 2^-149. */
  function Wide(b: nat): nat
    requires b <= INF16
  {
    Mag16(b) * Pow2(125)
  }

  // ---------- the conversions ----------

  /** The 10 (or, rounded up, 11) bits left of a number too small to be normal. */
  function Denormal(m: nat, hes: int): (hm: nat)
    requires m < HIDDEN32 && hes <= 0
  {
    if 14 - hes > 24 then 0
    else
      var xm := m + HIDDEN32;
      Shr(xm, 14 - hes) + if BitSet(xm, 13 - hes) then 1 else 0
  }

  /** A NaN is taken for zero at the start, so the source's own code for NaN is never produced. */
  function FloatToHalf(v: Float): (hp: nat) {
    if Zero32(v) then 0
    else
      var x := if NaN32(v) then 0 else v;
      var hs, xe, xm := Sign32(x) * 0x8000, Exp32(x), Man32(x);
      if Zero32(x) then hs
      else if xe == 0 then hs
      else if xe == 255 then hs + INF16
      else
        var hes: int := xe - 127 + 15;
        if hes >= 0x1F then hs + INF16
        else if hes <= 0 then hs + Denormal(xm, hes)
        else
          var he, hm := hes * HIDDEN16, xm / 0x2000;
          hs + he + hm + if xm / 0x1000 % 2 == 1 then 1 else 0
  }

  /** How often a denormal mantissa is shifted until its leading bit reaches the hidden one's place. */
  function Shifts(hm: nat): (n: nat)
    requires 0 < hm < HIDDEN16
    ensures n > 0 && HIDDEN16 <= hm * Pow2(n) < 2 * HIDDEN16
    decreases HIDDEN16 - hm
  {
    if 2 * hm >= HIDDEN16 then 1
    else
      var n := Shifts(2 * hm);
      assert hm * Pow2(1 + n) == 2 * hm * Pow2(n);
      1 + n
  }

  lemma ShiftsBound(hm: nat)
    requires 0 < hm < HIDDEN16
    ensures Shifts(hm) <= 10
  {
    hide Shifts, Pow2;
    var n := Shifts(hm);
    Eleven();
    Scaled(1, hm, Pow2(n));
    if n > 10 {
      PowerGrows(11, n);
    }
  }

  function HalfToFloat(v: Code): Float {
    var hs, he, hm := v / 0x8000, v / HIDDEN16 % 32, v % HIDDEN16;
    if v == 0 then 0
    else if Body16(v) == 0 then Pack32(hs, 0, 0)
    else if he == 0 then
      var n := Shifts(hm);
      ShiftsBound(hm);
      Pack32(hs, 127 - 15 - (n - 1), (hm * Pow2(n) - HIDDEN16) * 0x2000)
    else if he == 31 then if hm == 0 then Pack32(hs, 255, 0) else 0
    else Pack32(hs, he - 15 + 127, hm * 0x2000)
  }

  // ---------- powers and shifts ----------

  lemma {:induction false} PowAdd(m: nat, n: nat)
    ensures Pow2(m + n) == Pow2(m) * Pow2(n)
    decreases m
  {
    if m > 0 {
      PowAdd(m - 1, n);
    }
  }

  lemma {:induction false} ShrBounds(x: nat, k: nat)
    ensures Shr(x, k) * Pow2(k) <= x < (Shr(x, k) + 1) * Pow2(k)
    decreases k
  {
    if k > 0 {
      ShrBounds(x, k - 1);
      HalveBounds(x, Shr(x, k - 1), Pow2(k - 1));
    }
  }

  lemma HalveBounds(x: nat, y: nat, p: nat)
    requires y * p <= x < (y + 1) * p
    ensures y / 2 * (2 * p) <= x < (y / 2 + 1) * (2 * p)
  {
    var z := y / 2;
    Doubled(z, p);
    Doubled(z + 1, p);
    Scaled(2 * z, y, p);
    Scaled(y + 1, 2 * (z + 1), p);
  }

  lemma Doubled(z: nat, p: nat)
    ensures z * (2 * p) == 2 * z * p
  {
  }

  lemma {:induction false} Scaled(x: nat, y: nat, p: nat)
    requires x <= y
    ensures x * p <= y * p && (x < y && p > 0 ==> x * p < y * p)
    decreases y
  {
    if x < y {
      Scaled(x, y - 1, p);
      assert y * p == (y - 1) * p + p;
    }
  }

  // ---------- the half precision numbers in order ----------

  /** The distance to the next number. */
  function Ulp(b: nat): (u: nat)
    ensures u > 0
  {
    if b / HIDDEN16 == 0 then 1 else Pow2(b / HIDDEN16 - 1)
  }

  lemma NextMag(b: nat)
    requires b < INF16
    ensures Mag16(b + 1) == Mag16(b) + Ulp(b)
  {
    var e, m := b / HIDDEN16, b % HIDDEN16;
    if m == HIDDEN16 - 1 {
      assert (b + 1) / HIDDEN16 == e + 1 && (b + 1) % HIDDEN16 == 0;
    } else {
      assert (b + 1) / HIDDEN16 == e && (b + 1) % HIDDEN16 == m + 1;
    }
  }

  lemma {:induction false} MagGrows(b: nat, c: nat)
    requires b < c <= INF16
    ensures Mag16(b) < Mag16(c)
    decreases c
  {
    NextMag(c - 1);
    if b < c - 1 {
      MagGrows(b, c - 1);
    }
  }

  lemma WideGrows(b: nat, c: nat)
    requires b < c <= INF16
    ensures Wide(b) < Wide(c)
  {
    hide Pow2, Mag16;
    MagGrows(b, c);
    Scaled(Mag16(b), Mag16(c), Pow2(125));
  }

  // ---------- rounding to the nearest, ties away from zero (IEEE 754-2008, section 4.3.1) ----------

  function Distance(x: nat, y: nat): nat {
    if x < y then y - x else x - y
  }

  /** No number is nearer than b, and any other that is equally near is smaller. */
  ghost predicate Rounded(a: nat, b: nat) {
    && b <= INF16
    && forall c: nat :: c <= INF16 && c != b ==>
         Distance(a, Wide(b)) <= Distance(a, Wide(c))
         && (Distance(a, Wide(b)) == Distance(a, Wide(c)) ==> Wide(c) < Wide(b))
  }

  /** The same by the midpoints to the neighbours. */
  ghost predicate Between(a: nat, b: nat) {
    && b <= INF16
    && (b > 0 ==> Wide(b - 1) + Wide(b) <= 2 * a)
    && (b < INF16 ==> 2 * a < Wide(b) + Wide(b + 1))
  }

  lemma BetweenIsRounded(a: nat, b: nat)
    ensures Between(a, b) <==> Rounded(a, b)
  {
    hide Wide;
    if Between(a, b) {
      forall c: nat | c <= INF16 && c != b
        ensures Distance(a, Wide(b)) <= Distance(a, Wide(c))
        ensures Distance(a, Wide(b)) == Distance(a, Wide(c)) ==> Wide(c) < Wide(b)
      {
        if c < b {
          WideGrows(c, b);
          if c < b - 1 {
            WideGrows(c, b - 1);
          }
        } else {
          WideGrows(b, c);
          if b + 1 < c {
            WideGrows(b + 1, c);
          }
        }
      }
    } else if b <= INF16 {
      if b > 0 {
        WideGrows(b - 1, b);
      }
      if b < INF16 {
        WideGrows(b, b + 1);
      }
    }
  }

  lemma Brackets(a: nat, b: nat, up: bool)
    requires b < INF16 && Wide(b) <= a < Wide(b + 1) && (up <==> Wide(b) + Wide(b + 1) <= 2 * a)
    ensures Between(a, if up then b + 1 else b)
  {
    hide Wide;
    if up {
      if b + 1 < INF16 {
        WideGrows(b + 1, b + 2);
      }
    } else if b > 0 {
      WideGrows(b - 1, b);
    }
  }

  /** Larger numbers never round to smaller ones; so there is only one result. */
  lemma RoundsInOrder(a1: nat, b1: nat, a2: nat, b2: nat)
    requires Between(a1, b1) && Between(a2, b2) && a1 <= a2
    ensures b1 <= b2
  {
    hide Wide;
    if b1 > b2 {
      if b2 + 1 < b1 {
        WideGrows(b2, b1 - 1);
        WideGrows(b2 + 1, b1);
      }
    }
  }

  lemma ExactIsRounded(b: nat)
    requires b <= INF16
    ensures Between(Wide(b), b)
  {
    hide Wide;
    if b > 0 {
      WideGrows(b - 1, b);
    }
    if b < INF16 {
      WideGrows(b, b + 1);
    }
  }

  // ---------- float_to_f16() ----------

  /** How a magnitude m * 2^k lies among the half precision numbers b and b + 1 that are x and x + 1
      times 2^k * s. */
  lemma Places(a: nat, b: nat, m: nat, x: nat, s: nat, p: nat, up: bool)
    requires b < INF16 && a == m * p && Wide(b) == x * s * p && Wide(b + 1) == (x + 1) * s * p && p > 0
    requires x * s <= m < (x + 1) * s && (up <==> x * s + (x + 1) * s <= 2 * m)
    ensures Between(a, if up then b + 1 else b)
  {
    hide Wide, Between;
    Scaled(x * s, m, p);
    Scaled(m, (x + 1) * s, p);
    assert x * s * p + (x + 1) * s * p == (x * s + (x + 1) * s) * p;
    assert 2 * a == 2 * m * p;
    if up {
      Scaled(x * s + (x + 1) * s, 2 * m, p);
    } else {
      Scaled(2 * m, x * s + (x + 1) * s, p);
    }
    Brackets(a, b, up);
  }

  lemma Regroup(x: nat, s: nat, q: nat, r: nat, p: nat)
    requires q * r == s * p
    ensures x * q * r == x * s * p
  {
    assert x * q * r == x * (q * r) && x * s * p == x * (s * p);
  }

  lemma WideNormal(e: nat, q: nat)
    requires 1 <= e <= 30 && q < HIDDEN16
    ensures var b := e * HIDDEN16 + q; var p := Pow2(e + 111);
            && b < INF16
            && Wide(b) == (HIDDEN16 + q) * 0x2000 * p && Wide(b + 1) == (HIDDEN16 + q + 1) * 0x2000 * p
  {
    hide Pow2;
    var b := e * HIDDEN16 + q;
    assert b / HIDDEN16 == e && b % HIDDEN16 == q;
    NextMag(b);
    PowAdd(e - 1, 125);
    PowAdd(13, e + 111);
    Thirteen();
    Regroup(HIDDEN16 + q, 0x2000, Pow2(e - 1), Pow2(125), Pow2(e + 111));
    Regroup(HIDDEN16 + q + 1, 0x2000, Pow2(e - 1), Pow2(125), Pow2(e + 111));
    assert Mag16(b + 1) == (HIDDEN16 + q + 1) * Pow2(e - 1);
  }

  lemma Thirteen()
    ensures Pow2(13) == 0x2000
  {
    assert Pow2(5) == 32;
    PowAdd(5, 5);
    PowAdd(10, 3);
  }

  lemma NormalRounds(v: Float)
    requires 113 <= Exp32(v) <= 142
    ensures var b := (Exp32(v) - 112) * HIDDEN16 + Man32(v) / 0x2000;
            Between(Mag32(v), if Man32(v) / 0x1000 % 2 == 1 then b + 1 else b)
  {
    hide Pow2, Wide, Between, Exp32, Man32;
    var e, m := Exp32(v) - 112, Man32(v);
    var q, up := m / 0x2000, m / 0x1000 % 2 == 1;
    WideNormal(e, q);
    Places(Mag32(v), e * HIDDEN16 + q, HIDDEN32 + m, HIDDEN16 + q, 0x2000, Pow2(e + 111), up);
  }

  lemma WideDenormal(k: nat, b: nat)
    requires k <= 24 && b < HIDDEN16
    ensures Wide(b) == b * Pow2(k) * Pow2(125 - k) && Wide(b + 1) == (b + 1) * Pow2(k) * Pow2(125 - k)
  {
    hide Pow2;
    NextMag(b);
    PowAdd(k, 125 - k);
    Regroup(b, Pow2(k), 1, Pow2(125), Pow2(125 - k));
    Regroup(b + 1, Pow2(k), 1, Pow2(125), Pow2(125 - k));
  }

  lemma SmallQuotient(m: nat, b: nat, k: nat)
    requires m < 2 * HIDDEN32 && 14 <= k && b * Pow2(k) <= m
    ensures b < HIDDEN16
  {
    hide Pow2;
    Thirteen();
    PowAdd(13, 1);
    OneTwo();
    PowerGrows(14, k);
    if b >= HIDDEN16 {
      Scaled(HIDDEN16, b, Pow2(k));
    }
  }

  lemma OneTwo()
    ensures Pow2(0) == 1 && Pow2(1) == 2
  {
  }

  lemma HalfBit(m: nat, k: nat)
    requires k > 0
    ensures var b := Shr(m, k); BitSet(m, k - 1) <==> b * Pow2(k) + (b + 1) * Pow2(k) <= 2 * m
  {
    ShrBounds(m, k - 1);
    OddHalf(m, Shr(m, k - 1), Pow2(k - 1));
  }

  lemma OddHalf(m: nat, y: nat, p: nat)
    requires y * p <= m < (y + 1) * p
    ensures y % 2 == 1 <==> y / 2 * (2 * p) + (y / 2 + 1) * (2 * p) <= 2 * m
  {
    if y % 2 == 1 {
      assert 2 * (y / 2) + 1 == y;
    } else {
      assert 2 * (y / 2) + 1 == y + 1;
    }
  }

  lemma DenormalRounds(v: Float)
    requires 102 <= Exp32(v) <= 112
    ensures Between(Mag32(v), Denormal(Man32(v), Exp32(v) - 112))
  {
    hide Pow2, Wide, Between, Shr, BitSet;
    var k := 14 - (Exp32(v) - 112);
    var m := HIDDEN32 + Man32(v);
    var b := Shr(m, k);
    ShrBounds(m, k);
    HalfBit(m, k);
    SmallQuotient(m, b, k);
    WideDenormal(k, b);
    Places(Mag32(v), b, m, b, Pow2(k), Pow2(125 - k), BitSet(m, k - 1));
  }

  lemma TinyRounds(v: Float)
    requires Exp32(v) < 102
    ensures Between(Mag32(v), 0)
  {
    hide Pow2;
    OneTwo();
    Thirteen();
    assert Wide(0) == 0 && Wide(1) == Pow2(125);
    PowAdd(24, 101);
    PowAdd(13, 11);
    Eleven();
    var m := Man32(v) + if Exp32(v) == 0 then 0 else HIDDEN32;
    var k := if Exp32(v) == 0 then 0 else Exp32(v) - 1;
    assert Mag32(v) == m * Pow2(k);
    PowerGrows(k, 100);
    PowAdd(1, 100);
    PowAdd(1, 124);
    PowAdd(24, 100);
    Scaled(m, Pow2(24) - 1, Pow2(k));
    assert m * Pow2(k) <= (Pow2(24) - 1) * Pow2(k) <= (Pow2(24) - 1) * Pow2(100) < Pow2(24) * Pow2(100);
  }

  lemma Eleven()
    ensures Pow2(11) == 0x800
  {
    PowAdd(5, 6);
    assert Pow2(5) == 32 && Pow2(6) == 64;
  }

  lemma HugeRounds(v: Float)
    requires 143 <= Exp32(v)
    ensures Between(Mag32(v), INF16)
  {
    hide Pow2;
    var k := Exp32(v) - 1;
    PowerGrows(142, k);
    Thirteen();
    OneTwo();
    PowAdd(30, 125);
    PowAdd(13, 142);
    assert INF16 / HIDDEN16 == 31 && INF16 % HIDDEN16 == 0;
    assert Wide(INF16) == HIDDEN16 * Pow2(30) * Pow2(125);
    Regroup(HIDDEN16, 0x2000, Pow2(30), Pow2(125), Pow2(142));
    assert Wide(INF16) == HIDDEN32 * Pow2(142);
    assert Mag32(v) >= HIDDEN32 * Pow2(k) >= HIDDEN32 * Pow2(142);
    WideGrows(INF16 - 1, INF16);
  }

  /** Every number that is not zero is rounded to the nearest half, away from zero if two are equally
      near, with its sign kept; what is too large becomes infinity. */
  lemma RoundsToNearest(v: Float)
    requires !NaN32(v) && !Zero32(v)
    ensures var h := FloatToHalf(v);
            && h < 0x1_0000 && Sign16(h) == Sign32(v) && Between(Mag32(v), Body16(h)) && Rounded(Mag32(v), Body16(h))
  {
    hide Between, Rounded, Mag32, Wide, Shr, BitSet, Denormal;
    var e, m := Exp32(v), Man32(v);
    var b: nat;
    if e < 102 {
      TinyRounds(v);
      b := 0;
      assert e > 0 ==> FloatToHalf(v) == Sign32(v) * 0x8000 + Denormal(m, e - 112);
      if e > 0 {
        NoBitsLeft(m, e - 112);
      }
    } else if e <= 112 {
      DenormalRounds(v);
      b := Denormal(m, e - 112);
    } else if e <= 142 {
      NormalRounds(v);
      b := (e - 112) * HIDDEN16 + m / 0x2000 + if m / 0x1000 % 2 == 1 then 1 else 0;
    } else {
      HugeRounds(v);
      b := INF16;
    }
    WithinHalf(Mag32(v), b);
    assert FloatToHalf(v) == Sign32(v) * 0x8000 + b;
    BetweenIsRounded(Mag32(v), b);
  }

  lemma NoBitsLeft(m: nat, hes: int)
    requires m < HIDDEN32 && hes < -10
    ensures Denormal(m, hes) == 0
  {
  }

  lemma WithinHalf(a: nat, b: nat)
    requires Between(a, b)
    ensures b <= INF16
  {
  }

  /** Zeros of both signs and anything that is no number become plain zero. */
  lemma NothingElse(v: Float)
    requires NaN32(v) || Zero32(v)
    ensures FloatToHalf(v) == 0
  {
  }

  function Value32(v: Float): int {
    if Sign32(v) == 1 then -(Mag32(v) as int) else Mag32(v)
  }

  function Value16(h: Code): int
    requires !NaN16(h)
  {
    if Sign16(h) == 1 then -(Wide(Body16(h)) as int) else Wide(Body16(h))
  }

  lemma ZeroValue(v: Float)
    ensures Zero32(v) <==> Mag32(v) == 0
  {
    if Exp32(v) != 0 {
      Scaled(1, Pow2(Exp32(v) - 1), HIDDEN32 + Man32(v));
    }
  }

  lemma Converted(v: Float)
    requires !NaN32(v)
    ensures var h := FloatToHalf(v);
            && h < 0x1_0000 && !NaN16(h) && Between(Mag32(v), Body16(h))
            && (Sign16(h) == Sign32(v) || Body16(h) == 0)
  {
    hide Wide, FloatToHalf, Mag32;
    ZeroValue(v);
    if Zero32(v) {
      NothingElse(v);
      ZeroBetween();
    } else {
      RoundsToNearest(v);
    }
  }

  lemma ZeroBetween()
    ensures Wide(0) == 0 && Between(0, 0)
  {
    hide Pow2;
    WideGrows(0, 1);
  }

  lemma WideInOrder(b: nat, c: nat)
    requires b <= c <= INF16
    ensures 0 <= Wide(b) <= Wide(c)
  {
    hide Wide;
    if b < c {
      WideGrows(b, c);
    }
  }

  /** Rounding keeps the order of all numbers, infinities included. */
  lemma Monotone(v: Float, w: Float)
    requires !NaN32(v) && !NaN32(w) && Value32(v) <= Value32(w)
    ensures var g, h := FloatToHalf(v), FloatToHalf(w);
            && g < 0x1_0000 && h < 0x1_0000 && !NaN16(g) && !NaN16(h) && Value16(g) <= Value16(h)
  {
    hide Wide, FloatToHalf, Mag32, Between;
    Converted(v);
    Converted(w);
    ZeroBetween();
    var g, h := Body16(FloatToHalf(v)), Body16(FloatToHalf(w));
    if Mag32(v) <= Mag32(w) {
      RoundsInOrder(Mag32(v), g, Mag32(w), h);
      WideInOrder(g, h);
    }
    if Mag32(w) <= Mag32(v) {
      RoundsInOrder(Mag32(w), h, Mag32(v), g);
      WideInOrder(h, g);
    }
    WideInOrder(0, g);
    WideInOrder(0, h);
    if Mag32(v) == 0 && Mag32(w) == 0 {
      RoundsInOrder(0, g, 0, 0);
      RoundsInOrder(0, h, 0, 0);
    }
  }

  // ---------- float_from_f16() ----------

  lemma DenormalWidened(hm: nat, n: nat)
    requires n <= 10
    ensures hm * Pow2(n) * 0x2000 * Pow2(112 - n) == hm * Pow2(125)
  {
    hide Pow2;
    Thirteen();
    PowAdd(n, 125 - n);
    PowAdd(13, 112 - n);
    Regroup(hm * Pow2(n), 1, 0x2000, Pow2(112 - n), Pow2(125 - n));
    Regroup(hm, 1, Pow2(n), Pow2(125 - n), Pow2(125));
  }

  lemma FieldsOf(h: Code, hs: nat, he: nat, hm: nat)
    requires h == hs * 0x8000 + he * HIDDEN16 + hm && hs < 2 && he < 32 && hm < HIDDEN16
    ensures h / 0x8000 == hs && h / HIDDEN16 % 32 == he && h % HIDDEN16 == hm
    ensures Body16(h) == he * HIDDEN16 + hm
  {
    assert h / HIDDEN16 == hs * 32 + he;
  }

  lemma SubnormalWidened(h: Code, hs: nat, hm: nat)
    requires h == hs * 0x8000 + hm && hs < 2 && 0 < hm < HIDDEN16
    ensures var v := HalfToFloat(h);
            Exp32(v) < 255 && Sign32(v) == hs && Mag32(v) == hm * Pow2(125)
  {
    hide Pow2, Shifts, Body16, Pack32, Exp32, Man32, Sign32;
    var n := Shifts(hm);
    ShiftsBound(hm);
    FieldsOf(h, hs, 0, hm);
    Unpacked32(hs, 113 - n, (hm * Pow2(n) - HIDDEN16) * 0x2000);
    DenormalWidened(hm, n);
  }

  lemma NormalWidened(h: Code, hs: nat, he: nat, hm: nat)
    requires h == hs * 0x8000 + he * HIDDEN16 + hm && hs < 2 && 0 < he < 31 && hm < HIDDEN16
    ensures var v := HalfToFloat(h);
            Exp32(v) < 255 && Sign32(v) == hs && Mag32(v) == Wide(he * HIDDEN16 + hm)
  {
    hide Pow2, Wide, Shifts, Body16, Pack32, Exp32, Man32, Sign32;
    FieldsOf(h, hs, he, hm);
    Unpacked32(hs, he + 112, hm * 0x2000);
    WideNormal(he, hm);
    assert HIDDEN32 + hm * 0x2000 == (HIDDEN16 + hm) * 0x2000;
  }

  /** Halves are widened without any loss. */
  lemma WidenedExactly(h: Code)
    requires !NaN16(h)
    ensures var v := HalfToFloat(h);
            && !NaN32(v) && Sign32(v) == Sign16(h)
            && if Finite16(h) then Finite32(v) && Mag32(v) == Wide(Body16(h)) else Exp32(v) == 255
  {
    hide Pow2, Shifts, Mag32;
    var hs, he, hm := h / 0x8000, h / HIDDEN16 % 32, h % HIDDEN16;
    assert Body16(h) == he * HIDDEN16 + hm;
    if Body16(h) == 0 {
      ZeroBetween();
      Unpacked32(hs, 0, 0);
      ZeroValue(HalfToFloat(h));
    } else if he == 0 {
      SubnormalWidened(h, hs, hm);
      assert Wide(hm) == hm * Pow2(125);
    } else if he < 31 {
      NormalWidened(h, hs, he, hm);
    } else {
      Unpacked32(hs, 255, 0);
    }
  }

  /** Packing what was unpacked gives the same code, except for the codes of no number and minus zero. */
  lemma PackedAgain(h: Code)
    ensures FloatToHalf(HalfToFloat(h)) == h <==> !NaN16(h) && h != 0x8000
  {
    hide FloatToHalf, HalfToFloat;
    if NaN16(h) {
      NaNWidened(h);
      NothingElse(0);
    } else if Body16(h) == 0 {
      ZeroWidened(h);
      NothingElse(HalfToFloat(h));
    } else {
      NumberPackedAgain(h);
    }
  }

  lemma NaNWidened(h: Code)
    requires NaN16(h)
    ensures HalfToFloat(h) == 0
  {
    hide Pow2, Shifts;
    var b := h % 0x8000;
    assert b / HIDDEN16 == 31 && h / HIDDEN16 == h / 0x8000 * 32 + b / HIDDEN16;
  }

  lemma ZeroWidened(h: Code)
    requires Body16(h) == 0
    ensures (h == 0 || h == 0x8000) && Zero32(HalfToFloat(h))
  {
    hide Pow2, Shifts;
  }

  lemma NumberPackedAgain(h: Code)
    requires !NaN16(h) && Body16(h) != 0
    ensures FloatToHalf(HalfToFloat(h)) == h
  {
    hide Wide, FloatToHalf, HalfToFloat, Mag32, Between, Rounded;
    var v := HalfToFloat(h);
    WidenedExactly(h);
    ZeroValue(v);
    ZeroBetween();
    WideGrows(0, Body16(h));
    RoundsToNearest(v);
    var b := Body16(FloatToHalf(v));
    if Finite16(h) {
      ExactIsRounded(Body16(h));
      RoundsInOrder(Mag32(v), b, Wide(Body16(h)), Body16(h));
      RoundsInOrder(Wide(Body16(h)), Body16(h), Mag32(v), b);
    } else {
      HugeRounds(v);
      RoundsInOrder(Mag32(v), b, Mag32(v), INF16);
      RoundsInOrder(Mag32(v), INF16, Mag32(v), b);
    }
  }

  /** The loop that normalises the mantissa of the smallest halves. */
  method Normalise(hm: nat) returns (e: nat, m: nat)
    requires 0 < hm < HIDDEN16
    ensures e + 1 == Shifts(hm) && m == hm * Pow2(e + 1)
  {
    hide Pow2, Shifts;
    OneTwo();
    ghost var total := Shifts(hm);
    ShiftsStep(hm);
    e, m := 0, 2 * hm;
    while m / HIDDEN16 % 2 == 0
      invariant m == hm * Pow2(e + 1) && 0 < m < 2 * HIDDEN16
      invariant total == e + 1 + if m < HIDDEN16 then Shifts(m) else 0
      decreases 2 * HIDDEN16 - m
    {
      ShiftsStep(m);
      Twice(hm, e);
      e, m := e + 1, 2 * m;
    }
  }

  lemma ShiftsStep(hm: nat)
    requires 0 < hm < HIDDEN16
    ensures Shifts(hm) == 1 + if 2 * hm < HIDDEN16 then Shifts(2 * hm) else 0
  {
    hide Pow2;
  }

  lemma Twice(hm: nat, e: nat)
    ensures hm * Pow2(e + 2) == 2 * (hm * Pow2(e + 1))
  {
    assert Pow2(e + 2) == 2 * Pow2(e + 1);
    hide Pow2;
  }

  method FloatFromF16(v: Code) returns (x: Float)
    ensures x == HalfToFloat(v)
  {
    hide Pow2, Shifts;
    if v == 0 {
      return 0;
    }
    if v % 0x8000 == 0 {
      return v / 0x8000 * 0x8000_0000;
    }
    var hs, he, hm := v / 0x8000, v / HIDDEN16 % 32, v % HIDDEN16;
    if he == 0 {
      ShiftsBound(hm);
      var e, m := Normalise(hm);
      return Pack32(hs, 127 - 15 - e, (m - HIDDEN16) * 0x2000);
    }
    if he == 31 {
      return if hm == 0 then Pack32(hs, 255, 0) else 0;
    }
    return Pack32(hs, he - 15 + 127, hm * 0x2000);
  }
}
