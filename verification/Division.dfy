/** 64-bit division built from an instruction that divides 64 by 32 bits. */
module Division {
  import opened Bitmap

  const W32: nat := 0x1_0000_0000
  const W64: nat := 0x1_0000_0000_0000_0000
  const W31: nat := 0x8000_0000
  const W63: int := 0x8000_0000_0000_0000

  function Pow2(n: nat): (p: nat)
    ensures p >= 1
  {
    if n == 0 then 1 else 2 * Pow2(n - 1)
  }

  function Div(n: nat, d: nat): nat
    requires d > 0
  {
    n / d
  }

  function Mod(n: nat, d: nat): nat
    requires d > 0
  {
    n % d
  }

  /** The divl instruction: it traps (None) when the quotient needs more than 32 bits. */
  function DivL(n: nat, d: nat): Option<nat> {
    if d == 0 || Div(n, d) >= W32 then None else Some(Div(n, d))
  }

  lemma {:induction false} PowSum(a: nat, b: nat)
    ensures Pow2(a + b) == Pow2(a) * Pow2(b)
  {
    if a > 0 {
      PowSum(a - 1, b);
      assert Pow2(a + b) == 2 * (Pow2(a - 1) * Pow2(b));
    }
  }

  lemma Powers()
    ensures Pow2(1) == 2 && Pow2(2) == 4 && Pow2(4) == 16 && Pow2(8) == 256 && Pow2(16) == 65536
    ensures Pow2(31) == W31 && Pow2(32) == W32
  {
    PowSum(1, 1);
    PowSum(2, 2);
    PowSum(4, 4);
    PowSum(8, 8);
    PowSum(16, 16);
    assert Pow2(32) == 2 * Pow2(31);
  }

  /** `x` shifted left by `s` bits has its top bit at bit 31. */
  ghost predicate Normal(x: nat, s: nat) {
    s <= 31 && W31 <= x * Pow2(s) < W32
  }

  lemma ShiftMore(x: nat, y: nat, a: nat, b: nat)
    requires y == x * Pow2(a)
    ensures x * Pow2(a + b) == y * Pow2(b)
  {
    PowSum(a, b);
    assert x * (Pow2(a) * Pow2(b)) == (x * Pow2(a)) * Pow2(b);
  }

  lemma ShiftFits(x: nat, p: nat, low: nat, limit: nat)
    requires low <= x <= limit && p > 0 && low * p == limit + 1 && (limit + 1) * p == W32
    ensures limit < x * p < W32 && x * p % W32 == x * p
  {
    Monotone(x, limit, p);
    Monotone(low, x, p);
    assert limit * p + p == W32;
  }

  /** One test of nlz: if the top `k` bits are clear, count them and shift them out, which
      loses no bit.  `low` is a lower bound on `x` and 2^k is `p`. */
  method ShiftIf(ghost x0: nat, x: nat, n: nat, k: nat, p: nat, ghost low: nat, limit: nat) returns (x': nat, n': nat)
    requires x == x0 * Pow2(n) && low <= x < W32
    requires p == Pow2(k) && low * p == limit + 1 && (limit + 1) * p == W32
    ensures x' == x0 * Pow2(n') && n <= n' <= n + k && limit < x' < W32
  {
    x', n' := x, n;
    if x <= limit {
      ShiftMore(x0, x, n, k);
      ShiftFits(x, p, low, limit);
      n' := n + k;
      x' := x * p % W32;
    }
  }

  /** nlz */
  method Nlz(x0: nat) returns (n: nat)
    requires 0 < x0 < W32
    ensures Normal(x0, n)
  {
    Powers();
    assert x0 * Pow2(0) == x0;
    hide Pow2;
    var x := x0;
    n := 0;
    x, n := ShiftIf(x0, x, n, 16, 65536, 1, 0x0000FFFF);
    x, n := ShiftIf(x0, x, n, 8, 256, 0x10000, 0x00FFFFFF);
    x, n := ShiftIf(x0, x, n, 4, 16, 0x1000000, 0x0FFFFFFF);
    x, n := ShiftIf(x0, x, n, 2, 4, 0x10000000, 0x3FFFFFFF);
    x, n := ShiftIf(x0, x, n, 1, 2, 0x40000000, 0x7FFFFFFF);
  }

  // ---------------------------------------------------------------- facts on quotients

  lemma Monotone(a: nat, b: nat, c: nat)
    requires a <= b
    ensures a * c <= b * c
  {
  }

  /** The quotient is the only number with the right remainder. */
  lemma QuotientIs(n: nat, d: nat, q: nat)
    requires d > 0 && q * d <= n < (q + 1) * d
    ensures n / d == q
  {
    var p := n / d;
    assert n == d * p + n % d;
    assert p * d <= n < (p + 1) * d;
    if p < q {
      Monotone(p + 1, q, d);
    } else if q < p {
      Monotone(q + 1, p, d);
    }
  }

  lemma QuotientBounds(n: nat, d: nat)
    requires d > 0
    ensures n / d * d <= n < (n / d + 1) * d
  {
    assert n == d * (n / d) + n % d;
  }

  /** Dividing twice is dividing by the product. */
  lemma DivideTwice(n: nat, a: nat, b: nat)
    requires a > 0 && b > 0
    ensures a * b > 0 && n / a / b == n / (a * b)
  {
    var p := n / a;
    var q := p / b;
    QuotientBounds(n, a);
    QuotientBounds(p, b);
    assert a * b > 0;
    Monotone(q * b, p, a);
    assert q * b * a == q * (a * b);
    Monotone(p + 1, (q + 1) * b, a);
    assert (q + 1) * b * a == (q + 1) * (a * b);
    QuotientIs(n, a * b, q);
  }

  lemma LessQuotient(n: nat, d: nat, e: nat)
    requires 0 < e <= d
    ensures n / d <= n / e
  {
    QuotientBounds(n, d);
    QuotientBounds(n, e);
    if n / d > n / e {
      Monotone(n / e + 1, n / d, e);
      Monotone2(n / d, e, d);
    }
  }

  lemma Monotone2(c: nat, a: nat, b: nat)
    requires a <= b
    ensures c * a <= c * b
  {
  }

  // ---------------------------------------------------------------- the estimate

  /** The divisor cut to its top 32 bits: v1 * k with k a power of two, at most `d`. */
  ghost predicate Cut(d: nat, k: nat, v1: nat) {
    k >= 2 && W31 <= v1 && v1 * k <= d < v1 * k + k
  }

  /** Dividing by the cut divisor instead gives the quotient or one more. */
  lemma EstimateError(n: nat, d: nat, k: nat, v1: nat)
    requires n < W64 && d > 0 && Cut(d, k, v1)
    ensures v1 * k > 0 && n / d <= n / (v1 * k) <= n / d + 1
  {
    var e, p: nat := v1 * k, n / d;
    CutPositive(d, k, v1);
    LessQuotient(n, d, e);
    QuotientBounds(n, d);
    QuotientBounds(n, e);
    ErrorBound(n, d, e, k, v1);
    hide *;
    OneMore(n, d, e, p, n / e);
  }

  lemma CutPositive(d: nat, k: nat, v1: nat)
    requires Cut(d, k, v1)
    ensures 0 < v1 * k <= d
  {
    Monotone(1, v1, k);
  }

  lemma OneMore(n: nat, d: nat, e: nat, p: nat, q: nat)
    requires 0 < e <= d && n < (p + 1) * d && q * e <= n && n * (d - e) < d * e
    ensures q <= p + 1
  {
    if q >= p + 2 {
      TooFar(n, d, e, p, q);
    }
  }

  /** n < (p + 1) d, and (p + 2) e <= n: the gap would be at least one. */
  lemma TooFar(n: nat, d: nat, e: nat, p: nat, q: nat)
    requires e <= d && 0 < e && n < (p + 1) * d && q * e <= n && q >= p + 2
    ensures n * (d - e) >= d * e
  {
    Monotone(p + 2, q, e);
    // (p + 2) e <= n and n <= (p + 1) d - 1
    assert (p + 2) * e * d <= n * d by { Monotone((p + 2) * e, n, d); }
    assert n * e <= (p + 1) * d * e by { Monotone(n, (p + 1) * d, e); }
    assert (p + 2) * e * d - (p + 1) * d * e == d * e;
    assert n * (d - e) == n * d - n * e;
  }

  lemma ErrorBound(n: nat, d: nat, e: nat, k: nat, v1: nat)
    requires n < W64 && Cut(d, k, v1) && e == v1 * k
    ensures n * (d - e) < d * e
  {
    var m := W31 * k;
    Product(n, d - e, W64 - 1, k - 1);
    Monotone(W31, v1, k);
    Product(m, m, d, e);
    Square(k);
    SquareScale(k);
  }

  lemma Product(a: nat, b: nat, c: nat, d: nat)
    requires a <= c && b <= d
    ensures a * b <= c * d
  {
    Monotone(a, c, b);
    Monotone2(c, b, d);
  }

  lemma SquareScale(k: nat)
    ensures (W31 * k) * (W31 * k) == W31 * W31 * (k * k)
  {
    assert (W31 * k) * (W31 * k) == W31 * (k * (W31 * k));
    assert k * (W31 * k) == W31 * (k * k);
  }

  lemma Square(k: nat)
    requires k >= 2
    ensures 4 * (k - 1) <= k * k
  {
    assert (k - 2) * (k - 2) >= 0;
    assert (k - 2) * (k - 2) == k * k - 4 * k + 4;
  }

  // ---------------------------------------------------------------- udiv64

  /** Schoolbook division by 32 bits: the upper half first, then its remainder with the
      lower half, which fits the instruction. */
  lemma Narrow(n: nat, d: nat)
    requires n < W64 && 0 < d < W32
    ensures var r := W32 * Mod(n / W32, d) + n % W32;
            Div(r, d) < W32 && Div(r, d) + W32 * Div(n / W32, d) == Div(n, d)
  {
    hide Div, Mod;
    var n1, n0 := n / W32, n % W32;
    var r := W32 * Mod(n1, d) + n0;
    DivMod(r, d);
    DivMod(n1, d);
    NarrowSum(n, n1, n0, d, Div(n1, d), Mod(n1, d), Div(r, d));
  }

  lemma DivMod(n: nat, d: nat)
    requires d > 0
    ensures n == d * Div(n, d) + Mod(n, d) && Mod(n, d) < d
    ensures Div(n, d) * d <= n < (Div(n, d) + 1) * d
  {
    QuotientBounds(n, d);
  }

  lemma NarrowSum(n: nat, n1: nat, n0: nat, d: nat, a: nat, m: nat, c: nat)
    requires n == W32 * n1 + n0 && n0 < W32 && n1 == d * a + m && m < d
    requires c * d <= W32 * m + n0 < (c + 1) * d
    ensures c < W32 && c + W32 * a == Div(n, d)
  {
    if c >= W32 {
      Monotone(W32, c, d);
    }
    assert W32 * (d * a) == (W32 * a) * d;
    SumTimes(c, W32 * a, d);
    SumTimes(c + 1, W32 * a, d);
    QuotientIs(n, d, c + W32 * a);
  }

  lemma SumTimes(a: nat, b: nat, c: nat)
    ensures (a + b) * c == a * c + b * c
  {
  }

  /** The divisor shifted to the left and cut to 32 bits. */
  lemma CutIs(d: nat, s: nat)
    requires W32 <= d < W64 && Normal(d / W32, s)
    ensures d * Pow2(s) < W64
    ensures Cut(d, Pow2(32 - s), d * Pow2(s) / W32)
  {
    Powers();
    PowSum(s, 32 - s);
    assert Pow2(32 - s) == 2 * Pow2(31 - s);
    hide Pow2;
    CutArith(d, d / W32, Pow2(s), Pow2(32 - s));
  }

  lemma CutArith(d: nat, d1: nat, p: nat, k: nat)
    requires d1 == d / W32 && W31 <= d1 * p < W32 && p * k == W32 && k >= 2 && p > 0
    ensures d * p < W64 && Cut(d, k, d * p / W32)
  {
    QuotientBounds(d, W32);
    if d1 >= k {
      Monotone(k, d1, p);
    }
    ShiftBounds(d, d1, p, k);
    hide Cut;
    var dp := d * p;
    QuotientIs(dp, p, d) by { SumTimes(d, 1, p); }
    DivideTwice(dp, p, k);
    QuotientBounds(d, k);
    var v := d / k;
    assert dp / W32 == v;
    assert dp / W32 >= W31;
    IsCut(d, k, v);
  }

  lemma IsCut(d: nat, k: nat, v: nat)
    requires k >= 2 && W31 <= v && v * k <= d < (v + 1) * k
    ensures Cut(d, k, v)
  {
    SumTimes(v, 1, k);
  }

  lemma ShiftBounds(d: nat, d1: nat, p: nat, k: nat)
    requires d1 * W32 <= d < (d1 + 1) * W32 && W31 <= d1 * p && p > 0 && p * k == W32 && d1 < k
    ensures W31 * W32 <= d * p < W64
  {
    Monotone(d1 * W32, d, p);
    assert d1 * W32 * p == d1 * p * W32;
    Monotone(d + 1, (d1 + 1) * W32, p);
    SumTimes(d, 1, p);
    assert (d1 + 1) * W32 * p == (d1 + 1) * p * W32;
    Monotone(d1 + 1, k, p);
  }

  function Shl(x: nat, s: nat): nat {
    x * Pow2(s)
  }

  /** The divisor shifted until its top bit is set, cut to 32 bits. */
  function Top(d: nat, s: nat): nat {
    Shl(d, s) % W64 / W32
  }

  /** The quotient that the wide branch starts from: the dividend's upper 63 bits by the
      divisor's top 32, shifted down again. */
  function Estimate(n: nat, d: nat, s: nat): nat
    requires s <= 31 && Top(d, s) > 0
  {
    Div(Div(n / 2, Top(d, s)), Pow2(31 - s))
  }

  lemma DivTwice(n: nat, a: nat, b: nat)
    requires a > 0 && b > 0
    ensures a * b > 0 && Div(Div(n, a), b) == Div(n, a * b)
  {
    DivideTwice(n, a, b);
  }

  lemma Error(n: nat, d: nat, k: nat, v1: nat)
    requires n < W64 && d > 0 && Cut(d, k, v1)
    ensures v1 * k > 0 && Div(n, d) <= Div(n, v1 * k) <= Div(n, d) + 1
  {
    EstimateError(n, d, k, v1);
  }

  lemma EstimateArith(n: nat, d: nat, k: nat, h: nat, v1: nat)
    requires n < W64 && d > 0 && Cut(d, k, v1) && k == 2 * h && h > 0
    ensures v1 > 0 && Div(n, d) <= Div(Div(Div(n, 2), v1), h) <= Div(n, d) + 1
  {
    Error(n, d, k, v1);
    hide Div;
    DivTwice(n, 2, v1);
    DivTwice(n, 2 * v1, h);
    Regroup(v1, h);
  }

  lemma Regroup(v: nat, h: nat)
    ensures 2 * v * h == v * (2 * h)
  {
  }

  lemma FitsWide(m: nat, v: nat)
    requires m < W63 && v >= W31
    ensures Div(m, v) < W32
  {
    DivMod(m, v);
    if Div(m, v) >= W32 {
      Product(W32, W31, Div(m, v), v);
    }
  }

  lemma TopIs(d: nat, s: nat)
    requires W32 <= d < W64 && Normal(d / W32, s)
    ensures s <= 31 && Pow2(32 - s) == 2 * Pow2(31 - s) && Cut(d, Pow2(32 - s), Top(d, s)) && W31 <= Top(d, s) < W32
  {
    CutIs(d, s);
    RemIs(d * Pow2(s));
  }

  lemma RemIs(x: int)
    ensures 0 <= x < W64 ==> x % W64 == x
  {
  }

  /** In the wide branch the instruction does not trap, and the estimate is the quotient or
      one more. */
  lemma EstimateClose(n: nat, d: nat, s: nat)
    requires n < W64 && W32 <= d < W64 && Normal(d / W32, s)
    ensures s <= 31 && W31 <= Top(d, s) < W32 && Div(n / 2, Top(d, s)) < W32
    ensures Div(n, d) <= Estimate(n, d, s) <= Div(n, d) + 1
  {
    TopIs(d, s);
    FitsWide(n / 2, Top(d, s));
    assert Div(n, 2) == n / 2;
    hide Pow2, Div, Top, Cut;
    EstimateArith(n, d, Pow2(32 - s), Pow2(31 - s), Top(d, s));
  }

  /** Both outcomes occur. */
  lemma EstimateExample()
    ensures Normal((W32 + 1) / W32, 31) && Normal(W32 / W32, 31) && Top(W32 + 1, 31) > 0 && Top(W32, 31) > 0
    ensures Estimate(W64 - 2, W32 + 1, 31) == Div(W64 - 2, W32 + 1) + 1
    ensures Estimate(W64 - 2, W32, 31) == Div(W64 - 2, W32)
  {
    Powers();
    assert Pow2(0) == 1;
    assert Top(W32 + 1, 31) == W31 && Top(W32, 31) == W31;
    hide Pow2, Top;
  }

  /** The last line of the wide branch, in 64-bit arithmetic. */
  lemma Correction(n: nat, d: nat, q: nat)
    requires 0 < d <= n < W64 && Div(n, d) <= q <= Div(n, d) + 1
    ensures q > 0
    ensures (n - (q - 1) * d) % W64 < d <==> q == Div(n, d) + 1
  {
    DivMod(n, d);
    var p := Div(n, d);
    hide Div, Mod;
    SumTimes(p, 1, d);
    if q == p {
      assert p > 0;
      SumTimes(p - 1, 1, d);
      RemIs(n - (p - 1) * d);
    } else {
      RemIs(n - p * d);
    }
  }

  /** udiv64 with a divisor below 2^32. */
  method DivideNarrow(n: nat, d: nat) returns (q: nat)
    requires n < W64 && 0 < d < W32
    ensures q == Div(n, d)
  {
    hide Div, Mod, DivL;
    Narrow(n, d);
    var n1, n0 := n / W32, n % W32;
    var low := DivL(W32 * Mod(n1, d) + n0, d);
    DivLIs(W32 * Mod(n1, d) + n0, d);
    q := low.value + W32 * Div(n1, d);
  }

  lemma DivLIs(n: nat, d: nat)
    ensures d > 0 && Div(n, d) < W32 ==> DivL(n, d) == Some(Div(n, d))
  {
  }

  /** udiv64 with a divisor of 2^32 or more. */
  method DivideWide(n: nat, d: nat) returns (q: nat)
    requires n < W64 && W32 <= d < W64
    ensures q == Div(n, d)
  {
    if n < d {
      QuotientIs(n, d, 0);
      return 0;
    }
    hide *;
    var s := Nlz(d / W32);
    EstimateClose(n, d, s);
    var v1 := Top(d, s);
    var e := DivL(n / 2, v1);
    DivLIs(n / 2, v1);
    var estimate := Div(e.value, Pow2(31 - s));
    EstimateIs(n, d, s);
    Correction(n, d, estimate);
    q := if (n - (estimate - 1) * d) % W64 < d then estimate - 1 else estimate;
  }

  lemma EstimateIs(n: nat, d: nat, s: nat)
    requires s <= 31 && Top(d, s) > 0
    ensures Estimate(n, d, s) == Div(Div(n / 2, Top(d, s)), Pow2(31 - s))
  {
  }

  lemma DivIs(n: nat, d: nat)
    requires d > 0
    ensures Div(n, d) == n / d
  {
  }

  /** udiv64: the floor of the quotient; it traps for a zero divisor only. */
  method UDiv64(n: nat, d: nat) returns (q: Option<nat>)
    requires n < W64 && d < W64
    ensures q == if d == 0 then None else Some(n / d)
  {
    var r;
    if d / W32 == 0 {
      if d == 0 {
        return None;
      }
      r := DivideNarrow(n, d);
    } else {
      r := DivideWide(n, d);
    }
    q := Some(r);
  }

  // ---------------------------------------------------------------- sdiv64

  /** The signed number that a 64-bit word stands for. */
  function Signed(w: int): (r: int)
    ensures -W63 <= r < W63 && (r - w) % W64 == 0
  {
    var m := w % W64;
    if m < W63 then m else m - W64
  }

  /** Division truncated toward zero, as C's `/` on integers. */
  function Truncated(n: int, d: int): int
    requires d != 0
  {
    if (n < 0) == (d < 0) then Div(Abs(n), Abs(d)) else -(Div(Abs(n), Abs(d)) as int)
  }

  function Abs(x: int): nat {
    if x < 0 then -x else x
  }

  /** What truncation means: the remainder is smaller than the divisor and has the sign of
      the dividend. */
  lemma TruncatedMeans(n: int, d: int)
    requires d != 0
    ensures var r := n - Truncated(n, d) * d;
            Abs(r) < Abs(d) && (r == 0 || (r < 0) == (n < 0))
  {
    DivMod(Abs(n), Abs(d));
    var q, m := Div(Abs(n), Abs(d)), Mod(Abs(n), Abs(d));
    hide Div, Mod;
    assert Abs(n) == Abs(d) * q + m;
    SignedProduct(d, q);
  }

  lemma SignedProduct(d: int, q: int)
    requires q >= 0
    ensures (-q) * d == -(q * d) && Abs(d) * q == if d < 0 then -(q * d) else q * d
  {
  }

  /** sdiv64 with two's-complement wrap-around. */
  method SDiv64(n: int, d: int) returns (q: Option<int>)
    requires -W63 <= n < W63 && -W63 <= d < W63
    ensures q.None? <==> d == 0
    ensures d != 0 ==> -W63 <= q.value < W63
    ensures d != 0 ==> (q == Some(Truncated(n, d)) <==> !(n == -W63 && d == -1))
    ensures n == -W63 && d == -1 ==> q == Some(-W63)
  {
    hide Div, Signed;
    var nAbs := Magnitude(n);
    var dAbs := Magnitude(d);
    var qAbs := UDiv64(nAbs, dAbs);
    if qAbs.None? {
      return None;
    }
    assert dAbs > 0 by { Nonzero(d); }
    DivIs(nAbs, dAbs);
    SignedQuotient(Abs(n), Abs(d));
    SignBack(qAbs.value);
    q := Some(if (n < 0) == (d < 0) then Signed(qAbs.value) else Signed(-Signed(qAbs.value)));
  }

  /** The absolute value as an unsigned number, negated modulo 2^64. */
  method Magnitude(x: int) returns (a: nat)
    requires -W63 <= x < W63
    ensures a == Abs(x) && a < W64
  {
    a := if x >= 0 then x else (-(x % W64)) % W64;
  }

  lemma Nonzero(d: int)
    ensures Abs(d) == 0 <==> d == 0
  {
  }

  /** Converting a magnitude of at most 2^63 back to a signed word, and negating it. */
  lemma SignBack(q: int)
    requires 0 <= q <= W63
    ensures Signed(q) == if q == W63 then -W63 else q
    ensures Signed(-Signed(q)) == -q
  {
  }

  /** The quotient of the absolute values needs 64 bits only for the least number by one. */
  lemma SignedQuotient(n: nat, d: nat)
    requires n <= W63 && 0 < d <= W63
    ensures Div(n, d) <= W63 && (Div(n, d) == W63 <==> n == W63 && d == 1)
  {
    DivMod(n, d);
    var q := Div(n, d);
    if d > 1 {
      if q >= W63 {
        Product(W63, 2, q, d);
      }
    } else {
      assert n / 1 == n;
    }
  }
}
