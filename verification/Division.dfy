/** 64-bit division from the 32-bit `divl` instruction (proj-pregame/src/lib/arithmetic.c).

    Unsigned words are naturals below a power of two and signed words are integers in two's
    complement range; every operation that can wrap is written out with `U64`, `S64`, `U32` or `S32`. */
module Division {
  const B32: int := 0x1_0000_0000
  const B63: int := 0x8000_0000_0000_0000
  const B64: int := 0x1_0000_0000_0000_0000

  /** A result, or the divide error (#DE) raised by the processor. */
  datatype Quotient<T> = Ok(value: T) | Trap

  function U32(x: int): nat { x % B32 }
  function U64(x: int): nat { x % B64 }

  /** The signed reading of the low 64 bits of `x`. */
  function S64(x: int): int {
    if x % B64 < B63 then x % B64 else x % B64 - B64
  }

  /** The signed reading of the low 32 bits of `x`. */
  function S32(x: int): int {
    if x % B32 < 0x8000_0000 then x % B32 else x % B32 - B32
  }

  /** Floor division by repeated subtraction; `DivIsFloor` relates it to the built-in operator. */
  function Div(n: nat, d: nat): nat
    requires d > 0
  {
    if n < d then 0 else 1 + Div(n - d, d)
  }

  function Mod(n: nat, d: nat): nat
    requires d > 0
  {
    DivMod(n, d);
    n - Div(n, d) * d
  }

  function Pow2(n: nat): (p: nat)
    ensures p > 0
  {
    if n == 0 then 1 else 2 * Pow2(n - 1)
  }

  lemma U64Fits(x: int)
    requires 0 <= x < B64
    ensures U64(x) == x
  {
  }

  /* ---- Linear steps of nonlinear arguments ---- */

  lemma MulLe(a: int, b: int, c: int)
    requires a <= b && 0 <= c
    ensures a * c <= b * c
  {
    assert b * c - a * c == (b - a) * c;
  }

  lemma Distribute(a: int, b: int, c: int)
    ensures (a + b) * c == a * c + b * c
  {
  }

  lemma Associate(a: int, b: int, c: int)
    ensures a * b * c == a * (b * c) == b * (a * c)
  {
  }

  lemma CancelLe(a: int, b: int, c: int)
    requires 0 < c && a * c < b * c + c
    ensures a <= b
  {
    if b + 1 <= a {
      MulLe(b + 1, a, c);
      Distribute(b, 1, c);
      assert false;
    }
  }

  lemma {:induction false} DivMod(n: nat, d: nat)
    requires d > 0
    ensures Div(n, d) * d <= n < Div(n, d) * d + d
  {
    if n >= d {
      DivMod(n - d, d);
      Distribute(1, Div(n - d, d), d);
    }
  }

  /** `q` is the quotient exactly when it leaves a remainder in range. */
  lemma DivIs(n: nat, d: nat, q: int)
    requires d > 0 && q * d <= n < q * d + d
    ensures Div(n, d) == q
  {
    DivMod(n, d);
    CancelLe(Div(n, d), q, d);
    CancelLe(q, Div(n, d), d);
  }

  lemma DivIsFloor(n: nat, d: nat)
    requires d > 0
    ensures Div(n, d) == n / d && Mod(n, d) == n % d
  {
    assert n == n / d * d + n % d;
    DivIs(n, d, n / d);
  }

  lemma NestedBounds(n: nat, a: nat, b: nat, m: nat, q: nat)
    requires a > 0 && m * a <= n < m * a + a && q * b <= m < q * b + b
    ensures q * (a * b) <= n < q * (a * b) + a * b
  {
    MulLe(q * b, m, a);
    MulLe(m + 1, q * b + b, a);
    Distribute(m, 1, a);
    Distribute(q * b, b, a);
    Associate(q, b, a);
    assert b * a == a * b;
  }

  /** Dividing twice is dividing by the product. */
  lemma DivDiv(n: nat, a: nat, b: nat)
    requires a > 0 && b > 0
    ensures a * b > 0 && Div(Div(n, a), b) == Div(n, a * b)
  {
    DivMod(n, a);
    DivMod(Div(n, a), b);
    NestedBounds(n, a, b, Div(n, a), Div(Div(n, a), b));
    DivIs(n, a * b, Div(Div(n, a), b));
  }

  /** A larger divisor gives no larger quotient. */
  lemma DivAntitone(n: nat, a: nat, b: nat)
    requires 0 < a <= b
    ensures Div(n, b) <= Div(n, a)
  {
    DivMod(n, a);
    DivMod(n, b);
    MulLe(a, b, Div(n, b));
    CancelLe(Div(n, b), Div(n, a), a);
  }

  lemma {:induction false} PowSum(a: nat, b: nat)
    ensures Pow2(a + b) == Pow2(a) * Pow2(b)
  {
    if a > 0 {
      PowSum(a - 1, b);
      Associate(2, Pow2(a - 1), Pow2(b));
    }
  }

  lemma Pow2Byte(n: nat)
    ensures Pow2(n + 8) == 256 * Pow2(n)
  {
    assert Pow2(n + 1) == 2 * Pow2(n) && Pow2(n + 2) == 4 * Pow2(n);
    assert Pow2(n + 3) == 8 * Pow2(n) && Pow2(n + 4) == 16 * Pow2(n);
    assert Pow2(n + 5) == 32 * Pow2(n) && Pow2(n + 6) == 64 * Pow2(n);
    assert Pow2(n + 7) == 128 * Pow2(n);
  }

  lemma Pow2Is32()
    ensures Pow2(32) == B32
  {
    Pow2Byte(0);
    Pow2Byte(8);
    Pow2Byte(16);
    Pow2Byte(24);
  }

  lemma Pow2Is64()
    ensures Pow2(64) == B64
  {
    Pow2Is32();
    Pow2Byte(32);
    Pow2Byte(40);
    Pow2Byte(48);
    Pow2Byte(56);
  }

  /* ---- divl and nlz ---- */

  /** `divl`: the 32-bit quotient of a 64-bit by a 32-bit number, or a trap when the quotient needs more bits. */
  method Divl(n: nat, d: nat) returns (q: Quotient<nat>)
    requires n < B64 && d < B32
    ensures q.Trap? <==> d == 0 || n >= B32 * d
    ensures q.Ok? ==> q.value < B32 && q.value * d <= n < q.value * d + d
  {
    if d == 0 {
      return Trap;
    }
    DivMod(n, d);
    var v := Div(n, d);
    if v >= B32 {
      MulLe(B32, v, d);
    } else {
      MulLe(v + 1, B32, d);
      Distribute(v, 1, d);
    }
    q := if v >= B32 then Trap else Ok(v);
  }

  /** A quotient below 2^32 is what `divl` computes. */
  lemma DivlFits(n: nat, d: nat)
    requires d > 0 && Div(n, d) < B32
    ensures n < B32 * d
  {
    DivMod(n, d);
    MulLe(Div(n, d) + 1, B32, d);
    Distribute(Div(n, d), 1, d);
  }

  /** `x` shifted left `n` times, without losing bits. */
  ghost function Shifted(x: nat, n: nat): nat {
    if n == 0 then x else 2 * Shifted(x, n - 1)
  }

  lemma {:induction false} ShiftedMore(x: nat, n: nat, k: nat)
    ensures Shifted(x, n + k) == Shifted(Shifted(x, n), k)
  {
    if k > 0 {
      ShiftedMore(x, n, k - 1);
    }
  }

  lemma {:induction false} ShiftedIsProduct(x: nat, n: nat)
    ensures Shifted(x, n) == x * Pow2(n)
  {
    if n > 0 {
      ShiftedIsProduct(x, n - 1);
      Associate(x, 2, Pow2(n - 1));
    }
  }

  lemma ShiftedNibble(y: nat)
    ensures Shifted(y, 1) == 2 * y && Shifted(y, 2) == 4 * y && Shifted(y, 4) == 16 * y
  {
    assert Shifted(y, 1) == 2 * y;
    assert Shifted(y, 2) == 4 * y;
    assert Shifted(y, 3) == 8 * y;
  }

  lemma ShiftedBy(y: nat)
    ensures Shifted(y, 1) == 2 * y && Shifted(y, 2) == 4 * y && Shifted(y, 4) == 16 * y
    ensures Shifted(y, 8) == 256 * y && Shifted(y, 16) == 0x1_0000 * y
  {
    ShiftedNibble(y);
    ShiftedNibble(16 * y);
    ShiftedNibble(256 * y);
    ShiftedNibble(4096 * y);
    ShiftedMore(y, 4, 4);
    ShiftedMore(y, 8, 4);
    ShiftedMore(y, 12, 4);
  }

  lemma NlzStage(x: nat, n: nat, y: nat, k: nat, m: nat)
    requires y == Shifted(x, n) && y * m < B32
    requires (k == 1 && m == 2) || (k == 2 && m == 4) || (k == 4 && m == 16) || (k == 8 && m == 256)
             || (k == 16 && m == 0x1_0000)
    ensures U32(y * m) == Shifted(x, n + k) && y * m == Shifted(x, n + k)
  {
    ShiftIs(y, k, m);
    ShiftedMore(x, n, k);
    SmallWord(y * m);
  }

  lemma ShiftIs(y: nat, k: nat, m: nat)
    requires (k == 1 && m == 2) || (k == 2 && m == 4) || (k == 4 && m == 16) || (k == 8 && m == 256)
             || (k == 16 && m == 0x1_0000)
    ensures Shifted(y, k) == y * m
  {
    ShiftedBy(y);
  }

  lemma SmallWord(x: nat)
    requires x < B32
    ensures U32(x) == x
  {
  }

  /** Lines 43-51: whole bytes of zeros. */
  method NlzBytes(x: nat) returns (n: nat, y: nat)
    requires 0 < x < B32
    ensures n <= 24 && 0x100_0000 <= y < B32 && y == Shifted(x, n)
  {
    n, y := 0, x;
    if y <= 0x0000FFFF {
      NlzStage(x, n, y, 16, 0x1_0000);
      n, y := n + 16, U32(y * 0x1_0000);
    }
    assert n <= 16 && 0x1_0000 <= y < B32 && y == Shifted(x, n);
    if y <= 0x00FFFFFF {
      NlzStage(x, n, y, 8, 256);
      n, y := n + 8, U32(y * 256);
    }
  }

  /** The number of leading zeros of a nonzero 32-bit word: shifting by it puts the highest one bit on top. */
  method Nlz(x: nat) returns (n: nat)
    requires 0 < x < B32
    ensures n <= 31 && 0x8000_0000 <= Shifted(x, n) < B32
  {
    var y: nat;
    n, y := NlzBytes(x);
    if y <= 0x0FFFFFFF {
      NlzStage(x, n, y, 4, 16);
      n, y := n + 4, U32(y * 16);
    }
    assert n <= 28 && 0x1000_0000 <= y < B32 && y == Shifted(x, n);
    if y <= 0x3FFFFFFF {
      NlzStage(x, n, y, 2, 4);
      n, y := n + 2, U32(y * 4);
    }
    assert n <= 30 && 0x4000_0000 <= y < B32 && y == Shifted(x, n);
    if y <= 0x7FFFFFFF {
      NlzStage(x, n, y, 1, 2);
      n := n + 1;
    }
  }

  /* ---- udiv64, at most 32 bits of divisor ---- */

  /** Schoolbook division: the estimate for the low digit fits in 32 bits, and it completes the quotient. */
  lemma NarrowCase(n: nat, d: nat, n1: nat, n0: nat, h: nat, m: nat)
    requires n == B32 * n1 + n0 < B64 && n0 < B32 && 0 < d < B32
    requires h == Div(n1, d) && m == B32 * (n1 - h * d) + n0
    ensures 0 <= m < B64 && Div(m, d) < B32
    ensures Div(m, d) + B32 * h == Div(n, d) < B64
  {
    NarrowLow(d, n1, n0, h, m);
    DivMod(m, d);
    Distribute(Div(m, d), B32 * h, d);
    Associate(B32, h, d);
    DivIs(n, d, Div(m, d) + B32 * h);
    QuotientFits(n, d);
  }

  lemma QuotientFits(n: nat, d: nat)
    requires n < B64 && 0 < d
    ensures Div(n, d) < B64
  {
    DivMod(n, d);
    MulLe(1, d, Div(n, d));
  }

  lemma NarrowLow(d: nat, n1: nat, n0: nat, h: nat, m: nat)
    requires n0 < B32 && 0 < d < B32 && h == Div(n1, d) && m == B32 * (n1 - h * d) + n0
    ensures 0 <= m < B64 && Div(m, d) < B32
  {
    DivMod(n1, d);
    DivMod(m, d);
    CancelLe(Div(m, d), B32 - 1, d);
  }

  /** Lines 93-98. */
  method UdivNarrow(n: nat, d: nat) returns (r: Quotient<nat>)
    requires n < B64 && d < B32
    ensures r == if d == 0 then Trap else Ok(Div(n, d))
  {
    var n1, n0 := n / B32, n % B32;
    if d == 0 { return Trap; }
    NarrowCase(n, d, n1, n0, Div(n1, d), B32 * Mod(n1, d) + n0);
    var m := B32 * Mod(n1, d) + n0;
    U64Fits(m);
    DivlFits(m, d);
    var low := Divl(U64(m), d);
    DivIs(m, d, low.value);
    U64Fits(low.value + B32 * Div(n1, d));
    r := Ok(U64(low.value + B32 * Div(n1, d)));
  }

  /* ---- udiv64, more than 32 bits of divisor ---- */

  /** A multiple of `p` below `p * r` leaves room for another `p`. */
  lemma ShiftFits(x: nat, p: nat, r: nat)
    requires p > 0 && x * p < p * r
    ensures x * p + p <= p * r
  {
    assert p * r == r * p;
    if r <= x {
      MulLe(r, x, p);
      assert false;
    }
    MulLe(x + 1, r, p);
    Distribute(x, 1, p);
  }

  /** Shifting `d` left by `s` loses no bit, and its top 32 bits `v` have their high bit set. */
  lemma TopBits(d: nat, p: nat, r: nat, v: nat)
    requires p > 0 && r > 0 && p * r == B32 && 0x8000_0000 <= d / B32 * p < B32 && v == d * p / B32
    ensures d * p < B64 && 0x8000_0000 <= v < B32
  {
    var d1, d0 := d / B32, d % B32;
    ShiftFits(d1, p, r);
    assert d == d1 * B32 + d0;
    Distribute(d1 * B32, d0, p);
    Associate(d1, B32, p);
    MulLe(d0, B32, p);
  }

  /** `v` scaled back by `r` is `d` with its low bits cleared. */
  lemma ScaledBack(d: nat, p: nat, r: nat, v: nat)
    requires p > 0 && r > 0 && p * r == B32 && v == d * p / B32
    ensures v * r <= d < v * r + r
  {
    assert r * p == B32;
    Associate(v, r, p);
    CancelLe(v * r, d, p);
    Distribute(v, 1, r);
    Associate(v + 1, r, p);
    assert d * p < (v + 1) * r * p;
    if (v + 1) * r <= d {
      MulLe((v + 1) * r, d, p);
      assert false;
    }
  }

  /** The estimate with a divisor `e` that is less than `g` too small is the quotient or one more, when
      `a` bounds the quotient. */
  lemma CloseEstimate(n: nat, d: nat, e: nat, a: nat, g: nat)
    requires 0 < e <= d < e + g && n < e * a && a * g - a <= e
    ensures Div(n, d) <= Div(n, e) <= Div(n, d) + 1
  {
    DivAntitone(n, e, d);
    var q := Div(n, d);
    DivMod(n, d);
    DivMod(n, e);
    if a <= q {
      MulLe(a, q, e);
      MulLe(e, d, q);
      assert false;
    }
    SmallGap(n, d, e, a, g, q);
    CancelLe(Div(n, e), q + 1, e);
  }

  lemma SmallGap(n: nat, d: nat, e: nat, a: nat, g: nat, q: nat)
    requires e <= d < e + g && q < a && a * g - a <= e && n < q * d + d
    ensures n < (q + 1) * e + e
  {
    var gap := d - e;
    // (q + 1) * gap <= a * (g - 1) <= e
    MulLe(q + 1, a, gap);
    MulLe(gap, g - 1, a);
    assert gap * a == a * gap && (g - 1) * a == a * g - a;
    Distribute(q, 1, d);
    assert (q + 1) * d == (q + 1) * e + (q + 1) * gap;
  }

  lemma Scales(s: nat)
    requires s <= 31
    ensures Pow2(63 - s) * Pow2(s + 1) == B64
    ensures Pow2(s + 1) * Pow2(32 - s) - Pow2(s + 1) <= Pow2(63 - s)
  {
    Pow2Is32();
    Pow2Is64();
    PowSum(63 - s, s + 1);
    PowSum(s + 1, 32 - s);
    assert Pow2(32 + 1) == 2 * B32;
    PowSum(31 - s, 32);
    assert 31 - s == 0 || Pow2(31 - s) == 2 * Pow2(31 - s - 1);
  }

  lemma EstimateIsClose(n: nat, d: nat, s: nat, e: nat)
    requires s <= 31 && n < B64
    requires 0 < e <= d < e + Pow2(32 - s) && Pow2(63 - s) <= e
    ensures Div(n, d) <= Div(n, e) <= Div(n, d) + 1
  {
    Scales(s);
    var a, f := Pow2(s + 1), Pow2(63 - s);
    MulLe(f, e, a);
    CloseEstimate(n, d, e, a, Pow2(32 - s));
  }

  lemma WideScales(s: nat)
    requires s <= 31
    ensures Pow2(s) * Pow2(32 - s) == B32
    ensures Pow2(32 - s) == 2 * Pow2(31 - s)
    ensures 0x8000_0000 * Pow2(32 - s) == Pow2(63 - s)
  {
    Pow2Is32();
    PowSum(s, 32 - s);
    PowSum(31, 32 - s);
    assert Pow2(31 + 1) == 2 * Pow2(31);
  }

  /** Two truncating shifts around a division are one division. */
  lemma OneDivision(n: nat, v: nat, h: nat, r: nat)
    requires v > 0 && h > 0 && r == 2 * h
    ensures v * r > 0 && Div(Div(n / 2, v), h) == Div(n, v * r)
  {
    DivDiv(n / 2, v, h);
    DivIs(n, 2, n / 2);
    DivDiv(n, 2, v * h);
    Associate(v, 2, h);
  }

  lemma NoTrap(n: nat, v: nat)
    requires n < B64 && 0x8000_0000 <= v
    ensures Div(n / 2, v) < B32
  {
    DivMod(n / 2, v);
    CancelLe(Div(n / 2, v), B32 - 1, v);
  }

  /** `divl` by the top bits of the shifted divisor does not trap, and its shifted result is the quotient
      or one more. */
  lemma WideEstimate(n: nat, d: nat, s: nat, p: nat, h: nat, v: nat)
    requires B32 <= d <= n < B64 && s <= 31 && p == Pow2(s) && h == Pow2(31 - s)
    requires 0x8000_0000 <= Shifted(d / B32, s) < B32 && v == d * p / B32
    ensures d * p < B64 && 0 < v < B32 && Div(n / 2, v) < B32
    ensures Div(n, d) <= Div(Div(n / 2, v), h) <= Div(n, d) + 1
  {
    var r := Pow2(32 - s);
    ShiftedIsProduct(d / B32, s);
    WideScales(s);
    TopBits(d, p, r, v);
    ScaledBack(d, p, r, v);
    NoTrap(n, v);
    OneDivision(n, v, h, r);
    MulLe(0x8000_0000, v, r);
    EstimateIsClose(n, d, s, v * r);
  }

  /** The top 32 bits of the divisor after the shift of line 107. */
  function TopWord(d: nat, s: nat): nat {
    U64(d * Pow2(s)) / B32
  }

  lemma TopWordEstimate(n: nat, d: nat, s: nat)
    requires B32 <= d <= n < B64 && s <= 31 && 0x8000_0000 <= Shifted(d / B32, s) < B32
    ensures 0 < TopWord(d, s) < B32 && Div(n / 2, TopWord(d, s)) < B32
    ensures Div(n, d) <= Div(Div(n / 2, TopWord(d, s)), Pow2(31 - s)) <= Div(n, d) + 1
  {
    var x := d * Pow2(s);
    MulLe(0, d, Pow2(s));
    WideEstimate(n, d, s, Pow2(s), Pow2(31 - s), x / B32);
    U64Fits(x);
    assert TopWord(d, s) == x / B32;
  }

  /** Line 107. */
  method EstimateQuotient(n: nat, d: nat, s: nat) returns (q: Quotient<nat>)
    requires B32 <= d <= n < B64 && s <= 31 && 0x8000_0000 <= Shifted(d / B32, s) < B32
    ensures q.Ok? && Div(n, d) <= q.value <= Div(n, d) + 1
  {
    TopWordEstimate(n, d, s);
    DivlFits(n / 2, TopWord(d, s));
    var q1 := Divl(n / 2, TopWord(d, s));
    DivIs(n / 2, TopWord(d, s), q1.value);
    q := Ok(Div(q1.value, Pow2(31 - s)));
  }

  lemma NoWrap(n: nat, d: nat, q: nat)
    requires 1 <= q <= n < B64 && 0 <= (q - 1) * d <= n
    ensures U64(q - 1) == q - 1 && U64(n - U64((q - 1) * d)) == n - (q - 1) * d
  {
  }

  /** Line 108: one unit too much is noticed and corrected, without overflow. */
  method Correct(n: nat, d: nat, q: nat) returns (r: nat)
    requires 2 <= d <= n < B64 && Div(n, d) <= q <= Div(n, d) + 1
    ensures r == Div(n, d)
  {
    DivMod(n, d);
    CancelLe(1, Div(n, d), d);
    MulLe(q - 1, Div(n, d), d);
    MulLe(0, q - 1, d);
    MulLe(2, d, Div(n, d));
    NoWrap(n, d, q);
    Distribute(q - 1, 1, d);
    r := if U64(n - U64(U64(q - 1) * d)) < d then U64(q - 1) else q;
  }

  /** Lines 105-108. */
  method UdivWide(n: nat, d: nat) returns (r: Quotient<nat>)
    requires B32 <= d <= n < B64
    ensures r == Ok(Div(n, d))
  {
    var s := Nlz(d / B32);
    var q := EstimateQuotient(n, d, s);
    var corrected := Correct(n, d, q.value);
    r := Ok(corrected);
  }

  /** The two cases of `udiv64`, in terms of `Div`. */
  method UdivCases(n: nat, d: nat) returns (r: Quotient<nat>)
    requires n < B64 && d < B64
    ensures r == if d == 0 then Trap else Ok(Div(n, d))
  {
    if d / B32 == 0 {
      r := UdivNarrow(n, d);
    } else if n < d {
      r := Ok(0);
    } else {
      r := UdivWide(n, d);
    }
  }

  /** `udiv64` is floor division for every dividend and divisor, and no `divl` in it traps unless the
      divisor is zero. */
  method Udiv64(n: nat, d: nat) returns (r: Quotient<nat>)
    requires n < B64 && d < B64
    ensures r == if d == 0 then Trap else Ok(n / d)
  {
    r := UdivCases(n, d);
    if d != 0 {
      DivIsFloor(n, d);
    }
  }

  /* ---- umod64, sdiv64, smod64 ---- */

  /** `umod64` keeps only 32 bits of the remainder, so it is exact just when the remainder fits. */
  method Umod64(n: nat, d: nat) returns (r: Quotient<nat>)
    requires n < B64 && d < B64
    ensures r == if d == 0 then Trap else Ok(Mod(n, d) % B32)
    ensures d != 0 ==> (r.value == Mod(n, d) <==> Mod(n, d) < B32)
  {
    var q := UdivCases(n, d);
    if q.Trap? { return Trap; }
    LowWord(n, d);
    r := Ok(U32(U64(n - d * q.value)));
  }

  lemma LowWord(n: nat, d: nat)
    requires 0 < d && n < B64
    ensures n - d * Div(n, d) == Mod(n, d) && U64(Mod(n, d)) == Mod(n, d)
            && (Mod(n, d) % B32 == Mod(n, d) <==> Mod(n, d) < B32)
  {
    DivMod(n, d);
    Associate(1, d, Div(n, d));
    U64Fits(Mod(n, d));
  }

  predicate IsS64(x: int) { -B63 <= x < B63 }

  function Abs(x: int): nat { if x >= 0 then x else -x }

  /** Division that truncates toward zero, as C defines it. */
  function TruncDiv(n: int, d: int): int
    requires d != 0
  {
    if (n < 0) == (d < 0) then Div(Abs(n), Abs(d)) else -(Div(Abs(n), Abs(d)) as int)
  }

  lemma SignedQuotientFits(n: int, d: int)
    requires IsS64(n) && IsS64(d) && d != 0
    ensures 0 <= Div(Abs(n), Abs(d)) <= B63
    ensures Div(Abs(n), Abs(d)) == B63 <==> n == -B63 && Abs(d) == 1
  {
    DivIs(Abs(n), 1, Abs(n));
    DivIs(Abs(n), 2, Abs(n) / 2);
    DivAntitone(Abs(n), 1, Abs(d));
    if Abs(d) >= 2 { DivAntitone(Abs(n), 2, Abs(d)); }
  }

  /** Line 123: the quotient of the absolute values gets its sign back. */
  method WithSign(n: int, d: int, q: nat) returns (r: int)
    requires q <= B63 && (q == B63 ==> n == -B63 && Abs(d) == 1)
    ensures IsS64(r) && (q == B63 ==> r == -B63)
    ensures r == (if (n < 0) == (d < 0) then q as int else -(q as int)) <==> !(q == B63 && d == -1)
  {
    r := if (n < 0) == (d < 0) then S64(q) else S64(-S64(q));
  }

  /** Lines 120-121: the absolute value, as an unsigned word. */
  lemma AbsWord(x: int)
    requires IsS64(x)
    ensures x < 0 ==> U64(-(U64(x) as int)) == Abs(x)
    ensures Abs(x) < B64
  {
  }

  /** `sdiv64` truncates toward zero, except for the one quotient that no 64-bit word can hold. */
  method Sdiv64(n: int, d: int) returns (r: Quotient<int>)
    requires IsS64(n) && IsS64(d)
    ensures d == 0 ==> r == Trap
    ensures d != 0 ==> r.Ok? && IsS64(r.value) && (r.value == TruncDiv(n, d) <==> !(n == -B63 && d == -1))
    ensures n == -B63 && d == -1 ==> r == Ok(-B63)
  {
    AbsWord(n);
    AbsWord(d);
    var nAbs: nat := if n >= 0 then n else U64(-(U64(n) as int));
    var dAbs: nat := if d >= 0 then d else U64(-(U64(d) as int));
    var q := UdivCases(nAbs, dAbs);
    if q.Trap? { return Trap; }
    SignedQuotientFits(n, d);
    var signed := WithSign(n, d, q.value);
    r := Ok(signed);
  }

  /** The remainder that goes with truncating division. */
  function TruncMod(n: int, d: int): int
    requires d != 0
  {
    n - d * TruncDiv(n, d)
  }

  lemma Negate(x: int, y: int)
    ensures x * -y == -(x * y) && -x * y == -(x * y) && x * y == y * x
  {
  }

  lemma TruncModFits(n: int, d: int)
    requires IsS64(n) && IsS64(d) && d != 0
    ensures IsS64(TruncMod(n, d))
    ensures n == -B63 && d == -1 ==> TruncMod(n, d) == 0
  {
    TruncModIs(n, d);
    DivMod(Abs(n), Abs(d));
    if Abs(d) == 1 {
      DivIs(Abs(n), 1, Abs(n));
    }
  }

  /** The truncating remainder has the sign of the dividend. */
  lemma TruncModIs(n: int, d: int)
    requires d != 0
    ensures TruncMod(n, d) == if n < 0 then -(Mod(Abs(n), Abs(d)) as int) else Mod(Abs(n), Abs(d))
  {
    var q: int, t: int := Div(Abs(n), Abs(d)), TruncDiv(n, d);
    assert t == if (n < 0) == (d < 0) then q else -q;
    SignedProduct(n, d, q, t);
  }

  lemma SignedProduct(n: int, d: int, q: int, t: int)
    requires t == if (n < 0) == (d < 0) then q else -q
    ensures d * t == if n < 0 then -(q * Abs(d)) else q * Abs(d)
  {
    Negate(d, q);
    if d < 0 {
      Negate(q, d);
    }
  }

  lemma WrapOnce(n: int, x: int)
    ensures S64(n - S64(x)) == S64(n - x)
    ensures IsS64(n - x) ==> S64(n - x) == n - x
  {
  }

  /** `smod64` keeps only 32 bits of the remainder, so it is exact just when the remainder fits; the
      overflowing quotient does no harm here. */
  method Smod64(n: int, d: int) returns (r: Quotient<int>)
    requires IsS64(n) && IsS64(d)
    ensures r == if d == 0 then Trap else Ok(S32(TruncMod(n, d)))
    ensures d != 0 ==> (r.value == TruncMod(n, d) <==> -0x8000_0000 <= TruncMod(n, d) < 0x8000_0000)
  {
    var q := Sdiv64(n, d);
    if q.Trap? { return Trap; }
    TruncModFits(n, d);
    WrapOnce(n, d * q.value);
    r := Ok(S32(S64(n - S64(d * q.value))));
  }
}
