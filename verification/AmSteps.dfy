/** One limb of the three multiply-accumulate kernels, written with the machine operators they use. */
module AmSteps {
  import opened JsNumber
  import opened Limbs

  /** Operands of one multiply-accumulate step in base b. The carry never exceeds the multiplier. */
  predicate StepArgs(b: int, x: int, a: int, w: int, c: int) {
    0 <= c <= x < 2 * b && 0 <= a < b && 0 <= w < b
  }

  lemma MulBound(x: int, y: int, X: int, Y: int)
    requires 0 <= x <= X && 0 <= y <= Y
    ensures 0 <= x * y <= X * Y
  {
    MulLe(x, X, y);
    assert X * y == y * X && X * Y == Y * X;
    MulLe(y, Y, X);
  }

  lemma CarryBound(b: int, x: int, a: int, w: int, c: int)
    requires StepArgs(b, x, a, w, c)
    ensures 0 <= x * a + w + c <= x * b + b - 1
    ensures 0 <= (x * a + w + c) / b <= x
  {
    MulBound(x, a, x, b - 1);
    assert x * (b - 1) == x * b - x;
    assert (x + 1) * b == x * b + b;
    DivBounds(x * a + w + c, b, x);
    DivBounds(x * a + w + c, b, 0);
  }

  /** am1: one multiplication and one division, 26-bit limbs. */
  function Am1Step(x: int, a: int, w: int, c: int): (r: (int, int))
    requires StepArgs(0x400_0000, x, a, w, c)
    ensures r.0 == (x * a + w + c) % 0x400_0000
    ensures r.1 == (x * a + w + c) / 0x400_0000
  {
    var v := x * a + w + c;
    CarryBound(0x400_0000, x, a, w, c);
    (Mask(v, 0x400_0000), FloorDiv(v, 0x400_0000))
  }

  /** With multipliers of at most twice a limb, which is what squareTo passes, no value exceeds
      2 * b^2 - b - 1. */
  lemma StepMaximum(b: int, x: int, a: int, w: int, c: int)
    requires StepArgs(b, x, a, w, c) && x <= 2 * b - 2
    ensures x * a + w + c <= 2 * (b * b) - b - 1
  {
    CarryBound(b, x, a, w, c);
    MulLe(x, 2 * b - 2, b);
    assert (2 * b - 2) * b == 2 * (b * b) - 2 * b;
  }

  /** That value is reached, and is above the 2 * b^2 - 2 * b named beside the kernels. */
  lemma StepMaximumReached(b: int)
    requires b > 1
    ensures StepArgs(b, 2 * b - 2, b - 1, b - 1, 2 * b - 2)
    ensures (2 * b - 2) * (b - 1) + (b - 1) + (2 * b - 2) == 2 * (b * b) - b - 1 > 2 * (b * b) - 2 * b
  {
    assert (2 * b - 2) * (b - 1) == 2 * (b * b) - 4 * b + 2;
  }

  lemma HalfProducts(x: int, a: int, h: int)
    requires 0 < h
    ensures x * a == (x % h) * (a % h)
                     + ((x / h) * (a % h) + (a / h) * (x % h)) * h
                     + (x / h) * (a / h) * (h * h)
  {
    Foil(x / h, x % h, a / h, a % h, h, x, a);
  }

  lemma Foil(xh: int, xl: int, ah: int, al: int, h: int, x: int, a: int)
    requires x == xh * h + xl && a == ah * h + al
    ensures x * a == xl * al + (xh * al + ah * xl) * h + xh * ah * (h * h)
  {
    var u, v := xh * h, ah * h;
    assert (u + xl) * (v + al) == u * v + u * al + xl * v + xl * al;
    assert u * v == xh * ah * (h * h);
    assert u * al + xl * v == (xh * al + ah * xl) * h;
  }

  /** Reassembles a product from its low half-limb sum l and the middle product m. */
  lemma Reassemble(v: int, l: int, m: int, hh: int, h: int, b: int)
    requires 0 < h && b == h * h
    requires v == l + (m / h) * b + hh * b
    ensures v % b == l % b && v / b == l / b + m / h + hh
  {
    assert l == b * (l / b) + l % b;
    var q := l / b + m / h + hh;
    assert q * b == (l / b) * b + (m / h) * b + hh * b;
    DivUnique(v, b, q, l % b);
  }

  /** am2: 15-bit halves, 30-bit limbs. Products use the full unsigned 32-bit range. */
  function Am2Step(x: int, a: int, w: int, c: int): (r: (int, int))
    requires StepArgs(0x4000_0000, x, a, w, c)
    ensures r.0 == (x * a + w + c) % 0x4000_0000
    ensures r.1 == (x * a + w + c) / 0x4000_0000
  {
    var xl, xh := Mask(x, 0x8000), Shr(x, 0x8000);
    var al, ah := Mask(a, 0x8000), Shr(a, 0x8000);
    MulBound(xh, al, 0xffff, 0x7fff);
    MulBound(ah, xl, 0x7fff, 0x7fff);
    MulBound(xl, al, 0x7fff, 0x7fff);
    var m := xh * al + ah * xl;
    var l := xl * al + Shl(Mask(m, 0x8000), 0x8000) + w + Mask(c, 0x4000_0000);
    HalfProducts(x, a, 0x8000);
    assert m == 0x8000 * (m / 0x8000) + m % 0x8000;
    Reassemble(x * a + w + Mask(c, 0x4000_0000), l, m, xh * ah, 0x8000, 0x4000_0000);
    Reassemble(x * a + w + c, x * a + w + Mask(c, 0x4000_0000), 0, Ushr(c, 0x4000_0000), 0x8000, 0x4000_0000);
    (Mask(l, 0x4000_0000), Ushr(l, 0x4000_0000) + Ushr(m, 0x8000) + xh * ah + Ushr(c, 0x4000_0000))
  }

  /** am3: 14-bit halves, 28-bit limbs, every intermediate a signed 32-bit integer. */
  function Am3Step(x: int, a: int, w: int, c: int): (r: (int, int))
    requires StepArgs(0x1000_0000, x, a, w, c)
    ensures r.0 == (x * a + w + c) % 0x1000_0000
    ensures r.1 == (x * a + w + c) / 0x1000_0000
  {
    var xl, xh := Mask(x, 0x4000), Shr(x, 0x4000);
    var al, ah := Mask(a, 0x4000), Shr(a, 0x4000);
    MulBound(xh, al, 0x7fff, 0x3fff);
    MulBound(ah, xl, 0x3fff, 0x3fff);
    MulBound(xl, al, 0x3fff, 0x3fff);
    var m := xh * al + ah * xl;
    var l := xl * al + Shl(Mask(m, 0x4000), 0x4000) + w + c;
    HalfProducts(x, a, 0x4000);
    assert m == 0x4000 * (m / 0x4000) + m % 0x4000;
    Reassemble(x * a + w + c, l, m, xh * ah, 0x4000, 0x1000_0000);
    (Mask(l, 0x1000_0000), Shr(l, 0x1000_0000) + Shr(m, 0x4000) + xh * ah)
  }
}
