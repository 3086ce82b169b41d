/** The thumbnail size computed inside Run (ImageFunctions/Thumbnail.cs
    lines 107 and 111): the width is the configured one, the height is the
    source height divided by the integer ratio of the widths. */
module Dimensions {
  import opened Outcomes

  const Int32Min: int := -0x8000_0000
  const Int32Max: int := 0x7FFF_FFFF

  predicate IsInt32(x: int) { Int32Min <= x <= Int32Max }

  function Abs(x: int): nat { if x < 0 then -x else x }

  /** C#'s integer division `a / b`, which truncates toward zero: the
      magnitude is that of the quotient of the magnitudes, and the result is
      negative only when exactly one operand is. */
  function CsDiv(a: int, b: int): (q: int)
    requires b != 0
    ensures Abs(q) == Abs(a) / Abs(b)
    ensures q > 0 ==> (a < 0 <==> b < 0)
    ensures q < 0 ==> (a < 0 <==> b > 0)
  {
    DivideNat(Abs(a), Abs(b));
    var m := Abs(a) / Abs(b);
    if (a < 0) == (b < 0) then m else -m
  }

  /** Euclid's division of naturals, as facts the verifier can use. */
  lemma DivideNat(n: nat, d: int)
    requires d >= 1
    ensures n / d >= 0
    ensures n / d * d <= n < (n / d + 1) * d
    ensures n / d <= n
    ensures n / d == 0 <==> n < d
  {
    var q, r := n / d, n % d;
    assert n == q * d + r && 0 <= r < d;
    assert q >= 0;
    assert (q + 1) * d == q * d + d;
    assert q * d >= q by {
      assert q * d == q + q * (d - 1);
      assert q * (d - 1) >= 0;
    }
  }

  /** Truncating division leaves a remainder smaller than the divisor, with
      the sign of the dividend. */
  lemma CsDivRemainder(a: int, b: int)
    requires b != 0
    ensures var rem := a - CsDiv(a, b) * b;
            Abs(rem) < Abs(b) && (rem == 0 || (rem < 0 <==> a < 0))
  {
    var q := CsDiv(a, b);
    var m := Abs(a) / Abs(b);
    DivideNat(Abs(a), Abs(b));
    var rm := Abs(a) - m * Abs(b);
    assert 0 <= rm < Abs(b);
    var ab: int := Abs(b);
    var p := m * ab;
    if (a < 0) == (b < 0) {
      assert q == m;
      if b < 0 {
        assert q * b == -p by { assert b == -ab; }
      } else {
        assert q * b == p;
      }
    } else {
      assert q == -m;
      if b < 0 {
        assert q * b == p by { assert b == -ab; assert (-m) * (-ab) == m * ab; }
      } else {
        assert q * b == -p by { assert (-m) * ab == -(m * ab); }
      }
    }
  }

  /** On non-negative operands truncation and Dafny's (Euclidean) division
      agree. */
  lemma CsDivNonNegative(a: int, b: int)
    requires a >= 0 && b > 0
    ensures CsDiv(a, b) == a / b
  {
  }

  /** Math.Round(decimal): to the nearest integer, halves to the even one. */
  function RoundHalfEven(x: real): (r: int)
    ensures -0.5 <= r as real - x <= 0.5
    ensures (r as real - x == 0.5 || r as real - x == -0.5) ==> r % 2 == 0
  {
    var f := x.Floor;
    var frac := x - f as real;
    if frac < 0.5 then f
    else if frac > 0.5 then f + 1
    else if f % 2 == 0 then f
    else f + 1
  }

  /** Rounding a whole number gives it back. */
  lemma RoundWholeNumber(n: int)
    ensures RoundHalfEven(n as real) == n
  {
    var r := RoundHalfEven(n as real);
    assert -0.5 <= (r - n) as real <= 0.5;
  }

  /** The thumbnail's dimensions. */
  datatype Size = Size(width: int, height: int)

  /** Lines 107 and 111: divisor = width / target, then
      height = Convert.ToInt32(Math.Round((decimal)(height / divisor))); the
      cast applies after the integer division. */
  function ThumbnailSize(width: int, height: int, target: int): (r: Result<Size>)
    ensures r.Ok? <==> target != 0 && Abs(target) <= Abs(width)
    ensures r.Ok? ==> r.value.width == target
    ensures r.Err? ==> r.failure == DivideByZero(if target == 0 then DivisorStep else HeightStep)
  {
    if target == 0 then Err(DivideByZero(DivisorStep))
    else
      DivideNat(Abs(width), Abs(target));
      var divisor := CsDiv(width, target);
      if divisor == 0 then Err(DivideByZero(HeightStep))
      else Ok(Size(target, RoundHalfEven(CsDiv(height, divisor) as real)))
  }

  /** For a real image and a target no wider than it, the height is plain
      integer division, H / (W / t): the rounding does nothing. */
  lemma HeightIsIntegerQuotient(width: int, height: int, target: int)
    requires width >= 1 && height >= 0 && 1 <= target <= width
    ensures ThumbnailSize(width, height, target) == Ok(Size(target, height / (width / target)))
  {
    var divisor := width / target;
    CsDivNonNegative(width, target);
    CsDivNonNegative(height, divisor);
    RoundWholeNumber(height / divisor);
  }

  /** The height is the floor of H / divisor: never taller than the source,
      and the largest h with h * divisor <= H. */
  lemma HeightBounds(width: int, height: int, target: int)
    requires width >= 1 && height >= 0 && 1 <= target <= width
    ensures var d := width / target;
            var h := ThumbnailSize(width, height, target).value.height;
            && 0 <= h <= height
            && h * d <= height < (h + 1) * d
  {
    HeightIsIntegerQuotient(width, height, target);
    DivideNat(width, target);
    DivideNat(height, width / target);
  }

  /** When the target is more than half the source width the divisor is 1
      and the height is not reduced at all. */
  lemma NoReductionAboveHalfWidth(width: int, height: int, target: int)
    requires height >= 0 && 1 <= target <= width < 2 * target
    ensures ThumbnailSize(width, height, target) == Ok(Size(target, height))
  {
    assert width / target == 1;
    HeightIsIntegerQuotient(width, height, target);
  }

  /** The aspect ratio is kept when both divisions are exact. */
  lemma AspectRatioWhenExact(width: int, height: int, target: int)
    requires width >= 1 && height >= 0 && 1 <= target <= width
    requires width % target == 0 && height % (width / target) == 0
    ensures ThumbnailSize(width, height, target).value.height * width == height * target
  {
    HeightIsIntegerQuotient(width, height, target);
    var d := width / target;
    var h := height / d;
    assert width == d * target;
    assert height == h * d;
    calc {
      h * width;
      h * (d * target);
      (h * d) * target;
      height * target;
    }
  }

  /** The converse fails: (5, 5, 2) keeps the 1:1 ratio although 2 does not
      divide 5. */
  lemma AspectRatioWithoutExactness()
    ensures ThumbnailSize(5, 5, 2) == Ok(Size(2, 2))
    ensures 2 * 5 == 5 * 2 && 5 % 2 != 0
  {
    HeightIsIntegerQuotient(5, 5, 2);
  }

  /** (1920, 1080, 480) gives 480 x 270; (1000, 750, 300) gives 300 x 250. */
  lemma ExactExamples()
    ensures ThumbnailSize(1920, 1080, 480) == Ok(Size(480, 270))
    ensures ThumbnailSize(1000, 750, 300) == Ok(Size(300, 250))
  {
    HeightIsIntegerQuotient(1920, 1080, 480);
    HeightIsIntegerQuotient(1000, 750, 300);
  }

  /** (1000, 750, 400): the divisor is 2, so the height is 375 where the
      aspect ratio would give 300. */
  lemma InexactExample()
    ensures ThumbnailSize(1000, 750, 400) == Ok(Size(400, 375))
    ensures 375 * 1000 != 750 * 400
  {
    HeightIsIntegerQuotient(1000, 750, 400);
  }

  /** The quotient is rounded only after the integer division: 1083 / 4 is
      270 even though 270.75 would round to 271. */
  lemma RoundingComesTooLate()
    ensures ThumbnailSize(1920, 1083, 480) == Ok(Size(480, 270))
    ensures RoundHalfEven(1083.0 / 4.0) == 271
  {
    HeightIsIntegerQuotient(1920, 1083, 480);
  }

  /** A target of 0 fails at the divisor; a target wider than the image
      fails one step later, at the height. */
  lemma DivisionFailures(width: int, height: int, target: int)
    requires width >= 1
    ensures target == 0 ==> ThumbnailSize(width, height, target) == Err(DivideByZero(DivisorStep))
    ensures target > width ==> ThumbnailSize(width, height, target) == Err(DivideByZero(HeightStep))
  {
    if target > width {
      DivideNat(width, target);
    }
  }
}
