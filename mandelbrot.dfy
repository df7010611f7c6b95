/**
 * The renderer of src/lib.rs: the `WIDTHxHEIGHT` parser, the escape-time
 * evaluator, the pixel-to-plane mapping and the in-place buffer fill.
 *
 * Floating-point values are modelled by exact reals (see NumComplex), and
 * `usize` by the 64-bit range.
 */
module Mandelbrot {
  import opened NumComplex

  datatype Option<T> = None | Some(value: T)

  const U8_LIMIT: int := 0x100
  const U32_LIMIT: int := 0x1_0000_0000
  const USIZE_LIMIT: int := 0x1_0000_0000_0000_0000

  type U8 = x: int | 0 <= x < U8_LIMIT
  type U32 = x: int | 0 <= x < U32_LIMIT
  /** `usize` on a 64-bit target. */
  type Usize = x: int | 0 <= x < USIZE_LIMIT

  // ---------------------------------------------------------------------
  // parse_bounds
  // ---------------------------------------------------------------------

  /**
   * `s.find(ch)`: the position of the first occurrence of `ch`.
   * Positions count characters; since the halves are cut at the separator
   * itself, they are the same strings Rust's byte positions give.
   */
  function Find(s: string, ch: char): (r: Option<nat>)
    ensures r.None? <==> ch !in s
    ensures r.Some? ==> r.value < |s| && s[r.value] == ch && ch !in s[..r.value]
  {
    if |s| == 0 then None
    else if s[0] == ch then Some(0)
    else match Find(s[1..], ch)
      case None => None
      case Some(i) =>
        assert s[..i + 1] == [s[0]] + s[1..][..i];
        Some(i + 1)
  }

  /** Any occurrence of `ch` with none before it is the one `Find` reports. */
  lemma {:induction false} FindFirst(s: string, ch: char, i: nat)
    requires i < |s| && s[i] == ch && ch !in s[..i]
    ensures Find(s, ch) == Some(i)
  {
    if 0 < i {
      assert s[0] == s[..i][0];
      assert s[1..][..i - 1] == s[1..i];
      assert forall k :: 0 <= k < i - 1 ==> s[1..i][k] == s[..i][k + 1];
      FindFirst(s[1..], ch, i - 1);
    }
  }

  predicate IsDigit(ch: char)
  {
    '0' <= ch <= '9'
  }

  predicate AllDigits(s: string)
  {
    forall k :: 0 <= k < |s| ==> IsDigit(s[k])
  }

  function DigitValue(ch: char): (d: nat)
    requires IsDigit(ch)
    ensures d < 10
  {
    ch as int - '0' as int
  }

  /** The value of a run of decimal digits, most significant first. */
  function DigitsValue(s: string): nat
    requires AllDigits(s)
  {
    if |s| == 0 then 0
    else DigitsValue(s[..|s| - 1]) * 10 + DigitValue(s[|s| - 1])
  }

  /**
   * `s.parse::<usize>()`: an optional leading '+', then a non-empty run of
   * ASCII digits whose value fits in a `usize`; anything else fails.
   */
  function ParseUsize(s: string): (r: Option<Usize>)
    ensures r.Some? ==> 'x' !in s
  {
    var digits := if 0 < |s| && s[0] == '+' then s[1..] else s;
    if |digits| == 0 || !AllDigits(digits) then None
    else
      var v := DigitsValue(digits);
      if v < USIZE_LIMIT then Some(v) else None
  }

  /** An empty numeral, a lone sign and a minus sign are refused. */
  lemma ParseUsizeRejects(s: string)
    ensures s == [] || s == ['+'] ==> ParseUsize(s) == None
    ensures 0 < |s| && s[0] == '-' ==> ParseUsize(s) == None
  {
  }

  /**
   * A digit run whose value does not fit in 64 bits is refused, whatever
   * its leading zeros and with or without a leading '+'.
   */
  lemma ParseUsizeOverflow(s: string)
    requires 0 < |s| && AllDigits(s) && USIZE_LIMIT <= DigitsValue(s)
    ensures ParseUsize(s) == None
    ensures ParseUsize(['+'] + s) == None
  {
    assert (['+'] + s)[1..] == s;
  }

  /** One leading '+' is accepted and changes nothing: `+t` parses as `t` does. */
  lemma ParseUsizePlus(s: string)
    requires |s| == 0 || s[0] != '+'
    ensures ParseUsize(['+'] + s) == ParseUsize(s)
  {
    assert (['+'] + s)[1..] == s;
  }

  /**
   * `parse_bounds`: splits at the first 'x' and parses both halves as
   * `usize`; `None` when there is no 'x' or either half does not parse.
   */
  function ParseBounds(bounds: string): (r: Option<(Usize, Usize)>)
    ensures 'x' !in bounds ==> r == None
  {
    match Find(bounds, 'x')
    case None => None
    case Some(index) =>
      match (ParseUsize(bounds[..index]), ParseUsize(bounds[index + 1..]))
      case (Some(l), Some(r)) => Some((l, r))
      case _ => None
  }

  /**
   * ParseBounds succeeds exactly on two `usize` numerals joined by one 'x':
   * it does not matter which 'x' one splits at, because a numeral holds no
   * 'x', so "1x2x3" and "x750" are refused.
   */
  lemma ParseBoundsIff(s: string, w: Usize, h: Usize)
    ensures ParseBounds(s) == Some((w, h)) <==>
      exists i :: 0 <= i < |s| && s[i] == 'x' &&
        ParseUsize(s[..i]) == Some(w) && ParseUsize(s[i + 1..]) == Some(h)
  {
    if ParseBounds(s) == Some((w, h)) {
      var i := Find(s, 'x').value;
      assert s[i] == 'x' && ParseUsize(s[..i]) == Some(w) && ParseUsize(s[i + 1..]) == Some(h);
    }
    if exists i :: 0 <= i < |s| && s[i] == 'x' &&
        ParseUsize(s[..i]) == Some(w) && ParseUsize(s[i + 1..]) == Some(h) {
      var i :| 0 <= i < |s| && s[i] == 'x' &&
        ParseUsize(s[..i]) == Some(w) && ParseUsize(s[i + 1..]) == Some(h);
      ParseBoundsAt(s, i);
    }
  }

  /** Splitting at any 'x' with no 'x' before it is what ParseBounds does. */
  lemma ParseBoundsAt(s: string, i: nat)
    requires i < |s| && s[i] == 'x' && 'x' !in s[..i]
    ensures ParseBounds(s) ==
      match (ParseUsize(s[..i]), ParseUsize(s[i + 1..]))
      case (Some(l), Some(r)) => Some((l, r))
      case _ => None
  {
    FindFirst(s, 'x', i);
  }


  /** The shortest decimal numeral of `n`: no sign, no leading zeros. */
  function Decimal(n: nat): (s: string)
    ensures 0 < |s| && AllDigits(s)
    ensures DigitsValue(s) == n
  {
    var last := ['0' + (n % 10) as char];
    if n < 10 then last
    else
      var prefix := Decimal(n / 10);
      var s := prefix + last;
      assert s[..|s| - 1] == prefix;
      s
  }

  /** Printing a `usize` and parsing it back gives the same value. */
  lemma ParseUsizeDecimal(n: Usize)
    ensures ParseUsize(Decimal(n)) == Some(n)
  {
  }

  /** Round trip: `dec(w) + "x" + dec(h)` parses back to `(w, h)`. */
  lemma ParseBoundsRoundTrip(w: Usize, h: Usize)
    ensures ParseBounds(Decimal(w) + "x" + Decimal(h)) == Some((w, h))
  {
    var a, b := Decimal(w), Decimal(h);
    var s := a + "x" + b;
    ParseUsizeDecimal(w);
    ParseUsizeDecimal(h);
    assert s[..|a|] == a && s[|a| + 1..] == b && s[|a|] == 'x';
    ParseBoundsIff(s, w, h);
  }

  /** The numerals 1000 and 750, built digit by digit. */
  lemma DecimalOfTestValues()
    ensures Decimal(1000) == "1000" && Decimal(750) == "750"
  {
    assert Decimal(10) == Decimal(1) + "0";
    assert Decimal(100) == Decimal(10) + "0";
    assert Decimal(1000) == Decimal(100) + "0";
    assert Decimal(75) == Decimal(7) + "5";
    assert Decimal(750) == Decimal(75) + "0";
  }

  /** The case `"1000x750"` of the commented-out `test_parse_pair`. */
  lemma ParseBoundsExample(s: string)
    requires s == "1000x750"
    ensures ParseBounds(s) == Some((1000, 750))
  {
    DecimalOfTestValues();
    ParseBoundsRoundTrip(1000, 750);
    assert s == Decimal(1000) + "x" + Decimal(750);
  }

  /** A second 'x' ends up in the right half, which then does not parse. */
  lemma ParseBoundsTwoSeparators()
    ensures ParseBounds("1x2x3") == None
  {
    var s := "1x2x3";
    assert s == ['1', 'x', '2', 'x', '3'];
    assert Find(s, 'x') == Some(1);
    assert s[2..][1] == 'x';
  }

  /** An empty half does not parse. */
  lemma ParseBoundsEmptyHalf()
    ensures ParseBounds("x750") == None
    ensures ParseBounds("750x") == None
  {
  }

  // ---------------------------------------------------------------------
  // in_mandelbrot_set
  // ---------------------------------------------------------------------

  /** One update of the loop: `z * z + c`. */
  function Step(z: Complex, c: Complex): Complex
  {
    Add(Mul(z, z), c)
  }

  /** In components, one update is `(x, y) := (x^2 - y^2 + c.re, 2xy + c.im)`. */
  lemma StepComponents(z: Complex, c: Complex)
    ensures Step(z, c) == Complex(z.re * z.re - z.im * z.im + c.re, 2.0 * z.re * z.im + c.im)
  {
  }

  /** The value of `z` after `n` updates, starting from 0. */
  function Orbit(c: Complex, n: nat): Complex
  {
    if n == 0 then Zero else Step(Orbit(c, n - 1), c)
  }

  /** Iterate `i` (0-based, the value of `z` after update `i + 1`) lies outside the radius-2 disk. */
  predicate Escapes(c: Complex, i: nat)
  {
    NormSqr(Orbit(c, i + 1)) > 4.0
  }

  /** The first escaping iterate among `from .. limit - 1`, if any. */
  function EscapeFrom(c: Complex, from: nat, limit: U32): Option<U32>
    decreases limit - from
  {
    if limit <= from then None
    else if Escapes(c, from) then Some(from)
    else EscapeFrom(c, from + 1, limit)
  }

  /** What `in_mandelbrot_set(c, limit)` returns: the first escaping iterate below `limit`. */
  function EscapeTime(c: Complex, limit: U32): (r: Option<U32>)
    ensures r.Some? ==>
      r.value < limit && Escapes(c, r.value) && forall j :: 0 <= j < r.value ==> !Escapes(c, j)
    ensures r.None? ==> forall j :: 0 <= j < limit ==> !Escapes(c, j)
  {
    var r := EscapeFrom(c, 0, limit);
    EscapeFromIff(c, 0, limit, if r.Some? then r.value else 0);
    r
  }

  lemma {:induction false} EscapeFromIff(c: Complex, from: nat, limit: U32, i: nat)
    ensures EscapeFrom(c, from, limit) == Some(i) <==>
      from <= i < limit && Escapes(c, i) && forall j :: from <= j < i ==> !Escapes(c, j)
    ensures EscapeFrom(c, from, limit) == None <==>
      forall j :: from <= j < limit ==> !Escapes(c, j)
    decreases limit - from
  {
    if from < limit && !Escapes(c, from) {
      EscapeFromIff(c, from + 1, limit, i);
    }
  }

  /**
   * The escape time is the FIRST crossing: `Some(i)` exactly when iterate
   * `i` is below the limit and escapes while every earlier one stays
   * inside, and `None` exactly when no iterate below the limit escapes.
   */
  lemma EscapeTimeIff(c: Complex, limit: U32, i: nat)
    ensures EscapeTime(c, limit) == Some(i) <==>
      i < limit && Escapes(c, i) && forall j :: 0 <= j < i ==> !Escapes(c, j)
    ensures EscapeTime(c, limit) == None <==>
      forall j :: 0 <= j < limit ==> !Escapes(c, j)
  {
    EscapeFromIff(c, 0, limit, i);
  }

  /** A first crossing below the limit is what EscapeTime reports. */
  lemma EscapeTimeSome(c: Complex, limit: U32, i: nat)
    requires i < limit && Escapes(c, i) && forall j :: 0 <= j < i ==> !Escapes(c, j)
    ensures EscapeTime(c, limit) == Some(i)
  {
    EscapeFromIff(c, 0, limit, i);
  }

  /** With no crossing below the limit EscapeTime reports none. */
  lemma EscapeTimeNone(c: Complex, limit: U32)
    requires forall j :: 0 <= j < limit ==> !Escapes(c, j)
    ensures EscapeTime(c, limit) == None
  {
    EscapeFromIff(c, 0, limit, 0);
  }

  /**
   * `in_mandelbrot_set`: iterates `z := z * z + c` up to `limit` times and
   * returns the 0-based index of the first iterate whose squared norm
   * exceeds 4, or `None` when none does.
   */
  method InMandelbrotSet(c: Complex, limit: U32) returns (r: Option<U32>)
    ensures r.Some? ==>
      r.value < limit && Escapes(c, r.value) && forall j :: 0 <= j < r.value ==> !Escapes(c, j)
    ensures r.None? ==> forall j :: 0 <= j < limit ==> !Escapes(c, j)
    ensures r == EscapeTime(c, limit)
  {
    var z := Zero;
    for i := 0 to limit
      invariant z == Orbit(c, i)
      invariant forall j :: 0 <= j < i ==> !Escapes(c, j)
    {
      z := Step(z, c);
      assert z == Orbit(c, i + 1);
      if NormSqr(z) > 4.0 {
        assert Escapes(c, i);
        EscapeTimeSome(c, limit, i);
        return Some(i);
      }
      assert !Escapes(c, i);
    }
    EscapeTimeNone(c, limit);
    return None;
  }

  /** With no attempts nothing escapes. */
  lemma EscapeTimeZeroLimit(c: Complex)
    ensures EscapeTime(c, 0) == None
  {
  }

  /** An escape found under a limit is found, unchanged, under every larger limit. */
  lemma EscapeTimeRaiseLimit(c: Complex, limit: U32, limit': U32)
    requires EscapeTime(c, limit).Some?
    requires EscapeTime(c, limit).value < limit'
    ensures EscapeTime(c, limit') == EscapeTime(c, limit)
  {
    var i := EscapeTime(c, limit).value;
    EscapeTimeIff(c, limit, i);
    EscapeTimeIff(c, limit', i);
  }

  /** No escape under a limit means no escape under any smaller limit. */
  lemma EscapeTimeLowerLimit(c: Complex, limit: U32, limit': U32)
    requires limit <= limit'
    requires EscapeTime(c, limit') == None
    ensures EscapeTime(c, limit) == None
  {
    EscapeTimeIff(c, limit', 0);
    EscapeTimeIff(c, limit, 0);
  }

  lemma {:induction false} OrbitOfZero(n: nat)
    ensures Orbit(Zero, n) == Zero
  {
    if n > 0 {
      OrbitOfZero(n - 1);
    }
  }

  /** The origin is a fixed point of `z * z + 0`, so it never escapes. */
  lemma ZeroNeverEscapes(limit: U32)
    ensures EscapeTime(Zero, limit) == None
  {
    forall j | 0 <= j < limit
      ensures !Escapes(Zero, j)
    {
      OrbitOfZero(j + 1);
    }
    EscapeTimeIff(Zero, limit, 0);
  }

  lemma StepFromZero(c: Complex)
    ensures Step(Zero, c) == c
  {
    MulZero();
    AddZero(c);
  }

  lemma FirstIterate(c: Complex)
    ensures Orbit(c, 1) == c
  {
    assert Orbit(c, 0) == Zero;
    StepFromZero(c);
    assert Orbit(c, 1) == Step(Zero, c);
  }

  /** The first iterate is `c` itself, so a `c` outside the radius-2 disk escapes at once. */
  lemma FarPointEscapesAtOnce(c: Complex, limit: U32)
    requires NormSqr(c) > 4.0
    requires 1 <= limit
    ensures EscapeTime(c, limit) == Some(0)
  {
    FirstIterate(c);
  }

  // ---------------------------------------------------------------------
  // pixel_to_point
  // ---------------------------------------------------------------------

  /**
   * `pixel_to_point`: the plane point of pixel `(column, row)` of an image of
   * `bounds = (width, height)` pixels spanning the rectangle from `upperLeft`
   * to `lowerRight`. Rows grow downwards while the imaginary axis grows
   * upwards, hence the subtraction on the imaginary part.
   */
  function PixelToPoint(bounds: (Usize, Usize), pixel: (Usize, Usize),
                        upperLeft: Complex, lowerRight: Complex): (p: Complex)
    requires 0 < bounds.0 && 0 < bounds.1
    ensures pixel == (0, 0) ==> p == upperLeft
    ensures pixel == bounds ==> p == lowerRight
  {
    var (width, height) := (lowerRight.re - upperLeft.re, upperLeft.im - lowerRight.im);
    Complex(upperLeft.re + pixel.0 as real * width / bounds.0 as real,
            upperLeft.im - pixel.1 as real * height / bounds.1 as real)
  }

  /** `test_pixel_to_point`: pixel (25, 75) of a 100 x 100 image of [-1, 1] x [-1, 1] is -0.5 - 0.5i. */
  lemma PixelToPointExample()
    ensures PixelToPoint((100, 100), (25, 75), Complex(-1.0, 1.0), Complex(1.0, -1.0)) == Complex(-0.5, -0.5)
  {
  }

  lemma DivideSum(a: real, b: real, d: real)
    requires d != 0.0
    ensures (a + b) / d == a / d + b / d
  {
  }

  /** The grid is uniform along a row: one column to the right adds one pixel width to the real part only. */
  lemma PixelToPointNextColumn(bounds: (Usize, Usize), col: Usize, row: Usize,
                               upperLeft: Complex, lowerRight: Complex)
    requires 0 < bounds.0 && 0 < bounds.1
    requires col + 1 < USIZE_LIMIT
    ensures var p := PixelToPoint(bounds, (col, row), upperLeft, lowerRight);
      PixelToPoint(bounds, (col + 1, row), upperLeft, lowerRight) ==
        Complex(p.re + (lowerRight.re - upperLeft.re) / bounds.0 as real, p.im)
  {
    var width := lowerRight.re - upperLeft.re;
    assert (col + 1) as real * width == col as real * width + width;
    DivideSum(col as real * width, width, bounds.0 as real);
  }

  /** The grid is uniform along a column: one row down subtracts one pixel height from the imaginary part only. */
  lemma PixelToPointNextRow(bounds: (Usize, Usize), col: Usize, row: Usize,
                            upperLeft: Complex, lowerRight: Complex)
    requires 0 < bounds.0 && 0 < bounds.1
    requires row + 1 < USIZE_LIMIT
    ensures var p := PixelToPoint(bounds, (col, row), upperLeft, lowerRight);
      PixelToPoint(bounds, (col, row + 1), upperLeft, lowerRight) ==
        Complex(p.re, p.im - (upperLeft.im - lowerRight.im) / bounds.1 as real)
  {
    var height := upperLeft.im - lowerRight.im;
    assert (row + 1) as real * height == row as real * height + height;
    DivideSum(row as real * height, height, bounds.1 as real);
  }

  /**
   * For a proper plane rectangle (upper left really left of and above lower
   * right) every pixel of the image maps into the rectangle, on or after its
   * left edge, below or on its top edge, and strictly before the right and
   * bottom edges.
   */
  lemma PixelToPointInside(bounds: (Usize, Usize), pixel: (Usize, Usize),
                           upperLeft: Complex, lowerRight: Complex)
    requires pixel.0 < bounds.0 && pixel.1 < bounds.1
    requires upperLeft.re < lowerRight.re && lowerRight.im < upperLeft.im
    ensures var p := PixelToPoint(bounds, pixel, upperLeft, lowerRight);
      upperLeft.re <= p.re < lowerRight.re && lowerRight.im < p.im <= upperLeft.im
  {
    FractionOfSpan(pixel.0 as real, bounds.0 as real, lowerRight.re - upperLeft.re);
    FractionOfSpan(pixel.1 as real, bounds.1 as real, upperLeft.im - lowerRight.im);
  }

  /** `k` of `n` equal steps across a positive span `w` stay within `[0, w)`. */
  lemma FractionOfSpan(k: real, n: real, w: real)
    requires 0.0 <= k < n && 0.0 < w
    ensures 0.0 <= k * w / n < w
  {
    assert k * w < n * w;
    assert k * w / n < n * w / n;
  }

  /** `n - 1` of `n` equal steps across `w` fall one step short of `w`. */
  lemma OneStepShort(n: real, w: real)
    requires 0.0 < n
    ensures (n - 1.0) * w / n == w - w / n
  {
    assert (n - 1.0) * w == n * w - w;
    DivideSum(n * w, -w, n);
  }

  /** The last pixel lies exactly one pixel step short of the lower-right corner on each axis. */
  lemma PixelToPointLastPixel(bounds: (Usize, Usize), upperLeft: Complex, lowerRight: Complex)
    requires 0 < bounds.0 && 0 < bounds.1
    ensures var p := PixelToPoint(bounds, (bounds.0 - 1, bounds.1 - 1), upperLeft, lowerRight);
      lowerRight.re - p.re == (lowerRight.re - upperLeft.re) / bounds.0 as real &&
      p.im - lowerRight.im == (upperLeft.im - lowerRight.im) / bounds.1 as real
  {
    OneStepShort(bounds.0 as real, lowerRight.re - upperLeft.re);
    OneStepShort(bounds.1 as real, upperLeft.im - lowerRight.im);
  }

  // ---------------------------------------------------------------------
  // render
  // ---------------------------------------------------------------------

  /** The iteration limit `render` passes to the evaluator. */
  const ITERATION_LIMIT: U32 := 255

  /**
   * The byte `render` stores for an evaluator result: 0 for no escape and
   * `255 - i as u8` for an escape at iterate `i`. The cast keeps the low
   * eight bits of `i` and binds tighter than the subtraction, so the `u8`
   * subtraction never underflows.
   */
  function Intensity(escape: Option<U32>): (b: U8)
    ensures escape.None? ==> b == 0
    ensures escape.Some? ==> (b + escape.value) % U8_LIMIT == 255
    ensures escape.Some? && escape.value < ITERATION_LIMIT ==> 0 < b
  {
    match escape
    case None => 0
    case Some(i) => 255 - i % 256
  }

  /**
   * Under the renderer's limit an escape index is at most 254, so the byte
   * is `255 - i` and lies in 1 .. 255, while a point that does not escape
   * gets 0: the byte tells the two cases apart and recovers the index.
   */
  lemma IntensityOfEscapeTime(c: Complex)
    ensures EscapeTime(c, ITERATION_LIMIT) == None <==> Intensity(EscapeTime(c, ITERATION_LIMIT)) == 0
    ensures EscapeTime(c, ITERATION_LIMIT).Some? ==>
      var i := EscapeTime(c, ITERATION_LIMIT).value;
      i <= 254 && Intensity(EscapeTime(c, ITERATION_LIMIT)) == 255 - i
  {
    match EscapeTime(c, ITERATION_LIMIT)
    case None =>
    case Some(i) => EscapeTimeIff(c, ITERATION_LIMIT, i);
  }

  /** Two evaluator results under the renderer's limit get the same byte only if they are equal. */
  lemma IntensityInjective(a: Option<U32>, b: Option<U32>)
    requires a.Some? ==> a.value < ITERATION_LIMIT
    requires b.Some? ==> b.value < ITERATION_LIMIT
    ensures Intensity(a) == Intensity(b) ==> a == b
  {
  }

  /** The byte of pixel `(col, row)`: map it to the plane, evaluate with limit 255, convert. */
  function PixelIntensity(bounds: (Usize, Usize), col: Usize, row: Usize,
                          upperLeft: Complex, lowerRight: Complex): U8
    requires 0 < bounds.0 && 0 < bounds.1
  {
    Intensity(EscapeTime(PixelToPoint(bounds, (col, row), upperLeft, lowerRight), ITERATION_LIMIT))
  }

  /** Row-major layout: cells are visited in increasing index order, so no index is visited twice. */
  lemma RowMajorOrder(width: nat, r1: nat, c1: nat, r2: nat, c2: nat)
    requires c1 < width && c2 < width
    requires r1 < r2 || (r1 == r2 && c1 < c2)
    ensures r1 * width + c1 < r2 * width + c2
  {
    if r1 < r2 {
      var d: nat := r2 - r1 - 1;
      assert r2 * width == r1 * width + width + d * width;
    }
  }

  /** Row-major layout: pixel `(col, row)` of a `width x height` image has index `row * width + col` in range. */
  lemma RowMajorInBounds(width: nat, height: nat, row: nat, col: nat)
    requires row < height && col < width
    ensures row * width + col < width * height
  {
    RowMajorOrder(width, row, col, height, 0);
  }

  /** Row `row + 1` starts one row width after row `row`, and no later than the end of the buffer. */
  lemma RowMajorNextRow(width: nat, height: nat, row: nat)
    requires row < height
    ensures (row + 1) * width == row * width + width <= width * height
  {
    if row + 1 < height && 0 < width {
      RowMajorOrder(width, row + 1, 0, height, 0);
    }
  }

  /** Distinct pixels have distinct indices: every cell is written at most once. */
  lemma RowMajorInjective(width: nat, r1: nat, c1: nat, r2: nat, c2: nat)
    requires c1 < width && c2 < width
    requires r1 * width + c1 == r2 * width + c2
    ensures r1 == r2 && c1 == c2
  {
    if r1 < r2 || (r1 == r2 && c1 < c2) {
      RowMajorOrder(width, r1, c1, r2, c2);
    } else if r2 < r1 || (r2 == r1 && c2 < c1) {
      RowMajorOrder(width, r2, c2, r1, c1);
    }
  }

  /** Every index of a `width x height` buffer is the index of pixel `(k % width, k / width)`, so every cell is written. */
  lemma RowMajorCovers(width: nat, height: nat, k: nat)
    requires k < width * height
    ensures 0 < width && k / width < height && k == (k / width) * width + k % width
  {
    if height <= k / width {
      RowMajorOrder(width, height, 0, k / width, k % width);
      assert false;
    }
  }

  /** Row `row` of the image: the bytes of pixels `(0, row) .. (width - 1, row)`. */
  function ImageRow(bounds: (Usize, Usize), row: Usize, upperLeft: Complex, lowerRight: Complex): (r: seq<U8>)
    requires row < bounds.1
    ensures |r| == bounds.0
  {
    seq(bounds.0, col requires 0 <= col < bounds.0 => PixelIntensity(bounds, col, row, upperLeft, lowerRight))
  }

  /** The first `n` rows of the image, concatenated top to bottom. */
  function ImageRows(bounds: (Usize, Usize), n: nat, upperLeft: Complex, lowerRight: Complex): (r: seq<U8>)
    requires n <= bounds.1
    ensures |r| == n * bounds.0
  {
    if n == 0 then []
    else ImageRows(bounds, n - 1, upperLeft, lowerRight) + ImageRow(bounds, n - 1, upperLeft, lowerRight)
  }

  /** The image `render` produces: all rows, in row-major order. */
  function Image(bounds: (Usize, Usize), upperLeft: Complex, lowerRight: Complex): (img: seq<U8>)
    ensures |img| == bounds.0 * bounds.1
  {
    ImageRows(bounds, bounds.1, upperLeft, lowerRight)
  }

  lemma {:induction false} ImageRowsAt(bounds: (Usize, Usize), n: nat, col: Usize, row: Usize,
                                       upperLeft: Complex, lowerRight: Complex)
    requires n <= bounds.1 && col < bounds.0 && row < n
    ensures row * bounds.0 + col < |ImageRows(bounds, n, upperLeft, lowerRight)|
    ensures ImageRows(bounds, n, upperLeft, lowerRight)[row * bounds.0 + col] ==
      PixelIntensity(bounds, col, row, upperLeft, lowerRight)
  {
    RowMajorInBounds(bounds.0, n, row, col);
    if row < n - 1 {
      ImageRowsAt(bounds, n - 1, col, row, upperLeft, lowerRight);
    } else {
      assert row * bounds.0 + col == |ImageRows(bounds, n - 1, upperLeft, lowerRight)| + col;
    }
  }

  /** Cell `row * width + col` of the image holds the byte of pixel `(col, row)`. */
  lemma ImageAt(bounds: (Usize, Usize), col: Usize, row: Usize, upperLeft: Complex, lowerRight: Complex)
    requires col < bounds.0 && row < bounds.1
    ensures |Image(bounds, upperLeft, lowerRight)| == bounds.0 * bounds.1
    ensures row * bounds.0 + col < |Image(bounds, upperLeft, lowerRight)|
    ensures Image(bounds, upperLeft, lowerRight)[row * bounds.0 + col] ==
      PixelIntensity(bounds, col, row, upperLeft, lowerRight)
  {
    ImageRowsAt(bounds, bounds.1, col, row, upperLeft, lowerRight);
  }

  /** The first cell of any non-empty image is the byte of `upperLeft` itself. */
  lemma ImageFirstCell(bounds: (Usize, Usize), upperLeft: Complex, lowerRight: Complex)
    requires 0 < bounds.0 && 0 < bounds.1
    ensures 0 < |Image(bounds, upperLeft, lowerRight)|
    ensures Image(bounds, upperLeft, lowerRight)[0] == Intensity(EscapeTime(upperLeft, ITERATION_LIMIT))
  {
    ImageAt(bounds, 0, 0, upperLeft, lowerRight);
  }

  /** How `render` ends: normally, or by the panic of its length assertion. */
  datatype Completion = Finished | Panicked

  /**
   * `render`: asserts that the buffer holds `width * height` bytes (panicking,
   * with the buffer untouched, when it does not), then visits the pixels row
   * by row and stores each pixel's byte at `row * width + col`.
   */
  method Render(pixels: array<U8>, bounds: (Usize, Usize), upperLeft: Complex, lowerRight: Complex)
    returns (outcome: Completion)
    modifies pixels
    ensures outcome == Panicked <==> pixels.Length != bounds.0 * bounds.1
    ensures outcome == Panicked ==> pixels[..] == old(pixels[..])
    ensures outcome == Finished ==> pixels[..] == Image(bounds, upperLeft, lowerRight)
  {
    if pixels.Length != bounds.0 * bounds.1 {
      return Panicked;
    }
    ghost var image := Image(bounds, upperLeft, lowerRight);
    ghost var done := 0;
    for row := 0 to bounds.1
      invariant done == row * bounds.0 <= pixels.Length
      invariant forall k :: 0 <= k < done ==> pixels[k] == image[k]
      invariant forall k :: done <= k < pixels.Length ==> pixels[k] == old(pixels[k])
    {
      for col := 0 to bounds.0
        invariant done == row * bounds.0 + col <= pixels.Length
        invariant forall k :: 0 <= k < done ==> pixels[k] == image[k]
        invariant forall k :: done <= k < pixels.Length ==> pixels[k] == old(pixels[k])
      {
        var c := PixelToPoint(bounds, (col, row), upperLeft, lowerRight);
        var escape := InMandelbrotSet(c, ITERATION_LIMIT);
        var pixel := Intensity(escape);
        var index := row * bounds.0 + col;
        ImageAt(bounds, col, row, upperLeft, lowerRight);
        pixels[index] := pixel;
        done := done + 1;
      }
      RowMajorNextRow(bounds.0, bounds.1, row);
    }
    return Finished;
  }

}
