# Mandelbrot renderer — verified model of the rendering core

This project models the computational core of a small command-line program.
The program renders a rectangle of the complex plane as a greyscale image of
the Mandelbrot set. The model covers four functions of `src/lib.rs`:

- `parse_bounds` turns a `WIDTHxHEIGHT` string into a pair of `usize`
  values.
- `in_mandelbrot_set` runs the escape-time iteration `z := z * z + c` from
  `z = 0`. It returns the 0-based index of the first iterate whose squared
  norm exceeds 4, or `None` when no iterate below the limit does.
- `pixel_to_point` maps a pixel `(column, row)` of the image to a point of
  the plane. It interpolates linearly between the upper-left and the
  lower-right corners.
- `render` fills a caller-supplied byte buffer in row-major order. It first
  asserts that the buffer holds `width * height` bytes. Each pixel gets `0`
  when its point does not escape within 255 iterations, and
  `255 - i as u8` when it escapes at iterate `i`.

There are two modules:

- `NumComplex` (`complex.dfy`) holds the part of `num::Complex<f64>` that
  the program uses.
- `Mandelbrot` (`mandelbrot.dfy`) holds the four operations, with their
  specification functions and lemmas.

f64 is modelled by Dafny's exact `real`. The model is therefore an
exact-arithmetic idealisation: it has no rounding, no infinities and no NaN.
`usize` is modelled as the 64-bit range, `u32` and `u8` as their ranges.

`in_mandelbrot_set` is a `method` with the same `for i in 0..limit` loop. It is proved
against the recursive specification function `EscapeTime`. `render` is a
`method` that writes into an `array<U8>`, the model of the `&mut [u8]`
slice. Its result `Completion` records whether the length assertion
panicked. When the run finishes, the buffer equals the specification
function `Image`. `parse_bounds` and `pixel_to_point` are pure and are
modelled as functions.

## Model

| member | source | states |
|---|---|---|
| Mandelbrot.Find | src/lib.rs:33 | `find('x')` gives `None` exactly when the string has no 'x'; otherwise it gives an in-range position holding 'x' with no 'x' before it |
| Mandelbrot.FindFirst | src/lib.rs:33 | any 'x' with no earlier 'x' is the position `find` reports |
| Mandelbrot.ParseUsize | src/lib.rs:34 | `parse::<usize>` succeeds only on a string with no 'x' in it |
| Mandelbrot.ParseUsizeRejects | src/lib.rs:34 | the empty string, a lone '+' and anything starting with '-' fail to parse |
| Mandelbrot.ParseUsizeOverflow | src/lib.rs:34 | every digit run whose value is 2^64 or more fails to parse, whatever its leading zeros and with or without a leading '+' |
| Mandelbrot.ParseUsizePlus | src/lib.rs:34 | for every string not itself starting with '+', putting one '+' in front changes neither success nor value |
| Mandelbrot.ParseUsizeDecimal | src/lib.rs:34 | the decimal numeral of every `usize` parses back to that value |
| Mandelbrot.Decimal | src/lib.rs:34 | the decimal numeral of `n` is a non-empty digit run whose value is `n` |
| Mandelbrot.ParseBounds | src/lib.rs:32-41 | a string without an 'x' gives `None` |
| Mandelbrot.ParseBoundsIff | src/lib.rs:32-41 | `parse_bounds(s) == Some((w, h))` if and only if some 'x' in `s` splits it into a left half parsing to `w` and a right half parsing to `h` |
| Mandelbrot.ParseBoundsAt | src/lib.rs:33-37 | splitting at the first 'x' gives `Some` exactly when both halves parse, and `None` otherwise |
| Mandelbrot.ParseBoundsRoundTrip | src/lib.rs:32-41 | for every pair of `usize` values, `dec(w) + "x" + dec(h)` parses back to `(w, h)` |
| Mandelbrot.ParseBoundsExample | src/lib.rs:210 | `"1000x750"` parses to `(1000, 750)`, the case of the commented-out `test_parse_pair` |
| Mandelbrot.ParseBoundsTwoSeparators | src/lib.rs:33-36 | `"1x2x3"` gives `None`, because the second 'x' falls into the right half |
| Mandelbrot.ParseBoundsEmptyHalf | src/lib.rs:34-36 | `"x750"` and `"750x"` give `None`, because an empty half does not parse |
| Mandelbrot.EscapeTime | src/lib.rs:13-25 | the functional model of `in_mandelbrot_set`: a `Some(i)` result is an escaping iterate below `limit` with no earlier escaping iterate, and a `None` result means no iterate below `limit` escapes |
| Mandelbrot.StepComponents | src/lib.rs:17 | one update `z * z + c` is, in components, `(re^2 - im^2 + c.re, 2 * re * im + c.im)` |
| NumComplex.MulNormSqr | src/lib.rs:17 | num's complex product multiplies squared norms: `norm_sqr(a * b) == norm_sqr(a) * norm_sqr(b)` |
| Mandelbrot.EscapeFromIff | src/lib.rs:16-24 | the search from iterate `from` returns the first escaping iterate in `[from, limit)`, and `None` exactly when none escapes (both directions) |
| Mandelbrot.EscapeTimeIff | src/lib.rs:13-25 | `EscapeTime(c, limit) == Some(i)` if and only if `i < limit`, iterate `i` escapes and no earlier iterate does; `None` if and only if no iterate below `limit` escapes |
| Mandelbrot.EscapeTimeSome | src/lib.rs:19-20 | a first crossing below the limit is the reported escape index |
| Mandelbrot.EscapeTimeNone | src/lib.rs:24 | with no crossing below the limit the result is `None` |
| Mandelbrot.InMandelbrotSet | src/lib.rs:13-25 | the loop returns `Some(i)` only for the first escaping iterate below `limit`, and `None` only when no iterate below `limit` escapes; its result equals `EscapeTime(c, limit)` |
| Mandelbrot.EscapeTimeZeroLimit | src/lib.rs:16-24 | with limit 0 the loop body never runs and the result is `None` |
| Mandelbrot.EscapeTimeRaiseLimit | src/lib.rs:16-21 | an escape found under one limit is found, with the same index, under any limit above that index |
| Mandelbrot.EscapeTimeLowerLimit | src/lib.rs:16-24 | no escape under a limit means no escape under any smaller limit |
| Mandelbrot.OrbitOfZero | src/lib.rs:14-17 | starting from 0 with `c = 0`, every iterate is 0 |
| Mandelbrot.ZeroNeverEscapes | src/lib.rs:13-25 | `c = 0` never escapes, whatever the limit |
| Mandelbrot.FirstIterate | src/lib.rs:14-17 | the first iterate is `c` itself |
| Mandelbrot.FarPointEscapesAtOnce | src/lib.rs:16-20 | a `c` with squared norm above 4 escapes at iterate 0 whenever the limit is at least 1 |
| NumComplex.NormSqr | src/lib.rs:19 | the squared norm is never negative |
| Mandelbrot.PixelToPoint | src/lib.rs:81-93 | pixel `(0, 0)` maps to the upper-left corner and pixel `(width, height)` maps to the lower-right corner |
| Mandelbrot.PixelToPointExample | src/lib.rs:192-204 | `test_pixel_to_point`: pixel (25, 75) of a 100 x 100 image of [-1, 1] x [-1, 1] maps to -0.5 - 0.5i |
| Mandelbrot.PixelToPointNextColumn | src/lib.rs:90 | one column to the right adds exactly `width / bounds.0` to the real part and leaves the imaginary part alone |
| Mandelbrot.PixelToPointNextRow | src/lib.rs:91 | one row down subtracts exactly `height / bounds.1` from the imaginary part and leaves the real part alone |
| Mandelbrot.PixelToPointInside | src/lib.rs:87-92 | for a rectangle whose upper-left corner really lies left of and above the lower-right one, every pixel of the image maps into the half-open rectangle |
| Mandelbrot.PixelToPointLastPixel | src/lib.rs:87-92 | the last pixel lies one pixel step short of the lower-right corner on each axis |
| Mandelbrot.Intensity | src/lib.rs:128-131 | `None` gives byte 0; `Some(i)` gives the byte `b` with `b + i == 255` modulo 256, which is `255 - i as u8` in `u8` arithmetic; an escape below limit 255 never gives 0 |
| Mandelbrot.IntensityOfEscapeTime | src/lib.rs:128-131 | under limit 255, a point that does not escape gets byte 0, and only such a point does; an escape at `i` has `i <= 254` and gets byte `255 - i`, so the cast never truncates and the subtraction never underflows |
| Mandelbrot.IntensityInjective | src/lib.rs:128-131 | two results under limit 255 that get the same byte are equal |
| Mandelbrot.RowMajorOrder | src/lib.rs:121-133 | the loops visit indices `row * width + col` in strictly increasing order |
| Mandelbrot.RowMajorInBounds | src/lib.rs:118-134 | every visited index is below `width * height`, the asserted buffer length, so the write never panics |
| Mandelbrot.RowMajorNextRow | src/lib.rs:121-133 | the next row starts one row width further on, and no later than the end of the buffer |
| Mandelbrot.RowMajorInjective | src/lib.rs:133 | distinct pixels have distinct indices, so no cell is written twice |
| Mandelbrot.RowMajorCovers | src/lib.rs:121-133 | every index below `width * height` is the index of pixel `(k % width, k / width)`, so every cell is written |
| Mandelbrot.ImageRow | src/lib.rs:122-134 | one row of the image holds `width` bytes |
| Mandelbrot.ImageRows | src/lib.rs:121-135 | the first `n` rows hold `n * width` bytes |
| Mandelbrot.Image | src/lib.rs:118-136 | the image holds `width * height` bytes |
| Mandelbrot.ImageRowsAt | src/lib.rs:127-134 | in the first `n` rows, cell `row * width + col` is the byte of pixel `(col, row)` |
| Mandelbrot.ImageAt | src/lib.rs:127-134 | cell `row * width + col` of the image is the byte of pixel `(col, row)`, that is `Intensity(EscapeTime(pixel_to_point(...), 255))` |
| Mandelbrot.ImageFirstCell | src/lib.rs:127-134 | the first cell of a non-empty image is the byte of the upper-left corner itself |
| Mandelbrot.Render | src/lib.rs:112-137 | it panics exactly when the buffer length differs from `width * height`, and then leaves the buffer untouched; otherwise it finishes with the buffer equal to `Image`, row-major, one byte per pixel |

## Left out

- `main` is not part of this model. It reads the command line, calls the parsers and `render`, and writes the file; it is I/O. As written it also calls `parse_bounds` with two arguments and passes the buffer by value, so it does not compile.
- `write_image` is not part of this model. It writes the buffer as an 8-bit greyscale image file through the `image` crate, in the format the file name's extension selects. That is file I/O through a foreign library.
- `parse_complex_bounds` is not part of this model. It has the same split-at-first-separator shape as `parse_bounds`, but it parses `f64`, and f64 text parsing has no exact counterpart over `real`.
- The commented-out `parse_pair` and `parse_complex` are not part of this model. They are dead code.
- f64 arithmetic is modelled by exact reals, so rounding, overflow to infinity and NaN are not modelled. Rounding at every update can change whether, and when, an orbit crosses the radius-2 threshold. Of the non-finite inputs, only a `c` with a NaN component changes the outcome: it never escapes, because `NaN > 4.0` is false.
- PixelToPoint: requires non-zero `bounds.0` and `bounds.1`. `pixel_to_point` divides by them in f64 and would produce infinity or NaN for a zero dimension. `render` never calls it then, because its loops are empty.
- Render: the product `bounds.0 * bounds.1` is compared as an unbounded integer. In a debug build an overflowing product panics, and a slice cannot be that long anyway, so the model panics in both cases. The wrap-around of a release build is not modelled.
- Render: its contract says the buffer equals `Image`. The per-cell meaning (cell `row * width + col` holds the byte of pixel `(col, row)`) is stated by `ImageAt`, not repeated in the method's contract.
- `usize` is taken to be 64 bits wide.
- Find counts characters where Rust's `find` returns a byte offset. Both cut the string at the same separator, so the two halves are the same strings.
- ParseUsize: models Rust's `usize` parsing of ASCII digits with an optional leading '+'. It does not model the error kinds that Rust's `ParseIntError` distinguishes, because `parse_bounds` discards them.
