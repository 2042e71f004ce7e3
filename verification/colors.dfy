/** Turning an accumulated pixel colour into three 8-bit channel values
    (RTIOW/libs/color.h).

    The sum of the samples is divided by their number, each channel is
    clamped to [0, 0.999], multiplied by 256 and truncated to an integer.
    No gamma correction is applied. */
module Colors {
  import opened Common
  import opened Vectors
  import opened Intervals

  /** The three integers `write_color` emits for one pixel. */
  datatype Rgb = Rgb(r: int, g: int, b: int)

  /** The intensity interval [0, 0.999] used for clamping. */
  const Intensity: Interval := Interval(0.0, Finite(0.999))

  /** One channel: `static_cast<int>(256 * intensity.clamp(x))`.  The result
      is a byte value: 0 for non-positive intensities, 255 from 0.999 up, and
      in between the whole part of `256 x`. */
  function Quantize(x: real): (n: int)
    ensures 0 <= n <= 255
    ensures x <= 0.0 ==> n == 0
    ensures 0.999 <= x ==> n == 255
    ensures 0.0 <= x <= 0.999 ==> n as real <= 256.0 * x < n as real + 1.0
  {
    var clamped := Intensity.Clamp(x);
    assert 0.0 <= 256.0 * clamped <= 255.744;
    Trunc(256.0 * clamped)
  }

  /** Quantisation never reverses the order of two intensities. */
  lemma QuantizeMonotone(x: real, y: real)
    requires x <= y
    ensures Quantize(x) <= Quantize(y)
  {
    ClampIdempotentMonotone(Intensity, x, y);
    TruncMonotone(256.0 * Intensity.Clamp(x), 256.0 * Intensity.Clamp(y));
  }

  /** `write_color`: average the accumulated colour over the samples and
      quantise each channel on its own.  The source computes `1.0 /
      samples_per_pixel`, so the count must not be zero. */
  function WriteColor(pixelColor: Color, samplesPerPixel: int): (out: Rgb)
    requires samplesPerPixel != 0
    ensures 0 <= out.r <= 255 && 0 <= out.g <= 255 && 0 <= out.b <= 255
    ensures 0 < samplesPerPixel && pixelColor.x <= 0.0 ==> out.r == 0
    ensures 0 < samplesPerPixel && pixelColor.y <= 0.0 ==> out.g == 0
    ensures 0 < samplesPerPixel && pixelColor.z <= 0.0 ==> out.b == 0
    ensures out == Rgb(Quantize(Average(pixelColor.x, samplesPerPixel)),
                       Quantize(Average(pixelColor.y, samplesPerPixel)),
                       Quantize(Average(pixelColor.z, samplesPerPixel)))
  {
    var r := Channel(pixelColor.x, samplesPerPixel);
    var g := Channel(pixelColor.y, samplesPerPixel);
    var b := Channel(pixelColor.z, samplesPerPixel);
    Rgb(r, g, b)
  }

  /** One channel of `write_color`: the sum times `1 / samples_per_pixel`,
      quantised.  A non-positive sum over a positive count gives 0. */
  function Channel(sum: real, samplesPerPixel: int): (n: int)
    requires samplesPerPixel != 0
    ensures 0 <= n <= 255
    ensures 0 < samplesPerPixel && sum <= 0.0 ==> n == 0
    ensures n == Quantize(Average(sum, samplesPerPixel))
  {
    assert 0 < samplesPerPixel && sum <= 0.0 ==> Average(sum, samplesPerPixel) <= 0.0 by {
      if 0 < samplesPerPixel && sum <= 0.0 {
        MulNonPositive(sum, 1.0 / samplesPerPixel as real);
      }
    }
    Quantize(Average(sum, samplesPerPixel))
  }

  /** The channel sum scaled by `1.0 / samples_per_pixel`, as the source
      writes it. */
  function Average(sum: real, samplesPerPixel: int): real
    requires samplesPerPixel != 0
  {
    sum * (1.0 / samplesPerPixel as real)
  }

  lemma MulNonPositive(a: real, k: real)
    requires a <= 0.0 && 0.0 < k
    ensures a * k <= 0.0
  {
    MulNonNegative(-a, k);
  }

  /** Each output channel depends on its own input channel only. */
  lemma ChannelsIndependent(c1: Color, c2: Color, samplesPerPixel: int)
    requires samplesPerPixel != 0
    ensures c1.x == c2.x ==> WriteColor(c1, samplesPerPixel).r == WriteColor(c2, samplesPerPixel).r
    ensures c1.y == c2.y ==> WriteColor(c1, samplesPerPixel).g == WriteColor(c2, samplesPerPixel).g
    ensures c1.z == c2.z ==> WriteColor(c1, samplesPerPixel).b == WriteColor(c2, samplesPerPixel).b
  {
  }

  /** A brighter accumulated colour never gives a darker pixel. */
  lemma WriteColorMonotone(c1: Color, c2: Color, samplesPerPixel: int)
    requires 0 < samplesPerPixel
    requires c1.x <= c2.x && c1.y <= c2.y && c1.z <= c2.z
    ensures var o1, o2 := WriteColor(c1, samplesPerPixel), WriteColor(c2, samplesPerPixel);
      o1.r <= o2.r && o1.g <= o2.g && o1.b <= o2.b
  {
    ChannelMonotone(c1.x, c2.x, samplesPerPixel);
    ChannelMonotone(c1.y, c2.y, samplesPerPixel);
    ChannelMonotone(c1.z, c2.z, samplesPerPixel);
  }

  lemma ChannelMonotone(s1: real, s2: real, samplesPerPixel: int)
    requires 0 < samplesPerPixel && s1 <= s2
    ensures Channel(s1, samplesPerPixel) <= Channel(s2, samplesPerPixel)
  {
    AverageMonotone(s1, s2, samplesPerPixel);
    QuantizeMonotone(s1 * (1.0 / samplesPerPixel as real), s2 * (1.0 / samplesPerPixel as real));
  }

  lemma AverageMonotone(s1: real, s2: real, samplesPerPixel: int)
    requires 0 < samplesPerPixel && s1 <= s2
    ensures s1 * (1.0 / samplesPerPixel as real) <= s2 * (1.0 / samplesPerPixel as real)
  {
    MulMonotoneRight(s1, s2, 1.0 / samplesPerPixel as real);
  }

  // -----------------------------------------------------------------------
  // Accumulating samples.

  /** The colour `render` accumulates: the sum of the samples, in order,
      starting from black. */
  function SumColors(samples: seq<Color>): Color
    decreases |samples|
  {
    if |samples| == 0 then Vec3(0.0, 0.0, 0.0)
    else Add(SumColors(samples[..|samples| - 1]), samples[|samples| - 1])
  }

  /** Adding up `n` copies of one colour gives `n` times that colour. */
  lemma {:induction false} SumOfCopies(samples: seq<Color>, c: Color)
    requires forall i :: 0 <= i < |samples| ==> samples[i] == c
    ensures SumColors(samples) == Scale(|samples| as real, c)
  {
    var n := |samples|;
    if n == 0 {
      assert Scale(0.0, c) == Vec3(0.0, 0.0, 0.0);
    } else {
      var k := (n - 1) as real;
      SumOfCopies(samples[..n - 1], c);
      assert SumColors(samples) == Add(Scale(k, c), c);
      ScaleAddOne(k, c);
    }
  }

  lemma ScaleAddOne(k: real, c: Color)
    ensures Add(Scale(k, c), c) == Scale(k + 1.0, c)
  {
    assert k * c.x + c.x == (k + 1.0) * c.x;
    assert k * c.y + c.y == (k + 1.0) * c.y;
    assert k * c.z + c.z == (k + 1.0) * c.z;
  }

  /** When every sample of a pixel has the same colour, the pixel is that
      colour quantised: the division by the sample count undoes the sum. */
  lemma UniformSamplesAverage(samples: seq<Color>, c: Color)
    requires 0 < |samples|
    requires forall i :: 0 <= i < |samples| ==> samples[i] == c
    ensures WriteColor(SumColors(samples), |samples|) == Rgb(Quantize(c.x), Quantize(c.y), Quantize(c.z))
  {
    SumOfCopies(samples, c);
    AverageOfScaled(SumColors(samples), |samples|, c);
  }

  lemma AverageOfScaled(sum: Color, count: int, c: Color)
    requires 0 < count && sum == Scale(count as real, c)
    ensures WriteColor(sum, count) == Rgb(Quantize(c.x), Quantize(c.y), Quantize(c.z))
  {
    AverageOfCopies(sum.x, c.x, count);
    AverageOfCopies(sum.y, c.y, count);
    AverageOfCopies(sum.z, c.z, count);
  }

  lemma AverageOfCopies(sum: real, x: real, count: int)
    requires 0 < count && sum == count as real * x
    ensures Channel(sum, count) == Quantize(x)
  {
    CancelCount(count as real, x);
  }

  lemma CancelCount(n: real, x: real)
    requires 0.0 < n
    ensures (n * x) * (1.0 / n) == x
  {
    var inv := 1.0 / n;
    assert n * inv == 1.0;
    assert (n * x) * inv == (n * inv) * x;
  }
}
