/**
 The local noise estimate of `make_noise_map`: a sliding-window minimum of the
 image, negated and divided by a calibration ratio, then guarded from below by
 a tiny floor for negative estimates and by the global median.

 The window is scipy's `minimum_filter` with a square `boxsize` footprint,
 origin 0 and boundary mode 'reflect': along an axis of length n the output at
 index i looks at the inputs i - boxsize/2 + p for 0 <= p < boxsize, and an
 index that falls outside [0, n) is mirrored about the edge (the edge pixel
 itself repeated), periodically with period 2n. scipy filters only along
 axes whose size exceeds 1 and copies the input when none is left, so a
 `boxsize` of 1 or less reads the pixel itself: the window side is then 1.
 */
module NoiseMap {
  import opened Grids
  import Order

  /** The value a negative estimate is replaced with. */
  const Floor: real := 0.0000000001

  /** Mirror an out-of-range index back into [0, n), 'reflect' style: `d c b a | a b c d | d c b a`. */
  function Reflect(k: int, n: int): (r: int)
    requires n >= 1
    ensures 0 <= r < n
    ensures 0 <= k < n ==> r == k
  {
    var m := k % (2 * n);
    assert 0 <= k < n ==> m == k by {
      if 0 <= k < n {
        ModUnique(k, 2 * n, 0, k);
      }
    }
    if m < n then m else 2 * n - 1 - m
  }

  /** Euclidean remainder is determined by any decomposition x == q * N + r with 0 <= r < N. */
  lemma ModUnique(x: int, N: int, q: int, r: int)
    requires N > 0 && 0 <= r < N && x == q * N + r
    ensures x % N == r
  {
    var q0, r0 := x / N, x % N;
    var d := q - q0;
    assert d * N == r0 - r;
    if d > 0 {
      MulNonNegative(d - 1, N);
      assert false;
    } else if d < 0 {
      MulNonNegative(-d - 1, N);
      assert false;
    }
  }

  lemma MulNonNegative(a: int, b: int)
    requires a >= 0 && b >= 0
    ensures a * b >= 0
  {
  }

  /** Mirroring about the lower edge (between -1 and 0) and about the upper edge (between n - 1 and n) changes nothing. */
  lemma ReflectSymmetric(k: int, n: int)
    requires n >= 1
    ensures Reflect(-1 - k, n) == Reflect(k, n)
    ensures Reflect(2 * n - 1 - k, n) == Reflect(k, n)
  {
    var N := 2 * n;
    var m := k % N;
    var q := k / N;
    assert k == q * N + m;
    ModUnique(-1 - k, N, -q - 1, N - 1 - m);
    ModUnique(N - 1 - k, N, -q, N - 1 - m);
  }

  /** The side of the square window the filter uses for a `box = (boxsize, boxsize)` request. */
  function WindowSide(boxsize: int): (b: int)
    ensures b >= 1
  {
    if boxsize < 1 then 1 else boxsize
  }

  /** The image value seen at offset (p, q) of the window anchored for output pixel (i, j). */
  function Sample(img: Image, b: int, i: int, j: int, p: int, q: int): real
    requires IsRect(img)
  {
    img[Reflect(i - b / 2 + p, |img|)][Reflect(j - b / 2 + q, Width(img))]
  }

  /** The least sample in row `p` of the window over columns q..b-1. */
  function RowMin(img: Image, b: int, i: int, j: int, p: int, q: int): (r: real)
    requires IsRect(img) && 0 <= q < b
    ensures forall q' :: q <= q' < b ==> r <= Sample(img, b, i, j, p, q')
    ensures exists q' :: q <= q' < b && r == Sample(img, b, i, j, p, q')
    decreases b - q
  {
    var here := Sample(img, b, i, j, p, q);
    if q == b - 1 then here
    else
      var rest := RowMin(img, b, i, j, p, q + 1);
      if here <= rest then here else rest
  }

  /** The least sample in rows p..b-1 of the window. */
  function BoxMin(img: Image, b: int, i: int, j: int, p: int): (r: real)
    requires IsRect(img) && 0 <= p < b
    ensures forall p', q' :: p <= p' < b && 0 <= q' < b ==> r <= Sample(img, b, i, j, p', q')
    ensures exists p', q' :: p <= p' < b && 0 <= q' < b && r == Sample(img, b, i, j, p', q')
    decreases b - p
  {
    var here := RowMin(img, b, i, j, p, 0);
    if p == b - 1 then here
    else
      var rest := BoxMin(img, b, i, j, p + 1);
      if here <= rest then here else rest
  }

  /** The minimum of the b-by-b window for output pixel (i, j); the window holds the pixel itself. */
  function WindowMin(img: Image, b: int, i: int, j: int): (r: real)
    requires IsRect(img) && b >= 1 && InGrid(img, i, j)
    ensures forall p, q :: 0 <= p < b && 0 <= q < b ==> r <= Sample(img, b, i, j, p, q)
    ensures exists p, q :: 0 <= p < b && 0 <= q < b && r == Sample(img, b, i, j, p, q)
    ensures r <= img[i][j]
  {
    CentreSample(img, b, i, j);
    BoxMin(img, b, i, j, 0)
  }

  /** Dividing by a positive ratio and negating reverses the order of two values. */
  lemma NegDivAntitone(x: real, y: real, ratio: real)
    requires x <= y && ratio > 0.0
    ensures -y / ratio <= -x / ratio
  {
    assert -x / ratio - -y / ratio == (y - x) / ratio;
  }

  /** Line 59 at one pixel: the negated window minimum scaled by the calibration ratio. */
  function RawNoiseAt(img: Image, b: int, ratio: real, i: int, j: int): (v: real)
    requires IsRect(img) && b >= 1 && ratio > 0.0 && InGrid(img, i, j)
    ensures v >= -img[i][j] / ratio
    ensures forall p, q :: 0 <= p < b && 0 <= q < b ==> v >= -Sample(img, b, i, j, p, q) / ratio
    ensures exists p, q :: 0 <= p < b && 0 <= q < b && v == -Sample(img, b, i, j, p, q) / ratio
  {
    var w := WindowMin(img, b, i, j);
    NegDivAntitone(w, img[i][j], ratio);
    assert forall p, q :: 0 <= p < b && 0 <= q < b ==> -Sample(img, b, i, j, p, q) / ratio <= -w / ratio by {
      forall p, q | 0 <= p < b && 0 <= q < b {
        NegDivAntitone(w, Sample(img, b, i, j, p, q), ratio);
      }
    }
    -w / ratio
  }

  /** A box side of 1 or less makes the filter a copy: the raw estimate is -img/ratio pixel by pixel. */
  lemma SmallBoxCopies(img: Image, boxsize: int, ratio: real)
    requires IsRect(img) && ratio > 0.0 && boxsize <= 1
    ensures forall i, j :: InGrid(img, i, j) ==> RawNoise(img, WindowSide(boxsize), ratio)[i][j] == -img[i][j] / ratio
  {
    var b := WindowSide(boxsize);
    forall i, j | InGrid(img, i, j)
      ensures RawNoiseAt(img, b, ratio, i, j) == -img[i][j] / ratio
    {
      UnitWindow(img, b, ratio, i, j);
    }
  }

  /** The 1-by-1 window of a pixel holds only the pixel itself. */
  lemma UnitWindow(img: Image, b: int, ratio: real, i: int, j: int)
    requires IsRect(img) && b == 1 && ratio > 0.0 && InGrid(img, i, j)
    ensures RawNoiseAt(img, b, ratio, i, j) == -img[i][j] / ratio
  {
    var w := WindowMin(img, b, i, j);
    var p, q :| 0 <= p < b && 0 <= q < b && w == Sample(img, b, i, j, p, q);
    assert p == b / 2 && q == b / 2;
    CentreSample(img, b, i, j);
    assert w == img[i][j];
    assert RawNoiseAt(img, b, ratio, i, j) == -w / ratio;
  }

  /** The middle of the window is the output pixel itself. */
  lemma CentreSample(img: Image, b: int, i: int, j: int)
    requires IsRect(img) && b >= 1 && InGrid(img, i, j)
    ensures Sample(img, b, i, j, b / 2, b / 2) == img[i][j]
  {
    assert Reflect(i, |img|) == i && Reflect(j, Width(img)) == j;
  }

  /** Line 59: the raw estimate over the whole image, before any guard. */
  function RawNoise(img: Image, b: int, ratio: real): (n: Image)
    requires IsRect(img) && b >= 1 && ratio > 0.0
    ensures SameShape(img, n)
    ensures forall i, j :: InGrid(img, i, j) ==> n[i][j] == RawNoiseAt(img, b, ratio, i, j)
    ensures forall i, j :: InGrid(img, i, j) ==> n[i][j] >= -img[i][j] / ratio
  {
    seq(|img|, i requires 0 <= i < |img| =>
      seq(Width(img), j requires 0 <= j < Width(img) => RawNoiseAt(img, b, ratio, i, j)))
  }

  /** Lines 60-61: negative estimates become `Floor`; zero and positive ones are kept. */
  function FloorGuard(n: Image): (r: Image)
    requires IsRect(n)
    ensures SameShape(n, r)
    ensures forall i, j :: InGrid(n, i, j) ==> r[i][j] >= 0.0 && r[i][j] >= n[i][j]
    ensures forall i, j :: InGrid(n, i, j) && n[i][j] >= 0.0 ==> r[i][j] == n[i][j]
    ensures forall i, j :: InGrid(n, i, j) && n[i][j] < 0.0 ==> r[i][j] == Floor
  {
    seq(|n|, i requires 0 <= i < |n| =>
      seq(Width(n), j requires 0 <= j < Width(n) => if n[i][j] < 0.0 then Floor else n[i][j]))
  }

  /** `x` is the value of some pixel of `g`. */
  ghost predicate IsEntry(g: Image, x: real)
  {
    exists i, j :: 0 <= i < |g| && 0 <= j < |g[i]| && x == g[i][j]
  }

  /** The grid's values row after row, as numpy flattens an array; every element is a pixel value. */
  function Flatten(g: Image): (s: seq<real>)
    ensures forall k :: 0 <= k < |s| ==> IsEntry(g, s[k])
    ensures |g| > 0 ==> |s| >= |g[0]|
  {
    if |g| == 0 then []
    else
      var rest := Flatten(g[1..]);
      var flat := g[0] + rest;
      assert forall k :: 0 <= k < |flat| ==> IsEntry(g, flat[k]) by {
        forall k | 0 <= k < |flat|
          ensures IsEntry(g, flat[k])
        {
          if k < |g[0]| {
            assert flat[k] == g[0][k];
          } else {
            assert IsEntry(g[1..], rest[k - |g[0]|]);
            var i, j :| 0 <= i < |g[1..]| && 0 <= j < |g[1..][i]| && rest[k - |g[0]|] == g[1..][i][j];
            assert flat[k] == g[i + 1][j];
            assert 0 <= i + 1 < |g| && 0 <= j < |g[i + 1]|;
          }
        }
      }
      flat
  }

  /**
   The flattening is row-major: it has one entry per pixel, and pixel (i, j)
   sits at position i * width + j.
   */
  lemma FlattenRowMajor(g: Image)
    requires IsRect(g)
    ensures |Flatten(g)| == |g| * Width(g)
    ensures forall i, j :: InGrid(g, i, j) ==>
      0 <= i * Width(g) + j < |Flatten(g)| && Flatten(g)[i * Width(g) + j] == g[i][j]
  {
    FlattenLength(g);
    forall i, j | InGrid(g, i, j)
      ensures 0 <= i * Width(g) + j < |Flatten(g)| && Flatten(g)[i * Width(g) + j] == g[i][j]
    {
      FlattenAt(g, i, j);
    }
  }

  lemma {:induction false} FlattenLength(g: Image)
    requires IsRect(g)
    ensures |Flatten(g)| == |g| * Width(g)
  {
    var w := Width(g);
    assert Flatten(g) == g[0] + Flatten(g[1..]);
    if |g| == 1 {
      assert Flatten(g[1..]) == [];
    } else {
      assert IsRect(g[1..]) && Width(g[1..]) == w;
      FlattenLength(g[1..]);
      NextRow(|g| - 1, w, 0);
    }
  }

  lemma {:induction false} FlattenAt(g: Image, i: int, j: int)
    requires IsRect(g) && InGrid(g, i, j)
    ensures 0 <= i * Width(g) + j < |Flatten(g)| && Flatten(g)[i * Width(g) + j] == g[i][j]
    decreases i
  {
    var w := Width(g);
    var rest := Flatten(g[1..]);
    assert Flatten(g) == g[0] + rest;
    FlattenLength(g);
    if i == 0 {
      assert Flatten(g)[j] == g[0][j];
    } else {
      assert IsRect(g[1..]) && Width(g[1..]) == w;
      FlattenAt(g[1..], i - 1, j);
      NextRow(i - 1, w, j);
      assert Flatten(g)[w + ((i - 1) * w + j)] == rest[(i - 1) * w + j];
    }
  }

  /** One row further on is `w` positions further on. */
  /** One row further on is `w` positions further on. */
  lemma NextRow(i: int, w: int, j: int)
    ensures (i + 1) * w + j == w + (i * w + j)
  {
  }

  /** Conversely, every pixel value occurs in the flattened sequence. */
  lemma {:induction false} FlattenHasEveryEntry(g: Image)
    ensures forall i, j :: 0 <= i < |g| && 0 <= j < |g[i]| ==> g[i][j] in Flatten(g)
  {
    if |g| > 0 {
      FlattenHasEveryEntry(g[1..]);
      var flat := Flatten(g);
      assert flat == g[0] + Flatten(g[1..]);
      forall i, j | 0 <= i < |g| && 0 <= j < |g[i]|
        ensures g[i][j] in flat
      {
        if i == 0 {
          assert flat[j] == g[0][j];
        } else {
          assert g[1..][i - 1][j] == g[i][j];
          assert g[i][j] in Flatten(g[1..]);
        }
      }
    }
  }

  /** Line 62: the median of every value of the grid. */
  function GridMedian(n: Image): (m: real)
    requires IsRect(n)
    ensures exists i, j :: InGrid(n, i, j) && n[i][j] <= m
    ensures exists i, j :: InGrid(n, i, j) && m <= n[i][j]
    ensures Order.CountIf(Flatten(n), Order.Below(m)) <= |Flatten(n)| / 2
    ensures Order.CountIf(Flatten(n), Order.Above(m)) <= |Flatten(n)| / 2
  {
    var s := Flatten(n);
    var m := Order.Median(s);
    var k1 :| 0 <= k1 < |s| && s[k1] <= m;
    var k2 :| 0 <= k2 < |s| && m <= s[k2];
    assert IsEntry(n, s[k1]) && IsEntry(n, s[k2]);
    m
  }

  /** Lines 63-64: estimates below the median are raised to it, the rest are kept. */
  function MedianClamp(n: Image, med: real): (r: Image)
    requires IsRect(n)
    ensures SameShape(n, r)
    ensures forall i, j :: InGrid(n, i, j) ==> r[i][j] >= med && r[i][j] >= n[i][j]
    ensures forall i, j :: InGrid(n, i, j) ==> r[i][j] == n[i][j] || r[i][j] == med
  {
    seq(|n|, i requires 0 <= i < |n| =>
      seq(Width(n), j requires 0 <= j < Width(n) => if n[i][j] < med then med else n[i][j]))
  }

  /** The median the clamp raises to: that of the floor-guarded raw estimates. */
  function MedianNoise(img: Image, boxsize: int, ratio: real): (m: real)
    requires IsRect(img) && ratio > 0.0
    ensures m >= 0.0
  {
    GridMedian(FloorGuard(RawNoise(img, WindowSide(boxsize), ratio)))
  }

  /** `make_noise_map` with the calibration ratio given. */
  function MakeNoiseMap(img: Image, boxsize: int, ratio: real): (n: Image)
    requires IsRect(img) && ratio > 0.0
    ensures SameShape(img, n)
  {
    MedianClamp(FloorGuard(RawNoise(img, WindowSide(boxsize), ratio)), MedianNoise(img, boxsize, ratio))
  }

  /**
   Every value of the noise map is at least the (non-negative) median and at
   least the raw estimate -img/ratio, and is either the guarded raw estimate
   or the median itself.
   */
  lemma MakeNoiseMapBounds(img: Image, boxsize: int, ratio: real)
    requires IsRect(img) && ratio > 0.0
    ensures var n := MakeNoiseMap(img, boxsize, ratio);
      forall i, j :: InGrid(img, i, j) ==> n[i][j] >= MedianNoise(img, boxsize, ratio) >= 0.0
    ensures var n := MakeNoiseMap(img, boxsize, ratio);
      forall i, j :: InGrid(img, i, j) ==> n[i][j] >= -img[i][j] / ratio
    ensures var n := MakeNoiseMap(img, boxsize, ratio); var floored := FloorGuard(RawNoise(img, WindowSide(boxsize), ratio));
      forall i, j :: InGrid(img, i, j) ==> n[i][j] == floored[i][j] || n[i][j] == MedianNoise(img, boxsize, ratio)
  {
    var raw := RawNoise(img, WindowSide(boxsize), ratio);
    var floored := FloorGuard(raw);
    var med := MedianNoise(img, boxsize, ratio);
    var n := MedianClamp(floored, med);
    assert MakeNoiseMap(img, boxsize, ratio) == n;
    forall i, j | InGrid(img, i, j)
      ensures n[i][j] >= med && n[i][j] >= -img[i][j] / ratio && (n[i][j] == floored[i][j] || n[i][j] == med)
    {
      assert InGrid(raw, i, j) && InGrid(floored, i, j);
      assert n[i][j] >= floored[i][j] >= raw[i][j] >= -img[i][j] / ratio;
    }
  }
}
