/** Per-image feature extraction: the pixel scan (every column `i`, and
    within it every row `j`), the list of colour codes it collects, and the
    intensity histogram over fixed bin edges. The image itself is a
    function from coordinates to pixels, and the intensity of a pixel (its
    luma) is a given function. */
module Histograms {
  import opened ColorCodes

  /** The order the nested pixel loops visit an image: column 0 top to
      bottom, then column 1, and so on. */
  function Scan<T>(width: nat, height: nat, f: (nat, nat) -> T): seq<T>
  {
    if width == 0 then [] else Scan(width - 1, height, f) + Column(width - 1, height, f)
  }

  /** The first `height` pixels of column `i`. */
  function Column<T>(i: nat, height: nat, f: (nat, nat) -> T): seq<T>
  {
    if height == 0 then [] else Column(i, height - 1, f) + [f(i, height - 1)]
  }

  lemma {:induction false} ColumnAt<T>(i: nat, height: nat, f: (nat, nat) -> T, j: nat)
    requires j < height
    ensures |Column(i, height, f)| == height
    ensures Column(i, height, f)[j] == f(i, j)
  {
    if j < height - 1 {
      ColumnAt(i, height - 1, f, j);
    } else if height > 1 {
      ColumnAt(i, height - 1, f, 0);
    }
  }

  lemma {:induction false} ColumnLength<T>(i: nat, height: nat, f: (nat, nat) -> T)
    ensures |Column(i, height, f)| == height
  {
    if height > 0 {
      ColumnLength(i, height - 1, f);
    }
  }

  lemma {:induction false} ScanLength<T>(width: nat, height: nat, f: (nat, nat) -> T)
    ensures |Scan(width, height, f)| == width * height
  {
    if width > 0 {
      ScanLength(width - 1, height, f);
      ColumnLength(width - 1, height, f);
      assert (width - 1) * height + height == width * height;
    }
  }

  /** One more pixel of column `i` extends the scan by that pixel. */
  lemma ScanStep<T>(i: nat, j: nat, height: nat, f: (nat, nat) -> T)
    ensures Scan(i, height, f) + Column(i, j + 1, f) == (Scan(i, height, f) + Column(i, j, f)) + [f(i, j)]
    ensures Scan(i, height, f) + Column(i, 0, f) == Scan(i, height, f)
    ensures Scan(i, height, f) + Column(i, height, f) == Scan(i + 1, height, f)
  {
  }

  lemma MulStrictBound(i: nat, j: nat, w: nat, h: nat)
    requires i < w && j < h
    ensures i * h + j < w * h
  {
    assert i * h + j < (i + 1) * h;
    assert (i + 1) * h <= w * h;
  }

  /** Pixel `(i, j)` sits at position `i*height + j` of the scan. */
  lemma {:induction false} ScanAt<T>(width: nat, height: nat, f: (nat, nat) -> T, i: nat, j: nat)
    requires i < width && j < height
    ensures |Scan(width, height, f)| == width * height
    ensures i * height + j < width * height
    ensures Scan(width, height, f)[i * height + j] == f(i, j)
  {
    ScanLength(width, height, f);
    MulStrictBound(i, j, width, height);
    ScanLength(width - 1, height, f);
    if i < width - 1 {
      MulStrictBound(i, j, width - 1, height);
      ScanAt(width - 1, height, f, i, j);
    } else {
      ColumnAt(i, height, f, j);
    }
  }

  lemma MulLeMono(a: nat, b: nat, h: nat)
    requires a <= b
    ensures a * h <= b * h
  {
    assert b * h == a * h + (b - a) * h;
  }

  /** Distinct pixels occupy distinct positions of the scan. */
  lemma ScanPositionsDistinct(height: nat, i: nat, j: nat, i': nat, j': nat)
    requires j < height && j' < height
    requires i * height + j == i' * height + j'
    ensures i == i' && j == j'
  {
    if i < i' {
      MulLeMono(i + 1, i', height);
    } else if i' < i {
      MulLeMono(i' + 1, i, height);
    }
  }

  /** Every position `k` of the scan holds the pixel `(k / height, k %
      height)`, which lies inside the image: with `ScanAt` and
      `ScanPositionsDistinct` the scan visits each pixel exactly once. */
  lemma ScanCoversEachPosition<T>(width: nat, height: nat, f: (nat, nat) -> T, k: nat)
    requires k < width * height
    ensures height > 0 && k / height < width && k % height < height
    ensures |Scan(width, height, f)| == width * height
    ensures Scan(width, height, f)[k] == f(k / height, k % height)
  {
    var i, j := k / height, k % height;
    assert k == i * height + j;
    if i >= width {
      MulLeMono(width, i, height);
    }
    ScanAt(width, height, f, i, j);
  }

  /** The nested pixel loops shared by both extractors: for each column
      `i`, for each row `j`, append `f(i, j)`. */
  method ScanPixels<T>(width: nat, height: nat, f: (nat, nat) -> T) returns (values: seq<T>)
    ensures values == Scan(width, height, f)
    ensures |values| == width * height
  {
    values := [];
    var i := 0;
    while i < width
      invariant 0 <= i <= width
      invariant values == Scan(i, height, f)
    {
      var j := 0;
      ScanStep(i, 0, height, f);
      while j < height
        invariant 0 <= j <= height
        invariant values == Scan(i, height, f) + Column(i, j, f)
      {
        ScanStep(i, j, height, f);
        values := values + [f(i, j)];
        j := j + 1;
      }
      ScanStep(i, height, height, f);
      i := i + 1;
    }
    ScanLength(width, height, f);
  }

  /** The per-pixel colour code of an image. */
  function CodeAt(pixelAt: (nat, nat) -> Pixel): (nat, nat) -> nat
  {
    (i: nat, j: nat) => ColorCode(pixelAt(i, j))
  }

  /** The per-pixel intensity of an image. */
  function LumaAt(pixelAt: (nat, nat) -> Pixel, luma: Pixel -> real): (nat, nat) -> real
  {
    (i: nat, j: nat) => luma(pixelAt(i, j))
  }

  /** Position `i*height + j` of the collected codes is pixel `(i, j)`'s
      code. */
  lemma CodeOfPixel(width: nat, height: nat, pixelAt: (nat, nat) -> Pixel, i: nat, j: nat)
    requires i < width && j < height
    ensures i * height + j < |Scan(width, height, CodeAt(pixelAt))|
    ensures Scan(width, height, CodeAt(pixelAt))[i * height + j] == ColorCode(pixelAt(i, j))
  {
    ScanAt(width, height, CodeAt(pixelAt), i, j);
  }

  /** A property every pixel's value has is had by every scanned value. */
  lemma {:induction false} ScanAll<T>(width: nat, height: nat, f: (nat, nat) -> T, P: T -> bool)
    requires forall i: nat, j: nat :: P(f(i, j))
    ensures forall k :: 0 <= k < |Scan(width, height, f)| ==> P(Scan(width, height, f)[k])
  {
    if width > 0 {
      ScanAll(width - 1, height, f, P);
      ColumnAll(width - 1, height, f, P);
    }
  }

  lemma {:induction false} ColumnAll<T>(i: nat, height: nat, f: (nat, nat) -> T, P: T -> bool)
    requires forall i: nat, j: nat :: P(f(i, j))
    ensures forall k :: 0 <= k < |Column(i, height, f)| ==> P(Column(i, height, f)[k])
  {
    if height > 0 {
      ColumnAll(i, height - 1, f, P);
    }
  }

  /** Every collected code is below 64. */
  lemma CodesBelow64(width: nat, height: nat, pixelAt: (nat, nat) -> Pixel)
    ensures forall k :: 0 <= k < |Scan(width, height, CodeAt(pixelAt))| ==>
              Scan(width, height, CodeAt(pixelAt))[k] < 64
  {
    forall i: nat, j: nat ensures CodeAt(pixelAt)(i, j) < 64 {
      ColorCodeFormula(pixelAt(i, j));
    }
    ScanAll(width, height, CodeAt(pixelAt), (c: nat) => c < 64);
  }

  /** `calculate_color_code` without its final `np.histogram` call: the
      pixel loops collect one code per pixel in scan order (by
      `CodeOfPixel`, pixel `(i, j)`'s code at position `i*height + j`), each
      below 64, and the image size is `width*height`. */
  method CalculateColorCode(width: nat, height: nat, pixelAt: (nat, nat) -> Pixel)
    returns (size: nat, codes: seq<nat>)
    ensures size == width * height && |codes| == size
    ensures codes == Scan(width, height, CodeAt(pixelAt))
    ensures forall k :: 0 <= k < |codes| ==> codes[k] < 64
  {
    codes := ScanPixels(width, height, CodeAt(pixelAt));
    size := width * height;
    CodesBelow64(width, height, pixelAt);
  }

  /** Python's `range(start, stop, step)` for a positive step. */
  function Range(start: int, stop: int, step: nat): seq<int>
    requires step > 0
    decreases stop - start
  {
    if start >= stop then [] else [start] + Range(start + step, stop, step)
  }

  /** The intensity histogram's bin edges: `range(0, 250, 10)` followed by
      255. */
  function IntensityBinEdges(): seq<int>
  {
    Range(0, 250, 10) + [255]
  }

  predicate StrictlyIncreasing(edges: seq<int>)
  {
    forall i, j :: 0 <= i < j < |edges| ==> edges[i] < edges[j]
  }

  lemma {:induction false} RangeByTen(m: nat)
    requires m <= 25
    ensures |Range(10 * m, 250, 10)| == 25 - m
    ensures forall k :: 0 <= k < 25 - m ==> Range(10 * m, 250, 10)[k] == 10 * (m + k)
    decreases 25 - m
  {
    if m < 25 {
      RangeByTen(m + 1);
      assert 10 * m + 10 == 10 * (m + 1);
    }
  }

  /** There are 26 strictly increasing edges, 0, 10, ..., 240 and 255, so
      25 bins covering [0, 255]. */
  lemma IntensityBinEdgesShape()
    ensures |IntensityBinEdges()| == 26
    ensures forall k :: 0 <= k < 25 ==> IntensityBinEdges()[k] == 10 * k
    ensures IntensityBinEdges()[0] == 0 && IntensityBinEdges()[25] == 255
    ensures StrictlyIncreasing(IntensityBinEdges())
  {
    RangeByTen(0);
  }

  /** `np.histogram`'s bin rule: bin `k` holds `edges[k] <= v < edges[k+1]`,
      and the last bin also holds its right edge. */
  predicate InBin(v: real, edges: seq<int>, k: nat)
    requires k + 1 < |edges|
  {
    edges[k] as real <= v &&
    (v < edges[k + 1] as real || (k + 2 == |edges| && v == edges[k + 1] as real))
  }

  predicate InRange(v: real, edges: seq<int>)
    requires |edges| >= 1
  {
    edges[0] as real <= v <= edges[|edges| - 1] as real
  }

  /** How many of `vs` fall in bin `k`. */
  function CountIn(vs: seq<real>, edges: seq<int>, k: nat): nat
    requires k + 1 < |edges|
  {
    if vs == [] then 0
    else CountIn(vs[..|vs| - 1], edges, k) + (if InBin(vs[|vs| - 1], edges, k) then 1 else 0)
  }

  /** How many of `vs` lie between the first and the last edge. */
  function CountInRange(vs: seq<real>, edges: seq<int>): nat
    requires |edges| >= 1
  {
    if vs == [] then 0
    else CountInRange(vs[..|vs| - 1], edges) + (if InRange(vs[|vs| - 1], edges) then 1 else 0)
  }

  /** `np.histogram(vs, bins=edges)`: one count per bin. */
  function Histogram(vs: seq<real>, edges: seq<int>): (h: seq<nat>)
    requires |edges| >= 2
    ensures |h| == |edges| - 1
  {
    seq(|edges| - 1, k requires 0 <= k < |edges| - 1 => CountIn(vs, edges, k))
  }

  function SumCounts(h: seq<nat>): nat
  {
    if h == [] then 0 else SumCounts(h[..|h| - 1]) + h[|h| - 1]
  }

  /** How many of the first `n` bins a single value falls in. */
  function BinsHit(v: real, edges: seq<int>, n: nat): nat
    requires n < |edges|
  {
    if n == 0 then 0 else BinsHit(v, edges, n - 1) + (if InBin(v, edges, n - 1) then 1 else 0)
  }

  /** With strictly increasing edges a value in [first edge, last edge] lies
      in exactly one bin and any other value in none. */
  lemma {:induction false} ExactlyOneBin(v: real, edges: seq<int>, n: nat)
    requires StrictlyIncreasing(edges)
    requires 1 <= n < |edges|
    ensures n + 1 < |edges| ==>
              BinsHit(v, edges, n) == if edges[0] as real <= v < edges[n] as real then 1 else 0
    ensures n + 1 == |edges| ==>
              BinsHit(v, edges, n) == if InRange(v, edges) then 1 else 0
  {
    if n > 1 {
      ExactlyOneBin(v, edges, n - 1);
    }
  }

  /** Adding one value adds its bin indicator to the first `n` bin totals. */
  lemma {:induction false} BinTotalsSnoc(vs: seq<real>, v: real, edges: seq<int>, n: nat)
    requires 2 <= |edges| && n < |edges|
    ensures SumCounts(Histogram(vs + [v], edges)[..n]) ==
              SumCounts(Histogram(vs, edges)[..n]) + BinsHit(v, edges, n)
    decreases n
  {
    if n > 0 {
      BinTotalsSnoc(vs, v, edges, n - 1);
      var h, h' := Histogram(vs, edges), Histogram(vs + [v], edges);
      assert h[..n][..n - 1] == h[..n - 1];
      assert h'[..n][..n - 1] == h'[..n - 1];
      assert (vs + [v])[..|vs|] == vs;
      assert h'[n - 1] == h[n - 1] + (if InBin(v, edges, n - 1) then 1 else 0);
    }
  }

  /** `np.histogram` with strictly increasing edges counts every value
      between the first and the last edge once, and nothing else. */
  lemma {:induction false} HistogramTotal(vs: seq<real>, edges: seq<int>)
    requires |edges| >= 2 && StrictlyIncreasing(edges)
    ensures |Histogram(vs, edges)| == |edges| - 1
    ensures SumCounts(Histogram(vs, edges)) == CountInRange(vs, edges)
  {
    var n := |edges| - 1;
    var h := Histogram(vs, edges);
    assert h[..n] == h;
    if vs == [] {
      EmptyHistogram(edges, n);
    } else {
      var init, v := vs[..|vs| - 1], vs[|vs| - 1];
      HistogramTotal(init, edges);
      assert init + [v] == vs;
      BinTotalsSnoc(init, v, edges, n);
      assert Histogram(init, edges)[..n] == Histogram(init, edges);
      ExactlyOneBin(v, edges, n);
    }
  }

  lemma {:induction false} EmptyHistogram(edges: seq<int>, n: nat)
    requires 2 <= |edges| && n < |edges|
    ensures SumCounts(Histogram([], edges)[..n]) == 0
  {
    if n > 0 {
      assert Histogram([], edges)[..n][..n - 1] == Histogram([], edges)[..n - 1];
      EmptyHistogram(edges, n - 1);
    }
  }

  lemma {:induction false} AllInRange(vs: seq<real>, edges: seq<int>)
    requires |edges| >= 1
    requires forall k :: 0 <= k < |vs| ==> InRange(vs[k], edges)
    ensures CountInRange(vs, edges) == |vs|
  {
    if vs != [] {
      AllInRange(vs[..|vs| - 1], edges);
    }
  }

  /** `calculate_intensity`: the pixel loops collect one intensity per
      pixel, which are binned over the fixed edges; the image size is
      `width*height`, and when every intensity lies in [0, 255] (as the luma
      of 8-bit channels does) the 25 bin counts add up to it. */
  method CalculateIntensity(width: nat, height: nat, pixelAt: (nat, nat) -> Pixel, luma: Pixel -> real)
    returns (size: nat, hist: seq<nat>)
    ensures size == width * height
    ensures |hist| == 25
    ensures hist == Histogram(Scan(width, height, LumaAt(pixelAt, luma)), IntensityBinEdges())
    ensures (forall p :: 0.0 <= luma(p) <= 255.0) ==> SumCounts(hist) == size
  {
    var intensities := ScanPixels(width, height, LumaAt(pixelAt, luma));
    var edges := IntensityBinEdges();
    IntensityBinEdgesShape();
    hist := Histogram(intensities, edges);
    size := width * height;
    HistogramTotal(intensities, edges);
    if forall p :: 0.0 <= luma(p) <= 255.0 {
      ScanAll(width, height, LumaAt(pixelAt, luma), (v: real) => InRange(v, edges));
      AllInRange(intensities, edges);
    }
  }
}
