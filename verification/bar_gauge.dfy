/** The horizontal bar-gauge reader: a thin horizontal strip through the
    middle of the region is averaged down its rows into an 8-bit profile,
    adjacent differences are taken in 8-bit arithmetic, and the position of
    the first strongest difference, as a fraction of the width, is the
    gauge's reading. Images are single-channel: the grey conversion works
    pixel by pixel, so converting after cropping (as the source does) or
    before gives the same strip, and the conversion itself is not modelled. */
module BarGauge {
  import opened Wrappers

  /** An unsigned 8-bit value, as in a numpy `uint8` array. */
  type byte = x: int | 0 <= x < 256

  /** A grey image of `width` columns; `rows` holds the pixel rows. */
  datatype RawImage = Image(width: nat, rows: seq<seq<byte>>)

  predicate WellFormed(img: RawImage)
  {
    forall r :: 0 <= r < |img.rows| ==> |img.rows[r]| == img.width
  }

  /** A rectangular grey image, the shape numpy gives every frame. */
  type Image = img: RawImage | WellFormed(img) witness Image(0, [])

  /** Where a Python slice bound `i` lands in a sequence of length `len`:
      negative bounds count from the end, and both ends are clamped. */
  function SliceBound(i: int, len: nat): (r: nat)
    ensures r <= len
    ensures 0 <= i <= len ==> r == i
    ensures i < 0 && i + len >= 0 ==> r == i + len
    ensures i + len < 0 ==> r == 0
    ensures i > len ==> r == len
  {
    if i < 0 then (if i + len < 0 then 0 else i + len)
    else if i > len then len
    else i
  }

  /** The length of the Python slice `[a:b]` of a sequence of length `len`. */
  function SliceLen(len: nat, a: int, b: int): (n: nat)
    ensures n <= len
  {
    var lo := SliceBound(a, len);
    var hi := SliceBound(b, len);
    if lo < hi then hi - lo else 0
  }

  /** Python's `s[a:b]`. */
  function Slice<T>(s: seq<T>, a: int, b: int): (r: seq<T>)
    ensures |r| == SliceLen(|s|, a, b)
    ensures 0 <= a <= b <= |s| ==> r == s[a..b]
  {
    var lo := SliceBound(a, |s|);
    var hi := SliceBound(b, |s|);
    if lo < hi then s[lo..hi] else []
  }

  /** numpy's slice for any bounds: element `j` of `s[a:b]` is element
      `a' + j` of `s`, where `a'` is where `a` lands. */
  lemma SliceElements<T>(s: seq<T>, a: int, b: int)
    ensures var r := Slice(s, a, b);
      forall j :: 0 <= j < |r| ==> r[j] == s[SliceBound(a, |s|) + j]
  {
  }

  /** numpy's `img[top:bot, left:right]`: the rows sliced, then every row
      sliced. The width of the crop depends only on the image width. */
  function Crop(img: Image, top: int, bot: int, left: int, right: int): (c: Image)
    ensures c.width == SliceLen(img.width, left, right)
    ensures |c.rows| == SliceLen(|img.rows|, top, bot)
    ensures 0 <= top <= bot <= |img.rows| && 0 <= left <= right <= img.width ==>
      forall r, x :: 0 <= r < |c.rows| && 0 <= x < c.width ==>
        c.rows[r][x] == img.rows[top + r][left + x]
  {
    var rs := Slice(img.rows, top, bot);
    assert forall r :: 0 <= r < |rs| ==> rs[r] in img.rows;
    var w := SliceLen(img.width, left, right);
    Image(w, seq(|rs|, r requires 0 <= r < |rs| => Slice(rs[r], left, right)))
  }

  /** numpy's reading of a crop for any bounds, negative or past the
      edge: pixel `(r, x)` of the crop is pixel
      `(top' + r, left' + x)` of the image, where `top'` and `left'` are
      where the slice bounds land. */
  lemma CropPixels(img: Image, top: int, bot: int, left: int, right: int)
    ensures var c := Crop(img, top, bot, left, right);
      forall r, x :: 0 <= r < |c.rows| && 0 <= x < c.width ==>
        c.rows[r][x] == img.rows[SliceBound(top, |img.rows|) + r][SliceBound(left, img.width) + x]
  {
    var c := Crop(img, top, bot, left, right);
    var rs := Slice(img.rows, top, bot);
    SliceElements(img.rows, top, bot);
    forall r | 0 <= r < |c.rows|
      ensures forall x :: 0 <= x < c.width ==>
        c.rows[r][x] == img.rows[SliceBound(top, |img.rows|) + r][SliceBound(left, img.width) + x]
    {
      assert c.rows[r] == Slice(rs[r], left, right);
      SliceElements(rs[r], left, right);
    }
  }

  /** Half the height of the sampled strip: a tenth of the region height,
      but never less than 1 nor more than 6 rows. */
  function StripHalfHeight(height: int): (h: int)
    ensures 1 <= h <= 6
    ensures height < 20 ==> h == 1
    ensures 10 <= height < 70 ==> h == height / 10
    ensures height >= 60 ==> h == 6
  {
    var h := height / 10;
    if h < 1 then 1 else if h > 6 then 6 else h
  }

  /** The row `mid = y1 + |y2 - y1| / 2` that a bar's strip is centred on;
      it is also the number of rows the marker image repeats the profile
      over. */
  function Mid(y1: int, y2: int): int
  {
    y1 + Abs(y2 - y1) / 2
  }

  /** The rows `[top, bot)` of the strip for a region spanning rows
      `y1..y2`: `2h` rows centred on `mid = y1 + |y2 - y1| / 2`.
      The source takes the height from `roi.shape[0]` (ExtractText.py:84)
      before this branch assigns `roi`, so it reads whatever image the last
      bar or text region left there, possibly in an earlier frame; it is
      unbound only when the first frame reaches its first horizontal bar
      with no text region or horizontal bar before it. The height used
      here is `y2 - y1`, the height of the region itself, which is what the
      code evidently intends. */
  function StripRows(y1: int, y2: int): (bounds: (int, int))
    ensures bounds.1 - bounds.0 == 2 * StripHalfHeight(y2 - y1)
    ensures bounds.0 + bounds.1 == 2 * (y1 + Abs(y2 - y1) / 2)
    ensures bounds.0 < y1 + Abs(y2 - y1) / 2 < bounds.1
  {
    var h := StripHalfHeight(y2 - y1);
    var mid := Mid(y1, y2);
    (mid - h, mid + h)
  }

  function Abs(x: int): nat
  {
    if x < 0 then -x else x
  }

  /** A region at least two rows high contains its strip. A region one row
      high gets a strip that starts one row above it. */
  lemma StripWithinRegion(y1: int, y2: int)
    requires y2 - y1 >= 2
    ensures y1 <= StripRows(y1, y2).0 && StripRows(y1, y2).1 <= y2
  {
    var height := y2 - y1;
    var h := StripHalfHeight(height);
    if height >= 20 {
      assert h <= height / 10;
    }
  }

  /** The sum of column `x` over all rows. */
  function ColumnSum(rows: seq<seq<byte>>, x: nat): (s: nat)
    requires forall r :: 0 <= r < |rows| ==> x < |rows[r]|
    ensures s <= 255 * |rows|
    decreases |rows|
  {
    if |rows| == 0 then 0
    else ColumnSum(rows[..|rows| - 1], x) + rows[|rows| - 1][x]
  }

  /** An image with no rows or no columns. `cv2.cvtColor` refuses one
      (its `!_src.empty()` assertion), so no crop that reaches it may be
      empty. */
  predicate IsEmpty(img: Image)
  {
    |img.rows| == 0 || img.width == 0
  }

  /** `np.mean(strip, axis=0).astype(np.uint8)`: each column's mean,
      truncated to an integer. The strip has rows: an empty one is refused
      by the grey conversion before the mean is taken. */
  function Profile(img: Image): (p: seq<byte>)
    requires |img.rows| > 0
    ensures |p| == img.width
    ensures forall x :: 0 <= x < img.width ==>
      p[x] * |img.rows| <= ColumnSum(img.rows, x) < (p[x] + 1) * |img.rows|
  {
    var n := |img.rows|;
    seq(img.width, x requires 0 <= x < img.width => MeanOf(ColumnSum(img.rows, x), n))
  }

  function MeanOf(sum: nat, n: nat): (m: byte)
    requires 0 < n && sum <= 255 * n
    ensures m * n <= sum < (m + 1) * n
  {
    var q := sum / n;
    assert q * n <= sum;
    MulCancelLe(q, 255, n);
    q
  }

  /** `np.diff` on a `uint8` array: the adjacent differences wrap around
      modulo 256, so a falling step of `d` reads as `256 - d`. `np.abs` on
      the unsigned result changes nothing. */
  function Gradients(p: seq<byte>): (g: seq<byte>)
    ensures |g| == if |p| == 0 then 0 else |p| - 1
    ensures forall i :: 0 <= i < |g| ==>
      g[i] == if p[i] <= p[i + 1] then p[i + 1] - p[i] else 256 - (p[i] - p[i + 1])
  {
    if |p| == 0 then []
    else seq(|p| - 1, i requires 0 <= i < |p| - 1 => Wrap8(p[i + 1] as int - p[i] as int))
  }

  /** Reduction modulo 256, numpy's `uint8` overflow rule. */
  function Wrap8(x: int): byte
  {
    x % 256
  }

  /** `k` is the first index holding the largest value of `g`. */
  predicate IsFirstMax(g: seq<byte>, k: nat)
  {
    k < |g|
    && (forall j :: 0 <= j < |g| ==> g[j] <= g[k])
    && (forall j :: 0 <= j < k ==> g[j] < g[k])
  }

  /** There is only one first maximum. */
  lemma FirstMaxUnique(g: seq<byte>, j: nat, k: nat)
    requires IsFirstMax(g, j) && IsFirstMax(g, k)
    ensures j == k
  {
    var gj, gk := g[j], g[k];
    assert gj == gk;
  }

  /** `np.argmax`: the first index holding the largest value. */
  function ArgMax(g: seq<byte>): (k: nat)
    requires |g| > 0
    ensures k < |g|
    ensures forall j :: 0 <= j < |g| ==> g[j] <= g[k]
    ensures forall j :: 0 <= j < k ==> g[j] < g[k]
  {
    if |g| == 1 then 0
    else
      var k := ArgMax(g[..|g| - 1]);
      if g[|g| - 1] > g[k] then |g| - 1 else k
  }

  /** The index of the strongest gradient divided by the number of
      gradients, `width - 1`. */
  function EdgeFraction(p: seq<byte>): (v: real)
    requires |p| >= 2
    ensures 0.0 <= v < 1.0
  {
    var k := ArgMax(Gradients(p));
    FractionBelowOne(k, |p| - 1);
    k as real / (|p| - 1) as real
  }

  /** The reading is the first strongest gradient's index over the
      gradients' count, and no other index: the first maximum is unique. */
  lemma EdgeFractionIsFirstMax(p: seq<byte>)
    requires |p| >= 2
    ensures exists k :: IsFirstMax(Gradients(p), k) && EdgeFraction(p) == k as real / (|p| - 1) as real
    ensures forall k :: IsFirstMax(Gradients(p), k) ==> EdgeFraction(p) == k as real / (|p| - 1) as real
  {
    var g := Gradients(p);
    var a := ArgMax(g);
    assert IsFirstMax(g, a);
    forall k | IsFirstMax(g, k)
      ensures EdgeFraction(p) == k as real / (|p| - 1) as real
    {
      FirstMaxUnique(g, a, k);
    }
  }

  lemma FractionBelowOne(k: nat, n: nat)
    requires k < n
    ensures 0.0 <= k as real / n as real < 1.0
  {
  }

  /** The bar reading of a strip: the position of its first strongest
      gradient as a fraction of the gradients' count. An empty strip is
      refused by the grey conversion, and a strip one column wide has no
      gradient, so `np.argmax` of an empty array raises: both are `None`. */
  function BarValue(strip: Image): (v: Option<real>)
    ensures v.Some? <==> |strip.rows| > 0 && strip.width >= 2
    ensures v.Some? ==> 0.0 <= v.value < 1.0
  {
    if |strip.rows| == 0 || strip.width < 2 then None else Some(EdgeFraction(Profile(strip)))
  }

  /** A strip's reading is the first strongest gradient of its column
      profile, as a fraction of the gradients' count. */
  lemma BarValueIsFirstMax(strip: Image, k: nat)
    requires |strip.rows| > 0 && strip.width >= 2
    requires IsFirstMax(Gradients(Profile(strip)), k)
    ensures BarValue(strip) == Some(k as real / (strip.width - 1) as real)
  {
    EdgeFractionIsFirstMax(Profile(strip));
  }

  /** A profile holding one step, `lo` up to index `k` and `hi` after it,
      reads `k / (width - 1)`: the step is the only non-zero gradient,
      rising or falling. */
  lemma SingleStep(p: seq<byte>, k: nat, lo: byte, hi: byte)
    requires k + 1 < |p| && lo != hi
    requires forall i :: 0 <= i <= k ==> p[i] == lo
    requires forall i :: k < i < |p| ==> p[i] == hi
    ensures EdgeFraction(p) == k as real / (|p| - 1) as real
  {
    StepArgMax(p, k, lo, hi);
  }

  lemma StepArgMax(p: seq<byte>, k: nat, lo: byte, hi: byte)
    requires k + 1 < |p| && lo != hi
    requires forall i :: 0 <= i <= k ==> p[i] == lo
    requires forall i :: k < i < |p| ==> p[i] == hi
    ensures ArgMax(Gradients(p)) == k
  {
    var g := Gradients(p);
    assert p[k] == lo && p[k + 1] == hi;
    assert g[k] > 0;
    forall i | 0 <= i < |g| && i != k
      ensures g[i] == 0
    {
      assert p[i] == p[i + 1];
    }
  }

  /** A profile with no edge reads 0: all gradients are zero and the first
      index wins. */
  lemma {:induction false} ConstantProfile(p: seq<byte>)
    requires |p| >= 2
    requires forall i :: 0 <= i < |p| ==> p[i] == p[0]
    ensures EdgeFraction(p) == 0.0
  {
    FlatGradients(p);
    ZeroArgMax(Gradients(p));
  }

  /** A constant profile has only zero gradients. */
  lemma FlatGradients(p: seq<byte>)
    requires |p| >= 2
    requires forall i :: 0 <= i < |p| ==> p[i] == p[0]
    ensures forall i :: 0 <= i < |Gradients(p)| ==> Gradients(p)[i] == 0
  {
    var g := Gradients(p);
    forall i | 0 <= i < |g|
      ensures g[i] == 0
    {
      assert p[i] == p[0] && p[i + 1] == p[0];
    }
  }

  /** Among equal zeros the first index wins. */
  lemma {:induction false} ZeroArgMax(g: seq<byte>)
    requires |g| > 0
    requires forall i :: 0 <= i < |g| ==> g[i] == 0
    ensures ArgMax(g) == 0
  {
    var k := ArgMax(g);
    var first, top := g[0], g[k];
    assert first == top;
  }

  /** A strip of one uniform grey, at least two columns wide, reads 0. */
  lemma UniformStrip(strip: Image, c: byte)
    requires |strip.rows| > 0 && strip.width >= 2
    requires forall r, x :: 0 <= r < |strip.rows| && 0 <= x < strip.width ==> strip.rows[r][x] == c
    ensures BarValue(strip) == Some(0.0)
  {
    var p := Profile(strip);
    forall x | 0 <= x < strip.width
      ensures p[x] == c
    {
      UniformColumnSum(strip.rows, x, c);
      assert ColumnSum(strip.rows, x) == c * |strip.rows|;
      MeanOfExact(c, |strip.rows|, p[x]);
    }
    ConstantProfile(p);
  }

  lemma {:induction false} UniformColumnSum(rows: seq<seq<byte>>, x: nat, c: byte)
    requires forall r :: 0 <= r < |rows| ==> x < |rows[r]| && rows[r][x] == c
    ensures ColumnSum(rows, x) == c * |rows|
    decreases |rows|
  {
    if |rows| > 0 {
      UniformColumnSum(rows[..|rows| - 1], x, c);
    }
  }

  lemma MeanOfExact(c: nat, n: nat, m: nat)
    requires n > 0
    requires m * n <= c * n < (m + 1) * n
    ensures m == c
  {
    MulCancelLe(m, c, n);
    MulCancelLe(c, m, n);
  }

  lemma MulCancelLe(a: int, b: int, n: int)
    requires n > 0 && a * n <= b * n
    ensures a <= b
  {
  }

  /** The bar with two dark and three bright columns reads 1/4: the
      edge sits after the second column of four gaps. */
  lemma RisingStepExample()
    ensures EdgeFraction([10, 10, 200, 200, 200]) == 1.0 / 4.0
  {
    var p: seq<byte> := [10, 10, 200, 200, 200];
    assert forall i :: 0 <= i <= 1 ==> p[i] == 10;
    assert forall i :: 1 < i < 5 ==> p[i] == 200;
    FiveColumnStep(p);
  }

  lemma FiveColumnStep(p: seq<byte>)
    requires |p| == 5
    requires forall i :: 0 <= i <= 1 ==> p[i] == 10
    requires forall i :: 1 < i < 5 ==> p[i] == 200
    ensures EdgeFraction(p) == 1.0 / 4.0
  {
    SingleStep(p, 1, 10, 200);
    var w := |p| - 1;
    assert (1 as real) / (w as real) == 1.0 / 4.0;
  }

  /** The 8-bit wrap-around changes which edge wins. In `[200, 10, 10, 100]`
      the fall of 190 at index 0 is the largest absolute difference, but it
      reads as 66 and loses to the rise of 90 at index 2. */
  lemma FallingEdgeWraps()
    ensures Gradients([200, 10, 10, 100]) == [66, 0, 90]
    ensures EdgeFraction([200, 10, 10, 100]) == 2.0 / 3.0
  {
    var g := Gradients([200, 10, 10, 100]);
    assert g == [66, 0, 90];
    assert ArgMax(g) == 2;
  }
}
