/**
  The tail of `getProgress` in main.cpp. The grayscale crop of the progress
  bar first gets the one-pixel frame that `cv::rectangle` paints on the
  pixels the crop shares. It is then binarized (`cv::threshold` at 180 with
  maximum 255), its maximum is located the way `cv::minMaxLoc` does (scanning
  row by row and keeping the first occurrence), and the column of that pixel
  becomes a percentage of the crop's width.
*/
module ProgressEstimator {
  import Arith
  import opened Bytes

  /** A non-empty rectangular image: `|g|` rows of `|g[0]|` pixels each. */
  predicate IsImage(g: seq<seq<Byte>>) {
    |g| > 0 && |g[0]| > 0 && forall r :: 0 <= r < |g| ==> |g[r]| == |g[0]|
  }

  /** The single-channel 8-bit crop of the progress bar. */
  type Gray = g: seq<seq<Byte>> | IsImage(g) witness [[0]]

  function Cols(g: Gray): (n: nat)
    ensures n > 0
  {
    |g[0]|
  }

  /** `cv::threshold(gray, thresh, 180, 255, THRESH_BINARY)`. */
  const Threshold: Byte := 180
  const MaxValue: Byte := 255

  predicate Bright(v: Byte) {
    v > Threshold
  }

  function Binarize(g: Gray): (b: Gray)
    ensures |b| == |g| && Cols(b) == Cols(g)
    ensures forall r, c :: 0 <= r < |g| && 0 <= c < Cols(g) ==>
      b[r][c] == (if Bright(g[r][c]) then MaxValue else 0)
  {
    seq(|g|, r requires 0 <= r < |g| =>
      seq(|g[r]|, c requires 0 <= c < |g[r]| => if Bright(g[r][c]) then MaxValue else 0))
  }

  /** The pixels in row-major order. */
  function Flatten(g: seq<seq<Byte>>): (s: seq<Byte>)
  {
    if g == [] then [] else Flatten(g[..|g| - 1]) + g[|g| - 1]
  }

  /**
    The scan of `cv::minMaxLoc` for the maximum: the candidate changes only when
    a strictly greater value comes along, so ties go to the first occurrence.
  */
  function ArgMaxFirst(s: seq<Byte>): (k: nat)
    requires |s| > 0
    ensures k < |s|
  {
    if |s| == 1 then 0
    else
      var k := ArgMaxFirst(s[..|s| - 1]);
      if s[|s| - 1] > s[k] then |s| - 1 else k
  }

  /** `ArgMaxFirst` is a position of the maximum, and every value before it is strictly smaller. */
  lemma {:induction false} ArgMaxFirstIsFirstMax(s: seq<Byte>)
    requires |s| > 0
    ensures var k := ArgMaxFirst(s);
      && (forall j :: 0 <= j < |s| ==> s[j] <= s[k])
      && (forall j :: 0 <= j < k ==> s[j] < s[k])
    decreases |s|
  {
    if |s| > 1 {
      var init := s[..|s| - 1];
      ArgMaxFirstIsFirstMax(init);
      var k := ArgMaxFirst(init);
      assert forall j :: 0 <= j < |init| ==> s[j] == init[j];
    }
  }

  /** When the maximum is 0, the scan never moves from the first position. */
  lemma ArgMaxFirstOfZero(s: seq<Byte>)
    requires |s| > 0 && s[ArgMaxFirst(s)] == 0
    ensures ArgMaxFirst(s) == 0
  {
    ArgMaxFirstIsFirstMax(s);
    assert 0 <= s[0];
  }

  /** `maxLoc.x`: the column of the first maximal pixel. */
  function MaxLocX(b: Gray): (x: nat)
    ensures x < Cols(b)
  {
    ArgMaxFirst(Flatten(b)) % Cols(b)
  }

  /**
    Gray value of the frame `cv::rectangle` draws around the crop before it is
    cut out and converted: BGR (255, 0, 0) under `COLOR_BGR2GRAY` is
    round(0.114 * 255) = 29.
  */
  const BorderGray: Byte := 29

  /** The one-pixel frame of the crop: its first and last row and column. */
  predicate OnBorder(g: Gray, r: int, c: int) {
    r == 0 || r == |g| - 1 || c == 0 || c == Cols(g) - 1
  }

  /**
    `cv::rectangle(windowImg, rect, ...)` on exactly the pixels that
    `windowImg(rect)` then shares: the frame of the crop turns to `BorderGray`.
  */
  function Paint(g: Gray): (h: Gray)
    ensures |h| == |g| && Cols(h) == Cols(g)
  {
    PaintRows(g, |g|)
  }

  /** The first `n` rows of the painted crop. */
  function PaintRows(g: Gray, n: nat): (h: seq<seq<Byte>>)
    requires n <= |g|
    ensures |h| == n && forall r :: 0 <= r < n ==> |h[r]| == Cols(g)
    decreases n
  {
    if n == 0 then [] else PaintRows(g, n - 1) + [PaintRow(g[n - 1], n - 1 == 0 || n - 1 == |g| - 1)]
  }

  /** Row `r` of the painted crop is row `r` of the crop, painted. */
  lemma {:induction false} PaintRowsAt(g: Gray, n: nat, r: nat)
    requires r < n <= |g|
    ensures PaintRows(g, n)[r] == PaintRow(g[r], r == 0 || r == |g| - 1)
    decreases n
  {
    if r < n - 1 {
      PaintRowsAt(g, n - 1, r);
    }
  }

  /** One row of the painted crop: all of it on the top and bottom edge, else its two ends. */
  function PaintRow(row: seq<Byte>, edge: bool): (out: seq<Byte>)
    ensures |out| == |row|
  {
    if edge || |row| <= 2 then seq(|row|, _ => BorderGray)
    else [BorderGray] + row[1..|row| - 1] + [BorderGray]
  }

  /** The frame of the crop reads `BorderGray`; every other pixel is the crop's own. */
  lemma PaintAt(g: Gray, r: int, c: int)
    requires 0 <= r < |g| && 0 <= c < Cols(g)
    ensures Paint(g)[r][c] == (if OnBorder(g, r, c) then BorderGray else g[r][c])
  {
    PaintRowsAt(g, |g|, r);
    assert |g[r]| == Cols(g);
  }

  /** `100 * maxLoc.x / progressImg.cols` on the framed, binarized crop. */
  function Progress(g: Gray): (p: int)
    ensures 0 <= p <= 99
  {
    var x := MaxLocX(Binarize(Paint(g)));
    PercentBelowHundred(x, Cols(g));
    100 * x / Cols(g)
  }

  // ----- lemmas -----

  /** The percentage of a crop whose `maxLoc.x` is `x`. */
  lemma ProgressAtColumn(g: Gray, x: nat)
    requires MaxLocX(Binarize(Paint(g))) == x
    ensures Progress(g) == 100 * x / Cols(g)
  {
  }

  lemma PercentBelowHundred(x: nat, n: nat)
    requires x < n
    ensures 0 <= 100 * x / n <= 99
  {
    Arith.DivLessThan(100 * x, n, 100);
  }

  ghost predicate Rows(g: seq<seq<Byte>>, cols: nat) {
    forall r :: 0 <= r < |g| ==> |g[r]| == cols
  }

  lemma {:induction false} FlattenShape(g: seq<seq<Byte>>, cols: nat)
    requires Rows(g, cols)
    ensures |Flatten(g)| == |g| * cols
    decreases |g|
  {
    if g != [] {
      FlattenShape(g[..|g| - 1], cols);
    }
  }

  /** Pixel `k` of the row-major order is pixel `(k / cols, k % cols)` of the image. */
  lemma {:induction false} FlattenAt(g: seq<seq<Byte>>, cols: nat, k: int)
    requires Rows(g, cols) && cols > 0 && 0 <= k < |g| * cols
    ensures |Flatten(g)| == |g| * cols
    ensures 0 <= k / cols < |g| && 0 <= k % cols < cols
    ensures Flatten(g)[k] == g[k / cols][k % cols]
    decreases |g|
  {
    var n := |g|;
    var init := g[..n - 1];
    FlattenShape(g, cols);
    FlattenShape(init, cols);
    assert n * cols == (n - 1) * cols + cols;
    if k < (n - 1) * cols {
      FlattenAt(init, cols, k);
    } else {
      Arith.DivUnique(k, cols, n - 1, k - (n - 1) * cols);
    }
  }

  /** Row `r`, column `c` sits at position `r * cols + c` of the row-major order. */
  lemma PositionIndex(r: nat, c: nat, rows: nat, cols: nat)
    requires r < rows && c < cols
    ensures r * cols + c < rows * cols
    ensures (r * cols + c) / cols == r && (r * cols + c) % cols == c
  {
    Arith.DivUnique(r * cols + c, cols, r, c);
    assert r * cols + c < (r + 1) * cols <= rows * cols by { Arith.MulMonotone(cols, r + 1, rows); }
  }

  /** Positions earlier in the row-major order lie in an earlier row, or earlier in the same row. */
  lemma IndexBefore(j: int, r: nat, c: nat, cols: nat)
    requires c < cols && 0 <= j < r * cols + c
    ensures j / cols < r || (j / cols == r && j % cols < c)
  {
    assert r * cols + c < cols * (r + 1);
    Arith.DivLessThan(j, cols, r + 1);
    Arith.DivUnique(j, cols, j / cols, j % cols);
  }

  /** On any image, `maxLoc.x` of the binarized image is the column of its first bright pixel in row-major order. */
  lemma MaxLocFirstBright(h: Gray, r: nat, c: nat)
    requires r < |h| && c < Cols(h) && Bright(h[r][c])
    requires forall r', c' :: 0 <= r' < |h| && 0 <= c' < Cols(h) && (r' < r || (r' == r && c' < c)) ==> !Bright(h[r'][c'])
    ensures MaxLocX(Binarize(h)) == c
  {
    var cols := Cols(h);
    var b := Binarize(h);
    var s := Flatten(b);
    var m := r * cols + c;
    PositionIndex(r, c, |h|, cols);
    FlattenAt(b, cols, m);
    assert s[m] == MaxValue;
    var k := ArgMaxFirst(s);
    ArgMaxFirstIsFirstMax(s);
    assert s[k] == MaxValue;
    assert k <= m;
    FlattenAt(b, cols, k);
    if k < m {
      IndexBefore(k, r, c, cols);
    }
    assert k == m;
  }

  /** On an image with no pixel above the threshold, `minMaxLoc` stays at the first pixel: `maxLoc.x` is 0. */
  lemma MaxLocDark(h: Gray)
    requires forall r, c :: 0 <= r < |h| && 0 <= c < Cols(h) ==> !Bright(h[r][c])
    ensures MaxLocX(Binarize(h)) == 0
  {
    var cols := Cols(h);
    var b := Binarize(h);
    var s := Flatten(b);
    FlattenShape(b, cols);
    var k := ArgMaxFirst(s);
    ArgMaxFirstIsFirstMax(s);
    FlattenAt(b, cols, 0);
    FlattenAt(b, cols, k);
    assert s[0] == 0 && s[k] == 0;
    assert k == 0;
  }

  /** A pixel inside the painted frame. */
  predicate Interior(g: Gray, r: int, c: int) {
    0 < r < |g| - 1 && 0 < c < Cols(g) - 1
  }

  /**
    The percentage reads the column of the first bright pixel inside the frame,
    in row-major order (the topmost bright row, and its leftmost bright pixel).
  */
  lemma FirstBrightPixel(g: Gray, r: nat, c: nat)
    requires Interior(g, r, c) && Bright(g[r][c])
    requires forall r', c' :: Interior(g, r', c') && (r' < r || (r' == r && c' < c)) ==> !Bright(g[r'][c'])
    ensures Progress(g) == 100 * c / Cols(g)
  {
    var h := Paint(g);
    forall r', c' | 0 <= r' < |h| && 0 <= c' < Cols(h) && (r' < r || (r' == r && c' < c))
      ensures !Bright(h[r'][c'])
    {
      PaintAt(g, r', c');
      if !OnBorder(g, r', c') {
        assert Interior(g, r', c');
      }
    }
    PaintAt(g, r, c);
    MaxLocFirstBright(h, r, c);
    ProgressAtColumn(g, c);
  }

  /** With every pixel inside the frame dark, the painted crop is dark throughout and `maxLoc.x` is 0. */
  lemma PaintedDark(g: Gray)
    requires forall r, c :: Interior(g, r, c) ==> !Bright(g[r][c])
    ensures MaxLocX(Binarize(Paint(g))) == 0
  {
    var h := Paint(g);
    forall r, c | 0 <= r < |h| && 0 <= c < Cols(h)
      ensures !Bright(h[r][c])
    {
      PaintAt(g, r, c);
      if !OnBorder(g, r, c) {
        assert Interior(g, r, c);
      }
    }
    MaxLocDark(h);
  }

  /** A crop with no pixel above the threshold inside the frame reads as 0 percent. */
  lemma AllDark(g: Gray)
    requires forall r, c :: Interior(g, r, c) ==> !Bright(g[r][c])
    ensures Progress(g) == 0
  {
    PaintedDark(g);
    ProgressAtColumn(g, 0);
    Arith.DivUnique(100 * 0, Cols(g), 0, 0);
  }

  /** A single bright column at `x` inside the frame, on a dark background, reads as `100 * x / cols` percent. */
  lemma BrightColumn(g: Gray, x: nat)
    requires |g| >= 3 && 0 < x < Cols(g) - 1
    requires forall r, c :: Interior(g, r, c) ==> (Bright(g[r][c]) <==> c == x)
    ensures Progress(g) == 100 * x / Cols(g)
  {
    FirstBrightPixel(g, 1, x);
  }

  /** The frame hides the crop's border: crops that agree inside the frame read the same percentage. */
  lemma BorderNeverDecides(g: Gray, g': Gray)
    requires |g'| == |g| && Cols(g') == Cols(g)
    requires forall r, c :: Interior(g, r, c) ==> g'[r][c] == g[r][c]
    ensures Progress(g') == Progress(g)
  {
    var h, h' := Paint(g), Paint(g');
    forall r | 0 <= r < |h|
      ensures h'[r] == h[r]
    {
      forall c | 0 <= c < Cols(g)
        ensures h'[r][c] == h[r][c]
      {
        PaintAt(g, r, c);
        PaintAt(g', r, c);
        if !OnBorder(g, r, c) {
          assert Interior(g, r, c);
        }
      }
    }
    assert h' == h;
  }

  /** `maxLoc` lands on a bright pixel, or, when no pixel is bright, on the very first pixel. */
  lemma MaxLocPixel(h: Gray) returns (r: nat, c: nat)
    ensures r < |h| && c < Cols(h) && MaxLocX(Binarize(h)) == c
    ensures Bright(h[r][c]) || (r == 0 && c == 0 &&
      forall r', c' :: 0 <= r' < |h| && 0 <= c' < Cols(h) ==> !Bright(h[r'][c']))
  {
    var cols := Cols(h);
    var b := Binarize(h);
    var s := Flatten(b);
    FlattenShape(b, cols);
    var k := ArgMaxFirst(s);
    ArgMaxFirstIsFirstMax(s);
    FlattenAt(b, cols, k);
    r, c := k / cols, k % cols;
    if !Bright(h[r][c]) {
      ArgMaxFirstOfZero(s);
      assert r == 0 && c == 0 by { Arith.DivUnique(0, cols, 0, 0); }
      forall r', c' | 0 <= r' < |h| && 0 <= c' < cols
        ensures !Bright(h[r'][c'])
      {
        PositionIndex(r', c', |h|, cols);
        FlattenAt(b, cols, r' * cols + c');
      }
    }
  }

  /** The last column is painted, so `maxLoc.x` is either 0 (nothing bright) or an inner column. */
  lemma MaxLocNotLast(g: Gray)
    ensures var x := MaxLocX(Binarize(Paint(g)));
      x == 0 || x < Cols(g) - 1
  {
    var h := Paint(g);
    var r, c := MaxLocPixel(h);
    if c != 0 {
      PaintAt(g, r, c);
    }
  }

  /**
    An argument of 99 can only be reached on a crop at least 200 pixels wide:
    the painted last column never counts, and `100 * (cols - 2) / cols` is
    below 99 for narrower crops.
  */
  lemma NinetyNineNeedsWidth(g: Gray)
    requires Progress(g) >= 99
    ensures Cols(g) >= 200
  {
    var cols := Cols(g);
    var x := MaxLocX(Binarize(Paint(g)));
    MaxLocNotLast(g);
    var v := 100 * x;
    assert v == cols * (v / cols) + v % cols;
    assert v / cols == 99;
    assert 99 * cols <= v <= 100 * (cols - 2);
  }
}
