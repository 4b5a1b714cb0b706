/**
  The background branch of `process` in run_ic_light_bg.py: the `BGSource` enumeration and
  the images it selects. Images are height x width x 3 arrays of unsigned 8-bit samples,
  held as rows of columns of channel triples. Gradients are computed over exact reals
  (numpy computes them in float64).
*/
module Background {
  import opened Common

  newtype uint8 = x: int | 0 <= x < 256

  /** Rows, each a sequence of pixels, each pixel a sequence of channel samples. */
  type Image = seq<seq<seq<uint8>>>

  datatype Preset =
    | Upload | UploadFlip | Left | Right | Top | Bottom | Grey
    | CustomLeft | CustomLeftHigh | CustomRight | CustomRightHigh | CustomGray

  datatype BgError =
    | InvalidPreset(name: string)   // `BGSource(name)` raises ValueError
    | FlipOfMissingImage            // `np.fliplr(None)` raises ValueError

  /** The string value of each enumeration member. */
  function Value(p: Preset): string
  {
    match p
    case Upload => "Use Background Image"
    case UploadFlip => "Use Flipped Background Image"
    case Left => "Left Light"
    case Right => "Right Light"
    case Top => "Top Light"
    case Bottom => "Bottom Light"
    case Grey => "Ambient"
    case CustomLeft => "CUSTOM_LEFT"
    case CustomLeftHigh => "CUSTOM_LEFT_HIGH"
    case CustomRight => "CUSTOM_RIGHT"
    case CustomRightHigh => "CUSTOM_RIGHT_HIGH"
    case CustomGray => "CUSTOM_GRAY"
  }

  /** `BGSource(s)`: lookup by value; any other string is rejected. */
  function Parse(s: string): (r: Option<Preset>)
    ensures r.Some? ==> Value(r.value) == s
  {
    if s == "Use Background Image" then Some(Upload)
    else if s == "Use Flipped Background Image" then Some(UploadFlip)
    else if s == "Left Light" then Some(Left)
    else if s == "Right Light" then Some(Right)
    else if s == "Top Light" then Some(Top)
    else if s == "Bottom Light" then Some(Bottom)
    else if s == "Ambient" then Some(Grey)
    else if s == "CUSTOM_LEFT" then Some(CustomLeft)
    else if s == "CUSTOM_LEFT_HIGH" then Some(CustomLeftHigh)
    else if s == "CUSTOM_RIGHT" then Some(CustomRight)
    else if s == "CUSTOM_RIGHT_HIGH" then Some(CustomRightHigh)
    else if s == "CUSTOM_GRAY" then Some(CustomGray)
    else None
  }

  /** `img` has `h` rows of `w` pixels of 3 channels. */
  predicate HasShape(img: Image, h: nat, w: nat)
  {
    |img| == h && forall r :: 0 <= r < h ==> |img[r]| == w && forall c :: 0 <= c < w ==> |img[r][c]| == 3
  }

  /** Every pixel carries the same value in its three channels. */
  predicate GreyPixels(img: Image)
  {
    forall r, c :: 0 <= r < |img| && 0 <= c < |img[r]| ==>
      |img[r][c]| == 3 && img[r][c][0] == img[r][c][1] == img[r][c][2]
  }

  /** Sample at (r, c) of an image whose three channels agree. */
  function At(img: Image, r: nat, c: nat): uint8
    requires r < |img| && c < |img[r]| && |img[r][c]| > 0
  {
    img[r][c][0]
  }

  /** Sample `i` of an `n`-point linspace from `a` to `b`, for `n >= 2`. */
  function LinspaceAt(a: real, b: real, n: nat, i: nat): real
    requires n >= 2
  {
    a + (i as real) * (b - a) / ((n - 1) as real)
  }

  /** `np.linspace(a, b, n)`: `n` evenly spaced samples from `a` to `b` inclusive. */
  function Linspace(a: real, b: real, n: nat): (g: seq<real>)
    ensures |g| == n
    ensures n >= 1 ==> g[0] == a
    ensures n >= 2 ==> g[n - 1] == b
  {
    if n == 0 then []
    else if n == 1 then [a]
    else
      LinspaceLast(a, b, n);
      seq(n, i requires 0 <= i < n => LinspaceAt(a, b, n, i))
  }

  /** The last sample of an `n`-point linspace is exactly `b`. */
  lemma LinspaceLast(a: real, b: real, n: nat)
    requires n >= 2
    ensures LinspaceAt(a, b, n, n - 1) == b
  {
    var d := (n - 1) as real;
    Cancel(d, b - a);
  }

  lemma Cancel(d: real, x: real)
    requires d > 0.0
    ensures d * x / d == x
  {
  }

  /** A product of two non-negative reals is non-negative. */
  lemma MulNonNegative(x: real, y: real)
    requires x >= 0.0 && y >= 0.0
    ensures x * y >= 0.0
  {
  }

  /** The fraction `i / (n - 1)` lies in [0, 1] and grows with `i`. */
  lemma Fraction(i: nat, j: nat, n: nat)
    requires i <= j < n && n >= 2
    ensures 0.0 <= (i as real) / ((n - 1) as real) <= (j as real) / ((n - 1) as real) <= 1.0
  {
  }

  /** Sample `i` is the fraction `i / (n - 1)` of the way from `a` to `b`. */
  lemma SampleAsFraction(a: real, b: real, n: nat, i: nat)
    requires n >= 2
    ensures LinspaceAt(a, b, n, i) == a + ((i as real) / ((n - 1) as real)) * (b - a)
  {
  }

  /** Interpolating at fractions `s <= t` of `[0, 1]` moves monotonically from `a` to `b`. */
  lemma Interpolate(a: real, b: real, s: real, t: real, x: real, y: real)
    requires 0.0 <= s <= t <= 1.0
    requires x == a + s * (b - a) && y == a + t * (b - a)
    ensures a >= b ==> a >= x >= y >= b
    ensures a <= b ==> a <= x <= y <= b
  {
    var lo, hi := if a <= b then a else b, if a <= b then b else a;
    MulNonNegative(s, hi - lo);
    MulNonNegative(t - s, hi - lo);
    MulNonNegative(1.0 - t, hi - lo);
  }

  /** Linspace runs monotonically from `a` to `b` and never leaves the interval between them. */
  lemma LinspaceMonotone(a: real, b: real, n: nat, i: nat, j: nat)
    requires i <= j < n
    ensures var g := Linspace(a, b, n);
            && (a >= b ==> a >= g[i] >= g[j] >= b)
            && (a <= b ==> a <= g[i] <= g[j] <= b)
  {
    var g := Linspace(a, b, n);
    if n >= 2 {
      var ti, tj := (i as real) / ((n - 1) as real), (j as real) / ((n - 1) as real);
      Fraction(i, j, n);
      assert g[i] == LinspaceAt(a, b, n, i) == a + ti * (b - a) by {
        SampleAsFraction(a, b, n, i);
      }
      assert g[j] == LinspaceAt(a, b, n, j) == a + tj * (b - a) by {
        SampleAsFraction(a, b, n, j);
      }
      Interpolate(a, b, ti, tj, g[i], g[j]);
    } else {
      assert g == [a];
    }
  }

  /** Every sample of a gradient between two byte values is itself within byte range. */
  lemma LinspaceBytes(a: real, b: real, n: nat)
    requires 0.0 <= a < 256.0 && 0.0 <= b < 256.0
    ensures forall i :: 0 <= i < n ==> 0.0 <= Linspace(a, b, n)[i] < 256.0
  {
    forall i | 0 <= i < n ensures 0.0 <= Linspace(a, b, n)[i] < 256.0 {
      LinspaceMonotone(a, b, n, i, i);
    }
  }

  /** `astype(np.uint8)` of a value already within byte range: truncation toward zero. */
  function ToByte(x: real): (v: uint8)
    requires 0.0 <= x < 256.0
    ensures v as real <= x < v as real + 1.0
  {
    x.Floor as uint8
  }

  lemma ToByteMonotone(x: real, y: real)
    requires 0.0 <= x <= y < 256.0
    ensures ToByte(x) <= ToByte(y)
  {
  }

  function Grey3(v: uint8): seq<uint8>
  {
    [v, v, v]
  }

  /** `np.zeros((h, w, 3), dtype=np.uint8) + v`. */
  function Uniform(h: nat, w: nat, v: uint8): (img: Image)
    ensures HasShape(img, h, w)
    ensures forall r, c, ch :: 0 <= r < h && 0 <= c < w && 0 <= ch < 3 ==> img[r][c][ch] == v
  {
    seq(h, _ => seq(w, _ => Grey3(v)))
  }

  /** `np.fliplr`: each row read right to left. */
  function FlipColumns(img: Image): (f: Image)
    ensures |f| == |img|
    ensures forall r :: 0 <= r < |img| ==> |f[r]| == |img[r]|
    ensures forall r, c :: 0 <= r < |img| && 0 <= c < |img[r]| ==> f[r][c] == img[r][|img[r]| - 1 - c]
  {
    seq(|img|, r requires 0 <= r < |img| =>
      seq(|img[r]|, c requires 0 <= c < |img[r]| => img[r][|img[r]| - 1 - c]))
  }

  /** Flipping twice restores the image. */
  lemma FlipTwice(img: Image)
    ensures FlipColumns(FlipColumns(img)) == img
  {
    var f := FlipColumns(img);
    var ff := FlipColumns(f);
    forall r | 0 <= r < |img| ensures ff[r] == img[r] {
      assert |ff[r]| == |img[r]|;
      forall c | 0 <= c < |img[r]| ensures ff[r][c] == img[r][c] {
        assert ff[r][c] == f[r][|img[r]| - 1 - c];
      }
    }
  }

  /**
    A left-to-right gradient tiled down every row and stacked into three channels:
    `np.stack((np.tile(np.linspace(a, b, w), (h, 1)),) * 3, axis=-1).astype(np.uint8)`.
  */
  function Horizontal(a: real, b: real, h: nat, w: nat): (img: Image)
    requires 0.0 <= a < 256.0 && 0.0 <= b < 256.0
    ensures HasShape(img, h, w) && GreyPixels(img)
  {
    var g := Linspace(a, b, w);
    LinspaceBytes(a, b, w);
    seq(h, _ => seq(w, c requires 0 <= c < w => Grey3(ToByte(g[c]))))
  }

  /** A top-to-bottom gradient tiled across every column, as `linspace(a, b, h)[:, None]`. */
  function Vertical(a: real, b: real, h: nat, w: nat): (img: Image)
    requires 0.0 <= a < 256.0 && 0.0 <= b < 256.0
    ensures HasShape(img, h, w) && GreyPixels(img)
  {
    var g := Linspace(a, b, h);
    LinspaceBytes(a, b, h);
    seq(h, r requires 0 <= r < h => seq(w, _ => Grey3(ToByte(g[r]))))
  }

  /** `(x + y) / 2` truncated to 8 bits, for two byte-range samples. */
  function MeanByte(x: real, y: real): (v: uint8)
    requires 0.0 <= x < 256.0 && 0.0 <= y < 256.0
    ensures v as int == ((x + y) / 2.0).Floor
  {
    ToByte((x + y) / 2.0)
  }

  /**
    `(image_1 + image_2) / 2` of a horizontal gradient `ha -> hb` and a vertical gradient
    `va -> vb`, stacked into three channels and truncated to 8 bits.
  */
  function Blend(ha: real, hb: real, va: real, vb: real, h: nat, w: nat): (img: Image)
    requires 0.0 <= ha < 256.0 && 0.0 <= hb < 256.0
    requires 0.0 <= va < 256.0 && 0.0 <= vb < 256.0
    ensures HasShape(img, h, w) && GreyPixels(img)
  {
    var gh := Linspace(ha, hb, w);
    var gv := Linspace(va, vb, h);
    LinspaceBytes(ha, hb, w);
    LinspaceBytes(va, vb, h);
    seq(h, r requires 0 <= r < h => BlendRow(gh, gv[r]))
  }

  /** One row of a blended image: each horizontal sample averaged with the row's vertical one. */
  function BlendRow(gh: seq<real>, y: real): (row: seq<seq<uint8>>)
    requires forall c :: 0 <= c < |gh| ==> 0.0 <= gh[c] < 256.0
    requires 0.0 <= y < 256.0
    ensures |row| == |gh|
    ensures forall c :: 0 <= c < |gh| ==> row[c] == Grey3(MeanByte(gh[c], y))
  {
    seq(|gh|, c requires 0 <= c < |gh| => Grey3(MeanByte(gh[c], y)))
  }

  /**
    The branch chain of `process` (lines 252-305) on an already parsed preset. `upload` is
    the caller's `input_bg`, which may be `None`; the result is the new `input_bg`.
  */
  function Synthesize(p: Preset, upload: Option<Image>, w: nat, h: nat): (r: Result<Option<Image>, BgError>)
    ensures p == Upload ==> r == Success(upload)
    ensures p == UploadFlip ==>
              r == (if upload.None? then Failure(FlipOfMissingImage) else Success(Some(FlipColumns(upload.value))))
    ensures p != Upload && p != UploadFlip ==>
              r.Success? && r.value.Some? && HasShape(r.value.value, h, w) && GreyPixels(r.value.value)
  {
    match p
    case Upload => Success(upload)
    case UploadFlip =>
      if upload.None? then Failure(FlipOfMissingImage) else Success(Some(FlipColumns(upload.value)))
    case Grey => Success(Some(Uniform(h, w, 64)))
    case Left => Success(Some(Horizontal(224.0, 32.0, h, w)))
    case Right => Success(Some(Horizontal(32.0, 224.0, h, w)))
    case Top => Success(Some(Vertical(224.0, 32.0, h, w)))
    case Bottom => Success(Some(Vertical(32.0, 224.0, h, w)))
    case CustomLeft => Success(Some(Blend(192.0, 64.0, 192.0, 64.0, h, w)))
    case CustomLeftHigh => Success(Some(Blend(224.0, 32.0, 224.0, 32.0, h, w)))
    case CustomRight => Success(Some(Blend(64.0, 192.0, 192.0, 64.0, h, w)))
    case CustomRightHigh => Success(Some(Blend(32.0, 224.0, 224.0, 32.0, h, w)))
    case CustomGray => Success(Some(Uniform(h, w, 100)))
  }

  /** `process` up to the background: parse the preset name, then synthesise. */
  function InputBackground(name: string, upload: Option<Image>, w: nat, h: nat): (r: Result<Option<Image>, BgError>)
    ensures r == Failure(InvalidPreset(name)) <==> Parse(name).None?
  {
    match Parse(name)
    case None => Failure(InvalidPreset(name))
    case Some(p) => Synthesize(p, upload, w, h)
  }

  /** Every member's value parses back to that member, so a string parses to `p` exactly when it is `p`'s value. */
  lemma ParseValue(p: Preset)
    ensures Parse(Value(p)) == Some(p)
  {
  }

  /** The twelve member values are pairwise distinct, so lookup by value is unambiguous. */
  lemma ValueInjective(p: Preset, q: Preset)
    ensures Value(p) == Value(q) <==> p == q
  {
    ParseValue(p);
    ParseValue(q);
  }

  /** A preset selected by its value is synthesised as that preset. */
  lemma InputBackgroundByValue(p: Preset, upload: Option<Image>, w: nat, h: nat)
    ensures InputBackground(Value(p), upload, w, h) == Synthesize(p, upload, w, h)
  {
    ParseValue(p);
  }

  /**
    A horizontal gradient image: every row is the same, samples run monotonically from
    `a` at the left edge to `b` at the right edge and stay between them.
  */
  lemma HorizontalProfile(a: real, b: real, h: nat, w: nat)
    requires 0.0 <= a < 256.0 && 0.0 <= b < 256.0
    ensures var img := Horizontal(a, b, h, w);
            && (forall r1, r2 :: 0 <= r1 < h && 0 <= r2 < h ==> img[r1] == img[r2])
            && (forall r :: 0 <= r < h && w >= 1 ==> At(img, r, 0) == ToByte(a))
            && (w >= 2 ==> var right := w - 1; forall r :: 0 <= r < h ==> At(img, r, right) == ToByte(b))
            && (forall r, c1, c2 :: 0 <= r < h && 0 <= c1 <= c2 < w ==>
                  (a >= b ==> ToByte(a) >= At(img, r, c1) >= At(img, r, c2) >= ToByte(b))
                  && (a <= b ==> ToByte(a) <= At(img, r, c1) <= At(img, r, c2) <= ToByte(b)))
  {
    var img := Horizontal(a, b, h, w);
    var g := Linspace(a, b, w);
    forall r, c1, c2 | 0 <= r < h && 0 <= c1 <= c2 < w
      ensures (a >= b ==> ToByte(a) >= At(img, r, c1) >= At(img, r, c2) >= ToByte(b))
      ensures (a <= b ==> ToByte(a) <= At(img, r, c1) <= At(img, r, c2) <= ToByte(b))
    {
      LinspaceMonotone(a, b, w, c1, c2);
      if a >= b {
        ToByteMonotone(g[c1], a);
        ToByteMonotone(g[c2], g[c1]);
        ToByteMonotone(b, g[c2]);
      } else {
        ToByteMonotone(a, g[c1]);
        ToByteMonotone(g[c1], g[c2]);
        ToByteMonotone(g[c2], b);
      }
    }
  }

  /**
    A vertical gradient image: every column is the same, samples run monotonically from
    `a` on the top row to `b` on the bottom row and stay between them.
  */
  lemma VerticalProfile(a: real, b: real, h: nat, w: nat)
    requires 0.0 <= a < 256.0 && 0.0 <= b < 256.0
    ensures var img := Vertical(a, b, h, w);
            && (forall r, c1, c2 :: 0 <= r < h && 0 <= c1 < w && 0 <= c2 < w ==> img[r][c1] == img[r][c2])
            && (forall c :: 0 <= c < w && h >= 1 ==> At(img, 0, c) == ToByte(a))
            && (h >= 2 ==> var bottom := h - 1; forall c :: 0 <= c < w ==> At(img, bottom, c) == ToByte(b))
            && (forall r1, r2, c :: 0 <= r1 <= r2 < h && 0 <= c < w ==>
                  (a >= b ==> ToByte(a) >= At(img, r1, c) >= At(img, r2, c) >= ToByte(b))
                  && (a <= b ==> ToByte(a) <= At(img, r1, c) <= At(img, r2, c) <= ToByte(b)))
  {
    var img := Vertical(a, b, h, w);
    var g := Linspace(a, b, h);
    forall r1, r2, c | 0 <= r1 <= r2 < h && 0 <= c < w
      ensures (a >= b ==> ToByte(a) >= At(img, r1, c) >= At(img, r2, c) >= ToByte(b))
      ensures (a <= b ==> ToByte(a) <= At(img, r1, c) <= At(img, r2, c) <= ToByte(b))
    {
      LinspaceMonotone(a, b, h, r1, r2);
      if a >= b {
        ToByteMonotone(g[r1], a);
        ToByteMonotone(g[r2], g[r1]);
        ToByteMonotone(b, g[r2]);
      } else {
        ToByteMonotone(a, g[r1]);
        ToByteMonotone(g[r1], g[r2]);
        ToByteMonotone(g[r2], b);
      }
    }
  }

  /** Sample (r, c) of a blended image is the truncated mean of the two gradients there. */
  lemma BlendAt(ha: real, hb: real, va: real, vb: real, h: nat, w: nat, r: nat, c: nat)
    requires 0.0 <= ha < 256.0 && 0.0 <= hb < 256.0
    requires 0.0 <= va < 256.0 && 0.0 <= vb < 256.0
    requires r < h && c < w
    ensures At(Blend(ha, hb, va, vb, h, w), r, c) as int
            == ((Linspace(ha, hb, w)[c] + Linspace(va, vb, h)[r]) / 2.0).Floor
  {
  }

  /** Every blended sample lies between the mean of the low endpoints and that of the high ones. */
  lemma BlendBounds(ha: real, hb: real, va: real, vb: real, h: nat, w: nat)
    requires 0.0 <= ha < 256.0 && 0.0 <= hb < 256.0
    requires 0.0 <= va < 256.0 && 0.0 <= vb < 256.0
    ensures var img := Blend(ha, hb, va, vb, h, w);
            var lo := (if ha <= hb then ha else hb) + (if va <= vb then va else vb);
            var hi := (if ha <= hb then hb else ha) + (if va <= vb then vb else va);
            forall r, c :: 0 <= r < h && 0 <= c < w ==>
              ToByte(lo / 2.0) <= At(img, r, c) <= ToByte(hi / 2.0)
  {
    var img := Blend(ha, hb, va, vb, h, w);
    var gh, gv := Linspace(ha, hb, w), Linspace(va, vb, h);
    var lo := (if ha <= hb then ha else hb) + (if va <= vb then va else vb);
    var hi := (if ha <= hb then hb else ha) + (if va <= vb then vb else va);
    forall r, c | 0 <= r < h && 0 <= c < w
      ensures ToByte(lo / 2.0) <= At(img, r, c) <= ToByte(hi / 2.0)
    {
      LinspaceMonotone(ha, hb, w, c, c);
      LinspaceMonotone(va, vb, h, r, r);
      BlendAt(ha, hb, va, vb, h, w, r, c);
      ToByteMonotone(lo / 2.0, (gh[c] + gv[r]) / 2.0);
      ToByteMonotone((gh[c] + gv[r]) / 2.0, hi / 2.0);
    }
  }

  /** Along a row, a blended image moves in the direction of its horizontal gradient. */
  lemma BlendAlongRows(ha: real, hb: real, va: real, vb: real, h: nat, w: nat)
    requires 0.0 <= ha < 256.0 && 0.0 <= hb < 256.0
    requires 0.0 <= va < 256.0 && 0.0 <= vb < 256.0
    ensures var img := Blend(ha, hb, va, vb, h, w);
            forall r, c1, c2 :: 0 <= r < h && 0 <= c1 <= c2 < w ==>
              (ha >= hb ==> At(img, r, c1) >= At(img, r, c2))
              && (ha <= hb ==> At(img, r, c1) <= At(img, r, c2))
  {
    var img := Blend(ha, hb, va, vb, h, w);
    var gh, gv := Linspace(ha, hb, w), Linspace(va, vb, h);
    forall r, c1, c2 | 0 <= r < h && 0 <= c1 <= c2 < w
      ensures ha >= hb ==> At(img, r, c1) >= At(img, r, c2)
      ensures ha <= hb ==> At(img, r, c1) <= At(img, r, c2)
    {
      LinspaceMonotone(ha, hb, w, c1, c2);
      LinspaceMonotone(va, vb, h, r, r);
      BlendAt(ha, hb, va, vb, h, w, r, c1);
      BlendAt(ha, hb, va, vb, h, w, r, c2);
    }
  }

  /** Down a column, a blended image moves in the direction of its vertical gradient. */
  lemma BlendAlongColumns(ha: real, hb: real, va: real, vb: real, h: nat, w: nat)
    requires 0.0 <= ha < 256.0 && 0.0 <= hb < 256.0
    requires 0.0 <= va < 256.0 && 0.0 <= vb < 256.0
    ensures var img := Blend(ha, hb, va, vb, h, w);
            forall r1, r2, c :: 0 <= r1 <= r2 < h && 0 <= c < w ==>
              (va >= vb ==> At(img, r1, c) >= At(img, r2, c))
              && (va <= vb ==> At(img, r1, c) <= At(img, r2, c))
  {
    var img := Blend(ha, hb, va, vb, h, w);
    var gh, gv := Linspace(ha, hb, w), Linspace(va, vb, h);
    forall r1, r2, c | 0 <= r1 <= r2 < h && 0 <= c < w
      ensures va >= vb ==> At(img, r1, c) >= At(img, r2, c)
      ensures va <= vb ==> At(img, r1, c) <= At(img, r2, c)
    {
      LinspaceMonotone(va, vb, h, r1, r2);
      LinspaceMonotone(ha, hb, w, c, c);
      BlendAt(ha, hb, va, vb, h, w, r1, c);
      BlendAt(ha, hb, va, vb, h, w, r2, c);
    }
  }

  /** The corners of a blended image are the means of the matching gradient endpoints. */
  lemma BlendCorners(ha: real, hb: real, va: real, vb: real, h: nat, w: nat)
    requires 0.0 <= ha < 256.0 && 0.0 <= hb < 256.0
    requires 0.0 <= va < 256.0 && 0.0 <= vb < 256.0
    ensures var img := Blend(ha, hb, va, vb, h, w);
            && (h >= 1 && w >= 1 ==> At(img, 0, 0) as int == ((ha + va) / 2.0).Floor)
            && (h >= 1 && w >= 2 ==> At(img, 0, w - 1) as int == ((hb + va) / 2.0).Floor)
            && (h >= 2 && w >= 1 ==> At(img, h - 1, 0) as int == ((ha + vb) / 2.0).Floor)
            && (h >= 2 && w >= 2 ==> At(img, h - 1, w - 1) as int == ((hb + vb) / 2.0).Floor)
  {
    if h >= 1 && w >= 1 {
      BlendAt(ha, hb, va, vb, h, w, 0, 0);
      BlendAt(ha, hb, va, vb, h, w, 0, w - 1);
      BlendAt(ha, hb, va, vb, h, w, h - 1, 0);
      BlendAt(ha, hb, va, vb, h, w, h - 1, w - 1);
    }
  }

  /** UPLOAD passes the caller's background through; UPLOAD_FLIP mirrors it, and needs one. */
  lemma UploadPresets(upload: Option<Image>, w: nat, h: nat)
    ensures Synthesize(Upload, upload, w, h) == Success(upload)
    ensures Synthesize(UploadFlip, upload, w, h).Success? <==> upload.Some?
    ensures upload.Some? ==>
              var f := Synthesize(UploadFlip, upload, w, h).value.value;
              Synthesize(UploadFlip, Some(f), w, h) == Success(upload)
  {
    if upload.Some? {
      FlipTwice(upload.value);
    }
  }

  /** GREY and CUSTOM_GRAY are uniform images of value 64 and 100. */
  lemma UniformPresets(upload: Option<Image>, w: nat, h: nat)
    ensures var r := Synthesize(Grey, upload, w, h);
            r.Success? && r.value.Some? && HasShape(r.value.value, h, w)
            && forall i, j, ch :: 0 <= i < h && 0 <= j < w && 0 <= ch < 3 ==> r.value.value[i][j][ch] == 64
    ensures var r := Synthesize(CustomGray, upload, w, h);
            r.Success? && r.value.Some? && HasShape(r.value.value, h, w)
            && forall i, j, ch :: 0 <= i < h && 0 <= j < w && 0 <= ch < 3 ==> r.value.value[i][j][ch] == 100
  {
  }

  /**
    LEFT and RIGHT: identical rows of grey pixels running monotonically from 224 to 32
    (LEFT) or from 32 to 224 (RIGHT) across the columns.
  */
  lemma HorizontalPresets(p: Preset, upload: Option<Image>, w: nat, h: nat)
    requires p == Left || p == Right
    ensures Synthesize(p, upload, w, h).Success? && Synthesize(p, upload, w, h).value.Some?
    ensures var img := Synthesize(p, upload, w, h).value.value;
            var first, last := if p == Left then 224 else 32, if p == Left then 32 else 224;
            && HasShape(img, h, w) && GreyPixels(img)
            && (forall r1, r2 :: 0 <= r1 < h && 0 <= r2 < h ==> img[r1] == img[r2])
            && (forall r :: 0 <= r < h && w >= 1 ==> At(img, r, 0) == first)
            && (w >= 2 ==> var right := w - 1; forall r :: 0 <= r < h ==> At(img, r, right) == last)
            && (forall r, c :: 0 <= r < h && 0 <= c < w ==> 32 <= At(img, r, c) <= 224)
            && (forall r, c1, c2 :: 0 <= r < h && 0 <= c1 <= c2 < w ==>
                  if p == Left then At(img, r, c1) >= At(img, r, c2) else At(img, r, c1) <= At(img, r, c2))
  {
    if p == Left {
      HorizontalProfile(224.0, 32.0, h, w);
    } else {
      HorizontalProfile(32.0, 224.0, h, w);
    }
  }

  /**
    TOP and BOTTOM: identical columns of grey pixels running monotonically from 224 to 32
    (TOP) or from 32 to 224 (BOTTOM) down the rows.
  */
  lemma VerticalPresets(p: Preset, upload: Option<Image>, w: nat, h: nat)
    requires p == Top || p == Bottom
    ensures Synthesize(p, upload, w, h).Success? && Synthesize(p, upload, w, h).value.Some?
    ensures var img := Synthesize(p, upload, w, h).value.value;
            var first, last := if p == Top then 224 else 32, if p == Top then 32 else 224;
            && HasShape(img, h, w) && GreyPixels(img)
            && (forall r, c1, c2 :: 0 <= r < h && 0 <= c1 < w && 0 <= c2 < w ==> img[r][c1] == img[r][c2])
            && (forall c :: 0 <= c < w && h >= 1 ==> At(img, 0, c) == first)
            && (h >= 2 ==> var bottom := h - 1; forall c :: 0 <= c < w ==> At(img, bottom, c) == last)
            && (forall r, c :: 0 <= r < h && 0 <= c < w ==> 32 <= At(img, r, c) <= 224)
            && (forall r1, r2, c :: 0 <= r1 <= r2 < h && 0 <= c < w ==>
                  if p == Top then At(img, r1, c) >= At(img, r2, c) else At(img, r1, c) <= At(img, r2, c))
  {
    if p == Top {
      VerticalProfile(224.0, 32.0, h, w);
    } else {
      VerticalProfile(32.0, 224.0, h, w);
    }
  }

  /**
    An `h`-by-`w` grey gradient within [lo, hi] that darkens downwards and, towards the
    right when `left` (towards the left otherwise), with `hi` in the lit top corner and `lo`
    in the opposite one.
  */
  predicate CustomGradient(img: Image, h: nat, w: nat, lo: uint8, hi: uint8, left: bool)
  {
    && HasShape(img, h, w) && GreyPixels(img)
    && (forall r, c :: 0 <= r < h && 0 <= c < w ==> lo <= At(img, r, c) <= hi)
    && (forall r1, r2, c :: 0 <= r1 <= r2 < h && 0 <= c < w ==> At(img, r1, c) >= At(img, r2, c))
    && (forall r, c1, c2 :: 0 <= r < h && 0 <= c1 <= c2 < w ==>
          if left then At(img, r, c1) >= At(img, r, c2) else At(img, r, c1) <= At(img, r, c2))
    && (left && h >= 1 && w >= 1 ==> At(img, 0, 0) == hi)
    && (left && h >= 2 && w >= 2 ==> At(img, h - 1, w - 1) == lo)
    && (!left && h >= 1 && w >= 2 ==> At(img, 0, w - 1) == hi)
    && (!left && h >= 2 && w >= 1 ==> At(img, h - 1, 0) == lo)
  }

  /**
    The four CUSTOM gradients: grey pixels within their endpoints ([64, 192] or [32, 224]),
    brightest in the top-left (LEFT variants) or top-right (RIGHT variants) corner and
    darkest in the opposite corner, monotone along both axes.
  */
  lemma CustomPresets(p: Preset, upload: Option<Image>, w: nat, h: nat)
    requires p == CustomLeft || p == CustomLeftHigh || p == CustomRight || p == CustomRightHigh
    ensures Synthesize(p, upload, w, h).Success? && Synthesize(p, upload, w, h).value.Some?
    ensures var high := p == CustomLeftHigh || p == CustomRightHigh;
            CustomGradient(Synthesize(p, upload, w, h).value.value, h, w,
                           if high then 32 else 64, if high then 224 else 192,
                           p == CustomLeft || p == CustomLeftHigh)
  {
    var (ha, hb, va, vb) :=
      match p
      case CustomLeft => (192.0, 64.0, 192.0, 64.0)
      case CustomLeftHigh => (224.0, 32.0, 224.0, 32.0)
      case CustomRight => (64.0, 192.0, 192.0, 64.0)
      case CustomRightHigh => (32.0, 224.0, 224.0, 32.0);
    assert Synthesize(p, upload, w, h) == Success(Some(Blend(ha, hb, va, vb, h, w)));
    BlendBounds(ha, hb, va, vb, h, w);
    BlendAlongRows(ha, hb, va, vb, h, w);
    BlendAlongColumns(ha, hb, va, vb, h, w);
    BlendCorners(ha, hb, va, vb, h, w);
  }

  /** LEFT at width 4 samples `linspace(224, 32, 4) = [224, 160, 96, 32]`. */
  lemma LeftWidthFour()
    ensures Synthesize(Left, None, 4, 1) ==
            Success(Some([[Grey3(224), Grey3(160), Grey3(96), Grey3(32)]]))
  {
    var g := Linspace(224.0, 32.0, 4);
    assert g[1] == LinspaceAt(224.0, 32.0, 4, 1) == 160.0;
    assert g[2] == LinspaceAt(224.0, 32.0, 4, 2) == 96.0;
    assert ToByte(160.0) == 160 && ToByte(96.0) == 96;
    var img := Horizontal(224.0, 32.0, 1, 4);
    assert img[0][1] == Grey3(ToByte(g[1]));
    assert img[0][2] == Grey3(ToByte(g[2]));
    assert img[0] == [Grey3(224), Grey3(160), Grey3(96), Grey3(32)];
    assert img == [[Grey3(224), Grey3(160), Grey3(96), Grey3(32)]];
  }
}
