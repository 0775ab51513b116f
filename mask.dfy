/** The mask builder, `create_alpha_mask`: cv2.inRange against the colour
    key, cv2.bitwise_not, a 3x3 closing, a 3x3 opening, and a Gaussian blur
    when the feather radius is positive. */
module MaskBuilder {
  import opened Image
  import opened ColorKey

  // ------------------------------------------ thresholding (ripper.py:60, 63)

  /** cv2.inRange: 255 where the pixel is within the bounds, 0 elsewhere. */
  function InRange(f: Frame, lower: Bgr, upper: Bgr): (m: Mask)
    ensures SameShape(m, f)
  {
    seq(|f|, i requires 0 <= i < |f| =>
      seq(|f[i]|, j requires 0 <= j < |f[i]| =>
        if InBand(f[i][j], lower, upper) then 255 else 0))
  }

  /** cv2.bitwise_not on an 8-bit mask. */
  function BitwiseNot(m: Mask): (r: Mask)
    ensures SameShape(r, m)
  {
    seq(|m|, i requires 0 <= i < |m| =>
      seq(|m[i]|, j requires 0 <= j < |m[i]| => 255 - m[i][j]))
  }

  /** The mask before morphology: transparent (0) exactly on the background
      pixels, opaque (255) everywhere else. */
  function KeyMask(f: Frame, lower: Bgr, upper: Bgr): (m: Mask)
    ensures SameShape(m, f)
    ensures IsBinary(m)
    ensures forall i, j :: Cell(f, i, j) ==>
              (m[i][j] == 0 <==> InBand(f[i][j], lower, upper)) &&
              (m[i][j] == 255 <==> !InBand(f[i][j], lower, upper))
  {
    BitwiseNot(InRange(f, lower, upper))
  }

  // ------------------------------------------------------ morphology (ripper.py:66-68)

  /** The pixel at (p, q), or `pad` outside the image. OpenCV's default
      morphology border is ignored by the window: padding a dilation with 0
      and an erosion with 255 has exactly that effect on 8-bit values. */
  function At(m: Mask, p: int, q: int, pad: Byte): Byte {
    if Cell(m, p, q) then m[p][q] else pad
  }

  /** The 3x3 neighbourhood of (i, j), row by row. */
  function Window(m: Mask, i: int, j: int, pad: Byte): (w: seq<Byte>)
    ensures |w| == 9
  {
    seq(9, t requires 0 <= t < 9 => At(m, i + t / 3 - 1, j + t % 3 - 1, pad))
  }

  function SeqMax(s: seq<Byte>): (r: Byte)
    requires |s| > 0
    ensures forall k :: 0 <= k < |s| ==> s[k] <= r
    ensures exists k :: 0 <= k < |s| && s[k] == r
  {
    if |s| == 1 then s[0]
    else
      var r := SeqMax(s[1..]);
      assert forall k :: 1 <= k < |s| ==> s[k] == s[1..][k - 1];
      if s[0] < r then r else s[0]
  }

  function SeqMin(s: seq<Byte>): (r: Byte)
    requires |s| > 0
    ensures forall k :: 0 <= k < |s| ==> r <= s[k]
    ensures exists k :: 0 <= k < |s| && s[k] == r
  {
    if |s| == 1 then s[0]
    else
      var r := SeqMin(s[1..]);
      assert forall k :: 1 <= k < |s| ==> s[k] == s[1..][k - 1];
      if r < s[0] then r else s[0]
  }

  /** cv2.dilate with a 3x3 all-ones kernel, one iteration. */
  function Dilate(m: Mask): (r: Mask)
    ensures SameShape(r, m)
  {
    seq(|m|, i requires 0 <= i < |m| =>
      seq(|m[i]|, j requires 0 <= j < |m[i]| => SeqMax(Window(m, i, j, 0))))
  }

  /** cv2.erode with a 3x3 all-ones kernel, one iteration. */
  function Erode(m: Mask): (r: Mask)
    ensures SameShape(r, m)
  {
    seq(|m|, i requires 0 <= i < |m| =>
      seq(|m[i]|, j requires 0 <= j < |m[i]| => SeqMin(Window(m, i, j, 255))))
  }

  /** MORPH_CLOSE: dilate, then erode. */
  function Close(m: Mask): (r: Mask)
    ensures SameShape(r, m)
  {
    Erode(Dilate(m))
  }

  /** MORPH_OPEN: erode, then dilate. */
  function Open(m: Mask): (r: Mask)
    ensures SameShape(r, m)
  {
    Dilate(Erode(m))
  }

  lemma WindowAt(m: Mask, i: int, j: int, pad: Byte, p: int, q: int)
    requires Adjacent(i, j, p, q)
    ensures Window(m, i, j, pad)[(p - i + 1) * 3 + (q - j + 1)] == At(m, p, q, pad)
  {
  }

  /** The t-th entry of a window and the neighbour it comes from. */
  lemma WindowCell(m: Mask, i: int, j: int, pad: Byte, t: int) returns (p: int, q: int)
    requires 0 <= t < 9
    ensures Adjacent(i, j, p, q) && Window(m, i, j, pad)[t] == At(m, p, q, pad)
  {
    p, q := i + t / 3 - 1, j + t % 3 - 1;
  }

  /** A dilated pixel is the largest value in its clipped 3x3 window. */
  lemma DilateAt(m: Mask, i: int, j: int)
    requires Cell(m, i, j)
    ensures forall p, q :: Adjacent(i, j, p, q) && Cell(m, p, q) ==> m[p][q] <= Dilate(m)[i][j]
    ensures exists p, q :: Adjacent(i, j, p, q) && Cell(m, p, q) && m[p][q] == Dilate(m)[i][j]
  {
    DilateBound(m, i, j);
    DilateAttained(m, i, j);
  }

  lemma DilateBound(m: Mask, i: int, j: int)
    requires Cell(m, i, j)
    ensures forall p, q :: Adjacent(i, j, p, q) && Cell(m, p, q) ==> m[p][q] <= Dilate(m)[i][j]
  {
    var v := Dilate(m)[i][j];
    assert v == SeqMax(Window(m, i, j, 0));
    forall p, q | Adjacent(i, j, p, q) && Cell(m, p, q)
      ensures m[p][q] <= v
    {
      WindowAt(m, i, j, 0, p, q);
    }
  }

  lemma DilateAttained(m: Mask, i: int, j: int)
    requires Cell(m, i, j)
    ensures exists p, q :: Adjacent(i, j, p, q) && Cell(m, p, q) && m[p][q] == Dilate(m)[i][j]
  {
    var w := Window(m, i, j, 0);
    var v := Dilate(m)[i][j];
    assert v == SeqMax(w);
    var t :| 0 <= t < 9 && w[t] == v;
    var p, q := WindowCell(m, i, j, 0, t);
    if Cell(m, p, q) {
      assert m[p][q] == v;
    } else {
      assert v == 0;
      WindowAt(m, i, j, 0, i, j);
      assert w[4] == m[i][j];
      assert m[i][j] <= v;
      assert Adjacent(i, j, i, j) && m[i][j] == v;
    }
  }


  /** An eroded pixel is the smallest value in its clipped 3x3 window. */
  lemma ErodeAt(m: Mask, i: int, j: int)
    requires Cell(m, i, j)
    ensures forall p, q :: Adjacent(i, j, p, q) && Cell(m, p, q) ==> Erode(m)[i][j] <= m[p][q]
    ensures exists p, q :: Adjacent(i, j, p, q) && Cell(m, p, q) && m[p][q] == Erode(m)[i][j]
  {
    ErodeBound(m, i, j);
    ErodeAttained(m, i, j);
  }

  lemma ErodeBound(m: Mask, i: int, j: int)
    requires Cell(m, i, j)
    ensures forall p, q :: Adjacent(i, j, p, q) && Cell(m, p, q) ==> Erode(m)[i][j] <= m[p][q]
  {
    var v := Erode(m)[i][j];
    assert v == SeqMin(Window(m, i, j, 255));
    forall p, q | Adjacent(i, j, p, q) && Cell(m, p, q)
      ensures v <= m[p][q]
    {
      WindowAt(m, i, j, 255, p, q);
    }
  }

  lemma ErodeAttained(m: Mask, i: int, j: int)
    requires Cell(m, i, j)
    ensures exists p, q :: Adjacent(i, j, p, q) && Cell(m, p, q) && m[p][q] == Erode(m)[i][j]
  {
    var w := Window(m, i, j, 255);
    var v := Erode(m)[i][j];
    assert v == SeqMin(w);
    var t :| 0 <= t < 9 && w[t] == v;
    var p, q := WindowCell(m, i, j, 255, t);
    if Cell(m, p, q) {
      assert m[p][q] == v;
    } else {
      assert v == 255;
      WindowAt(m, i, j, 255, i, j);
      assert w[4] == m[i][j];
      assert v <= m[i][j];
      assert Adjacent(i, j, i, j) && m[i][j] == v;
    }
  }


  /** Closing never lowers a pixel. */
  lemma CloseExtensive(m: Mask, i: int, j: int)
    requires Cell(m, i, j)
    ensures m[i][j] <= Close(m)[i][j]
  {
    var d := Dilate(m);
    ErodeAt(d, i, j);
    var p, q :| Adjacent(i, j, p, q) && Cell(d, p, q) && d[p][q] == Erode(d)[i][j];
    DilateAt(m, p, q);
    assert Adjacent(p, q, i, j);
  }

  /** Opening never raises a pixel. */
  lemma OpenAntiExtensive(m: Mask, i: int, j: int)
    requires Cell(m, i, j)
    ensures Open(m)[i][j] <= m[i][j]
  {
    var e := Erode(m);
    DilateAt(e, i, j);
    var p, q :| Adjacent(i, j, p, q) && Cell(e, p, q) && e[p][q] == Dilate(e)[i][j];
    ErodeAt(m, p, q);
    assert Adjacent(p, q, i, j);
  }

  /** Every pixel of `m` takes a value from `vs`. */
  ghost predicate ValuesIn(m: Mask, vs: set<Byte>) {
    forall i, j :: Cell(m, i, j) ==> m[i][j] in vs
  }

  lemma DilateValuesIn(m: Mask, vs: set<Byte>)
    requires ValuesIn(m, vs)
    ensures ValuesIn(Dilate(m), vs)
  {
    forall i, j | Cell(Dilate(m), i, j)
      ensures Dilate(m)[i][j] in vs
    {
      DilateAt(m, i, j);
    }
  }

  lemma ErodeValuesIn(m: Mask, vs: set<Byte>)
    requires ValuesIn(m, vs)
    ensures ValuesIn(Erode(m), vs)
  {
    forall i, j | Cell(Erode(m), i, j)
      ensures Erode(m)[i][j] in vs
    {
      ErodeAt(m, i, j);
    }
  }

  /** Closing then opening introduces no value the mask did not have: a
      binary mask stays binary and a uniform mask stays uniform. */
  lemma MorphologyValuesIn(m: Mask, vs: set<Byte>)
    requires ValuesIn(m, vs)
    ensures ValuesIn(Open(Close(m)), vs)
  {
    DilateValuesIn(m, vs);
    ErodeValuesIn(Dilate(m), vs);
    ErodeValuesIn(Close(m), vs);
    DilateValuesIn(Erode(Close(m)), vs);
  }

  // ---------------------------------------------------------- feather (ripper.py:71-72)

  /** The blur is opaque: each output pixel is some function of the whole
      mask, the kernel size and the position. */
  type BlurKernel = (Mask, nat, nat, nat) -> Byte

  /** cv2.GaussianBlur with a square kernel, which must be odd. */
  function GaussianBlur(m: Mask, ksize: nat, kernel: BlurKernel): (r: Mask)
    requires ksize % 2 == 1
    ensures SameShape(r, m)
  {
    seq(|m|, i requires 0 <= i < |m| =>
      seq(|m[i]|, j requires 0 <= j < |m[i]| => kernel(m, ksize, i, j)))
  }

  /** `create_alpha_mask(frame, lower, upper, feather)`. */
  function CreateAlphaMask(f: Frame, lower: Bgr, upper: Bgr, feather: int, kernel: BlurKernel): (r: Mask)
    ensures SameShape(r, f)
    ensures feather <= 0 ==> IsBinary(r)
  {
    var m := KeyMask(f, lower, upper);
    MorphologyValuesIn(m, {0, 255});
    var cleaned := Open(Close(m));
    if feather > 0 then GaussianBlur(cleaned, 2 * feather + 1, kernel) else cleaned
  }

  /** Without a positive feather (a negative one included) the mask is the
      opened mask itself; with one, it is that mask blurred with the odd
      kernel size `2 * feather + 1`. */
  lemma AlphaMaskStages(f: Frame, lower: Bgr, upper: Bgr, feather: int, kernel: BlurKernel)
    ensures feather <= 0 ==> CreateAlphaMask(f, lower, upper, feather, kernel) == Open(Close(KeyMask(f, lower, upper)))
    ensures feather > 0 ==> CreateAlphaMask(f, lower, upper, feather, kernel)
                              == GaussianBlur(Open(Close(KeyMask(f, lower, upper))), 2 * feather + 1, kernel)
  {
  }

  /** A frame that is background everywhere gives a fully transparent mask
      when there is no feathering. */
  lemma BackgroundFrameIsTransparent(f: Frame, lower: Bgr, upper: Bgr, feather: int, kernel: BlurKernel)
    requires forall i, j :: Cell(f, i, j) ==> InBand(f[i][j], lower, upper)
    requires feather <= 0
    ensures Uniform(CreateAlphaMask(f, lower, upper, feather, kernel), 0)
  {
    var m := KeyMask(f, lower, upper);
    assert ValuesIn(m, {0});
    MorphologyValuesIn(m, {0});
  }

  /** A frame with no background pixel gives a fully opaque mask when there
      is no feathering. */
  lemma ForegroundFrameIsOpaque(f: Frame, lower: Bgr, upper: Bgr, feather: int, kernel: BlurKernel)
    requires forall i, j :: Cell(f, i, j) ==> !InBand(f[i][j], lower, upper)
    requires feather <= 0
    ensures Uniform(CreateAlphaMask(f, lower, upper, feather, kernel), 255)
  {
    var m := KeyMask(f, lower, upper);
    assert ValuesIn(m, {255});
    MorphologyValuesIn(m, {255});
  }

  /** With the intended bounds, a pixel equal to the key colour is
      transparent before morphology, and one farther than the tolerance on
      some channel is opaque. */
  lemma KeyColourIsTransparent(f: Frame, c: Rgb, t: int, i: int, j: int)
    requires 0 <= t <= 255 && Cell(f, i, j)
    ensures var bd := KeyBounds(c, t);
            (f[i][j] == Bgr(c.b, c.g, c.r) ==> KeyMask(f, bd.lower, bd.upper)[i][j] == 0) &&
            (!Near(f[i][j], c, t) ==> KeyMask(f, bd.lower, bd.upper)[i][j] == 255)
  {
  }

  /** As written, the documented `#00FF00` key with tolerance 30 makes every
      frame fully opaque when there is no feathering: nothing is removed. */
  lemma GreenScreenAsWrittenIsOpaque(f: Frame, kernel: BlurKernel)
    ensures var bd := KeyBoundsAsWritten(Rgb(0, 255, 0), 30);
            Uniform(CreateAlphaMask(f, bd.lower, bd.upper, 0, kernel), 255)
  {
    GreenScreenAsWritten();
    var bd := KeyBoundsAsWritten(Rgb(0, 255, 0), 30);
    ForegroundFrameIsOpaque(f, bd.lower, bd.upper, 0, kernel);
  }

  /** As written, a frame of solid key colour is fully opaque without
      feathering whenever some channel's band wraps. */
  lemma SolidKeyFrameAsWrittenIsOpaque(f: Frame, c: Rgb, t: int, kernel: BlurKernel)
    requires 0 <= t <= 255 && !NoWrap(c, t)
    requires forall i, j :: Cell(f, i, j) ==> f[i][j] == Bgr(c.b, c.g, c.r)
    ensures var bd := KeyBoundsAsWritten(c, t);
            Uniform(CreateAlphaMask(f, bd.lower, bd.upper, 0, kernel), 255)
  {
    var bd := KeyBoundsAsWritten(c, t);
    AsWrittenKeyIsBackgroundIff(c, t);
    ForegroundFrameIsOpaque(f, bd.lower, bd.upper, 0, kernel);
  }

  /** As written, a solid `#00FF00` frame keyed on `#00FF00` with tolerance
      10 stays fully opaque without feathering. */
  lemma SolidGreenToleranceTenAsWritten(f: Frame, kernel: BlurKernel)
    requires forall i, j :: Cell(f, i, j) ==> f[i][j] == Bgr(0, 255, 0)
    ensures var bd := KeyBoundsAsWritten(Rgb(0, 255, 0), 10);
            Uniform(CreateAlphaMask(f, bd.lower, bd.upper, 0, kernel), 255)
  {
    SolidKeyFrameAsWrittenIsOpaque(f, Rgb(0, 255, 0), 10, kernel);
  }

  /** With the intended bounds, a frame of solid key colour is fully
      transparent without feathering. */
  lemma SolidKeyFrameIsTransparent(f: Frame, c: Rgb, t: int, kernel: BlurKernel)
    requires 0 <= t <= 255
    requires forall i, j :: Cell(f, i, j) ==> f[i][j] == Bgr(c.b, c.g, c.r)
    ensures var bd := KeyBounds(c, t);
            Uniform(CreateAlphaMask(f, bd.lower, bd.upper, 0, kernel), 0)
  {
    var bd := KeyBounds(c, t);
    BackgroundFrameIsTransparent(f, bd.lower, bd.upper, 0, kernel);
  }
}
