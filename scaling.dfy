/** Size arithmetic of `escalar` (the same function appears at lines 35-38
    of both imagen_recursiva_gris.py and imagen_recursiva_color.py) and of
    the grayscale block size (imagen_recursiva_gris.py, lines 236-238).
    The pixels of a resized image are produced by the imaging library and
    are not modelled; only the requested dimensions are. */
module Scaling {
  import opened Common
  import opened Grid

  /** The integer part of a * f (Python's `int` on a non-negative product). */
  function ScaleLength(a: nat, f: Factor): (r: nat)
    requires f.Valid()
    ensures r * f.den <= a * f.num < (r + 1) * f.den
  {
    FloorDiv(a * f.num, f.den)
  }

  /** Dimensions requested from `resize` by `escalar(imagen, f)`:
      the new width is the integer part of width * f, and the new height
      is derived from the NEW width, as the integer part of
      (new width / width) * height. A zero original width divides by zero. */
  function Scale(s: Size, f: Factor): (r: Result<Size, Error>)
    requires f.Valid()
    ensures r.Err? <==> s.width == 0
    ensures r.Err? ==> r.error == DivisionByZero
    ensures r.Ok? ==> r.value.width * f.den <= s.width * f.num < (r.value.width + 1) * f.den
    ensures r.Ok? ==> r.value.height * s.width <= r.value.width * s.height < (r.value.height + 1) * s.width
  {
    if s.width == 0 then Err(DivisionByZero)
    else
      var w := ScaleLength(s.width, f);
      Ok(Size(w, FloorDiv(w * s.height, s.width)))
  }

  /** `escalar(imagen, f)` as a whole: the size computation, then
      `resize`. The imaging library returns a copy when the requested size
      is the current one, and otherwise refuses a zero width or height with
      a ValueError. A resize that succeeds on a non-empty image therefore
      yields a non-empty image, whose size is the one computed by Scale. */
  function Escalar(s: Size, f: Factor): (r: Result<Size, Error>)
    requires f.Valid()
    ensures r == Err(DivisionByZero) <==> s.width == 0
    ensures r.Err? ==> r.error == DivisionByZero || r.error == InvalidSize
    ensures r.Ok? ==> Scale(s, f) == r
    ensures r.Ok? && s.height > 0 ==> r.value.width > 0 && r.value.height > 0
    ensures s.width > 0 && Scale(s, f).value.width > 0 && Scale(s, f).value.height > 0 ==> r.Ok?
    ensures s.width > 0 && Scale(s, f).value == s ==> r == Ok(s)
    ensures (&& s.width > 0 && Scale(s, f).value != s
             && (Scale(s, f).value.width == 0 || Scale(s, f).value.height == 0)) ==> r == Err(InvalidSize)
  {
    match Scale(s, f)
    case Err(e) => Err(e)
    case Ok(t) =>
      if t != s && (t.width == 0 || t.height == 0) then Err(InvalidSize) else Ok(t)
  }

  /** A size that rounds a dimension down to zero is refused: 3 x 2 at
      factor 1/2 asks for 1 x 0. */
  lemma ZeroSizeRefused()
    ensures Escalar(Size(3, 2), Factor(1, 2)) == Err(InvalidSize)
  {
  }

  /** A factor of one is a plain copy, even of an image with no rows. */
  lemma EscalarByOne(s: Size, f: Factor)
    requires f.Valid() && f.num == f.den && s.width > 0
    ensures Escalar(s, f) == Ok(s)
  {
    ScaleByOne(s, f);
  }

  /** Tile size of the grayscale variant: `int(width * f)` by
      `int(height * f)`, each dimension scaled on its own. */
  function BlockSize(s: Size, f: Factor): (r: Size)
    requires f.Valid()
    ensures r.width * f.den <= s.width * f.num < (r.width + 1) * f.den
    ensures r.height * f.den <= s.height * f.num < (r.height + 1) * f.den
  {
    Size(ScaleLength(s.width, f), ScaleLength(s.height, f))
  }

  /** A factor of one leaves every non-degenerate size unchanged. */
  lemma ScaleByOne(s: Size, f: Factor)
    requires f.Valid() && f.num == f.den && s.width > 0
    ensures Scale(s, f) == Ok(s)
  {
    DivModUnique(s.width * f.num, f.den, s.width, 0);
    DivModUnique(s.width * s.height, s.width, s.height, 0);
  }

  /** An integer factor k multiplies both dimensions by k. */
  lemma ScaleByInteger(s: Size, k: nat)
    requires s.width > 0
    ensures Scale(s, Factor(k, 1)) == Ok(Size(k * s.width, k * s.height))
  {
    DivModUnique(k * s.width * s.height, s.width, k * s.height, 0);
  }

  /** The tile width of the grayscale variant is the width of the seed
      image, whereas the two heights may differ: a 3 x 2 image at factor
      1/2 gives a 1 x 0 seed but 1 x 1 blocks. */
  lemma BlockWidthIsSeedWidth(s: Size, f: Factor)
    requires f.Valid() && s.width > 0
    ensures BlockSize(s, f).width == Scale(s, f).value.width
    ensures Scale(Size(3, 2), Factor(1, 2)) == Ok(Size(1, 0))
    ensures BlockSize(Size(3, 2), Factor(1, 2)) == Size(1, 1)
  {
  }

  /** The seed is never taller than a block: floor(floor(w * f) * h / w)
      is at most floor(h * f). So a seed that `resize` accepts, of an image
      with rows, gives blocks of at least one pixel. */
  lemma SeedWithinBlock(s: Size, f: Factor)
    requires f.Valid() && s.width > 0
    ensures Scale(s, f).value.height <= BlockSize(s, f).height
    ensures s.height > 0 && Escalar(s, f).Ok? ==> BlockSize(s, f).width > 0 && BlockSize(s, f).height > 0
  {
    var w' := ScaleLength(s.width, f);
    var h' := Scale(s, f).value.height;
    var bh := BlockSize(s, f).height;
    // h' * w <= w' * h and w' * den <= w * num, so h' * w * den <= w * h * num
    MulMonotone(h' * s.width, w' * s.height, f.den);
    assert w' * s.height * f.den == (w' * f.den) * s.height;
    MulMonotone(w' * f.den, s.width * f.num, s.height);
    assert s.width * (h' * f.den) <= s.width * (s.height * f.num);
    assert h' * f.den <= s.height * f.num by {
      if h' * f.den > s.height * f.num {
        MulStrict(s.width, s.height * f.num, h' * f.den);
      }
    }
    if h' > bh {
      MulMonotone(bh + 1, h', f.den);
    }
  }

  lemma MulStrict(a: nat, b: nat, c: nat)
    requires a > 0 && b < c
    ensures a * b < a * c
  {
  }
}
