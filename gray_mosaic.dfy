/** The grayscale variant (imagen_recursiva_gris.py): a bank of brightness
    levels of the seed image, the mean luminance of a block, the
    first-threshold-at-or-above selector and the composer that pastes the
    selected tile over every block of the enlarged image. */
module GrayMosaic {
  import opened Common
  import opened Grid
  import opened Scaling

  // ---------------------------------------------------------------------
  // Blocks and their mean luminance

  /** Pixel (dx, dy) of the window of `img` whose corner is (x0, y0), as
      `img.crop(...)` yields it: pixels outside the image read as 0. */
  function WindowPixel(img: array2<Byte>, x0: nat, y0: nat, dx: nat, dy: nat): Byte
    reads img
  {
    if x0 + dx < img.Length0 && y0 + dy < img.Length1 then img[x0 + dx, y0 + dy] else 0
  }

  /** Sum of the first h pixels of column dx of the window. */
  ghost function ColumnSum(img: array2<Byte>, x0: nat, y0: nat, dx: nat, h: nat): int
    reads img
  {
    if h == 0 then 0 else ColumnSum(img, x0, y0, dx, h - 1) + WindowPixel(img, x0, y0, dx, h - 1)
  }

  /** Sum of the pixels of the first w columns, each h high, of the window. */
  ghost function WindowSum(img: array2<Byte>, x0: nat, y0: nat, w: nat, h: nat): int
    reads img
  {
    if w == 0 then 0 else WindowSum(img, x0, y0, w - 1, h) + ColumnSum(img, x0, y0, w - 1, h)
  }

  /** Every pixel of the w x h window lies in [lo, hi]. */
  ghost predicate WindowWithin(img: array2<Byte>, x0: nat, y0: nat, w: nat, h: nat, lo: int, hi: int)
    reads img
  {
    forall dx, dy :: 0 <= dx < w && 0 <= dy < h ==> lo <= WindowPixel(img, x0, y0, dx, dy) <= hi
  }

  lemma {:induction false} ColumnSumWithin(img: array2<Byte>, x0: nat, y0: nat, dx: nat, h: nat, lo: int, hi: int)
    requires WindowWithin(img, x0, y0, dx + 1, h, lo, hi)
    ensures lo * h <= ColumnSum(img, x0, y0, dx, h) <= hi * h
  {
    if h > 0 {
      ColumnSumWithin(img, x0, y0, dx, h - 1, lo, hi);
      assert lo <= WindowPixel(img, x0, y0, dx, h - 1) <= hi;
      assert lo * h == lo * (h - 1) + lo;
      assert hi * h == hi * (h - 1) + hi;
    }
  }

  lemma {:induction false} WindowSumWithin(img: array2<Byte>, x0: nat, y0: nat, w: nat, h: nat, lo: int, hi: int)
    requires WindowWithin(img, x0, y0, w, h, lo, hi)
    ensures lo * (w * h) <= WindowSum(img, x0, y0, w, h) <= hi * (w * h)
  {
    if w > 0 {
      WindowSumWithin(img, x0, y0, w - 1, h, lo, hi);
      ColumnSumWithin(img, x0, y0, w - 1, h, lo, hi);
      PeelColumn(lo, w, h);
      PeelColumn(hi, w, h);
    }
  }

  /** `int(sumatoria / cantidad_de_pixeles)` over the w x h window,
      padding pixels included: the divisor is always w * h. */
  ghost function WindowMean(img: array2<Byte>, x0: nat, y0: nat, w: nat, h: nat): (m: Byte)
    requires w > 0 && h > 0
    reads img
    ensures m * (w * h) <= WindowSum(img, x0, y0, w, h) < (m + 1) * (w * h)
  {
    WindowSumWithin(img, x0, y0, w, h, 0, 255);
    QuotientWithin(WindowSum(img, x0, y0, w, h), w * h, 0, 255);
    WindowSum(img, x0, y0, w, h) / (w * h)
  }

  /** The mean of a block lies between its darkest and its brightest pixel:
      any bounds on every pixel bound the mean as well. */
  lemma MeanWithinPixelRange(img: array2<Byte>, x0: nat, y0: nat, w: nat, h: nat, lo: int, hi: int)
    requires w > 0 && h > 0 && WindowWithin(img, x0, y0, w, h, lo, hi)
    ensures lo <= WindowMean(img, x0, y0, w, h) <= hi
  {
    WindowSumWithin(img, x0, y0, w, h, lo, hi);
    QuotientWithin(WindowSum(img, x0, y0, w, h), w * h, lo, hi);
  }

  /** A block whose pixels all have value v has mean v. */
  lemma MeanOfUniformBlock(img: array2<Byte>, x0: nat, y0: nat, w: nat, h: nat, v: Byte)
    requires w > 0 && h > 0
    requires forall dx, dy :: 0 <= dx < w && 0 <= dy < h ==> WindowPixel(img, x0, y0, dx, dy) == v
    ensures WindowMean(img, x0, y0, w, h) == v
  {
    MeanWithinPixelRange(img, x0, y0, w, h, v, v);
  }

  /** The block read by the code differs from the clipped block: on a
      white 3 x 1 image cut into 2 x 1 blocks, the edge block at x == 2
      holds one image pixel and one black padding pixel, so its mean is
      127 rather than 255. */
  lemma EdgeBlockIncludesPadding(img: array2<Byte>)
    requires img.Length0 == 3 && img.Length1 == 1
    requires forall x :: 0 <= x < 3 ==> img[x, 0] == 255
    ensures WindowMean(img, 2, 0, 2, 1) == 127
  {
    assert WindowPixel(img, 2, 0, 0, 0) == 255;
    assert WindowPixel(img, 2, 0, 1, 0) == 0;
    assert ColumnSum(img, 2, 0, 0, 1) == 255;
    assert ColumnSum(img, 2, 0, 1, 1) == 0;
    assert WindowSum(img, 2, 0, 1, 1) == 255;
    assert WindowSum(img, 2, 0, 2, 1) == 255;
  }

  /** `b` holds the window of `img` at (x0, y0) that has b's own size. */
  ghost predicate IsCrop(b: array2<Byte>, img: array2<Byte>, x0: nat, y0: nat)
    reads b, img
  {
    forall dx, dy :: 0 <= dx < b.Length0 && 0 <= dy < b.Length1 ==> b[dx, dy] == WindowPixel(img, x0, y0, dx, dy)
  }

  /** `img.crop((x0, y0, x0 + w, y0 + h))`: a new w x h image holding the
      window, with 0 where the window leaves the image. */
  method Crop(img: array2<Byte>, x0: nat, y0: nat, w: nat, h: nat) returns (b: array2<Byte>)
    ensures fresh(b) && b.Length0 == w && b.Length1 == h
    ensures IsCrop(b, img, x0, y0)
  {
    b := new Byte[w, h];
    forall dx, dy | 0 <= dx < w && 0 <= dy < h {
      b[dx, dy] := WindowPixel(img, x0, y0, dx, dy);
    }
  }

  lemma {:induction false} ColumnSumOfCrop(b: array2<Byte>, img: array2<Byte>, x0: nat, y0: nat, dx: nat, h: nat)
    requires IsCrop(b, img, x0, y0) && dx < b.Length0 && h <= b.Length1
    ensures ColumnSum(b, 0, 0, dx, h) == ColumnSum(img, x0, y0, dx, h)
  {
    if h > 0 {
      ColumnSumOfCrop(b, img, x0, y0, dx, h - 1);
    }
  }

  /** A crop has the same pixel sum as the window it was cut from. */
  lemma {:induction false} WindowSumOfCrop(b: array2<Byte>, img: array2<Byte>, x0: nat, y0: nat, w: nat)
    requires IsCrop(b, img, x0, y0) && w <= b.Length0
    ensures WindowSum(b, 0, 0, w, b.Length1) == WindowSum(img, x0, y0, w, b.Length1)
  {
    if w > 0 {
      WindowSumOfCrop(b, img, x0, y0, w - 1);
      ColumnSumOfCrop(b, img, x0, y0, w - 1, b.Length1);
    }
  }

  /** `promedio_gris`: sums every pixel, column by column, counts them, and
      returns the truncated mean; an empty image divides by zero. */
  method MeanGray(img: array2<Byte>) returns (r: Result<int, Error>)
    ensures r.Err? <==> img.Length0 == 0 || img.Length1 == 0
    ensures r.Err? ==> r.error == DivisionByZero
    ensures r.Ok? ==> img.Length0 > 0 && img.Length1 > 0 && r.value == WindowMean(img, 0, 0, img.Length0, img.Length1)
  {
    var sum, count := 0, 0;
    var x := 0;
    while x < img.Length0
      invariant 0 <= x <= img.Length0
      invariant sum == WindowSum(img, 0, 0, x, img.Length1)
      invariant count == x * img.Length1
    {
      var y := 0;
      while y < img.Length1
        invariant 0 <= y <= img.Length1
        invariant sum == WindowSum(img, 0, 0, x, img.Length1) + ColumnSum(img, 0, 0, x, y)
        invariant count == x * img.Length1 + y
      {
        sum := sum + img[x, y];
        count := count + 1;
        y := y + 1;
      }
      x := x + 1;
    }
    if count == 0 {
      return Err(DivisionByZero);
    }
    r := Ok(sum / count);
  }

  // ---------------------------------------------------------------------
  // The brightness bank

  /** The seed image with its brightness scaled by num / den
      (`ImageEnhance.Brightness(seed).enhance(num / den)`), left opaque. */
  datatype GrayTile = Brightened(num: nat, den: nat)

  /** One `(threshold, tile)` pair of the bank. */
  datatype Level = Level(threshold: real, tile: GrayTile)

  /** `i * (255 / (n - 1))`, computed exactly. It is never negative, and
      it stays within the luminance range exactly for the indices that
      `range(n)` produces. */
  function Threshold(i: nat, n: nat): (t: real)
    requires n >= 2
    ensures 0.0 <= t
    ensures t <= 255.0 <==> i < n
  {
    var d := (n - 1) as real;
    var t := (i * 255) as real / d;
    assert t * d == (i * 255) as real;
    ThresholdScale(t, d, i);
    t
  }

  /** t * d == 255 * i with d == n - 1 puts t at or below 255 exactly when
      i <= n - 1. */
  lemma ThresholdScale(t: real, d: real, i: nat)
    requires d >= 1.0 && t * d == (i * 255) as real
    ensures 0.0 <= t
    ensures t <= 255.0 <==> i as real <= d
  {
    assert (i * 255) as real == 255.0 * i as real;
    ScaleRealOrder(t, 0.0, d);
    ScaleRealOrder(255.0, t, d);
    ScaleRealOrder(d, i as real, 255.0);
  }

  /** Multiplying by a positive real keeps strict order, both ways. */
  lemma ScaleRealOrder(a: real, b: real, d: real)
    requires d > 0.0
    ensures a < b <==> a * d < b * d
  {
    assert b * d - a * d == (b - a) * d;
  }

  /** The bank of n levels: level i has threshold i * 255 / (n - 1) and the
      seed brightened by the factor threshold / 255 == i / (n - 1). */
  function Bank(n: nat): (bank: seq<Level>)
    requires n >= 2
    ensures |bank| == n
  {
    seq(n, (i: nat) => Level(Threshold(i, n), Brightened(i, n - 1)))
  }

  /** `tonos_de_gris`: appends one level per i in range(n). For n == 1 the
      first step divides by zero; n <= 0 gives an empty bank. */
  method BrightnessBank(n: int) returns (r: Result<seq<Level>, Error>)
    ensures r.Err? <==> n == 1
    ensures r.Err? ==> r.error == DivisionByZero
    ensures n <= 0 ==> r == Ok([])
    ensures n >= 2 ==> r == Ok(Bank(n))
  {
    var levels: seq<Level> := [];
    var i := 0;
    while i < n
      invariant 0 <= i <= (if n > 0 then n else 0)
      invariant n == 1 ==> i == 0
      invariant |levels| == i
      invariant n >= 2 ==> forall k :: 0 <= k < i ==> levels[k] == Bank(n)[k]
    {
      if n - 1 == 0 {
        return Err(DivisionByZero);
      }
      levels := levels + [Level(Threshold(i, n), Brightened(i, n - 1))];
      i := i + 1;
    }
    assert n >= 2 ==> levels == Bank(n);
    return Ok(levels);
  }

  /** The bank spans the whole luminance range: its first threshold is 0
      and its last is 255. */
  lemma BankEndpoints(n: nat)
    requires n >= 2
    ensures Bank(n)[0].threshold == 0.0
    ensures Bank(n)[n - 1].threshold == 255.0
  {
    ThresholdOfLast(n);
  }

  lemma ThresholdOfLast(n: nat)
    requires n >= 2
    ensures Threshold(n - 1, n) == 255.0
  {
    var d := (n - 1) as real;
    assert ((n - 1) * 255) as real == 255.0 * d;
    RealDivExact(((n - 1) * 255) as real, d, 255.0);
  }

  lemma RealDivExact(x: real, d: real, y: real)
    requires d != 0.0 && x == y * d
    ensures x / d == y
  {
  }

  /** Thresholds strictly increase along the bank. */
  lemma BankIncreasing(n: nat, i: nat, j: nat)
    requires n >= 2 && i < j < n
    ensures Bank(n)[i].threshold < Bank(n)[j].threshold
  {
    ThresholdIncreasing(n, i, j);
  }

  lemma ThresholdIncreasing(n: nat, i: nat, j: nat)
    requires n >= 2 && i < j
    ensures Threshold(i, n) < Threshold(j, n)
  {
    var d := (n - 1) as real;
    var a, b := (i * 255) as real, (j * 255) as real;
    assert a < b;
    assert d > 0.0;
    assert a / d < b / d;
  }

  // ---------------------------------------------------------------------
  // Selection

  /** k is the first index of the bank whose threshold is at or above avg. */
  ghost predicate IsFirstAtOrAbove(bank: seq<Level>, avg: int, k: int) {
    && 0 <= k < |bank|
    && avg as real <= bank[k].threshold
    && forall j :: 0 <= j < k ==> bank[j].threshold < avg as real
  }

  /** Index of the first level whose threshold is at or above avg, or
      |bank| when every threshold is below it. */
  function FirstAtOrAbove(bank: seq<Level>, avg: int): (k: nat)
    ensures k <= |bank|
    ensures forall j :: 0 <= j < k ==> bank[j].threshold < avg as real
    ensures k < |bank| ==> avg as real <= bank[k].threshold
  {
    if |bank| == 0 then 0
    else if avg as real <= bank[0].threshold then 0
    else 1 + FirstAtOrAbove(bank[1..], avg)
  }

  /** The tile `get_imagen_gris` returns, or None when it falls off the end. */
  function Selected(bank: seq<Level>, avg: int): (r: Option<GrayTile>)
    ensures r.None? <==> forall k :: 0 <= k < |bank| ==> bank[k].threshold < avg as real
    ensures r.Some? ==> exists k :: IsFirstAtOrAbove(bank, avg, k) && r.value == bank[k].tile
  {
    var k := FirstAtOrAbove(bank, avg);
    if k < |bank| then Some(bank[k].tile) else None
  }

  /** `get_imagen_gris`: scans the bank in order and returns the tile of
      the first level whose threshold is at or above the average. It
      returns nothing exactly when every threshold is below the average. */
  method SelectGray(avg: int, bank: seq<Level>) returns (r: Option<GrayTile>)
    ensures r.None? <==> forall k :: 0 <= k < |bank| ==> bank[k].threshold < avg as real
    ensures r.Some? ==> exists k :: IsFirstAtOrAbove(bank, avg, k) && r.value == bank[k].tile
    ensures r == Selected(bank, avg)
  {
    var k := 0;
    while k < |bank|
      invariant 0 <= k <= |bank|
      invariant forall j :: 0 <= j < k ==> bank[j].threshold < avg as real
    {
      if avg as real <= bank[k].threshold {
        return Some(bank[k].tile);
      }
      k := k + 1;
    }
    return None;
  }

  /** First-match-above is determined by its two halves: an index whose
      threshold is at or above avg, with every earlier one below it, is
      the selected one. */
  lemma FirstAtOrAboveIsUnique(bank: seq<Level>, avg: int, k: nat)
    requires IsFirstAtOrAbove(bank, avg, k)
    ensures FirstAtOrAbove(bank, avg) == k
  {
  }

  /** With a bank from `tonos_de_gris`, every luminance in [0, 255] finds
      a tile: the last threshold is 255. */
  lemma SelectFromBankIsTotal(n: nat, avg: int)
    requires n >= 2 && 0 <= avg <= 255
    ensures Selected(Bank(n), avg).Some?
  {
    BankEndpoints(n);
  }

  /** An average equal to threshold i selects level i itself. */
  lemma SelectExactThreshold(n: nat, i: nat, avg: int)
    requires n >= 2 && i < n && avg as real == Bank(n)[i].threshold
    ensures FirstAtOrAbove(Bank(n), avg) == i
  {
    forall j | 0 <= j < i
      ensures Bank(n)[j].threshold < avg as real
    {
      BankIncreasing(n, j, i);
    }
    FirstAtOrAboveIsUnique(Bank(n), avg, i);
  }

  /** The policy is first-at-or-above, not nearest: with three levels
      (0, 127.5, 255) an average of 1 selects level 1, not level 0. */
  lemma SelectIsNotNearest()
    ensures FirstAtOrAbove(Bank(3), 1) == 1
  {
    assert Bank(3)[0].threshold == 0.0;
    assert Bank(3)[1].threshold == 127.5;
    FirstAtOrAboveIsUnique(Bank(3), 1, 1);
  }

  // ---------------------------------------------------------------------
  // The composer

  /** The tile selected for the block that holds pixel (i, j). */
  ghost function BlockTile(img: array2<Byte>, bank: seq<Level>, px: nat, py: nat, i: nat, j: nat): Option<GrayTile>
    requires px > 0 && py > 0
    reads img
  {
    Selected(bank, WindowMean(img, BlockStart(i, px), BlockStart(j, py), px, py))
  }

  /** What pixel (i, j) of the finished canvas holds: the pixel of its
      block's tile at the pixel's offset within the block. */
  ghost function ExpectedCell(img: array2<Byte>, bank: seq<Level>, px: nat, py: nat, i: nat, j: nat): Cell<GrayTile>
    requires px > 0 && py > 0
    reads img
  {
    match BlockTile(img, bank, px, py, i, j)
    case Some(t) => Sample(t, i % px, j % py)
    case None => Blank
  }

  /** The finished canvas and the final `bloques_procesados`. */
  datatype Mosaic<T> = Mosaic(canvas: array2<Cell<T>>, processed: nat)

  /** The body of the inner loop for the block at (x, y): crop it, take
      its mean, select a tile and paste it; false when no tile is found. */
  method PasteBlock(img: array2<Byte>, px: nat, py: nat, bank: seq<Level>,
                    canvas: array2<Cell<GrayTile>>, x: nat, y: nat, ghost cx: nat, ghost cy: nat)
    returns (found: bool)
    requires px > 0 && py > 0 && x == cx * px && y == cy * py
    requires canvas.Length0 == img.Length0 && canvas.Length1 == img.Length1
    modifies canvas
    ensures !found ==> BlockTile(img, bank, px, py, x, y).None?
    ensures found ==> forall i, j :: 0 <= i < canvas.Length0 && 0 <= j < canvas.Length1 ==>
      canvas[i, j] == if Covers((x, y), px, py, i, j) then ExpectedCell(img, bank, px, py, i, j) else old(canvas[i, j])
    ensures found ==> forall i, j :: 0 <= i < canvas.Length0 && 0 <= j < canvas.Length1 && Covers((x, y), px, py, i, j) ==>
      BlockTile(img, bank, px, py, i, j).Some?
  {
    var block := Crop(img, x, y, px, py);
    var mean := MeanGray(block);
    WindowSumOfCrop(block, img, x, y, px);
    assert mean.value == WindowMean(img, x, y, px, py);
    var tile := SelectGray(mean.value, bank);
    InBlock(x, cx, px);
    InBlock(y, cy, py);
    if tile.None? {
      assert BlockTile(img, bank, px, py, x, y).None?;
      return false;
    }
    Paste(canvas, tile.value, x, y, px, py);
    forall i, j | x <= i < x + px && y <= j < y + py
      ensures BlockTile(img, bank, px, py, i, j) == tile
      ensures i % px == i - x && j % py == j - y
    {
      InBlock(i, cx, px);
      InBlock(j, cy, py);
    }
    found := true;
  }

  /** The inner loop of `rellena_imagen_recursiva_gris` for the column of
      blocks at x: for y in range(0, height, py), crop, average, select,
      paste, count. Stops at the first block without a tile. */
  method FillColumn(img: array2<Byte>, px: nat, py: nat, bank: seq<Level>,
                    canvas: array2<Cell<GrayTile>>, x: nat, ghost cx: nat, processed: nat)
    returns (missing: bool, processed': nat, ghost col: seq<Origin>)
    requires px > 0 && py > 0 && x == cx * px && x < img.Length0
    requires canvas.Length0 == img.Length0 && canvas.Length1 == img.Length1
    modifies canvas
    ensures missing ==> exists j :: 0 <= j < img.Length1 && BlockTile(img, bank, px, py, x, j).None?
    ensures !missing ==> processed' == processed + CeilDiv(img.Length1, py)
    ensures !missing ==> col == Column(cx, CeilDiv(img.Length1, py), px, py)
    ensures !missing ==> forall i, j :: 0 <= i < canvas.Length0 && 0 <= j < canvas.Length1 ==>
      canvas[i, j] == if x <= i < x + px then ExpectedCell(img, bank, px, py, i, j) else old(canvas[i, j])
    ensures !missing ==> forall i, j :: 0 <= i < canvas.Length0 && 0 <= j < canvas.Length1 && x <= i < x + px ==>
      BlockTile(img, bank, px, py, i, j).Some?
  {
    var y := 0;
    ghost var cy: nat := 0;
    ghost var ny := CeilDiv(img.Length1, py);
    processed' := processed;
    col := [];
    while y < img.Length1
      invariant y == cy * py && cy <= ny
      invariant processed' == processed + cy
      invariant col == Column(cx, ny, px, py)[..cy]
      invariant forall i, j :: 0 <= i < canvas.Length0 && 0 <= j < canvas.Length1 ==>
        canvas[i, j] == if x <= i < x + px && j < y then ExpectedCell(img, bank, px, py, i, j) else old(canvas[i, j])
      invariant forall i, j :: 0 <= i < canvas.Length0 && 0 <= j < canvas.Length1 && x <= i < x + px && j < y ==>
        BlockTile(img, bank, px, py, i, j).Some?
    {
      CeilDivSteps(img.Length1, py, cy);
      var found := PasteBlock(img, px, py, bank, canvas, x, y, cx, cy);
      if !found {
        return true, processed', col;
      }
      processed' := processed' + 1;
      col := col + [(x, y)];
      y := y + py;
      cy := cy + 1;
    }
    CeilDivSteps(img.Length1, py, cy);
    missing := false;
  }

  /** `rellena_imagen_recursiva_gris`: a fresh black canvas of the image's
      size, blocks visited column by column, one tile pasted per block,
      one count per block. A zero block size divides by zero when the
      block totals are computed; a block without a tile aborts the pass. */
  method Compose(img: array2<Byte>, px: nat, py: nat, bank: seq<Level>)
    returns (r: Result<Mosaic<GrayTile>, Error>, ghost visited: seq<Origin>)
    ensures r == Err(DivisionByZero) <==> px == 0 || py == 0
    ensures r.Err? ==> r.error == DivisionByZero || r.error == MissingTile
    ensures r == Err(MissingTile) ==>
      && px > 0 && py > 0
      && exists i, j :: 0 <= i < img.Length0 && 0 <= j < img.Length1 && BlockTile(img, bank, px, py, i, j).None?
    ensures r.Ok? ==>
      && px > 0 && py > 0 && fresh(r.value.canvas)
      && r.value.canvas.Length0 == img.Length0 && r.value.canvas.Length1 == img.Length1
      && (forall i, j :: 0 <= i < img.Length0 && 0 <= j < img.Length1 ==>
            BlockTile(img, bank, px, py, i, j).Some? && r.value.canvas[i, j] == ExpectedCell(img, bank, px, py, i, j))
      && visited == Walk(img.Length0, img.Length1, px, py)
      && r.value.processed == |visited| == CeilDiv(img.Length0, px) * CeilDiv(img.Length1, py)
  {
    visited := [];
    if px == 0 || py == 0 {
      return Err(DivisionByZero), visited;
    }
    var canvas := new Cell<GrayTile>[img.Length0, img.Length1]((i, j) => Blank);
    var processed := 0;
    var x := 0;
    ghost var cx: nat := 0;
    ghost var nx, ny := CeilDiv(img.Length0, px), CeilDiv(img.Length1, py);
    while x < img.Length0
      invariant x == cx * px && cx <= nx
      invariant visited == GridOrder(cx, ny, px, py) && processed == |visited|
      invariant forall i, j :: 0 <= i < canvas.Length0 && 0 <= j < canvas.Length1 ==>
        canvas[i, j] == if i < x then ExpectedCell(img, bank, px, py, i, j) else Blank
      invariant forall i, j :: 0 <= i < canvas.Length0 && 0 <= j < canvas.Length1 && i < x ==>
        BlockTile(img, bank, px, py, i, j).Some?
    {
      CeilDivSteps(img.Length0, px, cx);
      var missing;
      ghost var col;
      missing, processed, col := FillColumn(img, px, py, bank, canvas, x, cx, processed);
      if missing {
        return Err(MissingTile), visited;
      }
      visited := visited + col;
      x := x + px;
      cx := cx + 1;
    }
    CeilDivSteps(img.Length0, px, cx);
    r := Ok(Mosaic(canvas, processed));
  }
  /** Every block finds a tile in a bank built by `tonos_de_gris`: a block
      mean is a luminance in [0, 255] and the last threshold is 255. */
  lemma BankNeverMisses(img: array2<Byte>, n: nat, px: nat, py: nat, i: nat, j: nat)
    requires n >= 2 && px > 0 && py > 0
    ensures BlockTile(img, Bank(n), px, py, i, j).Some?
  {
    SelectFromBankIsTotal(n, WindowMean(img, BlockStart(i, px), BlockStart(j, py), px, py));
  }

  /** `crea_imagen_recursiva_gris` up to saving the result. The grayscale
      conversion and the pixels of both resizes belong to the imaging
      library: the enlarged image is given, with the size that
      `escalar(imagen, measure)` yields. In source order: the seed is
      `escalar(imagen, f)`, the bank has n levels, blocks are
      `int(width * f)` by `int(height * f)`, then the enlarged image is
      made and filled. */
  method CreateRecursiveGray(original: Size, enlarged: array2<Byte>, measure: Factor, n: int, f: Factor)
    returns (r: Result<Mosaic<GrayTile>, Error>)
    requires measure.Valid() && f.Valid()
    requires Escalar(original, measure).Ok? ==> Escalar(original, measure).value == Size(enlarged.Length0, enlarged.Length1)
    ensures r == Err(DivisionByZero) <==>
      || original.width == 0
      || (&& Escalar(original, f).Ok?
          && (|| n == 1
              || (&& Escalar(original, measure).Ok?
                  && (BlockSize(original, f).width == 0 || BlockSize(original, f).height == 0))))
    ensures r == Err(InvalidSize) <==>
      || Escalar(original, f) == Err(InvalidSize)
      || (Escalar(original, f).Ok? && n != 1 && Escalar(original, measure) == Err(InvalidSize))
    ensures r == Err(MissingTile) ==> n <= 0
    ensures (&& n <= 0 && Escalar(original, f).Ok? && Escalar(original, measure).Ok?
             && BlockSize(original, f).width > 0 && BlockSize(original, f).height > 0) ==> r == Err(MissingTile)
    ensures n >= 2 && r.Ok? ==>
      var px, py := BlockSize(original, f).width, BlockSize(original, f).height;
      && px > 0 && py > 0
      && r.value.canvas.Length0 == enlarged.Length0 && r.value.canvas.Length1 == enlarged.Length1
      && (forall i, j :: 0 <= i < enlarged.Length0 && 0 <= j < enlarged.Length1 ==>
            r.value.canvas[i, j] == ExpectedCell(enlarged, Bank(n), px, py, i, j))
      && r.value.processed == CeilDiv(enlarged.Length0, px) * CeilDiv(enlarged.Length1, py)
  {
    var seed := Escalar(original, f);
    if seed.Err? {
      return Err(seed.error);
    }
    var bank := BrightnessBank(n);
    if bank.Err? {
      return Err(bank.error);
    }
    var blocks := BlockSize(original, f);
    var big := Escalar(original, measure);
    if big.Err? {
      return Err(big.error);
    }
    ghost var visited;
    r, visited := Compose(enlarged, blocks.width, blocks.height, bank.value);
    if n >= 2 && blocks.width > 0 && blocks.height > 0 {
      forall i, j | 0 <= i < enlarged.Length0 && 0 <= j < enlarged.Length1
        ensures BlockTile(enlarged, bank.value, blocks.width, blocks.height, i, j).Some?
      {
        BankNeverMisses(enlarged, n, blocks.width, blocks.height, i, j);
      }
    }
    if n <= 0 && blocks.width > 0 && blocks.height > 0 {
      EmptyBankMisses(original, enlarged, measure, f, blocks);
    }
  }

  /** With no levels every block misses, and a canvas with rows and columns
      has a first block: blocks of at least one pixel mean the original has
      rows, so the enlarged image is not empty. */
  lemma EmptyBankMisses(original: Size, enlarged: array2<Byte>, measure: Factor, f: Factor, blocks: Size)
    requires measure.Valid() && f.Valid() && blocks == BlockSize(original, f)
    requires Escalar(original, measure).Ok? && Escalar(original, measure).value == Size(enlarged.Length0, enlarged.Length1)
    requires blocks.width > 0 && blocks.height > 0
    ensures enlarged.Length0 > 0 && enlarged.Length1 > 0
    ensures BlockTile(enlarged, [], blocks.width, blocks.height, 0, 0).None?
  {
  }
}
