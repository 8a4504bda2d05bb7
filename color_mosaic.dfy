/** The colour variant (imagen_recursiva_color.py): the per-channel mean of
    a block, and the composer that keeps a lazily filled table of tone
    tiles keyed by a block's mean colour and pastes the tile of every
    block of the enlarged image into a fresh canvas. */
module ColorMosaic {
  import opened Common
  import opened Grid
  import opened Scaling

  // ---------------------------------------------------------------------
  // Blocks and their mean colour

  /** An 'RGB' pixel; a mean colour is one as well. */
  datatype RGB = RGB(r: Byte, g: Byte, b: Byte)

  datatype Channel = Red | Green | Blue

  function Chan(p: RGB, c: Channel): Byte {
    match c
    case Red => p.r
    case Green => p.g
    case Blue => p.b
  }

  /** Pixel (dx, dy) of the window of `img` at (x0, y0), as `crop` yields
      it: black outside the image. */
  function WindowPixel(img: array2<RGB>, x0: nat, y0: nat, dx: nat, dy: nat): RGB
    reads img
  {
    if x0 + dx < img.Length0 && y0 + dy < img.Length1 then img[x0 + dx, y0 + dy] else RGB(0, 0, 0)
  }

  /** Sum of channel c over the first h pixels of column dx of the window. */
  ghost function ColumnSum(img: array2<RGB>, c: Channel, x0: nat, y0: nat, dx: nat, h: nat): int
    reads img
  {
    if h == 0 then 0 else ColumnSum(img, c, x0, y0, dx, h - 1) + Chan(WindowPixel(img, x0, y0, dx, h - 1), c)
  }

  /** Sum of channel c over the first w columns, each h high, of the window. */
  ghost function WindowSum(img: array2<RGB>, c: Channel, x0: nat, y0: nat, w: nat, h: nat): int
    reads img
  {
    if w == 0 then 0 else WindowSum(img, c, x0, y0, w - 1, h) + ColumnSum(img, c, x0, y0, w - 1, h)
  }

  /** Channel c of every pixel of the w x h window lies in [lo, hi]. */
  ghost predicate ChannelWithin(img: array2<RGB>, c: Channel, x0: nat, y0: nat, w: nat, h: nat, lo: int, hi: int)
    reads img
  {
    forall dx, dy :: 0 <= dx < w && 0 <= dy < h ==> lo <= Chan(WindowPixel(img, x0, y0, dx, dy), c) <= hi
  }

  lemma {:induction false} ColumnSumWithin(img: array2<RGB>, c: Channel, x0: nat, y0: nat, dx: nat, h: nat, lo: int, hi: int)
    requires ChannelWithin(img, c, x0, y0, dx + 1, h, lo, hi)
    ensures lo * h <= ColumnSum(img, c, x0, y0, dx, h) <= hi * h
  {
    if h > 0 {
      ColumnSumWithin(img, c, x0, y0, dx, h - 1, lo, hi);
      assert lo <= Chan(WindowPixel(img, x0, y0, dx, h - 1), c) <= hi;
      assert lo * h == lo * (h - 1) + lo;
      assert hi * h == hi * (h - 1) + hi;
    }
  }

  lemma {:induction false} WindowSumWithin(img: array2<RGB>, c: Channel, x0: nat, y0: nat, w: nat, h: nat, lo: int, hi: int)
    requires ChannelWithin(img, c, x0, y0, w, h, lo, hi)
    ensures lo * (w * h) <= WindowSum(img, c, x0, y0, w, h) <= hi * (w * h)
  {
    if w > 0 {
      WindowSumWithin(img, c, x0, y0, w - 1, h, lo, hi);
      ColumnSumWithin(img, c, x0, y0, w - 1, h, lo, hi);
      PeelColumn(lo, w, h);
      PeelColumn(hi, w, h);
    }
  }

  /** `int(suma / total)` for one channel over the w x h window. */
  ghost function ChannelMean(img: array2<RGB>, c: Channel, x0: nat, y0: nat, w: nat, h: nat): Byte
    requires w > 0 && h > 0
    reads img
  {
    WindowSumWithin(img, c, x0, y0, w, h, 0, 255);
    QuotientWithin(WindowSum(img, c, x0, y0, w, h), w * h, 0, 255);
    WindowSum(img, c, x0, y0, w, h) / (w * h)
  }

  /** The mean colour of the window, channel by channel. */
  ghost function WindowMean(img: array2<RGB>, x0: nat, y0: nat, w: nat, h: nat): (m: RGB)
    requires w > 0 && h > 0
    reads img
    ensures forall c :: Chan(m, c) * (w * h) <= WindowSum(img, c, x0, y0, w, h) < (Chan(m, c) + 1) * (w * h)
  {
    FloorBounds(WindowSum(img, Red, x0, y0, w, h), w * h);
    FloorBounds(WindowSum(img, Green, x0, y0, w, h), w * h);
    FloorBounds(WindowSum(img, Blue, x0, y0, w, h), w * h);
    RGB(ChannelMean(img, Red, x0, y0, w, h), ChannelMean(img, Green, x0, y0, w, h), ChannelMean(img, Blue, x0, y0, w, h))
  }

  /** Each channel of the mean lies within the range of that channel over
      the block's pixels. */
  lemma MeanWithinChannelRange(img: array2<RGB>, c: Channel, x0: nat, y0: nat, w: nat, h: nat, lo: int, hi: int)
    requires w > 0 && h > 0 && ChannelWithin(img, c, x0, y0, w, h, lo, hi)
    ensures lo <= Chan(WindowMean(img, x0, y0, w, h), c) <= hi
  {
    WindowSumWithin(img, c, x0, y0, w, h, lo, hi);
    QuotientWithin(WindowSum(img, c, x0, y0, w, h), w * h, lo, hi);
  }

  /** A block of one colour has that colour as its mean. */
  lemma MeanOfUniformBlock(img: array2<RGB>, x0: nat, y0: nat, w: nat, h: nat, v: RGB)
    requires w > 0 && h > 0
    requires forall dx, dy :: 0 <= dx < w && 0 <= dy < h ==> WindowPixel(img, x0, y0, dx, dy) == v
    ensures WindowMean(img, x0, y0, w, h) == v
  {
    MeanWithinChannelRange(img, Red, x0, y0, w, h, v.r, v.r);
    MeanWithinChannelRange(img, Green, x0, y0, w, h, v.g, v.g);
    MeanWithinChannelRange(img, Blue, x0, y0, w, h, v.b, v.b);
  }

  /** `b` holds the window of `img` at (x0, y0) that has b's own size. */
  ghost predicate IsCrop(b: array2<RGB>, img: array2<RGB>, x0: nat, y0: nat)
    reads b, img
  {
    forall dx, dy :: 0 <= dx < b.Length0 && 0 <= dy < b.Length1 ==> b[dx, dy] == WindowPixel(img, x0, y0, dx, dy)
  }

  /** `imagen_aumentada.crop(area)`: a new w x h image holding the window. */
  method Crop(img: array2<RGB>, x0: nat, y0: nat, w: nat, h: nat) returns (b: array2<RGB>)
    ensures fresh(b) && b.Length0 == w && b.Length1 == h
    ensures IsCrop(b, img, x0, y0)
  {
    b := new RGB[w, h]((dx, dy) => RGB(0, 0, 0));
    forall dx, dy | 0 <= dx < w && 0 <= dy < h {
      b[dx, dy] := WindowPixel(img, x0, y0, dx, dy);
    }
  }

  lemma {:induction false} ColumnSumOfCrop(b: array2<RGB>, img: array2<RGB>, c: Channel, x0: nat, y0: nat, dx: nat, h: nat)
    requires IsCrop(b, img, x0, y0) && dx < b.Length0 && h <= b.Length1
    ensures ColumnSum(b, c, 0, 0, dx, h) == ColumnSum(img, c, x0, y0, dx, h)
  {
    if h > 0 {
      ColumnSumOfCrop(b, img, c, x0, y0, dx, h - 1);
    }
  }

  /** A crop has the same channel sums as the window it was cut from. */
  lemma {:induction false} WindowSumOfCrop(b: array2<RGB>, img: array2<RGB>, c: Channel, x0: nat, y0: nat, w: nat)
    requires IsCrop(b, img, x0, y0) && w <= b.Length0
    ensures WindowSum(b, c, 0, 0, w, b.Length1) == WindowSum(img, c, x0, y0, w, b.Length1)
  {
    if w > 0 {
      WindowSumOfCrop(b, img, c, x0, y0, w - 1);
      ColumnSumOfCrop(b, img, c, x0, y0, w - 1, b.Length1);
    }
  }

  /** `color_promedio_sebas`: sums each channel over every pixel, column by
      column, and truncates each sum divided by width * height; an empty
      image divides by zero. */
  method ColorMean(img: array2<RGB>) returns (res: Result<RGB, Error>)
    ensures res.Err? <==> img.Length0 == 0 || img.Length1 == 0
    ensures res.Err? ==> res.error == DivisionByZero
    ensures res.Ok? ==> img.Length0 > 0 && img.Length1 > 0 && res.value == WindowMean(img, 0, 0, img.Length0, img.Length1)
  {
    var sumR, sumG, sumB := 0, 0, 0;
    var width, height := img.Length0, img.Length1;
    var total := width * height;
    var x := 0;
    while x < width
      invariant 0 <= x <= width
      invariant sumR == WindowSum(img, Red, 0, 0, x, height)
      invariant sumG == WindowSum(img, Green, 0, 0, x, height)
      invariant sumB == WindowSum(img, Blue, 0, 0, x, height)
    {
      var y := 0;
      while y < height
        invariant 0 <= y <= height
        invariant sumR == WindowSum(img, Red, 0, 0, x, height) + ColumnSum(img, Red, 0, 0, x, y)
        invariant sumG == WindowSum(img, Green, 0, 0, x, height) + ColumnSum(img, Green, 0, 0, x, y)
        invariant sumB == WindowSum(img, Blue, 0, 0, x, height) + ColumnSum(img, Blue, 0, 0, x, y)
      {
        var pixel := img[x, y];
        sumR := sumR + pixel.r;
        sumG := sumG + pixel.g;
        sumB := sumB + pixel.b;
        y := y + 1;
      }
      x := x + 1;
    }
    if total == 0 {
      return Err(DivisionByZero);
    }
    MeanOfSums(img, sumR, sumG, sumB, total);
    res := Ok(RGB(sumR / total, sumG / total, sumB / total));
  }

  /** Channel sums over the whole image, divided by its pixel count, are
      bytes and make up the mean colour. */
  lemma MeanOfSums(img: array2<RGB>, sumR: int, sumG: int, sumB: int, total: int)
    requires img.Length0 > 0 && img.Length1 > 0 && total == img.Length0 * img.Length1
    requires sumR == WindowSum(img, Red, 0, 0, img.Length0, img.Length1)
    requires sumG == WindowSum(img, Green, 0, 0, img.Length0, img.Length1)
    requires sumB == WindowSum(img, Blue, 0, 0, img.Length0, img.Length1)
    ensures 0 <= sumR / total < 256 && 0 <= sumG / total < 256 && 0 <= sumB / total < 256
    ensures RGB(sumR / total, sumG / total, sumB / total) == WindowMean(img, 0, 0, img.Length0, img.Length1)
  {
    WindowSumWithin(img, Red, 0, 0, img.Length0, img.Length1, 0, 255);
    WindowSumWithin(img, Green, 0, 0, img.Length0, img.Length1, 0, 255);
    WindowSumWithin(img, Blue, 0, 0, img.Length0, img.Length1, 0, 255);
    QuotientWithin(sumR, total, 0, 255);
    QuotientWithin(sumG, total, 0, 255);
    QuotientWithin(sumB, total, 0, 255);
  }

  // ---------------------------------------------------------------------
  // The tone table and the composer

  /** The tile built for a tone: the seed blended 50/50 with a solid image
      of that tone (`Image.blend(imagen_reducida, mica, 0.5)`). The pixels
      come from the imaging library and are not modelled; `serial` tells
      tiles apart the way object identity does: it is the number of tiles
      in the table when this one was built. */
  datatype ToneTile = Tinted(tone: RGB, serial: nat)

  /** The shape of the table `tonos`: every entry is the tile of its own
      key, and the entries carry distinct serials, one per tile built. */
  ghost predicate ToneTableValid(tones: map<RGB, ToneTile>) {
    && (forall k :: k in tones ==> tones[k].tone == k && tones[k].serial < |tones|)
    && (forall k1, k2 :: k1 in tones && k2 in tones && tones[k1].serial == tones[k2].serial ==> k1 == k2)
  }

  /** Every entry of `small` is in `big`, with the same tile. */
  ghost predicate Extends(big: map<RGB, ToneTile>, small: map<RGB, ToneTile>) {
    forall k :: k in small ==> k in big && big[k] == small[k]
  }

  /** The table after meeting a block of tone t: a tile is built and stored
      only when t is not yet a key. */
  function Insert(tones: map<RGB, ToneTile>, t: RGB): map<RGB, ToneTile> {
    if t in tones then tones else tones[t := Tinted(t, |tones|)]
  }

  /** Meeting a tone makes it a key, keeps every entry already present and
      grows the table by at most one tile, the one built for that tone. */
  lemma InsertExtends(tones: map<RGB, ToneTile>, t: RGB)
    ensures Insert(tones, t).Keys == tones.Keys + {t}
    ensures Extends(Insert(tones, t), tones)
    ensures t !in tones ==> Insert(tones, t)[t] == Tinted(t, |tones|)
    ensures |Insert(tones, t)| == if t in tones then |tones| else |tones| + 1
  {
  }

  /** A new tile gets the next serial, so the table keeps its shape. */
  lemma InsertKeepsShape(tones: map<RGB, ToneTile>, t: RGB)
    requires ToneTableValid(tones)
    ensures ToneTableValid(Insert(tones, t))
  {
    InsertExtends(tones, t);
  }

  /** The table after the blocks at `origins`, met in order, starting from
      `tones`: the reference meaning of the cache. */
  ghost function TableAfter(img: array2<RGB>, sw: nat, sh: nat, tones: map<RGB, ToneTile>, origins: seq<Origin>): (r: map<RGB, ToneTile>)
    requires sw > 0 && sh > 0
    reads img
    ensures |r| <= |tones| + |origins|
    decreases |origins|
  {
    if origins == [] then tones
    else TableAfter(img, sw, sh, Insert(tones, WindowMean(img, origins[0].0, origins[0].1, sw, sh)), origins[1..])
  }

  /** Meeting two stretches of blocks is meeting the first, then the second. */
  lemma {:induction false} TableAfterAppend(img: array2<RGB>, sw: nat, sh: nat, tones: map<RGB, ToneTile>, a: seq<Origin>, b: seq<Origin>)
    requires sw > 0 && sh > 0
    ensures TableAfter(img, sw, sh, tones, a + b) == TableAfter(img, sw, sh, TableAfter(img, sw, sh, tones, a), b)
    decreases |a|
  {
    if a == [] {
      assert a + b == b;
    } else {
      assert (a + b)[0] == a[0];
      assert (a + b)[1..] == a[1..] + b;
      TableAfterAppend(img, sw, sh, Insert(tones, WindowMean(img, a[0].0, a[0].1, sw, sh)), a[1..], b);
    }
  }

  /** Meeting one more block is one `Insert`. */
  lemma TableAfterSnoc(img: array2<RGB>, sw: nat, sh: nat, tones: map<RGB, ToneTile>, a: seq<Origin>, o: Origin)
    requires sw > 0 && sh > 0
    ensures TableAfter(img, sw, sh, tones, a + [o]) == Insert(TableAfter(img, sw, sh, tones, a), WindowMean(img, o.0, o.1, sw, sh))
  {
    TableAfterAppend(img, sw, sh, tones, a, [o]);
    assert [o][1..] == [];
  }

  /** The tones of a sequence of visited blocks, as a set. */
  ghost function SeenTones(img: array2<RGB>, sw: nat, sh: nat, origins: seq<Origin>): set<RGB>
    requires sw > 0 && sh > 0
    reads img
  {
    set k | 0 <= k < |origins| :: WindowMean(img, origins[k].0, origins[k].1, sw, sh)
  }

  /** A nonempty walk is its first block followed by the rest. */
  lemma SeenTonesCons(img: array2<RGB>, sw: nat, sh: nat, origins: seq<Origin>)
    requires sw > 0 && sh > 0 && origins != []
    ensures SeenTones(img, sw, sh, origins) ==
      {WindowMean(img, origins[0].0, origins[0].1, sw, sh)} + SeenTones(img, sw, sh, origins[1..])
  {
    var rest := origins[1..];
    forall k | 0 <= k < |rest|
      ensures rest[k] == origins[k + 1]
    {
    }
    forall t | t in SeenTones(img, sw, sh, origins)
      ensures t in {WindowMean(img, origins[0].0, origins[0].1, sw, sh)} + SeenTones(img, sw, sh, rest)
    {
      var k :| 0 <= k < |origins| && t == WindowMean(img, origins[k].0, origins[k].1, sw, sh);
      if k > 0 {
        assert origins[k] == rest[k - 1];
      }
    }
  }

  /** The table holds a tile for exactly the tones met. */
  lemma {:induction false} TableAfterKeys(img: array2<RGB>, sw: nat, sh: nat, tones: map<RGB, ToneTile>, origins: seq<Origin>)
    requires sw > 0 && sh > 0
    ensures TableAfter(img, sw, sh, tones, origins).Keys == tones.Keys + SeenTones(img, sw, sh, origins)
    decreases |origins|
  {
    if origins != [] {
      var t := WindowMean(img, origins[0].0, origins[0].1, sw, sh);
      InsertExtends(tones, t);
      TableAfterKeys(img, sw, sh, Insert(tones, t), origins[1..]);
      SeenTonesCons(img, sw, sh, origins);
    }
  }

  /** A tile, once in the table, is never replaced. */
  lemma {:induction false} TableAfterExtends(img: array2<RGB>, sw: nat, sh: nat, tones: map<RGB, ToneTile>, origins: seq<Origin>)
    requires sw > 0 && sh > 0
    ensures Extends(TableAfter(img, sw, sh, tones, origins), tones)
    decreases |origins|
  {
    if origins != [] {
      var t := WindowMean(img, origins[0].0, origins[0].1, sw, sh);
      InsertExtends(tones, t);
      TableAfterExtends(img, sw, sh, Insert(tones, t), origins[1..]);
    }
  }

  /** The table keeps its shape: one tile per key, for that key's tone,
      each with its own serial. */
  lemma {:induction false} TableAfterKeepsShape(img: array2<RGB>, sw: nat, sh: nat, tones: map<RGB, ToneTile>, origins: seq<Origin>)
    requires sw > 0 && sh > 0 && ToneTableValid(tones)
    ensures ToneTableValid(TableAfter(img, sw, sh, tones, origins))
    decreases |origins|
  {
    if origins != [] {
      var t := WindowMean(img, origins[0].0, origins[0].1, sw, sh);
      InsertKeepsShape(tones, t);
      TableAfterKeepsShape(img, sw, sh, Insert(tones, t), origins[1..]);
    }
  }

  /** The mean colour of the block that holds pixel (i, j). */
  ghost function BlockTone(img: array2<RGB>, sw: nat, sh: nat, i: nat, j: nat): RGB
    requires sw > 0 && sh > 0
    reads img
  {
    WindowMean(img, BlockStart(i, sw), BlockStart(j, sh), sw, sh)
  }

  /** The cell that pixel (i, j) receives from the table: the pixel of its
      block's tile at the pixel's offset within the block. */
  ghost function ToneCell(img: array2<RGB>, sw: nat, sh: nat, tones: map<RGB, ToneTile>, i: nat, j: nat): Cell<ToneTile>
    requires sw > 0 && sh > 0
    reads img
  {
    var t := BlockTone(img, sw, sh, i, j);
    if t in tones then Sample(tones[t], i % sw, j % sh) else Blank
  }

  /** Cell c is what pixel (i, j) should hold: the table's tile for the
      tone of its block, at the pixel's offset within the block. */
  ghost predicate Painted(img: array2<RGB>, sw: nat, sh: nat, tones: map<RGB, ToneTile>, i: nat, j: nat, c: Cell<ToneTile>)
    requires sw > 0 && sh > 0
    reads img
  {
    BlockTone(img, sw, sh, i, j) in tones && c == ToneCell(img, sw, sh, tones, i, j)
  }

  /** Growing the table never changes the cell a pixel should hold once its
      tone is a key: entries are only ever added, never replaced. */
  lemma PaintedStable(img: array2<RGB>, sw: nat, sh: nat, small: map<RGB, ToneTile>, big: map<RGB, ToneTile>)
    requires sw > 0 && sh > 0 && Extends(big, small)
    ensures forall i: nat, j: nat, c :: Painted(img, sw, sh, small, i, j, c) ==> Painted(img, sw, sh, big, i, j, c)
  {
  }

  /** The final canvas, the final `bloques_procesados` and the table `tonos`. */
  datatype ColorMosaic = ColorMosaic(canvas: array2<Cell<ToneTile>>, processed: nat, tones: map<RGB, ToneTile>)

  /** The body of the inner loop for the block at (x, y): crop, mean colour,
      build and store a tile only when the tone is not yet a key, then
      paste the table's tile for that tone. */
  method PasteToneBlock(img: array2<RGB>, sw: nat, sh: nat, canvas: array2<Cell<ToneTile>>,
                        tones: map<RGB, ToneTile>, x: nat, y: nat, ghost cx: nat, ghost cy: nat)
    returns (tones': map<RGB, ToneTile>)
    requires sw > 0 && sh > 0 && x == cx * sw && y == cy * sh
    requires canvas.Length0 == img.Length0 && canvas.Length1 == img.Length1
    modifies canvas
    ensures tones' == Insert(tones, WindowMean(img, x, y, sw, sh))
    ensures forall i, j :: 0 <= i < canvas.Length0 && 0 <= j < canvas.Length1 ==>
      canvas[i, j] == if Covers((x, y), sw, sh, i, j) then ToneCell(img, sw, sh, tones', i, j) else old(canvas[i, j])
    ensures forall i, j :: 0 <= i < canvas.Length0 && 0 <= j < canvas.Length1 && Covers((x, y), sw, sh, i, j) ==>
      BlockTone(img, sw, sh, i, j) in tones'
  {
    var block := Crop(img, x, y, sw, sh);
    var mean := ColorMean(block);
    WindowSumOfCrop(block, img, Red, x, y, sw);
    WindowSumOfCrop(block, img, Green, x, y, sw);
    WindowSumOfCrop(block, img, Blue, x, y, sw);
    var tone := mean.value;
    assert tone == WindowMean(img, x, y, sw, sh);
    tones' := tones;
    if tone !in tones' {
      tones' := tones'[tone := Tinted(tone, |tones'|)];
    }
    var tile := tones'[tone];
    Paste(canvas, tile, x, y, sw, sh);
    InBlock(x, cx, sw);
    InBlock(y, cy, sh);
    forall i, j | x <= i < x + sw && y <= j < y + sh
      ensures BlockTone(img, sw, sh, i, j) == tone
      ensures i % sw == i - x && j % sh == j - y
    {
      InBlock(i, cx, sw);
      InBlock(j, cy, sh);
    }
  }

  /** One step of the inner loop over column x: the block at (x, y) is
      pasted, the columns to its left and the part of its own column above
      it stay painted, and the rest of the canvas is untouched. */
  method ToneStep(img: array2<RGB>, sw: nat, sh: nat, canvas: array2<Cell<ToneTile>>,
                  tones: map<RGB, ToneTile>, x: nat, y: nat, ghost cx: nat, ghost cy: nat)
    returns (tones': map<RGB, ToneTile>)
    requires sw > 0 && sh > 0 && x == cx * sw && y == cy * sh
    requires canvas.Length0 == img.Length0 && canvas.Length1 == img.Length1
    requires forall i, j :: 0 <= i < canvas.Length0 && 0 <= j < canvas.Length1 && (i < x || (i < x + sw && j < y)) ==>
      Painted(img, sw, sh, tones, i, j, canvas[i, j])
    modifies canvas
    ensures tones' == Insert(tones, WindowMean(img, x, y, sw, sh))
    ensures forall i, j :: 0 <= i < canvas.Length0 && 0 <= j < canvas.Length1 && (i < x || (i < x + sw && j < y + sh)) ==>
      Painted(img, sw, sh, tones', i, j, canvas[i, j])
    ensures forall i, j :: 0 <= i < canvas.Length0 && 0 <= j < canvas.Length1 && !Covers((x, y), sw, sh, i, j) ==>
      canvas[i, j] == old(canvas[i, j])
  {
    tones' := PasteToneBlock(img, sw, sh, canvas, tones, x, y, cx, cy);
    InsertExtends(tones, WindowMean(img, x, y, sw, sh));
    PaintedStable(img, sw, sh, tones, tones');
  }

  /** One pass of the inner loop over column x: the blocks of the column
      are met top to bottom, each pixel of the column receives its block's
      tile, and the columns to the left stay painted. */
  method FillToneColumn(img: array2<RGB>, sw: nat, sh: nat, canvas: array2<Cell<ToneTile>>,
                        tones: map<RGB, ToneTile>, processed: nat, x: nat, ghost cx: nat)
    returns (tones': map<RGB, ToneTile>, processed': nat, ghost col: seq<Origin>)
    requires sw > 0 && sh > 0 && x == cx * sw
    requires canvas.Length0 == img.Length0 && canvas.Length1 == img.Length1
    requires forall i, j :: 0 <= i < canvas.Length0 && 0 <= j < canvas.Length1 && i < x ==>
      Painted(img, sw, sh, tones, i, j, canvas[i, j])
    modifies canvas
    ensures col == Column(cx, CeilDiv(img.Length1, sh), sw, sh)
    ensures processed' == processed + CeilDiv(img.Length1, sh)
    ensures tones' == TableAfter(img, sw, sh, tones, col)
    ensures forall i, j :: 0 <= i < canvas.Length0 && 0 <= j < canvas.Length1 && i < x + sw ==>
      Painted(img, sw, sh, tones', i, j, canvas[i, j])
    ensures forall i, j :: 0 <= i < canvas.Length0 && 0 <= j < canvas.Length1 && x + sw <= i ==>
      canvas[i, j] == old(canvas[i, j])
  {
    var y := 0;
    ghost var cy: nat := 0;
    ghost var ny := CeilDiv(img.Length1, sh);
    tones', processed' := tones, processed;
    col := [];
    while y < img.Length1
      invariant y == cy * sh && cy <= ny
      invariant processed' == processed + cy
      invariant col == Column(cx, ny, sw, sh)[..cy]
      invariant tones' == TableAfter(img, sw, sh, tones, col)
      invariant forall i, j :: 0 <= i < canvas.Length0 && 0 <= j < canvas.Length1 && (i < x || (i < x + sw && j < y)) ==>
        Painted(img, sw, sh, tones', i, j, canvas[i, j])
      invariant forall i, j :: 0 <= i < canvas.Length0 && 0 <= j < canvas.Length1 && (x + sw <= i || (x <= i && y <= j)) ==>
        canvas[i, j] == old(canvas[i, j])
    {
      CeilDivSteps(img.Length1, sh, cy);
      tones' := ToneStep(img, sw, sh, canvas, tones', x, y, cx, cy);
      processed' := processed' + 1;
      TableAfterSnoc(img, sw, sh, tones, col, (x, y));
      ColumnPrefixSnoc(cx, ny, sw, sh, cy);
      col := col + [(x, y)];
      NextBlock(cy, sh);
      y := y + sh;
      cy := cy + 1;
    }
    CeilDivSteps(img.Length1, sh, cy);
  }

  /** One pass of the outer loop: column x of blocks is filled, the walk
      and the table advance by that column, and the canvas to its right is
      still black. */
  method ComposeStep(img: array2<RGB>, sw: nat, sh: nat, canvas: array2<Cell<ToneTile>>,
                     tones: map<RGB, ToneTile>, processed: nat, x: nat, ghost cx: nat, ghost visited: seq<Origin>)
    returns (tones': map<RGB, ToneTile>, processed': nat, ghost visited': seq<Origin>)
    requires sw > 0 && sh > 0 && x == cx * sw
    requires canvas.Length0 == img.Length0 && canvas.Length1 == img.Length1
    requires visited == GridOrder(cx, CeilDiv(img.Length1, sh), sw, sh) && processed == |visited|
    requires tones == TableAfter(img, sw, sh, map[], visited)
    requires forall i, j :: 0 <= i < canvas.Length0 && 0 <= j < canvas.Length1 && i < x ==>
      Painted(img, sw, sh, tones, i, j, canvas[i, j])
    requires forall i, j :: 0 <= i < canvas.Length0 && 0 <= j < canvas.Length1 && x <= i ==> canvas[i, j] == Blank
    modifies canvas
    ensures visited' == GridOrder(cx + 1, CeilDiv(img.Length1, sh), sw, sh) && processed' == |visited'|
    ensures tones' == TableAfter(img, sw, sh, map[], visited')
    ensures forall i, j :: 0 <= i < canvas.Length0 && 0 <= j < canvas.Length1 && i < x + sw ==>
      Painted(img, sw, sh, tones', i, j, canvas[i, j])
    ensures forall i, j :: 0 <= i < canvas.Length0 && 0 <= j < canvas.Length1 && x + sw <= i ==> canvas[i, j] == Blank
  {
    ghost var col;
    tones', processed', col := FillToneColumn(img, sw, sh, canvas, tones, processed, x, cx);
    TableAfterAppend(img, sw, sh, map[], visited, col);
    visited' := visited + col;
  }

  /** `crea_imagen_recursiva` from the fresh canvas on: blocks visited
      column by column, a tile built only for a tone not yet in `tonos`,
      the table's tile pasted on every block and one count per block. */
  method ComposeColor(img: array2<RGB>, sw: nat, sh: nat) returns (r: ColorMosaic, ghost visited: seq<Origin>)
    requires sw > 0 && sh > 0
    ensures fresh(r.canvas) && r.canvas.Length0 == img.Length0 && r.canvas.Length1 == img.Length1
    ensures visited == Walk(img.Length0, img.Length1, sw, sh)
    ensures r.processed == |visited| == CeilDiv(img.Length0, sw) * CeilDiv(img.Length1, sh)
    ensures r.tones == TableAfter(img, sw, sh, map[], visited)
    ensures forall i, j :: 0 <= i < img.Length0 && 0 <= j < img.Length1 ==>
      Painted(img, sw, sh, r.tones, i, j, r.canvas[i, j])
  {
    var canvas := new Cell<ToneTile>[img.Length0, img.Length1]((i, j) => Blank);
    var tones: map<RGB, ToneTile> := map[];
    var processed := 0;
    visited := [];
    var x := 0;
    ghost var cx: nat := 0;
    ghost var nx := CeilDiv(img.Length0, sw);
    while x < img.Length0
      invariant x == cx * sw && cx <= nx
      invariant visited == GridOrder(cx, CeilDiv(img.Length1, sh), sw, sh) && processed == |visited|
      invariant tones == TableAfter(img, sw, sh, map[], visited)
      invariant forall i, j :: 0 <= i < canvas.Length0 && 0 <= j < canvas.Length1 && i < x ==>
        Painted(img, sw, sh, tones, i, j, canvas[i, j])
      invariant forall i, j :: 0 <= i < canvas.Length0 && 0 <= j < canvas.Length1 && x <= i ==> canvas[i, j] == Blank
    {
      CeilDivSteps(img.Length0, sw, cx);
      tones, processed, visited := ComposeStep(img, sw, sh, canvas, tones, processed, x, cx, visited);
      NextBlock(cx, sw);
      x := x + sw;
      cx := cx + 1;
    }
    CeilDivSteps(img.Length0, sw, cx);
    r := ColorMosaic(canvas, processed, tones);
  }

  /** Two pixels get the same tile exactly when their blocks have the same
      mean colour: one tile per tone, shared by every block of that tone. */
  lemma TileSharedByTone(img: array2<RGB>, sw: nat, sh: nat, tones: map<RGB, ToneTile>,
                         i1: nat, j1: nat, c1: Cell<ToneTile>, i2: nat, j2: nat, c2: Cell<ToneTile>)
    requires sw > 0 && sh > 0 && ToneTableValid(tones)
    requires Painted(img, sw, sh, tones, i1, j1, c1) && Painted(img, sw, sh, tones, i2, j2, c2)
    ensures c1.Sample? && c2.Sample?
    ensures c1.tile == c2.tile <==> BlockTone(img, sw, sh, i1, j1) == BlockTone(img, sw, sh, i2, j2)
  {
  }

  /** What the walk leaves in the table: a tile for exactly the tones of
      the visited blocks, in the shape of ToneTableValid, and never more
      tiles than blocks. */
  lemma WalkTable(img: array2<RGB>, sw: nat, sh: nat)
    requires sw > 0 && sh > 0
    ensures var walk := Walk(img.Length0, img.Length1, sw, sh);
      var tones := TableAfter(img, sw, sh, map[], walk);
      && tones.Keys == SeenTones(img, sw, sh, walk)
      && ToneTableValid(tones)
      && |tones| <= |walk|
  {
    var walk := Walk(img.Length0, img.Length1, sw, sh);
    TableAfterKeys(img, sw, sh, map[], walk);
    TableAfterKeepsShape(img, sw, sh, map[], walk);
  }

  /** `crea_imagen_recursiva` up to saving the result. The pixels of both
      resizes belong to the imaging library: the enlarged image is given,
      with the size that `escalar(imagen, measure)` yields. In source
      order: the seed `escalar(imagen, f)`, whose size is the block size,
      then the enlarged image, then the block totals `ancho // sub_ancho`
      and `alto // sub_alto`, then the walk. */
  method CreateRecursiveColor(original: Size, enlarged: array2<RGB>, measure: Factor, f: Factor)
    returns (r: Result<ColorMosaic, Error>)
    requires measure.Valid() && f.Valid()
    requires Escalar(original, measure).Ok? ==> Escalar(original, measure).value == Size(enlarged.Length0, enlarged.Length1)
    ensures r == Err(DivisionByZero) <==>
      || original.width == 0
      || (&& Escalar(original, f).Ok? && Escalar(original, measure).Ok?
          && (Escalar(original, f).value.width == 0 || Escalar(original, f).value.height == 0))
    ensures r == Err(InvalidSize) <==>
      || Escalar(original, f) == Err(InvalidSize)
      || (Escalar(original, f).Ok? && Escalar(original, measure) == Err(InvalidSize))
    ensures r.Err? ==> r.error != MissingTile
    ensures r.Ok? ==>
      var sw, sh := Escalar(original, f).value.width, Escalar(original, f).value.height;
      var walk := Walk(enlarged.Length0, enlarged.Length1, sw, sh);
      && sw > 0 && sh > 0
      && r.value.canvas.Length0 == enlarged.Length0 && r.value.canvas.Length1 == enlarged.Length1
      && (forall i, j :: 0 <= i < enlarged.Length0 && 0 <= j < enlarged.Length1 ==>
            Painted(enlarged, sw, sh, r.value.tones, i, j, r.value.canvas[i, j]))
      && r.value.tones == TableAfter(enlarged, sw, sh, map[], walk)
      && r.value.tones.Keys == SeenTones(enlarged, sw, sh, walk)
      && ToneTableValid(r.value.tones)
      && |r.value.tones| <= r.value.processed == CeilDiv(enlarged.Length0, sw) * CeilDiv(enlarged.Length1, sh)
  {
    var seed := Escalar(original, f);
    if seed.Err? {
      return Err(seed.error);
    }
    var big := Escalar(original, measure);
    if big.Err? {
      return Err(big.error);
    }
    var sw, sh := seed.value.width, seed.value.height;
    if sw == 0 || sh == 0 {
      return Err(DivisionByZero);
    }
    var mosaic;
    ghost var visited;
    mosaic, visited := ComposeColor(enlarged, sw, sh);
    WalkTable(enlarged, sw, sh);
    r := Ok(mosaic);
  }
}
