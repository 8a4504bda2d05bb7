# Recursive mosaic images, modelled in Dafny

The program turns a picture into a "recursive" mosaic. It enlarges the
picture and cuts it into a grid of blocks. It shrinks a copy of the same
picture to make a seed, builds tiles from that seed, and pastes one tile per
block into a fresh canvas. It has two variants:

- **Grayscale** (`src/imagen_recursiva_gris.py`). `tonos_de_gris` builds an
  ordered bank of `(threshold, tile)` levels eagerly; level `i` of `n` has
  threshold `i * 255 / (n - 1)`. `promedio_gris` averages the luminance of a
  block. `get_imagen_gris` picks the first level whose threshold is at or
  above that average. `rellena_imagen_recursiva_gris` walks the blocks and
  pastes the selected tile into each one.
- **Colour** (`src/imagen_recursiva_color.py`). `color_promedio_sebas`
  averages each channel of a block. `crea_imagen_recursiva` walks the blocks
  and keeps a dictionary `tonos` from mean colours to tinted tiles. It builds
  a tile only on a miss and reuses it on every later hit.

`escalar` computes the requested size of a resized image in both files.

## How the model is built

- `common.dfy` (`Common`): the shared vocabulary.
  - `Result`/`Option` for the error paths; `Error` names the three failures
    the code runs into. `DivisionByZero` is a Python `ZeroDivisionError`.
    `MissingTile` is the `AttributeError` of calling `resize` on `None`.
    `InvalidSize` is the `ValueError` the imaging library raises when
    `resize` is asked for a zero width or height.
  - An 8-bit `Byte`, and `Size`.
  - Exact rational scale factors `Factor(num, den)`.
  - Canvas cells: `Cell` is `Blank`, the black pixel of `Image.new`, or
    `Sample(tile, dx, dy)`, pixel `(dx, dy)` of a tile resized to the block.
- `scaling.dfy` (`Scaling`): `escalar`'s size arithmetic, the size check
  of `resize`, and the grayscale block size, as functions.
- `grid.dfy` (`Grid`):
  - the block walk: column-outer x, row-inner y, as `range(0, H, py)`
    nested inside `range(0, W, px)`;
  - the partition of the canvas into blocks;
  - the clipped `paste`, as a method on an `array2` canvas.
- `gray_mosaic.dfy` (`GrayMosaic`) and `color_mosaic.dfy` (`ColorMosaic`):
  the imperative parts, as methods with loop invariants.
  - Images are `array2` indexed `[x, y]`, in `getpixel((x, y))` order.
  - `crop` yields a fresh array, black outside the source image.
  - The accumulators are nested `while` loops over an image.
  - The bank is a `seq` the loop appends to.
  - The `tonos` dictionary is a `map` from the mean colour to the tile.
    `str(tono)` is injective on integer triples, so the key is the triple
    itself.
  - Each composer is proved against ghost reference functions:
    - `WindowMean` is the mean of a block;
    - `Selected` is the first-at-or-above choice;
    - `TableAfter` is the dictionary after a sequence of blocks;
    - `ExpectedCell` and `Painted` give the cell each pixel must hold.

Tiles are opaque values. A grayscale tile is `Brightened(i, n - 1)`, the seed
brightened by `i / (n - 1)`. A colour tile is `Tinted(tone, serial)`, the seed
blended with a solid image of that tone. `serial` is the number of tiles
built before it, which stands in for object identity. For the colour variant
the model states three things:

- which tile covers each pixel;
- that the dictionary holds one tile for each distinct mean colour seen;
- that no tile is ever rebuilt or replaced.

Edge blocks are not clipped. The code crops a full `px x py` window, which
PIL pads with black, and divides by the full window size
(`imagen_recursiva_gris.py:160-166`, `imagen_recursiva_color.py:167-173`).
`GrayMosaic.EdgeBlockIncludesPadding` shows an all-white 3 x 1 image whose
2 x 1 edge block averages 127, not 255. The tile pasted there is likewise
resized to the full block and clipped by `paste`.

## Model

| member | source | states |
|---|---|---|
| Scaling.ScaleLength | src/imagen_recursiva_gris.py:36 | `int(a * f)` for a non-negative exact factor: the largest r with r * den <= a * num |
| Scaling.Scale | src/imagen_recursiva_gris.py:35-38 | new width is floor(w * f); new height is floor(new_w * h / w), derived from the new width and not from f; a zero width is a division by zero |
| Scaling.ScaleByOne | src/imagen_recursiva_color.py:35-38 | factor 1 leaves every size with a non-zero width unchanged |
| Scaling.ScaleByInteger | src/imagen_recursiva_gris.py:35-38 | an integer factor k gives exactly (k * w, k * h) |
| Scaling.Escalar | src/imagen_recursiva_gris.py:35-41 | `escalar`: a zero width divides by zero; otherwise the result has the size Scale computes, a zero computed dimension is refused unless the size is unchanged, and a successful resize of an image with rows is never empty |
| Scaling.ZeroSizeRefused | src/imagen_recursiva_gris.py:36-38 | 3 x 2 at factor 1/2 asks `resize` for 1 x 0, which is refused |
| Scaling.EscalarByOne | src/imagen_recursiva_color.py:35-41 | factor 1 is a copy of any image with a non-zero width |
| Scaling.BlockSize | src/imagen_recursiva_gris.py:236-238 | the grayscale block is floor(W * f) by floor(H * f), each dimension scaled on its own |
| Scaling.BlockWidthIsSeedWidth | src/imagen_recursiva_gris.py:228-238 | the block width equals the seed width, while the heights can differ (3 x 2 at 1/2: seed 1 x 0, block 1 x 1) |
| Scaling.SeedWithinBlock | src/imagen_recursiva_gris.py:228-238 | the seed is never taller than a grayscale block, so an accepted seed of an image with rows gives blocks of at least one pixel |
| Grid.GridOrder | src/imagen_recursiva_gris.py:157-158 | the origins of the first nx columns in visiting order, nx * ny of them |
| Grid.Walk | src/imagen_recursiva_gris.py:157-158 | the blocks the two `range` loops visit: ceil(W/px) * ceil(H/py) of them, each starting inside the canvas |
| Grid.CeilDivSteps | src/imagen_recursiva_gris.py:157-158 | `range(0, a, d)` takes c steps past the origin exactly when c < ceil(a / d) |
| Grid.GridOrderAt | src/imagen_recursiva_gris.py:157-158 | block (a, b) is visited at position a * ny + b with origin (a * px, b * py): x outer, y inner |
| Grid.PixelInExactlyOneBlock | src/imagen_recursiva_gris.py:157-160 | every canvas pixel lies in exactly one visited block, the one at (i - i % px, j - j % py) |
| Grid.InBlock | src/imagen_recursiva_gris.py:160 | a pixel of the block starting at c * p has block index c and offset i - c * p |
| Grid.ProcessedAtLeastTotal | src/imagen_recursiva_gris.py:141-143 | the blocks visited, ceil(W/px) * ceil(H/py), are never fewer than `total_bloques` = (W // px) * (H // py) |
| Grid.Paste | src/imagen_recursiva_gris.py:175 | `paste` at (x, y) writes the tile's pixels into the part of the rectangle inside the canvas; every other cell is unchanged |
| GrayMosaic.WindowSumWithin | src/imagen_recursiva_gris.py:80-84 | a block whose pixels lie in [lo, hi] has a sum in [lo * n, hi * n] for its n pixels |
| GrayMosaic.WindowMean | src/imagen_recursiva_gris.py:78-85 | the mean of a block: the floor of its pixel sum divided by the full window size w * h, padding included |
| GrayMosaic.MeanWithinPixelRange | src/imagen_recursiva_gris.py:78-85 | the mean lies between the smallest and the largest pixel of the block |
| GrayMosaic.MeanOfUniformBlock | src/imagen_recursiva_gris.py:78-85 | a block of a single value v averages v |
| GrayMosaic.EdgeBlockIncludesPadding | src/imagen_recursiva_gris.py:160-166 | an edge block averages over the black padding of the crop: a white 2 x 1 window half off the image gives 127 |
| GrayMosaic.Crop | src/imagen_recursiva_gris.py:163 | `crop` returns a fresh px x py image holding the window, black outside the source |
| GrayMosaic.WindowSumOfCrop | src/imagen_recursiva_gris.py:163-166 | the crop has the same pixel sum as the window it was cut from |
| GrayMosaic.MeanGray | src/imagen_recursiva_gris.py:78-85 | `promedio_gris` is the truncated sum / count over all pixels; an empty image divides by zero |
| GrayMosaic.Threshold | src/imagen_recursiva_gris.py:67 | the threshold of level i is never negative and is at most 255 exactly for the indices i < n of `range(n)` |
| GrayMosaic.Bank | src/imagen_recursiva_gris.py:66-69 | the bank of n levels has exactly n entries, level i with threshold i * 255 / (n - 1) and brightness i / (n - 1) |
| GrayMosaic.BrightnessBank | src/imagen_recursiva_gris.py:64-72 | `tonos_de_gris` returns the n levels in index order for n >= 2, divides by zero for n == 1, and is empty for n <= 0 |
| GrayMosaic.BankEndpoints | src/imagen_recursiva_gris.py:67 | the first threshold is 0 and the last is 255 |
| GrayMosaic.BankIncreasing | src/imagen_recursiva_gris.py:67 | thresholds strictly increase along the bank |
| GrayMosaic.FirstAtOrAbove | src/imagen_recursiva_gris.py:105-107 | the index it returns has its threshold at or above the average, and every earlier threshold is below it |
| GrayMosaic.Selected | src/imagen_recursiva_gris.py:105-107 | the reference choice: nothing exactly when every threshold is below the average, otherwise the tile of the first level at or above it |
| GrayMosaic.SelectGray | src/imagen_recursiva_gris.py:105-107 | `get_imagen_gris` returns the tile of the first level at or above the average, and nothing exactly when every threshold is below it |
| GrayMosaic.FirstAtOrAboveIsUnique | src/imagen_recursiva_gris.py:105-107 | any index with the first-at-or-above property is the one the scan finds |
| GrayMosaic.SelectFromBankIsTotal | src/imagen_recursiva_gris.py:105-107 | with a bank from `tonos_de_gris`, every average in [0, 255] finds a tile |
| GrayMosaic.SelectExactThreshold | src/imagen_recursiva_gris.py:106 | an average equal to threshold i selects level i |
| GrayMosaic.SelectIsNotNearest | src/imagen_recursiva_gris.py:105-107 | the choice is first-at-or-above, not nearest: with levels 0, 127.5 and 255 an average of 1 selects 127.5 |
| GrayMosaic.PasteBlock | src/imagen_recursiva_gris.py:160-175 | one block: a missing tile is reported; otherwise exactly the block's cells take the selected tile at their offsets |
| GrayMosaic.FillColumn | src/imagen_recursiva_gris.py:158-178 | one column of blocks: every pixel of the column holds its block's tile, the rest of the canvas is untouched, and the counter grows by ceil(H / py) |
| GrayMosaic.Compose | src/imagen_recursiva_gris.py:134-191 | `rellena_imagen_recursiva_gris`: the canvas has the image's size; pixel (i, j) holds the selected tile of block (i - i % px, j - j % py) at offset (i % px, j % py); the walk is column-outer; the counter ends at ceil(W/px) * ceil(H/py); a zero block size divides by zero; a block without a tile aborts with a missing tile; no other failure occurs |
| GrayMosaic.BankNeverMisses | src/imagen_recursiva_gris.py:166-172 | with a bank of n >= 2 levels, every block finds a tile |
| GrayMosaic.CreateRecursiveGray | src/imagen_recursiva_gris.py:225-241 | `crea_imagen_recursiva_gris`, failures in source order: a zero width divides by zero; a zero-sized seed is refused by `resize`; n == 1 divides by zero; a zero-sized enlarged image is refused; a zero block dimension divides by zero; with n <= 0 the first block finds no tile; with n >= 2 every enlarged pixel holds its block's tile and the counter ends at the number of blocks |
| ColorMosaic.WindowSumWithin | src/imagen_recursiva_color.py:72-79 | a block whose channel values lie in [lo, hi] has a channel sum in [lo * n, hi * n] |
| ColorMosaic.WindowMean | src/imagen_recursiva_color.py:59-87 | the mean colour of a block: each channel is the floor of that channel's sum divided by the full window size w * h |
| ColorMosaic.MeanWithinChannelRange | src/imagen_recursiva_color.py:82-84 | each channel of the mean lies between that channel's minimum and maximum over the block |
| ColorMosaic.MeanOfUniformBlock | src/imagen_recursiva_color.py:59-87 | a block of a single colour has that colour as its mean |
| ColorMosaic.Crop | src/imagen_recursiva_color.py:170 | `crop` returns a fresh block-sized image holding the window, black outside the source |
| ColorMosaic.WindowSumOfCrop | src/imagen_recursiva_color.py:170-173 | the crop has the same channel sums as the window it was cut from |
| ColorMosaic.ColorMean | src/imagen_recursiva_color.py:59-87 | `color_promedio_sebas` returns each channel's truncated sum / (width * height); an empty image divides by zero |
| ColorMosaic.InsertExtends | src/imagen_recursiva_color.py:179-182 | after a block of tone t the tone is a key, no existing entry is overwritten, and at most one tile is added |
| ColorMosaic.InsertKeepsShape | src/imagen_recursiva_color.py:179-182 | a tile built on a miss is the tile of its own key and gets a fresh serial |
| ColorMosaic.TableAfter | src/imagen_recursiva_color.py:157-187 | the reference meaning of `tonos`: the table after meeting the given blocks in order; it grows by at most one tile per block met |
| ColorMosaic.TableAfterAppend | src/imagen_recursiva_color.py:163-187 | meeting two stretches of blocks is meeting the first, then the second |
| ColorMosaic.TableAfterSnoc | src/imagen_recursiva_color.py:176-187 | meeting one more block is one lookup-or-insert |
| ColorMosaic.SeenTonesCons | src/imagen_recursiva_color.py:163-173 | the tones seen are the first block's tone plus those of the rest |
| ColorMosaic.TableAfterKeys | src/imagen_recursiva_color.py:157-182 | the key set of `tonos` is exactly the set of distinct block means seen |
| ColorMosaic.TableAfterExtends | src/imagen_recursiva_color.py:179-182 | a tile, once stored, is never replaced |
| ColorMosaic.TableAfterKeepsShape | src/imagen_recursiva_color.py:179-182 | every stored tile is the tile of its key's tone and every tile has its own serial, so one tile is built per distinct key |
| ColorMosaic.PaintedStable | src/imagen_recursiva_color.py:186-191 | growing the table never changes what an already painted pixel should hold |
| ColorMosaic.PasteToneBlock | src/imagen_recursiva_color.py:166-191 | one block: the table becomes lookup-or-insert of the block's mean colour, and exactly the block's cells take that tone's tile at their offsets |
| ColorMosaic.ToneStep | src/imagen_recursiva_color.py:164-191 | one inner step: the new block is painted, already painted pixels stay painted, and cells outside the block are untouched |
| ColorMosaic.FillToneColumn | src/imagen_recursiva_color.py:164-194 | one column: the table advances over the column's blocks, every pixel up to the column's right edge is painted, cells to its right are untouched, and the counter grows by ceil(H / sh) |
| ColorMosaic.ComposeStep | src/imagen_recursiva_color.py:163-194 | one outer step: the walk, the table and the painted region advance by one column |
| ColorMosaic.ComposeColor | src/imagen_recursiva_color.py:141-194 | the canvas has the enlarged image's size; the walk is column-outer; `tonos` is the table after the walk; pixel (i, j) holds the tile of its block's mean colour at offset (i % sw, j % sh); the counter ends at ceil(W/sw) * ceil(H/sh) |
| ColorMosaic.TileSharedByTone | src/imagen_recursiva_color.py:186-191 | two pixels get the same tile exactly when their blocks have the same mean colour |
| ColorMosaic.WalkTable | src/imagen_recursiva_color.py:157-194 | after the walk, the keys are exactly the tones seen, the table keeps its shape, and there are no more tiles than blocks |
| ColorMosaic.CreateRecursiveColor | src/imagen_recursiva_color.py:128-194 | `crea_imagen_recursiva`, failures in source order: a zero width divides by zero; a zero-sized seed or enlarged image is refused by `resize`; a seed with a zero dimension, which `resize` can return only as an unchanged copy, divides by zero in the block totals; otherwise the block is the seed's size and the canvas, the table and the counter are as in ComposeColor |

## Left out

- Pixel work of the imaging library is not modelled. This covers `resize`,
  `convert('L')`, `ImageEnhance.Brightness`, `Image.blend` and `Image.new`.
  Tiles are opaque values, and the enlarged image is an input whose size is
  exactly what `escalar` yields. Of `resize` only its size rule is modelled:
  an unchanged size is a copy, and a zero width or height is otherwise a
  ValueError. That rule is the imaging library's own behaviour, whose
  source is not part of this model.
- `color_promedio` (`ImageStat`, `imagen_recursiva_color.py:89-94`) is what
  the colour composer actually calls. The model uses `color_promedio_sebas`
  in its place, which assumes the two agree.
- Floating point is not modelled. Scale factors are exact rationals, so
  `int(w * f)` and `(new_w / w) * h` are exact floors. Thresholds are exact
  reals, and `round(factor_brillo, 2)` is left out. The rounding keeps the
  bank in order. From about 200 levels on, though, it can lift a threshold
  that lies less than 0.005 below an integer up to that integer. An average
  equal to that integer then selects that level rather than the next one.
- Negative scale factors are not modelled (`Factor` is non-negative).
- File and command-line I/O are not modelled: `Image.open`, every `save`
  (including the `guardar_tonos` side files), `argparse` and `exit`.
- Console output is not modelled: the progress messages, `progress_bar`, `random_color`
  and the `contador_color` rotation. They do not affect the image.
- Only RGB images are modelled for the colour variant. On an image of
  another mode (RGBA, say) `crea_imagen_recursiva` fails on its first block:
  the tint is built as an 'RGB' image and `Image.blend` refuses to mix it
  with the seed, which keeps the input's mode
  (`imagen_recursiva_color.py:180-181`). That failure is not modelled;
  colour pixels are RGB triples by type, and grayscale pixels are bytes.
