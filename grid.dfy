/** The block grid walked by both composers: integer division facts, the
    column-outer / row-inner order in which block origins are visited, the
    partition of the canvas into blocks, and the clipped paste of a tile. */
module Grid {
  import opened Common

  /** Top-left corner (x, y) of a block. */
  type Origin = (nat, nat)

  /** Characterisation of Euclidean floor division by a positive divisor. */
  lemma FloorBounds(a: int, d: int)
    requires d > 0
    ensures (a / d) * d <= a < (a / d + 1) * d
  {
  }

  /** Floor division of naturals, as Python's `//` and `int(a / d)`. */
  function FloorDiv(a: nat, d: nat): (q: nat)
    requires d > 0
    ensures q * d <= a < (q + 1) * d
  {
    var q := a / d;
    FloorBounds(a, d);
    q
  }

  /** Quotient and remainder are determined by any decomposition
      m == q * n + r with 0 <= r < n. */
  lemma DivModUnique(m: int, n: int, q: int, r: int)
    requires n > 0 && 0 <= r < n && m == q * n + r
    ensures m / n == q && m % n == r
  {
    var q', r' := m / n, m % n;
    assert m == q' * n + r';
    var k := q - q';
    assert k * n == r' - r;
    if k > 0 {
      MulAtLeast(k, n);
    } else if k < 0 {
      MulAtLeast(-k, n);
    }
  }

  lemma MulAtLeast(k: int, n: int)
    requires k >= 1 && n > 0
    ensures k * n >= n
  {
  }

  /** Splitting off the last of w columns of height h. */
  lemma PeelColumn(c: int, w: nat, h: nat)
    requires w > 0
    ensures c * (w * h) == c * ((w - 1) * h) + c * h
  {
    assert w * h == (w - 1) * h + h;
  }

  /** The floor of a quotient keeps the bounds of the mean it rounds. */
  lemma QuotientWithin(sum: int, n: int, lo: int, hi: int)
    requires n > 0 && lo * n <= sum <= hi * n
    ensures lo <= sum / n <= hi
  {
    var q := sum / n;
    FloorBounds(sum, n);
    if q > hi {
      MulMonotone(hi + 1, q, n);
    }
    if q < lo {
      MulMonotone(q + 1, lo, n);
    }
  }

  /** The next block starts one block size further on. */
  lemma NextBlock(c: nat, p: nat)
    ensures (c + 1) * p == c * p + p
  {
  }

  /** Start of the block of size p that holds coordinate i. */
  function BlockStart(i: nat, p: nat): nat
    requires p > 0
  {
    FloorDiv(i, p) * p
  }

  /** A pixel at column i lies in the block that starts at c * p exactly
      when c is i / p; its offset inside that block is i % p. */
  lemma InBlock(i: nat, c: nat, p: nat)
    requires p > 0 && c * p <= i < c * p + p
    ensures i / p == c && i % p == i - c * p && BlockStart(i, p) == c * p
  {
    DivModUnique(i, p, c, i - c * p);
  }

  /** Number of steps taken by `range(0, a, d)`: the ceiling of a / d. */
  function CeilDiv(a: nat, d: nat): (q: nat)
    requires d > 0
    ensures (q - 1) * d < a <= q * d
  {
    FloorBounds(a + d - 1, d);
    (a + d - 1) / d
  }

  /** c steps of size d stay below a exactly when c is below the step count. */
  lemma CeilDivSteps(a: nat, d: nat, c: nat)
    requires d > 0
    ensures c * d < a <==> c < CeilDiv(a, d)
  {
    var q := CeilDiv(a, d);
    if c < q {
      MulMonotone(c, q - 1, d);
    } else {
      MulMonotone(q, c, d);
    }
  }

  lemma MulMonotone(a: int, b: int, d: int)
    requires 0 <= a <= b && d >= 0
    ensures a * d <= b * d
  {
  }

  /** Complete blocks never outnumber visited steps: a // d <= ceil(a / d). */
  lemma FloorAtMostCeil(a: nat, d: nat)
    requires d > 0
    ensures a / d <= CeilDiv(a, d)
  {
    var q, c := a / d, CeilDiv(a, d);
    FloorBounds(a, d);
    if q > c {
      MulMonotone(c + 1, q, d);
    }
  }

  /** The grid counts at least the complete blocks: ceil(W/px) * ceil(H/py)
      is never below (W // px) * (H // py). */
  lemma ProcessedAtLeastTotal(w: nat, h: nat, px: nat, py: nat)
    requires px > 0 && py > 0
    ensures (w / px) * (h / py) <= CeilDiv(w, px) * CeilDiv(h, py)
  {
    FloorAtMostCeil(w, px);
    FloorAtMostCeil(h, py);
    MulBoth(w / px, h / py, CeilDiv(w, px), CeilDiv(h, py));
  }

  lemma MulBoth(a: nat, b: nat, c: nat, d: nat)
    requires a <= c && b <= d
    ensures a * b <= c * d
  {
    MulMonotone(a, c, b);
    MulMonotone(b, d, c);
  }

  /** The origins of column a of blocks, top to bottom (the inner loop). */
  function Column(a: nat, ny: nat, px: nat, py: nat): (col: seq<Origin>)
    ensures |col| == ny
    ensures forall b :: 0 <= b < ny ==> col[b] == (a * px, b * py)
  {
    seq(ny, (b: nat) => (a * px, b * py))
  }

  /** The first c + 1 origins of a column extend the first c by one. */
  lemma ColumnPrefixSnoc(a: nat, ny: nat, px: nat, py: nat, c: nat)
    requires c < ny
    ensures Column(a, ny, px, py)[..c + 1] == Column(a, ny, px, py)[..c] + [(a * px, c * py)]
  {
  }

  /** The origins of the first nx columns of blocks in visiting order:
      column by column (outer loop over x), each column top to bottom. */
  function GridOrder(nx: nat, ny: nat, px: nat, py: nat): (g: seq<Origin>)
    ensures |g| == nx * ny
  {
    if nx == 0 then [] else GridOrder(nx - 1, ny, px, py) + Column(nx - 1, ny, px, py)
  }

  /** The blocks visited by `for x in range(0, w, px): for y in range(0, h, py)`. */
  function Walk(w: nat, h: nat, px: nat, py: nat): (g: seq<Origin>)
    requires px > 0 && py > 0
    ensures |g| == CeilDiv(w, px) * CeilDiv(h, py)
    ensures forall k :: 0 <= k < |g| ==> g[k].0 < w && g[k].1 < h
  {
    WalkWithin(w, h, px, py);
    GridOrder(CeilDiv(w, px), CeilDiv(h, py), px, py)
  }

  /** Every block the walk visits starts inside the canvas. */
  lemma WalkWithin(w: nat, h: nat, px: nat, py: nat)
    requires px > 0 && py > 0
    ensures forall k :: 0 <= k < CeilDiv(w, px) * CeilDiv(h, py) ==>
      GridOrder(CeilDiv(w, px), CeilDiv(h, py), px, py)[k].0 < w &&
      GridOrder(CeilDiv(w, px), CeilDiv(h, py), px, py)[k].1 < h
  {
    var nx, ny := CeilDiv(w, px), CeilDiv(h, py);
    forall k | 0 <= k < nx * ny
      ensures GridOrder(nx, ny, px, py)[k].0 < w && GridOrder(nx, ny, px, py)[k].1 < h
    {
      GridPosition(nx, ny, k);
      GridOrderAt(nx, ny, px, py, k / ny, k % ny);
      CeilDivSteps(w, px, k / ny);
      CeilDivSteps(h, py, k % ny);
    }
  }

  /** Block (a, b) of the grid, column a and row b, is visited at position
      a * ny + b and has origin (a * px, b * py). */
  lemma {:induction false} GridOrderAt(nx: nat, ny: nat, px: nat, py: nat, a: nat, b: nat)
    requires a < nx && b < ny
    ensures a * ny + b < nx * ny
    ensures GridOrder(nx, ny, px, py)[a * ny + b] == (a * px, b * py)
  {
    var prev := GridOrder(nx - 1, ny, px, py);
    if a < nx - 1 {
      GridOrderAt(nx - 1, ny, px, py, a, b);
      assert GridOrder(nx, ny, px, py)[a * ny + b] == prev[a * ny + b];
    } else {
      assert GridOrder(nx, ny, px, py)[a * ny + b] == Column(nx - 1, ny, px, py)[b];
    }
  }

  /** Every position k of the grid order is some block (k / ny, k % ny). */
  lemma GridPosition(nx: nat, ny: nat, k: nat)
    requires k < nx * ny
    ensures ny > 0 && k / ny < nx && k % ny < ny && k == (k / ny) * ny + k % ny
  {
    if ny > 0 {
      FloorBounds(k, ny);
      if k / ny >= nx {
        MulMonotone(nx, k / ny, ny);
      }
    }
  }

  /** Block membership: pixel (i, j) lies in the px x py block at o. */
  predicate Covers(o: Origin, px: nat, py: nat, i: nat, j: nat) {
    o.0 <= i < o.0 + px && o.1 <= j < o.1 + py
  }

  /** The block of pixel (i, j) is visited: it is the k-th origin of the
      walk for k == (i / px) * ceil(h / py) + j / py. */
  lemma {:induction false} BlockOfPixelVisited(w: nat, h: nat, px: nat, py: nat, i: nat, j: nat)
    requires px > 0 && py > 0 && i < w && j < h
    ensures var k := FloorDiv(i, px) * CeilDiv(h, py) + FloorDiv(j, py);
      && k < |Walk(w, h, px, py)|
      && Walk(w, h, px, py)[k] == (BlockStart(i, px), BlockStart(j, py))
  {
    var nx, ny := CeilDiv(w, px), CeilDiv(h, py);
    var a, b := i / px, j / py;
    assert a < nx by {
      FloorBounds(i, px);
      CeilDivSteps(w, px, a);
    }
    assert b < ny by {
      FloorBounds(j, py);
      CeilDivSteps(h, py, b);
    }
    GridOrderAt(nx, ny, px, py, a, b);
  }

  /** A visited block that contains pixel (i, j) is the k-th one, for
      k == (i / px) * ny + j / py. */
  lemma {:induction false} CoveringBlockIndex(nx: nat, ny: nat, px: nat, py: nat, i: nat, j: nat, k: nat)
    requires px > 0 && py > 0 && k < nx * ny
    requires Covers(GridOrder(nx, ny, px, py)[k], px, py, i, j)
    ensures k == FloorDiv(i, px) * ny + FloorDiv(j, py)
  {
    GridPosition(nx, ny, k);
    GridOrderAt(nx, ny, px, py, k / ny, k % ny);
    InBlock(i, k / ny, px);
    InBlock(j, k % ny, py);
  }

  /** Completeness and disjointness of the walk: every pixel of a w x h
      canvas lies in exactly one visited block, the one whose origin is
      (BlockStart(i, px), BlockStart(j, py)). */
  lemma PixelInExactlyOneBlock(w: nat, h: nat, px: nat, py: nat, i: nat, j: nat)
    requires px > 0 && py > 0 && i < w && j < h
    ensures var g := Walk(w, h, px, py);
      var k := FloorDiv(i, px) * CeilDiv(h, py) + FloorDiv(j, py);
      && k < |g|
      && g[k] == (BlockStart(i, px), BlockStart(j, py))
      && Covers(g[k], px, py, i, j)
      && forall k' :: 0 <= k' < |g| && Covers(g[k'], px, py, i, j) ==> k' == k
  {
    BlockOfPixelVisited(w, h, px, py, i, j);
    InBlock(i, i / px, px);
    InBlock(j, j / py, py);
    forall k' | 0 <= k' < |Walk(w, h, px, py)| && Covers(Walk(w, h, px, py)[k'], px, py, i, j)
      ensures k' == FloorDiv(i, px) * CeilDiv(h, py) + FloorDiv(j, py)
    {
      CoveringBlockIndex(CeilDiv(w, px), CeilDiv(h, py), px, py, i, j, k');
    }
  }

  /** `canvas.paste(tile, (x, y))` of a tile resized to w x h: the cells of
      the rectangle that fall inside the canvas take the tile's pixels, the
      part past the right and bottom edges is clipped, and every other cell
      keeps its value. */
  method Paste<T>(canvas: array2<Cell<T>>, tile: T, x: nat, y: nat, w: nat, h: nat)
    modifies canvas
    ensures forall i, j :: 0 <= i < canvas.Length0 && 0 <= j < canvas.Length1 ==>
      canvas[i, j] == if Covers((x, y), w, h, i, j) then Sample(tile, i - x, j - y) else old(canvas[i, j])
  {
    forall i, j | 0 <= i < canvas.Length0 && 0 <= j < canvas.Length1 && Covers((x, y), w, h, i, j) {
      canvas[i, j] := Sample(tile, i - x, j - y);
    }
  }
}
