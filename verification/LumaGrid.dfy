/** The mean-luma grid of crates/rkvm-vision/src/signature.rs. */
module LumaGrid {
  import opened Arith

  /** A `u8`. */
  type Luma = l: nat | l < 0x100

  /** A luma plane of `width * height` pixels, rows `stride` apart. */
  datatype Plane = Plane(y: seq<Luma>, stride: nat, width: nat, height: nat) {
    /** The pixels are all there. */
    predicate Valid() { 0 < width <= stride && 0 < height && (height - 1) * stride + width <= |y| }

    function At(px: nat, py: nat): Luma
      requires Valid() && px < width && py < height
    {
      InPlane(this, px, py);
      y[py * stride + px]
    }
  }

  lemma InPlane(p: Plane, px: nat, py: nat)
    requires p.Valid() && px < p.width && py < p.height
    ensures py * p.stride + px < |p.y|
  {
    MulMono(py, p.height - 1, p.stride);
  }

  // ---- Cells ----

  /** Where cell `i` of `n` begins along an axis of `len` pixels. */
  function Edge(len: nat, n: nat, i: nat): nat
    requires n > 0
  {
    i * len / n
  }

  /** `q` is `a / n` rounded down. */
  predicate RoundsDown(q: nat, a: nat, n: nat) { n * q <= a < n * q + n }

  /** Cells of an axis are as equal as whole pixels allow: each is `len / n` pixels wide or one more,
      and begins at its share of the axis rounded down. */
  lemma CellsEven(len: nat, n: nat, i: nat)
    requires n > 0
    ensures RoundsDown(Edge(len, n, i), i * len, n)
    ensures Edge(len, n, i) + len / n <= Edge(len, n, i + 1) <= Edge(len, n, i) + len / n + 1
  {
    var q, r, a := len / n, len % n, i * len;
    DivBounds(a, n);
    assert (i + 1) * len == a + len;
    assert a + len == a + r + n * q;
    DivShift(a + r, q, n);
    DivMono(a, a + r, n);
    DivMono(a + r, a + n * 1, n);
    DivShift(a, 1, n);
  }

  lemma EdgeEnds(len: nat, n: nat)
    requires n > 0
    ensures Edge(len, n, 0) == 0 && Edge(len, n, n) == len
  {
    DivUnique(n * len, n, len, 0);
  }

  /** With at least a pixel per cell, no cell is empty. */
  lemma EdgeAdvances(len: nat, n: nat, i: nat)
    requires 0 < n <= len
    ensures Edge(len, n, i) < Edge(len, n, i + 1)
  {
    assert (i + 1) * len == i * len + len;
    DivMono(i * len + n * 1, (i + 1) * len, n);
    DivShift(i * len, 1, n);
  }

  lemma {:induction false} EdgeAtLeast(len: nat, n: nat, i: nat)
    requires 0 < n && i <= n && forall k :: 0 <= k < n ==> Edge(len, n, k) < Edge(len, n, k + 1)
    ensures i <= Edge(len, n, i)
  {
    if i > 0 {
      EdgeAtLeast(len, n, i - 1);
      assert Edge(len, n, i - 1) < Edge(len, n, i - 1 + 1);
    }
  }

  /** Every cell has a pixel exactly if there are as many pixels as cells. */
  lemma CellsFilledIff(len: nat, n: nat)
    requires n > 0
    ensures n <= len <==> forall k :: 0 <= k < n ==> Edge(len, n, k) < Edge(len, n, k + 1)
  {
    if n <= len {
      forall k | 0 <= k < n ensures Edge(len, n, k) < Edge(len, n, k + 1) { EdgeAdvances(len, n, k); }
    }
    if forall k :: 0 <= k < n ==> Edge(len, n, k) < Edge(len, n, k + 1) {
      EdgeAtLeast(len, n, n);
      EdgeEnds(len, n);
    }
  }

  lemma {:induction false} EdgeMono(len: nat, n: nat, i: nat, j: nat)
    requires 0 < n <= len && i <= j
    ensures Edge(len, n, i) <= Edge(len, n, j)
  {
    if i < j {
      EdgeMono(len, n, i, j - 1);
      EdgeAdvances(len, n, j - 1);
    }
  }

  lemma {:induction false} EdgeFind(len: nat, n: nat, x: nat, k: nat) returns (i: nat)
    requires 0 < n <= len && k <= n && x < Edge(len, n, k)
    ensures i < k && Edge(len, n, i) <= x < Edge(len, n, i + 1)
  {
    EdgeEnds(len, n);
    if Edge(len, n, k - 1) <= x { i := k - 1; } else { i := EdgeFind(len, n, x, k - 1); }
  }

  /** The cells of an axis are non-empty, and every pixel lies in exactly one of them. */
  lemma CellsPartition(len: nat, n: nat, x: nat) returns (i: nat)
    requires 0 < n <= len && x < len
    ensures i < n && Edge(len, n, i) <= x < Edge(len, n, i + 1) <= len
    ensures forall j :: 0 <= j < n && Edge(len, n, j) <= x < Edge(len, n, j + 1) ==> j == i
  {
    EdgeEnds(len, n);
    i := EdgeFind(len, n, x, n);
    EdgeMono(len, n, i + 1, n);
    forall j | 0 <= j < n && Edge(len, n, j) <= x < Edge(len, n, j + 1) ensures j == i {
      if j < i { EdgeMono(len, n, j + 1, i); }
      if i < j { EdgeMono(len, n, i + 1, j); }
    }
  }

  // ---- Sampling ----

  /** How many of `lo, lo + 4, ..` lie below `hi`. */
  function Steps(lo: nat, hi: nat): (n: nat)
    ensures if lo < hi then n > 0 && lo + 4 * (n - 1) < hi <= lo + 4 * n else n == 0
    decreases hi - lo
  {
    if lo >= hi then 0 else 1 + Steps(lo + 4, hi)
  }

  /** A block of pixels `x0..x1` by `y0..y1`. */
  datatype Block = Block(x0: nat, x1: nat, y0: nat, y1: nat)

  ghost predicate Inside(p: Plane, b: Block) { p.Valid() && b.x1 <= p.width && b.y1 <= p.height }

  ghost function RowSum(p: Plane, x0: nat, x1: nat, py: nat): nat
    requires p.Valid() && x1 <= p.width && py < p.height
    decreases x1 - x0
  {
    if x0 >= x1 then 0 else p.At(x0, py) + RowSum(p, x0 + 4, x1, py)
  }

  ghost function BlockSum(p: Plane, b: Block): nat
    requires Inside(p, b)
    decreases b.y1 - b.y0
  {
    if b.y0 >= b.y1 then 0 else RowSum(p, b.x0, b.x1, b.y0) + BlockSum(p, b.(y0 := b.y0 + 4))
  }

  function BlockCount(b: Block): nat { Steps(b.y0, b.y1) * Steps(b.x0, b.x1) }

  ghost function BlockMean(p: Plane, b: Block): nat
    requires Inside(p, b)
  {
    MeanLuma(BlockSum(p, b), BlockCount(b))
  }

  /** `sum.checked_div(count).unwrap_or(0)` */
  function MeanLuma(sum: nat, count: nat): nat { if count == 0 then 0 else sum / count }

  // ---- What is sampled ----

  /** Every fourth pixel of every fourth row, from the block's corner. */
  predicate Sampled(b: Block, px: nat, py: nat) { Stepped(px, b.x0, b.x1) && Stepped(py, b.y0, b.y1) }

  /** Whether `x` is among `from, from + 4, ..` below `end`. */
  predicate Stepped(x: nat, from: nat, end: nat) { from <= x < end && (x - from) % 4 == 0 }

  lemma SteppedNext(x: nat, from: nat, end: nat)
    requires from < end
    ensures Stepped(x, from, end) <==> x == from || Stepped(x, from + 4, end)
    ensures !Stepped(from, from + 4, end)
  {
  }

  /** The two pictures agree on the block, except at one pixel. */
  ghost predicate AgreeBut(p: Plane, p': Plane, b: Block, px: nat, py: nat)
    requires Inside(p, b) && Inside(p', b)
  {
    forall x: nat, y: nat {:trigger p.At(x, y)} {:trigger p'.At(x, y)} ::
      x < b.x1 && b.y0 <= y < b.y1 && !(x == px && y == py) ==> p'.At(x, y) == p.At(x, y)
  }

  lemma {:induction false} RowSampleMoves(p: Plane, p': Plane, b: Block, px: nat, py: nat, x: nat)
    requires Inside(p, b) && Inside(p', b) && AgreeBut(p, p', b, px, py) && b.y0 < b.y1
    ensures RowSum(p', x, b.x1, b.y0) - RowSum(p, x, b.x1, b.y0) ==
            if py == b.y0 && Stepped(px, x, b.x1) then p'.At(px, py) - p.At(px, py) else 0
    decreases b.x1 - x
  {
    if x < b.x1 {
      SteppedNext(px, x, b.x1);
      RowSampleMoves(p, p', b, px, py, x + 4);
      if x != px || py != b.y0 { assert p'.At(x, b.y0) == p.At(x, b.y0); }
    }
  }

  /** Changing one pixel changes the block's sum by as much if the pixel is sampled, and not at all
      otherwise: every sampled pixel counts once. */
  lemma {:induction false} OneSampleMoves(p: Plane, p': Plane, b: Block, px: nat, py: nat)
    requires Inside(p, b) && Inside(p', b) && AgreeBut(p, p', b, px, py)
    ensures BlockSum(p', b) - BlockSum(p, b) == if Sampled(b, px, py) then p'.At(px, py) - p.At(px, py) else 0
    decreases b.y1 - b.y0
  {
    if b.y0 < b.y1 {
      var rest := b.(y0 := b.y0 + 4);
      SteppedNext(py, b.y0, b.y1);
      RowSampleMoves(p, p', b, px, py, b.x0);
      forall x: nat, y: nat {:trigger p.At(x, y)} | x < b.x1 && rest.y0 <= y < b.y1 && !(x == px && y == py)
        ensures p'.At(x, y) == p.At(x, y)
      {}
      OneSampleMoves(p, p', rest, px, py);
    }
  }

  lemma {:induction false} DarkRow(p: Plane, b: Block, x: nat)
    requires Inside(p, b) && b.y0 < b.y1 && b.x0 <= x && (x - b.x0) % 4 == 0
    requires forall px: nat :: x <= px < b.x1 ==> p.At(px, b.y0) == 0
    ensures RowSum(p, x, b.x1, b.y0) == 0
    decreases b.x1 - x
  {
    if x < b.x1 { DarkRow(p, b, x + 4); }
  }

  /** A black block sums to nothing. */
  lemma {:induction false} BlackSum(p: Plane, b: Block)
    requires Inside(p, b) && forall px: nat, py: nat :: px < b.x1 && b.y0 <= py < b.y1 ==> p.At(px, py) == 0
    ensures BlockSum(p, b) == 0
    decreases b.y1 - b.y0
  {
    if b.y0 < b.y1 {
      DarkRow(p, b, b.x0);
      BlackSum(p, b.(y0 := b.y0 + 4));
    }
  }

  // ---- How far a mean can move ----

  /** Pixel by pixel, the sampled part of the block rises by at least `d` (which may be negative). */
  ghost predicate Rises(p: Plane, p': Plane, b: Block, d: int)
    requires Inside(p, b) && Inside(p', b)
  {
    forall px: nat, py: nat {:trigger p.At(px, py)} {:trigger p'.At(px, py)} ::
      b.x0 <= px < b.x1 && b.y0 <= py < b.y1 && (px - b.x0) % 4 == 0 && (py - b.y0) % 4 == 0 ==>
      p'.At(px, py) >= p.At(px, py) + d
  }

  lemma OneMore(d: int, n: nat)
    ensures d * (1 + n) == d + d * n
  {
  }

  lemma {:induction false} RowRises(p: Plane, p': Plane, b: Block, d: int, x: nat)
    requires Inside(p, b) && Inside(p', b) && Rises(p, p', b, d)
    requires b.x0 <= x && (x - b.x0) % 4 == 0 && b.y0 < b.y1
    ensures RowSum(p', x, b.x1, b.y0) >= RowSum(p, x, b.x1, b.y0) + d * Steps(x, b.x1)
    decreases b.x1 - x
  {
    if x < b.x1 {
      RowRises(p, p', b, d, x + 4);
      assert p'.At(x, b.y0) >= p.At(x, b.y0) + d;
      OneMore(d, Steps(x + 4, b.x1));
    }
  }

  lemma RestRises(p: Plane, p': Plane, b: Block, d: int)
    requires Inside(p, b) && Inside(p', b) && Rises(p, p', b, d)
    ensures Rises(p, p', b.(y0 := b.y0 + 4), d)
  {
    forall px: nat, py: nat {:trigger p.At(px, py)} |
      b.x0 <= px < b.x1 && b.y0 + 4 <= py < b.y1 && (px - b.x0) % 4 == 0 && (py - (b.y0 + 4)) % 4 == 0
      ensures p'.At(px, py) >= p.At(px, py) + d
    {
      assert (py - b.y0) % 4 == 0;
    }
  }

  lemma {:induction false} BlockRises(p: Plane, p': Plane, b: Block, d: int)
    requires Inside(p, b) && Inside(p', b) && Rises(p, p', b, d)
    ensures BlockSum(p', b) >= BlockSum(p, b) + d * BlockCount(b)
    decreases b.y1 - b.y0
  {
    if b.y0 < b.y1 {
      RowRises(p, p', b, d, b.x0);
      RestRises(p, p', b, d);
      BlockRises(p, p', b.(y0 := b.y0 + 4), d);
      Spread(d, Steps(b.x0, b.x1), Steps(b.y0 + 4, b.y1));
    }
  }

  lemma Spread(d: int, a: nat, n: nat)
    ensures d * ((1 + n) * a) == d * a + d * (n * a)
  {
  }

  /** The truncated mean rises by at least as much as every sample did. */
  lemma MeanRises(p: Plane, p': Plane, b: Block, d: int)
    requires Inside(p, b) && Inside(p', b) && Rises(p, p', b, d) && BlockCount(b) > 0
    ensures BlockMean(p', b) >= BlockMean(p, b) + d
  {
    var c := BlockCount(b);
    BlockRises(p, p', b, d);
    DivMono(BlockSum(p, b) + c * d, BlockSum(p', b), c);
    DivShift(BlockSum(p, b), d, c);
  }

  // ---- The grid ----

  /** The geometry `luma_grid` accepts. */
  predicate Accepted(p: Plane, cols: nat, rows: nat) {
    0 < cols <= p.width && 0 < rows <= p.height && p.Valid()
  }

  /** Accepted is exactly a plane whose pixels are all there and whose every cell has some. */
  lemma AcceptedIff(p: Plane, cols: nat, rows: nat)
    requires cols > 0 && rows > 0
    ensures Accepted(p, cols, rows) <==>
              && 0 < p.width <= p.stride && 0 < p.height && (p.height - 1) * p.stride + p.width <= |p.y|
              && (forall c :: 0 <= c < cols ==> Edge(p.width, cols, c) < Edge(p.width, cols, c + 1))
              && (forall r :: 0 <= r < rows ==> Edge(p.height, rows, r) < Edge(p.height, rows, r + 1))
  {
    CellsFilledIff(p.width, cols);
    CellsFilledIff(p.height, rows);
  }

  function Cell(width: nat, height: nat, cols: nat, rows: nat, r: nat, c: nat): (b: Block)
    requires 0 < cols <= width && 0 < rows <= height && r < rows && c < cols
    ensures b.x0 < b.x1 <= width && b.y0 < b.y1 <= height
  {
    CellFits(width, cols, c);
    CellFits(height, rows, r);
    Block(Edge(width, cols, c), Edge(width, cols, c + 1), Edge(height, rows, r), Edge(height, rows, r + 1))
  }

  lemma CellFits(len: nat, n: nat, i: nat)
    requires 0 < n <= len && i < n
    ensures Edge(len, n, i) < Edge(len, n, i + 1) <= len
  {
    EdgeAdvances(len, n, i);
    EdgeMono(len, n, i + 1, n);
    EdgeEnds(len, n);
  }

  lemma CountPositive(b: Block)
    requires b.x0 < b.x1 && b.y0 < b.y1
    ensures BlockCount(b) > 0
  {
    MulMono(1, Steps(b.y0, b.y1), Steps(b.x0, b.x1));
  }

  /** The mean of one cell, which a `u8` holds. */
  ghost function CellMean(p: Plane, cols: nat, rows: nat, r: nat, c: nat): nat
    requires Accepted(p, cols, rows) && r < rows && c < cols
  {
    BlockMean(p, Cell(p.width, p.height, cols, rows, r, c))
  }

  /** The means of the first `c` cells of grid row `r`. */
  ghost function RowMeans(p: Plane, cols: nat, rows: nat, r: nat, c: nat): (g: seq<nat>)
    requires Accepted(p, cols, rows) && r < rows && c <= cols
    ensures |g| == c
  {
    if c == 0 then [] else RowMeans(p, cols, rows, r, c - 1) + [CellMean(p, cols, rows, r, c - 1)]
  }

  lemma {:induction false} RowMeansAt(p: Plane, cols: nat, rows: nat, r: nat, c: nat, i: nat)
    requires Accepted(p, cols, rows) && r < rows && i < c <= cols
    ensures RowMeans(p, cols, rows, r, c)[i] == CellMean(p, cols, rows, r, i)
  {
    if i < c - 1 { RowMeansAt(p, cols, rows, r, c - 1, i); }
  }

  /** The first `r` grid rows, one after another. */
  ghost function Means(p: Plane, cols: nat, rows: nat, r: nat): seq<nat>
    requires Accepted(p, cols, rows) && r <= rows
  {
    if r == 0 then [] else Means(p, cols, rows, r - 1) + RowMeans(p, cols, rows, r - 1, cols)
  }

  lemma LastMeansAt(p: Plane, cols: nat, rows: nat, r: nat, c: nat, start: nat)
    requires Accepted(p, cols, rows) && r < rows && c < cols && |Means(p, cols, rows, r)| == start
    ensures var means := Means(p, cols, rows, r + 1);
            start + c < |means| && means[start + c] == CellMean(p, cols, rows, r, c)
  {
    var before, row := Means(p, cols, rows, r), RowMeans(p, cols, rows, r, cols);
    RowMeansAt(p, cols, rows, r, cols, c);
    assert (before + row)[start + c] == row[c];
  }

  /** Row-major order: cell `c` of grid row `r` is entry `i == r * cols + c`. */
  lemma {:induction false} MeansAt(p: Plane, cols: nat, rows: nat, n: nat, r: nat, c: nat, i: nat)
    requires Accepted(p, cols, rows) && r < n <= rows && c < cols && i == r * cols + c
    ensures i < |Means(p, cols, rows, n)| && Means(p, cols, rows, n)[i] == CellMean(p, cols, rows, r, c)
  {
    if r == n - 1 {
      MeansSize(p, cols, rows, r);
      LastMeansAt(p, cols, rows, r, c, i - c);
    } else {
      MeansAt(p, cols, rows, n - 1, r, c, i);
    }
  }

  lemma NextIndex(n: nat, cols: nat)
    ensures (n + 1) * cols == n * cols + cols
  {
  }

  /** The grid has an entry for every cell. */
  lemma {:induction false} MeansSize(p: Plane, cols: nat, rows: nat, n: nat)
    requires Accepted(p, cols, rows) && n <= rows
    ensures |Means(p, cols, rows, n)| == n * cols
  {
    if n > 0 {
      MeansSize(p, cols, rows, n - 1);
      NextIndex(n - 1, cols);
    }
  }

  /** Cell `c` of grid row `r` lies where its share of either axis, rounded down, says. */
  lemma CellPlace(width: nat, height: nat, cols: nat, rows: nat, r: nat, c: nat)
    requires 0 < cols <= width && 0 < rows <= height && r < rows && c < cols
    ensures var b := Cell(width, height, cols, rows, r, c);
            && RoundsDown(b.x0, c * width, cols) && RoundsDown(b.x1, (c + 1) * width, cols)
            && RoundsDown(b.y0, r * height, rows) && RoundsDown(b.y1, (r + 1) * height, rows)
  {
    CellsEven(width, cols, c);
    CellsEven(width, cols, c + 1);
    CellsEven(height, rows, r);
    CellsEven(height, rows, r + 1);
  }

  /** The samples number the block's width and height over four, rounded up. */
  lemma CountCeil(b: Block, across: nat, down: nat)
    requires b.x0 < b.x1 && b.y0 < b.y1 && across == DivCeil(b.x1 - b.x0, 4) && down == DivCeil(b.y1 - b.y0, 4)
    ensures BlockCount(b) == down * across
  {
    assert Steps(b.x0, b.x1) == across && Steps(b.y0, b.y1) == down;
  }

  lemma MeanFloor(sum: nat, count: nat)
    requires count > 0
    ensures RoundsDown(MeanLuma(sum, count), sum, count)
  {
    DivBounds(sum, count);
  }

  /** A mean is the sum of the samples over their number, rounded down. */
  lemma MeanRoundsDown(p: Plane, b: Block, n: nat)
    requires Inside(p, b) && b.x0 < b.x1 && b.y0 < b.y1 && n == BlockCount(b)
    ensures n > 0 && RoundsDown(BlockMean(p, b), BlockSum(p, b), n)
  {
    CountPositive(b);
    MeanFloor(BlockSum(p, b), n);
  }

  /** The two inner loops: sum and count of every fourth pixel of every fourth row. */
  method Sample(p: Plane, b: Block) returns (sum: nat, count: nat)
    requires Inside(p, b)
    ensures sum == BlockSum(p, b) && count == BlockCount(b)
  {
    sum, count := 0, 0;
    var yy := b.y0;
    while yy < b.y1
      invariant b.y0 <= yy
      invariant sum + BlockSum(p, b.(y0 := yy)) == BlockSum(p, b)
      invariant count + BlockCount(b.(y0 := yy)) == BlockCount(b)
    {
      var rowSum, rowCount := SampleRow(p, b.x0, b.x1, yy);
      CountStep(b.(y0 := yy));
      sum, count := sum + rowSum, count + rowCount;
      yy := yy + 4;
    }
  }

  lemma CountStep(b: Block)
    requires b.y0 < b.y1
    ensures BlockCount(b) == Steps(b.x0, b.x1) + BlockCount(b.(y0 := b.y0 + 4))
  {
    OneMore(Steps(b.x0, b.x1), Steps(b.y0 + 4, b.y1));
  }

  method SampleRow(p: Plane, x0: nat, x1: nat, py: nat) returns (sum: nat, count: nat)
    requires p.Valid() && x1 <= p.width && py < p.height
    ensures sum == RowSum(p, x0, x1, py) && count == Steps(x0, x1)
  {
    sum, count := 0, 0;
    var xx := x0;
    while xx < x1
      invariant x0 <= xx
      invariant sum + RowSum(p, xx, x1, py) == RowSum(p, x0, x1, py)
      invariant count + Steps(xx, x1) == Steps(x0, x1)
    {
      sum, count := sum + p.At(xx, py), count + 1;
      xx := xx + 4;
    }
  }

  method MeanOf(p: Plane, b: Block) returns (mean: nat)
    requires Inside(p, b)
    ensures mean == BlockMean(p, b)
  {
    var sum, count := Sample(p, b);
    mean := MeanLuma(sum, count);
  }

  method GridRow(p: Plane, cols: nat, rows: nat, r: nat) returns (means: seq<nat>)
    requires Accepted(p, cols, rows) && r < rows
    ensures means == RowMeans(p, cols, rows, r, cols)
  {
    means := [];
    for c := 0 to cols
      invariant means == RowMeans(p, cols, rows, r, c)
    {
      var mean := MeanOf(p, Cell(p.width, p.height, cols, rows, r, c));
      means := means + [mean];
    }
  }

  /** `luma_grid`: for an accepted geometry, the mean of every cell's samples; nothing otherwise. */
  method GridOf(p: Plane, cols: nat, rows: nat) returns (grid: seq<nat>)
    ensures !Accepted(p, cols, rows) ==> grid == []
    ensures Accepted(p, cols, rows) ==> grid == Means(p, cols, rows, rows)
  {
    grid := [];
    if cols == 0 || rows == 0 || p.width < cols || p.height < rows || p.stride < p.width
      || |p.y| < p.stride * (p.height - 1) + p.width
    {
      return;
    }
    assert p.stride * (p.height - 1) == (p.height - 1) * p.stride;
    for r := 0 to rows
      invariant grid == Means(p, cols, rows, r)
    {
      var means := GridRow(p, cols, rows, r);
      grid := grid + means;
    }
  }

  /** `grid_changed` */
  predicate GridChanged(a: seq<nat>, b: seq<nat>, threshold: nat) {
    |a| != |b| || exists i :: 0 <= i < |a| && (a[i] > b[i] + threshold || b[i] > a[i] + threshold)
  }

  // ---- What counts as a change ----

  lemma GridsConcat(a: seq<nat>, a': seq<nat>, b: seq<nat>, b': seq<nat>, t: nat)
    requires |a| == |a'| && |b| == |b'|
    ensures GridChanged(a + b, a' + b', t) <==> GridChanged(a, a', t) || GridChanged(b, b', t)
  {
    if i :| 0 <= i < |a| && (a[i] > a'[i] + t || a'[i] > a[i] + t) {
      assert (a + b)[i] == a[i] && (a' + b')[i] == a'[i];
    }
    if i :| 0 <= i < |b| && (b[i] > b'[i] + t || b'[i] > b[i] + t) {
      assert (a + b)[|a| + i] == b[i] && (a' + b')[|a| + i] == b'[i];
    }
  }

  predicate SameShape(p: Plane, p': Plane) { p.stride == p'.stride && p.width == p'.width && p.height == p'.height }

  /** Both pictures in an accepted geometry of the same shape. */
  ghost predicate Comparable(p: Plane, p': Plane, cols: nat, rows: nat) {
    Accepted(p, cols, rows) && Accepted(p', cols, rows) && SameShape(p, p')
  }

  /** No sampled pixel of the cell moved by more than `t`. */
  ghost predicate CellClose(p: Plane, p': Plane, cols: nat, rows: nat, t: nat, r: nat, c: nat)
    requires Comparable(p, p', cols, rows) && r < rows && c < cols
  {
    && Rises(p, p', Cell(p.width, p.height, cols, rows, r, c), 0 - t)
    && Rises(p', p, Cell(p.width, p.height, cols, rows, r, c), 0 - t)
  }

  /** All sampled pixels of the cell brightened by more than `t`. */
  ghost predicate CellBrighter(p: Plane, p': Plane, cols: nat, rows: nat, t: nat, r: nat, c: nat)
    requires Comparable(p, p', cols, rows) && r < rows && c < cols
  {
    Rises(p, p', Cell(p.width, p.height, cols, rows, r, c), t + 1)
  }

  lemma CloseBlocks(p: Plane, p': Plane, b: Block, t: nat)
    requires Inside(p, b) && Inside(p', b) && b.x0 < b.x1 && b.y0 < b.y1
    requires Rises(p, p', b, 0 - t) && Rises(p', p, b, 0 - t)
    ensures BlockMean(p, b) <= BlockMean(p', b) + t && BlockMean(p', b) <= BlockMean(p, b) + t
  {
    CountPositive(b);
    MeanRises(p, p', b, 0 - t);
    MeanRises(p', p, b, 0 - t);
  }

  lemma CloseMeans(p: Plane, p': Plane, cols: nat, rows: nat, t: nat, r: nat, c: nat)
    requires Comparable(p, p', cols, rows) && r < rows && c < cols && CellClose(p, p', cols, rows, t, r, c)
    ensures var (m, m') := (CellMean(p, cols, rows, r, c), CellMean(p', cols, rows, r, c)); m <= m' + t && m' <= m + t
  {
    CloseBlocks(p, p', Cell(p.width, p.height, cols, rows, r, c), t);
  }

  /** The cell's mean moved by at most `t`, either way. */
  ghost predicate MeanStays(p: Plane, p': Plane, cols: nat, rows: nat, t: nat, r: nat, c: nat)
    requires Comparable(p, p', cols, rows) && r < rows && c < cols
  {
    var (m, m') := (CellMean(p, cols, rows, r, c), CellMean(p', cols, rows, r, c));
    m <= m' + t && m' <= m + t
  }

  ghost predicate RowStays(p: Plane, p': Plane, cols: nat, rows: nat, t: nat, r: nat)
    requires Comparable(p, p', cols, rows) && r < rows
  {
    forall c :: 0 <= c < cols ==> MeanStays(p, p', cols, rows, t, r, c)
  }

  lemma RowUnchangedIff(p: Plane, p': Plane, cols: nat, rows: nat, t: nat, r: nat)
    requires Comparable(p, p', cols, rows) && r < rows
    ensures !GridChanged(RowMeans(p, cols, rows, r, cols), RowMeans(p', cols, rows, r, cols), t) <==>
            RowStays(p, p', cols, rows, t, r)
  {
    var g, g' := RowMeans(p, cols, rows, r, cols), RowMeans(p', cols, rows, r, cols);
    forall c | 0 <= c < cols
      ensures MeanStays(p, p', cols, rows, t, r, c) <==> g[c] <= g'[c] + t && g'[c] <= g[c] + t
    {
      RowMeansAt(p, cols, rows, r, cols, c);
      RowMeansAt(p', cols, rows, r, cols, c);
    }
  }

  /** One more grid row changes the verdict only if that row changed. */
  lemma NextRow(p: Plane, p': Plane, cols: nat, rows: nat, t: nat, r: nat)
    requires Comparable(p, p', cols, rows) && r < rows
    ensures GridChanged(Means(p, cols, rows, r + 1), Means(p', cols, rows, r + 1), t) <==>
              || GridChanged(Means(p, cols, rows, r), Means(p', cols, rows, r), t)
              || GridChanged(RowMeans(p, cols, rows, r, cols), RowMeans(p', cols, rows, r, cols), t)
  {
    MeansSize(p, cols, rows, r);
    MeansSize(p', cols, rows, r);
    GridsConcat(Means(p, cols, rows, r), Means(p', cols, rows, r),
                RowMeans(p, cols, rows, r, cols), RowMeans(p', cols, rows, r, cols), t);
  }

  /** A flag that is raised by the first place not staying. */
  lemma {:induction false} RaisedIff(raised: seq<bool>, stays: seq<bool>, n: nat)
    requires n <= |stays| && |raised| == |stays| + 1 && !raised[0]
    requires forall k :: 0 <= k < |stays| ==> raised[k + 1] == (raised[k] || !stays[k])
    ensures !raised[n] <==> forall k :: 0 <= k < n ==> stays[k]
  {
    if n > 0 {
      RaisedIff(raised, stays, n - 1);
      assert raised[(n - 1) + 1] == (raised[n - 1] || !stays[n - 1]);
    }
  }

  ghost function Raised(p: Plane, p': Plane, cols: nat, rows: nat, t: nat): (raised: seq<bool>)
    requires Comparable(p, p', cols, rows)
    ensures |raised| == rows + 1
    ensures forall n :: 0 <= n <= rows ==>
              raised[n] == GridChanged(Means(p, cols, rows, n), Means(p', cols, rows, n), t)
  {
    seq(rows + 1, (n: nat) requires n <= rows => GridChanged(Means(p, cols, rows, n), Means(p', cols, rows, n), t))
  }

  ghost function Stays(p: Plane, p': Plane, cols: nat, rows: nat, t: nat): (stays: seq<bool>)
    requires Comparable(p, p', cols, rows)
    ensures |stays| == rows && forall r :: 0 <= r < rows ==> stays[r] == RowStays(p, p', cols, rows, t, r)
  {
    seq(rows, (r: nat) requires r < rows => RowStays(p, p', cols, rows, t, r))
  }

  lemma RaisedStep(p: Plane, p': Plane, cols: nat, rows: nat, t: nat, n: nat)
    requires Comparable(p, p', cols, rows) && n < rows
    ensures GridChanged(Means(p, cols, rows, n + 1), Means(p', cols, rows, n + 1), t) <==>
            GridChanged(Means(p, cols, rows, n), Means(p', cols, rows, n), t) || !RowStays(p, p', cols, rows, t, n)
  {
    RowUnchangedIff(p, p', cols, rows, t, n);
    NextRow(p, p', cols, rows, t, n);
  }

  /** Of two pictures of one shape, no change is reported exactly if no cell's mean moved by more than
      `t`, brighter or darker. */
  lemma UnchangedIff(p: Plane, p': Plane, cols: nat, rows: nat, t: nat)
    requires Comparable(p, p', cols, rows)
    ensures !GridChanged(Means(p, cols, rows, rows), Means(p', cols, rows, rows), t) <==>
            forall r :: 0 <= r < rows ==> RowStays(p, p', cols, rows, t, r)
  {
    var raised, stays := Raised(p, p', cols, rows, t), Stays(p, p', cols, rows, t);
    forall n | 0 <= n < rows ensures raised[n + 1] == (raised[n] || !stays[n]) {
      RaisedStep(p, p', cols, rows, t, n);
    }
    RaisedIff(raised, stays, rows);
  }

  /** If no sampled pixel differs by more than `t`, no change is reported, despite truncated means. */
  lemma SmallChangesIgnored(p: Plane, p': Plane, cols: nat, rows: nat, t: nat)
    requires Comparable(p, p', cols, rows)
    requires forall r, c :: 0 <= r < rows && 0 <= c < cols ==> CellClose(p, p', cols, rows, t, r, c)
    ensures !GridChanged(Means(p, cols, rows, rows), Means(p', cols, rows, rows), t)
  {
    forall r, c | 0 <= r < rows && 0 <= c < cols ensures MeanStays(p, p', cols, rows, t, r, c) {
      assert CellClose(p, p', cols, rows, t, r, c);
      CloseMeans(p, p', cols, rows, t, r, c);
    }
    forall r | 0 <= r < rows ensures RowStays(p, p', cols, rows, t, r) {}
    UnchangedIff(p, p', cols, rows, t);
  }

  lemma BrighterMean(p: Plane, p': Plane, cols: nat, rows: nat, t: nat, r: nat, c: nat)
    requires Comparable(p, p', cols, rows) && r < rows && c < cols && CellBrighter(p, p', cols, rows, t, r, c)
    ensures CellMean(p', cols, rows, r, c) > CellMean(p, cols, rows, r, c) + t
  {
    var b := Cell(p.width, p.height, cols, rows, r, c);
    CountPositive(b);
    MeanRises(p, p', b, t + 1);
  }

  /** A cell whose samples all brighten by more than `t`, or all darken by more than `t`, is always
      reported. */
  lemma LargeChangeShows(p: Plane, p': Plane, cols: nat, rows: nat, t: nat, r: nat, c: nat)
    requires Comparable(p, p', cols, rows) && r < rows && c < cols
    requires CellBrighter(p, p', cols, rows, t, r, c) || CellBrighter(p', p, cols, rows, t, r, c)
    ensures GridChanged(Means(p, cols, rows, rows), Means(p', cols, rows, rows), t)
  {
    if CellBrighter(p, p', cols, rows, t, r, c) {
      BrighterMean(p, p', cols, rows, t, r, c);
    } else {
      BrighterMean(p', p, cols, rows, t, r, c);
    }
    assert !MeanStays(p, p', cols, rows, t, r, c) && !RowStays(p, p', cols, rows, t, r);
    UnchangedIff(p, p', cols, rows, t);
  }

  /** A mean of bytes is a byte, so narrowing it loses nothing. */
  lemma {:induction false} SumBounded(p: Plane, b: Block)
    requires Inside(p, b)
    ensures BlockSum(p, b) <= 255 * BlockCount(b)
    decreases b.y1 - b.y0
  {
    if b.y0 < b.y1 {
      SumBounded(p, b.(y0 := b.y0 + 4));
      RowBounded(p, b.x0, b.x1, b.y0);
      Spread(255, Steps(b.x0, b.x1), Steps(b.y0 + 4, b.y1));
    }
  }

  lemma {:induction false} RowBounded(p: Plane, x0: nat, x1: nat, py: nat)
    requires p.Valid() && x1 <= p.width && py < p.height
    ensures RowSum(p, x0, x1, py) <= 255 * Steps(x0, x1)
    decreases x1 - x0
  {
    if x0 < x1 { RowBounded(p, x0 + 4, x1, py); }
  }

  lemma MeanIsByte(p: Plane, cols: nat, rows: nat, r: nat, c: nat)
    requires Accepted(p, cols, rows) && r < rows && c < cols
    ensures CellMean(p, cols, rows, r, c) < 0x100
  {
    var b := Cell(p.width, p.height, cols, rows, r, c);
    var n := BlockCount(b);
    CountPositive(b);
    SumBounded(p, b);
    DivMono(BlockSum(p, b), n * 255, n);
    DivShift(0, 255, n);
  }
}
