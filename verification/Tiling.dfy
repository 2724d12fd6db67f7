/** Detector tiling of crates/rkvm-vision/src/det.rs: tile positions by rounded division, and the
    choice of detector shape. */
module Tiling {
  import opened Arith
  import opened Options
  import opened Rects

  /** A stretch of an axis, `(position, length)`. */
  datatype Span = Span(pos: nat, len: nat)

  /** How many tiles an axis longer than one tile gets. */
  function TileCount(len: nat, tile: nat, overlap: nat): (n: nat)
    requires tile < len
    ensures n >= 2
  {
    var step := MaxNat(if tile >= overlap then tile - overlap else 0, 1);
    MaxNat(DivCeil(len - MinNat(overlap, len), step), 2)
  }

  /** The `i`th of `count` positions from 0 to `span`, rounded to the nearest pixel. */
  function Position(span: nat, count: nat, i: nat): nat
    requires count >= 2
  {
    (span * i + (count - 1) / 2) / (count - 1)
  }

  function AxisPositions(len: nat, tile: nat, overlap: nat): seq<Span> {
    if len == 0 || tile == 0 then []
    else if len <= tile then [Span(0, len)]
    else
      var count := TileCount(len, tile, overlap);
      seq(count, (i: nat) => Span(Position(len - tile, count, i), tile))
  }

  // ---- Rounded positions ----

  lemma PositionEnds(span: nat, count: nat)
    requires count >= 2
    ensures Position(span, count, 0) == 0 && Position(span, count, count - 1) == span
  {
    var d := count - 1;
    assert d / 2 < d by { DivBounds(d, 2); }
    DivUnique(d / 2, d, 0, d / 2);
    DivUnique(span * d + d / 2, d, span, d / 2);
  }

  /** Positions are equal shares of the span, rounded to the nearest pixel, halves up. */
  lemma PositionNearest(span: nat, count: nat, i: nat, share: nat, pos: nat)
    requires count >= 2 && share == span * i && pos == Position(span, count, i)
    ensures 2 * share < 2 * (pos * (count - 1)) + (count - 1)
    ensures 2 * (pos * (count - 1)) <= 2 * share + (count - 1)
  {
    DivBounds(share + (count - 1) / 2, count - 1);
  }

  /** Equal shares between `lo` and `hi` land between `lo` and `hi` pixels apart after rounding. */
  lemma PositionGap(span: nat, count: nat, i: nat, lo: nat, hi: nat)
    requires count >= 2 && lo * (count - 1) <= span <= hi * (count - 1)
    ensures Position(span, count, i) + lo <= Position(span, count, i + 1) <= Position(span, count, i) + hi
  {
    var d := count - 1;
    var a := span * i + d / 2;
    assert span * (i + 1) + d / 2 == a + span;
    DivMono(a + d * lo, a + span, d);
    DivMono(a + span, a + d * hi, d);
    DivShift(a, lo, d);
    DivShift(a, hi, d);
  }

  /** For `overlap < tile < len` the gaps number `ceil((len - tile) / (tile - overlap))`. */
  lemma CountTight(len: nat, tile: nat, overlap: nat)
    requires overlap < tile < len
    ensures var (d, step) := (TileCount(len, tile, overlap) - 1, tile - overlap);
            1 <= d <= len - tile && step * (d - 1) < len - tile <= step * d
  {
    var step := tile - overlap;
    var n := DivCeil(len - overlap, step);
    assert step * n >= len - overlap > step;
    assert n >= 2 by { if n <= 1 { MulMono(n, 1, step); assert false; } }
    assert TileCount(len, tile, overlap) == n;
    var d := n - 1;
    assert step * (d - 1) == step * n - 2 * step;
    assert step * d == step * n - step;
    if len - tile < d { MulMono(1, step, d - 1); assert false; }
  }

  /** A cover of `[0, len)` by tiles of length `tile` whose neighbours share at least `overlap`. */
  ghost predicate Covers(ps: seq<Span>, len: nat, tile: nat, overlap: nat) {
    && ps != [] && ps[0].pos == 0 && ps[|ps| - 1].pos + tile == len
    && (forall i :: 0 <= i < |ps| ==> ps[i].len == tile)
    && (forall i :: 0 < i < |ps| ==> ps[i].pos + overlap <= ps[i - 1].pos + tile)
  }

  ghost predicate Increasing(ps: seq<Span>) {
    forall i :: 0 < i < |ps| ==> ps[i - 1].pos < ps[i].pos
  }

  /** Tiles start at 0, end at the far edge, strictly advance and overlap enough. */
  lemma TilesCover(len: nat, tile: nat, overlap: nat)
    requires overlap < tile < len
    ensures var ps := AxisPositions(len, tile, overlap); Covers(ps, len, tile, overlap) && Increasing(ps)
  {
    var count := TileCount(len, tile, overlap);
    var ps := AxisPositions(len, tile, overlap);
    CountTight(len, tile, overlap);
    PositionEnds(len - tile, count);
    forall i | 0 < i < |ps| ensures ps[i - 1].pos < ps[i].pos && ps[i].pos + overlap <= ps[i - 1].pos + tile {
      PositionGap(len - tile, count, i - 1, 1, tile - overlap);
    }
  }

  lemma {:induction false} NoAdvance(ps: seq<Span>, len: nat, tile: nat, overlap: nat, k: nat)
    requires Covers(ps, len, tile, overlap) && tile <= overlap && k < |ps|
    ensures ps[k].pos == 0
  {
    if k > 0 { NoAdvance(ps, len, tile, overlap, k - 1); }
  }

  /** The promised overlap is kept exactly when the tile is larger than it. */
  lemma TilesCoverIff(len: nat, tile: nat, overlap: nat)
    requires 0 < tile < len
    ensures Covers(AxisPositions(len, tile, overlap), len, tile, overlap) <==> overlap < tile
  {
    var ps := AxisPositions(len, tile, overlap);
    if overlap < tile {
      TilesCover(len, tile, overlap);
    } else if Covers(ps, len, tile, overlap) {
      NoAdvance(ps, len, tile, overlap, |ps| - 1);
    }
  }

  lemma {:induction false} CoverReach(ps: seq<Span>, len: nat, tile: nat, overlap: nat, k: nat)
    requires Covers(ps, len, tile, overlap) && overlap < tile && k < |ps|
    ensures ps[k].pos <= (tile - overlap) * k
  {
    if k > 0 {
      CoverReach(ps, len, tile, overlap, k - 1);
      assert (tile - overlap) * k == (tile - overlap) * (k - 1) + (tile - overlap);
    }
  }

  /** No cover has fewer tiles. */
  lemma TilesMinimal(ps: seq<Span>, len: nat, tile: nat, overlap: nat)
    requires overlap < tile < len && Covers(ps, len, tile, overlap)
    ensures |AxisPositions(len, tile, overlap)| <= |ps|
  {
    var step, d := tile - overlap, TileCount(len, tile, overlap) - 1;
    CountTight(len, tile, overlap);
    CoverReach(ps, len, tile, overlap, |ps| - 1);
    if |ps| - 1 <= d - 1 {
      MulMono(|ps| - 1, d - 1, step);
      assert false;
    }
  }

  // ---- Nothing small is cut ----

  /** The last tile starting at or before `a`. */
  lemma {:induction false} TileAt(ps: seq<Span>, a: nat, k: nat) returns (i: nat)
    requires k < |ps| && ps[0].pos == 0
    ensures i <= k && ps[i].pos <= a && (i < k ==> a < ps[i + 1].pos)
  {
    if ps[k].pos <= a {
      i := k;
    } else {
      assert k > 0;
      i := TileAt(ps, a, k - 1);
    }
  }

  ghost predicate SpanHolds(s: Span, a: nat, l: nat) { s.pos <= a && a + l <= s.pos + s.len }

  /** Any stretch no longer than the overlap and one pixel lies inside a single tile. */
  lemma StretchInOneTile(len: nat, tile: nat, overlap: nat, a: nat, l: nat) returns (i: nat)
    requires overlap < tile && 0 < l <= overlap + 1 && a + l <= len
    ensures var ps := AxisPositions(len, tile, overlap); i < |ps| && SpanHolds(ps[i], a, l)
  {
    var ps := AxisPositions(len, tile, overlap);
    if len <= tile {
      i := 0;
    } else {
      TilesCover(len, tile, overlap);
      i := TileAt(ps, a, |ps| - 1);
    }
  }

  // ---- The plane ----

  function RowOf(xs: seq<Span>, y: Span): seq<Rect> {
    seq(|xs|, (i: nat) requires i < |xs| => Rect(xs[i].pos, y.pos, xs[i].len, y.len))
  }

  function Product(xs: seq<Span>, ys: seq<Span>): seq<Rect> {
    if ys == [] then [] else RowOf(xs, ys[0]) + Product(xs, ys[1..])
  }

  function PlanTiles(width: nat, height: nat, tileW: nat, tileH: nat, overlap: nat): seq<Rect> {
    Product(AxisPositions(width, tileW, overlap), AxisPositions(height, tileH, overlap))
  }

  lemma {:induction false} ProductSize(xs: seq<Span>, ys: seq<Span>)
    ensures |Product(xs, ys)| == |xs| * |ys|
  {
    if ys != [] {
      ProductSize(xs, ys[1..]);
      assert |xs| * |ys| == |xs| + |xs| * (|ys| - 1);
    }
  }

  /** Row by row: the tile in column `i` of row `j` is entry `k == j * |xs| + i`. */
  lemma {:induction false} ProductAt(xs: seq<Span>, ys: seq<Span>, i: nat, j: nat, k: nat)
    requires i < |xs| && j < |ys| && k == j * |xs| + i
    ensures k < |Product(xs, ys)| && Product(xs, ys)[k] == Rect(xs[i].pos, ys[j].pos, xs[i].len, ys[j].len)
  {
    if j > 0 {
      assert j * |xs| == (j - 1) * |xs| + |xs|;
      ProductAt(xs, ys[1..], i, j - 1, k - |xs|);
    }
  }

  ghost predicate Holds(r: Rect, x: nat, y: nat, w: nat, h: nat) {
    r.x <= x && x + w <= r.x + r.width && r.y <= y && y + h <= r.y + r.height
  }

  /** With tiles larger than the overlap, every rectangle of the area no larger than the overlap and
      one pixel on either side lies wholly inside one tile; single pixels in particular, so the tiles
      cover the area. */
  lemma SmallTextInOneTile(width: nat, height: nat, tileW: nat, tileH: nat, overlap: nat,
                           x: nat, y: nat, w: nat, h: nat)
    requires overlap < tileW && overlap < tileH
    requires 0 < w <= overlap + 1 && 0 < h <= overlap + 1 && x + w <= width && y + h <= height
    ensures exists t :: t in PlanTiles(width, height, tileW, tileH, overlap) && Holds(t, x, y, w, h)
  {
    var xs, ys := AxisPositions(width, tileW, overlap), AxisPositions(height, tileH, overlap);
    var i := StretchInOneTile(width, tileW, overlap, x, w);
    var j := StretchInOneTile(height, tileH, overlap, y, h);
    ProductAt(xs, ys, i, j, j * |xs| + i);
    assert Holds(Rect(xs[i].pos, ys[j].pos, xs[i].len, ys[j].len), x, y, w, h);
  }

  /** Every tile lies inside the area. */
  lemma TilesInside(width: nat, height: nat, tileW: nat, tileH: nat, overlap: nat, t: Rect)
    requires overlap < tileW && overlap < tileH && t in PlanTiles(width, height, tileW, tileH, overlap)
    ensures t.x + t.width <= width && t.y + t.height <= height && t.width <= tileW && t.height <= tileH
  {
    var xs, ys := AxisPositions(width, tileW, overlap), AxisPositions(height, tileH, overlap);
    var i, j := ProductFrom(xs, ys, t);
    SpanInside(width, tileW, overlap, i);
    SpanInside(height, tileH, overlap, j);
  }

  lemma {:induction false} ProductFrom(xs: seq<Span>, ys: seq<Span>, t: Rect) returns (i: nat, j: nat)
    requires t in Product(xs, ys)
    ensures i < |xs| && j < |ys| && t == Rect(xs[i].pos, ys[j].pos, xs[i].len, ys[j].len)
  {
    if t in RowOf(xs, ys[0]) {
      var k :| 0 <= k < |xs| && RowOf(xs, ys[0])[k] == t;
      i, j := k, 0;
    } else {
      i, j := ProductFrom(xs, ys[1..], t);
      j := j + 1;
    }
  }

  lemma {:induction false} IncreasingBelow(ps: seq<Span>, i: nat, j: nat)
    requires Increasing(ps) && i <= j < |ps|
    ensures ps[i].pos <= ps[j].pos
  {
    if i < j { IncreasingBelow(ps, i, j - 1); }
  }

  lemma SpanInside(len: nat, tile: nat, overlap: nat, i: nat)
    requires overlap < tile && i < |AxisPositions(len, tile, overlap)|
    ensures var s := AxisPositions(len, tile, overlap)[i]; s.pos + s.len <= len && s.len <= tile
  {
    if tile < len {
      var ps := AxisPositions(len, tile, overlap);
      TilesCover(len, tile, overlap);
      IncreasingBelow(ps, i, |ps| - 1);
    }
  }

  // ---- Choosing a shape ----

  const PASS_OVERHEAD_PIXELS: nat := 50_000

  predicate Eligible(shape: (nat, nat), overlap: nat) { shape.0 > overlap && shape.1 > overlap }

  /** Rounds of parallel passes times the cost of one, then the number of tiles. */
  function Cost(shape: (nat, nat), width: nat, height: nat, overlap: nat, cores: nat): (nat, nat) {
    var tiles := |PlanTiles(width, height, shape.0, shape.1, overlap)|;
    var rounds := DivCeil(tiles, MaxNat(cores, 1));
    var area: nat := shape.0 * shape.1;
    MulMono(0, rounds, area + PASS_OVERHEAD_PIXELS);
    (rounds * (area + PASS_OVERHEAD_PIXELS), tiles)
  }

  /** The cost of a shape is the time all its tiles take: as many rounds as `cores` at a time need, no
      round to spare, each as long as one pass over a tile and its overhead; and then their number. */
  lemma CostIsTime(shape: (nat, nat), width: nat, height: nat, overlap: nat, cores: nat, n: nat, c: nat)
    returns (rounds: nat)
    requires n == |AxisPositions(width, shape.0, overlap)| * |AxisPositions(height, shape.1, overlap)|
    requires c == MaxNat(cores, 1)
    ensures Cost(shape, width, height, overlap, cores) == (rounds * (shape.0 * shape.1 + 50_000), n)
    ensures n <= c * rounds && (rounds > 0 ==> c * (rounds - 1) < n)
  {
    ProductSize(AxisPositions(width, shape.0, overlap), AxisPositions(height, shape.1, overlap));
    rounds := DivCeil(n, c);
  }

  predicate Less(a: (nat, nat), b: (nat, nat)) { a.0 < b.0 || (a.0 == b.0 && a.1 < b.1) }

  /** `min_by_key` over the first `n` candidates: the earliest least one, a None being filtered out. */
  function FirstLeast(keys: seq<Option<(nat, nat)>>, n: nat): (r: Option<nat>)
    requires n <= |keys|
    ensures r.None? <==> forall i :: 0 <= i < n ==> keys[i].None?
    ensures r.Some? ==>
              && r.value < n && keys[r.value].Some?
              && (forall i :: 0 <= i < n && keys[i].Some? ==> !Less(keys[i].value, keys[r.value].value))
              && (forall i :: 0 <= i < r.value && keys[i].Some? ==> Less(keys[r.value].value, keys[i].value))
  {
    if n == 0 then None
    else
      var best := FirstLeast(keys, n - 1);
      if keys[n - 1].None? then best
      else if best.None? || Less(keys[n - 1].value, keys[best.value].value) then Some(n - 1)
      else best
  }

  function Key(shape: (nat, nat), width: nat, height: nat, overlap: nat, cores: nat): Option<(nat, nat)> {
    if Eligible(shape, overlap) then Some(Cost(shape, width, height, overlap, cores)) else None
  }

  function ChooseShape(shapes: seq<(nat, nat)>, width: nat, height: nat, overlap: nat, cores: nat): Option<nat> {
    var keys := seq(|shapes|, (i: nat) requires i < |shapes| => Key(shapes[i], width, height, overlap, cores));
    FirstLeast(keys, |shapes|)
  }

  /** Some tile holds the whole rectangle. */
  ghost predicate Uncut(tiles: seq<Rect>, x: nat, y: nat, w: nat, h: nat) {
    exists t :: t in tiles && Holds(t, x, y, w, h)
  }

  /** No text box up to the overlap and a pixel in size is cut by these tiles. */
  ghost predicate KeepsSmallText(tiles: seq<Rect>, width: nat, height: nat, overlap: nat) {
    forall x: nat, y: nat, w: nat, h: nat {:trigger Uncut(tiles, x, y, w, h)} ::
      0 < w <= overlap + 1 && 0 < h <= overlap + 1 && x + w <= width && y + h <= height ==> Uncut(tiles, x, y, w, h)
  }

  lemma EligibleKeepsSmallText(shape: (nat, nat), width: nat, height: nat, overlap: nat)
    requires Eligible(shape, overlap)
    ensures KeepsSmallText(PlanTiles(width, height, shape.0, shape.1, overlap), width, height, overlap)
  {
    var tiles := PlanTiles(width, height, shape.0, shape.1, overlap);
    forall x: nat, y: nat, w: nat, h: nat {:trigger Uncut(tiles, x, y, w, h)} |
      0 < w <= overlap + 1 && 0 < h <= overlap + 1 && x + w <= width && y + h <= height
      ensures Uncut(tiles, x, y, w, h)
    {
      SmallTextInOneTile(width, height, shape.0, shape.1, overlap, x, y, w, h);
    }
  }

  /** The chosen shape takes the least time of all eligible ones, has the fewest tiles among those, and
      comes first among those again, and its tiles cut no small text; nothing is chosen exactly when no
      shape exceeds the overlap on both axes. */
  lemma ChosenShapeServes(shapes: seq<(nat, nat)>, width: nat, height: nat, overlap: nat, cores: nat)
    ensures var r := ChooseShape(shapes, width, height, overlap, cores);
            && (r.None? <==> forall i :: 0 <= i < |shapes| ==> shapes[i].0 <= overlap || shapes[i].1 <= overlap)
            && (r.Some? ==>
                  && r.value < |shapes| && shapes[r.value].0 > overlap && shapes[r.value].1 > overlap
                  && (forall i :: 0 <= i < |shapes| && shapes[i].0 > overlap && shapes[i].1 > overlap ==>
                        var (a, b) := (Cost(shapes[r.value], width, height, overlap, cores),
                                       Cost(shapes[i], width, height, overlap, cores));
                        a.0 < b.0 || (a.0 == b.0 && (a.1 < b.1 || (a.1 == b.1 && r.value <= i))))
                  && KeepsSmallText(PlanTiles(width, height, shapes[r.value].0, shapes[r.value].1, overlap),
                                    width, height, overlap))
  {
    var keys := seq(|shapes|, (i: nat) requires i < |shapes| => Key(shapes[i], width, height, overlap, cores));
    var r := FirstLeast(keys, |shapes|);
    forall i | 0 <= i < |shapes| ensures keys[i] == Key(shapes[i], width, height, overlap, cores) {}
    if r.Some? { EligibleKeepsSmallText(shapes[r.value], width, height, overlap); }
  }
}
