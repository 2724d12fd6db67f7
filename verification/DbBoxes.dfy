/** Text detection post-processing of crates/rkvm-vision/src/det.rs: a flood fill proved to find
    exactly the 4-connected components of the pixels above the threshold. */
module DbBoxes {
  import opened Arith
  import opened Lists
  import opened TextBoxes

  datatype DbParams = DbParams(thresh: real, boxThresh: real, unclipRatio: real, minSize: real)

  /** A probability map of `w * h` pixels in row-major order. */
  datatype Grid = Grid(prob: seq<real>, w: nat, h: nat, thresh: real) {
    function Size(): nat { w * h }
    ghost predicate Valid() { Size() <= |prob| }

    /** A pixel above the threshold. */
    predicate Ink(i: nat) { i < Size() && i < |prob| && prob[i] > thresh }
  }

  // ---- Connected components ----

  function X(g: Grid, i: nat): nat requires g.w > 0 { i % g.w }
  function Y(g: Grid, i: nat): nat requires g.w > 0 { i / g.w }

  /** Two pixels share an edge. */
  ghost predicate Adjacent(g: Grid, i: nat, j: nat)
    requires g.w > 0
  {
    || (Y(g, i) == Y(g, j) && (X(g, i) == X(g, j) + 1 || X(g, j) == X(g, i) + 1))
    || (X(g, i) == X(g, j) && (Y(g, i) == Y(g, j) + 1 || Y(g, j) == Y(g, i) + 1))
  }

  /** Pixels above the threshold, each sharing an edge with the one before. */
  ghost predicate IsPath(g: Grid, p: seq<nat>) {
    && g.w > 0 && p != []
    && (forall k :: 0 <= k < |p| ==> g.Ink(p[k]))
    && (forall k :: 0 < k < |p| ==> Adjacent(g, p[k - 1], p[k]))
  }

  ghost predicate Connected(g: Grid, i: nat, j: nat) {
    exists p :: IsPath(g, p) && p[0] == i && p[|p| - 1] == j
  }

  ghost function Component(g: Grid, i: nat): set<nat> {
    set j: nat | j < g.Size() && Connected(g, i, j)
  }

  /** The first pixel of its component in row-major order. */
  ghost predicate Leads(g: Grid, i: nat) {
    g.Ink(i) && forall j :: j in Component(g, i) ==> i <= j
  }

  /** A set of pixels that no path of ink leaves. */
  ghost predicate Closed(g: Grid, s: set<nat>)
    requires g.w > 0
  {
    forall i, j :: i in s && g.Ink(j) && Adjacent(g, i, j) ==> j in s
  }

  lemma {:induction false} PathStays(g: Grid, s: set<nat>, p: seq<nat>)
    requires IsPath(g, p) && Closed(g, s) && p[0] in s
    ensures p[|p| - 1] in s
  {
    if |p| > 1 {
      assert Adjacent(g, p[0], p[1]);
      forall k | 0 < k < |p[1..]| ensures Adjacent(g, p[1..][k - 1], p[1..][k]) {
        assert Adjacent(g, p[k], p[k + 1]);
      }
      PathStays(g, s, p[1..]);
    }
  }

  lemma ClosedHoldsConnected(g: Grid, s: set<nat>, i: nat, j: nat)
    requires g.w > 0 && Closed(g, s) && i in s && Connected(g, i, j)
    ensures j in s
  {
    var p :| IsPath(g, p) && p[0] == i && p[|p| - 1] == j;
    PathStays(g, s, p);
  }

  lemma ConnectedSelf(g: Grid, i: nat)
    requires g.w > 0 && g.Ink(i)
    ensures Connected(g, i, i)
  {
    assert IsPath(g, [i]);
  }

  lemma ConnectedStep(g: Grid, i: nat, j: nat, k: nat)
    requires g.w > 0 && Connected(g, i, j) && g.Ink(k) && Adjacent(g, j, k)
    ensures Connected(g, i, k)
  {
    var p :| IsPath(g, p) && p[0] == i && p[|p| - 1] == j;
    assert IsPath(g, p + [k]);
  }

  lemma ConnectedSymmetric(g: Grid, i: nat, j: nat)
    requires Connected(g, i, j)
    ensures Connected(g, j, i)
  {
    var p :| IsPath(g, p) && p[0] == i && p[|p| - 1] == j;
    var q := seq(|p|, k requires 0 <= k < |p| => p[|p| - 1 - k]);
    forall k | 0 < k < |q| ensures Adjacent(g, q[k - 1], q[k]) {
      assert Adjacent(g, p[|p| - 1 - k], p[|p| - k]);
    }
    assert IsPath(g, q);
  }

  // ---- The neighbours the code visits ----

  /** The row-major neighbours of a pixel, as the four guards of the inner loop pick them. */
  ghost predicate Neighbour(g: Grid, i: nat, j: nat)
    requires g.w > 0
  {
    || (X(g, i) > 0 && j == i - 1)
    || (X(g, i) + 1 < g.w && j == i + 1)
    || (Y(g, i) > 0 && j == i - g.w)
    || (Y(g, i) + 1 < g.h && j == i + g.w)
  }

  /** One row further down is `w` pixels further on. */
  lemma NextRow(w: nat, y: nat)
    ensures w * (y + 1) == w * y + w
  {
  }

  lemma IndexOf(g: Grid, i: nat)
    requires g.w > 0
    ensures i == g.w * Y(g, i) + X(g, i)
  {
  }

  lemma AdjacentIsNeighbour(g: Grid, i: nat, j: nat)
    requires g.w > 0 && i < g.Size() && j < g.Size() && Adjacent(g, i, j)
    ensures Neighbour(g, i, j)
  {
    RowBound(g, j);
    IndexOf(g, i);
    IndexOf(g, j);
    NextRow(g.w, Y(g, i));
    NextRow(g.w, Y(g, j));
    IndexNeighbour(g.w, g.h, X(g, i), Y(g, i), i, X(g, j), Y(g, j), j);
  }

  lemma IndexNeighbour(w: nat, h: nat, x: nat, y: nat, i: nat, x': nat, y': nat, j: nat)
    requires x < w && x' < w && y' < h && i == w * y + x && j == w * y' + x'
    requires w * (y + 1) == w * y + w && w * (y' + 1) == w * y' + w
    requires (y == y' && (x == x' + 1 || x' == x + 1)) || (x == x' && (y == y' + 1 || y' == y + 1))
    ensures (x > 0 && j == i - 1) || (x + 1 < w && j == i + 1) || (y > 0 && j == i - w) || (y + 1 < h && j == i + w)
  {
  }

  lemma NeighbourIsAdjacent(g: Grid, i: nat, j: nat)
    requires g.w > 0 && i < g.Size() && Neighbour(g, i, j)
    ensures j < g.Size() && Adjacent(g, i, j)
  {
    var w, x, y := g.w, X(g, i), Y(g, i);
    IndexOf(g, i);
    RowBound(g, i);
    if x > 0 && j == i - 1 {
      At(g, x - 1, y, j);
    } else if x + 1 < w && j == i + 1 {
      At(g, x + 1, y, j);
    } else if y > 0 && j == i - w {
      NextRow(w, y - 1);
      At(g, x, y - 1, j);
    } else {
      NextRow(w, y);
      At(g, x, y + 1, j);
    }
  }

  /** The pixel at given coordinates. */
  lemma At(g: Grid, x: nat, y: nat, i: nat)
    requires x < g.w && y < g.h && i == g.w * y + x
    ensures i < g.Size() && X(g, i) == x && Y(g, i) == y
  {
    DivUnique(i, g.w, y, x);
    NextRow(g.w, y);
    MulMono(y + 1, g.h, g.w);
  }

  lemma RowBound(g: Grid, i: nat)
    requires g.w > 0 && i < g.Size()
    ensures Y(g, i) < g.h
  {
    DivBounds(i, g.w);
    if g.h <= Y(g, i) {
      MulMono(g.h, Y(g, i), g.w);
      assert false;
    }
  }

  // ---- What a component measures ----

  const USIZE_MAX: nat := 0xffff_ffff_ffff_ffff

  datatype Bounds = Bounds(minX: nat, maxX: nat, minY: nat, maxY: nat)
  datatype Stats = Stats(bounds: Bounds, sum: real, count: nat)

  /** The running bounds before the first pixel. */
  const UNBOUNDED := Bounds(USIZE_MAX, 0, USIZE_MAX, 0)

  ghost predicate IsLeast(s: set<nat>, m: nat) { m in s && forall x :: x in s ==> m <= x }
  ghost predicate IsGreatest(s: set<nat>, m: nat) { m in s && forall x :: x in s ==> x <= m }

  lemma {:induction false} Extremes(s: set<nat>) returns (lo: nat, hi: nat)
    requires s != {}
    ensures IsLeast(s, lo) && IsGreatest(s, hi)
  {
    var y :| y in s;
    lo, hi := y, y;
    if s - {y} != {} {
      var lo', hi' := Extremes(s - {y});
      lo, hi := MinNat(lo', y), MaxNat(hi', y);
    }
    forall x | x in s ensures lo <= x <= hi { assert x == y || x in s - {y}; }
  }

  ghost function Least(s: set<nat>): (m: nat)
    requires s != {}
    ensures IsLeast(s, m)
  {
    assert exists m :: IsLeast(s, m) by { var lo, hi := Extremes(s); }
    var m :| IsLeast(s, m); m
  }

  ghost function Greatest(s: set<nat>): (m: nat)
    requires s != {}
    ensures IsGreatest(s, m)
  {
    assert exists m :: IsGreatest(s, m) by { var lo, hi := Extremes(s); }
    var m :| IsGreatest(s, m); m
  }

  ghost function Xs(g: Grid, s: set<nat>): set<nat> requires g.w > 0 { set i | i in s :: X(g, i) }
  ghost function Ys(g: Grid, s: set<nat>): set<nat> requires g.w > 0 { set i | i in s :: Y(g, i) }

  /** The tight bounding box of a set of pixels. */
  ghost function BoundsOf(g: Grid, s: set<nat>): Bounds
    requires g.w > 0
  {
    if s == {} then UNBOUNDED
    else
      var i :| i in s;
      assert X(g, i) in Xs(g, s) && Y(g, i) in Ys(g, s);
      Bounds(Least(Xs(g, s)), Greatest(Xs(g, s)), Least(Ys(g, s)), Greatest(Ys(g, s)))
  }

  function Widen(b: Bounds, x: nat, y: nat): Bounds {
    Bounds(MinNat(b.minX, x), MaxNat(b.maxX, x), MinNat(b.minY, y), MaxNat(b.maxY, y))
  }

  lemma BoundsAdd(g: Grid, s: set<nat>, i: nat)
    requires g.w > 0 && i <= USIZE_MAX
    ensures BoundsOf(g, s + {i}) == Widen(BoundsOf(g, s), X(g, i), Y(g, i))
  {
    CoordinatesFit(g, i);
    assert Xs(g, s + {i}) == Xs(g, s) + {X(g, i)};
    assert Ys(g, s + {i}) == Ys(g, s) + {Y(g, i)};
  }

  lemma CoordinatesFit(g: Grid, i: nat)
    requires g.w > 0
    ensures X(g, i) <= i && Y(g, i) <= i
  {
    IndexOf(g, i);
    MulMono(1, g.w, Y(g, i));
  }

  /** The total probability of a set of pixels, taken over the first `n`. */
  ghost function Mass(prob: seq<real>, s: set<nat>, n: nat): real
    requires n <= |prob|
  {
    if n == 0 then 0.0 else Mass(prob, s, n - 1) + if n - 1 in s then prob[n - 1] else 0.0
  }

  lemma {:induction false} MassAdd(prob: seq<real>, s: set<nat>, i: nat, n: nat)
    requires n <= |prob| && i !in s
    ensures Mass(prob, s + {i}, n) == Mass(prob, s, n) + if i < n then prob[i] else 0.0
  {
    if n > 0 { MassAdd(prob, s, i, n - 1); }
  }

  lemma {:induction false} MassEmpty(prob: seq<real>, n: nat)
    requires n <= |prob|
    ensures Mass(prob, {}, n) == 0.0
  {
    if n > 0 { MassEmpty(prob, n - 1); }
  }

  ghost function StatsOf(g: Grid, s: set<nat>): Stats
    requires g.w > 0 && g.Valid()
  {
    Stats(BoundsOf(g, s), Mass(g.prob, s, g.Size()), |s|)
  }

  // ---- The flood fill ----

  ghost function Marked(seen: seq<bool>): set<nat> { set i: nat | i < |seen| && seen[i] }
  ghost function Elems(s: seq<nat>): set<nat> { set i | i in s }

  /** The closure `visit`: an unseen pixel of ink is marked and pushed. */
  method Visit(g: Grid, seen: array<bool>, stack: seq<nat>, j: nat) returns (stack': seq<nat>)
    requires g.Valid() && seen.Length == g.Size() && j < g.Size()
    modifies seen
    ensures var isNew := g.Ink(j) && j !in Marked(old(seen[..]));
            && stack' == (if isNew then stack + [j] else stack)
            && Marked(seen[..]) == Marked(old(seen[..])) + (if isNew then {j} else {})
  {
    stack' := stack;
    if !seen[j] && g.prob[j] > g.thresh {
      seen[j] := true;
      stack' := stack' + [j];
    }
  }

  /** The pixel on side `k` of `i`, or -1 where the picture ends. */
  ghost function Side(g: Grid, i: nat, k: nat): int
    requires g.w > 0
  {
    match k
    case 0 => if X(g, i) > 0 then i - 1 else -1
    case 1 => if X(g, i) + 1 < g.w then i + 1 else -1
    case 2 => if Y(g, i) > 0 then i - g.w else -1
    case _ => if Y(g, i) + 1 < g.h then i + g.w else -1
  }

  /** The unmarked ink on the first `k` sides of `i`. */
  ghost function Fringe(g: Grid, marked: set<nat>, i: nat, k: nat): set<nat>
    requires g.w > 0
  {
    if k == 0 then {}
    else
      var j := Side(g, i, k - 1);
      Fringe(g, marked, i, k - 1) + if j >= 0 && g.Ink(j) && j !in marked then {j} else {}
  }

  lemma {:induction false} InFringe(g: Grid, marked: set<nat>, i: nat, k: nat, j: nat)
    requires g.w > 0
    ensures j in Fringe(g, marked, i, k) <==>
              g.Ink(j) && j !in marked && exists l: nat :: l < k && Side(g, i, l) == j
  {
    if k > 0 { InFringe(g, marked, i, k - 1, j); }
  }

  lemma FringeIsAdjacent(g: Grid, marked: set<nat>, i: nat, j: nat)
    requires g.w > 0 && i < g.Size()
    ensures j in Fringe(g, marked, i, 4) <==> g.Ink(j) && j !in marked && Adjacent(g, i, j)
  {
    InFringe(g, marked, i, 4, j);
    if g.Ink(j) {
      if l: nat :| l < 4 && Side(g, i, l) == j { NeighbourIsAdjacent(g, i, j); }
      if Adjacent(g, i, j) {
        AdjacentIsNeighbour(g, i, j);
        assert Side(g, i, 0) == j || Side(g, i, 1) == j || Side(g, i, 2) == j || Side(g, i, 3) == j;
      }
    }
  }

  /** The four guarded visits: every unmarked pixel of ink next to `i` is marked and pushed once. */
  method VisitNeighbours(g: Grid, seen: array<bool>, stack: seq<nat>, i: nat) returns (stack': seq<nat>)
    requires g.Valid() && g.w > 0 && seen.Length == g.Size() && i < g.Size()
    requires Distinct(stack) && Elems(stack) <= Marked(seen[..])
    modifies seen
    ensures Marked(seen[..]) == Marked(old(seen[..])) + Fringe(g, Marked(old(seen[..])), i, 4)
    ensures Distinct(stack') && Elems(stack') == Elems(stack) + Fringe(g, Marked(old(seen[..])), i, 4)
  {
    ghost var m := Marked(seen[..]);
    var x, y := i % g.w, i / g.w;
    SidesInside(g, i);
    stack' := VisitSide(g, seen, stack, x > 0, i - 1, m, stack, i, 0);
    stack' := VisitSide(g, seen, stack', x + 1 < g.w, i + 1, m, stack, i, 1);
    stack' := VisitSide(g, seen, stack', y > 0, i - g.w, m, stack, i, 2);
    stack' := VisitSide(g, seen, stack', y + 1 < g.h, i + g.w, m, stack, i, 3);
  }

  /** The first `k` sides of `i` have been visited, starting from `marked` and `stack`. */
  ghost predicate Fringed(g: Grid, marked: set<nat>, stack: seq<nat>, i: nat, k: nat,
                          marked': set<nat>, stack': seq<nat>)
    requires g.w > 0
  {
    && marked' == marked + Fringe(g, marked, i, k)
    && Distinct(stack') && Elems(stack') == Elems(stack) + Fringe(g, marked, i, k)
    && Elems(stack') <= marked'
  }

  /** One guarded visit: `j` is looked at only when it lies inside the picture. */
  method VisitSide(g: Grid, seen: array<bool>, stack: seq<nat>, inside: bool, j: int,
                   ghost marked: set<nat>, ghost base: seq<nat>, ghost i: nat, ghost k: nat)
    returns (stack': seq<nat>)
    requires g.Valid() && g.w > 0 && seen.Length == g.Size() && (inside ==> 0 <= j < g.Size())
    requires Side(g, i, k) == (if inside then j else -1)
    requires Fringed(g, marked, base, i, k, Marked(seen[..]), stack)
    modifies seen
    ensures Fringed(g, marked, base, i, k + 1, Marked(seen[..]), stack')
  {
    stack' := stack;
    if inside {
      stack' := Visit(g, seen, stack, j);
      assert Elems(stack + [j]) == Elems(stack) + {j};
    }
  }

  lemma SidesInside(g: Grid, i: nat)
    requires g.w > 0 && i < g.Size()
    ensures forall k: nat :: Side(g, i, k) < g.Size()
    ensures Y(g, i) > 0 ==> i >= g.w
  {
    if Y(g, i) > 0 { RowAbove(g, i); }
    forall k: nat ensures Side(g, i, k) < g.Size() {
      if Side(g, i, k) >= 0 { NeighbourIsAdjacent(g, i, Side(g, i, k)); }
    }
  }

  lemma RowAbove(g: Grid, i: nat)
    requires g.w > 0 && Y(g, i) > 0
    ensures i >= g.w
  {
    IndexOf(g, i);
    MulMono(1, Y(g, i), g.w);
  }

  /** Midway through a fill: `order` has been popped, `stack` is waiting, `base` was marked before. */
  ghost predicate Filling(g: Grid, start: nat, base: set<nat>, order: seq<nat>, stack: seq<nat>, marked: set<nat>)
    requires g.w > 0
  {
    && Tracks(start, Component(g, start), base, order, stack, marked)
    && Surrounded(g, Elems(order), Elems(order) + Elems(stack))
  }

  /** The marks made since `base` are the popped and the waiting pixels, each once, inside `comp`. */
  ghost predicate Tracks(start: nat, comp: set<nat>, base: set<nat>,
                         order: seq<nat>, stack: seq<nat>, marked: set<nat>) {
    var visited := Elems(order) + Elems(stack);
    && marked == base + visited && base !! visited
    && Distinct(order) && Distinct(stack) && Elems(order) !! Elems(stack)
    && start in visited && visited <= comp
  }

  /** All ink next to `inner` lies in `outer`. */
  ghost predicate Surrounded(g: Grid, inner: set<nat>, outer: set<nat>)
    requires g.w > 0
  {
    forall i, j :: i in inner && g.Ink(j) && Adjacent(g, i, j) ==> j in outer
  }

  lemma AdjacentSymmetric(g: Grid, i: nat, j: nat)
    requires g.w > 0 && Adjacent(g, i, j)
    ensures Adjacent(g, j, i)
  {
  }

  /** What is new around `i` joins the component and was not marked before. */
  lemma FringeJoins(g: Grid, start: nat, marked: set<nat>, i: nat)
    requires g.w > 0 && i in Component(g, start)
    ensures Fringe(g, marked, i, 4) <= Component(g, start) && Fringe(g, marked, i, 4) !! marked
  {
    forall j | j in Fringe(g, marked, i, 4) ensures j in Component(g, start) && j !in marked {
      FringeIsAdjacent(g, marked, i, j);
      ConnectedStep(g, start, i, j);
    }
  }

  lemma FringeSurrounds(g: Grid, base: set<nat>, inner: set<nat>, visited: set<nat>, i: nat)
    requires g.w > 0 && Closed(g, base) && base !! visited && i in visited && g.Ink(i) && i < g.Size()
    requires Surrounded(g, inner, visited)
    ensures Surrounded(g, inner + {i}, visited + Fringe(g, base + visited, i, 4))
  {
    forall j | g.Ink(j) && Adjacent(g, i, j) ensures j in visited + Fringe(g, base + visited, i, 4) {
      FringeIsAdjacent(g, base + visited, i, j);
      if j in base { AdjacentSymmetric(g, i, j); assert false; }
    }
  }

  lemma TrackStep(start: nat, comp: set<nat>, base: set<nat>, order: seq<nat>, rest: seq<nat>, i: nat,
                  marked: set<nat>, f: set<nat>, stack': seq<nat>)
    requires Tracks(start, comp, base, order, rest + [i], marked)
    requires f <= comp && f !! marked && Distinct(stack') && Elems(stack') == Elems(rest) + f
    ensures Tracks(start, comp, base, order + [i], stack', marked + f)
    ensures Elems(order + [i]) == Elems(order) + {i}
    ensures Elems(order + [i]) + Elems(stack') == Elems(order) + Elems(rest + [i]) + f
  {
    assert (rest + [i])[|rest|] == i;
    forall k | 0 <= k < |rest| ensures rest[k] != i { assert (rest + [i])[k] == rest[k]; }
    assert Elems(rest + [i]) == Elems(rest) + {i};
    assert i !in order && Elems(order + [i]) == Elems(order) + {i};
  }

  lemma FillStep(g: Grid, start: nat, base: set<nat>, order: seq<nat>, rest: seq<nat>, i: nat,
                 marked: set<nat>, stack': seq<nat>)
    requires g.w > 0 && Closed(g, base) && g.Ink(i) && i in Component(g, start)
    requires Filling(g, start, base, order, rest + [i], marked)
    requires Distinct(stack') && Elems(stack') == Elems(rest) + Fringe(g, marked, i, 4)
    ensures Filling(g, start, base, order + [i], stack', marked + Fringe(g, marked, i, 4))
  {
    var visited := Elems(order) + Elems(rest + [i]);
    assert (rest + [i])[|rest|] == i;
    FringeJoins(g, start, marked, i);
    FringeSurrounds(g, base, Elems(order), visited, i);
    TrackStep(start, Component(g, start), base, order, rest, i, marked, Fringe(g, marked, i, 4), stack');
  }

  lemma FillDone(g: Grid, start: nat, base: set<nat>, order: seq<nat>, marked: set<nat>)
    requires g.w > 0 && Filling(g, start, base, order, [], marked)
    ensures Elems(order) == Component(g, start)
  {
    forall j | j in Component(g, start) ensures j in Elems(order) {
      ClosedHoldsConnected(g, Elems(order), start, j);
    }
  }

  /** The popped pixel is ink of the component, not popped before; the rest of the stack is marked. */
  lemma Popped(g: Grid, start: nat, base: set<nat>, order: seq<nat>, stack: seq<nat>, marked: set<nat>)
    requires g.w > 0 && stack != [] && Filling(g, start, base, order, stack, marked)
    ensures var (i, rest) := (stack[|stack| - 1], stack[..|stack| - 1]);
            && stack == rest + [i] && i < g.Size() && g.Ink(i) && i !in order && i in Component(g, start)
            && Distinct(rest) && Elems(rest) <= marked
  {
    var i := stack[|stack| - 1];
    assert i in Elems(stack) && Connected(g, start, i);
    var p :| IsPath(g, p) && p[0] == start && p[|p| - 1] == i;
  }

  /** The running bounds, sum and count after one more pixel. */
  function Tally(g: Grid, stats: Stats, i: nat): Stats
    requires g.w > 0 && i < |g.prob|
  {
    Stats(Widen(stats.bounds, i % g.w, i / g.w), stats.sum + g.prob[i], stats.count + 1)
  }

  lemma StatsAdd(g: Grid, order: seq<nat>, i: nat)
    requires g.w > 0 && g.Valid() && g.Size() <= USIZE_MAX && i < g.Size() && i !in order
    ensures StatsOf(g, Elems(order + [i])) == Tally(g, StatsOf(g, Elems(order)), i)
  {
    assert Elems(order + [i]) == Elems(order) + {i};
    BoundsAdd(g, Elems(order), i);
    MassAdd(g.prob, Elems(order), i, g.Size());
  }

  /** One turn of the inner loop: pop a pixel and visit around it. */
  method PopAndVisit(g: Grid, seen: array<bool>, stack: seq<nat>,
                     ghost start: nat, ghost base: set<nat>, ghost order: seq<nat>)
    returns (stack': seq<nat>, i: nat)
    requires g.Valid() && g.w > 0 && seen.Length == g.Size() && stack != [] && Closed(g, base)
    requires Filling(g, start, base, order, stack, Marked(seen[..]))
    modifies seen
    ensures Filling(g, start, base, order + [i], stack', Marked(seen[..]))
    ensures i < g.Size() && i !in order && i in Component(g, start)
  {
    i := stack[|stack| - 1];
    ghost var marked := Marked(seen[..]);
    Popped(g, start, base, order, stack, marked);
    stack' := VisitNeighbours(g, seen, stack[..|stack| - 1], i);
    FillStep(g, start, base, order, stack[..|stack| - 1], i, marked, stack');
  }

  lemma Shrinks(comp: set<nat>, order: seq<nat>, i: nat)
    requires i in comp && i !in order
    ensures comp - Elems(order + [i]) < comp - Elems(order)
  {
    assert i in comp - Elems(order) && i !in comp - Elems(order + [i]);
  }

  lemma FillStart(g: Grid, start: nat, base: set<nat>)
    requires g.w > 0 && g.Ink(start) && start !in base
    ensures Filling(g, start, base, [], [start], base + {start})
  {
    ConnectedSelf(g, start);
    assert Elems([start]) == {start};
  }

  /** The inner loop: it pops each pixel of the component of `start` exactly once, marks nothing
      else, and measures the component. */
  method Fill(g: Grid, seen: array<bool>, start: nat) returns (stats: Stats, ghost order: seq<nat>)
    requires g.Valid() && g.w > 0 && g.Size() <= USIZE_MAX && seen.Length == g.Size()
    requires g.Ink(start) && start !in Marked(seen[..])
    requires Closed(g, Marked(seen[..]))
    modifies seen
    ensures Marked(seen[..]) == Marked(old(seen[..])) + Component(g, start)
    ensures Distinct(order) && Elems(order) == Component(g, start)
    ensures stats == StatsOf(g, Component(g, start))
  {
    ghost var base, comp := Marked(seen[..]), Component(g, start);
    seen[start] := true;
    assert Marked(seen[..]) == base + {start};
    var stack := [start];
    stats := Stats(UNBOUNDED, 0.0, 0);
    order := [];
    FillStart(g, start, base);
    MassEmpty(g.prob, g.Size());
    while stack != []
      invariant Filling(g, start, base, order, stack, Marked(seen[..]))
      invariant stats == StatsOf(g, Elems(order))
      decreases comp - Elems(order)
    {
      var i;
      stack, i := PopAndVisit(g, seen, stack, start, base, order);
      StatsAdd(g, order, i);
      Shrinks(comp, order, i);
      stats := Tally(g, stats, i);
      order := order + [i];
    }
    FillDone(g, start, base, order, Marked(seen[..]));
  }

  // ---- The boxes ----

  /** At least one pixel was tallied. */
  predicate Measured(stats: Stats) {
    stats.count > 0 && stats.bounds.minX <= stats.bounds.maxX && stats.bounds.minY <= stats.bounds.maxY
  }

  /** The box of a component, or nothing when the filters drop it: kernels under `minSize` on a side
      and means under `boxThresh` are noise, the rest is grown by the unclip distance. */
  function BoxOf(params: DbParams, stats: Stats): seq<TextBox>
    requires Measured(stats)
  {
    var b := stats.bounds;
    var w := (b.maxX - b.minX + 1) as real;
    var h := (b.maxY - b.minY + 1) as real;
    var score := stats.sum / stats.count as real;
    if Min(w, h) < params.minSize || score < params.boxThresh then []
    else
      var d := w * h * params.unclipRatio / (2.0 * (w + h));
      [TextBox(b.minX as real - d, b.minY as real - d,
               (b.maxX + 1) as real + d, (b.maxY + 1) as real + d, score)]
  }

  /** A surviving kernel keeps its centre and its mean score, and grows on every side by its area
      times the unclip ratio over its perimeter. */
  lemma BoxGrows(params: DbParams, stats: Stats)
    requires Measured(stats)
    ensures var b := stats.bounds;
            var w, h := (b.maxX + 1 - b.minX) as real, (b.maxY + 1 - b.minY) as real;
            var large := w >= params.minSize && h >= params.minSize;
            var kept := large && stats.sum >= params.boxThresh * stats.count as real;
            && |BoxOf(params, stats)| == (if kept then 1 else 0)
            && (kept ==>
                  var t := BoxOf(params, stats)[0];
                  && t.x0 + t.x1 == (b.minX + b.maxX + 1) as real && t.y0 + t.y1 == (b.minY + b.maxY + 1) as real
                  && t.Width() - w == t.Height() - h && (t.Width() - w) * (w + h) == w * h * params.unclipRatio
                  && t.score * stats.count as real == stats.sum)
  {
    var b, n := stats.bounds, stats.count as real;
    var w, h := (b.maxX + 1 - b.minX) as real, (b.maxY + 1 - b.minY) as real;
    ScaleMean(stats.sum, n, params.boxThresh);
    if BoxOf(params, stats) != [] {
      var d := w * h * params.unclipRatio / (2.0 * (w + h));
      var t := BoxOf(params, stats)[0];
      assert t.Width() - w == 2.0 * d;
      assert d * (2.0 * (w + h)) == w * h * params.unclipRatio;
      assert 2.0 * d * (w + h) == d * (2.0 * (w + h));
    }
  }

  lemma ScaleMean(sum: real, n: real, mean: real)
    requires n > 0.0
    ensures sum / n < mean <==> sum < mean * n
    ensures sum / n * n == sum
  {
    var q := sum / n;
    assert q * n == sum;
    if q < mean { assert (mean - q) * n > 0.0; } else { assert (q - mean) * n >= 0.0; }
  }

  /** One box per surviving component among those led by the first `k` pixels, in leader order. */
  ghost function ExpectedBoxes(g: Grid, params: DbParams, k: nat): seq<TextBox>
    requires g.Valid() && k <= g.Size()
  {
    if k == 0 then []
    else
      ExpectedBoxes(g, params, k - 1) +
      if Leads(g, k - 1) then
        HasPixels(g, k - 1);
        BoxOf(params, StatsOf(g, Component(g, k - 1)))
      else []
  }

  lemma HasPixels(g: Grid, i: nat)
    requires g.Ink(i) && g.Valid()
    ensures g.w > 0 && i in Component(g, i) && Measured(StatsOf(g, Component(g, i)))
  {
    assert g.w != 0;
    ConnectedSelf(g, i);
    var c := Component(g, i);
    assert X(g, i) in Xs(g, c) && Y(g, i) in Ys(g, c);
    assert IsLeast(Xs(g, c), Least(Xs(g, c))) && IsGreatest(Xs(g, c), Greatest(Xs(g, c)));
  }

  /** Everything connected to one of the first `k` pixels. */
  ghost function Swept(g: Grid, k: nat): set<nat> {
    set i: nat | i < g.Size() && Reached(g, k, i)
  }

  ghost predicate Reached(g: Grid, k: nat, i: nat) { exists j: nat :: j < k && Connected(g, j, i) }

  lemma ConnectedInk(g: Grid, i: nat, j: nat)
    requires Connected(g, i, j)
    ensures g.Ink(i) && g.Ink(j)
  {
    var p :| IsPath(g, p) && p[0] == i && p[|p| - 1] == j;
  }

  lemma SweptClosed(g: Grid, k: nat)
    requires g.w > 0
    ensures Closed(g, Swept(g, k))
  {
    forall i, j | i in Swept(g, k) && g.Ink(j) && Adjacent(g, i, j) ensures j in Swept(g, k) {
      var l: nat :| l < k && Connected(g, l, i);
      ConnectedStep(g, l, i, j);
    }
  }

  lemma SweptNext(g: Grid, k: nat)
    requires k < g.Size()
    ensures Swept(g, k + 1) == Swept(g, k) + Component(g, k)
  {
    forall i: nat | i < g.Size() ensures i in Swept(g, k + 1) <==> i in Swept(g, k) + Component(g, k) {
      if Connected(g, k, i) { assert Reached(g, k + 1, i); }
      if Reached(g, k, i) { assert Reached(g, k + 1, i); }
    }
  }

  /** A pixel already swept, or below the threshold, adds nothing. */
  lemma SweptSame(g: Grid, k: nat)
    requires k < g.Size() && g.w > 0 && (k in Swept(g, k) || !g.Ink(k))
    ensures Swept(g, k + 1) == Swept(g, k)
  {
    SweptNext(g, k);
    SweptClosed(g, k);
    forall i | i in Component(g, k) ensures i in Swept(g, k) {
      ConnectedInk(g, k, i);
      ClosedHoldsConnected(g, Swept(g, k), k, i);
    }
  }

  lemma LeadsUnswept(g: Grid, k: nat)
    requires k < g.Size()
    ensures Leads(g, k) <==> g.Ink(k) && k !in Swept(g, k)
  {
    if j: nat :| j < k && Connected(g, j, k) {
      ConnectedInk(g, j, k);
      ConnectedSymmetric(g, j, k);
      assert j in Component(g, k);
    } else if g.Ink(k) {
      forall j | j in Component(g, k) ensures k <= j { ConnectedSymmetric(g, k, j); }
    }
  }

  lemma SweptAll(g: Grid, i: nat)
    ensures i in Swept(g, g.Size()) <==> g.Ink(i)
  {
    if g.Ink(i) {
      assert g.w != 0;
      ConnectedSelf(g, i);
    }
    if j: nat :| j < g.Size() && Connected(g, j, i) { ConnectedInk(g, j, i); }
  }

  /** One turn of the outer loop: the component of `start` if it leads one, and nothing otherwise. */
  method Sweep(g: Grid, params: DbParams, seen: array<bool>, start: nat, ghost order: seq<nat>)
    returns (found: seq<TextBox>, ghost order': seq<nat>)
    requires g.Valid() && g.Size() <= USIZE_MAX && seen.Length == g.Size() && start < g.Size()
    requires Marked(seen[..]) == Swept(g, start) && Distinct(order) && Elems(order) == Swept(g, start)
    modifies seen
    ensures Marked(seen[..]) == Swept(g, start + 1) && Distinct(order') && Elems(order') == Swept(g, start + 1)
    ensures ExpectedBoxes(g, params, start + 1) == ExpectedBoxes(g, params, start) + found
  {
    assert g.w != 0;
    LeadsUnswept(g, start);
    found, order' := [], order;
    if seen[start] || g.prob[start] <= g.thresh {
      SweptSame(g, start);
      return;
    }
    SweptClosed(g, start);
    SweptNext(g, start);
    HasPixels(g, start);
    var stats;
    ghost var fill;
    stats, fill := Fill(g, seen, start);
    found := BoxOf(params, stats);
    Appended(order, fill, Swept(g, start), Component(g, start));
    order' := order + fill;
    UnsweptApart(g, start);
  }

  lemma Appended(a: seq<nat>, b: seq<nat>, s: set<nat>, t: set<nat>)
    requires Elems(a) == s && Elems(b) == t && Distinct(a) && Distinct(b)
    ensures Elems(a + b) == s + t && (s !! t ==> Distinct(a + b))
  {
    forall i, j | 0 <= i < j < |a + b| && s !! t ensures (a + b)[i] != (a + b)[j] {
      assert i < |a| ==> a[i] in s;
      assert j >= |a| ==> b[j - |a|] in t;
    }
  }

  /** The component of an unswept pixel is unswept. */
  lemma UnsweptApart(g: Grid, k: nat)
    requires g.w > 0 && k !in Swept(g, k) && k < g.Size()
    ensures Swept(g, k) !! Component(g, k)
  {
    SweptClosed(g, k);
    forall i | i in Component(g, k) ensures i !in Swept(g, k) {
      ConnectedSymmetric(g, k, i);
      if i in Swept(g, k) { ClosedHoldsConnected(g, Swept(g, k), i, k); }
    }
  }

  lemma PoppedAllInk(g: Grid, order: seq<nat>)
    requires Elems(order) == Swept(g, g.Size())
    ensures forall i: nat :: i in order <==> g.Ink(i)
  {
    forall i: nat ensures i in order <==> g.Ink(i) {
      SweptAll(g, i);
      assert i in order <==> i in Elems(order);
    }
  }

  /** `db_boxes`: the boxes are, in row-major order of their first pixel, exactly those of the
      4-connected components that pass the filters, and the fills together pop every pixel above the
      threshold exactly once (`order`). A map shorter than the picture gives no boxes. */
  method FindBoxes(prob: seq<real>, width: nat, height: nat, params: DbParams)
    returns (boxes: seq<TextBox>, ghost order: seq<nat>)
    requires width * height <= USIZE_MAX
    ensures |prob| < width * height ==> boxes == []
    ensures |prob| >= width * height ==>
              var g := Grid(prob, width, height, params.thresh);
              && boxes == ExpectedBoxes(g, params, g.Size())
              && Distinct(order)
              && forall i: nat :: i in order <==> i < width * height && i < |prob| && prob[i] > params.thresh
  {
    var n := width * height;
    boxes, order := [], [];
    if |prob| < n { return; }
    var g := Grid(prob, width, height, params.thresh);
    var seen := new bool[n](_ => false);
    assert Marked(seen[..]) == {} == Swept(g, 0);
    for start := 0 to n
      invariant Marked(seen[..]) == Swept(g, start)
      invariant boxes == ExpectedBoxes(g, params, start)
      invariant Distinct(order) && Elems(order) == Swept(g, start)
    {
      var found;
      found, order := Sweep(g, params, seen, start, order);
      boxes := boxes + found;
    }
    PoppedAllInk(g, order);
  }
}
