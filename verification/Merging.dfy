/** Box merging of crates/rkvm-vision/src/det.rs: pieces of a line are joined until no two boxes
    are on the same line. */
module Merging {
  import opened TextBoxes

  /** How an output box came about: an input box, or two such boxes found on the same line. */
  datatype Tree = Leaf(i: nat) | Join(left: Tree, right: Tree)

  ghost function Leaves(t: Tree): multiset<nat> {
    match t case Leaf(i) => multiset{i} case Join(l, r) => Leaves(l) + Leaves(r)
  }

  ghost predicate InRange(t: Tree, n: nat) {
    match t case Leaf(i) => i < n case Join(l, r) => InRange(l, n) && InRange(r, n)
  }

  /** The box a tree of merges produces. */
  ghost function Hull(boxes: seq<TextBox>, t: Tree): TextBox
    requires InRange(t, |boxes|)
  {
    match t case Leaf(i) => boxes[i] case Join(l, r) => Hull(boxes, l).Union(Hull(boxes, r))
  }

  /** Every join in the tree put together two boxes of the same line. */
  ghost predicate Justified(boxes: seq<TextBox>, t: Tree)
    requires InRange(t, |boxes|)
  {
    match t
    case Leaf(_) => true
    case Join(l, r) => Justified(boxes, l) && Justified(boxes, r) && Hull(boxes, l).SameLine(Hull(boxes, r))
  }

  /** The hull is exact: no leaf reaches outside it, each edge is some leaf's, and its score is the
      best of the leaves. */
  ghost predicate Encloses(boxes: seq<TextBox>, leaves: multiset<nat>, h: TextBox) {
    && (forall i :: i in leaves ==> i < |boxes|)
    && (forall i :: i in leaves ==>
          && h.x0 <= boxes[i].x0 && h.y0 <= boxes[i].y0 && boxes[i].x1 <= h.x1 && boxes[i].y1 <= h.y1
          && boxes[i].score <= h.score)
    && (exists i :: i in leaves && boxes[i].x0 == h.x0) && (exists i :: i in leaves && boxes[i].y0 == h.y0)
    && (exists i :: i in leaves && boxes[i].x1 == h.x1) && (exists i :: i in leaves && boxes[i].y1 == h.y1)
    && (exists i :: i in leaves && boxes[i].score == h.score)
  }

  lemma {:induction false} HullEncloses(boxes: seq<TextBox>, t: Tree)
    requires InRange(t, |boxes|)
    ensures Encloses(boxes, Leaves(t), Hull(boxes, t))
  {
    match t
    case Leaf(i) => assert i in Leaves(t);
    case Join(l, r) =>
      HullEncloses(boxes, l);
      HullEncloses(boxes, r);
  }

  lemma SameLineSymmetric(a: TextBox, b: TextBox)
    ensures a.SameLine(b) <==> b.SameLine(a)
  {
  }

  /** Rows `lo` to `hi` lie in both boxes and are three fifths of the height of one of them. */
  ghost predicate SharesRows(a: TextBox, b: TextBox, lo: real, hi: real) {
    && a.y0 <= lo && hi <= a.y1 && b.y0 <= lo && hi <= b.y1
    && (5.0 * (hi - lo) >= 3.0 * (a.y1 - a.y0) || 5.0 * (hi - lo) >= 3.0 * (b.y1 - b.y0))
  }

  /** A point of either box, no further apart than a tenth of either height. */
  ghost predicate Close(a: TextBox, b: TextBox, x: real, x': real) {
    && a.x0 <= x <= a.x1 && b.x0 <= x' <= b.x1
    && 10.0 * (x - x') <= a.y1 - a.y0 && 10.0 * (x' - x) <= a.y1 - a.y0
    && 10.0 * (x - x') <= b.y1 - b.y0 && 10.0 * (x' - x) <= b.y1 - b.y0
  }

  /** Two boxes are on one line exactly if they have a height, share rows to three fifths of one of
      their heights, and come within a tenth of both heights of each other. */
  lemma SameLineMeans(a: TextBox, b: TextBox)
    requires a.x0 <= a.x1 && b.x0 <= b.x1
    ensures a.SameLine(b) <==>
              && a.y0 < a.y1 && b.y0 < b.y1
              && (exists lo, hi :: SharesRows(a, b, lo, hi))
              && (exists x, x' :: Close(a, b, x, x'))
  {
    var lo, hi := Max(a.y0, b.y0), Min(a.y1, b.y1);
    if a.SameLine(b) {
      assert SharesRows(a, b, lo, hi);
      var x := Max(a.x0, Min(a.x1, b.x0));
      assert Close(a, b, x, Max(b.x0, Min(b.x1, x)));
    }
  }

  /** No two boxes are pieces of one line. */
  ghost predicate Separated(boxes: seq<TextBox>) {
    forall i, j :: 0 <= i < |boxes| && 0 <= j < |boxes| && i != j ==> !boxes[i].SameLine(boxes[j])
  }

  ghost function AllLeaves(trees: seq<Tree>): multiset<nat> {
    if trees == [] then multiset{} else Leaves(trees[0]) + AllLeaves(trees[1..])
  }

  /** The boxes are the hulls of justified trees that use every input box exactly once. */
  ghost predicate Grouped(input: seq<TextBox>, boxes: seq<TextBox>, trees: seq<Tree>) {
    && |trees| == |boxes|
    && (forall i :: 0 <= i < |trees| ==> Grows(input, trees[i], boxes[i]))
    && AllLeaves(trees) == Upto(|input|)
  }

  ghost predicate Grows(input: seq<TextBox>, t: Tree, box: TextBox) {
    InRange(t, |input|) && Justified(input, t) && Hull(input, t) == box
  }

  /** Each of the first `n` numbers once. */
  ghost function Upto(n: nat): multiset<nat> { if n == 0 then multiset{} else Upto(n - 1) + multiset{n - 1} }

  ghost function Singles(n: nat): (trees: seq<Tree>)
    ensures |trees| == n && forall i :: 0 <= i < n ==> trees[i] == Leaf(i)
  {
    if n == 0 then [] else Singles(n - 1) + [Leaf(n - 1)]
  }

  // ---- Joining two trees ----

  /** `swap_remove`: the last element takes the place of the removed one. */
  function SwapRemove<T>(s: seq<T>, j: nat): (r: seq<T>)
    requires j < |s|
    ensures |r| == |s| - 1 && forall k :: 0 <= k < |r| ==> r[k] == if k == j then s[|s| - 1] else s[k]
  {
    if j == |s| - 1 then s[..j] else s[..|s| - 1][j := s[|s| - 1]]
  }

  lemma {:induction false} LeavesConcat(a: seq<Tree>, b: seq<Tree>)
    ensures AllLeaves(a + b) == AllLeaves(a) + AllLeaves(b)
  {
    if a == [] {
      assert a + b == b;
    } else {
      assert (a + b)[1..] == a[1..] + b;
      LeavesConcat(a[1..], b);
    }
  }

  lemma LeavesUpdate(trees: seq<Tree>, j: nat, t: Tree)
    requires j < |trees|
    ensures AllLeaves(trees[j := t]) + Leaves(trees[j]) == AllLeaves(trees) + Leaves(t)
  {
    assert trees == trees[..j] + ([trees[j]] + trees[j + 1..]);
    assert trees[j := t] == trees[..j] + ([t] + trees[j + 1..]);
    LeavesConcat(trees[..j], [trees[j]] + trees[j + 1..]);
    LeavesConcat(trees[..j], [t] + trees[j + 1..]);
    assert ([trees[j]] + trees[j + 1..])[1..] == trees[j + 1..] == ([t] + trees[j + 1..])[1..];
  }

  lemma LastLeaves(trees: seq<Tree>, t: Tree)
    ensures AllLeaves(trees + [t]) == AllLeaves(trees) + Leaves(t)
  {
    LeavesConcat(trees, [t]);
    assert [t][1..] == [];
  }

  lemma SwapIsUpdate<T>(s: seq<T>, j: nat)
    requires j < |s|
    ensures var n := |s| - 1;
            && s == s[..n] + [s[n]]
            && SwapRemove(s, j) == if j < n then s[..n][j := s[n]] else s[..n]
  {
  }

  lemma LeavesSwapRemove(trees: seq<Tree>, j: nat)
    requires j < |trees|
    ensures AllLeaves(SwapRemove(trees, j)) + Leaves(trees[j]) == AllLeaves(trees)
  {
    var n := |trees| - 1;
    SwapIsUpdate(trees, j);
    AllButLast(trees[..n], trees[n], j, trees);
  }

  lemma AllButLast(front: seq<Tree>, last: Tree, j: nat, trees: seq<Tree>)
    requires trees == front + [last] && j < |trees|
    ensures AllLeaves(if j < |front| then front[j := last] else front) + Leaves(trees[j]) == AllLeaves(trees)
  {
    LastLeaves(front, last);
    if j < |front| { LeavesUpdate(front, j, last); }
  }

  /** Box `j` joins box `i`. */
  function JoinAt(boxes: seq<TextBox>, i: nat, j: nat): seq<TextBox>
    requires i < j < |boxes|
  {
    SwapRemove(boxes, j)[i := boxes[i].Union(boxes[j])]
  }

  lemma JoinKeepsGroups(input: seq<TextBox>, boxes: seq<TextBox>, trees: seq<Tree>, i: nat, j: nat)
    returns (trees': seq<Tree>)
    requires Grouped(input, boxes, trees) && i < j < |boxes| && boxes[i].SameLine(boxes[j])
    ensures Grouped(input, JoinAt(boxes, i, j), trees')
  {
    var t := Join(trees[i], trees[j]);
    trees' := SwapRemove(trees, j)[i := t];
    assert Grows(input, t, boxes[i].Union(boxes[j])) by {
      assert Grows(input, trees[i], boxes[i]) && Grows(input, trees[j], boxes[j]);
    }
    JoinKeepsEach(input, boxes, trees, i, j, t);
    JoinLeaves(trees, i, j);
  }

  lemma JoinLeaves(trees: seq<Tree>, i: nat, j: nat)
    requires i < j < |trees|
    ensures AllLeaves(SwapRemove(trees, j)[i := Join(trees[i], trees[j])]) == AllLeaves(trees)
  {
    LeavesSwapRemove(trees, j);
    LeavesUpdate(SwapRemove(trees, j), i, Join(trees[i], trees[j]));
    Cancel(AllLeaves(SwapRemove(trees, j)[i := Join(trees[i], trees[j])]), AllLeaves(SwapRemove(trees, j)),
           Leaves(trees[i]), Leaves(trees[j]));
  }

  lemma Cancel(a: multiset<nat>, b: multiset<nat>, c: multiset<nat>, d: multiset<nat>)
    requires a + c == b + (c + d)
    ensures a == b + d
  {
    forall x: nat ensures a[x] == b[x] + d[x] { assert (a + c)[x] == (b + (c + d))[x]; }
  }

  lemma JoinKeepsEach(input: seq<TextBox>, boxes: seq<TextBox>, trees: seq<Tree>, i: nat, j: nat, t: Tree)
    requires |trees| == |boxes| && i < j < |boxes| && Grows(input, t, boxes[i].Union(boxes[j]))
    requires forall k :: 0 <= k < |trees| ==> Grows(input, trees[k], boxes[k])
    ensures var (out, trees') := (JoinAt(boxes, i, j), SwapRemove(trees, j)[i := t]);
            |trees'| == |out| && forall k :: 0 <= k < |trees'| ==> Grows(input, trees'[k], out[k])
  {
  }

  lemma {:induction false} SingleLeaves(n: nat)
    ensures AllLeaves(Singles(n)) == Upto(n)
  {
    if n > 0 {
      SingleLeaves(n - 1);
      LastLeaves(Singles(n - 1), Leaf(n - 1));
    }
  }

  // ---- Which groups: the scan order decides ----

  /** Box `i` takes up the boxes from `j` on that are on its line, growing as it goes. */
  function ScanRow(boxes: seq<TextBox>, i: nat, j: nat): (out: seq<TextBox>)
    requires i < j <= |boxes|
    ensures i < |out| <= |boxes|
    decreases |boxes| - j
  {
    if j == |boxes| then boxes
    else if boxes[i].SameLine(boxes[j]) then ScanRow(JoinAt(boxes, i, j), i, j)
    else ScanRow(boxes, i, j + 1)
  }

  function ScanAll(boxes: seq<TextBox>, i: nat): (out: seq<TextBox>)
    requires i <= |boxes|
    ensures |out| <= |boxes|
    decreases |boxes| - i
  {
    if i == |boxes| then boxes else ScanAll(ScanRow(boxes, i, i + 1), i + 1)
  }

  /** Scans repeat until one joins nothing. */
  function Merged(boxes: seq<TextBox>): seq<TextBox>
    decreases |boxes|
  {
    var out := ScanAll(boxes, 0);
    if |out| == |boxes| then out else Merged(out)
  }

  /** Joining is not confluent, so the order of the input matters: of three boxes in a row, the tall
      outer ones on a line with the low middle one but not with each other, the middle one goes to
      whichever comes first, and is then too tall for the other. */
  lemma OrderMatters()
    ensures var a, b := TextBox(0.0, 0.0, 10.0, 10.0, 1.0), TextBox(10.0, 0.0, 20.0, 4.0, 1.0);
            var c := TextBox(20.0, -6.0, 30.0, 2.4, 1.0);
            Merged([a, b, c]) == [a.Union(b), c] && Merged([c, b, a]) == [c.Union(b), a] && a.Union(b) != c.Union(b)
  {
    var a, b := TextBox(0.0, 0.0, 10.0, 10.0, 1.0), TextBox(10.0, 0.0, 20.0, 4.0, 1.0);
    var c := TextBox(20.0, -6.0, 30.0, 2.4, 1.0);
    FirstTakesMiddle(a, b, c);
    FirstTakesMiddle(c, b, a);
  }

  lemma FirstTakesMiddle(a: TextBox, b: TextBox, c: TextBox)
    requires a.SameLine(b) && !a.Union(b).SameLine(c)
    ensures Merged([a, b, c]) == [a.Union(b), c]
  {
    var u := a.Union(b);
    assert JoinAt([a, b, c], 0, 1) == [u, c];
    ApartStay(u, c);
    assert ScanRow([a, b, c], 0, 1) == ScanRow([u, c], 0, 1) == [u, c];
    assert ScanAll([a, b, c], 0) == ScanAll([u, c], 1);
  }

  lemma ApartStay(u: TextBox, c: TextBox)
    requires !u.SameLine(c)
    ensures ScanRow([u, c], 0, 1) == [u, c] && ScanAll([u, c], 1) == [u, c] && Merged([u, c]) == [u, c]
  {
    assert ScanRow([u, c], 0, 1) == ScanRow([u, c], 0, 2);
    assert ScanRow([u, c], 1, 2) == [u, c];
    assert ScanAll([u, c], 1) == ScanAll([u, c], 2);
    assert ScanAll([u, c], 0) == ScanAll([u, c], 1);
  }

  // ---- The loops ----

  /** Some box is on the line of a later one. */
  ghost predicate HasPair(boxes: seq<TextBox>) {
    exists j, k :: 0 <= j < k < |boxes| && boxes[j].SameLine(boxes[k])
  }

  /** Box `i` is on the line of none of the boxes after it and before `j`. */
  ghost predicate Alone(boxes: seq<TextBox>, i: nat, j: nat)
    requires i < j <= |boxes|
  {
    forall k :: i < k < j ==> !boxes[i].SameLine(boxes[k])
  }

  lemma ScanJoins(boxes: seq<TextBox>, i: nat, j: nat)
    requires i < j < |boxes| && boxes[i].SameLine(boxes[j])
    ensures ScanRow(boxes, i, j) == ScanRow(JoinAt(boxes, i, j), i, j) && HasPair(boxes)
  {
  }

  lemma ScanSkips(boxes: seq<TextBox>, i: nat, j: nat)
    requires i < j < |boxes| && !boxes[i].SameLine(boxes[j])
    ensures ScanRow(boxes, i, j) == ScanRow(boxes, i, j + 1)
    ensures Alone(boxes, i, j) ==> Alone(boxes, i, j + 1)
  {
  }

  /** Box `j` joins box `i`: the last box takes its place. */
  method JoinInto(ghost input: seq<TextBox>, boxes: seq<TextBox>, i: nat, j: nat, ghost trees: seq<Tree>)
    returns (out: seq<TextBox>, ghost trees': seq<Tree>)
    requires i < j < |boxes| && Grouped(input, boxes, trees) && boxes[i].SameLine(boxes[j])
    ensures out == JoinAt(boxes, i, j) && Grouped(input, out, trees')
  {
    trees' := JoinKeepsGroups(input, boxes, trees, i, j);
    var other := boxes[j];
    out := SwapRemove(boxes, j);
    out := out[i := out[i].Union(other)];
  }

  /** Box `i` against every box after it. */
  method MergeInto(ghost input: seq<TextBox>, boxes: seq<TextBox>, i: nat, ghost trees: seq<Tree>)
    returns (out: seq<TextBox>, merged: bool, ghost trees': seq<Tree>)
    requires i < |boxes| && Grouped(input, boxes, trees)
    ensures i < |out| <= |boxes| && Grouped(input, out, trees') && (merged ==> |out| < |boxes|)
    ensures if merged then HasPair(boxes) else out == boxes && Alone(boxes, i, |boxes|)
    ensures out == ScanRow(boxes, i, i + 1)
  {
    out, merged, trees' := boxes, false, trees;
    var j := i + 1;
    while j < |out|
      invariant i < j <= |out| <= |boxes| && Grouped(input, out, trees') && (merged ==> |out| < |boxes|)
      invariant if merged then HasPair(boxes) else out == boxes && Alone(boxes, i, j)
      invariant ScanRow(out, i, j) == ScanRow(boxes, i, i + 1)
      decreases |out| - j
    {
      if out[i].SameLine(out[j]) {
        ScanJoins(out, i, j);
        out, trees' := JoinInto(input, out, i, j, trees');
        merged := true;
      } else {
        ScanSkips(out, i, j);
        j := j + 1;
      }
    }
  }

  /** One pass over all pairs. */
  method Pass(ghost input: seq<TextBox>, boxes: seq<TextBox>, ghost trees: seq<Tree>)
    returns (out: seq<TextBox>, merged: bool, ghost trees': seq<Tree>)
    requires Grouped(input, boxes, trees)
    ensures Grouped(input, out, trees') && (merged ==> |out| < |boxes|)
    ensures !merged ==> out == boxes && Separated(out)
    ensures Separated(boxes) ==> !merged
    ensures out == ScanAll(boxes, 0)
  {
    out, merged, trees' := boxes, false, trees;
    var i := 0;
    while i < |out|
      invariant 0 <= i <= |out| <= |boxes| && Grouped(input, out, trees') && (merged ==> |out| < |boxes|)
      invariant !merged ==> out == boxes
      invariant !merged ==> forall k :: 0 <= k < i ==> Alone(boxes, k, |boxes|)
      invariant Separated(boxes) ==> !merged
      invariant ScanAll(out, i) == ScanAll(boxes, 0)
      decreases |out| - i
    {
      var m;
      out, m, trees' := MergeInto(input, out, i, trees');
      merged := merged || m;
      i := i + 1;
    }
    if !merged { AloneSeparates(out); }
  }

  lemma AloneSeparates(boxes: seq<TextBox>)
    requires forall k :: 0 <= k < |boxes| ==> Alone(boxes, k, |boxes|)
    ensures Separated(boxes)
  {
    forall k, l | 0 <= k < |boxes| && 0 <= l < |boxes| && k != l ensures !boxes[k].SameLine(boxes[l]) {
      assert Alone(boxes, k, |boxes|) && Alone(boxes, l, |boxes|);
      SameLineSymmetric(boxes[k], boxes[l]);
    }
  }

  /** `merge_boxes`: the outputs are the hulls of groups that partition the input, joined only along
      pairs on the same line; no two outputs are on the same line, and boxes already apart come back
      unchanged, so merging twice is merging once. Which groups those are, and their order, is what
      scanning from the front gives. */
  method MergeBoxes(input: seq<TextBox>) returns (boxes: seq<TextBox>, ghost trees: seq<Tree>)
    ensures Grouped(input, boxes, trees)
    ensures Separated(boxes)
    ensures Separated(input) ==> boxes == input
    ensures boxes == Merged(input)
  {
    boxes, trees := input, Singles(|input|);
    SingleLeaves(|input|);
    var merged := true;
    while merged
      invariant Grouped(input, boxes, trees)
      invariant !merged ==> Separated(boxes)
      invariant Separated(input) ==> boxes == input
      invariant if merged then Merged(boxes) == Merged(input) else boxes == Merged(input)
      decreases |boxes|, merged
    {
      boxes, merged, trees := Pass(input, boxes, trees);
    }
  }
}
