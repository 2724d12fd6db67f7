/** When merging boxes does not depend on their order: on input whose boxes lie in bands, the groups are
    the connected components of being on one line. */
module LineGroups {
  import opened TextBoxes
  import opened Merging

  // ---- Bands ----

  /** The height half of `SameLine`: most of the shorter one's height is shared. */
  predicate Level(a: TextBox, b: TextBox) {
    var minH := Min(a.Height(), b.Height());
    minH > 0.0 && Min(a.y1, b.y1) - Max(a.y0, b.y0) >= 0.6 * minH
  }

  predicate SameBand(a: TextBox, b: TextBox) { a.y0 == b.y0 && a.y1 == b.y1 }

  /** No box is inside out, and boxes that share most of their height share all of it. */
  ghost predicate Banded(input: seq<TextBox>) {
    && (forall i :: 0 <= i < |input| ==> input[i].Width() >= 0.0)
    && (forall i, j :: 0 <= i < |input| && 0 <= j < |input| && Level(input[i], input[j]) ==>
          SameBand(input[i], input[j]))
  }

  /** A tree of merges lies in the band of each of its leaves. */
  lemma {:induction false} TreeBand(input: seq<TextBox>, t: Tree, i: nat)
    requires Banded(input) && InRange(t, |input|) && Justified(input, t) && i in Leaves(t)
    ensures i < |input| && SameBand(Hull(input, t), input[i]) && Hull(input, t).Width() >= 0.0
  {
    if t.Join? {
      var a := SomeLeaf(t.left);
      var b := SomeLeaf(t.right);
      TreeBand(input, t.left, a);
      TreeBand(input, t.right, b);
      assert Level(input[a], input[b]);
      if i in Leaves(t.left) { TreeBand(input, t.left, i); } else { TreeBand(input, t.right, i); }
    }
  }

  lemma {:induction false} SomeLeaf(t: Tree) returns (i: nat)
    ensures i in Leaves(t)
  {
    match t
    case Leaf(k) => i := k;
    case Join(l, r) => i := SomeLeaf(l);
  }

  // ---- Linked leaves and linked hulls ----

  /** Boxes of one band on the same line stay so when both grow sideways. */
  lemma GrownStay(a: TextBox, b: TextBox, g: TextBox, h: TextBox)
    requires SameBand(a, g) && SameBand(b, h) && SameBand(a, b) && a.SameLine(b)
    requires g.x0 <= a.x0 && a.x1 <= g.x1 && h.x0 <= b.x0 && b.x1 <= h.x1
    ensures g.SameLine(h)
  {
  }

  /** Two linked leaves link the hulls of their trees. */
  lemma Up(input: seq<TextBox>, t: Tree, u: Tree, i: nat, j: nat)
    requires Banded(input) && InRange(t, |input|) && InRange(u, |input|) && Justified(input, t) && Justified(input, u)
    requires i in Leaves(t) && j in Leaves(u) && i < |input| && j < |input| && input[i].SameLine(input[j])
    ensures Hull(input, t).SameLine(Hull(input, u))
  {
    TreeBand(input, t, i);
    TreeBand(input, u, j);
    HullEncloses(input, t);
    HullEncloses(input, u);
    assert Level(input[i], input[j]);
    GrownStay(input[i], input[j], Hull(input, t), Hull(input, u));
  }

  /** What is on the line of two boxes joined is on the line of one of them. */
  lemma OneOfTwo(a: TextBox, b: TextBox, c: TextBox)
    requires a.Width() >= 0.0 && b.Width() >= 0.0 && c.Width() >= 0.0 && SameBand(a, b) && SameBand(a, c)
    requires a.SameLine(b) && a.Union(b).SameLine(c)
    ensures a.SameLine(c) || b.SameLine(c)
  {
  }

  /** Two linked hulls have two linked leaves. */
  lemma {:induction false} Down(input: seq<TextBox>, t: Tree, u: Tree) returns (i: nat, j: nat)
    requires Banded(input) && InRange(t, |input|) && InRange(u, |input|) && Justified(input, t) && Justified(input, u)
    requires Hull(input, t).SameLine(Hull(input, u))
    ensures i in Leaves(t) && j in Leaves(u) && i < |input| && j < |input| && input[i].SameLine(input[j])
    decreases t, u
  {
    if t.Leaf? && u.Leaf? {
      i, j := t.i, u.i;
    } else if t.Leaf? {
      SameLineSymmetric(Hull(input, t), Hull(input, u));
      var side := LinkedSide(input, u, t);
      SameLineSymmetric(Hull(input, t), Hull(input, side));
      i, j := Down(input, t, side);
    } else {
      var side := LinkedSide(input, t, u);
      i, j := Down(input, side, u);
    }
  }

  /** The side of a join that another tree's hull is on the line of. */
  lemma LinkedSide(input: seq<TextBox>, t: Tree, u: Tree) returns (side: Tree)
    requires Banded(input) && InRange(t, |input|) && InRange(u, |input|) && Justified(input, t) && Justified(input, u)
    requires t.Join? && Hull(input, t).SameLine(Hull(input, u))
    ensures (side == t.left || side == t.right) && Hull(input, side).SameLine(Hull(input, u))
  {
    var a, b, c := Hull(input, t.left), Hull(input, t.right), Hull(input, u);
    var i := SomeLeaf(t.left);
    var j := SomeLeaf(t.right);
    var k := SomeLeaf(u);
    TreeBand(input, t.left, i);
    TreeBand(input, t.right, j);
    TreeBand(input, u, k);
    assert Level(input[i], input[j]);
    assert Level(input[i], input[k]);
    OneOfTwo(a, b, c);
    side := if a.SameLine(c) then t.left else t.right;
  }

  // ---- Components ----

  /** Boxes each on the line of the one before. */
  ghost predicate Chain(input: seq<TextBox>, p: seq<nat>) {
    && p != [] && (forall k :: 0 <= k < |p| ==> p[k] < |input|)
    && forall k :: 0 < k < |p| ==> input[p[k - 1]].SameLine(input[p[k]])
  }

  ghost predicate Linked(input: seq<TextBox>, i: nat, j: nat) {
    exists p :: Chain(input, p) && p[0] == i && p[|p| - 1] == j
  }

  lemma LinkedSelf(input: seq<TextBox>, i: nat)
    requires i < |input|
    ensures Linked(input, i, i)
  {
    assert Chain(input, [i]);
  }

  lemma LinkedJoin(input: seq<TextBox>, i: nat, a: nat, b: nat, j: nat)
    requires Linked(input, i, a) && a < |input| && b < |input| && input[a].SameLine(input[b]) && Linked(input, b, j)
    ensures Linked(input, i, j)
  {
    var p :| Chain(input, p) && p[0] == i && p[|p| - 1] == a;
    var q :| Chain(input, q) && q[0] == b && q[|q| - 1] == j;
    assert Chain(input, p + q);
  }

  /** The leaves of a tree are linked to each other. */
  lemma {:induction false} TreeLinked(input: seq<TextBox>, t: Tree, i: nat, j: nat)
    requires Banded(input) && InRange(t, |input|) && Justified(input, t) && i in Leaves(t) && j in Leaves(t)
    ensures i < |input| && j < |input| && Linked(input, i, j)
    decreases t, 1
  {
    TreeBand(input, t, i);
    if t.Leaf? {
      LinkedSelf(input, i);
    } else if i in Leaves(t.left) && j in Leaves(t.left) {
      TreeLinked(input, t.left, i, j);
    } else if i in Leaves(t.right) && j in Leaves(t.right) {
      TreeLinked(input, t.right, i, j);
    } else if i in Leaves(t.left) {
      AcrossLinked(input, t, t.left, t.right, i, j);
    } else {
      SameLineSymmetric(Hull(input, t.left), Hull(input, t.right));
      AcrossLinked(input, t, t.right, t.left, i, j);
    }
  }

  lemma {:induction false} AcrossLinked(input: seq<TextBox>, t: Tree, l: Tree, r: Tree, i: nat, j: nat)
    requires Banded(input) && InRange(t, |input|) && Justified(input, t)
    requires t.Join? && (t == Join(l, r) || t == Join(r, l)) && Hull(input, l).SameLine(Hull(input, r))
    requires i in Leaves(l) && j in Leaves(r)
    ensures i < |input| && j < |input| && Linked(input, i, j)
    decreases t, 0
  {
    var a, b := Down(input, l, r);
    TreeLinked(input, l, i, a);
    TreeLinked(input, r, b, j);
    LinkedJoin(input, i, a, b, j);
  }

  // ---- Where a box went ----

  lemma {:induction false} InUpto(n: nat, i: nat)
    ensures Upto(n)[i] == if i < n then 1 else 0
  {
    if n > 0 { InUpto(n - 1, i); }
  }

  lemma {:induction false} FindTree(trees: seq<Tree>, i: nat) returns (k: nat)
    requires i in AllLeaves(trees)
    ensures k < |trees| && i in Leaves(trees[k])
  {
    k := 0;
    if i !in Leaves(trees[0]) {
      var l := FindTree(trees[1..], i);
      k := l + 1;
    }
  }

  lemma {:induction false} CountTree(trees: seq<Tree>, k: nat, i: nat)
    requires k < |trees| && i in Leaves(trees[k])
    ensures i in AllLeaves(trees)
  {
    if k > 0 { CountTree(trees[1..], k - 1, i); }
  }

  lemma {:induction false} CountTwice(trees: seq<Tree>, k: nat, l: nat, i: nat)
    requires k < l < |trees| && i in Leaves(trees[k]) && i in Leaves(trees[l])
    ensures AllLeaves(trees)[i] >= 2
  {
    if k == 0 { CountTree(trees[1..], l - 1, i); } else { CountTwice(trees[1..], k - 1, l - 1, i); }
  }

  /** Every input box is in exactly one group. */
  lemma GroupOf(input: seq<TextBox>, boxes: seq<TextBox>, trees: seq<Tree>, i: nat) returns (k: nat)
    requires Grouped(input, boxes, trees) && i < |input|
    ensures k < |trees| && i in Leaves(trees[k])
    ensures forall l :: 0 <= l < |trees| && i in Leaves(trees[l]) ==> l == k
  {
    InUpto(|input|, i);
    k := FindTree(trees, i);
    forall l | 0 <= l < |trees| && i in Leaves(trees[l]) ensures l == k {
      if l < k { CountTwice(trees, l, k, i); } else if k < l { CountTwice(trees, k, l, i); }
    }
  }

  /** What merging may make of banded boxes. */
  ghost predicate Outcome(input: seq<TextBox>, boxes: seq<TextBox>, trees: seq<Tree>) {
    Banded(input) && Grouped(input, boxes, trees) && Separated(boxes)
  }

  /** Boxes on one line end in one group. */
  lemma LinkKeepsGroup(input: seq<TextBox>, boxes: seq<TextBox>, trees: seq<Tree>, k: nat, i: nat, j: nat)
    requires Outcome(input, boxes, trees) && k < |trees|
    requires i < |input| && j < |input| && i in Leaves(trees[k]) && input[i].SameLine(input[j])
    ensures j in Leaves(trees[k])
  {
    var l := GroupOf(input, boxes, trees, j);
    if l != k {
      assert Grows(input, trees[k], boxes[k]) && Grows(input, trees[l], boxes[l]);
      Up(input, trees[k], trees[l], i, j);
      assert false;
    }
  }

  lemma {:induction false} ChainKeepsGroup(input: seq<TextBox>, boxes: seq<TextBox>, trees: seq<Tree>, k: nat,
                                           p: seq<nat>)
    requires Outcome(input, boxes, trees) && k < |trees|
    requires Chain(input, p) && p[0] in Leaves(trees[k])
    ensures p[|p| - 1] in Leaves(trees[k])
  {
    if |p| > 1 {
      var n := |p| - 1;
      ChainKeepsGroup(input, boxes, trees, k, p[..n]);
      LinkKeepsGroup(input, boxes, trees, k, p[n - 1], p[n]);
    }
  }

  /** However banded boxes were merged until none were on one line, the group of a box is its connected
      component: the boxes it reaches by steps along a line. */
  lemma GroupsAreComponents(input: seq<TextBox>, boxes: seq<TextBox>, trees: seq<Tree>, k: nat, i: nat, j: nat)
    requires Banded(input) && Grouped(input, boxes, trees) && Separated(boxes) && k < |trees|
    requires i < |input| && j < |input| && i in Leaves(trees[k])
    ensures j in Leaves(trees[k]) <==> Linked(input, i, j)
  {
    assert Grows(input, trees[k], boxes[k]);
    if j in Leaves(trees[k]) {
      TreeLinked(input, trees[k], i, j);
    } else if Linked(input, i, j) {
      var p :| Chain(input, p) && p[0] == i && p[|p| - 1] == j;
      ChainKeepsGroup(input, boxes, trees, k, p);
    }
  }

  // ---- Any order ----

  /** `input'` has the boxes of `input` in another order: place `k` of it is place `order[k]` there, and
      `back` goes the other way. */
  ghost predicate Reordered(input: seq<TextBox>, input': seq<TextBox>, order: seq<nat>, back: seq<nat>) {
    && |input| == |input'| == |order| == |back|
    && (forall k :: 0 <= k < |order| ==> order[k] < |back| && back[order[k]] == k && input'[k] == input[order[k]])
    && (forall i :: 0 <= i < |back| ==> back[i] < |order| && order[back[i]] == i && input[i] == input'[back[i]])
  }

  lemma BandedReordered(input: seq<TextBox>, input': seq<TextBox>, order: seq<nat>, back: seq<nat>)
    requires Banded(input) && Reordered(input, input', order, back)
    ensures Banded(input')
  {
    forall i, j | 0 <= i < |input'| && 0 <= j < |input'| && Level(input'[i], input'[j])
      ensures SameBand(input'[i], input'[j])
    {
      assert Level(input[order[i]], input[order[j]]);
    }
  }

  ghost function Along(order: seq<nat>, p: seq<nat>): (q: seq<nat>)
    requires forall k :: 0 <= k < |p| ==> p[k] < |order|
    ensures |q| == |p| && forall k :: 0 <= k < |p| ==> q[k] == order[p[k]]
  {
    seq(|p|, (k: nat) requires k < |p| => order[p[k]])
  }

  lemma LinkedReordered(input: seq<TextBox>, input': seq<TextBox>, order: seq<nat>, back: seq<nat>, i: nat, j: nat)
    requires Reordered(input, input', order, back) && i < |input| && j < |input| && Linked(input, i, j)
    ensures Linked(input', back[i], back[j])
  {
    var p :| Chain(input, p) && p[0] == i && p[|p| - 1] == j;
    var q := Along(back, p);
    forall k | 0 < k < |q| ensures input'[q[k - 1]].SameLine(input'[q[k]]) {
      assert input[p[k - 1]].SameLine(input[p[k]]);
    }
    assert Chain(input', q);
  }

  /** Every box of one list of leaves is among those of the other. */
  ghost predicate Among(input: seq<TextBox>, leaves: multiset<nat>, input': seq<TextBox>, leaves': multiset<nat>) {
    forall i :: i in leaves && i < |input| ==> exists j :: j in leaves' && j < |input'| && input'[j] == input[i]
  }

  predicate Within(h: TextBox, h': TextBox) {
    h'.x0 <= h.x0 && h'.y0 <= h.y0 && h.x1 <= h'.x1 && h.y1 <= h'.y1 && h.score <= h'.score
  }

  /** A hull encloses whatever boxes the other's edges come from. */
  lemma HullWithin(input: seq<TextBox>, leaves: multiset<nat>, h: TextBox,
                   input': seq<TextBox>, leaves': multiset<nat>, h': TextBox)
    requires Encloses(input, leaves, h) && Encloses(input', leaves', h') && Among(input, leaves, input', leaves')
    ensures Within(h, h')
  {
  }

  lemma TreeWithin(input: seq<TextBox>, t: Tree, input': seq<TextBox>, t': Tree)
    requires InRange(t, |input|) && InRange(t', |input'|) && Among(input, Leaves(t), input', Leaves(t'))
    ensures Within(Hull(input, t), Hull(input', t'))
  {
    HullEncloses(input, t);
    HullEncloses(input', t');
    HullWithin(input, Leaves(t), Hull(input, t), input', Leaves(t'), Hull(input', t'));
  }

  lemma SameHull(input: seq<TextBox>, t: Tree, input': seq<TextBox>, t': Tree)
    requires InRange(t, |input|) && InRange(t', |input'|)
    requires Among(input, Leaves(t), input', Leaves(t')) && Among(input', Leaves(t'), input, Leaves(t))
    ensures Hull(input, t) == Hull(input', t')
  {
    TreeWithin(input, t, input', t');
    TreeWithin(input', t', input, t);
  }

  /** The group of a box holds the same boxes in either order. */
  lemma SameLeaves(input: seq<TextBox>, boxes: seq<TextBox>, trees: seq<Tree>, k: nat, i: nat,
                   input': seq<TextBox>, boxes': seq<TextBox>, trees': seq<Tree>, k': nat,
                   order: seq<nat>, back: seq<nat>)
    requires Outcome(input, boxes, trees) && k < |trees| && Outcome(input', boxes', trees') && k' < |trees'|
    requires Reordered(input, input', order, back)
    requires i < |input| && i in Leaves(trees[k]) && back[i] in Leaves(trees'[k'])
    ensures Among(input, Leaves(trees[k]), input', Leaves(trees'[k']))
  {
    forall j | j in Leaves(trees[k]) && j < |input|
      ensures back[j] in Leaves(trees'[k']) && input'[back[j]] == input[j]
    {
      GroupsAreComponents(input, boxes, trees, k, i, j);
      LinkedReordered(input, input', order, back, i, j);
      GroupsAreComponents(input', boxes', trees', k', back[i], back[j]);
    }
  }

  lemma BoxInBoth(input: seq<TextBox>, boxes: seq<TextBox>, trees: seq<Tree>, k: nat,
                  input': seq<TextBox>, boxes': seq<TextBox>, trees': seq<Tree>, order: seq<nat>, back: seq<nat>)
    requires Outcome(input, boxes, trees) && Outcome(input', boxes', trees') && k < |trees|
    requires Reordered(input, input', order, back)
    ensures boxes[k] in boxes'
  {
    assert Grows(input, trees[k], boxes[k]);
    var i := LeafInRange(trees[k], |input|);
    var k' := GroupOf(input', boxes', trees', back[i]);
    assert Grows(input', trees'[k'], boxes'[k']);
    SameLeaves(input, boxes, trees, k, i, input', boxes', trees', k', order, back);
    SameLeaves(input', boxes', trees', k', back[i], input, boxes, trees, k, back, order);
    SameHull(input, trees[k], input', trees'[k']);
  }

  lemma {:induction false} LeafInRange(t: Tree, n: nat) returns (i: nat)
    requires InRange(t, n)
    ensures i in Leaves(t) && i < n
  {
    match t
    case Leaf(k) => i := k;
    case Join(l, r) => i := LeafInRange(l, n);
  }

  /** Banded boxes come out the same whatever order they go in. */
  lemma OrderIndependent(input: seq<TextBox>, boxes: seq<TextBox>, trees: seq<Tree>,
                         input': seq<TextBox>, boxes': seq<TextBox>, trees': seq<Tree>, order: seq<nat>, back: seq<nat>)
    requires Banded(input) && Reordered(input, input', order, back)
    requires Grouped(input, boxes, trees) && Separated(boxes) && Grouped(input', boxes', trees') && Separated(boxes')
    ensures forall b :: b in boxes <==> b in boxes'
  {
    BandedReordered(input, input', order, back);
    forall k | 0 <= k < |boxes| ensures boxes[k] in boxes' {
      BoxInBoth(input, boxes, trees, k, input', boxes', trees', order, back);
    }
    forall k | 0 <= k < |boxes'| ensures boxes'[k] in boxes {
      BoxInBoth(input', boxes', trees', k, input, boxes, trees, back, order);
    }
  }
}
