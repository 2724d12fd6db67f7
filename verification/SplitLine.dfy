/** Long-line splitting (crates/rkvm-vision/src/rec.rs) and the width arithmetic of line submission
    (crates/rkvm-vision/src/npu.rs). */
module SplitLine {
  import opened Arith
  import opened Options

  datatype Segment = Segment(start: nat, end: nat, spaceBefore: bool)

  /** Columns `lo` up to but not including `hi` are all blank, or all ink. */
  ghost predicate AllBlank(blank: seq<bool>, lo: nat, hi: nat) { forall c :: lo <= c < hi && c < |blank| ==> blank[c] }
  ghost predicate AllInk(blank: seq<bool>, lo: nat, hi: nat) { forall c :: lo <= c < hi && c < |blank| ==> !blank[c] }

  // ---- What the cuts must be ----

  /** A segment holds ink first, ends within `width`, and stops at the line's end only when the rest fits. */
  ghost predicate Fits(blank: seq<bool>, width: nat, s: Segment) {
    && s.start < s.end <= |blank| && s.end - s.start <= width && !blank[s.start]
    && (s.end == |blank| || |blank| - s.start > width)
  }

  /** Why a segment short of the line's end stops where it does, the next ink being at `next`: it
      stops at the last gap at or before the limit that reaches the half-width point, or, when every
      column from there through the limit is ink, at the limit itself. */
  ghost predicate CutWell(blank: seq<bool>, width: nat, s: Segment, next: nat)
    requires s.start < s.end <= |blank|
  {
    var (earliest, limit) := (s.start + width / 2, s.start + width);
    if next == s.end then s.end == limit && AllInk(blank, earliest, limit + 1)
    else
      && s.end < next && AllBlank(blank, s.end, next)
      && !blank[s.end - 1] && (next < |blank| ==> !blank[next])
      && earliest < next && s.end <= limit && AllInk(blank, next, limit + 1)
  }

  /** Where the segment after `segs[k]` begins, or where the line ends. */
  ghost function NextStart(blank: seq<bool>, segs: seq<Segment>, k: nat): nat
    requires k < |segs|
  {
    if k + 1 < |segs| then segs[k + 1].start else |blank|
  }

  /** A segment in its place, `next` being where the following one begins. */
  ghost predicate Placed(blank: seq<bool>, width: nat, s: Segment, next: nat) {
    Fits(blank, width, s) && s.end <= next && (s.end < |blank| ==> CutWell(blank, width, s, next))
  }

  ghost predicate SplitOk(blank: seq<bool>, width: nat, spaceMin: nat, segs: seq<Segment>) {
    && AllBlank(blank, 0, if segs == [] then |blank| else segs[0].start)
    && (segs != [] ==> !segs[0].spaceBefore)
    && (forall k :: 0 <= k < |segs| ==> Placed(blank, width, segs[k], NextStart(blank, segs, k)))
    && (forall k :: 0 < k < |segs| ==> SpaceOk(spaceMin, segs[k - 1], segs[k]))
  }

  /** A word space is a real gap of at least `spaceMin` columns. */
  ghost predicate SpaceOk(spaceMin: nat, prev: Segment, s: Segment) {
    prev.end <= s.start && (s.spaceBefore <==> s.start > prev.end && s.start - prev.end >= spaceMin)
  }

  // ---- The scans ----

  method SkipBlank(blank: seq<bool>, from: nat) returns (to: nat)
    requires from <= |blank|
    ensures from <= to <= |blank| && AllBlank(blank, from, to) && (to < |blank| ==> !blank[to])
  {
    to := from;
    while to < |blank| && blank[to]
      invariant from <= to <= |blank| && AllBlank(blank, from, to)
    {
      to := to + 1;
    }
  }

  /** The last blank column of `earliest..=limit`, or one below `earliest`. */
  method FindGap(blank: seq<bool>, earliest: nat, limit: nat) returns (c: int)
    requires earliest <= limit < |blank|
    ensures earliest - 1 <= c <= limit && AllInk(blank, c + 1, limit + 1)
    ensures c >= earliest ==> blank[c]
  {
    c := limit;
    while c >= earliest && !blank[c]
      invariant earliest - 1 <= c <= limit && AllInk(blank, c + 1, limit + 1)
    {
      c := c - 1;
    }
  }

  method GapStart(blank: seq<bool>, start: nat, c: nat) returns (g: nat)
    requires start < c < |blank| && blank[c] && !blank[start]
    ensures start < g <= c && AllBlank(blank, g, c + 1) && !blank[g - 1]
  {
    g := c;
    while g > start && blank[g - 1]
      invariant start < g <= c && AllBlank(blank, g, c + 1)
    {
      g := g - 1;
    }
  }

  /** One cut: the segment from `start`, and where the scan goes on. */
  method Cut(blank: seq<bool>, width: nat, spaceMin: nat, start: nat, spaceBefore: bool)
    returns (s: Segment, next: nat, space: bool)
    requires 0 < width && start < |blank| && !blank[start] && |blank| - start > width
    ensures s.start == start && s.spaceBefore == spaceBefore && Fits(blank, width, s) && s.end < |blank|
    ensures s.end <= next <= |blank| && CutWell(blank, width, s, next) && (next < |blank| ==> !blank[next])
    ensures space <==> next > s.end && next - s.end >= spaceMin
  {
    var limit, earliest := start + width, start + width / 2;
    var c := FindGap(blank, earliest, limit);
    if c >= earliest {
      var gapStart := GapStart(blank, start, c);
      next := SkipBlank(blank, c);
      s := Segment(start, gapStart, spaceBefore);
      space := next - gapStart >= spaceMin;
      assert AllBlank(blank, gapStart, next) by {
        forall k | gapStart <= k < next && k < |blank| ensures blank[k] {}
      }
    } else {
      s, next, space := Segment(start, limit, spaceBefore), limit, false;
    }
  }

  // ---- The loop ----

  /** The segments so far, with the scan about to go on at `start`. */
  ghost predicate Partial(blank: seq<bool>, width: nat, spaceMin: nat, segs: seq<Segment>, start: nat, space: bool) {
    && start <= |blank|
    && (if segs == [] then AllBlank(blank, 0, start) && !space
        else
          && AllBlank(blank, 0, segs[0].start) && !segs[0].spaceBefore
          && (start < |blank| ==> !blank[start])
          && SpaceOk(spaceMin, segs[|segs| - 1], Segment(start, start, space)))
    && (forall k :: 0 <= k < |segs| ==> Placed(blank, width, segs[k], StartAfter(segs, k, start)))
    && (forall k :: 0 < k < |segs| ==> SpaceOk(spaceMin, segs[k - 1], segs[k]))
  }

  ghost function StartAfter(segs: seq<Segment>, k: nat, start: nat): nat
    requires k < |segs|
  {
    if k + 1 < |segs| then segs[k + 1].start else start
  }

  /** Adding the next segment keeps every earlier one in its place. */
  lemma PushPlaced(blank: seq<bool>, width: nat, segs: seq<Segment>, s: Segment, next: nat)
    requires forall k :: 0 <= k < |segs| ==> Placed(blank, width, segs[k], StartAfter(segs, k, s.start))
    requires Placed(blank, width, s, next)
    ensures forall k :: 0 <= k < |segs + [s]| ==> Placed(blank, width, (segs + [s])[k], StartAfter(segs + [s], k, next))
  {
    forall k | 0 <= k < |segs| ensures StartAfter(segs + [s], k, next) == StartAfter(segs, k, s.start) {}
  }

  lemma PushSpaces(spaceMin: nat, segs: seq<Segment>, s: Segment)
    requires forall k :: 0 < k < |segs| ==> SpaceOk(spaceMin, segs[k - 1], segs[k])
    requires segs != [] ==> SpaceOk(spaceMin, segs[|segs| - 1], Segment(s.start, s.start, s.spaceBefore))
    ensures forall k :: 0 < k < |segs + [s]| ==> SpaceOk(spaceMin, (segs + [s])[k - 1], (segs + [s])[k])
  {
  }

  lemma PartialPush(blank: seq<bool>, width: nat, spaceMin: nat, segs: seq<Segment>, s: Segment, next: nat, space: bool)
    requires Partial(blank, width, spaceMin, segs, s.start, s.spaceBefore) && Placed(blank, width, s, next)
    requires next <= |blank| && (next < |blank| ==> !blank[next]) && SpaceOk(spaceMin, s, Segment(next, next, space))
    ensures Partial(blank, width, spaceMin, segs + [s], next, space)
  {
    PushPlaced(blank, width, segs, s, next);
    PushSpaces(spaceMin, segs, s);
  }

  lemma PartialLast(blank: seq<bool>, width: nat, spaceMin: nat, segs: seq<Segment>, s: Segment)
    requires Partial(blank, width, spaceMin, segs, s.start, s.spaceBefore)
    requires s.start < |blank| == s.end && !blank[s.start] && |blank| - s.start <= width
    ensures SplitOk(blank, width, spaceMin, segs + [s])
  {
    PushPlaced(blank, width, segs, s, |blank|);
    PushSpaces(spaceMin, segs, s);
    Finished(blank, width, spaceMin, segs + [s]);
  }

  /** Once the scan has reached the line's end, the split is complete. */
  lemma Finished(blank: seq<bool>, width: nat, spaceMin: nat, segs: seq<Segment>)
    requires forall k :: 0 <= k < |segs| ==> Placed(blank, width, segs[k], StartAfter(segs, k, |blank|))
    requires forall k :: 0 < k < |segs| ==> SpaceOk(spaceMin, segs[k - 1], segs[k])
    requires AllBlank(blank, 0, if segs == [] then |blank| else segs[0].start) && (segs != [] ==> !segs[0].spaceBefore)
    ensures SplitOk(blank, width, spaceMin, segs)
  {
    forall k | 0 <= k < |segs| ensures NextStart(blank, segs, k) == StartAfter(segs, k, |blank|) {}
  }

  /** `split_line`: segments in order, none wider than the recognizer takes, every inked column in
      one of them, ink cut only where no gap would do, and word spaces flagged by the gap's width. */
  method SplitLine(blank: seq<bool>, maxWidth: nat, spaceMin: nat) returns (segs: seq<Segment>)
    ensures SplitOk(blank, MaxNat(maxWidth, 1), spaceMin, segs)
  {
    var n, width := |blank|, MaxNat(maxWidth, 1);
    segs := [];
    var start, space := 0, false;
    while true
      invariant Partial(blank, width, spaceMin, segs, start, space)
      decreases n - start
    {
      ghost var before := start;
      start := SkipBlank(blank, start);
      assert segs != [] ==> start == before;
      if start >= n {
        Finished(blank, width, spaceMin, segs);
        return;
      }
      if n - start <= width {
        PartialLast(blank, width, spaceMin, segs, Segment(start, n, space));
        segs := segs + [Segment(start, n, space)];
        return;
      }
      var s, next, space' := Cut(blank, width, spaceMin, start, space);
      PartialPush(blank, width, spaceMin, segs, s, next, space');
      segs, start, space := segs + [s], next, space';
    }
  }

  // ---- What a caller gets ----

  lemma {:induction false} StartsAdvance(blank: seq<bool>, width: nat, spaceMin: nat, segs: seq<Segment>, k: nat)
    requires 0 < width && SplitOk(blank, width, spaceMin, segs) && k < |segs|
    ensures (width / 2 + 1) * k <= segs[k].start
  {
    if k > 0 {
      StartsAdvance(blank, width, spaceMin, segs, k - 1);
      assert Placed(blank, width, segs[k - 1], NextStart(blank, segs, k - 1));
      assert Fits(blank, width, segs[k]);
      assert (width / 2 + 1) * k == (width / 2 + 1) * (k - 1) + (width / 2 + 1);
    }
  }

  /** Few segments: each but the last takes up more than half the width. */
  lemma SegmentsFew(blank: seq<bool>, width: nat, spaceMin: nat, segs: seq<Segment>)
    requires 0 < width && SplitOk(blank, width, spaceMin, segs) && segs != []
    ensures (width / 2 + 1) * (|segs| - 1) < |blank|
  {
    StartsAdvance(blank, width, spaceMin, segs, |segs| - 1);
    assert Placed(blank, width, segs[|segs| - 1], NextStart(blank, segs, |segs| - 1));
  }

  lemma {:induction false} SegmentsOrdered(blank: seq<bool>, width: nat, spaceMin: nat, segs: seq<Segment>,
                                           i: nat, j: nat)
    requires SplitOk(blank, width, spaceMin, segs) && i < j < |segs|
    ensures segs[i].end <= segs[j].start
  {
    assert SpaceOk(spaceMin, segs[j - 1], segs[j]) && Fits(blank, width, segs[j - 1]);
    if i < j - 1 { SegmentsOrdered(blank, width, spaceMin, segs, i, j - 1); }
  }

  lemma {:induction false} InkBefore(blank: seq<bool>, width: nat, spaceMin: nat, segs: seq<Segment>, k: nat, c: nat)
    returns (i: nat)
    requires SplitOk(blank, width, spaceMin, segs) && k < |segs| && c < NextStart(blank, segs, k)
    requires c < |blank| && !blank[c]
    ensures i < |segs| && segs[i].start <= c < segs[i].end
  {
    if segs[k].start <= c {
      i := k;
      assert Placed(blank, width, segs[k], NextStart(blank, segs, k));
    } else {
      assert k > 0;
      assert NextStart(blank, segs, k - 1) == segs[k].start;
      i := InkBefore(blank, width, spaceMin, segs, k - 1, c);
    }
  }

  /** Every inked column is in exactly one segment. */
  lemma InkInOneSegment(blank: seq<bool>, width: nat, spaceMin: nat, segs: seq<Segment>, c: nat) returns (i: nat)
    requires SplitOk(blank, width, spaceMin, segs) && c < |blank| && !blank[c]
    ensures i < |segs| && segs[i].start <= c < segs[i].end
    ensures forall j :: 0 <= j < |segs| && segs[j].start <= c < segs[j].end ==> j == i
  {
    i := InkBefore(blank, width, spaceMin, segs, |segs| - 1, c);
    forall j | 0 <= j < |segs| && segs[j].start <= c < segs[j].end ensures j == i {
      if i < j { SegmentsOrdered(blank, width, spaceMin, segs, i, j); }
      if j < i { SegmentsOrdered(blank, width, spaceMin, segs, j, i); }
    }
  }

  // ---- Submitting a line ----

  ghost predicate Ascending(widths: seq<nat>) { forall i, j :: 0 <= i < j < |widths| ==> widths[i] <= widths[j] }

  /** The first width of at least `needed`, or the number of widths. */
  function FirstAtLeast(widths: seq<nat>, needed: nat): (i: nat)
    ensures i <= |widths| && (i < |widths| ==> widths[i] >= needed)
    ensures forall k :: 0 <= k < i ==> widths[k] < needed
  {
    if widths == [] || widths[0] >= needed then 0 else 1 + FirstAtLeast(widths[1..], needed)
  }

  /** `pick_width`: the first model that fits, else the last, if there is one at all. */
  function PickWidth(widths: seq<nat>, needed: nat): Option<nat> {
    var i := FirstAtLeast(widths, needed);
    if i < |widths| then Some(widths[i]) else if widths == [] then None else Some(widths[i - 1])
  }

  /** With ascending widths that is the narrowest model that holds the columns when any does, and the
      widest model when none does. */
  lemma PicksNarrowest(widths: seq<nat>, needed: nat)
    requires widths != [] && Ascending(widths)
    ensures var r, widest := PickWidth(widths, needed), widths[|widths| - 1];
            && r.Some? && r.value in widths
            && (if needed <= widest
                then r.value >= needed && forall i :: 0 <= i < |widths| && widths[i] >= needed ==> r.value <= widths[i]
                else r.value == widest)
  {
  }

  /** Crop columns one pass of the widest model can take. */
  function MaxCropWidth(maxWidth: nat, cropH: nat, recH: nat): nat
    requires recH > 0
  {
    MaxNat(maxWidth * cropH / recH, 1)
  }

  /** Model columns a crop of `cropW` columns scales to. */
  function Needed(cropW: nat, cropH: nat, recH: nat): nat
    requires cropH > 0
  {
    MaxNat(DivCeil(cropW * recH, cropH), 8)
  }

  /** `n` model columns hold the crop: scaled from the crop's height to the model's, it is no wider
      than that, and there are the 8 columns every input is padded to. */
  predicate Holds(n: nat, cropW: nat, cropH: nat, recH: nat) { n >= 8 && cropW * recH <= n * cropH }

  ghost predicate Fewest(needed: nat, cropW: nat, cropH: nat, recH: nat) {
    forall n: nat :: needed <= n <==> Holds(n, cropW, cropH, recH)
  }

  /** The columns asked for are the fewest that hold the crop. */
  lemma NeededIff(cropW: nat, cropH: nat, recH: nat, n: nat)
    requires cropH > 0
    ensures Needed(cropW, cropH, recH) <= n <==> Holds(n, cropW, cropH, recH)
  {
    DivCeilAtMost(cropW * recH, cropH, n);
  }

  /** The widest model has the 8 columns every input is padded to, and takes in one crop column. */
  predicate Roomy(maxWidth: nat, cropH: nat, recH: nat) { maxWidth >= 8 && maxWidth * cropH >= recH }

  /** A crop no wider than the quotient fits when scaled up again, unless the quotient was rounded up
      from zero. */
  lemma CropFits(area: nat, cropW: nat, recH: nat)
    requires recH > 0 && 0 < cropW
    ensures cropW <= MaxNat(area / recH, 1) <==> cropW == 1 || cropW * recH <= area
    ensures cropW <= MaxNat(area / recH, 1) ==> (cropW * recH <= area <==> recH <= area)
  {
    MulMono(1, cropW, recH);
    DivBounds(area, recH);
    if cropW * recH <= area { QuotientAtLeast(recH, cropW, area); }
    if recH <= area { QuotientAtLeast(recH, 1, area); }
    if cropW <= area / recH { MulMono(cropW, area / recH, recH); }
  }

  /** A line is cut no sooner than it must be: a segment may be as wide as the widest model holds when
      it is scaled, and one column in any case. */
  lemma CutWidthIff(maxWidth: nat, cropW: nat, cropH: nat, recH: nat)
    requires recH > 0 && 0 < cropW
    ensures cropW <= MaxCropWidth(maxWidth, cropH, recH) <==> cropW == 1 || cropW * recH <= maxWidth * cropH
  {
    CropFits(maxWidth * cropH, cropW, recH);
  }

  /** A segment no wider than the cut allows scales into the widest model exactly when the model is
      roomy; when it is not, no segment does. */
  lemma SegmentScales(maxWidth: nat, cropW: nat, cropH: nat, recH: nat)
    requires cropH > 0 && recH > 0 && 0 < cropW <= MaxCropWidth(maxWidth, cropH, recH)
    ensures Holds(maxWidth, cropW, cropH, recH) <==> Roomy(maxWidth, cropH, recH)
  {
    CropFits(maxWidth * cropH, cropW, recH);
  }

  /** A queued piece: its segment, the columns it needs and the model width picked for it. */
  datatype Piece = Piece(seg: Segment, needed: nat, width: nat)

  /** The piece asks for the fewest columns that hold its segment and gets the narrowest model with as
      many; the sampler squeezes it (`needed.min(width)` is less than `needed`) only if no model is
      roomy, and then it gets the widest. */
  ghost predicate PieceOk(widths: seq<nat>, cropH: nat, recH: nat, p: Piece)
    requires widths != []
  {
    var widest := widths[|widths| - 1];
    && p.seg.start < p.seg.end && p.width in widths
    && Fewest(p.needed, p.seg.end - p.seg.start, cropH, recH)
    && (MinNat(p.needed, p.width) == p.needed <==> Roomy(widest, cropH, recH))
    && (if Roomy(widest, cropH, recH)
        then forall i :: 0 <= i < |widths| && Holds(widths[i], p.seg.end - p.seg.start, cropH, recH) ==>
               p.width <= widths[i]
        else p.width == widest)
  }

  lemma PieceFor(widths: seq<nat>, cropH: nat, recH: nat, seg: Segment)
    requires widths != [] && Ascending(widths) && cropH > 0 && recH > 0 && seg.start < seg.end
    requires seg.end - seg.start <= MaxCropWidth(widths[|widths| - 1], cropH, recH)
    ensures var needed := Needed(seg.end - seg.start, cropH, recH);
            && PickWidth(widths, needed).Some?
            && PieceOk(widths, cropH, recH, Piece(seg, needed, PickWidth(widths, needed).value))
  {
    var (cropW, widest) := (seg.end - seg.start, widths[|widths| - 1]);
    SegmentScales(widest, cropW, cropH, recH);
    PicksNarrowest(widths, Needed(cropW, cropH, recH));
    forall n: nat ensures Needed(cropW, cropH, recH) <= n <==> Holds(n, cropW, cropH, recH) {
      NeededIff(cropW, cropH, recH, n);
    }
  }

  ghost function SegmentsOf(pieces: seq<Piece>): seq<Segment> {
    seq(|pieces|, (i: nat) requires i < |pieces| => pieces[i].seg)
  }

  /** The loop of `submit_line` over the segments of a split. */
  method QueuePieces(widths: seq<nat>, recH: nat, cropH: nat, segs: seq<Segment>, ghost maxCropW: nat)
    returns (pieces: seq<Piece>)
    requires Ascending(widths) && recH > 0 && cropH > 0
    requires widths != [] ==> maxCropW == MaxCropWidth(widths[|widths| - 1], cropH, recH)
    requires forall k :: 0 <= k < |segs| ==> segs[k].start < segs[k].end <= segs[k].start + maxCropW
    ensures widths == [] ==> pieces == []
    ensures widths != [] ==> SegmentsOf(pieces) == segs && forall p :: p in pieces ==> PieceOk(widths, cropH, recH, p)
  {
    pieces := [];
    for k := 0 to |segs|
      invariant widths == [] ==> pieces == []
      invariant widths != [] ==>
                  SegmentsOf(pieces) == segs[..k] && forall p :: p in pieces ==> PieceOk(widths, cropH, recH, p)
    {
      var seg := segs[k];
      var needed := Needed(seg.end - seg.start, cropH, recH);
      var width := PickWidth(widths, needed);
      if width.None? { continue; }
      PieceFor(widths, cropH, recH, seg);
      pieces := pieces + [Piece(seg, needed, width.value)];
    }
  }

  /** `submit_line`: one piece per segment of the split, each in the narrowest model that holds it and
      never squeezed, if and only if the widest model is roomy. Without models nothing is queued. */
  method SubmitLine(widths: seq<nat>, recH: nat, cropH: nat, blank: seq<bool>) returns (pieces: seq<Piece>)
    requires Ascending(widths) && recH > 0 && cropH > 0
    ensures widths == [] ==> pieces == []
    ensures widths != [] ==>
              && SplitOk(blank, MaxCropWidth(widths[|widths| - 1], cropH, recH), DivCeil(cropH, 4), SegmentsOf(pieces))
              && forall p :: p in pieces ==> PieceOk(widths, cropH, recH, p)
  {
    var maxWidth := if widths == [] then 0 else widths[|widths| - 1];
    var maxCropW := MaxCropWidth(maxWidth, cropH, recH);
    var segs := SplitLine(blank, maxCropW, DivCeil(cropH, 4));
    SegmentsFit(blank, maxCropW, DivCeil(cropH, 4), segs);
    pieces := QueuePieces(widths, recH, cropH, segs, maxCropW);
  }

  lemma SegmentsFit(blank: seq<bool>, width: nat, spaceMin: nat, segs: seq<Segment>)
    requires SplitOk(blank, width, spaceMin, segs)
    ensures forall k :: 0 <= k < |segs| ==> segs[k].start < segs[k].end <= segs[k].start + width
  {
    forall k | 0 <= k < |segs| ensures segs[k].start < segs[k].end <= segs[k].start + width {
      assert Placed(blank, width, segs[k], NextStart(blank, segs, k));
    }
  }
}
