/** The text box of crates/rkvm-vision/src/det.rs, with real edges and score. */
module TextBoxes {
  datatype TextBox = TextBox(x0: real, y0: real, x1: real, y1: real, score: real) {
    function Width(): real { x1 - x0 }
    function Height(): real { y1 - y0 }

    function Union(other: TextBox): TextBox {
      TextBox(Min(x0, other.x0), Min(y0, other.y0), Max(x1, other.x1), Max(y1, other.y1),
              Max(score, other.score))
    }

    /** Pieces of one text line: most of the shorter one's height is shared, and they touch or
        overlap horizontally. */
    predicate SameLine(other: TextBox) {
      var minH := Min(Height(), other.Height());
      var vOverlap := Min(y1, other.y1) - Max(y0, other.y0);
      var hGap := Max(x0, other.x0) - Min(x1, other.x1);
      minH > 0.0 && vOverlap >= 0.6 * minH && hGap <= 0.1 * minH
    }
  }

  function Min(a: real, b: real): real { if a <= b then a else b }
  function Max(a: real, b: real): real { if a >= b then a else b }
}
