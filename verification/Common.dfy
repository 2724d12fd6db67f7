/** Values several components share. */
module Options {
  datatype Option<+T> = None | Some(value: T)
}

/** Facts about lists several components share. */
module Lists {
  ghost predicate Distinct(s: seq<nat>) { forall i, j :: 0 <= i < j < |s| ==> s[i] != s[j] }
}

/** Monotonic instants in nanoseconds, as `std::time::Instant` gives them. */
module Clock {
  type Instant = nat

  const SEC: nat := 1_000_000_000

  /** `Instant::duration_since`, which saturates at zero. */
  function Since(now: Instant, t: Instant): nat { if now >= t then now - t else 0 }
}

/** The pixel rectangle of crates/rkvm-proto/src/vision.rs. */
module Rects {
  datatype Rect = Rect(x: nat, y: nat, width: nat, height: nat) {
    /** Every field is a `u32`. */
    predicate Valid() { x < 0x1_0000_0000 && y < 0x1_0000_0000 && width < 0x1_0000_0000 && height < 0x1_0000_0000 }

    /** `saturating_add` */
    function Right(): nat { if x + width <= 0xffff_ffff then x + width else 0xffff_ffff }
  }
}
