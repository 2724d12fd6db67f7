/** Counting pictures: a rectangle showing nine bytes has more of them than there are fingerprints. */
module FingerprintCounting {
  import opened Arith
  import opened Lists
  import opened Rects
  import opened Fingerprint
  import opened FingerprintLimits
  import opened Pigeonhole

  // ---- The visible bytes ----

  /** How many bytes the first `n` rows of the rectangle show. */
  function ShownTotal(len: nat, stride: nat, rect: Rect, n: nat): nat
    requires rect.Valid()
  {
    if n == 0 then 0 else ShownTotal(len, stride, rect, n - 1) + Shown(len, stride, rect, n - 1)
  }

  function RowSpots(stride: nat, rect: Rect, k: nat, m: nat): (l: seq<nat>)
    ensures |l| == m && forall c :: 0 <= c < m ==> l[c] == Place(stride, rect, k, c)
  {
    seq(m, (c: nat) requires c < m => Place(stride, rect, k, c))
  }

  /** Where they lie in the plane. */
  function Spots(len: nat, stride: nat, rect: Rect, n: nat): (l: seq<nat>)
    requires rect.Valid()
    ensures |l| == ShownTotal(len, stride, rect, n)
  {
    if n == 0 then []
    else Spots(len, stride, rect, n - 1) + RowSpots(stride, rect, n - 1, Shown(len, stride, rect, n - 1))
  }

  /** A visible place in the first `n` rows of the rectangle. */
  ghost predicate SpotOk(len: nat, stride: nat, rect: Rect, n: nat, i: nat) {
    i < len && Visible(stride, rect, i) && i / MaxNat(stride, 1) < rect.y + n
  }

  lemma RowSpotOk(len: nat, stride: nat, rect: Rect, k: nat, c: nat)
    requires rect.Valid() && k < rect.height && c < Shown(len, stride, rect, k)
    ensures SpotOk(len, stride, rect, k + 1, Place(stride, rect, k, c))
    ensures !SpotOk(len, stride, rect, k, Place(stride, rect, k, c))
  {
    PlaceShown(Black(len), stride, rect, k, c);
  }

  lemma SpotLater(len: nat, stride: nat, rect: Rect, n: nat, i: nat)
    requires SpotOk(len, stride, rect, n, i)
    ensures SpotOk(len, stride, rect, n + 1, i)
  {
  }

  lemma {:induction false} SpotsVisible(len: nat, stride: nat, rect: Rect, n: nat)
    requires rect.Valid() && n <= rect.height
    ensures var l := Spots(len, stride, rect, n);
            Distinct(l) && forall i :: 0 <= i < |l| ==> SpotOk(len, stride, rect, n, l[i])
  {
    if n > 0 {
      var k := n - 1;
      SpotsVisible(len, stride, rect, k);
      var front, row := Spots(len, stride, rect, k), RowSpots(stride, rect, k, Shown(len, stride, rect, k));
      forall i | 0 <= i < |front| ensures SpotOk(len, stride, rect, n, front[i]) {
        SpotLater(len, stride, rect, k, front[i]);
      }
      forall c | 0 <= c < |row|
        ensures SpotOk(len, stride, rect, n, row[c]) && !SpotOk(len, stride, rect, k, row[c])
      {
        RowSpotOk(len, stride, rect, k, c);
      }
      assert forall c, d :: 0 <= c < d < |row| ==> row[c] != row[d];
    }
  }

  // ---- Painting a number ----

  function Bit(b: bv8, mask: bv8): nat { if b & mask == 0 then 0 else 1 }

  /** A byte as a number. */
  function ByteNumber(b: bv8): (n: nat)
    ensures n < 256
  {
    Bit(b, 1) + 2 * Bit(b, 2) + 4 * Bit(b, 4) + 8 * Bit(b, 8)
    + 16 * Bit(b, 16) + 32 * Bit(b, 32) + 64 * Bit(b, 64) + 128 * Bit(b, 128)
  }

  /** The byte of a number. */
  function Digit(d: nat): bv8
    requires d < 256
  {
    if d == 0 then 0 else Digit(d - 1) + 1
  }

  lemma NextByte(b: bv8)
    requires b != 255
    ensures ByteNumber(b + 1) == ByteNumber(b) + 1
  {
  }

  lemma FullByte()
    ensures ByteNumber(255) == 255 && ByteNumber(0) == 0
  {
  }

  lemma NextDigit(b: bv8, d: nat)
    requires d < 255 && ByteNumber(b) == d
    ensures ByteNumber(b + 1) == d + 1
  {
    FullByte();
    if b != 255 { NextByte(b); }
  }

  lemma {:induction false} DigitNumber(d: nat)
    requires d < 256
    ensures ByteNumber(Digit(d)) == d
  {
    if d == 0 {
      FullByte();
    } else {
      DigitNumber(d - 1);
      NextDigit(Digit(d - 1), d - 1);
    }
  }

  lemma {:induction false} NumberDigit(b: bv8)
    ensures Digit(ByteNumber(b)) == b
    decreases ByteNumber(b)
  {
    if b == 0 {
      assert ByteNumber(0) == 0;
    } else {
      ByteBefore(b);
      NumberDigit(b - 1);
    }
  }

  lemma ByteBefore(b: bv8)
    requires b != 0
    ensures (b - 1) + 1 == b && ByteNumber(b) == ByteNumber(b - 1) + 1
  {
    NextByte(b - 1);
  }

  lemma ByteNumberInjective(a: bv8, b: bv8, n: nat)
    requires ByteNumber(a) == n && ByteNumber(b) == n
    ensures a == b
  {
    NumberDigit(a);
    NumberDigit(b);
  }

  function Paint(y: Bytes, spots: seq<nat>, i: nat): (y': Bytes)
    requires forall k :: 0 <= k < |spots| ==> spots[k] < |y|
    ensures |y'| == |y|
  {
    if spots == [] then y else Paint(y, spots[1..], i / 256)[spots[0] := Digit(i % 256)]
  }

  function Pow256(n: nat): nat { if n == 0 then 1 else 256 * Pow256(n - 1) }

  /** Different numbers give pictures that differ in one of the spots. */
  lemma {:induction false} PaintDiffers(y: Bytes, spots: seq<nat>, i: nat, j: nat) returns (k: nat)
    requires Distinct(spots) && forall k :: 0 <= k < |spots| ==> spots[k] < |y|
    requires i < Pow256(|spots|) && j < Pow256(|spots|) && i != j
    ensures k < |spots| && Paint(y, spots, i)[spots[k]] != Paint(y, spots, j)[spots[k]]
    decreases |spots|
  {
    if i % 256 != j % 256 {
      k := 0;
      DigitNumber(i % 256);
      DigitNumber(j % 256);
    } else {
      k := PaintDiffers(y, spots[1..], i / 256, j / 256);
      k := k + 1;
      assert spots[k] != spots[0];
    }
  }

  // ---- Too many pictures ----

  const HASHES: nat := 0x1_0000_0000_0000_0000

  /** The fingerprint of a painted picture, as a number. */
  function PaintHash(y: Bytes, stride: nat, rect: Rect, spots: seq<nat>, i: nat): (h: nat)
    requires rect.Valid() && forall k :: 0 <= k < |spots| ==> spots[k] < |y|
    ensures h < HASHES
  {
    Number(Hash(Paint(y, spots, i), stride, rect))
  }

  function Number(h: bv64): (n: nat)
    ensures n < HASHES
  {
    NineDigits();
    BytesNumber(ToLe(h))
  }

  function BytesNumber(b: Bytes): (n: nat)
    ensures n < Pow256(|b|)
  {
    if b == [] then 0 else ByteNumber(b[0]) + 256 * BytesNumber(b[1..])
  }

  lemma {:induction false} BytesNumberInjective(a: Bytes, b: Bytes)
    requires |a| == |b| && BytesNumber(a) == BytesNumber(b)
    ensures a == b
  {
    if a != [] {
      LowDigit(ByteNumber(a[0]), BytesNumber(a[1..]), ByteNumber(b[0]), BytesNumber(b[1..]));
      ByteNumberInjective(a[0], b[0], ByteNumber(a[0]));
      BytesNumberInjective(a[1..], b[1..]);
      assert a == [a[0]] + a[1..] && b == [b[0]] + b[1..];
    }
  }

  lemma LowDigit(p: nat, x: nat, q: nat, y: nat)
    requires p < 256 && q < 256 && p + 256 * x == q + 256 * y
    ensures p == q && x == y
  {
  }

  lemma NumberInjective(a: bv64, b: bv64)
    requires Number(a) == Number(b)
    ensures a == b
  {
    BytesNumberInjective(ToLe(a), ToLe(b));
    LeRoundTrip(a, ToLe(a));
    LeRoundTrip(b, ToLe(b));
  }

  lemma NineDigits()
    ensures Pow256(8) == HASHES < Pow256(9)
  {
    assert Pow256(1) == 0x100 && Pow256(2) == 0x1_0000 && Pow256(3) == 0x100_0000;
    assert Pow256(4) == 0x1_0000_0000 && Pow256(5) == 0x100_0000_0000;
    assert Pow256(6) == 0x1_0000_0000_0000 && Pow256(7) == 0x100_0000_0000_0000;
    assert Pow256(8) == HASHES;
  }

  lemma PaintsShare(y: Bytes, stride: nat, rect: Rect, spots: seq<nat>) returns (i: nat, j: nat)
    requires rect.Valid() && |spots| == 9 && forall k :: 0 <= k < 9 ==> spots[k] < |y|
    ensures i < j < Pow256(9) && PaintHash(y, stride, rect, spots, i) == PaintHash(y, stride, rect, spots, j)
  {
    var f := (i: nat) => PaintHash(y, stride, rect, spots, i);
    NineDigits();
    TwoShare(f, Pow256(9), HASHES);
    i, j :| 0 <= i < j < Pow256(9) && f(i) == f(j);
  }

  /** Nine visible places: two of the pictures that differ only there share a fingerprint. */
  lemma NineCollide(y: Bytes, stride: nat, rect: Rect, spots: seq<nat>) returns (a: Bytes, b: Bytes)
    requires rect.Valid() && |spots| == 9 && Distinct(spots)
    requires forall k :: 0 <= k < 9 ==> spots[k] < |y| && Visible(stride, rect, spots[k])
    ensures |a| == |b| == |y| && !SameInside(a, b, stride, rect) && Hash(a, stride, rect) == Hash(b, stride, rect)
  {
    var i, j := PaintsShare(y, stride, rect, spots);
    a, b := Paint(y, spots, i), Paint(y, spots, j);
    SameHash(y, stride, rect, spots, i, j);
    PaintShows(y, stride, rect, spots, i, j);
  }

  lemma PaintShows(y: Bytes, stride: nat, rect: Rect, spots: seq<nat>, i: nat, j: nat)
    requires Distinct(spots) && i < Pow256(|spots|) && j < Pow256(|spots|) && i != j
    requires forall k :: 0 <= k < |spots| ==> spots[k] < |y| && Visible(stride, rect, spots[k])
    ensures !SameInside(Paint(y, spots, i), Paint(y, spots, j), stride, rect)
  {
    var k := PaintDiffers(y, spots, i, j);
    assert Visible(stride, rect, spots[k]);
  }

  lemma SameHash(y: Bytes, stride: nat, rect: Rect, spots: seq<nat>, i: nat, j: nat)
    requires rect.Valid() && forall k :: 0 <= k < |spots| ==> spots[k] < |y|
    ensures PaintHash(y, stride, rect, spots, i) == PaintHash(y, stride, rect, spots, j) ==>
              Hash(Paint(y, spots, i), stride, rect) == Hash(Paint(y, spots, j), stride, rect)
  {
    if PaintHash(y, stride, rect, spots, i) == PaintHash(y, stride, rect, spots, j) {
      NumberInjective(Hash(Paint(y, spots, i), stride, rect), Hash(Paint(y, spots, j), stride, rect));
    }
  }

  /** Wherever nine or more bytes are visible, some two pictures that look different there share a
      fingerprint. */
  lemma ManyCollide(len: nat, stride: nat, rect: Rect)
    requires rect.Valid() && ShownTotal(len, stride, rect, rect.height) >= 9
    ensures !TellsApart(len, stride, rect)
  {
    var l := Spots(len, stride, rect, rect.height);
    SpotsVisible(len, stride, rect, rect.height);
    forall k | 0 <= k < 9 ensures l[..9][k] < len && Visible(stride, rect, l[..9][k]) {
      assert SpotOk(len, stride, rect, rect.height, l[k]);
    }
    var a, b := NineCollide(Black(len), stride, rect, l[..9]);
  }
}
