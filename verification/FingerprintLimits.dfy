/** How far the fingerprint can be trusted: the comment on `fingerprint` claims equal hashes only for
    equal pictures, and this module settles it wherever a full 8-byte group is visible. */
module FingerprintLimits {
  import opened Arith
  import opened Rects
  import opened Fingerprint

  // ---- One word can bring the hash anywhere ----

  lemma ScrambleReaches(target: bv64) returns (h: bv64)
    ensures Scramble(h) == target
  {
    h := target * 0xf1de_83e1_9937_733d;
  }

  lemma RotateReaches(target: bv64) returns (h: bv64)
    ensures Rotate(h) == target
  {
    h := Unrotate(target);
  }

  lemma XorTwice(a: bv64, b: bv64)
    ensures a ^ (a ^ b) == b && (a ^ b) ^ a == b
  {
  }

  ghost predicate WordReaches<H(!new), W(!new)>(mix: (H, W) -> H, h: H, target: H) { exists w :: mix(h, w) == target }
  ghost predicate HashReaches<H(!new), W(!new)>(mix: (H, W) -> H, w: W, target: H) { exists h :: mix(h, w) == target }

  /** With either argument fixed, the step takes every value. */
  ghost predicate Onto<H(!new), W(!new)>(mix: (H, W) -> H) {
    && (forall h, target :: WordReaches(mix, h, target))
    && (forall w, target :: HashReaches(mix, w, target))
  }

  lemma BothReach(target: bv64) returns (x: bv64)
    ensures Rotate(Scramble(x)) == target
  {
    var y := RotateReaches(target);
    x := ScrambleReaches(y);
  }

  lemma MixOf(h: bv64, w: bv64, x: bv64)
    ensures h ^ w == x ==> Mix(h, w) == Rotate(Scramble(x))
  {
  }

  lemma MixReaches(a: bv64, target: bv64) returns (b: bv64)
    ensures Mix(a, b) == target && Mix(b, a) == target
  {
    var x := BothReach(target);
    b := a ^ x;
    XorTwice(a, x);
    MixOf(a, b, x);
    MixOf(b, a, x);
  }

  lemma MixOnto()
    ensures Onto(Mix)
  {
    forall h, target ensures WordReaches(Mix, h, target) { var w := MixReaches(h, target); }
    forall w, target ensures HashReaches(Mix, w, target) { var h := MixReaches(w, target); }
  }

  /** Some hash before the words leads to any given one after them. */
  lemma {:induction false} FoldBack<H(!new), W(!new)>(mix: (H, W) -> H, words: seq<W>, target: H) returns (h: H)
    requires Onto(mix)
    ensures Fold(mix, h, words) == target
  {
    h := target;
    if words != [] {
      assert HashReaches(mix, words[|words| - 1], target);
      var before :| mix(before, words[|words| - 1]) == target;
      h := FoldBack(mix, words[..|words| - 1], before);
    }
  }

  /** Whatever the other words are, word `k` can be chosen to give any hash. */
  lemma WordDecides<H(!new), W(!new)>(mix: (H, W) -> H, h: H, words: seq<W>, k: nat, target: H) returns (w: W)
    requires Onto(mix) && k < |words|
    ensures Fold(mix, h, words[k := w]) == target
  {
    var a, b := words[..k], words[k + 1..];
    var after := FoldBack(mix, b, target);
    assert WordReaches(mix, Fold(mix, h, a), after);
    w :| mix(Fold(mix, h, a), w) == after;
    assert words[k := w] == (a + [w]) + b && (a + [w])[..k] == a;
    FoldSplit(mix, h, a + [w], b);
  }

  // ---- Overwriting the first group of a row ----

  lemma {:induction false} PutFirst(row: Bytes, w: bv64)
    requires |row| >= 8
    ensures RowWords(row) != [] && RowWords(ToLe(w) + row[8..]) == RowWords(row)[0 := w]
  {
    var row' := ToLe(w) + row[8..];
    assert row'[..8] == ToLe(w) && row'[8..] == row[8..];
    LeRoundTrip(w, row[..8]);
  }

  /** How many bytes of row `k` of the rectangle a plane of `len` bytes shows. */
  function Shown(len: nat, stride: nat, rect: Rect, k: nat): nat
    requires rect.Valid()
  {
    var s := MaxNat(stride, 1);
    var n := WindowLength(len, (rect.y + k) * s, s);
    MinNat(rect.Right(), n) - MinNat(rect.x, n)
  }

  /** Where byte `c` of row `k` of the rectangle lies in the plane. */
  function Place(stride: nat, rect: Rect, k: nat, c: nat): nat { (rect.y + k) * MaxNat(stride, 1) + (rect.x + c) }

  lemma SliceShown(y: Bytes, stride: nat, rect: Rect, k: nat)
    requires rect.Valid()
    ensures |Slice(y, stride, rect, rect.y + k)| == Shown(|y|, stride, rect, k)
  {
  }

  lemma PlaceShown(y: Bytes, stride: nat, rect: Rect, k: nat, c: nat)
    requires rect.Valid() && k < rect.height && c < Shown(|y|, stride, rect, k)
    ensures var i := Place(stride, rect, k, c);
            && i < |y| && Visible(stride, rect, i) && Slice(y, stride, rect, rect.y + k)[c] == y[i]
            && i / MaxNat(stride, 1) == rect.y + k && i % MaxNat(stride, 1) == rect.x + c
  {
    SliceShown(y, stride, rect, k);
    SliceAt(y, stride, rect, rect.y + k, c);
    var i := Place(stride, rect, k, c);
    assert i == (rect.y + k) * MaxNat(stride, 1) + (rect.x + c);
  }

  /** Different bytes of the rectangle lie in different places. */
  lemma PlacesApart(y: Bytes, stride: nat, rect: Rect, k: nat, c: nat, k': nat, c': nat)
    requires rect.Valid() && k < rect.height && c < Shown(|y|, stride, rect, k)
    requires k' < rect.height && c' < Shown(|y|, stride, rect, k')
    requires Place(stride, rect, k, c) == Place(stride, rect, k', c')
    ensures k == k' && c == c'
  {
    PlaceShown(y, stride, rect, k, c);
    PlaceShown(y, stride, rect, k', c');
  }

  /** The plane with the eight bytes from `at` on replaced. */
  function Overwrite(y: Bytes, at: nat, w: bv64): (y': Bytes)
    requires at + 8 <= |y|
    ensures |y'| == |y| && forall i :: 0 <= i < |y| ==> y'[i] == if at <= i < at + 8 then ToLe(w)[i - at] else y[i]
  {
    y[..at] + ToLe(w) + y[at + 8..]
  }

  lemma OverwriteByte(y: Bytes, stride: nat, rect: Rect, r: nat, at: nat, w: bv64, k: nat, c: nat)
    requires rect.Valid() && r < rect.height && k < rect.height && Shown(|y|, stride, rect, r) >= 8
    requires at == Place(stride, rect, r, 0) && at + 8 <= |y| && c < Shown(|y|, stride, rect, k)
    ensures Slice(Overwrite(y, at, w), stride, rect, rect.y + k)[c] ==
            if k == r && c < 8 then ToLe(w)[c] else Slice(y, stride, rect, rect.y + k)[c]
  {
    var i := Place(stride, rect, k, c);
    ByteAt(y, stride, rect, k, c, i);
    ByteAt(Overwrite(y, at, w), stride, rect, k, c, i);
    GroupPlaces(y, stride, rect, r, at, k, c, i);
  }

  lemma ByteAt(y: Bytes, stride: nat, rect: Rect, k: nat, c: nat, i: nat)
    requires rect.Valid() && k < rect.height && c < Shown(|y|, stride, rect, k) && i == Place(stride, rect, k, c)
    ensures i < |y| && Slice(y, stride, rect, rect.y + k)[c] == y[i]
  {
    PlaceShown(y, stride, rect, k, c);
  }

  /** The eight places from `at` on are those of the first eight bytes of row `r`. */
  lemma GroupPlaces(y: Bytes, stride: nat, rect: Rect, r: nat, at: nat, k: nat, c: nat, i: nat)
    requires rect.Valid() && r < rect.height && k < rect.height && Shown(|y|, stride, rect, r) >= 8
    requires at == Place(stride, rect, r, 0) && c < Shown(|y|, stride, rect, k) && i == Place(stride, rect, k, c)
    ensures (at <= i < at + 8 <==> k == r && c < 8) && (k == r ==> i == at + c)
  {
    if at <= i < at + 8 { PlacesApart(y, stride, rect, k, c, r, i - at); }
  }

  lemma OverwriteSlice(y: Bytes, stride: nat, rect: Rect, r: nat, w: bv64, k: nat)
    requires rect.Valid() && r < rect.height && k < rect.height && Shown(|y|, stride, rect, r) >= 8
    requires Place(stride, rect, r, 0) + 8 <= |y|
    ensures var row := Slice(y, stride, rect, rect.y + k);
            var row' := Slice(Overwrite(y, Place(stride, rect, r, 0), w), stride, rect, rect.y + k);
            row' == if k == r then ToLe(w) + row[8..] else row
  {
    var at := Place(stride, rect, r, 0);
    var row, row' := Slice(y, stride, rect, rect.y + k), Slice(Overwrite(y, at, w), stride, rect, rect.y + k);
    SliceShown(y, stride, rect, k);
    SliceShown(Overwrite(y, at, w), stride, rect, k);
    forall c | 0 <= c < |row| ensures row'[c] == if k == r && c < 8 then ToLe(w)[c] else row[c] {
      OverwriteByte(y, stride, rect, r, at, w, k, c);
    }
  }

  lemma OverwriteRowAt(y: Bytes, stride: nat, rect: Rect, r: nat, w: bv64, k: nat)
    requires rect.Valid() && r < rect.height && k < rect.height && Shown(|y|, stride, rect, r) >= 8
    requires Place(stride, rect, r, 0) + 8 <= |y|
    ensures var rows := Rows(y, stride, rect, rect.height);
            var rows' := Rows(Overwrite(y, Place(stride, rect, r, 0), w), stride, rect, rect.height);
            (k == r ==> |rows[k]| >= 8) && rows'[k] == if k == r then ToLe(w) + rows[k][8..] else rows[k]
  {
    RowAt(y, stride, rect, rect.height, k);
    RowAt(Overwrite(y, Place(stride, rect, r, 0), w), stride, rect, rect.height, k);
    OverwriteSlice(y, stride, rect, r, w, k);
  }

  /** Rows that agree but for row `r`. */
  ghost predicate Patched(rows: seq<Bytes>, rows': seq<Bytes>, r: nat, row: Bytes, k: nat)
    requires k < |rows| == |rows'|
  {
    rows'[k] == if k == r then row else rows[k]
  }

  lemma PatchedRows(rows: seq<Bytes>, rows': seq<Bytes>, r: nat, row: Bytes)
    requires r < |rows| == |rows'| && forall k :: 0 <= k < |rows| ==> Patched(rows, rows', r, row, k)
    ensures rows' == rows[r := row]
  {
    forall k | 0 <= k < |rows| ensures rows'[k] == rows[r := row][k] { assert Patched(rows, rows', r, row, k); }
  }

  lemma OverwriteRows(y: Bytes, stride: nat, rect: Rect, r: nat, w: bv64)
    requires rect.Valid() && r < rect.height && Shown(|y|, stride, rect, r) >= 8
    requires Place(stride, rect, r, 0) + 8 <= |y|
    ensures var rows := Rows(y, stride, rect, rect.height);
            var rows' := Rows(Overwrite(y, Place(stride, rect, r, 0), w), stride, rect, rect.height);
            |rows[r]| >= 8 && rows' == rows[r := ToLe(w) + rows[r][8..]]
  {
    var rows := Rows(y, stride, rect, rect.height);
    var rows' := Rows(Overwrite(y, Place(stride, rect, r, 0), w), stride, rect, rect.height);
    OverwriteRowAt(y, stride, rect, r, w, r);
    var row := ToLe(w) + rows[r][8..];
    forall k | 0 <= k < |rows| ensures Patched(rows, rows', r, row, k) { OverwriteRowAt(y, stride, rect, r, w, k); }
    PatchedRows(rows, rows', r, row);
  }

  lemma PutWords(rows: seq<Bytes>, r: nat, w: bv64)
    requires r < |rows| && |rows[r]| >= 8
    ensures var p := |Words(rows[..r])|;
            p < |Words(rows)| && Words(rows[r := ToLe(w) + rows[r][8..]]) == Words(rows)[p := w]
  {
    PutFirst(rows[r], w);
    WordsChange(rows, r, ToLe(w) + rows[r][8..], 0, w);
  }

  /** Overwriting the first group of a row replaces one of the words the hash absorbs. */
  lemma OverwriteHash(y: Bytes, stride: nat, rect: Rect, r: nat, at: nat, w: bv64)
    requires rect.Valid() && r < rect.height && Shown(|y|, stride, rect, r) >= 8
    requires at == Place(stride, rect, r, 0) && at + 8 <= |y|
    ensures var rows := Rows(y, stride, rect, rect.height);
            var p := |Words(rows[..r])|;
            p < |Words(rows)| && Hash(Overwrite(y, at, w), stride, rect) == Fold(Mix, Seed(rect), Words(rows)[p := w])
  {
    OverwriteRows(y, stride, rect, r, w);
    PutWords(Rows(y, stride, rect, rect.height), r, w);
  }

  /** A row showing a full group can be given eight bytes that make the hash anything at all. */
  lemma GroupDecides(y: Bytes, stride: nat, rect: Rect, r: nat, at: nat, target: bv64) returns (w: bv64)
    requires rect.Valid() && r < rect.height && Shown(|y|, stride, rect, r) >= 8
    requires at == Place(stride, rect, r, 0) && at + 8 <= |y|
    ensures Hash(Overwrite(y, at, w), stride, rect) == target
  {
    var words, p := Words(Rows(y, stride, rect, rect.height)), |Words(Rows(y, stride, rect, rect.height)[..r])|;
    OverwriteHash(y, stride, rect, r, at, 0);
    MixOnto();
    w := WordDecides(Mix, Seed(rect), words, p, target);
    OverwriteHash(y, stride, rect, r, at, w);
  }

  // ---- Twins ----

  function Flip(b: bv8): (b': bv8)
    ensures b' != b
  {
    b ^ 1
  }

  /** Where the rectangle shows a full group and any byte besides, every picture has a twin: it looks
      different in the rectangle and has the same fingerprint. */
  lemma TwinExists(y: Bytes, stride: nat, rect: Rect, r: nat, k: nat, c: nat) returns (y': Bytes)
    requires rect.Valid() && r < rect.height && Shown(|y|, stride, rect, r) >= 8
    requires k < rect.height && c < Shown(|y|, stride, rect, k) && (k == r ==> c >= 8)
    ensures |y'| == |y| && !SameInside(y, y', stride, rect) && Hash(y', stride, rect) == Hash(y, stride, rect)
  {
    PlaceShown(y, stride, rect, k, c);
    var i, at := Place(stride, rect, k, c), Place(stride, rect, r, 0);
    var changed := y[i := Flip(y[i])];
    PlaceShown(y, stride, rect, r, 7);
    var w := GroupDecides(changed, stride, rect, r, at, Hash(y, stride, rect));
    y' := Overwrite(changed, at, w);
    if at <= i < at + 8 { PlacesApart(y, stride, rect, k, c, r, i - at); assert false; }
    assert y'[i] != y[i];
  }

  /** The fingerprint tells apart any two pictures that look different in the rectangle. */
  ghost predicate TellsApart(len: nat, stride: nat, rect: Rect)
    requires rect.Valid()
  {
    forall y: Bytes, y': Bytes :: |y| == len && |y'| == len && Hash(y, stride, rect) == Hash(y', stride, rect) ==>
      SameInside(y, y', stride, rect)
  }

  /** The rectangle shows nothing but the eight bytes of row `r`. */
  predicate LoneGroup(len: nat, stride: nat, rect: Rect, r: nat)
    requires rect.Valid()
  {
    Shown(len, stride, rect, r) == 8 && forall k :: 0 <= k < rect.height && k != r ==> Shown(len, stride, rect, k) == 0
  }

  lemma LoneGroupFaithful(y: Bytes, y': Bytes, stride: nat, rect: Rect, r: nat)
    requires rect.Valid() && r < rect.height && |y| == |y'| && LoneGroup(|y|, stride, rect, r)
    ensures Hash(y, stride, rect) == Hash(y', stride, rect) ==> SameInside(y, y', stride, rect)
  {
    LoneRows(y, y', stride, rect, r);
    FaithfulWithinGroup(y, y', stride, rect, r, 0);
    if Hash(y, stride, rect) == Hash(y', stride, rect) {
      forall i | 0 <= i < |y| && Visible(stride, rect, i) ensures y[i] == y'[i] { RowsTell(y, y', stride, rect, i); }
    }
  }

  lemma RowShown(y: Bytes, stride: nat, rect: Rect, k: nat)
    requires rect.Valid() && k < rect.height
    ensures |Rows(y, stride, rect, rect.height)[k]| == Shown(|y|, stride, rect, k)
  {
    RowAt(y, stride, rect, rect.height, k);
  }

  lemma LoneRows(y: Bytes, y': Bytes, stride: nat, rect: Rect, r: nat)
    requires rect.Valid() && r < rect.height && |y| == |y'| && LoneGroup(|y|, stride, rect, r)
    ensures var (rows, rows') := (Rows(y, stride, rect, rect.height), Rows(y', stride, rect, rect.height));
            && AgreeBut(rows[r], rows'[r], 0) && 0 < WordCount(|rows[r]|)
            && forall k :: 0 <= k < |rows| && k != r ==> rows[k] == rows'[k]
  {
    var rows, rows' := Rows(y, stride, rect, rect.height), Rows(y', stride, rect, rect.height);
    RowShown(y, stride, rect, r);
    RowShown(y', stride, rect, r);
    forall k | 0 <= k < |rows| && k != r ensures rows[k] == rows'[k] {
      RowShown(y, stride, rect, k);
      RowShown(y', stride, rect, k);
      assert Shown(|y|, stride, rect, k) == 0;
    }
  }

  lemma RowsTell(y: Bytes, y': Bytes, stride: nat, rect: Rect, i: nat)
    requires rect.Valid() && |y| == |y'| && Rows(y, stride, rect, rect.height) == Rows(y', stride, rect, rect.height)
    requires i < |y| && Visible(stride, rect, i)
    ensures y[i] == y'[i]
  {
    var k, c := PixelInBoth(y, y', stride, rect, i);
    SlicesTell(y, y', stride, rect, k);
  }

  lemma PixelInBoth(y: Bytes, y': Bytes, stride: nat, rect: Rect, i: nat) returns (k: nat, c: nat)
    requires rect.Valid() && |y| == |y'| && i < |y| && Visible(stride, rect, i)
    ensures k < rect.height && c < |Slice(y, stride, rect, rect.y + k)| && Slice(y, stride, rect, rect.y + k)[c] == y[i]
    ensures c < |Slice(y', stride, rect, rect.y + k)| && Slice(y', stride, rect, rect.y + k)[c] == y'[i]
  {
    var q;
    q, c := PixelRow(y, stride, rect, i);
    var q', c' := PixelRow(y', stride, rect, i);
    k := q - rect.y;
  }

  lemma SlicesTell(y: Bytes, y': Bytes, stride: nat, rect: Rect, k: nat)
    requires rect.Valid() && k < rect.height
    requires Rows(y, stride, rect, rect.height) == Rows(y', stride, rect, rect.height)
    ensures Slice(y, stride, rect, rect.y + k) == Slice(y', stride, rect, rect.y + k)
  {
    RowAt(y, stride, rect, rect.height, k);
    RowAt(y', stride, rect, rect.height, k);
  }

  /** Wherever row `r` of the rectangle shows a full 8-byte group, equal fingerprints mean equal
      pictures exactly when that group is all the rectangle shows. */
  lemma TellsApartIff(len: nat, stride: nat, rect: Rect, r: nat)
    requires rect.Valid() && r < rect.height && Shown(len, stride, rect, r) >= 8
    ensures TellsApart(len, stride, rect) <==> LoneGroup(len, stride, rect, r)
  {
    if LoneGroup(len, stride, rect, r) {
      forall y: Bytes, y': Bytes | |y| == len && |y'| == len && Hash(y, stride, rect) == Hash(y', stride, rect)
        ensures SameInside(y, y', stride, rect)
      {
        LoneGroupFaithful(y, y', stride, rect, r);
      }
    } else {
      var y := Black(len);
      var k, c := r, 8;
      if Shown(len, stride, rect, r) == 8 {
        k :| 0 <= k < rect.height && k != r && Shown(len, stride, rect, k) != 0;
        c := 0;
      }
      var y' := TwinExists(y, stride, rect, r, k, c);
    }
  }

  function Black(len: nat): (y: Bytes)
    ensures |y| == len
  {
    if len == 0 then [] else Black(len - 1) + [0]
  }
}
