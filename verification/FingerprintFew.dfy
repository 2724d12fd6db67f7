/** Three visible bytes or fewer: the fingerprint still tells all pictures apart. */
module FingerprintFew {
  import opened Rects
  import opened Fingerprint
  import opened FingerprintLimits
  import opened FingerprintCounting

  // ---- What a change in a byte does to the next hash ----

  /** A word that came from a single byte. */
  predicate Small(w: bv64) { w & 0xffff_ffff_ffff_ff00 == 0 }

  /** The low 35 bits, which the rotation keeps apart from those a byte reaches. */
  function Low(w: bv64): bv64 { w & 0x7_ffff_ffff }

  /** Nothing but bits that the last byte, or a rotated product, may still change. */
  predicate Blurred(w: bv64) { w & 0x7_ffff_ff00 == 0 }

  lemma XorMoves(a: bv64, b: bv64, c: bv64, d: bv64)
    requires a ^ b == c ^ d
    ensures a ^ c == b ^ d
  {
  }

  lemma SmallXor(a: bv64, b: bv64)
    requires Small(a) && Small(b)
    ensures Small(a ^ b)
  {
  }

  /** If two last bytes lead to the same hash, the hashes before them differ in the low byte alone. */
  lemma LastByte(g: bv64, b: bv64, g': bv64, b': bv64)
    requires Small(b) && Small(b') && Mix(g, b) == Mix(g', b')
    ensures Small(g ^ g')
  {
    MixInjective(g, b, g', b');
    XorMoves(g, b, g', b');
    SmallXor(b, b');
  }

  lemma SplitLow(p: bv64) returns (hi: bv64)
    ensures p == Low(p) + hi * 0x8_0000_0000
  {
    hi := p >> 35;
  }

  lemma LowSum(lo: bv64, hi: bv64)
    ensures Low(Unscramble(lo + hi * 0x8_0000_0000)) == Low(lo * 0xf1de_83e1_9937_733d)
  {
  }

  lemma LowAlone(lo: bv64)
    ensures Low(Unscramble(lo)) == Low(lo * 0xf1de_83e1_9937_733d)
  {
  }

  lemma LowSumOf(p: bv64, lo: bv64, hi: bv64)
    requires p == lo + hi * 0x8_0000_0000
    ensures Low(Unscramble(p)) == Low(Unscramble(lo))
  {
    LowSum(lo, hi);
    LowAlone(lo);
  }

  /** The low bits of a product come from the low bits of the factor. */
  lemma LowProduct(p: bv64, lo: bv64)
    requires lo == Low(p)
    ensures Low(Unscramble(p)) == Low(Unscramble(lo))
  {
    var hi := SplitLow(p);
    LowSumOf(p, lo, hi);
  }

  lemma LowProducts(p: bv64, q: bv64, u: bv64, v: bv64)
    requires Low(p) == Low(q) && u == Unscramble(p) && v == Unscramble(q)
    ensures Low(u) == Low(v)
  {
    LowProduct(p, Low(p));
    LowProduct(q, Low(p));
  }

  lemma LowScramble(u: bv64, v: bv64)
    requires Low(Scramble(u)) == Low(Scramble(v))
    ensures Low(u) == Low(v)
  {
    ScrambleUndone(u);
    ScrambleUndone(v);
    LowProducts(Scramble(u), Scramble(v), u, v);
  }

  lemma RotatedLow(p: bv64, q: bv64)
    requires Small(Rotate(p) ^ Rotate(q))
    ensures Low(p) == Low(q)
  {
  }

  lemma BlurredXor(g: bv64, b: bv64, g': bv64, b': bv64)
    requires Low(g ^ b) == Low(g' ^ b') && Small(b) && Small(b')
    ensures Blurred(g ^ g')
  {
  }

  /** If hashes after a byte differ in the low byte alone, those before it agree in bits 8 to 34. */
  lemma MiddleByte(g: bv64, b: bv64, g': bv64, b': bv64)
    requires Small(b) && Small(b') && Small(Mix(g, b) ^ Mix(g', b'))
    ensures Blurred(g ^ g')
  {
    RotatedLow(Scramble(g ^ b), Scramble(g' ^ b'));
    LowScramble(g ^ b, g' ^ b');
    BlurredXor(g, b, g', b');
  }

  // ---- The first byte ----

  function Bottom(p: bv64): bv64 { p & 0x3f }
  function Top(p: bv64): bv64 { p >> 43 }

  /** Products that agree in the low six bits and from bit 43 up. */
  predicate Matching(p: bv64, q: bv64) { Bottom(p) == Bottom(q) && Top(p) == Top(q) }

  /** Hashes that agree in bits 8 to 34 come from products that agree in bits 0 to 5 and from 43 up. */
  lemma BlurredProducts(p: bv64, q: bv64)
    requires Blurred(Rotate(p) ^ Rotate(q))
    ensures Matching(p, q)
  {
  }

  lemma LowSix(x: bv64, y: bv64)
    requires Bottom(Scramble(x)) == Bottom(Scramble(y))
    ensures Bottom(x) == Bottom(y)
  {
  }

  /** Numbers alike but for bits 6 and 7 are a multiple of 64 apart, at most 192. */
  lemma CloseBy(x: bv64, y: bv64)
    requires Small(x ^ y) && Bottom(x) == Bottom(y)
    ensures x == y || x == y + 64 || x == y + 128 || x == y + 192 || y == x + 64 || y == x + 128 || y == x + 192
  {
    BitsSixAndSeven(x, y);
    BitSix(x, y);
    BitSeven(x, y);
    BothBits(x, y);
  }

  lemma BitsSixAndSeven(x: bv64, y: bv64)
    requires Small(x ^ y) && Bottom(x) == Bottom(y)
    ensures x == y || x == y ^ 64 || x == y ^ 128 || x == y ^ 192
  {
  }

  lemma BitSix(x: bv64, y: bv64)
    ensures x == y ^ 64 ==> x == y + 64 || y == x + 64
  {
  }

  lemma BitSeven(x: bv64, y: bv64)
    ensures x == y ^ 128 ==> x == y + 128 || y == x + 128
  {
  }

  lemma BothBits(x: bv64, y: bv64)
    ensures x == y ^ 192 ==> x == y + 64 || x == y + 192 || y == x + 64 || y == x + 192
  {
  }

  lemma Shift64(y: bv64)
    ensures Scramble(y + 64) == Scramble(y) + 0x8dde_6e5f_d29f_0540
  {
  }

  lemma Shift128(y: bv64)
    ensures Scramble(y + 128) == Scramble(y) + 0x1bbc_dcbf_a53e_0a80
  {
  }

  lemma Shift192(y: bv64)
    ensures Scramble(y + 192) == Scramble(y) + 0xa99b_4b1f_77dd_0fc0
  {
  }

  /** None of those shifts leaves the upper bits of the product alone. */
  lemma ShiftShows(p: bv64)
    ensures Top(p + 0x8dde_6e5f_d29f_0540) != Top(p)
    ensures Top(p + 0x1bbc_dcbf_a53e_0a80) != Top(p)
    ensures Top(p + 0xa99b_4b1f_77dd_0fc0) != Top(p)
  {
  }

  lemma ShiftedApart(x: bv64, y: bv64)
    requires x == y + 64 || x == y + 128 || x == y + 192
    ensures Top(Scramble(x)) != Top(Scramble(y))
  {
    ShiftShows(Scramble(y));
    if x == y + 64 { Shift64(y); } else if x == y + 128 { Shift128(y); } else { Shift192(y); }
  }

  /** Factors alike but for the low byte are the same if their products match. */
  lemma FirstByte(x: bv64, y: bv64)
    requires Small(x ^ y)
    ensures Matching(Scramble(x), Scramble(y)) ==> x == y
  {
    if Matching(Scramble(x), Scramble(y)) {
      LowSix(x, y);
      CloseBy(x, y);
      FarApart(x, y);
    }
  }

  lemma FarApart(x: bv64, y: bv64)
    requires x == y || x == y + 64 || x == y + 128 || x == y + 192 || y == x + 64 || y == x + 128 || y == x + 192
    requires Top(Scramble(x)) == Top(Scramble(y))
    ensures x == y
  {
    if x == y + 64 || x == y + 128 || x == y + 192 {
      ShiftedApart(x, y);
    } else if x != y {
      ShiftedApart(y, x);
    }
  }

  // ---- Up to three bytes ----

  ghost predicate AllSmall(words: seq<bv64>) { forall i :: 0 <= i < |words| ==> Small(words[i]) }

  lemma NearXors(h: bv64, b: bv64, b': bv64, x: bv64, y: bv64)
    requires Small(b) && Small(b') && x == h ^ b && y == h ^ b'
    ensures Small(x ^ y)
  {
  }

  lemma SameProducts(h: bv64, b: bv64, b': bv64, x: bv64, y: bv64)
    requires x == h ^ b && y == h ^ b' && Blurred(Mix(h, b) ^ Mix(h, b'))
    ensures Matching(Scramble(x), Scramble(y))
  {
    BlurredProducts(Scramble(x), Scramble(y));
  }

  lemma SameFactors(h: bv64, b: bv64, b': bv64, x: bv64, y: bv64)
    requires Small(b) && Small(b') && x == h ^ b && y == h ^ b' && Matching(Scramble(x), Scramble(y))
    ensures x == y
  {
    NearXors(h, b, b', x, y);
    FirstByte(x, y);
  }

  lemma SameXors(h: bv64, b: bv64, b': bv64, x: bv64, y: bv64)
    requires x == h ^ b && y == h ^ b' && x == y
    ensures b == b'
  {
    XorCancels(h, b, b');
  }

  /** Different bytes after the same hash never lead to hashes that agree in bits 8 to 34. */
  lemma SameByte(h: bv64, b: bv64, b': bv64)
    requires Small(b) && Small(b') && Blurred(Mix(h, b) ^ Mix(h, b'))
    ensures b == b'
  {
    var x, y := h ^ b, h ^ b';
    SameProducts(h, b, b', x, y);
    SameFactors(h, b, b', x, y);
    SameXors(h, b, b', x, y);
  }

  lemma SameWord(h: bv64, b: bv64, b': bv64)
    requires Mix(h, b) == Mix(h, b')
    ensures b == b'
  {
    MixInjective(h, b, h, b');
    XorCancels(h, b, b');
  }

  predicate Near(g: bv64, g': bv64) { Small(g ^ g') }
  predicate Alike(g: bv64, g': bv64) { Blurred(g ^ g') }

  /** How differences fade from one word to the next, for words that are `ok`. */
  ghost predicate Layered<H(!new), W(!new)>(mix: (H, W) -> H, ok: W -> bool,
                                            near: (H, H) -> bool, alike: (H, H) -> bool) {
    && (forall g, w, g', w' :: ok(w) && ok(w') && mix(g, w) == mix(g', w') ==> near(g, g'))
    && (forall g, w, g', w' :: ok(w) && ok(w') && near(mix(g, w), mix(g', w')) ==> alike(g, g'))
    && (forall h, w, w' :: ok(w) && ok(w') && alike(mix(h, w), mix(h, w')) ==> w == w')
    && (forall g, g' :: near(g, g') ==> alike(g, g'))
    && (forall h, w, w' :: mix(h, w) == mix(h, w') ==> w == w')
  }

  lemma NearIsAlike(g: bv64, g': bv64)
    requires Near(g, g')
    ensures Alike(g, g')
  {
  }

  lemma MixLayered()
    ensures Layered(Mix, Small, Near, Alike)
  {
    forall g, w, g', w' | Small(w) && Small(w') && Mix(g, w) == Mix(g', w') ensures Near(g, g') {
      LastByte(g, w, g', w');
    }
    forall g, w, g', w' | Small(w) && Small(w') && Near(Mix(g, w), Mix(g', w')) ensures Alike(g, g') {
      MiddleByte(g, w, g', w');
    }
    forall h, w, w' | Small(w) && Small(w') && Alike(Mix(h, w), Mix(h, w')) ensures w == w' { SameByte(h, w, w'); }
    forall g, g' | Near(g, g') ensures Alike(g, g') { NearIsAlike(g, g'); }
    forall h, w, w' | Mix(h, w) == Mix(h, w') ensures w == w' { SameWord(h, w, w'); }
  }

  lemma FoldThree<H, W>(mix: (H, W) -> H, h: H, w: seq<W>)
    requires |w| == 3
    ensures Fold(mix, h, w) == mix(mix(mix(h, w[0]), w[1]), w[2])
  {
    assert w[..2] == [w[0], w[1]];
    FoldTwo(mix, h, w[0], w[1]);
  }

  lemma FoldTwo<H, W>(mix: (H, W) -> H, h: H, a: W, b: W)
    ensures Fold(mix, h, [a, b]) == mix(mix(h, a), b)
  {
    assert [a, b][..1] == [a] && [a][..0] == [];
    assert Fold(mix, h, [a]) == mix(h, a);
  }

  lemma TwoWords<H(!new), W(!new)>(mix: (H, W) -> H, ok: W -> bool, near: (H, H) -> bool, alike: (H, H) -> bool,
                                   h: H, a: W, b: W, a': W, b': W)
    requires Layered(mix, ok, near, alike) && ok(a) && ok(b) && ok(a') && ok(b')
    requires mix(mix(h, a), b) == mix(mix(h, a'), b')
    ensures a == a' && b == b'
  {
    assert near(mix(h, a), mix(h, a'));
  }

  lemma ThreeWords<H(!new), W(!new)>(mix: (H, W) -> H, ok: W -> bool, near: (H, H) -> bool, alike: (H, H) -> bool,
                                     h: H, a: W, b: W, c: W, a': W, b': W, c': W)
    requires Layered(mix, ok, near, alike) && ok(a) && ok(b) && ok(c) && ok(a') && ok(b') && ok(c')
    requires mix(mix(mix(h, a), b), c) == mix(mix(mix(h, a'), b'), c')
    ensures a == a' && b == b' && c == c'
  {
    var g, g' := mix(h, a), mix(h, a');
    assert near(mix(g, b), mix(g', b'));
    assert alike(g, g');
    assert a == a';
    TwoWords(mix, ok, near, alike, g, b, c, b', c');
  }

  lemma OneInRow<H(!new), W(!new)>(mix: (H, W) -> H, ok: W -> bool, near: (H, H) -> bool, alike: (H, H) -> bool,
                                   h: H, w: seq<W>, w': seq<W>)
    requires Layered(mix, ok, near, alike) && |w| == |w'| == 1 && Fold(mix, h, w) == Fold(mix, h, w')
    ensures w == w'
  {
    assert w[..0] == [] && w'[..0] == [];
    assert mix(h, w[0]) == mix(h, w'[0]);
  }

  lemma TwoInRow<H(!new), W(!new)>(mix: (H, W) -> H, ok: W -> bool, near: (H, H) -> bool, alike: (H, H) -> bool,
                                   h: H, w: seq<W>, w': seq<W>)
    requires Layered(mix, ok, near, alike) && |w| == |w'| == 2 && Fold(mix, h, w) == Fold(mix, h, w')
    requires ok(w[0]) && ok(w[1]) && ok(w'[0]) && ok(w'[1])
    ensures w == w'
  {
    assert w == [w[0], w[1]] && w' == [w'[0], w'[1]];
    FoldTwo(mix, h, w[0], w[1]);
    FoldTwo(mix, h, w'[0], w'[1]);
    TwoWords(mix, ok, near, alike, h, w[0], w[1], w'[0], w'[1]);
  }

  lemma ThreeInRow<H(!new), W(!new)>(mix: (H, W) -> H, ok: W -> bool, near: (H, H) -> bool, alike: (H, H) -> bool,
                                     h: H, w: seq<W>, w': seq<W>)
    requires Layered(mix, ok, near, alike) && |w| == |w'| == 3 && Fold(mix, h, w) == Fold(mix, h, w')
    requires ok(w[0]) && ok(w[1]) && ok(w[2]) && ok(w'[0]) && ok(w'[1]) && ok(w'[2])
    ensures w == w'
  {
    FoldThree(mix, h, w);
    FoldThree(mix, h, w');
    ThreeWords(mix, ok, near, alike, h, w[0], w[1], w[2], w'[0], w'[1], w'[2]);
  }

  lemma FewInRow<H(!new), W(!new)>(mix: (H, W) -> H, ok: W -> bool, near: (H, H) -> bool, alike: (H, H) -> bool,
                                   h: H, w: seq<W>, w': seq<W>)
    requires Layered(mix, ok, near, alike) && |w| == |w'| <= 3 && Fold(mix, h, w) == Fold(mix, h, w')
    requires forall i :: 0 <= i < |w| ==> ok(w[i]) && ok(w'[i])
    ensures w == w'
  {
    if |w| == 1 {
      OneInRow(mix, ok, near, alike, h, w, w');
    } else if |w| == 2 {
      TwoInRow(mix, ok, near, alike, h, w, w');
    } else if |w| == 3 {
      ThreeInRow(mix, ok, near, alike, h, w, w');
    }
  }

  /** Up to three byte-sized words are told apart, whatever the seed. */
  lemma FewWords(h: bv64, w: seq<bv64>, w': seq<bv64>)
    requires |w| == |w'| <= 3 && AllSmall(w) && AllSmall(w') && Fold(Mix, h, w) == Fold(Mix, h, w')
    ensures w == w'
  {
    MixLayered();
    FewInRow(Mix, Small, Near, Alike, h, w, w');
  }

  // ---- From words back to pictures ----

  lemma {:induction false} NarrowRow(row: Bytes)
    requires |row| < 8
    ensures |RowWords(row)| == |row| && AllSmall(RowWords(row))
  {
    if row != [] {
      NarrowRow(row[1..]);
      WidenSmall(row[0]);
    }
  }

  lemma WidenSmall(b: bv8)
    ensures Small(Widen(b))
  {
  }

  lemma {:induction false} RowWordsTell(row: Bytes, row': Bytes)
    requires |row| == |row'| < 8 && RowWords(row) == RowWords(row')
    ensures row == row'
  {
    if row != [] {
      assert RowWords(row)[0] == Widen(row[0]) && RowWords(row')[0] == Widen(row'[0]);
      assert RowWords(row)[1..] == RowWords(row[1..]) && RowWords(row')[1..] == RowWords(row'[1..]);
      WidenInjective(row[0], row'[0]);
      RowWordsTell(row[1..], row'[1..]);
      assert row == [row[0]] + row[1..] && row' == [row'[0]] + row'[1..];
    }
  }

  /** Rows of the same lengths, none with a full group. */
  ghost predicate Narrow(rows: seq<Bytes>, rows': seq<Bytes>) {
    |rows| == |rows'| && forall k :: 0 <= k < |rows| ==> |rows[k]| == |rows'[k]| < 8
  }

  lemma {:induction false} NarrowWords(rows: seq<Bytes>, rows': seq<Bytes>)
    requires Narrow(rows, rows')
    ensures |Words(rows)| == |Words(rows')| && AllSmall(Words(rows))
  {
    if rows != [] {
      var n := |rows| - 1;
      NarrowWords(rows[..n], rows'[..n]);
      NarrowRow(rows[n]);
      NarrowRow(rows'[n]);
    }
  }

  lemma {:induction false} WordsTell(rows: seq<Bytes>, rows': seq<Bytes>)
    requires Narrow(rows, rows') && Words(rows) == Words(rows')
    ensures rows == rows'
  {
    if rows != [] {
      var n := |rows| - 1;
      LastWords(rows, rows', n);
      WordsTell(rows[..n], rows'[..n]);
      RowWordsTell(rows[n], rows'[n]);
      SameRows(rows, rows', n);
    }
  }

  lemma LastWords(rows: seq<Bytes>, rows': seq<Bytes>, n: nat)
    requires Narrow(rows, rows') && Words(rows) == Words(rows') && |rows| == n + 1
    ensures Words(rows[..n]) == Words(rows'[..n]) && RowWords(rows[n]) == RowWords(rows'[n])
  {
    NarrowWords(rows[..n], rows'[..n]);
    SamePieces(Words(rows[..n]), RowWords(rows[n]), Words(rows'[..n]), RowWords(rows'[n]));
  }

  lemma SameRows<T>(rows: seq<T>, rows': seq<T>, n: nat)
    requires |rows| == |rows'| == n + 1 && rows[..n] == rows'[..n] && rows[n] == rows'[n]
    ensures rows == rows'
  {
    assert rows == rows[..n] + [rows[n]] && rows' == rows'[..n] + [rows'[n]];
  }

  lemma SamePieces<T>(a: seq<T>, b: seq<T>, a': seq<T>, b': seq<T>)
    requires |a| == |a'| && a + b == a' + b'
    ensures a == a' && b == b'
  {
    assert a == (a + b)[..|a|] && b == (a + b)[|a|..];
  }

  lemma {:induction false} TotalBounds(len: nat, stride: nat, rect: Rect, n: nat, k: nat)
    requires rect.Valid() && k < n
    ensures Shown(len, stride, rect, k) <= ShownTotal(len, stride, rect, n)
  {
    if k < n - 1 { TotalBounds(len, stride, rect, n - 1, k); }
  }

  function Lengths(rows: seq<Bytes>): nat {
    if rows == [] then 0 else Lengths(rows[..|rows| - 1]) + |rows[|rows| - 1]|
  }

  lemma {:induction false} RowsLengths(y: Bytes, stride: nat, rect: Rect, n: nat)
    requires rect.Valid()
    ensures Lengths(Rows(y, stride, rect, n)) == ShownTotal(|y|, stride, rect, n)
  {
    if n > 0 {
      RowsLengths(y, stride, rect, n - 1);
      LastLength(Rows(y, stride, rect, n - 1), Slice(y, stride, rect, rect.y + n - 1));
      RowLength(y, stride, rect, n - 1, rect.y + n - 1);
    }
  }

  lemma LastLength(rows: seq<Bytes>, row: Bytes)
    ensures Lengths(rows + [row]) == Lengths(rows) + |row|
  {
    assert (rows + [row])[..|rows|] == rows;
  }

  lemma RowLength(y: Bytes, stride: nat, rect: Rect, k: nat, r: nat)
    requires rect.Valid() && r == rect.y + k
    ensures |Slice(y, stride, rect, r)| == Shown(|y|, stride, rect, k)
  {
    SliceShown(y, stride, rect, k);
  }

  lemma {:induction false} NarrowCount(rows: seq<Bytes>)
    requires Narrow(rows, rows)
    ensures |Words(rows)| == Lengths(rows)
  {
    if rows != [] {
      var n := |rows| - 1;
      NarrowCount(rows[..n]);
      NarrowRow(rows[n]);
    }
  }

  /** Wherever at most three bytes are visible, equal fingerprints mean equal pictures. */
  lemma FewFaithful(y: Bytes, y': Bytes, stride: nat, rect: Rect)
    requires rect.Valid() && |y| == |y'| && ShownTotal(|y|, stride, rect, rect.height) <= 3
    ensures Hash(y, stride, rect) == Hash(y', stride, rect) ==> SameInside(y, y', stride, rect)
  {
    NarrowRows(y, y', stride, rect);
    if Hash(y, stride, rect) == Hash(y', stride, rect) {
      NarrowTell(Seed(rect), Rows(y, stride, rect, rect.height), Rows(y', stride, rect, rect.height));
      forall i | 0 <= i < |y| && Visible(stride, rect, i) ensures y[i] == y'[i] { RowsTell(y, y', stride, rect, i); }
    }
  }

  lemma NarrowRows(y: Bytes, y': Bytes, stride: nat, rect: Rect)
    requires rect.Valid() && |y| == |y'| && ShownTotal(|y|, stride, rect, rect.height) <= 3
    ensures Narrow(Rows(y, stride, rect, rect.height), Rows(y', stride, rect, rect.height))
    ensures |Words(Rows(y, stride, rect, rect.height))| <= 3
  {
    var rows, rows' := Rows(y, stride, rect, rect.height), Rows(y', stride, rect, rect.height);
    forall k | 0 <= k < rect.height ensures Shown(|y|, stride, rect, k) <= 3 {
      TotalBounds(|y|, stride, rect, rect.height, k);
    }
    forall k | 0 <= k < |rows| ensures |rows[k]| == |rows'[k]| < 8 {
      RowShown(y, stride, rect, k);
      RowShown(y', stride, rect, k);
    }
    RowsLengths(y, stride, rect, rect.height);
    NarrowCount(rows);
  }

  lemma NarrowTell(seed: bv64, rows: seq<Bytes>, rows': seq<Bytes>)
    requires Narrow(rows, rows') && |Words(rows)| <= 3 && Fold(Mix, seed, Words(rows)) == Fold(Mix, seed, Words(rows'))
    ensures rows == rows'
  {
    NarrowWords(rows, rows');
    NarrowWords(rows', rows);
    FewWords(seed, Words(rows), Words(rows'));
    WordsTell(rows, rows');
  }

  // ---- The whole answer ----

  lemma LoneGroupTotal(len: nat, stride: nat, rect: Rect, r: nat, n: nat)
    requires rect.Valid() && Shown(len, stride, rect, r) >= 8 && r < n
    ensures ShownTotal(len, stride, rect, n) == 8 <==>
            Shown(len, stride, rect, r) == 8 && forall k :: 0 <= k < n && k != r ==> Shown(len, stride, rect, k) == 0
  {
    RestTotal(len, stride, rect, r, n);
  }

  lemma {:induction false} RestTotal(len: nat, stride: nat, rect: Rect, r: nat, n: nat)
    requires rect.Valid()
    ensures var rest := ShownTotal(len, stride, rect, n) - if r < n then Shown(len, stride, rect, r) else 0;
            rest >= 0 && (rest == 0 <==> forall k :: 0 <= k < n && k != r ==> Shown(len, stride, rect, k) == 0)
  {
    if n > 0 { RestTotal(len, stride, rect, r, n - 1); }
  }

  /** For which geometries equal fingerprints mean equal pictures, by the number of visible bytes: for
      up to three they do, for nine or more they do not, and with a full group of eight among the bytes
      they do exactly when there are no others. */
  lemma TellsApartByCount(len: nat, stride: nat, rect: Rect)
    requires rect.Valid()
    ensures var n := ShownTotal(len, stride, rect, rect.height);
            && (n <= 3 ==> TellsApart(len, stride, rect))
            && (n >= 9 ==> !TellsApart(len, stride, rect))
            && ((exists r :: 0 <= r < rect.height && Shown(len, stride, rect, r) >= 8) ==>
                  (TellsApart(len, stride, rect) <==> n == 8))
  {
    var n := ShownTotal(len, stride, rect, rect.height);
    if n <= 3 {
      forall y: Bytes, y': Bytes | |y| == len && |y'| == len && Hash(y, stride, rect) == Hash(y', stride, rect)
        ensures SameInside(y, y', stride, rect)
      {
        FewFaithful(y, y', stride, rect);
      }
    }
    if n >= 9 { ManyCollide(len, stride, rect); }
    if r :| 0 <= r < rect.height && Shown(len, stride, rect, r) >= 8 {
      TellsApartIff(len, stride, rect, r);
      LoneGroupTotal(len, stride, rect, r, rect.height);
    }
  }
}
