/** The luma fingerprint of crates/rkvm-vision/src/signature.rs: a 64-bit rolling hash of a
    rectangle of a luma plane. */
module Fingerprint {
  import opened Arith
  import opened Rects

  // ---- One step of the hash ----

  /** `wrapping_mul(K)`, and the multiplication by the inverse of the odd `K` modulo 2^64. */
  function Scramble(h: bv64): bv64 { h * 0x9e37_79b9_7f4a_7c15 }
  function Unscramble(h: bv64): bv64 { h * 0xf1de_83e1_9937_733d }

  /** `rotate_left(29)` and its inverse. */
  function Rotate(h: bv64): bv64 { (h << 29) | (h >> 35) }
  function Unrotate(h: bv64): bv64 { (h >> 29) | (h << 35) }

  function Mix(hash: bv64, word: bv64): bv64 { Rotate(Scramble(hash ^ word)) }

  lemma ScrambleUndone(h: bv64)
    ensures Unscramble(h * 0x9e37_79b9_7f4a_7c15) == h
  {
  }

  lemma RotateUndone(h: bv64)
    ensures Unrotate(Rotate(h)) == h
  {
  }

  lemma ScrambleInjective(x: bv64, y: bv64)
    requires Scramble(x) == Scramble(y)
    ensures x == y
  {
    ScrambleUndone(x);
    ScrambleUndone(y);
  }

  lemma XorCancels(a: bv64, b: bv64, c: bv64)
    ensures a ^ b == a ^ c <==> b == c
    ensures b ^ a == c ^ a <==> b == c
  {
  }

  /** A step is one-to-one in what it mixes: xor, multiplication by an odd number and rotation can
      all be undone. */
  lemma MixInjective(h: bv64, w: bv64, h': bv64, w': bv64)
    requires Mix(h, w) == Mix(h', w')
    ensures h ^ w == h' ^ w'
  {
    RotateUndone(Scramble(h ^ w));
    RotateUndone(Scramble(h' ^ w'));
    ScrambleInjective(h ^ w, h' ^ w');
  }

  // ---- Folding words into a hash ----

  /** With either argument fixed, the step is one-to-one in the other. */
  ghost predicate Faithful<H(!new), W(!new)>(mix: (H, W) -> H) {
    && (forall h, w, w' :: mix(h, w) == mix(h, w') ==> w == w')
    && (forall h, h', w :: mix(h, w) == mix(h', w) ==> h == h')
  }

  lemma MixFaithful()
    ensures Faithful(Mix)
  {
    forall h, w, w' | Mix(h, w) == Mix(h, w') ensures w == w' { MixInjective(h, w, h, w'); XorCancels(h, w, w'); }
    forall h, h', w | Mix(h, w) == Mix(h', w) ensures h == h' { MixInjective(h, w, h', w); XorCancels(w, h, h'); }
  }

  function Fold<H, W>(mix: (H, W) -> H, hash: H, words: seq<W>): H
    decreases |words|
  {
    if words == [] then hash else mix(Fold(mix, hash, words[..|words| - 1]), words[|words| - 1])
  }

  lemma {:induction false} FoldSplit<H, W>(mix: (H, W) -> H, hash: H, a: seq<W>, b: seq<W>)
    ensures Fold(mix, hash, a + b) == Fold(mix, Fold(mix, hash, a), b)
  {
    if b == [] {
      assert a + b == a;
    } else {
      assert (a + b)[..|a + b| - 1] == a + b[..|b| - 1];
      FoldSplit(mix, hash, a, b[..|b| - 1]);
    }
  }

  lemma {:induction false} FoldInjective<H(!new), W(!new)>(mix: (H, W) -> H, h: H, h': H, words: seq<W>)
    requires Faithful(mix) && Fold(mix, h, words) == Fold(mix, h', words)
    ensures h == h'
  {
    if words != [] { FoldInjective(mix, h, h', words[..|words| - 1]); }
  }

  /** Changing one word, and nothing else, always changes the hash. */
  lemma OneWordShows<H(!new), W(!new)>(mix: (H, W) -> H, h: H, words: seq<W>, k: nat, w: W)
    requires Faithful(mix) && k < |words| && words[k] != w
    ensures Fold(mix, h, words) != Fold(mix, h, words[k := w])
  {
    var a, b := words[..k], words[k + 1..];
    assert words == (a + [words[k]]) + b && words[k := w] == (a + [w]) + b;
    FoldSplit(mix, h, a + [words[k]], b);
    FoldSplit(mix, h, a + [w], b);
    assert (a + [words[k]])[..k] == a && (a + [w])[..k] == a;
    if Fold(mix, h, words) == Fold(mix, h, words[k := w]) {
      FoldInjective(mix, Fold(mix, h, a + [words[k]]), Fold(mix, h, a + [w]), b);
    }
  }

  // ---- Words of a row ----

  type Bytes = seq<bv8>

  /** `u64::from_le_bytes` */
  function FromLe(b: Bytes): bv64
    requires |b| == 8
  {
    (b[0] as bv64) | ((b[1] as bv64) << 8) | ((b[2] as bv64) << 16) | ((b[3] as bv64) << 24)
    | ((b[4] as bv64) << 32) | ((b[5] as bv64) << 40) | ((b[6] as bv64) << 48) | ((b[7] as bv64) << 56)
  }

  function ToLe(w: bv64): (b: Bytes)
    ensures |b| == 8
  {
    [(w & 0xff) as bv8, ((w >> 8) & 0xff) as bv8, ((w >> 16) & 0xff) as bv8, ((w >> 24) & 0xff) as bv8,
     ((w >> 32) & 0xff) as bv8, ((w >> 40) & 0xff) as bv8, ((w >> 48) & 0xff) as bv8, ((w >> 56) & 0xff) as bv8]
  }

  lemma LeRoundTrip(w: bv64, b: Bytes)
    requires |b| == 8
    ensures FromLe(ToLe(w)) == w
    ensures ToLe(FromLe(b)) == b
  {
  }

  /** `u64::from` */
  function Widen(b: bv8): bv64 { b as bv64 }

  /** What `chunks_exact(8)` and its remainder hand to the hash. */
  function RowWords(row: Bytes): seq<bv64> {
    if |row| >= 8 then [FromLe(row[..8])] + RowWords(row[8..])
    else if row == [] then []
    else [Widen(row[0])] + RowWords(row[1..])
  }

  /** The column a word starts at and how many bytes it holds. */
  function WordStart(len: nat, g: nat): nat { if g < len / 8 then 8 * g else 8 * (len / 8) + (g - len / 8) }
  function WordSize(len: nat, g: nat): nat { if g < len / 8 then 8 else 1 }

  function WordCount(len: nat): nat { len / 8 + len % 8 }

  function WordAt(row: Bytes, g: nat): bv64
    requires g < WordCount(|row|)
  {
    var k := WordStart(|row|, g);
    if g < |row| / 8 then FromLe(row[k..k + 8]) else Widen(row[k])
  }

  lemma {:induction false} RowWordsLength(row: Bytes)
    ensures |RowWords(row)| == WordCount(|row|)
  {
    if |row| >= 8 {
      RowWordsLength(row[8..]);
      NextGroup(|row|);
    } else if row != [] {
      RowWordsLength(row[1..]);
    }
  }

  lemma NextGroup(len: nat)
    requires len >= 8
    ensures WordCount(len) == 1 + WordCount(len - 8)
  {
  }

  /** Leaving out the first eight bytes leaves out the first word. */
  lemma NextWord(row: Bytes, g: nat)
    requires |row| >= 8 && 0 < g < WordCount(|row|)
    ensures g - 1 < WordCount(|row[8..]|) && WordAt(row, g) == WordAt(row[8..], g - 1)
  {
    var rest := row[8..];
    var k := 8 * g;
    NextGroup(|row|);
    if g < |row| / 8 { assert row[k..k + 8] == rest[k - 8..k]; }
  }

  /** A row's words, one by one. */
  lemma {:induction false} RowWordsAt(row: Bytes, g: nat)
    requires g < WordCount(|row|)
    ensures |RowWords(row)| == WordCount(|row|) && RowWords(row)[g] == WordAt(row, g)
  {
    RowWordsLength(row);
    if |row| >= 8 {
      if g > 0 {
        NextWord(row, g);
        RowWordsAt(row[8..], g - 1);
      }
    } else if g > 0 {
      RowWordsAt(row[1..], g - 1);
    }
  }

  /** The rows agree except, possibly, inside word `g`. */
  ghost predicate AgreeBut(row: Bytes, row': Bytes, g: nat) {
    && |row| == |row'|
    && forall c :: 0 <= c < |row| && !(WordStart(|row|, g) <= c < WordStart(|row|, g) + WordSize(|row|, g)) ==>
         row[c] == row'[c]
  }

  lemma WordsApart(len: nat, g: nat, k: nat)
    requires g < WordCount(len) && k < WordCount(len) && g != k
    ensures WordStart(len, g) + WordSize(len, g) <= len
    ensures || WordStart(len, g) + WordSize(len, g) <= WordStart(len, k)
            || WordStart(len, k) + WordSize(len, k) <= WordStart(len, g)
  {
  }

  /** The word covering a column. */
  lemma WordOf(len: nat, c: nat) returns (g: nat)
    requires c < len
    ensures g < WordCount(len) && WordStart(len, g) <= c < WordStart(len, g) + WordSize(len, g)
  {
    g := if c < 8 * (len / 8) then c / 8 else len / 8 + (c - 8 * (len / 8));
  }

  /** Rows that agree outside one word have the same words outside it. */
  lemma WordUnchanged(row: Bytes, row': Bytes, g: nat, k: nat)
    requires AgreeBut(row, row', g) && g < WordCount(|row|) && k < WordCount(|row|) && k != g
    ensures WordAt(row, k) == WordAt(row', k)
  {
    WordsApart(|row|, g, k);
    WordsApart(|row|, k, g);
    var s := WordStart(|row|, k);
    if k < |row| / 8 { assert row[s..s + 8] == row'[s..s + 8]; }
  }

  lemma WidenInjective(a: bv8, b: bv8)
    requires Widen(a) == Widen(b)
    ensures a == b
  {
  }

  /** A word whose bytes differ differs. */
  lemma WordChanged(row: Bytes, row': Bytes, g: nat, c: nat)
    requires |row| == |row'| && g < WordCount(|row|) && c < |row|
    requires WordStart(|row|, g) <= c < WordStart(|row|, g) + WordSize(|row|, g) && row[c] != row'[c]
    ensures WordAt(row, g) != WordAt(row', g)
  {
    var s := WordStart(|row|, g);
    if g < |row| / 8 {
      var a, b := row[s..s + 8], row'[s..s + 8];
      assert a[c - s] != b[c - s];
      LeRoundTrip(0, a);
      LeRoundTrip(0, b);
    } else if Widen(row[s]) == Widen(row'[s]) {
      WidenInjective(row[s], row'[s]);
    }
  }

  /** A change inside one word of a row replaces exactly that word. */
  lemma RowChange(row: Bytes, row': Bytes, g: nat, c: nat)
    requires AgreeBut(row, row', g) && g < WordCount(|row|) && c < |row| && row[c] != row'[c]
    ensures g < |RowWords(row)| && WordAt(row', g) != RowWords(row)[g]
    ensures RowWords(row') == RowWords(row)[g := WordAt(row', g)]
  {
    WordChanged(row, row', g, c);
    RowWordsAt(row, g);
    RowWordsAt(row', g);
    forall k | 0 <= k < |RowWords(row)| && k != g ensures RowWords(row)[k] == RowWords(row')[k] {
      RowWordsAt(row, k);
      RowWordsAt(row', k);
      WordUnchanged(row, row', g, k);
    }
  }

  // ---- Rows ----

  /** Every word the hash absorbs from the rows, in order. */
  function Words(rows: seq<Bytes>): seq<bv64> {
    if rows == [] then [] else Words(rows[..|rows| - 1]) + RowWords(rows[|rows| - 1])
  }

  /** A change inside one word of one row replaces exactly one word of the whole. */
  lemma {:induction false} WordsChange(rows: seq<Bytes>, r: nat, row': Bytes, g: nat, w: bv64)
    requires r < |rows| && g < |RowWords(rows[r])| && RowWords(row') == RowWords(rows[r])[g := w]
    ensures var p := |Words(rows[..r])| + g;
            && p < |Words(rows)| && Words(rows)[p] == RowWords(rows[r])[g]
            && Words(rows[r := row']) == Words(rows)[p := w]
  {
    var n := |rows| - 1;
    var rows' := rows[r := row'];
    if r == n {
      assert rows'[..n] == rows[..n];
    } else {
      WordsChange(rows[..n], r, row', g, w);
      assert rows[..n][..r] == rows[..r] && rows'[..n] == rows[..n][r := row'];
    }
  }

  /** Rows that differ, but only within one 8-byte group or one leftover byte of one row, never fold
      to the same hash. */
  lemma RowGroupShows(seed: bv64, rows: seq<Bytes>, r: nat, row': Bytes, g: nat, c: nat)
    requires r < |rows| && AgreeBut(rows[r], row', g) && g < WordCount(|row'|)
    requires c < |row'| && rows[r][c] != row'[c]
    ensures Fold(Mix, seed, Words(rows)) != Fold(Mix, seed, Words(rows[r := row']))
  {
    RowChange(rows[r], row', g, c);
    WordsChange(rows, r, row', g, WordAt(row', g));
    MixFaithful();
    OneWordShows(Mix, seed, Words(rows), |Words(rows[..r])| + g, WordAt(row', g));
  }

  // ---- The plane ----

  /** At most `n` bytes from `at` on, none past the end. */
  function Window(y: Bytes, at: nat, n: nat): (row: Bytes)
    ensures |row| == WindowLength(|y|, at, n)
    ensures forall p :: 0 <= p < |row| ==> row[p] == y[at + p]
  {
    if at >= |y| then [] else y[at..MinNat(at + n, |y|)]
  }

  function WindowLength(len: nat, at: nat, n: nat): nat { if at >= len then 0 else MinNat(n, len - at) }

  /** The columns `x..right` of a row, as far as it goes. */
  function Clip(row: Bytes, x: nat, right: nat): (part: Bytes)
    requires x <= right
    ensures |part| == MinNat(right, |row|) - MinNat(x, |row|)
    ensures forall p :: 0 <= p < |part| ==> x + p < |row| && x + p < right && part[p] == row[x + p]
  {
    row[MinNat(x, |row|)..MinNat(right, |row|)]
  }

  /** The part of row `r` of the plane that the rectangle shows: `y.chunks(stride.max(1))`, clipped. */
  function Slice(y: Bytes, stride: nat, rect: Rect, r: nat): Bytes
    requires rect.Valid()
  {
    var s := MaxNat(stride, 1);
    Clip(Window(y, r * s, s), rect.x, rect.Right())
  }

  function Rows(y: Bytes, stride: nat, rect: Rect, n: nat): (rows: seq<Bytes>)
    requires rect.Valid()
    ensures |rows| == n
  {
    if n == 0 then [] else Rows(y, stride, rect, n - 1) + [Slice(y, stride, rect, rect.y + n - 1)]
  }

  lemma {:induction false} RowAt(y: Bytes, stride: nat, rect: Rect, n: nat, k: nat)
    requires rect.Valid() && k < n
    ensures Rows(y, stride, rect, n)[k] == Slice(y, stride, rect, rect.y + k)
  {
    if k < n - 1 { RowAt(y, stride, rect, n - 1, k); }
  }

  predicate Short(w: bv64) { w < 0x1_0000 }

  function Pack(x: bv64, y: bv64, width: bv64, height: bv64): bv64 { (x << 48) ^ (y << 32) ^ (width << 16) ^ height }

  /** Fields of sixteen bits do not run into each other. */
  lemma PackApart(a: bv64, b: bv64, c: bv64, d: bv64, a': bv64, b': bv64, c': bv64, d': bv64)
    requires Short(a) && Short(b) && Short(c) && Short(d) && Short(a') && Short(b') && Short(c') && Short(d')
    requires Pack(a, b, c, d) == Pack(a', b', c', d')
    ensures a == a' && b == b' && c == c' && d == d'
  {
  }

  function Seed(rect: Rect): bv64
    requires rect.Valid()
  {
    Pack(rect.x as bv64, rect.y as bv64, rect.width as bv64, rect.height as bv64)
  }

  /** The fingerprint as a function of the picture. */
  function Hash(y: Bytes, stride: nat, rect: Rect): bv64
    requires rect.Valid()
  {
    Fold(Mix, Seed(rect), Words(Rows(y, stride, rect, rect.height)))
  }

  lemma FoldHead<H, W>(mix: (H, W) -> H, h: H, w: W, rest: seq<W>)
    ensures Fold(mix, h, [w] + rest) == Fold(mix, mix(h, w), rest)
  {
    FoldSplit(mix, h, [w], rest);
    assert [w][..0] == [];
    assert Fold(mix, h, [w]) == mix(h, w);
  }

  method HashRow(hash: bv64, row: Bytes) returns (h: bv64)
    ensures h == Fold(Mix, hash, RowWords(row))
  {
    h := hash;
    var i := 0;
    while i + 8 <= |row|
      invariant 0 <= i <= |row|
      invariant Fold(Mix, h, RowWords(row[i..])) == Fold(Mix, hash, RowWords(row))
    {
      assert row[i..][..8] == row[i..i + 8] && row[i..][8..] == row[i + 8..];
      FoldHead(Mix, h, FromLe(row[i..i + 8]), RowWords(row[i + 8..]));
      h := Mix(h, FromLe(row[i..i + 8]));
      i := i + 8;
    }
    while i < |row|
      invariant 0 <= i <= |row| < i + 8
      invariant Fold(Mix, h, RowWords(row[i..])) == Fold(Mix, hash, RowWords(row))
    {
      assert row[i..][1..] == row[i + 1..];
      FoldHead(Mix, h, Widen(row[i]), RowWords(row[i + 1..]));
      h := Mix(h, Widen(row[i]));
      i := i + 1;
    }
  }

  lemma NextRow(y: Bytes, stride: nat, rect: Rect, k: nat, seed: bv64)
    requires rect.Valid()
    ensures Fold(Mix, seed, Words(Rows(y, stride, rect, k + 1))) ==
            Fold(Mix, Fold(Mix, seed, Words(Rows(y, stride, rect, k))), RowWords(Slice(y, stride, rect, rect.y + k)))
  {
    var rows, row := Rows(y, stride, rect, k), Slice(y, stride, rect, rect.y + k);
    assert Rows(y, stride, rect, k + 1) == rows + [row];
    AppendRow(seed, rows, row);
  }

  lemma AppendRow(seed: bv64, rows: seq<Bytes>, row: Bytes)
    ensures Fold(Mix, seed, Words(rows + [row])) == Fold(Mix, Fold(Mix, seed, Words(rows)), RowWords(row))
  {
    assert (rows + [row])[..|rows|] == rows;
    FoldSplit(Mix, seed, Words(rows), RowWords(row));
  }

  /** `fingerprint` */
  method FingerprintOf(y: Bytes, stride: nat, rect: Rect) returns (hash: bv64)
    requires rect.Valid()
    ensures hash == Hash(y, stride, rect)
  {
    hash := Seed(rect);
    for k := 0 to rect.height
      invariant hash == Fold(Mix, Seed(rect), Words(Rows(y, stride, rect, k)))
    {
      NextRow(y, stride, rect, k, Seed(rect));
      hash := HashRow(hash, Slice(y, stride, rect, rect.y + k));
    }
  }

  // ---- What the fingerprint sees ----

  /** Pixel `i` of the plane lies in the rectangle. */
  ghost predicate Visible(stride: nat, rect: Rect, i: nat) {
    var s := MaxNat(stride, 1);
    rect.y <= i / s < rect.y + rect.height && rect.x <= i % s < rect.Right()
  }

  /** Where a slice's bytes come from. */
  lemma SliceAt(y: Bytes, stride: nat, rect: Rect, r: nat, p: nat)
    requires rect.Valid() && p < |Slice(y, stride, rect, r)|
    ensures var s := MaxNat(stride, 1); var i := r * s + (rect.x + p);
            && i < |y| && Slice(y, stride, rect, r)[p] == y[i]
            && i / s == r && i % s == rect.x + p < rect.Right()
  {
    var s := MaxNat(stride, 1);
    DivUnique(r * s + (rect.x + p), s, r, rect.x + p);
  }

  /** Where a pixel of the plane ends up. */
  lemma PixelInSlice(y: Bytes, stride: nat, rect: Rect, i: nat, r: nat, c: nat)
    requires rect.Valid() && i < |y| && c < MaxNat(stride, 1) && i == r * MaxNat(stride, 1) + c
    requires rect.x <= c < rect.Right()
    ensures c - rect.x < |Slice(y, stride, rect, r)|
  {
  }

  /** Slices of planes of the same size have the same length. */
  lemma SliceLength(y: Bytes, y': Bytes, stride: nat, rect: Rect, r: nat)
    requires rect.Valid() && |y| == |y'|
    ensures |Slice(y, stride, rect, r)| == |Slice(y', stride, rect, r)|
  {
  }

  /** The two planes show the same pixels inside the rectangle. */
  ghost predicate SameInside(y: Bytes, y': Bytes, stride: nat, rect: Rect)
    requires |y| == |y'|
  {
    forall i {:trigger Visible(stride, rect, i)} :: 0 <= i < |y| && Visible(stride, rect, i) ==> y[i] == y'[i]
  }

  lemma SliceSame(y: Bytes, y': Bytes, stride: nat, rect: Rect, r: nat)
    requires rect.Valid() && |y| == |y'| && rect.y <= r < rect.y + rect.height && SameInside(y, y', stride, rect)
    ensures Slice(y, stride, rect, r) == Slice(y', stride, rect, r)
  {
    SliceLength(y, y', stride, rect, r);
    var a, b := Slice(y, stride, rect, r), Slice(y', stride, rect, r);
    forall p | 0 <= p < |a| ensures a[p] == b[p] {
      SliceAt(y, stride, rect, r, p);
      SliceAt(y', stride, rect, r, p);
      assert Visible(stride, rect, r * MaxNat(stride, 1) + (rect.x + p));
    }
  }

  lemma {:induction false} RowsSame(y: Bytes, y': Bytes, stride: nat, rect: Rect, n: nat)
    requires rect.Valid() && |y| == |y'| && SameInside(y, y', stride, rect) && n <= rect.height
    ensures Rows(y, stride, rect, n) == Rows(y', stride, rect, n)
  {
    if n > 0 {
      RowsSame(y, y', stride, rect, n - 1);
      SliceSame(y, y', stride, rect, rect.y + n - 1);
    }
  }

  /** Pictures that agree inside the rectangle share a fingerprint, whatever lies outside it. */
  lemma OutsideIgnored(y: Bytes, y': Bytes, stride: nat, rect: Rect)
    requires rect.Valid() && |y| == |y'| && SameInside(y, y', stride, rect)
    ensures Hash(y, stride, rect) == Hash(y', stride, rect)
  {
    RowsSame(y, y', stride, rect, rect.height);
  }

  /** The rows differ, but only within one 8-byte group or one leftover byte of one row. */
  ghost predicate OneGroupDiffers(rows: seq<Bytes>, rows': seq<Bytes>, r: nat, g: nat) {
    && r < |rows| == |rows'|
    && (forall k :: 0 <= k < |rows| && k != r ==> rows[k] == rows'[k])
    && AgreeBut(rows[r], rows'[r], g) && g < WordCount(|rows[r]|) && rows[r] != rows'[r]
  }

  lemma RowsGroupShows(seed: bv64, rows: seq<Bytes>, rows': seq<Bytes>, r: nat, g: nat)
    requires OneGroupDiffers(rows, rows', r, g)
    ensures Fold(Mix, seed, Words(rows)) != Fold(Mix, seed, Words(rows'))
  {
    assert rows' == rows[r := rows'[r]];
    var c :| 0 <= c < |rows[r]| && rows[r][c] != rows'[r][c];
    RowGroupShows(seed, rows, r, rows'[r], g, c);
  }

  /** Two pictures that differ inside the rectangle, but only within one 8-byte group or one leftover
      byte of one row, never share a fingerprint. */
  lemma GroupChangeShows(y: Bytes, y': Bytes, stride: nat, rect: Rect, r: nat, g: nat)
    requires rect.Valid()
    requires OneGroupDiffers(Rows(y, stride, rect, rect.height), Rows(y', stride, rect, rect.height), r, g)
    ensures Hash(y, stride, rect) != Hash(y', stride, rect)
  {
    RowsGroupShows(Seed(rect), Rows(y, stride, rect, rect.height), Rows(y', stride, rect, rect.height), r, g);
  }

  /** As far as a single group goes, the fingerprint is as good as the picture. */
  lemma FaithfulWithinGroup(y: Bytes, y': Bytes, stride: nat, rect: Rect, r: nat, g: nat)
    requires rect.Valid() && r < rect.height
    requires var (rows, rows') := (Rows(y, stride, rect, rect.height), Rows(y', stride, rect, rect.height));
             && (forall k :: 0 <= k < |rows| && k != r ==> rows[k] == rows'[k])
             && AgreeBut(rows[r], rows'[r], g) && g < WordCount(|rows[r]|)
    ensures Hash(y, stride, rect) == Hash(y', stride, rect) <==>
            Rows(y, stride, rect, rect.height) == Rows(y', stride, rect, rect.height)
  {
    var rows, rows' := Rows(y, stride, rect, rect.height), Rows(y', stride, rect, rect.height);
    if rows[r] != rows'[r] {
      GroupChangeShows(y, y', stride, rect, r, g);
    } else {
      assert rows == rows';
    }
  }

  /** Equal rows, except that in the changed one column `c` becomes `b`. */
  ghost predicate RowsMatch(row: Bytes, row': Bytes, changed: bool, c: int, b: bv8) {
    |row| == |row'| && forall p :: 0 <= p < |row| ==> row'[p] == if changed && p == c then b else row[p]
  }

  /** A single changed pixel changes one byte of one slice. */
  lemma PixelSliceAt(y: Bytes, stride: nat, rect: Rect, i: nat, b: bv8, k: nat, p: nat)
    requires rect.Valid() && i < |y|
    requires p < |Slice(y, stride, rect, k)| && p < |Slice(y[i := b], stride, rect, k)|
    ensures Slice(y[i := b], stride, rect, k)[p] ==
            if k == i / MaxNat(stride, 1) && p == i % MaxNat(stride, 1) - rect.x then b
            else Slice(y, stride, rect, k)[p]
  {
    SliceAt(y, stride, rect, k, p);
    SliceAt(y[i := b], stride, rect, k, p);
    DivModIff(i, MaxNat(stride, 1), k, rect.x + p);
  }

  lemma PixelSlices(y: Bytes, stride: nat, rect: Rect, i: nat, b: bv8, k: nat, q: nat, c: int)
    requires rect.Valid() && i < |y| && q == i / MaxNat(stride, 1) && c == i % MaxNat(stride, 1) - rect.x
    ensures RowsMatch(Slice(y, stride, rect, k), Slice(y[i := b], stride, rect, k), k == q, c, b)
  {
    SliceLength(y, y[i := b], stride, rect, k);
    forall p | 0 <= p < |Slice(y, stride, rect, k)|
      ensures Slice(y[i := b], stride, rect, k)[p] == if k == q && p == c then b else Slice(y, stride, rect, k)[p]
    {
      PixelSliceAt(y, stride, rect, i, b, k, p);
    }
  }

  lemma PixelRow(y: Bytes, stride: nat, rect: Rect, i: nat) returns (q: nat, c: nat)
    requires rect.Valid() && i < |y| && Visible(stride, rect, i)
    ensures q == i / MaxNat(stride, 1) && c == i % MaxNat(stride, 1) - rect.x
    ensures rect.y <= q < rect.y + rect.height
    ensures c < |Slice(y, stride, rect, q)| && Slice(y, stride, rect, q)[c] == y[i]
  {
    var s := MaxNat(stride, 1);
    q, c := i / s, i % s - rect.x;
    DivBounds(i, s);
    PixelInSlice(y, stride, rect, i, q, i % s);
    SliceAt(y, stride, rect, q, c);
  }

  /** Rows that match but for one column differ in one group. */
  lemma MatchedRows(rows: seq<Bytes>, rows': seq<Bytes>, r: nat, c: nat, b: bv8) returns (g: nat)
    requires r < |rows| == |rows'| && c < |rows[r]| && rows[r][c] != b
    requires forall k :: 0 <= k < |rows| ==> RowsMatch(rows[k], rows'[k], k == r, c, b)
    ensures OneGroupDiffers(rows, rows', r, g)
  {
    g := WordOf(|rows[r]|, c);
    forall k | 0 <= k < |rows| && k != r ensures rows[k] == rows'[k] {
      assert RowsMatch(rows[k], rows'[k], false, c, b);
    }
    assert RowsMatch(rows[r], rows'[r], true, c, b);
  }

  /** Changing one pixel inside the rectangle, to any other value, always changes the fingerprint. */
  lemma PixelShows(y: Bytes, stride: nat, rect: Rect, i: nat, b: bv8)
    requires rect.Valid() && i < |y| && Visible(stride, rect, i) && y[i] != b
    ensures Hash(y, stride, rect) != Hash(y[i := b], stride, rect)
  {
    var r, g := PixelGroup(y, stride, rect, i, b);
    GroupChangeShows(y, y[i := b], stride, rect, r, g);
  }

  lemma PixelRows(y: Bytes, y': Bytes, stride: nat, rect: Rect, k: nat, q: nat, c: int, b: bv8)
    requires rect.Valid() && k < rect.height
    requires RowsMatch(Slice(y, stride, rect, rect.y + k), Slice(y', stride, rect, rect.y + k), rect.y + k == q, c, b)
    ensures RowsMatch(Rows(y, stride, rect, rect.height)[k], Rows(y', stride, rect, rect.height)[k],
                      k == q - rect.y, c, b)
  {
    RowAt(y, stride, rect, rect.height, k);
    RowAt(y', stride, rect, rect.height, k);
  }

  lemma PixelGroup(y: Bytes, stride: nat, rect: Rect, i: nat, b: bv8) returns (r: nat, g: nat)
    requires rect.Valid() && i < |y| && Visible(stride, rect, i) && y[i] != b
    ensures OneGroupDiffers(Rows(y, stride, rect, rect.height), Rows(y[i := b], stride, rect, rect.height), r, g)
  {
    var q, c := PixelRow(y, stride, rect, i);
    r := q - rect.y;
    var rows, rows' := Rows(y, stride, rect, rect.height), Rows(y[i := b], stride, rect, rect.height);
    forall k | 0 <= k < |rows| ensures RowsMatch(rows[k], rows'[k], k == r, c, b) {
      PixelSlices(y, stride, rect, i, b, rect.y + k, q, c);
      PixelRows(y, y[i := b], stride, rect, k, q, c, b);
    }
    RowAt(y, stride, rect, rect.height, r);
    g := MatchedRows(rows, rows', r, c, b);
  }

  // ---- The seed ----

  /** The rectangle's fields, as the hash takes them in, have sixteen bits. */
  ghost predicate Fields(rect: Rect, a: bv64, b: bv64, c: bv64, d: bv64)
    requires rect.Valid()
  {
    && a == rect.x as bv64 && b == rect.y as bv64 && c == rect.width as bv64 && d == rect.height as bv64
    && Short(a) && Short(b) && Short(c) && Short(d)
  }

  lemma SeedIsPack(rect: Rect, a: bv64, b: bv64, c: bv64, d: bv64)
    requires rect.Valid() && Fields(rect, a, b, c, d)
    ensures Seed(rect) == Pack(a, b, c, d)
  {
  }

  lemma FoldsTold(h: bv64, h': bv64, words: seq<bv64>)
    requires h != h'
    ensures Fold(Mix, h, words) != Fold(Mix, h', words)
  {
    MixFaithful();
    if Fold(Mix, h, words) == Fold(Mix, h', words) { FoldInjective(Mix, h, h', words); }
  }

  lemma SeedsApart(h: bv64, a: bv64, b: bv64, c: bv64, d: bv64, h': bv64, a': bv64, b': bv64, c': bv64, d': bv64)
    requires Short(a) && Short(b) && Short(c) && Short(d) && Short(a') && Short(b') && Short(c') && Short(d')
    requires h == Pack(a, b, c, d) && h' == Pack(a', b', c', d') && (a != a' || b != b' || c != c' || d != d')
    ensures h != h'
  {
    if h == h' { PackApart(a, b, c, d, a', b', c', d'); }
  }

  /** The same bytes seen through different rectangles never share a fingerprint, as long as the
      rectangles' fields have sixteen bits. */
  lemma RectsTold(y: Bytes, stride: nat, rect: Rect, a: bv64, b: bv64, c: bv64, d: bv64,
                  y': Bytes, stride': nat, rect': Rect, a': bv64, b': bv64, c': bv64, d': bv64)
    requires rect.Valid() && rect'.Valid() && Fields(rect, a, b, c, d) && Fields(rect', a', b', c', d')
    requires a != a' || b != b' || c != c' || d != d'
    requires Words(Rows(y, stride, rect, rect.height)) == Words(Rows(y', stride', rect', rect'.height))
    ensures Hash(y, stride, rect) != Hash(y', stride', rect')
  {
    SeedIsPack(rect, a, b, c, d);
    SeedIsPack(rect', a', b', c', d');
    SeedsApart(Seed(rect), a, b, c, d, Seed(rect'), a', b', c', d');
    FoldsTold(Seed(rect), Seed(rect'), Words(Rows(y, stride, rect, rect.height)));
  }
}
