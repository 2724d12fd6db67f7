/** Greedy CTC decoding of crates/rkvm-vision/src/rec.rs, on single-precision probabilities and on
    raw half-precision bits. */
module Ctc {
  import opened Arith
  import opened HalfFloat

  // ---- Values ----

  /** The `f32` values: reals for the finite ones, the two infinities and NaN. */
  datatype F32 = Fin(v: real) | Inf | NegInf | NaN

  predicate IsNumber(a: F32) { !a.NaN? }

  /** Comparison and arithmetic, a NaN being neither above nor below anything. */
  predicate Gt(a: F32, b: F32) {
    match (a, b)
    case (Fin(x), Fin(y)) => x > y
    case (Inf, _) => b.Fin? || b.NegInf?
    case (Fin(_), NegInf) => true
    case _ => false
  }

  function Plus(a: F32, b: F32): F32 {
    match (a, b)
    case (Fin(x), Fin(y)) => Fin(x + y)
    case (NaN, _) => NaN
    case (_, NaN) => NaN
    case (Inf, NegInf) => NaN
    case (NegInf, Inf) => NaN
    case _ => if a.Fin? then b else a
  }

  function Over(a: F32, n: nat): F32
    requires n > 0
  {
    if a.Fin? then Fin(a.v / n as real) else a
  }

  /** The value of a bit pattern (section 3.4 of IEEE 754-2019). */
  function Value(s: Single): F32 {
    if SingleExp(s) == 0xff then
      if SingleMant(s) != 0 then NaN else if SingleNegative(s) then NegInf else Inf
    else
      var magnitude := Magnitude(SingleUnits(s));
      Fin(if SingleNegative(s) then -magnitude else magnitude)
  }

  /** Units of 2^-149 as a real number. */
  function Magnitude(units: nat): real { units as real / Pow2(149) as real }

  function SignedMagnitude(negative: bool, units: nat): real {
    if negative then -Magnitude(units) else Magnitude(units)
  }

  /** A signed magnitude is exactly that many units of 2^-149. */
  lemma MagnitudeExact(negative: bool, units: nat, one: nat)
    requires one == Pow2(149)
    ensures SignedMagnitude(negative, units) * one as real == if negative then -(units as real) else units as real
  {
    QuotientExact(units as real, one as real);
  }

  /** What a bit pattern is worth: a NaN, an infinity, or exactly its sign and its units. */
  lemma ValueWorth(s: Single, exp: nat, mant: nat)
    requires exp == s / 0x80_0000 % 0x100 && mant == s % 0x80_0000
    ensures Value(s) ==
            if exp == 0xff then (if mant != 0 then NaN else if s >= 0x8000_0000 then NegInf else Inf)
            else Fin(SignedMagnitude(s >= 0x8000_0000, SingleUnits(s)))
  {
  }

  lemma QuotientExact(a: real, d: real)
    requires d > 0.0
    ensures a / d * d == a && -(a / d) * d == -a
  {
  }

  lemma MagnitudeOrder(a: nat, b: nat)
    ensures Magnitude(a) >= 0.0 && (a < b ==> Magnitude(a) < Magnitude(b))
  {
    QuotientSign(a as real, Pow2(149) as real);
    if a < b { QuotientOrder(a as real, b as real, Pow2(149) as real); }
  }

  lemma QuotientSign(a: real, d: real)
    requires a >= 0.0 && d > 0.0
    ensures a / d >= 0.0
  {
  }

  lemma QuotientOrder(a: real, b: real, d: real)
    requires a < b && d > 0.0
    ensures a / d < b / d
  {
  }

  function HalfValue(b: Half): F32 { Value(F16ToF32(b)) }

  /** Halves from zero to infinity convert in order, so their bits can be compared instead. */
  lemma HalfValueOrder(a: Half, b: Half)
    requires a <= 0x7c00 && b <= 0x7c00
    ensures a > b <==> Gt(HalfValue(a), HalfValue(b))
  {
    if a > b { HalfValueAbove(a, b); } else if b > a { HalfValueAbove(b, a); }
  }

  lemma HalfValueAbove(a: Half, b: Half)
    requires b < a <= 0x7c00
    ensures Gt(HalfValue(a), HalfValue(b))
  {
    ConversionExact(a);
    ConversionExact(b);
    HalfKind(a);
    HalfKind(b);
    if a < 0x7c00 {
      HalvesOrderLikeBits(b, a);
      MulStrict(HalfUnits(b), HalfUnits(a), Pow2(125));
      ValueOrder(F16ToF32(a), F16ToF32(b));
    }
  }

  /** Below 0x7c00 a half is finite and non-negative, at 0x7c00 it is infinity. */
  lemma HalfKind(b: Half)
    requires b <= 0x7c00
    ensures !HalfNegative(b) && (HalfExp(b) == 0x1f <==> b == 0x7c00) && (b == 0x7c00 ==> HalfMant(b) == 0)
  {
  }

  lemma ValueOrder(a: Single, b: Single)
    requires !SingleNegative(a) && !SingleNegative(b) && SingleExp(a) != 0xff && SingleExp(b) != 0xff
    requires SingleUnits(b) < SingleUnits(a)
    ensures Gt(Value(a), Value(b))
  {
    MagnitudeOrder(SingleUnits(b), SingleUnits(a));
  }

  // ---- What greedy decoding means ----

  /** The winning class of one time step and its probability. */
  datatype Peak = Peak(cls: nat, value: F32)

  /** Adjacent steps with the same class count once, as the first of them. */
  ghost function CollapseRepeats(ps: seq<Peak>): seq<Peak> {
    if ps == [] then []
    else
      var n := |ps| - 1;
      CollapseRepeats(ps[..n]) + if n > 0 && ps[n].cls == ps[n - 1].cls then [] else [ps[n]]
  }

  /** Class 0 is the blank. */
  ghost function DropBlanks(ps: seq<Peak>): seq<Peak> {
    if ps == [] then []
    else
      var n := |ps| - 1;
      DropBlanks(ps[..n]) + if ps[n].cls == 0 then [] else [ps[n]]
  }

  ghost function Kept(ps: seq<Peak>): seq<Peak> { DropBlanks(CollapseRepeats(ps)) }

  /** Class `i` is `dict[i - 1]`; one class more than the dictionary is the space. */
  function Glyph(dict: seq<string>, cls: nat): string
    requires cls > 0
  {
    if cls <= |dict| then dict[cls - 1] else if cls == |dict| + 1 then " " else ""
  }

  ghost function Spell(ps: seq<Peak>, dict: seq<string>): string {
    if ps == [] then ""
    else
      var last := ps[|ps| - 1];
      Spell(ps[..|ps| - 1], dict) + if last.cls > 0 then Glyph(dict, last.cls) else ""
  }

  ghost function Sum(ps: seq<Peak>): F32 {
    if ps == [] then Fin(0.0) else Plus(Sum(ps[..|ps| - 1]), ps[|ps| - 1].value)
  }

  ghost function Mean(ps: seq<Peak>): F32 { if ps == [] then Fin(0.0) else Over(Sum(ps), |ps|) }

  /** Some kept value is this special one. */
  ghost predicate Has(ps: seq<Peak>, v: F32) { exists i :: 0 <= i < |ps| && ps[i].value == v }

  /** The finite values' total. */
  ghost function Total(ps: seq<Peak>): real {
    if ps == [] then 0.0
    else
      var v := ps[|ps| - 1].value;
      Total(ps[..|ps| - 1]) + if v.Fin? then v.v else 0.0
  }

  lemma HasNext(ps: seq<Peak>, v: F32)
    requires ps != []
    ensures Has(ps, v) <==> Has(ps[..|ps| - 1], v) || ps[|ps| - 1].value == v
  {
    var n := |ps| - 1;
    if i :| 0 <= i < |ps| && ps[i].value == v { assert i < n ==> ps[..n][i].value == v; }
    if i :| 0 <= i < n && ps[..n][i].value == v { assert ps[i].value == v; }
  }

  /** A sum is the total of finite values, an infinity if only infinities of that sign are among them,
      and otherwise no number: the order of the additions decides nothing. */
  lemma {:induction false} SumMeaning(ps: seq<Peak>)
    ensures Sum(ps) == if Has(ps, NaN) || (Has(ps, Inf) && Has(ps, NegInf)) then NaN
                       else if Has(ps, Inf) then Inf
                       else if Has(ps, NegInf) then NegInf
                       else Fin(Total(ps))
  {
    if ps != [] {
      SumMeaning(ps[..|ps| - 1]);
      HasNext(ps, NaN);
      HasNext(ps, Inf);
      HasNext(ps, NegInf);
    }
  }

  /** The score is nothing for an empty text, the sum if that is no finite number, and otherwise the
      one number that taken once for each value makes up their total. */
  lemma MeanMeaning(ps: seq<Peak>, n: real)
    requires n == |ps| as real
    ensures ps == [] ==> Mean(ps) == Fin(0.0)
    ensures ps != [] && !Sum(ps).Fin? ==> Mean(ps) == Sum(ps)
    ensures ps != [] && Sum(ps).Fin? ==> Mean(ps).Fin? && Mean(ps).v * n == Total(ps)
  {
    SumMeaning(ps);
    if ps != [] && Sum(ps).Fin? { QuotientExact(Sum(ps).v, n); }
  }

  ghost function Expected(ps: seq<Peak>, dict: seq<string>): (string, F32) {
    (Trim(Spell(Kept(ps), dict)), Mean(Kept(ps)))
  }

  // ---- Trimming ----

  /** The Unicode White_Space characters. */
  predicate IsSpace(c: char) {
    || '\t' <= c <= '\r' || c == ' ' || c == '\U{0085}' || c == '\U{00A0}' || c == '\U{1680}'
    || '\U{2000}' <= c <= '\U{200A}' || c == '\U{2028}' || c == '\U{2029}' || c == '\U{202F}'
    || c == '\U{205F}' || c == '\U{3000}'
  }

  function TrimStart(s: string): string {
    if s != [] && IsSpace(s[0]) then TrimStart(s[1..]) else s
  }

  function TrimEnd(s: string): string {
    if s != [] && IsSpace(s[|s| - 1]) then TrimEnd(s[..|s| - 1]) else s
  }

  function Trim(s: string): string { TrimEnd(TrimStart(s)) }

  ghost predicate AllSpace(s: string) { forall i :: 0 <= i < |s| ==> IsSpace(s[i]) }

  lemma {:induction false} TrimStartSplit(s: string) returns (a: string)
    ensures s == a + TrimStart(s) && AllSpace(a)
    ensures TrimStart(s) == [] || !IsSpace(TrimStart(s)[0])
  {
    a := [];
    if s != [] && IsSpace(s[0]) {
      a := TrimStartSplit(s[1..]);
      a := [s[0]] + a;
    }
  }

  lemma {:induction false} TrimEndSplit(s: string) returns (b: string)
    ensures s == TrimEnd(s) + b && AllSpace(b)
    ensures TrimEnd(s) == [] || !IsSpace(TrimEnd(s)[|TrimEnd(s)| - 1])
  {
    b := [];
    if s != [] && IsSpace(s[|s| - 1]) {
      b := TrimEndSplit(s[..|s| - 1]);
      assert s == TrimEnd(s) + b + [s[|s| - 1]];
      b := b + [s[|s| - 1]];
    }
  }

  /** Trimming takes off white space at both ends and nothing else. */
  lemma TrimMeaning(s: string) returns (a: string, b: string)
    ensures s == a + Trim(s) + b && AllSpace(a) && AllSpace(b)
    ensures Trim(s) != [] ==> !IsSpace(Trim(s)[0]) && !IsSpace(Trim(s)[|Trim(s)| - 1])
  {
    a := TrimStartSplit(s);
    b := TrimEndSplit(TrimStart(s));
    if Trim(s) != [] { assert TrimStart(s)[0] == Trim(s)[0]; }
  }

  // ---- The winning class ----

  /** The `reduce` over one time step: a later class wins only if it is greater. */
  function Best<T>(row: seq<T>, gt: (T, T) -> bool, n: nat): (b: nat)
    requires 0 < n <= |row|
    ensures b < n
  {
    if n == 1 then 0
    else
      var b := Best(row, gt, n - 1);
      if gt(row[n - 1], row[b]) then n - 1 else b
  }

  /** `gt` orders the values that are `ok`, ties allowed, and no others. */
  ghost predicate StrictOrder<T(!new)>(gt: (T, T) -> bool, ok: T -> bool) {
    && (forall a, b :: gt(a, b) ==> ok(a) && ok(b) && !gt(b, a))
    && (forall a, b, c :: gt(a, b) && ok(c) && !gt(c, b) ==> gt(a, c))
    && (forall a, b, c :: ok(b) && !gt(a, b) && !gt(b, c) ==> !gt(a, c))
  }

  /** It is the first class that no other class beats. Classes that do not compare are passed over,
      unless the very first is one: then nothing beats it. */
  lemma {:induction false} BestIsFirstMax<T(!new)>(row: seq<T>, gt: (T, T) -> bool, ok: T -> bool, n: nat)
    requires StrictOrder(gt, ok) && 0 < n <= |row|
    ensures var b := Best(row, gt, n);
            && (forall j :: 0 <= j < n ==> !gt(row[j], row[b]))
            && (if ok(row[0]) then ok(row[b]) && forall j :: 0 <= j < b && ok(row[j]) ==> gt(row[b], row[j])
                else b == 0)
  {
    if n > 1 {
      BestIsFirstMax(row, gt, ok, n - 1);
      var p, q := Best(row, gt, n - 1), row[n - 1];
      forall j | 0 <= j < n - 1 && gt(q, row[p]) ensures (ok(row[j]) ==> gt(q, row[j])) && !gt(row[j], q) {
        assert !gt(row[j], row[p]);
      }
    }
  }

  /** Both comparisons decoding is used with are such orders: on numbers, and on all half bits. */
  lemma DecodingOrders()
    ensures StrictOrder(Gt, IsNumber) && StrictOrder(BitsGt, AnyBits)
  {
    assert StrictOrder(BitsGt, AnyBits);
    assert StrictOrder(Gt, IsNumber);
  }

  // ---- Decoding ----

  function RowCount<T>(probs: seq<T>, steps: nat, classes: nat): nat {
    MinNat(steps, |probs| / MaxNat(classes, 1))
  }

  lemma RowFits(size: nat, c: nat, t: nat)
    requires c > 0 && t < size / c
    ensures t * c + c <= size
  {
    DivBounds(size, c);
    MulMono(t + 1, size / c, c);
  }

  /** Time step `t`: `chunks_exact(classes.max(1))`, so a ragged tail is ignored. */
  function Row<T>(probs: seq<T>, steps: nat, classes: nat, t: nat): (r: seq<T>)
    requires t < RowCount(probs, steps, classes)
    ensures |r| == MaxNat(classes, 1)
  {
    var c := MaxNat(classes, 1);
    RowFits(|probs|, c, t);
    probs[t * c..t * c + c]
  }

  /** There are as many time steps as asked for, as far as whole ones are there. */
  lemma RowCountIff<T>(probs: seq<T>, steps: nat, classes: nat, n: nat)
    ensures n <= RowCount(probs, steps, classes) <==> n <= steps && n * MaxNat(classes, 1) <= |probs|
  {
    var c := MaxNat(classes, 1);
    DivBounds(|probs|, c);
    if n * c <= |probs| { QuotientAtLeast(c, n, |probs|); }
    if n <= |probs| / c { MulMono(n, |probs| / c, c); }
  }

  /** Class `k` of time step `t` is entry `t * c + k`, counted from the front. */
  lemma RowAt<T>(probs: seq<T>, steps: nat, classes: nat, t: nat, k: nat)
    requires t < RowCount(probs, steps, classes) && k < MaxNat(classes, 1)
    ensures var i := t * MaxNat(classes, 1) + k;
            i < |probs| && Row(probs, steps, classes, t)[k] == probs[i]
  {
    RowFits(|probs|, MaxNat(classes, 1), t);
  }

  function PeakOf<T>(row: seq<T>, gt: (T, T) -> bool, toF32: T -> F32): Peak
    requires row != []
  {
    var b := Best(row, gt, |row|);
    Peak(b, toF32(row[b]))
  }

  ghost function Peaks<T>(probs: seq<T>, steps: nat, classes: nat, gt: (T, T) -> bool, toF32: T -> F32): seq<Peak> {
    seq(RowCount(probs, steps, classes),
        (t: nat) requires t < RowCount(probs, steps, classes) => PeakOf(Row(probs, steps, classes, t), gt, toF32))
  }

  /** Class `b` is the first none beats among the `c` from entry `at` on, classes that do not compare
      being passed over unless the very first is one. */
  ghost predicate Wins<T(!new)>(probs: seq<T>, at: nat, c: nat, b: nat, gt: (T, T) -> bool, ok: T -> bool)
    requires at + c <= |probs|
  {
    && b < c
    && (forall i :: at <= i < at + c ==> !gt(probs[i], probs[at + b]))
    && if ok(probs[at])
       then ok(probs[at + b]) && forall i :: at <= i < at + b && ok(probs[i]) ==> gt(probs[at + b], probs[i])
       else b == 0
  }

  /** What is decoded, in terms of the flat list alone: each time step's winner and its probability. */
  lemma PeakMeaning<T(!new)>(probs: seq<T>, steps: nat, classes: nat, gt: (T, T) -> bool, ok: T -> bool,
                             toF32: T -> F32, t: nat, at: nat)
    requires StrictOrder(gt, ok) && t < RowCount(probs, steps, classes) && at == t * MaxNat(classes, 1)
    ensures var (ps, c) := (Peaks(probs, steps, classes, gt, toF32), MaxNat(classes, 1));
            && |ps| == RowCount(probs, steps, classes) && at + c <= |probs|
            && Wins(probs, at, c, ps[t].cls, gt, ok) && ps[t].value == toF32(probs[at + ps[t].cls])
  {
    var row, c := Row(probs, steps, classes, t), MaxNat(classes, 1);
    RowFits(|probs|, c, t);
    forall i | at <= i < at + c ensures probs[i] == row[i - at] { RowAt(probs, steps, classes, t, i - at); }
    BestIsFirstMax(row, gt, ok, |row|);
  }

  // ---- What classes spell ----

  /** The model's labels: the blank, the dictionary, the space. */
  ghost function Labels(dict: seq<string>): seq<string> { [""] + dict + [" "] }

  ghost function Concat(parts: seq<string>): string {
    if parts == [] then "" else Concat(parts[..|parts| - 1]) + parts[|parts| - 1]
  }

  /** Time steps that write these classes, a blank after each. */
  ghost function Written(classes: seq<nat>, v: F32): seq<Peak> {
    if classes == [] then []
    else Written(classes[..|classes| - 1], v) + [Peak(classes[|classes| - 1], v)] + [Peak(0, v)]
  }

  ghost function LabelsOf(classes: seq<nat>, dict: seq<string>): (parts: seq<string>)
    requires forall i :: 0 <= i < |classes| ==> 0 < classes[i] <= |dict| + 1
    ensures |parts| == |classes| && forall i :: 0 <= i < |parts| ==> parts[i] == Labels(dict)[classes[i]]
  {
    seq(|classes|, (i: nat) requires i < |classes| => Labels(dict)[classes[i]])
  }

  /** Every class is spelt as its label: any classes of the model can be written, repeats included, and
      decode to their labels. */
  lemma {:induction false} WrittenReads(classes: seq<nat>, dict: seq<string>, v: F32)
    requires forall i :: 0 <= i < |classes| ==> 0 < classes[i] <= |dict| + 1
    ensures Expected(Written(classes, v), dict).0 == Trim(Concat(LabelsOf(classes, dict)))
  {
    WrittenSpells(classes, dict, v);
  }

  lemma SpellAppend(k: seq<Peak>, p: Peak, dict: seq<string>)
    requires p.cls > 0
    ensures Spell(k + [p], dict) == Spell(k, dict) + Glyph(dict, p.cls) && Sum(k + [p]) == Plus(Sum(k), p.value)
  {
    assert (k + [p])[..|k|] == k;
  }

  lemma KeptKeeps(ps: seq<Peak>, p: Peak, k: seq<Peak>)
    requires p.cls != 0 && (ps == [] || ps[|ps| - 1].cls == 0) && k == Kept(ps)
    ensures Kept(ps + [p]) == k + [p]
  {
    KeptStep(ps, p);
  }

  lemma KeptDrops(ps: seq<Peak>, p: Peak, k: seq<Peak>)
    requires p.cls == 0 && k == Kept(ps)
    ensures Kept(ps + [p]) == k
  {
    KeptStep(ps, p);
    assert k + [] == k;
  }

  /** A class written after a blank, and another blank, adds its label. */
  lemma WriteOne(front: seq<Peak>, next: seq<Peak>, all: seq<Peak>, cls: nat, v: F32, dict: seq<string>, k: seq<Peak>)
    requires 0 < cls <= |dict| + 1 && (front == [] || front[|front| - 1].cls == 0) && k == Kept(front)
    requires next == front + [Peak(cls, v)] && all == next + [Peak(0, v)]
    ensures Spell(Kept(all), dict) == Spell(k, dict) + Labels(dict)[cls]
  {
    KeptKeeps(front, Peak(cls, v), k);
    KeptDrops(next, Peak(0, v), k + [Peak(cls, v)]);
    SpellAppend(k, Peak(cls, v), dict);
    LabelIsGlyph(cls, dict);
  }

  lemma LabelIsGlyph(cls: nat, dict: seq<string>)
    requires 0 < cls <= |dict| + 1
    ensures Labels(dict)[cls] == Glyph(dict, cls)
  {
  }

  lemma {:induction false} WrittenSpells(classes: seq<nat>, dict: seq<string>, v: F32)
    requires forall i :: 0 <= i < |classes| ==> 0 < classes[i] <= |dict| + 1
    ensures Spell(Kept(Written(classes, v)), dict) == Concat(LabelsOf(classes, dict))
    ensures classes != [] ==> var ps := Written(classes, v); ps != [] && ps[|ps| - 1].cls == 0
  {
    if classes != [] {
      var n := |classes| - 1;
      WrittenSpells(classes[..n], dict, v);
      var front := Written(classes[..n], v);
      WriteOne(front, front + [Peak(classes[n], v)], Written(classes, v), classes[n], v, dict, Kept(front));
      LabelsNext(classes, dict);
    }
  }

  lemma LabelsNext(classes: seq<nat>, dict: seq<string>)
    requires classes != [] && forall i :: 0 <= i < |classes| ==> 0 < classes[i] <= |dict| + 1
    ensures var n := |classes| - 1;
            Concat(LabelsOf(classes, dict)) == Concat(LabelsOf(classes[..n], dict)) + Labels(dict)[classes[n]]
  {
    assert LabelsOf(classes, dict)[..|classes| - 1] == LabelsOf(classes[..|classes| - 1], dict);
  }

  /** One more time step is kept unless it is blank or repeats the step before it. */
  lemma KeptStep(ps: seq<Peak>, p: Peak)
    ensures var prev := if ps == [] then 0 else ps[|ps| - 1].cls;
            Kept(ps + [p]) == Kept(ps) + if p.cls != 0 && p.cls != prev then [p] else []
  {
    assert (ps + [p])[..|ps|] == ps;
    var c := CollapseRepeats(ps);
    assert (c + [p])[..|c|] == c;
    assert c + [] == c;
  }

  /** The loop's accumulators after the time steps `ps`. */
  ghost predicate Tracks(text: string, sum: F32, kept: nat, prev: nat, ps: seq<Peak>, dict: seq<string>) {
    && prev == (if ps == [] then 0 else ps[|ps| - 1].cls)
    && text == Spell(Kept(ps), dict) && sum == Sum(Kept(ps)) && kept == |Kept(ps)|
  }

  lemma TracksStep(text: string, sum: F32, kept: nat, prev: nat, ps: seq<Peak>, p: Peak, dict: seq<string>)
    requires Tracks(text, sum, kept, prev, ps, dict)
    ensures p.cls == 0 || p.cls == prev ==> Tracks(text, sum, kept, p.cls, ps + [p], dict)
    ensures p.cls != 0 && p.cls != prev ==>
              Tracks(text + Glyph(dict, p.cls), Plus(sum, p.value), kept + 1, p.cls, ps + [p], dict)
  {
    KeptStep(ps, p);
    if p.cls > 0 { SpellAppend(Kept(ps), p, dict); }
    assert Kept(ps) + [] == Kept(ps);
  }

  lemma TracksAll(text: string, sum: F32, kept: nat, prev: nat, ps: seq<Peak>, dict: seq<string>)
    requires Tracks(text, sum, kept, prev, ps, dict)
    ensures Expected(ps, dict) == (Trim(text), if kept == 0 then Fin(0.0) else Over(sum, kept))
  {
  }

  /** One time step of `decode`. */
  method Absorb<T>(row: seq<T>, dict: seq<string>, gt: (T, T) -> bool, toF32: T -> F32,
                   text: string, sum: F32, kept: nat, prev: nat, ghost ps: seq<Peak>)
    returns (text': string, sum': F32, kept': nat, best: nat)
    requires row != [] && Tracks(text, sum, kept, prev, ps, dict)
    ensures Tracks(text', sum', kept', best, ps + [PeakOf(row, gt, toF32)], dict)
  {
    text', sum', kept' := text, sum, kept;
    best := Best(row, gt, |row|);
    TracksStep(text, sum, kept, prev, ps, PeakOf(row, gt, toF32), dict);
    if best != 0 && best != prev {
      if best - 1 < |dict| {
        text' := text' + dict[best - 1];
      } else if best == |dict| + 1 {
        text' := text' + " ";
      } else {
        assert text + "" == text;
      }
      sum' := Plus(sum', toF32(row[best]));
      kept' := kept' + 1;
    }
  }

  lemma NextPeak<T>(probs: seq<T>, steps: nat, classes: nat, gt: (T, T) -> bool, toF32: T -> F32, t: nat)
    requires t < RowCount(probs, steps, classes)
    ensures var ps := Peaks(probs, steps, classes, gt, toF32);
            ps[..t + 1] == ps[..t] + [PeakOf(Row(probs, steps, classes, t), gt, toF32)]
  {
  }

  /** `decode`: the text and score are those of greedy CTC decoding. The comparison is the element
      type's own, and only the winners are converted. */
  method Decode<T>(probs: seq<T>, steps: nat, classes: nat, dict: seq<string>, gt: (T, T) -> bool, toF32: T -> F32)
    returns (text: string, score: F32)
    ensures (text, score) == Expected(Peaks(probs, steps, classes, gt, toF32), dict)
  {
    ghost var peaks := Peaks(probs, steps, classes, gt, toF32);
    text := "";
    var sum, kept, prev := Fin(0.0), 0, 0;
    var n := RowCount(probs, steps, classes);
    for t := 0 to n
      invariant Tracks(text, sum, kept, prev, peaks[..t], dict)
    {
      NextPeak(probs, steps, classes, gt, toF32, t);
      var row := Row(probs, steps, classes, t);
      text, sum, kept, prev := Absorb(row, dict, gt, toF32, text, sum, kept, prev, peaks[..t]);
    }
    assert peaks[..n] == peaks;
    TracksAll(text, sum, kept, prev, peaks, dict);
    score := if kept == 0 then Fin(0.0) else Over(sum, kept);
    text := Trim(text);
  }

  // ---- The half-precision fast path ----

  function BitsGt(a: Half, b: Half): bool { a > b }
  predicate AnyBits(b: Half) { true }

  lemma {:induction false} BestMapped(row: seq<Half>, values: seq<F32>, n: nat)
    requires 0 < n <= |row| == |values|
    requires forall i :: 0 <= i < |row| ==> row[i] <= 0x7c00 && values[i] == HalfValue(row[i])
    ensures Best(row, BitsGt, n) == Best(values, Gt, n)
  {
    if n > 1 {
      BestMapped(row, values, n - 1);
      HalfValueOrder(row[n - 1], row[Best(row, BitsGt, n - 1)]);
    }
  }

  lemma PeakMapped(bits: seq<Half>, values: seq<F32>, steps: nat, classes: nat, t: nat)
    requires |values| == |bits| && t < RowCount(bits, steps, classes)
    requires forall i :: 0 <= i < |bits| ==> bits[i] <= 0x7c00 && values[i] == HalfValue(bits[i])
    ensures PeakOf(Row(bits, steps, classes, t), BitsGt, HalfValue) ==
            PeakOf(Row(values, steps, classes, t), Gt, v => v)
  {
    var row, row' := Row(bits, steps, classes, t), Row(values, steps, classes, t);
    var c := MaxNat(classes, 1);
    RowFits(|bits|, c, t);
    forall i | 0 <= i < |row| ensures row[i] <= 0x7c00 && row'[i] == HalfValue(row[i]) {
      assert row[i] == bits[t * c + i] && row'[i] == values[t * c + i];
    }
    BestMapped(row, row', |row|);
  }

  /** Decoding raw half bits from zero to infinity gives the same text and score as converting every
      one of them first. */
  lemma HalfDecodesLikeSingle(bits: seq<Half>, values: seq<F32>, steps: nat, classes: nat, dict: seq<string>)
    requires |values| == |bits|
    requires forall i :: 0 <= i < |bits| ==> bits[i] <= 0x7c00 && values[i] == HalfValue(bits[i])
    ensures Expected(Peaks(bits, steps, classes, BitsGt, HalfValue), dict) ==
            Expected(Peaks(values, steps, classes, Gt, v => v), dict)
  {
    var a, b := Peaks(bits, steps, classes, BitsGt, HalfValue), Peaks(values, steps, classes, Gt, v => v);
    forall t | 0 <= t < |a| ensures a[t] == b[t] { PeakMapped(bits, values, steps, classes, t); }
    assert a == b;
  }

  lemma NegativeBelow(a: Single, b: Single)
    requires SingleNegative(a) && !SingleNegative(b) && SingleExp(a) != 0xff && SingleExp(b) != 0xff
    requires SingleUnits(a) > 0
    ensures Gt(Value(b), Value(a))
  {
    MagnitudeOrder(0, SingleUnits(a));
    MagnitudeOrder(SingleUnits(b), 0);
  }

  lemma NegativeHalfKind(b: Half)
    requires 0x8000 < b < 0xfc00
    ensures HalfNegative(b) && HalfExp(b) != 0x1f && HalfUnits(b) > 0
  {
    if HalfExp(b) > 0 { MulStrict(0, 0x400 + HalfMant(b), Pow2(HalfExp(b) - 1)); }
  }

  /** The bound is needed: every negative finite half has larger bits than every non-negative one,
      and a smaller value. */
  lemma NegativeHalvesMisorder(a: Half, b: Half)
    requires 0x8000 < a < 0xfc00 && b < 0x7c00
    ensures BitsGt(a, b) && Gt(HalfValue(b), HalfValue(a))
  {
    ConversionExact(a);
    ConversionExact(b);
    HalfKind(b);
    NegativeHalfKind(a);
    MulStrict(0, HalfUnits(a), Pow2(125));
    NegativeBelow(F16ToF32(a), F16ToF32(b));
  }

  /** Dropping the sign bit leaves the magnitude. */
  lemma NegativeHalf(b: Half)
    requires 0x8000 <= b
    ensures HalfNegative(b) && HalfExp(b) == HalfExp(b - 0x8000) && HalfMant(b) == HalfMant(b - 0x8000)
  {
  }

  lemma MagnitudeValue(b: Half)
    requires HalfExp(b) != 0x1f
    ensures var m := Magnitude(HalfUnits(b) * Pow2(125));
            m >= 0.0 && HalfValue(b) == Fin(if HalfNegative(b) then -m else m)
  {
    ConversionExact(b);
    MagnitudeOrder(HalfUnits(b) * Pow2(125), 0);
  }

  lemma NegativeUnits(b: Half)
    requires 0x8000 <= b < 0xfc00
    ensures HalfNegative(b) && HalfExp(b) != 0x1f && HalfUnits(b) == HalfUnits(b - 0x8000)
  {
    NegativeHalf(b);
    FiniteBelow(b - 0x8000);
  }

  lemma NegativeUnitsGrow(a: Half, b: Half)
    requires 0x8000 <= a < b < 0xfc00
    ensures HalfUnits(a) < HalfUnits(b)
  {
    NegativeUnits(a);
    NegativeUnits(b);
    HalvesOrderLikeBits(a - 0x8000, b - 0x8000);
  }

  lemma NegativeValue(b: Half, u: nat, p: nat)
    requires HalfNegative(b) && HalfExp(b) != 0x1f && u == HalfUnits(b) && p == Pow2(125)
    ensures HalfValue(b) == Fin(-Magnitude(u * p))
  {
    MagnitudeValue(b);
    SameProduct(u, p, HalfUnits(b), Pow2(125));
  }

  lemma SameProduct(u: nat, p: nat, v: nat, q: nat)
    requires u == v && p == q
    ensures u * p == v * q
  {
  }

  lemma NegatedOrder(u: nat, v: nat, p: nat, x: F32, y: F32)
    requires u < v && p > 0 && x == Fin(-Magnitude(u * p)) && y == Fin(-Magnitude(v * p))
    ensures !Gt(y, x)
  {
    MulStrict(u, v, p);
    MagnitudeOrder(u * p, v * p);
  }

  lemma NegativeHalfValue(b: Half, u: nat)
    requires 0x8000 <= b < 0xfc00 && u == HalfUnits(b)
    ensures HalfValue(b) == Fin(-Magnitude(u * Pow2(125)))
  {
    NegativeUnits(b);
    NegativeValue(b, u, Pow2(125));
  }

  /** Among finite negative halves larger bits are smaller values. */
  lemma NegativesFall(a: Half, b: Half)
    requires 0x8000 <= a < b < 0xfc00
    ensures !Gt(HalfValue(b), HalfValue(a))
  {
    NegativeUnitsGrow(a, b);
    NegativeHalfValue(a, HalfUnits(a));
    NegativeHalfValue(b, HalfUnits(b));
    NegatedOrder(HalfUnits(a), HalfUnits(b), Pow2(125), HalfValue(a), HalfValue(b));
  }

  lemma FiniteBelow(b: Half)
    requires b < 0x7c00
    ensures HalfExp(b) != 0x1f && !HalfNegative(b)
  {
  }

  lemma WithoutSign(b: Half)
    ensures b % 0x8000 == 0x400 * HalfExp(b) + HalfMant(b)
  {
  }

  lemma HalfFields(b: Half)
    ensures HalfExp(b) == 0x1f <==> b % 0x8000 >= 0x7c00
    ensures HalfExp(b) == 0x1f && HalfMant(b) != 0 <==> b % 0x8000 > 0x7c00
  {
    WithoutSign(b);
  }

  lemma SpecialValue(b: Half)
    requires HalfExp(b) == 0x1f
    ensures HalfValue(b) == if HalfMant(b) != 0 then NaN else if HalfNegative(b) then NegInf else Inf
  {
    ConversionExact(b);
  }

  /** Of what kind the value of a half is, by its bits without the sign. */
  predicate Classed(b: Half, v: F32) {
    var m := b % 0x8000;
    if m > 0x7c00 then v.NaN?
    else if m == 0x7c00 then v == if b >= 0x8000 then NegInf else Inf
    else v.Fin? && if b >= 0x8000 then v.v <= 0.0 else v.v >= 0.0
  }

  lemma HalfClass(b: Half)
    ensures Classed(b, HalfValue(b))
  {
    HalfFields(b);
    if HalfExp(b) == 0x1f { SpecialValue(b); } else { MagnitudeValue(b); }
  }

  lemma ClassesApart(a: Half, b: Half, x: F32, y: F32)
    requires Classed(a, x) && Classed(b, y) && a < b && b > 0x7c00 && !(0x8000 <= a && b < 0xfc00)
    ensures !Gt(y, x)
  {
  }

  /** No half with bits above those of infinity has a greater value than a half with smaller bits. */
  lemma BeyondNeverGreater(a: Half, b: Half)
    requires a < b && b > 0x7c00
    ensures !Gt(HalfValue(b), HalfValue(a))
  {
    if 0x8000 <= a && b < 0xfc00 {
      NegativesFall(a, b);
    } else {
      HalfClass(a);
      HalfClass(b);
      ClassesApart(a, b, HalfValue(a), HalfValue(b));
    }
  }

  /** For which halves bits can stand in for values: two halves compare alike either way round exactly
      if they are the same or both lie between zero and infinity. So negative halves break the order,
      and so do the NaNs that are not. */
  lemma BitsOrderIff(a: Half, b: Half)
    ensures
      (BitsGt(a, b) <==> Gt(HalfValue(a), HalfValue(b))) && (BitsGt(b, a) <==> Gt(HalfValue(b), HalfValue(a)))
      <==> a == b || (a <= 0x7c00 && b <= 0x7c00)
  {
    if a <= 0x7c00 && b <= 0x7c00 {
      HalfValueOrder(a, b);
      HalfValueOrder(b, a);
    } else if a < b {
      BeyondNeverGreater(a, b);
    } else if b < a {
      BeyondNeverGreater(b, a);
    }
  }

  ghost function HalfValues(bits: seq<Half>): (values: seq<F32>)
    ensures |values| == |bits| && forall i :: 0 <= i < |bits| ==> values[i] == HalfValue(bits[i])
  {
    seq(|bits|, (i: nat) requires i < |bits| => HalfValue(bits[i]))
  }

  /** `ctc_decode_f16` */
  method DecodeHalf(bits: seq<Half>, steps: nat, classes: nat, dict: seq<string>) returns (text: string, score: F32)
    ensures (text, score) == Expected(Peaks(bits, steps, classes, BitsGt, HalfValue), dict)
    ensures (forall i :: 0 <= i < |bits| ==> bits[i] <= 0x7c00) ==>
              (text, score) == Expected(Peaks(HalfValues(bits), steps, classes, Gt, v => v), dict)
  {
    text, score := Decode(bits, steps, classes, dict, BitsGt, HalfValue);
    if forall i :: 0 <= i < |bits| ==> bits[i] <= 0x7c00 {
      HalfDecodesLikeSingle(bits, HalfValues(bits), steps, classes, dict);
    }
  }
}
