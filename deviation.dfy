/**
 * The per-row deviation classifier of fileHandler.py: for a row whose first
 * cell is a number it writes the threshold X, the surplus and shortage
 * verdicts V and W, the smallest exceedance Y and the money estimates Z and
 * AA into columns 21..26, reading only columns 0..20.
 */
module Deviation {
  import opened Wrappers
  import opened Cells

  /** The allowed deviation, 3.5% of the turnover, hard-coded in the script. */
  const Fraction: real := 0.035
  /** `EPS = 1e-9`: the tolerance under which a quantity counts as zero. */
  const Eps: real := 0.000000001

  // Column positions, counted from 0 (the script's `*_IDX` constants).
  const ColA: nat := 0
  const ColF: nat := 5
  const ColG: nat := 6
  const ColH: nat := 7
  const ColI: nat := 8
  const ColJ: nat := 9
  const ColK: nat := 10
  const ColL: nat := 11
  const ColM: nat := 12
  const ColN: nat := 13
  const ColO: nat := 14
  const ColP: nat := 15
  const ColR: nat := 17
  const ColT: nat := 19
  const ColU: nat := 20
  const ColV: nat := 21
  const ColW: nat := 22
  const ColX: nat := 23
  const ColY: nat := 24
  const ColZ: nat := 25
  const ColAA: nat := 26
  /** Columns a sheet needs so that AA exists. */
  const Width: nat := 27

  const SurplusAtZeroTurnover: string := "Излишек при нулевом обороте"
  const ShortageAtZeroTurnover: string := "Недостача при нулевом обороте"
  const OverNorm: string := "Превышение 3,5% от оборота"
  const Norm: string := "Норма"

  function Abs(x: real): (r: real)
    ensures r >= 0.0 && (r == x || r == -x)
  {
    if x < 0.0 then -x else x
  }

  /** The cell in column `k`; a column the sheet does not have reads as missing. */
  function Get(row: Row, k: nat): Cell
  {
    if k < |row| then row[k] else Empty
  }

  /** The turnover of a row: the sum of the absolute values in J, L and N (fileHandler.py:137). */
  function Turnover(row: Row): (r: real)
    ensures r >= 0.0
  {
    Abs(Nzf(Get(row, ColJ))) + Abs(Nzf(Get(row, ColL))) + Abs(Nzf(Get(row, ColN)))
  }

  /** X, the allowed deviation: 3.5% of the turnover. */
  function Threshold(turnover: real): real
  {
    Fraction * turnover
  }

  datatype Verdict = AtZeroTurnover | OverThreshold | WithinNorm

  /**
   * The rule shared by V (on P) and W (on R). A deviation at zero turnover
   * always exceeds the threshold too, so the norm verdict is given exactly
   * when the deviation stays within the threshold.
   */
  function Classify(turnover: real, v: real): (r: Verdict)
    ensures r == WithinNorm <==> Abs(v) <= Threshold(turnover)
    ensures r == AtZeroTurnover <==> turnover <= Eps && Abs(v) > Eps
    ensures r == OverThreshold <==> Abs(v) > Threshold(turnover) && !(turnover <= Eps && Abs(v) > Eps)
  {
    if turnover <= Eps && Abs(v) > Eps then AtZeroTurnover
    else if Abs(v) > Threshold(turnover) then OverThreshold
    else WithinNorm
  }

  /** The text written to V. */
  function SurplusText(v: Verdict): string
  {
    match v
    case AtZeroTurnover => SurplusAtZeroTurnover
    case OverThreshold => OverNorm
    case WithinNorm => Norm
  }

  /** The text written to W. */
  function ShortageText(v: Verdict): string
  {
    match v
    case AtZeroTurnover => ShortageAtZeroTurnover
    case OverThreshold => OverNorm
    case WithinNorm => Norm
  }

  /** The verdict can be read back from the text in V or W, and the two zero-turnover texts differ. */
  lemma VerdictTextsDistinct(a: Verdict, b: Verdict)
    ensures SurplusText(a) == SurplusText(b) ==> a == b
    ensures ShortageText(a) == ShortageText(b) ==> a == b
    ensures SurplusText(a) != ShortageText(AtZeroTurnover)
    ensures ShortageText(a) != SurplusText(AtZeroTurnover)
  {
    assert SurplusAtZeroTurnover[0] != ShortageAtZeroTurnover[0];
    assert SurplusAtZeroTurnover[0] != OverNorm[0] && SurplusAtZeroTurnover[0] != Norm[0];
    assert ShortageAtZeroTurnover[0] != OverNorm[0] && ShortageAtZeroTurnover[1] != Norm[1];
    assert OverNorm[1] != Norm[1];
  }

  /**
   * Y: the smaller of the excesses `|p| - x` and `|r| - x` over the sides
   * that exceed `x` (a side that does not exceed counts as infinity), or
   * "Норма" when neither side exceeds.
   */
  function MinExceedance(p: real, r: real, x: real): (c: Cell)
    ensures c.Num? <==> Abs(p) > x || Abs(r) > x
    ensures !c.Num? ==> c == Text(Norm)
    ensures c.Num? ==> c.value > 0.0
    ensures c.Num? ==> (Abs(p) > x && c.value == Abs(p) - x) || (Abs(r) > x && c.value == Abs(r) - x)
    ensures c.Num? ==> (Abs(p) > x ==> c.value <= Abs(p) - x) && (Abs(r) > x ==> c.value <= Abs(r) - x)
  {
    var condP := Abs(p) > x;
    var condR := Abs(r) > x;
    if condP || condR then
      var dP := Abs(p) - x;
      var dR := Abs(r) - x;
      Num(if !condR || (condP && dP <= dR) then dP else dR)
    else
      Text(Norm)
  }

  /** A (denominator, numerator) column pair of the ratio chain; `signed` keeps the numerator's sign. */
  datatype Pair = Pair(den: nat, num: nat, signed: bool)

  /** The chain's order: T/U, F/G, H/I, J/K, L/M, N/O. */
  const Pairs: seq<Pair> := [Pair(ColT, ColU, false), Pair(ColF, ColG, true), Pair(ColH, ColI, false),
                             Pair(ColJ, ColK, false), Pair(ColL, ColM, false), Pair(ColN, ColO, false)]

  /** A pair can give the ratio when its denominator is not zero (beyond `Eps`) and its numerator is a number. */
  predicate ValidPair(row: Row, pr: Pair)
  {
    Abs(Nzf(Get(row, pr.den))) > Eps && IsNumber(Get(row, pr.num))
  }

  function PairRatio(row: Row, pr: Pair): real
    requires ValidPair(row, pr)
  {
    var d := Nzf(Get(row, pr.den));
    var n := Get(row, pr.num).value;
    if pr.signed then n / d else Abs(n) / Abs(d)
  }

  /** The reference for the chain: the ratio of the first valid pair, if any. */
  function FirstValid(row: Row, prs: seq<Pair>): Option<real>
    decreases |prs|
  {
    if prs == [] then None
    else if ValidPair(row, prs[0]) then Some(PairRatio(row, prs[0]))
    else FirstValid(row, prs[1..])
  }

  /** `FirstValid` is absent exactly when no pair is valid, and otherwise comes from a valid pair with none valid before it. */
  lemma {:induction false} FirstValidChoice(row: Row, prs: seq<Pair>)
    ensures FirstValid(row, prs).None? <==> forall k :: 0 <= k < |prs| ==> !ValidPair(row, prs[k])
    ensures FirstValid(row, prs).Some? ==>
              exists k :: 0 <= k < |prs| && ValidPair(row, prs[k]) && FirstValid(row, prs).value == PairRatio(row, prs[k])
                          && forall l :: 0 <= l < k ==> !ValidPair(row, prs[l])
    decreases |prs|
  {
    if prs != [] && !ValidPair(row, prs[0]) {
      var rest := prs[1..];
      FirstValidChoice(row, rest);
      assert forall k :: 1 <= k < |prs| ==> prs[k] == rest[k - 1];
      var q := FirstValid(row, prs);
      if q.Some? {
        var k :| 0 <= k < |rest| && ValidPair(row, rest[k]) && q.value == PairRatio(row, rest[k])
                 && forall l :: 0 <= l < k ==> !ValidPair(row, rest[l]);
        assert prs[k + 1] == rest[k];
        assert forall l :: 0 <= l < k + 1 ==> !ValidPair(row, prs[l]);
      }
    }
  }

  /**
   * The tiered ratio, as the script's if/elif chain (written out twice in
   * the script, once for Z and once for AA, identically).
   */
  function Ratio(row: Row): (r: Option<real>)
    ensures r.Some? ==> exists k :: 0 <= k < |Pairs| && ValidPair(row, Pairs[k]) && r.value == PairRatio(row, Pairs[k])
  {
    var t := Nzf(Get(row, ColT));
    var u := Get(row, ColU);
    var f := Nzf(Get(row, ColF));
    var g := Get(row, ColG);
    var h := Nzf(Get(row, ColH));
    var i := Get(row, ColI);
    var j := Nzf(Get(row, ColJ));
    var k := Get(row, ColK);
    var l := Nzf(Get(row, ColL));
    var m := Get(row, ColM);
    var n := Nzf(Get(row, ColN));
    var o := Get(row, ColO);
    if Abs(t) > Eps && IsNumber(u) then
      assert ValidPair(row, Pairs[0]);
      Some(Abs(u.value) / Abs(t))
    else if Abs(f) > Eps && IsNumber(g) then
      assert ValidPair(row, Pairs[1]);
      Some(g.value / f)
    else if Abs(h) > Eps && IsNumber(i) then
      assert ValidPair(row, Pairs[2]);
      Some(Abs(i.value) / Abs(h))
    else if Abs(j) > Eps && IsNumber(k) then
      assert ValidPair(row, Pairs[3]);
      Some(Abs(k.value) / Abs(j))
    else if Abs(l) > Eps && IsNumber(m) then
      assert ValidPair(row, Pairs[4]);
      Some(Abs(m.value) / Abs(l))
    else if Abs(n) > Eps && IsNumber(o) then
      assert ValidPair(row, Pairs[5]);
      Some(Abs(o.value) / Abs(n))
    else None
  }

  /** The chain computes the ratio of the first valid pair in the fixed order. */
  lemma RatioIsFirstValid(row: Row)
    ensures Ratio(row) == FirstValid(row, Pairs)
  {
    var ps := Pairs;
    assert ps[6..] == [];
    assert ps[5..][1..] == ps[6..];
    assert ps[4..][1..] == ps[5..];
    assert ps[3..][1..] == ps[4..];
    assert ps[2..][1..] == ps[3..];
    assert ps[1..][1..] == ps[2..];
    assert FirstValid(row, ps[5..]) == if ValidPair(row, ps[5]) then Some(PairRatio(row, ps[5])) else None;
    assert FirstValid(row, ps[4..]) == if ValidPair(row, ps[4]) then Some(PairRatio(row, ps[4])) else FirstValid(row, ps[5..]);
    assert FirstValid(row, ps[3..]) == if ValidPair(row, ps[3]) then Some(PairRatio(row, ps[3])) else FirstValid(row, ps[4..]);
    assert FirstValid(row, ps[2..]) == if ValidPair(row, ps[2]) then Some(PairRatio(row, ps[2])) else FirstValid(row, ps[3..]);
    assert FirstValid(row, ps[1..]) == if ValidPair(row, ps[1]) then Some(PairRatio(row, ps[1])) else FirstValid(row, ps[2..]);
  }

  /** A pair without `signed` gives |num| / |den|, which is never negative. */
  lemma UnsignedRatioNonNegative(row: Row, pr: Pair)
    requires ValidPair(row, pr) && !pr.signed
    ensures PairRatio(row, pr) >= 0.0
  {
    var d := Abs(Nzf(Get(row, pr.den)));
    var n := Abs(Get(row, pr.num).value);
    assert d > 0.0 && n >= 0.0;
    assert PairRatio(row, pr) == n / d;
  }

  /** Only the F/G pair keeps a sign: a negative ratio comes from G/F with no valid T/U pair before it. */
  lemma RatioSign(row: Row)
    ensures Ratio(row).Some? && Ratio(row).value < 0.0 ==> !ValidPair(row, Pairs[0]) && ValidPair(row, Pairs[1])
  {
    RatioIsFirstValid(row);
    FirstValidChoice(row, Pairs);
    var q := Ratio(row);
    if q.Some? && q.value < 0.0 {
      var k :| 0 <= k < |Pairs| && ValidPair(row, Pairs[k]) && q.value == PairRatio(row, Pairs[k])
               && forall l :: 0 <= l < k ==> !ValidPair(row, Pairs[l]);
      if k != 1 {
        UnsignedRatioNonNegative(row, Pairs[k]);
        assert false;
      }
    }
  }

  /** No pair valid: the ratio is absent. */
  lemma RatioAbsent(row: Row)
    ensures Ratio(row).None? <==> forall k :: 0 <= k < |Pairs| ==> !ValidPair(row, Pairs[k])
  {
    RatioIsFirstValid(row);
    FirstValidChoice(row, Pairs);
  }

  /**
   * Z (on P) and AA (on R): `(|v| - x) * ratio` when the side exceeds the
   * threshold and some pair is valid, otherwise the empty text, never 0.
   */
  function Estimate(v: real, x: real, ratio: Option<real>): (c: Cell)
    ensures c.Num? <==> Abs(v) > x && ratio.Some?
    ensures !c.Num? ==> c == Text("")
    ensures c.Num? ==> c.value == (Abs(v) - x) * ratio.value
  {
    if Abs(v) > x && ratio.Some? then Num((Abs(v) - x) * ratio.value) else Text("")
  }

  /** An estimate has the sign of its ratio, since the excess is positive. */
  lemma EstimateSign(v: real, x: real, ratio: Option<real>)
    ensures Estimate(v, x, ratio).Num? && ratio.value >= 0.0 ==> Estimate(v, x, ratio).value >= 0.0
    ensures Estimate(v, x, ratio).Num? && ratio.value < 0.0 ==> Estimate(v, x, ratio).value < 0.0
  {
    var c := Estimate(v, x, ratio);
    if c.Num? {
      var e := Abs(v) - x;
      assert e > 0.0;
      if ratio.value >= 0.0 {
        assert e * ratio.value >= 0.0;
      } else {
        assert e * ratio.value < 0.0;
      }
    }
  }

  /** The six cells the classifier writes, from the cells it reads. */
  function AnnotateRow(row: Row): (r: Row)
    requires |row| >= Width
    ensures |r| == |row|
    ensures forall k :: 0 <= k < |row| && (k < ColV || ColAA < k) ==> r[k] == row[k]
    ensures r[ColX] == Num(Threshold(Turnover(row))) && r[ColX].value >= 0.0
  {
    var turnover := Turnover(row);
    var x := Threshold(turnover);
    var p := Nzf(Get(row, ColP));
    var rr := Nzf(Get(row, ColR));
    var ratio := Ratio(row);
    row[ColX := Num(x)]
       [ColV := Text(SurplusText(Classify(turnover, p)))]
       [ColW := Text(ShortageText(Classify(turnover, rr)))]
       [ColY := MinExceedance(p, rr, x)]
       [ColZ := Estimate(p, x, ratio)]
       [ColAA := Estimate(rr, x, ratio)]
  }

  /**
   * The written columns agree with each other: V (W) says "Норма" exactly
   * when |P| (|R|) stays within X, Y is a number exactly when V or W is not
   * "Норма", and Z (AA) is a number exactly when V (W) is not "Норма" and
   * some pair of the chain is valid.
   */
  lemma {:induction false} AnnotationConsistent(row: Row)
    requires |row| >= Width
    ensures var r := AnnotateRow(row);
      && (r[ColV] == Text(Norm) <==> Abs(Nzf(row[ColP])) <= r[ColX].value)
      && (r[ColW] == Text(Norm) <==> Abs(Nzf(row[ColR])) <= r[ColX].value)
      && (r[ColY].Num? <==> r[ColV] != Text(Norm) || r[ColW] != Text(Norm))
      && (r[ColZ].Num? <==> r[ColV] != Text(Norm) && exists k :: 0 <= k < |Pairs| && ValidPair(row, Pairs[k]))
      && (r[ColAA].Num? <==> r[ColW] != Text(Norm) && exists k :: 0 <= k < |Pairs| && ValidPair(row, Pairs[k]))
  {
    var turnover := Turnover(row);
    var p := Nzf(Get(row, ColP));
    var rr := Nzf(Get(row, ColR));
    VerdictTextsDistinct(Classify(turnover, p), WithinNorm);
    VerdictTextsDistinct(Classify(turnover, rr), WithinNorm);
    RatioAbsent(row);
  }

  /** The classifier reads only columns 0..20: rows that agree there get the same six cells. */
  lemma AnnotationReadsInputsOnly(a: Row, b: Row)
    requires |a| >= Width && |b| >= Width
    requires a[..ColV] == b[..ColV]
    ensures AnnotateRow(a)[ColV..Width] == AnnotateRow(b)[ColV..Width]
  {
    forall k | 0 <= k < ColV ensures a[k] == b[k] {
      assert a[k] == a[..ColV][k];
    }
    assert Turnover(a) == Turnover(b);
    assert Ratio(a) == Ratio(b);
  }

  /** Classifying a row twice writes the same cells as classifying it once. */
  lemma AnnotateRowIdempotent(row: Row)
    requires |row| >= Width
    ensures AnnotateRow(AnnotateRow(row)) == AnnotateRow(row)
  {
    var once := AnnotateRow(row);
    assert once[..ColV] == row[..ColV];
    AnnotationReadsInputsOnly(once, row);
    var twice := AnnotateRow(once);
    forall k | 0 <= k < |row| ensures twice[k] == once[k] {
      if ColV <= k < Width {
        assert twice[k] == twice[ColV..Width][k - ColV];
        assert once[k] == once[ColV..Width][k - ColV];
      }
    }
  }

  /**
   * The rows the loop classifies: not the label row 7, and with a number in
   * the first column. A row without a first column reads as None there, so
   * it is never classified.
   */
  predicate Eligible(rows: seq<Row>, i: nat)
    requires i < |rows|
    ensures Eligible(rows, i) ==> i != 7 && |rows[i]| > ColA && rows[i][ColA].Num?
  {
    i != 7 && IsNumber(Get(rows[i], ColA))
  }

  /** The whole loop: eligible rows are classified, every other row is left as it was. */
  function AnnotateAll(rows: seq<Row>): (r: seq<Row>)
    requires forall i :: 0 <= i < |rows| ==> |rows[i]| >= Width
    ensures |r| == |rows|
    ensures forall i :: 0 <= i < |rows| && !Eligible(rows, i) ==> r[i] == rows[i]
    ensures forall i :: 0 <= i < |rows| && Eligible(rows, i) ==> r[i] == AnnotateRow(rows[i])
  {
    seq(|rows|, i requires 0 <= i < |rows| => if Eligible(rows, i) then AnnotateRow(rows[i]) else rows[i])
  }

  /** Running the loop a second time changes nothing. */
  lemma AnnotateAllIdempotent(rows: seq<Row>)
    requires forall i :: 0 <= i < |rows| ==> |rows[i]| >= Width
    ensures AnnotateAll(AnnotateAll(rows)) == AnnotateAll(rows)
  {
    var once := AnnotateAll(rows);
    forall i | 0 <= i < |rows| ensures AnnotateAll(once)[i] == once[i] {
      if Eligible(rows, i) {
        AnnotateRowIdempotent(rows[i]);
        assert once[i][ColA] == rows[i][ColA];
      }
    }
  }

  /** Zero turnover with a surplus of 100, and a turnover of 1000 with a surplus of 40 against X = 35. */
  lemma ClassifyExamples()
    ensures SurplusText(Classify(0.0, 100.0)) == SurplusAtZeroTurnover
    ensures Threshold(1000.0) == 35.0 && SurplusText(Classify(1000.0, 40.0)) == OverNorm
    ensures MinExceedance(40.0, -43.0, 35.0) == Num(5.0)
  {
  }

  /** Only the fourth pair, J/K, is valid: its ratio |K|/|J| is used; with no valid pair Z is empty, not 0. */
  lemma RatioExamples()
    ensures Ratio(Blanks(Width)[ColJ := Num(2.0)][ColK := Num(-6.0)]) == Some(3.0)
    ensures Estimate(40.0, 35.0, Some(3.0)) == Num(15.0)
    ensures Ratio(Blanks(Width)) == None && Estimate(40.0, 35.0, Ratio(Blanks(Width))) == Text("")
  {
    var row := Blanks(Width)[ColJ := Num(2.0)][ColK := Num(-6.0)];
    assert Get(row, ColT) == Empty && Get(row, ColF) == Empty && Get(row, ColH) == Empty;
    assert Get(row, ColJ) == Num(2.0) && Get(row, ColK) == Num(-6.0);
  }
}
