/**
 * The script body of fileHandler.py as steps on one grid: drop the noise
 * rows, convert every cell, pad to 27 columns, write the six labels into
 * row 7 and classify the rows. `Frame` holds the grid the script changes in
 * place; `Pipeline` is the same sequence of steps on values.
 */
module Sheet {
  import opened Wrappers
  import opened Cells
  import Numbers
  import Noise
  import opened Deviation

  /** The row, counted from 0 after the header and after filtering, that receives the labels. */
  const LabelRow: nat := 7

  /** `labels`: (row, column, text) for V..AA of the label row. */
  const Labels: seq<(nat, nat, string)> := [
    (7, 21, "Отклонение изишков"),
    (7, 22, "Отклонение недостач"),
    (7, 23, "Норма отклонения"),
    (7, 24, "Кол-во превышения нормы"),
    (7, 25, "Сумма превышения нормы излишков"),
    (7, 26, "Сумма превышения нормы недостач")
  ]

  /** Reading or writing row 7 of a grid that has at most 7 rows raises IndexError. */
  datatype Error = LabelRowMissing

  /** Every row has `w` cells. */
  predicate Rectangular(rows: seq<Row>, w: nat)
  {
    forall i :: 0 <= i < |rows| ==> |rows[i]| == w
  }

  /** Filtering keeps whole rows, so the grid stays rectangular. */
  lemma FilterRectangular(rows: seq<Row>, w: nat)
    requires Rectangular(rows, w)
    ensures Rectangular(Noise.Filter(rows), w)
  {
    Noise.FilterAtKeptIndices(rows);
  }

  /** Every cell of the grid converted by `to_number`; the grid keeps its shape. */
  function ConvertAll(rows: seq<Row>): (r: seq<Row>)
    ensures |r| == |rows|
    ensures forall i :: 0 <= i < |rows| ==> |r[i]| == |rows[i]|
  {
    seq(|rows|, i requires 0 <= i < |rows| => seq(|rows[i]|, k requires 0 <= k < |rows[i]| => Numbers.ToNumber(rows[i][k])))
  }

  /** Converting a second time changes nothing. */
  lemma ConvertAllIdempotent(rows: seq<Row>)
    ensures ConvertAll(ConvertAll(rows)) == ConvertAll(rows)
  {
    var once := ConvertAll(rows);
    forall i | 0 <= i < |rows| ensures ConvertAll(once)[i] == once[i] {
      forall k | 0 <= k < |rows[i]| ensures ConvertAll(once)[i][k] == once[i][k] {
        Numbers.ToNumberIdempotent(rows[i][k]);
      }
    }
  }

  /** Every row extended by `n` missing cells. */
  function Widen(rows: seq<Row>, n: nat): (r: seq<Row>)
    ensures |r| == |rows|
    ensures forall i :: 0 <= i < |rows| ==> r[i] == rows[i] + Blanks(n)
  {
    seq(|rows|, i requires 0 <= i < |rows| => rows[i] + Blanks(n))
  }

  /** The width after padding: at least 27, and an already wide grid keeps its width. */
  function PaddedWidth(w: nat): (r: nat)
    ensures r >= Width && r >= w && (w >= Width ==> r == w)
  {
    if w - 1 < ColAA then Width else w
  }

  /** The padded grid: a grid narrower than 27 columns gains missing cells on the right. */
  function PadAll(rows: seq<Row>, w: nat): (r: seq<Row>)
    requires Rectangular(rows, w)
    ensures Rectangular(r, PaddedWidth(w)) && |r| == |rows|
    ensures forall i, k :: 0 <= i < |rows| && 0 <= k < PaddedWidth(w) ==> r[i][k] == (if k < w then rows[i][k] else Empty)
  {
    Widen(rows, PaddedWidth(w) - w)
  }

  /** The text the labels put in column `c` of the label row, if any. */
  function LabelAt(c: nat): Option<string>
  {
    if ColV <= c <= ColAA then Some(Labels[c - ColV].2) else None
  }

  /** Row 7 with the six labels in columns 21..26 and its other cells as they were. */
  function WithLabels(rows: seq<Row>): (r: seq<Row>)
    requires |rows| > LabelRow && |rows[LabelRow]| >= Width
    ensures |r| == |rows| && |r[LabelRow]| == |rows[LabelRow]|
    ensures forall i :: 0 <= i < |rows| && i != LabelRow ==> r[i] == rows[i]
    ensures forall c :: 0 <= c < |rows[LabelRow]| ==>
              r[LabelRow][c] == (if LabelAt(c).Some? then Text(LabelAt(c).value) else rows[LabelRow][c])
  {
    var row := rows[LabelRow];
    rows[LabelRow := seq(|row|, c requires 0 <= c < |row| => if LabelAt(c).Some? then Text(LabelAt(c).value) else row[c])]
  }

  /** The label row with the first `n` labels written. */
  function LabelsUpTo(row: Row, n: nat): (r: Row)
    ensures |r| == |row|
  {
    seq(|row|, c requires 0 <= c < |row| => if ColV <= c < ColV + n && c <= ColAA then Text(Labels[c - ColV].2) else row[c])
  }

  /**
   * The script end to end, after reading: `Failure` when the filtered grid
   * has no row 7 to label, otherwise the classified grid.
   */
  function Pipeline(raw: seq<Row>, w: nat): (r: Result<seq<Row>, Error>)
    requires Rectangular(raw, w)
    ensures r.Failure? <==> |Noise.Filter(raw)| <= LabelRow
  {
    var padded := Prepared(raw, w);
    if |padded| <= LabelRow then Failure(LabelRowMissing)
    else Success(AnnotateAll(WithLabels(padded)))
  }

  /** The grid the classifier sees: filtered, converted and padded, before the labels. */
  function Prepared(raw: seq<Row>, w: nat): (r: seq<Row>)
    requires Rectangular(raw, w)
    ensures Rectangular(Noise.Filter(raw), w)
    ensures Rectangular(r, PaddedWidth(w)) && |r| == |Noise.Filter(raw)|
    ensures forall i, k :: 0 <= i < |r| && 0 <= k < PaddedWidth(w) ==>
              r[i][k] == (if k < w then Numbers.ToNumber(Noise.Filter(raw)[i][k]) else Empty)
  {
    FilterRectangular(raw, w);
    PadAll(ConvertAll(Noise.Filter(raw)), w)
  }

  /**
   * A finished grid keeps the surviving rows in order, is at least 27
   * columns wide, and holds the converted input (or a missing cell where a
   * column was added) everywhere outside columns 21..26.
   */
  lemma PipelineKeepsData(raw: seq<Row>, w: nat)
    requires Rectangular(raw, w)
    ensures Pipeline(raw, w).Success? ==>
      var out := Pipeline(raw, w).value;
      && |out| == |Noise.Filter(raw)|
      && Rectangular(out, PaddedWidth(w))
      && forall i, k :: 0 <= i < |out| && 0 <= k < PaddedWidth(w) && (k < ColV || ColAA < k) ==>
           out[i][k] == (if k < w then Numbers.ToNumber(Noise.Filter(raw)[i][k]) else Empty)
  {
    var pre := Prepared(raw, w);
    if |pre| > LabelRow {
      var labelled := WithLabels(pre);
      var out := AnnotateAll(labelled);
      assert Pipeline(raw, w) == Success(out);
      forall i, k | 0 <= i < |out| && 0 <= k < PaddedWidth(w) && (k < ColV || ColAA < k)
        ensures out[i][k] == pre[i][k]
      {
        assert labelled[i][k] == pre[i][k];
      }
    }
  }

  /** The label row of a finished grid holds the six labels in columns 21..26, in order. */
  lemma PipelineLabels(raw: seq<Row>, w: nat)
    requires Rectangular(raw, w)
    ensures Pipeline(raw, w).Success? ==>
      forall n :: 0 <= n < |Labels| ==> Pipeline(raw, w).value[LabelRow][ColV + n] == Text(Labels[n].2)
  {
    var pre := Prepared(raw, w);
    if |pre| > LabelRow {
      var labelled := WithLabels(pre);
      assert AnnotateAll(labelled)[LabelRow] == labelled[LabelRow];
      forall n | 0 <= n < |Labels| ensures labelled[LabelRow][ColV + n] == Text(Labels[n].2) {
        assert LabelAt(ColV + n) == Some(Labels[n].2);
      }
    }
  }

  /**
   * Every other row is classified exactly when its first cell converts to a
   * number, and is otherwise left as converted and padded.
   */
  lemma PipelineClassifies(raw: seq<Row>, w: nat)
    requires Rectangular(raw, w)
    ensures Pipeline(raw, w).Success? ==>
      var pre := Prepared(raw, w);
      forall i :: 0 <= i < |pre| && i != LabelRow ==>
        Pipeline(raw, w).value[i] == (if IsNumber(pre[i][ColA]) then AnnotateRow(pre[i]) else pre[i])
  {
    var pre := Prepared(raw, w);
    if |pre| > LabelRow {
      var labelled := WithLabels(pre);
      forall i | 0 <= i < |pre| && i != LabelRow
        ensures AnnotateAll(labelled)[i] == (if IsNumber(pre[i][ColA]) then AnnotateRow(pre[i]) else pre[i])
      {
        assert labelled[i] == pre[i];
        assert Get(labelled[i], ColA) == pre[i][ColA];
      }
    }
  }

  class Frame {
    /** The data rows below the header, in sheet order. */
    var rows: seq<Row>
    /** The number of columns. */
    var width: nat

    ghost predicate Valid()
      reads this
    {
      Rectangular(rows, width)
    }

    constructor (raw: seq<Row>, w: nat)
      requires Rectangular(raw, w)
      ensures Valid() && rows == raw && width == w
    {
      rows := raw;
      width := w;
    }

    /** Removes the noise rows that are not protected and renumbers the rest from 0. */
    method DropNoiseRows()
      requires Valid()
      modifies this
      ensures Valid() && width == old(width)
      ensures rows == Noise.Filter(old(rows))
    {
      FilterRectangular(rows, width);
      rows := Noise.Filter(rows);
    }

    /** Replaces every cell by its `to_number` conversion. */
    method ConvertCells()
      requires Valid()
      modifies this
      ensures Valid() && width == old(width)
      ensures rows == ConvertAll(old(rows))
    {
      rows := ConvertAll(rows);
    }

    /** One new column of missing values on the right. */
    method AddColumn()
      requires Valid()
      modifies this
      ensures Valid() && width == old(width) + 1
      ensures rows == Widen(old(rows), 1)
    {
      rows := Widen(rows, 1);
      width := width + 1;
    }

    /** Adds missing-valued columns one at a time until column AA exists. */
    method PadColumns()
      requires Valid()
      modifies this
      ensures Valid() && width == PaddedWidth(old(width))
      ensures rows == PadAll(old(rows), old(width))
    {
      if width - 1 < ColAA {
        var missing := Width - width;
        assert Widen(rows, 0) == rows by {
          forall i | 0 <= i < |rows| ensures rows[i] + Blanks(0) == rows[i] { }
        }
        for n := 0 to missing
          invariant Valid() && width == old(width) + n
          invariant rows == Widen(old(rows), n)
        {
          AddColumn();
          forall i | 0 <= i < |rows| ensures rows[i] == old(rows)[i] + Blanks(n + 1) {
            assert Blanks(n) + Blanks(1) == Blanks(n + 1);
          }
        }
      } else {
        assert Widen(rows, 0) == rows by {
          forall i | 0 <= i < |rows| ensures rows[i] + Blanks(0) == rows[i] { }
        }
      }
    }

    /**
     * `for r, c, val in labels: df.iat[r, c] = val`. The first write fails
     * when the grid has no row 7, and then nothing is written.
     */
    method WriteLabels() returns (ok: bool)
      requires Valid() && width >= Width
      modifies this
      ensures Valid() && width == old(width)
      ensures ok <==> |old(rows)| > LabelRow
      ensures ok ==> rows == WithLabels(old(rows))
      ensures !ok ==> rows == old(rows)
    {
      if |rows| <= LabelRow {
        return false;
      }
      ghost var row := rows[LabelRow];
      assert LabelsUpTo(row, 0) == row;
      for n := 0 to |Labels|
        invariant Valid() && width == old(width) && |rows| == |old(rows)|
        invariant rows == old(rows)[LabelRow := LabelsUpTo(row, n)]
      {
        var (r, c, text) := Labels[n];
        assert r == LabelRow && c == ColV + n && text == Labels[c - ColV].2;
        assert LabelsUpTo(row, n)[c := Text(text)] == LabelsUpTo(row, n + 1);
        rows := rows[r := rows[r][c := Text(text)]];
      }
      assert LabelsUpTo(row, |Labels|) == WithLabels(old(rows))[LabelRow];
      return true;
    }

    /** The body of `for i in range(df.shape[0])` for an eligible row `i`: the writes to X, V, W, Y, Z and AA. */
    method ClassifyRow(i: nat)
      requires Valid() && width >= Width && i < |rows|
      modifies this
      ensures Valid() && width == old(width)
      ensures rows == old(rows)[i := AnnotateRow(old(rows)[i])]
    {
      var src := rows[i];
      var j := Nzf(Get(src, ColJ));
      var l := Nzf(Get(src, ColL));
      var n := Nzf(Get(src, ColN));
      var p := Nzf(Get(src, ColP));
      var r := Nzf(Get(src, ColR));

      var turnover := Abs(j) + Abs(l) + Abs(n);
      var x := Fraction * turnover;
      assert turnover == Turnover(src) && x == Threshold(turnover);
      var row := src[ColX := Num(x)];

      var v: string;
      if turnover <= Eps && Abs(p) > Eps {
        v := SurplusAtZeroTurnover;
      } else if Abs(p) > x {
        v := OverNorm;
      } else {
        v := Norm;
      }
      assert v == SurplusText(Classify(turnover, p));
      row := row[ColV := Text(v)];

      var w: string;
      if turnover <= Eps && Abs(r) > Eps {
        w := ShortageAtZeroTurnover;
      } else if Abs(r) > x {
        w := OverNorm;
      } else {
        w := Norm;
      }
      assert w == ShortageText(Classify(turnover, r));
      row := row[ColW := Text(w)];

      var condP := Abs(p) > x;
      var condR := Abs(r) > x;
      var y: Cell;
      if condP || condR {
        // A side that does not exceed counts as infinity and never wins the minimum.
        if condP && (!condR || Abs(p) - x <= Abs(r) - x) {
          y := Num(Abs(p) - x);
        } else {
          y := Num(Abs(r) - x);
        }
      } else {
        y := Text(Norm);
      }
      assert y == MinExceedance(p, r, x);
      row := row[ColY := y];

      // The script runs the ratio chain inside each of the two branches below; it reads
      // only cells the row's writes do not touch, so both runs give this value.
      var ratio := Ratio(src);
      var z := EstimateCell(p, x, ratio);
      row := row[ColZ := z];

      var aa := EstimateCell(r, x, ratio);
      row := row[ColAA := aa];

      assert row == AnnotateRow(src);
      rows := rows[i := row];
    }

    /** The value written to Z (from P) or AA (from R): `""` unless the side exceeds and a ratio exists. */
    static method EstimateCell(v: real, x: real, ratio: Option<real>) returns (c: Cell)
      ensures c == Estimate(v, x, ratio)
    {
      c := Text("");
      if Abs(v) > x {
        if ratio.Some? {
          c := Num((Abs(v) - x) * ratio.value);
        }
      }
    }

    /** The classification loop over all rows; row 7 and rows whose first cell is not a number are skipped. */
    method ClassifyRows()
      requires Valid() && width >= Width
      modifies this
      ensures Valid() && width == old(width)
      ensures rows == AnnotateAll(old(rows))
    {
      for i := 0 to |rows|
        invariant Valid() && width == old(width) && |rows| == |old(rows)|
        invariant forall k :: 0 <= k < i ==> rows[k] == AnnotateAll(old(rows))[k]
        invariant forall k :: i <= k < |rows| ==> rows[k] == old(rows)[k]
      {
        if i != LabelRow {
          var first := if ColA < width then rows[i][ColA] else Empty;
          if IsNumber(first) {
            ClassifyRow(i);
          }
        }
      }
    }
  }

  /** The script's steps in order on one frame; it stops when the label row is missing. */
  method Run(raw: seq<Row>, w: nat) returns (r: Result<seq<Row>, Error>)
    requires Rectangular(raw, w)
    ensures r == Pipeline(raw, w)
  {
    var frame := new Frame(raw, w);
    frame.DropNoiseRows();
    frame.ConvertCells();
    frame.PadColumns();
    var ok := frame.WriteLabels();
    if !ok {
      return Failure(LabelRowMissing);
    }
    frame.ClassifyRows();
    return Success(frame.rows);
  }
}
