/**
 * The noise-row filter of fileHandler.py: a row is dropped when one of its
 * cells contains the whole word "товар" or "кол-во" in any letter case,
 * unless the row stood at position 7, 8 or 9 before filtering.
 */
module Noise {
  import opened Cells

  /** Lower case as the case-insensitive match compares letters: ASCII and the Russian alphabet. */
  function Fold(c: char): char
  {
    if 'A' <= c <= 'Z' || '\U{410}' <= c <= '\U{42F}' then (c as int + 32) as char
    else if c == '\U{401}' then '\U{451}'
    else c
  }

  /** A character of `\w`: letters, digits and '_', ASCII and Cyrillic. */
  predicate IsWordChar(c: char)
  {
    'a' <= c <= 'z' || 'A' <= c <= 'Z' || '0' <= c <= '9' || c == '_'
    || '\U{400}' <= c <= '\U{481}' || '\U{48A}' <= c <= '\U{52F}'
  }

  const Goods: string := "товар"
  const Quantity: string := "кол-во"

  /** `w` (written in lower case) occurs at position `i` of `s`, ignoring case. */
  predicate MatchesAt(s: string, i: nat, w: string)
  {
    i + |w| <= |s| && forall k :: 0 <= k < |w| ==> Fold(s[i + k]) == w[k]
  }

  /** `\b w \b` at position `i`: the match is neither preceded nor followed by a word character. */
  predicate WholeWordAt(s: string, i: nat, w: string)
  {
    MatchesAt(s, i, w) && (i == 0 || !IsWordChar(s[i - 1])) && (i + |w| == |s| || !IsWordChar(s[i + |w|]))
  }

  /**
   * The search for "товар" or "кол-во" as a whole word in any case
   * (fileHandler.py:57). A text made only of word characters matches
   * exactly when it is "товар" itself, in some letter case: "кол-во" holds
   * a '-', and a longer word has no boundary around the match.
   */
  predicate HasNoiseWord(s: string)
    ensures (forall k :: 0 <= k < |s| ==> IsWordChar(s[k])) ==> (HasNoiseWord(s) <==> FoldAll(s) == Goods)
  {
    WordTextMatch(s);
    exists i: nat :: i <= |s| && (WholeWordAt(s, i, Goods) || WholeWordAt(s, i, Quantity))
  }

  /** Only the uncased '-' folds to '-'. */
  lemma FoldHyphen(c: char)
    ensures Fold(c) == '-' ==> c == '-'
  {
  }

  /** In a text of word characters a whole-word match spans the text and cannot contain '-'. */
  lemma WordTextMatch(s: string)
    ensures (forall k :: 0 <= k < |s| ==> IsWordChar(s[k])) ==>
              ((exists i: nat :: i <= |s| && (WholeWordAt(s, i, Goods) || WholeWordAt(s, i, Quantity))) <==> FoldAll(s) == Goods)
  {
    if forall k :: 0 <= k < |s| ==> IsWordChar(s[k]) {
      if FoldAll(s) == Goods {
        assert WholeWordAt(s, 0, Goods);
      }
      forall i: nat | i <= |s| ensures !WholeWordAt(s, i, Quantity) {
        if i + |Quantity| <= |s| {
          FoldHyphen(s[i + 3]);
          assert Fold(s[i + 3]) != Quantity[3];
        }
      }
      forall i: nat | i <= |s| && WholeWordAt(s, i, Goods) ensures FoldAll(s) == Goods {
        assert i == 0 && |s| == |Goods|;
        assert forall k :: 0 <= k < |s| ==> FoldAll(s)[k] == Goods[k];
      }
    }
  }

  function FoldAll(s: string): (r: string)
    ensures |r| == |s|
  {
    seq(|s|, k requires 0 <= k < |s| => Fold(s[k]))
  }

  lemma FoldKeepsClass(c: char)
    ensures Fold(Fold(c)) == Fold(c)
    ensures IsWordChar(Fold(c)) == IsWordChar(c)
  {
  }

  lemma WholeWordIgnoresCase(s: string, i: nat, w: string)
    ensures WholeWordAt(s, i, w) <==> WholeWordAt(FoldAll(s), i, w)
  {
    var t := FoldAll(s);
    forall k | 0 <= k < |s| ensures Fold(t[k]) == Fold(s[k]) && IsWordChar(t[k]) == IsWordChar(s[k]) {
      FoldKeepsClass(s[k]);
    }
  }

  /** The match ignores letter case: lower-casing the text does not change the verdict. */
  lemma NoiseWordIgnoresCase(s: string)
    ensures HasNoiseWord(s) <==> HasNoiseWord(FoldAll(s))
  {
    var t := FoldAll(s);
    forall i: nat | i <= |s|
      ensures WholeWordAt(s, i, Goods) <==> WholeWordAt(t, i, Goods)
      ensures WholeWordAt(s, i, Quantity) <==> WholeWordAt(t, i, Quantity)
    {
      WholeWordIgnoresCase(s, i, Goods);
      WholeWordIgnoresCase(s, i, Quantity);
    }
  }

  /** The words are found in any case and only as whole words. */
  lemma NoiseWordExamples()
    ensures HasNoiseWord("Товар")
    ensures HasNoiseWord("Кол-во, шт")
    ensures !HasNoiseWord("Товары")
  {
    assert WholeWordAt("Товар", 0, Goods);
    assert WholeWordAt("Кол-во, шт", 0, Quantity);
    var s := "Товары";
    forall i: nat | i <= |s| ensures !WholeWordAt(s, i, Goods) && !WholeWordAt(s, i, Quantity) {
      if i == 0 {
        assert IsWordChar(s[5]);
        assert Fold(s[0]) != Quantity[0];
      } else if i == 1 {
        assert Fold(s[1]) != Goods[0];
      }
    }
  }

  /**
   * Some cell of the row contains a noise word. The filter looks at the
   * cells as read, before number conversion: text, or NaN, whose text
   * "nan" contains neither word.
   */
  predicate IsNoiseRow(row: Row)
    ensures (forall j :: 0 <= j < |row| ==> !row[j].Text?) ==> !IsNoiseRow(row)
  {
    exists j :: 0 <= j < |row| && row[j].Text? && HasNoiseWord(row[j].text)
  }

  /** The positions, counted before filtering, whose rows are never dropped. */
  predicate IsProtected(i: nat)
  {
    i == 7 || i == 8 || i == 9
  }

  /** `mask_to_drop`: the row at position `i` is noise and not protected. */
  predicate IsDropped(row: Row, i: nat)
  {
    IsNoiseRow(row) && !IsProtected(i)
  }

  /**
   * The sheet without its dropped rows, renumbered from 0
   * (fileHandler.py:66). It keeps only rows of the sheet, and a sheet with
   * nothing to drop comes back whole.
   */
  function Filter(rows: seq<Row>): (r: seq<Row>)
    ensures |r| <= |rows|
    ensures forall k :: 0 <= k < |r| ==> r[k] in rows
    ensures (forall i :: 0 <= i < |rows| ==> !IsDropped(rows[i], i)) ==> r == rows
  {
    if rows == [] then []
    else
      var i := |rows| - 1;
      assert rows[..i] + [rows[i]] == rows;
      Filter(rows[..i]) + (if IsDropped(rows[i], i) then [] else [rows[i]])
  }

  /** The original positions of the rows that `Filter` keeps, in order. */
  function KeptIndices(rows: seq<Row>): seq<nat>
  {
    if rows == [] then []
    else
      var i := |rows| - 1;
      KeptIndices(rows[..i]) + (if IsDropped(rows[i], i) then [] else [i])
  }

  /** The k-th kept row is the row at the k-th kept position. */
  lemma {:induction false} FilterAtKeptIndices(rows: seq<Row>)
    ensures |Filter(rows)| == |KeptIndices(rows)|
    ensures forall k :: 0 <= k < |KeptIndices(rows)| ==>
              KeptIndices(rows)[k] < |rows| && Filter(rows)[k] == rows[KeptIndices(rows)[k]]
  {
    if rows != [] {
      var i := |rows| - 1;
      var prefix := rows[..i];
      FilterAtKeptIndices(prefix);
      var ks, fs := KeptIndices(prefix), Filter(prefix);
      assert forall k :: 0 <= k < |ks| ==> ks[k] < i && fs[k] == prefix[ks[k]] == rows[ks[k]];
    }
  }

  /** Kept positions increase, and a position is kept if and only if its row is not dropped. */
  lemma {:induction false} KeptIndicesExact(rows: seq<Row>)
    ensures forall k :: 0 <= k < |KeptIndices(rows)| ==> KeptIndices(rows)[k] < |rows|
    ensures forall k, l :: 0 <= k < l < |KeptIndices(rows)| ==> KeptIndices(rows)[k] < KeptIndices(rows)[l]
    ensures forall i :: 0 <= i < |rows| ==> (i in KeptIndices(rows) <==> !IsDropped(rows[i], i))
  {
    if rows != [] {
      var i := |rows| - 1;
      var prefix := rows[..i];
      KeptIndicesExact(prefix);
      assert forall j :: 0 <= j < i ==> prefix[j] == rows[j];
    }
  }

  /** Rows 7, 8 and 9 are never dropped, whatever they contain. */
  lemma ProtectedRowsSurvive(rows: seq<Row>, i: nat)
    requires i < |rows| && IsProtected(i)
    ensures rows[i] in Filter(rows)
  {
    FilterAtKeptIndices(rows);
    KeptIndicesExact(rows);
    var ks := KeptIndices(rows);
    assert i in ks;
    var k :| 0 <= k < |ks| && ks[k] == i;
    assert Filter(rows)[k] == rows[i];
  }

  /** Filtering a longer sheet extends the filtered shorter one. */
  lemma {:induction false} FilterPrefix(rows: seq<Row>, n: nat)
    requires n <= |rows|
    ensures Filter(rows[..n]) <= Filter(rows)
  {
    if n < |rows| {
      var i := |rows| - 1;
      assert rows[..i][..n] == rows[..n];
      FilterPrefix(rows[..i], n);
      assert Filter(rows) == Filter(rows[..i]) + (if IsDropped(rows[i], i) then [] else [rows[i]]);
    } else {
      assert rows[..n] == rows;
    }
  }

  /** When none of rows 0..6 is noise, no row up to 7 moves: row 7 stays at position 7. */
  lemma {:induction false} FilterKeepsHead(rows: seq<Row>, n: nat)
    requires n <= |rows| && n <= 10
    requires forall i :: 0 <= i < n && i < 7 ==> !IsNoiseRow(rows[i])
    ensures Filter(rows[..n]) == rows[..n]
  {
    if n > 0 {
      var i := n - 1;
      assert rows[..n][..i] == rows[..i];
      FilterKeepsHead(rows, i);
      assert rows[..n] == rows[..i] + [rows[i]];
    }
  }

  /**
   * The label row is written at position 7 after filtering; it is the
   * sheet's own row 7 when none of rows 0..6 is noise.
   */
  lemma LabelRowKeepsPlace(rows: seq<Row>)
    requires |rows| > 7
    requires forall i :: 0 <= i < 7 ==> !IsNoiseRow(rows[i])
    ensures |Filter(rows)| > 7 && Filter(rows)[7] == rows[7]
  {
    FilterKeepsHead(rows, 8);
    FilterPrefix(rows, 8);
  }
}
