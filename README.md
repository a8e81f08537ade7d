# Deviation annotation of an inventory sheet, in Dafny

`fileHandler.py` reads an inventory sheet and marks every stock line whose surplus or shortage exceeds 3.5% of its turnover. This project models that script's computational core and proves properties of the model:

- **`to_number`** (`numbers.dfy`, with `text.dfy`). This is the locale number parser applied to every cell. It turns "2 335,99", "(1 234,50)" and "−7 710,11" into exact decimal values. Blank text and the words "nan"/"none"/"null" become a missing value. Any other text comes back unchanged. The parser is modelled step by step:
  - strip;
  - Unicode minus to `-`;
  - one enclosing pair of parentheses;
  - deletion of the thousands separators;
  - decimal comma to `.`;
  - the full match against `[+-]?\d+(\.\d+)?`.

  The main theorem, `ToNumberReadsLocale`, says that every number written the Russian way is read as its exact value. This covers any digit groups, any of the separator characters, an optional decimal comma, and an unsigned, `+`, `-`, `−` or parenthesised sign.
- **The noise filter** (`noise.dfy`). A row is dropped when one of its cells contains the whole word "товар" or "кол-во" in any letter case. The rows at positions 7, 8 and 9 before filtering are never dropped. The filter is a function on the row sequence. Its lemmas state:
  - exactly which rows are kept;
  - that the kept rows keep their order;
  - that protected rows survive.
- **The classifier** (`deviation.dfy`). For every row except row 7 whose first cell is a number, the script writes six cells:
  - X, the threshold 0.035·(|J|+|L|+|N|);
  - V and W, the surplus and shortage verdicts on P and R;
  - Y, the smaller exceedance;
  - Z and AA, the money estimates through the tiered ratio chain T/U, F/G, H/I, J/K, L/M, N/O.

  The chain is written out as the script's if/elif cascade (`Ratio`). It is proved equal to a reference definition, "the ratio of the first valid pair" (`FirstValid`).
- **The script body** (`sheet.dfy`). The `Frame` class holds the grid that the script changes in place, with one method per step:
  - drop the noise rows;
  - convert every cell;
  - pad to 27 columns, one column per loop iteration;
  - write the six labels into row 7;
  - run the classification loop.

  `Run` performs the steps in order. It is proved equal to the value-level `Pipeline`, and the lemmas about `Pipeline` state what the finished grid holds.

A cell is `Num(real)`, `Text(string)` or `Empty`. `Empty` stands for NaN, `None` and `pd.NA`, which the script treats alike. A grid is the sequence of data rows below the header row. pandas takes the header row as column names, so row 7 of the model is row 9 of the workbook.

The labels go into row 7 counted after filtering, while the protection applies to rows 7–9 counted before filtering. `Noise.LabelRowKeepsPlace` shows that the two coincide when none of rows 0–6 is a noise row. Otherwise the labels land on a later row of the original sheet.

Three facts about the script that the model keeps as they are:
- The script hard-codes the fraction 0.035 and the text "3,5%" in the verdict.
- It has no total-row aggregation, and no row-level fills or bold rows.
- Rows it does not classify keep whatever their converted cells hold in columns 21–26.

## Model

| member | source | states |
|---|---|---|
| `Cells.IsNumber` | fileHandler.py:101-102 | a missing value (NaN, None) or a piece of text is not a number; only a true number is |
| `Cells.Nzf` | fileHandler.py:104-110 | a number counts as its value; a missing value (and, simplified, text) counts as 0 |
| `Strings.Strip` | fileHandler.py:23 | the result is a middle slice of the input, with only white space cut off before and after it; it neither starts nor ends with white space, and text that already does not is returned as it is |
| `Strings.RemoveSeparators` | fileHandler.py:37 | no thousands-separator character is left, the result is no longer than the input, and a lone separator becomes the empty text (with the two laws below, every separator is deleted and every other character kept in order) |
| `Strings.RemoveSeparatorsKeepsChars` | fileHandler.py:37 | deleting separators adds no character that the input did not have |
| `Strings.RemoveSeparatorsConcat` | fileHandler.py:37 | deleting separators distributes over concatenation |
| `Strings.RemoveSeparatorsAbsent` | fileHandler.py:37 | text without separators is left unchanged |
| `Strings.NotMissingWord` | fileHandler.py:24 | text whose first letter is not 'n' in either case is none of "nan", "none", "null" |
| `Numbers.MatchNumber` | fileHandler.py:43 | whatever the pattern accepts is exactly the rendering of a well-formed sign/integer/fraction triple |
| `Numbers.MatchRender` | fileHandler.py:43 | every well-formed triple, rendered with or without '+', is accepted and yields exactly that triple (the match is complete and inverts the rendering) |
| `Numbers.ToNumber` | fileHandler.py:12-50 | numbers are kept; missing values stay missing; text is missing exactly when it strips to "" or a missing-value word; otherwise it becomes a number exactly when the normalised text matches the pattern; any text result is the input unchanged |
| `Numbers.ToNumberIdempotent` | fileHandler.py:12-50 | converting a converted cell changes nothing |
| `Numbers.Normalize` | fileHandler.py:27-40 | the parenthesis flag is set exactly when the text is at least two characters long and starts with '(' and ends with ')'; the text handed to the pattern holds no separator, no ',' and no Unicode minus; its content is pinned by `NormalizeFormat` (every Russian-formatted number) and `NormalizeHead` (the first character) |
| `Numbers.NormalizeFormat` | fileHandler.py:27-40 | normalising a Russian-formatted number gives the parenthesis flag and the plain signed decimal text |
| `Numbers.ToNumberMatched` | fileHandler.py:23-46 | text whose stripped form is not a missing-value word and matches after normalising becomes its decimal value, negated when it was in parentheses; white space around it, such as a trailing no-break space, does not change the value |
| `Numbers.NormalizeHead` | fileHandler.py:28-40 | a first character that is not U+2212, '(', ',' or a separator is still the first character of the normalised text |
| `Numbers.ToNumberUnmatched` | fileHandler.py:49-50 | stripped non-missing text that does not match comes back unchanged |
| `Numbers.ToNumberReadsLocale` | fileHandler.py:12-50 | every number written the Russian way (digit groups, any separator, decimal comma, any of the five sign forms) is read as its exact value |
| `Numbers.ToNumberKeepsText` | fileHandler.py:43-50 | text with no white space at either end whose first character is not a digit, '+', '-', '−', '(', ',', a separator, or 'n'/'N' is returned unchanged |
| `Numbers.ToNumberExampleSpace` | fileHandler.py:13 | "2 335,99" reads as 2335.99 |
| `Numbers.ToNumberExampleNarrowSpace` | fileHandler.py:13 | "1 234,50" reads as 1234.5 |
| `Numbers.ToNumberExampleMinus` | fileHandler.py:13 | "-7 710,11" reads as -7710.11 |
| `Numbers.ToNumberExampleParentheses` | fileHandler.py:15 | "(1 234,50)" reads as -1234.5 |
| `Numbers.ToNumberExampleUnicodeMinus` | fileHandler.py:16 | "−7 710,11" reads as -7710.11 |
| `Numbers.ToNumberKeepsWords` | fileHandler.py:14 | "абв" is returned unchanged |
| `Noise.HasNoiseWord` | fileHandler.py:57 | a text made only of word characters matches exactly when it is "товар" in some letter case; with the two lemmas below, the match ignores case and needs whole words |
| `Noise.NoiseWordIgnoresCase` | fileHandler.py:57 | the noise-word test gives the same answer on a text and on its lower-cased form |
| `Noise.NoiseWordExamples` | fileHandler.py:57 | "Товар" and "Кол-во, шт" contain a noise word; "Товары" does not, because the word must be whole |
| `Noise.IsNoiseRow` | fileHandler.py:58 | a row without a text cell is never a noise row: missing cells read as "nan", which holds neither word |
| `Noise.Filter` | fileHandler.py:65-66 | the filtered sheet is no longer than the sheet, holds only rows of the sheet, and is the whole sheet when no row is dropped; `FilterAtKeptIndices` and `KeptIndicesExact` say exactly which rows remain |
| `Noise.FilterAtKeptIndices` | fileHandler.py:66 | the k-th surviving row is the input row at the k-th kept position |
| `Noise.KeptIndicesExact` | fileHandler.py:65 | kept positions strictly increase, and a position is kept if and only if its row is not a noise row or it is 7, 8 or 9 |
| `Noise.ProtectedRowsSurvive` | fileHandler.py:62-66 | rows 7, 8 and 9 survive whatever they contain |
| `Noise.FilterPrefix` | fileHandler.py:66 | filtering a prefix of the sheet gives a prefix of the filtered sheet |
| `Noise.FilterKeepsHead` | fileHandler.py:62-66 | when none of rows 0..6 is noise, the first rows (up to 10) are kept in place |
| `Noise.LabelRowKeepsPlace` | fileHandler.py:62-87 | when none of rows 0..6 is noise, the row labelled at position 7 after filtering is the sheet's own row 7 |
| `Deviation.Turnover` | fileHandler.py:136 | the turnover is never negative |
| `Deviation.Classify` | fileHandler.py:141-155 | zero-turnover verdict exactly when turnover ≤ 1e-9 and the deviation > 1e-9; "Норма" exactly when the deviation is within 0.035·turnover; the exceed verdict in every other case |
| `Deviation.VerdictTextsDistinct` | fileHandler.py:141-155 | the verdict can be read back from the text in V or in W, and the two zero-turnover texts differ from every surplus/shortage text of the other side |
| `Deviation.MinExceedance` | fileHandler.py:157-165 | Y is a number exactly when a side exceeds X; it is then positive, equal to the excess of an exceeding side and no larger than either side's excess; otherwise "Норма" |
| `Deviation.Ratio` | fileHandler.py:170-188 | a ratio the chain gives is the ratio of one of the six valid pairs; `RatioIsFirstValid` pins it to the first valid one |
| `Deviation.FirstValidChoice` | fileHandler.py:167-195 | the reference ratio is absent exactly when no pair is valid, and otherwise is the ratio of a valid pair with no valid pair before it |
| `Deviation.RatioIsFirstValid` | fileHandler.py:170-188 | the if/elif chain computes the ratio of the first valid pair in the order T/U, F/G, H/I, J/K, L/M, N/O |
| `Deviation.UnsignedRatioNonNegative` | fileHandler.py:173-188 | every pair other than F/G gives a non-negative ratio |
| `Deviation.RatioSign` | fileHandler.py:176-178 | a negative ratio can only come from G/F, with T/U invalid |
| `Deviation.RatioAbsent` | fileHandler.py:190-193 | the chain yields no ratio exactly when none of the six pairs is valid |
| `Deviation.Estimate` | fileHandler.py:167-195 | Z/AA is a number exactly when the side exceeds X and a ratio is present, and then equals excess × ratio; otherwise the empty text, never 0 (by `RatioAbsent`, a ratio is present exactly when some pair is valid) |
| `Deviation.EstimateSign` | fileHandler.py:190-191 | an estimate has the sign of its ratio |
| `Deviation.AnnotateRow` | fileHandler.py:119-225 | only columns 21..26 change; X is 0.035·turnover and never negative |
| `Deviation.AnnotationConsistent` | fileHandler.py:136-225 | V (W) is "Норма" exactly when the deviation is within X; Y is a number exactly when V or W is not "Норма"; Z (AA) is a number exactly when V (W) is not "Норма" and some pair is valid |
| `Deviation.AnnotationReadsInputsOnly` | fileHandler.py:120-134 | rows that agree on columns 0..20 get the same six cells |
| `Deviation.AnnotateRowIdempotent` | fileHandler.py:119-225 | classifying a classified row writes the same cells again |
| `Deviation.Eligible` | fileHandler.py:112-118 | a classified row is not row 7 and has a number in its first column; a row without a first column is never classified |
| `Deviation.AnnotateAll` | fileHandler.py:112-118 | row 7 and rows whose first cell is not a number are untouched; every other row is classified |
| `Deviation.AnnotateAllIdempotent` | fileHandler.py:112-225 | running the classification loop twice gives the same grid as running it once |
| `Deviation.ClassifyExamples` | fileHandler.py:141-165 | turnover 0 with surplus 100 gives the zero-turnover verdict; turnover 1000 gives X = 35, and a surplus of 40 exceeds it; excesses 5 and 8 give Y = 5 |
| `Deviation.RatioExamples` | fileHandler.py:167-195 | with only J/K valid the ratio is \|K\|/\|J\|; with no valid pair the estimate is empty, not 0 |
| `Sheet.ConvertAll` | fileHandler.py:69 | the converted grid has the same shape as the input; `ConvertAllIdempotent` and `Prepared` state its cells |
| `Sheet.ConvertAllIdempotent` | fileHandler.py:69 | converting the grid twice is converting it once |
| `Sheet.PaddedWidth` | fileHandler.py:74-75 | the padded width is at least 27, and a grid already that wide keeps its width |
| `Sheet.PadAll` | fileHandler.py:73-76 | after padding every row has the padded width, existing cells are unchanged and the added cells are missing |
| `Sheet.WithLabels` | fileHandler.py:78-87 | row 7 holds the six labels in columns 21..26 and its other cells as before; no other row changes |
| `Sheet.Prepared` | fileHandler.py:57-76 | the prepared grid has the surviving rows, padded width, and the converted input or a missing cell in every position |
| `Sheet.Pipeline` | fileHandler.py:54-225 | the script fails (IndexError at the first label) exactly when at most 7 rows survive the filter |
| `Sheet.PipelineKeepsData` | fileHandler.py:57-225 | a finished grid has the surviving rows in order, at least 27 columns, and the converted input everywhere outside columns 21..26 |
| `Sheet.PipelineLabels` | fileHandler.py:78-87 | a finished grid has the six labels, in order, in row 7, columns 21..26 |
| `Sheet.PipelineClassifies` | fileHandler.py:112-225 | every row other than 7 is classified exactly when its converted first cell is a number, and is otherwise left as prepared |
| `Sheet.Frame.constructor` | fileHandler.py:54 | the frame holds the grid as read, with its width |
| `Sheet.Frame.DropNoiseRows` | fileHandler.py:65-66 | the grid becomes the filtered grid, still rectangular |
| `Sheet.Frame.ConvertCells` | fileHandler.py:69 | every cell is converted in place |
| `Sheet.Frame.AddColumn` | fileHandler.py:76 | one column of missing cells is appended |
| `Sheet.Frame.PadColumns` | fileHandler.py:73-76 | the loop leaves the padded grid and the padded width |
| `Sheet.Frame.WriteLabels` | fileHandler.py:86-87 | with a row 7 the loop writes the six labels and reports success; without one it changes nothing and reports failure |
| `Sheet.Frame.ClassifyRow` | fileHandler.py:119-225 | the row's cell writes leave exactly the classified row |
| `Sheet.Frame.EstimateCell` | fileHandler.py:167-195 | the Z/AA cell computed as in the script equals the estimate |
| `Sheet.Frame.ClassifyRows` | fileHandler.py:112-118 | the loop leaves exactly `AnnotateAll` of the old grid: every eligible row classified, every other row as it was |
| `Sheet.Run` | fileHandler.py:54-225 | running the frame's steps in order gives exactly `Pipeline` |

## Left out

- bot.py is not part of this model. It holds chat handlers, a subscription check against a remote service, environment loading and logging, and no computation of the sheet.
- Reading the workbook (fileHandler.py:54) and writing and styling it (fileHandler.py:228-251) are foreign library calls. The grid and its width are parameters of `Run` and `Pipeline`. Column widths, wrapping and the fills of V9 and W9 are not modelled.
- IEEE-754 floating point is not modelled. Values are exact reals, so rounding of sums, products and quotients is not captured, and neither are infinities.
- Cells.Nzf: text counts as 0. Python's `float()` would accept some leftover text that `to_number` rejected, such as "1e5", "inf" or "1_000".
- Numbers.ToNumber: `\d` is taken as the ASCII digits only. Python also accepts other Unicode decimal digits (and so does `float`), so such text stays text in the model.
- Numbers.ToNumber: cells are numbers, text or missing. The script reads every cell as text, so booleans and other Python objects reaching `to_number` are not modelled.
- Noise.HasNoiseWord: the regex word boundary `\b` is approximated. Word characters are ASCII letters, digits, '_' and the Cyrillic block. Case-insensitive matching folds ASCII letters and А–Я, Ё only. Letters of other scripts next to a noise word, and exotic case pairs, may be judged differently from Python's `re`.
- The `except ValueError` branch of `to_number` (fileHandler.py:47-48) is not modelled. A text that matched the pattern is always accepted by `float`, so this branch cannot run.
- Sheet.Frame.PadColumns: each added column is named `Unnamed_<k>`. A header that already had that exact name would be overwritten rather than added to. Header names are not modelled.
- The script runs the ratio chain separately for Z and for AA. The model computes it once per row, from cells that neither write changes, so the results are the same.
- pandas dtype changes caused by writing text into numeric columns are not modelled. Only cell values are.
