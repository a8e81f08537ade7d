/**
 * `to_number` (fileHandler.py): the locale number parser applied to every
 * cell of the sheet. Text such as "2 335,99", "(1 234,50)" or "−7 710,11"
 * becomes an exact decimal number; text that is not a number after the
 * normalisation comes back unchanged.
 */
module Numbers {
  import opened Wrappers
  import opened Cells
  import opened Strings

  predicate IsDigit(c: char)
  {
    '0' <= c <= '9'
  }

  predicate AllDigits(s: string)
  {
    forall k :: 0 <= k < |s| ==> IsDigit(s[k])
  }

  /** The value of a decimal digit string, most significant digit first. */
  function DigitsValue(s: string): nat
    requires AllDigits(s)
  {
    if s == [] then 0 else DigitsValue(s[..|s| - 1]) * 10 + (s[|s| - 1] as int - '0' as int)
  }

  /** A four-digit string is read with place values 1000, 100, 10 and 1. */
  lemma DigitsValueFour(s: string)
    requires |s| == 4 && AllDigits(s)
    ensures DigitsValue(s) == (s[0] as int - '0' as int) * 1000 + (s[1] as int - '0' as int) * 100
                              + (s[2] as int - '0' as int) * 10 + (s[3] as int - '0' as int)
  {
    assert s[..1][..0] == [];
    assert DigitsValue(s[..1]) == s[0] as int - '0' as int;
    assert s[..2][..1] == s[..1];
    assert DigitsValue(s[..2]) == (s[0] as int - '0' as int) * 10 + (s[1] as int - '0' as int);
    assert s[..3][..2] == s[..2];
    assert DigitsValue(s[..3]) == (s[0] as int - '0' as int) * 100 + (s[1] as int - '0' as int) * 10 + (s[2] as int - '0' as int);
    assert s[..3] == s[..|s| - 1];
  }

  /** The value of fraction digits: "5" is 0.5, "05" is 0.05. */
  function FractionValue(s: string): real
    requires AllDigits(s)
  {
    if s == [] then 0.0 else ((s[0] as int - '0' as int) as real + FractionValue(s[1..])) / 10.0
  }

  /**
   * What the pattern `[+-]?\d+(?:\.\d+)?` recognises: a sign, the integer
   * digits and the fraction digits (empty when there is no decimal point).
   */
  datatype Parts = Parts(negative: bool, whole: string, frac: string)

  predicate WellFormed(p: Parts)
  {
    |p.whole| > 0 && AllDigits(p.whole) && AllDigits(p.frac)
  }

  /** The text of `p` as the pattern writes it; `plus` asks for an explicit '+'. */
  function Render(p: Parts, plus: bool): string
  {
    (if p.negative then "-" else if plus then "+" else "") + p.whole
    + (if p.frac == "" then "" else "." + p.frac)
  }

  /** Position of the first '.', or the length when there is none. */
  function DotIndex(s: string): (k: nat)
    ensures k <= |s|
    ensures forall j :: 0 <= j < k ==> s[j] != '.'
    ensures k < |s| ==> s[k] == '.'
  {
    if s == [] || s[0] == '.' then 0 else 1 + DotIndex(s[1..])
  }

  /** `\d+(?:\.\d+)?` matched against all of `body`: the integer and fraction digits. */
  function MatchUnsigned(body: string): (r: Option<(string, string)>)
    ensures r.Some? ==> WellFormed(Parts(false, r.value.0, r.value.1))
    ensures r.Some? ==> body == Render(Parts(false, r.value.0, r.value.1), false)
  {
    var k := DotIndex(body);
    var whole := body[..k];
    var frac := if k < |body| then body[k + 1..] else "";
    if |whole| > 0 && AllDigits(whole) && AllDigits(frac) && (k < |body| ==> frac != "") then
      assert k < |body| ==> body == whole + "." + frac by {
        if k < |body| { assert body == body[..k] + [body[k]] + body[k + 1..]; }
      }
      Some((whole, frac))
    else
      None
  }

  /**
   * `re.fullmatch(r"[+-]?\d+(?:\.\d+)?", t)`: the parts of `t` when the
   * whole of `t` matches. Every match is the rendering of its parts.
   */
  function MatchNumber(t: string): (r: Option<Parts>)
    ensures r.Some? ==> WellFormed(r.value) && t == Render(r.value, t != [] && t[0] == '+')
  {
    var signed := t != [] && (t[0] == '+' || t[0] == '-');
    var body := if signed then t[1..] else t;
    match MatchUnsigned(body)
    case None => None
    case Some((whole, frac)) =>
      SignedRender(t, whole, frac);
      Some(Parts(signed && t[0] == '-', whole, frac))
  }

  /** A text whose unsigned part renders `whole` and `frac` renders the parts with its own sign. */
  lemma SignedRender(t: string, whole: string, frac: string)
    requires (if t != [] && (t[0] == '+' || t[0] == '-') then t[1..] else t) == Render(Parts(false, whole, frac), false)
    ensures t == Render(Parts(t != [] && (t[0] == '+' || t[0] == '-') && t[0] == '-', whole, frac), t != [] && t[0] == '+')
  {
    var q := Parts(false, whole, frac);
    if t != [] && (t[0] == '+' || t[0] == '-') {
      var c := t[0];
      assert t == [c] + Render(q, false) by { assert t == [c] + t[1..]; }
      RenderSigned(q, c);
      assert t == Render(Parts(c == '-', whole, frac), c == '+');
    } else {
      assert t == Render(q, false);
      assert !(t != [] && t[0] == '+');
    }
  }

  lemma {:induction false} DotIndexAfterDigits(a: string, b: string)
    requires AllDigits(a)
    ensures DotIndex(a + b) == |a| + DotIndex(b)
  {
    if a == [] {
      assert a + b == b;
    } else {
      assert (a + b)[0] == a[0] && (a + b)[1..] == a[1..] + b;
      DotIndexAfterDigits(a[1..], b);
    }
  }

  lemma MatchUnsignedRender(p: Parts)
    requires WellFormed(p)
    ensures MatchUnsigned(Render(Parts(false, p.whole, p.frac), false)) == Some((p.whole, p.frac))
  {
    var tail := if p.frac == "" then "" else "." + p.frac;
    var body := p.whole + tail;
    assert Render(Parts(false, p.whole, p.frac), false) == body;
    DotIndexAfterDigits(p.whole, tail);
    assert DotIndex(body) == |p.whole|;
    assert body[..|p.whole|] == p.whole;
    assert p.frac != "" ==> body[|p.whole| + 1..] == p.frac;
  }

  /** Every well-formed number, however it is signed, is matched with exactly its parts. */
  lemma MatchRender(p: Parts, plus: bool)
    requires WellFormed(p)
    ensures MatchNumber(Render(p, plus)) == Some(p)
  {
    var body := Render(Parts(false, p.whole, p.frac), false);
    MatchUnsignedRender(p);
    RenderHead(p, plus);
    var t := Render(p, plus);
    var signed := t != [] && (t[0] == '+' || t[0] == '-');
    assert (if signed then t[1..] else t) == body;
    assert (signed && t[0] == '-') == p.negative;
  }

  /** How a rendering starts: with the sign when there is one, otherwise with the first digit. */
  lemma RenderHead(p: Parts, plus: bool)
    requires WellFormed(p)
    ensures var t := Render(p, plus); var body := Render(Parts(false, p.whole, p.frac), false);
      && t != []
      && ((t[0] == '+' || t[0] == '-') <==> p.negative || plus)
      && (t[0] == '-' <==> p.negative)
      && (if p.negative || plus then t[1..] == body else t == body)
  {
    var body := Render(Parts(false, p.whole, p.frac), false);
    assert body[0] == p.whole[0] && IsDigit(p.whole[0]);
    var t := Render(p, plus);
    if p.negative || plus {
      assert t == [if p.negative then '-' else '+'] + body;
    } else {
      assert t == body;
    }
  }

  /** The exact decimal value of a text the pattern accepted, as `float` reads it. */
  function DecimalValue(p: Parts): real
    requires WellFormed(p)
  {
    var m := DigitsValue(p.whole) as real + FractionValue(p.frac);
    if p.negative then -m else m
  }

  /** The value of the matched parts, negated when the text was in parentheses. */
  function SignedValue(negate: bool, p: Parts): real
    requires WellFormed(p)
  {
    if negate then -DecimalValue(p) else DecimalValue(p)
  }

  /**
   * The steps of `to_number` between the missing-value test and the
   * pattern: Unicode minus to '-', one enclosing pair of parentheses taken
   * off (and the inside stripped again), separators deleted, decimal comma
   * to '.'. Returns whether parentheses were taken off, and the text the
   * pattern is matched against.
   */
  function Normalize(s: string): (r: (bool, string))
    ensures r.0 <==> |s| >= 2 && s[0] == '(' && s[|s| - 1] == ')'
    ensures NoSeparators(r.1) && ',' !in r.1 && '\U{2212}' !in r.1
  {
    var s1 := Replace(s, '\U{2212}', '-');
    ReplaceRemoves(s, '\U{2212}', '-');
    // `startswith("(") and endswith(")")`: a single character cannot be both
    var parens := |s1| >= 2 && s1[0] == '(' && s1[|s1| - 1] == ')';
    var s2 := if parens then StripKeepsOut(s1[1..|s1| - 1], '\U{2212}'); Strip(s1[1..|s1| - 1]) else s1;
    CleanText(s2);
    (parens, Replace(RemoveSeparators(s2), ',', '.'))
  }

  /** After replacing `from` by another character, `from` is gone. */
  lemma ReplaceRemoves(s: string, from: char, to: char)
    requires from != to
    ensures from !in Replace(s, from, to)
  {
    var r := Replace(s, from, to);
    forall k | 0 <= k < |r| ensures r[k] != from { }
  }

  /** Deleting separators and replacing ',' by '.' leaves neither, and adds no Unicode minus. */
  lemma CleanText(s: string)
    requires '\U{2212}' !in s
    ensures var t := Replace(RemoveSeparators(s), ',', '.');
            NoSeparators(t) && ',' !in t && '\U{2212}' !in t
  {
    var s3 := RemoveSeparators(s);
    RemoveSeparatorsKeepsChars(s, '\U{2212}');
    var t := Replace(s3, ',', '.');
    forall k | 0 <= k < |t| ensures !IsSeparator(t[k]) && t[k] != ',' && t[k] != '\U{2212}' {
      assert t[k] == s3[k] || t[k] == '.';
    }
  }

  /** Text that `to_number` turns into NaN: blank, or "nan"/"none"/"null" in any case. */
  predicate IsMissingText(raw: string)
  {
    var s := Strip(raw);
    s == "" || IsMissingWord(s)
  }

  /**
   * `to_number`: numbers are kept, missing values and missing-value words
   * give `Empty`, text that matches the number pattern after `Normalize`
   * gives its value (negated for parentheses), and any other text comes
   * back exactly as it was.
   */
  function ToNumber(c: Cell): (r: Cell)
    ensures c.Num? ==> r == c
    ensures c.Empty? ==> r == Empty
    ensures c.Text? ==> (r.Empty? <==> IsMissingText(c.text))
    ensures c.Text? && !r.Empty? ==> (r.Num? <==> MatchNumber(Normalize(Strip(c.text)).1).Some?)
    ensures r.Text? ==> r == c
  {
    match c
    case Num(_) => c
    case Empty => Empty
    case Text(raw) =>
      var s := Strip(raw);
      if s == "" || IsMissingWord(s) then Empty
      else
        var nt := Normalize(s);
        match MatchNumber(nt.1)
        case Some(p) => Num(SignedValue(nt.0, p))
        case None => c
  }

  /** Normalising a normalised cell changes nothing. */
  lemma ToNumberIdempotent(c: Cell)
    ensures ToNumber(ToNumber(c)) == ToNumber(c)
  {
  }

  /** How the sign of a number is written in the sheet. */
  datatype Sign = Unsigned | Plus | Minus | UnicodeMinus | Parenthesised

  /**
   * A number written the Russian way: digit groups joined by one thousands
   * separator, then, when there is a fraction, a decimal comma and its
   * digits: "2 335,99", "(1 234,50)", "−7 710,11".
   */
  datatype LocaleNumber = LocaleNumber(sign: Sign, groups: seq<string>, separator: char, frac: string)

  predicate DigitGroups(gs: seq<string>)
  {
    forall k :: 0 <= k < |gs| ==> |gs[k]| > 0 && AllDigits(gs[k])
  }

  predicate WellFormedLocale(n: LocaleNumber)
  {
    |n.groups| > 0 && DigitGroups(n.groups) && IsSeparator(n.separator) && AllDigits(n.frac)
  }

  function Join(gs: seq<string>, sep: char): string
  {
    if gs == [] then "" else if |gs| == 1 then gs[0] else gs[0] + [sep] + Join(gs[1..], sep)
  }

  /** The digits of all groups, without separators. */
  function Concat(gs: seq<string>): (r: string)
    ensures DigitGroups(gs) ==> AllDigits(r)
  {
    if gs == [] then "" else gs[0] + Concat(gs[1..])
  }

  /** The digits of the number with their separators and decimal comma, without a sign. */
  function Body(n: LocaleNumber): string
  {
    Join(n.groups, n.separator) + (if n.frac == "" then "" else "," + n.frac)
  }

  /** The number as it stands in a cell. */
  function Format(n: LocaleNumber): string
  {
    var body := Body(n);
    match n.sign
    case Unsigned => body
    case Plus => "+" + body
    case Minus => "-" + body
    case UnicodeMinus => "\U{2212}" + body
    case Parenthesised => "(" + body + ")"
  }

  /** The value the written number stands for. */
  function LocaleValue(n: LocaleNumber): real
    requires WellFormedLocale(n)
  {
    var m := DigitsValue(Concat(n.groups)) as real + FractionValue(n.frac);
    if n.sign.Unsigned? || n.sign.Plus? then m else -m
  }

  lemma {:induction false} JoinEnds(gs: seq<string>, sep: char)
    requires |gs| > 0 && DigitGroups(gs)
    ensures var j := Join(gs, sep); |j| > 0 && IsDigit(j[0]) && IsDigit(j[|j| - 1])
  {
    if |gs| > 1 {
      JoinEnds(gs[1..], sep);
    }
  }

  /** Joined groups hold only digits and the separator. */
  lemma {:induction false} JoinChars(gs: seq<string>, sep: char)
    requires DigitGroups(gs)
    ensures forall k :: 0 <= k < |Join(gs, sep)| ==> IsDigit(Join(gs, sep)[k]) || Join(gs, sep)[k] == sep
  {
    if |gs| > 1 {
      JoinChars(gs[1..], sep);
      var rest := Join(gs[1..], sep);
      var j := Join(gs, sep);
      assert j == gs[0] + [sep] + rest;
      forall k | 0 <= k < |j|
        ensures IsDigit(j[k]) || j[k] == sep
      {
        if k < |gs[0]| {
          assert j[k] == gs[0][k];
        } else if k > |gs[0]| {
          assert j[k] == rest[k - |gs[0]| - 1];
        }
      }
    }
  }

  /** Deleting the separators from joined groups leaves their digits. */
  lemma {:induction false} JoinRemove(gs: seq<string>, sep: char)
    requires DigitGroups(gs) && IsSeparator(sep)
    ensures RemoveSeparators(Join(gs, sep)) == Concat(gs)
  {
    if gs != [] {
      var head := gs[0];
      assert AllDigits(head);
      RemoveSeparatorsAbsent(head);
      if |gs| == 1 {
        assert Concat(gs) == head + Concat([]);
      } else {
        var rest := Join(gs[1..], sep);
        JoinRemove(gs[1..], sep);
        RemoveSeparatorsConcat(head, [sep]);
        assert RemoveSeparators([sep]) == [] by { assert [sep][1..] == []; }
        assert RemoveSeparators(head + [sep]) == head;
        RemoveSeparatorsConcat(head + [sep], rest);
      }
    }
  }

  /** The body starts and ends with a digit and holds no Unicode minus. */
  lemma BodyShape(n: LocaleNumber)
    requires WellFormedLocale(n)
    ensures var b := Body(n); |b| > 0 && IsDigit(b[0]) && IsDigit(b[|b| - 1])
    ensures '\U{2212}' !in Body(n)
  {
    var joined := Join(n.groups, n.separator);
    var tail := if n.frac == "" then "" else "," + n.frac;
    JoinEnds(n.groups, n.separator);
    JoinChars(n.groups, n.separator);
    assert Body(n) == joined + tail;
    assert forall k :: 0 <= k < |joined| ==> joined[k] != '\U{2212}';
    assert forall k :: 0 <= k < |tail| ==> tail[k] != '\U{2212}';
  }

  /** The fraction part ",ddd" becomes ".ddd". */
  lemma ReplaceFractionComma(frac: string)
    requires AllDigits(frac)
    ensures Replace(if frac == "" then "" else "," + frac, ',', '.') == if frac == "" then "" else "." + frac
  {
    if frac != "" {
      ReplaceConcat(",", frac, ',', '.');
      assert ',' !in frac;
      ReplaceAbsent(frac, ',', '.');
    }
  }

  lemma ReplaceAfterDigits(digits: string, tail: string, replaced: string)
    requires AllDigits(digits) && Replace(tail, ',', '.') == replaced
    ensures Replace(digits + tail, ',', '.') == digits + replaced
  {
    assert ',' !in digits;
    ReplaceAbsent(digits, ',', '.');
    ReplaceConcat(digits, tail, ',', '.');
  }

  lemma RemoveSeparatorsBody(n: LocaleNumber)
    requires WellFormedLocale(n)
    ensures RemoveSeparators(Body(n)) == Concat(n.groups) + (if n.frac == "" then "" else "," + n.frac)
  {
    var tail := if n.frac == "" then "" else "," + n.frac;
    JoinRemove(n.groups, n.separator);
    RemoveSeparatorsConcat(Join(n.groups, n.separator), tail);
    assert NoSeparators(tail);
    RemoveSeparatorsAbsent(tail);
  }

  /** Deleting separators and turning the comma into a point leaves the pattern's unsigned text. */
  lemma CleanBody(n: LocaleNumber)
    requires WellFormedLocale(n)
    ensures Replace(RemoveSeparators(Body(n)), ',', '.') == Render(Parts(false, Concat(n.groups), n.frac), false)
  {
    var tail := if n.frac == "" then "" else "," + n.frac;
    var dotted := if n.frac == "" then "" else "." + n.frac;
    RemoveSeparatorsBody(n);
    ReplaceFractionComma(n.frac);
    ReplaceAfterDigits(Concat(n.groups), tail, dotted);
    assert Render(Parts(false, Concat(n.groups), n.frac), false) == Concat(n.groups) + dotted;
  }

  /** The same with a leading '+' or '-', which both steps keep. */
  lemma CleanSignedBody(c: char, n: LocaleNumber)
    requires WellFormedLocale(n) && (c == '+' || c == '-')
    ensures Replace(RemoveSeparators([c] + Body(n)), ',', '.')
            == [c] + Render(Parts(false, Concat(n.groups), n.frac), false)
  {
    CleanBody(n);
    RemoveSeparatorsConcat([c], Body(n));
    assert RemoveSeparators([c]) == [c] by { assert [c][1..] == []; }
    ReplaceConcat([c], RemoveSeparators(Body(n)), ',', '.');
  }

  lemma NormalizeWithoutParens(s: string)
    requires '\U{2212}' !in s && s != [] && s[0] != '('
    ensures Normalize(s) == (false, Replace(RemoveSeparators(s), ',', '.'))
  {
    ReplaceAbsent(s, '\U{2212}', '-');
  }

  lemma NormalizeUnicodeMinus(body: string)
    requires '\U{2212}' !in body
    ensures Normalize("\U{2212}" + body) == Normalize("-" + body)
  {
    ReplaceConcat("\U{2212}", body, '\U{2212}', '-');
    ReplaceConcat("-", body, '\U{2212}', '-');
    ReplaceAbsent(body, '\U{2212}', '-');
  }

  lemma NormalizeParens(body: string)
    requires '\U{2212}' !in body && body != [] && !IsSpace(body[0]) && !IsSpace(body[|body| - 1])
    ensures Normalize("(" + body + ")") == (true, Replace(RemoveSeparators(body), ',', '.'))
  {
    var s := "(" + body + ")";
    assert '\U{2212}' !in s;
    ReplaceAbsent(s, '\U{2212}', '-');
    assert s[1..|s| - 1] == body;
  }

  lemma RenderSigned(p: Parts, c: char)
    requires !p.negative && (c == '+' || c == '-')
    ensures Render(Parts(c == '-', p.whole, p.frac), c == '+') == [c] + Render(p, false)
  {
  }

  /** A formatted number with a leading '+', '-' or Unicode minus. */
  lemma NormalizeSigned(n: LocaleNumber, c: char)
    requires WellFormedLocale(n) && (c == '+' || c == '-')
    requires n.sign == (if c == '+' then Plus else Minus) || (c == '-' && n.sign == UnicodeMinus)
    ensures Normalize(Format(n)) == (false, Render(Parts(c == '-', Concat(n.groups), n.frac), c == '+'))
  {
    var body := Body(n);
    BodyShape(n);
    if n.sign == UnicodeMinus {
      assert Format(n) == "\U{2212}" + body;
      NormalizeUnicodeMinus(body);
    } else {
      assert Format(n) == [c] + body;
    }
    NormalizeWithoutParens([c] + body);
    CleanSignedBody(c, n);
    RenderSigned(Parts(false, Concat(n.groups), n.frac), c);
  }

  /** What `Normalize` makes of a formatted number: the parenthesis flag and the plain decimal text. */
  lemma NormalizeFormat(n: LocaleNumber)
    requires WellFormedLocale(n)
    ensures Normalize(Format(n))
            == (n.sign.Parenthesised?,
                Render(Parts(n.sign.Minus? || n.sign.UnicodeMinus?, Concat(n.groups), n.frac), n.sign.Plus?))
  {
    var body := Body(n);
    BodyShape(n);
    CleanBody(n);
    match n.sign
    case Unsigned =>
      assert Format(n) == body;
      NormalizeWithoutParens(body);
    case Plus =>
      NormalizeSigned(n, '+');
    case Minus =>
      NormalizeSigned(n, '-');
    case UnicodeMinus =>
      NormalizeSigned(n, '-');
    case Parenthesised =>
      assert Format(n) == "(" + body + ")";
      NormalizeParens(body);
  }

  /** A formatted number neither starts nor ends with white space, and does not start with 'n'. */
  lemma FormatEnds(n: LocaleNumber)
    requires WellFormedLocale(n)
    ensures var s := Format(n); s != [] && !IsSpace(s[0]) && !IsSpace(s[|s| - 1]) && LowerAscii(s[0]) != 'n'
  {
    BodyShape(n);
    var body := Body(n);
    match n.sign
    case Unsigned =>
    case Plus => assert Format(n) == "+" + body;
    case Minus => assert Format(n) == "-" + body;
    case UnicodeMinus => assert Format(n) == "\U{2212}" + body;
    case Parenthesised => assert Format(n) == "(" + body + ")";
  }

  lemma FormatIsPlainText(n: LocaleNumber)
    requires WellFormedLocale(n)
    ensures var s := Format(n); s != [] && Strip(s) == s && !IsMissingWord(s)
  {
    FormatEnds(n);
    NotMissingWord(Format(n));
  }

  /** The sign comes either from the parts (minus signs) or from the parentheses. */
  lemma LocaleValueParts(n: LocaleNumber, p: Parts)
    requires WellFormedLocale(n) && p == Parts(n.sign.Minus? || n.sign.UnicodeMinus?, Concat(n.groups), n.frac)
    ensures WellFormed(p)
    ensures LocaleValue(n) == SignedValue(n.sign.Parenthesised?, p)
  {
  }

  /**
   * `to_number` on text whose stripped form is not a missing-value word and
   * matches after `Normalize`: white space around the number, such as a
   * trailing no-break space, does not change its value.
   */
  lemma ToNumberMatched(raw: string)
    ensures var s := Strip(raw); var nt := Normalize(s);
            s != [] && !IsMissingWord(s) && MatchNumber(nt.1).Some? ==>
              WellFormed(MatchNumber(nt.1).value) && ToNumber(Text(raw)) == Num(SignedValue(nt.0, MatchNumber(nt.1).value))
  {
    var s := Strip(raw);
    var nt := Normalize(s);
    if s != [] && !IsMissingWord(s) {
      match MatchNumber(nt.1)
      case Some(q) =>
      case None =>
    }
  }


  /**
   * Every number written the Russian way (the formats the parser's own
   * description lists) is read as its exact value.
   */
  lemma ToNumberReadsLocale(n: LocaleNumber)
    requires WellFormedLocale(n)
    ensures ToNumber(Text(Format(n))) == Num(LocaleValue(n))
  {
    var s := Format(n);
    FormatIsPlainText(n);
    NormalizeFormat(n);
    var p := Parts(n.sign.Minus? || n.sign.UnicodeMinus?, Concat(n.groups), n.frac);
    LocaleValueParts(n, p);
    MatchRender(p, n.sign.Plus?);
    ToNumberMatched(s);
  }

  /** `to_number` on text that is already stripped, not a missing-value word, and does not match. */
  lemma ToNumberUnmatched(raw: string)
    requires Strip(raw) == raw && raw != [] && !IsMissingWord(raw)
    requires MatchNumber(Normalize(raw).1) == None
    ensures ToNumber(Text(raw)) == Text(raw)
  {
  }

  /** A match starts with a sign or a digit. */
  lemma MatchStart(t: string)
    requires t != [] && !IsDigit(t[0]) && t[0] != '+' && t[0] != '-'
    ensures MatchNumber(t) == None
  {
  }

  /** A written number reads as its value: the step each example below takes. */
  lemma ReadsAs(n: LocaleNumber, text: string, v: real)
    requires WellFormedLocale(n) && Format(n) == text && LocaleValue(n) == v
    ensures ToNumber(Text(text)) == Num(v)
  {
    ToNumberReadsLocale(n);
  }

  /** "2 335,99": a space between thousands and a decimal comma. */
  lemma ToNumberExampleSpace()
    ensures ToNumber(Text("2 335,99")) == Num(2335.99)
  {
    var n := LocaleNumber(Unsigned, ["2", "335"], ' ', "99");
    assert WellFormedLocale(n);
    assert Format(n) == "2 335,99" by {
      assert Join(n.groups, n.separator) == "2 335";
    }
    assert LocaleValue(n) == 2335.99 by {
      assert Concat(n.groups) == "2335";
      DigitsValueFour("2335");
      assert FractionValue("99") == 0.99 by {
        assert "99"[1..] == "9" && "9"[1..] == "";
      }
    }
    ReadsAs(n, "2 335,99", 2335.99);
  }

  /** "1 234,50" with a narrow no-break space. */
  lemma ToNumberExampleNarrowSpace()
    ensures ToNumber(Text("1\U{202F}234,50")) == Num(1234.5)
  {
    var n := LocaleNumber(Unsigned, ["1", "234"], '\U{202F}', "50");
    assert WellFormedLocale(n);
    assert Format(n) == "1\U{202F}234,50" by {
      assert Join(n.groups, n.separator) == "1\U{202F}234";
    }
    assert LocaleValue(n) == 1234.5 by {
      assert Concat(n.groups) == "1234";
      DigitsValueFour("1234");
      assert FractionValue("50") == 0.5 by {
        assert "50"[1..] == "0" && "0"[1..] == "";
      }
    }
    ReadsAs(n, "1\U{202F}234,50", 1234.5);
  }

  /** "-7 710,11" with a no-break space. */
  lemma ToNumberExampleMinus()
    ensures ToNumber(Text("-7\U{A0}710,11")) == Num(-7710.11)
  {
    var n := LocaleNumber(Minus, ["7", "710"], '\U{A0}', "11");
    assert WellFormedLocale(n);
    assert Format(n) == "-7\U{A0}710,11" by {
      assert Join(n.groups, n.separator) == "7\U{A0}710";
    }
    assert LocaleValue(n) == -7710.11 by {
      assert Concat(n.groups) == "7710";
      DigitsValueFour("7710");
      assert FractionValue("11") == 0.11 by {
        assert "11"[1..] == "1" && "1"[1..] == "";
      }
    }
    ReadsAs(n, "-7\U{A0}710,11", -7710.11);
  }

  /** "−7 710,11" with the Unicode minus sign. */
  lemma ToNumberExampleUnicodeMinus()
    ensures ToNumber(Text("\U{2212}7 710,11")) == Num(-7710.11)
  {
    var n := LocaleNumber(UnicodeMinus, ["7", "710"], ' ', "11");
    assert WellFormedLocale(n);
    assert Format(n) == "\U{2212}7 710,11" by {
      assert Join(n.groups, n.separator) == "7 710";
    }
    assert LocaleValue(n) == -7710.11 by {
      assert Concat(n.groups) == "7710";
      DigitsValueFour("7710");
      assert FractionValue("11") == 0.11 by {
        assert "11"[1..] == "1" && "1"[1..] == "";
      }
    }
    ReadsAs(n, "\U{2212}7 710,11", -7710.11);
  }

  /** "(1 234,50)": parentheses make the value negative. */
  lemma ToNumberExampleParentheses()
    ensures ToNumber(Text("(1\U{A0}234,50)")) == Num(-1234.5)
  {
    var n := LocaleNumber(Parenthesised, ["1", "234"], '\U{A0}', "50");
    assert WellFormedLocale(n);
    assert Format(n) == "(1\U{A0}234,50)" by {
      assert Join(n.groups, n.separator) == "1\U{A0}234";
    }
    assert LocaleValue(n) == -1234.5 by {
      assert Concat(n.groups) == "1234";
      DigitsValueFour("1234");
      assert FractionValue("50") == 0.5 by {
        assert "50"[1..] == "0" && "0"[1..] == "";
      }
    }
    ReadsAs(n, "(1\U{A0}234,50)", -1234.5);
  }

  /** The first character survives `Normalize` when it is none of the characters it rewrites. */
  lemma NormalizeHead(s: string)
    requires s != [] && s[0] != '\U{2212}' && s[0] != '(' && s[0] != ',' && !IsSeparator(s[0])
    ensures Normalize(s).1 != [] && Normalize(s).1[0] == s[0]
  {
    var s1 := Replace(s, '\U{2212}', '-');
    assert s1[0] == s[0];
    assert RemoveSeparators(s1) == [s1[0]] + RemoveSeparators(s1[1..]);
  }

  /**
   * Text that starts with a character that can begin neither a number nor
   * a missing-value word (a letter other than 'n', say) comes back unchanged.
   */
  lemma ToNumberKeepsText(s: string)
    requires s != [] && !IsSpace(s[0]) && !IsSpace(s[|s| - 1]) && LowerAscii(s[0]) != 'n'
    requires !IsDigit(s[0]) && s[0] != '+' && s[0] != '-' && s[0] != '\U{2212}' && s[0] != '(' && s[0] != ','
    requires !IsSeparator(s[0])
    ensures ToNumber(Text(s)) == Text(s)
  {
    NotMissingWord(s);
    NormalizeHead(s);
    MatchStart(Normalize(s).1);
    ToNumberUnmatched(s);
  }

  /** "абв" is not a number and comes back unchanged. */
  lemma ToNumberKeepsWords()
    ensures ToNumber(Text("абв")) == Text("абв")
  {
    ToNumberKeepsText("абв");
  }
}
