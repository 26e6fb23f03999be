/** Kids sizes with years, in every spelling the shop uses. */
module SizeLaws {
  import opened Text
  import opened Sizes

  /** One number of years, or two with a dash, a slash or blanks between them. */
  datatype Range = Range(from: string, gap: string, sep: string, gap': string, to: string)
  {
    ghost predicate Fits() {
      && from != "" && AllDigits(from) && AllDigits(to) && IsBlank(gap) && IsBlank(gap')
      && (sep in {"-", "/"} || (sep == "" && (to == "" || gap + gap' != "")))
    }

    function Before(rest: string): string {
      from + (gap + (sep + (gap' + (to + rest))))
    }
  }

  /** A number of centimetres, in parentheses or not. */
  datatype Cm = Cm(gap: string, open: string, gap': string, digits: string,
                   gap'': string, unit: string, gap''': string, close: string)
  {
    ghost predicate Fits() {
      && IsBlank(gap) && IsBlank(gap') && IsBlank(gap'') && IsBlank(gap''')
      && open in {"", "("} && close in {"", ")"} && digits != "" && AllDigits(digits) && Lower(unit) == "cm"
    }

    function Closing(): string {
      gap''' + close
    }

    function Number(): string {
      digits + (gap'' + (unit + Closing()))
    }

    function Text(): string {
      gap + (open + (gap' + Number()))
    }
  }

  lemma {:induction false} StripLeftBlank(s: string)
    requires IsBlank(s)
    ensures StripLeft(s) == ""
  {
    if s != "" {
      StripLeftBlank(s[1..]);
    }
  }

  lemma {:induction false} StripLeftAgain(gap: string, s: string)
    requires IsBlank(gap)
    ensures StripLeft(gap + s) == StripLeft(s)
  {
    if gap == "" {
      assert gap + s == s;
    } else {
      assert (gap + s)[1..] == gap[1..] + s && (gap + s)[0] == gap[0];
      StripLeftAgain(gap[1..], s);
    }
  }

  // ------------------------------------------------------------- the years

  /** A text that none of the blanks, digits and separators of a range starts. */
  predicate StartsAnew(s: string) {
    s != "" && !IsSpace(s[0]) && !IsDigit(s[0]) && s[0] !in {'-', '/'}
  }

  /** The second number and the blanks around it. */
  lemma SecondNumber(gap: string, to: string, gap': string, rest: string)
    requires IsBlank(gap) && IsBlank(gap') && AllDigits(to) && StartsAnew(rest)
    ensures StripLeft(AfterDigits(StripLeft(gap + (to + (gap' + rest))))) == rest
  {
    var tail := gap' + rest;
    assert tail[0] == if gap' == "" then rest[0] else gap'[0];
    StripLeftOf(gap', rest);
    DigitsThen(to, tail);
    if to == "" {
      assert to + tail == tail;
      StripLeftAgain(gap, tail);
      DigitsThen("", rest);
      assert "" + rest == rest;
    } else {
      assert (to + tail)[0] == to[0];
      StripLeftOf(gap, to + tail);
    }
  }

  lemma AfterGap(d: string, gap: string, rest: string)
    requires d != "" && AllDigits(d) && IsBlank(gap) && rest != "" && !IsSpace(rest[0]) && !IsDigit(rest[0])
    ensures LeadingDigits(d + (gap + rest)) == d && AfterDigits(d + (gap + rest)) == gap + rest
    ensures StripLeft(gap + rest) == rest
  {
    assert (gap + rest)[0] == if gap == "" then rest[0] else gap[0];
    DigitsThen(d, gap + rest);
    StripLeftOf(gap, rest);
  }

  /** Two numbers with blanks between them, or one number. */
  lemma NumbersApart(d: string, gap: string, gap': string, to: string, gap'': string, rest: string)
    requires d != "" && AllDigits(d) && AllDigits(to) && IsBlank(gap) && IsBlank(gap') && IsBlank(gap'')
    requires StartsAnew(rest) && (to == "" || gap + gap' != "")
    ensures var tail := gap' + (to + (gap'' + rest));
            var u := StripLeft(tail);
            && LeadingDigits(d + (gap + tail)) == d && StripLeft(AfterDigits(d + (gap + tail))) == u
            && u != "" && (u[0] == rest[0] || IsDigit(u[0])) && StripLeft(SkipOne(u, {'-', '/'})) == u
  {
    var tail, front := gap' + (to + (gap'' + rest)), gap + gap';
    if to == "" {
      assert to + (gap'' + rest) == gap'' + rest;
      RegroupBlanks(gap, gap', gap'', rest);
      BlanksThen(d, front + gap'', rest);
      StripLeftAgain(gap, tail);
    } else {
      var number := to + (gap'' + rest);
      assert number[0] == to[0];
      RegroupNumber(gap, gap', number);
      NumberAfterBlanks(d, front, number);
      StripLeftAgain(gap, tail);
    }
  }

  lemma RegroupBlanks(gap: string, gap': string, gap'': string, rest: string)
    ensures gap + (gap' + (gap'' + rest)) == (gap + gap' + gap'') + rest
  {
  }

  lemma RegroupNumber(gap: string, gap': string, number: string)
    ensures gap + (gap' + number) == (gap + gap') + number
  {
  }

  lemma BlanksThen(d: string, gap: string, rest: string)
    requires d != "" && AllDigits(d) && IsBlank(gap) && StartsAnew(rest)
    ensures LeadingDigits(d + (gap + rest)) == d && StripLeft(AfterDigits(d + (gap + rest))) == rest
    ensures StripLeft(gap + rest) == rest && StripLeft(SkipOne(rest, {'-', '/'})) == rest
  {
    AfterGap(d, gap, rest);
  }

  lemma NumberAfterBlanks(d: string, gap: string, number: string)
    requires d != "" && AllDigits(d) && IsBlank(gap) && gap != "" && number != "" && IsDigit(number[0])
    ensures LeadingDigits(d + (gap + number)) == d && StripLeft(AfterDigits(d + (gap + number))) == number
    ensures StripLeft(gap + number) == number && StripLeft(SkipOne(number, {'-', '/'})) == number
  {
    assert (gap + number)[0] == gap[0];
    DigitsThen(d, gap + number);
    StripLeftOf(gap, number);
  }

  lemma RangeIs(range: Range, gap: string, rest: string)
    requires range.Fits() && IsBlank(gap) && StartsAnew(rest)
    ensures var t := range.Before(gap + rest);
            && LeadingDigits(t) == range.from && AfterRange(t) == rest
            && StripLeft(AfterDigits(t)) != ""
            && (StripLeft(AfterDigits(t))[0] in {rest[0], '-', '/'} || IsDigit(StripLeft(AfterDigits(t))[0]))
  {
    var tail := range.gap' + (range.to + (gap + rest));
    SecondNumber(range.gap', range.to, gap, rest);
    if range.sep == "" {
      assert range.sep + tail == tail;
      NumbersApart(range.from, range.gap, range.gap', range.to, gap, rest);
    } else {
      assert (range.sep + tail)[0] == range.sep[0] && (range.sep + tail)[1..] == tail;
      AfterGap(range.from, range.gap, range.sep + tail);
    }
  }

  lemma YearWord(word: string, plural: string, rest: string)
    requires Lower(word) == "year" && plural in {"", "s", "S"} && (rest == "" || rest[0] !in {'s', 'S'})
    ensures After(word + (plural + rest), "year") == Some(plural + rest)
    ensures SkipOne(plural + rest, {'s', 'S'}) == rest
    ensures StartsAnew(word + (plural + rest)) && LowerChar((word + (plural + rest))[0]) == 'y'
  {
    var t := word + (plural + rest);
    assert |Lower(word)| == |word| == 4 && Lower(word)[0] == LowerChar(word[0]) == 'y';
    assert t[..4] == word && t[4..] == plural + rest && t[0] == word[0];
    if plural == "" {
      assert plural + rest == rest;
    } else {
      assert (plural + rest)[1..] == rest;
    }
  }

  // ------------------------------------------------------------- centimetres

  lemma CloseIs(gap: string, close: string)
    requires IsBlank(gap) && close in {"", ")"}
    ensures SkipOne(StripLeft(gap + close), {')'}) == ""
  {
    if close == "" {
      assert gap + close == gap;
      StripLeftBlank(gap);
    } else {
      StripLeftOf(gap, close);
    }
  }

  lemma UnitIs(unit: string, rest: string)
    requires Lower(unit) == "cm"
    ensures After(unit + rest, "cm") == Some(rest)
    ensures unit + rest != "" && !IsSpace((unit + rest)[0]) && !IsDigit((unit + rest)[0])
  {
    assert |Lower(unit)| == |unit| == 2 && Lower(unit)[0] == LowerChar(unit[0]) == 'c';
    assert (unit + rest)[..2] == unit && (unit + rest)[2..] == rest && (unit + rest)[0] == unit[0];
  }

  lemma OpenIs(cm: Cm)
    requires cm.Fits()
    ensures StripLeft(SkipOne(StripLeft(cm.Text()), {'('})) == cm.Number()
    ensures IsDigit(cm.Number()[0])
    ensures cm.Text()[0] !in {'s', 'S'}
  {
    var number := cm.Number();
    assert number[0] == cm.digits[0];
    StripLeftOf(cm.gap', number);
    assert StripLeft(number) == number;
    if cm.open == "" {
      assert cm.Text() == cm.gap + (cm.gap' + number);
      StripLeftAgain(cm.gap, cm.gap' + number);
    } else {
      var tail := cm.open + (cm.gap' + number);
      assert tail[0] == '(' && tail[1..] == cm.gap' + number;
      StripLeftOf(cm.gap, tail);
    }
  }

  lemma CmIs(cm: Cm)
    requires cm.Fits()
    ensures CmInParens(cm.Text()) == if 2 <= |cm.digits| <= 3 then Some(NumeralValue(cm.digits)) else None
  {
    OpenIs(cm);
    UnitIs(cm.unit, cm.Closing());
    AfterGap(cm.digits, cm.gap'', cm.unit + cm.Closing());
    CloseIs(cm.gap''', cm.close);
  }

  // ------------------------------------------------------------- the token

  /** The last character of a token that ends in a parenthesis or in the unit. */
  lemma LastOfCm(cm: Cm, front: string)
    requires cm.Fits() && (cm.close == "" ==> cm.gap''' == "")
    ensures var t := front + cm.Text(); t != "" && t[|t| - 1] in {')', 'm', 'M'}
  {
    var t := front + cm.Text();
    assert |Lower(cm.unit)| == |cm.unit| == 2 && Lower(cm.unit)[1] == LowerChar(cm.unit[1]) == 'm';
    if cm.close == "" {
      assert cm.Closing() == "";
      assert t[|t| - 1] == cm.unit[1];
    } else {
      assert t[|t| - 1] == cm.close[0];
    }
  }

  lemma YearsTaken(t: string, n: nat)
    requires t != "" && IsDigit(t[0]) && t[|t| - 1] in {')', 'm', 'M'}
    requires YearsMeasure(t) == Some(n) && Measure(t, 2, 2, "inch") == None
    ensures ParseSize(t) == Some(ParsedSize(Kids, Decimal(n) + "cm"))
  {
    StripNothing(t);
    NoSuchClothing(t);
  }

  function YearsToken(range: Range, gap: string, word: string, plural: string, cm: Cm): string {
    range.Before(gap + (word + (plural + cm.Text())))
  }

  lemma RegroupToken(range: Range, gap: string, word: string, plural: string, cm: Cm) returns (front: string)
    ensures YearsToken(range, gap, word, plural, cm) == front + cm.Text()
  {
    front := range.from + (range.gap + (range.sep + (range.gap' + (range.to + (gap + (word + plural))))));
  }

  /** One or two numbers of years, the word in any case with or without its `s`,
      and two or three digits of centimetres, in parentheses or not, with blanks
      wherever the parts meet: the centimetres count, and nothing else. */
  lemma YearsInAnySpelling(range: Range, gap: string, word: string, plural: string, cm: Cm)
    requires range.Fits() && IsBlank(gap) && Lower(word) == "year" && plural in {"", "s", "S"}
    requires cm.Fits() && (cm.close == "" ==> cm.gap''' == "") && 2 <= |cm.digits| <= 3
    ensures ParseSize(YearsToken(range, gap, word, plural, cm))
            == Some(ParsedSize(Kids, Decimal(NumeralValue(cm.digits)) + "cm"))
  {
    var t := YearsToken(range, gap, word, plural, cm);
    YearsTokenReads(range, gap, word, plural, cm);
    var front := RegroupToken(range, gap, word, plural, cm);
    LastOfCm(cm, front);
    YearsTaken(t, NumeralValue(cm.digits));
  }

  lemma YearsTokenReads(range: Range, gap: string, word: string, plural: string, cm: Cm)
    requires range.Fits() && IsBlank(gap) && Lower(word) == "year" && plural in {"", "s", "S"}
    requires cm.Fits() && 2 <= |cm.digits| <= 3
    ensures var t := YearsToken(range, gap, word, plural, cm);
            && t != "" && IsDigit(t[0])
            && YearsMeasure(t) == Some(NumeralValue(cm.digits)) && Measure(t, 2, 2, "inch") == None
  {
    var t, rest := YearsToken(range, gap, word, plural, cm), word + (plural + cm.Text());
    OpenIs(cm);
    YearWord(word, plural, cm.Text());
    RangeIs(range, gap, rest);
    CmIs(cm);
    assert t[0] == range.from[0];
    ComposeYears(t, rest, plural + cm.Text(), cm.Text());
    NoInches(t);
  }

  /** The three parts of the years pattern, one after the other. */
  lemma ComposeYears(t: string, rest: string, tail: string, cm: string)
    requires LeadingDigits(t) != "" && AfterRange(t) == rest && After(rest, "year") == Some(tail)
    requires SkipOne(tail, {'s', 'S'}) == cm
    ensures YearsMeasure(t) == CmInParens(cm)
  {
  }

  lemma NoInches(t: string)
    requires var s := StripLeft(AfterDigits(t)); s != "" && LowerChar(s[0]) != 'i'
    ensures Measure(t, 2, 2, "inch") == None
  {
    var s := StripLeft(AfterDigits(t));
    assert Lower(s)[0] == LowerChar(s[0]);
  }
}
