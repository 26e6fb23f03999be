/** Size tokens: the four patterns, and when a canonical form reads back. */
module Sizes {
  import opened Text

  datatype Category = Clothing | Pants | Shoes | Kids

  datatype ParsedSize = ParsedSize(category: Category, canonical: string)

  // ------------------------------------------------------- the patterns

  const CLOTHING := {"XXS", "XS", "S", "M", "L", "XL", "XXL", "3XL"}

  /** The longest prefix of digits. */
  function LeadingDigits(s: string): (d: string)
    ensures d <= s && AllDigits(d)
  {
    if s == "" || !IsDigit(s[0]) then "" else [s[0]] + LeadingDigits(s[1..])
  }

  function AfterDigits(s: string): string {
    s[|LeadingDigits(s)|..]
  }

  /** The text after `word`, in any case; None when it does not start so. */
  function After(s: string, word: string): Option<string> {
    if |word| <= |s| && Lower(s[..|word|]) == word then Some(s[|word|..]) else None
  }

  function SkipOne(s: string, chars: set<char>): string {
    if s != "" && s[0] in chars then s[1..] else s
  }

  /** `(\d{lo,hi})\s*unit` over the whole token: the number. */
  function Measure(s: string, lo: nat, hi: nat, unit: string): Option<nat> {
    var d := LeadingDigits(s);
    if lo <= |d| <= hi && Lower(StripLeft(AfterDigits(s))) == unit then Some(NumeralValue(d)) else None
  }

  /** What follows `\d+\s*[-/]?\s*\d*\s*`. */
  function AfterRange(s: string): string {
    StripLeft(AfterDigits(StripLeft(SkipOne(StripLeft(AfterDigits(s)), {'-', '/'}))))
  }

  /** `\s*\(?\s*(\d{2,3})\s*cm\s*\)?`: the number. */
  function CmInParens(s: string): Option<nat> {
    var number := StripLeft(SkipOne(StripLeft(s), {'('}));
    var d := LeadingDigits(number);
    if !(2 <= |d| <= 3) then None
    else match After(StripLeft(AfterDigits(number)), "cm")
      case None => None
      case Some(tail) => if SkipOne(StripLeft(tail), {')'}) == "" then Some(NumeralValue(d)) else None
  }

  /** The years pattern: the number of centimetres. */
  function YearsMeasure(s: string): Option<nat> {
    if LeadingDigits(s) == "" then None
    else match After(AfterRange(s), "year")
      case None => None
      case Some(rest) => CmInParens(SkipOne(rest, {'s', 'S'}))
  }

  function CmText(n: nat): string {
    Decimal(n) + "cm"
  }

  /** A shoe number, with an optional half. */
  function ShoeSize(token: string): Option<string> {
    var d, half := LeadingDigits(token), AfterDigits(token);
    if |d| == 2 && (half == "" || half == ".5") && 37 <= NumeralValue(d) <= 43
    then Some(Decimal(NumeralValue(d)) + half) else None
  }

  /** The patterns after clothing, in the order the code tries them. */
  function ParseNumbered(token: string): Option<ParsedSize> {
    var inches := Measure(token, 2, 2, "inch");
    var years := YearsMeasure(token);
    var cm := Measure(token, 2, 3, "cm");
    var shoe := ShoeSize(token);
    if inches.Some? && 22 <= inches.value <= 40 then Some(ParsedSize(Pants, Decimal(inches.value) + "inch"))
    else if years.Some? then Some(ParsedSize(Kids, CmText(years.value)))
    else if cm.Some? && 60 <= cm.value <= 180 then Some(ParsedSize(Kids, CmText(cm.value)))
    else if shoe.Some? then Some(ParsedSize(Shoes, shoe.value))
    else None
  }

  /** `parse_size`. */
  function ParseSize(raw: string): Option<ParsedSize> {
    var token := Strip(raw);
    if token == "" then None
    else if Upper(token) in CLOTHING then Some(ParsedSize(Clothing, Upper(token)))
    else ParseNumbered(token)
  }

  // ------------------------------------------------------- read back

  lemma {:induction false} DigitsThen(d: string, rest: string)
    requires AllDigits(d) && (rest == "" || !IsDigit(rest[0]))
    ensures LeadingDigits(d + rest) == d && AfterDigits(d + rest) == rest
  {
    if d != "" {
      assert (d + rest)[1..] == d[1..] + rest;
      DigitsThen(d[1..], rest);
      assert (d + rest)[0] == d[0];
      assert d == [d[0]] + d[1..];
      assert (d + rest)[|d|..] == rest;
    } else {
      assert d + rest == rest;
    }
  }

  /** A number and a lower-case unit, as a token. */
  lemma NumberedToken(n: nat, unit: string)
    requires unit != "" && 'a' <= unit[0] <= 'z' && !IsSpace(unit[|unit| - 1])
    ensures var t := Decimal(n) + unit;
            Strip(t) == t && t != "" && LeadingDigits(t) == Decimal(n) && AfterDigits(t) == unit
  {
    var d, t := Decimal(n), Decimal(n) + unit;
    DigitsThen(d, unit);
    assert IsDigit(d[0]) && t[0] == d[0] && t[|t| - 1] == unit[|unit| - 1];
    StripNothing(t);
  }

  lemma {:induction false} DecimalLength(n: nat)
    requires n < 1000
    ensures |Decimal(n)| == if n < 10 then 1 else if n < 100 then 2 else 3
  {
    if n >= 10 {
      assert |Decimal(n)| == |Decimal(n / 10)| + 1;
      if n >= 100 {
        assert |Decimal(n / 10)| == |Decimal(n / 10 / 10)| + 1;
      }
    }
  }

  lemma NoRange(t: string, unit: string)
    requires AfterDigits(t) == unit
    requires unit == "" || (!IsSpace(unit[0]) && !IsDigit(unit[0]) && unit[0] !in {'-', '/'})
    ensures AfterRange(t) == unit
  {
    assert StripLeft(unit) == unit && SkipOne(unit, {'-', '/'}) == unit;
    assert LeadingDigits(unit) == "" && AfterDigits(unit) == unit;
  }

  lemma NoWord(unit: string, word: string)
    requires word != "" && (unit == "" || Lower(unit)[0] != word[0])
    ensures After(unit, word) == None
  {
    if |word| <= |unit| {
      assert Lower(unit[..|word|])[0] == Lower(unit)[0];
    }
  }

  /** After a number, a unit that is no year leaves the years pattern unmatched. */
  lemma NotYears(t: string, unit: string)
    requires AfterDigits(t) == unit
    requires unit == "" || unit[0] in {'i', 'c', '.'}
    ensures YearsMeasure(t) == None
  {
    assert unit != "" ==> !IsSpace(unit[0]) && !IsDigit(unit[0]) && Lower(unit)[0] == unit[0];
    NoRange(t, unit);
    NoWord(unit, "year");
  }

  lemma CmUnit()
    ensures StripLeft("cm") == "cm" && Lower("cm") == "cm" && Lower("cm") != "inch"
  {
  }

  lemma CmMeasures(n: nat, lo: nat, hi: nat)
    ensures Measure(CmText(n), lo, hi, "inch") == None
    ensures Measure(CmText(n), lo, hi, "cm") == if lo <= |Decimal(n)| <= hi then Some(n) else None
  {
    NumberedToken(n, "cm");
    NumeralOfDecimal(n);
    CmUnit();
  }

  /** A number of centimetres is a kids size exactly from 60 to 180. */
  lemma CmReads(n: nat)
    ensures ParseSize(CmText(n)) == if 60 <= n <= 180 then Some(ParsedSize(Kids, CmText(n))) else None
  {
    var t := CmText(n);
    NumberedToken(n, "cm");
    CmMeasures(n, 2, 2);
    CmMeasures(n, 2, 3);
    if n < 1000 {
      DecimalLength(n);
    }
    NotYears(t, "cm");
    assert t[|t| - 1] == 'm' && |t| > 2 && IsDigit(t[0]);
    NoSuchClothing(t);
  }

  lemma NoSuchClothing(t: string)
    requires t != "" && IsDigit(t[0]) && t[|t| - 1] != 'L' && t[|t| - 1] != 'l'
    ensures Upper(t) !in CLOTHING
  {
    assert Upper(t)[0] == t[0];
    assert Upper(t)[|t| - 1] != 'L';
  }

  lemma InchUnit()
    ensures StripLeft("inch") == "inch" && Lower("inch") == "inch" && Lower("inch") != "cm"
    ensures "inch" != "" && "inch" != ".5"
  {
  }

  /** A measure of a number and a unit, as a whole token. */
  lemma MeasureOf(t: string, n: nat, unit: string, lo: nat, hi: nat, want: string)
    requires LeadingDigits(t) == Decimal(n) && AfterDigits(t) == unit && Lower(StripLeft(unit)) == unit
    ensures Measure(t, lo, hi, want) == if lo <= |Decimal(n)| <= hi && unit == want then Some(n) else None
  {
    NumeralOfDecimal(n);
  }

  lemma LengthInRange(n: nat)
    ensures 22 <= n <= 43 ==> |Decimal(n)| == 2
  {
    if n < 1000 {
      DecimalLength(n);
    }
  }

  /** A number of inches is a pants size exactly from 22 to 40. */
  lemma InchReads(n: nat)
    ensures ParseSize(Decimal(n) + "inch")
            == if 22 <= n <= 40 then Some(ParsedSize(Pants, Decimal(n) + "inch")) else None
  {
    var t := Decimal(n) + "inch";
    NumberedToken(n, "inch");
    InchUnit();
    LengthInRange(n);
    MeasureOf(t, n, "inch", 2, 2, "inch");
    MeasureOf(t, n, "inch", 2, 3, "cm");
    NotYears(t, "inch");
    assert t[|t| - 1] == 'h' && IsDigit(t[0]);
    NoSuchClothing(t);
  }

  lemma UnitWord(word: string)
    requires Lower(word) in {"inch", "cm"}
    ensures word != "" && !IsSpace(word[0]) && !IsDigit(word[0]) && word[0] !in {'-', '/', '.'}
    ensures LowerChar(word[0]) != 'y' && word[|word| - 1] in {'h', 'H', 'm', 'M'}
  {
    assert |Lower(word)| == |word|;
    assert Lower(word)[0] == LowerChar(word[0]) && Lower(word)[|word| - 1] == LowerChar(word[|word| - 1]);
    assert LowerChar(word[0]) in {'i', 'c'} && LowerChar(word[|word| - 1]) in {'h', 'm'};
  }

  /** Digits, a gap and a unit, as a token. */
  lemma SpacedToken(d: string, gap: string, word: string)
    requires d != "" && AllDigits(d) && IsBlank(gap) && Lower(word) in {"inch", "cm"}
    ensures var t := d + (gap + word);
            && Strip(t) == t && IsDigit(t[0]) && t[|t| - 1] in {'h', 'H', 'm', 'M'}
            && LeadingDigits(t) == d && AfterDigits(t) == gap + word && StripLeft(gap + word) == word
  {
    var rest := gap + word;
    UnitWord(word);
    assert rest[0] == if gap == "" then word[0] else gap[0];
    DigitsThen(d, rest);
    assert (d + rest)[0] == d[0] && (d + rest)[|d + rest| - 1] == word[|word| - 1];
    StripNothing(d + rest);
    StripLeftOf(gap, word);
  }

  lemma SpacedIsNoYears(t: string, word: string)
    requires StripLeft(AfterDigits(t)) == word && Lower(word) in {"inch", "cm"}
    ensures YearsMeasure(t) == None
  {
    UnitWord(word);
    assert StripLeft(word) == word && SkipOne(word, {'-', '/'}) == word;
    assert LeadingDigits(word) == "" && AfterDigits(word) == word;
    NoWord(word, "year");
  }

  lemma SpacedIsNoShoe(t: string, gap: string, word: string)
    requires AfterDigits(t) == gap + word && IsBlank(gap) && Lower(word) in {"inch", "cm"}
    ensures ShoeSize(t) == None
  {
    UnitWord(word);
    assert (gap + word)[0] == if gap == "" then word[0] else gap[0];
    assert (gap + word)[0] != '.';
  }

  /** Digits and a unit in any case, with or without a gap: two digits from 22 to
      40 inches are pants, two or three from 60 to 180 centimetres kids sizes. */
  lemma UnitReads(d: string, gap: string, word: string)
    requires d != "" && AllDigits(d) && IsBlank(gap) && Lower(word) in {"inch", "cm"}
    ensures var n := NumeralValue(d);
            ParseSize(d + (gap + word))
            == if Lower(word) == "inch" && |d| == 2 && 22 <= n <= 40
               then Some(ParsedSize(Pants, Decimal(n) + "inch"))
               else if Lower(word) == "cm" && 2 <= |d| <= 3 && 60 <= n <= 180
               then Some(ParsedSize(Kids, Decimal(n) + "cm"))
               else None
  {
    var t := d + (gap + word);
    SpacedToken(d, gap, word);
    SpacedIsNoYears(t, word);
    SpacedIsNoShoe(t, gap, word);
    NoSuchClothing(t);
    InchUnit();
    UnitMeasure(t, d, word, 2, 2, "inch");
    UnitMeasure(t, d, word, 2, 3, "cm");
    TakesMeasure(t, Measure(t, 2, 2, "inch"), Measure(t, 2, 3, "cm"));
  }

  lemma UnitMeasure(t: string, d: string, word: string, lo: nat, hi: nat, unit: string)
    requires AllDigits(d) && LeadingDigits(t) == d && StripLeft(AfterDigits(t)) == word
    ensures Measure(t, lo, hi, unit)
            == if lo <= |d| <= hi && Lower(word) == unit then Some(NumeralValue(d)) else None
  {
  }

  lemma TakesMeasure(t: string, inches: Option<nat>, cm: Option<nat>)
    requires Strip(t) == t && t != "" && Upper(t) !in CLOTHING && YearsMeasure(t) == None && ShoeSize(t) == None
    requires inches == Measure(t, 2, 2, "inch") && cm == Measure(t, 2, 3, "cm")
    ensures ParseSize(t)
            == if inches.Some? && 22 <= inches.value <= 40
               then Some(ParsedSize(Pants, Decimal(inches.value) + "inch"))
               else if cm.Some? && 60 <= cm.value <= 180
               then Some(ParsedSize(Kids, Decimal(cm.value) + "cm"))
               else None
  {
  }

  /** Blanks around a token do not matter. */
  lemma BlanksAroundSize(left: string, token: string, right: string)
    requires IsBlank(left) && IsBlank(right)
    requires token != "" && !IsSpace(token[0]) && !IsSpace(token[|token| - 1])
    ensures ParseSize(left + token + right) == ParseSize(token)
  {
    StripOf(left, token, right);
    StripNothing(token);
  }

  lemma HalfIsNoUnit(half: string)
    requires half == "" || half == ".5"
    ensures Lower(StripLeft(half)) == half && half != "inch" && half != "cm"
  {
  }

  lemma ShoeToken(n: nat, half: string)
    requires half == "" || half == ".5"
    ensures var t := Decimal(n) + half;
            && Strip(t) == t && t != "" && IsDigit(t[0]) && IsDigit(t[|t| - 1])
            && LeadingDigits(t) == Decimal(n) && AfterDigits(t) == half
  {
    var d, t := Decimal(n), Decimal(n) + half;
    DigitsThen(d, half);
    assert IsDigit(d[0]) && IsDigit(d[|d| - 1]) && t[0] == d[0];
    assert t[|t| - 1] == if half == "" then d[|d| - 1] else '5';
    StripNothing(t);
  }

  lemma ShoeSizeReads(n: nat, half: string)
    requires half == "" || half == ".5"
    ensures ShoeSize(Decimal(n) + half) == if 37 <= n <= 43 then Some(Decimal(n) + half) else None
  {
    ShoeToken(n, half);
    NumeralOfDecimal(n);
    if n < 1000 {
      DecimalLength(n);
    }
  }

  /** A number, with or without a half, is a shoe size exactly from 37 to 43. */
  lemma ShoeReads(n: nat, half: string)
    requires half == "" || half == ".5"
    ensures ParseSize(Decimal(n) + half)
            == if 37 <= n <= 43 then Some(ParsedSize(Shoes, Decimal(n) + half)) else None
  {
    var t := Decimal(n) + half;
    ShoeToken(n, half);
    ShoeSizeReads(n, half);
    HalfIsNoUnit(half);
    MeasureOf(t, n, half, 2, 2, "inch");
    MeasureOf(t, n, half, 2, 3, "cm");
    NotYears(t, half);
    NoSuchClothing(t);
  }

  lemma ClothingReads(name: string)
    requires name in CLOTHING
    ensures ParseSize(name) == Some(ParsedSize(Clothing, name))
  {
    assert Upper(name) == name && name != "" && !IsSpace(name[0]) && !IsSpace(name[|name| - 1]);
    StripNothing(name);
  }

  /** A token is a clothing size exactly when it is one of the eight names, in any
      case; the canonical form is in capitals. */
  lemma ClothingIff(raw: string)
    ensures var name := Upper(Strip(raw));
            (ParseSize(raw).Some? && ParseSize(raw).value.category == Clothing)
            <==> name in {"XXS", "XS", "S", "M", "L", "XL", "XXL", "3XL"}
    ensures ParseSize(raw).Some? && ParseSize(raw).value.category == Clothing ==>
              ParseSize(raw).value.canonical == Upper(Strip(raw))
  {
    var token := Strip(raw);
    if token == "" {
      assert Upper(token) == "";
    }
  }

  lemma NumeralStep(d: string)
    requires AllDigits(d) && d != ""
    ensures NumeralValue(d) <= 10 * NumeralValue(d[..|d| - 1]) + 9
  {
  }

  lemma ShortNumeral(d: string)
    requires AllDigits(d) && |d| <= 3
    ensures NumeralValue(d) < 1000
  {
    if d != "" {
      var a := d[..|d| - 1];
      NumeralStep(d);
      if a != "" {
        var b := a[..|a| - 1];
        NumeralStep(a);
        if b != "" {
          NumeralStep(b);
          assert b[..|b| - 1] == "";
        }
      }
    }
  }

  lemma KidsAreShort(token: string)
    ensures YearsMeasure(token).Some? ==> YearsMeasure(token).value < 1000
  {
    if YearsMeasure(token).Some? {
      var rest := SkipOne(After(AfterRange(token), "year").value, {'s', 'S'});
      ShortNumeral(LeadingDigits(StripLeft(SkipOne(StripLeft(rest), {'('}))));
    }
  }

  /** A canonical size reads back as itself exactly when it is no kids size
      outside 60 to 180 cm: the years pattern has no range check, and its
      canonical form is then no size at all. */
  lemma CanonicalReadsBackIff(raw: string)
    requires ParseSize(raw).Some?
    ensures var p := ParseSize(raw).value;
            && (ParseSize(p.canonical) == Some(p)
                <==> p.category != Kids || exists n :: 60 <= n <= 180 && p.canonical == CmText(n))
            && (ParseSize(p.canonical) != Some(p) ==> ParseSize(p.canonical) == None)
  {
    var token, p := Strip(raw), ParseSize(raw).value;
    match p.category {
      case Clothing => ClothingReads(p.canonical);
      case Pants => InchReads(Measure(token, 2, 2, "inch").value);
      case Shoes => ShoeReads(NumeralValue(LeadingDigits(token)), AfterDigits(token));
      case Kids =>
        KidsAreShort(token);
        var n := if YearsMeasure(token).Some? then YearsMeasure(token).value else Measure(token, 2, 3, "cm").value;
        assert p.canonical == CmText(n);
        CmReads(n);
        forall m: nat | CmText(m) == CmText(n) ensures m == n {
          CmTextInjective(m, n);
        }
    }
  }

  lemma CmTextInjective(m: nat, n: nat)
    requires CmText(m) == CmText(n)
    ensures m == n
  {
    assert CmText(m)[..|CmText(m)| - 2] == Decimal(m);
    assert CmText(n)[..|CmText(n)| - 2] == Decimal(n);
    DecimalInjective(m, n);
  }

  /** A kids size as the shop prints it: `5-6 Years (120cm)`. */
  function YearsText(a: nat, b: nat, n: nat): string {
    Decimal(a) + ("-" + (Decimal(b) + (" " + ("Years" + InParens(n)))))
  }

  function InParens(n: nat): string {
    " (" + (CmText(n) + ")")
  }

  lemma CmWord()
    ensures StripLeft("cm)") == "cm)" && After("cm)", "cm") == Some(")") && SkipOne(StripLeft(")"), {')'}) == ""
  {
    assert "cm)"[..2] == "cm" && "cm)"[2..] == ")" && Lower("cm") == "cm";
    assert ")"[1..] == "";
  }

  lemma CmInParensReads(n: nat)
    requires 10 <= n < 1000
    ensures CmInParens(InParens(n)) == Some(n)
  {
    var t, tail := InParens(n), CmText(n) + ")";
    var p := "(" + tail;
    assert t[0] == ' ' && t[1..] == p;
    assert p[0] == '(' && !IsSpace(p[0]) && p[1..] == tail;
    assert StripLeft(t) == p;
    assert SkipOne(p, {'('}) == p[1..];
    assert tail == Decimal(n) + "cm)";
    assert IsDigit(tail[0]) && StripLeft(tail) == tail;
    DigitsThen(Decimal(n), "cm)");
    DecimalLength(n);
    NumeralOfDecimal(n);
    CmWord();
  }

  lemma YearWordIsCut(t: string)
    ensures After("Years" + t, "year") == Some("s" + t) && SkipOne("s" + t, {'s', 'S'}) == t
    ensures StripLeft(" " + ("Years" + t)) == "Years" + t
  {
    var w := "Years" + t;
    assert w[..4] == "Year" && w[4..] == "s" + t;
    assert Lower("Year") == "year";
    assert ("s" + t)[1..] == t;
    assert (" " + w)[1..] == w && w[0] == 'Y';
  }

  lemma RangeIsCut(a: nat, b: nat, t: string)
    ensures var s := Decimal(a) + ("-" + (Decimal(b) + (" " + t)));
            && LeadingDigits(s) == Decimal(a) && AfterDigits(s) == "-" + (Decimal(b) + (" " + t))
            && AfterRange(s) == StripLeft(" " + t)
  {
    var u := Decimal(b) + (" " + t);
    var v := "-" + u;
    assert v[0] == '-' && v[1..] == u;
    DigitsThen(Decimal(a), v);
    assert StripLeft(v) == v && SkipOne(v, {'-', '/'}) == u;
    assert IsDigit(u[0]) && StripLeft(u) == u;
    DigitsThen(Decimal(b), " " + t);
  }

  lemma YearsReads(a: nat, b: nat, n: nat)
    requires 10 <= n < 1000
    ensures YearsMeasure(YearsText(a, b, n)) == Some(n)
    ensures Measure(YearsText(a, b, n), 2, 2, "inch") == None
  {
    var t := InParens(n);
    RangeIsCut(a, b, "Years" + t);
    YearWordIsCut(t);
    CmInParensReads(n);
    var v := "-" + (Decimal(b) + (" " + ("Years" + t)));
    assert v[0] == '-' && StripLeft(v) == v && Lower(v)[0] == '-';
  }

  /** A printed kids size is taken whatever its years and its number from 10 to
      999, but only the numbers from 60 to 180 are sizes in their canonical
      form: the years pattern has no range check. */
  lemma YearsHaveNoRangeCheck(a: nat, b: nat, n: nat)
    requires 10 <= n < 1000
    ensures ParseSize(YearsText(a, b, n)) == Some(ParsedSize(Kids, CmText(n)))
    ensures ParseSize(CmText(n)) == if 60 <= n <= 180 then Some(ParsedSize(Kids, CmText(n))) else None
  {
    var t := YearsText(a, b, n);
    YearsReads(a, b, n);
    CmReads(n);
    assert t[0] == Decimal(a)[0] && t[|t| - 1] == ')';
    StripNothing(t);
    NoSuchClothing(t);
  }
}
