/** Pasted invoices: the line walk, and what it finds. */
module Invoice {
  import opened FlatMaps
  import opened Text
  import opened Sizes

  // --------------------------------------------------------- text to lines

  /** Zero-width space, non-joiner and joiner, and the byte-order mark. */
  predicate IsInvisible(c: char) {
    c == '\U{200B}' || c == '\U{200C}' || c == '\U{200D}' || c == '\U{FEFF}'
  }

  function Visible(s: string): string {
    if s == "" then "" else (if IsInvisible(s[0]) then "" else [s[0]]) + Visible(s[1..])
  }

  /** Carriage returns, with or without a line feed, as line feeds. */
  function LineFeeds(s: string): string {
    if s == "" then ""
    else if s[0] != '\r' then [s[0]] + LineFeeds(s[1..])
    else "\n" + LineFeeds(s[if |s| > 1 && s[1] == '\n' then 2 else 1..])
  }

  function Lines(text: string): (lines: seq<string>)
    ensures |lines| > 0
  {
    Split(LineFeeds(Visible(text)), '\n')
  }

  // ------------------------------------------------------------- one line

  datatype Kind = Product | Colour | OneSize | Unparsed | InSize(category: Category)

  datatype Finding = Finding(kind: Kind, text: string)

  /** The id of a product header. */
  function HeaderId(line: string): Option<string> {
    var s := Strip(line);
    var d, rest := LeadingDigits(s), StripLeft(AfterDigits(s));
    if 10 <= |d| <= 16 && |rest| > 1 && rest[0] == ',' then Some(d) else None
  }

  predicate IsHeader(line: string) {
    HeaderId(line).Some?
  }

  /** `[A-Z][A-Z /]+?\s*` over the whole text. */
  predicate IsColour(s: string) {
    var core := StripRight(s);
    && core != "" && 'A' <= core[0] <= 'Z'
    && (forall i :: 0 <= i < |core| ==> 'A' <= core[i] <= 'Z' || core[i] in {' ', '/'})
    && (|core| > 1 || (|s| > 1 && s[1] == ' '))
  }

  /** The colour and the size token of a stripped line. */
  function ColourSize(s: string): Option<(string, string)> {
    var k := IndexOf(s, ',');
    if k + 1 < |s| && IsColour(s[..k]) then Some((StripRight(s[..k]), Strip(s[k + 1..]))) else None
  }

  function SizeFinding(s: string, token: string): Finding {
    if Lower(token) == "one size" then Finding(OneSize, token)
    else match ParseSize(token)
      case None => Finding(Unparsed, s)
      case Some(size) => Finding(InSize(size.category), size.canonical)
  }

  /** What a line adds, given the line before it. */
  function LineFindings(before: string, line: string): seq<Finding> {
    if IsHeader(line) then [Finding(Product, HeaderId(line).value)]
    else if !IsHeader(before) then []
    else match ColourSize(Strip(line))
      case None => []
      case Some((colour, token)) => [Finding(Colour, colour), SizeFinding(Strip(line), token)]
  }

  /** The line before line `n`; nothing comes before the first. */
  function LineBefore(lines: seq<string>, n: nat): string
    requires n <= |lines|
  {
    if n == 0 then "" else lines[n - 1]
  }

  /** What the lines add, each looked at with no more than the line before it. */
  function Walk(read: (string, string) -> seq<Finding>, lines: seq<string>): seq<Finding> {
    if lines == [] then []
    else
      var n := |lines| - 1;
      Walk(read, lines[..n]) + read(LineBefore(lines, n), lines[n])
  }

  function Findings(lines: seq<string>): seq<Finding> {
    Walk(LineFindings, lines)
  }

  // ----------------------------------------------------------- the result

  function AddOnce(list: seq<string>, x: string): seq<string> {
    if x in list then list else list + [x]
  }

  /** `list` followed by what is new in `more`. */
  function AddNew(list: seq<string>, more: seq<string>): seq<string> {
    if more == [] then list else AddOnce(AddNew(list, more[..|more| - 1]), more[|more| - 1])
  }

  /** The texts of one kind, each once. */
  function Listed(kind: Kind, found: seq<Finding>): seq<string> {
    if found == [] then []
    else
      var rest, last := Listed(kind, found[..|found| - 1]), found[|found| - 1];
      if last.kind == kind then AddOnce(rest, last.text) else rest
  }

  /** The lines whose size was not understood, repeated ones too. */
  function UnparsedIn(found: seq<Finding>): seq<string> {
    if found == [] then []
    else
      var rest, last := UnparsedIn(found[..|found| - 1]), found[|found| - 1];
      if last.kind == Unparsed then rest + [last.text] else rest
  }

  predicate HasOneSize(found: seq<Finding>) {
    exists i :: 0 <= i < |found| && found[i].kind == OneSize
  }

  datatype ParsedInvoice = ParsedInvoice(
    clothing: seq<string>, pants: seq<string>, shoes: seq<string>, kids: seq<string>, oneSize: bool,
    productIds: seq<string>, colors: seq<string>, unparsedLines: seq<string>)

  function InvoiceOf(found: seq<Finding>): ParsedInvoice {
    ParsedInvoice(Listed(InSize(Clothing), found), Listed(InSize(Pants), found), Listed(InSize(Shoes), found),
                  Listed(InSize(Kids), found), HasOneSize(found),
                  Listed(Product, found), Listed(Colour, found), UnparsedIn(found))
  }

  function Parsed(text: string): ParsedInvoice {
    InvoiceOf(Findings(Lines(text)))
  }

  /** One invoice followed by another. */
  function Plus(a: ParsedInvoice, b: ParsedInvoice): ParsedInvoice {
    ParsedInvoice(AddNew(a.clothing, b.clothing), AddNew(a.pants, b.pants), AddNew(a.shoes, b.shoes),
                  AddNew(a.kids, b.kids), a.oneSize || b.oneSize,
                  AddNew(a.productIds, b.productIds), AddNew(a.colors, b.colors),
                  a.unparsedLines + b.unparsedLines)
  }

  // ------------------------------------------------------- the line machine

  /** A list with the set of what is in it. */
  datatype Once = Once(list: seq<string>, seen: set<string>) {
    ghost predicate Holds(kind: Kind, found: seq<Finding>) {
      list == Listed(kind, found) && forall x :: x in seen <==> x in list
    }

    function Add(x: string): Once {
      if x in seen then this else Once(list + [x], seen + {x})
    }
  }

  /** The lists under construction. */
  datatype Tally = Tally(clothing: Once, pants: Once, shoes: Once, kids: Once, oneSize: bool,
                         productIds: Once, colors: Once, unparsed: seq<string>) {
    ghost predicate Holds(found: seq<Finding>) {
      && clothing.Holds(InSize(Clothing), found) && pants.Holds(InSize(Pants), found)
      && shoes.Holds(InSize(Shoes), found) && kids.Holds(InSize(Kids), found)
      && productIds.Holds(Product, found) && colors.Holds(Colour, found)
      && oneSize == HasOneSize(found) && unparsed == UnparsedIn(found)
    }

    function Add(f: Finding): Tally {
      match f.kind
      case Product => this.(productIds := productIds.Add(f.text))
      case Colour => this.(colors := colors.Add(f.text))
      case OneSize => this.(oneSize := true)
      case Unparsed => this.(unparsed := unparsed + [f.text])
      case InSize(Clothing) => this.(clothing := clothing.Add(f.text))
      case InSize(Pants) => this.(pants := pants.Add(f.text))
      case InSize(Shoes) => this.(shoes := shoes.Add(f.text))
      case InSize(Kids) => this.(kids := kids.Add(f.text))
    }

    function AddAll(found: seq<Finding>): Tally {
      if found == [] then this else AddAll(found[..|found| - 1]).Add(found[|found| - 1])
    }

    function Invoice(): ParsedInvoice {
      ParsedInvoice(clothing.list, pants.list, shoes.list, kids.list, oneSize,
                    productIds.list, colors.list, unparsed)
    }
  }

  const EMPTY_TALLY :=
    var empty := Once([], {});
    Tally(empty, empty, empty, empty, false, empty, empty, [])

  lemma ListedStep(kind: Kind, found: seq<Finding>, f: Finding)
    ensures Listed(kind, found + [f])
            == if f.kind == kind then AddOnce(Listed(kind, found), f.text) else Listed(kind, found)
  {
    assert (found + [f])[..|found|] == found;
  }

  lemma OnceStep(once: Once, kind: Kind, found: seq<Finding>, f: Finding)
    requires once.Holds(kind, found)
    ensures (if f.kind == kind then once.Add(f.text) else once).Holds(kind, found + [f])
  {
    ListedStep(kind, found, f);
  }

  lemma TallyStep(tally: Tally, found: seq<Finding>, f: Finding)
    requires tally.Holds(found)
    ensures tally.Add(f).Holds(found + [f])
  {
    OnceStep(tally.clothing, InSize(Clothing), found, f);
    OnceStep(tally.pants, InSize(Pants), found, f);
    OnceStep(tally.shoes, InSize(Shoes), found, f);
    OnceStep(tally.kids, InSize(Kids), found, f);
    OnceStep(tally.productIds, Product, found, f);
    OnceStep(tally.colors, Colour, found, f);
    OtherStep(tally, found, f);
  }

  lemma OtherStep(tally: Tally, found: seq<Finding>, f: Finding)
    requires tally.oneSize == HasOneSize(found) && tally.unparsed == UnparsedIn(found)
    ensures tally.Add(f).oneSize == HasOneSize(found + [f])
    ensures tally.Add(f).unparsed == UnparsedIn(found + [f])
  {
    assert (found + [f])[..|found|] == found;
    OneSizeConcat(found, [f]);
    assert [f][0] == f;
  }

  lemma {:induction false} AllAdded(found: seq<Finding>)
    ensures EMPTY_TALLY.AddAll(found).Holds(found)
  {
    if found != [] {
      var n := |found| - 1;
      AllAdded(found[..n]);
      TallyStep(EMPTY_TALLY.AddAll(found[..n]), found[..n], found[n]);
      assert found == found[..n] + [found[n]];
    }
  }

  lemma {:induction false} AddAllConcat(tally: Tally, a: seq<Finding>, b: seq<Finding>)
    ensures tally.AddAll(a + b) == tally.AddAll(a).AddAll(b)
  {
    if b == [] {
      assert a + b == a;
    } else {
      var n := |b| - 1;
      AddAllConcat(tally, a, b[..n]);
      assert (a + b)[..|a| + n] == a + b[..n];
    }
  }

  lemma AddAllShort(tally: Tally, f: Finding, g: Finding)
    ensures tally.AddAll([f]) == tally.Add(f) && tally.AddAll([f, g]) == tally.Add(f).Add(g)
  {
    assert [f][..0] == [] && [f, g][..1] == [f];
  }

  lemma WalkSnoc(read: (string, string) -> seq<Finding>, lines: seq<string>, line: string)
    ensures Walk(read, lines + [line]) == Walk(read, lines) + read(LineBefore(lines, |lines|), line)
  {
    var more, n := lines + [line], |lines|;
    assert more[..n] == lines && more[n] == line;
    assert LineBefore(more, n) == LineBefore(lines, n);
  }

  lemma WalkStep(read: (string, string) -> seq<Finding>, lines: seq<string>, n: nat)
    requires n < |lines|
    ensures Walk(read, lines[..n + 1]) == Walk(read, lines[..n]) + read(LineBefore(lines, n), lines[n])
  {
    WalkSnoc(read, lines[..n], lines[n]);
    assert lines[..n + 1] == lines[..n] + [lines[n]];
  }

  lemma FindingsStep(lines: seq<string>, n: nat)
    requires n < |lines|
    ensures Findings(lines[..n + 1]) == Findings(lines[..n]) + LineFindings(LineBefore(lines, n), lines[n])
  {
    WalkStep(LineFindings, lines, n);
  }

  lemma BlankLine(line: string)
    requires Strip(line) == ""
    ensures !IsHeader(line) && forall before :: LineFindings(before, line) == []
  {
  }

  /** The body of the line loop: what one line adds, and the flag after it. */
  method ReadLine(tally: Tally, line: string, prevWasProduct: bool, ghost before: string)
    returns (r: Tally, wasProduct: bool)
    requires prevWasProduct <==> IsHeader(before)
    ensures r == tally.AddAll(LineFindings(before, line)) && (wasProduct <==> IsHeader(line))
  {
    r, wasProduct := tally, false;
    var s := Strip(line);
    if s == "" {
      BlankLine(line);
      return;
    }
    if IsHeader(line) {
      var header := Finding(Product, HeaderId(line).value);
      AddAllShort(tally, header, header);
      return tally.Add(header), true;
    }
    if prevWasProduct {
      match ColourSize(s) {
        case None =>
        case Some((colour, token)) =>
          var color, size := Finding(Colour, colour), SizeFinding(s, token);
          AddAllShort(tally, color, size);
          r := tally.Add(color).Add(size);
      }
    }
  }

  /** What the first `n` lines leave in the lists. */
  function TallyUpTo(lines: seq<string>, n: nat): Tally
    requires n <= |lines|
  {
    EMPTY_TALLY.AddAll(Findings(lines[..n]))
  }

  lemma TallyNextLine(lines: seq<string>, n: nat)
    requires n < |lines|
    ensures TallyUpTo(lines, n + 1) == TallyUpTo(lines, n).AddAll(LineFindings(LineBefore(lines, n), lines[n]))
    ensures LineBefore(lines, n + 1) == lines[n]
  {
    FindingsStep(lines, n);
    AddAllConcat(EMPTY_TALLY, Findings(lines[..n]), LineFindings(LineBefore(lines, n), lines[n]));
  }

  lemma TallyOfAll(lines: seq<string>)
    ensures TallyUpTo(lines, |lines|).Invoice() == InvoiceOf(Findings(lines))
  {
    assert lines[..|lines|] == lines;
    AllAdded(Findings(lines));
  }

  lemma TallyOfNone(lines: seq<string>)
    ensures TallyUpTo(lines, 0) == EMPTY_TALLY && !IsHeader(LineBefore(lines, 0))
  {
    assert lines[..0] == [];
    BlankLine("");
  }

  /** `parse_invoice`. */
  method ParseInvoice(text: string) returns (r: ParsedInvoice)
    ensures r == Parsed(text)
  {
    var lines := Lines(text);
    var tally, prevWasProduct := EMPTY_TALLY, false;
    TallyOfNone(lines);
    for n := 0 to |lines|
      invariant tally == TallyUpTo(lines, n) && prevWasProduct == IsHeader(LineBefore(lines, n))
    {
      TallyNextLine(lines, n);
      tally, prevWasProduct := ReadLine(tally, lines[n], prevWasProduct, LineBefore(lines, n));
    }
    TallyOfAll(lines);
    r := tally.Invoice();
  }

  // ------------------------------------------- lists in first-appearance order

  function FirstIndex<T(==)>(s: seq<T>, x: T): (i: nat)
    requires x in s
    ensures i < |s| && s[i] == x && x !in s[..i]
  {
    var n := |s| - 1;
    if x in s[..n] then
      var i := FirstIndex(s[..n], x);
      assert s[..n][..i] == s[..i];
      i
    else n
  }

  lemma FirstIndexStays<T>(s: seq<T>, y: T, x: T)
    requires x in s
    ensures x in s + [y] && FirstIndex(s + [y], x) == FirstIndex(s, x)
  {
    assert (s + [y])[..|s|] == s;
  }

  lemma {:induction false} ListedMembers(kind: Kind, found: seq<Finding>, x: string)
    ensures x in Listed(kind, found) <==> Finding(kind, x) in found
  {
    if found != [] {
      var n := |found| - 1;
      ListedMembers(kind, found[..n], x);
      assert found == found[..n] + [found[n]];
    }
  }

  ghost predicate InFirstAppearanceOrder(kind: Kind, found: seq<Finding>, list: seq<string>) {
    && (forall x :: x in list <==> Finding(kind, x) in found)
    && (forall i, j :: 0 <= i < j < |list| ==>
          FirstIndex(found, Finding(kind, list[i])) < FirstIndex(found, Finding(kind, list[j])))
  }

  lemma {:induction false} ListedRising(kind: Kind, found: seq<Finding>, i: nat, j: nat)
    requires i < j < |Listed(kind, found)|
    ensures Finding(kind, Listed(kind, found)[i]) in found && Finding(kind, Listed(kind, found)[j]) in found
    ensures FirstIndex(found, Finding(kind, Listed(kind, found)[i]))
            < FirstIndex(found, Finding(kind, Listed(kind, found)[j]))
  {
    var list, n := Listed(kind, found), |found| - 1;
    var before := found[..n];
    var earlier := Listed(kind, before);
    assert found == before + [found[n]];
    ListedMembers(kind, before, list[i]);
    FirstIndexStays(before, found[n], Finding(kind, list[i]));
    ListedMembers(kind, before, list[j]);
    if j < |earlier| {
      ListedRising(kind, before, i, j);
      FirstIndexStays(before, found[n], Finding(kind, list[j]));
    }
  }

  /** Each list holds exactly the texts of its kind, in the order of their first
      appearance; so none comes twice. */
  lemma ListedInOrder(kind: Kind, found: seq<Finding>)
    ensures InFirstAppearanceOrder(kind, found, Listed(kind, found))
  {
    var list := Listed(kind, found);
    forall x ensures x in list <==> Finding(kind, x) in found {
      ListedMembers(kind, found, x);
    }
    forall i, j | 0 <= i < j < |list|
      ensures FirstIndex(found, Finding(kind, list[i])) < FirstIndex(found, Finding(kind, list[j]))
    {
      ListedRising(kind, found, i, j);
    }
  }

  lemma ListsAreFirstAppearances(text: string)
    ensures var found, r := Findings(Lines(text)), Parsed(text);
            && InFirstAppearanceOrder(InSize(Clothing), found, r.clothing)
            && InFirstAppearanceOrder(InSize(Pants), found, r.pants)
            && InFirstAppearanceOrder(InSize(Shoes), found, r.shoes)
            && InFirstAppearanceOrder(InSize(Kids), found, r.kids)
            && InFirstAppearanceOrder(Product, found, r.productIds)
            && InFirstAppearanceOrder(Colour, found, r.colors)
  {
    var found := Findings(Lines(text));
    ListedInOrder(InSize(Clothing), found);
    ListedInOrder(InSize(Pants), found);
    ListedInOrder(InSize(Shoes), found);
    ListedInOrder(InSize(Kids), found);
    ListedInOrder(Product, found);
    ListedInOrder(Colour, found);
  }

  lemma {:induction false} SizesComeFromTokens(lines: seq<string>, f: Finding) returns (token: string)
    requires f in Findings(lines) && f.kind.InSize?
    ensures ParseSize(token) == Some(ParsedSize(f.kind.category, f.text))
  {
    var n := |lines| - 1;
    if f in Findings(lines[..n]) {
      token := SizesComeFromTokens(lines[..n], f);
    } else {
      token := ColourSize(Strip(lines[n])).value.1;
    }
  }

  /** Every size an invoice lists reads back as itself and in its category,
      except the kids sizes outside 60 to 180 cm, which read as nothing. */
  lemma ListedSizesReadBack(text: string, category: Category, size: string)
    requires size in Listed(InSize(category), Findings(Lines(text)))
    ensures ParseSize(size) == Some(ParsedSize(category, size))
            <==> category != Kids || exists n :: 60 <= n <= 180 && size == CmText(n)
    ensures ParseSize(size) == Some(ParsedSize(category, size)) || ParseSize(size) == None
  {
    ListedMembers(InSize(category), Findings(Lines(text)), size);
    var token := SizesComeFromTokens(Lines(text), Finding(InSize(category), size));
    CanonicalReadsBackIff(token);
  }

  // -------------------------------------------------------- compositionality

  lemma {:induction false} AddNewMembers(list: seq<string>, more: seq<string>, x: string)
    ensures x in AddNew(list, more) <==> x in list || x in more
  {
    if more != [] {
      var n := |more| - 1;
      AddNewMembers(list, more[..n], x);
      assert more == more[..n] + [more[n]];
    }
  }

  lemma AddNewOnce(list: seq<string>, more: seq<string>, x: string)
    ensures AddNew(list, AddOnce(more, x)) == AddOnce(AddNew(list, more), x)
  {
    AddNewMembers(list, more, x);
    assert (more + [x])[..|more|] == more;
  }

  lemma {:induction false} ListedConcat(kind: Kind, f: seq<Finding>, g: seq<Finding>)
    ensures Listed(kind, f + g) == AddNew(Listed(kind, f), Listed(kind, g))
  {
    if g == [] {
      assert f + g == f;
    } else {
      var n := |g| - 1;
      ListedConcat(kind, f, g[..n]);
      assert f + g == (f + g[..n]) + [g[n]] && g == g[..n] + [g[n]];
      ListedStep(kind, f + g[..n], g[n]);
      AddNewOnce(Listed(kind, f), Listed(kind, g[..n]), g[n].text);
    }
  }

  lemma {:induction false} UnparsedConcat(f: seq<Finding>, g: seq<Finding>)
    ensures UnparsedIn(f + g) == UnparsedIn(f) + UnparsedIn(g)
  {
    if g == [] {
      assert f + g == f;
    } else {
      var n := |g| - 1;
      UnparsedConcat(f, g[..n]);
      assert (f + g)[..|f + g| - 1] == f + g[..n];
    }
  }

  lemma OneSizeConcat(f: seq<Finding>, g: seq<Finding>)
    ensures HasOneSize(f + g) <==> HasOneSize(f) || HasOneSize(g)
  {
    assert forall i :: 0 <= i < |f| ==> (f + g)[i] == f[i];
    assert forall i :: 0 <= i < |g| ==> (f + g)[|f| + i] == g[i];
  }

  lemma InvoiceOfConcat(f: seq<Finding>, g: seq<Finding>)
    ensures InvoiceOf(f + g) == Plus(InvoiceOf(f), InvoiceOf(g))
  {
    ListedConcat(InSize(Clothing), f, g);
    ListedConcat(InSize(Pants), f, g);
    ListedConcat(InSize(Shoes), f, g);
    ListedConcat(InSize(Kids), f, g);
    ListedConcat(Product, f, g);
    ListedConcat(Colour, f, g);
    UnparsedConcat(f, g);
    OneSizeConcat(f, g);
  }

  lemma {:induction false} StripBlank(s: string)
    requires IsBlank(s)
    ensures StripLeft(s) == "" && Strip(s) == ""
  {
    if s != "" {
      StripBlank(s[1..]);
    }
  }

  /** After a line that is read like none, the walk goes on as from the start. */
  lemma {:induction false} WalkAfter(read: (string, string) -> seq<Finding>, head: seq<string>, after: seq<string>)
    requires forall line :: read(LineBefore(head, |head|), line) == read("", line)
    ensures Walk(read, head + after) == Walk(read, head) + Walk(read, after)
  {
    if after == [] {
      assert head + after == head;
    } else {
      var n := |after| - 1;
      var middle, last := after[..n], after[n];
      WalkAfter(read, head, middle);
      assert head + after == (head + middle) + [last] && after == middle + [last];
      WalkSnoc(read, head + middle, last);
      WalkSnoc(read, middle, last);
    }
  }

  /** A line that finds nothing and is read like no line cuts the walk. */
  lemma WalkAfterCut(read: (string, string) -> seq<Finding>, before: seq<string>, cut: string, after: seq<string>)
    requires read(LineBefore(before, |before|), cut) == []
    requires forall line :: read(cut, line) == read("", line)
    ensures Walk(read, before + [cut] + after) == Walk(read, before) + Walk(read, after)
  {
    var head := before + [cut];
    WalkSnoc(read, before, cut);
    assert Walk(read, before) + [] == Walk(read, before);
    assert LineBefore(head, |head|) == cut;
    WalkAfter(read, head, after);
  }

  /** What follows a blank line is read as from the start. */
  lemma FindingsAfterBlank(before: seq<string>, blank: string, after: seq<string>)
    requires IsBlank(blank)
    ensures Findings(before + [blank] + after) == Findings(before) + Findings(after)
  {
    StripBlank(blank);
    BlankLine(blank);
    BlankLine("");
    WalkAfterCut(LineFindings, before, blank, after);
  }

  lemma {:induction false} VisibleConcat(a: string, b: string)
    ensures Visible(a + b) == Visible(a) + Visible(b)
  {
    if a == "" {
      assert a + b == b;
    } else {
      VisibleConcat(a[1..], b);
      assert (a + b)[1..] == a[1..] + b && (a + b)[0] == a[0];
      Regroup(if IsInvisible(a[0]) then "" else [a[0]], Visible(a[1..]), Visible(b));
    }
  }

  /** How many characters make the first of the text that `LineFeeds` gives. */
  function FirstFeed(s: string): (k: nat)
    requires s != ""
    ensures 1 <= k <= |s|
  {
    if s[0] == '\r' && |s| > 1 && s[1] == '\n' then 2 else 1
  }

  lemma LineFeedsUnfold(s: string)
    requires s != ""
    ensures LineFeeds(s) == [if s[0] == '\r' then '\n' else s[0]] + LineFeeds(s[FirstFeed(s)..])
  {
  }

  lemma FirstFeedStays(a: string, b: string)
    requires a != "" && (a[|a| - 1] == '\r' ==> b == "" || b[0] != '\n')
    ensures FirstFeed(a + b) == FirstFeed(a) && (a + b)[0] == a[0]
    ensures (a + b)[FirstFeed(a)..] == a[FirstFeed(a)..] + b
  {
    if |a| > 1 {
      assert (a + b)[1] == a[1];
    }
  }

  lemma {:induction false} LineFeedsConcat(a: string, b: string)
    requires a != "" && a[|a| - 1] == '\r' ==> b == "" || b[0] != '\n'
    ensures LineFeeds(a + b) == LineFeeds(a) + LineFeeds(b)
    decreases |a|
  {
    if a == "" {
      assert a + b == b;
    } else {
      var k := FirstFeed(a);
      LineFeedsConcat(a[k..], b);
      FirstFeedStays(a, b);
      LineFeedsUnfold(a);
      LineFeedsUnfold(a + b);
    }
  }

  /** Blanks and invisible characters within one line. */
  predicate BlankInLine(s: string) {
    forall i :: 0 <= i < |s| ==> IsInvisible(s[i]) || (IsSpace(s[i]) && s[i] !in {'\n', '\r'})
  }

  lemma {:induction false} BlankLineText(s: string)
    requires BlankInLine(s)
    ensures IsBlank(Visible(s)) && '\n' !in Visible(s) && '\r' !in Visible(s)
  {
    if s != "" {
      BlankLineText(s[1..]);
    }
  }

  lemma {:induction false} NoLineFeeds(s: string)
    requires '\r' !in s
    ensures LineFeeds(s) == s
  {
    if s != "" {
      NoLineFeeds(s[1..]);
    }
  }

  lemma FeedAfterText(a: string, b: string)
    requires a == "" || a[|a| - 1] != '\r'
    ensures LineFeeds(a + "\n" + b) == LineFeeds(a) + "\n" + LineFeeds(b)
  {
    var t := "\n" + b;
    assert t[0] == '\n' && t[1..] == b;
    assert a + "\n" + b == a + t;
    LineFeedsConcat(a, t);
  }

  lemma FeedAfterReturn(x: string, b: string)
    ensures LineFeeds(x + "\r") == LineFeeds(x) + "\n"
    ensures LineFeeds(x + "\r" + "\n" + b) == LineFeeds(x) + "\n" + LineFeeds(b)
  {
    var r := "\r";
    assert r[1..] == "" && LineFeeds(r) == "\n" + LineFeeds("");
    LineFeedsConcat(x, r);
    var t := "\r" + "\n" + b;
    assert t[0] == '\r' && t[1] == '\n' && t[2..] == b;
    assert x + "\r" + "\n" + b == x + t;
    LineFeedsConcat(x, t);
  }

  predicate IsBreak(s: string) {
    s == "\n" || s == "\r" || s == "\r\n"
  }

  predicate EndsInReturn(s: string) {
    s != "" && s[|s| - 1] == '\r'
  }

  predicate StartsWithFeed(s: string) {
    s != "" && s[0] == '\n'
  }

  lemma FeedAtReturn(a: string, b: string)
    requires !StartsWithFeed(b)
    ensures LineFeeds(a + "\r" + b) == LineFeeds(a) + "\n" + LineFeeds(b)
  {
    var t := "\r" + b;
    assert t[0] == '\r' && t[1..] == b && FirstFeed(t) == 1;
    LineFeedsUnfold(t);
    assert a + "\r" + b == a + t;
    LineFeedsConcat(a, t);
  }

  lemma FeedAtHalves(a: string, b: string)
    requires StartsWithFeed(b)
    ensures LineFeeds(a + "\r" + b) == LineFeeds(a) + "\n" + LineFeeds(b[1..])
    ensures LineFeeds(b) == "\n" + LineFeeds(b[1..])
  {
    FeedAfterReturn(a, b[1..]);
    assert "\n" + b[1..] == b;
    assert a + "\r" + "\n" + b[1..] == a + "\r" + b;
  }

  /** A line break between two texts, once all breaks are line feeds: it may
      swallow the carriage return that ends the first text, or the line feed
      that starts the second. */
  lemma FeedBreak(a: string, sep: string, b: string) returns (x: string, y: string)
    requires IsBreak(sep)
    ensures LineFeeds(a + sep + b) == x + "\n" + y
    ensures LineFeeds(a) == x || (EndsInReturn(a) && LineFeeds(a) == x + "\n")
    ensures LineFeeds(b) == y || (sep == "\r" && StartsWithFeed(b) && LineFeeds(b) == "\n" + y)
  {
    x, y := LineFeeds(a), LineFeeds(b);
    if sep == "\r\n" {
      FeedAfterReturn(a, b);
      assert a + "\r" + "\n" + b == a + "\r\n" + b;
    } else if sep == "\r" {
      if StartsWithFeed(b) {
        FeedAtHalves(a, b);
        y := LineFeeds(b[1..]);
      } else {
        FeedAtReturn(a, b);
      }
    } else if EndsInReturn(a) {
      x := LineFeeds(a[..|a| - 1]);
      assert a == a[..|a| - 1] + "\r";
      FeedAfterReturn(a[..|a| - 1], b);
    } else {
      FeedAfterText(a, b);
    }
  }

  /** The two breaks around a line without breaks of its own; together they are
      not the two halves of one break. */
  lemma FeedsAtBlank(va: string, sep: string, cut: string, sep': string, vc: string) returns (x: string, y: string)
    requires '\n' !in cut && '\r' !in cut && IsBreak(sep) && IsBreak(sep')
    requires !(cut == "" && sep == "\r" && sep' == "\n")
    ensures LineFeeds(va + sep + (cut + sep' + vc)) == x + "\n" + (cut + "\n" + y)
    ensures LineFeeds(va) == x || LineFeeds(va) == x + "\n"
    ensures LineFeeds(vc) == y || LineFeeds(vc) == "\n" + y
  {
    var rest := cut + sep' + vc;
    NoLineFeeds(cut);
    var x', z := FeedBreak(cut, sep', vc);
    assert !EndsInReturn(cut) && x' == cut;
    assert rest[0] == if cut == "" then sep'[0] else cut[0];
    assert sep == "\r" ==> !StartsWithFeed(rest);
    var whole;
    x, whole := FeedBreak(va, sep, rest);
    y := z;
    assert cut + "\n" + z == cut + ("\n" + z);
  }

  lemma SplitThree(x: string, cut: string, y: string)
    requires '\n' !in cut
    ensures Split(x + "\n" + (cut + "\n" + y), '\n') == Split(x, '\n') + [cut] + Split(y, '\n')
    ensures Split(x + "\n", '\n') == Split(x, '\n') + [""]
  {
    SplitAt(cut, '\n', y);
    SplitOfConcat(x, '\n', cut + "\n" + y);
    assert Split(x, '\n') + ([cut] + Split(y, '\n')) == Split(x, '\n') + [cut] + Split(y, '\n');
    SplitOfConcat(x, '\n', "");
    assert x + "\n" + "" == x + "\n";
  }

  lemma VisibleBreak(a: string, sep: string, b: string)
    requires IsBreak(sep)
    ensures Visible(a + sep + b) == Visible(a) + sep + Visible(b)
  {
    VisibleConcat(a + sep, b);
    VisibleConcat(a, sep);
    assert sep[0] == '\n' || sep[0] == '\r';
    assert |sep| == 2 ==> sep[1..] == "\n";
    assert Visible("\n") == "\n" + Visible("") && Visible("\n") == "\n";
    assert |sep| == 1 ==> sep[1..] == "";
    assert Visible(sep) == sep;
  }

  lemma SplitAfterFeed(y: string)
    ensures Split("\n" + y, '\n') == [""] + Split(y, '\n')
  {
    SplitAt("", '\n', y);
    assert "" + ['\n'] + y == "\n" + y;
  }

  lemma VisibleAtBlank(a: string, sep: string, b: string, sep': string, c: string)
    requires IsBreak(sep) && IsBreak(sep')
    ensures Visible(a + sep + b + sep' + c) == Visible(a) + sep + (Visible(b) + sep' + Visible(c))
  {
    VisibleBreak(b, sep', c);
    VisibleBreak(a, sep, b + sep' + c);
    Regroup(a + sep, b, sep');
    Regroup(a + sep, b + sep', c);
  }

  /** The same, for texts with line feeds only. */
  lemma SplitsAtBlank(first: string, second: string, x: string, cut: string, y: string)
    requires '\n' !in cut
    requires first == x || first == x + "\n"
    requires second == y || second == "\n" + y
    ensures var before, after := Split(x, '\n'), Split(y, '\n');
            && Split(x + "\n" + (cut + "\n" + y), '\n') == before + [cut] + after
            && (Split(first, '\n') == before || Split(first, '\n') == before + [""])
            && (Split(second, '\n') == after || Split(second, '\n') == [""] + after)
  {
    SplitThree(x, cut, y);
    SplitAfterFeed(y);
  }

  /** The lines of two texts with a blank line between them: those of the first,
      a blank line and those of the second, but for an empty last line of the
      first and an empty first line of the second. */
  lemma LinesAtBlank(a: string, sep: string, b: string, sep': string, c: string)
    returns (before: seq<string>, cut: string, after: seq<string>)
    requires BlankInLine(b) && IsBreak(sep) && IsBreak(sep')
    requires !(Visible(b) == "" && sep == "\r" && sep' == "\n")
    ensures IsBlank(cut) && Lines(a + sep + b + sep' + c) == before + [cut] + after
    ensures Lines(a) == before || Lines(a) == before + [""]
    ensures Lines(c) == after || Lines(c) == [""] + after
  {
    cut := Visible(b);
    BlankLineText(b);
    VisibleAtBlank(a, sep, b, sep', c);
    var x, y := FeedsAtBlank(Visible(a), sep, cut, sep', Visible(c));
    SplitsAtBlank(LineFeeds(Visible(a)), LineFeeds(Visible(c)), x, cut, y);
    before, after := Split(x, '\n'), Split(y, '\n');
  }

  lemma LastBlank(before: seq<string>)
    ensures Findings(before + [""]) == Findings(before)
  {
    FindingsAfterBlank(before, "", []);
    assert before + [""] + [] == before + [""];
    assert Findings(before) + [] == Findings(before);
  }

  lemma FirstBlank(after: seq<string>)
    ensures Findings([""] + after) == Findings(after)
  {
    FindingsAfterBlank([], "", after);
    assert [] + [""] + after == [""] + after;
    assert [] + Findings(after) == Findings(after);
  }

  /** Two texts with a blank line between them parse as the first text's result
      followed by what is new in the second's, whatever the line breaks; only
      `\r` and `\n` with nothing between them are one break, not two. */
  lemma ParsingIsCompositional(a: string, sep: string, blank: string, sep': string, b: string)
    requires BlankInLine(blank) && IsBreak(sep) && IsBreak(sep')
    requires !(Visible(blank) == "" && sep == "\r" && sep' == "\n")
    ensures Parsed(a + sep + blank + sep' + b) == Plus(Parsed(a), Parsed(b))
  {
    var before, cut, after := LinesAtBlank(a, sep, blank, sep', b);
    FindingsAfterBlank(before, cut, after);
    LastBlank(before);
    FirstBlank(after);
    InvoiceOfConcat(Findings(before), Findings(after));
  }

  // ------------------------------------------------------- what is read where

  lemma {:induction false} WalkPlace(read: (string, string) -> seq<Finding>, lines: seq<string>, f: Finding)
    returns (n: nat)
    requires f in Walk(read, lines)
    ensures n < |lines| && f in read(LineBefore(lines, n), lines[n])
  {
    var last := |lines| - 1;
    n := last;
    if f in Walk(read, lines[..last]) {
      n := WalkPlace(read, lines[..last], f);
      assert LineBefore(lines[..last], n) == LineBefore(lines, n);
    }
  }

  lemma LineFindingIs(before: string, line: string, f: Finding)
    requires f in LineFindings(before, line)
    ensures if f.kind == Product then HeaderId(line) == Some(f.text) else IsHeader(before) && !IsHeader(line)
  {
  }

  /** A product id comes from a header line; a colour, a size and an unparsed line
      come from a line right after a header that is no header itself. */
  lemma FindingsHavePlaces(lines: seq<string>, f: Finding) returns (n: nat)
    requires f in Findings(lines)
    ensures n < |lines|
    ensures f.kind == Product ==> HeaderId(lines[n]) == Some(f.text)
    ensures f.kind != Product ==> n > 0 && IsHeader(lines[n - 1]) && !IsHeader(lines[n])
  {
    n := WalkPlace(LineFindings, lines, f);
    LineFindingIs(LineBefore(lines, n), lines[n], f);
    BlankLine("");
  }

  lemma HeaderRest(gap: string, name: string)
    requires IsBlank(gap)
    ensures StripLeft(gap + ("," + name)) == "," + name
    ensures !IsDigit((gap + ("," + name))[0])
  {
    var tail := "," + name;
    assert tail[0] == ',' && (gap + tail)[0] == if gap == "" then tail[0] else gap[0];
    StripLeftOf(gap, tail);
  }

  lemma HeaderLine(left: string, d: string, gap: string, name: string, right: string)
    requires IsBlank(left) && IsBlank(gap) && IsBlank(right)
    requires d != "" && AllDigits(d) && (name != "" ==> !IsSpace(name[|name| - 1]))
    ensures var s, rest := d + (gap + ("," + name)), gap + ("," + name);
            && Strip(left + s + right) == s && LeadingDigits(s) == d && AfterDigits(s) == rest
            && StripLeft(rest) == "," + name
  {
    var rest := gap + ("," + name);
    var s := d + rest;
    HeaderRest(gap, name);
    DigitsThen(d, rest);
    assert IsDigit(d[0]) && s[0] == d[0] && s[|s| - 1] == if name == "" then ',' else name[|name| - 1];
    StripOf(left, s, right);
  }

  /** Digits, a comma and a text, with blanks around each, are a header exactly
      when there are 10 to 16 digits and the text is not empty. */
  lemma SpacedHeader(left: string, d: string, gap: string, name: string, right: string)
    requires IsBlank(left) && IsBlank(gap) && IsBlank(right)
    requires d != "" && AllDigits(d) && (name != "" ==> !IsSpace(name[|name| - 1]))
    ensures HeaderId(left + (d + (gap + ("," + name))) + right)
            == if 10 <= |d| <= 16 && name != "" then Some(d) else None
  {
    HeaderLine(left, d, gap, name, right);
  }

  /** So are digits, a comma, a blank and a name. */
  lemma HeaderReads(d: string, name: string)
    requires d != "" && AllDigits(d) && name != "" && !IsSpace(name[|name| - 1])
    ensures HeaderId(d + (", " + name)) == if 10 <= |d| <= 16 then Some(d) else None
  {
    SpacedHeader("", d, "", " " + name, "");
    assert "" + ("," + (" " + name)) == ", " + name;
    assert "" + (d + (", " + name)) + "" == d + (", " + name);
  }

  /** Capital letters, blanks and slashes, two at least, with letters first and
      no blank last. */
  predicate ColourName(s: string) {
    && |s| >= 2 && 'A' <= s[0] <= 'Z' && s[|s| - 1] != ' '
    && forall i :: 0 <= i < |s| ==> 'A' <= s[i] <= 'Z' || s[i] == ' ' || s[i] == '/'
  }

  lemma ColourSizeReads(colour: string, token: string)
    requires ColourName(colour)
    requires token != "" && !IsSpace(token[0]) && !IsSpace(token[|token| - 1])
    ensures var line := colour + (", " + token);
            Strip(line) == line && ColourSize(line) == Some((colour, token)) && !IsHeader(line)
  {
    var line, rest := colour + (", " + token), " " + token;
    assert line[0] == colour[0] && line[|line| - 1] == token[|token| - 1];
    StripNothing(line);
    assert ", " + token == [','] + rest;
    Regroup(colour, [','], rest);
    ColourIs(colour);
    BlankThen(token);
    ColourSizeAt(colour, rest);
    NoDigitsNoHeader(line);
  }

  lemma ColourSizeAt(colour: string, rest: string)
    requires ',' !in colour && IsColour(colour) && rest != ""
    ensures ColourSize(colour + [','] + rest) == Some((StripRight(colour), Strip(rest)))
  {
    var line := colour + [','] + rest;
    IndexOfAt(colour, ',', rest);
    assert line[..|colour|] == colour && line[|colour| + 1..] == rest;
  }

  lemma BlankHasNoComma(gap: string)
    requires IsBlank(gap)
    ensures ',' !in gap
  {
  }

  lemma ColourBeforeGap(colour: string, gap: string)
    requires IsBlank(gap) && colour != "" && !IsSpace(colour[|colour| - 1])
    ensures StripRight(colour + gap) == colour
    ensures |colour + gap| > 1 ==> (colour + gap)[1] == if |colour| > 1 then colour[1] else gap[0]
  {
    StripRightOf(colour, gap);
  }

  /** Blanks on either side of the comma do not matter, except that a single
      letter is a colour only with a blank after it. */
  lemma SpacedColour(colour: string, gap: string, gap': string, token: string)
    requires ColourName(colour) || (|colour| == 1 && 'A' <= colour[0] <= 'Z')
    requires IsBlank(gap) && IsBlank(gap')
    requires token != "" && !IsSpace(token[0]) && !IsSpace(token[|token| - 1])
    ensures ColourSize(colour + gap + [','] + (gap' + token))
            == if |colour| > 1 || (gap != "" && gap[0] == ' ') then Some((colour, token)) else None
  {
    var before, rest := colour + gap, gap' + token;
    if |colour| > 1 {
      ColourIs(colour);
    }
    BlankHasNoComma(gap);
    ColourBeforeGap(colour, gap);
    StripOf(gap', token, "");
    assert rest + "" == rest;
    IndexOfAt(before, ',', rest);
    assert (before + [','] + rest)[..|before|] == before && (before + [','] + rest)[|before| + 1..] == rest;
    assert IsColour(before) <==> |colour| > 1 || (gap != "" && gap[0] == ' ');
  }

  /** Nothing else is read as a colour. */
  lemma ColourIsName(line: string)
    requires ColourSize(line).Some?
    ensures var colour := ColourSize(line).value.0;
            && (ColourName(colour) || (|colour| == 1 && 'A' <= colour[0] <= 'Z'))
            && colour <= line && ',' in line[|colour|..]
  {
    var k := IndexOf(line, ',');
    var before := line[..k];
    var right := StripRightSplits(before);
    var colour := StripRight(before);
    StripRightEnds(before);
    assert before == colour + right && line == before + line[k..];
    assert line == colour + (right + line[k..]) && line[|colour|..] == right + line[k..];
    assert line[k..][0] == ',' && (right + line[k..])[|right|] == ',';
  }

  lemma {:induction false} StripRightEnds(s: string)
    ensures var r := StripRight(s); r == "" || !IsSpace(r[|r| - 1])
  {
    if s != "" && IsSpace(s[|s| - 1]) {
      StripRightEnds(s[..|s| - 1]);
    }
  }

  lemma NoDigitsNoHeader(line: string)
    requires Strip(line) == line && (line == "" || !IsDigit(line[0]))
    ensures !IsHeader(line)
  {
    assert LeadingDigits(line) == "";
  }

  lemma ColourIs(colour: string)
    requires ColourName(colour)
    ensures StripRight(colour) == colour && IsColour(colour) && ',' !in colour
  {
  }

  lemma BlankThen(token: string)
    requires token != "" && !IsSpace(token[0]) && !IsSpace(token[|token| - 1])
    ensures Strip(" " + token) == token
  {
    assert (" " + token)[1..] == token && StripLeft(token) == token;
  }

  /** The line after a header gives its colour, and its size: the one-size flag, a
      size, or the whole line as unparsed. Anywhere else it gives nothing. */
  lemma ItemReads(before: string, colour: string, token: string)
    requires ColourName(colour)
    requires token != "" && !IsSpace(token[0]) && !IsSpace(token[|token| - 1])
    ensures var line := colour + (", " + token);
            LineFindings(before, line)
            == if !IsHeader(before) then []
               else if Lower(token) == "one size" then [Finding(Colour, colour), Finding(OneSize, token)]
               else if ParseSize(token).None? then [Finding(Colour, colour), Finding(Unparsed, line)]
               else
                 var size := ParseSize(token).value;
                 [Finding(Colour, colour), Finding(InSize(size.category), size.canonical)]
  {
    ColourSizeReads(colour, token);
  }

  lemma YearsTokenEnds(a: nat, b: nat, n: nat)
    ensures var token := YearsText(a, b, n);
            token != "" && !IsSpace(token[0]) && !IsSpace(token[|token| - 1]) && Lower(token) != "one size"
  {
    var token := YearsText(a, b, n);
    assert token[0] == Decimal(a)[0] && token[|token| - 1] == ')';
    assert Lower(token)[0] != 'o';
  }

  lemma TwoLines(header: string, item: string)
    ensures Findings([header, item]) == LineFindings("", header) + LineFindings(header, item)
  {
    var lines := [header, item];
    assert lines[..0] == [] && lines[..1] == [header] && lines[..2] == lines;
    FindingsStep(lines, 0);
    FindingsStep(lines, 1);
  }

  /** The product block of an invoice: for all ids, names, colours and sizes it
      gives the id, the colour and the size in centimetres. */
  lemma BlockReads(d: string, name: string, colour: string, a: nat, b: nat, n: nat)
    requires 10 <= |d| <= 16 && AllDigits(d) && name != "" && !IsSpace(name[|name| - 1])
    requires ColourName(colour) && 10 <= n < 1000
    ensures Findings([d + (", " + name), colour + (", " + YearsText(a, b, n))])
            == [Finding(Product, d), Finding(Colour, colour), Finding(InSize(Kids), CmText(n))]
  {
    var header, token := d + (", " + name), YearsText(a, b, n);
    HeaderReads(d, name);
    YearsTokenEnds(a, b, n);
    YearsHaveNoRangeCheck(a, b, n);
    ItemReads(header, colour, token);
    TwoLines(header, colour + (", " + token));
  }

  // ------------------------------------------------------- invisible characters

  /** Zero-width spaces, joiners and non-joiners and byte-order marks can be left
      out anywhere in a text. */
  lemma InvisibleGoes(a: string, c: char, b: string)
    requires c as int in {0x200B, 0x200C, 0x200D, 0xFEFF}
    ensures Parsed(a + ([c] + b)) == Parsed(a + b)
  {
    VisibleConcat(a, [c] + b);
    VisibleConcat(a, b);
    OneInvisible(c, b);
    SameVisible(a + ([c] + b), a + b);
  }

  lemma OneInvisible(c: char, b: string)
    requires c as int in {0x200B, 0x200C, 0x200D, 0xFEFF}
    ensures Visible([c] + b) == Visible(b)
  {
    assert ([c] + b)[0] == c && ([c] + b)[1..] == b;
  }

  lemma SameVisible(s: string, t: string)
    requires Visible(s) == Visible(t)
    ensures Parsed(s) == Parsed(t)
  {
    assert Lines(s) == Lines(t);
  }

  /** Every other character stays. */
  lemma {:induction false} OthersStay(s: string)
    requires forall i :: 0 <= i < |s| ==> s[i] as int !in {0x200B, 0x200C, 0x200D, 0xFEFF}
    ensures Visible(s) == s
  {
    if s != "" {
      OthersStay(s[1..]);
      assert s == [s[0]] + s[1..];
    }
  }
}
