/** Percent-encoding (RFC 3986, sections 2.1 and 2.3), form decoding (the
    WHATWG URL Standard, section 5.1) and the split of a URL into its parts.

    A text is its UTF-8 byte sequence, one `char` below 256 per byte. */
module UrlText {
  import opened FlatMaps
  import opened Text

  datatype Pair = Pair(key: string, value: string)

  predicate IsText(s: string) {
    forall i :: 0 <= i < |s| ==> s[i] as int < 256
  }

  // ------------------------------------------------------------- encoding

  predicate IsLetter(c: char) {
    'A' <= c <= 'Z' || 'a' <= c <= 'z'
  }

  predicate Unreserved(c: char) {
    IsLetter(c) || IsDigit(c) || c == '-' || c == '.' || c == '_' || c == '~'
  }

  function HexDigit(d: nat): char
    requires d < 16
  {
    if d < 10 then DigitChar(d) else ('A' as int + d - 10) as char
  }

  predicate IsHex(c: char) {
    IsDigit(c) || 'A' <= c <= 'F' || 'a' <= c <= 'f'
  }

  function HexValue(c: char): (d: nat)
    requires IsHex(c)
    ensures d < 16
  {
    if IsDigit(c) then DigitValue(c)
    else if 'A' <= c <= 'F' then c as int - 'A' as int + 10
    else c as int - 'a' as int + 10
  }

  function EncodeChar(c: char): string
    requires c as int < 256
  {
    if Unreserved(c) then [c]
    else ['%', HexDigit(c as int / 16), HexDigit(c as int % 16)]
  }

  /** `quote(s, safe="")`. */
  function Encode(s: string): string
    requires IsText(s)
  {
    if s == "" then "" else EncodeChar(s[0]) + Encode(s[1..])
  }

  /** `unquote(s.replace("+", " "))`. A `%` without two hex digits stays. */
  function FormDecode(s: string): string {
    if s == "" then ""
    else if s[0] == '+' then " " + FormDecode(s[1..])
    else if s[0] == '%' && |s| >= 3 && IsHex(s[1]) && IsHex(s[2]) then
      [(16 * HexValue(s[1]) + HexValue(s[2])) as char] + FormDecode(s[3..])
    else [s[0]] + FormDecode(s[1..])
  }

  /** A hexadecimal digit has the value that prints it, in either case. */
  lemma HexIs(c: char)
    requires IsHex(c)
    ensures HexDigit(HexValue(c)) == UpperChar(c)
  {
  }

  /** `%` and two hexadecimal digits stand for the character of their value. */
  lemma PercentReads(h: char, l: char, rest: string)
    requires IsHex(h) && IsHex(l)
    ensures FormDecode(['%', h, l] + rest) == [(16 * HexValue(h) + HexValue(l)) as char] + FormDecode(rest)
  {
    assert (['%', h, l] + rest)[3..] == rest;
  }

  /** A text with a plus sign for each blank. */
  function WithPluses(s: string): (r: string)
    ensures |r| == |s|
  {
    seq(|s|, i requires 0 <= i < |s| => if s[i] == ' ' then '+' else s[i])
  }

  /** A plus sign reads as a blank. */
  lemma {:induction false} PlusIsBlank(s: string)
    requires '%' !in s && '+' !in s
    ensures FormDecode(WithPluses(s)) == s
  {
    if s != "" {
      assert WithPluses(s)[1..] == WithPluses(s[1..]);
      PlusIsBlank(s[1..]);
      assert s == [s[0]] + s[1..];
      assert WithPluses(s)[0] != '%';
    }
  }

  lemma DecodeOneChar(c: char, rest: string)
    requires c as int < 256
    ensures FormDecode(EncodeChar(c) + rest) == [c] + FormDecode(rest)
  {
    var e := EncodeChar(c) + rest;
    if Unreserved(c) {
      assert e[1..] == rest;
    } else {
      assert e[3..] == rest;
    }
  }

  /** Form decoding undoes percent-encoding, for every text. */
  lemma {:induction false} DecodeOfEncode(s: string)
    requires IsText(s)
    ensures FormDecode(Encode(s)) == s
  {
    if s != "" {
      DecodeOneChar(s[0], Encode(s[1..]));
      DecodeOfEncode(s[1..]);
    }
  }

  /** Letters, digits and `-._~` stand for themselves; every other byte is `%` and
      two capital hexadecimal digits of its value. */
  lemma EncodedForm(c: char)
    requires c as int < 256
    ensures 'A' <= c <= 'Z' || 'a' <= c <= 'z' || '0' <= c <= '9' || c in "-._~" <==> EncodeChar(c) == [c]
    ensures EncodeChar(c) != [c] ==>
              exists h, l :: && EncodeChar(c) == ['%', h, l] && IsCapitalHex(h) && IsCapitalHex(l)
                             && c as int == 16 * HexValue(h) + HexValue(l)
  {
    if EncodeChar(c) != [c] {
      var h, l := HexDigit(c as int / 16), HexDigit(c as int % 16);
      assert EncodeChar(c) == ['%', h, l] && IsCapitalHex(h) && IsCapitalHex(l);
    }
  }

  predicate IsCapitalHex(c: char) {
    '0' <= c <= '9' || 'A' <= c <= 'F'
  }

  predicate EncodedChar(c: char) {
    Unreserved(c) || c == '%'
  }

  lemma {:induction false} EncodeAlphabet(s: string)
    requires IsText(s)
    ensures forall i :: 0 <= i < |Encode(s)| ==> EncodedChar(Encode(s)[i])
  {
    if s != "" {
      EncodeAlphabet(s[1..]);
    }
  }

  lemma {:induction false} DecodePlain(s: string)
    requires '%' !in s && '+' !in s
    ensures FormDecode(s) == s
  {
    if s != "" {
      DecodePlain(s[1..]);
    }
  }

  // --------------------------------------------------------- query strings

  /** One `name=value` segment, or nothing for a segment the reader skips. */
  function ReadSegment(segment: string, keepBlank: bool): seq<Pair> {
    var k := IndexOf(segment, '=');
    if segment == "" then []
    else if k == |segment| then
      if keepBlank then [Pair(FormDecode(segment), "")] else []
    else if k + 1 == |segment| && !keepBlank then []
    else [Pair(FormDecode(segment[..k]), FormDecode(segment[k + 1..]))]
  }

  function Reader(keepBlank: bool): string -> seq<Pair> {
    (segment: string) => ReadSegment(segment, keepBlank)
  }

  function ReadSegments(segments: seq<string>, keepBlank: bool): seq<Pair> {
    FlatMap(Reader(keepBlank), segments)
  }

  /** `parse_qsl(query, keep_blank_values=keepBlank)`. */
  function ParseQuery(query: string, keepBlank: bool): seq<Pair> {
    ReadSegments(Split(query, '&'), keepBlank)
  }

  /** The first value under `key`, or "" when there is none. */
  function FirstValue(pairs: seq<Pair>, key: string): string {
    if pairs == [] then ""
    else if pairs[0].key == key then pairs[0].value
    else FirstValue(pairs[1..], key)
  }

  lemma ReadOneSegment(name: string, value: string, keepBlank: bool)
    requires '=' !in name
    requires value != "" || keepBlank
    ensures ReadSegment(name + "=" + value, keepBlank) == [Pair(FormDecode(name), FormDecode(value))]
  {
    var s := name + "=" + value;
    IndexOfAt(name, '=', value);
    assert s[..|name|] == name;
    assert s[|name| + 1..] == value;
  }

  // ------------------------------------------------------------- URL parts

  function BeforeFragment(url: string): string {
    url[..IndexOf(url, '#')]
  }

  /** `urlparse(url).query`: neither a scheme nor a host can hold `?`. */
  function QueryOf(url: string): string {
    var s := BeforeFragment(url);
    var k := IndexOf(s, '?');
    if k == |s| then "" else s[k + 1..]
  }

  predicate SchemeChar(c: char) {
    IsLetter(c) || IsDigit(c) || c == '+' || c == '-' || c == '.'
  }

  function AfterScheme(s: string): string {
    var k := IndexOf(s, ':');
    if 0 < k < |s| && IsLetter(s[0]) && forall i :: 0 <= i < k ==> SchemeChar(s[i])
    then s[k + 1..] else s
  }

  /** What stands before a colon is a scheme exactly when it starts with a letter
      and has only letters, digits and `+-.`. */
  lemma SchemeIs(scheme: string, rest: string)
    requires ':' !in scheme
    ensures AfterScheme(scheme + ":" + rest)
            == if scheme != "" && IsLetter(scheme[0]) && (forall c :: c in scheme ==> SchemeChar(c))
               then rest else scheme + ":" + rest
  {
    var s := scheme + ":" + rest;
    IndexOfAt(scheme, ':', rest);
    assert s[|scheme| + 1..] == rest;
    assert forall i :: 0 <= i < |scheme| ==> s[i] == scheme[i];
  }

  function AfterHost(s: string): string {
    if "//" <= s then s[2 + IndexOf(s[2..], '/')..] else s
  }

  /** `urlparse(url).path`, for a last segment without `;`. */
  function PathOf(url: string): string {
    var s := BeforeFragment(url);
    AfterHost(AfterScheme(s[..IndexOf(s, '?')]))
  }

  lemma QueryAfterMark(path: string, query: string)
    requires '?' !in path && '#' !in path && '#' !in query
    ensures QueryOf(path + "?" + query) == query
    ensures PathOf(path + "?" + query) == PathOf(path)
  {
    var url := path + "?" + query;
    IndexOfNone(url, '#');
    assert BeforeFragment(url) == url;
    IndexOfAt(path, '?', query);
    assert url[|path| + 1..] == query;
    assert url[..|path|] == path;
    IndexOfNone(path, '#');
    IndexOfNone(path, '?');
    assert path[..|path|] == path;
  }

  lemma NoQuery(path: string)
    requires '?' !in path && '#' !in path
    ensures QueryOf(path) == ""
  {
    IndexOfNone(path, '#');
    assert path[..|path|] == path;
    IndexOfNone(path, '?');
  }
}
