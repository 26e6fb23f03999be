/** Signed action URLs: signing, receiving and verifying.

    The keyed hash is an arbitrary function `mac` of a secret and a message.
    Times are whole microseconds since the epoch. */
module ActionUrls {
  import opened FlatMaps
  import opened Text
  import opened UrlText

  type Mac = (string, string) -> string

  const SIG := "sig"
  const EXP := "exp"

  // ----------------------------------------------------------- dictionaries

  /** A Python dict is a list of pairs in insertion order, no key twice. */
  predicate UniqueKeys(d: seq<Pair>) {
    forall i, j :: 0 <= i < j < |d| ==> d[i].key != d[j].key
  }

  predicate AllText(d: seq<Pair>) {
    forall i :: 0 <= i < |d| ==> IsText(d[i].key) && IsText(d[i].value)
  }

  predicate HasKey(d: seq<Pair>, key: string) {
    exists i :: 0 <= i < |d| && d[i].key == key
  }

  /** `d[p.key] = p.value`: in place when the key is there, else at the end. */
  function Put(d: seq<Pair>, p: Pair): seq<Pair> {
    if d == [] then [p]
    else if d[0].key == p.key then [p] + d[1..]
    else [d[0]] + Put(d[1..], p)
  }

  /** `dict(pairs)`: a repeated key keeps its place and takes the last value. */
  function DictOf(pairs: seq<Pair>): seq<Pair> {
    if pairs == [] then [] else Put(DictOf(pairs[..|pairs| - 1]), pairs[|pairs| - 1])
  }

  function Without(d: seq<Pair>, keys: set<string>): seq<Pair> {
    if d == [] then []
    else (if d[0].key in keys then [] else [d[0]]) + Without(d[1..], keys)
  }

  lemma {:induction false} WithoutMembers(d: seq<Pair>, keys: set<string>)
    ensures forall q :: q in Without(d, keys) <==> q in d && q.key !in keys
  {
    if d != [] {
      WithoutMembers(d[1..], keys);
      assert d == [d[0]] + d[1..];
    }
  }

  lemma {:induction false} PutMembers(d: seq<Pair>, p: Pair)
    requires UniqueKeys(d)
    ensures forall q :: q in Put(d, p) <==> q == p || (q in d && q.key != p.key)
    ensures UniqueKeys(Put(d, p))
  {
    if d == [] {
    } else if d[0].key == p.key {
      assert d == [d[0]] + d[1..];
    } else {
      PutMembers(d[1..], p);
      var t := Put(d[1..], p);
      assert d == [d[0]] + d[1..];
      forall k | 0 <= k < |t| ensures t[k].key != d[0].key {
        assert t[k] in t;
      }
    }
  }

  lemma {:induction false} PutNewKey(d: seq<Pair>, p: Pair)
    requires !HasKey(d, p.key)
    ensures Put(d, p) == d + [p]
  {
    if d != [] {
      assert d[0].key != p.key;
      assert forall i :: 0 <= i < |d[1..]| ==> d[1..][i] == d[i + 1];
      PutNewKey(d[1..], p);
      assert d == [d[0]] + d[1..];
    }
  }

  lemma {:induction false} DictOfUnique(pairs: seq<Pair>)
    requires UniqueKeys(pairs)
    ensures DictOf(pairs) == pairs
  {
    if pairs != [] {
      var n := |pairs| - 1;
      DictOfUnique(pairs[..n]);
      PutNewKey(pairs[..n], pairs[n]);
    }
  }

  lemma {:induction false} WithoutKeepsUnique(d: seq<Pair>, keys: set<string>)
    requires UniqueKeys(d)
    ensures UniqueKeys(Without(d, keys))
  {
    if d != [] {
      WithoutKeepsUnique(d[1..], keys);
      WithoutMembers(d[1..], keys);
      var t := Without(d[1..], keys);
      forall k | 0 <= k < |t| ensures t[k].key != d[0].key {
        assert t[k] in t;
      }
    }
  }

  lemma WithoutHead(p: Pair, d: seq<Pair>, keys: set<string>)
    ensures Without([p] + d, keys) == (if p.key in keys then [] else [p]) + Without(d, keys)
  {
    assert ([p] + d)[1..] == d;
  }

  lemma {:induction false} WithoutConcat(a: seq<Pair>, b: seq<Pair>, keys: set<string>)
    ensures Without(a + b, keys) == Without(a, keys) + Without(b, keys)
  {
    if a == [] {
      assert a + b == b;
    } else {
      WithoutConcat(a[1..], b, keys);
      assert a + b == [a[0]] + (a[1..] + b);
      WithoutHead(a[0], a[1..] + b, keys);
      assert a == [a[0]] + a[1..];
      WithoutHead(a[0], a[1..], keys);
      Regroup(if a[0].key in keys then [] else [a[0]], Without(a[1..], keys), Without(b, keys));
    }
  }

  // --------------------------------------------------------------- ordering

  /** Code-point order; on UTF-8 bytes it is the same order. */
  predicate TextLess(a: string, b: string) {
    if a == "" || b == "" then a == "" && b != ""
    else a[0] < b[0] || (a[0] == b[0] && TextLess(a[1..], b[1..]))
  }

  lemma {:induction false} TextLessTotal(a: string, b: string)
    ensures a == b || TextLess(a, b) || TextLess(b, a)
  {
    if a != "" && b != "" {
      TextLessTotal(a[1..], b[1..]);
      assert a == [a[0]] + a[1..] && b == [b[0]] + b[1..];
    }
  }

  lemma {:induction false} TextLessStrict(a: string, b: string)
    requires TextLess(a, b)
    ensures a != b && !TextLess(b, a)
  {
    if a != "" && a[0] == b[0] {
      TextLessStrict(a[1..], b[1..]);
    }
  }

  lemma {:induction false} TextLessTransitive(a: string, b: string, c: string)
    requires TextLess(a, b) && TextLess(b, c)
    ensures TextLess(a, c)
  {
    if a != "" && a[0] == b[0] == c[0] {
      TextLessTransitive(a[1..], b[1..], c[1..]);
    }
  }

  /** Tuple order on (key, value). */
  predicate PairLess(p: Pair, q: Pair) {
    TextLess(p.key, q.key) || (p.key == q.key && TextLess(p.value, q.value))
  }

  function InsertPair(p: Pair, s: seq<Pair>): seq<Pair> {
    if s == [] || PairLess(p, s[0]) then [p] + s else [s[0]] + InsertPair(p, s[1..])
  }

  function SortPairs(s: seq<Pair>): seq<Pair> {
    if s == [] then [] else InsertPair(s[0], SortPairs(s[1..]))
  }

  predicate KeyOrdered(s: seq<Pair>) {
    forall i, j :: 0 <= i < j < |s| ==> TextLess(s[i].key, s[j].key)
  }

  lemma {:induction false} InsertPairOrdered(p: Pair, s: seq<Pair>)
    requires KeyOrdered(s) && !HasKey(s, p.key)
    ensures KeyOrdered(InsertPair(p, s))
    ensures forall q :: q in InsertPair(p, s) <==> q == p || q in s
  {
    if s == [] {
    } else if PairLess(p, s[0]) {
      assert s[0].key != p.key;
      forall k | 0 <= k < |s| ensures TextLess(p.key, s[k].key) {
        if k > 0 {
          TextLessTransitive(p.key, s[0].key, s[k].key);
        }
      }
    } else {
      assert s[0].key != p.key;
      TextLessTotal(p.key, s[0].key);
      var t := s[1..];
      assert s == [s[0]] + t;
      assert forall i :: 0 <= i < |t| ==> t[i] == s[i + 1];
      InsertPairOrdered(p, t);
      var u := InsertPair(p, t);
      forall k | 0 <= k < |u| ensures TextLess(s[0].key, u[k].key) {
        assert u[k] in u;
      }
    }
  }

  lemma {:induction false} SortPairsOrdered(s: seq<Pair>)
    requires UniqueKeys(s)
    ensures KeyOrdered(SortPairs(s))
    ensures forall q :: q in SortPairs(s) <==> q in s
  {
    if s != [] {
      SortPairsOrdered(s[1..]);
      var t := SortPairs(s[1..]);
      assert s == [s[0]] + s[1..];
      assert forall i :: 0 <= i < |t| ==> t[i] in s[1..];
      InsertPairOrdered(s[0], t);
    }
  }

  lemma OrderedIsUnique(s: seq<Pair>)
    requires KeyOrdered(s)
    ensures UniqueKeys(s)
  {
    forall i, j | 0 <= i < j < |s| ensures s[i].key != s[j].key {
      TextLessStrict(s[i].key, s[j].key);
    }
  }

  /** Ordered lists with the same members are equal. */
  lemma {:induction false} OrderedDetermined(a: seq<Pair>, b: seq<Pair>)
    requires KeyOrdered(a) && KeyOrdered(b)
    requires forall q :: q in a <==> q in b
    ensures a == b
  {
    assert forall i :: 0 <= i < |a| ==> a[i] in b;
    assert forall i :: 0 <= i < |b| ==> b[i] in a;
    if a != [] && b != [] {
      if a[0] != b[0] {
        assert TextLess(b[0].key, a[0].key);
        assert TextLess(a[0].key, b[0].key);
        TextLessStrict(a[0].key, b[0].key);
      }
      OrderedIsUnique(a);
      OrderedIsUnique(b);
      forall q ensures q in a[1..] <==> q in b[1..] {
        assert q in a <==> q in b;
      }
      OrderedDetermined(a[1..], b[1..]);
      assert a == [a[0]] + a[1..] && b == [b[0]] + b[1..];
    }
  }

  // --------------------------------------------------------- canonical form

  function EncodePair(p: Pair): string
    requires IsText(p.key) && IsText(p.value)
  {
    Encode(p.key) + "=" + Encode(p.value)
  }

  function EncodePairs(items: seq<Pair>): (r: seq<string>)
    requires AllText(items)
    ensures |r| == |items|
  {
    if items == [] then [] else [EncodePair(items[0])] + EncodePairs(items[1..])
  }

  /** `urlencode(items, quote_via=quote)`. */
  function UrlEncode(items: seq<Pair>): string
    requires AllText(items)
  {
    if items == [] then "" else Join(EncodePairs(items), '&')
  }

  function SignedItems(params: seq<Pair>): seq<Pair> {
    SortPairs(Without(params, {SIG}))
  }

  lemma SignedItemsOrdered(params: seq<Pair>)
    requires UniqueKeys(params)
    ensures KeyOrdered(SignedItems(params)) && UniqueKeys(SignedItems(params))
    ensures forall q :: q in SignedItems(params) <==> q in params && q.key != SIG
    ensures AllText(params) ==> AllText(SignedItems(params))
  {
    var kept := Without(params, {SIG});
    WithoutMembers(params, {SIG});
    WithoutKeepsUnique(params, {SIG});
    SortPairsOrdered(kept);
    OrderedIsUnique(SortPairs(kept));
    if AllText(params) {
      forall i | 0 <= i < |SortPairs(kept)|
        ensures IsText(SortPairs(kept)[i].key) && IsText(SortPairs(kept)[i].value)
      {
        assert SortPairs(kept)[i] in params;
      }
    }
  }

  function CanonicalQs(params: seq<Pair>): string
    requires UniqueKeys(params) && AllText(params)
  {
    SignedItemsOrdered(params);
    UrlEncode(SignedItems(params))
  }

  lemma EncodedPairAlphabet(p: Pair)
    requires IsText(p.key) && IsText(p.value)
    ensures '=' !in Encode(p.key)
    ensures '&' !in EncodePair(p) && '#' !in EncodePair(p)
  {
    EncodeAlphabet(p.key);
    EncodeAlphabet(p.value);
  }

  lemma ReadEncodedPair(p: Pair)
    requires IsText(p.key) && IsText(p.value)
    ensures ReadSegment(EncodePair(p), true) == [p]
    ensures '&' !in EncodePair(p) && '#' !in EncodePair(p)
  {
    EncodedPairAlphabet(p);
    ReadOneSegment(Encode(p.key), Encode(p.value), true);
    DecodeOfEncode(p.key);
    DecodeOfEncode(p.value);
  }

  lemma {:induction false} ReadEncodedPairs(items: seq<Pair>)
    requires AllText(items)
    ensures ReadSegments(EncodePairs(items), true) == items
    ensures forall i :: 0 <= i < |items| ==> '&' !in EncodePairs(items)[i] && '#' !in EncodePairs(items)[i]
  {
    if items != [] {
      ReadEncodedPair(items[0]);
      ReadEncodedPairs(items[1..]);
      assert items == [items[0]] + items[1..];
    }
  }

  /** Form decoding an encoded query gives back the pairs, in order. */
  lemma ParseOfUrlEncode(items: seq<Pair>)
    requires AllText(items)
    ensures ParseQuery(UrlEncode(items), true) == items
    ensures '#' !in UrlEncode(items)
  {
    if items == [] {
      IndexOfNone("", '&');
      FlatMapOne(Reader(true), "");
    } else {
      ReadEncodedPairs(items);
      SplitOfJoin(EncodePairs(items), '&');
      JoinAvoids(EncodePairs(items), '&', '#');
    }
  }

  /** The canonical string ignores insertion order and the signature, and
      nothing else: equal strings mean equal parameters. */
  lemma CanonicalIff(p: seq<Pair>, q: seq<Pair>)
    requires UniqueKeys(p) && AllText(p) && UniqueKeys(q) && AllText(q)
    ensures CanonicalQs(p) == CanonicalQs(q)
            <==> (forall x: Pair :: x.key != SIG ==> (x in p <==> x in q))
  {
    SignedItemsOrdered(p);
    SignedItemsOrdered(q);
    ParseOfUrlEncode(SignedItems(p));
    ParseOfUrlEncode(SignedItems(q));
    if forall x: Pair :: x.key != SIG ==> (x in p <==> x in q) {
      OrderedDetermined(SignedItems(p), SignedItems(q));
    }
    if CanonicalQs(p) == CanonicalQs(q) {
      assert SignedItems(p) == SignedItems(q);
      forall x: Pair | x.key != SIG ensures x in p <==> x in q {
        assert x in SignedItems(p) <==> x in SignedItems(q);
      }
    }
  }

  // ---------------------------------------------------------------- numbers

  function SignedDecimal(n: int): string {
    if n < 0 then "-" + Decimal(-n) else Decimal(n)
  }

  /** Digits, with single underscores between them. */
  predicate Numeral(s: string) {
    && s != "" && IsDigit(s[0]) && IsDigit(s[|s| - 1])
    && (forall i :: 0 <= i < |s| ==> IsDigit(s[i]) || s[i] == '_')
    && (forall i :: 0 < i < |s| ==> s[i] == '_' ==> s[i - 1] != '_')
  }

  function DigitsOnly(s: string): (r: string)
    ensures AllDigits(r)
  {
    if s == "" then "" else (if IsDigit(s[0]) then [s[0]] else "") + DigitsOnly(s[1..])
  }

  function ParseUnsigned(s: string): Option<int> {
    if Numeral(s) then Some(NumeralValue(DigitsOnly(s))) else None
  }

  function Negated(n: Option<int>): Option<int> {
    if n.Some? then Some(-n.value) else None
  }

  /** `int(raw)`; None is the ValueError. */
  function ParseInt(raw: string): Option<int> {
    var t := Strip(raw);
    if t != "" && t[0] == '-' then Negated(ParseUnsigned(t[1..]))
    else if t != "" && t[0] == '+' then ParseUnsigned(t[1..])
    else ParseUnsigned(t)
  }

  lemma {:induction false} DigitsOnlyOfDigits(s: string)
    requires AllDigits(s)
    ensures DigitsOnly(s) == s
  {
    if s != "" {
      DigitsOnlyOfDigits(s[1..]);
      assert s == [s[0]] + s[1..];
    }
  }

  lemma ParseUnsignedDecimal(m: nat)
    ensures ParseUnsigned(Decimal(m)) == Some(m)
  {
    var d := Decimal(m);
    assert IsDigit(d[0]) && IsDigit(d[|d| - 1]);
    DigitsOnlyOfDigits(d);
    NumeralOfDecimal(m);
  }

  lemma ParseIntOfDecimal(n: int)
    ensures ParseInt(SignedDecimal(n)) == Some(n)
    ensures IsText(SignedDecimal(n)) && SignedDecimal(n) != ""
  {
    var d := Decimal(if n < 0 then -n else n);
    var s := SignedDecimal(n);
    ParseUnsignedDecimal(if n < 0 then -n else n);
    assert IsDigit(d[0]) && IsDigit(d[|d| - 1]);
    StripNothing(s);
    if n < 0 {
      assert s[0] == '-' && s[1..] == d;
    } else {
      assert s[0] != '-' && s[0] != '+';
    }
  }

  // ---------------------------------------------------------------- signing

  const SECOND := 1_000_000
  const DAY := 86_400 * SECOND

  /** The seconds a `datetime` can hold: years 1 to 9999. */
  const FIRST_SECOND := -62_135_596_800
  const LAST_SECOND := 253_402_300_799

  predicate InDatetimeRange(us: int) {
    FIRST_SECOND * SECOND <= us < (LAST_SECOND + 1) * SECOND
  }

  /** `int(x / 1e6)`: towards zero. */
  function WholeSeconds(us: int): int {
    if us >= 0 then us / SECOND else -((-us) / SECOND)
  }

  function Expiry(now: int, ttlDays: int): int {
    WholeSeconds(now + ttlDays * DAY)
  }

  function TrimSlashes(s: string): string {
    if s != "" && s[|s| - 1] == '/' then TrimSlashes(s[..|s| - 1]) else s
  }

  /** An OverflowError of the date arithmetic is a result of its own. */
  datatype SignResult = Url(text: string) | Overflow

  function ComputeSig(mac: Mac, secret: string, params: seq<Pair>): string
    requires UniqueKeys(params) && AllText(params)
  {
    mac(secret, CanonicalQs(params))
  }

  function ActionPath(action: string, pathArg: string): string
    requires IsText(pathArg)
  {
    "/actions/" + action + if pathArg == "" then "" else "/" + Encode(pathArg)
  }

  /** The parameters that are signed: the payload with `exp` put into it. */
  function SignedParams(payload: seq<Pair>, expiry: int): (d: seq<Pair>)
    requires UniqueKeys(payload) && AllText(payload)
    ensures UniqueKeys(d) && AllText(d)
    ensures forall q :: q in d <==> q == Pair(EXP, SignedDecimal(expiry)) || (q in payload && q.key != EXP)
  {
    var p := Pair(EXP, SignedDecimal(expiry));
    PutMembers(payload, p);
    ParseIntOfDecimal(expiry);
    PutKeepsText(payload, p);
    Put(payload, p)
  }

  lemma {:induction false} PutKeepsText(d: seq<Pair>, p: Pair)
    requires AllText(d) && IsText(p.key) && IsText(p.value)
    ensures AllText(Put(d, p))
  {
    if d != [] && d[0].key != p.key {
      PutKeepsText(d[1..], p);
    }
  }

  function SignAction(mac: Mac, secret: string, baseUrl: string, action: string, pathArg: string,
                      payload: seq<Pair>, ttlDays: int, now: int): SignResult
    requires UniqueKeys(payload) && AllText(payload) && IsText(pathArg)
  {
    if baseUrl == "" || secret == "" then Url("")
    else if !InDatetimeRange(now + ttlDays * DAY) then Overflow
    else
      var params := SignedParams(payload, Expiry(now, ttlDays));
      var sig := ComputeSig(mac, secret, params);
      Url(TrimSlashes(baseUrl) + ActionPath(action, pathArg) + "?" + CanonicalQs(params) + "&sig=" + sig)
  }

  // -------------------------------------------------------------- verifying

  /** The last two are errors raised by the date arithmetic and by the digest
      comparison; `verify_action` does not turn them into errors of its own. */
  datatype VerifyResult =
    | Verified(payload: seq<Pair>, expiresAt: int)
    | Expired
    | Invalid
    | OutOfRange
    | NotComparable

  /** The texts `hmac.compare_digest` accepts. */
  predicate IsAscii(s: string) {
    forall i :: 0 <= i < |s| ==> s[i] as int < 128
  }

  predicate IsDate(seconds: int) {
    FIRST_SECOND <= seconds <= LAST_SECOND
  }

  /** `d.get(key)`; the code treats a missing and an empty value alike. */
  function GetOrEmpty(d: seq<Pair>, key: string): string {
    FirstValue(d, key)
  }

  /** `verify_action`. The computed digest is hexadecimal, so that it is the
      request's signature that may not be comparable. */
  function VerifyAction(mac: Mac, secret: string, params: seq<Pair>, now: int): VerifyResult
    requires UniqueKeys(params) && AllText(params)
  {
    if secret == "" then Invalid
    else if GetOrEmpty(params, SIG) == "" || GetOrEmpty(params, EXP) == "" then Invalid
    else
      var exp := ParseInt(GetOrEmpty(params, EXP));
      if exp.None? then Invalid
      else if !IsDate(exp.value) then OutOfRange
      else if exp.value * SECOND < now then Expired
      else if !IsAscii(GetOrEmpty(params, SIG)) then NotComparable
      else if ComputeSig(mac, secret, params) != GetOrEmpty(params, SIG) then Invalid
      else Verified(Without(params, {SIG, EXP}), exp.value)
  }

  /** The date error comes exactly when the request has a signature, of any
      worth, and a numeric `exp` that is no date: before the signature is looked
      at. */
  lemma OutOfRangeIff(mac: Mac, secret: string, params: seq<Pair>, now: int)
    requires UniqueKeys(params) && AllText(params)
    ensures VerifyAction(mac, secret, params, now) == OutOfRange
            <==> && secret != "" && GetOrEmpty(params, SIG) != ""
                 && var exp := ParseInt(GetOrEmpty(params, EXP)); exp.Some? && !IsDate(exp.value)
  {
    assert ParseInt("") == None;
  }

  /** An error that is not its own is raised exactly when the request has a
      signature and a numeric `exp`, and either that is no date, or it is a date
      that has not passed and the signature is not ASCII. */
  lemma ForeignErrorIff(mac: Mac, secret: string, params: seq<Pair>, now: int)
    requires UniqueKeys(params) && AllText(params)
    ensures VerifyAction(mac, secret, params, now) in {OutOfRange, NotComparable}
            <==> && secret != "" && GetOrEmpty(params, SIG) != ""
                 && var exp, sig := ParseInt(GetOrEmpty(params, EXP)), GetOrEmpty(params, SIG);
                    exp.Some? &&
                    (!IsDate(exp.value)
                     || (now <= exp.value * SECOND && exists i :: 0 <= i < |sig| && sig[i] as int >= 128))
  {
    assert ParseInt("") == None;
  }

  lemma ExpOf(exp: string, sig: string)
    requires IsText(exp) && IsText(sig)
    ensures var request := [Pair(EXP, exp), Pair(SIG, sig)];
            && UniqueKeys(request) && AllText(request)
            && GetOrEmpty(request, EXP) == exp && GetOrEmpty(request, SIG) == sig
  {
    NamesDiffer();
    var request := [Pair(EXP, exp), Pair(SIG, sig)];
    assert request[1..] == [Pair(SIG, sig)];
    assert FirstValue([Pair(SIG, sig)], SIG) == sig;
  }

  /** The request `?exp=999999999999&sig=0`: whatever the keyed hash, the secret
      and the time, it raises the error, though nobody signed it. */
  lemma ForgedExpiryRaises(mac: Mac, secret: string, now: int)
    requires secret != ""
    ensures var request := [Pair(EXP, Decimal(999_999_999_999)), Pair(SIG, "0")];
            && UniqueKeys(request) && AllText(request)
            && VerifyAction(mac, secret, request, now) == OutOfRange
  {
    var expiry := 999_999_999_999;
    ParseIntOfDecimal(expiry);
    ExpOf(Decimal(expiry), "0");
    OutOfRangeIff(mac, secret, [Pair(EXP, Decimal(expiry)), Pair(SIG, "0")], now);
  }

  /** The request `?exp=253402300799&sig=%C3%A9`, which expires with the year
      9999: at every time before, whatever the keyed hash and the secret, the
      comparison raises its error where the signature is merely wrong. */
  lemma AccentedSignatureRaises(mac: Mac, secret: string, now: int)
    requires secret != "" && now <= LAST_SECOND * SECOND
    ensures var request := [Pair(EXP, Decimal(LAST_SECOND)), Pair(SIG, FormDecode("%C3%A9"))];
            && UniqueKeys(request) && AllText(request)
            && VerifyAction(mac, secret, request, now) == NotComparable
  {
    AccentDecodes();
    ParseIntOfDecimal(LAST_SECOND);
    NotComparableAt(mac, secret, Decimal(LAST_SECOND), FormDecode("%C3%A9"), LAST_SECOND, now);
  }

  lemma NotComparableAt(mac: Mac, secret: string, exp: string, sig: string, expiry: int, now: int)
    requires IsText(exp) && IsText(sig) && ParseInt(exp) == Some(expiry) && IsDate(expiry)
    requires secret != "" && sig != "" && !IsAscii(sig) && now <= expiry * SECOND
    ensures var request := [Pair(EXP, exp), Pair(SIG, sig)];
            && UniqueKeys(request) && AllText(request)
            && VerifyAction(mac, secret, request, now) == NotComparable
  {
    ExpOf(exp, sig);
    assert ParseInt("") == None;
  }

  lemma AccentDecodes()
    ensures FormDecode("%C3%A9") == [195 as char, 169 as char]
    ensures IsText(FormDecode("%C3%A9")) && !IsAscii(FormDecode("%C3%A9"))
  {
    var bytes := [195 as char, 169 as char];
    assert EncodeChar(195 as char) == "%C3" && EncodeChar(169 as char) == "%A9";
    assert bytes[1..] == [169 as char] && bytes[1..][1..] == [];
    assert Encode(bytes) == "%C3" + ("%A9" + Encode([]));
    assert Encode(bytes) == "%C3%A9";
    DecodeOfEncode(bytes);
    assert FormDecode("%C3%A9")[0] as int == 195;
  }

  /** What the web framework makes of a requested URL. */
  function Receive(url: string): seq<Pair> {
    DictOf(ParseQuery(QueryOf(url), true))
  }

  // -------------------------------------------------------------- round trip

  /** A hex digest: not empty, and unchanged by either side's escaping. */
  predicate HexDigest(s: string) {
    s != "" && forall i :: 0 <= i < |s| ==> IsHex(s[i])
  }

  lemma SigSegmentText(sig: string)
    requires HexDigest(sig)
    ensures '&' !in "sig=" + sig && '#' !in "sig=" + sig
    ensures '%' !in sig && '+' !in sig
  {
    assert forall i :: 0 <= i < |sig| ==> sig[i] != '&' && sig[i] != '#' && sig[i] != '%' && sig[i] != '+';
  }

  lemma SigName()
    ensures '=' !in SIG && '%' !in SIG && '+' !in SIG
  {
  }

  lemma ReadSigSegment(sig: string)
    requires HexDigest(sig)
    ensures ParseQuery("sig=" + sig, true) == [Pair(SIG, sig)]
    ensures '#' !in "sig=" + sig
  {
    var s := "sig=" + sig;
    SigSegmentText(sig);
    SigName();
    assert s == SIG + "=" + sig;
    IndexOfNone(s, '&');
    ReadOneSegment(SIG, sig, true);
    DecodePlain(SIG);
    DecodePlain(sig);
    FlatMapOne(Reader(true), s);
  }

  /** The receiver gets the signed parameters in order, then the signature. */
  lemma ReceiveSigned(prefix: string, params: seq<Pair>, sig: string)
    requires '?' !in prefix && '#' !in prefix
    requires UniqueKeys(params) && AllText(params) && HexDigest(sig)
    ensures Receive(prefix + "?" + CanonicalQs(params) + "&sig=" + sig)
            == SignedItems(params) + [Pair(SIG, sig)]
    ensures UniqueKeys(SignedItems(params) + [Pair(SIG, sig)])
  {
    var items, canonical := SignedItems(params), CanonicalQs(params);
    SignedItemsOrdered(params);
    ParseOfUrlEncode(items);
    AppendedSig(canonical, sig);
    var query := canonical + "&sig=" + sig;
    assert prefix + "?" + canonical + "&sig=" + sig == prefix + "?" + query;
    QueryAfterMark(prefix, query);
    SigIsNew(items, sig);
    DictOfUnique(items + [Pair(SIG, sig)]);
  }

  lemma SigIsNew(items: seq<Pair>, sig: string)
    requires UniqueKeys(items) && forall q :: q in items ==> q.key != SIG
    ensures UniqueKeys(items + [Pair(SIG, sig)])
  {
    assert forall i :: 0 <= i < |items| ==> items[i] in items;
  }

  lemma AppendedSig(canonical: string, sig: string)
    requires HexDigest(sig) && '#' !in canonical
    ensures var query := canonical + "&sig=" + sig;
            && '#' !in query
            && ParseQuery(query, true) == ParseQuery(canonical, true) + [Pair(SIG, sig)]
  {
    var tail := "sig=" + sig;
    ReadSigSegment(sig);
    assert canonical + "&sig=" + sig == canonical + "&" + tail;
    SplitOfConcat(canonical, '&', tail);
    FlatMapConcat(Reader(true), Split(canonical, '&'), Split(tail, '&'));
  }

  /** Adding the signature changes neither the canonical form nor `exp`. */
  lemma SignatureIsNotSigned(params: seq<Pair>, sig: string)
    requires UniqueKeys(params) && AllText(params) && IsText(sig)
    ensures var all := SignedItems(params) + [Pair(SIG, sig)];
            && UniqueKeys(all) && AllText(all) && CanonicalQs(all) == CanonicalQs(params)
  {
    SignedItemsOrdered(params);
    var items := SignedItems(params);
    var all := items + [Pair(SIG, sig)];
    assert forall i :: 0 <= i < |items| ==> items[i] in items;
    CanonicalIff(all, params);
  }

  lemma {:induction false} FirstValueOf(d: seq<Pair>, p: Pair)
    requires UniqueKeys(d) && p in d
    ensures FirstValue(d, p.key) == p.value
  {
    if d[0] != p {
      assert p in d[1..];
      FirstValueOf(d[1..], p);
      var i :| 0 <= i < |d[1..]| && d[1..][i] == p;
      assert d[0].key != d[i + 1].key;
    }
  }

  lemma ExpiryInRange(us: int)
    requires InDatetimeRange(us)
    ensures FIRST_SECOND <= WholeSeconds(us) <= LAST_SECOND
  {
  }

  lemma TrimSlashesAvoids(s: string, c: char)
    requires c !in s
    ensures c !in TrimSlashes(s)
  {
  }

  lemma ActionPathAvoids(action: string, pathArg: string)
    requires IsText(pathArg) && '?' !in action && '#' !in action
    ensures '?' !in ActionPath(action, pathArg) && '#' !in ActionPath(action, pathArg)
  {
    EncodeAlphabet(pathArg);
    assert '?' !in Encode(pathArg) && '#' !in Encode(pathArg);
    PathPrefixAvoids(action);
  }

  lemma PathPrefixAvoids(action: string)
    requires '?' !in action && '#' !in action
    ensures '?' !in "/actions/" + action && '#' !in "/actions/" + action
  {
  }

  lemma NamesDiffer()
    ensures SIG != EXP
  {
    assert SIG[0] != EXP[0];
  }

  /** What a receiver finds under `exp` and `sig` of a signed query. */
  lemma SignedFields(params: seq<Pair>, expiry: int, sig: string)
    requires UniqueKeys(params) && AllText(params) && IsText(sig)
    requires Pair(EXP, SignedDecimal(expiry)) in params
    ensures var received := SignedItems(params) + [Pair(SIG, sig)];
            && UniqueKeys(received) && AllText(received)
            && CanonicalQs(received) == CanonicalQs(params)
            && GetOrEmpty(received, SIG) == sig
            && GetOrEmpty(received, EXP) == SignedDecimal(expiry)
  {
    var received := SignedItems(params) + [Pair(SIG, sig)];
    var exp := Pair(EXP, SignedDecimal(expiry));
    NamesDiffer();
    SignatureIsNotSigned(params, sig);
    SignedItemsOrdered(params);
    assert exp in received && Pair(SIG, sig) in received;
    FirstValueOf(received, exp);
    FirstValueOf(received, Pair(SIG, sig));
  }

  /** Verifying what the receiver makes of a signed query. */
  lemma VerifySigned(mac: Mac, secret: string, payload: seq<Pair>, expiry: int, later: int)
    requires secret != "" && UniqueKeys(payload) && AllText(payload)
    requires FIRST_SECOND <= expiry <= LAST_SECOND
    requires HexDigest(ComputeSig(mac, secret, SignedParams(payload, expiry)))
    ensures var params := SignedParams(payload, expiry);
            var sig := ComputeSig(mac, secret, params);
            var received := SignedItems(params) + [Pair(SIG, sig)];
            && UniqueKeys(received) && AllText(received)
            && VerifyAction(mac, secret, received, later)
               == if later <= expiry * SECOND
                  then Verified(SortPairs(Without(payload, {SIG, EXP})), expiry)
                  else Expired
  {
    var params := SignedParams(payload, expiry);
    var sig := ComputeSig(mac, secret, params);
    SignedFields(params, expiry, sig);
    ParseIntOfDecimal(expiry);
    PayloadComesBack(payload, expiry, sig);
    Accepted(mac, secret, SignedItems(params) + [Pair(SIG, sig)], expiry, later);
  }

  lemma Accepted(mac: Mac, secret: string, received: seq<Pair>, expiry: int, later: int)
    requires secret != "" && UniqueKeys(received) && AllText(received)
    requires GetOrEmpty(received, SIG) != "" && GetOrEmpty(received, EXP) != ""
    requires ParseInt(GetOrEmpty(received, EXP)) == Some(expiry)
    requires FIRST_SECOND <= expiry <= LAST_SECOND
    requires ComputeSig(mac, secret, received) == GetOrEmpty(received, SIG) && IsAscii(GetOrEmpty(received, SIG))
    ensures VerifyAction(mac, secret, received, later)
            == if later <= expiry * SECOND then Verified(Without(received, {SIG, EXP}), expiry) else Expired
  {
  }

  lemma {:induction false} WithoutKeepsOrder(s: seq<Pair>, keys: set<string>)
    requires KeyOrdered(s)
    ensures KeyOrdered(Without(s, keys))
  {
    if s != [] {
      WithoutKeepsOrder(s[1..], keys);
      WithoutMembers(s[1..], keys);
      var t := Without(s[1..], keys);
      forall k | 0 <= k < |t| ensures TextLess(s[0].key, t[k].key) {
        assert t[k] in t;
      }
    }
  }

  lemma PayloadComesBack(payload: seq<Pair>, expiry: int, sig: string)
    requires UniqueKeys(payload) && AllText(payload)
    ensures Without(SignedItems(SignedParams(payload, expiry)) + [Pair(SIG, sig)], {SIG, EXP})
            == SortPairs(Without(payload, {SIG, EXP}))
  {
    var items := SignedItems(SignedParams(payload, expiry));
    SignedItemsOrdered(SignedParams(payload, expiry));
    WithoutConcat(items, [Pair(SIG, sig)], {SIG, EXP});
    assert Without([Pair(SIG, sig)], {SIG, EXP}) == [];
    WithoutKeepsOrder(items, {SIG, EXP});
    WithoutMembers(items, {SIG, EXP});
    WithoutKeepsUnique(payload, {SIG, EXP});
    WithoutMembers(payload, {SIG, EXP});
    SortPairsOrdered(Without(payload, {SIG, EXP}));
    OrderedDetermined(Without(items, {SIG, EXP}), SortPairs(Without(payload, {SIG, EXP})));
  }

  /** Signing and verifying undo each other. Any URL that was signed verifies
      up to and including its whole-second expiry, and yields the payload
      without `sig` and `exp`; after that it has expired. */
  lemma SignThenVerify(mac: Mac, secret: string, baseUrl: string, action: string, pathArg: string,
                       payload: seq<Pair>, ttlDays: int, now: int, later: int)
    requires forall s, m :: HexDigest(mac(s, m))
    requires secret != "" && baseUrl != ""
    requires '?' !in baseUrl && '#' !in baseUrl && '?' !in action && '#' !in action
    requires UniqueKeys(payload) && AllText(payload) && IsText(pathArg)
    requires InDatetimeRange(now + ttlDays * DAY)
    ensures var signed := SignAction(mac, secret, baseUrl, action, pathArg, payload, ttlDays, now);
            && signed.Url?
            && var received := Receive(signed.text);
            && UniqueKeys(received) && AllText(received)
            && var expiry := Expiry(now, ttlDays);
            VerifyAction(mac, secret, received, later)
            == if later <= expiry * SECOND
               then Verified(SortPairs(Without(payload, {SIG, EXP})), expiry)
               else Expired
  {
    var expiry := Expiry(now, ttlDays);
    ExpiryInRange(now + ttlDays * DAY);
    var params := SignedParams(payload, expiry);
    var sig := ComputeSig(mac, secret, params);
    TrimSlashesAvoids(baseUrl, '?');
    TrimSlashesAvoids(baseUrl, '#');
    ActionPathAvoids(action, pathArg);
    ReceiveSigned(TrimSlashes(baseUrl) + ActionPath(action, pathArg), params, sig);
    VerifySigned(mac, secret, payload, expiry, later);
  }

  /** A signature binds the parameters: a request that verifies with the
      signature of some signed parameters carries exactly those, unless the
      keyed hash collides on the two canonical strings. */
  lemma SignatureBinds(mac: Mac, secret: string, signed: seq<Pair>, request: seq<Pair>, now: int)
    requires UniqueKeys(signed) && AllText(signed) && UniqueKeys(request) && AllText(request)
    requires VerifyAction(mac, secret, request, now).Verified?
    requires GetOrEmpty(request, SIG) == ComputeSig(mac, secret, signed)
    requires mac(secret, CanonicalQs(signed)) == mac(secret, CanonicalQs(request))
             ==> CanonicalQs(signed) == CanonicalQs(request)
    ensures forall x: Pair :: x.key != SIG ==> (x in signed <==> x in request)
  {
    CanonicalIff(signed, request);
  }
}
