/** How a request is read: its numbers, its parameters and the dates they may
    stand for. */
module RequestLaws {
  import opened FlatMaps
  import opened Text
  import opened UrlText
  import opened ActionUrls

  // ------------------------------------------------------------- numbers

  /** The runs of digits between underscores. */
  ghost predicate DigitGroups(parts: seq<string>) {
    forall part :: part in parts ==> part != "" && AllDigits(part)
  }

  /** A numeral is groups of digits with an underscore between two of them. */
  lemma {:induction false} NumeralIff(s: string)
    ensures Numeral(s) <==> DigitGroups(Split(s, '_'))
    decreases |s|
  {
    var k := IndexOf(s, '_');
    if k == |s| {
      assert Split(s, '_') == [s];
      if DigitGroups([s]) {
        assert s in [s];
      }
    } else {
      NumeralIff(s[k + 1..]);
      NumeralGroups(s, k);
      GroupsOfOneMore(s[..k], Split(s[k + 1..], '_'));
    }
  }

  lemma GroupsOfOneMore(part: string, parts: seq<string>)
    ensures DigitGroups([part] + parts) <==> (part != "" && AllDigits(part)) && DigitGroups(parts)
  {
    assert part in [part] + parts;
    assert forall p :: p in parts ==> p in [part] + parts;
  }

  lemma NumeralGroups(s: string, k: nat)
    requires k < |s| && s[k] == '_' && '_' !in s[..k]
    ensures Numeral(s) <==> (s[..k] != "" && AllDigits(s[..k])) && Numeral(s[k + 1..])
  {
    if Numeral(s) {
      GroupsOfNumeral(s, k);
    }
    if s[..k] != "" && AllDigits(s[..k]) && Numeral(s[k + 1..]) {
      assert s == s[..k] + "_" + s[k + 1..];
      NumeralOfGroups(s[..k], s[k + 1..]);
    }
  }

  lemma GroupsOfNumeral(s: string, k: nat)
    requires Numeral(s) && k < |s| && s[k] == '_' && '_' !in s[..k]
    ensures s[..k] != "" && AllDigits(s[..k]) && Numeral(s[k + 1..])
  {
    var a, b := s[..k], s[k + 1..];
    assert forall i :: 0 <= i < |b| ==> b[i] == s[k + 1 + i];
    forall i | 0 <= i < k ensures IsDigit(a[i]) {
      assert a[i] == s[i] && a[i] in a;
    }
    assert k > 0 && k + 1 < |s|;
    assert s[k + 1] != '_';
    forall i | 0 < i < |b| && b[i] == '_' ensures b[i - 1] != '_' {
      assert s[k + 1 + i] == '_' && s[k + 1 + i - 1] != '_';
    }
  }

  lemma NumeralOfGroups(a: string, b: string)
    requires a != "" && AllDigits(a) && Numeral(b)
    ensures Numeral(a + "_" + b)
  {
    var s, k := a + "_" + b, |a|;
    assert forall i :: 0 <= i < k ==> s[i] == a[i] && s[i] != '_';
    assert forall i :: k < i < |s| ==> s[i] == b[i - k - 1];
    forall i | k + 1 < i < |s| && s[i] == '_' ensures s[i - 1] != '_' {
      assert b[i - k - 1] == '_' && b[i - k - 2] != '_';
    }
  }

  function SameText(): string -> string {
    (part: string) => part
  }

  lemma {:induction false} DigitsOnlyJoins(a: string, b: string)
    requires AllDigits(a)
    ensures DigitsOnly(a + b) == a + DigitsOnly(b)
  {
    if a == "" {
      assert a + b == b;
    } else {
      assert (a + b)[1..] == a[1..] + b;
      DigitsOnlyJoins(a[1..], b);
      assert a == [a[0]] + a[1..];
    }
  }

  /** The digits of a numeral are those of its groups, one after the other. */
  lemma {:induction false} NumeralDigits(s: string)
    requires DigitGroups(Split(s, '_'))
    ensures DigitsOnly(s) == FlatMap(SameText(), Split(s, '_'))
    decreases |s|
  {
    var k := IndexOf(s, '_');
    if k == |s| {
      assert s in [s];
      DigitsOnlyOfDigits(s);
      FlatMapOne(SameText(), s);
    } else {
      var a, b := s[..k], s[k + 1..];
      GroupsOfOneMore(a, Split(b, '_'));
      NumeralDigits(b);
      assert s == a + ("_" + b);
      DigitsOnlyJoins(a, "_" + b);
      assert DigitsOnly("_" + b) == DigitsOnly(b) by {
        assert ("_" + b)[1..] == b;
      }
      assert FlatMap(SameText(), [a] + Split(b, '_')) == a + FlatMap(SameText(), Split(b, '_')) by {
        FlatMapConcat(SameText(), [a], Split(b, '_'));
        FlatMapOne(SameText(), a);
      }
    }
  }

  // ------------------------------------------------------------- int(raw)

  lemma ReadsUnsigned(s: string)
    requires DigitGroups(Split(s, '_'))
    ensures var digits := FlatMap(SameText(), Split(s, '_'));
            AllDigits(digits) && ParseUnsigned(s) == Some(NumeralValue(digits))
    ensures s != "" && IsDigit(s[0]) && IsDigit(s[|s| - 1])
  {
    NumeralIff(s);
    NumeralDigits(s);
  }

  lemma ReadsStripped(raw: string, sign: string, s: string)
    requires Strip(raw) == sign + s && sign in {"", "+", "-"} && s != "" && IsDigit(s[0])
    ensures ParseInt(raw) == if sign == "-" then Negated(ParseUnsigned(s)) else ParseUnsigned(s)
  {
    if sign == "" {
      assert sign + s == s;
    } else {
      assert (sign + s)[1..] == s && (sign + s)[0] == sign[0];
    }
  }

  /** Groups of digits, perhaps signed and among spaces, read as the number that
      the digits of all groups spell. */
  lemma ReadsAsInt(left: string, sign: string, s: string, right: string)
    requires IsBlank(left) && IsBlank(right) && sign in {"", "+", "-"} && DigitGroups(Split(s, '_'))
    ensures var digits := FlatMap(SameText(), Split(s, '_'));
            && AllDigits(digits)
            && var value: int := NumeralValue(digits);
               ParseInt(left + (sign + s) + right) == Some(if sign == "-" then -value else value)
  {
    ReadsUnsigned(s);
    SignedEnds(sign, s);
    StripOf(left, sign + s, right);
    ReadsStripped(left + (sign + s) + right, sign, s);
  }

  lemma SignedEnds(sign: string, s: string)
    requires sign in {"", "+", "-"} && s != "" && IsDigit(s[0]) && IsDigit(s[|s| - 1])
    ensures var t := sign + s; t != "" && !IsSpace(t[0]) && !IsSpace(t[|t| - 1])
  {
    var t := sign + s;
    assert t[|t| - 1] == s[|s| - 1];
    assert t[0] == if sign == "" then s[0] else sign[0];
  }

  /** Nothing else reads as a number. */
  lemma IntShape(raw: string) returns (left: string, sign: string, s: string, right: string)
    requires ParseInt(raw).Some?
    ensures raw == left + (sign + s) + right && IsBlank(left) && IsBlank(right)
    ensures sign in {"", "+", "-"} && DigitGroups(Split(s, '_'))
  {
    var t := Strip(raw);
    left := StripLeftSplits(raw);
    right := StripRightSplits(StripLeft(raw));
    if t != "" && (t[0] == '-' || t[0] == '+') {
      sign, s := [t[0]], t[1..];
    } else {
      sign, s := "", t;
    }
    assert t == sign + s;
    assert raw == left + (t + right);
    NumeralIff(s);
  }

  // ------------------------------------------------------------- dates

  /** The days of the Gregorian calendar before the year after `year`. */
  function DaysThrough(year: nat): nat {
    365 * year + year / 4 - year / 100 + year / 400
  }

  /** The seconds that are dates run from the start of year 1 to the end of year
      9999, counted from the start of 1970. */
  lemma DatesAre(seconds: int)
    ensures IsDate(seconds)
            <==> -86_400 * DaysThrough(1969) <= seconds < 86_400 * (DaysThrough(9999) - DaysThrough(1969))
  {
  }

  lemma DateTimesAre(us: int)
    ensures InDatetimeRange(us)
            <==> -86_400_000_000 * DaysThrough(1969) <= us < 86_400_000_000 * (DaysThrough(9999) - DaysThrough(1969))
  {
  }

  lemma OverflowsOutside(mac: Mac, secret: string, baseUrl: string, action: string, pathArg: string,
                         payload: seq<Pair>, ttlDays: int, now: int)
    requires UniqueKeys(payload) && AllText(payload) && IsText(pathArg)
    ensures SignAction(mac, secret, baseUrl, action, pathArg, payload, ttlDays, now) == Overflow
            <==> baseUrl != "" && secret != "" && !InDatetimeRange(now + ttlDays * ActionUrls.DAY)
  {
  }

  /** Signing overflows exactly when the time to live ends outside the dates. */
  lemma OverflowIff(mac: Mac, secret: string, baseUrl: string, action: string, pathArg: string,
                    payload: seq<Pair>, ttlDays: int, now: int)
    requires UniqueKeys(payload) && AllText(payload) && IsText(pathArg)
    ensures SignAction(mac, secret, baseUrl, action, pathArg, payload, ttlDays, now) == Overflow
            <==> var end := now + ttlDays * 86_400_000_000;
                 && baseUrl != "" && secret != ""
                 && !(-86_400_000_000 * DaysThrough(1969) <= end
                      && end < 86_400_000_000 * (DaysThrough(9999) - DaysThrough(1969)))
  {
    OverflowsOutside(mac, secret, baseUrl, action, pathArg, payload, ttlDays, now);
    DateTimesAre(now + ttlDays * 86_400_000_000);
  }

  // ------------------------------------------------------------- parameters

  function Keys(d: seq<Pair>): (r: seq<string>)
    ensures |r| == |d|
  {
    seq(|d|, i requires 0 <= i < |d| => d[i].key)
  }

  /** Assigning to a key that is there changes its value in place; a new key
      comes last. */
  lemma {:induction false} PutInPlace(d: seq<Pair>, p: Pair)
    requires UniqueKeys(d)
    ensures HasKey(d, p.key) ==>
              |Put(d, p)| == |d| && forall i :: 0 <= i < |d| ==> Put(d, p)[i] == if d[i].key == p.key then p else d[i]
    ensures !HasKey(d, p.key) ==> Put(d, p) == d + [p]
  {
    PutNewKeyIf(d, p);
    if d != [] && d[0].key != p.key {
      HasKeyInRest(d, p.key);
      PutInPlace(d[1..], p);
      assert Put(d, p) == [d[0]] + Put(d[1..], p);
    }
  }

  lemma HasKeyInRest(d: seq<Pair>, key: string)
    requires d != [] && d[0].key != key
    ensures HasKey(d, key) <==> HasKey(d[1..], key)
  {
    assert forall i :: 0 < i < |d| ==> d[i] == d[1..][i - 1];
    if HasKey(d, key) {
      var i :| 0 <= i < |d| && d[i].key == key;
      assert d[1..][i - 1].key == key;
    }
  }

  lemma PutNewKeyIf(d: seq<Pair>, p: Pair)
    ensures !HasKey(d, p.key) ==> Put(d, p) == d + [p]
  {
    if !HasKey(d, p.key) {
      PutNewKey(d, p);
    }
  }

  /** `q` is the last pair of its key. */
  ghost predicate IsLast(pairs: seq<Pair>, q: Pair) {
    exists i :: 0 <= i < |pairs| && IsLastAt(pairs, q, i)
  }

  ghost predicate IsLastAt(pairs: seq<Pair>, q: Pair, i: nat) {
    i < |pairs| && pairs[i] == q && forall j :: i < j < |pairs| ==> pairs[j].key != q.key
  }

  lemma IsLastStep(before: seq<Pair>, p: Pair, q: Pair)
    ensures IsLast(before + [p], q) <==> q == p || (IsLast(before, q) && q.key != p.key)
  {
    var all := before + [p];
    assert all[|before|] == p;
    if q == p {
      assert IsLastAt(all, q, |before|);
    } else if IsLast(before, q) && q.key != p.key {
      var i :| 0 <= i < |before| && IsLastAt(before, q, i);
      assert IsLastAt(all, q, i);
    }
    if q != p && IsLast(all, q) {
      StillLast(before, p, q);
    }
  }

  lemma StillLast(before: seq<Pair>, p: Pair, q: Pair)
    requires q != p && IsLast(before + [p], q)
    ensures IsLast(before, q) && q.key != p.key
  {
    var all := before + [p];
    var i :| 0 <= i < |all| && IsLastAt(all, q, i);
    assert all[|before|] == p;
    assert forall j :: i < j < |before| ==> all[j] == before[j];
    assert IsLastAt(before, q, i);
  }

  /** What is received of a key is its last value, and each key once. */
  lemma {:induction false} LastValueIsReceived(pairs: seq<Pair>)
    ensures UniqueKeys(DictOf(pairs))
    ensures forall q :: q in DictOf(pairs) <==> IsLast(pairs, q)
  {
    if pairs != [] {
      var before, p := pairs[..|pairs| - 1], pairs[|pairs| - 1];
      LastValueIsReceived(before);
      PutMembers(DictOf(before), p);
      assert pairs == before + [p];
      forall q ensures q in DictOf(pairs) <==> IsLast(pairs, q) {
        IsLastStep(before, p, q);
      }
    }
  }

  /** Parameters are received in the order in which their keys first come: more
      parameters leave the places of the earlier keys alone. */
  lemma {:induction false} FirstPlaceIsReceived(pairs: seq<Pair>, more: seq<Pair>)
    ensures Keys(DictOf(pairs)) <= Keys(DictOf(pairs + more))
    decreases |more|
  {
    if more == [] {
      assert pairs + more == pairs;
    } else {
      var before, p := pairs + more[..|more| - 1], more[|more| - 1];
      FirstPlaceIsReceived(pairs, more[..|more| - 1]);
      DictOfAppended(before, p);
      assert pairs + more == before + [p];
      UniqueDict(before);
      KeysStay(DictOf(before), p);
    }
  }

  lemma UniqueDict(pairs: seq<Pair>)
    ensures UniqueKeys(DictOf(pairs))
  {
    LastValueIsReceived(pairs);
  }

  lemma DictOfAppended(before: seq<Pair>, p: Pair)
    ensures DictOf(before + [p]) == Put(DictOf(before), p)
  {
    assert (before + [p])[..|before|] == before;
  }

  lemma KeysStay(d: seq<Pair>, p: Pair)
    requires UniqueKeys(d)
    ensures Keys(d) <= Keys(Put(d, p))
  {
    PutInPlace(d, p);
    assert forall i :: 0 <= i < |d| ==> Keys(Put(d, p))[i] == Keys(d)[i];
  }
}
