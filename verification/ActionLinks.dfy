/** Where a signed action URL leads, and until when. */
module ActionLinks {
  import opened FlatMaps
  import opened Text
  import opened UrlText
  import opened ProductUrls
  import opened ActionUrls

  /** A base URL with a scheme and a host, and a path or none. */
  ghost predicate IsBase(base: string, scheme: string, host: string, path: string) {
    && base == scheme + "://" + host + path
    && scheme != "" && AllLetters(scheme) && HostText(host) && host != ""
    && PlainPath(path) && (path == "" || path[0] == '/')
  }

  lemma {:induction false} TrimmedTail(head: string, tail: string)
    requires head != "" && head[|head| - 1] != '/'
    ensures TrimSlashes(head + tail) == head + TrimSlashes(tail)
    decreases |tail|
  {
    if tail == "" {
      assert head + tail == head;
    } else if tail[|tail| - 1] == '/' {
      assert (head + tail)[..|head + tail| - 1] == head + tail[..|tail| - 1];
      TrimmedTail(head, tail[..|tail| - 1]);
    }
  }

  /** Exactly the slashes at the end are dropped. */
  lemma {:induction false} TrimmedIsPrefix(s: string)
    ensures var t := TrimSlashes(s);
            && t <= s && (t == "" || t[|t| - 1] != '/')
            && (forall i :: |t| <= i < |s| ==> s[i] == '/')
    ensures PlainPath(s) ==> PlainPath(TrimSlashes(s))
    decreases |s|
  {
    if s != "" && s[|s| - 1] == '/' {
      TrimmedIsPrefix(s[..|s| - 1]);
    }
  }

  /** The path of a URL on the base, and of the base itself. */
  lemma PathUnderBase(scheme: string, host: string, path: string, rest: string)
    requires scheme != "" && AllLetters(scheme) && HostText(host)
    requires PlainPath(path) && PlainPath(rest) && (path == "" || path[0] == '/')
    ensures PathOf(scheme + "://" + host + path + "/" + rest) == path + "/" + rest
  {
    var y := if path == "" then rest else path[1..] + "/" + rest;
    assert path + "/" + rest == "/" + y;
    Regroup(scheme + "://" + host, path, "/" + rest);
    Regroup(path, "/", rest);
    assert PlainPath(y);
    PathAfterHost(scheme, host, y);
    Regroup(scheme + "://" + host, path + "/", rest);
    Regroup(scheme + "://" + host, path, "/");
    Regroup(scheme + "://" + host, "/", y);
    assert scheme + "://" + host + path + "/" + rest == scheme + "://" + host + "/" + y;
  }

  /** What follows the base in the path. */
  function Tail(word: string, action: string, pathArg: string): string
    requires IsText(pathArg)
  {
    word + "/" + action + if pathArg == "" then "" else "/" + Encode(pathArg)
  }

  lemma EncodedAvoids(s: string, c: char)
    requires IsText(s) && !EncodedChar(c)
    ensures c !in Encode(s)
  {
    EncodeAlphabet(s);
  }

  lemma EncodedSegment(pathArg: string)
    requires IsText(pathArg)
    ensures PlainSegment(Encode(pathArg)) && FormDecode(Encode(pathArg)) == pathArg
  {
    EncodedAvoids(pathArg, '?');
    EncodedAvoids(pathArg, '#');
    EncodedAvoids(pathArg, ';');
    EncodedAvoids(pathArg, '/');
    DecodeOfEncode(pathArg);
  }

  lemma JoinedIsPlain(a: string, b: string)
    requires PlainPath(a) && PlainPath(b)
    ensures PlainPath(a + "/" + b)
  {
  }

  lemma ThreeSegments(a: string, b: string, c: string)
    requires PlainSegment(a) && PlainSegment(b) && PlainSegment(c)
    ensures Split(a + "/" + b, '/') == [a, b]
    ensures Split(a + "/" + (b + "/" + c), '/') == [a, b, c]
  {
    SplitAt(a, '/', b);
    SplitAt(b, '/', c);
    SplitAt(a, '/', b + "/" + c);
    IndexOfNone(b, '/');
    IndexOfNone(c, '/');
  }

  lemma TailIsPlain(word: string, action: string, pathArg: string)
    requires AllLetters(word) && PlainSegment(action) && IsText(pathArg)
    ensures PlainPath(Tail(word, action, pathArg))
    ensures Split(Tail(word, action, pathArg), '/')
            == [word, action] + if pathArg == "" then [] else [Encode(pathArg)]
  {
    var last := Encode(pathArg);
    EncodedSegment(pathArg);
    TailOfWord(word, action, last);
    if pathArg == "" {
      assert Tail(word, action, pathArg) == word + "/" + action;
      assert [word, action] + [] == [word, action];
    } else {
      Regroup(word + "/", action, "/" + last);
      Regroup(action, "/", last);
      assert Tail(word, action, pathArg) == word + "/" + (action + "/" + last);
      assert [word, action] + [last] == [word, action, last];
    }
  }

  lemma TailOfWord(word: string, action: string, last: string)
    requires AllLetters(word) && PlainSegment(action) && PlainSegment(last)
    ensures PlainPath(word + "/" + action) && PlainPath(word + "/" + (action + "/" + last))
    ensures Split(word + "/" + action, '/') == [word, action]
    ensures Split(word + "/" + (action + "/" + last), '/') == [word, action, last]
  {
    assert PlainSegment(word);
    ThreeSegments(word, action, last);
    JoinedIsPlain(word, action);
    JoinedIsPlain(action, last);
    JoinedIsPlain(word, action + "/" + last);
  }

  lemma RegroupSigned(base: string, tail: string, canonical: string, sig: string)
    ensures base + ("/" + tail) + "?" + canonical + "&sig=" + sig
            == base + "/" + tail + "?" + (canonical + "&sig=" + sig)
  {
    Regroup(base, "/", tail);
    Regroup(base + "/" + tail + "?", canonical, "&sig=");
    Regroup(base + "/" + tail + "?", canonical + "&sig=", sig);
  }

  lemma PathIsTail(action: string, pathArg: string)
    requires IsText(pathArg)
    ensures ActionPath(action, pathArg) == "/" + Tail("actions", action, pathArg) && AllLetters("actions")
  {
    assert "/actions/" == "/" + "actions" + "/";
  }

  lemma SignedText(mac: Mac, secret: string, baseUrl: string, action: string, pathArg: string,
                   payload: seq<Pair>, ttlDays: int, now: int) returns (query: string)
    requires UniqueKeys(payload) && AllText(payload) && IsText(pathArg)
    requires secret != "" && baseUrl != "" && InDatetimeRange(now + ttlDays * DAY)
    requires forall s, m :: HexDigest(mac(s, m))
    ensures '#' !in query
    ensures SignAction(mac, secret, baseUrl, action, pathArg, payload, ttlDays, now)
            == Url(TrimSlashes(baseUrl) + "/" + Tail("actions", action, pathArg) + "?" + query)
  {
    var params := SignedParams(payload, Expiry(now, ttlDays));
    var canonical, sig := CanonicalQs(params), ComputeSig(mac, secret, params);
    query := canonical + "&sig=" + sig;
    SignedItemsOrdered(params);
    ParseOfUrlEncode(SignedItems(params));
    AppendedSig(canonical, sig);
    PathIsTail(action, pathArg);
    RegroupSigned(TrimSlashes(baseUrl), Tail("actions", action, pathArg), canonical, sig);
  }

  /** The path of a signed URL splits at `/` into that of the base, without the
      slashes at its end, then `actions`, the action, and, when there is a path
      argument, one more segment that decodes to it. */
  lemma SignedPath(mac: Mac, secret: string, baseUrl: string, scheme: string, host: string, path: string,
                   action: string, pathArg: string, payload: seq<Pair>, ttlDays: int, now: int)
    requires IsBase(baseUrl, scheme, host, path) && PlainSegment(action)
    requires UniqueKeys(payload) && AllText(payload) && IsText(pathArg)
    requires secret != "" && InDatetimeRange(now + ttlDays * DAY)
    requires forall s, m :: HexDigest(mac(s, m))
    ensures var signed := SignAction(mac, secret, baseUrl, action, pathArg, payload, ttlDays, now);
            && signed.Url?
            && Split(PathOf(signed.text), '/')
               == Split(TrimSlashes(path), '/') + ["actions", action]
                  + (if pathArg == "" then [] else [Encode(pathArg)])
    ensures FormDecode(Encode(pathArg)) == pathArg
  {
    var query := SignedText(mac, secret, baseUrl, action, pathArg, payload, ttlDays, now);
    var tail, trimmed := Tail("actions", action, pathArg), TrimSlashes(path);
    TrimmedBase(baseUrl, scheme, host, path);
    PathIsTail(action, pathArg);
    TailIsPlain("actions", action, pathArg);
    EncodedSegment(pathArg);
    TrimmedIsPrefix(path);
    var front := TrimSlashes(baseUrl) + "/" + tail;
    FrontIsPlain(scheme, host, trimmed, tail);
    QueryAfterMark(front, query);
    PathUnderBase(scheme, host, trimmed, tail);
    SplitOfConcat(trimmed, '/', tail);
    assert trimmed + "/" + tail == trimmed + ['/'] + tail;
    Regroup(Split(trimmed, '/'), ["actions", action], if pathArg == "" then [] else [Encode(pathArg)]);
  }

  lemma TrimmedBase(baseUrl: string, scheme: string, host: string, path: string)
    requires IsBase(baseUrl, scheme, host, path)
    ensures TrimSlashes(baseUrl) == scheme + "://" + host + TrimSlashes(path)
  {
    var head := scheme + "://" + host;
    assert head[|head| - 1] == host[|host| - 1];
    TrimmedTail(head, path);
  }

  lemma FrontIsPlain(scheme: string, host: string, path: string, tail: string)
    requires AllLetters(scheme) && HostText(host) && PlainPath(path) && PlainPath(tail)
    ensures var front := scheme + "://" + host + path + "/" + tail; '?' !in front && '#' !in front
  {
    var front := scheme + "://" + host + path + "/" + tail;
    assert PlainPath(scheme) && PlainPath(host) && PlainPath("://") && PlainPath("/");
    assert forall c :: c in front <==> c in scheme || c in "://" || c in host || c in path || c in "/" || c in tail;
  }

  /** The expiry is the whole second in which the time to live, in days, ends;
      before 1970 it is the next one. */
  lemma ExpiryIs(now: int, ttlDays: int)
    ensures var end, expiry := now + ttlDays * 86_400_000_000, 1_000_000 * Expiry(now, ttlDays);
            if end >= 0 then expiry <= end < expiry + 1_000_000 else expiry - 1_000_000 < end <= expiry
  {
  }

  /** Without a base URL or a secret there is no link. */
  lemma NoLink(mac: Mac, secret: string, baseUrl: string, action: string, pathArg: string,
               payload: seq<Pair>, ttlDays: int, now: int)
    requires UniqueKeys(payload) && AllText(payload) && IsText(pathArg)
    requires forall s, m :: HexDigest(mac(s, m))
    ensures SignAction(mac, secret, baseUrl, action, pathArg, payload, ttlDays, now) == Url("")
            <==> baseUrl == "" || secret == ""
  {
  }

  /** A request is accepted exactly when it carries the keyed hash of its own
      canonical parameters and a date that has not passed. */
  lemma VerifiedIff(mac: Mac, secret: string, params: seq<Pair>, now: int)
    requires UniqueKeys(params) && AllText(params) && forall s, m :: HexDigest(mac(s, m))
    ensures VerifyAction(mac, secret, params, now).Verified?
            <==> && secret != "" && GetOrEmpty(params, SIG) == mac(secret, CanonicalQs(params))
                 && var exp := ParseInt(GetOrEmpty(params, EXP));
                    exp.Some? && IsDate(exp.value) && now <= exp.value * SECOND
    ensures SIG == "sig" && EXP == "exp"
  {
    assert ParseInt("") == None;
    var digest := mac(secret, CanonicalQs(params));
    assert HexDigest(digest);
    assert IsAscii(digest);
  }
}
