/**
 * The part of Python's `urllib.parse` that `is_safe_url` depends on: how
 * `urlparse` finds a URL's scheme and network location, and how `urljoin`
 * picks the scheme and network location of a target resolved against the
 * application's host URL (reference resolution, section 5.2 of RFC 3986,
 * reduced to its first two components), as CPython 3.12 implements it. Paths,
 * queries and fragments never reach the safety check and are not modelled.
 */
module Urls {
  import opened Wrappers
  import opened Strings

  // ---------------------------------------------------------------------------
  // Cleaning done before any splitting

  /** The characters `urlsplit` strips from the front: C0 controls and space. */
  predicate IsC0OrSpace(c: char) {
    c <= ' '
  }

  /** Tab, carriage return and line feed, which `urlsplit` deletes wherever they occur. */
  predicate IsUnsafe(c: char) {
    c == '\t' || c == '\r' || c == '\n'
  }

  /** Nothing but controls and spaces. */
  predicate AllC0OrSpace(s: string) {
    forall i :: 0 <= i < |s| ==> IsC0OrSpace(s[i])
  }

  /** `url.lstrip(_WHATWG_C0_CONTROL_OR_SPACE)` */
  function LStripC0(s: string): (r: string)
    ensures EndsWith(s, r)
    ensures r == [] || !IsC0OrSpace(r[0])
    ensures forall i :: 0 <= i < |s| - |r| ==> IsC0OrSpace(s[i])
  {
    if s == [] || !IsC0OrSpace(s[0]) then s
    else
      var r := LStripC0(s[1..]);
      assert s[|s| - |r|..] == s[1..][|s[1..]| - |r|..];
      r
  }

  /** Deleting every tab, carriage return and line feed, keeping the rest in order. */
  function RemoveUnsafe(s: string): (r: string)
    ensures |r| <= |s|
    ensures forall c :: c in r <==> c in s && !IsUnsafe(c)
  {
    if s == [] then []
    else
      var rest := RemoveUnsafe(s[1..]);
      assert forall c :: c in s <==> c == s[0] || c in s[1..];
      if IsUnsafe(s[0]) then rest else [s[0]] + rest
  }

  /** The string `urlsplit` actually splits. */
  function Clean(url: string): (r: string)
    ensures |r| <= |url|
    ensures NoUnsafe(r)
    ensures r == [] || !IsC0OrSpace(r[0])
  {
    var s := LStripC0(url);
    assert s != [] ==> RemoveUnsafe(s) == [s[0]] + RemoveUnsafe(s[1..]);
    var r := RemoveUnsafe(s);
    assert forall i :: 0 <= i < |r| ==> r[i] in r;
    r
  }

  /** Only a URL of nothing but controls and spaces cleans to the empty text. */
  lemma CleanEmpty(url: string)
    ensures Clean(url) == [] <==> AllC0OrSpace(url)
  {
    var s := LStripC0(url);
    assert s != [] ==> RemoveUnsafe(s) == [s[0]] + RemoveUnsafe(s[1..]);
  }

  lemma {:induction false} RemoveUnsafeAppend(a: string, b: string)
    ensures RemoveUnsafe(a + b) == RemoveUnsafe(a) + RemoveUnsafe(b)
  {
    if a != [] {
      assert (a + b)[1..] == a[1..] + b;
      RemoveUnsafeAppend(a[1..], b);
    } else {
      assert a + b == b;
    }
  }

  lemma {:induction false} RemoveUnsafeKeeps(s: string)
    requires NoUnsafe(s)
    ensures RemoveUnsafe(s) == s
  {
    if s != [] {
      RemoveUnsafeKeeps(s[1..]);
    }
  }

  /** No tab, carriage return or line feed. */
  predicate NoUnsafe(s: string) {
    forall i :: 0 <= i < |s| ==> !IsUnsafe(s[i])
  }

  /** No control character and no space. */
  predicate Printable(s: string) {
    forall i :: 0 <= i < |s| ==> s[i] > ' '
  }

  /** Stripping removes a leading run of controls and spaces whatever follows it. */
  lemma {:induction false} LStripC0Prefix(pre: string, s: string)
    requires forall i :: 0 <= i < |pre| ==> IsC0OrSpace(pre[i])
    ensures LStripC0(pre + s) == LStripC0(s)
  {
    if pre != [] {
      assert (pre + s)[1..] == pre[1..] + s;
      LStripC0Prefix(pre[1..], s);
    } else {
      assert pre + s == s;
    }
  }

  // ---------------------------------------------------------------------------
  // Scheme and network location

  predicate IsAsciiLetter(c: char) {
    'a' <= c <= 'z' || 'A' <= c <= 'Z'
  }

  /** `scheme_chars`: letters, digits, '+', '-' and '.'. */
  predicate IsSchemeChar(c: char) {
    IsAsciiLetter(c) || IsDigit(c) || c == '+' || c == '-' || c == '.'
  }

  /** A text `urlsplit` takes as a scheme when a ':' follows it. */
  predicate IsSchemeToken(s: string) {
    |s| > 0 && IsAsciiLetter(s[0]) && forall i :: 0 <= i < |s| ==> IsSchemeChar(s[i])
  }

  /** No text ending at a ':' is a scheme token, so `urlsplit` finds no scheme. */
  predicate NoScheme(url: string) {
    forall i :: 0 <= i < |url| && url[i] == ':' ==> !IsSchemeToken(url[..i])
  }

  /**
   * The scheme test of `urlsplit`: the text before the first ':' is a scheme
   * when it is non-empty, starts with an ASCII letter and has only scheme
   * characters. Returns the lower-cased scheme, if any, and what follows.
   */
  function SplitScheme(url: string): (r: (Option<string>, string))
    ensures r.0.None? <==> NoScheme(url)
    ensures r.0.None? ==> r.1 == url
    ensures r.0.Some? ==>
              && |r.1| < |url|
              && var s := url[..|url| - |r.1| - 1];
                 IsSchemeToken(s) && ':' !in s && url == s + ":" + r.1 && r.0.value == Lower(s)
  {
    var i := Find(url, ':');
    if i > 0 && IsSchemeToken(url[..i]) then
      var rest := url[i + 1..];
      assert url[..|url| - |rest| - 1] == url[..i];
      assert url == url[..i] + ":" + rest;
      (Some(Lower(url[..i])), rest)
    else
      NoSchemePastColon(url, i);
      (None, url)
  }

  /** When the text before the first ':' is no scheme token, no text before any ':' is one. */
  lemma NoSchemePastColon(url: string, i: int)
    requires i == Find(url, ':')
    requires i <= 0 || !IsSchemeToken(url[..i])
    ensures NoScheme(url)
  {
    forall j | 0 <= j < |url| && url[j] == ':' ensures !IsSchemeToken(url[..j]) {
      if j > i && IsSchemeToken(url[..j]) {
        assert url[..j][i] == ':';
        SchemeTokenHasNoColon(url[..j]);
      }
    }
  }

  /** A URL that does not start with an ASCII letter has no scheme. */
  lemma NoLetterNoScheme(url: string)
    requires url == [] || !IsAsciiLetter(url[0])
    ensures NoScheme(url)
  {
    forall i | 0 <= i < |url| && url[i] == ':' ensures !IsSchemeToken(url[..i]) {
      if i > 0 {
        assert url[..i][0] == url[0];
      }
    }
  }

  /** The characters that end a network location. */
  predicate IsNetlocDelimiter(c: char) {
    c == '/' || c == '?' || c == '#'
  }

  /** `_splitnetloc`: the length of the network location, up to the first '/', '?' or '#'. */
  function NetlocLength(s: string): (n: nat)
    ensures n <= |s|
    ensures forall j :: 0 <= j < n ==> !IsNetlocDelimiter(s[j])
    ensures n < |s| ==> IsNetlocDelimiter(s[n])
  {
    if s == [] || IsNetlocDelimiter(s[0]) then 0 else 1 + NetlocLength(s[1..])
  }

  lemma {:induction false} NetlocLengthOf(netloc: string, rest: string)
    requires forall j :: 0 <= j < |netloc| ==> !IsNetlocDelimiter(netloc[j])
    requires rest == [] || IsNetlocDelimiter(rest[0])
    ensures NetlocLength(netloc + rest) == |netloc|
  {
    if netloc != [] {
      assert (netloc + rest)[1..] == netloc[1..] + rest;
      NetlocLengthOf(netloc[1..], rest);
    } else {
      assert netloc + rest == rest;
    }
  }

  /** The scheme and network location `urlparse` reports. */
  datatype Parts = Parts(scheme: string, netloc: string)

  /** `urlsplit` raises ValueError("Invalid IPv6 URL") on a lone bracket. */
  datatype UrlError = InvalidIPv6

  /** A network location with one bracket and not the other. */
  predicate UnbalancedBrackets(netloc: string) {
    ('[' in netloc) != (']' in netloc)
  }

  /**
   * The network location of what follows the scheme: the text after a leading
   * "//" up to the first '/', '?' or '#', or empty without a leading "//".
   */
  function NetlocOf(rest: string): (netloc: string)
    ensures forall j :: 0 <= j < |netloc| ==> !IsNetlocDelimiter(netloc[j])
    ensures !(|rest| >= 2 && rest[..2] == "//") ==> netloc == ""
    ensures |rest| >= 2 && rest[..2] == "//" ==>
              && |rest| >= 2 + |netloc| && rest[2..2 + |netloc|] == netloc
              && (|rest| == 2 + |netloc| || IsNetlocDelimiter(rest[2 + |netloc|]))
  {
    if |rest| >= 2 && rest[..2] == "//" then
      var n := NetlocLength(rest[2..]);
      assert n < |rest| - 2 ==> rest[2 + n] == rest[2..][n];
      rest[2..][..n]
    else ""
  }

  /** The network location a URL names itself, whatever the default scheme. */
  function OwnNetloc(url: string): string {
    NetlocOf(SplitScheme(Clean(url)).1)
  }

  /**
   * `urlparse(url, scheme=default)` reduced to scheme and network location:
   * the default scheme applies when the URL names none, and a network location
   * with a lone bracket is refused.
   */
  function UrlSplit(url: string, default: string): (r: Result<Parts, UrlError>)
    ensures r.Failure? <==> UnbalancedBrackets(OwnNetloc(url))
    ensures r.Success? ==>
              && r.value.netloc == OwnNetloc(url)
              && !UnbalancedBrackets(r.value.netloc)
              && forall j :: 0 <= j < |r.value.netloc| ==> !IsNetlocDelimiter(r.value.netloc[j])
  {
    var (scheme, rest) := SplitScheme(Clean(url));
    var netloc := NetlocOf(rest);
    if UnbalancedBrackets(netloc) then Failure(InvalidIPv6)
    else Success(Parts(scheme.GetOr(default), netloc))
  }

  lemma SchemeTokenHasNoColon(s: string)
    requires IsSchemeToken(s)
    ensures ':' !in s && forall i :: 0 <= i < |s| ==> s[i] > ' '
  {
    forall i | 0 <= i < |s| ensures s[i] != ':' && s[i] > ' ' {
      assert IsSchemeChar(s[i]);
    }
  }

  /** A scheme token before the first ':' is taken as the scheme. */
  lemma SplitSchemeOf(s: string, after: string)
    requires IsSchemeToken(s)
    ensures SplitScheme(s + ":" + after) == (Some(Lower(s)), after)
  {
    var u := s + ":" + after;
    SchemeTokenHasNoColon(s);
    FindAt(s, after, ':');
    assert u[..|s|] == s && u[|s| + 1..] == after;
  }

  /** What follows "//" up to a delimiter is the network location. */
  lemma NetlocOfNetworkPath(netloc: string, rest: string)
    requires forall j :: 0 <= j < |netloc| ==> !IsNetlocDelimiter(netloc[j])
    requires rest == [] || IsNetlocDelimiter(rest[0])
    ensures NetlocOf("//" + netloc + rest) == netloc
  {
    var after := "//" + netloc + rest;
    NetlocLengthOf(netloc, rest);
    assert after[..2] == "//" && after[2..] == netloc + rest;
    assert (netloc + rest)[..|netloc|] == netloc;
  }

  /**
   * `urlsplit` of a URL that cleans to `s:rest` with `s` a scheme token: the
   * scheme is `s` lower-cased and the network location is read from `rest`.
   */
  lemma SplitWithScheme(url: string, s: string, rest: string, default: string)
    requires IsSchemeToken(s) && Clean(url) == s + ":" + rest
    ensures OwnNetloc(url) == NetlocOf(rest)
    ensures UrlSplit(url, default) ==
              if UnbalancedBrackets(NetlocOf(rest)) then Failure(InvalidIPv6) else Success(Parts(Lower(s), NetlocOf(rest)))
  {
    SplitSchemeOf(s, rest);
  }

  /**
   * `urlsplit` of a URL whose cleaned text names no scheme: the scheme is the
   * default and the network location is read from the whole cleaned text.
   */
  lemma SplitWithoutScheme(url: string, default: string)
    requires NoScheme(Clean(url))
    ensures OwnNetloc(url) == NetlocOf(Clean(url))
    ensures UrlSplit(url, default) ==
              if UnbalancedBrackets(NetlocOf(Clean(url))) then Failure(InvalidIPv6)
              else Success(Parts(default, NetlocOf(Clean(url))))
  {
  }

  /** Deleting tabs, carriage returns and line feeds keeps a network location and the delimiter ending it. */
  lemma RemoveUnsafeNetworkPath(netloc: string, rest: string)
    requires NoUnsafe(netloc)
    requires rest == [] || IsNetlocDelimiter(rest[0])
    ensures RemoveUnsafe("//" + netloc + rest) == "//" + netloc + RemoveUnsafe(rest)
    ensures RemoveUnsafe(rest) == [] || IsNetlocDelimiter(RemoveUnsafe(rest)[0])
  {
    var head := "//" + netloc;
    assert NoUnsafe(head) by {
      assert forall i :: 2 <= i < |head| ==> head[i] == netloc[i - 2];
    }
    RemoveUnsafeAppend(head, rest);
    RemoveUnsafeKeeps(head);
  }

  /** An absolute URL `s://netloc...` reports its own scheme, lower-cased, and its own network location. */
  lemma SplitAbsolute(s: string, netloc: string, rest: string, default: string)
    requires IsSchemeToken(s)
    requires forall j :: 0 <= j < |netloc| ==> !IsNetlocDelimiter(netloc[j])
    requires NoUnsafe(netloc)
    requires rest == [] || IsNetlocDelimiter(rest[0])
    ensures OwnNetloc(s + "://" + netloc + rest) == netloc
    ensures UrlSplit(s + "://" + netloc + rest, default) ==
              if UnbalancedBrackets(netloc) then Failure(InvalidIPv6) else Success(Parts(Lower(s), netloc))
  {
    var u := s + "://" + netloc + rest;
    var after := "//" + netloc + rest;
    assert u == s + ":" + after;
    CleanAfterScheme(s, after);
    RemoveUnsafeNetworkPath(netloc, rest);
    NetlocOfNetworkPath(netloc, RemoveUnsafe(rest));
    SplitWithScheme(u, s, RemoveUnsafe(after), default);
  }

  /** A network-path reference `//netloc...` takes the default scheme and reports its network location. */
  lemma SplitNetworkPath(netloc: string, rest: string, default: string)
    requires forall j :: 0 <= j < |netloc| ==> !IsNetlocDelimiter(netloc[j])
    requires NoUnsafe(netloc)
    requires rest == [] || IsNetlocDelimiter(rest[0])
    ensures OwnNetloc("//" + netloc + rest) == netloc
    ensures UrlSplit("//" + netloc + rest, default) ==
              if UnbalancedBrackets(netloc) then Failure(InvalidIPv6) else Success(Parts(default, netloc))
  {
    var u := "//" + netloc + rest;
    LStripC0Keeps(u);
    RemoveUnsafeNetworkPath(netloc, rest);
    var c := "//" + netloc + RemoveUnsafe(rest);
    assert Clean(u) == c;
    NoLetterNoScheme(c);
    NetlocOfNetworkPath(netloc, RemoveUnsafe(rest));
    SplitWithoutScheme(u, default);
  }

  /** The text before the first ':' of `s:rest` is a scheme token, so cleaning leaves it in place. */
  lemma CleanAfterScheme(s: string, rest: string)
    requires IsSchemeToken(s)
    ensures Clean(s + ":" + rest) == s + ":" + RemoveUnsafe(rest)
  {
    SchemeTokenHasNoColon(s);
    assert (s + ":" + rest)[0] == s[0];
    RemoveUnsafeAppend(s + ":", rest);
    RemoveUnsafeKeeps(s + ":");
  }

  /** Whatever follows, `s:...` with a scheme token `s` reports the scheme `s`, lower-cased. */
  lemma SplitKeepsScheme(s: string, rest: string, default: string)
    requires IsSchemeToken(s)
    ensures UrlSplit(s + ":" + rest, default).Success? ==> UrlSplit(s + ":" + rest, default).value.scheme == Lower(s)
  {
    CleanAfterScheme(s, rest);
    SplitSchemeOf(s, RemoveUnsafe(rest));
  }

  /** Leading controls and spaces are cleaned away. */
  lemma CleanIgnoresLeadingControls(pre: string, url: string)
    requires forall i :: 0 <= i < |pre| ==> IsC0OrSpace(pre[i])
    ensures Clean(pre + url) == Clean(url)
  {
    LStripC0Prefix(pre, url);
  }

  /** A string that starts with a printable character is not stripped. */
  lemma LStripC0Keeps(s: string)
    requires s != [] && !IsC0OrSpace(s[0])
    ensures LStripC0(s) == s
  {
  }

  /** Deleting a tab, carriage return or line feed before deleting the rest changes nothing. */
  lemma RemoveUnsafeDrops(a: string, c: char, b: string)
    requires IsUnsafe(c)
    ensures RemoveUnsafe(a + [c] + b) == RemoveUnsafe(a + b)
  {
    calc {
      RemoveUnsafe(a + [c] + b);
      { RemoveUnsafeAppend(a + [c], b); }
      RemoveUnsafe(a + [c]) + RemoveUnsafe(b);
      { RemoveUnsafeAppend(a, [c]); assert RemoveUnsafe([c]) == []; }
      RemoveUnsafe(a) + RemoveUnsafe(b);
      { RemoveUnsafeAppend(a, b); }
      RemoveUnsafe(a + b);
    }
  }

  /** A tab, carriage return or line feed after the first printable character is cleaned away. */
  lemma CleanIgnoresUnsafe(a: string, c: char, b: string)
    requires a != [] && !IsC0OrSpace(a[0]) && IsUnsafe(c)
    ensures Clean(a + [c] + b) == Clean(a + b)
  {
    assert (a + [c] + b)[0] == a[0] && (a + b)[0] == a[0];
    LStripC0Keeps(a + [c] + b);
    LStripC0Keeps(a + b);
    RemoveUnsafeDrops(a, c, b);
  }

  // ---------------------------------------------------------------------------
  // The host URL and urljoin

  datatype Scheme = Http | Https

  function SchemeName(s: Scheme): (name: string)
    ensures IsSchemeToken(name) && Lower(name) == name
  {
    match s
    case Http => "http"
    case Https => "https"
  }

  /** `request.host_url`: the scheme and host the request came in on, as "scheme://host/". */
  datatype HostUrl = HostUrl(scheme: Scheme, host: string)

  function HostUrlString(h: HostUrl): (url: string)
    ensures |url| > |h.host|
  {
    SchemeName(h.scheme) + "://" + h.host + "/"
  }

  /** A host as a request can carry it: printable, non-empty, no delimiter, no lone bracket. */
  predicate WellFormedHost(host: string) {
    && host != ""
    && Printable(host)
    && (forall j :: 0 <= j < |host| ==> !IsNetlocDelimiter(host[j]))
    && !UnbalancedBrackets(host)
  }

  /** The host URL parses back into its scheme and host. */
  lemma HostUrlParses(h: HostUrl, default: string)
    requires WellFormedHost(h.host)
    ensures UrlSplit(HostUrlString(h), default) == Success(Parts(SchemeName(h.scheme), h.host))
  {
    SplitAbsolute(SchemeName(h.scheme), h.host, "/", default);
  }

  /**
   * `urlparse(urljoin(request.host_url, target))` reduced to scheme and network
   * location. An empty target yields the base. Otherwise the target is split
   * with the base's scheme as default: a target with another scheme is kept
   * as it is, one with a network location keeps it, and any other takes the
   * base's network location. Re-parsing the joined URL gives back the scheme
   * and network location the join chose, since neither holds a delimiter.
   */
  function Resolve(h: HostUrl, target: string): (r: Result<Parts, UrlError>)
    ensures r.Success? ==> r.value.netloc == OwnNetloc(target) || r.value.netloc == OwnNetloc(HostUrlString(h))
    ensures r.Failure? ==> UnbalancedBrackets(OwnNetloc(target)) || UnbalancedBrackets(OwnNetloc(HostUrlString(h)))
    ensures r.Success? && OwnNetloc(target) != "" ==> r.value.netloc == OwnNetloc(target)
  {
    var base :- UrlSplit(HostUrlString(h), "");
    if target == "" then Success(base)
    else
      var t :- UrlSplit(target, base.scheme);
      if t.scheme != base.scheme then UrlSplit(target, "")
      else if t.netloc != "" then Success(t)
      else Success(Parts(t.scheme, base.netloc))
  }

  /** An absolute URL `s://netloc...` resolves to itself: its own scheme, lower-cased, and its own network location. */
  lemma ResolveAbsolute(h: HostUrl, s: string, netloc: string, rest: string)
    requires WellFormedHost(h.host)
    requires IsSchemeToken(s)
    requires netloc != ""
    requires forall j :: 0 <= j < |netloc| ==> !IsNetlocDelimiter(netloc[j])
    requires rest == [] || IsNetlocDelimiter(rest[0])
    requires NoUnsafe(netloc)
    ensures Resolve(h, s + "://" + netloc + rest) ==
              if UnbalancedBrackets(netloc) then Failure(InvalidIPv6) else Success(Parts(Lower(s), netloc))
  {
    HostUrlParses(h, "");
    SplitAbsolute(s, netloc, rest, SchemeName(h.scheme));
    SplitAbsolute(s, netloc, rest, "");
  }

  /**
   * A target that cleans to `s:rest` with `s` a scheme token keeps its own
   * scheme, and its own network location, except that a target of the host's
   * own scheme without a network location takes the host's.
   */
  lemma ResolveWithScheme(h: HostUrl, t: string, s: string, rest: string)
    requires WellFormedHost(h.host)
    requires IsSchemeToken(s) && Clean(t) == s + ":" + rest
    ensures Resolve(h, t) ==
              if UnbalancedBrackets(NetlocOf(rest)) then Failure(InvalidIPv6)
              else if NetlocOf(rest) == "" && Lower(s) == SchemeName(h.scheme) then Success(Parts(Lower(s), h.host))
              else Success(Parts(Lower(s), NetlocOf(rest)))
  {
    HostUrlParses(h, "");
    SplitWithScheme(t, s, rest, SchemeName(h.scheme));
    SplitWithScheme(t, s, rest, "");
  }

  /**
   * A non-empty target that names no scheme takes the host's scheme, and its
   * own network location or, without one, the host's.
   */
  lemma ResolveWithoutScheme(h: HostUrl, t: string)
    requires WellFormedHost(h.host)
    requires t != "" && NoScheme(Clean(t))
    ensures Resolve(h, t) ==
              if UnbalancedBrackets(NetlocOf(Clean(t))) then Failure(InvalidIPv6)
              else if NetlocOf(Clean(t)) == "" then Success(Parts(SchemeName(h.scheme), h.host))
              else Success(Parts(SchemeName(h.scheme), NetlocOf(Clean(t))))
  {
    HostUrlParses(h, "");
    SplitWithoutScheme(t, SchemeName(h.scheme));
  }

  /** Two URLs that clean to the same text split alike. */
  lemma SplitSeesOnlyClean(u1: string, u2: string, default: string)
    requires Clean(u1) == Clean(u2)
    ensures UrlSplit(u1, default) == UrlSplit(u2, default)
  {
  }

  /** Two non-empty targets that clean to the same text resolve alike. */
  lemma ResolveSeesOnlyClean(h: HostUrl, t1: string, t2: string)
    requires t1 != "" && t2 != "" && Clean(t1) == Clean(t2)
    ensures Resolve(h, t1) == Resolve(h, t2)
  {
    var base := UrlSplit(HostUrlString(h), "");
    if base.Success? {
      SplitSeesOnlyClean(t1, t2, base.value.scheme);
      SplitSeesOnlyClean(t1, t2, "");
    }
  }
}
