/**
 * `is_safe_url` and `redirect_back` of the HTTP demo: a redirect target is
 * accepted only when, resolved against the host URL, it is an http or https
 * URL on the application's own network location; `redirect_back` tries the
 * Referer header, then the `next` query argument, and otherwise redirects to
 * the default endpoint.
 */
module SafeRedirect {
  import opened Wrappers
  import opened Strings
  import opened Urls
  import opened Web

  /**
   * `is_safe_url(target)`. A lone bracket in a network location makes
   * `urlparse` raise; nothing catches it, so the outcome is a Failure.
   */
  function IsSafeUrl(h: HostUrl, target: string): (r: Result<bool, UrlError>)
    ensures r == Success(true) ==>
              && Resolve(h, target).Success?
              && Resolve(h, target).value.scheme in {"http", "https"}
              && Resolve(h, target).value.netloc == OwnNetloc(HostUrlString(h))
    ensures r.Failure? ==> UnbalancedBrackets(OwnNetloc(target)) || UnbalancedBrackets(OwnNetloc(HostUrlString(h)))
  {
    var ref :- UrlSplit(HostUrlString(h), "");
    var test :- Resolve(h, target);
    Success((test.scheme == "http" || test.scheme == "https") && ref.netloc == test.netloc)
  }

  /** A target is safe exactly when it resolves to an http or https URL on the host itself. */
  lemma SafeUrlMeansSameHost(h: HostUrl, target: string)
    requires WellFormedHost(h.host)
    ensures IsSafeUrl(h, target) == Success(true) <==>
              && Resolve(h, target).Success?
              && Resolve(h, target).value.scheme in {"http", "https"}
              && Resolve(h, target).value.netloc == h.host
    ensures IsSafeUrl(h, target).Failure? <==> Resolve(h, target).Failure?
  {
    HostUrlParses(h, "");
  }

  /** `urljoin` returns the host URL itself for an empty target, which is safe. */
  lemma EmptyTargetIsSafe(h: HostUrl)
    requires WellFormedHost(h.host)
    ensures IsSafeUrl(h, "") == Success(true)
  {
    HostUrlParses(h, "");
  }

  /**
   * A relative reference such as "foo?x=1" or "page?t=12:00", one that names
   * no scheme and, once cleaned, does not start with "//", takes the host's
   * scheme and network location.
   */
  lemma SchemelessPathIsSafe(h: HostUrl, target: string)
    requires WellFormedHost(h.host)
    requires target != "" && NoScheme(Clean(target))
    requires !(|Clean(target)| >= 2 && Clean(target)[..2] == "//")
    ensures IsSafeUrl(h, target) == Success(true)
  {
    HostUrlParses(h, "");
    ResolveWithoutScheme(h, target);
  }

  /** An absolute path such as "/foo", "/a b" or "/a:b" is safe unless its second character makes it "//". */
  lemma PathIsSafe(h: HostUrl, target: string)
    requires WellFormedHost(h.host)
    requires target != "" && target[0] == '/'
    requires |target| == 1 || (target[1] != '/' && !IsUnsafe(target[1]))
    ensures IsSafeUrl(h, target) == Success(true)
  {
    LStripC0Keeps(target);
    var c := Clean(target);
    assert c == [target[0]] + RemoveUnsafe(target[1..]);
    if |target| > 1 {
      assert target[1..][0] == target[1];
      assert RemoveUnsafe(target[1..]) == [target[1]] + RemoveUnsafe(target[2..]);
      assert c[1] == target[1];
    }
    NoLetterNoScheme(c);
    SchemelessPathIsSafe(h, target);
  }

  /** A target with any scheme other than http or https ("javascript:...", "ftp://...") is never safe. */
  lemma ForeignSchemeNeverSafe(h: HostUrl, s: string, rest: string)
    requires WellFormedHost(h.host)
    requires IsSchemeToken(s) && Lower(s) != "http" && Lower(s) != "https"
    ensures IsSafeUrl(h, s + ":" + rest) != Success(true)
  {
    HostUrlParses(h, "");
    SplitKeepsScheme(s, rest, SchemeName(h.scheme));
    SplitKeepsScheme(s, rest, "");
  }

  /** A network-path reference "//other..." to another network location is refused (or raises on a lone bracket). */
  lemma ForeignNetworkPathNeverSafe(h: HostUrl, netloc: string, rest: string)
    requires WellFormedHost(h.host)
    requires netloc != "" && netloc != h.host
    requires forall j :: 0 <= j < |netloc| ==> !IsNetlocDelimiter(netloc[j])
    requires rest == [] || IsNetlocDelimiter(rest[0])
    requires NoUnsafe(netloc)
    ensures IsSafeUrl(h, "//" + netloc + rest) ==
              if UnbalancedBrackets(netloc) then Failure(InvalidIPv6) else Success(false)
  {
    SplitNetworkPath(netloc, rest, "");
    ForeignNetlocNeverSafe(h, "//" + netloc + rest);
  }

  /** An absolute URL naming another network location is refused (or raises on a lone bracket), whatever its scheme. */
  lemma ForeignAbsoluteNeverSafe(h: HostUrl, s: string, netloc: string, rest: string)
    requires WellFormedHost(h.host)
    requires IsSchemeToken(s)
    requires netloc != "" && netloc != h.host
    requires forall j :: 0 <= j < |netloc| ==> !IsNetlocDelimiter(netloc[j])
    requires rest == [] || IsNetlocDelimiter(rest[0])
    requires NoUnsafe(netloc)
    ensures IsSafeUrl(h, s + "://" + netloc + rest) ==
              if UnbalancedBrackets(netloc) then Failure(InvalidIPv6) else Success(false)
  {
    SplitAbsolute(s, netloc, rest, "");
    ForeignNetlocNeverSafe(h, s + "://" + netloc + rest);
  }

  /** An http or https URL on the host's own network location is safe, even with the other of the two schemes. */
  lemma SameHostAbsoluteIsSafe(h: HostUrl, s: string, rest: string)
    requires WellFormedHost(h.host)
    requires IsSchemeToken(s) && (Lower(s) == "http" || Lower(s) == "https")
    requires rest == [] || IsNetlocDelimiter(rest[0])
    ensures IsSafeUrl(h, s + "://" + h.host + rest) == Success(true)
  {
    HostUrlParses(h, "");
    ResolveAbsolute(h, s, h.host, rest);
  }

  /**
   * Any target that names a network location other than the host's is
   * refused, or raises on a lone bracket, however it is written.
   */
  lemma ForeignNetlocNeverSafe(h: HostUrl, target: string)
    requires WellFormedHost(h.host)
    requires OwnNetloc(target) != "" && OwnNetloc(target) != h.host
    ensures IsSafeUrl(h, target) ==
              if UnbalancedBrackets(OwnNetloc(target)) then Failure(InvalidIPv6) else Success(false)
  {
    HostUrlParses(h, "");
    SafeUrlMeansSameHost(h, target);
  }

  /** Two non-empty targets that clean to the same text get the same verdict. */
  lemma SafeUrlSeesOnlyClean(h: HostUrl, t1: string, t2: string)
    requires t1 != "" && t2 != "" && Clean(t1) == Clean(t2)
    ensures IsSafeUrl(h, t1) == IsSafeUrl(h, t2)
  {
    ResolveSeesOnlyClean(h, t1, t2);
  }

  /** Leading controls and spaces in front of a non-empty target change nothing. */
  lemma LeadingControlsIgnored(h: HostUrl, pre: string, target: string)
    requires forall i :: 0 <= i < |pre| ==> IsC0OrSpace(pre[i])
    requires target != ""
    ensures IsSafeUrl(h, pre + target) == IsSafeUrl(h, target)
  {
    CleanIgnoresLeadingControls(pre, target);
    SafeUrlSeesOnlyClean(h, pre + target, target);
  }

  /**
   * A tab, carriage return or line feed inside a target changes nothing, so
   * "/\t/evil.example" is judged as "//evil.example".
   */
  lemma UnsafeCharactersIgnored(h: HostUrl, a: string, c: char, b: string)
    requires a != [] && !IsC0OrSpace(a[0]) && IsUnsafe(c)
    ensures IsSafeUrl(h, a + [c] + b) == IsSafeUrl(h, a + b)
  {
    CleanIgnoresUnsafe(a, c, b);
    SafeUrlSeesOnlyClean(h, a + [c] + b, a + b);
  }

  // ---------------------------------------------------------------------------
  // redirect_back

  /** A verdict on one candidate target, as `is_safe_url` gives it. */
  type Judge = string -> Result<bool, UrlError>

  /** `is_safe_url` for the host the request came in on. */
  function SafeJudge(h: HostUrl): Judge {
    t => IsSafeUrl(h, t)
  }

  /** `if not target: continue` — an absent or empty candidate is passed over. */
  predicate Skipped(c: Option<string>) {
    c.None? || c.value == ""
  }

  /** A candidate that is passed over or judged unacceptable. */
  predicate Rejected(judge: Judge, c: Option<string>) {
    Skipped(c) || judge(c.value) == Success(false)
  }

  /**
   * The outcome of trying the candidates in order: the first one the judge
   * accepts, None when every one is rejected, or the judge's error on the
   * first candidate that is neither skipped nor rejected.
   */
  function FirstAccepted(judge: Judge, cands: seq<Option<string>>): (r: Result<Option<string>, UrlError>)
    ensures r == Success(None) <==> forall i :: 0 <= i < |cands| ==> Rejected(judge, cands[i])
    ensures r.Success? && r.value.Some? ==>
              exists i :: 0 <= i < |cands| && cands[i] == r.value && !Skipped(cands[i])
                          && judge(cands[i].value) == Success(true)
                          && forall j :: 0 <= j < i ==> Rejected(judge, cands[j])
    ensures r.Failure? ==>
              exists i :: 0 <= i < |cands| && !Skipped(cands[i]) && judge(cands[i].value).Failure?
                          && forall j :: 0 <= j < i ==> Rejected(judge, cands[j])
  {
    if cands == [] then Success(None)
    else
      var rest := FirstAccepted(judge, cands[1..]);
      assert forall j :: 0 <= j < |cands| - 1 ==> cands[1..][j] == cands[j + 1];
      if Skipped(cands[0]) then rest
      else
        var ok :- judge(cands[0].value);
        if ok then Success(cands[0]) else rest
  }

  /**
   * `redirect_back()`: the Referer header, then the `next` argument, each
   * skipped when absent or empty; the first safe one is redirected to as it
   * was given, and with none the redirect goes to the default endpoint.
   */
  method RedirectBack(h: HostUrl, referrer: Option<string>, next: Option<string>, default: string)
    returns (resp: Response)
    ensures resp == match FirstAccepted(SafeJudge(h), [referrer, next])
                    case Failure(_) => Uncaught
                    case Success(Some(t)) => Redirect(t)
                    case Success(None) => RedirectToEndpoint(default)
  {
    var cands := [referrer, next];
    var i := 0;
    while i < |cands|
      invariant 0 <= i <= |cands|
      invariant FirstAccepted(SafeJudge(h), cands) == FirstAccepted(SafeJudge(h), cands[i..])
    {
      var target := cands[i];
      assert cands[i..][0] == target && cands[i..][1..] == cands[i + 1..];
      if target.None? || target.value == "" {
        i := i + 1;
        continue;
      }
      var safe := IsSafeUrl(h, target.value);
      if safe.Failure? {
        return Uncaught;
      }
      if safe.value {
        return Redirect(target.value);
      }
      i := i + 1;
    }
    resp := RedirectToEndpoint(default);
  }

  /**
   * "/\\evil.example" is judged safe: urllib reads it as a path on the host,
   * while browsers treat the backslash as a slash and follow it to another
   * site. The check only ever sees urllib's reading.
   */
  lemma BackslashPathIsSafe(h: HostUrl, rest: string)
    requires WellFormedHost(h.host)
    ensures IsSafeUrl(h, "/\\" + rest) == Success(true)
  {
    var t := "/\\" + rest;
    assert t[0] == '/' && t[1] == '\\';
    PathIsSafe(h, t);
  }

  /** A usable, safe referrer wins over `next`. */
  lemma ReferrerFirst(h: HostUrl, referrer: string, next: Option<string>)
    requires referrer != "" && IsSafeUrl(h, referrer) == Success(true)
    ensures FirstAccepted(SafeJudge(h), [Some(referrer), next]) == Success(Some(referrer))
  {
  }

  /** With the referrer rejected, a safe `next` is used. */
  lemma NextAfterRejectedReferrer(h: HostUrl, referrer: Option<string>, next: string)
    requires Rejected(SafeJudge(h), referrer)
    requires next != "" && IsSafeUrl(h, next) == Success(true)
    ensures FirstAccepted(SafeJudge(h), [referrer, Some(next)]) == Success(Some(next))
  {
    assert [referrer, Some(next)][1..] == [Some(next)];
  }

  /** With both candidates rejected the default endpoint is used. */
  lemma DefaultWhenBothRejected(h: HostUrl, referrer: Option<string>, next: Option<string>)
    requires Rejected(SafeJudge(h), referrer) && Rejected(SafeJudge(h), next)
    ensures FirstAccepted(SafeJudge(h), [referrer, next]) == Success(None)
  {
    assert [referrer, next][1..] == [next];
  }

  /**
   * What `redirect_back` redirects to is one of the candidates, unchanged, and,
   * as `urljoin` resolves it, an http or https URL on the host. A browser may
   * read the same text otherwise (see `BackslashPathIsSafe`).
   */
  lemma NeverForeign(h: HostUrl, cands: seq<Option<string>>)
    requires WellFormedHost(h.host)
    ensures var r := FirstAccepted(SafeJudge(h), cands);
            r.Success? && r.value.Some? ==>
              && r.value in cands
              && Resolve(h, r.value.value).Success?
              && Resolve(h, r.value.value).value.scheme in {"http", "https"}
              && Resolve(h, r.value.value).value.netloc == h.host
  {
    var r := FirstAccepted(SafeJudge(h), cands);
    if r.Success? && r.value.Some? {
      SafeUrlMeansSameHost(h, r.value.value);
    }
  }

  /**
   * A referrer naming another site, however written, is passed over in favour
   * of a `next` that is an absolute path such as "/foo".
   */
  lemma ForeignReferrerFallsThrough(h: HostUrl, referrer: string, next: string)
    requires WellFormedHost(h.host)
    requires OwnNetloc(referrer) != "" && OwnNetloc(referrer) != h.host && !UnbalancedBrackets(OwnNetloc(referrer))
    requires next != "" && next[0] == '/'
    requires |next| == 1 || (next[1] != '/' && !IsUnsafe(next[1]))
    ensures FirstAccepted(SafeJudge(h), [Some(referrer), Some(next)]) == Success(Some(next))
  {
    ForeignNetlocNeverSafe(h, referrer);
    assert SafeJudge(h)(referrer) == Success(false);
    PathIsSafe(h, next);
    NextAfterRejectedReferrer(h, Some(referrer), next);
  }
}
