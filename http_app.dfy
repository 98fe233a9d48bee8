/**
 * The session and content views of the HTTP demo: `login`, `logout`,
 * `admin` and `hello` over the `logged_in` session flag, the `note`
 * content-type dispatch, `go_back` and `teapot`.
 */
module HttpApp {
  import opened Wrappers
  import opened Strings
  import opened Web

  /** The session key the login views set and clear. */
  const LoggedInKey := "logged_in"

  predicate Authenticated(session: map<string, Value>) {
    LoggedInKey in session
  }

  /** Two sessions that hold the same keys with the same values, the login flag aside. */
  ghost predicate AgreeOffFlag(a: map<string, Value>, b: map<string, Value>) {
    forall k :: k != LoggedInKey ==> (k in a <==> k in b) && (k in a ==> a[k] == b[k])
  }

  /** The session after `login`: the flag set to True, every other key as it was. */
  function SignedIn(session: map<string, Value>): (s: map<string, Value>)
    ensures Authenticated(s) && s[LoggedInKey] == Flag(true)
    ensures AgreeOffFlag(s, session)
  {
    session[LoggedInKey := Flag(true)]
  }

  /** The session after `logout`: the flag gone, every other key as it was. */
  function SignedOut(session: map<string, Value>): (s: map<string, Value>)
    ensures !Authenticated(s)
    ensures AgreeOffFlag(s, session)
  {
    if LoggedInKey in session then session - {LoggedInKey} else session
  }

  /** Logging out without the flag leaves the session as it is. */
  lemma SignedOutWithoutFlag(session: map<string, Value>)
    requires !Authenticated(session)
    ensures SignedOut(session) == session
  {
  }

  /** Logging in or out twice is the same as once. */
  lemma SignInOutIdempotent(session: map<string, Value>)
    ensures SignedIn(SignedIn(session)) == SignedIn(session)
    ensures SignedOut(SignedOut(session)) == SignedOut(session)
  {
    assert !Authenticated(SignedOut(session));
  }

  /** Signing out after signing in gives back any session that had no flag. */
  lemma SignInThenOut(session: map<string, Value>)
    requires !Authenticated(session)
    ensures SignedOut(SignedIn(session)) == session
  {
    var s := SignedOut(SignedIn(session));
    assert s.Keys == session.Keys;
  }

  /** `hello`: the `name` query argument, else the `name` cookie, else "Human". */
  function HelloName(arg: Option<string>, cookie: Option<string>): (name: string)
    ensures arg.Some? ==> name == arg.value
    ensures arg.None? && cookie.Some? ==> name == cookie.value
    ensures arg.None? && cookie.None? ==> name == "Human"
  {
    match arg
    case Some(n) => n
    case None => cookie.GetOr("Human")
  }

  /** The greeting `hello` returns, given the name already escaped: the name, then the login status. */
  function HelloBody(escapedName: string, authenticated: bool): (body: string)
    ensures |body| > 11 + |escapedName|
    ensures body[..11] == "<h1>Hello, " && body[11..11 + |escapedName|] == escapedName
    ensures authenticated ==> EndsWith(body, "[Authenticated]")
    ensures !authenticated ==> EndsWith(body, "[Not Authenticated]")
  {
    var head := "<h1>Hello, " + escapedName + "!</h1>";
    var status := if authenticated then "[Authenticated]" else "[Not Authenticated]";
    assert (head + status)[|head|..] == status;
    head + status
  }

  /** The routes that touch the login flag, and any other request. */
  datatype Route = Login | Logout | Other

  /**
   * The session after one request: a login authenticates, a logout does not,
   * any other request leaves the session alone; no key but the flag changes.
   */
  function Step(session: map<string, Value>, r: Route): (s: map<string, Value>)
    ensures Authenticated(s) <==> r == Login || (r == Other && Authenticated(session))
    ensures AgreeOffFlag(s, session)
    ensures r == Other ==> s == session
  {
    match r
    case Login => SignedIn(session)
    case Logout => SignedOut(session)
    case Other => session
  }

  /**
   * The session after a sequence of requests, in order: no key but the flag
   * changes, and requests that never log in or out leave it as it was.
   */
  function Run(session: map<string, Value>, rs: seq<Route>): (s: map<string, Value>)
    ensures AgreeOffFlag(s, session)
    ensures (forall i :: 0 <= i < |rs| ==> rs[i] == Other) ==> s == session
    decreases rs
  {
    if rs == [] then session
    else
      var s := Run(Step(session, rs[0]), rs[1..]);
      assert forall i :: 1 <= i < |rs| ==> rs[i] == rs[1..][i - 1];
      s
  }

  /** The last Login or Logout in a sequence of requests, if any. */
  function LastSwitch(rs: seq<Route>): (r: Option<Route>)
    ensures r.Some? ==> r.value != Other && r.value in rs
    ensures r.None? <==> forall i :: 0 <= i < |rs| ==> rs[i] == Other
  {
    if rs == [] then None
    else if rs[|rs| - 1] != Other then Some(rs[|rs| - 1])
    else
      var r := LastSwitch(rs[..|rs| - 1]);
      assert forall i :: 0 <= i < |rs| - 1 ==> rs[i] == rs[..|rs| - 1][i];
      r
  }

  lemma {:induction false} RunAppend(session: map<string, Value>, rs: seq<Route>, r: Route)
    ensures Run(session, rs + [r]) == Step(Run(session, rs), r)
    decreases rs
  {
    if rs != [] {
      assert (rs + [r])[1..] == rs[1..] + [r];
      RunAppend(Step(session, rs[0]), rs[1..], r);
    } else {
      assert (rs + [r])[1..] == [];
    }
  }

  /**
   * After any sequence of requests the user is authenticated exactly when the
   * last login or logout was a login, or, with neither, when the session
   * already was.
   */
  lemma {:induction false} AuthenticatedAfterRun(session: map<string, Value>, rs: seq<Route>)
    ensures Authenticated(Run(session, rs)) <==>
              match LastSwitch(rs)
              case Some(r) => r == Login
              case None => Authenticated(session)
  {
    if rs != [] {
      var init := rs[..|rs| - 1];
      assert rs == init + [rs[|rs| - 1]];
      RunAppend(session, init, rs[|rs| - 1]);
      AuthenticatedAfterRun(session, init);
    }
  }

  /** The views of the demo that read or write the session. */
  class HttpServer {
    var session: map<string, Value>

    constructor (session: map<string, Value>)
      ensures this.session == session
    {
      this.session := session;
    }

    /** `login`: set the flag, then redirect to `hello`. */
    method LoginView() returns (resp: Response)
      modifies this
      ensures session == SignedIn(old(session))
      ensures resp == RedirectToEndpoint("hello")
    {
      session := session[LoggedInKey := Flag(true)];
      resp := RedirectToEndpoint("hello");
    }

    /** `logout`: drop the flag when it is there, then redirect to `hello`. */
    method LogoutView() returns (resp: Response)
      modifies this
      ensures session == SignedOut(old(session))
      ensures resp == RedirectToEndpoint("hello")
    {
      if LoggedInKey in session {
        session := session - {LoggedInKey};
      }
      resp := RedirectToEndpoint("hello");
    }

    /** `admin`: 403 without the flag, the admin page with it. */
    method AdminView() returns (resp: Response)
      ensures resp == Abort(403) <==> !Authenticated(session)
      ensures Authenticated(session) ==> resp == Body("Welcome to admin page.", 200)
    {
      if LoggedInKey !in session {
        return Abort(403);
      }
      resp := Body("Welcome to admin page.", 200);
    }

    /**
     * `hello`: greets the name from the query or the cookie, passed through the
     * template engine's `escape`, and reports the login status.
     */
    method HelloView(arg: Option<string>, cookie: Option<string>, escape: string -> string) returns (resp: Response)
      ensures resp == Body(HelloBody(escape(HelloName(arg, cookie)), Authenticated(session)), 200)
    {
      var name := arg;
      if name.None? {
        name := Some(cookie.GetOr("Human"));
      }
      resp := Body(HelloBody(escape(name.value), LoggedInKey in session), 200);
    }
  }

  // ---------------------------------------------------------------------------
  // note, go_back, teapot

  /** The mimetype each `note` format is served with. */
  const NoteMimetypes: map<string, string> :=
    map["text" := "text/plain", "html" := "text/html", "xml" := "application/xml", "json" := "application/json"]

  /** `note`: the lower-cased format picks the mimetype; any other format aborts with 400. */
  function Note(contentType: string): (r: Response)
    ensures Lower(contentType) in NoteMimetypes ==> r == Typed(NoteMimetypes[Lower(contentType)])
    ensures Lower(contentType) !in NoteMimetypes ==> r == Abort(400)
  {
    var ct := Lower(contentType);
    if ct == "text" then Typed("text/plain")
    else if ct == "html" then Typed("text/html")
    else if ct == "xml" then Typed("application/xml")
    else if ct == "json" then Typed("application/json")
    else Abort(400)
  }

  /** Formats that differ only in case are served alike. */
  lemma NoteIgnoresCase(a: string, b: string)
    requires Lower(a) == Lower(b)
    ensures Note(a) == Note(b)
  {
  }

  /** `go_back`: "Welcome to N!" where N, read back as an integer, is 2018 - year. */
  function GoBack(year: nat): (r: Response)
    ensures r.Body? && r.status == 200
    ensures var t := r.text;
            && |t| >= 13 && t[..11] == "Welcome to " && t[|t| - 1] == '!'
            && var n := t[11..|t| - 1];
               CanonicalInt(n) && ParseInt(n) == 2018 - year
  {
    var n := FormatInt(2018 - year);
    var t := "Welcome to " + n + "!";
    assert t[11..|t| - 1] == n;
    ParseFormatInt(2018 - year);
    Body(t, 200)
  }

  /** `teapot`: coffee is refused with 418, anything else gets tea. */
  function Teapot(drink: string): (r: Response)
    ensures r == Abort(418) <==> drink == "coffee"
    ensures drink != "coffee" ==> r == Body("A drop of tea.", 200)
  {
    if drink == "coffee" then Abort(418) else Body("A drop of tea.", 200)
  }
}
