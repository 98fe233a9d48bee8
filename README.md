# helloflask demos: upload policy, safe redirects and session views

A Dafny model of the request-handling logic in two of the helloflask demo
applications.

In the form demo (`demos/form`):

- the upload policy: `allowed_file`, `random_filename` built on POSIX
  `os.path.splitext`, and `app.config['ALLOWED_EXTENSIONS']`;
- the four upload views `upload`, `multi_upload`, `dropzone_upload` and
  `upload_for_ckeditor`. They are methods of a `UploadServer` object whose
  fields are the session, the list of files written to the upload folder
  and the queue of flashed messages;
- the form declarations: FortyTwoForm's three custom validators, the
  `Length(min, max)` bounds of every form, and UploadForm's `FileRequired`
  and `FileAllowed` pair.

In the HTTP demo (`demos/http`):

- `is_safe_url` and `redirect_back`. These rest on a model of how Python's
  `urllib.parse` finds a URL's scheme and network location (`urlparse`) and
  resolves a target against the host URL (`urljoin`, after section 5.2 of
  RFC 3986, reduced to scheme and network location);
- the session views `login`, `logout`, `admin` and `hello` over the
  `logged_in` flag. They are methods of an `HttpServer` object holding the
  session;
- `note` (content-type dispatch), `go_back` (the `int` converter and `%d`
  formatting) and `teapot`.

Modules, one file each:

- `Wrappers`: Option and Result.
- `Web`: responses and session values.
- `Strings`: `str.lower`, `find`/`rfind`, decimal formatting.
- `Forms`: the form declarations.
- `UploadPolicy`: file-name checks and stored names.
- `FormApp`: the upload views.
- `Urls`: `urlparse` and `urljoin`.
- `SafeRedirect`: `is_safe_url` and `redirect_back`.
- `HttpApp`: the session and content views.

Where the code does something other than what a reader might expect of a
"safe redirect" helper, the model follows the code:

- A candidate whose network location holds a lone `[` or `]` is not skipped.
  `urlparse` raises `ValueError`, nothing catches it, and the request ends in
  a server error. `IsSafeUrl` returns `Failure(InvalidIPv6)` for such a
  candidate, and `RedirectBack` then answers `Uncaught`.
- The redirect goes to the candidate string exactly as it was received, not
  to the URL it resolves to. `RedirectBack` returns `Redirect(t)` for the
  accepted candidate `t`. `NeverForeign` proves that this `t` still resolves
  to the host's own network location.

## Model

| member | source | states |
|---|---|---|
| Strings.Lower | demos/form/app.py:115 | `str.lower` keeps the length and lower-cases each ASCII letter in place |
| Strings.RFindAt | demos/form/app.py:115 | in `a + [c] + b` with `c` absent from `b`, the last `c` is at index `|a|`, which is where `rsplit('.', 1)` cuts |
| Strings.FormatNat | demos/http/app.py:50 | the decimal digits of a natural have no leading zero; the first digit is 0 exactly for zero |
| Strings.ParseFormatInt | demos/http/app.py:50 | `%d` formatting of an int reads back as the same int: optional minus, then digits |
| Strings.FormatParseInt | demos/http/app.py:50 | a canonical integer string (no leading zero, no "-0") is the one `%d` prints for its value, so `%d` output is unique |
| Forms.ValidateAnswer | demos/form/forms.py:32-34 | the field passes exactly when its data is 42; otherwise the error is "Must be 42." |
| Forms.ValidateAnswer2 | demos/form/forms.py:36-38 | the field passes exactly when its data is 43; otherwise the error is "Must be 43." |
| Forms.ValidateRemember | demos/form/forms.py:40-42 | the box passes exactly when it is not ticked; otherwise the error is "Must be false." |
| Forms.FortyTwoErrors | demos/form/forms.py:26-42 | `form.errors` of FortyTwoForm names only its three fields, and each named field holds exactly one message |
| Forms.FortyTwoValidIff | demos/form/forms.py:26-42 | FortyTwoForm has no errors exactly when answer is 42, answer2 is 43 and remember is unticked |
| Forms.FortyTwoErrorsAreLocal | demos/form/forms.py:26-42 | each field's errors depend only on that field's data |
| Forms.FortyTwoErrorMessages | demos/form/forms.py:26-42 | `form.errors` has an entry for a field exactly when its validator fails; the entry is that validator's one message; no other keys appear |
| Forms.LengthErrors | demos/form/forms.py:19 | the fields reported are exactly those whose value length is outside the rule's [min, max]; a missing value counts as length 0 |
| Forms.PasswordBoundsUniform | demos/form/forms.py:17-89 | every form with a password field bounds it by Length(8, 128) and by no other bounds |
| Forms.SigninBoundsLoosened | demos/form/forms.py:67-89 | any submission that passes SigninForm's (RegisterForm's) bounds passes SigninForm2's (RegisterForm2's) |
| Forms.UsernameBoundsDiffer | demos/form/forms.py:67-82 | a username of 21 to 24 characters fails SigninForm's bound and passes SigninForm2's |
| Forms.TitleBounds | demos/form/forms.py:58-95 | NewPostForm and RichTextForm report the same errors; the title is reported exactly when its length is outside 1..50 |
| Forms.EmailBounds | demos/form/forms.py:73-89 | both registration forms report the email exactly when its length is outside 1..254 |
| Forms.UploadFormErrors | demos/form/forms.py:47 | the photo passes exactly when a named file is present and FileAllowed accepts it; at most one error, because FileRequired stops the chain |
| UploadPolicy.ExtensionAfterLastDot | demos/form/app.py:115 | the text after the last dot has no dot and, with that dot, ends the name |
| UploadPolicy.AllowedExtensionShape | demos/form/app.py:32 | an extension in ALLOWED_EXTENSIONS after lower-casing has 3 or 4 characters and no dot or slash |
| UploadPolicy.AllowedFileShape | demos/form/app.py:113-115 | an allowed name is at least four characters long and ends in a dot and three or four characters with no dot or slash |
| UploadPolicy.AllowedFileOfParts | demos/form/app.py:113-115 | `stem.ext`, with `ext` dot-free, is allowed exactly when `ext` lower-cased is listed |
| UploadPolicy.AllowedFileIffSuffix | demos/form/app.py:113-115 | `allowed_file` equals the reference reading: some dot is followed by a dot-free suffix that is allowed once lower-cased |
| UploadPolicy.TrailingDotRefused | demos/form/app.py:113-115 | a name ending in a dot is refused |
| UploadPolicy.AllowedFileIgnoresCase | demos/form/app.py:113-115 | extensions that differ only in case are decided alike |
| UploadPolicy.FileAllowedMatchesAllowedFile | demos/form/forms.py:47 | flask_wtf's FileAllowed with UploadForm's list accepts exactly the names `allowed_file` accepts |
| UploadPolicy.SameExtensionLists | demos/form/forms.py:47 | UploadForm's list and ALLOWED_EXTENSIONS are the same four extensions in another order |
| UploadPolicy.SplitExt | demos/form/app.py:120 | `splitext` splits the path into two parts that concatenate back to it; a non-empty extension is a dot plus text with no dot and no slash |
| UploadPolicy.SplitExtOfParts | demos/form/app.py:120 | `stem.ext` is cut at that dot, unless the stem's last component is only dots; then there is no extension |
| UploadPolicy.RandomFilename | demos/form/app.py:119-122 | the new name is the token followed by a suffix of the upload's name; that suffix is empty or one dotted extension without a slash |
| UploadPolicy.RandomFilenameOfParts | demos/form/app.py:119-122 | `stem.ext`, with `ext` free of dots and slashes, is stored as token + ".ext", or as the bare token when the stem's last component is only dots |
| UploadPolicy.RandomFilenameIsFlat | demos/form/app.py:119-122 | with a uuid4 hex token, the stored name has no slash, does not start with a dot and has at least 32 characters |
| UploadPolicy.AllowedNameKeepsExtension | demos/form/app.py:119-122 | an allowed `stem.ext` is stored as token + ".ext" in its original case, or as the bare token when the stem's last component is only dots |
| UploadPolicy.DotfileLosesExtension | demos/form/app.py:119-122 | ".png" and "photos/..png" pass `allowed_file`, yet are stored under the bare token |
| UploadPolicy.FirstDisallowed | demos/form/app.py:161-176 | the index where the upload loop stops: every name before it is allowed, the name at it is not |
| UploadPolicy.NewNames | demos/form/app.py:161-173 | one stored name per upload, in order, each made from that upload's token |
| UploadPolicy.NewNamesExtend | demos/form/app.py:168-173 | taking one more upload appends exactly its new name |
| UploadPolicy.NewNamesDistinct | demos/form/app.py:169-173 | distinct uuid4 tokens give distinct stored names, so no upload overwrites another |
| FormApp.UploadServer.Upload | demos/form/app.py:126-136 | on a valid submit the photo is saved under its random name, "Upload success." is flashed and the session's file list is that one name; otherwise nothing changes and the form is rendered |
| FormApp.UploadServer.MultiUpload | demos/form/app.py:142-180 | GET renders the form. A bad CSRF token or a missing photo part flashes its message and changes nothing else. Otherwise the allowed uploads before the first refused one are saved. The session gets the new names only when none is refused; otherwise "Invalid file type." is flashed |
| FormApp.UploadServer.DropzoneUpload | demos/form/app.py:183-198 | a missing part and a refused name each get their own 400 body and save nothing; an allowed name is saved under its random name; session and flashes never change |
| FormApp.UploadServer.UploadForCkeditor | demos/form/app.py:283-290 | a refused name gets "Image only!"; an allowed one is saved under the client's own name and echoed back; a missing part ends in an uncaught error |
| FormApp.CkeditorKeepsDirectories | demos/form/app.py:286-288 | an allowed name with a directory part passes the check, so `UploadForCkeditor`, by its contract, saves it unchanged, slash included |
| Urls.SplitScheme | demos/http/app.py:220 | no scheme is found exactly when no text before any ':' is a scheme token; a found scheme is the token before the first ':', lower-cased, with the rest of the URL after it; without one the URL is kept whole |
| Urls.Clean | demos/http/app.py:220 | the text `urlsplit` splits is no longer than the URL, holds no tab, CR or LF, and does not start with a control or space |
| Urls.CleanEmpty | demos/http/app.py:220 | a URL cleans to the empty text exactly when it is nothing but controls and spaces |
| Urls.NetlocLength | demos/http/app.py:220 | the network location runs up to the first '/', '?' or '#', or to the end |
| Urls.NetlocOf | demos/http/app.py:220 | after a leading "//" the network location is the longest delimiter-free text that follows; without "//" it is empty |
| Urls.SplitWithScheme | demos/http/app.py:220 | any URL that cleans to `s:rest`, `s` a scheme token, splits into lower-cased `s` and the network location of `rest`, or fails on a lone bracket there, whatever the default |
| Urls.SplitWithoutScheme | demos/http/app.py:220 | any URL whose cleaned text names no scheme splits into the default scheme and the network location of that text, or fails on a lone bracket there |
| Urls.SplitAbsolute | demos/http/app.py:220 | `s://netloc rest` splits into lower-cased `s` and `netloc` (or fails on a lone bracket), whatever the default scheme and whatever `rest` holds |
| Urls.SplitNetworkPath | demos/http/app.py:220 | `//netloc rest` takes the default scheme and `netloc` (or fails on a lone bracket), whatever `rest` holds |
| Urls.SplitKeepsScheme | demos/http/app.py:220 | a URL with a scheme keeps it, lower-cased, whatever the default |
| Urls.CleanIgnoresLeadingControls | demos/http/app.py:220 | leading C0 controls and spaces are stripped before splitting |
| Urls.CleanIgnoresUnsafe | demos/http/app.py:220 | a tab, CR or LF after the first character is deleted before splitting |
| Urls.HostUrlParses | demos/http/app.py:219 | `request.host_url` parses back into its own scheme and host |
| Urls.Resolve | demos/http/app.py:220 | the joined URL's network location is the target's own when the target names one, and otherwise either the host's or empty (the host's only for a target with no scheme or the host's own scheme, as `ResolveWithScheme` and `ResolveWithoutScheme` state); joining fails only on a lone bracket in one of them |
| Urls.ResolveAbsolute | demos/http/app.py:220 | joining an absolute `s://netloc rest` onto the host URL keeps its own lower-cased scheme and network location, or fails on a lone bracket |
| Urls.ResolveWithScheme | demos/http/app.py:220 | a target that cleans to `s:rest` keeps its lower-cased scheme and its own network location; only a target of the host's own scheme without a network location takes the host's |
| Urls.ResolveWithoutScheme | demos/http/app.py:220 | a non-empty target naming no scheme takes the host's scheme, and its own network location or, without one, the host's |
| Urls.ResolveSeesOnlyClean | demos/http/app.py:220 | non-empty targets that clean to the same text resolve alike |
| SafeRedirect.SafeUrlMeansSameHost | demos/http/app.py:218-222 | a target is safe exactly when it resolves to an http or https URL on the host itself; the check fails exactly when resolution does |
| SafeRedirect.IsSafeUrl | demos/http/app.py:218-222 | a safe verdict means the target resolves to http or https on the host URL's own network location; a raised error means a lone bracket in the target's or the host's network location |
| SafeRedirect.EmptyTargetIsSafe | demos/http/app.py:218-222 | the empty target resolves to the host URL and is safe |
| SafeRedirect.SchemelessPathIsSafe | demos/http/app.py:218-222 | any non-empty target that names no scheme and, once cleaned, does not start with "//" is safe, such as "foo?x=1" or "page?t=12:00" |
| SafeRedirect.PathIsSafe | demos/http/app.py:218-222 | an absolute path such as "/foo", "/a b" or "/a:b" is safe unless its second character is '/' or a tab, CR or LF |
| SafeRedirect.BackslashPathIsSafe | demos/http/app.py:218-222 | "/\\" followed by anything is judged safe, because urllib reads it as a path on the host, although browsers follow "/\\evil.example" to another site |
| SafeRedirect.ForeignSchemeNeverSafe | demos/http/app.py:218-222 | a target with any scheme other than http or https, such as `javascript:` or `ftp:`, is never safe |
| SafeRedirect.ForeignNetworkPathNeverSafe | demos/http/app.py:218-222 | "//other..." naming another network location is refused, or raises on a lone bracket, whatever follows it |
| SafeRedirect.ForeignAbsoluteNeverSafe | demos/http/app.py:218-222 | `s://other...` naming another network location is refused, or raises on a lone bracket, whatever the scheme and whatever follows |
| SafeRedirect.SameHostAbsoluteIsSafe | demos/http/app.py:218-222 | an http or https URL on the host is safe, whichever of the two schemes it uses |
| SafeRedirect.ForeignNetlocNeverSafe | demos/http/app.py:218-222 | any target whose own network location is non-empty and not the host is never judged safe, however it is written |
| SafeRedirect.LeadingControlsIgnored | demos/http/app.py:218-222 | C0 controls or spaces in front of a non-empty target do not change the verdict |
| SafeRedirect.UnsafeCharactersIgnored | demos/http/app.py:218-222 | a tab, CR or LF inside a target does not change the verdict, so "/\t/evil" is judged as "//evil" |
| SafeRedirect.FirstAccepted | demos/http/app.py:227-231 | the result is None exactly when every candidate is skipped or refused. An accepted result is the first candidate that is neither. An error comes from the first candidate whose check raises |
| SafeRedirect.RedirectBack | demos/http/app.py:226-232 | a raising check gives an uncaught error; otherwise the response redirects to the first safe candidate as given, or else to the default endpoint |
| SafeRedirect.ReferrerFirst | demos/http/app.py:227-231 | a usable, safe referrer wins over `next` |
| SafeRedirect.NextAfterRejectedReferrer | demos/http/app.py:227-231 | with the referrer skipped or refused, a safe `next` is used |
| SafeRedirect.DefaultWhenBothRejected | demos/http/app.py:226-232 | with both candidates skipped or refused, the redirect goes to the default |
| SafeRedirect.NeverForeign | demos/http/app.py:226-232 | whatever is redirected to is one of the candidates and resolves to http or https on the host's own network location |
| SafeRedirect.ForeignReferrerFallsThrough | demos/http/app.py:226-232 | any referrer naming another site, however written, is passed over in favour of an absolute-path `next` such as "/foo" |
| HttpApp.SignedIn | demos/http/app.py:143 | after login the flag is True and every other session key is unchanged |
| HttpApp.SignedOut | demos/http/app.py:158-159 | after logout the flag is gone and every other session key is unchanged |
| HttpApp.SignedOutWithoutFlag | demos/http/app.py:158-159 | logging out without the flag leaves the session as it was |
| HttpApp.SignInOutIdempotent | demos/http/app.py:141-160 | logging in twice is the same as once, and so is logging out twice |
| HttpApp.SignInThenOut | demos/http/app.py:141-160 | logging in and then out restores any session that had no flag |
| HttpApp.Step | demos/http/app.py:141-160 | after one request the user is authenticated exactly after a login, or after another request when they already were; no key but the flag changes, and other requests change nothing |
| HttpApp.Run | demos/http/app.py:141-160 | a run of requests changes no key but the flag, and a run without login or logout changes nothing |
| HttpApp.AuthenticatedAfterRun | demos/http/app.py:141-160 | after any run of requests the user is authenticated exactly when the last login or logout was a login, or, with neither, when they already were |
| HttpApp.HelloName | demos/http/app.py:28-30 | the name is the query argument, else the cookie, else "Human" |
| HttpApp.HelloBody | demos/http/app.py:31-36 | the body greets the escaped name and ends with "[Authenticated]" or "[Not Authenticated]" to match the status |
| HttpApp.HttpServer.LoginView | demos/http/app.py:141-144 | the session becomes the signed-in one and the response redirects to `hello` |
| HttpApp.HttpServer.LogoutView | demos/http/app.py:156-160 | the session becomes the signed-out one and the response redirects to `hello` |
| HttpApp.HttpServer.AdminView | demos/http/app.py:148-152 | the response is 403 exactly when the flag is absent; with it, the admin greeting |
| HttpApp.HttpServer.HelloView | demos/http/app.py:27-37 | the page is the greeting body, with status 200, for the chosen name passed through the given `escape`, and the login status of the session |
| HttpApp.Note | demos/http/app.py:76-129 | the lower-cased format picks its mimetype from text, html, xml and json; any other format aborts with 400 |
| HttpApp.NoteIgnoresCase | demos/http/app.py:79 | formats that differ only in case get the same response |
| HttpApp.GoBack | demos/http/app.py:48-50 | the body is "Welcome to N!" where N is a canonical integer reading back as 2018 - year, which by `FormatParseInt` is exactly `%d` of 2018 - year |
| HttpApp.Teapot | demos/http/app.py:60-65 | the response is 418 exactly for "coffee"; any other drink gets tea |

## Left out

- Template rendering, `url_for`, `flash` display and `send_from_directory` are left out. Responses name the template or endpoint instead.
- Jinja's `escape` is a parameter of `HelloView`; what it does to the name is left out.
- File storage is left out. Saving a file appends its name to `UploadServer.saved`; the bytes are not modelled.
- `uuid.uuid4().hex` is left out. `Upload` and `DropzoneUpload` take the token as a parameter, and `MultiUpload` takes one token per upload. `NewNamesDistinct` requires the tokens to be distinct.
- CSRF validation is a boolean in the request. Signing the session cookie is left out.
- The `csrf_token` entry FlaskForm adds to `form.errors` when CSRF validation fails is left out; `FortyTwoErrors` covers the three declared fields.
- Flask keeps flashed messages in the session under `_flashes`. `UploadServer` keeps them in a field of its own, so its session holds only what the views store there (`filenames`).
- WTForms internals are left out:
  - `DataRequired` runs before `Length` and stops on an empty value;
  - the `Email` syntax check;
  - `IntegerField` coercion errors ("Not a valid integer value.");
  - `MultiUploadForm`'s `DataRequired`, which `multi_upload` never calls.
- `LengthErrors` covers only the `Length` validators; an uncoercible integer becomes `None` in `FortyTwoData`.
- Only ASCII letters are lower-cased. `str.lower` on other Unicode letters is left out.
- `os.path.splitext` is modelled for POSIX paths only.
- Only the parts of `urllib.parse` that decide `is_safe_url` are modelled: scheme, network location, the lone-bracket `ValueError` and the input cleaning. Left out:
  - paths, queries, fragments and `urljoin`'s path merging;
  - the `urlunparse`/re-parse round trip, taken as identity on scheme and network location;
  - the bracketed-host and NFKC network-location checks;
  - the Python 2 import fallback;
  - differences between Python versions: the model follows CPython 3.12's `urllib.parse` (leading C0 controls and spaces stripped, tab, CR and LF deleted, a scheme must start with an ASCII letter, no port-number heuristic, so "evil.com:80" has the scheme "evil.com").
- The lemmas about `is_safe_url` require `WellFormedHost`: a non-empty host of printable characters with no delimiter and no lone bracket, as a request can carry. The lemmas about particular target shapes (`s://netloc...`, `//netloc...`) require only that the network location holds no tab, CR or LF; `SplitWithScheme`, `SplitWithoutScheme`, `ResolveWithScheme`, `ResolveWithoutScheme` and `ForeignNetlocNeverSafe` take any target. `IsSafeUrl`, `Resolve` and `RedirectBack` themselves take any input.
- `redirect_back`'s extra `url_for` keyword arguments are left out.
- `GoBack` takes a `nat`, because Werkzeug's `int` converter accepts only non-negative integers.
- `Note` returns only the mimetype. The note bodies and `jsonify` are left out. `/note` without a segment is `Note("text")`.
- Other routes in these files are left out as plain rendering or cookie plumbing:
  - form demo: `index`, `html`, `basic`, `bootstrap`, `custom_validator`, `two_submits`, `multi_form`, `multi_form_multi_view`, the `handle_*` views, `ckeditor`, `show_images`, `get_file`;
  - HTTP demo: `hi`, `three_colors`, `set_cookie`, `not_found`, `show_post`, `load_post`, `foo`, `bar`, `do_something`.
- `demos/hello` and `demos/template` are not part of this model.
