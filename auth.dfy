/** The authorisation middleware (middleware/auth.js): reading a bearer
    token into `res.locals.user`, and the two guards that route handlers
    put in front of themselves. Token verification (jsonwebtoken's
    `verify` with the server's secret) is a parameter: it yields the
    payload object, or None where the library throws. */
module Auth {
  import opened Results
  import opened Js

  /** The error `new UnauthorizedError()` raises with no message.
      expressError.js is not part of this model: the default message
      "Unauthorized" is assumed, not taken from its text. */
  const DefaultUnauthorized: Error := Unauthorized("Unauthorized")

  // ------------------------------------------------------------- the token

  /** What `String.prototype.trim` removes: white space and line
      terminators. */
  const JsWhitespace: set<char> := {
    '\t', '\n', '\U{B}', '\U{C}', '\r', ' ', '\U{A0}', '\U{1680}',
    '\U{2000}', '\U{2001}', '\U{2002}', '\U{2003}', '\U{2004}', '\U{2005}', '\U{2006}', '\U{2007}',
    '\U{2008}', '\U{2009}', '\U{200A}', '\U{2028}', '\U{2029}', '\U{202F}', '\U{205F}', '\U{3000}',
    '\U{FEFF}'}

  predicate IsJsWhitespace(c: char) {
    c in JsWhitespace
  }

  /** The index of the first character at or after `i` that is not white
      space (`|s|` when there is none). */
  function SkipSpace(s: string, i: nat): (n: nat)
    requires i <= |s|
    ensures i <= n <= |s|
    ensures forall k :: i <= k < n ==> IsJsWhitespace(s[k])
    ensures n < |s| ==> !IsJsWhitespace(s[n])
    decreases |s| - i
  {
    if i < |s| && IsJsWhitespace(s[i]) then SkipSpace(s, i + 1) else i
  }

  /** The index just after the last character before `n` that is not white
      space, going no lower than `lo`. */
  function BackSpace(s: string, lo: nat, n: nat): (m: nat)
    requires lo <= n <= |s|
    ensures lo <= m <= n
    ensures forall k :: m <= k < n ==> IsJsWhitespace(s[k])
    ensures m > lo ==> !IsJsWhitespace(s[m - 1])
  {
    if n > lo && IsJsWhitespace(s[n - 1]) then BackSpace(s, lo, n - 1) else n
  }

  /** `r` is the slice of `s` from `k` with only white space around it. */
  ghost predicate TrimmedAt(s: string, r: string, k: int) {
    && 0 <= k && k + |r| <= |s| && r == s[k..k + |r|]
    && (forall i :: 0 <= i < k ==> IsJsWhitespace(s[i]))
    && (forall i :: k + |r| <= i < |s| ==> IsJsWhitespace(s[i]))
  }

  /** `s.trim()`: the slice of `s` between its leading and its trailing
      white space, which neither starts nor ends with white space. */
  function Trim(s: string): (r: string)
    ensures exists k :: TrimmedAt(s, r, k)
    ensures r != [] ==> !IsJsWhitespace(r[0]) && !IsJsWhitespace(r[|r| - 1])
  {
    var a := SkipSpace(s, 0);
    var b := BackSpace(s, a, |s|);
    assert TrimmedAt(s, s[a..b], a);
    s[a..b]
  }

  /** Trimming twice trims nothing more. */
  lemma TrimIdempotent(s: string)
    ensures Trim(Trim(s)) == Trim(s)
  {
    var t := Trim(s);
    assert SkipSpace(t, 0) == 0;
    assert BackSpace(t, 0, |t|) == |t|;
    assert t[0..|t|] == t;
  }

  /** `s.replace(/^[Bb]earer /, "")`: one leading "Bearer " or "bearer "
      removed, anything else left alone. */
  function StripBearer(s: string): (r: string)
    ensures |s| >= 7 && (s[..7] == "Bearer " || s[..7] == "bearer ") ==> r == s[7..]
    ensures !(|s| >= 7 && (s[..7] == "Bearer " || s[..7] == "bearer ")) ==> r == s
  {
    if |s| >= 7 && (s[..7] == "Bearer " || s[..7] == "bearer ") then s[7..] else s
  }

  /** Either capitalisation of the prefix is removed, once only: a second
      "Bearer " stays, and so does an upper-case "BEARER ". */
  lemma BearerOnce(t: string)
    ensures StripBearer("Bearer " + t) == t
    ensures StripBearer("bearer " + t) == t
    ensures StripBearer("Bearer Bearer " + t) == "Bearer " + t
    ensures StripBearer("BEARER " + t) == "BEARER " + t
  {
    assert ("Bearer " + t)[..7] == "Bearer ";
    assert ("bearer " + t)[..7] == "bearer ";
    assert ("Bearer Bearer " + t)[..7] == "Bearer ";
    assert ("Bearer Bearer " + t)[7..] == "Bearer " + t;
    assert ("BEARER " + t)[..7] == "BEARER ";
  }

  /** The token read from an `authorization` header. */
  function Token(header: string): string {
    Trim(StripBearer(header))
  }

  // ---------------------------------------------------------- authenticate

  /** The parts of an Express request the middleware reads; `headers` may
      be missing altogether. */
  datatype Request = Request(headers: Option<Object>, params: Object, body: Object)

  /** The payload `authenticateJWT` stores, if any: a truthy string header is
      stripped, trimmed and verified. A missing or falsy header stores
      nothing; so does a truthy header that is not a string (`replace`
      throws) and a token `verify` rejects (it throws); both throws are
      caught. */
  function Verified(req: Request, verify: string -> Option<Object>): (r: Option<Object>)
    ensures req.headers.None? ==> r == None
    ensures req.headers.Some? && !Prop(req.headers.value, "authorization").Str? ==> r == None
    ensures req.headers.Some? && Prop(req.headers.value, "authorization") == Str("") ==> r == None
    ensures forall a :: req.headers.Some? && Prop(req.headers.value, "authorization") == Str(a) && a != "" ==>
      r == verify(Token(a))
  {
    match req.headers
    case None => None
    case Some(h) =>
      var authHeader := Prop(h, "authorization");
      if !Truthy(authHeader) then None
      else
        match authHeader
        case Str(a) => verify(Token(a))
        case _ => None
  }

  /** `res.locals`. */
  class Locals {
    var user: Option<Object>

    /** `res.locals` as Express creates it: no user. */
    constructor ()
      ensures user == None
    {
      user := None;
    }
  }

  /** `authenticateJWT`: never passes an error on; sets `res.locals.user`
      to the verified payload when there is one, and otherwise leaves the
      locals as they were. */
  method AuthenticateJwt(req: Request, locals: Locals, verify: string -> Option<Object>) returns (err: Option<Error>)
    modifies locals`user
    ensures err == None
    ensures locals.user == if Verified(req, verify).Some? then Verified(req, verify) else old(locals.user)
  {
    var payload := Verified(req, verify);
    if payload.Some? {
      locals.user := payload;
    }
    err := None;
  }

  /** A header "Bearer <token>" whose token verifies logs the request in. */
  lemma BearerTokenAccepted(h: Object, params: Object, body: Object, t: string, verify: string -> Option<Object>)
    requires Prop(h, "authorization") == Str("Bearer " + t)
    requires verify(Trim(t)).Some?
    ensures Verified(Request(Some(h), params, body), verify) == verify(Trim(t))
    ensures EnsureLoggedIn(Verified(Request(Some(h), params, body), verify)) == None
  {
    BearerOnce(t);
  }

  /** A request without a string authorization header, or whose token
      `verify` rejects, is not logged in by `authenticateJWT`, so
      `ensureLoggedIn` refuses it. */
  lemma UnverifiedRefused(req: Request, verify: string -> Option<Object>)
    requires req.headers.None? || !Prop(req.headers.value, "authorization").Str?
             || Prop(req.headers.value, "authorization") == Str("")
             || verify(Token(Prop(req.headers.value, "authorization").s)).None?
    ensures Verified(req, verify) == None
    ensures EnsureLoggedIn(Verified(req, verify)) == Some(DefaultUnauthorized)
  {
  }

  // ---------------------------------------------------------------- guards

  /** `ensureLoggedIn`: Unauthorized exactly when there is no user. */
  function EnsureLoggedIn(user: Option<Object>): (r: Option<Error>)
    ensures r.Some? <==> user.None?
    ensures r.Some? ==> r.value == DefaultUnauthorized
  {
    if user.None? then Some(DefaultUnauthorized) else None
  }

  /** A username the request names (`v` is truthy) that is not the logged-in
      user's `username` under `===`. */
  predicate Foreign(v: Value, user: Option<Object>) {
    Truthy(v) && !(user.Some? && Prop(user.value, "username") == v)
  }

  /** `ensureCorrectUser`: Unauthorized exactly when the path's or the
      body's username is foreign to the logged-in user; the path is
      checked first. */
  function EnsureCorrectUser(req: Request, user: Option<Object>): (r: Option<Error>)
    ensures r.Some? <==> Foreign(Prop(req.params, "username"), user) || Foreign(Prop(req.body, "username"), user)
    ensures r.Some? ==> r.value == DefaultUnauthorized
    ensures !Truthy(Prop(req.params, "username")) && !Truthy(Prop(req.body, "username")) ==> r == None
  {
    if Foreign(Prop(req.params, "username"), user) then Some(DefaultUnauthorized)
    else if Foreign(Prop(req.body, "username"), user) then Some(DefaultUnauthorized)
    else None
  }

  /** A logged-in user passes for its own name, wherever the request names
      it. */
  lemma OwnNamePasses(req: Request, payload: Object, name: string)
    requires Prop(payload, "username") == Str(name)
    requires Prop(req.params, "username") in {Undefined, Str(name)}
    requires Prop(req.body, "username") in {Undefined, Str(name)}
    ensures EnsureCorrectUser(req, Some(payload)) == None
  {
  }

  /** Without a token, naming any user in the path is refused. */
  lemma AnonymousRefused(req: Request, name: string)
    requires name != "" && Prop(req.params, "username") == Str(name)
    ensures EnsureCorrectUser(req, None) == Some(DefaultUnauthorized)
  {
  }
}
