/** The browser session of the front end: `sessionStorage` as a map from keys
    to strings, and the operations of auth.js and login.js that read and write
    it. Navigation and pop-up messages are returned as data. */
module Session {
  import opened Util

  type Store = map<string, string>

  const LoggedInUserKey: string := "loggedInUser"
  const IsLoggedInKey: string := "isLoggedIn"
  const UserKey: string := "user"

  const LoginPage: string := "login.html"
  const DashboardPage: string := "dashboard.html"

  /** What a handler leaves behind: the session, the message shown to the
      user (an alert or an error notification), and the page navigated to. */
  datatype Effect = Effect(store: Store, notice: Option<string>, goTo: Option<string>)

  /** `a` and `b` hold the same entries for every key outside `keys`. */
  ghost predicate AgreeOutside(a: Store, b: Store, keys: set<string>)
  {
    forall k :: k !in keys ==> (k in a <==> k in b) && (k in a ==> a[k] == b[k])
  }

  /** `isAuthenticated`: the flag is the string "true" and a user entry exists,
      whatever its value. */
  predicate IsAuthenticated(s: Store)
  {
    IsLoggedInKey in s && s[IsLoggedInKey] == "true" && LoggedInUserKey in s
  }

  /** The sessions `isAuthenticated` accepts are exactly those some call of
      `login` can leave behind, whatever the user entry holds. */
  lemma AuthenticatedIffLoggedIn(s: Store)
    ensures IsAuthenticated(s) <==> exists s0: Store, u: string :: Login(s0, u, "").0 == s
  {
    if IsAuthenticated(s) {
      assert Login(s, s[LoggedInUserKey], "").0 == s;
    }
  }

  /** The two writes that mark a user as logged in. */
  function MarkLoggedIn(s: Store, user: string): (r: Store)
    ensures LoggedInUserKey in r && r[LoggedInUserKey] == user
    ensures IsLoggedInKey in r && r[IsLoggedInKey] == "true"
    ensures r.Keys == s.Keys + {LoggedInUserKey, IsLoggedInKey}
    ensures AgreeOutside(s, r, {LoggedInUserKey, IsLoggedInKey})
  {
    s[LoggedInUserKey := user][IsLoggedInKey := "true"]
  }

  /** `login`: the password is ignored and the call always reports success. */
  function Login(s: Store, username: string, password: string): (r: (Store, bool))
    ensures r.1
    ensures IsAuthenticated(r.0) && r.0[LoggedInUserKey] == username
    ensures AgreeOutside(s, r.0, {LoggedInUserKey, IsLoggedInKey})
  {
    (MarkLoggedIn(s, username), true)
  }

  /** `logout`: both entries are removed and the login page is opened. */
  function Logout(s: Store): (r: Effect)
    ensures LoggedInUserKey !in r.store && IsLoggedInKey !in r.store
    ensures !IsAuthenticated(r.store)
    ensures AgreeOutside(s, r.store, {LoggedInUserKey, IsLoggedInKey})
    ensures r.goTo == Some(LoginPage) && r.notice.None?
  {
    Effect(s - {LoggedInUserKey, IsLoggedInKey}, None, Some(LoginPage))
  }

  /** `protectPage`: admits the visitor exactly when the session is
      authenticated, otherwise alerts and sends them to the login page. */
  function ProtectPage(s: Store): (r: (bool, Effect))
    ensures r.0 <==> IsAuthenticated(s)
    ensures r.1.store == s
    ensures r.0 ==> r.1.goTo.None? && r.1.notice.None?
    ensures !r.0 ==> r.1.goTo == Some(LoginPage) && r.1.notice.Some?
  {
    if !IsAuthenticated(s) then
      (false, Effect(s, Some("Please login to access this page"), Some(LoginPage)))
    else
      (true, Effect(s, None, None))
  }

  /** A logged-out session is turned away, a logged-in one admitted. */
  lemma LoginLogoutGuard(s: Store, username: string, password: string)
    ensures ProtectPage(Login(s, username, password).0).0
    ensures !ProtectPage(Logout(s).store).0
    ensures !ProtectPage(Logout(Login(s, username, password).0).store).0
  {
  }

  /** `handleLogin` of login.js: both fields must be filled in; then the user
      is marked as logged in and the dashboard opened. It returns false on both
      paths, to cancel the form's default action. */
  function HandleLogin(s: Store, email: string, password: string): (r: (bool, Effect))
    ensures !r.0
    ensures email == [] || password == [] ==>
              r.1.store == s && r.1.notice.Some? && r.1.goTo.None?
    ensures email != [] && password != [] ==>
              && r.1.store == MarkLoggedIn(s, email)
              && IsAuthenticated(r.1.store)
              && r.1.goTo == Some(DashboardPage) && r.1.notice.None?
  {
    if email == [] || password == [] then
      (false, Effect(s, Some("Please enter both email and password"), None))
    else
      (false, Effect(MarkLoggedIn(s, email), None, Some(DashboardPage)))
  }

  /** The form-based login and the `login` helper leave the same session. */
  lemma HandleLoginAgreesWithLogin(s: Store, email: string, password: string)
    requires email != [] && password != []
    ensures HandleLogin(s, email, password).1.store == Login(s, email, password).0
  {
  }

  // ---------------------------------------------------------------------------
  // The stored user record

  /** Lower-case hexadecimal digit of `n`. */
  function HexDigit(n: nat): char
    requires n < 16
  {
    if n < 10 then ('0' as int + n) as char else ('a' as int + n - 10) as char
  }

  /** The value of a hexadecimal digit of either case. */
  function HexValue(c: char): Option<nat>
  {
    if '0' <= c <= '9' then Some(c as int - '0' as int)
    else if 'a' <= c <= 'f' then Some(c as int - 'a' as int + 10)
    else if 'A' <= c <= 'F' then Some(c as int - 'A' as int + 10)
    else None
  }

  /** How `JSON.stringify` writes one character inside a string literal: the
      short escapes for backspace, tab, line feed, form feed, carriage return,
      quote and backslash, `\u00xx` for the other control characters, and the
      character itself otherwise. */
  function EscapeChar(c: char): (r: string)
    ensures |r| >= 1 && r[0] != '"'
  {
    if c == '\U{8}' then "\\b"
    else if c == '\t' then "\\t"
    else if c == '\n' then "\\n"
    else if c == '\U{C}' then "\\f"
    else if c == '\r' then "\\r"
    else if c == '"' then "\\\""
    else if c == '\\' then "\\\\"
    else if (c as int) < 0x20 then "\\u00" + [HexDigit(c as int / 16), HexDigit(c as int % 16)]
    else [c]
  }

  function EscapeString(s: string): string
    decreases |s|
  {
    if s == [] then [] else EscapeChar(s[0]) + EscapeString(s[1..])
  }

  /** `JSON.stringify({ email, isAdmin: false })`; the text reads back as the
      address it was built from. */
  function EncodeUser(email: string): (r: string)
    ensures |r| > |UserHead| && r[..|UserHead|] == UserHead
    ensures DecodeUser(r) == Some(email)
  {
    var r := "{\"email\":\"" + EscapeString(email) + "\",\"isAdmin\":false}";
    assert r == UserHead + (EscapeString(email) + "\"" + UserTail);
    assert r[|UserHead|..] == EscapeString(email) + "\"" + UserTail;
    DecodeEscapedString(email, UserTail);
    r
  }

  const UserHead: string := "{\"email\":\""
  const UserTail: string := ",\"isAdmin\":false}"

  /** Reads one possibly escaped character at the front of `t`, returning it
      and the number of characters it took. */
  function DecodeOne(t: string): (r: Option<(char, nat)>)
    ensures r.Some? ==> 0 < r.value.1 <= |t|
  {
    if t == [] then None
    else if t[0] != '\\' then Some((t[0], 1))
    else if |t| < 2 then None
    else if t[1] == 'b' then Some(('\U{8}', 2))
    else if t[1] == 't' then Some(('\t', 2))
    else if t[1] == 'n' then Some(('\n', 2))
    else if t[1] == 'f' then Some(('\U{C}', 2))
    else if t[1] == 'r' then Some(('\r', 2))
    else if t[1] == '"' then Some(('"', 2))
    else if t[1] == '\\' then Some(('\\', 2))
    else if t[1] == '/' then Some(('/', 2))
    else if t[1] == 'u' && |t| >= 6 then
      match (HexValue(t[2]), HexValue(t[3]), HexValue(t[4]), HexValue(t[5]))
      case (Some(a), Some(b), Some(c), Some(d)) =>
        var v := ((a * 16 + b) * 16 + c) * 16 + d;
        if v < 0xD800 || 0xE000 <= v < 0x11_0000 then Some((v as char, 6)) else None
      case _ => None
    else None
  }

  /** Reads the body of a string literal up to its closing quote, returning the
      decoded text and what follows the quote. */
  function DecodeUntilQuote(t: string): Option<(string, string)>
    decreases |t|
  {
    if t == [] then None
    else if t[0] == '"' then Some(([], t[1..]))
    else
      match DecodeOne(t)
      case None => None
      case Some((c, n)) =>
        match DecodeUntilQuote(t[n..])
        case None => None
        case Some((body, rest)) => Some(([c] + body, rest))
  }

  /** Reads back the e-mail address from a stored user record. */
  function DecodeUser(stored: string): Option<string>
  {
    if |stored| < |UserHead| || stored[..|UserHead|] != UserHead then None
    else
      match DecodeUntilQuote(stored[|UserHead|..])
      case Some((email, rest)) => if rest == UserTail then Some(email) else None
      case None => None
  }

  lemma HexRoundTrip(n: nat)
    requires n < 16
    ensures HexValue(HexDigit(n)) == Some(n)
  {
  }

  lemma DecodeEscapedChar(c: char, t: string)
    ensures DecodeOne(EscapeChar(c) + t) == Some((c, |EscapeChar(c)|))
  {
    var e := EscapeChar(c);
    var u := e + t;
    if !(c == '\U{8}' || c == '\t' || c == '\n' || c == '\U{C}' || c == '\r' || c == '"' || c == '\\')
       && (c as int) < 0x20 {
      var v := c as int;
      HexRoundTrip(v / 16);
      HexRoundTrip(v % 16);
      assert u[2] == '0' && u[3] == '0';
      assert u[4] == HexDigit(v / 16) && u[5] == HexDigit(v % 16);
      assert ((0 * 16 + 0) * 16 + v / 16) * 16 + v % 16 == v;
      assert (v as char) == c;
    }
  }

  lemma {:induction false} DecodeEscapedString(s: string, rest: string)
    ensures DecodeUntilQuote(EscapeString(s) + "\"" + rest) == Some((s, rest))
    decreases |s|
  {
    var t := EscapeString(s) + "\"" + rest;
    if s == [] {
      assert t == "\"" + rest;
      assert t[1..] == rest;
    } else {
      var e := EscapeChar(s[0]);
      var tail := EscapeString(s[1..]) + "\"" + rest;
      assert t == e + tail;
      DecodeEscapedChar(s[0], tail);
      assert t[|e|..] == tail;
      DecodeEscapedString(s[1..], rest);
      assert [s[0]] + s[1..] == s;
    }
  }

  /** The register form of auth.js: with a full name and an address, the
      user record is stored and the dashboard opened; otherwise the visitor
      is alerted and the session is left alone. */
  function RegisterSubmit(s: Store, fullName: string, email: string): (r: Effect)
    ensures fullName != [] && email != [] ==>
              && UserKey in r.store && DecodeUser(r.store[UserKey]) == Some(email)
              && AgreeOutside(s, r.store, {UserKey})
              && r.goTo == Some(DashboardPage) && r.notice.None?
    ensures fullName == [] || email == [] ==>
              r.store == s && r.notice.Some? && r.goTo.None?
  {
    if fullName != [] && email != [] then
      Effect(s[UserKey := EncodeUser(email)], None, Some(DashboardPage))
    else
      Effect(s, Some("Please fill in all required fields."), None)
  }
}
