/** The computations buried in the dashboard's handlers: building the current
    user from the session, the transaction type filter, and the split of the
    full name on the profile page. */
module Dashboard {
  import opened Util
  import opened Session

  // ---------------------------------------------------------------------------
  // Splitting strings

  /** `s.split(sep)` for a one-character separator: the pieces between
      separators, empty pieces included; the first piece is everything before
      the first separator. */
  function Split(s: string, sep: char): (parts: seq<string>)
    ensures |parts| >= 1
    ensures forall i :: 0 <= i < |parts| ==> sep !in parts[i]
    ensures parts[0] <= s && (|parts[0]| < |s| ==> s[|parts[0]|] == sep)
    ensures |parts| >= 2 <==> sep in s
    decreases |s|
  {
    if s == [] then [""]
    else
      var rest := Split(s[1..], sep);
      if s[0] == sep then
        [""] + rest
      else
        [[s[0]] + rest[0]] + rest[1..]
  }

  /** `parts.join(sep)`: the pieces in order, one separator between
      neighbours. */
  function Join(parts: seq<string>, sep: char): string
    requires |parts| >= 1
    decreases |parts|
  {
    if |parts| == 1 then parts[0] else parts[0] + [sep] + Join(parts[1..], sep)
  }

  /** A join starts with the first piece, ends with the last, and when no
      piece holds the separator it holds exactly one separator between each
      pair of neighbouring pieces. */
  lemma {:induction false} JoinShape(parts: seq<string>, sep: char)
    requires |parts| >= 1
    ensures var r := Join(parts, sep);
            && parts[0] <= r
            && |parts[|parts| - 1]| <= |r| && r[|r| - |parts[|parts| - 1]|..] == parts[|parts| - 1]
            && ((forall i :: 0 <= i < |parts| ==> sep !in parts[i]) ==> multiset(r)[sep] == |parts| - 1)
    decreases |parts|
  {
    if |parts| > 1 {
      var tail := Join(parts[1..], sep);
      JoinShape(parts[1..], sep);
      var r := parts[0] + [sep] + tail;
      assert r == parts[0] + ([sep] + tail);
      assert r[|r| - |tail|..] == tail;
      if forall i :: 0 <= i < |parts| ==> sep !in parts[i] {
        assert forall i :: 0 <= i < |parts[1..]| ==> parts[1..][i] == parts[i + 1];
        assert multiset(parts[0])[sep] == 0;
        assert multiset(r) == multiset(parts[0]) + multiset([sep]) + multiset(tail);
      }
    }
  }

  /** Joining the pieces of a split gives back the original string. */
  lemma {:induction false} JoinSplit(s: string, sep: char)
    ensures Join(Split(s, sep), sep) == s
    decreases |s|
  {
    if s != [] {
      var rest := Split(s[1..], sep);
      JoinSplit(s[1..], sep);
      if s[0] == sep {
        assert ([""] + rest)[1..] == rest;
      } else {
        var parts := [[s[0]] + rest[0]] + rest[1..];
        if |rest| > 1 {
          assert parts[1..] == rest[1..];
        }
      }
    }
  }

  /** Splitting pieces that contain no separator after joining them gives
      the same pieces back. */
  lemma {:induction false} SplitJoin(parts: seq<string>, sep: char)
    requires |parts| >= 1
    requires forall i :: 0 <= i < |parts| ==> sep !in parts[i]
    ensures Split(Join(parts, sep), sep) == parts
    decreases |parts|, |parts[0]|
  {
    var p := parts[0];
    if |parts| == 1 {
      SplitNoSeparator(p, sep);
    } else if p == [] {
      var tail := Join(parts[1..], sep);
      SplitJoin(parts[1..], sep);
      assert Join(parts, sep) == [sep] + tail;
      assert ([sep] + tail)[1..] == tail;
      assert [""] + parts[1..] == parts;
    } else {
      var shorter := [p[1..]] + parts[1..];
      assert shorter[1..] == parts[1..];
      SplitJoin(shorter, sep);
      var j := Join(parts, sep);
      assert j == [p[0]] + Join(shorter, sep);
      assert j[1..] == Join(shorter, sep);
      assert [p[0]] + p[1..] == p;
    }
  }

  lemma {:induction false} SplitNoSeparator(s: string, sep: char)
    requires sep !in s
    ensures Split(s, sep) == [s]
    decreases |s|
  {
    if s != [] {
      SplitNoSeparator(s[1..], sep);
      assert [s[0]] + s[1..] == s;
    }
  }

  // ---------------------------------------------------------------------------
  // Profile page

  /** The first-name field and, when one is written, the last-name field. */
  datatype ProfileName = ProfileName(first: string, last: Option<string>)

  /** `loadProfilePage`: with two or more space-separated pieces the first one
      is the first name and the rest, joined by spaces, the last name;
      otherwise the whole name goes to the first-name field and the last-name
      field is not written. */
  function SplitName(fullName: string): (r: ProfileName)
    ensures r.last.Some? <==> ' ' in fullName
    ensures r.last.Some? ==> r.first + " " + r.last.value == fullName && ' ' !in r.first
    ensures r.last.None? ==> r.first == fullName
  {
    var parts := Split(fullName, ' ');
    if |parts| >= 2 then
      JoinSplit(fullName, ' ');
      ProfileName(parts[0], Some(Join(parts[1..], ' ')))
    else
      ProfileName(fullName, None)
  }

  // ---------------------------------------------------------------------------
  // Current user

  /** The user object `checkAuth` builds. The demo balance it also carries is
      a fixed number unrelated to the session. */
  datatype CurrentUser = CurrentUser(email: string, fullName: string)

  /** `loggedInUser.split('@')[0]`: the part of the address before its first '@'. */
  function DisplayName(email: string): (r: string)
    ensures '@' !in r
    ensures r <= email
    ensures |r| < |email| ==> email[|r|] == '@'
    ensures r == email <==> '@' !in email
  {
    Split(email, '@')[0]
  }

  /** `checkAuth`: a user is built only from a non-empty `loggedInUser` entry
      together with an `isLoggedIn` entry equal to "true"; otherwise the login
      page is opened. */
  function CheckAuth(s: Store): (r: Option<CurrentUser>)
    ensures r.Some? <==>
              && LoggedInUserKey in s && s[LoggedInUserKey] != []
              && IsLoggedInKey in s && s[IsLoggedInKey] == "true"
    ensures r.Some? ==> r.value.email == s[LoggedInUserKey]
    ensures r.Some? ==> r.value.fullName == DisplayName(r.value.email)
  {
    if LoggedInUserKey in s && s[LoggedInUserKey] != [] && IsLoggedInKey in s && s[IsLoggedInKey] == "true" then
      var email := s[LoggedInUserKey];
      Some(CurrentUser(email, DisplayName(email)))
    else
      None
  }

  /** The dashboard admits only authenticated sessions; the converse fails
      only for an empty user entry. */
  lemma CheckAuthVersusIsAuthenticated(s: Store)
    ensures CheckAuth(s).Some? ==> IsAuthenticated(s)
    ensures IsAuthenticated(s) && CheckAuth(s).None? ==> s[LoggedInUserKey] == []
  {
  }

  /** `login("", p)` makes `isAuthenticated` hold, yet the dashboard sends the
      visitor back to the login page. */
  lemma EmptyUserPassesGuardOnly(s: Store, password: string)
    ensures IsAuthenticated(Login(s, "", password).0)
    ensures CheckAuth(Login(s, "", password).0).None?
  {
  }

  /** After a successful login-form submission the dashboard builds the user
      from the address that was typed, named after its part before the '@'. */
  lemma HandleLoginThenCheckAuth(s: Store, email: string, password: string)
    requires email != [] && password != []
    ensures CheckAuth(HandleLogin(s, email, password).1.store)
              == Some(CurrentUser(email, DisplayName(email)))
  {
  }

  // ---------------------------------------------------------------------------
  // Transaction filter

  /** A row of the transactions table. */
  datatype DisplayTx = DisplayTx(description: string, date: string, amount: string,
                                 kind: string, status: string)

  /** The `type` a row must have to pass a filter other than 'all'. */
  function WantedKind(typeFilter: string): string
  {
    if typeFilter == "incoming" then "incoming" else "outgoing"
  }

  /** The type filter of `setupTransactionFilters`: 'all' keeps every row,
      'incoming' keeps the incoming ones, and any other value the outgoing
      ones, always in the original order. */
  function FilterByType(transactions: seq<DisplayTx>, typeFilter: string): (r: seq<DisplayTx>)
    ensures IsSubsequence(r, transactions)
    ensures typeFilter == "all" ==> r == transactions
    ensures typeFilter != "all" ==>
              && (forall i :: 0 <= i < |r| ==> r[i].kind == WantedKind(typeFilter))
              && (forall t :: multiset(r)[t] ==
                    if t.kind == WantedKind(typeFilter) then multiset(transactions)[t] else 0)
  {
    if typeFilter == "all" then
      SubsequenceReflexive(transactions);
      transactions
    else
      var wanted := WantedKind(typeFilter);
      var p := (t: DisplayTx) => t.kind == wanted;
      KeepCount(transactions, p);
      Keep(transactions, p)
  }

  /** Applying the same filter a second time changes nothing. */
  lemma FilterByTypeIdempotent(transactions: seq<DisplayTx>, typeFilter: string)
    ensures FilterByType(FilterByType(transactions, typeFilter), typeFilter)
              == FilterByType(transactions, typeFilter)
  {
  }
}
