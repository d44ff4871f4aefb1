/**
 * Request routing (index.php:74-135 and the route tests down to line 646):
 * OPTIONS is answered before anything else; the path is trimmed of `/`,
 * split into segments, stripped of the deployment prefix `clockmate`, the
 * API prefix `api` and the script name `index.php` (each at most once, in
 * that order), rejoined, and looked up in the route table.
 */
module Router {
  import opened Text
  import opened Wrappers

  // ------------------------------------------------------ path normalisation

  /** The leading segments the router removes, in the order it tests them. */
  const BasePath: seq<string> := ["clockmate", "api", "index.php"]

  /**
   * The segments left after the tests from BasePath[k] on: each one removes
   * the first segment when it equals that base segment.
   */
  function StripFrom(parts: seq<string>, k: nat): seq<string>
    requires k <= |BasePath|
    decreases |BasePath| - k
  {
    if k == |BasePath| then parts
    else if parts != [] && parts[0] == BasePath[k] then StripFrom(parts[1..], k + 1)
    else StripFrom(parts, k + 1)
  }

  /**
   * index.php:113-122: three `array_shift`s, each guarded by a test of the
   * current first segment.
   */
  method StripBasePath(parts: seq<string>) returns (rest: seq<string>)
    ensures rest == StripFrom(parts, 0)
  {
    rest := parts;
    if |rest| > 0 && rest[0] == "clockmate" {
      rest := rest[1..];
    }
    ghost var afterFirst := rest;
    if |rest| > 0 && rest[0] == "api" {
      rest := rest[1..];
    }
    ghost var afterSecond := rest;
    if |rest| > 0 && rest[0] == "index.php" {
      rest := rest[1..];
    }
    assert StripFrom(afterSecond, 2) == rest;
    assert StripFrom(afterFirst, 1) == rest;
  }

  /** The stripping removes a prefix of at most three segments and keeps the rest. */
  lemma {:induction false} StripFromSuffix(parts: seq<string>, k: nat)
    requires k <= |BasePath|
    ensures var rest := StripFrom(parts, k);
      |rest| <= |parts| && |parts| - |rest| <= |BasePath| - k && rest == parts[|parts| - |rest|..]
    decreases |BasePath| - k
  {
    if k < |BasePath| {
      if parts != [] && parts[0] == BasePath[k] {
        StripFromSuffix(parts[1..], k + 1);
      } else {
        StripFromSuffix(parts, k + 1);
      }
    }
  }

  /** Segments that start with none of the base segments are left alone. */
  lemma {:induction false} StripFromNothing(parts: seq<string>, k: nat)
    requires k <= |BasePath|
    requires parts == [] || parts[0] !in BasePath
    ensures StripFrom(parts, k) == parts
    decreases |BasePath| - k
  {
    if k < |BasePath| {
      StripFromNothing(parts, k + 1);
    }
  }

  /** The route the handlers see for a request path (index.php:108-124). */
  function RouteOf(path: string): string
  {
    Join(StripFrom(Split(Trim(path, '/'), '/'), 0), '/')
  }

  /**
   * A route behind the full base path `/clockmate/api/index.php/` comes out
   * unchanged, whatever its own segments are: each base segment is removed
   * once, so a route that itself starts with `api` keeps it.
   */
  lemma RouteBehindBasePath(route: string)
    requires Trimmed(route, '/')
    ensures RouteOf("/clockmate/api/index.php/" + route) == route
  {
    BaseSegments();
    RouteBehind(Join(BasePath, '/'), route);
    BaseText(route);
  }

  lemma BaseSegments()
    ensures Join(BasePath, '/') != [] && Trimmed(Join(BasePath, '/'), '/')
    ensures Split(Join(BasePath, '/'), '/') == BasePath
  {
    SplitJoin(BasePath, '/');
  }

  lemma BaseText(route: string)
    ensures "/" + Join(BasePath, '/') + "/" + route == "/clockmate/api/index.php/" + route
  {
  }

  /** The same for any text whose segments are the base path's. */
  lemma RouteBehind(base: string, route: string)
    requires base != [] && Trimmed(base, '/') && Split(base, '/') == BasePath
    requires Trimmed(route, '/')
    ensures RouteOf("/" + base + "/" + route) == route
  {
    var path := "/" + base + "/" + route;
    if route == [] {
      assert path == ['/'] + base + ['/'];
      TrimSurrounded(base, '/');
      StripBase([]);
      assert BasePath + [] == BasePath;
    } else {
      var full := base + ['/'] + route;
      assert path == ['/'] + full;
      assert Trimmed(full, '/');
      TrimProperties(full, '/');
      assert (['/'] + full)[1..] == full;
      assert Trim(path, '/') == full;
      SplitConcat(base, route, '/');
      StripBase(Split(route, '/'));
      JoinSplit(route, '/');
    }
  }

  lemma StripBase(parts: seq<string>)
    ensures StripFrom(BasePath + parts, 0) == parts
  {
    assert (BasePath + parts)[1..] == ["api", "index.php"] + parts;
    assert (["api", "index.php"] + parts)[1..] == ["index.php"] + parts;
    assert (["index.php"] + parts)[1..] == parts;
  }

  /**
   * A route whose first segment is no base segment is its own route, with
   * or without slashes around it.
   */
  lemma RouteWithoutBasePath(route: string)
    requires Trimmed(route, '/')
    requires Split(route, '/')[0] !in BasePath
    ensures RouteOf(route) == route
    ensures RouteOf("/" + route + "/") == route
  {
    TrimProperties(route, '/');
    TrimSurrounded(route, '/');
    assert "/" + route + "/" == ['/'] + route + ['/'];
    StripFromNothing(Split(route, '/'), 0);
    JoinSplit(route, '/');
  }

  // ------------------------------------------------------------ route table

  /** The named operations of the API. */
  datatype Endpoint =
    | RecordClockEvent | ClockLogs
    | PendingApprovals | AllEmployees | DashboardStats
    | ApproveEmployee | RejectEmployee | ResetPin | DeactivateEmployee | ReactivateEmployee
    | Signup | Login | PinLogin
    | ExportAll | ExportEmployee

  /** An exact route, or a prefix followed by the `(\d+)` id. */
  datatype Pattern = Exact(path: string) | WithId(prefix: string)

  datatype RouteEntry = RouteEntry(pattern: Pattern, verb: string, endpoint: Endpoint)

  /** The routes in the order index.php tests them. */
  const Routes: seq<RouteEntry> := [
    RouteEntry(Exact("clock/event"), "POST", RecordClockEvent),
    RouteEntry(WithId("clock/logs/"), "GET", ClockLogs),
    RouteEntry(Exact("admin/pending"), "GET", PendingApprovals),
    RouteEntry(Exact("admin/employees"), "GET", AllEmployees),
    RouteEntry(Exact("admin/stats"), "GET", DashboardStats),
    RouteEntry(WithId("admin/approve/"), "POST", ApproveEmployee),
    RouteEntry(WithId("admin/reject/"), "POST", RejectEmployee),
    RouteEntry(WithId("admin/reset-pin/"), "POST", ResetPin),
    RouteEntry(WithId("admin/deactivate/"), "POST", DeactivateEmployee),
    RouteEntry(WithId("admin/reactivate/"), "POST", ReactivateEmployee),
    RouteEntry(Exact("auth/signup"), "POST", Signup),
    RouteEntry(Exact("auth/login"), "POST", Login),
    RouteEntry(Exact("auth/pin-login"), "POST", PinLogin),
    RouteEntry(Exact("admin/export"), "GET", ExportAll),
    RouteEntry(WithId("admin/export-employee/"), "GET", ExportEmployee)
  ]

  /** The routes the test endpoint answers, for any method (index.php:128). */
  const HealthRoutes: seq<string> := ["", "test", "index.php"]

  /**
   * The `(\d+)` capture of `/^prefix(\d+)$/`: one or more digits after the
   * prefix; PCRE's `$` also lets one final newline follow them.
   */
  function IdDigits(prefix: string, route: string): (r: Option<string>)
    ensures r.Some? ==> r.value != [] && IsDigits(r.value)
    ensures r.Some? ==> route == prefix + r.value || route == prefix + r.value + "\n"
  {
    if |route| > |prefix| && route[..|prefix|] == prefix then
      var rest := route[|prefix|..];
      assert route == prefix + rest;
      if IsDigits(rest) then Some(rest)
      else if |rest| >= 2 && rest[|rest| - 1] == '\n' && IsDigits(rest[..|rest| - 1]) then
        assert rest == rest[..|rest| - 1] + "\n";
        Some(rest[..|rest| - 1])
      else None
    else None
  }

  /** The id text matches the pattern, with or without PCRE's final newline. */
  lemma IdDigitsAccepts(prefix: string, digits: string)
    requires digits != [] && IsDigits(digits)
    ensures IdDigits(prefix, prefix + digits) == Some(digits)
    ensures IdDigits(prefix, prefix + digits + "\n") == Some(digits)
  {
    var r := prefix + digits;
    assert r[..|prefix|] == prefix && r[|prefix|..] == digits;
    var s := prefix + digits + "\n";
    assert s[..|prefix|] == prefix && s[|prefix|..] == digits + "\n";
    assert !IsDigits(digits + "\n") by {
      assert (digits + "\n")[|digits|] == '\n';
    }
    assert (digits + "\n")[..|digits|] == digits;
  }

  predicate Matches(p: Pattern, route: string)
  {
    match p
    case Exact(path) => route == path
    case WithId(prefix) => IdDigits(prefix, route).Some?
  }

  /** The id a matching pattern captures: the number its digits denote, MySQL's reading of the text. */
  function Captured(p: Pattern, route: string): Option<nat>
  {
    match p
    case Exact(_) => None
    case WithId(prefix) =>
      match IdDigits(prefix, route)
      case Some(d) => Some(DecimalValue(d))
      case None => None
  }

  /** What the router decides before any handler runs. */
  datatype Outcome =
    | Health
    | Call(endpoint: Endpoint, id: Option<nat>)
    | MethodNotAllowed
    | NotFound

  function Lookup(entries: seq<RouteEntry>, verb: string, route: string): Outcome
  {
    if entries == [] then NotFound
    else if Matches(entries[0].pattern, route) then
      if verb == entries[0].verb then Call(entries[0].endpoint, Captured(entries[0].pattern, route))
      else MethodNotAllowed
    else Lookup(entries[1..], verb, route)
  }

  /** The route tests of index.php in their order, after the OPTIONS test. */
  function Dispatch(verb: string, route: string): Outcome
  {
    if route in HealthRoutes then Health else Lookup(Routes, verb, route)
  }

  // ------------------------------------------------------- route properties

  /** The text a route must start with to match a pattern. */
  function Head(p: Pattern): string
  {
    match p
    case Exact(path) => path
    case WithId(prefix) => prefix
  }

  /** A route that matches starts with the pattern's head; an id route goes on with a digit. */
  lemma MatchHead(p: Pattern, route: string)
    requires Matches(p, route)
    ensures |route| >= |Head(p)| && route[..|Head(p)|] == Head(p)
    ensures p.Exact? ==> route == Head(p)
    ensures p.WithId? ==> |route| > |Head(p)| && IsDigit(route[|Head(p)|])
  {
    if p.WithId? {
      var d := IdDigits(p.prefix, route).value;
      assert route[|p.prefix|] == d[0];
    }
  }

  /**
   * Which family of routes a text of at least nine characters would belong
   * to, read off its characters 0 and 5 to 8: enough to tell every head of
   * the table apart except `admin/export` and `admin/export-employee/`.
   */
  function Tag(s: string): nat
    requires |s| >= 9
  {
    if s[5] == 's' then 10 else if s[5] == 'l' then 11 else if s[5] == 'p' then 12
    else if s[0] == 'c' then (if s[6] == 'e' then 0 else 1)
    else if s[6] == 'p' then 2
    else if s[6] == 'e' then (if s[7] == 'm' then 3 else 13)
    else if s[6] == 's' then 4
    else if s[6] == 'a' then 5
    else if s[6] == 'd' then 8
    else if s[8] == 'j' then 6 else if s[8] == 's' then 7 else 9
  }

  lemma TagOfHead(i: nat)
    requires i < |Routes|
    ensures |Head(Routes[i].pattern)| >= 10
    ensures Tag(Head(Routes[i].pattern)) == if i == 14 then 13 else i
  {
    if i < 5 {
      TagOfClockHeads(i);
    } else if i < 10 {
      TagOfAdminHeads(i);
    } else {
      TagOfOtherHeads(i);
    }
  }

  /** TagOfHead for the clock routes and the first admin queries, by evaluation. */
  lemma TagOfClockHeads(i: nat)
    requires i < 5
    ensures |Head(Routes[i].pattern)| >= 10 && Tag(Head(Routes[i].pattern)) == i
  {
  }

  /** TagOfHead for the admin id routes. */
  lemma TagOfAdminHeads(i: nat)
    requires 5 <= i < 10
    ensures |Head(Routes[i].pattern)| >= 10 && Tag(Head(Routes[i].pattern)) == i
  {
  }

  /** TagOfHead for the auth and export routes. */
  lemma TagOfOtherHeads(i: nat)
    requires 10 <= i < 15
    ensures |Head(Routes[i].pattern)| >= 10 && Tag(Head(Routes[i].pattern)) == if i == 14 then 13 else i
  {
  }

  /** A route starting with a head has the head's tag. */
  lemma TagOfRoute(i: nat, route: string)
    requires i < |Routes| && Matches(Routes[i].pattern, route)
    ensures |route| >= 9 && Tag(route) == Tag(Head(Routes[i].pattern))
  {
    var h := Head(Routes[i].pattern);
    TagOfHead(i);
    MatchHead(Routes[i].pattern, route);
    assert route[0] == h[0] && route[5] == h[5] && route[6] == h[6];
    assert route[7] == h[7] && route[8] == h[8];
  }

  /** No route matches two entries of the table, so the order of the tests does not matter. */
  lemma RoutesExclusive(i: nat, j: nat, route: string)
    requires i < j < |Routes|
    ensures !(Matches(Routes[i].pattern, route) && Matches(Routes[j].pattern, route))
  {
    if Matches(Routes[i].pattern, route) && Matches(Routes[j].pattern, route) {
      TagOfRoute(i, route);
      TagOfRoute(j, route);
      TagOfHead(i);
      TagOfHead(j);
      MatchHead(Routes[i].pattern, route);
      MatchHead(Routes[j].pattern, route);
    }
  }

  lemma {:induction false} LookupMatch(entries: seq<RouteEntry>, i: nat, verb: string, route: string)
    requires i < |entries| && Matches(entries[i].pattern, route)
    requires forall j | 0 <= j < i :: !Matches(entries[j].pattern, route)
    ensures Lookup(entries, verb, route) ==
      if verb == entries[i].verb then Call(entries[i].endpoint, Captured(entries[i].pattern, route))
      else MethodNotAllowed
  {
    if i > 0 {
      assert !Matches(entries[0].pattern, route);
      LookupMatch(entries[1..], i - 1, verb, route);
    }
  }

  lemma {:induction false} LookupNone(entries: seq<RouteEntry>, verb: string, route: string)
    ensures Lookup(entries, verb, route) == NotFound
      <==> forall j | 0 <= j < |entries| :: !Matches(entries[j].pattern, route)
  {
    if entries != [] {
      LookupNone(entries[1..], verb, route);
      if !Matches(entries[0].pattern, route) {
        assert forall j | 1 <= j < |entries| :: entries[j] == entries[1..][j - 1];
      }
    }
  }

  lemma {:induction false} LookupCall(entries: seq<RouteEntry>, verb: string, route: string)
    requires Lookup(entries, verb, route).Call?
    ensures exists i | 0 <= i < |entries| ::
      && Matches(entries[i].pattern, route) && entries[i].verb == verb
      && Lookup(entries, verb, route) == Call(entries[i].endpoint, Captured(entries[i].pattern, route))
  {
    if !Matches(entries[0].pattern, route) {
      LookupCall(entries[1..], verb, route);
      var i :| 0 <= i < |entries[1..]| && Matches(entries[1..][i].pattern, route) && entries[1..][i].verb == verb
        && Lookup(entries[1..], verb, route) == Call(entries[1..][i].endpoint, Captured(entries[1..][i].pattern, route));
      assert entries[1..][i] == entries[i + 1];
    } else {
      assert Matches(entries[0].pattern, route) && entries[0].verb == verb;
    }
  }

  /**
   * A route that matches an entry reaches that entry's handler when the
   * method is the entry's, and is answered 405 otherwise (index.php:140-646,
   * one `if ($route === … )` per entry with its `if ($method !== …)`).
   */
  lemma DispatchRoute(i: nat, verb: string, route: string)
    requires i < |Routes| && Matches(Routes[i].pattern, route)
    ensures Dispatch(verb, route) ==
      if verb == Routes[i].verb then Call(Routes[i].endpoint, Captured(Routes[i].pattern, route))
      else MethodNotAllowed
  {
    TagOfHead(i);
    MatchHead(Routes[i].pattern, route);
    assert route !in HealthRoutes;
    forall j | 0 <= j < i ensures !Matches(Routes[j].pattern, route) {
      RoutesExclusive(j, i, route);
    }
    LookupMatch(Routes, i, verb, route);
  }

  /** An id route's handler gets the number its digits denote, whichever the method. */
  lemma CapturedId(i: nat, digits: string)
    requires i < |Routes| && Routes[i].pattern.WithId?
    requires digits != [] && IsDigits(digits)
    ensures Matches(Routes[i].pattern, Routes[i].pattern.prefix + digits)
    ensures Captured(Routes[i].pattern, Routes[i].pattern.prefix + digits) == Some(DecimalValue(digits))
    ensures Captured(Routes[i].pattern, Routes[i].pattern.prefix + digits + "\n") == Some(DecimalValue(digits))
  {
    IdDigitsAccepts(Routes[i].pattern.prefix, digits);
  }

  /** 404 exactly when the route is neither the test route nor matched by any entry (index.php:644-646). */
  lemma DispatchNotFound(verb: string, route: string)
    ensures Dispatch(verb, route) == NotFound
      <==> route !in HealthRoutes && forall j | 0 <= j < |Routes| :: !Matches(Routes[j].pattern, route)
  {
    LookupNone(Routes, verb, route);
  }

  /** A handler runs only for a route and method some entry names. */
  lemma DispatchCall(verb: string, route: string)
    requires Dispatch(verb, route).Call?
    ensures exists i | 0 <= i < |Routes| ::
      && Matches(Routes[i].pattern, route) && Routes[i].verb == verb
      && Dispatch(verb, route) == Call(Routes[i].endpoint, Captured(Routes[i].pattern, route))
  {
    LookupCall(Routes, verb, route);
  }

  /** The endpoints whose route carries an id. */
  predicate TakesId(e: Endpoint)
  {
    e.ClockLogs? || e.ApproveEmployee? || e.RejectEmployee? || e.ResetPin?
    || e.DeactivateEmployee? || e.ReactivateEmployee? || e.ExportEmployee?
  }

  /** The endpoints answered to GET; all others are POST. */
  predicate IsQuery(e: Endpoint)
  {
    e.ClockLogs? || e.PendingApprovals? || e.AllEmployees? || e.DashboardStats? || e.ExportAll? || e.ExportEmployee?
  }

  lemma EntryKinds(i: nat)
    requires i < |Routes|
    ensures Routes[i].pattern.WithId? <==> TakesId(Routes[i].endpoint)
    ensures Routes[i].verb == (if IsQuery(Routes[i].endpoint) then "GET" else "POST")
  {
  }

  /** A handler gets an id exactly when its route has one, and a query handler only runs for GET. */
  lemma DispatchId(verb: string, route: string)
    requires Dispatch(verb, route).Call?
    ensures Dispatch(verb, route).id.Some? <==> TakesId(Dispatch(verb, route).endpoint)
    ensures verb == (if IsQuery(Dispatch(verb, route).endpoint) then "GET" else "POST")
  {
    DispatchCall(verb, route);
    var i :| 0 <= i < |Routes| && Matches(Routes[i].pattern, route) && Routes[i].verb == verb
      && Dispatch(verb, route) == Call(Routes[i].endpoint, Captured(Routes[i].pattern, route));
    EntryKinds(i);
  }
}
