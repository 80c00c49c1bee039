/**
 * The read-through context cache and route guard of
 * middleware/feature-guard.middleware.ts.  A request suspends at the cache read,
 * the database read and the cache write, and anything may happen in between.
 * Times are milliseconds.
 */
module FeatureGuard {
  import opened Wrappers
  import opened TtlCache

  const TTL_MS := 1000 * 86400

  datatype Feature = Documents | Encryption | PublicSharing | Notes | KnowledgeBase

  datatype Context = Context(status: string, features: set<Feature>)

  /** Where a request stands: its lookup missed, or it holds the row it read. */
  datatype Phase =
    | Missed
    | Fetched(context: Context)

  datatype Event =
    | LookUp(request: int)
    | ReadRow(request: int)
    | Fill(request: int)
    | Update(row: Option<Context>)
    | Invalidate

  datatype Timed = Timed(at: int, event: Event)

  /** Everything about one environment. */
  datatype State = State(row: Option<Context>, slot: Option<Entry<Context>>, requests: map<int, Phase>)

  /** What a request is served: nothing yet, or a context, or None for a missing row. */
  type Served = Option<Option<Context>>

  predicate InPhase(s: State, request: int, phase: Phase) {
    request in s.requests && s.requests[request] == phase
  }

  function Step(s: State, e: Timed): (State, Served) {
    match e.event
    case LookUp(r) =>
      if r in s.requests then (s, None)
      else (match Lookup(s.slot, e.at)
            case Some(context) => (s, Some(Some(context)))
            case None => (s.(requests := s.requests[r := Missed]), None))
    case ReadRow(r) =>
      if !InPhase(s, r, Missed) then (s, None)
      else (match s.row
            case Some(context) => (s.(requests := s.requests[r := Fetched(context)]), None)
            case None => (s.(requests := s.requests - {r}), Some(None)))
    case Fill(r) =>
      if r !in s.requests || s.requests[r].Missed? then (s, None)
      else
        var context := s.requests[r].context;
        (s.(requests := s.requests - {r}, slot := Some(Store(context, e.at, TTL_MS))), Some(Some(context)))
    case Update(row) => (s.(row := row), None)
    case Invalidate => (s.(slot := None), None)
  }

  // ----- the program

  class EnvironmentContexts {
    var rows: map<string, Context>
    var cache: map<string, Entry<Context>>
    var requests: map<string, map<int, Phase>>

    constructor ()
      ensures rows == map[] && cache == map[] && requests == map[]
    {
      rows, cache, requests := map[], map[], map[];
    }

    function StateOf(environmentId: string): State
      reads this
    {
      State(if environmentId in rows then Some(rows[environmentId]) else None,
            if environmentId in cache then Some(cache[environmentId]) else None,
            if environmentId in requests then requests[environmentId] else map[])
    }

    /** The cache read: a hit is served, a miss goes on to the database. */
    method GetEnvironmentContext(environmentId: string, request: int, now: int) returns (served: Served)
      requires request !in StateOf(environmentId).requests
      modifies this
      ensures (StateOf(environmentId), served) == Step(old(StateOf(environmentId)), Timed(now, LookUp(request)))
      ensures forall other :: other != environmentId ==> StateOf(other) == old(StateOf(other))
    {
      if environmentId in cache && !IsExpired(cache[environmentId].expires, now) {
        return Some(Some(cache[environmentId].value));
      }
      requests := requests[environmentId := StateOf(environmentId).requests[request := Missed]];
      return None;
    }

    /** The database read of a request that missed. */
    method SelectRow(environmentId: string, request: int, now: int) returns (served: Served)
      requires InPhase(StateOf(environmentId), request, Missed)
      modifies this
      ensures (StateOf(environmentId), served) == Step(old(StateOf(environmentId)), Timed(now, ReadRow(request)))
      ensures forall other :: other != environmentId ==> StateOf(other) == old(StateOf(other))
    {
      if environmentId !in rows {
        requests := requests[environmentId := requests[environmentId] - {request}];
        return Some(None);
      }
      requests := requests[environmentId := requests[environmentId][request := Fetched(rows[environmentId])]];
      return None;
    }

    /** The cache write, and the answer. */
    method SetCache(environmentId: string, request: int, now: int) returns (served: Served)
      requires request in StateOf(environmentId).requests && StateOf(environmentId).requests[request].Fetched?
      modifies this
      ensures (StateOf(environmentId), served) == Step(old(StateOf(environmentId)), Timed(now, Fill(request)))
      ensures forall other :: other != environmentId ==> StateOf(other) == old(StateOf(other))
    {
      var env := requests[environmentId][request].context;
      cache := cache[environmentId := Store(env, now, TTL_MS)];
      requests := requests[environmentId := requests[environmentId] - {request}];
      return Some(Some(env));
    }

    /** The other services' update of the row; they invalidate afterwards. */
    method UpdateEnvironment(environmentId: string, env: Option<Context>, now: int)
      modifies this
      ensures StateOf(environmentId) == Step(old(StateOf(environmentId)), Timed(now, Update(env))).0
      ensures forall other :: other != environmentId ==> StateOf(other) == old(StateOf(other))
    {
      rows := if env.Some? then rows[environmentId := env.value] else rows - {environmentId};
    }

    method InvalidateEnvironmentCache(environmentId: string, now: int)
      modifies this
      ensures StateOf(environmentId) == Step(old(StateOf(environmentId)), Timed(now, Invalidate)).0
      ensures forall other :: other != environmentId ==> StateOf(other) == old(StateOf(other))
    {
      cache := cache - {environmentId};
    }
  }

  // ----- runs

  const Initial := State(None, None, map[])

  /** The state before event n, from an empty cache and no row. */
  function Before(run: seq<Timed>, n: nat): State
    requires n <= |run|
  {
    if n == 0 then Initial else Step(Before(run, n - 1), run[n - 1]).0
  }

  function ServedAt(run: seq<Timed>, n: nat): Served
    requires n < |run|
  {
    Step(Before(run, n), run[n]).1
  }

  /** Event k reads the context from the database on behalf of the request. */
  ghost predicate ReadsAt(run: seq<Timed>, k: nat, request: int, context: Context)
    requires k < |run|
  {
    run[k].event == ReadRow(request) && InPhase(Before(run, k), request, Missed) && Before(run, k).row == Some(context)
  }

  /** Event j writes to the cache what event k read. */
  ghost predicate FillsAt(run: seq<Timed>, k: nat, j: nat, request: int, context: Context)
    requires k < j < |run|
  {
    && ReadsAt(run, k, request, context)
    && run[j].event == Fill(request) && InPhase(Before(run, j), request, Fetched(context))
  }

  lemma {:induction false} FetchedWasRead(run: seq<Timed>, n: nat, request: int, context: Context) returns (k: nat)
    requires n <= |run| && InPhase(Before(run, n), request, Fetched(context))
    ensures k < n && ReadsAt(run, k, request, context)
  {
    if n == 0 {
      assert false;
    } else if run[n - 1].event == ReadRow(request) && InPhase(Before(run, n - 1), request, Missed) {
      k := n - 1;
    } else {
      k := FetchedWasRead(run, n - 1, request, context);
    }
  }

  lemma {:induction false} CachedWasFilled(run: seq<Timed>, n: nat, e: Entry<Context>)
    returns (k: nat, j: nat, request: int)
    requires n <= |run| && Before(run, n).slot == Some(e)
    ensures k < j < n && FillsAt(run, k, j, request, e.value) && e.expires == Some(run[j].at + TTL_MS)
    ensures forall i :: j < i < n ==> run[i].event != Invalidate
  {
    if n == 0 {
      assert false;
    } else {
      var s := Before(run, n - 1);
      var event := run[n - 1].event;
      if event.Fill? && event.request in s.requests && s.requests[event.request].Fetched? {
        request, j := event.request, n - 1;
        k := FetchedWasRead(run, n - 1, request, e.value);
      } else {
        k, j, request := CachedWasFilled(run, n - 1, e);
      }
    }
  }

  /** A context served from the cache is younger than its time to live, counted from its write. */
  ghost predicate Sourced(run: seq<Timed>, n: nat, context: Context, k: nat, j: nat, request: int)
    requires n < |run|
  {
    k < j <= n && FillsAt(run, k, j, request, context) && (j == n || run[n].at - run[j].at < TTL_MS)
  }

  /**
   * Every served context was the row at the instant k that its request read it, and
   * is served within the time to live of the write j that followed that read; a
   * missing row is reported at the instant it is found missing.
   */
  lemma ServedWasRow(run: seq<Timed>, n: nat) returns (k: nat, j: nat, request: int)
    requires n < |run| && ServedAt(run, n).Some?
    ensures ServedAt(run, n).value.None? ==> Before(run, n).row == None
    ensures ServedAt(run, n).value.Some? ==>
              && Sourced(run, n, ServedAt(run, n).value.value, k, j, request)
              && Before(run, k).row == ServedAt(run, n).value
  {
    k, j, request := 0, 0, 0;
    var s := Before(run, n);
    if ServedAt(run, n).value.Some? {
      var context := ServedAt(run, n).value.value;
      if run[n].event.Fill? {
        request, j := run[n].event.request, n;
        k := FetchedWasRead(run, n, request, context);
      } else {
        k, j, request := CachedWasFilled(run, n, s.slot.value);
      }
    }
  }

  predicate Ordered(run: seq<Timed>) {
    forall i, j :: 0 <= i <= j < |run| ==> run[i].at <= run[j].at
  }

  /** In time: the age of what is served is below the time to live plus the duration of the filling read. */
  lemma ServedAge(run: seq<Timed>, n: nat) returns (k: nat, j: nat)
    requires Ordered(run) && n < |run| && ServedAt(run, n).Some? && ServedAt(run, n).value.Some?
    ensures k < j <= n && Before(run, k).row == ServedAt(run, n).value
    ensures 0 <= run[n].at - run[k].at < 86_400_000 + (run[j].at - run[k].at)
  {
    var request;
    k, j, request := ServedWasRow(run, n);
  }

  // ----- when the guard agrees with the database

  /** Each update before n has been followed by an invalidation. */
  ghost predicate Settled(run: seq<Timed>, n: nat)
    requires n <= |run|
  {
    forall u :: 0 <= u < n && run[u].event.Update? ==> exists i :: u < i < n && run[i].event == Invalidate
  }

  /** What event n serves was read at k and written at j, and not invalidated since. */
  ghost predicate LiveFill(run: seq<Timed>, n: nat, k: nat, j: nat, request: int)
    requires n < |run|
  {
    && ServedAt(run, n).Some? && ServedAt(run, n).value.Some? && k < j <= n
    && FillsAt(run, k, j, request, ServedAt(run, n).value.value)
    && forall i :: j < i < n ==> run[i].event != Invalidate
  }

  lemma LiveFillExists(run: seq<Timed>, n: nat) returns (k: nat, j: nat, request: int)
    requires n < |run| && ServedAt(run, n).Some? && ServedAt(run, n).value.Some?
    ensures LiveFill(run, n, k, j, request)
  {
    if run[n].event.Fill? {
      request, j := run[n].event.request, n;
      k := FetchedWasRead(run, n, request, ServedAt(run, n).value.value);
    } else {
      k, j, request := CachedWasFilled(run, n, Before(run, n).slot.value);
    }
  }

  lemma {:induction false} RowUnchanged(run: seq<Timed>, k: nat, n: nat)
    requires k <= n <= |run| && forall u :: k <= u < n ==> !run[u].event.Update?
    ensures Before(run, n).row == Before(run, k).row
  {
    if k < n {
      RowUnchanged(run, k, n - 1);
    }
  }

  /** Nothing changes the row between the write that is served and the serving. */
  lemma RowSinceFill(run: seq<Timed>, n: nat, k: nat, j: nat, request: int)
    requires n < |run| && Settled(run, n) && LiveFill(run, n, k, j, request)
    ensures Before(run, n).row == Before(run, j).row
  {
    RowUnchanged(run, j, n);
  }

  /**
   * Once every update has been followed by its invalidation, a cached or freshly
   * written context is the row exactly when the row was the same at the write that
   * cached it as at the read before: what the write could check.
   */
  lemma ServedIsRowExactlyWhen(run: seq<Timed>, n: nat, k: nat, j: nat, request: int)
    requires n < |run| && Settled(run, n) && LiveFill(run, n, k, j, request)
    ensures ServedAt(run, n).value == Before(run, n).row <==> Before(run, j).row == Before(run, k).row
  {
    RowSinceFill(run, n, k, j, request);
  }

  /** No update between the read at k and the write at j is invalidated before that write. */
  ghost predicate NoMissAcross(run: seq<Timed>, k: nat, j: nat)
    requires k < j < |run|
  {
    forall u, i :: k < u < i < j && run[u].event.Update? ==> run[i].event != Invalidate
  }

  lemma UndisturbedRow(run: seq<Timed>, n: nat, k: nat, j: nat, request: int)
    requires n < |run| && Settled(run, n) && LiveFill(run, n, k, j, request) && NoMissAcross(run, k, j)
    ensures Before(run, j).row == Before(run, k).row
  {
    RowUnchanged(run, k, j);
  }

  /** In particular when the served miss was not in flight across an update and its invalidation. */
  lemma ServedIsRow(run: seq<Timed>, n: nat, k: nat, j: nat, request: int)
    requires n < |run| && Settled(run, n) && LiveFill(run, n, k, j, request) && NoMissAcross(run, k, j)
    ensures ServedAt(run, n).value == Before(run, n).row
  {
    UndisturbedRow(run, n, k, j, request);
    ServedIsRowExactlyWhen(run, n, k, j, request);
  }

  // ----- the guard

  datatype Verdict =
    | Next
    | Suspended
    | FeatureDisabled

  datatype Route = Route(prefix: string, column: Feature)

  const ROUTE_FEATURE_MAP := [
    Route("/api/public/documents", PublicSharing),
    Route("/api/public/notes", PublicSharing),
    Route("/api/documents", Documents),
    Route("/api/notes/collections", Notes),
    Route("/api/notes/tags", Notes),
    Route("/api/notes/attachments", Notes),
    Route("/api/notes", Notes),
    Route("/api/user-encryption", Encryption)
  ]

  function FirstMatch(routes: seq<Route>, path: string): Option<Route> {
    if routes == [] then None
    else if routes[0].prefix <= path then Some(routes[0])
    else FirstMatch(routes[1..], path)
  }

  /** The guard's answer for a request that carries an environment. */
  function Guard(context: Option<Context>, path: string): Verdict {
    if context.Some? && context.value.status == "suspended" then Suspended
    else
      var route := FirstMatch(ROUTE_FEATURE_MAP, path);
      if route.Some? && context.Some? && route.value.column !in context.value.features then FeatureDisabled
      else Next
  }

  /**
   * The guard decides as if it had asked the database exactly when the row at the
   * write that is served and the row at the read before decide alike.
   */
  lemma GuardAgreesExactlyWhen(run: seq<Timed>, n: nat, k: nat, j: nat, request: int, path: string)
    requires n < |run| && Settled(run, n) && LiveFill(run, n, k, j, request)
    ensures Guard(ServedAt(run, n).value, path) == Guard(Before(run, n).row, path)
       <==> Guard(Before(run, k).row, path) == Guard(Before(run, j).row, path)
  {
    RowSinceFill(run, n, k, j, request);
  }

  /** And in particular when that miss was not in flight across an update and its invalidation. */
  lemma GuardAgreesWithDatabase(run: seq<Timed>, n: nat, k: nat, j: nat, request: int, path: string)
    requires n < |run| && Settled(run, n) && LiveFill(run, n, k, j, request) && NoMissAcross(run, k, j)
    ensures Guard(ServedAt(run, n).value, path) == Guard(Before(run, n).row, path)
  {
    ServedIsRow(run, n, k, j, request);
  }

  /** Entries whose prefixes overlap name the same column. */
  ghost predicate Coherent(routes: seq<Route>) {
    forall i, j :: 0 <= i < |routes| && 0 <= j < |routes| && routes[i].prefix <= routes[j].prefix ==>
      routes[i].column == routes[j].column
  }

  lemma PrefixesOfOne(a: string, b: string, path: string)
    requires a <= path && b <= path
    ensures a <= b || b <= a
  {
    if |a| <= |b| {
      assert b[..|a|] == path[..|a|] == a;
    } else {
      assert a[..|b|] == path[..|b|] == b;
    }
  }

  lemma {:induction false} FirstMatchFinds(routes: seq<Route>, path: string)
    ensures FirstMatch(routes, path).None? <==> forall i :: 0 <= i < |routes| ==> !(routes[i].prefix <= path)
    ensures FirstMatch(routes, path).Some? ==>
              FirstMatch(routes, path).value in routes && FirstMatch(routes, path).value.prefix <= path
  {
    if routes != [] && !(routes[0].prefix <= path) {
      FirstMatchFinds(routes[1..], path);
      assert forall i :: 0 < i < |routes| ==> routes[i] == routes[1..][i - 1];
    }
  }

  /** In a coherent table the order of the entries does not matter: any match names the column. */
  lemma AnyMatchAgrees(routes: seq<Route>, path: string, r: Route)
    requires Coherent(routes) && r in routes && r.prefix <= path
    ensures FirstMatch(routes, path).Some? && FirstMatch(routes, path).value.column == r.column
  {
    FirstMatchFinds(routes, path);
    var i :| 0 <= i < |routes| && routes[i] == r;
    var first := FirstMatch(routes, path).value;
    var j :| 0 <= j < |routes| && routes[j] == first;
    PrefixesOfOne(first.prefix, r.prefix, path);
  }

  /** The note sub-routes need not precede the generic prefix: the table is coherent. */
  lemma RouteTableCoherent()
    ensures Coherent(ROUTE_FEATURE_MAP)
  {
    forall i, j | 0 <= i < |ROUTE_FEATURE_MAP| && 0 <= j < |ROUTE_FEATURE_MAP|
                  && ROUTE_FEATURE_MAP[i].prefix <= ROUTE_FEATURE_MAP[j].prefix
      ensures ROUTE_FEATURE_MAP[i].column == ROUTE_FEATURE_MAP[j].column
    {
      var a, b := ROUTE_FEATURE_MAP[i].prefix, ROUTE_FEATURE_MAP[j].prefix;
      assert a[5] == b[5] && (i < 2 ==> a[12] == b[12]);
    }
  }

  // ----- what the guard answers

  /** The feature that a path belongs to, whatever the order of the table. */
  function RequiredFeature(path: string): Option<Feature> {
    if "/api/public/documents" <= path || "/api/public/notes" <= path then Some(PublicSharing)
    else if "/api/documents" <= path then Some(Documents)
    else if "/api/notes" <= path then Some(Notes)
    else if "/api/user-encryption" <= path then Some(Encryption)
    else None
  }

  /** A path that extends a longer prefix extends the shorter one. */
  lemma ExtendsBoth(short: string, long: string, path: string)
    requires short <= long <= path
    ensures short <= path
  {
  }

  /** Where the prefixes of the table differ. */
  lemma PrefixLetters(routes: seq<Route>)
    requires routes == ROUTE_FEATURE_MAP
    ensures forall i :: 0 <= i < |routes| ==>
              |routes[i].prefix| > 5
              && routes[i].prefix[5] == (match routes[i].column
                                         case Documents => 'd'
                                         case Notes => 'n'
                                         case PublicSharing => 'p'
                                         case _ => 'u')
  {
  }

  lemma RequiredLetter(path: string)
    requires RequiredFeature(path).Some?
    ensures |path| > 5
    ensures path[5] == (match RequiredFeature(path).value
                        case Documents => 'd'
                        case Notes => 'n'
                        case PublicSharing => 'p'
                        case _ => 'u')
    ensures RequiredFeature(path).value != KnowledgeBase
  {
    var d, n, p, q, u := "/api/documents", "/api/notes", "/api/public/documents", "/api/public/notes",
                         "/api/user-encryption";
    assert d[5] == 'd' && n[5] == 'n' && p[5] == 'p' && q[5] == 'p' && u[5] == 'u';
  }

  lemma EntryRequires(routes: seq<Route>, i: nat, path: string)
    requires routes == ROUTE_FEATURE_MAP && i < |routes| && routes[i].prefix <= path
    ensures RequiredFeature(path).Some?
  {
    if routes[i].column == Notes { ExtendsBoth("/api/notes", routes[i].prefix, path); }
  }

  lemma RequiredHasEntry(routes: seq<Route>, path: string) returns (i: nat)
    requires routes == ROUTE_FEATURE_MAP && RequiredFeature(path).Some?
    ensures i < |routes| && routes[i].prefix <= path
  {
    i := if "/api/public/documents" <= path then 0
         else if "/api/public/notes" <= path then 1
         else if "/api/documents" <= path then 2
         else if "/api/notes" <= path then 6
         else 7;
  }

  lemma TableRequires(routes: seq<Route>, path: string)
    requires routes == ROUTE_FEATURE_MAP
    ensures (forall i :: 0 <= i < |routes| ==> !(routes[i].prefix <= path)) <==> RequiredFeature(path).None?
    ensures forall i :: 0 <= i < |routes| && routes[i].prefix <= path ==>
              RequiredFeature(path) == Some(routes[i].column)
  {
    PrefixLetters(routes);
    if RequiredFeature(path).Some? {
      RequiredLetter(path);
      var i := RequiredHasEntry(routes, path);
    }
    hide RequiredFeature;
    forall i: nat | i < |routes| && routes[i].prefix <= path ensures RequiredFeature(path) == Some(routes[i].column) {
      EntryRequires(routes, i, path);
      assert path[5] == routes[i].prefix[5];
      NoKnowledgeBase(routes, i);
    }
  }

  lemma NoKnowledgeBase(routes: seq<Route>, i: nat)
    requires routes == ROUTE_FEATURE_MAP && i < |routes|
    ensures routes[i].column != KnowledgeBase
  {
  }

  /**
   * Every answer of the guard: a suspended environment is turned away; otherwise a
   * path is refused exactly when the feature it belongs to is not enabled; and all
   * else, a missing environment included, goes through.
   */
  lemma VerdictExactlyWhen(context: Option<Context>, path: string)
    ensures Guard(context, path) == Suspended <==> context.Some? && context.value.status == "suspended"
    ensures Guard(context, path) == FeatureDisabled <==>
              && context.Some? && context.value.status != "suspended"
              && RequiredFeature(path).Some? && RequiredFeature(path).value !in context.value.features
    ensures Guard(context, path) == FeatureDisabled <==>
              && context.Some? && context.value.status != "suspended"
              && exists r :: r in ROUTE_FEATURE_MAP && r.prefix <= path && r.column !in context.value.features
  {
    var routes := ROUTE_FEATURE_MAP;
    FirstMatchFinds(routes, path);
    TableRequires(routes, path);
    hide RequiredFeature, FirstMatch;
    var first := FirstMatch(routes, path);
    if first.Some? {
      var i :| 0 <= i < |routes| && routes[i] == first.value;
    }
    if r :| r in routes && r.prefix <= path {
      var j :| 0 <= j < |routes| && routes[j] == r;
    }
  }

  /**
   * In every run, once each update has been invalidated and with no miss across
   * one: a path is refused exactly when the row now disables its feature.
   */
  lemma RefusedExactlyWhen(run: seq<Timed>, n: nat, k: nat, j: nat, request: int, path: string)
    requires n < |run| && Settled(run, n) && LiveFill(run, n, k, j, request) && NoMissAcross(run, k, j)
    ensures var row := Before(run, n).row;
            Guard(ServedAt(run, n).value, path) == FeatureDisabled <==>
              && row.Some? && row.value.status != "suspended"
              && RequiredFeature(path).Some? && RequiredFeature(path).value !in row.value.features
  {
    ServedIsRow(run, n, k, j, request);
    VerdictExactlyWhen(Before(run, n).row, path);
    hide Guard, RequiredFeature;
  }

  // ----- when the cache answers

  ghost predicate WritesCache(run: seq<Timed>, j: nat)
    requires j < |run|
  {
    run[j].event.Fill? && exists context :: InPhase(Before(run, j), run[j].event.request, Fetched(context))
  }

  /** The last write to the cache before n, with no invalidation since. */
  ghost predicate LastWrite(run: seq<Timed>, n: nat, j: nat)
    requires n <= |run|
  {
    j < n && WritesCache(run, j)
    && forall i: nat :: j < i < n ==> !WritesCache(run, i) && run[i].event != Invalidate
  }

  /** An event that neither writes the cache nor invalidates it leaves the last write what it was. */
  lemma LastWriteKept(run: seq<Timed>, n: nat, j: nat)
    requires n < |run| && !WritesCache(run, n) && run[n].event != Invalidate
    ensures LastWrite(run, n + 1, j) <==> LastWrite(run, n, j)
  {
    hide WritesCache;
    if LastWrite(run, n, j) {
      forall i: nat | j < i < n + 1 ensures !WritesCache(run, i) && run[i].event != Invalidate { }
    }
  }

  ghost predicate HasLastWrite(run: seq<Timed>, n: nat)
    requires n <= |run|
  {
    exists j: nat :: LastWrite(run, n, j)
  }

  lemma NothingBehind(run: seq<Timed>, to: nat, j: nat, i: nat)
    requires i < to <= |run| && LastWrite(run, to, j)
    ensures j < i ==> !WritesCache(run, i) && run[i].event != Invalidate
  {
  }

  lemma LastWriteSteps(run: seq<Timed>, n: nat, to: nat)
    requires n < |run| && to == n + 1
    ensures WritesCache(run, n) ==> HasLastWrite(run, to) && forall j: nat :: LastWrite(run, to, j) ==> j == n
    ensures run[n].event == Invalidate ==> !HasLastWrite(run, to)
    ensures !WritesCache(run, n) && run[n].event != Invalidate ==> (HasLastWrite(run, to) <==> HasLastWrite(run, n))
  {
    assert run[n].event == Invalidate ==> !WritesCache(run, n);
    hide WritesCache;
    if WritesCache(run, n) {
      assert LastWrite(run, to, n);
      forall j: nat | LastWrite(run, to, j) ensures j == n { NothingBehind(run, to, j, n); }
    } else if run[n].event == Invalidate {
      forall j: nat | LastWrite(run, to, j) ensures j == n { NothingBehind(run, to, j, n); }
    } else {
      if HasLastWrite(run, n) {
        var j: nat :| LastWrite(run, n, j);
        LastWriteKept(run, n, j);
      }
      if HasLastWrite(run, to) {
        var j: nat :| LastWrite(run, to, j);
        LastWriteKept(run, n, j);
      }
    }
  }

  /** The cache holds what the last write put there, for 24 hours, and nothing when there is none. */
  lemma {:induction false} CachedExactlyWhen(run: seq<Timed>, n: nat)
    requires n <= |run|
    ensures Before(run, n).slot.Some? <==> HasLastWrite(run, n)
    ensures forall j: nat :: LastWrite(run, n, j) ==>
              Before(run, n).slot.Some? && Before(run, n).slot.value.expires == Some(run[j].at + 86_400_000)
  {
    if n > 0 {
      CachedExactlyWhen(run, n - 1);
      CachedStep(run, n - 1);
      LastWriteSteps(run, n - 1, n);
      hide Before, Step, WritesCache, LastWrite, HasLastWrite;
      forall j: nat | LastWrite(run, n, j)
        ensures Before(run, n).slot.Some? && Before(run, n).slot.value.expires == Some(run[j].at + 86_400_000)
      {
        if !WritesCache(run, n - 1) && run[n - 1].event != Invalidate {
          LastWriteKept(run, n - 1, j);
        } else {
          LastWriteHas(run, n, j);
        }
      }
    }
  }

  lemma LastWriteHas(run: seq<Timed>, n: nat, j: nat)
    requires n <= |run| && LastWrite(run, n, j)
    ensures HasLastWrite(run, n)
  {
  }

  lemma CachedStep(run: seq<Timed>, m: nat)
    requires m < |run|
    ensures var before, after := Before(run, m).slot, Before(run, m + 1).slot;
            && (WritesCache(run, m) ==> after.Some? && after.value.expires == Some(run[m].at + 86_400_000))
            && (run[m].event == Invalidate ==> after.None?)
            && (!WritesCache(run, m) && run[m].event != Invalidate ==> after == before)
  {
    var e := run[m].event;
    if e.Fill? && e.request in Before(run, m).requests && Before(run, m).requests[e.request].Fetched? {
      assert InPhase(Before(run, m), e.request, Fetched(Before(run, m).requests[e.request].context));
    }
  }

  /** A new request is answered from the cache exactly within 24 hours of the last write that was not invalidated. */
  lemma HitExactlyWhen(run: seq<Timed>, n: nat)
    requires n < |run| && run[n].event.LookUp? && run[n].event.request !in Before(run, n).requests
    ensures ServedAt(run, n).Some? <==> exists j: nat :: LastWrite(run, n, j) && run[n].at < run[j].at + 86_400_000
  {
    CachedExactlyWhen(run, n);
    if HasLastWrite(run, n) {
      var j: nat :| LastWrite(run, n, j);
    }
  }

  // ----- a stale entry behind an invalidation

  /** A request reads, the row changes and the cache is invalidated, the request writes, and the next one is served. */
  function StaleRun(first: Context, second: Context): seq<Timed> {
    [ Timed(0, Update(Some(first))), Timed(1, Invalidate),
      Timed(2, LookUp(1)), Timed(3, ReadRow(1)),
      Timed(4, Update(Some(second))), Timed(5, Invalidate),
      Timed(6, Fill(1)), Timed(7, LookUp(2)) ]
  }

  lemma StaleRead(first: Context, second: Context)
    ensures var run := StaleRun(first, second);
            Settled(run, 7) && ServedAt(run, 7) == Some(Some(first)) && Before(run, 7).row == Some(second)
  {
    var run := StaleRun(first, second);
    assert Before(run, 1) == State(Some(first), None, map[]);
    assert Before(run, 2) == State(Some(first), None, map[]);
    assert Before(run, 3) == State(Some(first), None, map[1 := Missed]);
    assert Before(run, 4) == State(Some(first), None, map[1 := Fetched(first)]);
    assert Before(run, 5) == State(Some(second), None, map[1 := Fetched(first)]);
    assert Before(run, 6) == State(Some(second), None, map[1 := Fetched(first)]);
    assert Before(run, 7) == State(Some(second), Some(Entry(first, Some(6 + TTL_MS))), map[]);
    assert run[1].event == Invalidate && run[5].event == Invalidate;
  }
}
