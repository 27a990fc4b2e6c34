/** Routers as symbols: which layers a request to a path passes, outermost first, and who answers it. */
module Routing {
  import opened Wrappers

  /** A layer with the configuration it was built from. */
  datatype Layer =
    | Compression
    | SecurityHeaders(headers: nat)
    | Cors(policy: nat)
    | RequestId
    | TraceContext
    | AccessLog
    | Metrics(registry: nat)
    | CatchPanic
    | ErrorMapping(mapping: nat)
    | BodyLimit(bytes: nat)
    | Timeout(duration: nat)
    | Maintenance(switch: nat, exempt: Option<string>)
    | RateLimit(limit: nat)
    | Session(config: nat)
    | Csrf(config: nat)
    | Inertia(config: nat)
    | PageContracts(artifact: nat)
    | RedirectMapper(table: nat)
    | User(id: nat)

  datatype Handler =
    | App(id: nat) | NotFound | StaticFiles(config: nat)
    | HealthSummary | HealthLive | HealthReady
    | Uag(graph: nat, contracts: Option<nat>)

  datatype Endpoint = Endpoint(layers: seq<Layer>, handler: Handler)

  /** A method on a path. */
  datatype Route = Route(verb: string, path: string)

  /** A router: its routes, its fallback, and whether that fallback was set by someone. */
  datatype Router = Router(routes: map<Route, Endpoint>, fallback: Endpoint, custom: bool)

  function Under(layers: seq<Layer>, e: Endpoint): Endpoint { Endpoint(layers + e.layers, e.handler) }

  /** Wrap everything already on the router. */
  function WrapAll(r: Router, layers: seq<Layer>): Router {
    Router(map route | route in r.routes :: Under(layers, r.routes[route]), Under(layers, r.fallback), r.custom)
  }

  function Wrap(r: Router, l: Layer): Router { WrapAll(r, [l]) }

  /** `Router::merge`: refuses a route both have and two custom fallbacks; of two defaults the right one stays. */
  function Merge(left: Router, right: Router): Option<Router> {
    if !(left.routes.Keys !! right.routes.Keys) || (left.custom && right.custom) then None
    else Some(Router(left.routes + right.routes,
                     if left.custom then left.fallback else right.fallback,
                     left.custom || right.custom))
  }

  /**
   * Merging keeps every route of either side and the fallback of the side that set one; it is refused exactly
   * when they share a route or both have set a fallback.
   */
  lemma MergeExactly(left: Router, right: Router)
    ensures Merge(left, right).None? <==>
      (exists route <- left.routes.Keys :: route in right.routes) || (left.custom && right.custom)
    ensures Merge(left, right).Some? ==>
      var q := Merge(left, right).value;
      && q.routes.Keys == left.routes.Keys + right.routes.Keys
      && (forall route <- left.routes.Keys :: q.routes[route] == left.routes[route])
      && (forall route <- right.routes.Keys :: q.routes[route] == right.routes[route])
      && (left.custom ==> q.fallback == left.fallback) && (!left.custom ==> q.fallback == right.fallback)
      && q.custom == (left.custom || right.custom)
  {
  }

  lemma WrapAllConcat(r: Router, a: seq<Layer>, b: seq<Layer>)
    ensures WrapAll(WrapAll(r, b), a) == WrapAll(r, a + b)
  {
    forall e: Endpoint ensures Under(a, Under(b, e)) == Under(a + b, e) {
      assert a + (b + e.layers) == (a + b) + e.layers;
    }
  }

  lemma WrapNone(r: Router)
    ensures WrapAll(r, []) == r
  {
    forall e: Endpoint ensures Under([], e) == e {
      assert [] + e.layers == e.layers;
    }
  }
}

/** The slots of `src/application/pipeline.rs` and the router they are turned into. */
module Pipeline {
  import opened Wrappers
  import opened Routing

  /** The slots; a layer slot holds the layer its builder method built. */
  datatype Pipeline = Pipeline(
    health: Option<string>,
    uag: Option<Handler>,
    compression: bool,
    securityHeaders: Option<Layer>,
    cors: Option<Layer>,
    requestId: bool,
    accessLog: bool,
    traceContext: bool,
    metrics: Option<Layer>,
    catchPanic: bool,
    errorMapping: Option<Layer>,
    bodyLimit: Option<Layer>,
    timeout: Option<Layer>,
    maintenance: Option<Layer>,
    rateLimit: Option<Layer>,
    session: Option<Layer>,
    csrf: Option<Layer>,
    inertia: Option<Layer>,
    pageContracts: Option<Layer>,
    redirectMapper: Option<Layer>,
    user: seq<nat>,
    staticFiles: Option<nat>)

  const UAG_PATH := "/_arcature/uag.json"

  function WrapOpt(r: Router, slot: Option<Layer>): Router {
    match slot case None => r case Some(l) => Wrap(r, l)
  }

  function On(flag: bool, l: Layer): Option<Layer> { if flag then Some(l) else None }

  /** The fold over the user layers, last call first. */
  function WrapUser(r: Router, user: seq<nat>): Router {
    if user == [] then r else Wrap(WrapUser(r, user[1..]), User(user[0]))
  }

  function SetFallback(r: Router, files: Option<nat>): Router {
    match files
    case None => r
    case Some(config) => r.(fallback := Endpoint([], StaticFiles(config)), custom := true)
  }

  function Mounted(routes: map<Route, Endpoint>): Router {
    Router(routes, Endpoint([], NotFound), false)
  }

  /** The exempt routers answer `GET` alone. */
  function At(path: string): Route { Route("GET", path) }

  function UagRouter(uag: Handler): Router { Mounted(map[At(UAG_PATH) := Endpoint([], uag)]) }

  function HealthRouter(prefix: string): Router {
    Mounted(map[
      At(prefix) := Endpoint([], HealthSummary),
      At(prefix + "/live") := Endpoint([], HealthLive),
      At(prefix + "/ready") := Endpoint([], HealthReady)])
  }

  // The router-level stages, applied inside out exactly as the source chains them.

  /** Stages 20 to 15: redirect mapper, page contracts, Inertia, CSRF, session, rate limit. */
  function InnerStages(p: Pipeline, router: Router): Router {
    var r := WrapOpt(router, p.redirectMapper);
    var r := WrapOpt(r, p.pageContracts);
    var r := WrapOpt(r, p.inertia);
    var r := WrapOpt(r, p.csrf);
    var r := WrapOpt(r, p.session);
    WrapOpt(r, p.rateLimit)
  }

  /** Stages 14 to 9: maintenance, timeout, body limit, error mapping, panic catcher, metrics. */
  function MiddleStages(p: Pipeline, router: Router): Router {
    var r := WrapOpt(router, p.maintenance);
    var r := WrapOpt(r, p.timeout);
    var r := WrapOpt(r, p.bodyLimit);
    var r := WrapOpt(r, p.errorMapping);
    var r := WrapOpt(r, On(p.catchPanic, CatchPanic));
    WrapOpt(r, p.metrics)
  }

  /** Stages 9 to 5: access log, trace context, request id, CORS, security headers, compression. */
  function OuterStages(p: Pipeline, router: Router): Router {
    var r := WrapOpt(router, On(p.accessLog, AccessLog));
    var r := WrapOpt(r, On(p.traceContext, TraceContext));
    var r := WrapOpt(r, On(p.requestId, RequestId));
    var r := WrapOpt(r, p.cors);
    var r := WrapOpt(r, p.securityHeaders);
    WrapOpt(r, On(p.compression, Compression))
  }

  function Layered(p: Pipeline, router: Router): Router {
    var r := SetFallback(router, p.staticFiles);
    var r := WrapUser(r, p.user);
    OuterStages(p, MiddleStages(p, InnerStages(p, r)))
  }

  function MergeOpt(left: Option<Router>, right: Option<Router>): Option<Router> {
    if right.None? then None
    else if left.None? then right
    else Merge(left.value, right.value)
  }

  /** `apply`: the stages, then the two exempt routers merged beside them; `None` where axum panics. */
  function Apply(p: Pipeline, router: Router): Option<Router> {
    var r := Some(Layered(p, router));
    var r := MergeOpt(if p.uag.Some? then Some(UagRouter(p.uag.value)) else None, r);
    MergeOpt(if p.health.Some? then Some(HealthRouter(p.health.value)) else None, r)
  }

  // ---------- the documented order ----------

  /** The position of a framework layer in the documented table, outermost first. */
  function Rank(l: Layer): nat {
    match l
    case Compression => 0
    case SecurityHeaders(_) => 1
    case Cors(_) => 2
    case RequestId => 3
    case TraceContext => 4
    case AccessLog => 5
    case Metrics(_) => 6
    case CatchPanic => 7
    case ErrorMapping(_) => 8
    case BodyLimit(_) => 9
    case Timeout(_) => 10
    case Maintenance(_, _) => 11
    case RateLimit(_) => 12
    case Session(_) => 13
    case Csrf(_) => 14
    case Inertia(_) => 15
    case PageContracts(_) => 16
    case RedirectMapper(_) => 17
    case User(_) => 18
  }

  /** The slot behind each documented position. */
  function SlotAt(p: Pipeline, k: nat): Option<Layer> {
    match k
    case 0 => On(p.compression, Compression)
    case 1 => p.securityHeaders
    case 2 => p.cors
    case 3 => On(p.requestId, RequestId)
    case 4 => On(p.traceContext, TraceContext)
    case 5 => On(p.accessLog, AccessLog)
    case 6 => p.metrics
    case 7 => On(p.catchPanic, CatchPanic)
    case 8 => p.errorMapping
    case 9 => p.bodyLimit
    case 10 => p.timeout
    case 11 => p.maintenance
    case 12 => p.rateLimit
    case 13 => p.session
    case 14 => p.csrf
    case 15 => p.inertia
    case 16 => p.pageContracts
    case 17 => p.redirectMapper
    case _ => None
  }

  /** The framework layers the slots ask for, whatever their order. */
  ghost predicate Asked(p: Pipeline, l: Layer) { SlotAt(p, Rank(l)) == Some(l) }

  ghost predicate Ascending(layers: seq<Layer>) {
    forall i, j :: 0 <= i < j < |layers| ==> Rank(layers[i]) < Rank(layers[j])
  }

  /** Outermost first: exactly the asked-for framework layers, in strictly increasing documented position. */
  ghost predicate DocumentedOrder(p: Pipeline, framework: seq<Layer>) {
    && (forall l :: l in framework <==> Asked(p, l))
    && Ascending(framework)
  }

  /** A slot struct as the builder fills it: every slot holds a layer of its own kind. */
  ghost predicate Sane(p: Pipeline) {
    forall k :: 0 <= k < 18 && SlotAt(p, k).Some? ==> Rank(SlotAt(p, k).value) == k
  }

  function UserLayers(user: seq<nat>): seq<Layer> {
    seq(|user|, i requires 0 <= i < |user| => User(user[i]))
  }

  ghost predicate AscendingBy<T>(rank: T -> nat, s: seq<T>) {
    forall i, j :: 0 <= i < j < |s| ==> rank(s[i]) < rank(s[j])
  }

  lemma HeadIsIn<T>(s: seq<T>)
    ensures s != [] ==> s[0] in s
  {
  }

  lemma {:induction false} AscendingIsUnique<T(!new)>(rank: T -> nat, a: seq<T>, b: seq<T>)
    requires forall x :: x in a <==> x in b
    requires AscendingBy(rank, a) && AscendingBy(rank, b)
    ensures a == b
  {
    HeadIsIn(a);
    HeadIsIn(b);
    if a != [] {
      var i :| 0 <= i < |b| && b[i] == a[0];
      var j :| 0 <= j < |a| && a[j] == b[0];
      assert a[0] == b[0];
      var a', b' := a[1..], b[1..];
      assert forall i :: 0 <= i < |a'| ==> a'[i] == a[i + 1] && rank(a[0]) < rank(a'[i]);
      assert forall i :: 0 <= i < |b'| ==> b'[i] == b[i + 1] && rank(b[0]) < rank(b'[i]);
      assert a[0] !in a' && b[0] !in b';
      forall x ensures x in a' <==> x in b' {
        assert x in a <==> x == a[0] || x in a';
        assert x in b <==> x == b[0] || x in b';
      }
      AscendingIsUnique(rank, a', b');
    }
  }

  /** The documented order leaves no freedom: the slots determine the list. */
  lemma OrderIsUnique(p: Pipeline, a: seq<Layer>, b: seq<Layer>)
    requires DocumentedOrder(p, a) && DocumentedOrder(p, b)
    ensures a == b
  {
    AscendingIsUnique(l => Rank(l), a, b);
  }

  // ---------- the stages as one list ----------

  function Slots(p: Pipeline): (s: seq<Option<Layer>>)
    ensures |s| == 18
  {
    seq(18, k requires 0 <= k => SlotAt(p, k))
  }

  function Somes<T>(slots: seq<Option<T>>): seq<T> {
    if slots == [] then []
    else (if slots[0].Some? then [slots[0].value] else []) + Somes(slots[1..])
  }

  function WrapSlots(r: Router, slots: seq<Option<Layer>>): Router {
    if slots == [] then r else WrapOpt(WrapSlots(r, slots[1..]), slots[0])
  }

  lemma {:induction false} WrapSlotsIsWrapAll(r: Router, slots: seq<Option<Layer>>)
    ensures WrapSlots(r, slots) == WrapAll(r, Somes(slots))
  {
    if slots == [] {
      WrapNone(r);
    } else {
      WrapSlotsIsWrapAll(r, slots[1..]);
      if slots[0].Some? {
        WrapAllConcat(r, [slots[0].value], Somes(slots[1..]));
      } else {
        assert [] + Somes(slots[1..]) == Somes(slots[1..]);
      }
    }
  }

  lemma {:induction false} WrapUserIsWrapAll(r: Router, user: seq<nat>)
    ensures WrapUser(r, user) == WrapAll(r, UserLayers(user))
  {
    if user == [] {
      WrapNone(r);
    } else {
      WrapUserIsWrapAll(r, user[1..]);
      WrapAllConcat(r, [User(user[0])], UserLayers(user[1..]));
      assert UserLayers(user) == [User(user[0])] + UserLayers(user[1..]);
    }
  }

  lemma {:induction false} WrapSlotsConcat(r: Router, a: seq<Option<Layer>>, b: seq<Option<Layer>>)
    ensures WrapSlots(r, a + b) == WrapSlots(WrapSlots(r, b), a)
  {
    if a == [] {
      assert a + b == b;
    } else {
      assert (a + b)[1..] == a[1..] + b;
      WrapSlotsConcat(r, a[1..], b);
    }
  }

  lemma WrapSix(r: Router, s: seq<Option<Layer>>)
    requires |s| == 6
    ensures WrapSlots(r, s) ==
      WrapOpt(WrapOpt(WrapOpt(WrapOpt(WrapOpt(WrapOpt(r, s[5]), s[4]), s[3]), s[2]), s[1]), s[0])
  {
    Unroll(r, s, 5);
    Unroll(r, s, 4);
    Unroll(r, s, 3);
    Unroll(r, s, 2);
    Unroll(r, s, 1);
    Unroll(r, s, 0);
    assert s[6..] == [] && s[0..] == s;
  }

  lemma Unroll(r: Router, s: seq<Option<Layer>>, i: nat)
    requires i < |s|
    ensures WrapSlots(r, s[i..]) == WrapOpt(WrapSlots(r, s[i + 1..]), s[i])
  {
    assert s[i..][1..] == s[i + 1..];
  }

  /** The source's chain is the list of slots, applied from the last to the first. */
  lemma ChainIsSlots(p: Pipeline, r: Router)
    ensures OuterStages(p, MiddleStages(p, InnerStages(p, r))) == WrapSlots(r, Slots(p))
  {
    var s := Slots(p);
    var outer, middle, inner := s[..6], s[6..12], s[12..];
    WrapSix(r, inner);
    WrapSix(InnerStages(p, r), middle);
    WrapSix(MiddleStages(p, InnerStages(p, r)), outer);
    WrapSlotsConcat(r, middle, inner);
    WrapSlotsConcat(r, outer, middle + inner);
    assert s == outer + (middle + inner);
  }

  lemma {:induction false} SomesMembers<T>(slots: seq<Option<T>>)
    ensures forall x :: x in Somes(slots) <==> Some(x) in slots
  {
    if slots != [] {
      var rest := slots[1..];
      SomesMembers(rest);
      assert slots == [slots[0]] + rest;
      assert forall x :: Some(x) in slots <==> slots[0] == Some(x) || Some(x) in rest;
    }
  }

  /** Slots whose values sit at their own rank are read off in strictly increasing rank. */
  lemma {:induction false} SomesAscending<T>(rank: T -> nat, slots: seq<Option<T>>, base: nat)
    requires forall i :: 0 <= i < |slots| && slots[i].Some? ==> rank(slots[i].value) == base + i
    ensures forall x <- Somes(slots) :: base <= rank(x)
    ensures AscendingBy(rank, Somes(slots))
  {
    if slots != [] {
      var rest := slots[1..];
      assert forall i :: 0 <= i < |rest| ==> rest[i] == slots[i + 1];
      SomesAscending(rank, rest, base + 1);
      var f, g := Somes(slots), Somes(rest);
      if slots[0].Some? {
        assert f == [slots[0].value] + g;
        assert forall j :: 1 <= j < |f| ==> f[j] == g[j - 1] && f[j] in g;
      } else {
        assert f == [] + g == g;
      }
    }
  }

  lemma SlotsAreAsked(p: Pipeline, l: Layer)
    requires Sane(p)
    ensures Some(l) in Slots(p) <==> Asked(p, l)
  {
    if Asked(p, l) {
      assert Slots(p)[Rank(l)] == Some(l);
    }
    if Some(l) in Slots(p) {
      var k :| 0 <= k < 18 && Slots(p)[k] == Some(l);
      assert SlotAt(p, k) == Some(l);
    }
  }

  lemma AscendingRanks(layers: seq<Layer>)
    requires AscendingBy(l => Rank(l), layers)
    ensures Ascending(layers)
  {
    var rank := (l: Layer) => Rank(l);
    assert forall i, j :: 0 <= i < j < |layers| ==> rank(layers[i]) < rank(layers[j]);
  }

  lemma StagesAreDocumented(p: Pipeline)
    requires Sane(p)
    ensures DocumentedOrder(p, Somes(Slots(p)))
  {
    SomesMembers(Slots(p));
    SomesAscending(l => Rank(l), Slots(p), 0);
    AscendingRanks(Somes(Slots(p)));
    forall l ensures l in Somes(Slots(p)) <==> Asked(p, l) {
      SlotsAreAsked(p, l);
    }
  }

  // ---------- the normal form ----------

  ghost function HealthEndpoints(p: Pipeline): set<Route> {
    if p.health.None? then {} else {At(p.health.value), At(p.health.value + "/live"), At(p.health.value + "/ready")}
  }

  ghost function UagEndpoints(p: Pipeline): set<Route> { if p.uag.None? then {} else {At(UAG_PATH)} }

  /** The routes of the exempt routers and of the application do not meet. */
  ghost predicate RoutesApart(p: Pipeline, router: Router) {
    && HealthEndpoints(p) !! UagEndpoints(p) !! router.routes.Keys
  }

  /** What `apply` promises of the router it returns. */
  ghost predicate NormalForm(p: Pipeline, router: Router, framework: seq<Layer>, q: Router) {
    var stack := framework + UserLayers(p.user);
    && DocumentedOrder(p, framework)
    && q.routes.Keys == router.routes.Keys + HealthEndpoints(p) + UagEndpoints(p)
    // Every application route carries the whole stack, user layers next to the route's own.
    && (forall route <- router.routes.Keys :: q.routes[route] == Under(stack, router.routes[route]))
    // The fallback carries the same stack, whether it is the file server or the routes' own.
    && q.fallback == (match p.staticFiles
        case Some(config) => Endpoint(stack, StaticFiles(config))
        case None => Under(stack, router.fallback))
    && q.custom == (router.custom || p.staticFiles.Some?)
    // The exempt routes carry no layer at all.
    && (forall route <- HealthEndpoints(p) + UagEndpoints(p) :: q.routes[route].layers == [])
    && (p.uag.Some? ==> q.routes[At(UAG_PATH)].handler == p.uag.value)
    && (p.health.Some? ==>
        && q.routes[At(p.health.value)].handler == HealthSummary
        && q.routes[At(p.health.value + "/live")].handler == HealthLive
        && q.routes[At(p.health.value + "/ready")].handler == HealthReady)
  }

  lemma LayeredIs(p: Pipeline, router: Router)
    ensures Layered(p, router) ==
      WrapAll(SetFallback(router, p.staticFiles), Somes(Slots(p)) + UserLayers(p.user))
  {
    var base := SetFallback(router, p.staticFiles);
    ChainIsSlots(p, WrapUser(base, p.user));
    WrapUserIsWrapAll(base, p.user);
    WrapSlotsIsWrapAll(WrapUser(base, p.user), Slots(p));
    WrapAllConcat(base, Somes(Slots(p)), UserLayers(p.user));
  }

  lemma HealthRoutes(prefix: string)
    ensures var routes := HealthRouter(prefix).routes;
      && routes.Keys == {At(prefix), At(prefix + "/live"), At(prefix + "/ready")}
      && routes[At(prefix)] == Endpoint([], HealthSummary)
      && routes[At(prefix + "/live")] == Endpoint([], HealthLive)
      && routes[At(prefix + "/ready")] == Endpoint([], HealthReady)
  {
    assert |prefix + "/live"| == |prefix| + 5 && |prefix + "/ready"| == |prefix| + 6;
  }

  /** The two exempt routers as one: what is merged beside the application. */
  ghost function ExemptRoutes(p: Pipeline): map<Route, Endpoint> {
    (if p.health.Some? then HealthRouter(p.health.value).routes else map[])
    + (if p.uag.Some? then UagRouter(p.uag.value).routes else map[])
  }

  lemma MergeBeside(p: Pipeline, app: Router)
    ensures var q := MergeOpt(if p.health.Some? then Some(HealthRouter(p.health.value)) else None,
                       MergeOpt(if p.uag.Some? then Some(UagRouter(p.uag.value)) else None, Some(app)));
      && (q.Some? <==> HealthEndpoints(p) !! UagEndpoints(p) !! app.routes.Keys)
      && (q.Some? ==> q.value == Router(ExemptRoutes(p) + app.routes, app.fallback, app.custom))
  {
    if p.health.Some? {
      HealthRoutes(p.health.value);
    }
    if p.uag.Some? {
      assert UagRouter(p.uag.value).routes.Keys == UagEndpoints(p);
    }
  }

  lemma ExemptAre(p: Pipeline)
    requires HealthEndpoints(p) !! UagEndpoints(p)
    ensures ExemptRoutes(p).Keys == HealthEndpoints(p) + UagEndpoints(p)
    ensures forall route <- ExemptRoutes(p).Keys :: ExemptRoutes(p)[route].layers == []
    ensures p.uag.Some? ==> ExemptRoutes(p)[At(UAG_PATH)].handler == p.uag.value
    ensures p.health.Some? ==>
      && ExemptRoutes(p)[At(p.health.value)].handler == HealthSummary
      && ExemptRoutes(p)[At(p.health.value + "/live")].handler == HealthLive
      && ExemptRoutes(p)[At(p.health.value + "/ready")].handler == HealthReady
  {
    if p.health.Some? {
      HealthRoutes(p.health.value);
      assert At(p.health.value) in HealthEndpoints(p) && At(p.health.value + "/live") in HealthEndpoints(p)
             && At(p.health.value + "/ready") in HealthEndpoints(p);
    }
  }

  lemma AppIs(p: Pipeline, router: Router, stack: seq<Layer>)
    requires stack == Somes(Slots(p)) + UserLayers(p.user)
    ensures var app := Layered(p, router);
      && app.routes.Keys == router.routes.Keys && app.custom == (router.custom || p.staticFiles.Some?)
      && (forall route <- router.routes.Keys :: app.routes[route] == Under(stack, router.routes[route]))
      && app.fallback == (match p.staticFiles
          case Some(config) => Endpoint(stack, StaticFiles(config))
          case None => Under(stack, router.fallback))
  {
    LayeredIs(p, router);
    assert stack + [] == stack;
  }

  /** `apply` panics exactly when routes overlap, and otherwise returns the documented normal form. */
  lemma ApplyIsNormalForm(p: Pipeline, router: Router)
    requires Sane(p)
    ensures Apply(p, router).Some? <==> RoutesApart(p, router)
    ensures Apply(p, router).Some? ==> NormalForm(p, router, Somes(Slots(p)), Apply(p, router).value)
  {
    var app := Layered(p, router);
    StagesAreDocumented(p);
    AppIs(p, router, Somes(Slots(p)) + UserLayers(p.user));
    MergeBeside(p, app);
    assert Apply(p, router).Some? <==> RoutesApart(p, router);
    if RoutesApart(p, router) {
      ExemptAre(p);
      MergedIs(p, router, Somes(Slots(p)), app, ExemptRoutes(p), Apply(p, router).value);
    }
  }

  lemma MergedIs(p: Pipeline, router: Router, framework: seq<Layer>, app: Router,
                 exempt: map<Route, Endpoint>, q: Router)
    requires RoutesApart(p, router) && DocumentedOrder(p, framework)
    requires q == Router(exempt + app.routes, app.fallback, app.custom)
    requires app.routes.Keys == router.routes.Keys && app.custom == (router.custom || p.staticFiles.Some?)
    requires forall route <- router.routes.Keys ::
      app.routes[route] == Under(framework + UserLayers(p.user), router.routes[route])
    requires app.fallback == (match p.staticFiles
        case Some(config) => Endpoint(framework + UserLayers(p.user), StaticFiles(config))
        case None => Under(framework + UserLayers(p.user), router.fallback))
    requires exempt.Keys == HealthEndpoints(p) + UagEndpoints(p)
    requires forall route <- exempt.Keys :: exempt[route].layers == []
    requires p.uag.Some? ==> exempt[At(UAG_PATH)].handler == p.uag.value
    requires p.health.Some? ==>
      && exempt[At(p.health.value)].handler == HealthSummary
      && exempt[At(p.health.value + "/live")].handler == HealthLive
      && exempt[At(p.health.value + "/ready")].handler == HealthReady
    ensures NormalForm(p, router, framework, q)
  {
    assert forall route <- exempt.Keys :: q.routes[route] == exempt[route];
    assert forall route <- router.routes.Keys :: q.routes[route] == app.routes[route];
  }
}
