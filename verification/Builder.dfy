/** The slot-writing methods of `src/application/builder.rs`, and `build`. */
module Builder {
  import opened Wrappers
  import opened Routing
  import opened Pipeline
  import HealthPrefix

  /**
   * One call on the builder. `Install` stands for the one method per layer kind
   * (`.cors(..)`, `.session(..)`, `.compression()`, ...); a user layer is `.layer(..)`.
   */
  datatype Call =
    | Install(layer: Layer)
    | SetHealth(enabled: bool)
    | SetHealthPrefix(prefix: string)
    | SetRedirectMapper(enabled: bool)
    | UagEndpoint(graph: nat)
    | ServeFiles(config: nat)

  datatype Settings = Settings(
    pipeline: Pipeline,
    health: bool,
    healthPrefix: string,
    redirectMapper: bool,
    uagGraph: Option<nat>)

  const EMPTY_PIPELINE := Pipeline(None, None, false, None, None, false, false, false, None, false, None, None, None,
                                   None, None, None, None, None, None, None, [], None)

  const DEFAULTS := Settings(EMPTY_PIPELINE, true, "/up", true, None)

  /** Put a layer into its slot, replacing what was there; user layers queue up. */
  function Put(p: Pipeline, l: Layer): Pipeline {
    match l
    case Compression => p.(compression := true)
    case SecurityHeaders(_) => p.(securityHeaders := Some(l))
    case Cors(_) => p.(cors := Some(l))
    case RequestId => p.(requestId := true)
    case TraceContext => p.(traceContext := true)
    case AccessLog => p.(accessLog := true)
    case Metrics(_) => p.(metrics := Some(l))
    case CatchPanic => p.(catchPanic := true)
    case ErrorMapping(_) => p.(errorMapping := Some(l))
    case BodyLimit(_) => p.(bodyLimit := Some(l))
    case Timeout(_) => p.(timeout := Some(l))
    case Maintenance(_, _) => p.(maintenance := Some(l))
    case RateLimit(_) => p.(rateLimit := Some(l))
    case Session(_) => p.(session := Some(l))
    case Csrf(_) => p.(csrf := Some(l))
    case Inertia(_) => p.(inertia := Some(l))
    case PageContracts(_) => p.(pageContracts := Some(l))
    case RedirectMapper(_) => p // no builder method installs one; `build` does
    case User(id) => p.(user := p.user + [id])
  }

  function Step(s: Settings, c: Call): Settings {
    match c
    case Install(l) => s.(pipeline := Put(s.pipeline, l))
    case SetHealth(enabled) => s.(health := enabled)
    case SetHealthPrefix(prefix) => s.(healthPrefix := prefix, health := true)
    case SetRedirectMapper(enabled) => s.(redirectMapper := enabled)
    case UagEndpoint(graph) => s.(uagGraph := Some(graph))
    case ServeFiles(config) => s.(pipeline := s.pipeline.(staticFiles := Some(config)))
  }

  function Chain(calls: seq<Call>): Settings {
    if calls == [] then DEFAULTS else Step(Chain(calls[..|calls| - 1]), calls[|calls| - 1])
  }

  /** The builder object: every call assigns its fields in place. */
  class ApplicationBuilder {
    var pipeline: Pipeline
    var health: bool
    var healthPrefix: string
    var redirectMapper: bool
    var uagGraph: Option<nat>

    function Value(): Settings reads this { Settings(pipeline, health, healthPrefix, redirectMapper, uagGraph) }

    constructor ()
      ensures Value() == DEFAULTS
    {
      pipeline := EMPTY_PIPELINE;
      health, healthPrefix := true, "/up";
      redirectMapper := true;
      uagGraph := None;
    }

    method Invoke(c: Call)
      modifies this
      ensures Value() == Step(old(Value()), c)
    {
      match c
      case Install(l) => pipeline := Put(pipeline, l);
      case SetHealth(enabled) => health := enabled;
      case SetHealthPrefix(prefix) =>
        healthPrefix := prefix;
        health := true;
      case SetRedirectMapper(enabled) => redirectMapper := enabled;
      case UagEndpoint(graph) => uagGraph := Some(graph);
      case ServeFiles(config) => pipeline := pipeline.(staticFiles := Some(config));
    }

    /** A whole chain of calls on a fresh builder. */
    method InvokeAll(calls: seq<Call>)
      requires Value() == DEFAULTS
      modifies this
      ensures Value() == Chain(calls)
    {
      for i := 0 to |calls|
        invariant Value() == Chain(calls[..i])
      {
        Invoke(calls[i]);
        assert calls[..i + 1][..i] == calls[..i];
      }
      assert calls[..|calls|] == calls;
    }
  }

  // ---------- what a chain leaves in each slot ----------

  /** Everything a call can overwrite: a documented position, or one of the builder's own fields. */
  datatype Slot = Stage(rank: nat) | HealthOn | HealthPath | RedirectOn | UagGraph | Files

  datatype Value = Layered(layer: Option<Layer>) | Flag(on: bool) | Text(text: string) | Number(number: Option<nat>)

  function Get(s: Settings, slot: Slot): Value {
    match slot
    case Stage(k) => Layered(SlotAt(s.pipeline, k))
    case HealthOn => Flag(s.health)
    case HealthPath => Text(s.healthPrefix)
    case RedirectOn => Flag(s.redirectMapper)
    case UagGraph => Number(s.uagGraph)
    case Files => Number(s.pipeline.staticFiles)
  }

  /** What a call writes to a slot, if anything. `.health_prefix(..)` writes two. */
  function Written(c: Call, slot: Slot): Option<Value> {
    match (c, slot)
    case (Install(l), Stage(k)) => if !l.User? && !l.RedirectMapper? && k == Rank(l) then Some(Layered(Some(l))) else None
    case (SetHealth(enabled), HealthOn) => Some(Flag(enabled))
    case (SetHealthPrefix(prefix), HealthOn) => Some(Flag(true))
    case (SetHealthPrefix(prefix), HealthPath) => Some(Text(prefix))
    case (SetRedirectMapper(enabled), RedirectOn) => Some(Flag(enabled))
    case (UagEndpoint(graph), UagGraph) => Some(Number(Some(graph)))
    case (ServeFiles(config), Files) => Some(Number(Some(config)))
    case _ => None
  }

  /** The last write to a slot, or its default. */
  function LastWrite(calls: seq<Call>, slot: Slot): Value {
    if calls == [] then Get(DEFAULTS, slot)
    else
      var n := |calls| - 1;
      if Written(calls[n], slot).Some? then Written(calls[n], slot).value else LastWrite(calls[..n], slot)
  }

  /** The `.layer(..)` calls, in order. */
  function UserCalls(calls: seq<Call>): seq<nat> {
    if calls == [] then []
    else
      var n := |calls| - 1;
      UserCalls(calls[..n])
      + (if calls[n].Install? && calls[n].layer.User? then [calls[n].layer.id] else [])
  }

  lemma PutSlot(p: Pipeline, l: Layer, k: nat)
    ensures SlotAt(Put(p, l), k) == if !l.User? && !l.RedirectMapper? && k == Rank(l) then Some(l) else SlotAt(p, k)
    ensures Put(p, l).user == if l.User? then p.user + [l.id] else p.user
    ensures Put(p, l).health == p.health && Put(p, l).uag == p.uag && Put(p, l).staticFiles == p.staticFiles
  {
  }

  lemma StepSlot(s: Settings, c: Call, slot: Slot)
    ensures Get(Step(s, c), slot) == if Written(c, slot).Some? then Written(c, slot).value else Get(s, slot)
  {
    match c
    case Install(l) =>
      PutSlot(s.pipeline, l, if slot.Stage? then slot.rank else 0);
    case ServeFiles(config) =>
      if slot.Stage? {
        FilesSlot(s.pipeline, config, slot.rank);
      }
    case _ =>
  }

  lemma FilesSlot(p: Pipeline, config: nat, k: nat)
    ensures SlotAt(p.(staticFiles := Some(config)), k) == SlotAt(p, k)
  {
  }

  lemma {:induction false} ChainSlot(calls: seq<Call>, slot: Slot)
    ensures Get(Chain(calls), slot) == LastWrite(calls, slot)
  {
    if calls != [] {
      var n := |calls| - 1;
      ChainSlot(calls[..n], slot);
      StepSlot(Chain(calls[..n]), calls[n], slot);
    }
  }

  lemma {:induction false} ChainFrame(calls: seq<Call>)
    ensures Chain(calls).pipeline.user == UserCalls(calls)
    ensures Chain(calls).pipeline.health == None && Chain(calls).pipeline.uag == None
  {
    if calls != [] {
      var n := |calls| - 1;
      ChainFrame(calls[..n]);
      StepFrame(Chain(calls[..n]), calls[n]);
    }
  }

  /** After any chain every slot holds its last write, and the user layers are in call order. */
  lemma ChainHoldsLastWrites(calls: seq<Call>)
    ensures forall slot :: Get(Chain(calls), slot) == LastWrite(calls, slot)
    ensures Chain(calls).pipeline.user == UserCalls(calls)
    ensures Chain(calls).pipeline.health == None && Chain(calls).pipeline.uag == None
  {
    ChainFrame(calls);
    forall slot ensures Get(Chain(calls), slot) == LastWrite(calls, slot) {
      ChainSlot(calls, slot);
    }
  }

  lemma PipelineExtensional(p: Pipeline, q: Pipeline)
    requires forall k: nat :: SlotAt(p, k) == SlotAt(q, k)
    requires p.user == q.user && p.staticFiles == q.staticFiles && p.health == q.health && p.uag == q.uag
    ensures p == q
  {
    assert SlotAt(p, 0) == SlotAt(q, 0) && SlotAt(p, 1) == SlotAt(q, 1) && SlotAt(p, 2) == SlotAt(q, 2);
    assert SlotAt(p, 3) == SlotAt(q, 3) && SlotAt(p, 4) == SlotAt(q, 4) && SlotAt(p, 5) == SlotAt(q, 5);
    assert SlotAt(p, 6) == SlotAt(q, 6) && SlotAt(p, 7) == SlotAt(q, 7) && SlotAt(p, 8) == SlotAt(q, 8);
    assert SlotAt(p, 9) == SlotAt(q, 9) && SlotAt(p, 10) == SlotAt(q, 10) && SlotAt(p, 11) == SlotAt(q, 11);
    assert SlotAt(p, 12) == SlotAt(q, 12) && SlotAt(p, 13) == SlotAt(q, 13) && SlotAt(p, 14) == SlotAt(q, 14);
    assert SlotAt(p, 15) == SlotAt(q, 15) && SlotAt(p, 16) == SlotAt(q, 16) && SlotAt(p, 17) == SlotAt(q, 17);
  }

  /** Two chains agree on the last write to every slot and on the order of their user layers. */
  ghost predicate SameEffect(a: seq<Call>, b: seq<Call>) {
    UserCalls(a) == UserCalls(b) && forall slot :: LastWrite(a, slot) == LastWrite(b, slot)
  }

  /** Call order matters only through last writes and user layers: same effect, same settings, and back. */
  lemma ChainsAgree(a: seq<Call>, b: seq<Call>)
    ensures Chain(a) == Chain(b) <==> SameEffect(a, b)
  {
    ChainHoldsLastWrites(a);
    ChainHoldsLastWrites(b);
    if SameEffect(a, b) {
      var s, t := Chain(a), Chain(b);
      forall slot ensures Get(s, slot) == Get(t, slot) {
      }
      forall k: nat ensures SlotAt(s.pipeline, k) == SlotAt(t.pipeline, k) {
        assert Get(s, Stage(k)) == Get(t, Stage(k));
      }
      assert Get(s, HealthOn) == Get(t, HealthOn) && Get(s, HealthPath) == Get(t, HealthPath);
      assert Get(s, RedirectOn) == Get(t, RedirectOn) && Get(s, UagGraph) == Get(t, UagGraph);
      assert Get(s, Files) == Get(t, Files);
      PipelineExtensional(s.pipeline, t.pipeline);
    }
  }

  // ---------- build ----------

  /** The maintenance switch learns the health prefix it must let through. */
  function Exempted(l: Layer, prefix: string): Layer {
    match l case Maintenance(switch, _) => Maintenance(switch, Some(prefix)) case _ => l
  }

  /** The slots `build` hands to `apply`; `debug` is whether the build may serve the graph endpoint. */
  function Finish(s: Settings, table: nat, debug: bool): Pipeline {
    var p := s.pipeline;
    var prefix := HealthPrefix.Normalised(s.healthPrefix);
    var p := if !s.health then p
             else p.(health := Some(prefix),
                     maintenance := match p.maintenance case None => None case Some(l) => Some(Exempted(l, prefix)));
    var p := if s.uagGraph.None? || !debug then p
             else p.(uag := Some(Uag(s.uagGraph.value, match p.pageContracts
                                     case Some(PageContracts(a)) => Some(a) case _ => None)));
    if s.redirectMapper then p.(redirectMapper := Some(RedirectMapper(table))) else p
  }

  function Build(s: Settings, router: Router, table: nat, debug: bool): Option<Router> {
    Apply(Finish(s, table, debug), router)
  }

  lemma {:induction false} ChainSane(calls: seq<Call>)
    ensures Sane(Chain(calls).pipeline)
    ensures SlotAt(Chain(calls).pipeline, 17) == None
  {
    if calls != [] {
      var n := |calls| - 1;
      ChainSane(calls[..n]);
      if calls[n].Install? {
        var p := Chain(calls[..n]).pipeline;
        forall k: nat ensures SlotAt(Put(p, calls[n].layer), k) ==
          if !calls[n].layer.User? && !calls[n].layer.RedirectMapper? && k == Rank(calls[n].layer)
          then Some(calls[n].layer) else SlotAt(p, k)
        {
          PutSlot(p, calls[n].layer, k);
        }
      } else {
        var p, q := Chain(calls[..n]).pipeline, Chain(calls).pipeline;
        assert forall k: nat :: SlotAt(q, k) == SlotAt(p, k);
      }
    }
  }

  /** `build` touches two slots: it exempts the maintenance switch and installs the redirect mapper. */
  lemma FinishSlot(s: Settings, table: nat, debug: bool, k: nat)
    ensures SlotAt(Finish(s, table, debug), k) ==
      if k == 17 && s.redirectMapper then Some(RedirectMapper(table))
      else if k == 11 && s.health && s.pipeline.maintenance.Some? then
        Some(Exempted(s.pipeline.maintenance.value, HealthPrefix.Normalised(s.healthPrefix)))
      else SlotAt(s.pipeline, k)
  {
  }

  lemma FinishSane(s: Settings, table: nat, debug: bool)
    requires Sane(s.pipeline)
    ensures Sane(Finish(s, table, debug))
  {
    var p := Finish(s, table, debug);
    forall k | 0 <= k < 18 && SlotAt(p, k).Some? ensures Rank(SlotAt(p, k).value) == k {
      FinishSlot(s, table, debug, k);
      if k == 11 {
        assert SlotAt(s.pipeline, 11) == s.pipeline.maintenance;
      }
    }
  }

  /** Where the last calls leave the health endpoints mounted, if anywhere. */
  ghost function HealthAt(calls: seq<Call>): Option<string> {
    match (LastWrite(calls, HealthOn), LastWrite(calls, HealthPath))
    case (Flag(true), Text(prefix)) => Some(HealthPrefix.Normalised(prefix))
    case _ => None
  }

  /** The graph endpoint: a debug build serves the last graph named, with the page contracts last installed. */
  ghost function GraphServed(calls: seq<Call>, debug: bool): Option<Handler> {
    match LastWrite(calls, UagGraph)
    case Number(Some(graph)) =>
      if !debug then None
      else Some(Uag(graph, match LastWrite(calls, Stage(16)) case Layered(Some(PageContracts(a))) => Some(a) case _ => None))
    case _ => None
  }

  /** The layer at a documented position: the last installed, the switch exempting the health prefix, the mapper unless off. */
  ghost function LayerAt(calls: seq<Call>, table: nat, k: nat): Option<Layer> {
    if k == 17 then if LastWrite(calls, RedirectOn) == Flag(true) then Some(RedirectMapper(table)) else None
    else
      match LastWrite(calls, Stage(k))
      case Layered(Some(Maintenance(switch, given))) =>
        Some(Maintenance(switch, if HealthAt(calls).Some? then HealthAt(calls) else given))
      case Layered(layer) => layer
      case _ => None
  }

  ghost function HealthMounted(calls: seq<Call>): map<Route, Handler> {
    match HealthAt(calls)
    case None => map[]
    case Some(prefix) => map[Route("GET", prefix) := HealthSummary, Route("GET", prefix + "/live") := HealthLive,
                             Route("GET", prefix + "/ready") := HealthReady]
  }

  ghost function GraphMounted(calls: seq<Call>, debug: bool): map<Route, Handler> {
    match GraphServed(calls, debug)
    case None => map[]
    case Some(graph) => map[Route("GET", "/_arcature/uag.json") := graph]
  }

  /** What a chain of calls promises of the router that is built from given routes. */
  ghost predicate Built(calls: seq<Call>, router: Router, table: nat, debug: bool, framework: seq<Layer>, q: Router) {
    var stack := framework + UserLayers(UserCalls(calls));
    var exempt := HealthMounted(calls) + GraphMounted(calls, debug);
    && Ascending(framework)
    && (forall l :: l in framework <==> Rank(l) < 18 && LayerAt(calls, table, Rank(l)) == Some(l))
    && q.routes.Keys == router.routes.Keys + exempt.Keys
    && (forall route <- router.routes.Keys ::
          q.routes[route] == Endpoint(stack + router.routes[route].layers, router.routes[route].handler))
    && (forall route <- exempt.Keys :: q.routes[route] == Endpoint([], exempt[route]))
    && (match LastWrite(calls, Files)
        case Number(Some(files)) => q.fallback == Endpoint(stack, StaticFiles(files)) && q.custom
        case _ => q.fallback == Endpoint(stack + router.fallback.layers, router.fallback.handler) && q.custom == router.custom)
  }

  /** What `build` sets beside the layers. */
  lemma FinishSets(s: Settings, table: nat, debug: bool)
    ensures var p := Finish(s, table, debug);
      && p.health == (if s.health then Some(HealthPrefix.Normalised(s.healthPrefix)) else s.pipeline.health)
      && p.uag == (if s.uagGraph.Some? && debug
                   then Some(Uag(s.uagGraph.value,
                                 match s.pipeline.pageContracts case Some(PageContracts(a)) => Some(a) case _ => None))
                   else s.pipeline.uag)
      && p.user == s.pipeline.user && p.staticFiles == s.pipeline.staticFiles
  {
  }

  /** The slots handed to `apply` are what the last calls ask for. */
  lemma FinishIs(calls: seq<Call>, table: nat, debug: bool)
    ensures var p := Finish(Chain(calls), table, debug);
      && p.health == HealthAt(calls) && p.uag == GraphServed(calls, debug) && p.user == UserCalls(calls)
      && LastWrite(calls, Files) == Number(p.staticFiles)
  {
    var s := Chain(calls);
    FinishSets(s, table, debug);
    ChainFrame(calls);
    assert LastWrite(calls, HealthOn) == Flag(s.health) by { ChainSlot(calls, HealthOn); }
    assert LastWrite(calls, HealthPath) == Text(s.healthPrefix) by { ChainSlot(calls, HealthPath); }
    assert LastWrite(calls, UagGraph) == Number(s.uagGraph) by { ChainSlot(calls, UagGraph); }
    assert LastWrite(calls, Files) == Number(s.pipeline.staticFiles) by { ChainSlot(calls, Files); }
    assert LastWrite(calls, Stage(16)) == Layered(s.pipeline.pageContracts) by { ChainSlot(calls, Stage(16)); }
  }

  lemma LayerIs(calls: seq<Call>, table: nat, debug: bool, k: nat)
    requires k < 18
    ensures SlotAt(Finish(Chain(calls), table, debug), k) == LayerAt(calls, table, k)
  {
    var s := Chain(calls);
    ChainSane(calls);
    ChainSlot(calls, HealthOn);
    ChainSlot(calls, HealthPath);
    ChainSlot(calls, RedirectOn);
    ChainSlot(calls, Stage(k));
    FinishSlot(s, table, debug, k);
    assert SlotAt(s.pipeline, 11) == s.pipeline.maintenance;
    assert SlotAt(s.pipeline, k).Some? ==> Rank(SlotAt(s.pipeline, k).value) == k;
  }

  /**
   * Every chain of builder calls builds the documented pipeline, or panics over an overlapping route. In
   * terms of the last calls alone: which layers the routes carry, where the health endpoints are and that
   * the maintenance switch lets them through, and that only a debug build serves the graph.
   */
  lemma BuildIsNormalForm(calls: seq<Call>, router: Router, table: nat, debug: bool)
    ensures var q := Build(Chain(calls), router, table, debug);
      && (q.Some? <==> HealthMounted(calls).Keys !! GraphMounted(calls, debug).Keys !! router.routes.Keys)
      && (q.Some? ==> exists framework :: Built(calls, router, table, debug, framework, q.value))
  {
    var p := Finish(Chain(calls), table, debug);
    FinishIs(calls, table, debug);
    ChainSane(calls);
    FinishSane(Chain(calls), table, debug);
    ApplyIsNormalForm(p, router);
    MountedKeys(calls, p, debug);
    if Apply(p, router).Some? {
      BuiltFrom(calls, router, table, debug, Somes(Slots(p)), Apply(p, router).value);
    }
  }

  lemma MountedKeys(calls: seq<Call>, p: Pipeline, debug: bool)
    requires p.health == HealthAt(calls) && p.uag == GraphServed(calls, debug)
    ensures HealthMounted(calls).Keys == HealthEndpoints(p) && GraphMounted(calls, debug).Keys == UagEndpoints(p)
  {
  }

  lemma BuiltFrom(calls: seq<Call>, router: Router, table: nat, debug: bool, framework: seq<Layer>, q: Router)
    requires RoutesApart(Finish(Chain(calls), table, debug), router)
    requires NormalForm(Finish(Chain(calls), table, debug), router, framework, q)
    ensures Built(calls, router, table, debug, framework, q)
  {
    var p := Finish(Chain(calls), table, debug);
    FinishIs(calls, table, debug);
    MountedKeys(calls, p, debug);
    AskedIs(calls, table, debug, framework);
    ExemptBuilt(calls, router, debug, p, framework, q);
  }

  lemma AskedIs(calls: seq<Call>, table: nat, debug: bool, framework: seq<Layer>)
    requires DocumentedOrder(Finish(Chain(calls), table, debug), framework)
    ensures forall l :: l in framework <==> Rank(l) < 18 && LayerAt(calls, table, Rank(l)) == Some(l)
  {
    var p := Finish(Chain(calls), table, debug);
    forall l ensures l in framework <==> Rank(l) < 18 && LayerAt(calls, table, Rank(l)) == Some(l) {
      if Rank(l) < 18 {
        LayerIs(calls, table, debug, Rank(l));
      }
      assert l in framework <==> Asked(p, l);
    }
  }

  lemma ExemptBuilt(calls: seq<Call>, router: Router, debug: bool, p: Pipeline, framework: seq<Layer>, q: Router)
    requires p.health == HealthAt(calls) && p.uag == GraphServed(calls, debug)
    requires RoutesApart(p, router) && NormalForm(p, router, framework, q)
    ensures forall route <- (HealthMounted(calls) + GraphMounted(calls, debug)).Keys ::
      route in q.routes && q.routes[route] == Endpoint([], (HealthMounted(calls) + GraphMounted(calls, debug))[route])
  {
    MountedKeys(calls, p, debug);
    var h, g := HealthMounted(calls), GraphMounted(calls, debug);
    if p.health.Some? {
      HealthRoutes(p.health.value);
    }
    forall route | route in h.Keys + g.Keys
      ensures route in q.routes && q.routes[route] == Endpoint([], (h + g)[route])
    {
      assert route in HealthEndpoints(p) + UagEndpoints(p);
      assert q.routes[route].layers == [];
    }
  }

  /** Without any call: health under `/up`, the redirect mapper, and nothing else. */
  lemma DefaultBuild(router: Router, table: nat, debug: bool)
    ensures HealthAt([]) == Some("/up") && GraphServed([], debug) == None && UserCalls([]) == []
    ensures forall k: nat :: LayerAt([], table, k) == if k == 17 then Some(RedirectMapper(table)) else None
    ensures LastWrite([], Files) == Number(None)
  {
    HealthPrefix.NormalisedIs("/up", 3);
    assert "/up"[..3] == "/up";
  }

  /** Chains of the same effect build the same router. */
  lemma BuildIgnoresCallOrder(a: seq<Call>, b: seq<Call>, router: Router, table: nat, debug: bool)
    requires SameEffect(a, b)
    ensures Build(Chain(a), router, table, debug) == Build(Chain(b), router, table, debug)
  {
    ChainsAgree(a, b);
  }

  // ---------- which two calls commute ----------

  /** Two calls may be swapped: they never write different values to one slot, nor queue different layers. */
  ghost predicate Compatible(c: Call, d: Call) {
    && (forall slot :: Written(c, slot).Some? && Written(d, slot).Some? ==> Written(c, slot) == Written(d, slot))
    && (c.Install? && d.Install? && c.layer.User? && d.layer.User? ==> c.layer == d.layer)
  }

  /** Two calls commute in every state exactly when they are compatible. */
  lemma CallsCommute(c: Call, d: Call)
    ensures (forall s :: Step(Step(s, c), d) == Step(Step(s, d), c)) <==> Compatible(c, d)
  {
    if Compatible(c, d) {
      forall s ensures Step(Step(s, c), d) == Step(Step(s, d), c) {
        SwapCompatible(s, c, d);
      }
    }
    if Step(Step(DEFAULTS, c), d) == Step(Step(DEFAULTS, d), c) {
      SwappedOnDefaults(c, d);
    }
  }

  lemma SwappedOnDefaults(c: Call, d: Call)
    requires Step(Step(DEFAULTS, c), d) == Step(Step(DEFAULTS, d), c)
    ensures Compatible(c, d)
  {
    var s := DEFAULTS;
    var cd, dc := Step(Step(s, c), d), Step(Step(s, d), c);
    forall slot | Written(c, slot).Some? && Written(d, slot).Some?
      ensures Written(c, slot) == Written(d, slot)
    {
      StepSlot(Step(s, c), d, slot);
      StepSlot(Step(s, d), c, slot);
      assert Get(cd, slot) == Written(d, slot).value && Get(dc, slot) == Written(c, slot).value;
    }
    if c.Install? && d.Install? && c.layer.User? && d.layer.User? {
      assert cd.pipeline.user == [c.layer.id, d.layer.id];
      assert dc.pipeline.user == [d.layer.id, c.layer.id];
      assert cd.pipeline.user[0] == dc.pipeline.user[0];
    }
  }

  lemma SwapCompatible(s: Settings, c: Call, d: Call)
    requires Compatible(c, d)
    ensures Step(Step(s, c), d) == Step(Step(s, d), c)
  {
    var t, u := Step(Step(s, c), d), Step(Step(s, d), c);
    forall slot ensures Get(t, slot) == Get(u, slot) {
      StepSlot(s, c, slot);
      StepSlot(s, d, slot);
      StepSlot(Step(s, c), d, slot);
      StepSlot(Step(s, d), c, slot);
    }
    forall k: nat ensures SlotAt(t.pipeline, k) == SlotAt(u.pipeline, k) {
      assert Get(t, Stage(k)) == Get(u, Stage(k));
    }
    assert Get(t, HealthOn) == Get(u, HealthOn) && Get(t, HealthPath) == Get(u, HealthPath);
    assert Get(t, RedirectOn) == Get(u, RedirectOn) && Get(t, UagGraph) == Get(u, UagGraph);
    assert Get(t, Files) == Get(u, Files);
    StepFrame(s, c);
    StepFrame(s, d);
    StepFrame(Step(s, c), d);
    StepFrame(Step(s, d), c);
    PipelineExtensional(t.pipeline, u.pipeline);
  }

  lemma StepFrame(s: Settings, c: Call)
    ensures Step(s, c).pipeline.health == s.pipeline.health && Step(s, c).pipeline.uag == s.pipeline.uag
    ensures Step(s, c).pipeline.user ==
      if c.Install? && c.layer.User? then s.pipeline.user + [c.layer.id] else s.pipeline.user
  {
    if c.Install? {
      PutSlot(s.pipeline, c.layer, 0);
    }
  }

  /** The exception: switching health off before and after naming a prefix gives different builders. */
  lemma HealthAndPrefixShareASlot(prefix: string, on: bool)
    ensures Compatible(SetHealth(on), SetHealthPrefix(prefix)) <==> on
    ensures Chain([SetHealth(on), SetHealthPrefix(prefix)]).health
    ensures Chain([SetHealthPrefix(prefix), SetHealth(on)]).health == on
  {
    var a, b := SetHealth(on), SetHealthPrefix(prefix);
    assert Written(a, HealthOn) == Some(Flag(on)) && Written(b, HealthOn) == Some(Flag(true));
    assert [a, b][..1] == [a] && [b, a][..1] == [b] && [a][..0] == [] && [b][..0] == [];
    assert Chain([a]) == Step(DEFAULTS, a) && Chain([b]) == Step(DEFAULTS, b);
  }
}
