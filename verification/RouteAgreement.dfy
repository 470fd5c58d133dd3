/** One class's state machine wired to its routing table. */
module RouteAgreement {
  import opened Types
  import opened Routes
  import opened PathStateFsm

  /** An event with the gateway found when a path comes up; 0 when none is found or the route cannot be added. */
  datatype Stimulus = Stimulus(ev: WpaEvent, gateway: nat)

  datatype Wired = Wired(fsm: FsmState, routes: RouteMap)

  function OnCall(routes: RouteMap, call: Call, gateway: nat): RouteMap {
    match call
    case Up(iface, table) => if gateway == 0 then routes else AddDefaultRoute(routes, iface, gateway, table)
    case Down(iface, table) => RemoveDefaultRoute(routes, iface, table)
    case Changed(_, _, _, _) => routes
  }

  function OnCalls(routes: RouteMap, calls: seq<Call>, gateway: nat): RouteMap
    decreases calls
  {
    if calls == [] then routes
    else OnCalls(OnCall(routes, calls[0], gateway), calls[1..], gateway)
  }

  function WiredStep(w: Wired, s: Stimulus, cfg: PathClassConfig): Wired {
    var (fsm, calls) := Step(w.fsm, s.ev, cfg, ALL_CALLBACKS);
    Wired(fsm, OnCalls(w.routes, calls, s.gateway))
  }

  ghost function WiredRun(w: Wired, ss: seq<Stimulus>, cfg: PathClassConfig): Wired {
    if ss == [] then w
    else WiredStep(WiredRun(w, ss[..|ss| - 1], cfg), ss[|ss| - 1], cfg)
  }

  ghost predicate FixedIface(ss: seq<Stimulus>, iface: string) {
    iface != "" && forall k :: 0 <= k < |ss| ==> ss[k].ev.iface == iface
  }

  /** The class's table has a default route only through the open interface. */
  ghost predicate RouteIsOpen(w: Wired, cfg: PathClassConfig, iface: string) {
    && (w.fsm.activeIface == "" || w.fsm.activeIface == iface)
    && (cfg.routingTable in w.routes ==> w.routes[cfg.routingTable].iface == w.fsm.activeIface == iface)
    && (w.fsm.state == PathUp ==> w.fsm.activeIface == iface)
  }

  ghost predicate HasRoute(w: Wired, cfg: PathClassConfig) {
    cfg.routingTable in w.routes
  }

  /** A route left in the table of a path that is not live. */
  ghost predicate Stale(w: Wired, cfg: PathClassConfig) {
    HasRoute(w, cfg) && !Live(w.fsm.state)
  }

  ghost predicate Lifts(ev: WpaEvent, t: RssiThresholds) {
    ev.kind == Connected && (ev.rssi >= t.warn || ev.rssi >= t.drop)
  }

  /** What one event does to the class's table, seen from outside. */
  lemma StepRoutes(w: Wired, s: Stimulus, cfg: PathClassConfig)
    ensures var w' := WiredStep(w, s, cfg);
      var next := NextState(w.fsm.state, s.ev, cfg.rssi);
      && w'.fsm.state == next
      && (forall t :: t != cfg.routingTable ==>
            (t in w'.routes <==> t in w.routes) && (t in w.routes ==> w'.routes[t] == w.routes[t]))
      && (if next != w.fsm.state && next == PathUp && s.gateway != 0 then
            HasRoute(w', cfg) && w'.routes[cfg.routingTable] == Route(s.ev.iface, s.gateway)
          else if next != w.fsm.state && next == PathDown && Live(w.fsm.state) && w.fsm.activeIface != ""
                  && HasRoute(w, cfg) && w.routes[cfg.routingTable].iface == w.fsm.activeIface then
            !HasRoute(w', cfg)
          else w'.routes == w.routes)
  {
    var calls := Step(w.fsm, s.ev, cfg, ALL_CALLBACKS).1;
    if |calls| == 1 {
      assert calls[1..] == [];
      assert OnCalls(w.routes, calls, s.gateway) == OnCall(w.routes, calls[0], s.gateway);
    } else if |calls| == 2 {
      assert calls[1..] == [calls[1]] && calls[1..][1..] == [];
      assert OnCalls(w.routes, calls, s.gateway)
          == OnCalls(OnCall(w.routes, calls[0], s.gateway), [calls[1]], s.gateway);
      assert OnCalls(OnCall(w.routes, calls[0], s.gateway), [calls[1]], s.gateway)
          == OnCall(w.routes, calls[0], s.gateway);
    }
  }

  /** In every run a default route in the class's table goes through the interface the machine holds open. */
  lemma {:induction false} RouteImpliesOpen(ss: seq<Stimulus>, routes: RouteMap, cfg: PathClassConfig, iface: string)
    requires FixedIface(ss, iface) && cfg.routingTable !in routes
    ensures RouteIsOpen(WiredRun(Wired(INITIAL, routes), ss, cfg), cfg, iface)
  {
    if ss != [] {
      var n := |ss| - 1;
      RouteImpliesOpen(ss[..n], routes, cfg, iface);
      StepRoutes(WiredRun(Wired(INITIAL, routes), ss[..n], cfg), ss[n], cfg);
    }
  }

  /**
   One event turns an agreeing state into a stale one exactly when it is Terminating and a route is present: that
   branch of the machine tells nobody.
   */
  lemma OnlyTerminatingStrands(w: Wired, s: Stimulus, cfg: PathClassConfig, iface: string)
    requires RouteIsOpen(w, cfg, iface) && iface != "" && s.ev.iface == iface
    requires !Stale(w, cfg)
    ensures Stale(WiredStep(w, s, cfg), cfg) <==> s.ev.kind == Terminating && HasRoute(w, cfg)
  {
    StepRoutes(w, s, cfg);
  }

  /** Event `k` was a Terminating that found a route, and nothing since has lifted the path again. */
  ghost predicate StrandedAt(ss: seq<Stimulus>, routes: RouteMap, cfg: PathClassConfig, k: nat)
    requires k < |ss|
  {
    && ss[k].ev.kind == Terminating
    && HasRoute(WiredRun(Wired(INITIAL, routes), ss[..k], cfg), cfg)
    && forall m :: k < m < |ss| ==> !Lifts(ss[m].ev, cfg.rssi)
  }

  /** A route is stale after an event if the event stranded it, or it was stale and the event did not lift the path. */
  lemma StaleStep(w: Wired, s: Stimulus, cfg: PathClassConfig, iface: string)
    requires RouteIsOpen(w, cfg, iface) && iface != "" && s.ev.iface == iface
    ensures Stale(WiredStep(w, s, cfg), cfg)
      <==> (s.ev.kind == Terminating && HasRoute(w, cfg)) || (Stale(w, cfg) && !Lifts(s.ev, cfg.rssi))
  {
    StepRoutes(w, s, cfg);
  }

  ghost predicate Stranded(ss: seq<Stimulus>, routes: RouteMap, cfg: PathClassConfig) {
    exists k :: 0 <= k < |ss| && StrandedAt(ss, routes, cfg, k)
  }

  lemma StrandedStep(ss: seq<Stimulus>, routes: RouteMap, cfg: PathClassConfig)
    requires ss != []
    ensures var n := |ss| - 1;
      Stranded(ss, routes, cfg)
      <==> || (Stranded(ss[..n], routes, cfg) && !Lifts(ss[n].ev, cfg.rssi))
           || (ss[n].ev.kind == Terminating && HasRoute(WiredRun(Wired(INITIAL, routes), ss[..n], cfg), cfg))
  {
    var n := |ss| - 1;
    forall k | 0 <= k < n
      ensures StrandedAt(ss, routes, cfg, k)
        <==> StrandedAt(ss[..n], routes, cfg, k) && !Lifts(ss[n].ev, cfg.rssi)
    {
      assert ss[..n][..k] == ss[..k];
    }
    assert StrandedAt(ss, routes, cfg, n)
      <==> ss[n].ev.kind == Terminating && HasRoute(WiredRun(Wired(INITIAL, routes), ss[..n], cfg), cfg);
  }

  /** Over whole runs: a route is stale exactly when some Terminating event stranded it. */
  lemma {:induction false} StaleIff(ss: seq<Stimulus>, routes: RouteMap, cfg: PathClassConfig, iface: string)
    requires FixedIface(ss, iface) && cfg.routingTable !in routes
    ensures Stale(WiredRun(Wired(INITIAL, routes), ss, cfg), cfg) <==> Stranded(ss, routes, cfg)
  {
    if ss != [] {
      var n := |ss| - 1;
      var w := WiredRun(Wired(INITIAL, routes), ss[..n], cfg);
      RouteImpliesOpen(ss[..n], routes, cfg, iface);
      StaleIff(ss[..n], routes, cfg, iface);
      StaleStep(w, ss[n], cfg, iface);
      StrandedStep(ss, routes, cfg);
    }
  }

  /** Without Terminating events a route implies a live path. */
  lemma RouteImpliesLive(ss: seq<Stimulus>, routes: RouteMap, cfg: PathClassConfig, iface: string)
    requires FixedIface(ss, iface) && cfg.routingTable !in routes
    requires forall k :: 0 <= k < |ss| ==> ss[k].ev.kind != Terminating
    ensures HasRoute(WiredRun(Wired(INITIAL, routes), ss, cfg), cfg)
        ==> Live(WiredRun(Wired(INITIAL, routes), ss, cfg).fsm.state)
  {
    StaleIff(ss, routes, cfg, iface);
  }
}
