/** The callbacks main installs: one event, from the machine through routing to the consumers. */
module Wiring {
  import opened Types
  import opened PathStateFsm
  import opened Routes
  import opened RouteAgreement
  import opened Registry
  import opened RoutingPolicyManager
  import opened ConsumerApiServer

  /** What one callback tells the server: a broadcast, then the state once more. */
  ghost function TellCall(s: Server, id: string, call: Call, broken: set<int>): Server {
    match call
    case Changed(_, to, iface, rssi) => SetState(LockedSend(WriteCache(s, id, to, iface, rssi), id, broken), id, to)
    case _ => s
  }

  ghost function Tell(s: Server, id: string, calls: seq<Call>, broken: set<int>): Server {
    if calls == [] then s
    else TellCall(Tell(s, id, calls[..|calls| - 1], broken), id, calls[|calls| - 1], broken)
  }

  /** The observer's second write of the state changes nothing. */
  lemma SecondWriteIsIdle(s: Server, id: string, to: PathState, iface: string, rssi: int32, broken: set<int>)
    ensures var t := LockedSend(WriteCache(s, id, to, iface, rssi), id, broken); SetState(t, id, to) == t
  {
    CacheWritesKeepClasses(s, id, to, iface, rssi, id);
  }

  lemma {:induction false} OnCallsAppend(routes: RouteMap, calls: seq<Call>, call: Call, gateway: nat)
    ensures OnCalls(routes, calls + [call], gateway) == OnCall(OnCalls(routes, calls, gateway), call, gateway)
    decreases calls
  {
    if calls == [] {
      assert calls + [call] == [call] && [call][1..] == [];
      assert OnCalls(routes, [call], gateway) == OnCalls(OnCall(routes, call, gateway), [], gateway);
    } else {
      assert (calls + [call])[1..] == calls[1..] + [call];
      OnCallsAppend(OnCall(routes, calls[0], gateway), calls[1..], call, gateway);
    }
  }

  /** Which process is in which group decides nothing else. */
  lemma TellIgnoresGroups(a: Server, b: Server, id: string, call: Call, broken: set<int>)
    requires SameButGroups(a, b)
    ensures SameButGroups(TellCall(a, id, call, broken), TellCall(b, id, call, broken))
    ensures Inv(a) <==> Inv(b)
  {
    assert forall e: ConsumerEntry :: Known(a, e.classId) <==> Known(b, e.classId);
  }

  /** Serves one callback. A route operation that fails is only logged, and so is a task file that cannot be opened. */
  method Serve(call: Call, mgr: RoutingPolicyManager, server: ConsumerApiServer, id: string, gateway: nat,
               broken: set<int>)
    requires server.Valid() && server.env == mgr.kernel.env
    modifies mgr.kernel`routes, mgr.kernel.env, server
    ensures server.Valid() && mgr.kernel.env.calls >= old(mgr.kernel.env.calls)
    ensures SameButGroups(server.Contents(), TellCall(old(server.Contents()), id, call, broken))
    ensures mgr.kernel.routes in {old(mgr.kernel.routes), OnCall(old(mgr.kernel.routes), call, gateway)}
    ensures mgr.kernel.env.Clean(old(mgr.kernel.env.calls)) ==>
      && server.Contents() == TellCall(old(server.Contents()), id, call, broken)
      && mgr.kernel.routes == OnCall(old(mgr.kernel.routes), call, gateway)
  {
    match call
    case Up(iface, table) =>
      if gateway != 0 {
        var _ := mgr.AddDefaultRoute(iface, gateway, table);
      }
    case Down(iface, table) =>
      var _ := mgr.RemoveDefaultRoute(iface, table);
    case Changed(_, to, iface, rssi) =>
      server.BroadcastPathEvent(id, to, iface, rssi, broken);
      CacheWritesKeepInv(server.Contents(), id, to, iface, rssi);
      server.UpdateCurrentState(id, to);
  }

  /** Serves the callbacks of one event, in order. */
  method ServeAll(calls: seq<Call>, mgr: RoutingPolicyManager, server: ConsumerApiServer, id: string, gateway: nat,
                  broken: set<int>)
    requires server.Valid() && server.env == mgr.kernel.env
    modifies mgr.kernel`routes, mgr.kernel.env, server
    ensures server.Valid() && mgr.kernel.env.calls >= old(mgr.kernel.env.calls)
    ensures SameButGroups(server.Contents(), Tell(old(server.Contents()), id, calls, broken))
    ensures mgr.kernel.env.Clean(old(mgr.kernel.env.calls)) ==>
      && server.Contents() == Tell(old(server.Contents()), id, calls, broken)
      && mgr.kernel.routes == OnCalls(old(mgr.kernel.routes), calls, gateway)
  {
    ghost var s, routes, from := server.Contents(), mgr.kernel.routes, mgr.kernel.env.calls;
    for k := 0 to |calls|
      invariant server.Valid() && mgr.kernel.env.calls >= from
      invariant SameButGroups(server.Contents(), Tell(s, id, calls[..k], broken))
      invariant mgr.kernel.env.Clean(from) ==>
        && server.Contents() == Tell(s, id, calls[..k], broken)
        && mgr.kernel.routes == OnCalls(routes, calls[..k], gateway)
    {
      TellNext(s, id, calls, k, broken);
      OnCallsNext(routes, calls, k, gateway);
      TellIgnoresGroups(server.Contents(), Tell(s, id, calls[..k], broken), id, calls[k], broken);
      Serve(calls[k], mgr, server, id, gateway, broken);
    }
    assert calls[..|calls|] == calls;
  }

  lemma TellNext(s: Server, id: string, calls: seq<Call>, k: nat, broken: set<int>)
    requires k < |calls|
    ensures Tell(s, id, calls[..k + 1], broken) == TellCall(Tell(s, id, calls[..k], broken), id, calls[k], broken)
  {
    assert calls[..k + 1][..k] == calls[..k];
  }

  lemma OnCallsNext(routes: RouteMap, calls: seq<Call>, k: nat, gateway: nat)
    requires k < |calls|
    ensures OnCalls(routes, calls[..k + 1], gateway) == OnCall(OnCalls(routes, calls[..k], gateway), calls[k], gateway)
  {
    assert calls[..k + 1] == calls[..k] + [calls[k]];
    OnCallsAppend(routes, calls[..k], calls[k], gateway);
  }

  /**
   One event, undisturbed: the machine steps, and when no call fails the routes are what the callbacks make of them. The
   server ends up as after one cache write and one locked send, if the state changed; calls that fail can only leave
   processes in their groups.
   */
  method OnEvent(fsm: PathStateFsm, mgr: RoutingPolicyManager, server: ConsumerApiServer, ev: WpaEvent, gateway: nat,
                 broken: set<int>)
    requires server.Valid() && fsm.callbacks == ALL_CALLBACKS && server.env == mgr.kernel.env
    modifies fsm, mgr.kernel`routes, mgr.kernel.env, server
    ensures server.Valid()
    ensures fsm.Fields() == Step(old(fsm.Fields()), ev, fsm.config, ALL_CALLBACKS).0
    ensures mgr.kernel.env.Clean(old(mgr.kernel.env.calls)) ==>
      Wired(fsm.Fields(), mgr.kernel.routes)
        == WiredStep(Wired(old(fsm.Fields()), old(mgr.kernel.routes)), Stimulus(ev, gateway), fsm.config)
    ensures var told :=
        if fsm.state == old(fsm.state) then old(server.Contents())
        else LockedSend(WriteCache(old(server.Contents()), fsm.config.id, fsm.state, ev.iface, ev.rssi),
                        fsm.config.id, broken);
      && SameButGroups(server.Contents(), told)
      && (mgr.kernel.env.Clean(old(mgr.kernel.env.calls)) ==> server.Contents() == told)
  {
    ghost var s := server.Contents();
    var calls := fsm.OnWpaEvent(ev);
    ServeAll(calls, mgr, server, fsm.config.id, gateway, broken);
    TellOnce(s, fsm.config.id, old(fsm.Fields()), ev, fsm.config, broken);
  }

  /** The callbacks of one event: none without a change, else at most one for routing, then the observer's. */
  lemma CallsShape(f: FsmState, ev: WpaEvent, cfg: PathClassConfig)
    ensures var (after, calls) := Step(f, ev, cfg, ALL_CALLBACKS);
      var told := Changed(f.state, after.state, ev.iface, ev.rssi);
      if after.state == f.state then calls == []
      else calls == [told] || (|calls| == 2 && !calls[0].Changed? && calls == [calls[0], told])
  {}

  lemma TellLast(s: Server, id: string, silent: seq<Call>, last: Call, broken: set<int>)
    requires |silent| <= 1 && forall c :: c in silent ==> !c.Changed?
    ensures Tell(s, id, silent + [last], broken) == TellCall(s, id, last, broken)
  {
    assert (silent + [last])[..|silent|] == silent;
    if silent != [] {
      assert silent[0] in silent;
      assert silent[..0] == [];
    }
  }

  /** Among the callbacks of one event exactly one, the last, speaks to the server, and only if the state changed. */
  lemma TellOnce(s: Server, id: string, f: FsmState, ev: WpaEvent, cfg: PathClassConfig, broken: set<int>)
    ensures var (after, calls) := Step(f, ev, cfg, ALL_CALLBACKS);
      Tell(s, id, calls, broken)
      == if after.state == f.state then s
         else LockedSend(WriteCache(s, id, after.state, ev.iface, ev.rssi), id, broken)
  {
    CallsShape(f, ev, cfg);
    var (after, calls) := Step(f, ev, cfg, ALL_CALLBACKS);
    if after.state != f.state {
      var silent := calls[..|calls| - 1];
      assert calls == silent + [Changed(f.state, after.state, ev.iface, ev.rssi)];
      TellLast(s, id, silent, Changed(f.state, after.state, ev.iface, ev.rssi), broken);
      SecondWriteIsIdle(s, id, after.state, ev.iface, ev.rssi, broken);
    }
  }
}
