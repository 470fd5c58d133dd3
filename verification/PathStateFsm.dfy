/** The path state machine of one class, with a record of the callbacks it fires. */
module PathStateFsm {
  import opened Types

  datatype WpaEventType = Connected | Disconnected | SignalChange | Terminating | Other

  datatype WpaEvent = WpaEvent(kind: WpaEventType, iface: string, rssi: int32, avgRssi: int32)

  /** Which callbacks are set. */
  datatype Callbacks = Callbacks(onPathUp: bool, onPathDown: bool, onStateChanged: bool)

  const ALL_CALLBACKS := Callbacks(true, true, true)

  datatype Call =
    | Up(iface: string, table: nat)
    | Down(iface: string, table: nat)
    | Changed(from: PathState, to: PathState, iface: string, rssi: int32)

  /** The fields an event may change; `activeIface` is empty when no path is up. */
  datatype FsmState = FsmState(state: PathState, activeIface: string)

  const INITIAL := FsmState(Idle, "")

  predicate IsDownState(s: PathState) {
    s == Idle || s == PathDown || s == Scanning || s == Connecting
  }

  predicate Live(s: PathState) {
    s == PathUp || s == PathDegraded
  }

  function NextState(current: PathState, ev: WpaEvent, t: RssiThresholds): PathState {
    match ev.kind
    case Terminating => Idle
    case Disconnected => PathDown
    case Connected =>
      if !IsDownState(current) then current
      else if ev.rssi >= t.warn then PathUp
      else if ev.rssi >= t.drop then PathDegraded
      else PathDown
    case SignalChange =>
      if current == PathUp then
        if ev.rssi < t.warn then PathDegraded else PathUp
      else if current == PathDegraded then
        if ev.rssi >= t.warn then PathUp
        else if ev.rssi < t.drop then PathDown
        else PathDegraded
      else current
    case Other => current
  }

  /** The new fields and the callbacks fired, in order. */
  function Step(s: FsmState, ev: WpaEvent, cfg: PathClassConfig, cbs: Callbacks): (FsmState, seq<Call>) {
    var next := NextState(s.state, ev, cfg.rssi);
    if next == s.state then (s, [])
    else
      var changed := if cbs.onStateChanged then [Changed(s.state, next, ev.iface, ev.rssi)] else [];
      if next == PathUp then
        (FsmState(next, ev.iface),
         (if cbs.onPathUp then [Up(ev.iface, cfg.routingTable)] else []) + changed)
      else if next == PathDown && Live(s.state) then
        (FsmState(next, ""),
         (if cbs.onPathDown && s.activeIface != "" then [Down(s.activeIface, cfg.routingTable)] else []) + changed)
      else
        (FsmState(next, s.activeIface), changed)
  }

  /** The fields and the whole callback log after a sequence of events. */
  ghost function Run(s: FsmState, evs: seq<WpaEvent>, cfg: PathClassConfig, cbs: Callbacks): (FsmState, seq<Call>) {
    if evs == [] then (s, [])
    else
      var n := |evs| - 1;
      var (before, log) := Run(s, evs[..n], cfg, cbs);
      var (after, calls) := Step(before, evs[n], cfg, cbs);
      (after, log + calls)
  }

  class PathStateFsm {
    const config: PathClassConfig
    const callbacks: Callbacks
    var state: PathState
    var activeIface: string
    ghost var log: seq<Call>

    constructor (config: PathClassConfig, callbacks: Callbacks)
      ensures this.config == config && this.callbacks == callbacks
      ensures Fields() == INITIAL && log == []
    {
      this.config, this.callbacks := config, callbacks;
      state, activeIface, log := Idle, "", [];
    }

    function Fields(): FsmState
      reads this
    {
      FsmState(state, activeIface)
    }

    /** `calls` are the callbacks fired, in order. */
    method OnWpaEvent(ev: WpaEvent) returns (calls: seq<Call>)
      modifies this
      ensures (Fields(), calls) == Step(old(Fields()), ev, config, callbacks)
      ensures log == old(log) + calls
    {
      var next := NextState(state, ev, config.rssi);
      calls := Transition(next, ev.iface, ev.rssi);
    }

    /** Does nothing without a change; otherwise the state is set first and the observer is told last. */
    method Transition(newState: PathState, iface: string, rssi: int32) returns (calls: seq<Call>)
      modifies this
      ensures log == old(log) + calls && state == newState
      ensures newState == old(state) ==> Fields() == old(Fields()) && calls == []
      ensures newState != old(state) ==>
        var changed := if callbacks.onStateChanged then [Changed(old(state), newState, iface, rssi)] else [];
        if newState == PathUp then
          && activeIface == iface
          && calls == (if callbacks.onPathUp then [Up(iface, config.routingTable)] else []) + changed
        else if newState == PathDown && Live(old(state)) then
          && activeIface == ""
          && calls == (if callbacks.onPathDown && old(activeIface) != ""
                       then [Down(old(activeIface), config.routingTable)] else []) + changed
        else activeIface == old(activeIface) && calls == changed
    {
      calls := [];
      if newState == state { return; }
      var prev := state;
      state := newState;
      if newState == PathUp {
        activeIface := iface;
        if callbacks.onPathUp {
          calls := calls + [Up(activeIface, config.routingTable)];
        }
      } else if newState == PathDown && (prev == PathUp || prev == PathDegraded) {
        if callbacks.onPathDown && activeIface != "" {
          calls := calls + [Down(activeIface, config.routingTable)];
        }
        activeIface := "";
      }
      if callbacks.onStateChanged {
        calls := calls + [Changed(prev, newState, iface, rssi)];
      }
      log := log + calls;
    }
  }

  // ---- the documented transition table ----

  /** The rows of the table in the header file, as a relation; `stays` is its last row. */
  ghost predicate Documented(from: PathState, ev: WpaEvent, t: RssiThresholds, to: PathState) {
    || (ev.kind == Disconnected && to == PathDown)
    || (ev.kind == Terminating && to == Idle)
    || (from in {Idle, PathDown} && ev.kind == Connected && ev.rssi >= t.warn && to == PathUp)
    || (from in {Idle, PathDown} && ev.kind == Connected && t.warn > ev.rssi >= t.drop && to == PathDegraded)
    || (from in {Idle, PathDown} && ev.kind == Connected && ev.rssi < t.drop && to == PathDown)
    || (from == PathUp && ev.kind == SignalChange && ev.rssi < t.warn && to == PathDegraded)
    || (from == PathDegraded && ev.kind == SignalChange && ev.rssi >= t.warn && to == PathUp)
    || (from == PathDegraded && ev.kind == SignalChange && ev.rssi < t.drop && to == PathDown)
  }

  /** Scanning and Connecting are never entered. */
  lemma {:induction false} ReachableStates(evs: seq<WpaEvent>, cfg: PathClassConfig, cbs: Callbacks)
    ensures Run(INITIAL, evs, cfg, cbs).0.state in {Idle, PathUp, PathDegraded, PathDown}
  {
    if evs != [] {
      ReachableStates(evs[..|evs| - 1], cfg, cbs);
    }
  }

  /** In every reachable state the machine takes the one row that applies, and stays put when none does. */
  lemma FollowsDocumentation(from: PathState, ev: WpaEvent, t: RssiThresholds)
    requires from in {Idle, PathUp, PathDegraded, PathDown} && t.warn > t.drop
    ensures forall to :: Documented(from, ev, t, to) ==> to == NextState(from, ev, t)
    ensures (forall to :: !Documented(from, ev, t, to)) ==> NextState(from, ev, t) == from
  {
    if NextState(from, ev, t) != from {
      assert Documented(from, ev, t, NextState(from, ev, t));
    }
  }

  // ---- callback discipline ----

  /** The interface of the latest `Up` with no `Down` after it, or the empty string. */
  function OpenIface(log: seq<Call>): string {
    if log == [] then ""
    else
      match log[|log| - 1]
      case Up(iface, _) => iface
      case Down(_, _) => ""
      case Changed(_, _, _, _) => OpenIface(log[..|log| - 1])
  }

  lemma {:induction false} OpenIfaceOfConcat(a: seq<Call>, b: seq<Call>)
    ensures OpenIface(a + b) == if exists k :: 0 <= k < |b| && !b[k].Changed? then OpenIface(b) else OpenIface(a)
  {
    if b == [] {
      assert a + b == a;
    } else {
      var n := |b| - 1;
      assert (a + b)[..|a + b| - 1] == a + b[..n];
      if b[n].Changed? {
        OpenIfaceOfConcat(a, b[..n]);
        if k :| 0 <= k < n && !b[..n][k].Changed? {
          assert !b[k].Changed?;
        }
        if k :| 0 <= k < |b| && !b[k].Changed? {
          assert !b[..n][k].Changed?;
        }
      }
    }
  }

  /** Every `Down` names the open interface, and there is one. */
  ghost predicate DownsMatch(log: seq<Call>) {
    forall i :: 0 <= i < |log| && log[i].Down? ==> log[i].iface != "" && log[i].iface == OpenIface(log[..i])
  }

  /** `activeIface` is always the interface left open by the log, and every `Down` closes it. */
  lemma {:induction false} Discipline(evs: seq<WpaEvent>, cfg: PathClassConfig, cbs: Callbacks)
    requires cbs.onPathUp && cbs.onPathDown
    requires forall k :: 0 <= k < |evs| ==> evs[k].iface != ""
    ensures var (s, log) := Run(INITIAL, evs, cfg, cbs);
      s.activeIface == OpenIface(log) && DownsMatch(log)
  {
    if evs != [] {
      var n := |evs| - 1;
      Discipline(evs[..n], cfg, cbs);
      var (before, log) := Run(INITIAL, evs[..n], cfg, cbs);
      var (after, calls) := Step(before, evs[n], cfg, cbs);
      StepDiscipline(before, evs[n], cfg, cbs);
      OpenIfaceOfConcat(log, calls);
      var whole := log + calls;
      forall i | 0 <= i < |whole| && whole[i].Down?
        ensures whole[i].iface != "" && whole[i].iface == OpenIface(whole[..i])
      {
        if i < |log| {
          assert whole[..i] == log[..i];
        } else {
          assert i == |log|;
          assert whole[..i] == log;
        }
      }
    }
  }

  lemma StepDiscipline(s: FsmState, ev: WpaEvent, cfg: PathClassConfig, cbs: Callbacks)
    requires cbs.onPathUp && cbs.onPathDown && ev.iface != ""
    ensures var (after, calls) := Step(s, ev, cfg, cbs);
      && (forall i :: 0 <= i < |calls| && calls[i].Down? ==> i == 0 && calls[0].iface == s.activeIface != "")
      && after.activeIface
         == (if exists k :: 0 <= k < |calls| && !calls[k].Changed? then OpenIface(calls) else s.activeIface)
  {
    var (after, calls) := Step(s, ev, cfg, cbs);
    if calls != [] && !calls[0].Changed? {
      if |calls| == 2 {
        assert calls[..1] == [calls[0]];
      }
    } else if NextState(s.state, ev, cfg.rssi) == PathDown && Live(s.state) {
      assert s.activeIface == "";
    }
  }

  /** A non-empty open interface was opened by an `Up` with neither `Up` nor `Down` after it. */
  lemma {:induction false} OpenedBy(log: seq<Call>) returns (k: nat)
    requires OpenIface(log) != ""
    ensures k < |log| && log[k].Up? && log[k].iface == OpenIface(log)
    ensures forall m :: k < m < |log| ==> log[m].Changed?
  {
    var n := |log| - 1;
    if log[n].Up? {
      k := n;
    } else {
      k := OpenedBy(log[..n]);
      assert forall m :: k < m < n ==> log[..n][m].Changed?;
    }
  }

  /** Each `Down` names the interface of the latest `Up`, and two `Down`s always have an `Up` between them. */
  lemma DownsAlternate(evs: seq<WpaEvent>, cfg: PathClassConfig, cbs: Callbacks, i: nat)
    requires cbs.onPathUp && cbs.onPathDown
    requires forall k :: 0 <= k < |evs| ==> evs[k].iface != ""
    requires var log := Run(INITIAL, evs, cfg, cbs).1; i < |log| && log[i].Down?
    ensures var log := Run(INITIAL, evs, cfg, cbs).1;
      exists k :: 0 <= k < i && log[k].Up? && log[k].iface == log[i].iface
                  && forall m :: k < m < i ==> log[m].Changed?
  {
    Discipline(evs, cfg, cbs);
    var log := Run(INITIAL, evs, cfg, cbs).1;
    var k := OpenedBy(log[..i]);
    assert log[..i][k] == log[k];
    forall m | k < m < i ensures log[m].Changed? {
      assert log[..i][m].Changed?;
    }
  }

  // ---- runs of signal readings ----

  ghost function Signals(rs: seq<int32>, s: PathState, t: RssiThresholds): PathState {
    if rs == [] then s
    else NextState(Signals(rs[..|rs| - 1], s, t), WpaEvent(SignalChange, "", rs[|rs| - 1], 0), t)
  }

  /** Some reading below drop directly follows one below warn. */
  ghost predicate Lost(rs: seq<int32>, t: RssiThresholds) {
    exists i :: 1 <= i < |rs| && rs[i - 1] < t.warn && rs[i] < t.drop
  }

  ghost function ClosedForm(rs: seq<int32>, t: RssiThresholds): PathState
    requires rs != []
  {
    if Lost(rs, t) then PathDown
    else if rs[|rs| - 1] >= t.warn then PathUp
    else PathDegraded
  }

  /** With warn at the very bottom no reading is below it, and the machine never leaves PathUp. */
  ghost predicate Consistent(t: RssiThresholds) {
    t.warn >= t.drop || t.warn == INT32_MIN
  }

  lemma {:induction false} SignalRun(rs: seq<int32>, t: RssiThresholds)
    requires rs != [] && Consistent(t)
    ensures Signals(rs, PathUp, t) == ClosedForm(rs, t)
  {
    var n := |rs| - 1;
    if n == 0 {
      assert rs[..0] == [];
    } else {
      var before := rs[..n];
      SignalRun(before, t);
      assert before[n - 1] == rs[n - 1];
      if i :| 1 <= i < n && before[i - 1] < t.warn && before[i] < t.drop {
        assert rs[i - 1] < t.warn && rs[i] < t.drop;
      }
      if i :| 1 <= i <= n && rs[i - 1] < t.warn && rs[i] < t.drop {
        assert i < n ==> before[i - 1] < t.warn && before[i] < t.drop;
      }
    }
  }

  /** The closed form describes every run exactly for consistent thresholds. */
  lemma SignalRunIff(t: RssiThresholds)
    ensures (forall rs: seq<int32> :: rs != [] ==> Signals(rs, PathUp, t) == ClosedForm(rs, t)) <==> Consistent(t)
  {
    if Consistent(t) {
      forall rs: seq<int32> | rs != [] ensures Signals(rs, PathUp, t) == ClosedForm(rs, t) {
        SignalRun(rs, t);
      }
    } else {
      var rs: seq<int32> := [t.warn - 1, t.warn];
      assert rs[..1] == [t.warn - 1] && rs[..1][..0] == [];
      assert Signals(rs[..1], PathUp, t) == PathDegraded;
      assert Signals(rs, PathUp, t) == PathUp;
      assert rs[0] < t.warn && rs[1] < t.drop;
      assert Lost(rs, t);
    }
  }
}
