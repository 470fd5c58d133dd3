/**
 The running daemon: one monitor thread per class and the server thread, interleaved step by step. A broadcast is split
 into its unlocked cache write and its locked send, a registration into its locked push and the rest.
 */
module Daemon {
  import opened Types
  import opened Framing
  import opened PathStateFsm
  import opened Routes
  import opened RouteAgreement
  import opened Registry

  /** What a monitor thread still has to do for the transition it is in. */
  datatype Pc =
    | Ready
    | CacheDue(shown: Shown)
    | SendDue(shown: Shown)
    | FinishDue(to: PathState)

  /** What the cache shows of a class. */
  datatype Shown = Shown(state: PathState, iface: string, rssi: int32)

  const NOTHING_SHOWN := Shown(Idle, "", 0)

  datatype Monitor = Monitor(fsm: FsmState, pc: Pc)

  /** A registration whose entry is pushed and whose acknowledgement is still to come. */
  datatype Pending = Pending(fd: int, pid: int, id: string, handle: uint64)

  datatype Event = Event(id: string, shown: Shown)

  /**
   `log` lists the locked broadcasts; `pushedAt`, `sent` and `acked` record for each handle how long the log was when
   its entry was pushed, the events sent to it, and the state it was acknowledged with.
   */
  datatype State = State(
    mons: seq<Monitor>,
    server: Server,
    routes: RouteMap,
    pending: Option<Pending>,
    log: seq<Event>,
    pushedAt: map<uint64, nat>,
    sent: map<uint64, seq<Event>>,
    acked: map<uint64, PathState>)

  datatype Label =
    | Begin(i: nat, stimulus: Stimulus)
    | CacheWrite(i: nat)
    | Send(i: nat, broken: set<int>)
    | Finish(i: nat)
    | PushEntry(fd: int, pid: int, id: string)
    | Acknowledge
    | RemoveHandle(handle: uint64)
    | RemoveFd(fd: int)

  function Initial(classes: seq<PathClassConfig>): State {
    State(seq(|classes|, _ => Monitor(INITIAL, Ready)), InitialServer(classes), map[], None, [], map[], map[], map[])
  }

  predicate OfMonitor(l: Label) {
    l.Begin? || l.CacheWrite? || l.Send? || l.Finish?
  }

  /** The server thread handles one message at a time. Registrations are followed until the handle counter wraps. */
  predicate Enabled(s: State, l: Label) {
    match l
    case Begin(i, _) => i < |s.mons| && s.mons[i].pc.Ready?
    case CacheWrite(i) => i < |s.mons| && s.mons[i].pc.CacheDue?
    case Send(i, _) => i < |s.mons| && s.mons[i].pc.SendDue?
    case Finish(i) => i < |s.mons| && s.mons[i].pc.FinishDue?
    case PushEntry(_, _, _) => s.pending.None? && s.server.nextHandle < TWO64 - 1
    case Acknowledge => s.pending.Some?
    case RemoveHandle(_) => s.pending.None?
    case RemoveFd(_) => s.pending.None?
  }

  ghost predicate Reaches(reg: seq<ConsumerEntry>, h: uint64, id: string, broken: set<int>) {
    exists e :: e in reg && e.handle == h && e.classId == id && e.fd !in broken
  }

  ghost function Delivered(s: State, ev: Event, broken: set<int>): map<uint64, seq<Event>> {
    map h | h in s.sent ::
      if Reaches(s.server.registry, h, ev.id, broken) then s.sent[h] + [ev] else s.sent[h]
  }

  ghost function CachedState(s: Server, id: string): PathState {
    match FindClass(s.classStates, id)
    case None => Idle
    case Some(k) => s.classStates[k].state
  }

  ghost function Next(s: State, l: Label, classes: seq<PathClassConfig>): State
    requires Enabled(s, l) && |s.mons| == |classes|
  {
    match l
    case Begin(i, st) =>
      var w := WiredStep(Wired(s.mons[i].fsm, s.routes), st, classes[i]);
      var pc := if w.fsm.state == s.mons[i].fsm.state then Ready
                else CacheDue(Shown(w.fsm.state, st.ev.iface, st.ev.rssi));
      s.(mons := s.mons[i := Monitor(w.fsm, pc)], routes := w.routes)
    case CacheWrite(i) =>
      var m := s.mons[i];
      s.(mons := s.mons[i := m.(pc := SendDue(m.pc.shown))],
         server := WriteCache(s.server, classes[i].id, m.pc.shown.state, m.pc.shown.iface, m.pc.shown.rssi))
    case Send(i, broken) =>
      var m := s.mons[i];
      var ev := Event(classes[i].id, m.pc.shown);
      s.(mons := s.mons[i := m.(pc := FinishDue(m.pc.shown.state))],
         server := LockedSend(s.server, classes[i].id, broken),
         log := s.log + [ev],
         sent := Delivered(s, ev, broken))
    case Finish(i) =>
      var m := s.mons[i];
      s.(mons := s.mons[i := m.(pc := Ready)], server := SetState(s.server, classes[i].id, m.pc.to))
    case PushEntry(fd, pid, id) =>
      if !Known(s.server, id) then s
      else
        var h := s.server.nextHandle;
        s.(server := Push(s.server, fd, pid, id), pending := Some(Pending(fd, pid, id, h)),
           pushedAt := s.pushedAt[h := |s.log|], sent := s.sent[h := []])
    case Acknowledge =>
      var p := s.pending.value;
      s.(server := Assign(s.server, p.id, p.pid), pending := None,
         acked := s.acked[p.handle := CachedState(s.server, p.id)])
    case RemoveHandle(handle) => s.(server := Unregister(s.server, handle))
    case RemoveFd(fd) => s.(server := Disconnect(s.server, fd))
  }

  /** `s` is reached from the start by `labels`, in that order. */
  ghost predicate Runs(classes: seq<PathClassConfig>, labels: seq<Label>, s: State)
    decreases labels
  {
    if labels == [] then s == Initial(classes)
    else
      exists before ::
        && Runs(classes, labels[..|labels| - 1], before) && |before.mons| == |classes|
        && Enabled(before, labels[|labels| - 1]) && s == Next(before, labels[|labels| - 1], classes)
  }

  /** The events of class `i`'s monitor, in order, with the gateways found. */
  function Stimuli(labels: seq<Label>, i: nat): seq<Stimulus> {
    if labels == [] then []
    else
      var l := labels[|labels| - 1];
      Stimuli(labels[..|labels| - 1], i) + if l.Begin? && l.i == i then [l.stimulus] else []
  }

  /** Class `i`'s machine and routes run alone, one event after the other. */
  ghost function Alone(ss: seq<Stimulus>, c: PathClassConfig): Wired {
    WiredRun(Wired(INITIAL, map[]), ss, c)
  }

  /** State, interface and rssi of the last transition. */
  ghost function LastShown(ss: seq<Stimulus>, c: PathClassConfig): Shown {
    if ss == [] then NOTHING_SHOWN
    else
      var n := |ss| - 1;
      var before, after := Alone(ss[..n], c).fsm.state, Alone(ss, c).fsm.state;
      if before == after then LastShown(ss[..n], c) else Shown(after, ss[n].ev.iface, ss[n].ev.rssi)
  }

  /** The transitions a class makes on these events when it runs alone, as they are to be broadcast. */
  ghost function Transitions(ss: seq<Stimulus>, c: PathClassConfig): seq<Event> {
    if ss == [] then []
    else
      var n := |ss| - 1;
      var before, after := Alone(ss[..n], c).fsm.state, Alone(ss, c).fsm.state;
      Transitions(ss[..n], c)
      + if before == after then [] else [Event(c.id, Shown(after, ss[n].ev.iface, ss[n].ev.rssi))]
  }

  /** Of those, the ones broadcast by the time the class's thread is at `pc`: all but one it still has to send. */
  ghost function Broadcasts(ss: seq<Stimulus>, c: PathClassConfig, pc: Pc): seq<Event> {
    var all := Transitions(ss, c);
    if (pc.CacheDue? || pc.SendDue?) && all != [] then all[..|all| - 1] else all
  }

  /** The broadcasts of one class, in order. */
  function EventsOf(log: seq<Event>, id: string): seq<Event> {
    if log == [] then []
    else EventsOf(log[..|log| - 1], id) + if log[|log| - 1].id == id then [log[|log| - 1]] else []
  }

  function RouteAt(routes: RouteMap, table: nat): Option<Route> {
    if table in routes then Some(routes[table]) else None
  }

  function ShownIn(c: ClassState): Shown {
    Shown(c.state, c.activeIface, c.rssi)
  }

  /** What the last broadcast of a class said. */
  function LastLogged(log: seq<Event>, id: string): Shown {
    if log == [] then NOTHING_SHOWN
    else if log[|log| - 1].id == id then log[|log| - 1].shown
    else LastLogged(log[..|log| - 1], id)
  }

  // ---- each class runs as if alone ----

  ghost predicate Shape(s: State, classes: seq<PathClassConfig>) {
    && |s.mons| == |classes| == |s.server.classStates|
    && forall k :: 0 <= k < |classes| ==>
         && s.server.classStates[k].classId == classes[k].id
         && s.server.classStates[k].cgroupPath == classes[k].cgroupPath
  }

  /** Class `i` against its own events: machine, route, cache and log, wherever its thread is. */
  ghost predicate ClassInv(s: State, classes: seq<PathClassConfig>, i: nat, ss: seq<Stimulus>)
    requires Shape(s, classes) && i < |classes|
  {
    var c := classes[i];
    var cache, logged, last := ShownIn(s.server.classStates[i]), LastLogged(s.log, c.id), LastShown(ss, c);
    && s.mons[i].fsm == Alone(ss, c).fsm
    && RouteAt(s.routes, c.routingTable) == RouteAt(Alone(ss, c).routes, c.routingTable)
    && last.state == s.mons[i].fsm.state
    && match s.mons[i].pc
       case Ready => cache == logged == last
       case CacheDue(shown) => cache == logged && shown == last
       case SendDue(shown) => cache == shown == last
       case FinishDue(to) => cache == logged == last && to == last.state
  }

  /** The log holds exactly the class's own transitions, once each and in order; one still to be sent is the last. */
  ghost predicate LogInv(s: State, classes: seq<PathClassConfig>, i: nat, ss: seq<Stimulus>)
    requires |s.mons| == |classes| && i < |classes|
  {
    var c, pc := classes[i], s.mons[i].pc;
    var all := Transitions(ss, c);
    && EventsOf(s.log, c.id) == Broadcasts(ss, c, pc)
    && (pc.CacheDue? || pc.SendDue? ==> all != [] && all[|all| - 1] == Event(c.id, pc.shown))
  }

  lemma IndexOfClass(s: State, classes: seq<PathClassConfig>, i: nat)
    requires Distinct(classes) && Shape(s, classes) && i < |classes|
    ensures FindClass(s.server.classStates, classes[i].id) == Some(i)
  {
    assert s.server.classStates[i].classId == classes[i].id;
    forall k | 0 <= k < |classes| && k != i ensures s.server.classStates[k].classId != classes[i].id {
      assert s.server.classStates[k].classId == classes[k].id;
      assert k < i ==> classes[k].id != classes[i].id;
    }
  }

  lemma StepKeepsShape(s: State, l: Label, classes: seq<PathClassConfig>)
    requires Distinct(classes) && Shape(s, classes) && Enabled(s, l)
    ensures Shape(Next(s, l, classes), classes)
  {
    if l.CacheWrite? || l.Finish? {
      IndexOfClass(s, classes, l.i);
    }
  }

  /** A step of anybody else leaves class `i` alone. */
  lemma OthersKeepClass(s: State, l: Label, classes: seq<PathClassConfig>, i: nat, ss: seq<Stimulus>)
    requires Distinct(classes) && Shape(s, classes) && Enabled(s, l) && i < |classes|
    requires ClassInv(s, classes, i, ss) && !(OfMonitor(l) && l.i == i)
    ensures Shape(Next(s, l, classes), classes) && ClassInv(Next(s, l, classes), classes, i, ss)
  {
    StepKeepsShape(s, l, classes);
    if OfMonitor(l) {
      var j := l.i;
      assert classes[j].id != classes[i].id && classes[j].routingTable != classes[i].routingTable by {
        if j < i { assert classes[j].id != classes[i].id; } else { assert classes[i].id != classes[j].id; }
      }
      IndexOfClass(s, classes, j);
      if l.Begin? {
        StepRoutes(Wired(s.mons[j].fsm, s.routes), l.stimulus, classes[j]);
      }
      if l.Send? {
        assert (s.log + [Event(classes[j].id, s.mons[j].pc.shown)])[..|s.log|] == s.log;
      }
    }
  }

  /** The class's table alone decides what its own events do to it. */
  lemma SameRouteSameStep(fsm: FsmState, a: RouteMap, b: RouteMap, st: Stimulus, c: PathClassConfig)
    requires RouteAt(a, c.routingTable) == RouteAt(b, c.routingTable)
    ensures WiredStep(Wired(fsm, a), st, c).fsm == WiredStep(Wired(fsm, b), st, c).fsm
    ensures RouteAt(WiredStep(Wired(fsm, a), st, c).routes, c.routingTable)
         == RouteAt(WiredStep(Wired(fsm, b), st, c).routes, c.routingTable)
  {
    StepRoutes(Wired(fsm, a), st, c);
    StepRoutes(Wired(fsm, b), st, c);
  }

  lemma BeginKeepsClass(s: State, i: nat, st: Stimulus, classes: seq<PathClassConfig>, ss: seq<Stimulus>)
    requires Shape(s, classes) && i < |classes| && Enabled(s, Begin(i, st))
    requires ClassInv(s, classes, i, ss)
    ensures var s' := Next(s, Begin(i, st), classes); Shape(s', classes) && ClassInv(s', classes, i, ss + [st])
  {
    var c := classes[i];
    assert (ss + [st])[..|ss|] == ss;
    SameRouteSameStep(s.mons[i].fsm, s.routes, Alone(ss, c).routes, st, c);
    assert Alone(ss + [st], c) == WiredStep(Alone(ss, c), st, c);
  }

  lemma OwnStepKeepsClass(s: State, l: Label, classes: seq<PathClassConfig>, i: nat, ss: seq<Stimulus>)
    requires Distinct(classes) && Shape(s, classes) && Enabled(s, l) && i < |classes|
    requires ClassInv(s, classes, i, ss) && OfMonitor(l) && l.i == i && !l.Begin?
    ensures Shape(Next(s, l, classes), classes) && ClassInv(Next(s, l, classes), classes, i, ss)
  {
    StepKeepsShape(s, l, classes);
    IndexOfClass(s, classes, i);
  }

  lemma OneMoreStimulus(ss: seq<Stimulus>, st: Stimulus, c: PathClassConfig)
    ensures var after := Alone(ss + [st], c).fsm.state;
      Transitions(ss + [st], c)
      == if Alone(ss, c).fsm.state == after then Transitions(ss, c)
         else Transitions(ss, c) + [Event(c.id, Shown(after, st.ev.iface, st.ev.rssi))]
  {
    assert (ss + [st])[..|ss|] == ss;
    if Alone(ss, c).fsm.state == Alone(ss + [st], c).fsm.state {
      assert Transitions(ss, c) + [] == Transitions(ss, c);
    }
  }

  /** The event takes the thread to where the class run alone says. */
  lemma BeginMoves(s: State, i: nat, st: Stimulus, classes: seq<PathClassConfig>, ss: seq<Stimulus>)
    requires Shape(s, classes) && i < |classes| && Enabled(s, Begin(i, st)) && ClassInv(s, classes, i, ss)
    ensures var s', after := Next(s, Begin(i, st), classes), Alone(ss + [st], classes[i]).fsm.state;
      && s'.log == s.log && |s'.mons| == |classes|
      && s'.mons[i].pc == if after == Alone(ss, classes[i]).fsm.state then Ready
                          else CacheDue(Shown(after, st.ev.iface, st.ev.rssi))
  {
    var c := classes[i];
    assert (ss + [st])[..|ss|] == ss;
    SameRouteSameStep(s.mons[i].fsm, s.routes, Alone(ss, c).routes, st, c);
    assert Alone(ss + [st], c) == WiredStep(Alone(ss, c), st, c);
  }

  lemma LastTakenOff(all: seq<Event>, ev: Event)
    ensures (all + [ev])[..|all|] == all && (all + [ev])[|all|] == ev
  {}

  lemma BeginKeepsLog(s: State, i: nat, st: Stimulus, classes: seq<PathClassConfig>, ss: seq<Stimulus>)
    requires Shape(s, classes) && i < |classes| && Enabled(s, Begin(i, st))
    requires ClassInv(s, classes, i, ss) && LogInv(s, classes, i, ss)
    ensures LogInv(Next(s, Begin(i, st), classes), classes, i, ss + [st])
  {
    var c := classes[i];
    var after := Alone(ss + [st], c).fsm.state;
    BeginMoves(s, i, st, classes, ss);
    OneMoreStimulus(ss, st, c);
    LastTakenOff(Transitions(ss, c), Event(c.id, Shown(after, st.ev.iface, st.ev.rssi)));
  }

  lemma OneMoreEvent(log: seq<Event>, ev: Event, id: string)
    ensures EventsOf(log + [ev], id) == if ev.id == id then EventsOf(log, id) + [ev] else EventsOf(log, id)
  {
    assert (log + [ev])[..|log|] == log;
    if ev.id != id { assert EventsOf(log, id) + [] == EventsOf(log, id); }
  }

  lemma PutLastBack(all: seq<Event>)
    requires all != []
    ensures all[..|all| - 1] + [all[|all| - 1]] == all
  {}

  lemma OwnSendKeepsLog(s: State, i: nat, broken: set<int>, classes: seq<PathClassConfig>, ss: seq<Stimulus>)
    requires |s.mons| == |classes| && i < |classes| && Enabled(s, Send(i, broken)) && LogInv(s, classes, i, ss)
    ensures LogInv(Next(s, Send(i, broken), classes), classes, i, ss)
  {
    var all := Transitions(ss, classes[i]);
    OneMoreEvent(s.log, all[|all| - 1], classes[i].id);
    PutLastBack(all);
  }

  lemma OtherSendKeepsLog(s: State, j: nat, broken: set<int>, classes: seq<PathClassConfig>, i: nat, ss: seq<Stimulus>)
    requires Distinct(classes) && |s.mons| == |classes| && i < |classes| && Enabled(s, Send(j, broken)) && j != i
    requires LogInv(s, classes, i, ss)
    ensures LogInv(Next(s, Send(j, broken), classes), classes, i, ss)
  {
    OtherId(classes, i, j);
    OneMoreEvent(s.log, Event(classes[j].id, s.mons[j].pc.shown), classes[i].id);
  }

  lemma OtherId(classes: seq<PathClassConfig>, i: nat, j: nat)
    requires Distinct(classes) && i < |classes| && j < |classes| && i != j
    ensures classes[i].id != classes[j].id
  {
    if i < j { assert classes[i].id != classes[j].id; } else { assert classes[j].id != classes[i].id; }
  }

  lemma StepKeepsLog(s: State, l: Label, classes: seq<PathClassConfig>, i: nat, ss: seq<Stimulus>)
    requires Distinct(classes) && |s.mons| == |classes| && i < |classes| && Enabled(s, l)
    requires LogInv(s, classes, i, ss) && !(l.Begin? && l.i == i)
    ensures LogInv(Next(s, l, classes), classes, i, ss)
  {
    if l.Send? {
      if l.i == i {
        OwnSendKeepsLog(s, i, l.broken, classes, ss);
      } else {
        OtherSendKeepsLog(s, l.i, l.broken, classes, i, ss);
      }
    }
  }

  /** In every interleaving each class's machine, route, cache and log are what its own events alone make of them. */
  lemma {:induction false} RunKeepsClass(classes: seq<PathClassConfig>, labels: seq<Label>, s: State, i: nat)
    requires Distinct(classes) && Runs(classes, labels, s) && i < |classes|
    ensures Shape(s, classes)
    ensures ClassInv(s, classes, i, Stimuli(labels, i)) && LogInv(s, classes, i, Stimuli(labels, i))
    decreases labels
  {
    if labels != [] {
      var n := |labels| - 1;
      var l := labels[n];
      var before :| && Runs(classes, labels[..n], before) && |before.mons| == |classes|
                    && Enabled(before, l) && s == Next(before, l, classes);
      RunKeepsClass(classes, labels[..n], before, i);
      var ss := Stimuli(labels[..n], i);
      if l.Begin? && l.i == i {
        BeginKeepsClass(before, i, l.stimulus, classes, ss);
        BeginKeepsLog(before, i, l.stimulus, classes, ss);
      } else {
        assert Stimuli(labels, i) == ss by { assert ss + [] == ss; }
        StepKeepsLog(before, l, classes, i, ss);
        if OfMonitor(l) && l.i == i {
          OwnStepKeepsClass(before, l, classes, i, ss);
        } else {
          OthersKeepClass(before, l, classes, i, ss);
        }
      }
    }
  }

  /**
   Non-interference: two runs that give class `i` the same events, whatever happens elsewhere and however the steps
   interleave, agree on its machine and its routing table, and on its cache once no transition of it is in progress.
   */
  lemma NonInterference(classes: seq<PathClassConfig>, a: seq<Label>, s: State, b: seq<Label>, t: State, i: nat)
    requires Distinct(classes) && Runs(classes, a, s) && Runs(classes, b, t) && i < |classes|
    requires Stimuli(a, i) == Stimuli(b, i)
    ensures Shape(s, classes) && Shape(t, classes)
    ensures s.mons[i].fsm == t.mons[i].fsm
    ensures RouteAt(s.routes, classes[i].routingTable) == RouteAt(t.routes, classes[i].routingTable)
    ensures s.mons[i].pc == t.mons[i].pc == Ready ==> s.server.classStates[i] == t.server.classStates[i]
  {
    RunKeepsClass(classes, a, s, i);
    RunKeepsClass(classes, b, t, i);
  }

  /** Between transitions the cache agrees with the machine and shows its last transition. */
  lemma CacheAgrees(classes: seq<PathClassConfig>, labels: seq<Label>, s: State, i: nat)
    requires Distinct(classes) && Runs(classes, labels, s) && i < |classes| && i < |s.mons| && s.mons[i].pc.Ready?
    ensures CachedState(s.server, classes[i].id) == s.mons[i].fsm.state
    ensures Shape(s, classes) && ShownIn(s.server.classStates[i]) == LastShown(Stimuli(labels, i), classes[i])
  {
    RunKeepsClass(classes, labels, s, i);
    IndexOfClass(s, classes, i);
  }
}
