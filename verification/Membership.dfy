/** Cgroup membership when a registration is not one step: broadcasts run between its push and its assignment. */
module Membership {
  import opened Types
  import opened PathStateFsm
  import opened RouteAgreement
  import opened Registry
  import opened Daemon

  function EntryOf(p: Pending): ConsumerEntry {
    ConsumerEntry(p.fd, p.pid, p.handle, p.id)
  }

  /** The server without the connection being registered. */
  function ApartFrom(s: Server, p: Pending): Server {
    s.(registry := WithoutFd(s.registry, p.fd), cgroups := s.cgroups - {p.pid})
  }

  /** Membership is exact without the connection being registered, and that connection has at most its new entry. */
  ghost predicate FineWith(s: Server, p: Pending) {
    && Known(s, p.id)
    && CgroupInv(ApartFrom(s, p))
    && PairwiseApart(s.registry, false, true)
    && (forall e :: e in s.registry && e.fd != p.fd ==> e.pid != p.pid)
    && (forall e :: e in s.registry && e.fd == p.fd ==> e == EntryOf(p))
  }

  /** Membership is exact, except for the process of a registration in progress. */
  ghost predicate FineInv(s: State) {
    match s.pending
    case None => CgroupInv(s.server)
    case Some(p) => FineWith(s.server, p)
  }

  lemma AssignCompletes(s: Server, p: Pending)
    requires FineWith(s, p) && EntryOf(p) in s.registry
    ensures CgroupInv(Assign(s, p.id, p.pid))
  {
    var t, after := ApartFrom(s, p), Assign(s, p.id, p.pid);
    WithoutFdMembers(s.registry, p.fd);
    forall e | e in after.registry
      ensures Known(after, e.classId) && e.pid in after.cgroups && after.cgroups[e.pid] == PathOf(after, e.classId)
    {
      if e.fd != p.fd {
        assert e in t.registry && Known(t, e.classId) && t.cgroups[e.pid] == PathOf(t, e.classId);
      } else {
        assert e == EntryOf(p);
      }
    }
    forall pid | pid in after.cgroups ensures exists e :: e in after.registry && e.pid == pid {
      if pid == p.pid {
        assert EntryOf(p).pid == pid;
      } else {
        assert pid in t.cgroups;
        var e :| e in t.registry && e.pid == pid;
        assert e in after.registry;
      }
    }
  }

  lemma AssignStrands(s: Server, p: Pending)
    requires FineWith(s, p) && EntryOf(p) !in s.registry
    ensures !CgroupInv(Assign(s, p.id, p.pid))
  {
    var after := Assign(s, p.id, p.pid);
    assert p.pid in after.cgroups;
    forall e | e in after.registry ensures e.pid != p.pid {
      assert e.fd != p.fd;
    }
  }

  /** The assignment completes membership exactly when no broadcast has meanwhile erased the entry. */
  lemma AcknowledgeIff(s: State, classes: seq<PathClassConfig>)
    requires |s.mons| == |classes| && s.pending.Some? && FineInv(s)
    ensures CgroupInv(Next(s, Acknowledge, classes).server) <==> EntryOf(s.pending.value) in s.server.registry
  {
    if EntryOf(s.pending.value) in s.server.registry {
      AssignCompletes(s.server, s.pending.value);
    } else {
      AssignStrands(s.server, s.pending.value);
    }
  }

  lemma PushKeepsFine(s: Server, p: Pending)
    requires CgroupInv(s) && Known(s, p.id) && OwnPid(s, p.fd, p.pid) && p.handle == s.nextHandle
    ensures FineWith(Push(s, p.fd, p.pid, p.id), p)
  {
    var s' := Push(s, p.fd, p.pid, p.id);
    var rest, t := WithoutFd(s.registry, p.fd), ApartFrom(s', p);
    WithoutFdMembers(s.registry, p.fd);
    WithoutFdMembers(s'.registry, p.fd);
    FiltersKeepApart(s.registry, p.fd, 0, "", {}, false, true);
    AppendApart(rest, EntryOf(p), false, true);
    FiltersKeepApart(s'.registry, p.fd, 0, "", {}, false, true);
    RemovalKeeps(s, t, {p.pid});
  }

  /** A pid that is another connection's, or not the one this connection used before, breaks membership at once. */
  lemma PushBreaks(s: Server, p: Pending)
    requires CgroupInv(s) && Known(s, p.id) && !OwnPid(s, p.fd, p.pid) && p.handle == s.nextHandle
    ensures !FineWith(Push(s, p.fd, p.pid, p.id), p)
  {
    var s' := Push(s, p.fd, p.pid, p.id);
    var t := ApartFrom(s', p);
    WithoutFdMembers(s.registry, p.fd);
    WithoutFdMembers(s'.registry, p.fd);
    var e :| e in s.registry && !(e.fd == p.fd <==> e.pid == p.pid);
    if e.fd == p.fd {
      assert e.pid in t.cgroups;
      forall x | x in t.registry ensures x.pid != e.pid {
        assert x in s.registry && x != e;
        DifferentEntries(s.registry, x, e);
      }
    } else {
      assert e in s'.registry;
    }
  }

  /** A push of a known class keeps membership exactly when its pid belongs to its connection and to no other. */
  lemma PushKeepsFineIff(s: State, fd: int, pid: int, id: string, classes: seq<PathClassConfig>)
    requires |s.mons| == |classes| && Enabled(s, PushEntry(fd, pid, id)) && FineInv(s)
    ensures FineInv(Next(s, PushEntry(fd, pid, id), classes))
      <==> (Known(s.server, id) ==> OwnPid(s.server, fd, pid))
  {
    if Known(s.server, id) {
      var p := Pending(fd, pid, id, s.server.nextHandle);
      if OwnPid(s.server, fd, pid) {
        PushKeepsFine(s.server, p);
      } else {
        PushBreaks(s.server, p);
      }
    }
  }

  /** Leaving out a connection commutes with a locked send. */
  lemma SendApartFrom(s: Server, p: Pending, id: string, broken: set<int>)
    requires forall e :: e in s.registry && e.fd == p.fd ==> e.pid == p.pid
    ensures forall e :: e in ApartFrom(LockedSend(s, id, broken), p).registry
              <==> e in LockedSend(ApartFrom(s, p), id, broken).registry
    ensures ApartFrom(LockedSend(s, id, broken), p).cgroups == LockedSend(ApartFrom(s, p), id, broken).cgroups
  {
    KeptMembers(s.registry, id, broken);
    WithoutFdMembers(s.registry, p.fd);
    WithoutFdMembers(Kept(s.registry, id, broken), p.fd);
    KeptMembers(WithoutFd(s.registry, p.fd), id, broken);
    BrokenApartFrom(s.registry, p, id, broken);
    LeaveOutBoth(s.cgroups, PidsBroken(s.registry, id, broken), PidsBroken(WithoutFd(s.registry, p.fd), id, broken),
                 {p.pid});
  }

  lemma BrokenApartFrom(reg: seq<ConsumerEntry>, p: Pending, id: string, broken: set<int>)
    requires forall e :: e in reg && e.fd == p.fd ==> e.pid == p.pid
    ensures PidsBroken(reg, id, broken) + {p.pid} == PidsBroken(WithoutFd(reg, p.fd), id, broken) + {p.pid}
  {
    WithoutFdMembers(reg, p.fd);
  }

  lemma LeaveOutBoth<V>(m: map<int, V>, a: set<int>, b: set<int>, c: set<int>)
    requires a + c == b + c
    ensures m - a - c == m - c - b
  {
    assert m - a - c == m - (a + c) && m - c - b == m - (b + c);
  }

  lemma SendKeepsFineWith(s: Server, p: Pending, id: string, broken: set<int>)
    requires FineWith(s, p)
    ensures FineWith(LockedSend(s, id, broken), p)
  {
    var s' := LockedSend(s, id, broken);
    KeptMembers(s.registry, id, broken);
    FiltersKeepApart(s.registry, 0, 0, id, broken, false, true);
    FiltersKeepApart(s'.registry, p.fd, 0, "", {}, false, true);
    SendApartFrom(s, p, id, broken);
    SendKeepsCgroups(ApartFrom(s, p), id, broken);
    RemovalKeeps(LockedSend(ApartFrom(s, p), id, broken), ApartFrom(s', p), {});
  }

  lemma SendKeepsFine(s: State, i: nat, broken: set<int>, classes: seq<PathClassConfig>)
    requires |s.mons| == |classes| && Enabled(s, Send(i, broken)) && FineInv(s)
    ensures FineInv(Next(s, Send(i, broken), classes))
  {
    if s.pending.None? {
      SendKeepsCgroups(s.server, classes[i].id, broken);
    } else {
      SendKeepsFineWith(s.server, s.pending.value, classes[i].id, broken);
    }
  }

  lemma CacheKeepsFine(s: State, l: Label, classes: seq<PathClassConfig>)
    requires |s.mons| == |classes| && Enabled(s, l) && FineInv(s) && (l.CacheWrite? || l.Finish?)
    ensures FineInv(Next(s, l, classes))
  {
    var id := classes[l.i].id;
    var shown := if l.CacheWrite? then s.mons[l.i].pc.shown else Shown(s.mons[l.i].pc.to, "", 0);
    if s.pending.None? {
      CacheKeepsCgroups(s.server, id, shown.state, shown.iface, shown.rssi);
    } else {
      var p := s.pending.value;
      CacheKeepsCgroups(ApartFrom(s.server, p), id, shown.state, shown.iface, shown.rssi);
      CacheWritesKeepClasses(s.server, id, shown.state, shown.iface, shown.rssi, p.id);
    }
  }

  /** What a step must bring: a push its connection's own pid, an acknowledgement an entry that is still there. */
  ghost predicate Proper(s: State, l: Label)
    requires Enabled(s, l)
  {
    && (l.PushEntry? && Known(s.server, l.id) ==> OwnPid(s.server, l.fd, l.pid))
    && (l.Acknowledge? ==> EntryOf(s.pending.value) in s.server.registry)
  }

  /** A step keeps membership exact outside the registration in progress exactly when it is proper. */
  lemma StepKeepsFineIff(s: State, l: Label, classes: seq<PathClassConfig>)
    requires |s.mons| == |classes| && Enabled(s, l) && FineInv(s)
    ensures FineInv(Next(s, l, classes)) <==> Proper(s, l)
  {
    match l
    case Begin(_, _) =>
    case CacheWrite(_) => CacheKeepsFine(s, l, classes);
    case Finish(_) => CacheKeepsFine(s, l, classes);
    case Send(i, broken) => SendKeepsFine(s, i, broken, classes);
    case PushEntry(fd, pid, id) => PushKeepsFineIff(s, fd, pid, id, classes);
    case Acknowledge => AcknowledgeIff(s, classes);
    case RemoveHandle(handle) => UnregisterKeepsCgroups(s.server, handle);
    case RemoveFd(fd) => DisconnectKeepsCgroups(s.server, fd);
  }

  // ---- whole runs ----

  /** Membership is exact at every point of the run. */
  ghost predicate FineThroughout(classes: seq<PathClassConfig>, labels: seq<Label>) {
    forall k, t :: 0 <= k <= |labels| && Runs(classes, labels[..k], t) ==> FineInv(t)
  }

  /** Every step of the run is proper where it is taken. */
  ghost predicate ProperThroughout(classes: seq<PathClassConfig>, labels: seq<Label>) {
    forall k, t :: 0 <= k < |labels| && Runs(classes, labels[..k], t) && Enabled(t, labels[k]) ==> Proper(t, labels[k])
  }

  lemma {:induction false} ProperRunIsFine(classes: seq<PathClassConfig>, labels: seq<Label>, s: State)
    requires Runs(classes, labels, s) && ProperThroughout(classes, labels)
    ensures FineInv(s)
    decreases labels
  {
    if labels != [] {
      var n := |labels| - 1;
      var before :| && Runs(classes, labels[..n], before) && |before.mons| == |classes|
                    && Enabled(before, labels[n]) && s == Next(before, labels[n], classes);
      ProperPrefix(classes, labels, n);
      ProperRunIsFine(classes, labels[..n], before);
      StepKeepsFineIff(before, labels[n], classes);
    }
  }

  lemma ProperPrefix(classes: seq<PathClassConfig>, labels: seq<Label>, n: nat)
    requires ProperThroughout(classes, labels) && n <= |labels|
    ensures ProperThroughout(classes, labels[..n])
  {
    forall k, t | 0 <= k < n && Runs(classes, labels[..n][..k], t) && Enabled(t, labels[..n][k])
      ensures Proper(t, labels[..n][k])
    {
      assert labels[..n][..k] == labels[..k];
    }
  }

  lemma ProperMakesFine(classes: seq<PathClassConfig>, labels: seq<Label>)
    requires ProperThroughout(classes, labels)
    ensures FineThroughout(classes, labels)
  {
    forall k, t | 0 <= k <= |labels| && Runs(classes, labels[..k], t) ensures FineInv(t) {
      ProperPrefix(classes, labels, k);
      ProperRunIsFine(classes, labels[..k], t);
    }
  }

  lemma FineStepIsProper(classes: seq<PathClassConfig>, labels: seq<Label>, k: nat, t: State)
    requires FineThroughout(classes, labels)
    requires k < |labels| && Runs(classes, labels[..k], t) && Enabled(t, labels[k])
    ensures Proper(t, labels[k])
  {
    MonitorsStay(classes, labels[..k], t);
    var after, _ := Extend(classes, labels[..k], t, labels[k]);
    assert after == labels[..k + 1];
    StepKeepsFineIff(t, labels[k], classes);
  }

  /**
   For every interleaving: membership is exact throughout a run if and only if every registration uses its connection's
   own pid and finds, when it comes to be acknowledged, that no broadcast has erased its entry.
   */
  lemma RunFineIff(classes: seq<PathClassConfig>, labels: seq<Label>)
    ensures FineThroughout(classes, labels) <==> ProperThroughout(classes, labels)
  {
    if ProperThroughout(classes, labels) { ProperMakesFine(classes, labels); }
    if FineThroughout(classes, labels) {
      forall k, t | 0 <= k < |labels| && Runs(classes, labels[..k], t) && Enabled(t, labels[k])
        ensures Proper(t, labels[k])
      {
        FineStepIsProper(classes, labels, k, t);
      }
    }
  }

  /** In such a run each registered process is in the directory the configuration names, every other at the root. */
  lemma RunInConfiguredGroups(classes: seq<PathClassConfig>, labels: seq<Label>, s: State)
    requires Distinct(classes) && Runs(classes, labels, s) && ProperThroughout(classes, labels) && s.pending.None?
    ensures InConfiguredGroups(s.server, classes)
  {
    ProperRunIsFine(classes, labels, s);
    RunKeepsConfiguration(classes, labels, s);
    MembershipIsConfigured(s.server, classes);
  }

  lemma StepKeepsConfiguration(s: State, l: Label, classes: seq<PathClassConfig>)
    requires |s.mons| == |classes| && Enabled(s, l) && Mirrors(s.server, classes)
    ensures Mirrors(Next(s, l, classes).server, classes)
  {
    if l.CacheWrite? {
      var shown := s.mons[l.i].pc.shown;
      CacheWritesMirror(s.server, classes, classes[l.i].id, shown.state, shown.iface, shown.rssi);
    } else if l.Finish? {
      CacheWritesMirror(s.server, classes, classes[l.i].id, s.mons[l.i].pc.to, "", 0);
    }
  }

  lemma {:induction false} RunKeepsConfiguration(classes: seq<PathClassConfig>, labels: seq<Label>, s: State)
    requires Runs(classes, labels, s)
    ensures Mirrors(s.server, classes)
    decreases labels
  {
    if labels != [] {
      var n := |labels| - 1;
      var before :| && Runs(classes, labels[..n], before) && |before.mons| == |classes|
                    && Enabled(before, labels[n]) && s == Next(before, labels[n], classes);
      RunKeepsConfiguration(classes, labels[..n], before);
      StepKeepsConfiguration(before, labels[n], classes);
    }
  }

  lemma MonitorsStay(classes: seq<PathClassConfig>, labels: seq<Label>, s: State)
    requires Runs(classes, labels, s)
    ensures |s.mons| == |classes|
  {
    if labels != [] {
      var before :| && Runs(classes, labels[..|labels| - 1], before) && |before.mons| == |classes|
                    && Enabled(before, labels[|labels| - 1]) && s == Next(before, labels[|labels| - 1], classes);
      StepKeepsMonitors(before, labels[|labels| - 1], classes);
    }
  }

  lemma StepKeepsMonitors(s: State, l: Label, classes: seq<PathClassConfig>)
    requires |s.mons| == |classes| && Enabled(s, l)
    ensures |Next(s, l, classes).mons| == |classes|
  {}

  /**
   The race is real: the consumer's socket breaks during a broadcast that runs between push and assignment. Its entry
   is erased, its process released, and the assignment then puts the process into the group for good.
   */
  lemma RaceStrandsProcess(c: PathClassConfig, ev: WpaEvent, fd: int, pid: int) returns (labels: seq<Label>, s: State)
    requires ev.kind == Disconnected
    ensures Runs([c], labels, s)
    ensures s.server.registry == [] && pid in s.server.cgroups && s.pending.None? && s.mons[0].pc.Ready?
    ensures !FineInv(s)
  {
    var classes := [c];
    labels, s := RaceUpToSend(c, ev, fd, pid);
    assert Kept(s.server.registry, c.id, {fd}) == [];
    labels, s := Extend(classes, labels, s, Send(0, {fd}));
    labels, s := Extend(classes, labels, s, Finish(0));
    labels, s := Extend(classes, labels, s, Acknowledge);
  }

  lemma RaceUpToSend(c: PathClassConfig, ev: WpaEvent, fd: int, pid: int) returns (labels: seq<Label>, s: State)
    requires ev.kind == Disconnected
    ensures Runs([c], labels, s) && |s.mons| == 1 && s.mons[0].pc.SendDue?
    ensures s.server.registry == [ConsumerEntry(fd, pid, 1, c.id)] && Known(s.server, c.id)
    ensures s.pending == Some(Pending(fd, pid, c.id, 1))
    ensures Known(SetState(s.server, c.id, s.mons[0].pc.shown.state), c.id)
  {
    var classes := [c];
    s := Initial(classes);
    labels := [];
    assert s.server.classStates[0].classId == c.id;
    labels, s := Extend(classes, labels, s, PushEntry(fd, pid, c.id));
    labels, s := Extend(classes, labels, s, Begin(0, Stimulus(ev, 0)));
    labels, s := Extend(classes, labels, s, CacheWrite(0));
    CacheWritesKeepClasses(InitialServer(classes), c.id, PathDown, ev.iface, ev.rssi, c.id);
    CacheWritesKeepClasses(s.server, c.id, PathDown, ev.iface, ev.rssi, c.id);
  }

  lemma Extend(classes: seq<PathClassConfig>, labels: seq<Label>, s: State, l: Label)
    returns (labels': seq<Label>, s': State)
    requires Runs(classes, labels, s) && |s.mons| == |classes| && Enabled(s, l)
    ensures labels' == labels + [l] && s' == Next(s, l, classes) && Runs(classes, labels', s')
  {
    labels', s' := labels + [l], Next(s, l, classes);
    assert labels'[..|labels|] == labels;
  }
}
