/** What registered consumers have been told, in every interleaving of the daemon. */
module Delivery {
  import opened Types
  import opened Framing
  import opened Registry
  import opened ConsumerApiServer
  import opened RouteAgreement
  import opened Daemon

  lemma EventsOfAppend(log: seq<Event>, ev: Event, from: nat, id: string)
    requires from <= |log|
    ensures EventsOf((log + [ev])[from..], id) == EventsOf(log[from..], id) + if ev.id == id then [ev] else []
  {
    assert (log + [ev])[from..] == log[from..] + [ev];
    assert (log[from..] + [ev])[..|log| - from] == log[from..];
  }

  /** The last broadcast of a class among the later ones is its last broadcast of all. */
  lemma {:induction false} LastOfSuffix(log: seq<Event>, from: nat, id: string)
    requires from <= |log| && EventsOf(log[from..], id) != []
    ensures var es := EventsOf(log[from..], id); es[|es| - 1].shown == LastLogged(log, id)
  {
    var n := |log| - 1;
    assert from <= n;
    assert log[from..][..n - from] == log[..n][from..];
    if log[n].id != id {
      LastOfSuffix(log[..n], from, id);
    }
  }

  /** The entry's history: exactly the broadcasts of its class since it was pushed. */
  ghost predicate History(s: State, e: ConsumerEntry) {
    && e.handle < s.server.nextHandle
    && e.handle in s.pushedAt && e.handle in s.sent && s.pushedAt[e.handle] <= |s.log|
    && s.sent[e.handle] == EventsOf(s.log[s.pushedAt[e.handle]..], e.classId)
  }

  ghost predicate DeliveryInv(s: State) {
    && Inv(s.server) && PairwiseApart(s.server.registry, true, false)
    && forall e :: e in s.server.registry ==> History(s, e)
  }

  lemma SameHandleSameEntry(reg: seq<ConsumerEntry>, a: ConsumerEntry, b: ConsumerEntry)
    requires PairwiseApart(reg, true, false) && a in reg && b in reg && a.handle == b.handle
    ensures a == b
  {
    var i :| 0 <= i < |reg| && reg[i] == a;
    var j :| 0 <= j < |reg| && reg[j] == b;
    assert i < j ==> Apart(reg[i], reg[j], true, false);
    assert j < i ==> Apart(reg[j], reg[i], true, false);
  }

  /** A locked send reaches exactly the entries of its class that stay. */
  lemma SendReaches(reg: seq<ConsumerEntry>, id: string, broken: set<int>, e: ConsumerEntry)
    requires PairwiseApart(reg, true, false) && e in Kept(reg, id, broken)
    ensures e in reg && (Reaches(reg, e.handle, id, broken) <==> e.classId == id)
  {
    KeptMembers(reg, id, broken);
    if x :| x in reg && x.handle == e.handle && x.classId == id && x.fd !in broken {
      SameHandleSameEntry(reg, x, e);
    }
  }

  lemma SendKeepsDelivery(s: State, i: nat, broken: set<int>, classes: seq<PathClassConfig>)
    requires DeliveryInv(s) && |s.mons| == |classes| && Enabled(s, Send(i, broken))
    ensures DeliveryInv(Next(s, Send(i, broken), classes))
  {
    var s' := Next(s, Send(i, broken), classes);
    var ev, reg := Event(classes[i].id, s.mons[i].pc.shown), s.server.registry;
    FiltersKeepApart(reg, 0, 0, ev.id, broken, true, false);
    FiltersKeepApart(reg, 0, 0, ev.id, broken, false, false);
    KeptMembers(reg, ev.id, broken);
    forall e | e in s'.server.registry ensures History(s', e) {
      SendReaches(reg, ev.id, broken, e);
      assert History(s, e);
      EventsOfAppend(s.log, ev, s.pushedAt[e.handle], e.classId);
    }
  }

  lemma PushKeepsDelivery(s: State, fd: int, pid: int, id: string, classes: seq<PathClassConfig>)
    requires DeliveryInv(s) && |s.mons| == |classes| && Enabled(s, PushEntry(fd, pid, id))
    ensures DeliveryInv(Next(s, PushEntry(fd, pid, id), classes))
  {
    if Known(s.server, id) {
      var s' := Next(s, PushEntry(fd, pid, id), classes);
      var rest, e' := WithoutFd(s.server.registry, fd), ConsumerEntry(fd, pid, s.server.nextHandle, id);
      WithoutFdMembers(s.server.registry, fd);
      FiltersKeepApart(s.server.registry, fd, 0, id, {}, true, false);
      forall e | e in rest ensures Apart(e, e', true, false) {
        assert History(s, e);
      }
      AppendApart(rest, e', true, false);
      AppendApart(rest, e', false, false);
      forall e | e in s'.server.registry ensures History(s', e) {
        if e == e' {
          assert s.log[|s.log|..] == [];
        } else {
          assert e in rest && History(s, e);
        }
      }
    }
  }

  /** Removing entries, or touching nothing of the registry, keeps every remaining history. */
  lemma SubsetKeepsDelivery(s: State, s': State)
    requires DeliveryInv(s) && Inv(s'.server) && PairwiseApart(s'.server.registry, true, false)
    requires forall e :: e in s'.server.registry ==> e in s.server.registry
    requires s'.server.nextHandle == s.server.nextHandle
    requires s'.log == s.log && s'.pushedAt == s.pushedAt && s'.sent == s.sent
    ensures DeliveryInv(s')
  {
    forall e | e in s'.server.registry ensures History(s', e) {
      assert History(s, e);
    }
  }

  lemma StepKeepsDelivery(s: State, l: Label, classes: seq<PathClassConfig>)
    requires DeliveryInv(s) && |s.mons| == |classes| && Enabled(s, l)
    ensures DeliveryInv(Next(s, l, classes))
  {
    var s' := Next(s, l, classes);
    match l
    case Begin(_, _) => SubsetKeepsDelivery(s, s');
    case CacheWrite(i) =>
      var shown := s.mons[i].pc.shown;
      CacheWritesKeepInv(s.server, classes[i].id, shown.state, shown.iface, shown.rssi);
      SubsetKeepsDelivery(s, s');
    case Send(i, broken) => SendKeepsDelivery(s, i, broken, classes);
    case Finish(i) =>
      CacheWritesKeepInv(s.server, classes[i].id, s.mons[i].pc.to, "", 0);
      SubsetKeepsDelivery(s, s');
    case PushEntry(fd, pid, id) => PushKeepsDelivery(s, fd, pid, id, classes);
    case Acknowledge => SubsetKeepsDelivery(s, s');
    case RemoveHandle(handle) =>
      ApplyKeepsInv(s.server, DoUnregister(handle));
      FiltersKeepApart(s.server.registry, 0, handle, "", {}, true, false);
      WithoutHandleMembers(s.server.registry, handle);
      SubsetKeepsDelivery(s, s');
    case RemoveFd(fd) =>
      ApplyKeepsInv(s.server, DoDisconnect(fd));
      FiltersKeepApart(s.server.registry, fd, 0, "", {}, true, false);
      WithoutFdMembers(s.server.registry, fd);
      SubsetKeepsDelivery(s, s');
  }

  /** In every run: each registered consumer was sent exactly its class's later broadcasts, in order. */
  lemma {:induction false} RunDelivers(classes: seq<PathClassConfig>, labels: seq<Label>, s: State)
    requires Runs(classes, labels, s)
    ensures DeliveryInv(s)
    decreases labels
  {
    if labels != [] {
      var n := |labels| - 1;
      var before :| && Runs(classes, labels[..n], before) && |before.mons| == |classes|
                    && Enabled(before, labels[n]) && s == Next(before, labels[n], classes);
      RunDelivers(classes, labels[..n], before);
      StepKeepsDelivery(before, labels[n], classes);
    }
  }

  lemma LastEventShown(s: State, classes: seq<PathClassConfig>, e: ConsumerEntry, i: nat, ss: seq<Stimulus>)
    requires Shape(s, classes) && i < |classes| && ClassInv(s, classes, i, ss) && s.mons[i].pc.Ready?
    requires History(s, e) && e.classId == classes[i].id && s.sent[e.handle] != []
    ensures s.sent[e.handle][|s.sent[e.handle]| - 1].shown == LastShown(ss, classes[i])
  {
    LastOfSuffix(s.log, s.pushedAt[e.handle], e.classId);
  }

  /** The last event a consumer was sent names the machine's state unless a transition is in progress. */
  lemma LastEventIsState(classes: seq<PathClassConfig>, labels: seq<Label>, s: State, e: ConsumerEntry, i: nat)
    requires Distinct(classes) && Runs(classes, labels, s)
    requires e in s.server.registry && i < |classes| && e.classId == classes[i].id
    ensures i < |s.mons| && e.handle in s.sent
    ensures s.mons[i].pc.Ready? && s.sent[e.handle] != [] ==>
      var last := s.sent[e.handle][|s.sent[e.handle]| - 1].shown;
      last == LastShown(Stimuli(labels, i), classes[i]) && last.state == s.mons[i].fsm.state
  {
    RunDelivers(classes, labels, s);
    RunKeepsClass(classes, labels, s, i);
    assert History(s, e);
    if s.mons[i].pc.Ready? && s.sent[e.handle] != [] {
      LastEventShown(s, classes, e, i, Stimuli(labels, i));
    }
  }

  // ---- the sends themselves ----

  /**
   In the records of the interleaved system a consumer gains the event of a broadcast if and only if the server
   attempted the send on the socket of its entry and that socket was not broken.
   */
  lemma DeliveredIffAttempted(s: State, ev: Event, broken: set<int>, msg: ApiMsg, attempted: seq<(int, ApiMsg)>,
                              h: uint64)
    requires PairwiseApart(s.server.registry, true, false) && h in s.sent
    requires SentTo(s.server.registry, ev.id, msg, attempted)
    ensures Delivered(s, ev, broken)[h]
         == if exists e :: e in s.server.registry && e.handle == h && (e.fd, msg) in attempted && e.fd !in broken
            then s.sent[h] + [ev] else s.sent[h]
  {
    var reg := s.server.registry;
    forall e | e in reg ensures (e.fd, msg) in attempted <==> e.classId == ev.id {
      AttemptedIff(reg, ev.id, msg, attempted, e.fd);
      if x :| x in reg && x.fd == e.fd && x.classId == ev.id {
        SameFdSameEntry(reg, x, e);
      }
    }
  }

  // ---- consumers that have left ----

  ghost predicate Gone(s: State, h: uint64) {
    h < s.server.nextHandle && h in s.sent && forall e :: e in s.server.registry ==> e.handle != h
  }

  lemma StepKeepsGone(s: State, l: Label, classes: seq<PathClassConfig>, h: uint64)
    requires |s.mons| == |classes| && Enabled(s, l) && Gone(s, h)
    ensures Gone(Next(s, l, classes), h) && Next(s, l, classes).sent[h] == s.sent[h]
  {
    var s' := Next(s, l, classes);
    forall e | e in s'.server.registry ensures e.handle != h {
      RemainsFromBefore(s, l, classes, e);
    }
  }

  /** `s` is reached from `t` by more steps. */
  ghost predicate Continues(classes: seq<PathClassConfig>, t: State, more: seq<Label>, s: State)
    decreases more
  {
    if more == [] then s == t
    else
      exists before ::
        && Continues(classes, t, more[..|more| - 1], before) && |before.mons| == |classes|
        && Enabled(before, more[|more| - 1]) && s == Next(before, more[|more| - 1], classes)
  }

  /** A handle that no entry holds is never held again, and nothing more is sent to it. */
  lemma {:induction false} GoneForGood(classes: seq<PathClassConfig>, t: State, more: seq<Label>, s: State, h: uint64)
    requires Continues(classes, t, more, s) && Gone(t, h)
    ensures Gone(s, h) && s.sent[h] == t.sent[h]
    decreases more
  {
    if more != [] {
      var n := |more| - 1;
      var before :| && Continues(classes, t, more[..n], before) && |before.mons| == |classes|
                    && Enabled(before, more[n]) && s == Next(before, more[n], classes);
      GoneForGood(classes, t, more[..n], before, h);
      StepKeepsGone(before, more[n], classes, h);
    }
  }

  lemma RemovalMakesGone(t: State, l: Label, classes: seq<PathClassConfig>, e: ConsumerEntry)
    requires DeliveryInv(t) && |t.mons| == |classes| && Enabled(t, l) && e in t.server.registry
    requires l == RemoveHandle(e.handle) || l == RemoveFd(e.fd)
    ensures Gone(Next(t, l, classes), e.handle) && Next(t, l, classes).sent == t.sent
  {
    assert History(t, e);
    WithoutHandleMembers(t.server.registry, e.handle);
    WithoutFdMembers(t.server.registry, e.fd);
    forall x | x in Next(t, l, classes).server.registry ensures x.handle != e.handle {
      if x.handle == e.handle { SameHandleSameEntry(t.server.registry, x, e); }
    }
  }

  /**
   Whoever unregisters or disconnects is out at once and for good: however the run goes on, no entry holds the handle,
   and what was sent to it stays what it was.
   */
  lemma RemovedHearsNothing(classes: seq<PathClassConfig>, labels: seq<Label>, t: State, l: Label, more: seq<Label>,
                            s: State, e: ConsumerEntry)
    requires Runs(classes, labels, t) && |t.mons| == |classes| && Enabled(t, l) && e in t.server.registry
    requires l == RemoveHandle(e.handle) || l == RemoveFd(e.fd)
    requires Continues(classes, Next(t, l, classes), more, s)
    ensures e.handle in t.sent && e.handle in s.sent && s.sent[e.handle] == t.sent[e.handle]
    ensures forall x :: x in s.server.registry ==> x.handle != e.handle
  {
    RunDelivers(classes, labels, t);
    RemovalMakesGone(t, l, classes, e);
    GoneForGood(classes, Next(t, l, classes), more, s, e.handle);
  }

  // ---- which transitions a consumer is told ----

  lemma {:induction false} EventsOfConcat(a: seq<Event>, b: seq<Event>, id: string)
    ensures EventsOf(a + b, id) == EventsOf(a, id) + EventsOf(b, id)
  {
    if b == [] {
      assert a + b == a;
    } else {
      var n := |b| - 1;
      assert (a + b)[..|a + b| - 1] == a + b[..n];
      EventsOfConcat(a, b[..n], id);
    }
  }

  /** An entry that was there before a step was pushed when it was, after the same log. */
  lemma PushStays(s: State, l: Label, classes: seq<PathClassConfig>, e: ConsumerEntry)
    requires |s.mons| == |classes| && Enabled(s, l) && History(s, e)
    ensures var s' := Next(s, l, classes);
      && e.handle in s'.pushedAt && s'.pushedAt[e.handle] == s.pushedAt[e.handle] <= |s'.log|
      && s'.log[..s.pushedAt[e.handle]] == s.log[..s.pushedAt[e.handle]]
  {}

  /** Every entry was pushed by a step of the run, after the log it remembers. */
  lemma {:induction false} PushedWhen(classes: seq<PathClassConfig>, labels: seq<Label>, s: State, e: ConsumerEntry)
    returns (k: nat, t: State)
    requires Runs(classes, labels, s) && e in s.server.registry
    ensures k < |labels| && labels[k] == PushEntry(e.fd, e.pid, e.classId)
    ensures Runs(classes, labels[..k], t) && t.server.nextHandle == e.handle
    ensures History(s, e) && t.log == s.log[..s.pushedAt[e.handle]]
    decreases labels
  {
    var n := |labels| - 1;
    RunDelivers(classes, labels, s);
    var before :| && Runs(classes, labels[..n], before) && |before.mons| == |classes|
                  && Enabled(before, labels[n]) && s == Next(before, labels[n], classes);
    RemainsFromBefore(before, labels[n], classes, e);
    if e in before.server.registry {
      k, t := PushedWhen(classes, labels[..n], before, e);
      assert labels[..n][..k] == labels[..k];
      PushStays(before, labels[n], classes, e);
    } else {
      k, t := n, before;
      assert s.log[..|s.log|] == s.log;
    }
  }

  /**
   A consumer was sent exactly the transitions its class has made known since the consumer's entry was pushed, each once
   and in order: of the broadcasts at the end of the run, those after the ones there were before the push.
   */
  lemma SentSincePush(classes: seq<PathClassConfig>, labels: seq<Label>, s: State, e: ConsumerEntry, i: nat)
    returns (k: nat, t: State)
    requires Distinct(classes) && Runs(classes, labels, s)
    requires e in s.server.registry && i < |classes| && e.classId == classes[i].id
    ensures k < |labels| && labels[k] == PushEntry(e.fd, e.pid, e.classId)
    ensures Runs(classes, labels[..k], t) && t.server.nextHandle == e.handle
    ensures |s.mons| == |t.mons| == |classes| && e.handle in s.sent
    ensures var c := classes[i];
      Broadcasts(Stimuli(labels, i), c, s.mons[i].pc)
      == Broadcasts(Stimuli(labels[..k], i), c, t.mons[i].pc) + s.sent[e.handle]
  {
    k, t := PushedWhen(classes, labels, s, e);
    RunKeepsClass(classes, labels, s, i);
    RunKeepsClass(classes, labels[..k], t, i);
    var p := s.pushedAt[e.handle];
    assert s.log == s.log[..p] + s.log[p..];
    EventsOfConcat(s.log[..p], s.log[p..], e.classId);
  }

  // ---- what an acknowledgement is worth ----

  /** Until its first event, an acknowledged consumer was told the last broadcast state or the one being sent. */
  ghost predicate AckGood(s: State, classes: seq<PathClassConfig>, e: ConsumerEntry, i: nat)
    requires i < |classes| && |s.mons| == |classes| && e.handle in s.sent
  {
    if e.handle !in s.acked then
      s.pending.Some? && s.pending.value.handle == e.handle && s.pending.value.id == e.classId
    else
      s.sent[e.handle] == [] ==>
        || s.acked[e.handle] == LastLogged(s.log, e.classId).state
        || (s.mons[i].pc.SendDue? && s.acked[e.handle] == s.mons[i].pc.shown.state)
  }

  ghost predicate AckInv(s: State, classes: seq<PathClassConfig>) {
    && |s.mons| == |classes| && DeliveryInv(s)
    && (s.pending.Some? ==> s.pending.value.handle !in s.acked && s.pending.value.handle < s.server.nextHandle)
    && (forall h :: h in s.acked ==> h < s.server.nextHandle)
    && (forall e, i :: e in s.server.registry && 0 <= i < |classes| && classes[i].id == e.classId ==>
          e.handle in s.sent && AckGood(s, classes, e, i))
  }

  lemma SendKeepsAck(s: State, j: nat, broken: set<int>, classes: seq<PathClassConfig>, e: ConsumerEntry, i: nat)
    requires Distinct(classes) && |s.mons| == |classes| && DeliveryInv(s) && Enabled(s, Send(j, broken))
    requires e in s.server.registry && i < |classes| && e.classId == classes[i].id
    requires e.handle in s.sent && AckGood(s, classes, e, i)
    requires e in Next(s, Send(j, broken), classes).server.registry
    ensures AckGood(Next(s, Send(j, broken), classes), classes, e, i)
  {
    var s' := Next(s, Send(j, broken), classes);
    SendReaches(s.server.registry, classes[j].id, broken, e);
    assert s'.log[..|s.log|] == s.log;
    if j != i { OtherId(classes, i, j); }
  }

  lemma AcknowledgeKeepsAck(s: State, classes: seq<PathClassConfig>, e: ConsumerEntry, i: nat, ss: seq<Stimulus>)
    requires Distinct(classes) && Shape(s, classes) && s.pending.Some? && s.pending.value.handle !in s.acked
    requires i < |classes| && ClassInv(s, classes, i, ss) && e.classId == classes[i].id
    requires e.handle in s.sent && AckGood(s, classes, e, i)
    ensures AckGood(Next(s, Acknowledge, classes), classes, e, i)
  {
    IndexOfClass(s, classes, i);
  }

  /** The step of a monitor, or a removal, tells an entry that stays nothing new. */
  lemma QuietKeepsAck(s: State, l: Label, classes: seq<PathClassConfig>, e: ConsumerEntry, i: nat)
    requires |s.mons| == |classes| && Enabled(s, l)
    requires l.Begin? || l.CacheWrite? || l.Finish? || l.RemoveHandle? || l.RemoveFd?
    requires i < |classes| && e.handle in s.sent && AckGood(s, classes, e, i)
    ensures AckGood(Next(s, l, classes), classes, e, i)
  {}

  lemma RemainsFromBefore(s: State, l: Label, classes: seq<PathClassConfig>, e: ConsumerEntry)
    requires |s.mons| == |classes| && Enabled(s, l)
    requires e in Next(s, l, classes).server.registry
    ensures e in s.server.registry || (l.PushEntry? && Known(s.server, l.id)
                                       && e == ConsumerEntry(l.fd, l.pid, s.server.nextHandle, l.id))
  {
    match l
    case Send(j, broken) => KeptMembers(s.server.registry, classes[j].id, broken);
    case PushEntry(fd, _, _) => WithoutFdMembers(s.server.registry, fd);
    case RemoveHandle(handle) => WithoutHandleMembers(s.server.registry, handle);
    case RemoveFd(fd) => WithoutFdMembers(s.server.registry, fd);
    case _ =>
  }

  lemma PushKeepsAck(s: State, l: Label, classes: seq<PathClassConfig>, e: ConsumerEntry, i: nat)
    requires AckInv(s, classes) && Enabled(s, l) && l.PushEntry? && i < |classes| && e.classId == classes[i].id
    requires e in Next(s, l, classes).server.registry
    ensures e.handle in Next(s, l, classes).sent && AckGood(Next(s, l, classes), classes, e, i)
  {
    RemainsFromBefore(s, l, classes, e);
    if e in s.server.registry {
      assert History(s, e) && AckGood(s, classes, e, i);
    }
  }

  lemma StepKeepsAck(s: State, l: Label, classes: seq<PathClassConfig>, e: ConsumerEntry, i: nat, ss: seq<Stimulus>)
    requires Distinct(classes) && Shape(s, classes) && AckInv(s, classes) && Enabled(s, l)
    requires i < |classes| && ClassInv(s, classes, i, ss)
    requires e in Next(s, l, classes).server.registry && e.classId == classes[i].id
    ensures e.handle in Next(s, l, classes).sent && AckGood(Next(s, l, classes), classes, e, i)
  {
    if l.PushEntry? {
      PushKeepsAck(s, l, classes, e, i);
    } else {
      RemainsFromBefore(s, l, classes, e);
      assert e.handle in s.sent && AckGood(s, classes, e, i);
      if l.Send? {
        SendKeepsAck(s, l.i, l.broken, classes, e, i);
      } else if l.Acknowledge? {
        AcknowledgeKeepsAck(s, classes, e, i, ss);
      } else {
        QuietKeepsAck(s, l, classes, e, i);
      }
    }
  }

  lemma StepKeepsAckInv(s: State, l: Label, classes: seq<PathClassConfig>, labels: seq<Label>)
    requires Distinct(classes) && Runs(classes, labels, s) && AckInv(s, classes) && Enabled(s, l)
    ensures AckInv(Next(s, l, classes), classes)
  {
    var s' := Next(s, l, classes);
    StepKeepsDelivery(s, l, classes);
    forall e, i | e in s'.server.registry && 0 <= i < |classes| && classes[i].id == e.classId
      ensures e.handle in s'.sent && AckGood(s', classes, e, i)
    {
      RunKeepsClass(classes, labels, s, i);
      StepKeepsAck(s, l, classes, e, i, Stimuli(labels, i));
    }
  }

  lemma {:induction false} RunKeepsAck(classes: seq<PathClassConfig>, labels: seq<Label>, s: State)
    requires Distinct(classes) && Runs(classes, labels, s)
    ensures AckInv(s, classes)
    decreases labels
  {
    if labels == [] {
      RunDelivers(classes, labels, s);
    } else {
      var n := |labels| - 1;
      var before :| && Runs(classes, labels[..n], before) && |before.mons| == |classes|
                    && Enabled(before, labels[n]) && s == Next(before, labels[n], classes);
      RunKeepsAck(classes, labels[..n], before);
      StepKeepsAckInv(before, labels[n], classes, labels[..n]);
    }
  }

  /**
   No consumer is left behind: once its registration is acknowledged and no transition of its class is in progress, the
   machine's state is the one in the last event it was sent or, if it was sent none, the one in its acknowledgement.
   */
  lemma ConsumerKnowsState(classes: seq<PathClassConfig>, labels: seq<Label>, s: State, e: ConsumerEntry, i: nat)
    requires Distinct(classes) && Runs(classes, labels, s)
    requires e in s.server.registry && i < |classes| && e.classId == classes[i].id
    requires i < |s.mons| && s.mons[i].pc.Ready? && s.pending.None?
    ensures e.handle in s.sent && e.handle in s.acked
    ensures var es := s.sent[e.handle];
      s.mons[i].fsm.state == if es == [] then s.acked[e.handle] else es[|es| - 1].shown.state
  {
    LastEventIsState(classes, labels, s, e, i);
    RunKeepsAck(classes, labels, s);
    RunKeepsClass(classes, labels, s, i);
    assert AckGood(s, classes, e, i);
  }
}
