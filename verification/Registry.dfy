/** The consumer registry and the cached class states: what each server operation does to them. */
module Registry {
  import opened Types
  import opened Framing

  datatype ConsumerEntry = ConsumerEntry(fd: int, pid: int, handle: uint64, classId: string)

  datatype ClassState = ClassState(
    classId: string, cgroupPath: string, state: PathState, activeIface: string, rssi: int32)

  /** `cgroups` gives the directory a process was put in; a process it does not name is at the root. */
  datatype Server = Server(
    classStates: seq<ClassState>,
    registry: seq<ConsumerEntry>,
    nextHandle: uint64,
    cgroups: map<int, string>)

  function InitialStates(classes: seq<PathClassConfig>): (r: seq<ClassState>)
    ensures |r| == |classes|
  {
    seq(|classes|, i requires 0 <= i < |classes| => ClassState(classes[i].id, classes[i].cgroupPath, Idle, "", 0))
  }

  function InitialServer(classes: seq<PathClassConfig>): Server {
    Server(InitialStates(classes), [], 1, map[])
  }

  /** The first class state with that id. */
  function FindClass(cs: seq<ClassState>, id: string): (r: Option<nat>)
    ensures r.Some? ==> r.value < |cs| && cs[r.value].classId == id
    ensures r.Some? ==> forall k :: 0 <= k < r.value ==> cs[k].classId != id
    ensures r.None? ==> forall k :: 0 <= k < |cs| ==> cs[k].classId != id
  {
    if cs == [] then None
    else if cs[0].classId == id then Some(0)
    else
      assert forall k :: 1 <= k < |cs| ==> cs[k] == cs[1..][k - 1];
      match FindClass(cs[1..], id)
      case None => None
      case Some(k) => Some(k + 1)
  }

  predicate Known(s: Server, id: string) {
    FindClass(s.classStates, id).Some?
  }

  function PathOf(s: Server, id: string): string
    requires Known(s, id)
  {
    s.classStates[FindClass(s.classStates, id).value].cgroupPath
  }

  function WithoutFd(reg: seq<ConsumerEntry>, fd: int): seq<ConsumerEntry> {
    if reg == [] then []
    else (if reg[0].fd == fd then [] else [reg[0]]) + WithoutFd(reg[1..], fd)
  }

  function WithoutHandle(reg: seq<ConsumerEntry>, handle: uint64): seq<ConsumerEntry> {
    if reg == [] then []
    else (if reg[0].handle == handle then [] else [reg[0]]) + WithoutHandle(reg[1..], handle)
  }

  /** The entries a broadcast leaves: all but those of its class whose socket is broken. */
  function Kept(reg: seq<ConsumerEntry>, id: string, broken: set<int>): seq<ConsumerEntry> {
    if reg == [] then []
    else (if reg[0].classId == id && reg[0].fd in broken then [] else [reg[0]]) + Kept(reg[1..], id, broken)
  }

  /** The entries a broadcast sends to, in registry order. */
  function Targets(reg: seq<ConsumerEntry>, id: string): seq<ConsumerEntry> {
    if reg == [] then []
    else (if reg[0].classId == id then [reg[0]] else []) + Targets(reg[1..], id)
  }

  function NextHandle(h: uint64): uint64 {
    if h == TWO64 - 1 then 0 else h + 1
  }

  /** The locked part of a registration: any entry of this connection is replaced by a new one at the end. */
  function Push(s: Server, fd: int, pid: int, id: string): Server {
    s.(registry := WithoutFd(s.registry, fd) + [ConsumerEntry(fd, pid, s.nextHandle, id)],
       nextHandle := NextHandle(s.nextHandle))
  }

  function Assign(s: Server, id: string, pid: int): Server {
    if Known(s, id) then s.(cgroups := s.cgroups[pid := PathOf(s, id)]) else s
  }

  /** Writing a process to the root's task file takes it out of whatever group it was in. */
  function Release(s: Server, id: string, pid: int): Server {
    if Known(s, id) then s.(cgroups := s.cgroups - {pid}) else s
  }

  function Register(s: Server, fd: int, pid: int, id: string): Server {
    if Known(s, id) then Assign(Push(s, fd, pid, id), id, pid) else s
  }

  ghost predicate HasHandle(reg: seq<ConsumerEntry>, handle: uint64) {
    exists e :: e in reg && e.handle == handle
  }

  ghost function PidsOfFd(reg: seq<ConsumerEntry>, fd: int): set<int> {
    set e | e in reg && e.fd == fd :: e.pid
  }

  ghost function PidsOfHandle(reg: seq<ConsumerEntry>, handle: uint64): set<int> {
    set e | e in reg && e.handle == handle :: e.pid
  }

  ghost function PidsBroken(reg: seq<ConsumerEntry>, id: string, broken: set<int>): set<int> {
    set e | e in reg && e.classId == id && e.fd in broken :: e.pid
  }

  ghost function Disconnect(s: Server, fd: int): Server {
    s.(registry := WithoutFd(s.registry, fd), cgroups := s.cgroups - PidsOfFd(s.registry, fd))
  }

  ghost function Unregister(s: Server, handle: uint64): Server {
    s.(registry := WithoutHandle(s.registry, handle), cgroups := s.cgroups - PidsOfHandle(s.registry, handle))
  }

  function SetState(s: Server, id: string, state: PathState): Server {
    match FindClass(s.classStates, id)
    case None => s
    case Some(k) => s.(classStates := s.classStates[k := s.classStates[k].(state := state)])
  }

  /** The unlocked part of a broadcast. */
  function WriteCache(s: Server, id: string, state: PathState, iface: string, rssi: int32): Server {
    match FindClass(s.classStates, id)
    case None => s
    case Some(k) =>
      s.(classStates := s.classStates[k := s.classStates[k].(state := state, activeIface := iface, rssi := rssi)])
  }

  /** The locked part of a broadcast, when exactly the sockets in `broken` fail. */
  ghost function LockedSend(s: Server, id: string, broken: set<int>): Server {
    s.(registry := Kept(s.registry, id, broken), cgroups := s.cgroups - PidsBroken(s.registry, id, broken))
  }

  // ---- filters, element by element ----

  lemma {:induction false} WithoutFdMembers(reg: seq<ConsumerEntry>, fd: int)
    ensures forall e :: e in WithoutFd(reg, fd) <==> e in reg && e.fd != fd
    ensures |WithoutFd(reg, fd)| <= |reg|
  {
    if reg != [] {
      WithoutFdMembers(reg[1..], fd);
      assert reg == [reg[0]] + reg[1..];
    }
  }

  lemma {:induction false} WithoutHandleMembers(reg: seq<ConsumerEntry>, handle: uint64)
    ensures forall e :: e in WithoutHandle(reg, handle) <==> e in reg && e.handle != handle
  {
    if reg != [] {
      WithoutHandleMembers(reg[1..], handle);
      assert reg == [reg[0]] + reg[1..];
    }
  }

  lemma {:induction false} KeptMembers(reg: seq<ConsumerEntry>, id: string, broken: set<int>)
    ensures forall e :: e in Kept(reg, id, broken) <==> e in reg && !(e.classId == id && e.fd in broken)
  {
    if reg != [] {
      KeptMembers(reg[1..], id, broken);
      assert reg == [reg[0]] + reg[1..];
    }
  }

  /** `ks` lists, in increasing order, exactly the positions of the entries of a class. */
  ghost predicate PositionsOf(reg: seq<ConsumerEntry>, id: string, ks: seq<nat>) {
    && (forall i, j :: 0 <= i < j < |ks| ==> ks[i] < ks[j])
    && (forall k: nat :: k in ks <==> k < |reg| && reg[k].classId == id)
  }

  /** `es` are the entries at those positions. */
  ghost predicate Picks(reg: seq<ConsumerEntry>, id: string, ks: seq<nat>, es: seq<ConsumerEntry>) {
    && PositionsOf(reg, id, ks) && |es| == |ks|
    && forall j :: 0 <= j < |ks| ==> ks[j] < |reg| && es[j] == reg[ks[j]]
  }

  lemma PicksOneMore(reg: seq<ConsumerEntry>, e: ConsumerEntry, id: string, ks: seq<nat>, es: seq<ConsumerEntry>)
    requires Picks(reg, id, ks, es) && e.classId == id
    ensures Picks(reg + [e], id, ks + [|reg|], es + [e])
  {
    var all, ks' := reg + [e], ks + [|reg|];
    assert forall k :: 0 <= k < |reg| ==> all[k] == reg[k];
    forall k: nat ensures k in ks' <==> k < |all| && all[k].classId == id {
      assert k in ks' <==> k in ks || k == |reg|;
    }
  }

  lemma PicksNoMore(reg: seq<ConsumerEntry>, e: ConsumerEntry, id: string, ks: seq<nat>, es: seq<ConsumerEntry>)
    requires Picks(reg, id, ks, es) && e.classId != id
    ensures Picks(reg + [e], id, ks, es)
  {
    assert forall k :: 0 <= k < |reg| ==> (reg + [e])[k] == reg[k];
  }

  lemma TargetsCons(e: ConsumerEntry, reg: seq<ConsumerEntry>, id: string)
    ensures Targets([e] + reg, id) == (if e.classId == id then [e] else []) + Targets(reg, id)
  {
    assert ([e] + reg)[1..] == reg;
  }

  lemma {:induction false} TargetsAppend(reg: seq<ConsumerEntry>, e: ConsumerEntry, id: string)
    ensures Targets(reg + [e], id) == Targets(reg, id) + if e.classId == id then [e] else []
  {
    if reg == [] {
      assert reg + [e] == [e] + [];
      TargetsCons(e, [], id);
    } else {
      var a, rest := reg[0], reg[1..];
      assert reg + [e] == [a] + (rest + [e]) && reg == [a] + rest;
      TargetsCons(a, rest + [e], id);
      TargetsCons(a, rest, id);
      TargetsAppend(rest, e, id);
    }
  }

  /** The targets of a broadcast are the entries of the class, once each, in registry order. */
  lemma {:induction false} TargetsExact(reg: seq<ConsumerEntry>, id: string) returns (ks: seq<nat>)
    ensures Picks(reg, id, ks, Targets(reg, id))
    decreases reg
  {
    ks := [];
    if reg != [] {
      var n := |reg| - 1;
      var front, e := reg[..n], reg[n];
      assert reg == front + [e];
      ks := TargetsExact(front, id);
      TargetsAppend(front, e, id);
      if e.classId == id {
        PicksOneMore(front, e, id, ks, Targets(front, id));
        ks := ks + [n];
      } else {
        PicksNoMore(front, e, id, ks, Targets(front, id));
        assert Targets(front, id) + [] == Targets(front, id);
      }
    }
  }

  /** Entries pairwise different in fd, in handle and, when `pids`, in process. */
  ghost predicate Apart(a: ConsumerEntry, b: ConsumerEntry, handles: bool, pids: bool) {
    a.fd != b.fd && (handles ==> a.handle != b.handle) && (pids ==> a.pid != b.pid)
  }

  ghost predicate PairwiseApart(reg: seq<ConsumerEntry>, handles: bool, pids: bool) {
    forall i, j :: 0 <= i < j < |reg| ==> Apart(reg[i], reg[j], handles, pids)
  }

  lemma ConsApart(a: ConsumerEntry, reg: seq<ConsumerEntry>, handles: bool, pids: bool)
    requires PairwiseApart(reg, handles, pids) && forall e :: e in reg ==> Apart(a, e, handles, pids)
    ensures PairwiseApart([a] + reg, handles, pids)
  {
    forall i, j | 0 <= i < j < |reg| + 1 ensures Apart(([a] + reg)[i], ([a] + reg)[j], handles, pids) {
      if i == 0 {
        assert ([a] + reg)[j] in reg;
      } else {
        assert ([a] + reg)[i] == reg[i - 1] && ([a] + reg)[j] == reg[j - 1];
      }
    }
  }

  lemma TailApart(reg: seq<ConsumerEntry>, handles: bool, pids: bool)
    requires reg != [] && PairwiseApart(reg, handles, pids)
    ensures PairwiseApart(reg[1..], handles, pids) && forall e :: e in reg[1..] ==> Apart(reg[0], e, handles, pids)
  {
    forall e | e in reg[1..] ensures Apart(reg[0], e, handles, pids) {
      var k :| 0 <= k < |reg| - 1 && reg[1..][k] == e;
      assert reg[k + 1] == e;
    }
  }

  lemma {:induction false} FiltersKeepApart(
    reg: seq<ConsumerEntry>, fd: int, handle: uint64, id: string, broken: set<int>, handles: bool, pids: bool)
    requires PairwiseApart(reg, handles, pids)
    ensures PairwiseApart(WithoutFd(reg, fd), handles, pids)
    ensures PairwiseApart(WithoutHandle(reg, handle), handles, pids)
    ensures PairwiseApart(Kept(reg, id, broken), handles, pids)
  {
    if reg != [] {
      TailApart(reg, handles, pids);
      FiltersKeepApart(reg[1..], fd, handle, id, broken, handles, pids);
      WithoutFdMembers(reg[1..], fd);
      WithoutHandleMembers(reg[1..], handle);
      KeptMembers(reg[1..], id, broken);
      ConsApart(reg[0], WithoutFd(reg[1..], fd), handles, pids);
      ConsApart(reg[0], WithoutHandle(reg[1..], handle), handles, pids);
      ConsApart(reg[0], Kept(reg[1..], id, broken), handles, pids);
    }
  }

  lemma AppendApart(reg: seq<ConsumerEntry>, a: ConsumerEntry, handles: bool, pids: bool)
    ensures PairwiseApart(reg + [a], handles, pids)
      <==> PairwiseApart(reg, handles, pids) && forall e :: e in reg ==> Apart(e, a, handles, pids)
  {
    var all := reg + [a];
    assert all[|reg|] == a && forall i :: 0 <= i < |reg| ==> all[i] == reg[i];
    if PairwiseApart(all, handles, pids) {
      forall e | e in reg ensures Apart(e, a, handles, pids) {
        var k :| 0 <= k < |reg| && reg[k] == e;
        assert Apart(all[k], all[|reg|], handles, pids);
      }
      forall i, j | 0 <= i < j < |reg| ensures Apart(reg[i], reg[j], handles, pids) {
        assert Apart(all[i], all[j], handles, pids);
      }
    }
  }

  // ---- every run of the server ----

  datatype Op =
    | DoRegister(fd: int, pid: int, id: string)
    | DoUnregister(handle: uint64)
    | DoDisconnect(fd: int)
    | DoBroadcast(id: string, state: PathState, iface: string, rssi: int32, broken: set<int>)

  ghost function Apply(s: Server, op: Op): Server {
    match op
    case DoRegister(fd, pid, id) => Register(s, fd, pid, id)
    case DoUnregister(handle) => Unregister(s, handle)
    case DoDisconnect(fd) => Disconnect(s, fd)
    case DoBroadcast(id, state, iface, rssi, broken) => LockedSend(WriteCache(s, id, state, iface, rssi), id, broken)
  }

  /** The handles issued by a run, oldest first. */
  ghost function Issued(s: Server, op: Op): seq<uint64> {
    if op.DoRegister? && Known(s, op.id) then [s.nextHandle] else []
  }

  ghost function RunOps(classes: seq<PathClassConfig>, ops: seq<Op>): (Server, seq<uint64>) {
    if ops == [] then (InitialServer(classes), [])
    else
      var (s, issued) := RunOps(classes, ops[..|ops| - 1]);
      (Apply(s, ops[|ops| - 1]), issued + Issued(s, ops[|ops| - 1]))
  }

  ghost predicate Inv(s: Server) {
    PairwiseApart(s.registry, false, false) && forall e :: e in s.registry ==> Known(s, e.classId)
  }

  lemma CacheWritesKeepClasses(s: Server, id: string, state: PathState, iface: string, rssi: int32, other: string)
    ensures FindClass(WriteCache(s, id, state, iface, rssi).classStates, other) == FindClass(s.classStates, other)
    ensures FindClass(SetState(s, id, state).classStates, other) == FindClass(s.classStates, other)
    ensures Known(s, other) ==>
      && PathOf(WriteCache(s, id, state, iface, rssi), other) == PathOf(s, other)
      && PathOf(SetState(s, id, state), other) == PathOf(s, other)
  {
    SameIdsSameIndex(s.classStates, WriteCache(s, id, state, iface, rssi).classStates, other);
    SameIdsSameIndex(s.classStates, SetState(s, id, state).classStates, other);
  }

  lemma {:induction false} SameIdsSameIndex(a: seq<ClassState>, b: seq<ClassState>, id: string)
    requires |a| == |b| && forall k :: 0 <= k < |a| ==> a[k].classId == b[k].classId
    ensures FindClass(a, id) == FindClass(b, id)
  {
    if a != [] && a[0].classId != id {
      SameIdsSameIndex(a[1..], b[1..], id);
    }
  }

  lemma CacheWritesKeepInv(s: Server, id: string, state: PathState, iface: string, rssi: int32)
    requires Inv(s)
    ensures Inv(WriteCache(s, id, state, iface, rssi)) && Inv(SetState(s, id, state))
  {
    forall e | e in s.registry
      ensures Known(WriteCache(s, id, state, iface, rssi), e.classId) && Known(SetState(s, id, state), e.classId)
    {
      CacheWritesKeepClasses(s, id, state, iface, rssi, e.classId);
    }
  }

  /** Every operation keeps one entry per connection, and known classes. */
  lemma ApplyKeepsInv(s: Server, op: Op)
    requires Inv(s)
    ensures Inv(Apply(s, op))
  {
    match op
    case DoRegister(fd, pid, id) =>
      if Known(s, id) {
        FiltersKeepApart(s.registry, fd, 0, id, {}, false, false);
        WithoutFdMembers(s.registry, fd);
        AppendApart(WithoutFd(s.registry, fd), ConsumerEntry(fd, pid, s.nextHandle, id), false, false);
      }
    case DoUnregister(handle) =>
      FiltersKeepApart(s.registry, 0, handle, "", {}, false, false);
      WithoutHandleMembers(s.registry, handle);
    case DoDisconnect(fd) =>
      FiltersKeepApart(s.registry, fd, 0, "", {}, false, false);
      WithoutFdMembers(s.registry, fd);
    case DoBroadcast(id, state, iface, rssi, broken) =>
      FiltersKeepApart(s.registry, 0, 0, id, broken, false, false);
      KeptMembers(s.registry, id, broken);
      CacheWritesKeepInv(s, id, state, iface, rssi);
  }

  /** The n-th handle is n modulo 2^64; the entries hold issued handles, all different before the counter wraps. */
  ghost predicate HandleInv(s: Server, issued: seq<uint64>) {
    && s.nextHandle == (|issued| + 1) % TWO64
    && (forall k :: 0 <= k < |issued| ==> issued[k] == (k + 1) % TWO64)
    && (forall e :: e in s.registry ==> e.handle in issued)
    && (|issued| < TWO64 ==> PairwiseApart(s.registry, true, false))
  }

  lemma HandlesBelow(issued: seq<uint64>, h: uint64)
    requires |issued| < TWO64 && h in issued
    requires forall k :: 0 <= k < |issued| ==> issued[k] == (k + 1) % TWO64
    ensures 0 < h <= |issued|
  {
    var k :| 0 <= k < |issued| && issued[k] == h;
    assert k + 1 == TWO64 ==> false;
  }

  lemma NextHandleCounts(n: nat)
    ensures NextHandle((n + 1) % TWO64) == (n + 2) % TWO64
  {}

  /** A handle the counter has not reached yet differs from every handle issued before. */
  lemma NewHandleApart(reg: seq<ConsumerEntry>, e': ConsumerEntry, issued: seq<uint64>)
    requires |issued| + 1 < TWO64 && e'.handle == |issued| + 1
    requires forall k :: 0 <= k < |issued| ==> issued[k] == (k + 1) % TWO64
    requires forall e :: e in reg ==> e.handle in issued && e.fd != e'.fd
    requires PairwiseApart(reg, true, false)
    ensures PairwiseApart(reg + [e'], true, false)
  {
    forall e | e in reg ensures Apart(e, e', true, false) {
      HandlesBelow(issued, e.handle);
    }
    AppendApart(reg, e', true, false);
  }

  lemma RegisterKeepsHandles(s: Server, fd: int, pid: int, id: string, issued: seq<uint64>)
    requires HandleInv(s, issued) && Known(s, id)
    ensures HandleInv(Register(s, fd, pid, id), issued + [s.nextHandle])
  {
    var issued' := issued + [s.nextHandle];
    var rest, e' := WithoutFd(s.registry, fd), ConsumerEntry(fd, pid, s.nextHandle, id);
    WithoutFdMembers(s.registry, fd);
    NextHandleCounts(|issued|);
    assert issued'[|issued|] == s.nextHandle;
    assert forall e :: e in rest ==> e.handle in issued;
    if |issued'| < TWO64 {
      FiltersKeepApart(s.registry, fd, 0, id, {}, true, false);
      NewHandleApart(rest, e', issued);
    }
  }

  lemma ApplyKeepsHandles(s: Server, op: Op, issued: seq<uint64>)
    requires HandleInv(s, issued)
    ensures HandleInv(Apply(s, op), issued + Issued(s, op))
  {
    if op.DoRegister? && Known(s, op.id) {
      RegisterKeepsHandles(s, op.fd, op.pid, op.id, issued);
    } else {
      assert issued + Issued(s, op) == issued;
      match op
      case DoRegister(_, _, _) =>
      case DoUnregister(handle) =>
        if |issued| < TWO64 { FiltersKeepApart(s.registry, 0, handle, "", {}, true, false); }
        WithoutHandleMembers(s.registry, handle);
      case DoDisconnect(fd) =>
        if |issued| < TWO64 { FiltersKeepApart(s.registry, fd, 0, "", {}, true, false); }
        WithoutFdMembers(s.registry, fd);
      case DoBroadcast(id, state, iface, rssi, broken) =>
        if |issued| < TWO64 { FiltersKeepApart(s.registry, 0, 0, id, broken, true, false); }
        KeptMembers(s.registry, id, broken);
    }
  }

  /** After every run: one entry per connection, known classes, and handles that follow the counter. */
  lemma {:induction false} RunInv(classes: seq<PathClassConfig>, ops: seq<Op>)
    ensures var (s, issued) := RunOps(classes, ops); Inv(s) && HandleInv(s, issued)
  {
    if ops != [] {
      var n := |ops| - 1;
      RunInv(classes, ops[..n]);
      var (s, issued) := RunOps(classes, ops[..n]);
      ApplyKeepsInv(s, ops[n]);
      ApplyKeepsHandles(s, ops[n], issued);
    }
  }

  ghost predicate Fresh(issued: seq<uint64>) {
    && (forall k :: 0 <= k < |issued| ==> issued[k] != 0)
    && (forall i, j :: 0 <= i < j < |issued| ==> issued[i] != issued[j])
  }

  lemma CountedFreshIff(issued: seq<uint64>)
    requires forall k :: 0 <= k < |issued| ==> issued[k] == (k + 1) % TWO64
    ensures Fresh(issued) <==> |issued| < TWO64
  {
    if |issued| >= TWO64 {
      assert issued[TWO64 - 1] == 0;
    } else {
      forall k | 0 <= k < |issued| ensures issued[k] == k + 1 {}
    }
  }

  lemma EntriesBelowNext(s: Server, issued: seq<uint64>)
    requires HandleInv(s, issued) && |issued| < TWO64 - 1
    ensures forall e :: e in s.registry ==> 0 < e.handle < s.nextHandle
  {
    assert s.nextHandle == |issued| + 1;
    forall e | e in s.registry ensures 0 < e.handle < s.nextHandle {
      HandlesBelow(issued, e.handle);
    }
  }

  /** Handles are non-zero and never issued twice exactly while fewer than 2^64 have been issued. */
  lemma HandlesFreshIff(classes: seq<PathClassConfig>, ops: seq<Op>)
    ensures var (s, issued) := RunOps(classes, ops);
      && (Fresh(issued) <==> |issued| < TWO64)
      && (|issued| < TWO64 - 1 ==> forall e :: e in s.registry ==> 0 < e.handle < s.nextHandle)
  {
    RunInv(classes, ops);
    var (s, issued) := RunOps(classes, ops);
    CountedFreshIff(issued);
    if |issued| < TWO64 - 1 { EntriesBelowNext(s, issued); }
  }

  /** Unregistering removes exactly the entry with that handle, and everything else stays in order. */
  lemma UnregisterExact(s: Server, handle: uint64)
    requires PairwiseApart(s.registry, true, false)
    ensures HasHandle(s.registry, handle) ==>
      exists k :: && 0 <= k < |s.registry| && s.registry[k].handle == handle
                  && Unregister(s, handle).registry == s.registry[..k] + s.registry[k + 1..]
    ensures !HasHandle(s.registry, handle) ==> Unregister(s, handle) == s
  {
    if HasHandle(s.registry, handle) {
      var e :| e in s.registry && e.handle == handle;
      var k :| 0 <= k < |s.registry| && s.registry[k] == e;
      HandleGone(s.registry, k);
    } else {
      WithoutAbsentHandle(s.registry, handle);
      assert PidsOfHandle(s.registry, handle) == {};
      assert s.cgroups - {} == s.cgroups;
    }
  }

  lemma {:induction false} WithoutAbsentHandle(reg: seq<ConsumerEntry>, handle: uint64)
    requires !HasHandle(reg, handle)
    ensures WithoutHandle(reg, handle) == reg
  {
    if reg != [] {
      assert forall e :: e in reg[1..] ==> e in reg;
      assert reg[0] in reg;
      WithoutAbsentHandle(reg[1..], handle);
    }
  }

  lemma {:induction false} HandleGone(reg: seq<ConsumerEntry>, k: nat)
    requires PairwiseApart(reg, true, false) && k < |reg|
    ensures WithoutHandle(reg, reg[k].handle) == reg[..k] + reg[k + 1..]
  {
    TailApart(reg, true, false);
    if k == 0 {
      WithoutAbsentHandle(reg[1..], reg[0].handle);
    } else {
      HandleGone(reg[1..], k - 1);
      assert Apart(reg[0], reg[k], true, false);
      assert reg[1..][..k - 1] == reg[1..k] && reg[1..][k..] == reg[k + 1..];
      assert reg[..k] == [reg[0]] + reg[1..k];
    }
  }

  // ---- cgroup membership ----

  /** Each registered process is in its class's group, one entry per process, and every other process is at the root. */
  ghost predicate CgroupInv(s: Server) {
    && PairwiseApart(s.registry, false, true)
    && (forall e :: e in s.registry ==>
          Known(s, e.classId) && e.pid in s.cgroups && s.cgroups[e.pid] == PathOf(s, e.classId))
    && (forall pid :: pid in s.cgroups ==> exists e :: e in s.registry && e.pid == pid)
  }

  /** The connection has always sent this pid, and no other connection uses it. */
  ghost predicate OwnPid(s: Server, fd: int, pid: int) {
    forall e :: e in s.registry ==> (e.fd == fd <==> e.pid == pid)
  }

  /** A registration keeps membership exactly when its pid belongs to its connection and to no other. */
  lemma RegisterKeepsIff(s: Server, fd: int, pid: int, id: string)
    requires CgroupInv(s) && Known(s, id)
    ensures CgroupInv(Register(s, fd, pid, id)) <==> OwnPid(s, fd, pid)
  {
    var s' := Register(s, fd, pid, id);
    var rest, e' := WithoutFd(s.registry, fd), ConsumerEntry(fd, pid, s.nextHandle, id);
    FiltersKeepApart(s.registry, fd, 0, id, {}, false, true);
    WithoutFdMembers(s.registry, fd);
    AppendApart(rest, e', false, true);
    assert e' in s'.registry;
    if OwnPid(s, fd, pid) {
      RegisterKeeps(s, fd, pid, id);
    } else {
      var e :| e in s.registry && !(e.fd == fd <==> e.pid == pid);
      if e.fd == fd {
        assert e.pid in s'.cgroups;
        forall x | x in s'.registry ensures x.pid != e.pid {
          if x != e' {
            assert x in rest && x in s.registry && x != e;
            DifferentEntries(s.registry, x, e);
          }
        }
      } else {
        assert e in rest && !Apart(e, e', false, true);
      }
    }
  }

  lemma DifferentEntries(reg: seq<ConsumerEntry>, a: ConsumerEntry, b: ConsumerEntry)
    requires PairwiseApart(reg, false, true) && a in reg && b in reg && a != b
    ensures a.pid != b.pid
  {
    var i :| 0 <= i < |reg| && reg[i] == a;
    var j :| 0 <= j < |reg| && reg[j] == b;
    if i < j {
      assert Apart(reg[i], reg[j], false, true);
    } else {
      assert Apart(reg[j], reg[i], false, true);
    }
  }

  lemma RegisterEntries(s: Server, fd: int, pid: int, id: string, e: ConsumerEntry)
    requires CgroupInv(s) && Known(s, id) && OwnPid(s, fd, pid) && e in Register(s, fd, pid, id).registry
    ensures var s' := Register(s, fd, pid, id);
      Known(s', e.classId) && e.pid in s'.cgroups && s'.cgroups[e.pid] == PathOf(s', e.classId)
  {
    WithoutFdMembers(s.registry, fd);
    if e in WithoutFd(s.registry, fd) {
      assert e.pid != pid && e.pid in s.cgroups;
    } else {
      assert e == ConsumerEntry(fd, pid, s.nextHandle, id);
    }
  }

  lemma RegisterPids(s: Server, fd: int, pid: int, id: string, q: int)
    requires CgroupInv(s) && Known(s, id) && OwnPid(s, fd, pid) && q in Register(s, fd, pid, id).cgroups
    ensures exists e :: e in Register(s, fd, pid, id).registry && e.pid == q
  {
    var e', reg := ConsumerEntry(fd, pid, s.nextHandle, id), Register(s, fd, pid, id).registry;
    WithoutFdMembers(s.registry, fd);
    if q == pid {
      assert e' in reg;
    } else {
      var e :| e in s.registry && e.pid == q;
      assert e in WithoutFd(s.registry, fd) && e in reg;
    }
  }

  lemma RegisterKeeps(s: Server, fd: int, pid: int, id: string)
    requires CgroupInv(s) && Known(s, id) && OwnPid(s, fd, pid)
    ensures CgroupInv(Register(s, fd, pid, id))
  {
    var s' := Register(s, fd, pid, id);
    FiltersKeepApart(s.registry, fd, 0, id, {}, false, true);
    WithoutFdMembers(s.registry, fd);
    AppendApart(WithoutFd(s.registry, fd), ConsumerEntry(fd, pid, s.nextHandle, id), false, true);
    forall e | e in s'.registry
      ensures Known(s', e.classId) && e.pid in s'.cgroups && s'.cgroups[e.pid] == PathOf(s', e.classId)
    {
      RegisterEntries(s, fd, pid, id, e);
    }
    forall q | q in s'.cgroups ensures exists e :: e in s'.registry && e.pid == q {
      RegisterPids(s, fd, pid, id, q);
    }
  }

  /** Taking entries away together with the membership of their processes keeps the invariant. */
  lemma RemovalKeeps(s: Server, s': Server, gone: set<int>)
    requires CgroupInv(s) && PairwiseApart(s'.registry, false, true)
    requires forall e :: e in s.registry ==> Known(s', e.classId) && PathOf(s', e.classId) == PathOf(s, e.classId)
    requires forall e :: e in s'.registry <==> e in s.registry && e.pid !in gone
    requires s'.cgroups == s.cgroups - gone
    ensures CgroupInv(s')
  {
    forall q | q in s'.cgroups ensures exists e :: e in s'.registry && e.pid == q {
      var e :| e in s.registry && e.pid == q;
      assert e in s'.registry;
    }
  }

  lemma UnregisterKeepsCgroups(s: Server, handle: uint64)
    requires CgroupInv(s)
    ensures CgroupInv(Unregister(s, handle))
  {
    FiltersKeepApart(s.registry, 0, handle, "", {}, false, true);
    WithoutHandleMembers(s.registry, handle);
    forall e | e in s.registry ensures e.handle == handle <==> e.pid in PidsOfHandle(s.registry, handle) {
      if x :| x in s.registry && x.handle == handle && x.pid == e.pid && x != e {
        DifferentEntries(s.registry, x, e);
      }
    }
    RemovalKeeps(s, Unregister(s, handle), PidsOfHandle(s.registry, handle));
  }

  lemma DisconnectKeepsCgroups(s: Server, fd: int)
    requires CgroupInv(s)
    ensures CgroupInv(Disconnect(s, fd))
  {
    FiltersKeepApart(s.registry, fd, 0, "", {}, false, true);
    WithoutFdMembers(s.registry, fd);
    forall e | e in s.registry ensures e.fd == fd <==> e.pid in PidsOfFd(s.registry, fd) {
      if x :| x in s.registry && x.fd == fd && x.pid == e.pid && x != e {
        DifferentEntries(s.registry, x, e);
      }
    }
    RemovalKeeps(s, Disconnect(s, fd), PidsOfFd(s.registry, fd));
  }

  lemma PidsBrokenExact(reg: seq<ConsumerEntry>, id: string, broken: set<int>)
    requires PairwiseApart(reg, false, true)
    ensures forall e :: e in reg ==> ((e.classId == id && e.fd in broken) <==> e.pid in PidsBroken(reg, id, broken))
  {
    forall e | e in reg ensures (e.classId == id && e.fd in broken) <==> e.pid in PidsBroken(reg, id, broken) {
      if x :| x in reg && x.classId == id && x.fd in broken && x.pid == e.pid && x != e {
        DifferentEntries(reg, x, e);
      }
    }
  }

  lemma SendKeepsCgroups(s: Server, id: string, broken: set<int>)
    requires CgroupInv(s)
    ensures CgroupInv(LockedSend(s, id, broken))
  {
    KeptMembers(s.registry, id, broken);
    FiltersKeepApart(s.registry, 0, 0, id, broken, false, true);
    PidsBrokenExact(s.registry, id, broken);
    RemovalKeeps(s, LockedSend(s, id, broken), PidsBroken(s.registry, id, broken));
  }

  /** Cache writes change neither registry nor groups nor group directories. */
  lemma CacheKeepsCgroups(s: Server, id: string, state: PathState, iface: string, rssi: int32)
    requires CgroupInv(s)
    ensures CgroupInv(WriteCache(s, id, state, iface, rssi)) && CgroupInv(SetState(s, id, state))
  {
    forall e | e in s.registry
      ensures && Known(WriteCache(s, id, state, iface, rssi), e.classId)
              && PathOf(WriteCache(s, id, state, iface, rssi), e.classId) == PathOf(s, e.classId)
              && Known(SetState(s, id, state), e.classId)
              && PathOf(SetState(s, id, state), e.classId) == PathOf(s, e.classId)
    {
      CacheWritesKeepClasses(s, id, state, iface, rssi, e.classId);
    }
  }

  /** Unregister, disconnect and broadcast clean-up keep membership unconditionally. */
  lemma OthersKeepCgroups(s: Server, op: Op)
    requires CgroupInv(s) && !op.DoRegister?
    ensures CgroupInv(Apply(s, op))
  {
    match op
    case DoUnregister(handle) => UnregisterKeepsCgroups(s, handle);
    case DoDisconnect(fd) => DisconnectKeepsCgroups(s, fd);
    case DoBroadcast(id, state, iface, rssi, broken) =>
      CacheKeepsCgroups(s, id, state, iface, rssi);
      SendKeepsCgroups(WriteCache(s, id, state, iface, rssi), id, broken);
  }

  /** The class states are those of the configuration, in order, whatever they show. */
  ghost predicate Mirrors(s: Server, classes: seq<PathClassConfig>) {
    && |s.classStates| == |classes|
    && forall k :: 0 <= k < |classes| ==>
         s.classStates[k].classId == classes[k].id && s.classStates[k].cgroupPath == classes[k].cgroupPath
  }

  lemma CacheWritesMirror(s: Server, classes: seq<PathClassConfig>, id: string, state: PathState, iface: string,
                          rssi: int32)
    requires Mirrors(s, classes)
    ensures Mirrors(WriteCache(s, id, state, iface, rssi), classes) && Mirrors(SetState(s, id, state), classes)
  {}

  lemma {:induction false} RunMirrors(classes: seq<PathClassConfig>, ops: seq<Op>)
    ensures Mirrors(RunOps(classes, ops).0, classes)
  {
    if ops != [] {
      var n := |ops| - 1;
      RunMirrors(classes, ops[..n]);
      if ops[n].DoBroadcast? {
        CacheWritesMirror(RunOps(classes, ops[..n]).0, classes, ops[n].id, ops[n].state, ops[n].iface, ops[n].rssi);
      }
    }
  }

  /** The directory of a class is the one its configuration names. */
  lemma ConfiguredPath(s: Server, classes: seq<PathClassConfig>, i: nat)
    requires Distinct(classes) && Mirrors(s, classes) && i < |classes|
    ensures Known(s, classes[i].id) && PathOf(s, classes[i].id) == classes[i].cgroupPath
  {
    assert s.classStates[i].classId == classes[i].id;
    forall k | 0 <= k < |classes| && k != i ensures s.classStates[k].classId != classes[i].id {
      if k < i { assert classes[k].id != classes[i].id; } else { assert classes[i].id != classes[k].id; }
    }
  }

  /** Membership said of the configuration: registered processes are in their class's directory, others at the root. */
  ghost predicate InConfiguredGroups(s: Server, classes: seq<PathClassConfig>) {
    && (forall e :: e in s.registry ==> exists i :: 0 <= i < |classes| && classes[i].id == e.classId)
    && (forall e, i :: e in s.registry && 0 <= i < |classes| && classes[i].id == e.classId ==>
          e.pid in s.cgroups && s.cgroups[e.pid] == classes[i].cgroupPath)
    && (forall pid :: pid in s.cgroups ==> exists e :: e in s.registry && e.pid == pid)
  }

  lemma MembershipIsConfigured(s: Server, classes: seq<PathClassConfig>)
    requires Distinct(classes) && Mirrors(s, classes) && CgroupInv(s)
    ensures InConfiguredGroups(s, classes)
  {
    forall e | e in s.registry ensures exists i :: 0 <= i < |classes| && classes[i].id == e.classId {
      var k := FindClass(s.classStates, e.classId).value;
      assert classes[k].id == s.classStates[k].classId;
    }
    forall e, i | e in s.registry && 0 <= i < |classes| && classes[i].id == e.classId
      ensures e.pid in s.cgroups && s.cgroups[e.pid] == classes[i].cgroupPath
    {
      ConfiguredPath(s, classes, i);
    }
  }

  /** In every run with own pids each registered process is in the directory its class's configuration names. */
  lemma RunInConfiguredGroups(classes: seq<PathClassConfig>, ops: seq<Op>)
    requires Distinct(classes) && PidsStay(classes, ops)
    ensures InConfiguredGroups(RunOps(classes, ops).0, classes)
  {
    RunMirrors(classes, ops);
    RunKeepsCgroups(classes, ops);
    MembershipIsConfigured(RunOps(classes, ops).0, classes);
  }

  /** In a run whose registrations all use their connection's own pid, membership holds throughout. */
  ghost predicate PidsStay(classes: seq<PathClassConfig>, ops: seq<Op>) {
    forall k :: 0 <= k < |ops| && ops[k].DoRegister? ==>
      OwnPid(RunOps(classes, ops[..k]).0, ops[k].fd, ops[k].pid)
  }

  lemma {:induction false} RunKeepsCgroups(classes: seq<PathClassConfig>, ops: seq<Op>)
    requires PidsStay(classes, ops)
    ensures CgroupInv(RunOps(classes, ops).0)
  {
    if ops != [] {
      var n := |ops| - 1;
      forall k | 0 <= k < n && ops[..n][k].DoRegister?
        ensures OwnPid(RunOps(classes, ops[..n][..k]).0, ops[..n][k].fd, ops[..n][k].pid)
      {
        assert ops[..n][..k] == ops[..k];
        assert ops[k].DoRegister?;
      }
      RunKeepsCgroups(classes, ops[..n]);
      var s := RunOps(classes, ops[..n]).0;
      if ops[n].DoRegister? {
        if Known(s, ops[n].id) {
          RegisterKeeps(s, ops[n].fd, ops[n].pid, ops[n].id);
        }
      } else {
        OthersKeepCgroups(s, ops[n]);
      }
    }
  }

  /** Each connection's process is given by a map that gives no two connections the same. */
  ghost predicate Injective(pidOf: int -> int) {
    forall a, b :: pidOf(a) == pidOf(b) ==> a == b
  }

  ghost predicate EntriesFollow(reg: seq<ConsumerEntry>, pidOf: int -> int) {
    forall e :: e in reg ==> e.pid == pidOf(e.fd)
  }

  lemma EntriesFollowMap(s: Server, op: Op, pidOf: int -> int)
    requires EntriesFollow(s.registry, pidOf) && (op.DoRegister? ==> op.pid == pidOf(op.fd))
    ensures EntriesFollow(Apply(s, op).registry, pidOf)
  {
    match op
    case DoRegister(fd, _, _) => WithoutFdMembers(s.registry, fd);
    case DoUnregister(handle) => WithoutHandleMembers(s.registry, handle);
    case DoDisconnect(fd) => WithoutFdMembers(s.registry, fd);
    case DoBroadcast(id, _, _, _, broken) => KeptMembers(s.registry, id, broken);
  }

  lemma {:induction false} RunFollowsMap(classes: seq<PathClassConfig>, ops: seq<Op>, pidOf: int -> int)
    requires forall k :: 0 <= k < |ops| && ops[k].DoRegister? ==> ops[k].pid == pidOf(ops[k].fd)
    ensures EntriesFollow(RunOps(classes, ops).0.registry, pidOf)
  {
    if ops != [] {
      var n := |ops| - 1;
      RunFollowsMap(classes, ops[..n], pidOf);
      EntriesFollowMap(RunOps(classes, ops[..n]).0, ops[n], pidOf);
    }
  }

  /** One process per connection, always the same: membership holds in every run, with nothing to check on the way. */
  lemma OnePidEachKeepsCgroups(classes: seq<PathClassConfig>, ops: seq<Op>, pidOf: int -> int)
    requires Injective(pidOf)
    requires forall k :: 0 <= k < |ops| && ops[k].DoRegister? ==> ops[k].pid == pidOf(ops[k].fd)
    ensures PidsStay(classes, ops) && CgroupInv(RunOps(classes, ops).0)
  {
    forall k | 0 <= k < |ops| && ops[k].DoRegister?
      ensures OwnPid(RunOps(classes, ops[..k]).0, ops[k].fd, ops[k].pid)
    {
      RunFollowsMap(classes, ops[..k], pidOf);
    }
    RunKeepsCgroups(classes, ops);
  }
}
