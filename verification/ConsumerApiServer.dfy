/** The consumer API server: its handlers, in place, against the registry operations. */
module ConsumerApiServer {
  import opened Types
  import opened Environment
  import opened Framing
  import opened Registry

  lemma Regroup<T>(a: seq<T>, b: seq<T>, c: seq<T>)
    ensures a + (b + c) == a + b + c
  {}

  /** Erases the first entry with that fd, as a find followed by an erase does. */
  function EraseFirst(reg: seq<ConsumerEntry>, fd: int): seq<ConsumerEntry> {
    if reg == [] then []
    else if reg[0].fd == fd then reg[1..]
    else [reg[0]] + EraseFirst(reg[1..], fd)
  }

  function EraseEach(reg: seq<ConsumerEntry>, fds: seq<int>): seq<ConsumerEntry> {
    if fds == [] then reg else EraseFirst(EraseEach(reg, fds[..|fds| - 1]), fds[|fds| - 1])
  }

  /** The sockets the send loop found broken, in registry order. */
  function BrokenFds(reg: seq<ConsumerEntry>, id: string, broken: set<int>): seq<int> {
    if reg == [] then []
    else (if reg[0].classId == id && reg[0].fd in broken then [reg[0].fd] else []) + BrokenFds(reg[1..], id, broken)
  }

  lemma {:induction false} BrokenFdsMembers(reg: seq<ConsumerEntry>, id: string, broken: set<int>)
    ensures forall fd :: fd in BrokenFds(reg, id, broken)
              <==> fd in broken && exists e :: e in reg && e.fd == fd && e.classId == id
  {
    if reg != [] {
      BrokenFdsMembers(reg[1..], id, broken);
      assert reg == [reg[0]] + reg[1..];
    }
  }

  lemma {:induction false} EraseFirstIsWithout(reg: seq<ConsumerEntry>, fd: int)
    requires PairwiseApart(reg, false, false)
    ensures EraseFirst(reg, fd) == WithoutFd(reg, fd)
  {
    if reg != [] {
      TailApart(reg, false, false);
      EraseFirstIsWithout(reg[1..], fd);
      if reg[0].fd == fd {
        NoFdNoChange(reg[1..], fd);
      }
    }
  }

  lemma {:induction false} NoFdNoChange(reg: seq<ConsumerEntry>, fd: int)
    requires forall e :: e in reg ==> e.fd != fd
    ensures WithoutFd(reg, fd) == reg
  {
    if reg != [] { NoFdNoChange(reg[1..], fd); }
  }

  lemma {:induction false} EraseFirstSkips(a: ConsumerEntry, reg: seq<ConsumerEntry>, fds: seq<int>)
    requires a.fd !in fds
    ensures EraseEach([a] + reg, fds) == [a] + EraseEach(reg, fds)
  {
    if fds != [] {
      var n := |fds| - 1;
      EraseFirstSkips(a, reg, fds[..n]);
      var rest := EraseEach(reg, fds[..n]);
      assert ([a] + rest)[1..] == rest && ([a] + rest)[0] == a;
    }
  }

  lemma {:induction false} EraseEachCons(reg: seq<ConsumerEntry>, fd: int, fds: seq<int>)
    ensures EraseEach(reg, [fd] + fds) == EraseEach(EraseFirst(reg, fd), fds)
  {
    var all := [fd] + fds;
    if fds == [] {
      assert all[..0] == [];
    } else {
      var n := |fds| - 1;
      EraseEachCons(reg, fd, fds[..n]);
      assert all[..|all| - 1] == [fd] + fds[..n];
    }
  }

  /** With one entry per socket, erasing the broken sockets one by one is the filter. */
  lemma {:induction false} EraseEachIsFilter(reg: seq<ConsumerEntry>, id: string, broken: set<int>)
    requires PairwiseApart(reg, false, false)
    ensures EraseEach(reg, BrokenFds(reg, id, broken)) == Kept(reg, id, broken)
  {
    if reg != [] {
      var rest := reg[1..];
      var fds := BrokenFds(rest, id, broken);
      TailApart(reg, false, false);
      EraseEachIsFilter(rest, id, broken);
      BrokenFdsMembers(rest, id, broken);
      assert reg == [reg[0]] + rest;
      if reg[0].classId == id && reg[0].fd in broken {
        EraseEachCons(reg, reg[0].fd, fds);
      } else {
        assert reg[0].fd !in fds && BrokenFds(reg, id, broken) == fds;
        EraseFirstSkips(reg[0], rest, fds);
        assert EraseEach(reg, fds) == [reg[0]] + Kept(rest, id, broken);
      }
    }
  }

  /** With a socket in two entries, of two classes, the wrong entry goes: the filter needs distinct sockets. */
  lemma SharedSocketErasesWrong(a: ConsumerEntry, b: ConsumerEntry)
    requires a.fd == b.fd && a.classId != b.classId
    ensures EraseEach([a, b], BrokenFds([a, b], b.classId, {b.fd})) == [b]
    ensures Kept([a, b], b.classId, {b.fd}) == [a]
  {
    assert [a, b][1..] == [b] && [b][1..] == [];
    assert BrokenFds([b], b.classId, {b.fd}) == [b.fd];
    assert BrokenFds([a, b], b.classId, {b.fd}) == [b.fd];
    assert [b.fd][..0] == [];
    assert Kept([b], b.classId, {b.fd}) == [];
  }

  /** The same, but for which process is in which group. */
  ghost predicate SameButGroups(a: Server, b: Server) {
    a.(cgroups := b.cgroups) == b
  }

  /** Task files are opened through `env`; one that cannot be opened is left, and the process stays where it is. */
  class ConsumerApiServer {
    const env: Env
    var classStates: seq<ClassState>
    var registry: seq<ConsumerEntry>
    var nextHandle: uint64
    var cgroups: map<int, string>
    /** Sends attempted by broadcasts, in order. */
    ghost var attempts: seq<(int, ApiMsg)>

    function Contents(): Server
      reads this
    {
      Server(classStates, registry, nextHandle, cgroups)
    }

    ghost predicate Valid()
      reads this
    {
      Inv(Contents())
    }

    constructor (classes: seq<PathClassConfig>, env: Env)
      ensures Valid() && Contents() == InitialServer(classes) && attempts == [] && this.env == env
      ensures |classStates| == |classes| && registry == [] && nextHandle == 1 && cgroups == map[]
      ensures forall k :: 0 <= k < |classes| ==>
        classStates[k] == ClassState(classes[k].id, classes[k].cgroupPath, Idle, "", 0)
    {
      this.env := env;
      classStates, registry, nextHandle, cgroups := InitialStates(classes), [], 1, map[];
      attempts := [];
    }

    method FindClassState(id: string) returns (r: Option<nat>)
      ensures r == FindClass(classStates, id)
    {
      for k := 0 to |classStates|
        invariant forall j :: 0 <= j < k ==> classStates[j].classId != id
      {
        if classStates[k].classId == id { return Some(k); }
      }
      return None;
    }

    method AssignCgroupPid(id: string, pid: int)
      modifies this`cgroups, env
      ensures env.calls >= old(env.calls)
      ensures Contents()
           == if env.Clean(old(env.calls)) then Assign(old(Contents()), id, pid) else old(Contents())
      ensures env.Clean(old(env.calls)) ==>
        match FindClass(classStates, id)
        case Some(k) => cgroups == old(cgroups)[pid := classStates[k].cgroupPath]
        case None => cgroups == old(cgroups)
    {
      var c := FindClassState(id);
      if c.None? { return; }
      ghost var n := env.calls;
      var failed := env.Ask();
      assert env.Clean(n) <==> !failed;
      if !failed { cgroups := cgroups[pid := classStates[c.value].cgroupPath]; }
    }

    method RemoveCgroupPid(id: string, pid: int)
      modifies this`cgroups, env
      ensures env.calls >= old(env.calls)
      ensures Contents()
           == if env.Clean(old(env.calls)) then Release(old(Contents()), id, pid) else old(Contents())
      ensures env.Clean(old(env.calls)) && FindClass(classStates, id).Some? ==> cgroups == old(cgroups) - {pid}
    {
      var c := FindClassState(id);
      if c.None? { return; }
      ghost var n := env.calls;
      var failed := env.Ask();
      assert env.Clean(n) <==> !failed;
      if !failed { cgroups := cgroups - {pid}; }
    }

    /** The position of the first entry of a connection. */
    method FindFd(fd: int) returns (k: nat)
      ensures k <= |registry| && (forall j :: 0 <= j < k ==> registry[j].fd != fd)
      ensures k < |registry| ==> registry[k].fd == fd
    {
      k := 0;
      while k < |registry| && registry[k].fd != fd
        invariant k <= |registry| && forall j :: 0 <= j < k ==> registry[j].fd != fd
      {
        k := k + 1;
      }
    }

    /** The entry of the connection goes, and its process leaves its group unless the task file cannot be opened. */
    method RemoveClient(fd: int)
      requires Valid()
      modifies this`registry, this`cgroups, env
      ensures Valid() && env.calls >= old(env.calls)
      ensures env.Clean(old(env.calls)) ==> Contents() == Disconnect(old(Contents()), fd)
      ensures !env.Clean(old(env.calls)) ==>
        Contents() == Disconnect(old(Contents()), fd).(cgroups := old(cgroups))
    {
      ghost var s := Contents();
      ApplyKeepsInv(s, DoDisconnect(fd));
      var k := FindFd(fd);
      DisconnectAt(s, fd, k);
      if k < |registry| {
        RemoveCgroupPid(registry[k].classId, registry[k].pid);
        registry := registry[..k] + registry[k + 1..];
      }
    }

    /** remove_if over the whole registry. */
    method EraseAllOf(fd: int)
      modifies this`registry
      ensures registry == WithoutFd(old(registry), fd)
    {
      var kept: seq<ConsumerEntry> := [];
      for k := 0 to |registry|
        invariant registry == old(registry)
        invariant kept + WithoutFd(registry[k..], fd) == WithoutFd(registry, fd)
      {
        ghost var rest := WithoutFd(registry[k + 1..], fd);
        WithoutFdFrom(registry, fd, k);
        if registry[k].fd != fd {
          Regroup(kept, [registry[k]], rest);
          kept := kept + [registry[k]];
        } else {
          assert [] + rest == rest;
        }
      }
      registry := kept;
    }

    /**
     An unknown class is refused and changes nothing. Otherwise the acknowledgement carries the new handle and the
     class's cached state, and the process joins the group unless its task file cannot be opened.
     */
    method HandleRegister(fd: int, msg: ApiMsg) returns (ack: ApiMsg)
      requires Valid() && MsgOk(msg)
      modifies this, env
      ensures Valid() && attempts == old(attempts) && env.calls >= old(env.calls)
      ensures env.Clean(old(env.calls)) ==>
        Contents() == Register(old(Contents()), fd, msg.pid, BufferToName(msg.classId))
      ensures !env.Clean(old(env.calls)) ==>
        Contents() == Push(old(Contents()), fd, msg.pid, BufferToName(msg.classId))
      ensures !Known(old(Contents()), BufferToName(msg.classId)) ==>
        Contents() == old(Contents()) && ack == ZERO_MSG.(kind := REGISTER_ACK, error := ERROR_UNKNOWN_CLASS)
      ensures Known(old(Contents()), BufferToName(msg.classId)) ==>
        var c := classStates[FindClass(classStates, BufferToName(msg.classId)).value];
        && ack == ZERO_MSG.(kind := REGISTER_ACK, handle := old(nextHandle),
                            classId := NameToBuffer(BufferToName(msg.classId)), state := StateCode(c.state),
                            iface := NameToBuffer(c.activeIface), rssi := c.rssi)
        && registry[|registry| - 1] == ConsumerEntry(fd, msg.pid, ack.handle, c.classId)
        && (env.Clean(old(env.calls)) ==> cgroups == old(cgroups)[msg.pid := c.cgroupPath])
    {
      var id := BufferToName(msg.classId);
      ack := ZERO_MSG.(kind := REGISTER_ACK);
      var known := FindClassState(id);
      if known.None? { return ack.(error := ERROR_UNKNOWN_CLASS); }
      ghost var s := Contents();
      ApplyKeepsInv(s, DoRegister(fd, msg.pid, id));
      EraseAllOf(fd);
      var handle := nextHandle;
      nextHandle := NextHandle(nextHandle);
      registry := registry + [ConsumerEntry(fd, msg.pid, handle, id)];
      assert Contents() == Push(s, fd, msg.pid, id);
      AssignCgroupPid(id, msg.pid);
      ack := ack.(handle := handle, classId := NameToBuffer(id));
      var c := FindClassState(id);
      if c.Some? {
        ack := ack.(state := StateCode(classStates[c.value].state),
                    iface := NameToBuffer(classStates[c.value].activeIface),
                    rssi := classStates[c.value].rssi);
      }
    }

    /** The first entry with that handle goes; without one, an error is reported and nothing changes. */
    method HandleUnregister(msg: ApiMsg) returns (ack: ApiMsg)
      requires Valid()
      modifies this`registry, this`cgroups, env
      ensures Valid() && env.calls >= old(env.calls)
      ensures old(PairwiseApart(registry, true, false)) && env.Clean(old(env.calls)) ==>
        Contents() == Unregister(old(Contents()), msg.handle)
      ensures old(PairwiseApart(registry, true, false)) && !env.Clean(old(env.calls)) ==>
        Contents() == Unregister(old(Contents()), msg.handle).(cgroups := old(cgroups))
      ensures ack == ZERO_MSG.(kind := UNREGISTER_ACK, handle := msg.handle, error := ack.error)
      ensures ack.error == if HasHandle(old(registry), msg.handle) then ERROR_NONE else ERROR_INVALID_MESSAGE
      ensures ack.error == ERROR_INVALID_MESSAGE ==> Contents() == old(Contents())
    {
      ghost var s := Contents();
      ack := ZERO_MSG.(kind := UNREGISTER_ACK, handle := msg.handle);
      var k := 0;
      while k < |registry| && registry[k].handle != msg.handle
        invariant k <= |registry| && forall j :: 0 <= j < k ==> registry[j].handle != msg.handle
      {
        k := k + 1;
      }
      if k == |registry| {
        assert !HasHandle(registry, msg.handle);
        if PairwiseApart(registry, true, false) { UnregisterExact(s, msg.handle); }
        return ack.(error := ERROR_INVALID_MESSAGE);
      }
      assert registry[k] in registry;
      RemoveAtKeepsApart(registry, k);
      if PairwiseApart(registry, true, false) {
        HandleGone(registry, k);
        HandlePids(registry, k);
      }
      RemoveCgroupPid(registry[k].classId, registry[k].pid);
      registry := registry[..k] + registry[k + 1..];
    }

    method QueryCurrentState(id: string) returns (state: PathState)
      ensures state == if Known(Contents(), id) then classStates[FindClass(classStates, id).value].state else Idle
    {
      var c := FindClassState(id);
      return if c.Some? then classStates[c.value].state else Idle;
    }

    method UpdateCurrentState(id: string, state: PathState)
      modifies this`classStates
      ensures Contents() == SetState(old(Contents()), id, state)
    {
      var c := FindClassState(id);
      if c.Some? { classStates := classStates[c.value := classStates[c.value].(state := state)]; }
    }

    /**
     Writes the cache, sends to exactly the entries of the class in registry order, then erases one by one the entries
     of the sockets found broken: what is left is the registry filtered. Only processes of erased entries change group,
     all of them unless a task file cannot be opened.
     */
    method BroadcastPathEvent(id: string, state: PathState, iface: string, rssi: int32, broken: set<int>)
      requires Valid()
      modifies this, env
      ensures Valid() && env.calls >= old(env.calls)
      ensures var told := LockedSend(WriteCache(old(Contents()), id, state, iface, rssi), id, broken);
        && SameButGroups(Contents(), told)
        && (env.Clean(old(env.calls)) ==> Contents() == told)
      ensures var gone := PidsBroken(old(registry), id, broken); cgroups - gone == old(cgroups) - gone
      ensures var msg := ZERO_MSG.(kind := PATH_EVENT, state := StateCode(state), rssi := rssi,
                                   classId := NameToBuffer(id), iface := NameToBuffer(iface));
        attempts == old(attempts) + Addressed(Targets(old(registry), id), msg)
        && SentTo(old(registry), id, msg, attempts[|old(attempts)|..])
    {
      ApplyKeepsInv(Contents(), DoBroadcast(id, state, iface, rssi, broken));
      UpdateCurrentState(id, state);
      var c := FindClassState(id);
      if c.Some? {
        classStates := classStates[c.value := classStates[c.value].(activeIface := iface, rssi := rssi)];
      }
      ghost var s := Contents();
      assert s == WriteCache(old(Contents()), id, state, iface, rssi) by {
        WriteCacheInSteps(old(Contents()), id, state, iface, rssi);
      }
      var msg := ZERO_MSG.(kind := PATH_EVENT, state := StateCode(state), rssi := rssi,
                           classId := NameToBuffer(id), iface := NameToBuffer(iface));
      CacheWritesKeepInv(old(Contents()), id, state, iface, rssi);
      var toRemove := SendToClass(id, msg, broken);
      AddressedExactly(registry, id, msg);
      assert attempts[|old(attempts)|..] == Addressed(Targets(registry, id), msg);
      EraseBroken(id, toRemove, broken);
    }

    method SendToClass(id: string, msg: ApiMsg, broken: set<int>) returns (toRemove: seq<int>)
      modifies this`attempts
      ensures toRemove == BrokenFds(registry, id, broken)
      ensures attempts == old(attempts) + Addressed(Targets(registry, id), msg)
    {
      toRemove := [];
      ghost var start := attempts;
      for k := 0 to |registry|
        invariant attempts == start + Addressed(Targets(registry[..k], id), msg)
        invariant toRemove == BrokenFds(registry[..k], id, broken)
      {
        var e := registry[k];
        SendNext(registry, id, msg, broken, k);
        if e.classId == id {
          Regroup(start, Addressed(Targets(registry[..k], id), msg), [(e.fd, msg)]);
          attempts := attempts + [(e.fd, msg)];
          if e.fd in broken {
            toRemove := toRemove + [e.fd];
          }
        }
      }
      assert registry[..|registry|] == registry;
    }

    method EraseBroken(id: string, toRemove: seq<int>, ghost broken: set<int>)
      requires Valid() && toRemove == BrokenFds(registry, id, broken)
      modifies this`registry, this`cgroups, env
      ensures Valid() && env.calls >= old(env.calls)
      ensures SameButGroups(Contents(), LockedSend(old(Contents()), id, broken))
      ensures env.Clean(old(env.calls)) ==> Contents() == LockedSend(old(Contents()), id, broken)
      ensures var gone := PidsBroken(old(registry), id, broken); cgroups - gone == old(cgroups) - gone
    {
      ghost var s, from := Contents(), env.calls;
      NothingGone(s, toRemove);
      for k := 0 to |toRemove|
        invariant Valid() && env.calls >= from
        invariant Erased(s, Contents(), toRemove[..k])
        invariant env.Clean(from) ==> Released(s, Contents(), toRemove[..k])
      {
        ghost var before, calls := Contents(), env.calls;
        RemoveClient(toRemove[k]);
        ErasedStep(s, before, Contents(), toRemove, k);
        if env.Clean(from) {
          assert env.Clean(calls);
          ReleasedStep(s, before, toRemove, k);
        }
      }
      assert toRemove[..|toRemove|] == toRemove;
      EraseEachIsFilter(s.registry, id, broken);
      GoneAreBroken(s.registry, id, broken);
    }
  }

  lemma NobodyHasFd(reg: seq<ConsumerEntry>, fd: int)
    requires forall j :: 0 <= j < |reg| ==> reg[j].fd != fd
    ensures WithoutFd(reg, fd) == reg && PidsOfFd(reg, fd) == {}
  {
    NoFdNoChange(reg, fd);
  }

  lemma FirstWithFd(reg: seq<ConsumerEntry>, fd: int, k: nat)
    requires PairwiseApart(reg, false, false) && k < |reg| && reg[k].fd == fd
    requires forall j :: 0 <= j < k ==> reg[j].fd != fd
    ensures WithoutFd(reg, fd) == reg[..k] + reg[k + 1..] && PidsOfFd(reg, fd) == {reg[k].pid}
  {
    EraseAt(reg, fd, k);
    EraseFirstIsWithout(reg, fd);
    FdPids(reg, fd);
    assert reg[k] in reg;
  }

  /** What disconnecting does, in terms of the first entry of the connection. */
  lemma DisconnectAt(s: Server, fd: int, k: nat)
    requires Inv(s) && k <= |s.registry| && forall j :: 0 <= j < k ==> s.registry[j].fd != fd
    requires k < |s.registry| ==> s.registry[k].fd == fd
    ensures Disconnect(s, fd)
         == if k == |s.registry| then s
            else Release(s, s.registry[k].classId, s.registry[k].pid)
                 .(registry := s.registry[..k] + s.registry[k + 1..])
  {
    if k == |s.registry| {
      NobodyHasFd(s.registry, fd);
      assert s.cgroups - {} == s.cgroups;
    } else {
      FirstWithFd(s.registry, fd, k);
      assert s.registry[k] in s.registry;
    }
  }

  /** `now` is `s` after the entries of `fds` were erased one by one; nobody else's process has changed group. */
  ghost predicate Erased(s: Server, now: Server, fds: seq<int>) {
    && now.classStates == s.classStates && now.nextHandle == s.nextHandle
    && now.registry == EraseEach(s.registry, fds)
    && (forall e :: e in now.registry ==> e in s.registry)
    && (forall e :: e in s.registry ==> e in now.registry || e.fd in fds)
    && now.cgroups - GonePids(s.registry, fds) == s.cgroups - GonePids(s.registry, fds)
  }

  /** The processes of the erased entries are back at the root. */
  ghost predicate Released(s: Server, now: Server, fds: seq<int>) {
    now.cgroups == s.cgroups - GonePids(s.registry, fds)
  }

  lemma NothingGone(s: Server, fds: seq<int>)
    ensures Erased(s, s, fds[..0]) && Released(s, s, fds[..0])
  {
    assert GonePids(s.registry, fds[..0]) == {};
    assert s.cgroups - {} == s.cgroups;
  }

  lemma ErasedStep(s: Server, before: Server, after: Server, fds: seq<int>, k: nat)
    requires k < |fds| && Inv(before) && Erased(s, before, fds[..k])
    requires var d := Disconnect(before, fds[k]); after == d || after == d.(cgroups := before.cgroups)
    ensures Erased(s, after, fds[..k + 1])
  {
    ErasedEntries(s.registry, before.registry, fds, k);
    GoneStep(s.registry, before.registry, fds, k);
    LeaveOutMore(before.cgroups, s.cgroups, GonePids(s.registry, fds[..k]), PidsOfFd(before.registry, fds[k]));
  }

  lemma ErasedEntries(all: seq<ConsumerEntry>, reg: seq<ConsumerEntry>, fds: seq<int>, k: nat)
    requires k < |fds| && PairwiseApart(reg, false, false) && reg == EraseEach(all, fds[..k])
    requires (forall e :: e in reg ==> e in all) && (forall e :: e in all ==> e in reg || e.fd in fds[..k])
    ensures var rest := WithoutFd(reg, fds[k]);
      && rest == EraseEach(all, fds[..k + 1])
      && (forall e :: e in rest ==> e in all) && (forall e :: e in all ==> e in rest || e.fd in fds[..k + 1])
  {
    assert fds[..k + 1] == fds[..k] + [fds[k]] && fds[..k + 1][..k] == fds[..k];
    EraseFirstIsWithout(reg, fds[k]);
    WithoutFdMembers(reg, fds[k]);
  }

  lemma LeaveOutMore<V>(a: map<int, V>, b: map<int, V>, gone: set<int>, more: set<int>)
    requires a - gone == b - gone
    ensures a - (gone + more) == b - (gone + more) && (a - more) - (gone + more) == b - (gone + more)
  {
    assert a - (gone + more) == (a - gone) - more && b - (gone + more) == (b - gone) - more;
    assert (a - more) - (gone + more) == a - (gone + more);
  }

  lemma ReleasedStep(s: Server, before: Server, fds: seq<int>, k: nat)
    requires k < |fds| && Erased(s, before, fds[..k]) && Released(s, before, fds[..k])
    ensures Released(s, Disconnect(before, fds[k]), fds[..k + 1])
  {
    GoneStep(s.registry, before.registry, fds, k);
    assert s.cgroups - GonePids(s.registry, fds[..k]) - PidsOfFd(before.registry, fds[k])
        == s.cgroups - (GonePids(s.registry, fds[..k]) + PidsOfFd(before.registry, fds[k]));
  }

  ghost function GonePids(reg: seq<ConsumerEntry>, fds: seq<int>): set<int> {
    set e | e in reg && e.fd in fds :: e.pid
  }

  lemma GoneStep(all: seq<ConsumerEntry>, reg: seq<ConsumerEntry>, fds: seq<int>, k: nat)
    requires k < |fds|
    requires forall e :: e in reg ==> e in all
    requires forall e :: e in all ==> e in reg || e.fd in fds[..k]
    ensures GonePids(all, fds[..k + 1]) == GonePids(all, fds[..k]) + PidsOfFd(reg, fds[k])
  {
    assert forall fd :: fd in fds[..k + 1] <==> fd in fds[..k] || fd == fds[k];
  }

  lemma GoneAreBroken(reg: seq<ConsumerEntry>, id: string, broken: set<int>)
    requires PairwiseApart(reg, false, false)
    ensures GonePids(reg, BrokenFds(reg, id, broken)) == PidsBroken(reg, id, broken)
  {
    BrokenFdsMembers(reg, id, broken);
    forall e | e in reg
      ensures e.fd in BrokenFds(reg, id, broken) <==> e.classId == id && e.fd in broken
    {
      if x :| x in reg && x.fd == e.fd && x.classId == id {
        SameFdSameEntry(reg, x, e);
      }
    }
  }

  lemma SameFdSameEntry(reg: seq<ConsumerEntry>, a: ConsumerEntry, b: ConsumerEntry)
    requires PairwiseApart(reg, false, false) && a in reg && b in reg && a.fd == b.fd
    ensures a == b
  {
    var i :| 0 <= i < |reg| && reg[i] == a;
    var j :| 0 <= j < |reg| && reg[j] == b;
    assert i < j ==> Apart(reg[i], reg[j], false, false);
    assert j < i ==> Apart(reg[j], reg[i], false, false);
  }

  lemma FdPids(reg: seq<ConsumerEntry>, fd: int)
    requires PairwiseApart(reg, false, false)
    ensures forall e :: e in reg && e.fd == fd ==> PidsOfFd(reg, fd) == {e.pid}
    ensures (forall e :: e in reg ==> e.fd != fd) ==> PidsOfFd(reg, fd) == {}
  {
    forall e | e in reg && e.fd == fd ensures PidsOfFd(reg, fd) == {e.pid} {
      forall x | x in reg && x.fd == fd ensures x == e {
        SameFdSameEntry(reg, x, e);
      }
    }
  }

  lemma RemoveAtKeepsApart(reg: seq<ConsumerEntry>, k: nat)
    requires PairwiseApart(reg, false, false) && k < |reg|
    ensures PairwiseApart(reg[..k] + reg[k + 1..], false, false)
    ensures forall e :: e in reg[..k] + reg[k + 1..] ==> e in reg
  {
    var rest := reg[..k] + reg[k + 1..];
    forall i, j | 0 <= i < j < |rest| ensures Apart(rest[i], rest[j], false, false) {
      var i', j' := if i < k then i else i + 1, if j < k then j else j + 1;
      assert rest[i] == reg[i'] && rest[j] == reg[j'] && Apart(reg[i'], reg[j'], false, false);
    }
  }

  lemma HandlePids(reg: seq<ConsumerEntry>, k: nat)
    requires PairwiseApart(reg, true, false) && k < |reg|
    ensures PidsOfHandle(reg, reg[k].handle) == {reg[k].pid}
  {
    assert reg[k] in reg;
    forall x | x in reg && x.handle == reg[k].handle ensures x == reg[k] {
      var j :| 0 <= j < |reg| && reg[j] == x;
      assert j < k ==> Apart(reg[j], reg[k], true, false);
      assert k < j ==> Apart(reg[k], reg[j], true, false);
    }
  }

  lemma SkipFirst<T>(s: seq<T>, k: nat)
    requires 0 < k < |s|
    ensures [s[0]] + (s[1..][..k - 1] + s[1..][k..]) == s[..k] + s[k + 1..]
  {
    assert [s[0]] + s[1..][..k - 1] == s[..k] && s[1..][k..] == s[k + 1..];
  }

  lemma {:induction false} EraseAt(reg: seq<ConsumerEntry>, fd: int, k: nat)
    requires k <= |reg| && (forall j :: 0 <= j < k ==> reg[j].fd != fd) && (k < |reg| ==> reg[k].fd == fd)
    ensures EraseFirst(reg, fd) == if k < |reg| then reg[..k] + reg[k + 1..] else reg
  {
    if k > 0 {
      assert forall j :: 0 <= j < |reg| - 1 ==> reg[1..][j] == reg[j + 1];
      EraseAt(reg[1..], fd, k - 1);
      if k < |reg| {
        SkipFirst(reg, k);
      } else {
        assert reg == [reg[0]] + reg[1..];
      }
    }
  }

  ghost function Addressed(es: seq<ConsumerEntry>, msg: ApiMsg): seq<(int, ApiMsg)> {
    seq(|es|, i requires 0 <= i < |es| => (es[i].fd, msg))
  }

  lemma WithoutFdFrom(reg: seq<ConsumerEntry>, fd: int, k: nat)
    requires k < |reg|
    ensures WithoutFd(reg[k..], fd)
         == (if reg[k].fd == fd then [] else [reg[k]]) + WithoutFd(reg[k + 1..], fd)
  {
    assert reg[k..][0] == reg[k] && reg[k..][1..] == reg[k + 1..];
  }

  /** The message went to exactly the entries of the class, once each, in registry order. */
  ghost predicate SentTo(reg: seq<ConsumerEntry>, id: string, msg: ApiMsg, sent: seq<(int, ApiMsg)>) {
    exists ks :: PositionsOf(reg, id, ks) && |ks| == |sent|
      && forall j :: 0 <= j < |ks| ==> ks[j] < |reg| && sent[j] == (reg[ks[j]].fd, msg)
  }

  lemma AddressedExactly(reg: seq<ConsumerEntry>, id: string, msg: ApiMsg)
    ensures SentTo(reg, id, msg, Addressed(Targets(reg, id), msg))
  {
    var ks := TargetsExact(reg, id);
  }

  /** A socket was attempted if and only if an entry of the class has it. */
  lemma AttemptedIff(reg: seq<ConsumerEntry>, id: string, msg: ApiMsg, sent: seq<(int, ApiMsg)>, fd: int)
    requires SentTo(reg, id, msg, sent)
    ensures (fd, msg) in sent <==> exists e :: e in reg && e.fd == fd && e.classId == id
  {
    var ks :| PositionsOf(reg, id, ks) && |ks| == |sent|
              && forall j :: 0 <= j < |ks| ==> ks[j] < |reg| && sent[j] == (reg[ks[j]].fd, msg);
    if (fd, msg) in sent {
      var j :| 0 <= j < |sent| && sent[j] == (fd, msg);
      assert ks[j] in ks && reg[ks[j]] in reg;
    }
    if e :| e in reg && e.fd == fd && e.classId == id {
      var k :| 0 <= k < |reg| && reg[k] == e;
      assert k in ks;
      var j :| 0 <= j < |ks| && ks[j] == k;
      assert sent[j] == (fd, msg);
    }
  }

  lemma AddressedLast(before: seq<ConsumerEntry>, e: ConsumerEntry, msg: ApiMsg)
    ensures Addressed(before + [e], msg) == Addressed(before, msg) + [(e.fd, msg)]
  {}

  lemma {:induction false} BrokenAppend(reg: seq<ConsumerEntry>, e: ConsumerEntry, id: string, broken: set<int>)
    ensures BrokenFds(reg + [e], id, broken)
         == BrokenFds(reg, id, broken) + if e.classId == id && e.fd in broken then [e.fd] else []
  {
    if reg == [] {
      assert reg + [e] == [e] && [e][1..] == [];
    } else {
      assert (reg + [e])[0] == reg[0] && (reg + [e])[1..] == reg[1..] + [e];
      BrokenAppend(reg[1..], e, id, broken);
    }
  }

  /** What the entry at `k` adds to the sends, and to the sockets found broken. */
  lemma SendNext(reg: seq<ConsumerEntry>, id: string, msg: ApiMsg, broken: set<int>, k: nat)
    requires k < |reg|
    ensures var sent, sent' := Addressed(Targets(reg[..k], id), msg), Addressed(Targets(reg[..k + 1], id), msg);
      sent' == if reg[k].classId == id then sent + [(reg[k].fd, msg)] else sent
    ensures var lost, lost' := BrokenFds(reg[..k], id, broken), BrokenFds(reg[..k + 1], id, broken);
      lost' == if reg[k].classId == id && reg[k].fd in broken then lost + [reg[k].fd] else lost
  {
    var front, e := reg[..k], reg[k];
    assert reg[..k + 1] == front + [e];
    TargetsAppend(front, e, id);
    BrokenAppend(front, e, id, broken);
    AddressedLast(Targets(front, id), e, msg);
    NothingAdded(Targets(front, id));
    NothingAdded(BrokenFds(front, id, broken));
  }

  lemma NothingAdded<T>(s: seq<T>)
    ensures s + [] == s
  {}

  lemma WriteCacheInSteps(s: Server, id: string, state: PathState, iface: string, rssi: int32)
    ensures var t := SetState(s, id, state);
      match FindClass(t.classStates, id)
      case None => WriteCache(s, id, state, iface, rssi) == t
      case Some(k) =>
        WriteCache(s, id, state, iface, rssi)
          == t.(classStates := t.classStates[k := t.classStates[k].(activeIface := iface, rssi := rssi)])
  {
    CacheWritesKeepClasses(s, id, state, iface, rssi, id);
  }
}
