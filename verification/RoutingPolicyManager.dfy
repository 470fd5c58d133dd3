/** Installing and removing the compiled policy in the kernel. */
module RoutingPolicyManager {
  import opened Types
  import opened Environment
  import opened Netfilter
  import opened ChainEdits
  import opened PolicyCompiler
  import opened IpRules
  import opened Routes

  datatype RoutingError = IptablesError | NetlinkError

  datatype TableId = Mangle | Filter

  lemma Grow<T>(s: seq<T>, n: nat)
    requires n < |s|
    ensures s[..n + 1][..n] == s[..n] && s[..n + 1][n] == s[n]
  {}

  /** The kernel state the daemon edits, behind calls that may fail. */
  class Kernel {
    const env: Env
    var mangle: Table
    var filter: Table
    var ipRules: seq<IpRule>
    var routes: RouteMap

    constructor (mangle: Table, filter: Table, ipRules: seq<IpRule>, env: Env)
      ensures this.mangle == mangle && this.filter == filter && this.ipRules == ipRules && this.env == env
      ensures routes == map[]
    {
      this.mangle, this.filter, this.ipRules, this.env := mangle, filter, ipRules, env;
      routes := map[];
    }

    function Get(id: TableId): Table
      reads this
    {
      if id == Mangle then mangle else filter
    }

    /** Takes a private copy of a table, or fails. */
    method Open(id: TableId) returns (h: Handle?)
      modifies env
      ensures env.calls == old(env.calls) + 1
      ensures h == null <==> env.fails(old(env.calls))
      ensures h != null ==> fresh(h) && h.staged == Get(id) && h.env == env
    {
      var failed := env.Ask();
      if failed { return null; }
      h := new Handle(Get(id), env);
    }

    /** Replaces the table by the staged copy at once, or leaves it alone. */
    method Commit(id: TableId, h: Handle) returns (ok: bool)
      modifies this`mangle, this`filter, env
      ensures env.calls == old(env.calls) + 1
      ensures ok <==> !env.fails(old(env.calls))
      ensures mangle == if ok && id == Mangle then h.staged else old(mangle)
      ensures filter == if ok && id == Filter then h.staged else old(filter)
    {
      var failed := env.Ask();
      ok := !failed;
      if ok {
        if id == Mangle { mangle := h.staged; } else { filter := h.staged; }
      }
    }

    /** One netlink request. A failure is reported either before or after the kernel has acted on it. */
    method SendFwmarkRule(create: bool, r: IpRule) returns (ok: bool)
      modifies this`ipRules, env
      ensures env.calls == old(env.calls) + 1
      ensures ok <==> !env.fails(old(env.calls))
      ensures var done := if create then AddRule(old(ipRules), r) else DeleteRule(old(ipRules), r);
        ipRules == done || (!ok && ipRules == old(ipRules))
    {
      var failed := env.Ask();
      ok := !failed;
      var applied: bool := *;
      if ok || applied {
        ipRules := if create then AddRule(ipRules, r) else DeleteRule(ipRules, r);
      }
    }
  }

  class RoutingPolicyManager {
    const classes: seq<PathClassConfig>
    const kernel: Kernel

    constructor (classes: seq<PathClassConfig>, kernel: Kernel)
      ensures this.classes == classes && this.kernel == kernel
    {
      this.classes, this.kernel := classes, kernel;
    }

    /** Empties or creates the chain and makes sure OUTPUT jumps to it. Fails exactly if one of its calls does. */
    method PrepareChain(h: Handle, chain: string) returns (ok: bool)
      modifies h, h.env
      ensures h.env.calls >= old(h.env.calls)
      ensures ok <==> h.env.Clean(old(h.env.calls))
      ensures ok ==> h.staged == Prepared(old(h.staged), chain)
    {
      if chain in h.staged.chains {
        ok := h.Flush(chain);
      } else {
        ok := h.Create(chain);
      }
      if !ok { return; }
      var n := 0;
      while n < |h.staged.output| && !JumpsTo(h.staged.output[n], chain)
        invariant n <= |h.staged.output|
        invariant forall k :: 0 <= k < n ==> !JumpsTo(h.staged.output[k], chain)
      {
        n := n + 1;
      }
      ScanResult(h.staged.output, chain, n);
      if n == |h.staged.output| {
        ok := h.AppendOutput(Rule([], JumpTo(chain)));
      } else {
        assert h.staged.output + [] == h.staged.output;
      }
    }

    /** One commit installs exactly the compiled MARK chain; a failure at any call changes nothing. */
    method AddIptablesMarkRules() returns (r: Result<(), RoutingError>)
      modifies kernel`mangle, kernel`filter, kernel.env
      ensures kernel.env.calls >= old(kernel.env.calls)
      ensures r.Ok? <==> kernel.env.Clean(old(kernel.env.calls))
      ensures r.Ok? ==> kernel.mangle == AddChain(old(kernel.mangle), MARK_CHAIN, MarkRules(classes))
      ensures r.Err? ==> kernel.mangle == old(kernel.mangle)
      ensures kernel.filter == old(kernel.filter)
    {
      ghost var from := kernel.env.calls;
      var h := kernel.Open(Mangle);
      if h == null { return Err(IptablesError); }
      var ok := PrepareChain(h, MARK_CHAIN);
      if !ok { return Err(IptablesError); }
      ghost var prepared := h.staged;
      for n := 0 to |classes|
        modifies h, kernel.env
        invariant kernel.env.calls >= from && kernel.env.Clean(from)
        invariant h.staged == prepared.(chains := prepared.chains[MARK_CHAIN := MarkRules(classes[..n])])
      {
        ok := h.Append(MARK_CHAIN, MarkRule(classes[n]));
        if !ok { return Err(IptablesError); }
        assert MarkRules(classes[..n + 1]) == MarkRules(classes[..n]) + [MarkRule(classes[n])];
      }
      assert classes[..|classes|] == classes;
      ok := kernel.Commit(Mangle, h);
      return if ok then Ok(()) else Err(IptablesError);
    }

    /** Stops at the first failure, which may leave a prefix of the rules behind. */
    method AddIpRules() returns (r: Result<(), RoutingError>)
      modifies kernel`ipRules, kernel.env
      ensures kernel.env.calls >= old(kernel.env.calls)
      ensures r.Ok? <==> kernel.env.Clean(old(kernel.env.calls))
      ensures r.Ok? ==> kernel.ipRules == AddAll(old(kernel.ipRules), classes)
      ensures exists n :: 0 <= n <= |classes| && kernel.ipRules == AddAll(old(kernel.ipRules), classes[..n])
    {
      ghost var start, from := kernel.ipRules, kernel.env.calls;
      for n := 0 to |classes|
        invariant kernel.env.calls >= from && kernel.env.Clean(from)
        invariant kernel.ipRules == AddAll(start, classes[..n])
      {
        Grow(classes, n);
        var ok := kernel.SendFwmarkRule(true, OwnRule(classes[n]));
        if !ok {
          assert kernel.ipRules == AddAll(start, classes[..n]) || kernel.ipRules == AddAll(start, classes[..n + 1]);
          return Err(NetlinkError);
        }
      }
      assert classes[..|classes|] == classes;
      return Ok(());
    }

    /** Asks for every deletion, going on after failures. */
    method RemoveIpRules()
      modifies kernel`ipRules, kernel.env
      ensures kernel.env.calls >= old(kernel.env.calls)
      ensures kernel.env.Clean(old(kernel.env.calls)) ==> kernel.ipRules == DeleteAll(old(kernel.ipRules), classes)
      ensures Without(kernel.ipRules, OwnRules(classes)) == Without(old(kernel.ipRules), OwnRules(classes))
    {
      ghost var start, own, from := kernel.ipRules, OwnRules(classes), kernel.env.calls;
      for n := 0 to |classes|
        invariant kernel.env.calls >= from
        invariant kernel.env.Clean(from) ==> kernel.ipRules == DeleteAll(start, classes[..n])
        invariant Without(kernel.ipRules, own) == Without(start, own)
      {
        ghost var before, calls := kernel.ipRules, kernel.env.calls;
        Grow(classes, n);
        DeleteMeaning(before, OwnRule(classes[n]), own);
        assert OwnRule(classes[n]) in own;
        var ok := kernel.SendFwmarkRule(false, OwnRule(classes[n]));
        assert !ok ==> kernel.env.fails(calls);
      }
      assert classes[..|classes|] == classes;
    }

    /** Builds one drop rule in place: copied name bytes, then the mask over them and their NUL. */
    method BuildDropEntry(outiface: string, mark: bv32) returns (r: Rule)
      ensures r == DropRule(outiface, mark)
    {
      var name := new char[IFNAMSIZ](_ => '\0');
      var ifLen := NameLen(outiface);
      for i := 0 to ifLen
        invariant forall k :: 0 <= k < IFNAMSIZ ==> name[k] == if k < i then outiface[k] else '\0'
      {
        name[i] := outiface[i];
      }
      assert name[..] == NameBuffer(outiface);
      var mask := new bv8[IFNAMSIZ](_ => 0);
      for i := 0 to ifLen + 1
        modifies mask
        invariant forall k :: 0 <= k < IFNAMSIZ ==> mask[k] == if k < i then 0xFF else 0
      {
        mask[i] := 0xFF;
      }
      assert name[..] == NameBuffer(outiface) && mask[..] == NameMask(outiface);
      r := Rule([OutIface(name[..], mask[..]), MarkIs(mark, FULL_MASK, false)], Drop);
    }

    /** The handle holds `base` with the ISO chain filled from `pairs`. */
    ghost predicate IsoStaged(h: Handle, base: Table, pairs: seq<(string, bv32)>)
      reads h
    {
      h.staged == base.(chains := base.chains[ISO_CHAIN := RulesOf(pairs)])
    }

    method AppendDrop(h: Handle, iface: string, mark: bv32, ghost base: Table, ghost pairs: seq<(string, bv32)>)
      returns (ok: bool)
      requires IsoStaged(h, base, pairs)
      modifies h, h.env
      ensures h.env.calls >= old(h.env.calls)
      ensures ok <==> h.env.Clean(old(h.env.calls))
      ensures ok ==> IsoStaged(h, base, pairs + [(iface, mark)])
    {
      var r := BuildDropEntry(iface, mark);
      ok := h.Append(ISO_CHAIN, r);
      assert RulesOf(pairs + [(iface, mark)]) == RulesOf(pairs) + [r];
    }

    method AppendOwnDrops(h: Handle, s: PathClassConfig, names: seq<string>,
                          ghost base: Table, ghost pairs: seq<(string, bv32)>)
      returns (ok: bool)
      requires IsoStaged(h, base, pairs)
      modifies h, h.env
      ensures h.env.calls >= old(h.env.calls)
      ensures ok <==> h.env.Clean(old(h.env.calls))
      ensures ok ==> IsoStaged(h, base, pairs + OwnPairs(s, names))
    {
      ghost var from := h.env.calls;
      assert pairs + OwnPairs(s, names[..0]) == pairs;
      for n := 0 to |names|
        invariant h.env.calls >= from && h.env.Clean(from)
        invariant IsoStaged(h, base, pairs + OwnPairs(s, names[..n]))
      {
        ghost var sofar := pairs + OwnPairs(s, names[..n]);
        Grow(names, n);
        if names[n] !in s.interfaces {
          ok := AppendDrop(h, names[n], s.mark, base, sofar);
          if !ok { return; }
          assert sofar + [(names[n], s.mark)] == pairs + OwnPairs(s, names[..n + 1]);
        } else {
          assert OwnPairs(s, names[..n]) + [] == OwnPairs(s, names[..n]);
        }
      }
      assert names[..|names|] == names;
      return true;
    }

    method AppendPairsFor(h: Handle, names: seq<string>, mark: bv32,
                          ghost base: Table, ghost pairs: seq<(string, bv32)>)
      returns (ok: bool)
      requires IsoStaged(h, base, pairs)
      modifies h, h.env
      ensures h.env.calls >= old(h.env.calls)
      ensures ok <==> h.env.Clean(old(h.env.calls))
      ensures ok ==> IsoStaged(h, base, pairs + PairsFor(names, mark))
    {
      ghost var from := h.env.calls;
      assert pairs + PairsFor(names[..0], mark) == pairs;
      for n := 0 to |names|
        invariant h.env.calls >= from && h.env.Clean(from)
        invariant IsoStaged(h, base, pairs + PairsFor(names[..n], mark))
      {
        ghost var sofar := pairs + PairsFor(names[..n], mark);
        ok := AppendDrop(h, names[n], mark, base, sofar);
        if !ok { return; }
        assert sofar + [(names[n], mark)] == pairs + PairsFor(names[..n + 1], mark);
      }
      assert names[..|names|] == names;
      return true;
    }

    method AppendOtherDrops(h: Handle, s: PathClassConfig, ghost base: Table, ghost pairs: seq<(string, bv32)>)
      returns (ok: bool)
      requires IsoStaged(h, base, pairs)
      modifies h, h.env
      ensures h.env.calls >= old(h.env.calls)
      ensures ok <==> h.env.Clean(old(h.env.calls))
      ensures ok ==> IsoStaged(h, base, pairs + OtherPairs(s, classes))
    {
      ghost var from := h.env.calls;
      assert pairs + OtherPairs(s, classes[..0]) == pairs;
      for n := 0 to |classes|
        invariant h.env.calls >= from && h.env.Clean(from)
        invariant IsoStaged(h, base, pairs + OtherPairs(s, classes[..n]))
      {
        ghost var sofar := pairs + OtherPairs(s, classes[..n]);
        var b := classes[n];
        Grow(classes, n);
        if b.id != s.id {
          ok := AppendPairsFor(h, s.interfaces, b.mark, base, sofar);
          if !ok { return; }
          assert sofar + PairsFor(s.interfaces, b.mark) == pairs + OtherPairs(s, classes[..n + 1]);
        } else {
          assert OtherPairs(s, classes[..n]) + [] == OtherPairs(s, classes[..n]);
        }
      }
      assert classes[..|classes|] == classes;
      return true;
    }

    /** Every interface named in some class, once, in order of first mention. */
    method CollectIfaces() returns (names: seq<string>)
      ensures names == AllIfaces(classes)
    {
      names := [];
      for n := 0 to |classes|
        invariant names == AllIfaces(classes[..n])
      {
        Grow(classes, n);
        ghost var before := names;
        var fs := classes[n].interfaces;
        for k := 0 to |fs|
          invariant names == AddNames(before, fs[..k])
        {
          Grow(fs, k);
          if fs[k] !in names {
            names := names + [fs[k]];
          }
        }
        assert fs[..|fs|] == fs;
      }
      assert classes[..|classes|] == classes;
    }

    method AppendAllDrops(h: Handle, ghost base: Table) returns (ok: bool)
      requires IsoStaged(h, base, [])
      modifies h, h.env
      ensures h.env.calls >= old(h.env.calls)
      ensures ok <==> h.env.Clean(old(h.env.calls))
      ensures ok ==> IsoStaged(h, base, StrictPairs(classes, classes))
    {
      ghost var from := h.env.calls;
      var names := CollectIfaces();
      for n := 0 to |classes|
        invariant h.env.calls >= from && h.env.Clean(from)
        invariant IsoStaged(h, base, StrictPairs(classes[..n], classes))
      {
        ghost var sofar := StrictPairs(classes[..n], classes);
        var s := classes[n];
        Grow(classes, n);
        if s.strictIsolation {
          ok := AppendOwnDrops(h, s, names, base, sofar);
          if !ok { return; }
          ok := AppendOtherDrops(h, s, base, sofar + OwnPairs(s, names));
          if !ok { return; }
          assert sofar + OwnPairs(s, names) + OtherPairs(s, classes)
              == sofar + (OwnPairs(s, names) + OtherPairs(s, classes));
        } else {
          assert sofar + [] == sofar;
        }
      }
      assert classes[..|classes|] == classes;
      return true;
    }

    /**
     With a strict class, one commit installs exactly the compiled ISO chain. Without one nothing is touched, not even
     a chain left by an earlier run.
     */
    method AddDropRules() returns (r: Result<(), RoutingError>)
      modifies kernel`mangle, kernel`filter, kernel.env
      ensures kernel.env.calls >= old(kernel.env.calls)
      ensures r.Ok? <==> kernel.env.Clean(old(kernel.env.calls))
      ensures r.Ok? && AnyStrict(classes) ==>
        kernel.filter == AddChain(old(kernel.filter), ISO_CHAIN, DropRules(classes))
      ensures r.Err? || !AnyStrict(classes) ==> kernel.filter == old(kernel.filter)
      ensures kernel.mangle == old(kernel.mangle)
      ensures !AnyStrict(classes) ==> r.Ok?
    {
      if !AnyStrict(classes) { return Ok(()); }
      var h := kernel.Open(Filter);
      if h == null { return Err(IptablesError); }
      var ok := PrepareChain(h, ISO_CHAIN);
      if !ok { return Err(IptablesError); }
      ghost var base := h.staged;
      assert RulesOf([]) == [];
      ok := AppendAllDrops(h, base);
      if !ok { return Err(IptablesError); }
      ok := kernel.Commit(Filter, h);
      return if ok then Ok(()) else Err(IptablesError);
    }

    /** Deletes the first jump from OUTPUT, if there is one. */
    method DeleteJump(h: Handle, chain: string)
      modifies h, h.env
      ensures h.env.calls >= old(h.env.calls)
      ensures h.staged.chains == old(h.staged.chains)
      ensures h.env.Clean(old(h.env.calls)) ==> h.staged.output == RemoveFirstJump(old(h.staged.output), chain)
      ensures WithoutJumps(h.staged.output, chain) == WithoutJumps(old(h.staged.output), chain)
    {
      ghost var output, from := h.staged.output, h.env.calls;
      var n := 0;
      while n < |h.staged.output| && !JumpsTo(h.staged.output[n], chain)
        invariant n <= |h.staged.output|
        invariant forall k :: 0 <= k < n ==> !JumpsTo(h.staged.output[k], chain)
      {
        n := n + 1;
      }
      ScanResult(output, chain, n);
      RemoveFirstJumpCount(output, chain);
      if n < |h.staged.output| {
        var ok := h.DeleteOutput(n);
        assert !ok ==> h.env.fails(from);
      }
    }

    /** Empties and deletes the chain; both calls are made whatever the first one reports. */
    method DeleteEmptied(h: Handle, chain: string)
      requires chain in h.staged.chains
      modifies h, h.env
      ensures h.env.calls >= old(h.env.calls)
      ensures h.staged.output == old(h.staged.output)
      ensures h.staged.chains - {chain} == old(h.staged.chains) - {chain}
      ensures h.env.Clean(old(h.env.calls)) ==>
        var flushed := old(h.staged).(chains := old(h.staged.chains)[chain := []]);
        h.staged == if Referenced(flushed, chain) then flushed else flushed.(chains := flushed.chains - {chain})
    {
      ghost var from := h.env.calls;
      var emptied := h.Flush(chain);
      assert !emptied ==> h.env.fails(from);
      var deleted := h.Delete(chain);
      assert emptied && !deleted && h.Deletable(chain) ==> h.env.fails(from + 1);
    }

    /** Deletes the jump, the rules and the chain, going on after every failure. */
    method RemoveChainFrom(id: TableId, chain: string)
      modifies kernel`mangle, kernel`filter, kernel.env
      ensures kernel.env.calls >= old(kernel.env.calls)
      ensures kernel.env.Clean(old(kernel.env.calls)) ==> kernel.Get(id) == RemoveChain(old(kernel.Get(id)), chain)
      ensures Foreign(kernel.Get(id), chain) == Foreign(old(kernel.Get(id)), chain)
      ensures id == Mangle ==> kernel.filter == old(kernel.filter)
      ensures id == Filter ==> kernel.mangle == old(kernel.mangle)
    {
      ghost var from := kernel.env.calls;
      var h := kernel.Open(id);
      if h == null {
        assert kernel.env.fails(from);
        return;
      }
      if chain !in h.staged.chains { return; }
      DeleteJump(h, chain);
      DeleteEmptied(h, chain);
      ghost var last := kernel.env.calls;
      var ok := kernel.Commit(id, h);
      assert !ok ==> kernel.env.fails(last);
    }

    method RemoveDropRules()
      modifies kernel`mangle, kernel`filter, kernel.env
      ensures kernel.env.calls >= old(kernel.env.calls)
      ensures kernel.env.Clean(old(kernel.env.calls)) ==> kernel.filter == RemoveChain(old(kernel.filter), ISO_CHAIN)
      ensures Foreign(kernel.filter, ISO_CHAIN) == Foreign(old(kernel.filter), ISO_CHAIN)
      ensures kernel.mangle == old(kernel.mangle)
    {
      RemoveChainFrom(Filter, ISO_CHAIN);
    }

    method RemoveIptablesMarkRules()
      modifies kernel`mangle, kernel`filter, kernel.env
      ensures kernel.env.calls >= old(kernel.env.calls)
      ensures kernel.env.Clean(old(kernel.env.calls)) ==> kernel.mangle == RemoveChain(old(kernel.mangle), MARK_CHAIN)
      ensures Foreign(kernel.mangle, MARK_CHAIN) == Foreign(old(kernel.mangle), MARK_CHAIN)
      ensures kernel.filter == old(kernel.filter)
    {
      RemoveChainFrom(Mangle, MARK_CHAIN);
    }

    /** Foreign rules survive every failure; without failures the three lists are what removal leaves. */
    method Cleanup()
      modifies kernel`mangle, kernel`filter, kernel`ipRules, kernel.env
      ensures kernel.env.calls >= old(kernel.env.calls)
      ensures kernel.env.Clean(old(kernel.env.calls)) ==>
        && kernel.mangle == RemoveChain(old(kernel.mangle), MARK_CHAIN)
        && kernel.filter == RemoveChain(old(kernel.filter), ISO_CHAIN)
        && kernel.ipRules == DeleteAll(old(kernel.ipRules), classes)
      ensures Foreign(kernel.mangle, MARK_CHAIN) == Foreign(old(kernel.mangle), MARK_CHAIN)
      ensures Foreign(kernel.filter, ISO_CHAIN) == Foreign(old(kernel.filter), ISO_CHAIN)
      ensures Without(kernel.ipRules, OwnRules(classes)) == Without(old(kernel.ipRules), OwnRules(classes))
    {
      RemoveIpRules();
      RemoveDropRules();
      RemoveIptablesMarkRules();
    }

    /** An unknown interface is an error, and changes nothing; so may a failing request. */
    method AddDefaultRoute(iface: string, gateway: nat, table: nat) returns (ok: bool)
      modifies kernel`routes, kernel.env
      ensures kernel.env.calls >= old(kernel.env.calls)
      ensures ok <==> kernel.env.Clean(old(kernel.env.calls))
      ensures var done := Routes.AddDefaultRoute(old(kernel.routes), iface, gateway, table);
        kernel.routes == done || (!ok && kernel.routes == old(kernel.routes))
    {
      var unknown := kernel.env.Ask();
      if unknown { return false; }
      var failed := kernel.env.Ask();
      var applied: bool := *;
      if !failed || applied { kernel.routes := Routes.AddDefaultRoute(kernel.routes, iface, gateway, table); }
      return !failed;
    }

    /** An unknown interface is skipped and reported as success. */
    method RemoveDefaultRoute(iface: string, table: nat) returns (ok: bool)
      modifies kernel`routes, kernel.env
      ensures kernel.env.calls >= old(kernel.env.calls)
      ensures kernel.env.Clean(old(kernel.env.calls)) ==> ok
      ensures var done := Routes.RemoveDefaultRoute(old(kernel.routes), iface, table);
        kernel.routes == done || (!kernel.env.Clean(old(kernel.env.calls)) && kernel.routes == old(kernel.routes))
    {
      ghost var from := kernel.env.calls;
      var unknown := kernel.env.Ask();
      if unknown {
        assert kernel.env.fails(from);
        return true;
      }
      var failed := kernel.env.Ask();
      assert failed ==> kernel.env.fails(from + 1);
      var applied: bool := *;
      if !failed || applied { kernel.routes := Routes.RemoveDefaultRoute(kernel.routes, iface, table); }
      return !failed;
    }
  }

  /**
   The early return keeps a stale chain: after a successful AddDropRules the ISO chain holds exactly the compiled rules
   if and only if some class is strict or the chain was absent or empty.
   */
  lemma StaleIsoChainIff(before: Table, classes: seq<PathClassConfig>)
    ensures var after := if AnyStrict(classes) then AddChain(before, ISO_CHAIN, DropRules(classes)) else before;
      (ISO_CHAIN in after.chains ==> after.chains[ISO_CHAIN] == DropRules(classes))
      <==> AnyStrict(classes) || ISO_CHAIN !in before.chains || before.chains[ISO_CHAIN] == []
  {
    if !AnyStrict(classes) {
      NoStrictNoPairs(classes, classes);
    }
  }

  lemma {:induction false} NoStrictNoPairs(done: seq<PathClassConfig>, classes: seq<PathClassConfig>)
    requires !AnyStrict(done)
    ensures StrictPairs(done, classes) == []
  {
    if done != [] {
      var n := |done| - 1;
      assert done[n] in done && forall c :: c in done[..n] ==> c in done;
      NoStrictNoPairs(done[..n], classes);
    }
  }
}
