/** The daemon's startup stages, their failure paths, and shutdown. */
module Startup {
  import opened Types
  import opened Netfilter
  import opened ChainEdits
  import opened PolicyCompiler
  import opened IpRules
  import opened RoutingPolicyManager
  import opened PacketPolicy
  import opened OutputWalk

  datatype Stage = CgroupStage | MarkStage | IpRuleStage | DropStage | MptcpStage | ApiStage

  datatype Outcome = Running | Failed(stage: Stage)

  /** Tables that earlier runs, finished or not, may have left: links in order, no fwmark rule twice. */
  ghost predicate Orderly(mangle: Table, filter: Table, rules: seq<IpRule>, classes: seq<PathClassConfig>) {
    && WellLinked(mangle, MARK_CHAIN)
    && WellLinked(filter, ISO_CHAIN)
    && OnceEach(rules, OwnRules(classes))
  }

  /** Tables in which nothing belongs to the daemon. */
  ghost predicate NothingHeld(mangle: Table, filter: Table, rules: seq<IpRule>, classes: seq<PathClassConfig>) {
    && WellLinked(mangle, MARK_CHAIN) && MARK_CHAIN !in mangle.chains
    && WellLinked(filter, ISO_CHAIN) && ISO_CHAIN !in filter.chains
    && forall r :: r in OwnRules(classes) ==> r !in rules
  }

  /** What installing leaves in the filter table. */
  function FilterInstalled(filter: Table, classes: seq<PathClassConfig>): Table {
    if AnyStrict(classes) then AddChain(filter, ISO_CHAIN, DropRules(classes)) else filter
  }

  lemma {:induction false} DropRulesJumpFree(pairs: seq<(string, bv32)>, chain: string)
    ensures CountJumps(RulesOf(pairs), chain) == 0
  {
    if pairs != [] {
      DropRulesJumpFree(pairs[1..], chain);
      assert RulesOf(pairs)[1..] == RulesOf(pairs[1..]);
    }
  }

  lemma {:induction false} MarkRulesJumpFree(classes: seq<PathClassConfig>, chain: string)
    ensures CountJumps(MarkRules(classes), chain) == 0
  {
    if classes != [] {
      MarkRulesJumpFree(classes[1..], chain);
      assert MarkRules(classes)[1..] == MarkRules(classes[1..]);
    }
  }

  /** Cleaning up whatever part of the policy is in place leaves the foreign part of the original tables. */
  lemma CleanupRestores(mangle: Table, filter: Table, rules: seq<IpRule>, classes: seq<PathClassConfig>, n: nat)
    requires Orderly(mangle, filter, rules, classes) && n <= |classes|
    ensures RemoveChain(mangle, MARK_CHAIN) == Foreign(mangle, MARK_CHAIN)
    ensures RemoveChain(AddChain(mangle, MARK_CHAIN, MarkRules(classes)), MARK_CHAIN) == Foreign(mangle, MARK_CHAIN)
    ensures RemoveChain(filter, ISO_CHAIN) == Foreign(filter, ISO_CHAIN)
    ensures RemoveChain(FilterInstalled(filter, classes), ISO_CHAIN) == Foreign(filter, ISO_CHAIN)
    ensures DeleteAll(AddAll(rules, classes[..n]), classes) == Without(rules, OwnRules(classes))
  {
    MarkRulesJumpFree(classes, MARK_CHAIN);
    RemoveIsForeign(mangle, MARK_CHAIN);
    RemoveAfterAdd(mangle, MARK_CHAIN, MarkRules(classes));
    DropRulesJumpFree(StrictPairs(classes, classes), ISO_CHAIN);
    RemoveIsForeign(filter, ISO_CHAIN);
    RemoveAfterAdd(filter, ISO_CHAIN, DropRules(classes));
    AddAllKeeps(rules, classes, n);
    DeleteAllIsWithout(AddAll(rules, classes[..n]), classes);
  }

  lemma NothingHeldIsForeign(mangle: Table, filter: Table, rules: seq<IpRule>, classes: seq<PathClassConfig>)
    requires NothingHeld(mangle, filter, rules, classes)
    ensures Orderly(mangle, filter, rules, classes)
    ensures Foreign(mangle, MARK_CHAIN) == mangle && Foreign(filter, ISO_CHAIN) == filter
    ensures Without(rules, OwnRules(classes)) == rules
  {
    RemoveIsForeign(mangle, MARK_CHAIN);
    RemoveIsForeign(filter, ISO_CHAIN);
    NoneHeld(rules, classes);
  }

  /** What startup can have reached when it fails: chains not yet or wholly installed, and a prefix of the ip rules. */
  ghost predicate PartlyInstalled(k: Kernel, mangle: Table, filter: Table, rules: seq<IpRule>,
                                  classes: seq<PathClassConfig>)
    reads k
  {
    && (k.mangle == mangle || k.mangle == AddChain(mangle, MARK_CHAIN, MarkRules(classes)))
    && (k.filter == filter || k.filter == FilterInstalled(filter, classes))
    && exists n :: 0 <= n <= |classes| && k.ipRules == AddAll(rules, classes[..n])
  }

  /** The kernel holds the foreign part of the tables given, and those tables themselves if nothing in them was ours. */
  ghost predicate Restored(k: Kernel, mangle: Table, filter: Table, rules: seq<IpRule>, classes: seq<PathClassConfig>)
    reads k
  {
    && (Orderly(mangle, filter, rules, classes) ==>
          && k.mangle == Foreign(mangle, MARK_CHAIN)
          && k.filter == Foreign(filter, ISO_CHAIN)
          && k.ipRules == Without(rules, OwnRules(classes)))
    && (NothingHeld(mangle, filter, rules, classes) ==>
          k.mangle == mangle && k.filter == filter && k.ipRules == rules)
  }

  /** Cleaning up from any stage restores the tables, provided no call made while cleaning up fails. */
  method CleanupFrom(m: RoutingPolicyManager, ghost mangle: Table, ghost filter: Table, ghost rules: seq<IpRule>)
    requires PartlyInstalled(m.kernel, mangle, filter, rules, m.classes)
    modifies m.kernel`mangle, m.kernel`filter, m.kernel`ipRules, m.kernel.env
    ensures m.kernel.env.calls >= old(m.kernel.env.calls)
    ensures m.kernel.env.Clean(old(m.kernel.env.calls)) ==> Restored(m.kernel, mangle, filter, rules, m.classes)
  {
    ghost var cs := m.classes;
    ghost var n :| 0 <= n <= |cs| && m.kernel.ipRules == AddAll(rules, cs[..n]);
    if Orderly(mangle, filter, rules, cs) {
      CleanupRestores(mangle, filter, rules, cs, n);
    }
    if NothingHeld(mangle, filter, rules, cs) {
      NothingHeldIsForeign(mangle, filter, rules, cs);
      CleanupRestores(mangle, filter, rules, cs, n);
    }
    m.Cleanup();
  }

  /** Once the only failure has happened, cleaning up is undisturbed. */
  method GiveUp(m: RoutingPolicyManager, ghost from: nat,
                ghost mangle: Table, ghost filter: Table, ghost rules: seq<IpRule>)
    requires PartlyInstalled(m.kernel, mangle, filter, rules, m.classes)
    requires from <= m.kernel.env.calls && !m.kernel.env.Clean(from)
    modifies m.kernel`mangle, m.kernel`filter, m.kernel`ipRules, m.kernel.env
    ensures from <= m.kernel.env.calls && !m.kernel.env.Clean(from)
    ensures m.kernel.env.AtMostOne(from) ==> Restored(m.kernel, mangle, filter, rules, m.classes)
  {
    ghost var bad :| from <= bad < m.kernel.env.calls && m.kernel.env.fails(bad);
    CleanupFrom(m, mangle, filter, rules);
    assert m.kernel.env.fails(bad);
  }

  /** The kernel holds the whole policy on top of the tables given. */
  ghost predicate Installed(k: Kernel, mangle: Table, filter: Table, rules: seq<IpRule>, classes: seq<PathClassConfig>)
    reads k
  {
    && k.mangle == AddChain(mangle, MARK_CHAIN, MarkRules(classes))
    && k.filter == FilterInstalled(filter, classes)
    && k.ipRules == AddAll(rules, classes)
  }

  lemma InstalledIsReached(k: Kernel, mangle: Table, filter: Table, rules: seq<IpRule>, classes: seq<PathClassConfig>)
    requires Installed(k, mangle, filter, rules, classes)
    ensures PartlyInstalled(k, mangle, filter, rules, classes)
  {
    assert classes[..|classes|] == classes;
  }

  /** The three routing stages, up to the first failure. */
  method InstallPolicy(m: RoutingPolicyManager) returns (failed: Option<Stage>)
    modifies m.kernel`mangle, m.kernel`filter, m.kernel`ipRules, m.kernel.env
    ensures m.kernel.env.calls >= old(m.kernel.env.calls)
    ensures failed.None? <==> m.kernel.env.Clean(old(m.kernel.env.calls))
    ensures failed.Some? ==> failed.value in {MarkStage, IpRuleStage, DropStage}
    ensures var k := m.kernel;
      if failed.None? then Installed(k, old(k.mangle), old(k.filter), old(k.ipRules), m.classes)
      else PartlyInstalled(k, old(k.mangle), old(k.filter), old(k.ipRules), m.classes)
  {
    ghost var rules := m.kernel.ipRules;
    assert m.classes[..0] == [] && m.kernel.ipRules == AddAll(rules, m.classes[..0]);
    var mark := m.AddIptablesMarkRules();
    if mark.Err? { return Some(MarkStage); }
    var ip := m.AddIpRules();
    if ip.Err? { return Some(IpRuleStage); }
    assert m.classes[..|m.classes|] == m.classes;
    var drop := m.AddDropRules();
    if drop.Err? { return Some(DropStage); }
    return None;
  }

  /**
   Startup runs if and only if no call fails, and has then installed the whole policy. A failure in the first stage
   returns before anything was installed. After any other single failure, midway through the ip rules too, the kernel
   holds exactly the foreign part of the tables it had; from tables holding nothing of the daemon's, those tables.
   */
  method Start(m: RoutingPolicyManager) returns (o: Outcome)
    modifies m.kernel`mangle, m.kernel`filter, m.kernel`ipRules, m.kernel.env
    ensures m.kernel.env.calls >= old(m.kernel.env.calls)
    ensures o.Running? <==> m.kernel.env.Clean(old(m.kernel.env.calls))
    ensures var k := m.kernel;
      o.Running? ==> Installed(k, old(k.mangle), old(k.filter), old(k.ipRules), m.classes)
    ensures var k := m.kernel;
      o == Failed(CgroupStage) ==>
        && k.mangle == old(k.mangle) && k.filter == old(k.filter) && k.ipRules == old(k.ipRules)
    ensures var k := m.kernel;
      o.Failed? && o.stage != CgroupStage && k.env.AtMostOne(old(k.env.calls)) ==>
        Restored(k, old(k.mangle), old(k.filter), old(k.ipRules), m.classes)
  {
    var k := m.kernel;
    ghost var mangle, filter, rules, from := k.mangle, k.filter, k.ipRules, k.env.calls;
    var failed := k.env.Ask();
    if failed { return Failed(CgroupStage); }
    var stage := InstallPolicy(m);
    if stage.Some? { GiveUp(m, from, mangle, filter, rules); return Failed(stage.value); }
    InstalledIsReached(k, mangle, filter, rules, m.classes);
    failed := k.env.Ask();
    if failed { GiveUp(m, from, mangle, filter, rules); return Failed(MptcpStage); }
    failed := k.env.Ask();
    if failed { GiveUp(m, from, mangle, filter, rules); return Failed(ApiStage); }
    return Running;
  }

  /**
   A whole life of the daemon gives back tables that held nothing of its own, whether one call fails while it starts, in
   any stage, or it runs and is shut down.
   */
  method StartAndShutdown(m: RoutingPolicyManager) returns (o: Outcome)
    modifies m.kernel`mangle, m.kernel`filter, m.kernel`ipRules, m.kernel.env
    ensures m.kernel.env.calls >= old(m.kernel.env.calls)
    ensures var k, cs := m.kernel, m.classes;
      && (k.env.Clean(old(k.env.calls)) || (o.Failed? && k.env.AtMostOne(old(k.env.calls))))
      && old(NothingHeld(k.mangle, k.filter, k.ipRules, cs)) ==>
        k.mangle == old(k.mangle) && k.filter == old(k.filter) && k.ipRules == old(k.ipRules)
    ensures m.kernel.env.Clean(old(m.kernel.env.calls)) ==> o.Running?
  {
    ghost var mangle, filter, rules := m.kernel.mangle, m.kernel.filter, m.kernel.ipRules;
    o := Start(m);
    if o.Running? {
      InstalledIsReached(m.kernel, mangle, filter, rules, m.classes);
      CleanupFrom(m, mangle, filter, rules);
    }
  }

  /** Somebody else's rules never change a packet's classid or the device it leaves through. */
  ghost predicate KeepsIdentity(w: World) {
    forall r, p :: w.passes(r, p).Some? ==>
      w.passes(r, p).value.classid == p.classid && w.passes(r, p).value.outIface == p.outIface
  }

  /** Nor, in the filter table, its mark. */
  ghost predicate KeepsPacket(w: World) {
    forall r, p :: w.passes(r, p).Some? ==> w.passes(r, p).value == p
  }

  lemma {:induction false} PassKeeps(rules: seq<Rule>, p: Packet, w: World)
    ensures KeepsIdentity(w) && PassAll(rules, p, w).Some? ==> PassAll(rules, p, w).value.classid == p.classid
    ensures KeepsPacket(w) && PassAll(rules, p, w).Some? ==> PassAll(rules, p, w).value == p
    decreases rules
  {
    if rules != [] && w.passes(rules[0], p).Some? {
      PassKeeps(rules[1..], w.passes(rules[0], p).value, w);
    }
  }

  /** The way of a packet through OUTPUT when taking the jump at `n` gives it the mark `mark`. */
  ghost function MarkedOnTheWay(output: seq<Rule>, n: nat, mark: bv32, p: Packet, w: World): Passage
    requires n < |output|
  {
    match PassAll(output[..n], p, w)
    case None => EndedElsewhere
    case Some(q) =>
      match PassAll(output[n + 1..], if Taken(output[n], q, w) then q.(mark := mark) else q, w)
      case None => EndedElsewhere
      case Some(last) => Through(last)
  }

  /**
   From the top of OUTPUT: a packet of class `c` gets the class's mark when it comes to the one jump, if it does and the
   jump is taken. The jump startup appends is the last rule, and taken by every packet.
   */
  lemma StartedMarking(mangle: Table, classes: seq<PathClassConfig>, c: nat, p: Packet, w: World) returns (n: nat)
    requires WellLinked(mangle, MARK_CHAIN) && KeepsIdentity(w)
    requires Distinct(classes) && c < |classes| && p.classid == classes[c].classid
    ensures var m := AddChain(mangle, MARK_CHAIN, MarkRules(classes));
      && n < |m.output| && JumpsTo(m.output[n], MARK_CHAIN) && CountJumps(m.output, MARK_CHAIN) == 1
      && OwnChain(m.chains[MARK_CHAIN])
      && Walk(m.output, MARK_CHAIN, m.chains[MARK_CHAIN], p, w) == MarkedOnTheWay(m.output, n, classes[c].mark, p, w)
    ensures MARK_CHAIN !in mangle.chains ==>
      var m := AddChain(mangle, MARK_CHAIN, MarkRules(classes));
      Walk(m.output, MARK_CHAIN, m.chains[MARK_CHAIN], p, w)
      == match PassAll(mangle.output, p, w)
         case None => EndedElsewhere
         case Some(q) => Through(q.(mark := classes[c].mark))
  {
    var m := AddChain(mangle, MARK_CHAIN, MarkRules(classes));
    n := ChainReached(mangle, MARK_CHAIN, MarkRules(classes), p, w) by {
      MarkRulesJumpFree(classes, MARK_CHAIN);
      MarkChainMeaning(classes, p);
    }
    MarkingAround(m.output, n, classes, c, p, w);
  }

  /** After an add OUTPUT holds one jump to the chain, which the walk goes around or into. */
  lemma ChainReached(t: Table, chain: string, rules: seq<Rule>, p: Packet, w: World) returns (n: nat)
    requires WellLinked(t, chain) && CountJumps(rules, chain) == 0 && OwnChain(rules)
    ensures var t' := AddChain(t, chain, rules);
      && n < |t'.output| && JumpsTo(t'.output[n], chain) && CountJumps(t'.output, chain) == 1
      && chain in t'.chains && t'.chains[chain] == rules
      && Walk(t'.output, chain, rules, p, w) == AroundJump(t'.output, n, rules, p, w)
    ensures chain !in t.chains ==>
      var out := AddChain(t, chain, rules).output;
      n == |t.output| && out[..n] == t.output && out[n + 1..] == [] && forall q :: Taken(out[n], q, w)
  {
    var t' := AddChain(t, chain, rules);
    assert [Add(rules)][0] == Add(rules);
    EditKeeps(t, chain, Add(rules));
    n := JumpExists(t'.output, chain);
    if chain !in t.chains {
      forall q ensures Taken(t'.output[|t.output|], q, w) { AddedJump(t, chain, rules, q, w); }
      AddedJump(t, chain, rules, p, w);
      n := |t.output|;
    }
    WalkJump(t'.output, chain, rules, n, p, w);
  }

  lemma MarkingAround(output: seq<Rule>, n: nat, classes: seq<PathClassConfig>, c: nat, p: Packet, w: World)
    requires KeepsIdentity(w) && n < |output| && OwnChain(MarkRules(classes))
    requires Distinct(classes) && c < |classes| && p.classid == classes[c].classid
    ensures AroundJump(output, n, MarkRules(classes), p, w) == MarkedOnTheWay(output, n, classes[c].mark, p, w)
  {
    var before := PassAll(output[..n], p, w);
    if before.Some? {
      PassKeeps(output[..n], p, w);
      MarkChainMeaning(classes, before.value);
    }
  }

  /** The list of ip rules holds, once, exactly one rule of the daemon's that selects the marked packet. */
  lemma StartedSelection(rules: seq<IpRule>, classes: seq<PathClassConfig>, c: nat, p: Packet)
    requires OnceEach(rules, OwnRules(classes))
    requires Distinct(classes) && c < |classes| && p.mark == classes[c].mark
    ensures var installed := AddAll(rules, classes);
      && multiset(installed)[IpRule(IP_RULE_PRIORITY, classes[c].mark, classes[c].routingTable)] == 1
      && forall r :: r in installed && r in OwnRules(classes) && Selects(r, p) ==> r.table == classes[c].routingTable
  {
    assert classes[..|classes|] == classes;
    AddAllKeeps(rules, classes, |classes|);
    OwnRuleIn(classes, c);
    FwmarkSelectsOne(classes, c, p);
  }

  /**
   Which table routes a packet carrying class `c`'s mark, among all rules of the kernel: the class's, if that table has
   a route and no rule that comes before the kernel's own at 32766 decides; the one that would without the daemon, if
   that table has none.
   */
  lemma StartedRouting(rules: seq<IpRule>, classes: seq<PathClassConfig>, c: nat, p: Packet, decides: IpRule -> bool)
    requires Sorted(rules) && OnceEach(rules, OwnRules(classes))
    requires Distinct(classes) && c < |classes| && p.mark == classes[c].mark
    requires forall r :: r in OwnRules(classes) && decides(r) ==> Selects(r, p)
    requires forall r :: r in rules && r !in OwnRules(classes) && decides(r) ==> r.priority >= 32766
    ensures var own := OwnRule(classes[c]);
      if decides(own) then
        var found := Lookup(AddAll(rules, classes), decides);
        found.Some? && found.value.table == classes[c].routingTable
      else Lookup(AddAll(rules, classes), decides) == Lookup(Without(rules, OwnRules(classes)), decides)
  {
    var own, installed := OwnRules(classes), AddAll(rules, classes);
    assert classes[..|classes|] == classes;
    AddAllKeeps(rules, classes, |classes|);
    FwmarkSelectsOne(classes, c, p);
    OwnRuleIn(classes, c);
    LookupFirst(installed, decides);
    WithoutMembers(installed, own);
    WithoutMembers(rules, own);
    if !decides(OwnRule(classes[c])) { LookupSkips(installed, own, decides); }
  }

  /**
   From the top of OUTPUT: with a strict class, a packet carrying class `c`'s mark is dropped in the ISO chain exactly
   when it comes to the one jump, the jump is taken, and isolation forbids the device; a jump startup appended is always
   taken. Without a strict class it is never dropped there, as long as no chain with rules was left from before.
   */
  lemma StartedIsolation(filter: Table, classes: seq<PathClassConfig>, c: nat, p: Packet, w: World) returns (n: nat)
    requires WellLinked(filter, ISO_CHAIN) && KeepsPacket(w)
    requires AnyStrict(classes) || ISO_CHAIN !in filter.chains || filter.chains[ISO_CHAIN] == []
    requires Distinct(classes) && NamesFit(classes) && DeviceName(p.outIface)
    requires c < |classes| && p.mark == classes[c].mark
    ensures var f := FilterInstalled(filter, classes);
      var own := if ISO_CHAIN in f.chains then f.chains[ISO_CHAIN] else [];
      && OwnChain(own)
      && if AnyStrict(classes) then
           && n < |f.output| && JumpsTo(f.output[n], ISO_CHAIN) && CountJumps(f.output, ISO_CHAIN) == 1
           && (Walk(f.output, ISO_CHAIN, own, p, w) == DroppedInChain
               <==> PassAll(f.output[..n], p, w).Some? && Taken(f.output[n], p, w) && Isolated(classes, c, p.outIface))
         else Walk(f.output, ISO_CHAIN, own, p, w) != DroppedInChain && !Isolated(classes, c, p.outIface)
    ensures AnyStrict(classes) && ISO_CHAIN !in filter.chains ==>
      var out := FilterInstalled(filter, classes).output;
      n == |filter.output| && out[..n] == filter.output && Taken(out[n], p, w)
  {
    if AnyStrict(classes) {
      n := ChainReached(filter, ISO_CHAIN, DropRules(classes), p, w) by {
        DropRulesJumpFree(StrictPairs(classes, classes), ISO_CHAIN);
        IsolationByName(classes, c, p);
      }
      IsolationByName(classes, c, p);
      var out := FilterInstalled(filter, classes).output;
      PassKeeps(out[..n], p, w);
    } else {
      n := 0;
      assert forall s :: 0 <= s < |classes| ==> classes[s] in classes;
      NeverDropped(filter.output, ISO_CHAIN, p, w);
    }
  }

  /** An empty chain drops nothing. */
  lemma {:induction false} NeverDropped(rules: seq<Rule>, chain: string, p: Packet, w: World)
    ensures Walk(rules, chain, [], p, w) != DroppedInChain
    decreases rules
  {
    if rules != [] {
      if !JumpsTo(rules[0], chain) && w.passes(rules[0], p).Some? {
        NeverDropped(rules[1..], chain, w.passes(rules[0], p).value, w);
      } else if JumpsTo(rules[0], chain) {
        NeverDropped(rules[1..], chain, p, w);
      }
    }
  }
}
