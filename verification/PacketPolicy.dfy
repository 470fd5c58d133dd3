/** What the compiled rules do to packets, and that this is what the configuration says. */
module PacketPolicy {
  import opened Types
  import opened Netfilter
  import opened PolicyCompiler
  import opened IpRules

  datatype Packet = Packet(classid: bv32, outIface: string, mark: bv32)

  datatype Fate = Leaves(packet: Packet) | Dropped

  /** A device name the kernel can hold: at most 15 bytes and no NUL. */
  ghost predicate DeviceName(dev: string) {
    |dev| < IFNAMSIZ && NulFree(dev)
  }

  ghost predicate NulFree(s: string) {
    forall i :: 0 <= i < |s| ==> s[i] != '\0'
  }

  /** Masked comparison: a zero mask byte ignores the position, the builder's only other mask byte compares it. */
  ghost predicate IfaceMatches(name: seq<char>, mask: seq<bv8>, dev: string) {
    && |name| == |mask| == IFNAMSIZ
    && forall i :: 0 <= i < IFNAMSIZ && mask[i] != 0 ==> name[i] == NameBuffer(dev)[i]
  }

  // Bit operations stay behind names, so that one lemma reasons about bits.

  function Masked(m: bv32, mask: bv32): bv32 {
    m & mask
  }

  function Remarked(m: bv32, mark: bv32, mask: bv32): bv32 {
    (m & !mask) ^ mark
  }

  ghost predicate Matches(m: Match, p: Packet) {
    match m
    case CgroupClassid(classid, invert) => (p.classid == classid) != invert
    case MarkIs(mark, mask, invert) => (Masked(p.mark, mask) == mark) != invert
    case OutIface(name, mask) => IfaceMatches(name, mask, p.outIface)
    case OpaqueMatch(_) => false
  }

  ghost predicate RuleApplies(r: Rule, p: Packet) {
    forall k :: 0 <= k < |r.matches| ==> Matches(r.matches[k], p)
  }

  /** Chains built by the daemon hold marking and dropping rules only. */
  ghost predicate OwnChain(rules: seq<Rule>) {
    forall k :: 0 <= k < |rules| ==> rules[k].target.SetXmark? || rules[k].target.Drop?
  }

  /** Marking does not end the traversal, dropping does. */
  ghost function Traverse(rules: seq<Rule>, p: Packet): Fate
    requires OwnChain(rules)
  {
    if rules == [] then Leaves(p)
    else if !RuleApplies(rules[0], p) then Traverse(rules[1..], p)
    else
      match rules[0].target
      case SetXmark(mark, mask) => Traverse(rules[1..], p.(mark := Remarked(p.mark, mark, mask)))
      case Drop => Dropped
  }

  // ---- interface names ----

  /** The masked comparison is equality with the configured name cut to 15 bytes. */
  lemma IfaceComparisonExact(name: string, dev: string)
    requires NulFree(name) && DeviceName(dev)
    ensures IfaceMatches(NameBuffer(name), NameMask(name), dev) <==> dev == name[..NameLen(name)]
    ensures |name| < IFNAMSIZ ==> (IfaceMatches(NameBuffer(name), NameMask(name), dev) <==> dev == name)
  {
    var n := NameLen(name);
    assert NameLen(dev) == |dev|;
    var a, b := NameBuffer(name), NameBuffer(dev);
    assert forall i :: 0 <= i < n ==> a[i] == name[i];
    assert forall i :: 0 <= i < |dev| ==> b[i] == dev[i];
    assert a[n] == b[|dev|] == '\0';
    if IfaceMatches(a, NameMask(name), dev) {
      forall i | 0 <= i <= n ensures a[i] == b[i] {
        assert NameMask(name)[i] == 0xFF;
      }
      assert dev == name[..n];
    }
    assert |name| < IFNAMSIZ ==> name[..n] == name;
  }

  // ---- the MARK chain ----

  lemma MarkRuleApplies(c: PathClassConfig, p: Packet)
    ensures RuleApplies(MarkRule(c), p) <==> p.classid == c.classid
  {
    assert MarkRule(c).matches[0] == CgroupClassid(c.classid, false);
  }

  /** A full mask discards every bit of the old mark. */
  lemma FullMaskReplaces(old_: bv32, mark: bv32)
    ensures Remarked(old_, mark, FULL_MASK) == mark
    ensures Masked(old_, FULL_MASK) == old_
  {}

  /** The mark a packet leaves with: its class's, or the one it came with. */
  ghost predicate MarkOutcome(classes: seq<PathClassConfig>, p: Packet, out: bv32) {
    && (forall i :: 0 <= i < |classes| && classes[i].classid == p.classid ==> out == classes[i].mark)
    && ((forall i :: 0 <= i < |classes| ==> classes[i].classid != p.classid) ==> out == p.mark)
  }

  lemma MarkChainStep(classes: seq<PathClassConfig>, p: Packet)
    requires classes != []
    ensures OwnChain(MarkRules(classes)) && OwnChain(MarkRules(classes[1..]))
    ensures Traverse(MarkRules(classes), p)
         == Traverse(MarkRules(classes[1..]),
                     if p.classid == classes[0].classid then p.(mark := classes[0].mark) else p)
  {
    MarkRuleApplies(classes[0], p);
    FullMaskReplaces(p.mark, classes[0].mark);
    assert MarkRules(classes)[1..] == MarkRules(classes[1..]);
  }

  lemma {:induction false} MarkChainMeaning(classes: seq<PathClassConfig>, p: Packet)
    requires Distinct(classes)
    ensures OwnChain(MarkRules(classes))
    ensures var fate := Traverse(MarkRules(classes), p);
      && fate.Leaves?
      && fate.packet == p.(mark := fate.packet.mark)
      && MarkOutcome(classes, p, fate.packet.mark)
  {
    if classes != [] {
      var rest := classes[1..];
      var p' := if p.classid == classes[0].classid then p.(mark := classes[0].mark) else p;
      MarkChainStep(classes, p);
      assert forall i :: 0 <= i < |rest| ==> rest[i] == classes[i + 1];
      MarkChainMeaning(rest, p');
      var out := Traverse(MarkRules(classes), p).packet.mark;
      forall i | 0 <= i < |classes| && classes[i].classid == p.classid ensures out == classes[i].mark {
        assert i > 0 ==> classes[i] == rest[i - 1];
      }
    }
  }

  // ---- the fwmark rules ----

  ghost predicate Selects(r: IpRule, p: Packet) {
    p.mark == r.mark
  }

  /** Of the daemon's own rules exactly one selects a packet carrying class `c`'s mark, and it names `c`'s table. */
  lemma FwmarkSelectsOne(classes: seq<PathClassConfig>, c: nat, p: Packet)
    requires Distinct(classes) && c < |classes| && p.mark == classes[c].mark
    ensures forall r :: r in OwnRules(classes) && Selects(r, p) <==> r == OwnRule(classes[c])
    ensures OwnRule(classes[c]).table == classes[c].routingTable
  {
    assert OwnRule(classes[c]) in OwnRules(classes);
    forall r | r in OwnRules(classes) && Selects(r, p) ensures r == OwnRule(classes[c]) {
      var i :| 0 <= i < |classes| && r == OwnRule(classes[i]);
    }
  }

  /** The rule that routes a packet: the first that decides, that is, selects it and whose table has a route. */
  ghost function Lookup(rules: seq<IpRule>, decides: IpRule -> bool): Option<IpRule> {
    if rules == [] then None
    else if decides(rules[0]) then Some(rules[0])
    else Lookup(rules[1..], decides)
  }

  lemma {:induction false} LookupFirst(rules: seq<IpRule>, decides: IpRule -> bool)
    requires Sorted(rules)
    ensures var found := Lookup(rules, decides);
      && (found.None? ==> forall r :: r in rules ==> !decides(r))
      && (found.Some? ==> found.value in rules && decides(found.value))
      && (found.Some? ==> forall r :: r in rules && decides(r) ==> found.value.priority <= r.priority)
  {
    if rules != [] {
      var rest := rules[1..];
      assert forall r :: r in rules <==> r == rules[0] || r in rest;
      assert forall i :: 0 <= i < |rest| ==> rest[i] == rules[i + 1];
      LookupFirst(rest, decides);
    }
  }

  lemma {:induction false} LookupSkips(rules: seq<IpRule>, own: set<IpRule>, decides: IpRule -> bool)
    requires forall r :: r in own ==> !decides(r)
    ensures Lookup(rules, decides) == Lookup(Without(rules, own), decides)
  {
    if rules != [] {
      LookupSkips(rules[1..], own, decides);
      if rules[0] in own {
        assert [] + Without(rules[1..], own) == Without(rules[1..], own);
      } else {
        var rest := Without(rules[1..], own);
        assert ([rules[0]] + rest)[0] == rules[0] && ([rules[0]] + rest)[1..] == rest;
      }
    }
  }

  lemma {:induction false} WithoutMembers(rules: seq<IpRule>, own: set<IpRule>)
    ensures forall r :: r in Without(rules, own) <==> r in rules && r !in own
  {
    if rules != [] {
      WithoutMembers(rules[1..], own);
      assert rules == [rules[0]] + rules[1..];
    }
  }

  // ---- the ISO chain ----

  lemma MarkMatches(mark: bv32, p: Packet)
    ensures Matches(MarkIs(mark, FULL_MASK, false), p) <==> p.mark == mark
  {
    FullMaskReplaces(p.mark, mark);
  }

  lemma TwoMatches(a: Match, b: Match, t: Target, p: Packet)
    ensures RuleApplies(Rule([a, b], t), p) <==> Matches(a, p) && Matches(b, p)
  {
    var r := Rule([a, b], t);
    assert r.matches[0] == a && r.matches[1] == b;
  }

  lemma DropRuleApplies(name: string, mark: bv32, p: Packet)
    ensures RuleApplies(DropRule(name, mark), p)
      <==> IfaceMatches(NameBuffer(name), NameMask(name), p.outIface) && p.mark == mark
  {
    MarkMatches(mark, p);
    TwoMatches(OutIface(NameBuffer(name), NameMask(name)), MarkIs(mark, FULL_MASK, false), Drop, p);
  }

  ghost predicate Hits(pair: (string, bv32), p: Packet) {
    IfaceMatches(NameBuffer(pair.0), NameMask(pair.0), p.outIface) && p.mark == pair.1
  }

  lemma {:induction false} DropChainScan(pairs: seq<(string, bv32)>, p: Packet)
    ensures OwnChain(RulesOf(pairs))
    ensures Traverse(RulesOf(pairs), p)
         == if exists k :: 0 <= k < |pairs| && Hits(pairs[k], p) then Dropped else Leaves(p)
  {
    if pairs != [] {
      DropRuleApplies(pairs[0].0, pairs[0].1, p);
      DropChainScan(pairs[1..], p);
      assert RulesOf(pairs)[1..] == RulesOf(pairs[1..]);
      if k :| 1 <= k < |pairs| && Hits(pairs[k], p) {
        assert Hits(pairs[1..][k - 1], p);
      }
      if k :| 0 <= k < |pairs| - 1 && Hits(pairs[1..][k], p) {
        assert Hits(pairs[k + 1], p);
      }
    }
  }

  /** A configured name that selects packets leaving through `dev`. */
  ghost predicate NameHits(name: string, dev: string) {
    IfaceMatches(NameBuffer(name), NameMask(name), dev)
  }

  /** The strict class may not use the configured interface it is about to leave through. */
  ghost predicate Strays(classes: seq<PathClassConfig>, c: PathClassConfig, dev: string) {
    c.strictIsolation && exists f :: Configured(classes, f) && f !in c.interfaces && NameHits(f, dev)
  }

  /** Class `c` is about to leave through an interface of another, strict class `s`. */
  ghost predicate Trespasses(c: PathClassConfig, s: PathClassConfig, dev: string) {
    s.strictIsolation && s.id != c.id && exists f :: f in s.interfaces && NameHits(f, dev)
  }

  lemma DroppedHasReason(classes: seq<PathClassConfig>, c: nat, p: Packet, pair: (string, bv32))
    requires Distinct(classes) && c < |classes| && p.mark == classes[c].mark
    requires pair in StrictPairs(classes, classes) && Hits(pair, p)
    ensures || Strays(classes, classes[c], p.outIface)
            || exists s :: 0 <= s < |classes| && Trespasses(classes[c], classes[s], p.outIface)
  {
    var f := pair.0;
    assert pair == (f, p.mark) && NameHits(f, p.outIface);
    StrictPairsMembers(classes, classes, f, p.mark);
    var i :| 0 <= i < |classes| && Forbids(classes[i], classes, f, p.mark);
    if f in classes[i].interfaces {
      var j :| 0 <= j < |classes| && classes[j].id != classes[i].id && classes[j].mark == p.mark;
      assert j == c && Trespasses(classes[c], classes[i], p.outIface);
    } else {
      assert i == c && Strays(classes, classes[c], p.outIface);
    }
  }

  lemma ReasonIsPair(classes: seq<PathClassConfig>, c: nat, p: Packet) returns (pair: (string, bv32))
    requires Distinct(classes) && c < |classes| && p.mark == classes[c].mark
    requires || Strays(classes, classes[c], p.outIface)
             || exists s :: 0 <= s < |classes| && Trespasses(classes[c], classes[s], p.outIface)
    ensures pair in StrictPairs(classes, classes) && Hits(pair, p)
  {
    var f: string;
    if Strays(classes, classes[c], p.outIface) {
      f :| Configured(classes, f) && f !in classes[c].interfaces && NameHits(f, p.outIface);
      assert Forbids(classes[c], classes, f, p.mark);
    } else {
      var s :| 0 <= s < |classes| && Trespasses(classes[c], classes[s], p.outIface);
      f :| f in classes[s].interfaces && NameHits(f, p.outIface);
      assert OtherMark(classes[s], classes, p.mark);
      assert Forbids(classes[s], classes, f, p.mark);
    }
    StrictPairsMembers(classes, classes, f, p.mark);
    pair := (f, p.mark);
  }

  /** For all names, however long: exactly these packets of class `c` are dropped. */
  lemma IsolationExact(classes: seq<PathClassConfig>, c: nat, p: Packet)
    requires Distinct(classes) && c < |classes| && p.mark == classes[c].mark
    ensures OwnChain(DropRules(classes))
    ensures Traverse(DropRules(classes), p) == Dropped
      <==> || Strays(classes, classes[c], p.outIface)
           || exists s :: 0 <= s < |classes| && Trespasses(classes[c], classes[s], p.outIface)
  {
    var pairs := StrictPairs(classes, classes);
    DropChainScan(pairs, p);
    if k :| 0 <= k < |pairs| && Hits(pairs[k], p) {
      DroppedHasReason(classes, c, p, pairs[k]);
    }
    if || Strays(classes, classes[c], p.outIface)
       || exists s :: 0 <= s < |classes| && Trespasses(classes[c], classes[s], p.outIface) {
      var pair := ReasonIsPair(classes, c, p);
      var k :| 0 <= k < |pairs| && pairs[k] == pair;
      assert Hits(pairs[k], p);
    }
  }

  /** A packet whose mark belongs to no class is never dropped. */
  lemma UnmarkedNeverDropped(classes: seq<PathClassConfig>, p: Packet)
    requires forall i :: 0 <= i < |classes| ==> classes[i].mark != p.mark
    ensures OwnChain(DropRules(classes))
    ensures Traverse(DropRules(classes), p) == Leaves(p)
  {
    var pairs := StrictPairs(classes, classes);
    DropChainScan(pairs, p);
    forall k | 0 <= k < |pairs| ensures !Hits(pairs[k], p) {
      var (f, m) := pairs[k];
      assert (f, m) in pairs;
      StrictPairsMembers(classes, classes, f, m);
      var i :| 0 <= i < |classes| && Forbids(classes[i], classes, f, m);
      assert m == classes[i].mark || OtherMark(classes[i], classes, m);
    }
  }

  /** Every configured name fits a device name. */
  ghost predicate NamesFit(classes: seq<PathClassConfig>) {
    forall i, k :: 0 <= i < |classes| && 0 <= k < |classes[i].interfaces| ==> DeviceName(classes[i].interfaces[k])
  }

  /** Isolation forbids class `c` the device: `c` is strict and it is configured elsewhere, or a strict class has it. */
  ghost predicate Isolated(classes: seq<PathClassConfig>, c: nat, dev: string)
    requires c < |classes|
  {
    || (classes[c].strictIsolation && Configured(classes, dev) && dev !in classes[c].interfaces)
    || (exists s :: 0 <= s < |classes| && s != c && classes[s].strictIsolation && dev in classes[s].interfaces)
  }

  /** With names that fit, isolation is about the names themselves. */
  lemma IsolationByName(classes: seq<PathClassConfig>, c: nat, p: Packet)
    requires Distinct(classes) && NamesFit(classes) && DeviceName(p.outIface)
    requires c < |classes| && p.mark == classes[c].mark
    ensures OwnChain(DropRules(classes))
    ensures Traverse(DropRules(classes), p) == Dropped <==> Isolated(classes, c, p.outIface)
  {
    IsolationExact(classes, c, p);
    var dev := p.outIface;
    forall f | Configured(classes, f) ensures NameHits(f, dev) <==> f == dev {
      var i :| 0 <= i < |classes| && f in classes[i].interfaces;
      IfaceComparisonExact(f, dev);
    }
    forall s | 0 <= s < |classes|
      ensures Trespasses(classes[c], classes[s], dev)
        <==> s != c && classes[s].strictIsolation && dev in classes[s].interfaces
    {
      assert forall f :: f in classes[s].interfaces ==> Configured(classes, f);
    }
  }

  /**
   The whole policy for a packet of class `c`: it leaves the MARK chain with the class's mark whatever it carried,
   exactly one of the daemon's ip rules then selects it and names the class's table, and the ISO chain drops it
   exactly when isolation says so.
   */
  lemma PolicyMeaning(classes: seq<PathClassConfig>, c: nat, p: Packet)
    requires Distinct(classes) && NamesFit(classes) && DeviceName(p.outIface)
    requires c < |classes| && p.classid == classes[c].classid
    ensures OwnChain(MarkRules(classes)) && OwnChain(DropRules(classes))
    ensures var marked := p.(mark := classes[c].mark);
      && Traverse(MarkRules(classes), p) == Leaves(marked)
      && (forall r :: r in OwnRules(classes) && Selects(r, marked)
            <==> r == IpRule(IP_RULE_PRIORITY, classes[c].mark, classes[c].routingTable))
      && ((Traverse(DropRules(classes), marked) == Dropped) <==> Isolated(classes, c, p.outIface))
  {
    MarkChainMeaning(classes, p);
    var marked := p.(mark := classes[c].mark);
    FwmarkSelectsOne(classes, c, marked);
    IsolationByName(classes, c, marked);
  }

  /**
   The loader accepts longer names, and then isolation is about the cut name: a strict class listing a 16-byte name
   is dropped on its own interface as soon as another class lists the same name cut to 15 bytes.
   */
  lemma LongNameTurnsOnItself(name: string, cut: string, a: PathClassConfig, b: PathClassConfig, p: Packet)
    requires NulFree(name) && |name| >= IFNAMSIZ && cut == name[..IFNAMSIZ - 1]
    requires Distinct([a, b]) && a.strictIsolation && a.interfaces == [name] && b.interfaces == [cut]
    requires p.mark == a.mark && p.outIface == cut
    ensures OwnChain(DropRules([a, b]))
    ensures Traverse(DropRules([a, b]), p) == Dropped
  {
    var classes := [a, b];
    IsolationExact(classes, 0, p);
    IfaceComparisonExact(cut, cut);
    assert cut in classes[1].interfaces && Configured(classes, cut);
    assert NameHits(cut, p.outIface) && cut !in a.interfaces;
  }
}
