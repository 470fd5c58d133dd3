/** A packet on its way through OUTPUT: somebody else's rules, and the jump into one of the daemon's chains. */
module OutputWalk {
  import opened Types
  import opened Netfilter
  import opened ChainEdits
  import opened PacketPolicy

  /**
   What nothing is known of: where somebody else's rule sends a packet on, changed or not (nowhere, if it ends the
   packet's way), and for which packets an opaque match holds.
   */
  datatype World = World(passes: (Rule, Packet) -> Option<Packet>, holds: (int, Packet) -> bool)

  /** `DroppedInChain` is the daemon's doing, `EndedElsewhere` somebody else's. */
  datatype Passage = Through(packet: Packet) | DroppedInChain | EndedElsewhere

  /** All matches of a jump hold of the packet; a jump without any is taken by every packet. */
  ghost predicate Taken(r: Rule, p: Packet, w: World) {
    forall k :: 0 <= k < |r.matches| ==>
      if r.matches[k].OpaqueMatch? then w.holds(r.matches[k].tag, p) else Matches(r.matches[k], p)
  }

  /** The way through `rules`, where jumps to `chain` lead into `own` and come back behind the jump. */
  ghost function Walk(rules: seq<Rule>, chain: string, own: seq<Rule>, p: Packet, w: World): Passage
    requires OwnChain(own)
  {
    if rules == [] then Through(p)
    else if JumpsTo(rules[0], chain) then
      if !Taken(rules[0], p, w) then Walk(rules[1..], chain, own, p, w)
      else
        match Traverse(own, p)
        case Dropped => DroppedInChain
        case Leaves(q) => Walk(rules[1..], chain, own, q, w)
    else
      match w.passes(rules[0], p)
      case None => EndedElsewhere
      case Some(q) => Walk(rules[1..], chain, own, q, w)
  }

  /** The way through somebody else's rules alone. */
  ghost function PassAll(rules: seq<Rule>, p: Packet, w: World): Option<Packet> {
    if rules == [] then Some(p)
    else
      match w.passes(rules[0], p)
      case None => None
      case Some(q) => PassAll(rules[1..], q, w)
  }

  lemma {:induction false} WalkConcat(a: seq<Rule>, b: seq<Rule>, chain: string, own: seq<Rule>, p: Packet, w: World)
    requires OwnChain(own)
    ensures Walk(a + b, chain, own, p, w)
         == match Walk(a, chain, own, p, w)
            case Through(q) => Walk(b, chain, own, q, w)
            case other => other
    decreases a
  {
    if a == [] {
      assert a + b == b;
    } else {
      assert (a + b)[0] == a[0] && (a + b)[1..] == a[1..] + b;
      if !JumpsTo(a[0], chain) {
        var next := w.passes(a[0], p);
        if next.Some? { WalkConcat(a[1..], b, chain, own, next.value, w); }
      } else if !Taken(a[0], p, w) {
        WalkConcat(a[1..], b, chain, own, p, w);
      } else {
        var fate := Traverse(own, p);
        if fate.Leaves? { WalkConcat(a[1..], b, chain, own, fate.packet, w); }
      }
    }
  }

  lemma {:induction false} WalkForeign(rules: seq<Rule>, chain: string, own: seq<Rule>, p: Packet, w: World)
    requires OwnChain(own) && CountJumps(rules, chain) == 0
    ensures Walk(rules, chain, own, p, w)
         == match PassAll(rules, p, w) { case None => EndedElsewhere case Some(q) => Through(q) }
    decreases rules
  {
    if rules != [] {
      assert !JumpsTo(rules[0], chain);
      var next := w.passes(rules[0], p);
      if next.Some? { WalkForeign(rules[1..], chain, own, next.value, w); }
    }
  }

  /** The only jump in OUTPUT divides the way: somebody else's rules, the chain if the jump is taken, and the rest. */
  ghost function AroundJump(rules: seq<Rule>, n: nat, own: seq<Rule>, p: Packet, w: World): Passage
    requires n < |rules| && OwnChain(own)
  {
    match PassAll(rules[..n], p, w)
    case None => EndedElsewhere
    case Some(q) =>
      if Taken(rules[n], q, w) && Traverse(own, q) == Dropped then DroppedInChain
      else
        var r := if Taken(rules[n], q, w) then Traverse(own, q).packet else q;
        match PassAll(rules[n + 1..], r, w) { case None => EndedElsewhere case Some(last) => Through(last) }
  }

  lemma WalkJump(rules: seq<Rule>, chain: string, own: seq<Rule>, n: nat, p: Packet, w: World)
    requires OwnChain(own) && CountJumps(rules, chain) == 1 && n < |rules| && JumpsTo(rules[n], chain)
    ensures Walk(rules, chain, own, p, w) == AroundJump(rules, n, own, p, w)
  {
    var a, j, b := rules[..n], rules[n], rules[n + 1..];
    OneJump(rules, chain, n);
    assert rules == a + ([j] + b) && ([j] + b)[1..] == b;
    WalkConcat(a, [j] + b, chain, own, p, w);
    WalkForeign(a, chain, own, p, w);
    var before := PassAll(a, p, w);
    if before.Some? {
      var q := before.value;
      if !Taken(j, q, w) {
        WalkForeign(b, chain, own, q, w);
      } else if Traverse(own, q).Leaves? {
        WalkForeign(b, chain, own, Traverse(own, q).packet, w);
      }
    }
  }

  lemma OneJump(rules: seq<Rule>, chain: string, n: nat)
    requires CountJumps(rules, chain) == 1 && n < |rules| && JumpsTo(rules[n], chain)
    ensures CountJumps(rules[..n], chain) == 0 && CountJumps(rules[n + 1..], chain) == 0
  {
    var a, j, b := rules[..n], rules[n], rules[n + 1..];
    assert rules == a + ([j] + b) && ([j] + b)[1..] == b;
    JumpsOfConcat(a, [j] + b, chain);
  }

  lemma {:induction false} JumpExists(rules: seq<Rule>, chain: string) returns (n: nat)
    requires CountJumps(rules, chain) > 0
    ensures n < |rules| && JumpsTo(rules[n], chain)
  {
    if JumpsTo(rules[0], chain) {
      n := 0;
    } else {
      n := JumpExists(rules[1..], chain);
      n := n + 1;
    }
  }

  /**
   Where no jump was there before, adding a chain puts one behind everything else, and every packet that gets there
   takes it. Where one was found, OUTPUT stays as it is.
   */
  lemma AddedJump(t: Table, chain: string, rules: seq<Rule>, p: Packet, w: World)
    ensures var out := AddChain(t, chain, rules).output;
      if CountJumps(t.output, chain) > 0 then out == t.output
      else
        && |out| == |t.output| + 1 && out[..|t.output|] == t.output && out[|t.output| + 1..] == []
        && JumpsTo(out[|t.output|], chain) && Taken(out[|t.output|], p, w)
  {
    assert t.output + [] == t.output;
  }
}
