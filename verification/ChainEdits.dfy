/** What any history of adding and removing a daemon chain does to a table. */
module ChainEdits {
  import opened Netfilter

  /** OUTPUT holds at most one jump to the chain, nobody else jumps to it, and no jump outlives the chain. */
  ghost predicate WellLinked(t: Table, chain: string) {
    && CountJumps(t.output, chain) <= 1
    && (chain !in t.chains ==> CountJumps(t.output, chain) == 0)
    && forall c :: c in t.chains ==> CountJumps(t.chains[c], chain) == 0
  }

  datatype Edit = Add(rules: seq<Rule>) | Remove

  ghost function Apply(t: Table, chain: string, e: Edit): Table {
    match e
    case Add(rules) => AddChain(t, chain, rules)
    case Remove => RemoveChain(t, chain)
  }

  ghost function Run(t: Table, chain: string, edits: seq<Edit>): Table {
    if edits == [] then t
    else Apply(Run(t, chain, edits[..|edits| - 1]), chain, edits[|edits| - 1])
  }

  /** The rules an edit adds never jump to the chain itself. */
  ghost predicate Plain(edits: seq<Edit>, chain: string) {
    forall k :: 0 <= k < |edits| && edits[k].Add? ==> CountJumps(edits[k].rules, chain) == 0
  }

  lemma {:induction false} JumpsOfConcat(a: seq<Rule>, b: seq<Rule>, chain: string)
    ensures CountJumps(a + b, chain) == CountJumps(a, chain) + CountJumps(b, chain)
    ensures WithoutJumps(a + b, chain) == WithoutJumps(a, chain) + WithoutJumps(b, chain)
  {
    if a == [] {
      assert a + b == b;
    } else {
      JumpsOfConcat(a[1..], b, chain);
      assert (a + b)[1..] == a[1..] + b;
    }
  }

  lemma {:induction false} RemoveFirstJumpCount(rules: seq<Rule>, chain: string)
    ensures CountJumps(RemoveFirstJump(rules, chain), chain)
         == if CountJumps(rules, chain) == 0 then 0 else CountJumps(rules, chain) - 1
    ensures WithoutJumps(RemoveFirstJump(rules, chain), chain) == WithoutJumps(rules, chain)
    ensures CountJumps(rules, chain) == 0 ==> RemoveFirstJump(rules, chain) == rules
    ensures CountJumps(rules, chain) == 0 ==> WithoutJumps(rules, chain) == rules
    ensures CountJumps(rules, chain) <= 1 ==> RemoveFirstJump(rules, chain) == WithoutJumps(rules, chain)
  {
    if rules != [] {
      RemoveFirstJumpCount(rules[1..], chain);
      assert [rules[0]] + rules[1..] == rules;
      if !JumpsTo(rules[0], chain) {
        var rest := RemoveFirstJump(rules[1..], chain);
        assert ([rules[0]] + rest)[1..] == rest;
      }
    }
  }

  lemma {:induction false} RemoveAppendedJump(rules: seq<Rule>, chain: string)
    requires CountJumps(rules, chain) == 0
    ensures RemoveFirstJump(rules + [Rule([], JumpTo(chain))], chain) == rules
  {
    var all := rules + [Rule([], JumpTo(chain))];
    if rules != [] {
      RemoveAppendedJump(rules[1..], chain);
      assert all[1..] == rules[1..] + [Rule([], JumpTo(chain))];
    }
  }

  /** One edit keeps the links in order and everything foreign as it was. */
  lemma EditKeeps(t: Table, chain: string, e: Edit)
    requires Plain([e], chain)
    ensures Foreign(Apply(t, chain, e), chain) == Foreign(t, chain)
    ensures WellLinked(t, chain) ==>
      var t' := Apply(t, chain, e);
      && WellLinked(t', chain)
      && (chain in t'.chains <==> CountJumps(t'.output, chain) == 1)
      && (chain in t'.chains <==> e.Add?)
      && (e.Add? ==> t'.chains[chain] == e.rules)
  {
    var t' := Apply(t, chain, e);
    assert t'.chains - {chain} == t.chains - {chain};
    match e
    case Add(rules) =>
      assert [e][0] == e;
      JumpsOfConcat(t.output, [Rule([], JumpTo(chain))], chain);
      assert t.output + [] == t.output;
      assert CountJumps([Rule([], JumpTo(chain))], chain) == 1;
      assert WithoutJumps([Rule([], JumpTo(chain))], chain) == [];
    case Remove =>
      RemoveFirstJumpCount(t.output, chain);
      if chain in t.chains && WellLinked(t, chain) {
        var flushed := Table(RemoveFirstJump(t.output, chain), t.chains[chain := []]);
        assert !Referenced(flushed, chain);
      }
  }

  /**
   After any history of edits the chain exists exactly when OUTPUT has one jump to it, an add leaves exactly its own
   rules, and nothing foreign has moved.
   */
  lemma {:induction false} RunKeeps(t: Table, chain: string, edits: seq<Edit>)
    requires WellLinked(t, chain) && Plain(edits, chain)
    ensures var t' := Run(t, chain, edits);
      && WellLinked(t', chain)
      && Foreign(t', chain) == Foreign(t, chain)
      && (edits != [] ==>
            && (chain in t'.chains <==> CountJumps(t'.output, chain) == 1)
            && var last := edits[|edits| - 1];
               if last.Add? then chain in t'.chains && t'.chains[chain] == last.rules else chain !in t'.chains)
  {
    if edits != [] {
      var n := |edits| - 1;
      RunKeeps(t, chain, edits[..n]);
      EditKeeps(Run(t, chain, edits[..n]), chain, edits[n]);
    }
  }

  /** A second add changes nothing, whatever the table was. */
  lemma AddTwice(t: Table, chain: string, rules: seq<Rule>)
    ensures AddChain(AddChain(t, chain, rules), chain, rules) == AddChain(t, chain, rules)
  {
    var t1 := AddChain(t, chain, rules);
    JumpsOfConcat(t.output, [Rule([], JumpTo(chain))], chain);
    assert CountJumps([Rule([], JumpTo(chain))], chain) == 1;
    assert t.output + [] == t.output && t1.output + [] == t1.output;
    assert t1.chains[chain := []][chain := rules] == t1.chains;
  }

  /** On a well linked table removal leaves exactly the foreign part, however the chain got there. */
  lemma RemoveIsForeign(t: Table, chain: string)
    requires WellLinked(t, chain)
    ensures RemoveChain(t, chain) == Foreign(t, chain)
    ensures chain !in t.chains ==> Foreign(t, chain) == t
  {
    RemoveFirstJumpCount(t.output, chain);
    if chain in t.chains {
      var flushed := Table(RemoveFirstJump(t.output, chain), t.chains[chain := []]);
      assert !Referenced(flushed, chain);
      assert flushed.chains - {chain} == t.chains - {chain};
    } else {
      assert t.chains - {chain} == t.chains;
    }
  }

  /** Removing after an add gives what removing alone gives: the very same table when the chain was not there. */
  lemma RemoveAfterAdd(t: Table, chain: string, rules: seq<Rule>)
    requires WellLinked(t, chain) && CountJumps(rules, chain) == 0
    ensures RemoveChain(AddChain(t, chain, rules), chain) == RemoveChain(t, chain)
    ensures chain !in t.chains ==> RemoveChain(AddChain(t, chain, rules), chain) == t
  {
    assert [Add(rules)][0] == Add(rules);
    EditKeeps(t, chain, Add(rules));
    RemoveIsForeign(AddChain(t, chain, rules), chain);
    RemoveIsForeign(t, chain);
  }

  /**
   Removal gets rid of an existing chain exactly when OUTPUT holds at most one jump to it and no other chain refers to
   it. With two jumps, an emptied chain and one jump stay behind.
   */
  lemma RemoveCompleteIff(t: Table, chain: string)
    requires chain in t.chains && CountJumps(t.chains[chain], chain) == 0
    ensures chain !in RemoveChain(t, chain).chains
      <==> && CountJumps(t.output, chain) <= 1
           && forall c :: c in t.chains ==> CountJumps(t.chains[c], chain) == 0
  {
    var flushed := Table(RemoveFirstJump(t.output, chain), t.chains[chain := []]);
    RemoveFirstJumpCount(t.output, chain);
    if !Referenced(flushed, chain) {
      forall c | c in t.chains ensures CountJumps(t.chains[c], chain) == 0 {
        assert c in flushed.chains && (c != chain ==> flushed.chains[c] == t.chains[c]);
      }
    }
  }

  /** What a scan of OUTPUT that stops at index `n` has learnt. */
  lemma {:induction false} ScanResult(rules: seq<Rule>, chain: string, n: nat)
    requires n <= |rules| && forall k :: 0 <= k < n ==> !JumpsTo(rules[k], chain)
    requires n < |rules| ==> JumpsTo(rules[n], chain)
    ensures CountJumps(rules, chain) > 0 <==> n < |rules|
    ensures RemoveFirstJump(rules, chain) == if n < |rules| then rules[..n] + rules[n + 1..] else rules
  {
    if n > 0 {
      ScanResult(rules[1..], chain, n - 1);
      assert rules == [rules[0]] + rules[1..];
      if n < |rules| {
        assert rules[1..][..n - 1] == rules[1..n] && rules[1..][n..] == rules[n + 1..];
        assert rules[..n] == [rules[0]] + rules[1..n];
      }
    } else if n < |rules| {
      assert rules[..0] + rules[1..] == rules[1..];
    }
  }
}
