/**
 Netfilter tables as the daemon sees them through libiptc: rules, chains, the edits it makes,
 and a staged handle whose content reaches the kernel only at commit.
 */
module Netfilter {
  import opened Environment

  datatype Match =
    | CgroupClassid(classid: bv32, invert: bool)
    | MarkIs(mark: bv32, mask: bv32, invertMark: bool)
    | OutIface(name: seq<char>, nameMask: seq<bv8>)
    | OpaqueMatch(tag: int)

  datatype Target =
    | SetXmark(xmark: bv32, xmask: bv32)
    | Drop
    | JumpTo(chain: string)
    | OpaqueTarget(targetName: string)

  datatype Rule = Rule(matches: seq<Match>, target: Target)

  /** The built-in OUTPUT chain, and every other chain by name. */
  datatype Table = Table(output: seq<Rule>, chains: map<string, seq<Rule>>)

  /** The scan for an existing jump looks at the target only, never at the matches. */
  predicate JumpsTo(r: Rule, chain: string) {
    r.target == JumpTo(chain)
  }

  function CountJumps(rules: seq<Rule>, chain: string): nat {
    if rules == [] then 0
    else (if JumpsTo(rules[0], chain) then 1 else 0) + CountJumps(rules[1..], chain)
  }

  function RemoveFirstJump(rules: seq<Rule>, chain: string): seq<Rule> {
    if rules == [] then []
    else if JumpsTo(rules[0], chain) then rules[1..]
    else [rules[0]] + RemoveFirstJump(rules[1..], chain)
  }

  /** The rules that belong to somebody else. */
  function WithoutJumps(rules: seq<Rule>, chain: string): seq<Rule> {
    if rules == [] then []
    else (if JumpsTo(rules[0], chain) then [] else [rules[0]]) + WithoutJumps(rules[1..], chain)
  }

  ghost predicate Referenced(t: Table, chain: string) {
    || CountJumps(t.output, chain) > 0
    || exists c :: c in t.chains && CountJumps(t.chains[c], chain) > 0
  }

  /** The chain emptied or created, and OUTPUT given a jump to it unless one is there. */
  function Prepared(t: Table, chain: string): Table {
    var jump := if CountJumps(t.output, chain) > 0 then [] else [Rule([], JumpTo(chain))];
    Table(t.output + jump, t.chains[chain := []])
  }

  function AddChain(t: Table, chain: string, rules: seq<Rule>): Table {
    var p := Prepared(t, chain);
    p.(chains := p.chains[chain := rules])
  }

  /** Drop the first jump, empty the chain, delete it; the deletion is refused while a rule still refers to it. */
  ghost function RemoveChain(t: Table, chain: string): Table {
    if chain !in t.chains then t
    else
      var flushed := Table(RemoveFirstJump(t.output, chain), t.chains[chain := []]);
      if Referenced(flushed, chain) then flushed
      else flushed.(chains := flushed.chains - {chain})
  }

  /** Everything in the table except the chain itself and the jumps to it from OUTPUT. */
  function Foreign(t: Table, chain: string): Table {
    Table(WithoutJumps(t.output, chain), t.chains - {chain})
  }

  /** A private copy of a table being edited. A call fails if the table forbids it or the outside world fails it. */
  class Handle {
    const env: Env
    var staged: Table

    constructor (t: Table, env: Env)
      ensures staged == t && this.env == env
    {
      staged, this.env := t, env;
    }

    method Flush(chain: string) returns (ok: bool)
      modifies this, env
      ensures env.calls == old(env.calls) + 1
      ensures ok <==> chain in old(staged.chains) && !env.fails(old(env.calls))
      ensures staged == if ok then old(staged).(chains := old(staged.chains)[chain := []]) else old(staged)
    {
      var failed := env.Ask();
      ok := chain in staged.chains && !failed;
      if ok { staged := staged.(chains := staged.chains[chain := []]); }
    }

    method Create(chain: string) returns (ok: bool)
      modifies this, env
      ensures env.calls == old(env.calls) + 1
      ensures ok <==> chain !in old(staged.chains) && !env.fails(old(env.calls))
      ensures staged == if ok then old(staged).(chains := old(staged.chains)[chain := []]) else old(staged)
    {
      var failed := env.Ask();
      ok := chain !in staged.chains && !failed;
      if ok { staged := staged.(chains := staged.chains[chain := []]); }
    }

    method AppendOutput(r: Rule) returns (ok: bool)
      modifies this, env
      ensures env.calls == old(env.calls) + 1
      ensures ok <==> !env.fails(old(env.calls))
      ensures staged == if ok then old(staged).(output := old(staged.output) + [r]) else old(staged)
    {
      var failed := env.Ask();
      ok := !failed;
      if ok { staged := staged.(output := staged.output + [r]); }
    }

    method Append(chain: string, r: Rule) returns (ok: bool)
      modifies this, env
      ensures env.calls == old(env.calls) + 1
      ensures ok <==> chain in old(staged.chains) && !env.fails(old(env.calls))
      ensures ok ==> staged == old(staged).(chains := old(staged.chains)[chain := old(staged.chains)[chain] + [r]])
      ensures !ok ==> staged == old(staged)
    {
      var failed := env.Ask();
      ok := chain in staged.chains && !failed;
      if ok { staged := staged.(chains := staged.chains[chain := staged.chains[chain] + [r]]); }
    }

    method DeleteOutput(n: nat) returns (ok: bool)
      modifies this, env
      ensures env.calls == old(env.calls) + 1
      ensures ok <==> n < |old(staged.output)| && !env.fails(old(env.calls))
      ensures ok ==> staged == old(staged).(output := old(staged.output)[..n] + old(staged.output)[n + 1..])
      ensures !ok ==> staged == old(staged)
    {
      var failed := env.Ask();
      ok := n < |staged.output| && !failed;
      if ok { staged := staged.(output := staged.output[..n] + staged.output[n + 1..]); }
    }

    /** A chain can be deleted when it holds no rules and no rule refers to it. */
    ghost predicate Deletable(chain: string)
      reads this
    {
      chain in staged.chains && staged.chains[chain] == [] && !Referenced(staged, chain)
    }

    method Delete(chain: string) returns (ok: bool)
      modifies this, env
      ensures env.calls == old(env.calls) + 1
      ensures ok <==> old(Deletable(chain)) && !env.fails(old(env.calls))
      ensures staged == if ok then old(staged).(chains := old(staged.chains) - {chain}) else old(staged)
    {
      var failed := env.Ask();
      var refs := HasReference(chain);
      ok := chain in staged.chains && staged.chains[chain] == [] && !refs && !failed;
      if ok { staged := staged.(chains := staged.chains - {chain}); }
    }

    /** Looks for a jump to `chain` in OUTPUT and then in every other chain. */
    method HasReference(chain: string) returns (found: bool)
      ensures found <==> Referenced(staged, chain)
    {
      if CountJumps(staged.output, chain) > 0 { return true; }
      var left := staged.chains.Keys;
      while left != {}
        invariant left <= staged.chains.Keys
        invariant forall c :: c in staged.chains && c !in left ==> CountJumps(staged.chains[c], chain) == 0
        decreases left
      {
        var c :| c in left;
        if CountJumps(staged.chains[c], chain) > 0 { return true; }
        left := left - {c};
      }
      return false;
    }
  }
}
