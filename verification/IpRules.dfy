/** The kernel's list of ip rules and the fwmark rules the daemon keeps in it. */
module IpRules {
  import opened Types

  datatype IpRule = IpRule(priority: nat, mark: bv32, table: nat)

  const IP_RULE_PRIORITY: nat := 32765

  function OwnRule(c: PathClassConfig): IpRule {
    IpRule(IP_RULE_PRIORITY, c.mark, c.routingTable)
  }

  /** New rules go behind the ones of the same priority. */
  function Insert(rules: seq<IpRule>, r: IpRule): seq<IpRule> {
    if rules == [] then [r]
    else if rules[0].priority > r.priority then [r] + rules
    else [rules[0]] + Insert(rules[1..], r)
  }

  /** Exclusive creation: an existing rule is reported as success and left alone. */
  function AddRule(rules: seq<IpRule>, r: IpRule): seq<IpRule> {
    if r in rules then rules else Insert(rules, r)
  }

  /** Deletes the first matching rule; none is reported as success. */
  function DeleteRule(rules: seq<IpRule>, r: IpRule): seq<IpRule> {
    if rules == [] then []
    else if rules[0] == r then rules[1..]
    else [rules[0]] + DeleteRule(rules[1..], r)
  }

  ghost function OwnRules(classes: seq<PathClassConfig>): set<IpRule> {
    set i | 0 <= i < |classes| :: OwnRule(classes[i])
  }

  function Without(rules: seq<IpRule>, own: set<IpRule>): seq<IpRule> {
    if rules == [] then []
    else (if rules[0] in own then [] else [rules[0]]) + Without(rules[1..], own)
  }

  /** Each of the daemon's rules is present at most once. */
  ghost predicate OnceEach(rules: seq<IpRule>, own: set<IpRule>) {
    forall r :: r in own ==> multiset(rules)[r] <= 1
  }

  ghost predicate Sorted(rules: seq<IpRule>) {
    forall i, j :: 0 <= i < j < |rules| ==> rules[i].priority <= rules[j].priority
  }

  lemma {:induction false} InsertMeaning(rules: seq<IpRule>, r: IpRule, own: set<IpRule>)
    ensures multiset(Insert(rules, r)) == multiset(rules) + multiset{r}
    ensures r in own ==> Without(Insert(rules, r), own) == Without(rules, own)
  {
    if rules != [] {
      assert rules == [rules[0]] + rules[1..];
      if rules[0].priority > r.priority {
        assert ([r] + rules)[1..] == rules;
      } else {
        InsertMeaning(rules[1..], r, own);
        var rest := Insert(rules[1..], r);
        assert ([rules[0]] + rest)[1..] == rest;
      }
    }
  }

  lemma {:induction false} InsertKeepsOrder(rules: seq<IpRule>, r: IpRule)
    requires Sorted(rules)
    ensures Sorted(Insert(rules, r))
  {
    if rules != [] && rules[0].priority <= r.priority {
      InsertKeepsOrder(rules[1..], r);
      InsertMeaning(rules[1..], r, {});
      var rest := Insert(rules[1..], r);
      forall k | 0 <= k < |rest| ensures rules[0].priority <= rest[k].priority {
        assert rest[k] in multiset(rest);
        if rest[k] != r {
          assert rest[k] in multiset(rules[1..]);
        }
      }
    }
  }

  lemma {:induction false} DeleteMeaning(rules: seq<IpRule>, r: IpRule, own: set<IpRule>)
    ensures multiset(DeleteRule(rules, r)) == multiset(rules) - multiset{r}
    ensures r in own ==> Without(DeleteRule(rules, r), own) == Without(rules, own)
  {
    if rules != [] {
      assert rules == [rules[0]] + rules[1..];
      if rules[0] != r {
        DeleteMeaning(rules[1..], r, own);
        var rest := DeleteRule(rules[1..], r);
        assert ([rules[0]] + rest)[1..] == rest;
      }
    }
  }

  lemma {:induction false} WithoutAbsent(rules: seq<IpRule>, own: set<IpRule>)
    requires forall r :: r in own ==> r !in rules
    ensures Without(rules, own) == rules
  {
    if rules != [] {
      WithoutAbsent(rules[1..], own);
      assert rules[0] in rules;
    }
  }

  /** Adding one of the daemon's rules keeps the rest of the list, and leaves that rule there exactly once. */
  lemma AddKeeps(rules: seq<IpRule>, r: IpRule, own: set<IpRule>)
    requires OnceEach(rules, own) && r in own
    ensures OnceEach(AddRule(rules, r), own)
    ensures Without(AddRule(rules, r), own) == Without(rules, own)
    ensures r in AddRule(rules, r) && forall q :: q in rules ==> q in AddRule(rules, r)
    ensures Sorted(rules) ==> Sorted(AddRule(rules, r))
  {
    InsertMeaning(rules, r, own);
    if Sorted(rules) {
      InsertKeepsOrder(rules, r);
    }
    assert r in rules <==> multiset(rules)[r] > 0;
    forall q | q in rules || q == r ensures q in AddRule(rules, r) {
      assert q in multiset(rules) + multiset{r};
      assert q in multiset(AddRule(rules, r)) || r in rules;
    }
  }

  /** Deleting one of the daemon's rules keeps the rest, and leaves none of that rule. */
  lemma DeleteKeeps(rules: seq<IpRule>, r: IpRule, own: set<IpRule>)
    requires OnceEach(rules, own) && r in own
    ensures OnceEach(DeleteRule(rules, r), own)
    ensures Without(DeleteRule(rules, r), own) == Without(rules, own)
    ensures r !in DeleteRule(rules, r)
    ensures forall q :: q in DeleteRule(rules, r) ==> q in rules
  {
    DeleteMeaning(rules, r, own);
    assert multiset(DeleteRule(rules, r))[r] == 0;
    forall q | q in DeleteRule(rules, r) ensures q in rules {
      assert q in multiset(DeleteRule(rules, r));
      assert q in multiset(rules);
    }
  }

  function AddAll(rules: seq<IpRule>, classes: seq<PathClassConfig>): seq<IpRule> {
    if classes == [] then rules
    else AddRule(AddAll(rules, classes[..|classes| - 1]), OwnRule(classes[|classes| - 1]))
  }

  function DeleteAll(rules: seq<IpRule>, classes: seq<PathClassConfig>): seq<IpRule> {
    if classes == [] then rules
    else DeleteRule(DeleteAll(rules, classes[..|classes| - 1]), OwnRule(classes[|classes| - 1]))
  }

  lemma OwnRuleIn(classes: seq<PathClassConfig>, k: nat)
    requires k < |classes|
    ensures OwnRule(classes[k]) in OwnRules(classes)
  {}

  lemma AddAllStep(rules: seq<IpRule>, classes: seq<PathClassConfig>, n: nat)
    requires 0 < n <= |classes|
    ensures AddAll(rules, classes[..n]) == AddRule(AddAll(rules, classes[..n - 1]), OwnRule(classes[n - 1]))
  {
    assert classes[..n][..n - 1] == classes[..n - 1];
  }

  /** Adding the rules of a prefix of the classes, in any state left by earlier runs. */
  lemma {:induction false} AddAllKeeps(rules: seq<IpRule>, classes: seq<PathClassConfig>, n: nat)
    requires n <= |classes| && OnceEach(rules, OwnRules(classes))
    ensures var after := AddAll(rules, classes[..n]);
      && OnceEach(after, OwnRules(classes))
      && Without(after, OwnRules(classes)) == Without(rules, OwnRules(classes))
      && (forall k :: 0 <= k < n ==> OwnRule(classes[k]) in after)
      && (Sorted(rules) ==> Sorted(after))
  {
    if n > 0 {
      AddAllStep(rules, classes, n);
      AddAllKeeps(rules, classes, n - 1);
      OwnRuleIn(classes, n - 1);
      var before, r := AddAll(rules, classes[..n - 1]), OwnRule(classes[n - 1]);
      AddKeeps(before, r, OwnRules(classes));
      forall k | 0 <= k < n ensures OwnRule(classes[k]) in AddRule(before, r) {
        assert k < n - 1 ==> OwnRule(classes[k]) in before;
      }
    }
  }

  lemma DeleteAllStep(rules: seq<IpRule>, classes: seq<PathClassConfig>, n: nat)
    requires 0 < n <= |classes|
    ensures DeleteAll(rules, classes[..n]) == DeleteRule(DeleteAll(rules, classes[..n - 1]), OwnRule(classes[n - 1]))
  {
    assert classes[..n][..n - 1] == classes[..n - 1];
  }

  lemma {:induction false} DeleteAllKeeps(rules: seq<IpRule>, classes: seq<PathClassConfig>, n: nat)
    requires n <= |classes| && OnceEach(rules, OwnRules(classes))
    ensures var after := DeleteAll(rules, classes[..n]);
      && OnceEach(after, OwnRules(classes))
      && Without(after, OwnRules(classes)) == Without(rules, OwnRules(classes))
      && (forall k :: 0 <= k < n ==> OwnRule(classes[k]) !in after)
  {
    if n > 0 {
      DeleteAllStep(rules, classes, n);
      DeleteAllKeeps(rules, classes, n - 1);
      OwnRuleIn(classes, n - 1);
      var before, r := DeleteAll(rules, classes[..n - 1]), OwnRule(classes[n - 1]);
      DeleteKeeps(before, r, OwnRules(classes));
      forall k | 0 <= k < n ensures OwnRule(classes[k]) !in DeleteRule(before, r) {
        assert k < n - 1 ==> OwnRule(classes[k]) !in before;
      }
    }
  }

  /** Deleting the rules of all classes leaves exactly the foreign rules, in order. */
  lemma DeleteAllIsWithout(rules: seq<IpRule>, classes: seq<PathClassConfig>)
    requires OnceEach(rules, OwnRules(classes))
    ensures DeleteAll(rules, classes) == Without(rules, OwnRules(classes))
  {
    assert classes[..|classes|] == classes;
    DeleteAllKeeps(rules, classes, |classes|);
    var after := DeleteAll(rules, classes);
    forall r | r in OwnRules(classes) ensures r !in after {
      var k :| 0 <= k < |classes| && r == OwnRule(classes[k]);
    }
    WithoutAbsent(after, OwnRules(classes));
  }

  /** A list holding none of the daemon's rules holds each at most once, and is its own foreign part. */
  lemma NoneHeld(rules: seq<IpRule>, classes: seq<PathClassConfig>)
    requires forall r :: r in OwnRules(classes) ==> r !in rules
    ensures OnceEach(rules, OwnRules(classes))
    ensures Without(rules, OwnRules(classes)) == rules
  {
    WithoutAbsent(rules, OwnRules(classes));
  }
}
