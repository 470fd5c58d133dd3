/** The rule lists a class list is compiled into. */
module PolicyCompiler {
  import opened Types
  import opened Netfilter

  const MARK_CHAIN := "NETSERVICE-MARK"
  const ISO_CHAIN := "NETSERVICE-ISO"
  const IFNAMSIZ: nat := 16
  const FULL_MASK: bv32 := 0xFFFF_FFFF

  function MarkRule(c: PathClassConfig): Rule {
    Rule([CgroupClassid(c.classid, false)], SetXmark(c.mark, FULL_MASK))
  }

  function MarkRules(classes: seq<PathClassConfig>): (r: seq<Rule>)
    ensures |r| == |classes|
  {
    seq(|classes|, i requires 0 <= i < |classes| => MarkRule(classes[i]))
  }

  /** How many bytes of a configured name fit an interface buffer, leaving room for the final NUL. */
  function NameLen(name: string): nat {
    if |name| <= IFNAMSIZ - 1 then |name| else IFNAMSIZ - 1
  }

  function NameBuffer(name: string): (r: seq<char>)
    ensures |r| == IFNAMSIZ
  {
    seq(IFNAMSIZ, i => if 0 <= i < NameLen(name) then name[i] else '\0')
  }

  /** The mask covers the copied bytes and the NUL after them. */
  function NameMask(name: string): (r: seq<bv8>)
    ensures |r| == IFNAMSIZ
  {
    seq(IFNAMSIZ, i => if i <= NameLen(name) then 0xFF else 0)
  }

  function DropRule(name: string, mark: bv32): Rule {
    Rule([OutIface(NameBuffer(name), NameMask(name)), MarkIs(mark, FULL_MASK, false)], Drop)
  }

  /** The names not yet known, appended in order. */
  function AddNames(known: seq<string>, names: seq<string>): seq<string> {
    if names == [] then known
    else
      var before := AddNames(known, names[..|names| - 1]);
      var f := names[|names| - 1];
      if f in before then before else before + [f]
  }

  function AllIfaces(classes: seq<PathClassConfig>): seq<string> {
    if classes == [] then []
    else AddNames(AllIfaces(classes[..|classes| - 1]), classes[|classes| - 1].interfaces)
  }

  /** (interface, mark) pairs that keep class `s` off the names outside its own list. */
  function OwnPairs(s: PathClassConfig, names: seq<string>): seq<(string, bv32)> {
    if names == [] then []
    else
      var f := names[|names| - 1];
      OwnPairs(s, names[..|names| - 1]) + if f in s.interfaces then [] else [(f, s.mark)]
  }

  function PairsFor(names: seq<string>, mark: bv32): seq<(string, bv32)> {
    seq(|names|, i requires 0 <= i < |names| => (names[i], mark))
  }

  /** (interface, mark) pairs that keep every other class off the interfaces of `s`. */
  function OtherPairs(s: PathClassConfig, classes: seq<PathClassConfig>): seq<(string, bv32)> {
    if classes == [] then []
    else
      var b := classes[|classes| - 1];
      OtherPairs(s, classes[..|classes| - 1]) + if b.id == s.id then [] else PairsFor(s.interfaces, b.mark)
  }

  /** The pairs for the strict classes of `done`, against all `classes`. */
  function StrictPairs(done: seq<PathClassConfig>, classes: seq<PathClassConfig>): seq<(string, bv32)> {
    if done == [] then []
    else
      var s := done[|done| - 1];
      StrictPairs(done[..|done| - 1], classes)
      + if s.strictIsolation then OwnPairs(s, AllIfaces(classes)) + OtherPairs(s, classes) else []
  }

  function RulesOf(pairs: seq<(string, bv32)>): (r: seq<Rule>)
    ensures |r| == |pairs|
  {
    seq(|pairs|, i requires 0 <= i < |pairs| => DropRule(pairs[i].0, pairs[i].1))
  }

  function DropRules(classes: seq<PathClassConfig>): seq<Rule> {
    RulesOf(StrictPairs(classes, classes))
  }

  predicate AnyStrict(classes: seq<PathClassConfig>): (r: bool)
    ensures r <==> exists i :: 0 <= i < |classes| && classes[i].strictIsolation
  {
    exists c <- classes :: c.strictIsolation
  }

  /**
   What the kernel is handed, field by field: class `i` is marked by an uninverted classid match with every bit of the
   mark replaced; a drop rule matches the whole mark, uninverted, and a name in a 16-byte buffer masked up to its NUL.
   */
  lemma RulesHanded(classes: seq<PathClassConfig>, i: nat, name: string, mark: bv32)
    requires i < |classes|
    ensures MarkRules(classes)[i].matches == [CgroupClassid(classes[i].classid, false)]
    ensures MarkRules(classes)[i].target == SetXmark(classes[i].mark, 0xFFFF_FFFF)
    ensures var r, n := DropRule(name, mark), if |name| < 15 then |name| else 15;
      && r.target == Drop && |r.matches| == 2 && r.matches[0].OutIface?
      && r.matches[1] == MarkIs(mark, 0xFFFF_FFFF, false)
      && |r.matches[0].name| == |r.matches[0].nameMask| == 16
      && (forall k :: 0 <= k < 16 ==> r.matches[0].name[k] == if k < n then name[k] else '\0')
      && (forall k :: 0 <= k < 16 ==> r.matches[0].nameMask[k] == if k <= n then 0xFF else 0)
  {
    var r := DropRule(name, mark);
    assert r.matches[0] == OutIface(NameBuffer(name), NameMask(name));
  }

  // ---- membership, stated without the order of construction ----

  ghost predicate Configured(classes: seq<PathClassConfig>, name: string) {
    exists i :: 0 <= i < |classes| && name in classes[i].interfaces
  }

  lemma {:induction false} AddNamesMembers(known: seq<string>, names: seq<string>, f: string)
    ensures f in AddNames(known, names) <==> f in known || f in names
  {
    if names != [] {
      AddNamesMembers(known, names[..|names| - 1], f);
      assert names == names[..|names| - 1] + [names[|names| - 1]];
    }
  }

  lemma {:induction false} AllIfacesMembers(classes: seq<PathClassConfig>, f: string)
    ensures f in AllIfaces(classes) <==> Configured(classes, f)
  {
    if classes != [] {
      var n := |classes| - 1;
      AllIfacesMembers(classes[..n], f);
      AddNamesMembers(AllIfaces(classes[..n]), classes[n].interfaces, f);
      if Configured(classes[..n], f) {
        var i :| 0 <= i < n && f in classes[..n][i].interfaces;
        assert f in classes[i].interfaces;
      }
      if Configured(classes, f) {
        var i :| 0 <= i <= n && f in classes[i].interfaces;
        assert i < n ==> f in classes[..n][i].interfaces;
      }
    }
  }

  lemma {:induction false} OwnPairsMembers(s: PathClassConfig, names: seq<string>, f: string, m: bv32)
    ensures (f, m) in OwnPairs(s, names) <==> f in names && f !in s.interfaces && m == s.mark
  {
    if names != [] {
      OwnPairsMembers(s, names[..|names| - 1], f, m);
      assert names == names[..|names| - 1] + [names[|names| - 1]];
    }
  }

  lemma PairsForMembers(names: seq<string>, mark: bv32, f: string, m: bv32)
    ensures (f, m) in PairsFor(names, mark) <==> f in names && m == mark
  {
    if f in names && m == mark {
      var i :| 0 <= i < |names| && names[i] == f;
      assert PairsFor(names, mark)[i] == (f, m);
    }
  }

  ghost predicate OtherMark(s: PathClassConfig, classes: seq<PathClassConfig>, m: bv32) {
    exists j :: 0 <= j < |classes| && classes[j].id != s.id && classes[j].mark == m
  }

  lemma {:induction false} OtherPairsMembers(s: PathClassConfig, classes: seq<PathClassConfig>, f: string, m: bv32)
    ensures (f, m) in OtherPairs(s, classes) <==> f in s.interfaces && OtherMark(s, classes, m)
  {
    if classes != [] {
      var n := |classes| - 1;
      OtherPairsMembers(s, classes[..n], f, m);
      PairsForMembers(s.interfaces, classes[n].mark, f, m);
      if OtherMark(s, classes[..n], m) {
        var j :| 0 <= j < n && classes[..n][j].id != s.id && classes[..n][j].mark == m;
        assert classes[j].id != s.id && classes[j].mark == m;
      }
      if OtherMark(s, classes, m) {
        var j :| 0 <= j <= n && classes[j].id != s.id && classes[j].mark == m;
        assert j < n ==> classes[..n][j].id != s.id && classes[..n][j].mark == m;
      }
    }
  }

  /** Why the pair (f, m) is forbidden on account of strict class `s`. */
  ghost predicate Forbids(s: PathClassConfig, classes: seq<PathClassConfig>, f: string, m: bv32) {
    && s.strictIsolation
    && ((Configured(classes, f) && f !in s.interfaces && m == s.mark)
        || (f in s.interfaces && OtherMark(s, classes, m)))
  }

  lemma {:induction false} StrictPairsMembers(
    done: seq<PathClassConfig>, classes: seq<PathClassConfig>, f: string, m: bv32)
    ensures (f, m) in StrictPairs(done, classes)
      <==> exists i :: 0 <= i < |done| && Forbids(done[i], classes, f, m)
  {
    if done != [] {
      var n := |done| - 1;
      var s := done[n];
      StrictPairsMembers(done[..n], classes, f, m);
      AllIfacesMembers(classes, f);
      OwnPairsMembers(s, AllIfaces(classes), f, m);
      OtherPairsMembers(s, classes, f, m);
      var own, other := OwnPairs(s, AllIfaces(classes)), OtherPairs(s, classes);
      assert (f, m) in own + other <==> (f, m) in own || (f, m) in other;
      if i :| 0 <= i < n && Forbids(done[..n][i], classes, f, m) {
        assert Forbids(done[i], classes, f, m);
      }
      if i :| 0 <= i <= n && Forbids(done[i], classes, f, m) {
        assert i < n ==> Forbids(done[..n][i], classes, f, m);
      }
    }
  }
}
