/** What the access-rule reconciliation computes, as functions of the rule list and the
    remote state, with the facts the service's loops rely on. */
module Acl {
  import opened Results
  import opened Paths
  import opened Seqs
  import opened Remote

  /** The rules left once every rule on path `p` is removed, in their original order. */
  function RemoveMatches(rules: seq<AclRule>, p: string): (r: seq<AclRule>)
    ensures |r| <= |rules|
  {
    Filter(rules, (x: AclRule) => x.path != p)
  }

  /** After unsharing `p` no rule is on `p`, every rule on another path is still there, and
      when no rule was on `p` the list is unchanged. */
  lemma UnshareSpec(rules: seq<AclRule>, p: string)
    ensures forall x :: x in RemoveMatches(rules, p) <==> x in rules && x.path != p
    ensures (forall x :: x in rules ==> x.path != p) ==> RemoveMatches(rules, p) == rules
  {
    FilterMembers(rules, (x: AclRule) => x.path != p);
    if forall x :: x in rules ==> x.path != p {
      FilterKeepsAll(rules, (x: AclRule) => x.path != p);
    }
  }

  /** Unsharing distributes over a split of the rule list: survivors keep their relative order. */
  lemma RemoveMatchesConcat(a: seq<AclRule>, b: seq<AclRule>, p: string)
    ensures RemoveMatches(a + b, p) == RemoveMatches(a, p) + RemoveMatches(b, p)
  {
    FilterConcat(a, b, (x: AclRule) => x.path != p);
  }

  /** Unsharing the same path twice is the same as unsharing it once. */
  lemma RemoveMatchesIdempotent(rules: seq<AclRule>, p: string)
    ensures RemoveMatches(RemoveMatches(rules, p), p) == RemoveMatches(rules, p)
  {
    FilterIdempotent(rules, (x: AclRule) => x.path != p);
  }

  /** Unsharing the directory a grant was made on takes that grant back: appending a rule on
      the normalised `name` and then unsharing `name` leaves what unsharing alone leaves. */
  lemma UnshareUndoesGrant(rules: seq<AclRule>, name: string, grant: AclRule)
    requires grant.path == Normalize(name)
    ensures RemoveMatches(rules + [grant], Normalize(grant.path)) ==
            RemoveMatches(rules, Normalize(name))
  {
    RemoveMatchesConcat(rules, [grant], Normalize(name));
    assert [grant][..0] == [];
  }

  /** A rule list part-way through unsharing `p`: the first `k` rules are done. */
  function PartlyUnshared(rules: seq<AclRule>, k: nat, p: string): seq<AclRule>
    requires k <= |rules|
  {
    RemoveMatches(rules[..k], p) + rules[k..]
  }

  /** Before the loop starts, nothing is done. */
  lemma PartlyUnsharedStart(rules: seq<AclRule>, p: string)
    ensures PartlyUnshared(rules, 0, p) == rules
  {
    assert rules[..0] == [] && rules[0..] == rules;
  }

  /** Once every rule is done, the list is the unshared list. */
  lemma PartlyUnsharedDone(rules: seq<AclRule>, p: string)
    ensures PartlyUnshared(rules, |rules|, p) == RemoveMatches(rules, p)
  {
    assert rules[..|rules|] == rules && rules[|rules|..] == [];
  }

  /** Part-way through, the list holds only original rules and still every rule on another path. */
  lemma PartlyUnsharedFrame(rules: seq<AclRule>, k: nat, p: string)
    requires k <= |rules|
    ensures forall x :: x in PartlyUnshared(rules, k, p) ==> x in rules
    ensures forall x :: x in rules && x.path != p ==> x in PartlyUnshared(rules, k, p)
  {
    UnshareSpec(rules[..k], p);
    assert rules == rules[..k] + rules[k..];
  }

  /** The rules left after unsharing each path of `paths` in turn (each one normalised). */
  function UnshareEach(rules: seq<AclRule>, paths: seq<string>): seq<AclRule> {
    if paths == [] then rules
    else RemoveMatches(UnshareEach(rules, paths[..|paths| - 1]), Normalize(paths[|paths| - 1]))
  }

  /** Unsharing one more path removes that path's rules from what was left. */
  lemma UnshareEachSnoc(rules: seq<AclRule>, paths: seq<string>, q: string)
    ensures UnshareEach(rules, paths + [q]) == RemoveMatches(UnshareEach(rules, paths), Normalize(q))
  {
    assert (paths + [q])[..|paths|] == paths;
  }

  /** After unsharing several paths, exactly the rules on none of them remain. */
  lemma {:induction false} UnshareEachSpec(rules: seq<AclRule>, paths: seq<string>)
    ensures forall x :: x in UnshareEach(rules, paths) <==>
      x in rules && forall q :: q in paths ==> x.path != Normalize(q)
  {
    if paths != [] {
      var init := paths[..|paths| - 1];
      var last := paths[|paths| - 1];
      assert paths == init + [last];
      UnshareEachSpec(rules, init);
      UnshareSpec(UnshareEach(rules, init), Normalize(last));
    }
  }

  /** The remote's listing of the rule's directory fails with status 404: a zombie rule. */
  predicate IsZombie(r: AclRule, fs: map<string, seq<Entry>>, faults: map<Call, RemoteError>)
    ensures var p := Normalize(r.path);
      IsZombie(r, fs, faults) <==> if Ls(p) in faults then faults[Ls(p)].Status() == 404 else p !in fs
  {
    var ls := LsResult(fs, faults, r.path);
    ls.Failure? && ls.error.Status() == 404
  }

  /** A zombie rule whose deletion the remote accepts. */
  predicate Reclaimable(r: AclRule, fs: map<string, seq<Entry>>, faults: map<Call, RemoteError>)
    ensures var p := Normalize(r.path);
      Reclaimable(r, fs, faults) ==> AclDelete(r.id) !in faults && (p !in fs || Ls(p) in faults)
    ensures var p := Normalize(r.path);
      p !in fs && Ls(p) !in faults && AclDelete(r.id) !in faults ==> Reclaimable(r, fs, faults)
  {
    IsZombie(r, fs, faults) && AclDelete(r.id) !in faults
  }

  /** The rules the zombie sweep removes, in rule-list order. */
  function ReclaimedRules(rules: seq<AclRule>, fs: map<string, seq<Entry>>,
                          faults: map<Call, RemoteError>): seq<AclRule>
  {
    Filter(rules, (x: AclRule) => Reclaimable(x, fs, faults))
  }

  /** The rules the zombie sweep leaves, in rule-list order. */
  function Survivors(rules: seq<AclRule>, fs: map<string, seq<Entry>>,
                     faults: map<Call, RemoteError>): seq<AclRule>
  {
    Filter(rules, (x: AclRule) => !Reclaimable(x, fs, faults))
  }

  /** The paths of a list of rules, in order. */
  function RulePaths(rules: seq<AclRule>): seq<string> {
    if rules == [] then [] else RulePaths(rules[..|rules| - 1]) + [rules[|rules| - 1].path]
  }

  /** Reporting one more rule appends its path. */
  lemma RulePathsSnoc(rules: seq<AclRule>, x: AclRule)
    ensures RulePaths(rules + [x]) == RulePaths(rules) + [x.path]
  {
    assert (rules + [x])[..|rules|] == rules;
  }

  /** The report lists the rules' paths one for one, in order. */
  lemma {:induction false} RulePathsAt(rules: seq<AclRule>)
    ensures |RulePaths(rules)| == |rules|
    ensures forall k :: 0 <= k < |rules| ==> RulePaths(rules)[k] == rules[k].path
  {
    if rules != [] {
      RulePathsAt(rules[..|rules| - 1]);
    }
  }

  /** The sweep removes exactly the zombies whose deletion is accepted; it leaves rules on live
      directories, rules whose listing fails other than with 404, and zombies whose deletion
      fails; and every rule ends up on exactly one side. */
  lemma SweepSpec(rules: seq<AclRule>, fs: map<string, seq<Entry>>, faults: map<Call, RemoteError>)
    ensures forall x :: x in ReclaimedRules(rules, fs, faults) <==>
      x in rules && IsZombie(x, fs, faults) && AclDelete(x.id) !in faults
    ensures forall x :: x in Survivors(rules, fs, faults) <==>
      x in rules && (!IsZombie(x, fs, faults) || AclDelete(x.id) in faults)
    ensures |ReclaimedRules(rules, fs, faults)| + |Survivors(rules, fs, faults)| == |rules|
  {
    FilterMembers(rules, (x: AclRule) => Reclaimable(x, fs, faults));
    FilterMembers(rules, (x: AclRule) => !Reclaimable(x, fs, faults));
    FilterPartition(rules, (x: AclRule) => Reclaimable(x, fs, faults),
                    (x: AclRule) => !Reclaimable(x, fs, faults));
  }

  /** One loop step in which the current rule is kept. */
  lemma KeepStep(dirs: seq<AclRule>, i: nat, keep: AclRule -> bool)
    requires i < |dirs| && keep(dirs[i])
    ensures Filter(dirs[..i], keep) + dirs[i..] == Filter(dirs[..i + 1], keep) + dirs[i + 1..]
  {
    FilterSnoc(dirs, i, keep);
    assert dirs[i..] == [dirs[i]] + dirs[i + 1..];
  }

  /** Deleting by id a rule whose id no other rule carries removes just that rule. */
  lemma DropOnly(s: seq<AclRule>, keep: AclRule -> bool, x: AclRule, b: seq<AclRule>)
    requires forall r :: r in s ==> r.id != x.id
    requires forall r :: r in b ==> r.id != x.id
    ensures DropRule(Filter(s, keep) + [x] + b, x.id) == Filter(s, keep) + b
  {
    var a := Filter(s, keep);
    FilterMembers(s, keep);
    var other := (r: AclRule) => r.id != x.id;
    FilterConcat(a + [x], b, other);
    FilterConcat(a, [x], other);
    FilterKeepsAll(a, other);
    FilterKeepsAll(b, other);
    assert Filter([x], other) == [];
  }

  /** In a list with unique ids, no rule before or after position `i` carries its id. */
  lemma OthersDiffer(dirs: seq<AclRule>, i: nat)
    requires UniqueIds(dirs) && i < |dirs|
    ensures forall r :: r in dirs[..i] ==> r.id != dirs[i].id
    ensures forall r :: r in dirs[i + 1..] ==> r.id != dirs[i].id
  {
    forall r | r in dirs[..i] ensures r.id != dirs[i].id {
      var k :| 0 <= k < i && dirs[..i][k] == r;
      DistinctIds(dirs, k, i);
    }
    forall r | r in dirs[i + 1..] ensures r.id != dirs[i].id {
      var k :| 0 <= k < |dirs| - i - 1 && dirs[i + 1..][k] == r;
      DistinctIds(dirs, i + 1 + k, i);
    }
  }

  /** One loop step in which the current rule is deleted on the remote by its id. */
  lemma DeleteStep(dirs: seq<AclRule>, i: nat, keep: AclRule -> bool)
    requires i < |dirs| && !keep(dirs[i])
    requires forall r :: r in dirs[..i] ==> r.id != dirs[i].id
    requires forall r :: r in dirs[i + 1..] ==> r.id != dirs[i].id
    ensures HasRule(Filter(dirs[..i], keep) + dirs[i..], dirs[i].id)
    ensures DropRule(Filter(dirs[..i], keep) + dirs[i..], dirs[i].id) ==
            Filter(dirs[..i + 1], keep) + dirs[i + 1..]
  {
    var x := dirs[i];
    var a := Filter(dirs[..i], keep);
    var b := dirs[i + 1..];
    assert a + dirs[i..] == a + [x] + b;
    assert x in a + dirs[i..];
    DropOnly(dirs[..i], keep, x, b);
    FilterSnoc(dirs, i, keep);
  }

  /** The unshare loop's step over a rule on another path: it stays. */
  lemma UnshareKeepStep(dirs: seq<AclRule>, i: nat, p: string)
    requires i < |dirs| && dirs[i].path != p
    ensures PartlyUnshared(dirs, i, p) == PartlyUnshared(dirs, i + 1, p)
  {
    KeepStep(dirs, i, (x: AclRule) => x.path != p);
  }

  /** The unshare loop's step over a rule on `p`: it is present, and deleting it by id yields
      the next state. */
  lemma UnshareDeleteStep(dirs: seq<AclRule>, i: nat, p: string)
    requires UniqueIds(dirs)
    requires i < |dirs| && dirs[i].path == p
    ensures HasRule(PartlyUnshared(dirs, i, p), dirs[i].id)
    ensures DropRule(PartlyUnshared(dirs, i, p), dirs[i].id) == PartlyUnshared(dirs, i + 1, p)
  {
    OthersDiffer(dirs, i);
    DeleteStep(dirs, i, (x: AclRule) => x.path != p);
  }

  /** The sweep settles: swept again against the same remote, the survivors yield nothing
      more to reclaim and stay as they are. */
  lemma SweepSettles(rules: seq<AclRule>, fs: map<string, seq<Entry>>,
                     faults: map<Call, RemoteError>)
    ensures ReclaimedRules(Survivors(rules, fs, faults), fs, faults) == []
    ensures Survivors(Survivors(rules, fs, faults), fs, faults) == Survivors(rules, fs, faults)
  {
    var s := Survivors(rules, fs, faults);
    FilterMembers(rules, (x: AclRule) => !Reclaimable(x, fs, faults));
    FilterDropsAll(s, (x: AclRule) => Reclaimable(x, fs, faults));
    FilterIdempotent(rules, (x: AclRule) => !Reclaimable(x, fs, faults));
  }

  /** The rule list part-way through the zombie sweep: the first `k` rules are done. */
  function PartlySwept(rules: seq<AclRule>, k: nat, fs: map<string, seq<Entry>>,
                       faults: map<Call, RemoteError>): seq<AclRule>
    requires k <= |rules|
  {
    Survivors(rules[..k], fs, faults) + rules[k..]
  }

  /** Before the sweep starts, nothing is done and nothing is reported. */
  lemma PartlySweptStart(rules: seq<AclRule>, fs: map<string, seq<Entry>>,
                         faults: map<Call, RemoteError>)
    ensures PartlySwept(rules, 0, fs, faults) == rules
    ensures RulePaths(ReclaimedRules(rules[..0], fs, faults)) == []
  {
    assert rules[..0] == [] && rules[0..] == rules;
  }

  /** Once every rule is done, the list is the survivors' list. */
  lemma PartlySweptDone(rules: seq<AclRule>, fs: map<string, seq<Entry>>,
                        faults: map<Call, RemoteError>)
    ensures PartlySwept(rules, |rules|, fs, faults) == Survivors(rules, fs, faults)
    ensures rules[..|rules|] == rules
  {
    assert rules[..|rules|] == rules && rules[|rules|..] == [];
  }

  /** The sweep's step over a rule it does not reclaim: the rule stays, nothing is reported. */
  lemma SweepKeepStep(dirs: seq<AclRule>, i: nat, fs: map<string, seq<Entry>>,
                      faults: map<Call, RemoteError>)
    requires i < |dirs| && !Reclaimable(dirs[i], fs, faults)
    ensures PartlySwept(dirs, i, fs, faults) == PartlySwept(dirs, i + 1, fs, faults)
    ensures ReclaimedRules(dirs[..i + 1], fs, faults) == ReclaimedRules(dirs[..i], fs, faults)
  {
    KeepStep(dirs, i, (x: AclRule) => !Reclaimable(x, fs, faults));
    FilterSnoc(dirs, i, (x: AclRule) => Reclaimable(x, fs, faults));
  }

  /** The rule the sweep is looking at is still on the remote. */
  lemma SweepPresent(dirs: seq<AclRule>, i: nat, fs: map<string, seq<Entry>>,
                     faults: map<Call, RemoteError>)
    requires i < |dirs|
    ensures HasRule(PartlySwept(dirs, i, fs, faults), dirs[i].id)
  {
    var s := PartlySwept(dirs, i, fs, faults);
    assert s[|s| - |dirs[i..]|] == dirs[i];
  }

  /** The sweep's step over a reclaimable rule: once it is deleted by id, the state and the
      report move on together. */
  lemma SweepDeleteStep(dirs: seq<AclRule>, i: nat, fs: map<string, seq<Entry>>,
                        faults: map<Call, RemoteError>)
    requires UniqueIds(dirs)
    requires i < |dirs| && Reclaimable(dirs[i], fs, faults)
    ensures DropRule(PartlySwept(dirs, i, fs, faults), dirs[i].id) == PartlySwept(dirs, i + 1, fs, faults)
    ensures RulePaths(ReclaimedRules(dirs[..i + 1], fs, faults)) ==
            RulePaths(ReclaimedRules(dirs[..i], fs, faults)) + [dirs[i].path]
  {
    OthersDiffer(dirs, i);
    DeleteStep(dirs, i, (x: AclRule) => !Reclaimable(x, fs, faults));
    FilterSnoc(dirs, i, (x: AclRule) => Reclaimable(x, fs, faults));
    RulePathsSnoc(ReclaimedRules(dirs[..i], fs, faults), dirs[i]);
  }
}
