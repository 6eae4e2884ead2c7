/** The remote collection the service drives: its access rules, its directory tree, its
    delete tasks and its identity directory, with the primitive calls the service makes. */
module Remote {
  import opened Results
  import opened Paths
  import opened Seqs

  type RuleId = nat

  /** One access rule of the collection: `principal` may use `path` with `permissions`. */
  datatype AclRule = AclRule(id: RuleId, principal: string, path: string, permissions: string)

  /** One listing entry: its name and its last-modified date as a day number. */
  datatype Entry = Entry(name: string, lastModified: int)

  datatype TaskState = Pending | Succeeded | Failed

  /** A submitted delete task for one item. */
  datatype DeleteTask = DeleteTask(path: string, recursive: bool, state: TaskState)

  /** A remote call, as the key under which the remote may be configured to fail it.
      Paths in keys are normalised. */
  datatype Call =
    | Mkdir(path: string)
    | Ls(path: string)
    | AclList
    | AclAdd(path: string)
    | AclDelete(id: RuleId)
    | SubmitDelete(path: string)
    | RunDelete(path: string)       // the submitted delete task itself fails

  /** The principal ids the identity directory holds for `username`, possibly none. */
  function Identities(identities: map<string, seq<string>>, username: string): (ids: seq<string>)
    ensures username !in identities ==> ids == []
  {
    if username in identities then identities[username] else []
  }

  predicate HasRule(rules: seq<AclRule>, id: RuleId) {
    exists r :: r in rules && r.id == id
  }

  /** No two rules share an id: each rule's id is new to the rules before it. */
  predicate UniqueIds(rules: seq<AclRule>) {
    rules == [] ||
    (UniqueIds(rules[..|rules| - 1]) && !HasRule(rules[..|rules| - 1], rules[|rules| - 1].id))
  }

  /** Two different positions of a list with unique ids hold different ids. */
  lemma DistinctIds(rules: seq<AclRule>, i: nat, j: nat)
    requires UniqueIds(rules) && i < |rules| && j < |rules| && i != j
    ensures rules[i].id != rules[j].id
  {
    UniqueIdsSpec(rules);
  }

  /** The list-wise definition of unique ids agrees with the pairwise one. */
  lemma {:induction false} UniqueIdsSpec(rules: seq<AclRule>)
    ensures UniqueIds(rules) <==> forall i, j :: 0 <= i < j < |rules| ==> rules[i].id != rules[j].id
  {
    if rules != [] {
      var init := rules[..|rules| - 1];
      var last := rules[|rules| - 1];
      UniqueIdsSpec(init);
      if UniqueIds(rules) {
        forall i, j | 0 <= i < j < |rules| ensures rules[i].id != rules[j].id {
          assert init[i] == rules[i];
          if j == |rules| - 1 {
            assert init[i] in init;
          } else {
            assert init[j] == rules[j];
          }
        }
      }
      if forall i, j :: 0 <= i < j < |rules| ==> rules[i].id != rules[j].id {
        forall i, j | 0 <= i < j < |init| ensures init[i].id != init[j].id {
          assert init[i] == rules[i] && init[j] == rules[j];
        }
      }
    }
  }

  /** The rule list after the rule with `id` is deleted. */
  function DropRule(rules: seq<AclRule>, id: RuleId): seq<AclRule> {
    Filter(rules, (r: AclRule) => r.id != id)
  }

  /** The remote's answer to a listing of `path`. */
  function LsResult(fs: map<string, seq<Entry>>, faults: map<Call, RemoteError>, path: string)
    : (r: RemoteResult<seq<Entry>>)
    ensures r.Success? <==> Ls(Normalize(path)) !in faults && Normalize(path) in fs
    ensures r.Success? ==> r.value == fs[Normalize(path)]
    ensures Ls(Normalize(path)) !in faults && Normalize(path) !in fs ==> r.error.Status() == 404
  {
    var p := Normalize(path);
    if Ls(p) in faults then Failure(faults[Ls(p)])
    else if p in fs then Success(fs[p])
    else Failure(NotFound("Directory not found"))
  }

  /** Once the subtree under `root` is removed, listing anything in it fails with 404. */
  lemma GoneAfterRemoval(fs: map<string, seq<Entry>>, faults: map<Call, RemoteError>,
                         root: string, path: string)
    requires root <= Normalize(path) && Ls(Normalize(path)) !in faults
    ensures LsResult(RemoveSubtree(fs, root), faults, path).Failure?
    ensures LsResult(RemoveSubtree(fs, root), faults, path).error.Status() == 404
  {
  }

  /** The remote's answer to creating directory `path`. */
  function MkdirResult(fs: map<string, seq<Entry>>, faults: map<Call, RemoteError>, path: string)
    : (r: RemoteResult<()>)
    ensures r.Success? <==> Mkdir(Normalize(path)) !in faults && Normalize(path) !in fs
    ensures Mkdir(Normalize(path)) !in faults && Normalize(path) in fs ==> r.error.Exists?
  {
    var p := Normalize(path);
    if Mkdir(p) in faults then Failure(faults[Mkdir(p)])
    else if p in fs then Failure(Exists("Path already exists"))
    else Success(())
  }

  /** How a delete task for `path` ends once it has run. */
  function FinalState(faults: map<Call, RemoteError>, path: string): (s: TaskState)
    ensures s != Pending
    ensures s == Failed <==> RunDelete(Normalize(path)) in faults
  {
    if RunDelete(Normalize(path)) in faults then Failed else Succeeded
  }

  /** The directory tree after a recursive delete of `root`: everything at or below it goes. */
  function RemoveSubtree(fs: map<string, seq<Entry>>, root: string): (r: map<string, seq<Entry>>)
    ensures forall k :: k in r <==> k in fs && !(root <= k)
    ensures forall k :: k in r ==> r[k] == fs[k]
  {
    map k | k in fs && !(root <= k) :: fs[k]
  }

  /** The remote collection. Its variable fields are the remote state; the constant
      `identities` is the identity provider's directory and `faults` says which calls the
      remote refuses, and with which error. */
  class Collection {
    var rules: seq<AclRule>
    var nextRuleId: RuleId
    var fs: map<string, seq<Entry>>
    var tasks: seq<DeleteTask>
    const identities: map<string, seq<string>>
    const faults: map<Call, RemoteError>

    /** Rule ids are unique and below the next id to hand out. */
    ghost predicate Valid()
      reads this
    {
      UniqueIds(rules) && forall r :: r in rules ==> r.id < nextRuleId
    }

    constructor (identities: map<string, seq<string>>, fs: map<string, seq<Entry>>,
                 faults: map<Call, RemoteError>)
      ensures Valid()
      ensures this.identities == identities && this.fs == fs && this.faults == faults
      ensures rules == [] && tasks == []
    {
      this.identities := identities;
      this.fs := fs;
      this.faults := faults;
      rules := [];
      nextRuleId := 0;
      tasks := [];
    }

    /** The principal ids registered for `username`, possibly none. */
    method GetIdentities(username: string) returns (ids: seq<string>)
      ensures ids == Identities(identities, username)
    {
      ids := Identities(identities, username);
    }

    method OperationMkdir(path: string) returns (r: RemoteResult<()>)
      modifies this`fs
      ensures r == MkdirResult(old(fs), faults, path)
      ensures fs == if r.Success? then old(fs)[Normalize(path) := []] else old(fs)
    {
      r := MkdirResult(fs, faults, path);
      if r.Success? {
        fs := fs[Normalize(path) := []];
      }
    }

    method OperationLs(path: string) returns (r: RemoteResult<seq<Entry>>)
      ensures r == LsResult(fs, faults, path)
    {
      r := LsResult(fs, faults, path);
    }

    method EndpointAclList() returns (r: RemoteResult<seq<AclRule>>)
      ensures AclList in faults ==> r == Failure(faults[AclList])
      ensures AclList !in faults ==> r == Success(rules)
    {
      if AclList in faults {
        r := Failure(faults[AclList]);
      } else {
        r := Success(rules);
      }
    }

    /** Appends a rule under a fresh id. */
    method AddEndpointAclRule(principal: string, path: string, permissions: string)
      returns (r: RemoteResult<RuleId>)
      requires Valid()
      modifies this`rules, this`nextRuleId
      ensures Valid()
      ensures AclAdd(Normalize(path)) in faults ==>
        r == Failure(faults[AclAdd(Normalize(path))]) &&
        rules == old(rules) && nextRuleId == old(nextRuleId)
      ensures AclAdd(Normalize(path)) !in faults ==>
        r == Success(old(nextRuleId)) && nextRuleId == old(nextRuleId) + 1 &&
        rules == old(rules) + [AclRule(old(nextRuleId), principal, path, permissions)]
    {
      var key := AclAdd(Normalize(path));
      if key in faults {
        r := Failure(faults[key]);
      } else {
        var rule := AclRule(nextRuleId, principal, path, permissions);
        assert (rules + [rule])[..|rules|] == rules;
        rules := rules + [rule];
        r := Success(nextRuleId);
        nextRuleId := nextRuleId + 1;
      }
    }

    /** Deletes the rule with `id`; an unknown id is reported as not found. */
    method DeleteEndpointAclRule(id: RuleId) returns (r: RemoteResult<()>)
      requires Valid()
      modifies this`rules
      ensures Valid()
      ensures AclDelete(id) in faults ==> r == Failure(faults[AclDelete(id)]) && rules == old(rules)
      ensures AclDelete(id) !in faults && HasRule(old(rules), id) ==>
        r == Success(()) && rules == DropRule(old(rules), id)
      ensures AclDelete(id) !in faults && !HasRule(old(rules), id) ==>
        r.Failure? && rules == old(rules)
    {
      if AclDelete(id) in faults {
        r := Failure(faults[AclDelete(id)]);
      } else if !HasRule(rules, id) {
        r := Failure(NotFound("Access rule not found"));
      } else {
        var kept := DropRule(rules, id);
        FilterKeepsUniqueIds(rules, (r: AclRule) => r.id != id);
        FilterMembers(rules, (r: AclRule) => r.id != id);
        rules := kept;
        r := Success(());
      }
    }

    /** Submits a delete task for `path`; the task starts out pending. */
    method SubmitDeleteTask(path: string, recursive: bool) returns (r: RemoteResult<nat>)
      modifies this`tasks
      ensures SubmitDelete(Normalize(path)) in faults ==>
        r == Failure(faults[SubmitDelete(Normalize(path))]) && tasks == old(tasks)
      ensures SubmitDelete(Normalize(path)) !in faults ==>
        r == Success(|old(tasks)|) && tasks == old(tasks) + [DeleteTask(path, recursive, Pending)]
    {
      var key := SubmitDelete(Normalize(path));
      if key in faults {
        r := Failure(faults[key]);
      } else {
        r := Success(|tasks|);
        tasks := tasks + [DeleteTask(path, recursive, Pending)];
      }
    }

    /** Waits for a task to finish. A task the remote fails ends `Failed` and leaves the tree
        as it was; otherwise it ends `Succeeded` and the deleted item (with everything below it,
        when recursive) leaves the tree. */
    method TaskWait(task: nat)
      requires task < |tasks|
      modifies this`tasks, this`fs
      ensures var t := old(tasks)[task];
        tasks == old(tasks)[task := t.(state := FinalState(faults, t.path))]
      ensures var t := old(tasks)[task];
        fs == if FinalState(faults, t.path) == Failed then old(fs)
              else if t.recursive then RemoveSubtree(old(fs), Normalize(t.path))
              else old(fs) - {Normalize(t.path)}
    {
      var t := tasks[task];
      if FinalState(faults, t.path) == Succeeded {
        fs := if t.recursive then RemoveSubtree(fs, Normalize(t.path)) else fs - {Normalize(t.path)};
      }
      tasks := tasks[task := t.(state := FinalState(faults, t.path))];
    }
  }

  /** Selecting rules from a list with unique ids keeps the ids unique. */
  lemma {:induction false} FilterKeepsUniqueIds(rules: seq<AclRule>, keep: AclRule -> bool)
    requires UniqueIds(rules)
    ensures UniqueIds(Filter(rules, keep))
  {
    if rules != [] {
      var init := rules[..|rules| - 1];
      var last := rules[|rules| - 1];
      FilterKeepsUniqueIds(init, keep);
      var f := Filter(init, keep);
      if keep(last) {
        assert (f + [last])[..|f|] == f;
        FilterMembers(init, keep);
      }
    }
  }

}
