/** The operations of the web service over the remote collection. Authorisation against the
    identity provider is taken to succeed; each operation works on the collection `c`. */
module Service {
  import opened Results
  import opened Paths
  import opened Seqs
  import opened Remote
  import opened Acl
  import opened Retention

  // ---------------------------------------------------------------- request guards

  /** The request's `x-api-key` header must equal the configured key, or the call gets 401. */
  function CheckApiKey(key: string, apiKey: string): (r: Result<string>)
    ensures r.Ok? <==> key == apiKey
    ensures r.Ok? ==> r.value == key
    ensures r.Err? ==> r.status == 401
  {
    if key == apiKey then Ok(key) else Err(401, "Invalid or missing API Key")
  }

  const HealthProbe: string := "GET /health"

  /** `t` occurs in `s` starting at position `i`. */
  predicate OccursAt(s: string, t: string, i: int) {
    0 <= i && i + |t| <= |s| && s[i..i + |t|] == t
  }

  lemma ContainsStep(s: string, t: string)
    requires |s| >= |t| && s[..|t|] != t
    ensures (exists i :: OccursAt(s, t, i)) <==> (exists i :: OccursAt(s[1..], t, i))
  {
    if i :| OccursAt(s, t, i) {
      assert i != 0;
      assert s[1..][i - 1..i - 1 + |t|] == s[i..i + |t|];
      assert OccursAt(s[1..], t, i - 1);
    }
    if i :| OccursAt(s[1..], t, i) {
      assert s[1..][i..i + |t|] == s[i + 1..i + 1 + |t|];
      assert OccursAt(s, t, i + 1);
    }
  }

  /** Substring test: `t` occurs somewhere in `s`. */
  function Contains(s: string, t: string): (b: bool)
    ensures b <==> exists i :: OccursAt(s, t, i)
    decreases |s|
  {
    if |s| < |t| then false
    else if s[..|t|] == t then
      assert OccursAt(s, t, 0);
      true
    else
      ContainsStep(s, t);
      Contains(s[1..], t)
  }

  /** The access-log filter: a record is kept unless its message mentions the health probe. */
  function KeepAccessRecord(message: string): (keep: bool)
    ensures keep <==> !exists i :: OccursAt(message, HealthProbe, i)
  {
    !Contains(message, HealthProbe)
  }

  // ---------------------------------------------------------------- listing

  /** How `list_dir` reports a remote failure: 404 with its own message when the remote says
      404, otherwise the remote's status and message. */
  function ListDirError<T>(e: RemoteError, path: string): (r: Result<T>)
    ensures r.Err?
    ensures r.status == e.Status()
    ensures e.Status() == 404 ==> r.detail == "Directory " + path + " not found"
    ensures e.Status() != 404 ==> r.detail == e.message
  {
    if e.Status() == 404 then Err(404, "Directory " + path + " not found")
    else Err(e.Status(), e.message)
  }

  /** The entries of directory `path`. */
  method ListDir(c: Collection, path: string) returns (r: Result<seq<Entry>>)
    ensures var ls := LsResult(c.fs, c.faults, path);
      if ls.Success? then r == Ok(ls.value) else r == ListDirError(ls.error, path)
  {
    var ls := c.OperationLs(path);
    if ls.Failure? {
      r := ListDirError(ls.error, path);
    } else {
      r := Ok(ls.value);
    }
  }

  /** All access rules of the collection; a remote failure passes through. */
  method GetSharedDirs(c: Collection) returns (r: Result<seq<AclRule>>)
    ensures AclList in c.faults ==>
      r == Err(c.faults[AclList].Status(), c.faults[AclList].message)
    ensures AclList !in c.faults ==> r == Ok(c.rules)
  {
    var acl := c.EndpointAclList();
    if acl.Failure? {
      r := Err(acl.error.Status(), acl.error.message);
    } else {
      r := Ok(acl.value);
    }
  }

  // ---------------------------------------------------------------- provisioning

  /** The directory `create_shared_dir` works on: the given name, or the default one. */
  function TargetName(username: string, dirName: Option<string>, suffix: string): (name: string)
    ensures dirName.Some? ==> name == dirName.value
    ensures dirName.None? ==> IsCanonical(name) && Normalize(name) == name
  {
    if dirName.Some? then dirName.value else DefaultDirName(username, suffix)
  }

  /** Creates a directory and grants read-write access to it to the username's first
      identity. `suffix` stands for the random UUID of a default name. */
  method CreateSharedDir(c: Collection, username: string, dirName: Option<string>, suffix: string)
    returns (r: Result<string>)
    requires c.Valid()
    modifies c`fs, c`rules, c`nextRuleId
    ensures c.Valid()
    ensures var ids := Identities(c.identities, username);
      var name := TargetName(username, dirName, suffix);
      var mk := MkdirResult(old(c.fs), c.faults, name);
      && (ids == [] ==>
            r == Err(404, username + " is not registered with Globus") &&
            c.fs == old(c.fs) && c.rules == old(c.rules))
      && (ids != [] && mk.Failure? ==> c.fs == old(c.fs) && c.rules == old(c.rules))
      && (ids != [] && mk.Failure? && mk.error.Exists? ==>
            r == Err(409, "Dir already exists: " + name))
      && (ids != [] && mk.Failure? && !mk.error.Exists? ==>
            r == Err(mk.error.Status(), mk.error.message))
      && (ids != [] && mk.Success? ==> c.fs == old(c.fs)[Normalize(name) := []])
      && (ids != [] && mk.Success? && AclAdd(Normalize(name)) in c.faults ==>
            r == Uncaught() && c.rules == old(c.rules))
      && (ids != [] && mk.Success? && AclAdd(Normalize(name)) !in c.faults ==>
            r == Ok(Normalize(name)) &&
            c.rules == old(c.rules) + [AclRule(old(c.nextRuleId), ids[0], Normalize(name), "rw")])
  {
    var ids := c.GetIdentities(username);
    if |ids| == 0 {
      return Err(404, username + " is not registered with Globus");
    }
    var principal := ids[0];
    var name := TargetName(username, dirName, suffix);
    var mk := c.OperationMkdir(name);
    if mk.Failure? {
      if mk.error.Exists? {
        return Err(409, "Dir already exists: " + name);
      }
      return Err(mk.error.Status(), mk.error.message);
    }
    name := Normalize(name);
    var added := c.AddEndpointAclRule(principal, name, "rw");
    if added.Failure? {
      return Uncaught();
    }
    r := Ok(name);
  }

  // ---------------------------------------------------------------- unsharing

  /** Unsharing `path` succeeds when the rules can be listed and no matching rule's deletion
      is refused. */
  predicate UnshareSucceeds(rules: seq<AclRule>, faults: map<Call, RemoteError>, path: string) {
    AclList !in faults && DeletesAllowed(rules, |rules|, Normalize(path), faults)
  }

  /** No deletion of a rule for `p` among the first `n` rules is refused. */
  predicate DeletesAllowed(rules: seq<AclRule>, n: nat, p: string, faults: map<Call, RemoteError>)
    requires n <= |rules|
  {
    n == 0 ||
    (DeletesAllowed(rules, n - 1, p, faults) &&
     (rules[n - 1].path == p ==> AclDelete(rules[n - 1].id) !in faults))
  }

  lemma {:induction false} DeletesAllowedSpec(rules: seq<AclRule>, n: nat, p: string,
                                              faults: map<Call, RemoteError>)
    requires n <= |rules|
    ensures DeletesAllowed(rules, n, p, faults) <==>
      forall k :: 0 <= k < n && rules[k].path == p ==> AclDelete(rules[k].id) !in faults
  {
    if n > 0 {
      DeletesAllowedSpec(rules, n - 1, p, faults);
    }
  }

  /** Against a remote that refuses nothing, unsharing always succeeds. */
  lemma {:induction false} UnshareWithoutFaults(rules: seq<AclRule>, n: nat, path: string)
    requires n <= |rules|
    ensures DeletesAllowed(rules, n, Normalize(path), map[])
    ensures n == |rules| ==> UnshareSucceeds(rules, map[], path)
  {
    if n > 0 {
      UnshareWithoutFaults(rules, n - 1, path);
    }
  }

  /** A refused deletion of a matching rule makes the whole unsharing fail. */
  lemma {:induction false} DeletesRefused(rules: seq<AclRule>, n: nat, k: nat, p: string,
                                          faults: map<Call, RemoteError>)
    requires k < n <= |rules| && rules[k].path == p && AclDelete(rules[k].id) in faults
    ensures !DeletesAllowed(rules, n, p, faults)
  {
    if k < n - 1 {
      DeletesRefused(rules, n - 1, k, p, faults);
    }
  }

  /** The position, among the first `n` rules, of the first rule on `p` whose deletion the
      remote refuses; `n` when there is none. */
  function FirstRefused(rules: seq<AclRule>, n: nat, p: string, faults: map<Call, RemoteError>)
    : (k: nat)
    requires n <= |rules|
    ensures k <= n
    ensures k == n <==> DeletesAllowed(rules, n, p, faults)
    ensures k < n ==>
      rules[k].path == p && AclDelete(rules[k].id) in faults && DeletesAllowed(rules, k, p, faults)
  {
    if n == 0 then 0
    else
      var k := FirstRefused(rules, n - 1, p, faults);
      if k < n - 1 then k
      else if rules[n - 1].path == p && AclDelete(rules[n - 1].id) in faults then n - 1
      else n
  }

  /** A refused matching rule with no refusal before it is the first refused one. */
  lemma {:induction false} FirstRefusedAt(rules: seq<AclRule>, n: nat, k: nat, p: string,
                                          faults: map<Call, RemoteError>)
    requires k < n <= |rules|
    requires rules[k].path == p && AclDelete(rules[k].id) in faults
    requires DeletesAllowed(rules, k, p, faults)
    ensures FirstRefused(rules, n, p, faults) == k
  {
    if n > k + 1 {
      FirstRefusedAt(rules, n - 1, k, p, faults);
    }
  }

  /** The rule list `unshare_dir` leaves: unchanged when the rules cannot be listed; otherwise
      the rules on the normalised path are deleted in order up to the first refused deletion. */
  function UnsharedRules(rules: seq<AclRule>, faults: map<Call, RemoteError>, path: string)
    : (r: seq<AclRule>)
    ensures AclList in faults ==> r == rules
    ensures UnshareSucceeds(rules, faults, path) ==> r == RemoveMatches(rules, Normalize(path))
  {
    if AclList in faults then rules
    else
      var p := Normalize(path);
      PartlyUnsharedDone(rules, p);
      PartlyUnshared(rules, FirstRefused(rules, |rules|, p, faults), p)
  }

  /** A failed unsharing keeps the rule whose deletion was refused, keeps every rule on another
      path, and holds nothing but original rules. */
  lemma UnshareFailureKeeps(rules: seq<AclRule>, faults: map<Call, RemoteError>, path: string)
    requires AclList !in faults && !UnshareSucceeds(rules, faults, path)
    ensures var k := FirstRefused(rules, |rules|, Normalize(path), faults);
      k < |rules| && rules[k].path == Normalize(path) && AclDelete(rules[k].id) in faults &&
      rules[k] in UnsharedRules(rules, faults, path)
    ensures forall x :: x in UnsharedRules(rules, faults, path) ==> x in rules
    ensures forall x :: x in rules && x.path != Normalize(path) ==> x in UnsharedRules(rules, faults, path)
  {
    var p := Normalize(path);
    var k := FirstRefused(rules, |rules|, p, faults);
    PartlyUnsharedFrame(rules, k, p);
    var s := PartlyUnshared(rules, k, p);
    assert s[|s| - |rules[k..]|] == rules[k];
  }

  /** One iteration of the unsharing loop: deletes `dirs[i]` when its path is `p`. It returns
      false, and changes nothing, only when that rule is on `p` and its deletion is refused. */
  method UnshareStep(c: Collection, dirs: seq<AclRule>, i: nat, p: string) returns (ok: bool)
    requires c.Valid() && UniqueIds(dirs) && i < |dirs|
    requires c.rules == PartlyUnshared(dirs, i, p) && DeletesAllowed(dirs, i, p, c.faults)
    modifies c`rules
    ensures c.Valid()
    ensures ok ==> c.rules == PartlyUnshared(dirs, i + 1, p) && DeletesAllowed(dirs, i + 1, p, c.faults)
    ensures !ok ==> c.rules == old(c.rules) && dirs[i].path == p && AclDelete(dirs[i].id) in c.faults
  {
    if dirs[i].path != p {
      UnshareKeepStep(dirs, i, p);
      return true;
    }
    UnshareDeleteStep(dirs, i, p);
    var d := c.DeleteEndpointAclRule(dirs[i].id);
    ok := d.Success?;
  }

  /** The loop of unsharing: deletes, in order, every rule of `dirs` (the listed rules) whose
      path is `p`, stopping at the first refused deletion. */
  method UnshareListed(c: Collection, dirs: seq<AclRule>, p: string) returns (ok: bool, ghost done: nat)
    requires c.Valid() && c.rules == dirs && UniqueIds(dirs)
    modifies c`rules
    ensures c.Valid()
    ensures ok <==> DeletesAllowed(dirs, |dirs|, p, c.faults)
    ensures done == FirstRefused(dirs, |dirs|, p, c.faults)
    ensures c.rules == PartlyUnshared(dirs, done, p)
  {
    var i := 0;
    while i < |dirs|
      invariant 0 <= i <= |dirs|
      invariant c.Valid()
      invariant c.rules == PartlyUnshared(dirs, i, p)
      invariant DeletesAllowed(dirs, i, p, c.faults)
    {
      ok := UnshareStep(c, dirs, i, p);
      if !ok {
        FirstRefusedAt(dirs, |dirs|, i, p, c.faults);
        return ok, i;
      }
      i := i + 1;
    }
    ok, done := true, i;
  }

  /** Deletes every rule whose path equals the normalised `path`. A refused listing passes
      through; a refused deletion is not caught, and the rules deleted so far stay deleted. */
  method UnshareDir(c: Collection, path: string) returns (r: Result<()>)
    requires c.Valid()
    modifies c`rules
    ensures c.Valid()
    ensures c.rules == UnsharedRules(old(c.rules), c.faults, path)
    ensures r.Ok? <==> UnshareSucceeds(old(c.rules), c.faults, path)
    ensures r.Ok? ==> c.rules == RemoveMatches(old(c.rules), Normalize(path))
    ensures AclList in c.faults ==>
      r == Err(c.faults[AclList].Status(), c.faults[AclList].message) && c.rules == old(c.rules)
    ensures AclList !in c.faults && r.Err? ==> r == Uncaught()
  {
    var listed := GetSharedDirs(c);
    if listed.Err? {
      return Err(listed.status, listed.detail);
    }
    var ok, done := UnshareListed(c, listed.value, Normalize(path));
    if !ok {
      return Uncaught();
    }
    r := Ok(());
  }

  // ---------------------------------------------------------------- zombie sweep

  /** The loop of the zombie sweep over the listed rules `dirs`. */
  method SweepListed(c: Collection, dirs: seq<AclRule>) returns (unshared: seq<string>)
    requires c.Valid() && c.rules == dirs && UniqueIds(dirs)
    modifies c`rules
    ensures c.Valid()
    ensures unshared == RulePaths(ReclaimedRules(dirs, c.fs, c.faults))
    ensures c.rules == Survivors(dirs, c.fs, c.faults)
  {
    unshared := [];
    var i := 0;
    while i < |dirs|
      invariant 0 <= i <= |dirs|
      invariant c.Valid()
      invariant c.rules == PartlySwept(dirs, i, c.fs, c.faults)
      invariant unshared == RulePaths(ReclaimedRules(dirs[..i], c.fs, c.faults))
    {
      var sharedDir := dirs[i].path;
      var ls := ListDir(c, sharedDir);
      assert ls.Err? && ls.status == 404 <==> IsZombie(dirs[i], c.fs, c.faults);
      if ls.Err? && ls.status == 404 {
        SweepPresent(dirs, i, c.fs, c.faults);
        var d := c.DeleteEndpointAclRule(dirs[i].id);
        if d.Success? {
          SweepDeleteStep(dirs, i, c.fs, c.faults);
          unshared := unshared + [sharedDir];
        } else {
          SweepKeepStep(dirs, i, c.fs, c.faults);
        }
      } else {
        SweepKeepStep(dirs, i, c.fs, c.faults);
      }
      assert c.rules == PartlySwept(dirs, i + 1, c.fs, c.faults);
      assert unshared == RulePaths(ReclaimedRules(dirs[..i + 1], c.fs, c.faults));
      i := i + 1;
    }
    PartlySweptDone(dirs, c.fs, c.faults);
  }

  /** Deletes every rule whose directory no longer exists (its listing fails with 404) and
      returns their paths; a rule whose deletion fails is skipped. */
  method DeleteZombieShares(c: Collection) returns (r: Result<seq<string>>)
    requires c.Valid()
    modifies c`rules
    ensures c.Valid()
    ensures AclList in c.faults ==>
      r == Err(c.faults[AclList].Status(), c.faults[AclList].message) && c.rules == old(c.rules)
    ensures AclList !in c.faults ==>
      r == Ok(RulePaths(ReclaimedRules(old(c.rules), c.fs, c.faults))) &&
      c.rules == Survivors(old(c.rules), c.fs, c.faults)
  {
    var listed := GetSharedDirs(c);
    if listed.Err? {
      return Err(listed.status, listed.detail);
    }
    var unshared := SweepListed(c, listed.value);
    r := Ok(unshared);
  }

  // ---------------------------------------------------------------- deletion

  /** Unshares `path` and submits a recursive delete task for it: the part of deleting a
      directory that `delete_dir` and `delete_old_dirs` share. A refused submission is not
      caught. */
  method UnshareAndSubmit(c: Collection, path: string) returns (r: Result<()>)
    requires c.Valid()
    modifies c`rules, c`tasks
    ensures c.Valid()
    ensures c.rules == UnsharedRules(old(c.rules), c.faults, path)
    ensures r.Ok? <==> UnshareSucceeds(old(c.rules), c.faults, path) &&
                       SubmitDelete(Normalize(path)) !in c.faults
    ensures r.Ok? ==> c.rules == RemoveMatches(old(c.rules), Normalize(path)) &&
                      c.tasks == old(c.tasks) + [DeleteTask(path, true, Pending)]
    ensures r.Err? ==> c.tasks == old(c.tasks)
    ensures AclList in c.faults ==> r == Err(c.faults[AclList].Status(), c.faults[AclList].message)
    ensures AclList !in c.faults && r.Err? ==> r == Uncaught()
  {
    r := UnshareDir(c, path);
    if r.Err? {
      return;
    }
    var t := c.SubmitDeleteTask(path, true);
    if t.Failure? {
      r := Uncaught();
    }
  }

  /** Deletes directory `path` with everything under it: checks it exists (a failed listing is
      reported as by `list_dir`), unshares it, submits a recursive delete and waits for it. The
      task's own outcome is not inspected. */
  method DeleteDir(c: Collection, path: string) returns (r: Result<()>)
    requires c.Valid()
    modifies c`rules, c`tasks, c`fs
    ensures c.Valid()
    ensures var ls := LsResult(old(c.fs), c.faults, path);
      ls.Failure? ==> r == ListDirError(ls.error, path) &&
                      c.rules == old(c.rules) && c.tasks == old(c.tasks) && c.fs == old(c.fs)
    ensures LsResult(old(c.fs), c.faults, path).Success? ==>
      c.rules == UnsharedRules(old(c.rules), c.faults, path)
    ensures r.Ok? <==> LsResult(old(c.fs), c.faults, path).Success? &&
                       UnshareSucceeds(old(c.rules), c.faults, path) &&
                       SubmitDelete(Normalize(path)) !in c.faults
    ensures r.Ok? ==>
      var ended := FinalState(c.faults, path);
      c.rules == RemoveMatches(old(c.rules), Normalize(path)) &&
      c.tasks == old(c.tasks) + [DeleteTask(path, true, ended)] &&
      c.fs == if ended == Failed then old(c.fs) else RemoveSubtree(old(c.fs), Normalize(path))
    ensures r.Err? ==> c.tasks == old(c.tasks) && c.fs == old(c.fs)
    ensures LsResult(old(c.fs), c.faults, path).Success? && AclList in c.faults ==>
      r == Err(c.faults[AclList].Status(), c.faults[AclList].message)
    ensures LsResult(old(c.fs), c.faults, path).Success? && AclList !in c.faults && r.Err? ==>
      r == Uncaught()
    ensures r.Ok? && RunDelete(Normalize(path)) !in c.faults ==>
      var after := LsResult(c.fs, c.faults, path);
      after.Failure? && after.error.Status() == 404
  {
    var ls := ListDir(c, path);
    if ls.Err? {
      return Err(ls.status, ls.detail);
    }
    r := UnshareAndSubmit(c, path);
    if r.Err? {
      return;
    }
    ghost var before := c.fs;
    c.TaskWait(|c.tasks| - 1);
    if RunDelete(Normalize(path)) !in c.faults {
      GoneAfterRemoval(before, c.faults, Normalize(path), path);
    }
  }

  /** The paths `delete_old_dirs` selects under `path`: the old-enough entries of its listing,
      joined to the path with exactly one trailing slash added when missing. */
  function OldDirsOf(fs: map<string, seq<Entry>>, faults: map<Call, RemoteError>, path: string,
                     today: int, numOfDays: int): (r: seq<string>)
    requires LsResult(fs, faults, path).Success?
    ensures |r| <= |LsResult(fs, faults, path).value|
  {
    OldPaths(WithTrailingSlash(path), LsResult(fs, faults, path).value, today, numOfDays)
  }

  /** The `j`-th path can be retired once the earlier ones are: its unsharing succeeds on the
      rules they left, and its delete submission is accepted. */
  predicate Retirable(rules0: seq<AclRule>, paths: seq<string>, j: nat, faults: map<Call, RemoteError>)
    requires j < |paths|
  {
    UnshareSucceeds(UnshareEach(rules0, paths[..j]), faults, paths[j]) &&
    SubmitDelete(Normalize(paths[j])) !in faults
  }

  /** Retiring `paths` in turn, starting from the rules `rules0`, meets no refusal. */
  predicate RetireSucceeds(rules0: seq<AclRule>, paths: seq<string>, faults: map<Call, RemoteError>) {
    paths == [] ||
    (RetireSucceeds(rules0, paths[..|paths| - 1], faults) &&
     Retirable(rules0, paths, |paths| - 1, faults))
  }

  /** Retiring one more path succeeds when the earlier ones did and this one meets no refusal. */
  lemma RetireSucceedsSnoc(rules0: seq<AclRule>, paths: seq<string>, q: string,
                           faults: map<Call, RemoteError>)
    ensures RetireSucceeds(rules0, paths + [q], faults) <==>
      RetireSucceeds(rules0, paths, faults) &&
      UnshareSucceeds(UnshareEach(rules0, paths), faults, q) && SubmitDelete(Normalize(q)) !in faults
  {
    assert (paths + [q])[..|paths|] == paths;
  }

  /** Whether the `j`-th path is retirable does not depend on the paths after it. */
  lemma RetirableOfPrefix(rules0: seq<AclRule>, paths: seq<string>, j: nat,
                          faults: map<Call, RemoteError>)
    requires j < |paths| - 1
    ensures Retirable(rules0, paths[..|paths| - 1], j, faults) == Retirable(rules0, paths, j, faults)
  {
    assert paths[..|paths| - 1][..j] == paths[..j];
  }

  /** Retiring succeeds exactly when every path is retirable after the ones before it. */
  lemma {:induction false} RetireSucceedsSpec(rules0: seq<AclRule>, paths: seq<string>,
                                              faults: map<Call, RemoteError>)
    ensures RetireSucceeds(rules0, paths, faults) <==>
      forall j :: 0 <= j < |paths| ==> Retirable(rules0, paths, j, faults)
  {
    if paths != [] {
      var init := paths[..|paths| - 1];
      RetireSucceedsSpec(rules0, init, faults);
      if RetireSucceeds(rules0, paths, faults) {
        assert RetireSucceeds(rules0, init, faults);
        forall j | 0 <= j < |paths| ensures Retirable(rules0, paths, j, faults) {
          if j < |init| {
            assert Retirable(rules0, init, j, faults);
            RetirableOfPrefix(rules0, paths, j, faults);
          } else {
            assert j == |paths| - 1;
          }
        }
      }
      if forall j :: 0 <= j < |paths| ==> Retirable(rules0, paths, j, faults) {
        forall j | 0 <= j < |init| ensures Retirable(rules0, init, j, faults) {
          RetirableOfPrefix(rules0, paths, j, faults);
        }
      }
    }
  }

  /** If retiring a list succeeds, retiring any prefix of it does. */
  lemma {:induction false} RetireSucceedsPrefix(rules0: seq<AclRule>, paths: seq<string>, m: nat,
                                                faults: map<Call, RemoteError>)
    requires m <= |paths| && RetireSucceeds(rules0, paths, faults)
    ensures RetireSucceeds(rules0, paths[..m], faults)
  {
    if m < |paths| {
      var init := paths[..|paths| - 1];
      assert RetireSucceeds(rules0, init, faults);
      assert init[..m] == paths[..m];
      RetireSucceedsPrefix(rules0, init, m, faults);
    } else {
      assert paths[..m] == paths;
    }
  }

  /** Against a remote that refuses nothing, retiring any list of paths succeeds. */
  lemma {:induction false} RetireWithoutFaults(rules0: seq<AclRule>, paths: seq<string>)
    ensures RetireSucceeds(rules0, paths, map[])
  {
    if paths != [] {
      var init := paths[..|paths| - 1];
      var rules := UnshareEach(rules0, init);
      RetireWithoutFaults(rules0, init);
      UnshareWithoutFaults(rules, |rules|, paths[|paths| - 1]);
    }
  }

  /** A refusal while retiring the `i`-th entry makes retiring the whole selection fail. */
  lemma RetireFailsAt(rules0: seq<AclRule>, base: string, entries: seq<Entry>, i: nat, today: int,
                      numOfDays: int, faults: map<Call, RemoteError>)
    requires i < |entries| && IsOld(entries[i], today, numOfDays)
    requires !RetireSucceeds(rules0, OldPaths(base, entries[..i], today, numOfDays) +
                                     [base + entries[i].name], faults)
    ensures !RetireSucceeds(rules0, OldPaths(base, entries, today, numOfDays), faults)
  {
    var upto := OldPaths(base, entries[..i + 1], today, numOfDays);
    OldPathsSnoc(base, entries, i, today, numOfDays);
    OldPathsPrefix(base, entries, i + 1, today, numOfDays);
    var all := OldPaths(base, entries, today, numOfDays);
    assert all[..|upto|] == upto;
    if RetireSucceeds(rules0, all, faults) {
      RetireSucceedsPrefix(rules0, all, |upto|, faults);
    }
  }

  /** Unsharing one more path and logging its delete task extends the loop's state by it. */
  lemma RetiredOneMore(rules0: seq<AclRule>, tasks0: seq<DeleteTask>, deleted: seq<string>,
                       q: string, rules: seq<AclRule>, tasks: seq<DeleteTask>)
    requires rules == RemoveMatches(UnshareEach(rules0, deleted), Normalize(q))
    requires tasks == tasks0 + SweepTasks(deleted) + [DeleteTask(q, true, Pending)]
    ensures rules == UnshareEach(rules0, deleted + [q])
    ensures tasks == tasks0 + SweepTasks(deleted + [q])
  {
    UnshareEachSnoc(rules0, deleted, q);
    SweepTasksSnoc(deleted, q);
  }

  /** Retires one selected path: unshares it and submits its recursive delete task. The loop's
      state is tied to the rules and tasks before the loop, `rules0` and `tasks0`. */
  method RetirePath(c: Collection, dirPath: string, deleted: seq<string>,
                    ghost rules0: seq<AclRule>, ghost tasks0: seq<DeleteTask>)
    returns (r: Result<()>)
    requires c.Valid()
    requires c.rules == UnshareEach(rules0, deleted) && c.tasks == tasks0 + SweepTasks(deleted)
    modifies c`rules, c`tasks
    ensures c.Valid()
    ensures c.rules == UnsharedRules(old(c.rules), c.faults, dirPath)
    ensures r.Ok? <==> UnshareSucceeds(old(c.rules), c.faults, dirPath) &&
                       SubmitDelete(Normalize(dirPath)) !in c.faults
    ensures r.Ok? ==>
      c.rules == UnshareEach(rules0, deleted + [dirPath]) &&
      c.tasks == tasks0 + SweepTasks(deleted + [dirPath])
    ensures r.Err? ==> c.tasks == old(c.tasks)
    ensures AclList in c.faults ==> r == Err(c.faults[AclList].Status(), c.faults[AclList].message)
    ensures AclList !in c.faults && r.Err? ==> r == Uncaught()
  {
    r := UnshareAndSubmit(c, dirPath);
    if r.Ok? {
      RetiredOneMore(rules0, tasks0, deleted, dirPath, c.rules, c.tasks);
    }
  }

  /** One iteration of the retention loop over `entries`: an old-enough entry is retired, and
      `deleted` grows by its path. On a refusal the whole selection cannot be retired. */
  method RetireStep(c: Collection, base: string, entries: seq<Entry>, i: nat, today: int,
                    numOfDays: int, deleted: seq<string>, ghost rules0: seq<AclRule>,
                    ghost tasks0: seq<DeleteTask>)
    returns (r: Result<()>, deleted': seq<string>)
    requires c.Valid() && i < |entries|
    requires deleted == OldPaths(base, entries[..i], today, numOfDays)
    requires c.rules == UnshareEach(rules0, deleted) && c.tasks == tasks0 + SweepTasks(deleted)
    requires RetireSucceeds(rules0, deleted, c.faults)
    modifies c`rules, c`tasks
    ensures c.Valid()
    ensures r.Ok? ==>
      deleted' == OldPaths(base, entries[..i + 1], today, numOfDays) &&
      c.rules == UnshareEach(rules0, deleted') && c.tasks == tasks0 + SweepTasks(deleted') &&
      RetireSucceeds(rules0, deleted', c.faults)
    ensures r.Err? ==>
      var q := base + entries[i].name;
      IsOld(entries[i], today, numOfDays) && c.tasks == tasks0 + SweepTasks(deleted) &&
      !(UnshareSucceeds(UnshareEach(rules0, deleted), c.faults, q) &&
        SubmitDelete(Normalize(q)) !in c.faults) &&
      c.rules == UnsharedRules(UnshareEach(rules0, deleted), c.faults, q) &&
      !RetireSucceeds(rules0, OldPaths(base, entries, today, numOfDays), c.faults)
    ensures r.Err? && AclList in c.faults ==>
      r == Err(c.faults[AclList].Status(), c.faults[AclList].message)
    ensures r.Err? && AclList !in c.faults ==> r == Uncaught()
  {
    OldPathsSnoc(base, entries, i, today, numOfDays);
    if !IsOld(entries[i], today, numOfDays) {
      return Ok(()), deleted;
    }
    var dirPath := base + entries[i].name;
    r := RetirePath(c, dirPath, deleted, rules0, tasks0);
    deleted' := deleted + [dirPath];
    RetireSucceedsSnoc(rules0, deleted, dirPath, c.faults);
    if r.Err? {
      RetireFailsAt(rules0, base, entries, i, today, numOfDays, c.faults);
    }
  }

  /** The retention loop: retires the old-enough entries of `entries` in listing order,
      stopping at the first failure. */
  method RetireOldEntries(c: Collection, base: string, entries: seq<Entry>, today: int,
                          numOfDays: int)
    returns (r: Result<seq<string>>, ghost done: nat)
    requires c.Valid()
    modifies c`rules, c`tasks
    ensures c.Valid()
    ensures done <= |entries|
    ensures c.tasks == old(c.tasks) + SweepTasks(OldPaths(base, entries[..done], today, numOfDays))
    ensures r.Ok? ==>
      done == |entries| && r.value == OldPaths(base, entries, today, numOfDays) &&
      RetireSucceeds(old(c.rules), r.value, c.faults) &&
      c.rules == UnshareEach(old(c.rules), r.value)
    ensures r.Err? ==> !RetireSucceeds(old(c.rules), OldPaths(base, entries, today, numOfDays), c.faults)
    ensures r.Err? ==>
      var before := OldPaths(base, entries[..done], today, numOfDays);
      done < |entries| && IsOld(entries[done], today, numOfDays) &&
      var q := base + entries[done].name;
      RetireSucceeds(old(c.rules), before, c.faults) &&
      !(UnshareSucceeds(UnshareEach(old(c.rules), before), c.faults, q) &&
        SubmitDelete(Normalize(q)) !in c.faults) &&
      c.rules == UnsharedRules(UnshareEach(old(c.rules), before), c.faults, q)
    ensures r.Err? && AclList in c.faults ==>
      r == Err(c.faults[AclList].Status(), c.faults[AclList].message)
    ensures r.Err? && AclList !in c.faults ==> r == Uncaught()
  {
    ghost var rules0, tasks0 := c.rules, c.tasks;
    var deleted := [];
    var i := 0;
    while i < |entries|
      invariant 0 <= i <= |entries|
      invariant c.Valid()
      invariant deleted == OldPaths(base, entries[..i], today, numOfDays)
      invariant c.rules == UnshareEach(rules0, deleted) && c.tasks == tasks0 + SweepTasks(deleted)
      invariant RetireSucceeds(rules0, deleted, c.faults)
    {
      var u;
      u, deleted := RetireStep(c, base, entries, i, today, numOfDays, deleted, rules0, tasks0);
      if u.Err? {
        return Err(u.status, u.detail), i;
      }
      i := i + 1;
    }
    assert entries[..i] == entries;
    r, done := Ok(deleted), i;
  }

  /** Deletes, without waiting, every directory under `path` whose last change is at least
      `numOfDays` days before `today`, unsharing each first; returns their paths. Fewer than 14
      days is refused with 406 before anything else. */
  method DeleteOldDirs(c: Collection, path: string, numOfDays: int, today: int)
    returns (r: Result<seq<string>>)
    requires c.Valid()
    modifies c`rules, c`tasks
    ensures c.Valid()
    ensures numOfDays < RetentionFloor ==>
      var refused := CheckRetentionFloor(numOfDays);
      r == Err(refused.status, refused.detail) && c.rules == old(c.rules) && c.tasks == old(c.tasks)
    ensures var ls := LsResult(c.fs, c.faults, path);
      numOfDays >= RetentionFloor && ls.Failure? ==>
        r == ListDirError(ls.error, path) && c.rules == old(c.rules) && c.tasks == old(c.tasks)
    ensures r.Ok? <==>
      numOfDays >= RetentionFloor && LsResult(c.fs, c.faults, path).Success? &&
      RetireSucceeds(old(c.rules), OldDirsOf(c.fs, c.faults, path, today, numOfDays), c.faults)
    ensures r.Ok? ==>
      numOfDays >= RetentionFloor && LsResult(c.fs, c.faults, path).Success? &&
      r.value == OldDirsOf(c.fs, c.faults, path, today, numOfDays) &&
      c.rules == UnshareEach(old(c.rules), r.value) &&
      c.tasks == old(c.tasks) + SweepTasks(r.value)
    ensures r.Err? && numOfDays >= RetentionFloor && LsResult(c.fs, c.faults, path).Success? ==>
      var entries := LsResult(c.fs, c.faults, path).value;
      var base := WithTrailingSlash(path);
      exists k :: 0 <= k < |entries| && IsOld(entries[k], today, numOfDays) &&
        var before := OldPaths(base, entries[..k], today, numOfDays);
        var q := base + entries[k].name;
        RetireSucceeds(old(c.rules), before, c.faults) &&
        !(UnshareSucceeds(UnshareEach(old(c.rules), before), c.faults, q) &&
          SubmitDelete(Normalize(q)) !in c.faults) &&
        c.tasks == old(c.tasks) + SweepTasks(before) &&
        c.rules == UnsharedRules(UnshareEach(old(c.rules), before), c.faults, q)
    ensures r.Err? && numOfDays >= RetentionFloor && LsResult(c.fs, c.faults, path).Success? ==>
      if AclList in c.faults then r == Err(c.faults[AclList].Status(), c.faults[AclList].message)
      else r == Uncaught()
  {
    var checked := CheckRetentionFloor(numOfDays);
    if checked.Err? {
      return Err(checked.status, checked.detail);
    }
    var listed := ListDir(c, path);
    if listed.Err? {
      return Err(listed.status, listed.detail);
    }
    var entries := listed.value;
    ghost var done;
    r, done := RetireOldEntries(c, WithTrailingSlash(path), entries, today, numOfDays);
    assert entries[..|entries|] == entries;
  }
}
