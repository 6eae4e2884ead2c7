/** The age policy of the retention sweep. Dates are day numbers; `today` is an input. */
module Retention {
  import opened Results
  import opened Remote

  /** The smallest age, in days, the sweep may be asked to delete. */
  const RetentionFloor: int := 14

  /** The policy check done before anything else: fewer than 14 days is refused with 406. */
  function CheckRetentionFloor(numOfDays: int): (r: Result<()>)
    ensures r.Ok? <==> numOfDays >= RetentionFloor
    ensures r.Err? ==> r.status == 406
  {
    if numOfDays < RetentionFloor then
      Err(406, "Not allowed to delete dirs that are less than 14 days old")
    else Ok(())
  }

  /** An entry is old enough when its age in whole days reaches `numOfDays`. */
  predicate IsOld(e: Entry, today: int, numOfDays: int)
    ensures IsOld(e, today, numOfDays) <==> e.lastModified <= today - numOfDays
  {
    today - e.lastModified >= numOfDays
  }

  /** The paths `base + name` of the listing's old-enough entries, in listing order. */
  function OldPaths(base: string, entries: seq<Entry>, today: int, numOfDays: int): (r: seq<string>)
    ensures |r| <= |entries|
  {
    if entries == [] then []
    else
      var init := entries[..|entries| - 1];
      var last := entries[|entries| - 1];
      var head := OldPaths(base, init, today, numOfDays);
      if IsOld(last, today, numOfDays) then head + [base + last.name] else head
  }

  /** A path is selected exactly when some old-enough entry of the listing has that name. */
  lemma {:induction false} OldPathsSpec(base: string, entries: seq<Entry>, today: int, numOfDays: int)
    ensures forall q :: q in OldPaths(base, entries, today, numOfDays) <==>
      exists e :: e in entries && IsOld(e, today, numOfDays) && q == base + e.name
  {
    if entries != [] {
      var init := entries[..|entries| - 1];
      var last := entries[|entries| - 1];
      assert entries == init + [last];
      OldPathsSpec(base, init, today, numOfDays);
    }
  }

  /** The sweep's loop step: one more entry adds its path exactly when it is old enough. */
  lemma OldPathsSnoc(base: string, entries: seq<Entry>, i: nat, today: int, numOfDays: int)
    requires i < |entries|
    ensures OldPaths(base, entries[..i + 1], today, numOfDays) ==
      OldPaths(base, entries[..i], today, numOfDays) +
      (if IsOld(entries[i], today, numOfDays) then [base + entries[i].name] else [])
  {
    assert entries[..i + 1][..i] == entries[..i];
  }

  /** Selecting from a prefix of the listing gives a prefix of the selection. */
  lemma {:induction false} OldPathsPrefix(base: string, entries: seq<Entry>, i: nat, today: int,
                                          numOfDays: int)
    requires i <= |entries|
    ensures OldPaths(base, entries[..i], today, numOfDays) <= OldPaths(base, entries, today, numOfDays)
  {
    if i < |entries| {
      var init := entries[..|entries| - 1];
      assert init[..i] == entries[..i];
      OldPathsPrefix(base, init, i, today, numOfDays);
    } else {
      assert entries[..i] == entries;
    }
  }

  /** The age boundary is inclusive: an entry exactly `numOfDays` old is selected, one a day
      younger is not. */
  lemma AgeBoundary(base: string, name: string, today: int, numOfDays: int)
    ensures OldPaths(base, [Entry(name, today - numOfDays)], today, numOfDays) == [base + name]
    ensures OldPaths(base, [Entry(name, today - numOfDays + 1)], today, numOfDays) == []
  {
    assert [Entry(name, today - numOfDays)][..0] == [];
    assert [Entry(name, today - numOfDays + 1)][..0] == [];
  }

  /** The delete tasks the sweep submits, one recursive pending task per path, in order. */
  function SweepTasks(paths: seq<string>): (r: seq<DeleteTask>)
    ensures |r| == |paths|
  {
    if paths == [] then []
    else SweepTasks(paths[..|paths| - 1]) + [DeleteTask(paths[|paths| - 1], true, Pending)]
  }

  /** Task `k` deletes path `k`, recursively, and starts out pending. */
  lemma {:induction false} SweepTasksSpec(paths: seq<string>)
    ensures forall k :: 0 <= k < |paths| ==> SweepTasks(paths)[k] == DeleteTask(paths[k], true, Pending)
  {
    if paths != [] {
      var init := paths[..|paths| - 1];
      SweepTasksSpec(init);
      assert forall k :: 0 <= k < |init| ==> init[k] == paths[k];
    }
  }

  /** One more selected path adds one more task at the end. */
  lemma SweepTasksSnoc(paths: seq<string>, q: string)
    ensures SweepTasks(paths + [q]) == SweepTasks(paths) + [DeleteTask(q, true, Pending)]
  {
    assert (paths + [q])[..|paths|] == paths;
  }
}
