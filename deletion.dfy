// The deletion executor: one final confirmation for the whole selection,
// then one recursive removal per selected entry, continuing past failures,
// and a tally of what succeeded and what failed. The file system is an
// oracle: which paths exist, and which removals fail with which error.

module Deletion {
  import opened Wrappers
  import opened Prompt
  import opened Listing
  import opened Seqs

  // ---------------------------------------------------------------------
  // The file system

  /** `p` is `path` itself or lies below it. */
  predicate Within(p: string, path: string)
  {
    p == path || path + "/" <= p
  }

  /** The paths of `present` that a recursive removal of `path` takes away. */
  function Subtree(present: set<string>, path: string): set<string>
  {
    set p | p in present && Within(p, path)
  }

  /**
    * The file system as the executor sees it: the paths that exist, the
    * paths whose removal fails (with the error it reports), and the log of
    * removal attempts, in order.
    */
  class FileSystem {
    var present: set<string>
    const failures: map<string, string>
    var attempts: seq<string>

    constructor (paths: set<string>, failing: map<string, string>)
      ensures present == paths && failures == failing && attempts == []
    {
      present := paths;
      failures := failing;
      attempts := [];
    }

    /**
      * Recursive removal: removes the path and everything below it; a path
      * that does not exist is not an error.
      */
    method RemoveAll(path: string) returns (err: Option<string>)
      modifies this
      ensures attempts == old(attempts) + [path]
      ensures path in failures ==> err == Some(failures[path]) && present == old(present)
      ensures path !in failures ==> err == None && present == old(present) - Subtree(old(present), path)
    {
      attempts := attempts + [path];
      if path in failures {
        err := Some(failures[path]);
      } else {
        present := present - Subtree(present, path);
        err := None;
      }
    }

    /** Removal of a single file: a path that does not exist is an error. */
    method Remove(path: string) returns (err: Option<string>)
      modifies this
      ensures attempts == old(attempts) + [path]
      ensures path in failures ==> err == Some(failures[path]) && present == old(present)
      ensures path !in failures && path !in old(present) ==> err == Some(NotExist) && present == old(present)
      ensures path !in failures && path in old(present) ==> err == None && present == old(present) - {path}
    {
      attempts := attempts + [path];
      if path in failures {
        err := Some(failures[path]);
      } else if path !in present {
        err := Some(NotExist);
      } else {
        present := present - {path};
        err := None;
      }
    }
  }

  /** The error reported for a path that does not exist. */
  const NotExist: string := "no such file or directory"

  // ---------------------------------------------------------------------
  // The executor's specification

  /** A removal that failed: the entry's path and the error. */
  datatype FailedItem = FailedItem(name: string, err: string)

  /** The executor's counters and its list of failures. */
  datatype Tally = Tally(successful: nat, failed: nat, failedItems: seq<FailedItem>)

  /** What the executor reports. */
  datatype Report =
    | NothingToDelete
    | Aborted
    | Finished(tally: Tally)

  /** The paths of the entries, in order: the removal attempts the executor makes. */
  function Names(entries: seq<FileEntry>): seq<string>
  {
    seq(|entries|, i requires 0 <= i < |entries| => entries[i].name)
  }

  /** Which entries' removals fail. */
  function Failing(entries: seq<FileEntry>, failures: map<string, string>): seq<bool>
  {
    seq(|entries|, i requires 0 <= i < |entries| => entries[i].name in failures)
  }

  /** The tally after attempting each of the entries in turn. */
  function TallyOf(entries: seq<FileEntry>, failures: map<string, string>): Tally
  {
    if entries == [] then Tally(0, 0, [])
    else
      var t := TallyOf(entries[..|entries| - 1], failures);
      var path := entries[|entries| - 1].name;
      if path in failures then Tally(t.successful, t.failed + 1, t.failedItems + [FailedItem(path, failures[path])])
      else Tally(t.successful + 1, t.failed, t.failedItems)
  }

  /** The paths left after attempting to remove each of the entries in turn. */
  function AfterRemovals(present: set<string>, entries: seq<FileEntry>, failures: map<string, string>): set<string>
  {
    if entries == [] then present
    else
      var prev := AfterRemovals(present, entries[..|entries| - 1], failures);
      var path := entries[|entries| - 1].name;
      if path in failures then prev else prev - Subtree(prev, path)
  }

  /**
    * Every entry is counted once, as a success or as a failure; the
    * failures are listed in selection order, each with its own error: failed
    * item j is the entry at IndicesWhere(Failing(...))[j].
    */
  lemma {:induction false} TallySpec(entries: seq<FileEntry>, failures: map<string, string>)
    ensures var t := TallyOf(entries, failures);
      var idx := IndicesWhere(Failing(entries, failures));
      t.successful + t.failed == |entries| &&
      t.failed == |t.failedItems| == |idx| &&
      forall j :: 0 <= j < |idx| ==>
        idx[j] < |entries| && entries[idx[j]].name in failures &&
        t.failedItems[j] == FailedItem(entries[idx[j]].name, failures[entries[idx[j]].name])
  {
    if entries != [] {
      var n := |entries|;
      var init := entries[..n - 1];
      var last := entries[n - 1];
      TallySpec(init, failures);
      assert Failing(entries, failures)[..n - 1] == Failing(init, failures);
      var prev := IndicesWhere(Failing(init, failures));
      var idx := IndicesWhere(Failing(entries, failures));
      assert idx == prev + (if last.name in failures then [n - 1] else []);
      var pt := TallyOf(init, failures);
      var t := TallyOf(entries, failures);
      forall j | 0 <= j < |idx|
        ensures idx[j] < n && entries[idx[j]].name in failures &&
          t.failedItems[j] == FailedItem(entries[idx[j]].name, failures[entries[idx[j]].name])
      {
        if j < |prev| {
          assert idx[j] == prev[j] && t.failedItems[j] == pt.failedItems[j];
          assert entries[prev[j]] == init[prev[j]];
        } else {
          assert idx[j] == n - 1;
        }
      }
    }
  }

  /** With no failing path, everything succeeds and nothing is listed as failed. */
  lemma AllSucceed(entries: seq<FileEntry>, failures: map<string, string>)
    requires forall i :: 0 <= i < |entries| ==> entries[i].name !in failures
    ensures TallyOf(entries, failures) == Tally(|entries|, 0, [])
  {
    TallySpec(entries, failures);
    IndicesWhereSpec(Failing(entries, failures));
  }

  /**
    * A path survives the removals exactly when it existed and no successful
    * removal was of it or of a directory above it.
    */
  lemma {:induction false} AfterRemovalsSpec(present: set<string>, entries: seq<FileEntry>, failures: map<string, string>, p: string)
    ensures p in AfterRemovals(present, entries, failures) <==>
      p in present &&
      forall i :: 0 <= i < |entries| && entries[i].name !in failures ==> !Within(p, entries[i].name)
  {
    if entries != [] {
      var init := entries[..|entries| - 1];
      AfterRemovalsSpec(present, init, failures, p);
      assert forall i :: 0 <= i < |init| ==> init[i] == entries[i];
    }
  }

  /** Removals only ever take paths away. */
  lemma {:induction false} AfterRemovalsShrinks(present: set<string>, entries: seq<FileEntry>, failures: map<string, string>)
    ensures AfterRemovals(present, entries, failures) <= present
  {
    if entries != [] {
      AfterRemovalsShrinks(present, entries[..|entries| - 1], failures);
    }
  }

  // ---------------------------------------------------------------------
  // The executor

  /** One more attempt extends the tally and the removals by that entry. */
  lemma PrefixStep(entries: seq<FileEntry>, i: nat)
    requires i < |entries|
    ensures var e := entries[..i + 1];
      e[..|e| - 1] == entries[..i] && e[|e| - 1] == entries[i] &&
      Names(e) == Names(entries[..i]) + [entries[i].name]
  {
  }

  /**
    * Nothing selected: nothing to do. Otherwise ask once for the whole
    * selection; on no, stop; on yes, attempt every entry in order, whatever
    * the earlier attempts gave, and tally the outcomes.
    */
  method DeleteSelectedEntries(toDelete: seq<FileEntry>, reader: Stdin, fs: FileSystem) returns (report: Report)
    modifies reader, fs
    ensures toDelete == [] ==>
      report == NothingToDelete && reader.input == old(reader.input) &&
      fs.present == old(fs.present) && fs.attempts == old(fs.attempts)
    ensures toDelete != [] ==> var reply := Confirmation(old(reader.input));
      reader.input == reply.rest &&
      (!reply.yes ==> report == Aborted && fs.present == old(fs.present) && fs.attempts == old(fs.attempts)) &&
      (reply.yes ==>
        report == Finished(TallyOf(toDelete, fs.failures)) &&
        fs.attempts == old(fs.attempts) + Names(toDelete) &&
        fs.present == AfterRemovals(old(fs.present), toDelete, fs.failures))
  {
    if |toDelete| == 0 {
      return NothingToDelete;
    }
    var yes := ConfirmWithReader(reader);
    if !yes {
      return Aborted;
    }
    ghost var rest := reader.input;
    var successful, failed := 0, 0;
    var failedItems: seq<FailedItem> := [];
    for i := 0 to |toDelete|
      invariant reader.input == rest
      invariant Tally(successful, failed, failedItems) == TallyOf(toDelete[..i], fs.failures)
      invariant fs.attempts == old(fs.attempts) + Names(toDelete[..i])
      invariant fs.present == AfterRemovals(old(fs.present), toDelete[..i], fs.failures)
    {
      PrefixStep(toDelete, i);
      var entry := toDelete[i];
      var err := fs.RemoveAll(entry.name);
      if err.Some? {
        failed := failed + 1;
        failedItems := failedItems + [FailedItem(entry.name, err.value)];
      } else {
        successful := successful + 1;
      }
    }
    assert toDelete[..|toDelete|] == toDelete;
    report := Finished(Tally(successful, failed, failedItems));
  }
}
