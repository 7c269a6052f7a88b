// The top-level workflow for a directory target: confirm the scan, read the
// directory, list its entries, let the user select (one question per entry,
// or one question for all), and hand a non-empty selection to the deletion
// executor. Also the single-file path: show the file, confirm, remove it.

module Workflow {
  import opened Prompt
  import opened Listing
  import opened Seqs
  import opened Selection
  import opened Deletion

  /** The outcome of reading the target directory. */
  datatype DirRead = DirOk(entries: seq<DirEntry>) | DirErr(err: string)

  /** How a run on a directory ends. */
  datatype Outcome =
    | ScanDeclined
    | ReadFailed(err: string)
    | NoEntries
    | NothingSelected
    | Deleted(report: Report)

  /** The selection and the input left after making it. */
  datatype Choice = Choice(toDelete: seq<FileEntry>, rest: seq<char>)

  /**
    * The user's selection out of a listing: in bulk mode one answer for the
    * whole listing, otherwise one answer per entry.
    */
  function Choose(listing: seq<FileEntry>, input: seq<char>, all: bool): Choice
  {
    if all then
      var reply := Confirmation(input);
      Choice(if reply.yes then MarkedWhere(listing, Uniform(|listing|, true)) else [], reply.rest)
    else
      var run := Answers(input, |listing|);
      Choice(SelectedWhere(listing, run.answers), run.rest)
  }

  /** A run's outcome, the entries whose removal it attempted, and the input it left unread. */
  datatype Session = Session(outcome: Outcome, attempted: seq<FileEntry>, rest: seq<char>)

  /** What a run on a directory does, given the input, the directory read and the failing paths. */
  function RunOf(input: seq<char>, dir: DirRead, targetPath: string, all: bool, failures: map<string, string>): Session
  {
    var scan := Confirmation(input);
    if !scan.yes then Session(ScanDeclined, [], scan.rest)
    else match dir
      case DirErr(e) => Session(ReadFailed(e), [], scan.rest)
      case DirOk(raw) =>
        var listing := Listed(raw, targetPath);
        if listing == [] then Session(NoEntries, [], scan.rest)
        else
          var choice := Choose(listing, scan.rest, all);
          if choice.toDelete == [] then Session(NothingSelected, [], choice.rest)
          else
            var reply := Confirmation(choice.rest);
            if reply.yes then Session(Deleted(Finished(TallyOf(choice.toDelete, failures))), choice.toDelete, reply.rest)
            else Session(Deleted(Aborted), [], reply.rest)
  }

  /**
    * No removal is attempted unless the user agreed to the scan, selected
    * something and then agreed to delete it; and the executor is never
    * handed an empty selection.
    */
  lemma ConsentBeforeRemoval(input: seq<char>, dir: DirRead, targetPath: string, all: bool, failures: map<string, string>)
    ensures var s := RunOf(input, dir, targetPath, all, failures);
      s.outcome != Deleted(NothingToDelete) &&
      (s.attempted != [] <==> s.outcome.Deleted? && s.outcome.report.Finished?) &&
      (s.attempted != [] ==>
        Confirmation(input).yes && dir.DirOk? &&
        var choice := Choose(Listed(dir.entries, targetPath), Confirmation(input).rest, all);
        s.attempted == choice.toDelete && Confirmation(choice.rest).yes)
  {
  }

  /** Bulk mode selects all of the listing or none of it. */
  lemma {:induction false} BulkChoice(listing: seq<FileEntry>, input: seq<char>)
    ensures var choice := Choose(listing, input, true);
      choice.toDelete == [] || |choice.toDelete| == |listing|
    ensures var choice := Choose(listing, input, true);
      forall i :: 0 <= i < |choice.toDelete| ==> choice.toDelete[i] == Mark(listing[i])
  {
    MarkedWhereSpec(listing, Uniform(|listing|, true));
  }

  /**
    * Every removal attempt is of an entry the user selected, marked for
    * deletion, whose path is the scanned directory joined with one of the
    * names the directory read returned; the tally accounts for every attempt.
    */
  lemma AttemptsAreSelectedEntries(input: seq<char>, dir: DirRead, targetPath: string, all: bool, failures: map<string, string>)
    ensures var s := RunOf(input, dir, targetPath, all, failures);
      forall j :: 0 <= j < |s.attempted| ==>
        s.attempted[j].toBeDeleted &&
        exists d :: d in dir.entries && s.attempted[j].name == Join(targetPath, d.name)
    ensures var s := RunOf(input, dir, targetPath, all, failures);
      s.outcome.Deleted? && s.outcome.report.Finished? ==>
        s.outcome.report.tally.successful + s.outcome.report.tally.failed == |s.attempted|
  {
    var s := RunOf(input, dir, targetPath, all, failures);
    if s.attempted != [] {
      var raw := dir.entries;
      var listing := Listed(raw, targetPath);
      var choice := Choose(listing, Confirmation(input).rest, all);
      ListedFresh(raw, targetPath);
      forall j | 0 <= j < |s.attempted|
        ensures s.attempted[j].toBeDeleted &&
          exists d :: d in raw && s.attempted[j].name == Join(targetPath, d.name)
      {
        var i: nat;
        if all {
          BulkChoice(listing, Confirmation(input).rest);
          i := j;
        } else {
          var run := Answers(Confirmation(input).rest, |listing|);
          SelectedWhereSpec(listing, run.answers);
          i := IndicesWhere(run.answers)[j];
        }
        assert i < |listing| && s.attempted[j] == Mark(listing[i]);
        assert listing[i] in listing;
      }
      TallySpec(s.attempted, failures);
    }
  }

  /**
    * A run on a directory. The listing is copied into an array that the
    * selection marks in place; the deletion executor is called only with a
    * non-empty selection. Also returns the names the lister warned about.
    */
  method RunDirectory(targetPath: string, dir: DirRead, all: bool, stdin: Stdin, fs: FileSystem)
    returns (outcome: Outcome, warnings: seq<string>)
    modifies stdin, fs
    ensures var s := RunOf(old(stdin.input), dir, targetPath, all, fs.failures);
      outcome == s.outcome && stdin.input == s.rest &&
      fs.attempts == old(fs.attempts) + Names(s.attempted) &&
      fs.present == AfterRemovals(old(fs.present), s.attempted, fs.failures)
    ensures warnings == if Confirmation(old(stdin.input)).yes && dir.DirOk? then Skipped(dir.entries) else []
  {
    warnings := [];
    var scan := Confirm(stdin);
    if !scan {
      return ScanDeclined, warnings;
    }
    if dir.DirErr? {
      return ReadFailed(dir.err), warnings;
    }
    var fileEntries;
    fileEntries, warnings := GetFileEntries(dir.entries, targetPath);
    if |fileEntries| == 0 {
      return NoEntries, warnings;
    }
    var entries := new FileEntry[|fileEntries|](i requires 0 <= i < |fileEntries| => fileEntries[i]);
    assert entries[..] == fileEntries;
    var toDelete;
    if all {
      toDelete := SelectAll(entries, stdin);
    } else {
      toDelete := SelectFilesInteractively(entries, stdin);
    }
    if |toDelete| > 0 {
      var report := DeleteSelectedEntries(toDelete, stdin, fs);
      outcome := Deleted(report);
    } else {
      outcome := NothingSelected;
    }
  }

  // ---------------------------------------------------------------------
  // A single file as the target

  /** How a run on a single file ends. */
  datatype FileOutcome = FileKept | FileRemoved | FileRemoveFailed(err: string)

  /** What a run on a single file does. */
  function SingleFileOf(input: seq<char>, path: string, present: set<string>, failures: map<string, string>): FileOutcome
  {
    if !Confirmation(input).yes then FileKept
    else if path in failures then FileRemoveFailed(failures[path])
    else if path !in present then FileRemoveFailed(NotExist)
    else FileRemoved
  }

  /** The file is removed exactly when the user agrees and the removal works. */
  lemma SingleFileConsent(input: seq<char>, path: string, present: set<string>, failures: map<string, string>)
    ensures SingleFileOf(input, path, present, failures) == FileRemoved <==>
      Confirmation(input).yes && path in present && path !in failures
    ensures SingleFileOf(input, path, present, failures) == FileKept <==> !Confirmation(input).yes
  {
  }

  /** A run on a single file: one question, then at most one removal. */
  method HandleSingleFile(path: string, stdin: Stdin, fs: FileSystem) returns (outcome: FileOutcome)
    modifies stdin, fs
    ensures var reply := Confirmation(old(stdin.input));
      stdin.input == reply.rest &&
      outcome == SingleFileOf(old(stdin.input), path, old(fs.present), fs.failures) &&
      fs.attempts == old(fs.attempts) + (if reply.yes then [path] else []) &&
      fs.present == (if outcome == FileRemoved then old(fs.present) - {path} else old(fs.present))
  {
    var yes := Confirm(stdin);
    if !yes {
      return FileKept;
    }
    var err := fs.Remove(path);
    if err.Some? {
      outcome := FileRemoveFailed(err.value);
    } else {
      outcome := FileRemoved;
    }
  }
}
