// The selection workflow: which listed entries the user marks for deletion.
// Interactive mode asks once per entry, in listing order; bulk mode asks
// once for the whole listing. Both mark the caller's entries in place.

module Selection {
  import opened Prompt
  import opened Listing
  import opened Seqs

  /** The answers to a run of prompts and the input left after them. */
  datatype Run = Run(answers: seq<bool>, rest: seq<char>)

  /** n prompts asked one after another on the same input. */
  function Answers(input: seq<char>, n: nat): (r: Run)
    ensures |r.answers| == n
  {
    if n == 0 then Run([], input)
    else
      var prev := Answers(input, n - 1);
      var reply := Confirmation(prev.rest);
      Run(prev.answers + [reply.yes], reply.rest)
  }

  function Mark(e: FileEntry): FileEntry
  {
    e.(toBeDeleted := true)
  }

  /** The caller's listing after marking the entries whose answer is yes. */
  function MarkedWhere(listing: seq<FileEntry>, answers: seq<bool>): (r: seq<FileEntry>)
    requires |answers| == |listing|
    ensures |r| == |listing|
  {
    if listing == [] then []
    else
      var n := |listing|;
      MarkedWhere(listing[..n - 1], answers[..n - 1]) +
        [if answers[n - 1] then Mark(listing[n - 1]) else listing[n - 1]]
  }

  /** The entries whose answer is yes, marked, as they are appended to the selection. */
  function SelectedWhere(listing: seq<FileEntry>, answers: seq<bool>): seq<FileEntry>
    requires |answers| == |listing|
  {
    if listing == [] then []
    else
      var n := |listing|;
      SelectedWhere(listing[..n - 1], answers[..n - 1]) +
        (if answers[n - 1] then [Mark(listing[n - 1])] else [])
  }

  /** The same answer for every one of n entries: what a single bulk answer amounts to. */
  function Uniform(n: nat, yes: bool): seq<bool>
  {
    seq(n, _ => yes)
  }

  /** Entry i is marked afterwards exactly when it was answered yes (or was marked already); nothing else changes. */
  lemma {:induction false} MarkedWhereSpec(listing: seq<FileEntry>, answers: seq<bool>)
    requires |answers| == |listing|
    ensures forall i :: 0 <= i < |listing| ==>
      MarkedWhere(listing, answers)[i] == if answers[i] then Mark(listing[i]) else listing[i]
  {
    if listing != [] {
      var n := |listing|;
      MarkedWhereSpec(listing[..n - 1], answers[..n - 1]);
    }
  }

  /**
    * The selection keeps, in listing order, exactly the entries answered yes:
    * its j-th element is entry IndicesWhere(answers)[j], marked. (By
    * IndicesWhereSpec, these are all the yes positions, in increasing
    * order, Count(answers) of them.)
    */
  lemma {:induction false} SelectedWhereSpec(listing: seq<FileEntry>, answers: seq<bool>)
    requires |answers| == |listing|
    ensures var idx := IndicesWhere(answers);
      |SelectedWhere(listing, answers)| == |idx| &&
      forall j :: 0 <= j < |idx| ==>
        idx[j] < |listing| && SelectedWhere(listing, answers)[j] == Mark(listing[idx[j]])
  {
    if listing != [] {
      var n := |listing|;
      var init, ainit := listing[..n - 1], answers[..n - 1];
      SelectedWhereSpec(init, ainit);
      var prev := IndicesWhere(ainit);
      var idx := IndicesWhere(answers);
      assert idx == prev + (if answers[n - 1] then [n - 1] else []);
      var prevSel := SelectedWhere(init, ainit);
      var sel := SelectedWhere(listing, answers);
      assert sel == prevSel + (if answers[n - 1] then [Mark(listing[n - 1])] else []);
      forall j | 0 <= j < |idx|
        ensures idx[j] < n && sel[j] == Mark(listing[idx[j]])
      {
        if j < |prev| {
          assert idx[j] == prev[j] && sel[j] == prevSel[j];
          assert listing[prev[j]] == init[prev[j]];
        } else {
          assert idx[j] == n - 1 && sel[j] == Mark(listing[n - 1]);
        }
      }
    }
  }

  /**
    * Bulk mode is all or nothing: one yes marks every entry and selects the
    * whole (marked) listing; one no leaves the listing untouched and selects
    * nothing. Either way it is interactive mode with the same answer for
    * every entry.
    */
  lemma {:induction false} BulkAllOrNothing(listing: seq<FileEntry>, yes: bool)
    ensures var a := Uniform(|listing|, yes);
      var marked := MarkedWhere(listing, a);
      (yes ==> (forall i :: 0 <= i < |listing| ==> marked[i].toBeDeleted) &&
               SelectedWhere(listing, a) == marked) &&
      (!yes ==> marked == listing && SelectedWhere(listing, a) == [])
  {
    var a := Uniform(|listing|, yes);
    MarkedWhereSpec(listing, a);
    if listing != [] {
      var n := |listing|;
      assert a[..n - 1] == Uniform(n - 1, yes);
      BulkAllOrNothing(listing[..n - 1], yes);
    }
  }

  /**
    * Interactive mode: one prompt per entry, in listing order; an entry
    * answered yes is marked in the caller's listing and appended to the
    * selection.
    */
  method SelectFilesInteractively(entries: array<FileEntry>, reader: Stdin) returns (selected: seq<FileEntry>)
    modifies entries, reader
    ensures var run := Answers(old(reader.input), entries.Length);
      reader.input == run.rest &&
      entries[..] == MarkedWhere(old(entries[..]), run.answers) &&
      selected == SelectedWhere(old(entries[..]), run.answers)
  {
    ghost var orig := entries[..];
    ghost var input := reader.input;
    ghost var answers: seq<bool> := [];
    selected := [];
    for i := 0 to entries.Length
      invariant |answers| == i
      invariant Answers(input, i) == Run(answers, reader.input)
      invariant entries[..] == MarkedWhere(orig[..i], answers) + orig[i..]
      invariant selected == SelectedWhere(orig[..i], answers)
    {
      ghost var before := reader.input;
      var yes := ConfirmWithReader(reader);
      AnswersStep(input, i, answers, before, yes, reader.input);
      MarkedStep(orig, answers, yes);
      SelectedStep(orig, answers, yes);
      ghost var prev := entries[..];
      if yes {
        entries[i] := Mark(entries[i]);
        selected := selected + [entries[i]];
        assert entries[..] == prev[i := Mark(prev[i])];
      }
      SpliceStep(MarkedWhere(orig[..i], answers), orig, i, if yes then Mark(orig[i]) else orig[i]);
      answers := answers + [yes];
    }
    assert orig[..entries.Length] == orig;
  }

  /** Replacing the first unprocessed element moves it into the processed part. */
  lemma SpliceStep(done: seq<FileEntry>, orig: seq<FileEntry>, i: nat, x: FileEntry)
    requires |done| == i < |orig|
    ensures (done + orig[i..])[i := x] == (done + [x]) + orig[i + 1..]
    ensures x == orig[i] ==> done + orig[i..] == (done + [x]) + orig[i + 1..]
  {
    assert orig[i..] == [orig[i]] + orig[i + 1..];
  }

  /** The next prompt of a run reads where the previous ones stopped. */
  lemma AnswersStep(input: seq<char>, n: nat, answers: seq<bool>, before: seq<char>, yes: bool, after: seq<char>)
    requires Answers(input, n) == Run(answers, before)
    requires Confirmation(before) == Reply(yes, after)
    ensures Answers(input, n + 1) == Run(answers + [yes], after)
  {
  }

  /** One more answer extends the marked prefix by one entry. */
  lemma MarkedStep(listing: seq<FileEntry>, answers: seq<bool>, yes: bool)
    requires |answers| < |listing|
    ensures var i := |answers|;
      MarkedWhere(listing[..i + 1], answers + [yes]) ==
        MarkedWhere(listing[..i], answers) + [if yes then Mark(listing[i]) else listing[i]]
  {
    var i := |answers|;
    var l1, a1 := listing[..i + 1], answers + [yes];
    assert l1[..|l1| - 1] == listing[..i] && l1[|l1| - 1] == listing[i];
    assert a1[..|a1| - 1] == answers && a1[|a1| - 1] == yes;
    assert MarkedWhere(l1, a1) == MarkedWhere(listing[..i], answers) + [if yes then Mark(listing[i]) else listing[i]];
  }

  /** One more answer extends the selection by the entry, if the answer is yes. */
  lemma SelectedStep(listing: seq<FileEntry>, answers: seq<bool>, yes: bool)
    requires |answers| < |listing|
    ensures var i := |answers|;
      SelectedWhere(listing[..i + 1], answers + [yes]) ==
        SelectedWhere(listing[..i], answers) + (if yes then [Mark(listing[i])] else [])
  {
    var i := |answers|;
    var l1, a1 := listing[..i + 1], answers + [yes];
    assert l1[..|l1| - 1] == listing[..i] && l1[|l1| - 1] == listing[i];
    assert a1[..|a1| - 1] == answers && a1[|a1| - 1] == yes;
    assert SelectedWhere(l1, a1) == SelectedWhere(listing[..i], answers) + (if yes then [Mark(listing[i])] else []);
  }

  /**
    * Bulk mode: one prompt for the whole listing; on yes every entry is
    * marked and the whole listing is selected, on no nothing is.
    */
  method SelectAll(entries: array<FileEntry>, reader: Stdin) returns (toDelete: seq<FileEntry>)
    modifies entries, reader
    ensures var reply := Confirmation(old(reader.input));
      reader.input == reply.rest &&
      entries[..] == MarkedWhere(old(entries[..]), Uniform(entries.Length, reply.yes)) &&
      toDelete == (if reply.yes then entries[..] else [])
  {
    ghost var orig := entries[..];
    var yes := ConfirmWithReader(reader);
    toDelete := [];
    if yes {
      MarkAll(entries);
      toDelete := entries[..];
    }
    MarkedWhereSpec(orig, Uniform(entries.Length, yes));
  }

  /** The bulk marking loop: every entry of the listing is marked. */
  method MarkAll(entries: array<FileEntry>)
    modifies entries
    ensures forall k :: 0 <= k < entries.Length ==> entries[k] == Mark(old(entries[k]))
  {
    for i := 0 to entries.Length
      invariant forall k :: 0 <= k < i ==> entries[k] == Mark(old(entries[k]))
      invariant forall k :: i <= k < entries.Length ==> entries[k] == old(entries[k])
    {
      entries[i] := Mark(entries[i]);
    }
  }
}
