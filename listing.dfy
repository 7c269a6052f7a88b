// The entry lister: one level of a directory turned into the in-memory
// entries the rest of the workflow works on. The directory read and each
// entry's metadata query are not performed here; their outcomes are inputs.

module Listing {
  import opened SizeFormat
  import opened Seqs

  /** Metadata of one directory entry: its size and its modification time (as an opaque stamp). */
  datatype FileInfo = FileInfo(size: Int64, modTime: int)

  /** The outcome of asking a directory entry for its metadata. */
  datatype InfoResult = InfoOk(info: FileInfo) | InfoErr(err: string)

  /** One raw entry as the directory read returns it, with its metadata outcome. */
  datatype DirEntry = DirEntry(name: string, isDir: bool, info: InfoResult)

  /** The workflow's record of one item. */
  datatype FileEntry = FileEntry(name: string, size: Int64, isDir: bool, modTime: int, toBeDeleted: bool)

  // ---------------------------------------------------------------------
  // Paths

  /**
    * Joining a clean directory path and an entry name with one separator;
    * the root directory already ends in one.
    */
  function Join(base: string, name: string): string
  {
    if base != [] && base[|base| - 1] == '/' then base + name else base + "/" + name
  }

  /** The path without its trailing separators. */
  function StripSeparators(path: string): (t: string)
    ensures |t| <= |path| && t == path[..|t|]
    ensures t == [] || t[|t| - 1] != '/'
  {
    if path == [] || path[|path| - 1] != '/' then path else StripSeparators(path[..|path| - 1])
  }

  /** The part of a path after its last separator: all of it when it has none. */
  function LastComponent(path: string): (b: string)
    ensures |b| <= |path|
  {
    if path == [] || path[|path| - 1] == '/' then []
    else LastComponent(path[..|path| - 1]) + [path[|path| - 1]]
  }

  /**
    * The last component is the longest suffix without a separator: it has
    * none, and it is the whole path or preceded by a separator.
    */
  lemma {:induction false} LastComponentSpec(path: string)
    ensures var b := LastComponent(path);
      b == path[|path| - |b|..] && '/' !in b &&
      (|b| < |path| ==> path[|path| - |b| - 1] == '/')
  {
    if path != [] && path[|path| - 1] != '/' {
      var init := path[..|path| - 1];
      LastComponentSpec(init);
      var b := LastComponent(init);
      assert init[|init| - |b|..] + [path[|path| - 1]] == path[|path| - |b| - 1..];
      assert |b| < |init| ==> init[|init| - |b| - 1] == path[|path| - |b| - 2];
    }
  }

  /**
    * The last element of a path, ignoring trailing separators: "." for the
    * empty path and "/" for a path of separators only.
    */
  function BaseName(path: string): (b: string)
    ensures b != []
  {
    if path == [] then "."
    else
      var t := StripSeparators(path);
      if t == [] then "/" else LastComponent(t)
  }

  /**
    * The base name of a path with something in it besides separators is its
    * last non-empty component: no separator in it, preceded by a separator
    * or the start of the path, and followed only by separators.
    */
  lemma BaseNameSpec(path: string)
    requires exists i :: 0 <= i < |path| && path[i] != '/'
    ensures var b := BaseName(path);
      var t := StripSeparators(path);
      '/' !in b && b == t[|t| - |b|..] && (|b| < |t| ==> t[|t| - |b| - 1] == '/') &&
      forall i :: |t| <= i < |path| ==> path[i] == '/'
  {
    var t := StripSeparators(path);
    StripSeparatorsTail(path);
    assert t != [] by {
      var i :| 0 <= i < |path| && path[i] != '/';
      assert i < |t|;
    }
    assert BaseName(path) == LastComponent(t);
    LastComponentSpec(t);
  }

  lemma {:induction false} StripSeparatorsTail(path: string)
    ensures var t := StripSeparators(path);
      forall i :: |t| <= i < |path| ==> path[i] == '/'
  {
    if path != [] && path[|path| - 1] == '/' {
      StripSeparatorsTail(path[..|path| - 1]);
    }
  }

  /** The corner cases: the empty path, the root, and a trailing separator. */
  lemma BaseNameExamples()
    ensures BaseName("") == "."
    ensures BaseName("/") == "/"
    ensures BaseName("a/b/") == "b"
  {
    assert StripSeparators("/") == [];
    assert StripSeparators("a/b/") == "a/b";
    assert LastComponent("a/b") == "b" by {
      assert LastComponent("a/") == [];
    }
  }

  /** Joining an entry name onto a directory path keeps the name recoverable as the last component. */
  lemma {:induction false} BaseNameOfJoin(base: string, name: string)
    requires name != [] && '/' !in name
    ensures BaseName(Join(base, name)) == name
  {
    var prefix := if base != [] && base[|base| - 1] == '/' then base else base + "/";
    var path := Join(base, name);
    assert path == prefix + name;
    assert path[|path| - 1] == name[|name| - 1];
    LastComponentAfterSlash(prefix, name);
  }

  lemma {:induction false} LastComponentAfterSlash(prefix: string, name: string)
    requires prefix != [] && prefix[|prefix| - 1] == '/'
    requires '/' !in name
    ensures LastComponent(prefix + name) == name
    decreases |name|
  {
    if name == [] {
      assert prefix + name == prefix;
    } else {
      var init := name[..|name| - 1];
      assert (prefix + name)[..|prefix + name| - 1] == prefix + init;
      assert '/' !in init by {
        forall i | 0 <= i < |init| ensures init[i] != '/' {
          assert init[i] == name[i];
        }
      }
      LastComponentAfterSlash(prefix, init);
      assert init + [name[|name| - 1]] == name;
    }
  }

  // ---------------------------------------------------------------------
  // The lister

  /** The entry built for a raw entry whose metadata query succeeded. */
  function ToEntry(d: DirEntry, basePath: string): FileEntry
    requires d.info.InfoOk?
  {
    FileEntry(Join(basePath, d.name), d.info.info.size, d.isDir, d.info.info.modTime, false)
  }

  /** Which raw entries have metadata. */
  function HasInfo(entries: seq<DirEntry>): seq<bool>
  {
    seq(|entries|, i requires 0 <= i < |entries| => entries[i].info.InfoOk?)
  }

  /** The lister's result over a prefix of the raw entries. */
  function Listed(entries: seq<DirEntry>, basePath: string): seq<FileEntry>
  {
    if entries == [] then []
    else
      var last := entries[|entries| - 1];
      Listed(entries[..|entries| - 1], basePath) + (if last.info.InfoOk? then [ToEntry(last, basePath)] else [])
  }

  /** Names of the raw entries whose metadata query failed (each gets a warning). */
  function Skipped(entries: seq<DirEntry>): seq<string>
  {
    if entries == [] then []
    else
      var last := entries[|entries| - 1];
      Skipped(entries[..|entries| - 1]) + (if last.info.InfoErr? then [last.name] else [])
  }

  /**
    * The listing is, in directory order, exactly the entries whose metadata
    * query succeeded: entry j of the listing is built from raw entry
    * IndicesWhere(HasInfo(entries))[j].
    */
  lemma {:induction false} ListedSpec(entries: seq<DirEntry>, basePath: string)
    ensures var idx := IndicesWhere(HasInfo(entries));
      |Listed(entries, basePath)| == |idx| &&
      forall j :: 0 <= j < |idx| ==>
        idx[j] < |entries| && entries[idx[j]].info.InfoOk? &&
        Listed(entries, basePath)[j] == ToEntry(entries[idx[j]], basePath)
  {
    if entries != [] {
      var n := |entries|;
      var init := entries[..n - 1];
      var last := entries[n - 1];
      ListedSpec(init, basePath);
      assert HasInfo(entries)[..n - 1] == HasInfo(init);
      var prev := IndicesWhere(HasInfo(init));
      var idx := IndicesWhere(HasInfo(entries));
      assert idx == prev + (if last.info.InfoOk? then [n - 1] else []);
      var prevList := Listed(init, basePath);
      var list := Listed(entries, basePath);
      assert list == prevList + (if last.info.InfoOk? then [ToEntry(last, basePath)] else []);
      forall j | 0 <= j < |idx|
        ensures idx[j] < n && entries[idx[j]].info.InfoOk? && list[j] == ToEntry(entries[idx[j]], basePath)
      {
        if j < |prev| {
          assert idx[j] == prev[j] && list[j] == prevList[j];
          assert entries[prev[j]] == init[prev[j]];
        } else {
          assert idx[j] == n - 1 && list[j] == ToEntry(last, basePath);
        }
      }
    }
  }

  /** Which raw entries lack metadata. */
  function NoInfo(entries: seq<DirEntry>): seq<bool>
  {
    seq(|entries|, i requires 0 <= i < |entries| => entries[i].info.InfoErr?)
  }

  /**
    * The warnings name, in directory order, exactly the raw entries whose
    * metadata query failed: warning j names raw entry
    * IndicesWhere(NoInfo(entries))[j].
    */
  lemma {:induction false} SkippedSpec(entries: seq<DirEntry>)
    ensures var idx := IndicesWhere(NoInfo(entries));
      |Skipped(entries)| == |idx| &&
      forall j :: 0 <= j < |idx| ==>
        idx[j] < |entries| && entries[idx[j]].info.InfoErr? &&
        Skipped(entries)[j] == entries[idx[j]].name
  {
    if entries != [] {
      var n := |entries|;
      var init := entries[..n - 1];
      var last := entries[n - 1];
      SkippedSpec(init);
      assert NoInfo(entries)[..n - 1] == NoInfo(init);
      var prev := IndicesWhere(NoInfo(init));
      var idx := IndicesWhere(NoInfo(entries));
      assert idx == prev + (if last.info.InfoErr? then [n - 1] else []);
      var prevSkip := Skipped(init);
      var skip := Skipped(entries);
      assert skip == prevSkip + (if last.info.InfoErr? then [last.name] else []);
      forall j | 0 <= j < |idx|
        ensures idx[j] < n && entries[idx[j]].info.InfoErr? && skip[j] == entries[idx[j]].name
      {
        if j < |prev| {
          assert idx[j] == prev[j] && skip[j] == prevSkip[j];
          assert entries[prev[j]] == init[prev[j]];
        } else {
          assert idx[j] == n - 1 && skip[j] == last.name;
        }
      }
    }
  }

  /** Every listed entry starts unmarked and is named by the directory path joined with its entry name. */
  lemma {:induction false} ListedFresh(entries: seq<DirEntry>, basePath: string)
    ensures forall e :: e in Listed(entries, basePath) ==>
      !e.toBeDeleted && exists d :: d in entries && e.name == Join(basePath, d.name)
  {
    if entries != [] {
      var init := entries[..|entries| - 1];
      ListedFresh(init, basePath);
      var last := entries[|entries| - 1];
      forall e | e in Listed(entries, basePath)
        ensures !e.toBeDeleted && exists d :: d in entries && e.name == Join(basePath, d.name)
      {
        if e in Listed(init, basePath) {
          var d :| d in init && e.name == Join(basePath, d.name);
          assert d in entries;
        } else {
          assert e == ToEntry(last, basePath);
          assert last in entries;
        }
      }
    }
  }

  /** The listing and the warnings together account for every raw entry: their lengths add up. */
  lemma {:induction false} ListedPlusSkipped(entries: seq<DirEntry>, basePath: string)
    ensures |Listed(entries, basePath)| + |Skipped(entries)| == |entries|
  {
    if entries != [] {
      ListedPlusSkipped(entries[..|entries| - 1], basePath);
    }
  }

  /**
    * The lister loop: for each raw entry, skip it with a warning if its
    * metadata query failed, otherwise append an unmarked entry.
    */
  method GetFileEntries(entries: seq<DirEntry>, basePath: string) returns (fileEntries: seq<FileEntry>, warnings: seq<string>)
    ensures fileEntries == Listed(entries, basePath)
    ensures warnings == Skipped(entries)
  {
    fileEntries, warnings := [], [];
    for i := 0 to |entries|
      invariant fileEntries == Listed(entries[..i], basePath)
      invariant warnings == Skipped(entries[..i])
    {
      assert entries[..i + 1][..i] == entries[..i];
      var entry := entries[i];
      match entry.info
      case InfoErr(_) =>
        warnings := warnings + [entry.name];
      case InfoOk(info) =>
        var fullPath := Join(basePath, entry.name);
        fileEntries := fileEntries + [FileEntry(fullPath, info.size, entry.isDir, info.modTime, false)];
    }
    assert entries[..|entries|] == entries;
  }
}
