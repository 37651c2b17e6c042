/** The loader of config.go: the Config value and its accessors, `format`,
    `readFiles`, `loadFiles`, the constructors `Data`, `Files`, `Glob` and
    `Dir`, and the loader that takes the fragments in file order.

    What the program gets from outside is passed in: the file system as a
    map from path to contents (a path it does not hold cannot be read), the
    results of filepath.Glob and ioutil.ReadDir, json.Compact as a function
    `compact`, and the order in which the reading goroutines deliver their
    fragments on the channel as the sequence `received`. log.Fatal becomes
    a Failure result. */
module ConfigLoader {
  import opened ByteStrings
  import Comments
  import Merge
  import Paths

  /** ignoreFirst (config.go:15): names that start with it are skipped. */
  const IgnoreFirst: byte := Dot

  /** The dataType tag: "data", "files" or "directory". */
  datatype Origin = DataOrigin | FilesOrigin | DirectoryOrigin

  /** The loaded configuration (config.go:19-24), as a value: the model
      builds it once and gives it out whole. */
  datatype Config = Config(dataType: Origin, data: seq<byte>, directory: seq<byte>, files: seq<seq<byte>>)
  {
    /** The merged, compacted bytes. */
    function Bytes(): (r: seq<byte>)
      ensures r == data
    {
      data
    }

    /** The same bytes as a Go string. */
    function String(): (r: seq<byte>)
      ensures r == data
    {
      data
    }

    /** The directory the configuration came from. */
    function Target(): (r: seq<byte>)
      ensures r == directory
    {
      directory
    }
  }

  /** What log.Fatal reports before it ends the process. */
  datatype Fatal =
    | ReadFailed(path: seq<byte>)
    | GlobFailed(pattern: seq<byte>)
    | ReadDirFailed(dir: seq<byte>)

  datatype Result<T> = Success(value: T) | Failure(error: Fatal)

  /** What filepath.Glob or ioutil.ReadDir returned: the items, or an error. */
  datatype Listing<T> = Listed(items: seq<T>) | ListError

  /** One entry of a directory listing. */
  datatype DirEntry = DirEntry(name: seq<byte>, isDir: bool)

  /** The readable files and their contents. */
  type FileSystem = map<seq<byte>, seq<byte>>

  /** json.Compact, whose error the loader ignores. */
  type Compactor = seq<byte> -> seq<byte>

  /** `format` (config.go:26-33): read the file and strip its comments. */
  function Format(fs: FileSystem, configPath: seq<byte>): (r: Result<seq<byte>>)
    ensures r.Failure? <==> configPath !in fs
    ensures r.Failure? ==> r.error == ReadFailed(configPath)
    ensures r.Success? ==> Hash !in r.value && |r.value| <= |fs[configPath]|
    ensures r.Success? ==> multiset(r.value)[Newline] == multiset(fs[configPath])[Newline]
    ensures r.Success? ==> r.value == Comments.StripByLine(fs[configPath])
  {
    if configPath in fs then
      Comments.StripKeepsNewlines(fs[configPath]);
      Comments.StripIsLineByLine(fs[configPath]);
      Success(Comments.Strip(fs[configPath]))
    else
      Failure(ReadFailed(configPath))
  }

  /** Every file of the list can be read. */
  predicate AllReadable(fs: FileSystem, files: seq<seq<byte>>)
  {
    forall i :: 0 <= i < |files| ==> files[i] in fs
  }

  /** The stripped contents of the files, in file order. */
  function Formatted(fs: FileSystem, files: seq<seq<byte>>): (r: seq<seq<byte>>)
    requires AllReadable(fs, files)
    ensures |r| == |files|
    ensures forall i :: 0 <= i < |files| ==> Format(fs, files[i]) == Success(r[i])
  {
    seq(|files|, i requires 0 <= i < |files| => Comments.Strip(fs[files[i]]))
  }

  /** `readFiles` (config.go:35-64). One goroutine per file sends the
      file's stripped contents on the channel; `received` is the order in
      which they arrive, any order of the stripped contents. An unreadable
      file ends the load. */
  method ReadFiles(fs: FileSystem, files: seq<seq<byte>>, received: seq<seq<byte>>, compact: Compactor)
    returns (r: Result<seq<byte>>)
    requires AllReadable(fs, files) ==> multiset(received) == multiset(Formatted(fs, files))
    ensures r.Success? <==> AllReadable(fs, files)
    ensures r.Failure? ==> r.error.ReadFailed? && r.error.path in files && r.error.path !in fs
    ensures r.Success? ==> r.value == compact(Merge.Merged(received))
    ensures r.Success? ==> multiset(Merge.NonEmpty(received)) == multiset(Merge.NonEmpty(Formatted(fs, files)))
  {
    if !AllReadable(fs, files) {
      var unreadable :| unreadable in files && unreadable !in fs;
      return Failure(ReadFailed(unreadable));
    }
    assert |received| == |files| by {
      assert |multiset(received)| == |multiset(Formatted(fs, files))|;
    }
    Merge.ReceiveOrderKeepsFragments(received, Formatted(fs, files));
    var buf := Merge.BuildBuffer(received);
    return Success(compact(buf));
  }

  /** The base name of the path starts with ignoreFirst. */
  predicate Hidden(path: seq<byte>)
  {
    Paths.Base(path)[0] == IgnoreFirst
  }

  /** The paths that are not hidden, in the order given. */
  function Visible(files: seq<seq<byte>>): (r: seq<seq<byte>>)
    ensures |r| <= |files|
  {
    if files == [] then []
    else
      var last := files[|files| - 1];
      Visible(files[..|files| - 1]) + (if Hidden(last) then [] else [last])
  }

  /** a is b with some elements left out, the rest in their order. */
  predicate SubsequenceOf(a: seq<seq<byte>>, b: seq<seq<byte>>)
    decreases |b|
  {
    if a == [] then true
    else if b == [] then false
    else (a[|a| - 1] == b[|b| - 1] && SubsequenceOf(a[..|a| - 1], b[..|b| - 1]))
         || SubsequenceOf(a, b[..|b| - 1])
  }

  /** `loadFiles` (config.go:66-83): keep the paths whose base name does
      not start with ignoreFirst and load them. */
  method LoadFiles(fs: FileSystem, files: seq<seq<byte>>, received: seq<seq<byte>>, compact: Compactor)
    returns (r: Result<Config>)
    requires AllReadable(fs, Visible(files)) ==> multiset(received) == multiset(Formatted(fs, Visible(files)))
    ensures r.Success? <==> AllReadable(fs, Visible(files))
    ensures r.Failure? ==> r.error.ReadFailed? && r.error.path in Visible(files) && r.error.path !in fs
    ensures r.Success? ==> r.value == Config(FilesOrigin, compact(Merge.Merged(received)), [], Visible(files))
  {
    var kept: seq<seq<byte>> := [];
    for i := 0 to |files|
      invariant kept == Visible(files[..i])
    {
      VisiblePrefix(files, i);
      var fileName := Paths.Base(files[i]);
      if fileName[0] == IgnoreFirst {
        continue;
      }
      kept := kept + [files[i]];
    }
    assert files[..|files|] == files;
    var data := ReadFiles(fs, kept, received, compact);
    if data.Failure? {
      return Failure(data.error);
    }
    return Success(Config(FilesOrigin, data.value, [], kept));
  }

  /** `Files` (config.go:96-98). */
  method Files(fs: FileSystem, files: seq<seq<byte>>, received: seq<seq<byte>>, compact: Compactor)
    returns (r: Result<Config>)
    requires AllReadable(fs, Visible(files)) ==> multiset(received) == multiset(Formatted(fs, Visible(files)))
    ensures r.Success? <==> AllReadable(fs, Visible(files))
    ensures r.Failure? ==> r.error.ReadFailed? && r.error.path in Visible(files) && r.error.path !in fs
    ensures r.Success? ==> r.value == Config(FilesOrigin, compact(Merge.Merged(received)), [], Visible(files))
  {
    r := LoadFiles(fs, files, received, compact);
  }

  /** `Glob` (config.go:100-107): `matches` is what filepath.Glob gave. */
  method Glob(fs: FileSystem, pattern: seq<byte>, matches: Listing<seq<byte>>, received: seq<seq<byte>>, compact: Compactor)
    returns (r: Result<Config>)
    requires matches.Listed? && AllReadable(fs, Visible(matches.items))
             ==> multiset(received) == multiset(Formatted(fs, Visible(matches.items)))
    ensures matches.ListError? ==> r == Failure(GlobFailed(pattern))
    ensures matches.Listed? ==> (r.Success? <==> AllReadable(fs, Visible(matches.items)))
    ensures matches.Listed? && r.Failure?
            ==> r.error.ReadFailed? && r.error.path in Visible(matches.items) && r.error.path !in fs
    ensures matches.Listed? && r.Success?
            ==> r.value == Config(FilesOrigin, compact(Merge.Merged(received)), [], Visible(matches.items))
  {
    if matches.ListError? {
      return Failure(GlobFailed(pattern));
    }
    r := LoadFiles(fs, matches.items, received, compact);
  }

  /** A name as ioutil.ReadDir gives it: not empty and without '/'. */
  predicate EntryName(name: seq<byte>)
  {
    name != [] && Slash !in name
  }

  /** Every name of the listing is one ReadDir can give. */
  predicate ListedNames(entries: seq<DirEntry>)
  {
    forall i :: 0 <= i < |entries| ==> EntryName(entries[i].name)
  }

  /** The entry is a file whose name does not start with ignoreFirst. */
  predicate KeptEntry(entry: DirEntry)
    requires entry.name != []
  {
    !entry.isDir && entry.name[0] != IgnoreFirst
  }

  /** The kept entries of a listing, each joined onto the directory. */
  function DirPaths(directory: seq<byte>, entries: seq<DirEntry>): (r: seq<seq<byte>>)
    requires ListedNames(entries)
    ensures |r| <= |entries|
  {
    if entries == [] then []
    else
      var last := entries[|entries| - 1];
      DirPaths(directory, entries[..|entries| - 1])
      + (if KeptEntry(last) then [Paths.JoinPath(directory, last.name)] else [])
  }

  /** `Dir` (config.go:109-131). The Config it builds with dataType
      "directory" is dropped: what it returns is loadFiles' result. */
  method Dir(fs: FileSystem, configDir: seq<byte>, listing: Listing<DirEntry>, received: seq<seq<byte>>, compact: Compactor)
    returns (r: Result<Config>)
    requires listing.Listed? ==> ListedNames(listing.items)
    requires listing.Listed? && AllReadable(fs, DirPaths(Paths.Clean(configDir), listing.items))
             ==> multiset(received) == multiset(Formatted(fs, DirPaths(Paths.Clean(configDir), listing.items)))
    ensures listing.ListError? ==> r == Failure(ReadDirFailed(configDir))
    ensures listing.Listed? ==> (r.Success? <==> AllReadable(fs, DirPaths(Paths.Clean(configDir), listing.items)))
    ensures listing.Listed? && r.Failure?
            ==> r.error.ReadFailed? && r.error.path in DirPaths(Paths.Clean(configDir), listing.items)
                && r.error.path !in fs
    ensures listing.Listed? && r.Success?
            ==> r.value == Config(FilesOrigin, compact(Merge.Merged(received)), [], DirPaths(Paths.Clean(configDir), listing.items))
    ensures r.Success? ==> r.value.Target() == []
  {
    if listing.ListError? {
      return Failure(ReadDirFailed(configDir));
    }
    var fis := listing.items;
    var conf := Config(DirectoryOrigin, [], Paths.Clean(configDir), []);
    var files: seq<seq<byte>> := [];
    for i := 0 to |fis|
      invariant files == DirPaths(conf.directory, fis[..i])
    {
      assert fis[..i + 1][..i] == fis[..i];
      var fileName := fis[i].name;
      if fis[i].isDir || fileName[0] == IgnoreFirst {
        continue;
      }
      files := files + [Paths.JoinPath(conf.directory, fileName)];
    }
    assert fis[..|fis|] == fis;
    DirPathsVisible(conf.directory, fis);
    r := LoadFiles(fs, files, received, compact);
  }

  /** Dir as its unused `conf` suggests it was meant to work: the Config
      tagged "directory" that records the cleaned directory is the one
      returned, with the loaded files and data filled in. */
  method DirKeepingTarget(fs: FileSystem, configDir: seq<byte>, listing: Listing<DirEntry>, received: seq<seq<byte>>, compact: Compactor)
    returns (r: Result<Config>)
    requires listing.Listed? ==> ListedNames(listing.items)
    requires listing.Listed? && AllReadable(fs, DirPaths(Paths.Clean(configDir), listing.items))
             ==> multiset(received) == multiset(Formatted(fs, DirPaths(Paths.Clean(configDir), listing.items)))
    ensures listing.ListError? ==> r == Failure(ReadDirFailed(configDir))
    ensures listing.Listed? ==> (r.Success? <==> AllReadable(fs, DirPaths(Paths.Clean(configDir), listing.items)))
    ensures listing.Listed? && r.Failure?
            ==> r.error.ReadFailed? && r.error.path in DirPaths(Paths.Clean(configDir), listing.items)
                && r.error.path !in fs
    ensures listing.Listed? && r.Success?
            ==> r.value == Config(DirectoryOrigin, compact(Merge.Merged(received)), Paths.Clean(configDir),
                                  DirPaths(Paths.Clean(configDir), listing.items))
    ensures r.Success? ==> r.value.Target() == Paths.Clean(configDir) && r.value.Target() != []
  {
    var loaded := Dir(fs, configDir, listing, received, compact);
    if loaded.Failure? {
      return loaded;
    }
    var conf := Config(DirectoryOrigin, loaded.value.data, Paths.Clean(configDir), loaded.value.files);
    return Success(conf);
  }

  /** `Data` (config.go:85-94): the inline data wrapped in braces and
      compacted, which is what merging it as the one fragment gives. */
  function Data(data: seq<byte>, compact: Compactor): (c: Config)
    ensures c.dataType == DataOrigin && c.directory == [] && c.files == []
    ensures c.data == compact(Merge.Merged([data]))
  {
    Merge.MergedSingle(data);
    Config(DataOrigin, compact([OpenBrace] + data + [CloseBrace]), [], [])
  }

  /** The loader with indexed slots: the fragments in file order and
      commas only between non-empty fragments. */
  method ReadFilesInOrder(fs: FileSystem, files: seq<seq<byte>>, compact: Compactor)
    returns (r: Result<seq<byte>>)
    ensures r.Success? <==> AllReadable(fs, files)
    ensures r.Failure? ==> r.error.ReadFailed? && r.error.path in files && r.error.path !in fs
    ensures r.Success? ==> r.value == compact(Merge.Separated(Formatted(fs, files)))
  {
    var fragments: seq<seq<byte>> := [];
    for i := 0 to |files|
      invariant AllReadable(fs, files[..i])
      invariant fragments == Formatted(fs, files[..i])
    {
      var content := Format(fs, files[i]);
      if content.Failure? {
        return Failure(content.error);
      }
      FormattedPrefix(fs, files, i);
      fragments := fragments + [content.value];
    }
    assert files[..|files|] == files;
    var buf := Merge.BuildSeparatedBuffer(fragments);
    return Success(compact(buf));
  }

  /** Adding a path at the end adds it to the visible ones unless it is
      hidden. */
  lemma VisibleSnoc(files: seq<seq<byte>>, p: seq<byte>)
    ensures Visible(files + [p]) == Visible(files) + (if Hidden(p) then [] else [p])
  {
    assert (files + [p])[..|files|] == files;
  }

  /** One more readable file adds its stripped contents at the end. */
  lemma FormattedPrefix(fs: FileSystem, files: seq<seq<byte>>, i: nat)
    requires i < |files| && AllReadable(fs, files[..i]) && files[i] in fs
    ensures AllReadable(fs, files[..i + 1])
    ensures Formatted(fs, files[..i + 1]) == Formatted(fs, files[..i]) + [Comments.Strip(fs[files[i]])]
  {
    assert files[..i + 1] == files[..i] + [files[i]];
  }

  /** One more path of the list: kept unless it is hidden. */
  lemma VisiblePrefix(files: seq<seq<byte>>, i: nat)
    requires i < |files|
    ensures Visible(files[..i + 1]) == Visible(files[..i]) + (if Hidden(files[i]) then [] else [files[i]])
  {
    assert files[..i + 1][..i] == files[..i];
  }

  /** loadFiles keeps each path that is not hidden exactly as often as it
      is listed, and no hidden path. */
  lemma {:induction false} VisibleCounts(files: seq<seq<byte>>)
    ensures forall p :: multiset(Visible(files))[p] == if Hidden(p) then 0 else multiset(files)[p]
    decreases |files|
  {
    if files != [] {
      var init := files[..|files| - 1];
      var last := files[|files| - 1];
      assert files == init + [last];
      VisibleCounts(init);
    }
  }

  /** loadFiles keeps the paths in their original relative order. */
  lemma {:induction false} VisibleInOrder(files: seq<seq<byte>>)
    ensures SubsequenceOf(Visible(files), files)
    decreases |files|
  {
    if files != [] {
      var init := files[..|files| - 1];
      VisibleInOrder(init);
      var v := Visible(files);
      if Hidden(files[|files| - 1]) {
        assert v == Visible(init);
        if v != [] {
          SubsequenceOfDropLast(v, files);
        }
      } else {
        assert v[..|v| - 1] == Visible(init);
      }
    }
  }

  /** If a is a subsequence of b without b's last element, it is one of b. */
  lemma SubsequenceOfDropLast(a: seq<seq<byte>>, b: seq<seq<byte>>)
    requires a != [] && b != []
    requires SubsequenceOf(a, b[..|b| - 1])
    ensures SubsequenceOf(a, b)
  {
  }

  /** A hidden path is never kept and a path that is not hidden always is. */
  lemma VisibleExactly(files: seq<seq<byte>>, p: seq<byte>)
    ensures p in Visible(files) <==> p in files && !Hidden(p)
  {
    VisibleCounts(files);
    assert p in Visible(files) <==> multiset(Visible(files))[p] > 0;
    assert p in files <==> multiset(files)[p] > 0;
  }

  /** The paths Dir builds all pass the filter of loadFiles again: the base
      of each is the listed name, which does not start with ignoreFirst. */
  lemma {:induction false} DirPathsVisible(directory: seq<byte>, entries: seq<DirEntry>)
    requires directory != []
    requires ListedNames(entries)
    ensures Visible(DirPaths(directory, entries)) == DirPaths(directory, entries)
    decreases |entries|
  {
    if entries != [] {
      var init := entries[..|entries| - 1];
      var last := entries[|entries| - 1];
      DirPathsVisible(directory, init);
      var before := DirPaths(directory, init);
      if KeptEntry(last) {
        var p := Paths.JoinPath(directory, last.name);
        assert DirPaths(directory, entries) == before + [p];
        KeptPathVisible(directory, last);
        VisibleSnoc(before, p);
      } else {
        assert DirPaths(directory, entries) == before;
      }
    }
  }

  /** Dir keeps exactly the non-directory entries whose names do not start
      with ignoreFirst, each joined onto the directory. */
  lemma {:induction false} DirPathsExactly(directory: seq<byte>, entries: seq<DirEntry>, p: seq<byte>)
    requires ListedNames(entries)
    ensures p in DirPaths(directory, entries)
            <==> exists i :: 0 <= i < |entries| && KeptEntry(entries[i])
                             && p == Paths.JoinPath(directory, entries[i].name)
    decreases |entries|
  {
    if entries != [] {
      var init := entries[..|entries| - 1];
      var last := entries[|entries| - 1];
      DirPathsExactly(directory, init, p);
      var joined := Paths.JoinPath(directory, last.name);
      assert DirPaths(directory, entries)
             == DirPaths(directory, init) + (if KeptEntry(last) then [joined] else []);
      if p in DirPaths(directory, entries) {
        if p in DirPaths(directory, init) {
          var i :| 0 <= i < |init| && KeptEntry(init[i]) && p == Paths.JoinPath(directory, init[i].name);
          assert entries[i] == init[i];
        } else {
          assert KeptEntry(entries[|entries| - 1]) && p == joined;
        }
      }
      if exists i :: 0 <= i < |entries| && KeptEntry(entries[i])
                     && p == Paths.JoinPath(directory, entries[i].name) {
        var i :| 0 <= i < |entries| && KeptEntry(entries[i])
                 && p == Paths.JoinPath(directory, entries[i].name);
        if i < |init| {
          assert init[i] == entries[i];
        }
      }
    }
  }

  /** A kept entry joined onto a directory is not hidden. */
  lemma KeptPathVisible(directory: seq<byte>, entry: DirEntry)
    requires directory != []
    requires EntryName(entry.name) && KeptEntry(entry)
    ensures !Hidden(Paths.JoinPath(directory, entry.name))
  {
    assert entry.name != [Dot] && entry.name != [Dot, Dot];
    Paths.BaseOfJoin(directory, entry.name);
  }

  /** Inline data that is empty gives the same bytes as a load of no
      files: the compaction of `{}`. */
  lemma EmptyDataIsNoFiles(compact: Compactor)
    ensures Data([], compact).data == compact(Merge.Merged([]))
    ensures Merge.Merged([]) == [OpenBrace, CloseBrace]
  {
    var lone: seq<seq<byte>> := [[]];
    assert lone[..0] == [];
    assert Merge.NonEmpty(lone) == [];
  }

  /** Two files, one holding `"a":1` and one holding only a comment, both
      readable and not hidden: one schedule of the goroutines gives the
      buffer `{"a":1,}`, which is not JSON, and the other gives `{"a":1}`. */
  lemma CompletionOrderWitness()
    ensures var fs: FileSystem := map[[97] := Merge.Member, [98] := [Hash, 32, 110]];
            var files: seq<seq<byte>> := [[97], [98]];
            var early: seq<seq<byte>> := [Merge.Member, []];
            var late: seq<seq<byte>> := [[], Merge.Member];
            Visible(files) == files && AllReadable(fs, files)
            && multiset(early) == multiset(Formatted(fs, files))
            && multiset(late) == multiset(Formatted(fs, files))
            && Merge.Merged(early) == [OpenBrace] + Merge.Member + [Comma, CloseBrace]
            && Merge.Merged(late) == [OpenBrace] + Merge.Member + [CloseBrace]
  {
    TwoPlainNamesKept();
    CommentOnlyFileIsEmpty();
    Merge.ReceiveOrderDecidesComma();
  }

  /** The files of the witness above are both kept. */
  lemma TwoPlainNamesKept()
    ensures Visible([[97], [98]]) == [[97], [98]]
  {
    var a: seq<byte> := [97];
    var b: seq<byte> := [98];
    assert Paths.Base(a) == a by {
      assert [] + a == a;
      Paths.BaseAfterSlash([], a);
    }
    assert Paths.Base(b) == b by {
      assert [] + b == b;
      Paths.BaseAfterSlash([], b);
    }
    VisibleSnoc([], a);
    VisibleSnoc([a], b);
    assert [a] + [b] == [a, b];
  }

  /** The second file of the witness above strips to nothing. */
  lemma CommentOnlyFileIsEmpty()
    ensures var fs: FileSystem := map[[97] := Merge.Member, [98] := [Hash, 32, 110]];
            AllReadable(fs, [[97], [98]]) && Formatted(fs, [[97], [98]]) == [Merge.Member, []]
  {
    var fs: FileSystem := map[[97] := Merge.Member, [98] := [Hash, 32, 110]];
    var comment: seq<byte> := [Hash, 32, 110];
    assert Comments.Strip(comment) == [] by {
      assert IndexOf(comment, Newline) == 3;
      assert comment[3..] == [];
    }
    Comments.StripWithoutComments(Merge.Member);
    assert fs[[97]] == Merge.Member && fs[[98]] == comment;
  }
}
