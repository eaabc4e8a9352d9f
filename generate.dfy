/**
 * The map-file producer of `conda_suggest/generate.py`: the executables an
 * artifact provides (paths under `bin/` or `Scripts/` and noarch entry
 * points), the per-artifact cache entries, and the rendering of a cache into
 * the sorted `exe:pkg` text of a map file.
 *
 * Reading archives and JSON is abstracted: an artifact's archive is given as
 * the lines of its `info/files` member and its parsed `info/link.json`.
 */
module Generate {
  import opened Results
  import Strings
  import Sorting
  import opened Entries

  /** Exceptions the generator lets escape. */
  datatype Error =
    | KeyError(member: string)  // a missing archive member
    | IndexError                 // the last line of an empty list

  // ---------------------------------------------------------------------------
  // Executables named by file paths: the first component under `bin/` or `Scripts/`
  // ---------------------------------------------------------------------------

  /** The directories whose direct entries are executables. */
  predicate HasExecutablePrefix(path: string)
  {
    Strings.StartsWith(path, "bin/") || Strings.StartsWith(path, "Scripts/")
  }

  /** Length of the `bin/` or `Scripts/` prefix that `re.match` consumes. */
  function PrefixLength(path: string): nat
    requires HasExecutablePrefix(path)
  {
    if Strings.StartsWith(path, "bin/") then 4 else 8
  }

  /**
   * The name `EXECUTABLE_RE` captures from a path: the match is anchored at
   * the start, and the group is the longest run of non-`/` characters after
   * the prefix.
   */
  function ExecutableName(path: string): (r: Option<string>)
    ensures r.Some? <==> HasExecutablePrefix(path)
    ensures r.Some? ==>
      var rest := path[PrefixLength(path)..];
      && '/' !in r.value
      && Strings.StartsWith(rest, r.value)
      && (|r.value| == |rest| || rest[|r.value|] == '/')
  {
    if HasExecutablePrefix(path) then
      var rest := path[PrefixLength(path)..];
      var r := rest[..Strings.IndexOf(rest, '/')];
      assert forall k :: 0 <= k < |r| ==> r[k] == rest[k];
      Some(r)
    else
      None
  }

  /** A path directly under `bin/` names its file. */
  lemma ExecutableNameOfBinFile()
    ensures ExecutableName("bin/python3") == Some("python3")
  {
    var path := "bin/python3";
    assert path[..4] == "bin/";
    assert PrefixLength(path) == 4;
    var rest := path[4..];
    assert rest == "python3";
    assert '/' !in rest;
    assert Strings.IndexOf(rest, '/') == 7;
    assert rest[..7] == rest;
  }

  /** A path in a sub-directory of `Scripts/` names that sub-directory. */
  lemma ExecutableNameOfSubdirectory()
    ensures ExecutableName("Scripts/lib/tool") == Some("lib")
  {
    var path := "Scripts/lib/tool";
    assert path[..4][0] != 'b';
    assert path[..8] == "Scripts/";
    assert PrefixLength(path) == 8;
    var rest := path[8..];
    assert rest == "lib/tool";
    assert rest[3] == '/' && '/' !in rest[..3];
    assert Strings.IndexOf(rest, '/') == 3;
    assert rest[..3] == "lib";
  }

  /** The match is anchored: a `bin/` further down the path does not count. */
  lemma ExecutableNameAnchored()
    ensures ExecutableName("lib/bin/tool") == None
  {
    var path := "lib/bin/tool";
    assert path[..4][0] != 'b';
    assert path[..8][0] != 'S';
  }

  /** The executables the paths of `info/files` name. */
  function FileExecutables(files: seq<string>): set<string>
  {
    set f | f in files && ExecutableName(f).Some? :: ExecutableName(f).value
  }

  /** No executable named by a path contains a `/`. */
  lemma FileExecutablesHaveNoSlash(files: seq<string>, x: string)
    requires x in FileExecutables(files)
    ensures '/' !in x
  {
  }

  /**
   * The loop over the lines of `info/files`: each matching path adds its
   * executable, the others are skipped.
   */
  method CollectExecutables(files: seq<string>) returns (executables: set<string>)
    ensures executables == FileExecutables(files)
  {
    executables := {};
    for i := 0 to |files|
      invariant executables == FileExecutables(files[..i])
    {
      var m := ExecutableName(files[i]);
      assert files[..i + 1] == files[..i] + [files[i]];
      if m.None? {
        continue;
      }
      executables := executables + {m.value};
    }
    assert files[..|files|] == files;
  }

  // ---------------------------------------------------------------------------
  // Entry points of noarch packages: _add_info_entrypoints
  // ---------------------------------------------------------------------------

  /**
   * The `info/link.json` member of an archive: missing, without a `noarch`
   * mapping, or with one whose `entry_points` list (empty when the key is
   * missing) is given.
   */
  datatype LinkJson = NoLinkJson | LinkJson(noarch: Option<seq<string>>)

  /** The command an entry point declares: its text before the first `=`, without surrounding whitespace. */
  function EntryPointName(point: string): (r: string)
    ensures '=' !in r
    ensures r == "" || (!Strings.IsSpace(r[0]) && !Strings.IsSpace(r[|r| - 1]))
    ensures '=' !in point ==> r == Strings.Strip(point)
  {
    var head := Strings.Partition(point, '=').0;
    var r := Strings.Strip(head);
    assert forall k :: 0 <= k < |r| ==> r[k] == head[Strings.LeadingSpace(head) + k];
    r
  }

  /** The command of `head=tail`, for a head without `=`, is the stripped head. */
  lemma EntryPointNameOf(head: string, tail: string)
    requires '=' !in head
    ensures EntryPointName(head + "=" + tail) == Strings.Strip(head)
  {
    assert head + "=" + tail == head + ['='] + tail;
    Strings.PartitionFirst(head, '=', tail);
  }

  /** `spam = mod:func` declares `spam`. */
  lemma EntryPointNameExample()
    ensures EntryPointName("spam = mod:func") == "spam"
  {
    var head := "spam ";
    assert "spam = mod:func" == head + "=" + " mod:func";
    assert '=' !in head;
    EntryPointNameOf(head, " mod:func");
    StripOfSpam();
  }

  /** Stripping removes the space after `spam`. */
  lemma StripOfSpam()
    ensures Strings.Strip("spam ") == "spam"
  {
    var head := "spam ";
    assert !Strings.IsSpace('s') && !Strings.IsSpace('m') && Strings.IsSpace(' ');
    assert Strings.LeadingSpace(head) == 0;
    assert head[..4] == "spam";
    assert Strings.TrailingSpaceStart("spam") == 4;
    assert Strings.TrailingSpaceStart(head) == 4;
  }

  /** The names the entry points of `link` provide. */
  function EntryPointNames(link: LinkJson): set<string>
  {
    match link
    case NoLinkJson => {}
    case LinkJson(None) => {}
    case LinkJson(Some(points)) => NamesOf(points)
  }

  /** `_add_info_entrypoints(executables, tf)`: add the entry-point names to `executables`. */
  method AddInfoEntrypoints(executables: set<string>, link: LinkJson) returns (result: set<string>)
    ensures result == executables + EntryPointNames(link)
  {
    if link.NoLinkJson? {
      return executables;
    }
    if link.noarch.None? {
      return executables;
    }
    var points := link.noarch.value;
    result := executables;
    for i := 0 to |points|
      invariant result == executables + NamesOf(points[..i])
    {
      NamesOfStep(points, i);
      result := result + {EntryPointName(points[i])};
    }
    assert points[..|points|] == points;
  }

  /** The names a list of entry points declares. */
  function NamesOf(points: seq<string>): set<string>
  {
    set p | p in points :: EntryPointName(p)
  }

  /** One more entry point adds its name. */
  lemma NamesOfStep(points: seq<string>, i: nat)
    requires i < |points|
    ensures NamesOf(points[..i + 1]) == NamesOf(points[..i]) + {EntryPointName(points[i])}
  {
    assert points[..i + 1] == points[..i] + [points[i]];
  }

  // ---------------------------------------------------------------------------
  // Cache entries: _add_artifact_to_cache
  // ---------------------------------------------------------------------------

  /** The `info/files` lines of an archive (`None` when the member is missing) and its `link.json`. */
  datatype Archive = Archive(files: Option<seq<string>>, link: LinkJson)

  /** The cached record of one artifact. */
  datatype CacheEntry = CacheEntry(package: string, executables: seq<string>)

  /** Only `.tar.bz2` artifacts are opened; the others are recorded without executables. */
  predicate IsBz2(artifact: string)
  {
    Strings.EndsWith(artifact, ".tar.bz2")
  }

  /** Artifacts named `*.tar.bz2` are opened, `*.conda` artifacts are not. */
  lemma IsBz2Artifacts(stem: string)
    ensures IsBz2(stem + ".tar.bz2")
    ensures !IsBz2(stem + ".conda")
  {
    Strings.EndsWithAppended(stem, ".tar.bz2");
    var s := stem + ".conda";
    if |s| >= 8 {
      assert s[|s| - 8..][7] == 'a' != ".tar.bz2"[7];
    }
  }

  /** Every executable an opened archive provides. */
  function ArtifactExecutables(files: seq<string>, link: LinkJson): set<string>
  {
    FileExecutables(files) + EntryPointNames(link)
  }

  /**
   * What the entry recorded for `artifact` of package `name` holds: the name
   * and, for a `.tar.bz2` artifact, `sorted` of its executables; no
   * executables otherwise.
   */
  predicate Describes(e: CacheEntry, name: string, artifact: string, archive: Archive)
  {
    && e.package == name
    && (if IsBz2(artifact) then
          && archive.files.Some?
          && Sorting.Increasing(e.executables, Strings.Less)
          && (forall x :: x in e.executables ==> x in ArtifactExecutables(archive.files.value, archive.link))
          && (forall x :: x in ArtifactExecutables(archive.files.value, archive.link) ==> x in e.executables)
        else e.executables == [])
  }

  /** An artifact has one entry: `sorted` of a set is determined by the set. */
  lemma DescribesUnique(e1: CacheEntry, e2: CacheEntry, name: string, artifact: string, archive: Archive)
    requires Describes(e1, name, artifact, archive) && Describes(e2, name, artifact, archive)
    ensures e1 == e2
  {
    if IsBz2(artifact) {
      StringLessIsStrictTotalOrder();
      Sorting.IncreasingUnique(e1.executables, e2.executables, Strings.Less);
    }
  }

  /**
   * The entry `_add_artifact_to_cache` builds, or the `KeyError` of an opened
   * archive without `info/files`.
   */
  method BuildArtifactEntry(name: string, artifact: string, archive: Archive) returns (r: Result<CacheEntry, Error>)
    ensures r.Err? <==> IsBz2(artifact) && archive.files.None?
    ensures r.Err? ==> r.error == KeyError("info/files")
    ensures r.Ok? ==> Describes(r.value, name, artifact, archive)
  {
    if !IsBz2(artifact) {
      return Ok(CacheEntry(name, []));
    }
    if archive.files.None? {
      return Err(KeyError("info/files"));
    }
    var executables := CollectExecutables(archive.files.value);
    executables := AddInfoEntrypoints(executables, archive.link);
    StringLessIsStrictTotalOrder();
    var sorted := Sorting.SortSet(executables, Strings.Less);
    r := Ok(CacheEntry(name, sorted));
  }

  /** The dictionary the generator fills: for each artifact, its package name and executables. */
  class ArtifactCache {
    var entries: map<string, CacheEntry>

    constructor ()
      ensures entries == map[]
    {
      entries := map[];
    }

    /**
     * `_add_artifact_to_cache`: record
     * the artifact's entry under its name; when the archive raises, the
     * cache is left as it was.
     */
    method AddArtifact(name: string, artifact: string, archive: Archive) returns (r: Result<CacheEntry, Error>)
      modifies this
      ensures r.Err? <==> IsBz2(artifact) && archive.files.None?
      ensures r.Err? ==> entries == old(entries)
      ensures r.Ok? ==> Describes(r.value, name, artifact, archive) && entries == old(entries)[artifact := r.value]
    {
      r := BuildArtifactEntry(name, artifact, archive);
      if r.Ok? {
        entries := entries[artifact := r.value];
      }
    }
  }

  // ---------------------------------------------------------------------------
  // The map file: generate_map
  // ---------------------------------------------------------------------------

  /** `_get_channel_name(channel)`: the last path component of a channel URL. */
  function GetChannelName(channel: string): (r: string)
    ensures '/' !in r
    ensures '/' !in channel ==> r == channel
  {
    if '/' in channel then Strings.AfterLast(channel, '/')
    else Strings.AfterLastNoSeparator(channel, '/'); Strings.AfterLast(channel, '/')
  }

  /** The channel name does not depend on the URL before the last `/`. */
  lemma GetChannelNameOfUrl(base: string, name: string)
    requires '/' !in name
    ensures GetChannelName(base + "/" + name) == name
  {
    assert base + "/" + name == base + ['/'] + name;
    Strings.AfterLastPastSeparator(base, '/', name);
  }

  /** The name the generator gives a map file: channel name, subdir and `.map`, joined by dots. */
  function MapFileName(channel: string, subdir: string): (r: string)
    ensures Strings.EndsWith(r, ".map")
  {
    Strings.EndsWithAppended(GetChannelName(channel) + "." + subdir, ".map");
    GetChannelName(channel) + "." + subdir + ".map"
  }

  /** Some artifact of the cache lists `e.exe` among the executables of package `e.pkg`. */
  predicate Provided(cache: map<string, CacheEntry>, e: Entry)
  {
    exists k :: k in cache && e.pkg == cache[k].package && e.exe in cache[k].executables
  }

  /** The pairs one cache entry adds: each of its executables with its package. */
  function EntryPairs(v: CacheEntry): (r: set<Entry>)
    ensures v.executables == [] ==> r == {}
  {
    set x | x in v.executables :: Entry(x, v.package)
  }

  /**
   * A removal expression is a predicate on executable names (the regular
   * expression engine is not modelled); a pair is removed when any
   * expression matches its executable.
   */
  predicate Removed(exe: string, exprs: seq<string -> bool>)
  {
    exists i :: 0 <= i < |exprs| && exprs[i](exe)
  }

  /** The pairs that survive the removal expressions, in their order. */
  function Kept(s: seq<Entry>, exprs: seq<string -> bool>): (r: seq<Entry>)
    ensures |r| <= |s|
    ensures forall e :: e in r <==> e in s && !Removed(e.exe, exprs)
  {
    if |s| == 0 then []
    else if Removed(s[0].exe, exprs) then Kept(s[1..], exprs)
    else [s[0]] + Kept(s[1..], exprs)
  }

  /** Removing pairs keeps the survivors in order: an increasing list stays increasing. */
  lemma {:induction false} KeptIncreasing(s: seq<Entry>, exprs: seq<string -> bool>)
    requires Sorting.Increasing(s, Less)
    ensures Sorting.Increasing(Kept(s, exprs), Less)
  {
    if |s| > 0 {
      KeptIncreasing(s[1..], exprs);
      var tail := Kept(s[1..], exprs);
      assert forall k :: 0 <= k < |tail| ==> tail[k] in s[1..];
      assert forall y :: y in s[1..] ==> Less(s[0], y);
    }
  }

  /** Each pair as a line of its executable and package separated by `:`. */
  function Render(lines: seq<Entry>): (r: seq<string>)
    ensures |r| == |lines|
    ensures forall i :: 0 <= i < |lines| ==> r[i] == lines[i].exe + ":" + lines[i].pkg
  {
    if |lines| == 0 then [] else [lines[0].exe + ":" + lines[0].pkg] + Render(lines[1..])
  }

  /** The lines with a newline appended to the last one. */
  function TerminateLast(lines: seq<string>): (r: seq<string>)
    requires |lines| > 0
    ensures |r| == |lines|
    ensures forall i :: 0 <= i < |lines| - 1 ==> r[i] == lines[i]
    ensures r[|r| - 1] == lines[|lines| - 1] + "\n"
  {
    lines[..|lines| - 1] + [lines[|lines| - 1] + "\n"]
  }

  /** Joining with `"\n"` after terminating the last line terminates every line. */
  lemma {:induction false} JoinTerminateLast(lines: seq<string>)
    requires |lines| > 0
    ensures Strings.Join(TerminateLast(lines), "\n") == Strings.Terminated(lines)
  {
    if |lines| == 1 {
      assert TerminateLast(lines) == [lines[0] + "\n"];
    } else {
      var t := TerminateLast(lines);
      assert t[0] == lines[0];
      assert t[1..] == TerminateLast(lines[1..]);
      JoinTerminateLast(lines[1..]);
    }
  }

  /**
   * The text of a map file, with the empty list giving the empty text: every
   * line followed by one newline.
   */
  function MapText(lines: seq<string>): (text: string)
    ensures text == Strings.Terminated(lines)
  {
    if |lines| == 0 then ""
    else
      JoinTerminateLast(lines);
      Strings.Join(TerminateLast(lines), "\n")
  }

  /** The text as written: terminate the last line, then join with newlines; no lines raise. */
  function MapTextAsWritten(lines: seq<string>): (r: Result<string, Error>)
    ensures r.Err? <==> lines == []
    ensures r.Err? ==> r.error == IndexError
    ensures r.Ok? ==> r.value == Strings.Terminated(lines)
  {
    if |lines| == 0 then Err(IndexError)
    else
      JoinTerminateLast(lines);
      Ok(Strings.Join(TerminateLast(lines), "\n"))
  }

  /**
   * The text as written agrees with `MapText` except on no lines, where it
   * raises `IndexError` instead of giving the empty text.
   */
  lemma MapTextAsWrittenDiffers(lines: seq<string>)
    ensures MapTextAsWritten(lines).Err? <==> lines == []
    ensures lines != [] ==> MapTextAsWritten(lines) == Ok(MapText(lines))
    ensures MapText([]) == ""
  {
  }

  /**
   * When every executable of the cache is removed, or there are none, the
   * pairs `GenerateMap` promises are none: the text as written raises
   * `IndexError`, where the intended text is empty.
   */
  lemma NothingKeptRaisesAsWritten(cache: map<string, CacheEntry>, removeExprs: seq<string -> bool>, lines: seq<Entry>)
    requires forall k :: k in cache ==> forall x :: x in cache[k].executables ==> Removed(x, removeExprs)
    requires forall e :: e in lines <==> Provided(cache, e) && !Removed(e.exe, removeExprs)
    ensures lines == []
    ensures MapTextAsWritten(Render(lines)) == Err(IndexError)
    ensures MapText(Render(lines)) == ""
  {
    forall e | Provided(cache, e)
      ensures Removed(e.exe, removeExprs)
    {
      var k :| k in cache && e.pkg == cache[k].package && e.exe in cache[k].executables;
    }
    NonEmptyHasFirst(lines);
  }

  /** A non-empty list holds its first element. */
  lemma NonEmptyHasFirst(s: seq<Entry>)
    ensures |s| > 0 ==> s[0] in s
  {
  }

  /** A cache whose artifacts have no executables, as `zict` in the tests, gives no pairs. */
  lemma NoExecutablesNoPairs(cache: map<string, CacheEntry>, removeExprs: seq<string -> bool>, lines: seq<Entry>)
    requires forall k :: k in cache ==> cache[k].executables == []
    requires forall e :: e in lines <==> Provided(cache, e) && !Removed(e.exe, removeExprs)
    ensures lines == []
    ensures MapTextAsWritten(Render(lines)) == Err(IndexError)
  {
    NothingKeptRaisesAsWritten(cache, removeExprs, lines);
  }

  /**
   * `generate_map(cache, channel, subdir)` with removal expressions: the
   * name of the map file, its pairs (the distinct pairs of the cache that
   * are not removed, in increasing order) and its text.
   */
  method GenerateMap(cache: map<string, CacheEntry>, channel: string, subdir: string, removeExprs: seq<string -> bool>)
    returns (mapfile: string, lines: seq<Entry>, text: string)
    ensures mapfile == MapFileName(channel, subdir)
    ensures Sorting.Increasing(lines, Less)
    ensures forall e :: e in lines <==> Provided(cache, e) && !Removed(e.exe, removeExprs)
    ensures text == Strings.Terminated(Render(lines))
    ensures text == "" <==> lines == []
  {
    var pairs := CollectPairs(cache);
    LessIsStrictTotalOrder();
    var sorted := Sorting.SortSet(pairs, Less);
    lines := Kept(sorted, removeExprs);
    KeptIncreasing(sorted, removeExprs);
    text := MapText(Render(lines));
    mapfile := MapFileName(channel, subdir);
    TerminatedEmpty(Render(lines));
  }

  /** The loop over the cache's artifacts: the set of every pair some artifact provides. */
  method CollectPairs(cache: map<string, CacheEntry>) returns (pairs: set<Entry>)
    ensures forall e :: e in pairs <==> Provided(cache, e)
  {
    pairs := {};
    var todo := cache.Keys;
    while todo != {}
      invariant todo <= cache.Keys
      invariant forall e :: e in pairs <==>
        exists k :: k in cache.Keys - todo && e.pkg == cache[k].package && e.exe in cache[k].executables
      decreases todo
    {
      var k :| k in todo;
      pairs := pairs + EntryPairs(cache[k]);
      todo := todo - {k};
    }
  }

  /** Terminated lines make the empty text exactly when there are none. */
  lemma TerminatedEmpty(lines: seq<string>)
    ensures Strings.Terminated(lines) == "" <==> lines == []
  {
    if lines != [] {
      assert |Strings.Terminated(lines)| >= |lines[0] + "\n"|;
    }
  }
}
