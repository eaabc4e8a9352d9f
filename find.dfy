/**
 * The query engine of `conda_suggest/find.py`: a map file parsed into sorted
 * `(exe, pkg)` entries, exact lookup by two binary searches with sentinel
 * keys and a fallback to `.exe` and `.bat` names on Windows subdirs, the
 * process-wide cache of parsed map files, and lookup across map files.
 *
 * Reading a file is a lookup in a `FileSystem` value and `glob.glob` is the
 * list of file names the caller passes in.
 */
module Find {
  import opened Results
  import Strings
  import opened Entries

  /** Opening a map file that cannot be read raises; the error is not caught. */
  datatype Error = FileReadError(path: string)

  /** The readable files and their text, by path. */
  type FileSystem = map<string, string>

  /** A parsed map file `<channel>.<subdir>.map`. Its fields never change after loading. */
  datatype MapFile = MapFile(filename: string, channel: string, subdir: string, entries: seq<Entry>)

  /** A fully qualified answer: which channel and subdir have a package providing an executable. */
  datatype LookupResult = LookupResult(channel: string, subdir: string, exe: string, pkg: string)

  // ---------------------------------------------------------------------------
  // Loading a map file
  // ---------------------------------------------------------------------------

  /** One line, split at its first `:`; a line without `:` has the empty package. */
  function ParseLine(line: string): (e: Entry)
    ensures ':' !in e.exe
    ensures ':' !in line ==> e == Entry(line, "")
  {
    var (exe, pkg) := Strings.Partition(line, ':');
    Entry(exe, pkg)
  }

  /** A line with a `:` is its executable, the `:` and its package. */
  lemma ParseLineSplits(line: string)
    requires ':' in line
    ensures line == ParseLine(line).exe + ":" + ParseLine(line).pkg
  {
    Strings.PartitionSplits(line, ':');
  }

  /** All lines, one entry per line, in file order. */
  function ParseLines(lines: seq<string>): (entries: seq<Entry>)
    ensures |entries| == |lines|
    ensures forall i :: 0 <= i < |lines| ==> entries[i] == ParseLine(lines[i])
  {
    if |lines| == 0 then [] else [ParseLine(lines[0])] + ParseLines(lines[1..])
  }

  /** `os.path.basename` on POSIX paths. */
  function Basename(path: string): string
  {
    Strings.AfterLast(path, '/')
  }

  /** The base name holds no `/`; a path without `/` is its own base name. */
  lemma BasenameHasNoSlash(path: string)
    ensures '/' !in Basename(path) && |Basename(path)| <= |path|
    ensures '/' !in path ==> Basename(path) == path
  {
    if '/' !in path {
      Strings.AfterLastNoSeparator(path, '/');
    }
  }

  /**
   * The channel is the base name up to its first `.`; the subdir is the rest
   * with its last four characters (`.map`) cut off.
   */
  function ParseFileName(filename: string): (string, string)
  {
    var (channel, rest) := Strings.Partition(Basename(filename), '.');
    (channel, if |rest| >= 4 then rest[..|rest| - 4] else "")
  }

  /** The channel holds no `.`; a base name without `.` is all channel, with the empty subdir. */
  lemma ParseFileNameChannel(filename: string)
    ensures '.' !in ParseFileName(filename).0
    ensures '.' !in Basename(filename) ==> ParseFileName(filename) == (Basename(filename), "")
  {
  }

  /** The base name of a path is its last component, whatever the directory. */
  lemma BasenameOfPath(dir: string, name: string)
    requires '/' !in name
    ensures Basename(dir + "/" + name) == name && Basename(name) == name
  {
    assert dir + "/" + name == dir + ['/'] + name;
    Strings.AfterLastPastSeparator(dir, '/', name);
    Strings.AfterLastNoSeparator(name, '/');
  }

  /** A map file named `<channel>.<subdir>.map`, in any directory, gives back its channel and subdir. */
  lemma ParseFileNameRoundTrip(dir: string, channel: string, subdir: string)
    requires '.' !in channel && '/' !in channel && '/' !in subdir
    ensures ParseFileName(dir + "/" + channel + "." + subdir + ".map") == (channel, subdir)
    ensures ParseFileName(channel + "." + subdir + ".map") == (channel, subdir)
  {
    var rest := subdir + ".map";
    var name := channel + ['.'] + rest;
    assert channel + "." + subdir + ".map" == name;
    assert dir + "/" + channel + "." + subdir + ".map" == dir + "/" + name;
    assert '/' !in rest;
    BasenameOfPath(dir, name);
    Strings.PartitionFirst(channel, '.', rest);
    assert rest[..|rest| - 4] == subdir;
  }

  /** The cached object for `filename` was built from that name. */
  predicate LoadedFrom(m: MapFile, filename: string)
  {
    m.filename == filename && (m.channel, m.subdir) == ParseFileName(filename)
  }

  /** `Mapfile(filename)`: read the file, then parse its name and its lines. */
  function Load(filename: string, fs: FileSystem): (r: Result<MapFile, Error>)
    ensures r.Err? <==> filename !in fs
    ensures r.Err? ==> r.error == FileReadError(filename)
    ensures r.Ok? ==> LoadedFrom(r.value, filename)
    ensures r.Ok? ==> |r.value.entries| == |Strings.SplitLines(fs[filename])|
  {
    if filename in fs then
      var (channel, subdir) := ParseFileName(filename);
      Ok(MapFile(filename, channel, subdir, ParseLines(Strings.SplitLines(fs[filename]))))
    else
      Err(FileReadError(filename))
  }

  // ---------------------------------------------------------------------------
  // Sentinels
  // ---------------------------------------------------------------------------

  /** The low key package: sorts at or below every package that starts with a space or a later character. */
  const LowSentinel: string := " "
  /** The high key package: sorts at or above every package that starts below `~`. */
  const HighSentinel: string := "~"

  /** The packages the two sentinel keys bracket. */
  predicate InSentinelRange(pkg: string)
  {
    Strings.LessEq(LowSentinel, pkg) && Strings.LessEq(pkg, HighSentinel)
  }

  /** A package is at or above the space sentinel exactly when it starts with a space or a later character. */
  lemma LowSentinelBelow(pkg: string)
    ensures Strings.LessEq(LowSentinel, pkg) <==> |pkg| > 0 && ' ' <= pkg[0]
  {
    assert LowSentinel[0] == ' ' && LowSentinel[1..] == "";
    if |pkg| > 1 && pkg[0] == ' ' {
      assert Strings.Less("", pkg[1..]);
    }
  }

  /** A package is at or below the tilde sentinel exactly when it is empty, starts below `~`, or is `~`. */
  lemma HighSentinelAbove(pkg: string)
    ensures Strings.LessEq(pkg, HighSentinel) <==> |pkg| == 0 || pkg[0] < '~' || pkg == "~"
  {
    assert HighSentinel[0] == '~' && HighSentinel[1..] == "";
    if |pkg| > 1 && pkg[0] == '~' {
      assert pkg != HighSentinel;
      assert !Strings.Less(pkg[1..], "");
    }
    if |pkg| == 1 && pkg[0] == '~' {
      assert pkg == HighSentinel;
    }
  }

  /**
   * A package lies between the sentinels exactly when it is non-empty and
   * starts with a character from space up to `}`, or is `~` itself. The
   * empty package of a line without `:` does not.
   */
  lemma SentinelRangeCharacterised(pkg: string)
    ensures InSentinelRange(pkg) <==> |pkg| > 0 && ' ' <= pkg[0] && (pkg[0] < '~' || pkg == "~")
  {
    LowSentinelBelow(pkg);
    HighSentinelAbove(pkg);
  }

  /** Every package sorts at or above the low key package. */
  predicate AboveLowSentinel(entries: seq<Entry>)
  {
    forall i :: 0 <= i < |entries| ==> Strings.LessEq(LowSentinel, entries[i].pkg)
  }

  /** The map files' content the exact lookup is correct for. */
  predicate WellFormed(entries: seq<Entry>)
  {
    Sorted(entries) && forall i :: 0 <= i < |entries| ==> InSentinelRange(entries[i].pkg)
  }

  // ---------------------------------------------------------------------------
  // Binary searches (Python's bisect module)
  // ---------------------------------------------------------------------------

  /** `bisect_left(a, key)`: the first index whose entry is not below `key`. */
  method BisectLeft(a: seq<Entry>, key: Entry) returns (lo: nat)
    ensures lo <= |a|
    ensures Sorted(a) ==> forall i :: 0 <= i < lo ==> Less(a[i], key)
    ensures Sorted(a) ==> forall i :: lo <= i < |a| ==> !Less(a[i], key)
  {
    lo := 0;
    var hi := |a|;
    while lo < hi
      invariant 0 <= lo <= hi <= |a|
      invariant Sorted(a) ==> forall i :: 0 <= i < lo ==> Less(a[i], key)
      invariant Sorted(a) ==> forall i :: hi <= i < |a| ==> !Less(a[i], key)
      decreases hi - lo
    {
      var mid := (lo + hi) / 2;
      if Less(a[mid], key) {
        forall i | Sorted(a) && 0 <= i <= mid
          ensures Less(a[i], key)
        {
          LessEqLessTransitive(a[i], a[mid], key);
        }
        lo := mid + 1;
      } else {
        forall i | Sorted(a) && mid <= i < |a|
          ensures !Less(a[i], key)
        {
          if Less(a[i], key) {
            LessEqLessTransitive(a[mid], a[i], key);
          }
        }
        hi := mid;
      }
    }
  }

  /** `bisect_right(a, key, lo=start)`: the first index from `start` whose entry is above `key`. */
  method BisectRight(a: seq<Entry>, key: Entry, start: nat) returns (lo: nat)
    requires start <= |a|
    ensures start <= lo <= |a|
    ensures Sorted(a) ==> forall i :: start <= i < lo ==> !Less(key, a[i])
    ensures Sorted(a) ==> forall i :: lo <= i < |a| ==> Less(key, a[i])
  {
    lo := start;
    var hi := |a|;
    while lo < hi
      invariant start <= lo <= hi <= |a|
      invariant Sorted(a) ==> forall i :: start <= i < lo ==> !Less(key, a[i])
      invariant Sorted(a) ==> forall i :: hi <= i < |a| ==> Less(key, a[i])
      decreases hi - lo
    {
      var mid := (lo + hi) / 2;
      if Less(key, a[mid]) {
        forall i | Sorted(a) && mid <= i < |a|
          ensures Less(key, a[i])
        {
          LessLessEqTransitive(key, a[mid], a[i]);
        }
        hi := mid;
      } else {
        forall i | Sorted(a) && start <= i <= mid
          ensures !Less(key, a[i])
        {
          if Less(key, a[i]) {
            LessLessEqTransitive(key, a[i], a[mid]);
          }
        }
        lo := mid + 1;
      }
    }
  }

  /**
   * The two boundary searches of `Mapfile.exact_find`: `left` from the key
   * `(exe, " ")`, the found test on `entries[left]`, and `right` from the key
   * `(exe, "~")` searched from `left`. In a sorted file the slice holds only
   * `exe`; when no package sorts below the low key as well, `exe` is found
   * exactly when it is present; in a well-formed file the slice holds every
   * entry for `exe`.
   */
  method Bounds(a: seq<Entry>, exe: string) returns (found: bool, left: nat, right: nat)
    ensures left <= right <= |a|
    ensures found <==> left < |a| && a[left].exe == exe
    ensures !found ==> right == left
    ensures Sorted(a) ==> forall i :: left <= i < right ==> a[i].exe == exe
    ensures Sorted(a) && AboveLowSentinel(a) ==> (found <==> exists i :: 0 <= i < |a| && a[i].exe == exe)
    ensures WellFormed(a) && found ==> forall i :: 0 <= i < |a| ==> (a[i].exe == exe <==> left <= i < right)
  {
    var low, high := Entry(exe, LowSentinel), Entry(exe, HighSentinel);
    left := BisectLeft(a, low);
    found := left < |a| && a[left].exe == exe;
    if found {
      right := BisectRight(a, high, left);
    } else {
      right := left;
    }
    forall i | Sorted(a) && left <= i < right
      ensures a[i].exe == exe
    {
      LessTotal(low, a[i]);
      LessTotal(a[i], high);
      BetweenSameName(low, a[i], high);
    }
    forall i | Sorted(a) && AboveLowSentinel(a) && 0 <= i < |a| && a[i].exe == exe
      ensures left <= i
    {
      Strings.LessIrreflexive(exe);
      Strings.LessEqNotLess(LowSentinel, a[i].pkg);
      assert !Less(a[i], low);
    }
    forall i | WellFormed(a) && found && 0 <= i < |a| && a[i].exe == exe
      ensures i < right
    {
      Strings.LessIrreflexive(exe);
      Strings.LessEqNotLess(a[i].pkg, HighSentinel);
      assert !Less(high, a[i]);
    }
    if Sorted(a) && AboveLowSentinel(a) && !found && left < |a| {
      forall i | 0 <= i < |a| && a[i].exe == exe
        ensures false
      {
        assert LessEq(low, a[left]) by { LessTotal(low, a[left]); }
        assert LessEq(a[left], a[i]);
        BetweenSameName(low, a[left], a[i]);
      }
    }
  }

  // ---------------------------------------------------------------------------
  // Exact lookup in one map file
  // ---------------------------------------------------------------------------

  predicate HasWindowsSuffix(exe: string)
  {
    Strings.EndsWith(exe, ".exe") || Strings.EndsWith(exe, ".bat")
  }

  /** The guard of the extension fallback. */
  predicate WindowsFallback(subdir: string, exe: string)
  {
    Strings.StartsWith(subdir, "win") && !HasWindowsSuffix(exe)
  }

  /** The entries of a map file whose executable is `exe`. */
  function Providers(entries: seq<Entry>, exe: string): set<Entry>
  {
    set e | e in entries && e.exe == exe
  }

  /**
   * What `Mapfile.exact_find` promises: the providers of `exe` if there are
   * any; otherwise, on a Windows subdir and for a name without extension,
   * the providers of `exe.exe` and of `exe.bat`; otherwise nothing.
   */
  function ExactFindSpec(subdir: string, entries: seq<Entry>, exe: string): set<Entry>
  {
    if Providers(entries, exe) != {} then Providers(entries, exe)
    else if WindowsFallback(subdir, exe) then Providers(entries, exe + ".exe") + Providers(entries, exe + ".bat")
    else {}
  }

  /** The executable names a lookup of `exe` may answer with. */
  function Candidates(subdir: string, exe: string): set<string>
  {
    if WindowsFallback(subdir, exe) then {exe, exe + ".exe", exe + ".bat"} else {exe}
  }

  /** A suffixed name fails the fallback guard, so the fallback recurses once. */
  lemma SuffixedNamesStop(subdir: string, exe: string)
    ensures !WindowsFallback(subdir, exe + ".exe") && !WindowsFallback(subdir, exe + ".bat")
  {
    Strings.EndsWithAppended(exe, ".exe");
    Strings.EndsWithAppended(exe, ".bat");
  }

  /** On a Windows subdir, looking up a missing `foo` is looking up `foo.exe` and `foo.bat`. */
  lemma WindowsFallbackIsUnion(subdir: string, entries: seq<Entry>, exe: string)
    requires Providers(entries, exe) == {} && WindowsFallback(subdir, exe)
    ensures ExactFindSpec(subdir, entries, exe)
            == ExactFindSpec(subdir, entries, exe + ".exe") + ExactFindSpec(subdir, entries, exe + ".bat")
  {
    SuffixedNamesStop(subdir, exe);
  }

  /** Absence is an empty answer, never an error, when the fallback does not apply. */
  lemma AbsentIsEmpty(subdir: string, entries: seq<Entry>, exe: string)
    requires Providers(entries, exe) == {}
    requires !Strings.StartsWith(subdir, "win") || HasWindowsSuffix(exe)
    ensures ExactFindSpec(subdir, entries, exe) == {}
  {
  }

  /** Every answer is an entry of the file with one of the candidate names. */
  lemma ExactFindSpecSound(subdir: string, entries: seq<Entry>, exe: string)
    ensures forall e :: e in ExactFindSpec(subdir, entries, exe) ==> e in entries && e.exe in Candidates(subdir, exe)
    ensures !WindowsFallback(subdir, exe) ==> ExactFindSpec(subdir, entries, exe) == Providers(entries, exe)
  {
  }

  /**
   * `Mapfile.exact_find(exe)`, returning a set on every path. Its answers are
   * always entries of the file; in a sorted file they carry a candidate name;
   * in a well-formed file they are exactly `ExactFindSpec`.
   */
  method ExactFind(m: MapFile, exe: string) returns (r: set<Entry>)
    ensures forall e :: e in r ==> e in m.entries
    ensures Sorted(m.entries) ==> forall e :: e in r ==> e.exe in Candidates(m.subdir, exe)
    ensures WellFormed(m.entries) ==> r == ExactFindSpec(m.subdir, m.entries, exe)
    decreases if HasWindowsSuffix(exe) then 0 else 1
  {
    var found, left, right := Bounds(m.entries, exe);
    if !found {
      if WindowsFallback(m.subdir, exe) {
        SuffixedNamesStop(m.subdir, exe);
        var withExe := ExactFind(m, exe + ".exe");
        var withBat := ExactFind(m, exe + ".bat");
        r := withExe + withBat;
      } else {
        r := {};
      }
    } else {
      r := set i | left <= i < right :: m.entries[i];
      if WellFormed(m.entries) {
        forall e | e in Providers(m.entries, exe)
          ensures e in r
        {
          var i :| 0 <= i < |m.entries| && m.entries[i] == e;
          assert left <= i < right;
        }
        assert m.entries[left] in Providers(m.entries, exe);
      }
    }
  }

  // ---------------------------------------------------------------------------
  // The fallback as written
  // ---------------------------------------------------------------------------

  /** The Python values `Mapfile.exact_find` produces as written: a list slice, a set, or a raised TypeError. */
  datatype PyValue = PyList(items: seq<Entry>) | PySet(elems: set<Entry>) | PyTypeError

  /** Python's `a | b`: a union of two sets, and a TypeError when either side is a list. */
  function PyOr(a: PyValue, b: PyValue): (r: PyValue)
    ensures r.PyTypeError? <==> !a.PySet? || !b.PySet?
    ensures r.PySet? ==> forall e :: e in r.elems <==> e in a.elems || e in b.elems
  {
    if a.PySet? && b.PySet? then PySet(a.elems + b.elems) else PyTypeError
  }

  /** The entries for `exe` in file order: the slice a well-formed file gives. */
  function ProvidersInOrder(entries: seq<Entry>, exe: string): (r: seq<Entry>)
    ensures forall e :: e in r <==> e in Providers(entries, exe)
  {
    if |entries| == 0 then []
    else (if entries[0].exe == exe then [entries[0]] else []) + ProvidersInOrder(entries[1..], exe)
  }

  /**
   * The value `Mapfile.exact_find` returns as written, on a well-formed file,
   * where the two searches find exactly the providers: a found name gives
   * the list of its entries, a missing name gives the empty set, and the
   * fallback combines the lookups of the two suffixed names with the
   * set-union operator.
   */
  function AsWrittenAnswer(subdir: string, entries: seq<Entry>, exe: string): (r: PyValue)
    ensures r.PyList? <==> Providers(entries, exe) != {}
    ensures r.PyList? ==> forall e :: e in r.items <==> e in Providers(entries, exe)
    ensures r.PySet? ==> r.elems == {}
    ensures r.PyTypeError? ==> WindowsFallback(subdir, exe)
    decreases if HasWindowsSuffix(exe) then 0 else 1
  {
    if Providers(entries, exe) != {} then PyList(ProvidersInOrder(entries, exe))
    else if WindowsFallback(subdir, exe) then
      SuffixedNamesStop(subdir, exe);
      PyOr(AsWrittenAnswer(subdir, entries, exe + ".exe"), AsWrittenAnswer(subdir, entries, exe + ".bat"))
    else PySet({})
  }

  /**
   * `Mapfile.exact_find(exe)` as written, with the two searches run on any
   * file: a found name gives the list slice `entries[left..right]`, a
   * missing name the empty set, and the fallback the set-union operator on
   * the lookups of the two suffixed names. On a well-formed file it is
   * `AsWrittenAnswer`.
   */
  method ExactFindAsWritten(subdir: string, entries: seq<Entry>, exe: string) returns (r: PyValue)
    ensures r.PyList? ==> forall e :: e in r.items ==> e in entries
    ensures r.PyList? && Sorted(entries) ==> forall e :: e in r.items ==> e.exe == exe
    ensures Sorted(entries) && AboveLowSentinel(entries) ==> (r.PyList? <==> Providers(entries, exe) != {})
    ensures r.PySet? ==> r.elems == {}
    ensures r.PyTypeError? ==> WindowsFallback(subdir, exe)
    ensures WellFormed(entries) ==> r == AsWrittenAnswer(subdir, entries, exe)
    decreases if HasWindowsSuffix(exe) then 0 else 1
  {
    var found, left, right := Bounds(entries, exe);
    if !found {
      if WindowsFallback(subdir, exe) {
        SuffixedNamesStop(subdir, exe);
        var withExe := ExactFindAsWritten(subdir, entries, exe + ".exe");
        var withBat := ExactFindAsWritten(subdir, entries, exe + ".bat");
        r := PyOr(withExe, withBat);
      } else {
        r := PySet({});
      }
    } else {
      r := PyList(entries[left..right]);
      assert entries[left] in Providers(entries, exe);
      if WellFormed(entries) {
        ProvidersInOrderSlice(entries, exe, left, right);
      }
    }
  }

  /** When the entries for `exe` are exactly those at `left..right`, they are that slice, in order. */
  lemma {:induction false} ProvidersInOrderSlice(entries: seq<Entry>, exe: string, left: nat, right: nat)
    requires left <= right <= |entries|
    requires forall i :: 0 <= i < |entries| ==> (entries[i].exe == exe <==> left <= i < right)
    ensures ProvidersInOrder(entries, exe) == entries[left..right]
    decreases |entries|
  {
    if |entries| > 0 {
      var tail := entries[1..];
      var l, r := if left > 0 then left - 1 else 0, if right > 0 then right - 1 else 0;
      forall i | 0 <= i < |tail|
        ensures tail[i].exe == exe <==> l <= i < r
      {
        assert tail[i] == entries[i + 1];
      }
      ProvidersInOrderSlice(tail, exe, l, r);
      if entries[0].exe == exe {
        assert entries[left..right] == [entries[0]] + tail[l..r];
      } else {
        assert entries[left..right] == tail[l..r];
      }
    }
  }

  /**
   * As written, the fallback raises TypeError exactly when it would have
   * found something: the `|` meets the list returned for a found name.
   */
  lemma FallbackAsWrittenRaises(subdir: string, entries: seq<Entry>, exe: string)
    requires Providers(entries, exe) == {} && WindowsFallback(subdir, exe)
    ensures AsWrittenAnswer(subdir, entries, exe) == PyTypeError <==> ExactFindSpec(subdir, entries, exe) != {}
  {
    SuffixedNamesStop(subdir, exe);
  }

  /** `foo` on `win-64` with only `foo.exe:foo` in the file: TypeError as written, `{foo.exe:foo}` intended. */
  lemma FallbackAsWrittenExample()
    ensures WellFormed([Entry("foo.exe", "foo")])
    ensures AsWrittenAnswer("win-64", [Entry("foo.exe", "foo")], "foo") == PyTypeError
    ensures ExactFindSpec("win-64", [Entry("foo.exe", "foo")], "foo") == {Entry("foo.exe", "foo")}
  {
    var entries := [Entry("foo.exe", "foo")];
    SentinelRangeCharacterised("foo");
    assert entries[0] in Providers(entries, "foo" + ".exe");
    FallbackAsWrittenRaises("win-64", entries, "foo");
  }

  // ---------------------------------------------------------------------------
  // Results tagged with their map file, and lookup across map files
  // ---------------------------------------------------------------------------

  /** Each found entry, qualified by the channel and subdir of the map file it came from. */
  function Tag(m: MapFile, found: set<Entry>): (r: set<LookupResult>)
    ensures forall x :: x in r <==> x.channel == m.channel && x.subdir == m.subdir && Entry(x.exe, x.pkg) in found
  {
    set e | e in found :: LookupResult(m.channel, m.subdir, e.exe, e.pkg)
  }

  /** What a lookup of `exe` in map file `m` promises. */
  function Expected(m: MapFile, exe: string): set<LookupResult>
  {
    Tag(m, ExactFindSpec(m.subdir, m.entries, exe))
  }

  /** The map file `get_mapfile` yields for `filename`: the cached one, else a fresh load. */
  function Resolve(files: map<string, MapFile>, fs: FileSystem, filename: string): Result<MapFile, Error>
  {
    if filename in files then Ok(files[filename]) else Load(filename, fs)
  }

  /** The cache only ever gains files, each loaded from its own name. */
  ghost predicate Grows(before: map<string, MapFile>, after: map<string, MapFile>, fs: FileSystem)
  {
    && (forall k :: k in before ==> k in after && after[k] == before[k])
    && (forall k :: k in after && k !in before ==> Load(k, fs) == Ok(after[k]))
  }

  /** Loading more files into the cache does not change what any name resolves to. */
  lemma ResolveStable(before: map<string, MapFile>, after: map<string, MapFile>, fs: FileSystem, filename: string)
    requires Grows(before, after, fs)
    ensures Resolve(after, fs, filename) == Resolve(before, fs, filename)
  {
  }

  /** One file's contribution to `exact_find(exe)`: its tagged answers, or its read error. */
  function Answer(files: map<string, MapFile>, fs: FileSystem, exe: string, filename: string)
    : (r: Result<set<LookupResult>, Error>)
    ensures r.Err? <==> Resolve(files, fs, filename).Err?
  {
    match Resolve(files, fs, filename)
    case Err(e) => Err(e)
    case Ok(m) => Ok(Expected(m, exe))
  }

  /** Loading more files into the cache does not change any file's answer. */
  lemma AnswerStable(before: map<string, MapFile>, after: map<string, MapFile>, fs: FileSystem, exe: string, filename: string)
    requires Grows(before, after, fs)
    ensures Answer(after, fs, exe, filename) == Answer(before, fs, exe, filename)
  {
    ResolveStable(before, after, fs, filename);
  }

  /**
   * Accumulating the first `n` answers with `|=` in list order: the union of
   * all of them, or the first error met.
   */
  function UnionPrefix(answers: seq<Result<set<LookupResult>, Error>>, n: nat): Result<set<LookupResult>, Error>
    requires n <= |answers|
  {
    if n == 0 then Ok({})
    else
      var init := UnionPrefix(answers, n - 1);
      if init.Err? then init
      else if answers[n - 1].Err? then answers[n - 1]
      else Ok(init.value + answers[n - 1].value)
  }

  /** One more successful answer joins the union. */
  lemma UnionPrefixStep(answers: seq<Result<set<LookupResult>, Error>>, n: nat)
    requires n < |answers|
    requires UnionPrefix(answers, n).Ok? && answers[n].Ok?
    ensures UnionPrefix(answers, n + 1) == Ok(UnionPrefix(answers, n).value + answers[n].value)
  {
  }

  /** All the answers accumulated. */
  function UnionAll(answers: seq<Result<set<LookupResult>, Error>>): Result<set<LookupResult>, Error>
  {
    UnionPrefix(answers, |answers|)
  }

  /** The accumulation fails exactly when one of the answers is an error. */
  lemma {:induction false} UnionPrefixFails(answers: seq<Result<set<LookupResult>, Error>>, n: nat)
    requires n <= |answers|
    ensures UnionPrefix(answers, n).Err? <==> exists i :: 0 <= i < n && answers[i].Err?
  {
    if n > 0 {
      UnionPrefixFails(answers, n - 1);
    }
  }

  /** A successful accumulation holds exactly what some answer holds. */
  lemma {:induction false} UnionPrefixMembers(answers: seq<Result<set<LookupResult>, Error>>, n: nat, x: LookupResult)
    requires n <= |answers|
    requires UnionPrefix(answers, n).Ok?
    ensures forall i :: 0 <= i < n ==> answers[i].Ok?
    ensures x in UnionPrefix(answers, n).value <==> exists i :: 0 <= i < n && x in answers[i].value
  {
    if n > 0 {
      UnionPrefixMembers(answers, n - 1, x);
    }
  }

  /** Once an answer has failed, the answers after it do not change the outcome. */
  lemma {:induction false} UnionPrefixErrorPersists(answers: seq<Result<set<LookupResult>, Error>>, k: nat, n: nat)
    requires k <= n <= |answers|
    requires UnionPrefix(answers, k).Err?
    ensures UnionPrefix(answers, n) == UnionPrefix(answers, k)
    decreases n - k
  {
    if k < n {
      UnionPrefixErrorPersists(answers, k, n - 1);
    }
  }

  /** The first failed answer is the outcome of the whole accumulation. */
  lemma FirstErrorDecides(answers: seq<Result<set<LookupResult>, Error>>, i: nat)
    requires i < |answers| && UnionPrefix(answers, i).Ok? && answers[i].Err?
    ensures UnionAll(answers) == answers[i]
  {
    UnionPrefixErrorPersists(answers, i + 1, |answers|);
  }

  /** Every file's contribution, in the order the files are listed. */
  function Answers(files: map<string, MapFile>, fs: FileSystem, exe: string, filenames: seq<string>)
    : (r: seq<Result<set<LookupResult>, Error>>)
    ensures |r| == |filenames|
  {
    if |filenames| == 0 then []
    else [Answer(files, fs, exe, filenames[0])] + Answers(files, fs, exe, filenames[1..])
  }

  /** The `i`-th contribution is the answer of the `i`-th file. */
  lemma {:induction false} AnswersAt(files: map<string, MapFile>, fs: FileSystem, exe: string, filenames: seq<string>, i: nat)
    requires i < |filenames|
    ensures Answers(files, fs, exe, filenames)[i] == Answer(files, fs, exe, filenames[i])
  {
    if i > 0 {
      AnswersAt(files, fs, exe, filenames[1..], i - 1);
    }
  }

  /** `exact_find` fails exactly when one of the files cannot be read. */
  lemma FindAllSpecFails(files: map<string, MapFile>, fs: FileSystem, exe: string, filenames: seq<string>)
    ensures FindAllSpec(files, fs, exe, filenames).Err? <==>
              exists i :: 0 <= i < |filenames| && Resolve(files, fs, filenames[i]).Err?
  {
    var answers := Answers(files, fs, exe, filenames);
    UnionPrefixFails(answers, |answers|);
    forall i | 0 <= i < |filenames|
      ensures answers[i].Err? <==> Resolve(files, fs, filenames[i]).Err?
    {
      AnswersAt(files, fs, exe, filenames, i);
    }
  }

  /**
   * A successful `exact_find` holds exactly the tagged answers of the files,
   * every one of which was readable.
   */
  lemma FindAllSpecUnion(files: map<string, MapFile>, fs: FileSystem, exe: string, filenames: seq<string>, x: LookupResult)
    requires FindAllSpec(files, fs, exe, filenames).Ok?
    ensures forall i :: 0 <= i < |filenames| ==> Resolve(files, fs, filenames[i]).Ok?
    ensures x in FindAllSpec(files, fs, exe, filenames).value <==>
              exists i :: 0 <= i < |filenames| && Resolve(files, fs, filenames[i]).Ok? &&
                          x in Expected(Resolve(files, fs, filenames[i]).value, exe)
  {
    var answers := Answers(files, fs, exe, filenames);
    UnionPrefixMembers(answers, |answers|, x);
    forall i | 0 <= i < |filenames|
      ensures answers[i] == Answer(files, fs, exe, filenames[i])
    {
      AnswersAt(files, fs, exe, filenames, i);
    }
  }

  /**
   * `exact_find(exe)` over the map files `filenames`: the union of the tagged
   * answers of every file, or the error of the first file that cannot be read.
   */
  function FindAllSpec(files: map<string, MapFile>, fs: FileSystem, exe: string, filenames: seq<string>)
    : Result<set<LookupResult>, Error>
  {
    UnionAll(Answers(files, fs, exe, filenames))
  }

  /** Every file the lookup goes through is well formed. */
  predicate AllWellFormed(files: map<string, MapFile>, fs: FileSystem, filenames: seq<string>)
  {
    forall i :: 0 <= i < |filenames| && Resolve(files, fs, filenames[i]).Ok? ==>
      WellFormed(Resolve(files, fs, filenames[i]).value.entries)
  }

  /** Two lists holding the same answers, in any order and number, accumulate alike. */
  lemma UnionAllSameAnswers(a1: seq<Result<set<LookupResult>, Error>>, a2: seq<Result<set<LookupResult>, Error>>)
    requires forall i :: 0 <= i < |a1| ==> a1[i] in a2
    requires forall j :: 0 <= j < |a2| ==> a2[j] in a1
    ensures UnionAll(a1).Ok? == UnionAll(a2).Ok?
    ensures UnionAll(a1).Ok? ==> UnionAll(a1).value == UnionAll(a2).value
  {
    UnionPrefixFails(a1, |a1|);
    UnionPrefixFails(a2, |a2|);
    if UnionAll(a1).Ok? && UnionAll(a2).Ok? {
      forall x
        ensures x in UnionAll(a1).value <==> x in UnionAll(a2).value
      {
        UnionPrefixMembers(a1, |a1|, x);
        UnionPrefixMembers(a2, |a2|, x);
      }
    }
  }

  /**
   * The answer across files does not depend on the order in which the files
   * are listed, nor on repetitions: only the set of names matters.
   */
  lemma FindAllOrderIndependent(files: map<string, MapFile>, fs: FileSystem, exe: string, names1: seq<string>, names2: seq<string>)
    requires forall f :: f in names1 <==> f in names2
    ensures FindAllSpec(files, fs, exe, names1).Ok? == FindAllSpec(files, fs, exe, names2).Ok?
    ensures FindAllSpec(files, fs, exe, names1).Ok? ==>
              FindAllSpec(files, fs, exe, names1).value == FindAllSpec(files, fs, exe, names2).value
  {
    var a1, a2 := Answers(files, fs, exe, names1), Answers(files, fs, exe, names2);
    forall i | 0 <= i < |a1|
      ensures a1[i] in a2
    {
      assert names1[i] in names2;
      var j :| 0 <= j < |names2| && names2[j] == names1[i];
      AnswersAt(files, fs, exe, names1, i);
      AnswersAt(files, fs, exe, names2, j);
      assert a2[j] == a1[i];
    }
    forall j | 0 <= j < |a2|
      ensures a2[j] in a1
    {
      assert names2[j] in names1;
      var i :| 0 <= i < |names1| && names1[i] == names2[j];
      AnswersAt(files, fs, exe, names1, i);
      AnswersAt(files, fs, exe, names2, j);
      assert a1[i] == a2[j];
    }
    UnionAllSameAnswers(a1, a2);
  }

  /** The cache after `get_mapfile(filename)`: a missing readable file is added, nothing else changes. */
  function Cached(files: map<string, MapFile>, fs: FileSystem, filename: string): map<string, MapFile>
  {
    if filename in files || filename !in fs then files
    else files[filename := Load(filename, fs).value]
  }

  /**
   * One lookup caches the file exactly when it was cached or is readable;
   * cached files keep their map files and only the looked-up one is added,
   * as it loads.
   */
  lemma CachedGrows(files: map<string, MapFile>, fs: FileSystem, filename: string)
    ensures var r := Cached(files, fs, filename);
      && (filename in r <==> filename in files || filename in fs)
      && (forall k :: k in files ==> k in r && r[k] == files[k])
      && (forall k :: k in r ==> k in files || k == filename)
      && Grows(files, r, fs)
  {
  }

  /**
   * The cache after the loop of `exact_find` over `filenames[i..]`: every
   * listed file up to the first unreadable one is cached, in list order.
   */
  function CachedFrom(files: map<string, MapFile>, fs: FileSystem, filenames: seq<string>, i: nat): map<string, MapFile>
    requires i <= |filenames|
    decreases |filenames| - i
  {
    if i == |filenames| then files
    else if filenames[i] !in files && filenames[i] !in fs then files
    else CachedFrom(Cached(files, fs, filenames[i]), fs, filenames, i + 1)
  }

  /** The cache after the whole loop of `exact_find` over `filenames`. */
  function CachedAll(files: map<string, MapFile>, fs: FileSystem, filenames: seq<string>): map<string, MapFile>
  {
    CachedFrom(files, fs, filenames, 0)
  }

  /** From position `i` on, without unreadable files, every listed file ends up cached and nothing else is added. */
  lemma {:induction false} CachedFromHolds(files: map<string, MapFile>, fs: FileSystem, filenames: seq<string>, i: nat)
    requires i <= |filenames|
    requires forall j :: i <= j < |filenames| ==> filenames[j] in files || filenames[j] in fs
    ensures forall k :: k in CachedFrom(files, fs, filenames, i) <==> k in files || k in filenames[i..]
    decreases |filenames| - i
  {
    if i < |filenames| {
      var next := Cached(files, fs, filenames[i]);
      CachedFromHolds(next, fs, filenames, i + 1);
      CachedKeys(files, fs, filenames[i]);
      assert filenames[i..] == [filenames[i]] + filenames[i + 1..];
    }
  }

  /** A readable file is cached by its lookup, and nothing else is added. */
  lemma CachedKeys(files: map<string, MapFile>, fs: FileSystem, filename: string)
    requires filename in files || filename in fs
    ensures forall k :: k in Cached(files, fs, filename) <==> k in files || k == filename
  {
  }

  /** Without unreadable files, every listed file ends up cached, and nothing else is added. */
  lemma CachedAllHolds(files: map<string, MapFile>, fs: FileSystem, filenames: seq<string>)
    requires forall i :: 0 <= i < |filenames| ==> filenames[i] in files || filenames[i] in fs
    ensures forall k :: k in CachedAll(files, fs, filenames) <==> k in files || k in filenames
  {
    CachedFromHolds(files, fs, filenames, 0);
    assert filenames[0..] == filenames;
  }


  /**
   * The process-wide `MAPFILES` dictionary of `find.py`, as an object: parsed
   * map files by path, filled on first use and never invalidated.
   */
  class MapFileCache {
    var files: map<string, MapFile>

    /** Every cached map file was parsed from its own key. */
    ghost predicate Valid()
      reads this
    {
      forall k :: k in files ==> LoadedFrom(files[k], k)
    }

    constructor ()
      ensures Valid() && files == map[]
    {
      files := map[];
    }

    /**
     * `get_mapfile(filename)`: a hit returns the cached map file and leaves
     * the cache as it was; a miss loads the file and adds that one key.
     */
    method GetMapFile(filename: string, fs: FileSystem) returns (r: Result<MapFile, Error>)
      requires Valid()
      modifies this
      ensures Valid() && Grows(old(files), files, fs)
      ensures r == Resolve(old(files), fs, filename)
      ensures r.Ok? ==> LoadedFrom(r.value, filename)
      ensures filename in old(files) ==> files == old(files)
      ensures filename !in old(files) ==> files == if r.Ok? then old(files)[filename := r.value] else old(files)
    {
      if filename in files {
        r := Ok(files[filename]);
      } else {
        r := Load(filename, fs);
        if r.Ok? {
          files := files[filename := r.value];
        }
      }
    }

    /** `exact_find_in_mapfile(exe, filename)`: the file's answers tagged with its channel and subdir. */
    method ExactFindInMapfile(exe: string, filename: string, fs: FileSystem) returns (r: Result<set<LookupResult>, Error>)
      requires Valid()
      modifies this
      ensures Valid() && Grows(old(files), files, fs)
      ensures r.Err? <==> Resolve(old(files), fs, filename).Err?
      ensures r.Err? ==> r.error == Resolve(old(files), fs, filename).error
      ensures r.Ok? ==>
        var m := Resolve(old(files), fs, filename).value;
        && (forall x :: x in r.value ==> x.channel == m.channel && x.subdir == m.subdir && Entry(x.exe, x.pkg) in m.entries)
        && (WellFormed(m.entries) ==> r.value == Expected(m, exe))
      ensures r.Err? || WellFormed(Resolve(old(files), fs, filename).value.entries) ==>
        r == Answer(old(files), fs, exe, filename)
      ensures files == Cached(old(files), fs, filename)
    {
      var loaded := GetMapFile(filename, fs);
      if loaded.Err? {
        return Err(loaded.error);
      }
      var m := loaded.value;
      var found := ExactFind(m, exe);
      r := Ok(Tag(m, found));
    }

    /**
     * One turn of the loop in `exact_find`: the answer of `filenames[i]`, as
     * `Answer` gives it for the cache `origin` the loop started from. The
     * cache the loop ends with, `target`, stays what the rest of the loop
     * reaches; at an unreadable file the loop stops there.
     */
    method ExactFindListed(exe: string, filenames: seq<string>, i: nat, fs: FileSystem,
                           ghost origin: map<string, MapFile>, ghost answers: seq<Result<set<LookupResult>, Error>>, ghost wf: bool,
                           ghost target: map<string, MapFile>)
      returns (found: Result<set<LookupResult>, Error>)
      requires i < |filenames|
      requires Valid() && Grows(origin, files, fs)
      requires answers == Answers(origin, fs, exe, filenames)
      requires wf ==> AllWellFormed(origin, fs, filenames)
      requires CachedFrom(files, fs, filenames, i) == target
      modifies this
      ensures Valid() && Grows(origin, files, fs)
      ensures found.Err? <==> answers[i].Err?
      ensures found.Err? || wf ==> found == answers[i]
      ensures found.Err? ==> files == target
      ensures found.Ok? ==> CachedFrom(files, fs, filenames, i + 1) == target
    {
      AnswersAt(origin, fs, exe, filenames, i);
      ghost var before := files;
      found := ExactFindInMapfile(exe, filenames[i], fs);
      ResolveStable(origin, before, fs, filenames[i]);
      AnswerStable(origin, before, fs, exe, filenames[i]);
    }

    /**
     * `exact_find(exe)` over the map files `filenames`, accumulating with
     * `|=`. When every file is well formed it answers `FindAllSpec`; an
     * unreadable file ends it with that file's error. The cache ends up
     * holding every listed file before the first unreadable one.
     */
    method ExactFindAll(exe: string, filenames: seq<string>, fs: FileSystem) returns (r: Result<set<LookupResult>, Error>)
      requires Valid()
      modifies this
      ensures Valid() && Grows(old(files), files, fs)
      ensures r.Err? <==> FindAllSpec(old(files), fs, exe, filenames).Err?
      ensures r.Err? ==> r == FindAllSpec(old(files), fs, exe, filenames)
      ensures AllWellFormed(old(files), fs, filenames) ==> r == FindAllSpec(old(files), fs, exe, filenames)
      ensures files == CachedAll(old(files), fs, filenames)
    {
      ghost var answers := Answers(old(files), fs, exe, filenames);
      ghost var wf := AllWellFormed(old(files), fs, filenames);
      ghost var target := CachedAll(old(files), fs, filenames);
      r := Accumulate(exe, filenames, fs, old(files), answers, wf, target);
    }

    /** The loop of `exact_find`, from the cache `origin` it starts with. */
    method Accumulate(exe: string, filenames: seq<string>, fs: FileSystem,
                      ghost origin: map<string, MapFile>, ghost answers: seq<Result<set<LookupResult>, Error>>, ghost wf: bool,
                      ghost target: map<string, MapFile>)
      returns (r: Result<set<LookupResult>, Error>)
      requires Valid() && files == origin
      requires target == CachedFrom(origin, fs, filenames, 0)
      requires answers == Answers(origin, fs, exe, filenames)
      requires wf ==> AllWellFormed(origin, fs, filenames)
      modifies this
      ensures Valid() && Grows(origin, files, fs)
      ensures r.Err? <==> UnionAll(answers).Err?
      ensures r.Err? || wf ==> r == UnionAll(answers)
      ensures files == target
    {
      var finds: set<LookupResult> := {};
      var i := 0;
      while i < |filenames|
        invariant 0 <= i <= |filenames|
        invariant Valid() && Grows(origin, files, fs)
        invariant UnionPrefix(answers, i).Ok?
        invariant wf ==> UnionPrefix(answers, i) == Ok(finds)
        invariant CachedFrom(files, fs, filenames, i) == target
      {
        var found := ExactFindListed(exe, filenames, i, fs, origin, answers, wf, target);
        if found.Err? {
          FirstErrorDecides(answers, i);
          return Err(found.error);
        }
        UnionPrefixStep(answers, i);
        finds := finds + found.value;
        i := i + 1;
      }
      r := Ok(finds);
    }
  }
}
