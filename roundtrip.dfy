/**
 * The two halves together: a map file written by `generate_map` and read
 * back by `Mapfile` gives back the generator's pairs, in the sorted order the
 * binary searches of `exact_find` depend on, under the name the generator
 * chose.
 */
module RoundTrip {
  import Strings
  import Sorting
  import opened Results
  import opened Entries
  import Find
  import Generate

  /** Names a map file line can carry: no `:` in the executable and no line boundary anywhere. */
  predicate Writable(e: Entry)
  {
    ':' !in e.exe && Strings.NoLineBreak(e.exe) && Strings.NoLineBreak(e.pkg)
  }

  /** A rendered line, split at its first `:`, is the pair it was rendered from. */
  lemma ParseRenderedLine(e: Entry)
    requires ':' !in e.exe
    ensures Find.ParseLine(e.exe + ":" + e.pkg) == e
  {
    assert e.exe + ":" + e.pkg == e.exe + [':'] + e.pkg;
    Strings.PartitionFirst(e.exe, ':', e.pkg);
  }

  /** Parsing the rendered lines gives the pairs back. */
  lemma {:induction false} ParseRendered(lines: seq<Entry>)
    requires forall i :: 0 <= i < |lines| ==> ':' !in lines[i].exe
    ensures Find.ParseLines(Generate.Render(lines)) == lines
  {
    if |lines| > 0 {
      assert Generate.Render(lines)[1..] == Generate.Render(lines[1..]);
      ParseRenderedLine(lines[0]);
      ParseRendered(lines[1..]);
    }
  }

  /** A rendered line holds no line boundary when its names hold none. */
  lemma RenderedHaveNoBreaks(lines: seq<Entry>)
    requires forall i :: 0 <= i < |lines| ==> Writable(lines[i])
    ensures forall i :: 0 <= i < |lines| ==> Strings.NoLineBreak(Generate.Render(lines)[i])
  {
    forall i | 0 <= i < |lines|
      ensures Strings.NoLineBreak(Generate.Render(lines)[i])
    {
      var e := lines[i];
      var s := e.exe + ":" + e.pkg;
      assert forall k :: 0 <= k < |s| ==> s[k] == (if k < |e.exe| then e.exe[k] else if k == |e.exe| then ':' else e.pkg[k - |e.exe| - 1]);
    }
  }

  /** The text `generate_map` writes, split into lines and parsed, is the generator's pair list. */
  lemma ParseGenerated(lines: seq<Entry>)
    requires forall i :: 0 <= i < |lines| ==> Writable(lines[i])
    ensures Find.ParseLines(Strings.SplitLines(Strings.Terminated(Generate.Render(lines)))) == lines
  {
    RenderedHaveNoBreaks(lines);
    Strings.SplitTerminated(Generate.Render(lines));
    ParseRendered(lines);
  }

  /**
   * Reading the map file the generator wrote for `channel` and `subdir`,
   * under its bare name as `glob` lists it or from any directory, gives a map
   * file of that channel's name and subdir whose entries are the generator's
   * pairs, sorted as `exact_find` requires.
   */
  lemma LoadGenerated(dir: string, path: string, channel: string, subdir: string, lines: seq<Entry>, fs: Find.FileSystem)
    requires '.' !in Generate.GetChannelName(channel) && '/' !in subdir
    requires path == Generate.MapFileName(channel, subdir) || path == dir + "/" + Generate.MapFileName(channel, subdir)
    requires Sorting.Increasing(lines, Less)
    requires forall i :: 0 <= i < |lines| ==> Writable(lines[i])
    requires path in fs && fs[path] == Strings.Terminated(Generate.Render(lines))
    ensures Find.Load(path, fs) == Ok(Find.MapFile(path, Generate.GetChannelName(channel), subdir, lines))
    ensures Sorted(lines)
  {
    MapFileNameParses(dir, channel, subdir);
    assert Find.ParseLines(Strings.SplitLines(fs[path])) == lines by {
      ParseGenerated(lines);
    }
    IncreasingIsSorted(lines);
  }

  /**
   * With every package name in the sentinel range, the pairs of a generated
   * map file are everything the exact lookup needs: `Find.ExactFind` answers
   * exactly `Find.ExactFindSpec` on them.
   */
  lemma GeneratedWellFormed(lines: seq<Entry>)
    requires Sorting.Increasing(lines, Less)
    requires forall i :: 0 <= i < |lines| ==> Find.InSentinelRange(lines[i].pkg)
    ensures Find.WellFormed(lines)
  {
    IncreasingIsSorted(lines);
  }

  /**
   * The map file the generator names for a channel URL is read back, from any
   * directory, as that channel's name and subdir.
   */
  lemma MapFileNameParses(dir: string, channel: string, subdir: string)
    requires '.' !in Generate.GetChannelName(channel) && '/' !in subdir
    ensures Find.ParseFileName(dir + "/" + Generate.MapFileName(channel, subdir)) == (Generate.GetChannelName(channel), subdir)
    ensures Find.ParseFileName(Generate.MapFileName(channel, subdir)) == (Generate.GetChannelName(channel), subdir)
  {
    var name := Generate.GetChannelName(channel);
    assert dir + "/" + Generate.MapFileName(channel, subdir) == dir + "/" + name + "." + subdir + ".map";
    Find.ParseFileNameRoundTrip(dir, name, subdir);
  }
}
