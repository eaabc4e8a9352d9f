/**
 * The `(exe, pkg)` pair that a map file line stands for, and Python's tuple
 * ordering on such pairs, by which map files are sorted.
 */
module Entries {
  import Strings
  import Sorting

  /** One line `exe:pkg` of a map file: an executable and the package that provides it. */
  datatype Entry = Entry(exe: string, pkg: string)

  /** `(a.exe, a.pkg) < (b.exe, b.pkg)` on Python tuples. */
  predicate Less(a: Entry, b: Entry)
  {
    Strings.Less(a.exe, b.exe) || (a.exe == b.exe && Strings.Less(a.pkg, b.pkg))
  }

  predicate LessEq(a: Entry, b: Entry)
  {
    a == b || Less(a, b)
  }

  /**
   * The order a map file must be in for binary search: ascending, duplicates
   * allowed.
   */
  predicate Sorted(s: seq<Entry>)
  {
    forall i, j :: 0 <= i < j < |s| ==> LessEq(s[i], s[j])
  }

  lemma LessTransitive(a: Entry, b: Entry, c: Entry)
    requires Less(a, b) && Less(b, c)
    ensures Less(a, c)
  {
    if Strings.Less(a.exe, b.exe) && Strings.Less(b.exe, c.exe) {
      Strings.LessTransitive(a.exe, b.exe, c.exe);
    } else if a.exe == b.exe && b.exe == c.exe {
      Strings.LessTransitive(a.pkg, b.pkg, c.pkg);
    }
  }

  lemma LessIrreflexive(a: Entry)
    ensures !Less(a, a)
  {
    Strings.LessIrreflexive(a.exe);
    Strings.LessIrreflexive(a.pkg);
  }

  lemma LessTotal(a: Entry, b: Entry)
    ensures Less(a, b) || a == b || Less(b, a)
  {
    Strings.LessTotal(a.exe, b.exe);
    Strings.LessTotal(a.pkg, b.pkg);
  }

  lemma LessEqLessTransitive(a: Entry, b: Entry, c: Entry)
    requires LessEq(a, b) && Less(b, c)
    ensures Less(a, c)
  {
    if a != b {
      LessTransitive(a, b, c);
    }
  }

  lemma LessLessEqTransitive(a: Entry, b: Entry, c: Entry)
    requires Less(a, b) && LessEq(b, c)
    ensures Less(a, c)
  {
    if b != c {
      LessTransitive(a, b, c);
    }
  }

  /** Tuple order on entries is a strict total order, so `sorted` applies to it. */
  lemma LessIsStrictTotalOrder()
    ensures Sorting.IsStrictTotalOrder(Less)
  {
    forall x ensures !Less(x, x) { LessIrreflexive(x); }
    forall x, y, z | Less(x, y) && Less(y, z) ensures Less(x, z) { LessTransitive(x, y, z); }
    forall x, y | x != y ensures Less(x, y) || Less(y, x) { LessTotal(x, y); }
  }

  /** String order is a strict total order, so `sorted` applies to it. */
  lemma StringLessIsStrictTotalOrder()
    ensures Sorting.IsStrictTotalOrder(Strings.Less)
  {
    forall x ensures !Strings.Less(x, x) { Strings.LessIrreflexive(x); }
    forall x, y, z | Strings.Less(x, y) && Strings.Less(y, z) ensures Strings.Less(x, z) {
      Strings.LessTransitive(x, y, z);
    }
    forall x, y | x != y ensures Strings.Less(x, y) || Strings.Less(y, x) { Strings.LessTotal(x, y); }
  }

  /** A strictly increasing sequence of entries is sorted. */
  lemma IncreasingIsSorted(s: seq<Entry>)
    requires Sorting.Increasing(s, Less)
    ensures Sorted(s)
  {
  }

  /**
   * An entry lying between two entries with the same executable name has
   * that name: the entries for one executable are contiguous in a sorted map
   * file.
   */
  lemma BetweenSameName(lo: Entry, x: Entry, hi: Entry)
    requires lo.exe == hi.exe
    requires LessEq(lo, x) && LessEq(x, hi)
    ensures x.exe == lo.exe
  {
    if x.exe != lo.exe {
      assert Strings.Less(lo.exe, x.exe) && Strings.Less(x.exe, hi.exe);
      Strings.LessTransitive(lo.exe, x.exe, lo.exe);
      Strings.LessIrreflexive(lo.exe);
    }
  }
}
