/**
 * The cache of downloaded documents. After each successful print the service
 * lists the cache directory, takes the regular files whose lower-cased name
 * ends in `.pdf`, orders them by modification time, oldest first, and deletes
 * the oldest ones until at most `MaxCachedFiles` remain. Each deletion may
 * fail on its own; a failure is logged and the remaining deletions go on.
 */
module Cache {
  import opened Events

  /** Number of cached documents kept after a cleanup. */
  const MaxCachedFiles: nat := 10

  /** One directory entry as a listing reports it. */
  datatype Entry = Entry(name: string, mtime: int, isFile: bool)

  /** A directory never lists two entries under one name. */
  predicate DistinctNames(es: seq<Entry>) {
    forall i, j :: 0 <= i < j < |es| ==> es[i].name != es[j].name
  }

  function LowerChar(c: char): char {
    if 'A' <= c <= 'Z' then (c as int - 'A' as int + 'a' as int) as char else c
  }

  /**
   * Lower-casing as the name test needs it: no upper-case letter is left,
   * every other character is kept, and each letter becomes its own lower case.
   */
  function Lower(s: string): (r: string)
    ensures |r| == |s|
    ensures forall i :: 0 <= i < |r| ==> !('A' <= r[i] <= 'Z')
    ensures forall i :: 0 <= i < |s| && !('A' <= s[i] <= 'Z') ==> r[i] == s[i]
    ensures forall i :: 0 <= i < |s| && 'A' <= s[i] <= 'Z' ==> r[i] as int == s[i] as int + 32
  {
    seq(|s|, i requires 0 <= i < |s| => LowerChar(s[i]))
  }

  /** Lower-casing twice is lower-casing once. */
  lemma LowerIdempotent(s: string)
    ensures Lower(Lower(s)) == Lower(s)
  {
  }

  predicate EndsWith(s: string, suffix: string) {
    |suffix| <= |s| && s[|s| - |suffix|..] == suffix
  }

  /** The name test of the cleanup: the lower-cased name ends in `.pdf`. */
  predicate IsPdfName(name: string) {
    EndsWith(Lower(name), ".pdf")
  }

  /** The entries the cleanup manages: regular files with a PDF name. */
  predicate IsCachedPdf(e: Entry) {
    e.isFile && IsPdfName(e.name)
  }

  /** The managed entries of a listing, in listing order. */
  function PdfFiles(es: seq<Entry>): (r: seq<Entry>)
    ensures forall e :: e in r <==> e in es && IsCachedPdf(e)
  {
    if es == [] then []
    else
      var init := PdfFiles(es[..|es| - 1]);
      var last := es[|es| - 1];
      assert es == es[..|es| - 1] + [last];
      if IsCachedPdf(last) then init + [last] else init
  }

  predicate SortedByMtime(xs: seq<Entry>) {
    forall i, j :: 0 <= i < j < |xs| ==> xs[i].mtime <= xs[j].mtime
  }

  /** Inserts `x` before the first element that is not older than it. */
  function InsertByMtime(x: Entry, xs: seq<Entry>): (r: seq<Entry>)
    ensures |r| == |xs| + 1
    ensures multiset(r) == multiset(xs) + multiset{x}
  {
    if xs == [] || x.mtime <= xs[0].mtime then [x] + xs
    else
      assert xs == [xs[0]] + xs[1..];
      [xs[0]] + InsertByMtime(x, xs[1..])
  }

  /** A stable sort by modification time, oldest first. */
  function SortByMtime(xs: seq<Entry>): (r: seq<Entry>)
    ensures |r| == |xs|
    ensures multiset(r) == multiset(xs)
    ensures SortedByMtime(r)
  {
    if xs == [] then []
    else
      assert xs == [xs[0]] + xs[1..];
      InsertKeepsSorted(xs[0], SortByMtime(xs[1..]));
      InsertByMtime(xs[0], SortByMtime(xs[1..]))
  }

  lemma {:induction false} InsertKeepsSorted(x: Entry, xs: seq<Entry>)
    requires SortedByMtime(xs)
    ensures SortedByMtime(InsertByMtime(x, xs))
  {
    if xs != [] && x.mtime > xs[0].mtime {
      var rest := InsertByMtime(x, xs[1..]);
      assert SortedByMtime(xs[1..]);
      InsertKeepsSorted(x, xs[1..]);
      forall j | 0 <= j < |rest| ensures xs[0].mtime <= rest[j].mtime {
        InsertMember(x, xs[1..], rest[j]);
        if rest[j] != x {
          var i :| 0 <= i < |xs| - 1 && xs[1..][i] == rest[j];
          assert xs[i + 1] == rest[j];
        }
      }
      assert InsertByMtime(x, xs) == [xs[0]] + rest;
    }
  }

  /** Inserting adds `x` and nothing else. */
  lemma {:induction false} InsertMember(x: Entry, xs: seq<Entry>, y: Entry)
    requires y in InsertByMtime(x, xs)
    ensures y == x || y in xs
  {
    if xs != [] && x.mtime > xs[0].mtime {
      var rest := InsertByMtime(x, xs[1..]);
      assert InsertByMtime(x, xs) == [xs[0]] + rest;
      if y != xs[0] {
        InsertMember(x, xs[1..], y);
      }
    }
  }

  /** The listing with every entry named in `names` removed. */
  function Without(es: seq<Entry>, names: set<string>): (r: seq<Entry>)
    ensures forall e :: e in r <==> e in es && e.name !in names
    ensures (forall e :: e in es ==> e.name !in names) ==> r == es
  {
    if es == [] then []
    else
      var init := Without(es[..|es| - 1], names);
      var last := es[|es| - 1];
      assert es == es[..|es| - 1] + [last];
      if last.name in names then init else init + [last]
  }

  /** The managed files, oldest first. */
  function Ranked(es: seq<Entry>): seq<Entry> {
    SortByMtime(PdfFiles(es))
  }

  /** How many managed files exceed the limit. */
  function Excess(es: seq<Entry>): nat {
    if |PdfFiles(es)| > MaxCachedFiles then |PdfFiles(es)| - MaxCachedFiles else 0
  }

  /** The files the cleanup tries to delete, in the order it tries them. */
  function Victims(es: seq<Entry>): seq<Entry> {
    Ranked(es)[..Excess(es)]
  }

  /** The files the cleanup leaves alone. */
  function Kept(es: seq<Entry>): seq<Entry> {
    Ranked(es)[Excess(es)..]
  }

  /** The names whose deletion succeeds among the attempts `vs`. */
  function Succeeded(vs: seq<Entry>, failing: set<string>): (r: set<string>)
    ensures forall n :: n in r ==> n !in failing
    ensures forall i :: 0 <= i < |vs| && vs[i].name !in failing ==> vs[i].name in r
    ensures forall n :: n in r ==> exists i :: 0 <= i < |vs| && vs[i].name == n
  {
    if vs == [] then {}
    else
      var init := Succeeded(vs[..|vs| - 1], failing);
      var last := vs[|vs| - 1];
      assert forall i :: 0 <= i < |vs| - 1 ==> vs[..|vs| - 1][i] == vs[i];
      if last.name in failing then init else init + {last.name}
  }

  /** The log events of the deletion attempts `vs`, one per attempt. */
  function Attempts(vs: seq<Entry>, failing: set<string>): (r: seq<Event>)
    ensures |r| == |vs|
  {
    if vs == [] then []
    else
      var init := Attempts(vs[..|vs| - 1], failing);
      var last := vs[|vs| - 1];
      init + [if last.name in failing then CacheDeleteFailed(last.name) else CacheFileDeleted(last.name)]
  }

  /**
   * One event per attempt, in the order of the attempts: a failure for each
   * name in `failing`, a deletion for every other name.
   */
  lemma {:induction false} AttemptsReport(vs: seq<Entry>, failing: set<string>)
    ensures forall i :: 0 <= i < |vs| ==>
      Attempts(vs, failing)[i] == if vs[i].name in failing then CacheDeleteFailed(vs[i].name) else CacheFileDeleted(vs[i].name)
  {
    if vs != [] {
      var init := vs[..|vs| - 1];
      AttemptsReport(init, failing);
      forall i | 0 <= i < |vs| - 1 ensures vs[i] == init[i] { }
    }
  }

  /** The directory after a cleanup in which the deletions of the names in `failing` fail. */
  function Pruned(es: seq<Entry>, failing: set<string>): seq<Entry> {
    Without(es, Succeeded(Victims(es), failing))
  }

  /** The events a cleanup logs. */
  function PruneNotes(es: seq<Entry>, failing: set<string>): seq<Event> {
    Attempts(Victims(es), failing)
  }

  /**
   * The directory after a download saved `name` at time `mtime`: an entry of that
   * name is replaced by the new file, otherwise the file is added.
   */
  function Stored(es: seq<Entry>, name: string, mtime: int): (r: seq<Entry>)
    ensures forall e :: e in r <==> e == Entry(name, mtime, true) || (e in es && e.name != name)
    ensures DistinctNames(es) ==> DistinctNames(r)
  {
    if exists e :: e in es && e.name == name then Replaced(es, name, mtime)
    else es + [Entry(name, mtime, true)]
  }

  /** The listing with each entry named `name` replaced by a file saved at `mtime`. */
  function Replaced(es: seq<Entry>, name: string, mtime: int): (r: seq<Entry>)
    ensures |r| == |es|
    ensures forall i :: 0 <= i < |es| ==>
      r[i] == if es[i].name == name then Entry(name, mtime, true) else es[i]
  {
    if es == [] then []
    else
      var last := es[|es| - 1];
      Replaced(es[..|es| - 1], name, mtime) + [if last.name == name then Entry(name, mtime, true) else last]
  }

  // ---------------------------------------------------------------------------
  // Lemmas

  /** The name test looks at the last four characters only, ignoring case. */
  lemma IsPdfNameByExtension(name: string)
    ensures IsPdfName(name) <==> |name| >= 4 && Lower(name[|name| - 4..]) == ".pdf"
  {
    if |name| >= 4 {
      assert Lower(name)[|name| - 4..] == Lower(name[|name| - 4..]);
    }
  }

  /** A document saved for a job is named `<job id>.pdf`, which the cleanup manages. */
  lemma PdfNameOfJob(id: string)
    ensures IsPdfName(id + ".pdf")
  {
    var name := id + ".pdf";
    IsPdfNameByExtension(name);
    assert name[|name| - 4..] == ".pdf";
  }

  /** Upper-case extensions match as well. */
  lemma UpperCasePdfName(stem: string)
    ensures IsPdfName(stem + ".PDF")
  {
    var name := stem + ".PDF";
    IsPdfNameByExtension(name);
    assert name[|name| - 4..] == ".PDF";
  }

  lemma {:induction false} PdfFilesKeepDistinctNames(es: seq<Entry>)
    requires DistinctNames(es)
    ensures DistinctNames(PdfFiles(es))
  {
    if es != [] {
      var init := es[..|es| - 1];
      assert DistinctNames(init);
      PdfFilesKeepDistinctNames(init);
      var last := es[|es| - 1];
      forall e | e in PdfFiles(init) ensures e.name != last.name {
        var i :| 0 <= i < |init| && init[i] == e;
      }
    }
  }

  lemma {:induction false} WithoutKeepsDistinctNames(es: seq<Entry>, names: set<string>)
    requires DistinctNames(es)
    ensures DistinctNames(Without(es, names))
  {
    if es != [] {
      var init := es[..|es| - 1];
      assert DistinctNames(init);
      WithoutKeepsDistinctNames(init, names);
      var last := es[|es| - 1];
      forall e | e in Without(init, names) ensures e.name != last.name {
        var i :| 0 <= i < |init| && init[i] == e;
      }
    }
  }

  lemma {:induction false} InsertKeepsDistinctNames(x: Entry, xs: seq<Entry>)
    requires DistinctNames(xs)
    requires forall y :: y in xs ==> y.name != x.name
    ensures DistinctNames(InsertByMtime(x, xs))
  {
    if xs != [] && x.mtime > xs[0].mtime {
      var tail := xs[1..];
      assert DistinctNames(tail) by {
        forall i, j | 0 <= i < j < |tail| ensures tail[i].name != tail[j].name {
          assert tail[i] == xs[i + 1] && tail[j] == xs[j + 1];
        }
      }
      assert forall y :: y in tail ==> y in xs;
      InsertKeepsDistinctNames(x, tail);
      var rest := InsertByMtime(x, tail);
      forall e | e in rest ensures e.name != xs[0].name {
        InsertMember(x, tail, e);
        if e != x {
          var i :| 0 <= i < |tail| && tail[i] == e;
          assert xs[i + 1] == e;
        }
      }
      var r := InsertByMtime(x, xs);
      assert r == [xs[0]] + rest;
      forall i, j | 0 <= i < j < |r| ensures r[i].name != r[j].name {
        if i == 0 {
          assert r[j] == rest[j - 1];
        } else {
          assert r[i] == rest[i - 1] && r[j] == rest[j - 1];
        }
      }
    }
  }

  lemma {:induction false} SortKeepsDistinctNames(xs: seq<Entry>)
    requires DistinctNames(xs)
    ensures DistinctNames(SortByMtime(xs))
  {
    if xs != [] {
      assert xs == [xs[0]] + xs[1..];
      assert DistinctNames(xs[1..]) by {
        forall i, j | 0 <= i < j < |xs| - 1 ensures xs[1..][i].name != xs[1..][j].name {
          assert xs[1..][i] == xs[i + 1] && xs[1..][j] == xs[j + 1];
        }
      }
      SortKeepsDistinctNames(xs[1..]);
      var sorted := SortByMtime(xs[1..]);
      forall y | y in sorted ensures y.name != xs[0].name {
        assert y in multiset(sorted);
        assert y in xs[1..];
        var i :| 0 <= i < |xs| - 1 && xs[1..][i] == y;
        assert xs[i + 1] == y;
      }
      InsertKeepsDistinctNames(xs[0], sorted);
    }
  }

  /** Distinct names make the managed files, ranked, distinct by name too. */
  lemma RankedDistinctNames(es: seq<Entry>)
    requires DistinctNames(es)
    ensures DistinctNames(Ranked(es))
  {
    PdfFilesKeepDistinctNames(es);
    SortKeepsDistinctNames(PdfFiles(es));
  }

  lemma RankedMembers(es: seq<Entry>)
    ensures forall e :: e in Ranked(es) <==> e in es && IsCachedPdf(e)
  {
    forall e ensures e in Ranked(es) <==> e in PdfFiles(es) {
      assert e in Ranked(es) <==> e in multiset(Ranked(es));
    }
  }

  /**
   * The cleanup attempts exactly `|managed files| - MaxCachedFiles` deletions
   * when there are more than `MaxCachedFiles` managed files, none otherwise, and
   * keeps the rest.
   */
  lemma VictimsCount(es: seq<Entry>)
    ensures |Victims(es)| == if |PdfFiles(es)| > MaxCachedFiles then |PdfFiles(es)| - MaxCachedFiles else 0
    ensures |Kept(es)| == if |PdfFiles(es)| > MaxCachedFiles then MaxCachedFiles else |PdfFiles(es)|
    ensures Victims(es) + Kept(es) == Ranked(es)
  {
    var r := Ranked(es);
    var k := Excess(es);
    assert |r| == |PdfFiles(es)|;
    assert r[..k] + r[k..] == r;
  }

  /** The cleanup only ever tries to delete managed files of the directory. */
  lemma VictimsAreManaged(es: seq<Entry>)
    ensures forall v :: v in Victims(es) ==> v in es && IsCachedPdf(v)
  {
    var r := Ranked(es);
    var k := Excess(es);
    VictimsCount(es);
    RankedMembers(es);
    forall v | v in Victims(es) ensures v in r {
      var i :| 0 <= i < k && r[..k][i] == v;
      assert r[i] == v;
    }
  }

  /** The files the cleanup tries to delete are no newer than any file it keeps. */
  lemma VictimsAreOldest(es: seq<Entry>)
    ensures forall v, w :: v in Victims(es) && w in Kept(es) ==> v.mtime <= w.mtime
  {
    var r := Ranked(es);
    var k := Excess(es);
    VictimsCount(es);
    forall v, w | v in Victims(es) && w in Kept(es) ensures v.mtime <= w.mtime {
      var i :| 0 <= i < k && r[..k][i] == v;
      var j :| 0 <= j < |r| - k && r[k..][j] == w;
      assert r[i] == v && r[k + j] == w;
    }
  }

  /** Entries that are not managed files are never removed. */
  lemma PruneLeavesOthers(es: seq<Entry>, failing: set<string>, e: Entry)
    requires DistinctNames(es)
    requires e in es && !IsCachedPdf(e)
    ensures e in Pruned(es, failing)
  {
    VictimsAreManaged(es);
    var vs := Victims(es);
    var a :| 0 <= a < |es| && es[a] == e;
    forall i | 0 <= i < |vs| ensures vs[i].name != e.name {
      assert vs[i] in es && IsCachedPdf(vs[i]);
      var b :| 0 <= b < |es| && es[b] == vs[i];
      assert a != b;
    }
  }

  /** A file whose deletion fails stays in the directory, and the other attempted files are still deleted. */
  lemma FailedDeletionKeepsFile(es: seq<Entry>, failing: set<string>, v: Entry)
    requires v in Victims(es) && v.name in failing
    ensures v in Pruned(es, failing)
    ensures forall w :: w in Victims(es) && w.name !in failing ==> w !in Pruned(es, failing)
  {
    VictimsAreManaged(es);
    var vs := Victims(es);
    forall w | w in vs && w.name !in failing ensures w !in Pruned(es, failing) {
      var i :| 0 <= i < |vs| && vs[i] == w;
      assert w.name in Succeeded(vs, failing);
    }
  }

  /** With at most `MaxCachedFiles` managed files the cleanup attempts nothing and changes nothing. */
  lemma PruneWithinLimit(es: seq<Entry>, failing: set<string>)
    requires |PdfFiles(es)| <= MaxCachedFiles
    ensures Pruned(es, failing) == es
    ensures PruneNotes(es, failing) == []
  {
    VictimsCount(es);
    assert Succeeded(Victims(es), failing) == {};
  }

  /** Distinct elements have as many members as positions. */
  lemma {:induction false} DistinctCount(xs: seq<Entry>)
    requires DistinctNames(xs)
    ensures |set e | e in xs| == |xs|
  {
    if xs != [] {
      var init := xs[..|xs| - 1];
      var last := xs[|xs| - 1];
      assert DistinctNames(init);
      DistinctCount(init);
      assert last !in init by {
        forall j | 0 <= j < |init| ensures init[j] != last {
          assert init[j].name == xs[j].name;
        }
      }
      assert xs == init + [last];
      assert (set e | e in xs) == (set e | e in init) + {last};
    }
  }

  lemma KeptDistinctNames(es: seq<Entry>)
    requires DistinctNames(es)
    ensures DistinctNames(Kept(es))
  {
    RankedDistinctNames(es);
    SuffixDistinctNames(Ranked(es), Excess(es));
  }

  lemma SuffixDistinctNames(xs: seq<Entry>, k: nat)
    requires DistinctNames(xs) && k <= |xs|
    ensures DistinctNames(xs[k..])
  {
    var t := xs[k..];
    forall i, j | 0 <= i < j < |t| ensures t[i].name != t[j].name {
      assert t[i] == xs[k + i] && t[j] == xs[k + j];
    }
  }

  /** Removing the names of a prefix from a list without repeated names leaves its suffix. */
  lemma WithoutPrefixNames(r: seq<Entry>, k: nat, names: set<string>)
    requires DistinctNames(r) && k <= |r|
    requires forall i :: 0 <= i < k ==> r[i].name in names
    requires forall n :: n in names ==> exists i :: 0 <= i < k && r[i].name == n
    ensures forall e :: e in r && e.name !in names <==> e in r[k..]
  {
    forall e | e in r && e.name !in names ensures e in r[k..] {
      var j :| 0 <= j < |r| && r[j] == e;
      assert j >= k;
      assert r[k..][j - k] == e;
    }
    forall e | e in r[k..] ensures e in r && e.name !in names {
      var j :| 0 <= j < |r| - k && r[k..][j] == e;
      assert r[k + j] == e;
      forall n | n in names ensures n != e.name {
        var i :| 0 <= i < k && r[i].name == n;
        assert i < k + j;
      }
    }
  }

  /** When every attempted deletion succeeds, the managed files left are the kept ones. */
  lemma PruneKeepsNewestMembers(es: seq<Entry>, failing: set<string>)
    requires DistinctNames(es)
    requires forall v :: v in Victims(es) ==> v.name !in failing
    ensures forall e :: e in PdfFiles(Pruned(es, failing)) <==> e in Kept(es)
  {
    var r := Ranked(es);
    var k := Excess(es);
    var vs := Victims(es);
    var deleted := Succeeded(vs, failing);
    VictimsCount(es);
    RankedMembers(es);
    RankedDistinctNames(es);
    assert vs == r[..k];
    forall i | 0 <= i < k ensures r[i].name in deleted {
      assert r[i] == vs[i];
    }
    forall n | n in deleted ensures exists i :: 0 <= i < k && r[i].name == n {
      var i :| 0 <= i < |vs| && vs[i].name == n;
      assert r[i] == vs[i];
    }
    WithoutPrefixNames(r, k, deleted);
    assert Kept(es) == r[k..];
  }

  /**
   * When every attempted deletion succeeds, the managed files left are exactly
   * the files the cleanup keeps, the `MaxCachedFiles` most recently modified ones
   * when there were more.
   */
  lemma PruneKeepsNewest(es: seq<Entry>, failing: set<string>)
    requires DistinctNames(es)
    requires forall v :: v in Victims(es) ==> v.name !in failing
    ensures forall e :: e in PdfFiles(Pruned(es, failing)) <==> e in Kept(es)
    ensures |PdfFiles(Pruned(es, failing))|
         == if |PdfFiles(es)| > MaxCachedFiles then MaxCachedFiles else |PdfFiles(es)|
  {
    var left := PdfFiles(Pruned(es, failing));
    PruneKeepsNewestMembers(es, failing);
    VictimsCount(es);
    WithoutKeepsDistinctNames(es, Succeeded(Victims(es), failing));
    PdfFilesKeepDistinctNames(Pruned(es, failing));
    KeptDistinctNames(es);
    SameMembersSameLength(left, Kept(es));
  }

  /** Two lists without repeated names that have the same members have the same length. */
  lemma SameMembersSameLength(a: seq<Entry>, b: seq<Entry>)
    requires DistinctNames(a) && DistinctNames(b)
    requires forall e :: e in a <==> e in b
    ensures |a| == |b|
  {
    DistinctCount(a);
    DistinctCount(b);
    var sa := set e | e in a;
    var sb := set e | e in b;
    assert forall e :: e in sa <==> e in sb;
    assert sa == sb;
  }

  /** A cleanup in which every deletion succeeded leaves nothing for a second cleanup to do. */
  lemma PruneIdempotent(es: seq<Entry>, failing: set<string>, later: set<string>)
    requires DistinctNames(es)
    requires forall v :: v in Victims(es) ==> v.name !in failing
    ensures Pruned(Pruned(es, failing), later) == Pruned(es, failing)
    ensures PruneNotes(Pruned(es, failing), later) == []
  {
    PruneKeepsNewest(es, failing);
    PruneWithinLimit(Pruned(es, failing), later);
  }

  /**
   * In a sorted list without repeated names, an entry newer than every entry of
   * another name is not among the first `k` when `k` leaves at least one.
   */
  lemma NewestNotInPrefix(r: seq<Entry>, k: nat, x: Entry)
    requires DistinctNames(r) && SortedByMtime(r)
    requires x in r && k < |r|
    requires forall y :: y in r && y.name != x.name ==> y.mtime < x.mtime
    ensures forall i :: 0 <= i < k ==> r[i].name != x.name
  {
    var last := r[|r| - 1];
    var j :| 0 <= j < |r| && r[j] == x;
    assert x.mtime <= last.mtime;
    assert last.name == x.name;
    forall i | 0 <= i < k ensures r[i].name != x.name {
      assert i < |r| - 1;
    }
  }

  /** A file newer than every entry of another name is not among the files a cleanup deletes. */
  lemma NewestNotVictim(es: seq<Entry>, x: Entry)
    requires DistinctNames(es) && x in es
    requires forall y :: y in es && y.name != x.name ==> y.mtime < x.mtime
    ensures forall v :: v in Victims(es) ==> v.name != x.name
  {
    var r := Ranked(es);
    var k := Excess(es);
    var vs := Victims(es);
    VictimsCount(es);
    VictimsAreManaged(es);
    if IsCachedPdf(x) {
      RankedMembers(es);
      RankedDistinctNames(es);
      if k > 0 {
        NewestNotInPrefix(r, k, x);
      }
      forall i | 0 <= i < |vs| ensures vs[i].name != x.name {
        assert vs[i] == r[i];
      }
    } else {
      forall i | 0 <= i < |vs| ensures vs[i].name != x.name {
        assert vs[i] in es && IsCachedPdf(vs[i]);
      }
    }
  }

  /**
   * A file just saved, newer than every other entry, is not deleted by the
   * cleanup that follows: the job's own document survives its success.
   */
  lemma FreshFileSurvives(es: seq<Entry>, name: string, now: int, failing: set<string>)
    requires DistinctNames(es)
    requires forall e :: e in es && e.name != name ==> e.mtime < now
    ensures Entry(name, now, true) in Pruned(Stored(es, name, now), failing)
  {
    var after := Stored(es, name, now);
    NewestNotVictim(after, Entry(name, now, true));
    var vs := Victims(after);
    assert forall i :: 0 <= i < |vs| ==> vs[i] in vs;
  }

  // ---------------------------------------------------------------------------
  // The cache directory

  class CacheDirectory {
    /** The directory's entries in listing order. */
    var entries: seq<Entry>

    ghost predicate Valid()
      reads this
    {
      DistinctNames(entries)
    }

    constructor (entries: seq<Entry>)
      requires DistinctNames(entries)
      ensures Valid() && this.entries == entries
    {
      this.entries := entries;
    }

    /** A successful download writes `name` with modification time `mtime`. */
    method Store(name: string, mtime: int)
      requires Valid()
      modifies this
      ensures Valid()
      ensures entries == Stored(old(entries), name, mtime)
    {
      entries := Stored(entries, name, mtime);
    }

    /** The managed files of the directory, in listing order. */
    method ListManaged() returns (files: seq<Entry>)
      ensures files == PdfFiles(entries)
    {
      files := [];
      for i := 0 to |entries|
        invariant files == PdfFiles(entries[..i])
      {
        assert entries[..i + 1][..i] == entries[..i];
        if entries[i].isFile && IsPdfName(entries[i].name) {
          files := files + [entries[i]];
        }
      }
      assert entries[..|entries|] == entries;
    }

    /**
     * Tries to delete the first `count` of `files` in turn; the deletion of each
     * name in `failing` raises and is logged, the others succeed.
     */
    method RemoveOldest(files: seq<Entry>, count: nat, failing: set<string>) returns (notes: seq<Event>)
      requires Valid() && count <= |files|
      modifies this
      ensures Valid()
      ensures entries == Without(old(entries), Succeeded(files[..count], failing))
      ensures notes == Attempts(files[..count], failing)
    {
      ghost var listed := entries;
      notes := [];
      for i := 0 to count
        invariant DistinctNames(entries)
        invariant entries == Without(listed, Succeeded(files[..i], failing))
        invariant notes == Attempts(files[..i], failing)
      {
        assert files[..i + 1][..i] == files[..i];
        var name := files[i].name;
        ghost var done := Succeeded(files[..i], failing);
        if name !in failing {
          assert Succeeded(files[..i + 1], failing) == done + {name};
          WithoutTwice(listed, done, name);
          entries := Without(entries, {name});
          WithoutKeepsDistinctNames(listed, done + {name});
          notes := notes + [CacheFileDeleted(name)];
        } else {
          assert Succeeded(files[..i + 1], failing) == done;
          notes := notes + [CacheDeleteFailed(name)];
        }
      }
    }

    /**
     * The cleanup after a successful print. The deletion of each name in
     * `failing` raises; the others succeed. Returns the events logged.
     */
    method Cleanup(failing: set<string>) returns (notes: seq<Event>)
      requires Valid()
      modifies this
      ensures Valid()
      ensures entries == Pruned(old(entries), failing)
      ensures notes == PruneNotes(old(entries), failing)
    {
      var files := ListManaged();
      files := SortByMtime(files);
      notes := [];
      if |files| > MaxCachedFiles {
        notes := RemoveOldest(files, |files| - MaxCachedFiles, failing);
      } else {
        assert Victims(entries) == [];
      }
    }
  }

  lemma {:induction false} WithoutTwice(es: seq<Entry>, names: set<string>, name: string)
    ensures Without(Without(es, names), {name}) == Without(es, names + {name})
  {
    if es != [] {
      WithoutTwice(es[..|es| - 1], names, name);
    }
  }
}
