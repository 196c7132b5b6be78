/** The video list of the video page: path helpers, the list order and the
    filter that builds the list from a directory scan.

    The recursive directory walk, the file system and the timer are not
    modelled: a scan is given as a sequence of `FileInfo` records, and the
    modification time arrives already formatted. Lower-casing of a suffix is
    the character map `lower`, a parameter. */
module VideoList {
  import opened Text

  // ---------------------------------------------------------------------
  // Paths
  // ---------------------------------------------------------------------

  /** Position of the first '/' in `s`. */
  function IndexOfSlash(s: string): (i: nat)
    requires '/' in s
    ensures i < |s| && s[i] == '/' && '/' !in s[..i]
  {
    if s[0] == '/' then 0
    else
      var i := IndexOfSlash(s[1..]);
      assert s[..i + 1] == [s[0]] + s[1..][..i];
      i + 1
  }

  /** Components joined with '/' between them. */
  function Join(parts: seq<string>): string
    requires |parts| >= 1
    decreases |parts|
  {
    if |parts| == 1 then parts[0] else parts[0] + "/" + Join(parts[1..])
  }

  /** `QString::split('/')` keeping empty components: one more component
      than there are slashes, none containing a slash, and joining them
      back gives the string. */
  function Split(s: string): (parts: seq<string>)
    ensures |parts| >= 1
    ensures forall k :: 0 <= k < |parts| ==> '/' !in parts[k]
    ensures Join(parts) == s
    decreases |s|
  {
    if '/' !in s then [s]
    else
      var i := IndexOfSlash(s);
      var rest := Split(s[i + 1..]);
      assert s == s[..i] + "/" + s[i + 1..];
      assert ([s[..i]] + rest)[1..] == rest;
      [s[..i]] + rest
  }

  /** Splitting undoes joining, for components without a slash. */
  lemma {:induction false} SplitJoin(parts: seq<string>)
    requires |parts| >= 1 && forall k :: 0 <= k < |parts| ==> '/' !in parts[k]
    ensures Split(Join(parts)) == parts
    decreases |parts|
  {
    if |parts| > 1 {
      var s := Join(parts);
      var p := parts[0];
      var t := Join(parts[1..]);
      SplitJoin(parts[1..]);
      assert s == p + "/" + t;
      assert s[..|p|] == p && s[|p|] == '/' && s[|p| + 1..] == t;
      assert '/' in s;
      var i := IndexOfSlash(s);
      assert i == |p|;
    }
  }

  lemma {:induction false} JoinAppend(parts: seq<string>, x: string)
    requires |parts| >= 1
    ensures Join(parts + [x]) == Join(parts) + "/" + x
    decreases |parts|
  {
    if |parts| > 1 {
      assert (parts + [x])[1..] == parts[1..] + [x];
      JoinAppend(parts[1..], x);
    } else {
      assert (parts + [x])[1..] == [x];
    }
  }

  /** `isDirectSubPath`: the sub-path has exactly one more component and
      agrees with the current path on all of the current path's
      components. */
  function IsDirectSubPath(current: string, sub: string): (b: bool)
    ensures b ==> |Split(sub)| == |Split(current)| + 1
    ensures !b && |Split(sub)| == |Split(current)| + 1 ==>
      exists i :: 0 <= i < |Split(current)| && Split(current)[i] != Split(sub)[i]
  {
    var cs := Split(current);
    var ss := Split(sub);
    |cs| + 1 == |ss| && AgreeFrom(cs, ss, 0)
  }

  /** The comparison loop from component i on: no mismatch is found. */
  function AgreeFrom(cs: seq<string>, ss: seq<string>, i: nat): (b: bool)
    requires i <= |cs| <= |ss|
    ensures b <==> forall k :: i <= k < |cs| ==> cs[k] == ss[k]
    decreases |cs| - i
  {
    if i == |cs| then true
    else if cs[i] != ss[i] then false
    else AgreeFrom(cs, ss, i + 1)
  }

  /** A direct sub-path is the current path, a slash and one more component
      without a slash. */
  lemma DirectSubPathIffChild(current: string, sub: string)
    ensures IsDirectSubPath(current, sub) <==> exists x :: '/' !in x && sub == current + "/" + x
  {
    if IsDirectSubPath(current, sub) {
      DirectSubPathIsChild(current, sub);
    }
    if exists x :: '/' !in x && sub == current + "/" + x {
      var x :| '/' !in x && sub == current + "/" + x;
      ChildIsDirectSubPath(current, x);
    }
  }

  lemma DirectSubPathIsChild(current: string, sub: string)
    requires IsDirectSubPath(current, sub)
    ensures var x := Split(sub)[|Split(current)|]; '/' !in x && sub == current + "/" + x
  {
    var cs, ss := Split(current), Split(sub);
    var x := ss[|cs|];
    assert ss == cs + [x];
    JoinAppend(cs, x);
  }

  lemma ChildIsDirectSubPath(current: string, x: string)
    requires '/' !in x
    ensures Split(current + "/" + x) == Split(current) + [x]
    ensures IsDirectSubPath(current, current + "/" + x)
  {
    var cs := Split(current);
    JoinAppend(cs, x);
    SplitJoin(cs + [x]);
  }

  /** A path is never its own direct sub-path. */
  lemma NotOwnSubPath(p: string)
    ensures !IsDirectSubPath(p, p)
  {
  }

  // ---------------------------------------------------------------------
  // List entries
  // ---------------------------------------------------------------------

  /** One scanned file system entry. */
  datatype FileInfo = FileInfo(absolutePath: string, fileName: string, suffix: string, isDir: bool, size: int, modified: string)

  /** One list entry (the map with keys path, name, isDir, size, dateTime and
      duration). */
  datatype Entry = Entry(path: string, name: string, isDir: bool, size: int, dateTime: string, duration: int)

  /** `isVideoExist`: the linear search by path. */
  function IsVideoExist(list: seq<Entry>, path: string): (b: bool)
    ensures b <==> exists i :: 0 <= i < |list| && list[i].path == path
    decreases |list|
  {
    if |list| == 0 then false
    else if list[0].path == path then true
    else
      var b := IsVideoExist(list[1..], path);
      assert forall i :: 1 <= i < |list| ==> list[i] == list[1..][i - 1];
      b
  }

  // ---------------------------------------------------------------------
  // Order
  // ---------------------------------------------------------------------

  /** `QString::operator<`: lexicographic order by character. */
  predicate StrLess(a: string, b: string)
    decreases |a|
  {
    if |a| == 0 then |b| > 0
    else if |b| == 0 then false
    else if a[0] != b[0] then a[0] < b[0]
    else StrLess(a[1..], b[1..])
  }

  lemma {:induction false} StrLessIrreflexive(a: string)
    ensures !StrLess(a, a)
    decreases |a|
  {
    if |a| > 0 {
      StrLessIrreflexive(a[1..]);
    }
  }

  lemma {:induction false} StrLessTransitive(a: string, b: string, c: string)
    requires StrLess(a, b) && StrLess(b, c)
    ensures StrLess(a, c)
    decreases |a|
  {
    if |a| > 0 && |b| > 0 && |c| > 0 && a[0] == b[0] && b[0] == c[0] {
      StrLessTransitive(a[1..], b[1..], c[1..]);
    }
  }

  lemma {:induction false} StrLessTotal(a: string, b: string)
    ensures a == b || StrLess(a, b) || StrLess(b, a)
    decreases |a|
  {
    if |a| > 0 && |b| > 0 && a[0] == b[0] {
      StrLessTotal(a[1..], b[1..]);
      if a[1..] == b[1..] {
        assert a == [a[0]] + a[1..] && b == [b[0]] + b[1..];
      }
    }
  }

  /** The `sortVideoList` comparator: directories before files, then by
      name. */
  predicate Less(a: Entry, b: Entry)
  {
    if a.isDir && !b.isDir then true
    else if !a.isDir && b.isDir then false
    else StrLess(a.name, b.name)
  }

  lemma LessIrreflexive(a: Entry)
    ensures !Less(a, a)
  {
    StrLessIrreflexive(a.name);
  }

  /** Two entries neither of which sorts before the other agree on kind and
      name: incomparability is an equivalence, so with irreflexivity and
      transitivity the comparison is a strict weak order. */
  lemma LessIncomparable(a: Entry, b: Entry)
    requires !Less(a, b) && !Less(b, a)
    ensures a.isDir == b.isDir && a.name == b.name
  {
    StrLessTotal(a.name, b.name);
  }

  lemma LessTransitive(a: Entry, b: Entry, c: Entry)
    requires Less(a, b) && Less(b, c)
    ensures Less(a, c)
  {
    if a.isDir == b.isDir && b.isDir == c.isDir {
      StrLessTransitive(a.name, b.name, c.name);
    }
  }

  /** No entry is ordered before an earlier one. */
  ghost predicate Sorted(r: seq<Entry>)
  {
    forall i, j :: 0 <= i < j < |r| ==> !Less(r[j], r[i])
  }

  /** Inserts `x` before the first entry it is ordered before. */
  function Insert(x: Entry, s: seq<Entry>): (r: seq<Entry>)
    requires Sorted(s)
    ensures multiset(r) == multiset(s) + multiset{x}
    ensures Sorted(r)
    decreases |s|
  {
    if |s| == 0 then [x]
    else if Less(x, s[0]) then
      InsertFront(x, s);
      [x] + s
    else
      var r' := Insert(x, s[1..]);
      assert s == [s[0]] + s[1..];
      InsertBehind(x, s, r');
      [s[0]] + r'
  }

  lemma InsertFront(x: Entry, s: seq<Entry>)
    requires |s| > 0 && Sorted(s) && Less(x, s[0])
    ensures Sorted([x] + s)
  {
    forall j | 0 < j < |s| + 1
      ensures !Less(([x] + s)[j], x)
    {
      if Less(s[j - 1], x) {
        LessTransitive(s[j - 1], x, s[0]);
        if j - 1 == 0 {
          LessIrreflexive(s[0]);
        }
      }
    }
  }

  lemma InsertBehind(x: Entry, s: seq<Entry>, r': seq<Entry>)
    requires |s| > 0 && Sorted(s) && !Less(x, s[0])
    requires multiset(r') == multiset(s[1..]) + multiset{x} && Sorted(r')
    ensures Sorted([s[0]] + r')
  {
    forall j | 0 <= j < |r'|
      ensures !Less(r'[j], s[0])
    {
      assert r'[j] in multiset(r');
      if r'[j] != x {
        assert r'[j] in multiset(s[1..]);
        var k :| 0 <= k < |s[1..]| && s[1..][k] == r'[j];
        assert s[k + 1] == r'[j];
      }
    }
  }

  /** `sortVideoList`: a reordering of the list in which no entry comes
      after one it is ordered before. (`std::sort` may put entries of the
      same kind and name in any order; this is one such order.) */
  function Sort(list: seq<Entry>): (r: seq<Entry>)
    ensures multiset(r) == multiset(list)
    ensures Sorted(r)
    decreases |list|
  {
    if |list| == 0 then []
    else
      assert list == [list[0]] + list[1..];
      Insert(list[0], Sort(list[1..]))
  }

  /** After sorting, every directory comes before every file, and within
      directories and within files names do not decrease. */
  lemma SortedOrder(r: seq<Entry>, i: nat, j: nat)
    requires Sorted(r) && i < j < |r|
    ensures r[j].isDir ==> r[i].isDir
    ensures r[i].isDir == r[j].isDir ==> r[i].name == r[j].name || StrLess(r[i].name, r[j].name)
  {
    StrLessTotal(r[i].name, r[j].name);
  }

  // ---------------------------------------------------------------------
  // Building the list from a scan
  // ---------------------------------------------------------------------

  /** The seventeen accepted video extensions. */
  const VideoExtensions: seq<string> := ["mp4", "avi", "mkv", "mov", "wmv", "flv",
    "webm", "m4v", "3gp", "mpg", "mpeg", "ts",
    "m2ts", "vob", "asf", "rm", "rmvb"]

  /** An entry the scan keeps: every directory, and a file whose
      lower-cased suffix is an accepted extension. */
  predicate Keep(lower: char -> char, f: FileInfo)
  {
    f.isDir || MapChars(lower, f.suffix) in VideoExtensions
  }

  /** The list entry made from a scanned entry. */
  function ToEntry(f: FileInfo): (e: Entry)
    ensures e.path == f.absolutePath && e.name == f.fileName && e.isDir == f.isDir
    ensures e.size == f.size && e.dateTime == f.modified && e.duration == 0
  {
    Entry(f.absolutePath, f.fileName, f.isDir, f.size, f.modified, 0)
  }

  /** The filtering loop: the entries of the kept scan results, in scan
      order. */
  function KeptEntries(lower: char -> char, infos: seq<FileInfo>): seq<Entry>
    decreases |infos|
  {
    if |infos| == 0 then []
    else (if Keep(lower, infos[0]) then [ToEntry(infos[0])] else []) + KeptEntries(lower, infos[1..])
  }

  lemma {:induction false} KeptEntriesFacts(lower: char -> char, infos: seq<FileInfo>)
    ensures var es := KeptEntries(lower, infos);
      && |es| <= |infos|
      && (forall k :: 0 <= k < |es| ==> exists i :: 0 <= i < |infos| && Keep(lower, infos[i]) && es[k] == ToEntry(infos[i]))
      && (forall i :: 0 <= i < |infos| && Keep(lower, infos[i]) ==> ToEntry(infos[i]) in es)
      && (|es| == 0 <==> forall i :: 0 <= i < |infos| ==> !Keep(lower, infos[i]))
    decreases |infos|
  {
    if |infos| > 0 {
      KeptEntriesFacts(lower, infos[1..]);
      assert forall i :: 1 <= i < |infos| ==> infos[i] == infos[1..][i - 1];
    }
  }

  lemma {:induction false} KeptEntriesConcat(lower: char -> char, a: seq<FileInfo>, b: seq<FileInfo>)
    ensures KeptEntries(lower, a + b) == KeptEntries(lower, a) + KeptEntries(lower, b)
    decreases |a|
  {
    if |a| > 0 {
      assert (a + b)[0] == a[0];
      assert (a + b)[1..] == a[1..] + b;
      KeptEntriesConcat(lower, a[1..], b);
    } else {
      assert a + b == b;
    }
  }

  /** The filter's result: only kept scan results become entries, each kept
      one does, and the result is empty exactly when nothing is kept. */
  function Collect(lower: char -> char, infos: seq<FileInfo>): (es: seq<Entry>)
    ensures |es| <= |infos|
    ensures forall k :: 0 <= k < |es| ==> exists i :: 0 <= i < |infos| && Keep(lower, infos[i]) && es[k] == ToEntry(infos[i])
    ensures forall i :: 0 <= i < |infos| && Keep(lower, infos[i]) ==> ToEntry(infos[i]) in es
    ensures |es| == 0 <==> forall i :: 0 <= i < |infos| ==> !Keep(lower, infos[i])
  {
    KeptEntriesFacts(lower, infos);
    KeptEntries(lower, infos)
  }

  /** The filter distributes over concatenation of scans, so entries keep
      scan order and each kept result contributes exactly one entry. */
  lemma CollectConcat(lower: char -> char, a: seq<FileInfo>, b: seq<FileInfo>)
    ensures Collect(lower, a + b) == Collect(lower, a) + Collect(lower, b)
  {
    KeptEntriesConcat(lower, a, b);
  }

  /** The loop body: one more scan result appends its entry at the back
      exactly when it is kept. */
  lemma CollectAppend(lower: char -> char, infos: seq<FileInfo>, f: FileInfo)
    ensures Collect(lower, infos + [f]) ==
      Collect(lower, infos) + (if Keep(lower, f) then [ToEntry(f)] else [])
  {
    KeptEntriesConcat(lower, infos, [f]);
    assert KeptEntries(lower, [f][1..]) == [];
  }

  /** `loadVideoList` after the scan: the list is replaced by the sorted kept
      entries if at least one entry was kept, and is otherwise left as it
      was. Returns the list and whether it changed. */
  function LoadVideoList(lower: char -> char, list: seq<Entry>, infos: seq<FileInfo>): (res: (seq<Entry>, bool))
    ensures res.1 <==> exists i :: 0 <= i < |infos| && Keep(lower, infos[i])
    ensures !res.1 ==> res.0 == list
    ensures res.1 ==> Sorted(res.0) && multiset(res.0) == multiset(Collect(lower, infos))
  {
    var es := Collect(lower, infos);
    if |es| > 0 then (Sort(es), true) else (list, false)
  }

  /** After a load that changed the list, a path is in the list exactly when
      some kept scan result has it. */
  lemma LoadedPathsAreKept(lower: char -> char, list: seq<Entry>, infos: seq<FileInfo>, path: string)
    requires LoadVideoList(lower, list, infos).1
    ensures IsVideoExist(LoadVideoList(lower, list, infos).0, path) <==>
      exists i :: 0 <= i < |infos| && Keep(lower, infos[i]) && infos[i].absolutePath == path
  {
    var r := LoadVideoList(lower, list, infos).0;
    var es := Collect(lower, infos);
    if IsVideoExist(r, path) {
      var j :| 0 <= j < |r| && r[j].path == path;
      assert r[j] in multiset(es);
      var k :| 0 <= k < |es| && es[k] == r[j];
    }
    if exists i :: 0 <= i < |infos| && Keep(lower, infos[i]) && infos[i].absolutePath == path {
      var i :| 0 <= i < |infos| && Keep(lower, infos[i]) && infos[i].absolutePath == path;
      var e := ToEntry(infos[i]);
      assert e in multiset(r);
      var j :| 0 <= j < |r| && r[j] == e;
    }
  }

  /** ASCII lower-casing, for the example below. */
  function AsciiLower(c: char): char
  {
    if 'A' <= c <= 'Z' then (c as int + 32) as char else c
  }

  /** Suffixes are compared after lower-casing: "MKV" is kept, "txt" is not,
      and a directory is kept whatever its suffix. */
  lemma SuffixExamples(path: string, name: string, size: int, modified: string)
    ensures Keep(AsciiLower, FileInfo(path, name, "MKV", false, size, modified))
    ensures !Keep(AsciiLower, FileInfo(path, name, "txt", false, size, modified))
    ensures Keep(AsciiLower, FileInfo(path, name, "txt", true, size, modified))
  {
    assert MapChars(AsciiLower, "MKV") == "mkv";
    assert MapChars(AsciiLower, "txt") == "txt";
  }
}
