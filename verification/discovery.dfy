/**
 * Kernel discovery (get_running_kernel, find_kernels, compare_kernel_versions
 * in kcleaner.c). The file system is abstracted away: the first line of
 * /proc/version and the entry names of /boot arrive as inputs.
 */
module Discovery {
  import opened Basics
  import opened Kernels

  /** The text that precedes the running version in /proc/version. */
  const VersionMarker := "Linux version "

  /** Boot images are the /boot entries whose name starts with this prefix. */
  const ImagePrefix := "vmlinuz-"

  const BootDir := "/boot/"

  /** The first line of /proc/version when the file cannot be opened or read. */
  const Unreadable: Option<string> := None

  // ---------------------------------------------------------------------------
  // Running kernel identity (get_running_kernel)
  // ---------------------------------------------------------------------------

  /**
   * The running version read from the first line of /proc/version; `None`
   * stands for a file that could not be opened or read. The version is the
   * text between the first "Linux version " and the next space; when either
   * is missing the running version stays empty.
   */
  function RunningVersion(firstLine: Option<string>): (v: string)
    ensures firstLine.None? ==> v == ""
    ensures forall i :: 0 <= i < |v| ==> v[i] != ' '
    ensures v != "" ==> exists k: nat :: OccursAt(firstLine.value, VersionMarker + v + " ", k)
    ensures firstLine.Some? && (forall k: nat :: !OccursAt(firstLine.value, VersionMarker, k)) ==> v == ""
  {
    match firstLine
    case None => ""
    case Some(line) =>
      match Find(line, VersionMarker)
      case None => ""
      case Some(k) =>
        var rest := line[k + |VersionMarker|..];
        var e := IndexOf(rest, ' ');
        if e < |rest| then
          assert line[k..k + |VersionMarker|] == VersionMarker;
          assert line[k + |VersionMarker|..k + |VersionMarker| + e + 1] == rest[..e] + " ";
          assert line[k..k + |VersionMarker| + e + 1]
            == line[k..k + |VersionMarker|] + line[k + |VersionMarker|..k + |VersionMarker| + e + 1];
          assert OccursAt(line, VersionMarker + rest[..e] + " ", k);
          rest[..e]
        else ""
  }

  /**
   * A line holding "Linux version <v> ..." yields exactly `v`, provided the
   * marker does not occur earlier and `v` has no space.
   */
  lemma RunningVersionExtracts(pre: string, v: string, post: string)
    requires forall k: nat :: k < |pre| ==> !OccursAt(pre + VersionMarker, VersionMarker, k)
    requires forall i :: 0 <= i < |v| ==> v[i] != ' '
    ensures RunningVersion(Some(pre + VersionMarker + v + " " + post)) == v
  {
    var tail := v + " " + post;
    assert pre + VersionMarker + v + " " + post == pre + VersionMarker + tail;
    FirstMarker(pre, tail);
    assert IndexOf(tail, ' ') == |v| by {
      assert tail[|v|] == ' ';
      assert forall i :: 0 <= i < |v| ==> tail[i] == v[i];
    }
    assert tail[..|v|] == v;
  }

  /** A marker that is not followed by any space leaves the running version empty. */
  lemma RunningVersionNeedsSpace(pre: string, tail: string)
    requires forall k: nat :: k < |pre| ==> !OccursAt(pre + VersionMarker, VersionMarker, k)
    requires forall i :: 0 <= i < |tail| ==> tail[i] != ' '
    ensures RunningVersion(Some(pre + VersionMarker + tail)) == ""
  {
    FirstMarker(pre, tail);
  }

  /** The first marker of `pre + marker + tail` is the one after `pre`, followed by `tail`. */
  lemma FirstMarker(pre: string, tail: string)
    requires forall k: nat :: k < |pre| ==> !OccursAt(pre + VersionMarker, VersionMarker, k)
    ensures Find(pre + VersionMarker + tail, VersionMarker) == Some(|pre|)
    ensures (pre + VersionMarker + tail)[|pre| + |VersionMarker|..] == tail
  {
    var line := pre + VersionMarker + tail;
    assert OccursAt(line, VersionMarker, |pre|) by {
      assert line[|pre|..|pre| + |VersionMarker|] == VersionMarker;
    }
    forall k: nat | k < |pre|
      ensures !OccursAt(line, VersionMarker, k)
    {
      assert !OccursAt(pre + VersionMarker, VersionMarker, k);
      assert (pre + VersionMarker)[k..k + |VersionMarker|] == line[k..k + |VersionMarker|];
    }
  }

  // ---------------------------------------------------------------------------
  // Directory scan (find_kernels)
  // ---------------------------------------------------------------------------

  /** The record built for an image entry: version = name minus the prefix. */
  function ImageRecord(name: string, running: string): (k: KernelRecord)
    requires StartsWith(name, ImagePrefix)
    ensures ImagePrefix + k.version == name
    ensures k.path == BootDir + name
    ensures k.running <==> k.version == running
  {
    var version := name[|ImagePrefix|..];
    assert name == name[..|ImagePrefix|] + version;
    KernelRecord(version, BootDir + name, version == running)
  }

  /** One record per image entry, in directory order, without the capacity bound. */
  function Images(names: seq<string>, running: string): seq<KernelRecord>
  {
    if |names| == 0 then []
    else
      var last := names[|names| - 1];
      Images(names[..|names| - 1], running)
        + (if StartsWith(last, ImagePrefix) then [ImageRecord(last, running)] else [])
  }

  lemma {:induction false} ImagesAppend(a: seq<string>, b: seq<string>, running: string)
    ensures Images(a + b, running) == Images(a, running) + Images(b, running)
    decreases |b|
  {
    if |b| == 0 {
      assert a + b == a;
    } else {
      var b' := b[..|b| - 1];
      assert (a + b)[..|a + b| - 1] == a + b';
      ImagesAppend(a, b', running);
    }
  }

  /**
   * Images(names) holds exactly the records of the entries that start with
   * "vmlinuz-": every record comes from such an entry, and every such entry
   * gives a record.
   */
  lemma {:induction false} ImagesAreImageEntries(names: seq<string>, running: string)
    ensures forall k :: k in Images(names, running) ==>
      exists j :: 0 <= j < |names| && StartsWith(names[j], ImagePrefix) && k == ImageRecord(names[j], running)
    ensures forall j :: 0 <= j < |names| && StartsWith(names[j], ImagePrefix) ==>
      ImageRecord(names[j], running) in Images(names, running)
    ensures |Images(names, running)| <= |names|
  {
    if |names| > 0 {
      var init := names[..|names| - 1];
      ImagesAreImageEntries(init, running);
      assert forall j :: 0 <= j < |init| ==> init[j] == names[j];
    }
  }

  /**
   * The readdir loop: entries are taken in directory order and scanning stops
   * once the table holds MaxKernels records, so the result is the first
   * MaxKernels image records.
   */
  method ScanBoot(names: seq<string>, running: string) returns (ks: seq<KernelRecord>)
    ensures |ks| == if |Images(names, running)| < MaxKernels then |Images(names, running)| else MaxKernels
    ensures ks == Images(names, running)[..|ks|]
  {
    ks := [];
    var i := 0;
    while i < |names| && |ks| < MaxKernels
      invariant 0 <= i <= |names|
      invariant ks == Images(names[..i], running)
      invariant |ks| <= MaxKernels
    {
      assert names[..i + 1][..i] == names[..i];
      if StartsWith(names[i], ImagePrefix) {
        ks := ks + [ImageRecord(names[i], running)];
      }
      i := i + 1;
    }
    assert names == names[..i] + names[i..];
    ImagesAppend(names[..i], names[i..], running);
    if i < |names| {
      assert |ks| == MaxKernels;
      ImagesAreImageEntries(names[i..], running);
    } else {
      assert names[i..] == [];
    }
  }

  // ---------------------------------------------------------------------------
  // Ordering (compare_kernel_versions with qsort)
  // ---------------------------------------------------------------------------

  /** `strcmp(a, b) < 0`: lexicographic order by character, a proper prefix coming first. */
  predicate StrLess(a: string, b: string)
  {
    if |a| == 0 then |b| > 0
    else if |b| == 0 then false
    else if a[0] != b[0] then a[0] < b[0]
    else StrLess(a[1..], b[1..])
  }

  lemma {:induction false} StrLessIrreflexive(a: string)
    ensures !StrLess(a, a)
  {
    if |a| > 0 {
      StrLessIrreflexive(a[1..]);
    }
  }

  lemma {:induction false} StrLessTransitive(a: string, b: string, c: string)
    requires StrLess(a, b) && StrLess(b, c)
    ensures StrLess(a, c)
  {
    if |a| > 0 && |b| > 0 && |c| > 0 && a[0] == b[0] && b[0] == c[0] {
      StrLessTransitive(a[1..], b[1..], c[1..]);
    }
  }

  lemma {:induction false} StrLessTotal(a: string, b: string)
    ensures a == b || StrLess(a, b) || StrLess(b, a)
  {
    if |a| > 0 && |b| > 0 && a[0] == b[0] {
      StrLessTotal(a[1..], b[1..]);
      if a[1..] == b[1..] {
        assert a == [a[0]] + a[1..] && b == [b[0]] + b[1..];
      }
    }
  }

  /** `strcmp(a, b) <= 0`. */
  predicate StrLessEq(a: string, b: string)
  {
    a == b || StrLess(a, b)
  }

  lemma StrLessEqTransitive(a: string, b: string, c: string)
    requires StrLessEq(a, b) && StrLessEq(b, c)
    ensures StrLessEq(a, c)
  {
    if StrLess(a, b) && StrLess(b, c) {
      StrLessTransitive(a, b, c);
    }
  }

  /** Non-increasing by version: the order qsort leaves with compare_kernel_versions. */
  predicate Descending(ks: seq<KernelRecord>)
  {
    forall i, j :: 0 <= i < j < |ks| ==> StrLessEq(ks[j].version, ks[i].version)
  }

  predicate StrictlyDescending(ks: seq<KernelRecord>)
  {
    forall i, j :: 0 <= i < j < |ks| ==> StrLess(ks[j].version, ks[i].version)
  }

  predicate DistinctVersions(ks: seq<KernelRecord>)
  {
    forall i, j :: 0 <= i < j < |ks| ==> ks[i].version != ks[j].version
  }

  /** Putting `x` in front of a descending sequence of versions no greater than its own. */
  lemma ConsDescending(x: KernelRecord, s: seq<KernelRecord>)
    requires Descending(s)
    requires forall y :: y in s ==> StrLessEq(y.version, x.version)
    ensures Descending([x] + s)
  {
    forall i, j | 0 <= i < j < |[x] + s|
      ensures StrLessEq(([x] + s)[j].version, ([x] + s)[i].version)
    {
      if i > 0 {
        assert ([x] + s)[i] == s[i - 1] && ([x] + s)[j] == s[j - 1];
      } else {
        assert ([x] + s)[j] in s;
      }
    }
  }

  /** Every version of a descending sequence is at most `v` when its first one is. */
  lemma BoundedByHead(ks: seq<KernelRecord>, v: string)
    requires Descending(ks) && |ks| > 0
    requires StrLessEq(ks[0].version, v)
    ensures forall y :: y in ks ==> StrLessEq(y.version, v)
  {
    forall y | y in ks
      ensures StrLessEq(y.version, v)
    {
      var j :| 0 <= j < |ks| && ks[j] == y;
      if j > 0 {
        StrLessEqTransitive(ks[j].version, ks[0].version, v);
      }
    }
  }

  /** Inserts `k` into a descending sequence, after every record with a greater version. */
  function Insert(k: KernelRecord, ks: seq<KernelRecord>): (r: seq<KernelRecord>)
    requires Descending(ks)
    ensures multiset(r) == multiset(ks) + multiset{k}
    ensures forall x :: x in r <==> x == k || x in ks
    ensures Descending(r)
  {
    if |ks| == 0 then [k]
    else if StrLessEq(ks[0].version, k.version) then
      BoundedByHead(ks, k.version);
      ConsDescending(k, ks);
      [k] + ks
    else
      var tail := Insert(k, ks[1..]);
      assert ks == [ks[0]] + ks[1..];
      StrLessTotal(ks[0].version, k.version);
      assert StrLessEq(k.version, ks[0].version);
      assert forall y :: y in ks[1..] ==> StrLessEq(y.version, ks[0].version);
      ConsDescending(ks[0], tail);
      [ks[0]] + tail
  }

  /** Sorts by version, greatest first (`qsort` with `compare_kernel_versions`). */
  function SortDescending(ks: seq<KernelRecord>): (r: seq<KernelRecord>)
    ensures Descending(r)
    ensures multiset(r) == multiset(ks)
    ensures |r| == |ks|
  {
    if |ks| == 0 then []
    else
      assert ks == [ks[0]] + ks[1..];
      Insert(ks[0], SortDescending(ks[1..]))
  }

  /** A record repeated at two positions occurs at least twice in the multiset. */
  lemma TwoPositions(s: seq<KernelRecord>, i: nat, j: nat)
    requires i < j < |s| && s[i] == s[j]
    ensures multiset(s)[s[i]] >= 2
  {
    assert s == s[..j] + [s[j]] + s[j + 1..];
    assert s[i] in s[..j];
  }

  /** Reordering a sequence keeps its versions pairwise distinct. */
  lemma PermutationKeepsDistinct(a: seq<KernelRecord>, b: seq<KernelRecord>)
    requires multiset(a) == multiset(b)
    requires DistinctVersions(a)
    ensures DistinctVersions(b)
  {
    forall i, j | 0 <= i < j < |b|
      ensures b[i].version != b[j].version
    {
      assert b[i] in multiset(a) && b[j] in multiset(a);
      var p :| 0 <= p < |a| && a[p] == b[i];
      var q :| 0 <= q < |a| && a[q] == b[j];
      if p == q {
        TwoPositions(b, i, j);
        MultiplicityAtMostOne(a, b[i]);
      }
    }
  }

  /** With pairwise distinct versions, the descending order is strict. */
  lemma DescendingDistinctIsStrict(ks: seq<KernelRecord>)
    requires Descending(ks) && DistinctVersions(ks)
    ensures StrictlyDescending(ks)
  {
  }

  /**
   * The textual order of compare_kernel_versions: "5.4.0" sorts above
   * "5.10.0" because '4' > '1', whatever the numbers mean.
   */
  lemma TextualNotNumericOrder(a: KernelRecord, b: KernelRecord, c: KernelRecord)
    requires a.version == "5.10.0" && b.version == "5.4.0" && c.version == "6.1.0"
    ensures SortDescending([a, b, c]) == [c, b, a]
  {
    TenBelowFour();
    assert [a, b, c][1..] == [b, c];
    InsertBelow(b, c);
    InsertBelow(a, b);
    assert !StrLessEq(c.version, a.version);
    assert [c, b][1..] == [b];
  }

  lemma TenBelowFour()
    ensures StrLess("5.10.0", "5.4.0") && !StrLessEq("5.4.0", "5.10.0")
  {
    assert StrLess("5.10.0", "5.4.0") by {
      assert "5.10.0"[1..] == ".10.0" && "5.4.0"[1..] == ".4.0";
      assert ".10.0"[1..] == "10.0" && ".4.0"[1..] == "4.0";
    }
    if StrLess("5.4.0", "5.10.0") {
      StrLessTransitive("5.4.0", "5.10.0", "5.4.0");
      StrLessIrreflexive("5.4.0");
    }
  }

  lemma InsertBelow(x: KernelRecord, y: KernelRecord)
    requires !StrLessEq(y.version, x.version)
    ensures Insert(x, [y]) == [y, x]
    ensures SortDescending([x, y]) == [y, x]
  {
    assert [y][1..] == [];
    assert [x, y][1..] == [y];
    assert SortDescending([y]) == [y] by {
      assert [y][1..] == [];
    }
  }

  /**
   * find_kernels: scan /boot (capped at MaxKernels entries), then sort by
   * version, greatest first.
   */
  method FindKernels(names: seq<string>, running: string) returns (ks: seq<KernelRecord>)
    ensures |ks| <= MaxKernels
    ensures |ks| == if |Images(names, running)| < MaxKernels then |Images(names, running)| else MaxKernels
    ensures multiset(ks) == multiset(Images(names, running)[..|ks|])
    ensures Descending(ks)
    ensures forall x :: x in ks ==> x in Images(names, running)
  {
    var scanned := ScanBoot(names, running);
    ks := SortDescending(scanned);
    forall x | x in ks
      ensures x in Images(names, running)
    {
      assert x in multiset(scanned);
      var j :| 0 <= j < |scanned| && scanned[j] == x;
      assert Images(names, running)[j] == x;
    }
  }

  /** Distinct image names give distinct versions in directory order. */
  lemma {:induction false} ImagesDistinct(names: seq<string>, running: string)
    requires forall i, j :: 0 <= i < j < |names| ==> names[i] != names[j]
    ensures DistinctVersions(Images(names, running))
  {
    if |names| > 0 {
      var init := names[..|names| - 1];
      var last := names[|names| - 1];
      ImagesDistinct(init, running);
      ImagesAreImageEntries(init, running);
      if StartsWith(last, ImagePrefix) {
        var r := ImageRecord(last, running);
        forall x | x in Images(init, running)
          ensures x.version != r.version
        {
          var j :| 0 <= j < |init| && StartsWith(init[j], ImagePrefix) && x == ImageRecord(init[j], running);
          assert init[j] == names[j];
        }
      }
    }
  }

  /**
   * Directory entries are distinct, so the discovered table is strictly
   * descending: no two records share a version.
   */
  lemma DistinctEntriesSortStrictly(names: seq<string>, running: string, ks: seq<KernelRecord>)
    requires forall i, j :: 0 <= i < j < |names| ==> names[i] != names[j]
    requires Descending(ks)
    requires |ks| <= |Images(names, running)|
    requires multiset(ks) == multiset(Images(names, running)[..|ks|])
    ensures StrictlyDescending(ks)
  {
    ImagesDistinct(names, running);
    var pre := Images(names, running)[..|ks|];
    assert DistinctVersions(pre);
    PermutationKeepsDistinct(pre, ks);
    DescendingDistinctIsStrict(ks);
  }

  /**
   * Directory entries are distinct, so at most one discovered record carries
   * the running version: the running flag picks out a single kernel.
   */
  lemma DiscoveredRunningIsUnique(names: seq<string>, running: string, ks: seq<KernelRecord>)
    requires forall i, j :: 0 <= i < j < |names| ==> names[i] != names[j]
    requires |ks| <= |Images(names, running)|
    requires multiset(ks) == multiset(Images(names, running)[..|ks|])
    ensures forall i, j :: 0 <= i < |ks| && 0 <= j < |ks| && ks[i].running && ks[j].running ==> i == j
  {
    ImagesDistinct(names, running);
    ImagesAreImageEntries(names, running);
    var pre := Images(names, running)[..|ks|];
    assert DistinctVersions(pre);
    PermutationKeepsDistinct(pre, ks);
    forall i | 0 <= i < |ks|
      ensures ks[i].running <==> ks[i].version == running
    {
      assert ks[i] in multiset(pre);
      var p :| 0 <= p < |pre| && pre[p] == ks[i];
      assert pre[p] in Images(names, running);
    }
  }

  /** In a sequence without repeated versions every record occurs at most once. */
  lemma {:induction false} MultiplicityAtMostOne(s: seq<KernelRecord>, x: KernelRecord)
    requires DistinctVersions(s)
    ensures multiset(s)[x] <= 1
  {
    if |s| > 0 {
      var init := s[..|s| - 1];
      assert s == init + [s[|s| - 1]];
      MultiplicityAtMostOne(init, x);
      if s[|s| - 1] == x {
        assert x !in init;
      }
    }
  }

  /**
   * When /proc/version yields no version, an entry named exactly "vmlinuz-"
   * has the empty version, compares equal to the empty running version and
   * is marked running.
   */
  lemma EmptyRunningVersionMarksBareImage(names: seq<string>, ks: seq<KernelRecord>)
    requires ImagePrefix in names && |names| <= MaxKernels
    requires multiset(ks) == multiset(Images(names, RunningVersion(Unreadable)))
    ensures exists i :: 0 <= i < |ks| && ks[i].running && ks[i].version == ""
  {
    var running := RunningVersion(Unreadable);
    ImagesAreImageEntries(names, running);
    var j :| 0 <= j < |names| && names[j] == ImagePrefix;
    assert StartsWith(names[j], ImagePrefix);
    var r := ImageRecord(names[j], running);
    assert r.version == "";
    assert r in multiset(ks);
  }
}
