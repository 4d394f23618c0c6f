/** Nightly artifact names and the listing that nightly-release.js and
    nightly-github-release.js share: which directory entries count as
    nightly APKs, their newest-first order, the build ID read back from a
    file name, and the choice of the build to promote or publish. */
module Nightly {
  import opened Results
  import opened Text

  // ---------------------------------------------------------------------
  // Names written by nightly-apk.js

  const NightlyPrefix: string := "playtivity-nightly-"

  /** `copyNightlyAPK`: `playtivity-nightly-<date>-<time>-<commit>.apk`. */
  function NightlyApkName(dateStr: string, timeStr: string, commit: string): string {
    NightlyPrefix + dateStr + "-" + timeStr + "-" + commit + ".apk"
  }

  /** The fixed-name copy of the newest nightly APK. */
  const LatestNightlyAlias: string := "playtivity-latest-nightly.apk"

  /** `generateNightlyInfo` and `generateNightlyNotes`: the sidecars of one
      build, keyed by date and time only. */
  function InfoName(dateStr: string, timeStr: string): string {
    "nightly-info-" + dateStr + "-" + timeStr + ".json"
  }

  function NotesName(dateStr: string, timeStr: string): string {
    "nightly-notes-" + dateStr + "-" + timeStr + ".md"
  }

  const LatestInfoName: string := "latest-nightly-info.json"
  const LatestNotesName: string := "latest-nightly-notes.md"

  /** The date and time parts as the scripts produce them: `YYYYMMDD` and
      `HHMMSS`. */
  predicate Stamped(dateStr: string, timeStr: string) {
    |dateStr| == 8 && |timeStr| == 6 && AllDigits(dateStr) && AllDigits(timeStr)
  }

  // ---------------------------------------------------------------------
  // The listing filter

  /** Kept by both listings: the nightly prefix, the `.apk` suffix, and no
      `latest` anywhere. */
  predicate IsNightlyApk(f: string) {
    StartsWith(f, NightlyPrefix) && EndsWith(f, ".apk") && !Contains(f, "latest")
  }

  /** `files.filter(keep)`: the kept entries in their order. */
  function Filter(files: seq<string>, keep: string -> bool): (r: seq<string>)
    ensures forall k :: 0 <= k < |r| ==> keep(r[k])
  {
    if |files| == 0 then []
    else if keep(files[0]) then [files[0]] + Filter(files[1..], keep)
    else Filter(files[1..], keep)
  }

  /** Filtering keeps every occurrence of a kept name and drops the rest. */
  lemma {:induction false} FilterCount(files: seq<string>, keep: string -> bool, x: string)
    ensures multiset(Filter(files, keep))[x] == if keep(x) then multiset(files)[x] else 0
    decreases |files|
  {
    if |files| > 0 {
      FilterCount(files[1..], keep, x);
      assert files == [files[0]] + files[1..];
      assert multiset(files)[x] == multiset([files[0]])[x] + multiset(files[1..])[x];
    }
  }

  lemma FilterCounts(files: seq<string>, keep: string -> bool)
    ensures forall x :: multiset(Filter(files, keep))[x] == if keep(x) then multiset(files)[x] else 0
  {
    forall x
      ensures multiset(Filter(files, keep))[x] == if keep(x) then multiset(files)[x] else 0
    {
      FilterCount(files, keep, x);
    }
  }

  /** A sequence holding exactly the kept names is empty just when no name
      is kept. */
  lemma EmptyIffNoneKept(files: seq<string>, keep: string -> bool, r: seq<string>)
    requires forall x :: multiset(r)[x] == if keep(x) then multiset(files)[x] else 0
    ensures |r| == 0 <==> forall k :: 0 <= k < |files| ==> !keep(files[k])
  {
    if |r| > 0 {
      assert multiset(r)[r[0]] > 0;
      assert r[0] in multiset(files);
    }
    forall k | 0 <= k < |files| && keep(files[k])
      ensures |r| > 0
    {
      assert multiset(files)[files[k]] > 0;
      assert multiset(r)[files[k]] > 0;
    }
  }

  /** The alias never enters a listing (and so is never pruned). */
  lemma AliasIsNotListed()
    ensures !IsNightlyApk(LatestNightlyAlias)
  {
    assert LatestNightlyAlias[11] == 'l' && NightlyPrefix[11] == 'n';
  }

  /** No `l` of the prefix starts the word `latest`. */
  lemma PrefixHasNoLatest(s: string, j: nat)
    requires StartsWith(s, NightlyPrefix) && j < |NightlyPrefix|
    ensures !OccursAt(s, "latest", j)
  {
    PrefixLetters(j);
    if j + 6 <= |s| {
      assert s[j..j + 6][0] == s[j] && s[j..j + 6][1] == s[j + 1];
      assert s[j] == NightlyPrefix[j];
      if j == 1 || j == 16 {
        assert s[j + 1] == NightlyPrefix[j + 1];
        assert s[j..j + 6][2] == s[j + 2];
        assert s[j + 2] == NightlyPrefix[j + 2];
      }
    }
  }

  /** The only `l`s of the prefix are followed by `a` once, in `play`,
      whose next letter is not `t`. */
  lemma PrefixLetters(j: nat)
    requires j < |NightlyPrefix|
    ensures NightlyPrefix[j] == 'l' ==> j == 1 || j == 16
    ensures NightlyPrefix[j] != '.'
    ensures j == 1 ==> NightlyPrefix[2] == 'a' && NightlyPrefix[3] == 'y'
    ensures j == 16 ==> NightlyPrefix[17] == 'y'
  {
    assert j == 0 || j == 1 || j == 2 || j == 3 || j == 4 || j == 5 || j == 6 || j == 7 || j == 8 || j == 9
      || j == 10 || j == 11 || j == 12 || j == 13 || j == 14 || j == 15 || j == 16 || j == 17 || j == 18;
  }

  /** Every APK nightly-apk.js writes is listed, provided the commit text
      has no `l` (a short hash or `unknown`). */
  lemma WrittenApkIsListed(dateStr: string, timeStr: string, commit: string)
    requires Stamped(dateStr, timeStr) && 'l' !in commit
    ensures IsNightlyApk(NightlyApkName(dateStr, timeStr, commit))
  {
    var n := NightlyApkName(dateStr, timeStr, commit);
    var tail := dateStr + "-" + timeStr + "-" + commit + ".apk";
    assert n == NightlyPrefix + tail;
    assert EndsWith(n, ".apk");
    assert 'l' !in tail by {
      assert "-" + timeStr + "-" + commit + ".apk" == "-" + (timeStr + ("-" + (commit + ".apk")));
      assert forall k :: 0 <= k < |dateStr| ==> dateStr[k] != 'l';
      assert forall k :: 0 <= k < |timeStr| ==> timeStr[k] != 'l';
    }
    forall j | 0 <= j
      ensures !OccursAt(n, "latest", j)
    {
      if j < |NightlyPrefix| {
        PrefixHasNoLatest(n, j);
      } else if j + 6 <= |n| {
        assert n[j] == tail[j - |NightlyPrefix|];
        assert n[j..j + 6][0] == n[j];
      }
    }
  }

  // ---------------------------------------------------------------------
  // Build IDs

  /** `/playtivity-nightly-(\d{8}-\d{6})-/` matches at `i`. */
  predicate IdAt(s: string, i: nat) {
    && OccursAt(s, NightlyPrefix, i)
    && i + 35 <= |s|
    && AllDigits(s[i + 19..i + 27]) && s[i + 27] == '-'
    && AllDigits(s[i + 28..i + 34]) && s[i + 34] == '-'
  }

  /** The leftmost match at or after `from`. */
  function IdMatchFrom(s: string, from: nat): (r: Option<nat>)
    ensures r.Some? ==> from <= r.value && IdAt(s, r.value)
    ensures r.Some? ==> forall j :: from <= j < r.value ==> !IdAt(s, j)
    ensures r.None? ==> forall j :: from <= j ==> !IdAt(s, j)
    decreases |s| - from
  {
    if from + 35 > |s| then None
    else if IdAt(s, from) then Some(from)
    else IdMatchFrom(s, from + 1)
  }

  /** The capture group of that match, `undefined` when there is none. */
  function BuildId(s: string): (r: Option<string>)
    ensures r.Some? ==> |r.value| == 15 && r.value[8] == '-'
    ensures r.None? <==> forall j :: 0 <= j ==> !IdAt(s, j)
  {
    match IdMatchFrom(s, 0)
    case None => None
    case Some(i) => Some(s[i + 19..i + 34])
  }

  /** The build ID read back from a written name is `<date>-<time>`. */
  lemma BuildIdOfApkName(dateStr: string, timeStr: string, commit: string)
    requires Stamped(dateStr, timeStr)
    ensures BuildId(NightlyApkName(dateStr, timeStr, commit)) == Some(dateStr + "-" + timeStr)
  {
    var n := NightlyApkName(dateStr, timeStr, commit);
    WrittenNameHasId(dateStr, timeStr, commit);
    assert n[19..34] == dateStr + "-" + timeStr;
  }

  /** A written name matches the build-ID pattern at its start. */
  lemma WrittenNameHasId(dateStr: string, timeStr: string, commit: string)
    requires Stamped(dateStr, timeStr)
    ensures IdAt(NightlyApkName(dateStr, timeStr, commit), 0)
    ensures NightlyApkName(dateStr, timeStr, commit)[19..34] == dateStr + "-" + timeStr
    ensures |NightlyApkName(dateStr, timeStr, commit)| >= 39
  {
    var n := NightlyApkName(dateStr, timeStr, commit);
    var id := dateStr + "-" + timeStr;
    assert n == NightlyPrefix + id + ("-" + commit + ".apk");
    assert n[19..34] == id;
    assert n[19..27] == dateStr;
    assert n[28..34] == timeStr;
  }

  /** A listed name without the fixed-width stamp has no build ID. */
  lemma NoBuildIdWithoutStamp()
    ensures BuildId("playtivity-nightly-test.apk") == None
  {
  }

  // ---------------------------------------------------------------------
  // Newest first: `.sort().reverse()`

  /** No element is smaller, in string order, than a later one. */
  predicate SortedDesc(s: seq<string>) {
    forall i, j :: 0 <= i < j < |s| ==> !StrLess(s[i], s[j])
  }

  lemma NotLessTransitive(a: string, b: string, c: string)
    requires !StrLess(a, b) && !StrLess(b, c)
    ensures !StrLess(a, c)
  {
    StrLessTotal(b, c);
    if StrLess(a, c) && StrLess(c, b) {
      StrLessTransitive(a, c, b);
    }
  }

  /** A head that no element of `rest` or `x` exceeds stays first after `x`
      is inserted into `rest`. */
  lemma HeadStaysFirst(h: string, x: string, rest: seq<string>, t: seq<string>)
    requires multiset(t) == multiset(rest) + multiset{x}
    requires !StrLess(h, x)
    requires forall j :: 0 <= j < |rest| ==> !StrLess(h, rest[j])
    ensures forall j :: 0 <= j < |t| ==> !StrLess(h, t[j])
  {
    forall j | 0 <= j < |t|
      ensures !StrLess(h, t[j])
    {
      assert t[j] in multiset(t);
      if t[j] != x {
        assert t[j] in multiset(rest);
        var k :| 0 <= k < |rest| && rest[k] == t[j];
      }
    }
  }

  function InsertDesc(x: string, s: seq<string>): (r: seq<string>)
    requires SortedDesc(s)
    ensures SortedDesc(r)
    ensures multiset(r) == multiset(s) + multiset{x}
    decreases |s|
  {
    if |s| == 0 then [x]
    else if !StrLess(x, s[0]) then
      AboveHead(x, s);
      ConsSorted(x, s);
      [x] + s
    else
      var t := InsertDesc(x, s[1..]);
      StrLessAsymmetric(x, s[0]);
      HeadStaysFirst(s[0], x, s[1..], t);
      ConsSorted(s[0], t);
      assert s == [s[0]] + s[1..];
      [s[0]] + t
  }

  /** What is not below the head of a descending list is below nothing in it. */
  lemma AboveHead(x: string, s: seq<string>)
    requires SortedDesc(s) && |s| > 0 && !StrLess(x, s[0])
    ensures forall j :: 0 <= j < |s| ==> !StrLess(x, s[j])
  {
    forall j | 0 < j < |s|
      ensures !StrLess(x, s[j])
    {
      NotLessTransitive(x, s[0], s[j]);
    }
  }

  lemma ConsSorted(h: string, t: seq<string>)
    requires SortedDesc(t)
    requires forall j :: 0 <= j < |t| ==> !StrLess(h, t[j])
    ensures SortedDesc([h] + t)
  {
    var r := [h] + t;
    forall i, j | 0 <= i < j < |r|
      ensures !StrLess(r[i], r[j])
    {
      assert r[j] == t[j - 1];
      if i > 0 {
        assert r[i] == t[i - 1];
      }
    }
  }

  function SortDesc(s: seq<string>): (r: seq<string>)
    ensures SortedDesc(r)
    ensures multiset(r) == multiset(s)
  {
    if |s| == 0 then []
    else
      assert s == [s[0]] + s[1..];
      InsertDesc(s[0], SortDesc(s[1..]))
  }

  /** A descending arrangement of a multiset of names is unique, so the
      order `readdir` returns the entries in does not matter. */
  lemma {:induction false} SortedDescUnique(a: seq<string>, b: seq<string>)
    requires SortedDesc(a) && SortedDesc(b) && multiset(a) == multiset(b)
    ensures a == b
    decreases |a|
  {
    if |a| > 0 {
      SameHead(a, b);
      SameTail(a, b);
      SortedDescUnique(a[1..], b[1..]);
      assert a == [a[0]] + a[1..] && b == [b[0]] + b[1..];
    } else {
      assert |b| == |multiset(b)| == 0;
    }
  }

  /** Two descending arrangements of one multiset start alike. */
  lemma SameHead(a: seq<string>, b: seq<string>)
    requires SortedDesc(a) && SortedDesc(b) && multiset(a) == multiset(b) && |a| > 0
    ensures |b| > 0 && a[0] == b[0]
  {
    assert a[0] in multiset(b);
    var i :| 0 <= i < |b| && b[i] == a[0];
    assert b[0] in multiset(a);
    var j :| 0 <= j < |a| && a[j] == b[0];
    StrLessIrreflexive(a[0]);
    StrLessIrreflexive(b[0]);
    assert !StrLess(b[0], b[i]);
    assert !StrLess(a[0], a[j]);
    StrLessTotal(a[0], b[0]);
  }

  lemma SameTail(a: seq<string>, b: seq<string>)
    requires multiset(a) == multiset(b) && |a| > 0 && |b| > 0 && a[0] == b[0]
    ensures multiset(a[1..]) == multiset(b[1..])
  {
    assert a == [a[0]] + a[1..] && b == [b[0]] + b[1..];
    forall x
      ensures multiset(a[1..])[x] == multiset(b[1..])[x]
    {
      assert multiset(a)[x] == multiset([a[0]])[x] + multiset(a[1..])[x];
      assert multiset(b)[x] == multiset([a[0]])[x] + multiset(b[1..])[x];
    }
  }

  /** Written names of one pattern compare as their stamps do: the earlier
      date, or on the same date the earlier time, is the smaller name. */
  lemma NamesOrderedByStamp(d1: string, t1: string, c1: string, d2: string, t2: string, c2: string)
    requires Stamped(d1, t1) && Stamped(d2, t2) && (d1 != d2 || t1 != t2)
    ensures StrLess(NightlyApkName(d1, t1, c1), NightlyApkName(d2, t2, c2)) <==>
      DecimalValue(d1) < DecimalValue(d2) || (d1 == d2 && DecimalValue(t1) < DecimalValue(t2))
  {
    var r1, r2 := StampTail(d1, t1, c1), StampTail(d2, t2, c2);
    NameIsPrefixAndTail(d1, t1, c1);
    NameIsPrefixAndTail(d2, t2, c2);
    StrLessCommonPrefix(NightlyPrefix, r1, r2);
    if d1 != d2 {
      DateDecides(d1, t1, c1, d2, t2, c2);
    } else {
      TimeDecides(d1, t1, c1, t2, c2);
    }
  }

  /** A written name without its prefix. */
  function StampTail(d: string, t: string, c: string): string {
    d + "-" + t + "-" + c + ".apk"
  }

  lemma NameIsPrefixAndTail(d: string, t: string, c: string)
    ensures NightlyApkName(d, t, c) == NightlyPrefix + StampTail(d, t, c)
  {
  }

  lemma DateDecides(d1: string, t1: string, c1: string, d2: string, t2: string, c2: string)
    requires Stamped(d1, t1) && Stamped(d2, t2) && d1 != d2
    ensures StrLess(StampTail(d1, t1, c1), StampTail(d2, t2, c2)) <==> DecimalValue(d1) < DecimalValue(d2)
  {
    var r1, r2 := StampTail(d1, t1, c1), StampTail(d2, t2, c2);
    assert r1[..8] == d1 && r2[..8] == d2;
    StrLessDecidedByPrefix(r1, r2, 8);
    DigitsOrderIsNumeric(d1, d2);
  }

  lemma TimeDecides(d: string, t1: string, c1: string, t2: string, c2: string)
    requires Stamped(d, t1) && Stamped(d, t2) && t1 != t2
    ensures StrLess(StampTail(d, t1, c1), StampTail(d, t2, c2)) <==> DecimalValue(t1) < DecimalValue(t2)
  {
    var u1 := t1 + "-" + c1 + ".apk";
    var u2 := t2 + "-" + c2 + ".apk";
    assert StampTail(d, t1, c1) == (d + "-") + u1 && StampTail(d, t2, c2) == (d + "-") + u2;
    StrLessCommonPrefix(d + "-", u1, u2);
    assert u1[..6] == t1 && u2[..6] == t2;
    StrLessDecidedByPrefix(u1, u2, 6);
    DigitsOrderIsNumeric(t1, t2);
  }

  // ---------------------------------------------------------------------
  // listNightlyBuilds and selectNightlyBuild

  const MissingDirError: string := "No nightly builds found. Run nightly build first."
  const EmptyListError: string := "No nightly APK files found in nightly directory."

  /** The listed file names: an error without the directory or without a
      nightly APK in it, otherwise the nightly APKs, newest first. */
  function ListNightlyApks(dirExists: bool, files: seq<string>): (r: Result<seq<string>>)
    ensures !dirExists ==> r == Err(MissingDirError)
    ensures dirExists ==> (r.Err? <==> forall k :: 0 <= k < |files| ==> !IsNightlyApk(files[k]))
    ensures dirExists && r.Err? ==> r.msg == EmptyListError
    ensures r.Ok? ==> |r.value| > 0 && SortedDesc(r.value)
    ensures r.Ok? ==> forall x :: multiset(r.value)[x] == if IsNightlyApk(x) then multiset(files)[x] else 0
  {
    if !dirExists then Err(MissingDirError)
    else
      var apks := SortDesc(Filter(files, IsNightlyApk));
      FilterCounts(files, IsNightlyApk);
      EmptyIffNoneKept(files, IsNightlyApk, apks);
      if |apks| == 0 then Err(EmptyListError) else Ok(apks)
  }

  /** The listing depends only on which entries the directory holds. */
  lemma ListingIgnoresEntryOrder(files1: seq<string>, files2: seq<string>)
    requires multiset(files1) == multiset(files2)
    ensures ListNightlyApks(true, files1) == ListNightlyApks(true, files2)
  {
    var a, b := SortDesc(Filter(files1, IsNightlyApk)), SortDesc(Filter(files2, IsNightlyApk));
    FilterCounts(files1, IsNightlyApk);
    FilterCounts(files2, IsNightlyApk);
    assert multiset(a) == multiset(b) by {
      forall x ensures multiset(a)[x] == multiset(b)[x] {
        assert multiset(files1)[x] == multiset(files2)[x];
      }
    }
    SortedDescUnique(a, b);
  }

  /** One listed build: its file name and the build ID in it. */
  datatype NightlyBuild = NightlyBuild(fileName: string, buildId: Option<string>)

  function Describe(names: seq<string>): (r: seq<NightlyBuild>)
    ensures |r| == |names|
    ensures forall k :: 0 <= k < |r| ==> r[k].fileName == names[k] && r[k].buildId == BuildId(names[k])
  {
    seq(|names|, k requires 0 <= k < |names| => NightlyBuild(names[k], BuildId(names[k])))
  }

  function NotFoundError(id: string): string {
    "Nightly build with ID " + id + " not found."
  }

  /** The index of the first build carrying `id` (`Array.find`). */
  function FindById(builds: seq<NightlyBuild>, id: string): (r: Option<nat>)
    ensures r.Some? ==> r.value < |builds| && builds[r.value].buildId == Some(id)
    ensures r.Some? ==> forall j :: 0 <= j < r.value ==> builds[j].buildId != Some(id)
    ensures r.None? ==> forall j :: 0 <= j < |builds| ==> builds[j].buildId != Some(id)
  {
    if |builds| == 0 then None
    else if builds[0].buildId == Some(id) then Some(0)
    else match FindById(builds[1..], id)
      case None => None
      case Some(i) => Some(i + 1)
  }

  /** `selectNightlyBuild`: a non-empty ID picks the first build carrying it
      or fails; no ID (or an empty one) picks the head of the list. */
  function SelectBuild(builds: seq<NightlyBuild>, id: Option<string>): (r: Result<NightlyBuild>)
    requires |builds| > 0
    ensures (id.None? || id.value == "") ==> r == Ok(builds[0])
    ensures id.Some? && id.value != "" ==>
      (r.Ok? <==> exists k :: 0 <= k < |builds| && builds[k].buildId == id)
    ensures id.Some? && id.value != "" && r.Ok? ==> (r.value.buildId == id
      && exists k :: (0 <= k < |builds| && builds[k] == r.value
        && forall j :: 0 <= j < k ==> builds[j].buildId != id))
    ensures r.Err? ==> r.msg == NotFoundError(id.value)
  {
    if id.Some? && id.value != "" then
      match FindById(builds, id.value)
      case None => Err(NotFoundError(id.value))
      case Some(i) => Ok(builds[i])
    else Ok(builds[0])
  }

  /** Both scripts list, then select. */
  function ListAndSelect(dirExists: bool, files: seq<string>, id: Option<string>): (r: Result<NightlyBuild>)
    ensures ListNightlyApks(dirExists, files).Err? ==> r == Err(ListNightlyApks(dirExists, files).msg)
    ensures ListNightlyApks(dirExists, files).Ok? && (id.None? || id.value == "") ==>
      r.Ok? && r.value.fileName == ListNightlyApks(dirExists, files).value[0]
  {
    var names :- ListNightlyApks(dirExists, files);
    SelectBuild(Describe(names), id)
  }

  /** Without an ID the newest listed build is chosen: no listed name is
      larger. */
  lemma DefaultIsNewest(dirExists: bool, files: seq<string>, id: Option<string>)
    requires ListAndSelect(dirExists, files, None).Ok?
    ensures forall k :: 0 <= k < |files| && IsNightlyApk(files[k]) ==>
      !StrLess(ListAndSelect(dirExists, files, None).value.fileName, files[k])
  {
    var names := ListNightlyApks(dirExists, files).value;
    forall k | 0 <= k < |files| && IsNightlyApk(files[k])
      ensures !StrLess(names[0], files[k])
    {
      assert files[k] in multiset(files);
      assert multiset(names)[files[k]] > 0;
      var j :| 0 <= j < |names| && names[j] == files[k];
      if j > 0 {
        assert !StrLess(names[0], names[j]);
      } else {
        StrLessIrreflexive(names[0]);
      }
    }
  }
}
