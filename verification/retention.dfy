/** Retention pruning in nightly-apk.js (`cleanOldNightlyBuilds`) and the
    `--keep-builds` option that sets how many builds it keeps. The nightly
    directory is a sequence of entry names in `readdir` order; deleting a
    file that is not there is skipped, so a prune is a set of names to
    remove. */
module Retention {
  import opened Results
  import opened Text
  import opened JsNumber
  import opened Nightly
  import BuildPipeline

  // ---------------------------------------------------------------------
  // Which APKs go

  /** `array.slice(start)`: a negative start counts from the end. */
  function SliceFrom(s: seq<string>, start: int): (r: seq<string>)
    ensures |r| <= |s| && r == s[|s| - |r|..]
    ensures start >= 0 ==> |r| == if start < |s| then |s| - start else 0
    ensures start < 0 ==> |r| == if -start < |s| then -start else |s|
  {
    if start >= 0 then (if start < |s| then s[start..] else [])
    else if |s| + start > 0 then s[|s| + start..] else s
  }

  /** The APKs deleted from the newest-first listing: with more entries than
      `keepCount`, those after the first `keepCount` (a negative count
      selects that many from the end); otherwise none. */
  function ToDelete(listing: seq<string>, keepCount: int): (r: seq<string>)
    ensures |r| <= |listing| && r == listing[|listing| - |r|..]
    ensures |listing| <= keepCount ==> r == []
    ensures 0 <= keepCount < |listing| ==> listing[..keepCount] + r == listing
    ensures keepCount < 0 ==> |r| == if -keepCount < |listing| then -keepCount else |listing|
  {
    if |listing| > keepCount then SliceFrom(listing, keepCount) else []
  }

  /** The newest-first listing `cleanOldNightlyBuilds` builds, with the same
      filter as the release scripts. */
  function PruneListing(files: seq<string>): (r: seq<string>)
    ensures SortedDesc(r)
    ensures forall x :: x in r ==> IsNightlyApk(x) && x in files
  {
    var apks := Filter(files, IsNightlyApk);
    var sorted := SortDesc(apks);
    forall x | x in sorted
      ensures IsNightlyApk(x) && x in files
    {
      FilterCount(files, IsNightlyApk, x);
      assert multiset(sorted)[x] > 0;
    }
    sorted
  }

  /** The builds kept are the newest: every listed build before the
      deleted tail is, in name order, at least as new as every deleted one.
      For a count of at least zero the kept builds are the first
      `keepCount`; a negative count keeps all but the last `-keepCount`. */
  lemma KeptAreNewest(files: seq<string>, keepCount: int)
    ensures var listing := PruneListing(files);
      var kept := |listing| - |ToDelete(listing, keepCount)|;
      forall i, x :: 0 <= i < kept && x in ToDelete(listing, keepCount) ==> !StrLess(listing[i], x)
  {
    KeptBeforeDeleted(PruneListing(files), keepCount);
  }

  lemma KeptBeforeDeleted(listing: seq<string>, keepCount: int)
    requires SortedDesc(listing)
    ensures var kept := |listing| - |ToDelete(listing, keepCount)|;
      forall i, x :: 0 <= i < kept && x in ToDelete(listing, keepCount) ==> !StrLess(listing[i], x)
  {
    var del := ToDelete(listing, keepCount);
    forall i, x | 0 <= i < |listing| - |del| && x in del
      ensures !StrLess(listing[i], x)
    {
      var j :| 0 <= j < |del| && del[j] == x;
      var m := DeletedIndex(listing, keepCount, j);
      assert i < m;
    }
  }

  /** Where the `j`-th deleted build sits in the listing: in the tail,
      at or after position `keepCount`. */
  lemma DeletedIndex(listing: seq<string>, keepCount: int, j: nat) returns (m: nat)
    requires j < |ToDelete(listing, keepCount)|
    ensures keepCount <= m < |listing| && listing[m] == ToDelete(listing, keepCount)[j]
    ensures m == |listing| - |ToDelete(listing, keepCount)| + j
  {
    var del := ToDelete(listing, keepCount);
    m := |listing| - |del| + j;
    assert del[j] == listing[m];
  }

  /** Members of the prune set are listed nightly APKs from the directory. */
  lemma DeletedAreListed(files: seq<string>, keepCount: int, x: string)
    requires x in ToDelete(PruneListing(files), keepCount)
    ensures IsNightlyApk(x) && x in files
  {
    DeletedWereListed(PruneListing(files), keepCount, x);
  }

  lemma DeletedWereListed(listing: seq<string>, keepCount: int, x: string)
    requires x in ToDelete(listing, keepCount)
    ensures x in listing
  {
    var del := ToDelete(listing, keepCount);
    var j :| 0 <= j < |del| && del[j] == x;
    assert x == listing[|listing| - |del| + j];
  }

  // ---------------------------------------------------------------------
  // Companion files, as the script computes them

  /** `apkFile.replace('.apk', '')` and then `.replace('playtivity-nightly-', '')`. */
  function CompanionStem(apk: string): string {
    ReplaceFirst(ReplaceFirst(apk, ".apk", ""), NightlyPrefix, "")
  }

  function InfoToPrune(apk: string): string {
    "nightly-info-" + CompanionStem(apk) + ".json"
  }

  function NotesToPrune(apk: string): string {
    "nightly-notes-" + CompanionStem(apk) + ".md"
  }

  /** One deleted APK with the info and notes names computed from it. */
  function Companions(apk: string): set<string> {
    {apk, InfoToPrune(apk), NotesToPrune(apk)}
  }

  /** The names removed for the deleted APKs `del`. */
  function RemovedAsWritten(del: seq<string>): (r: set<string>)
    ensures forall x :: x in del ==> Companions(x) <= r
  {
    if |del| == 0 then {} else Companions(del[0]) + RemovedAsWritten(del[1..])
  }

  /** Nothing else is removed: each removed name belongs to some deleted
      APK. */
  lemma {:induction false} RemovedFrom(del: seq<string>, y: string)
    requires y in RemovedAsWritten(del)
    ensures exists k :: 0 <= k < |del| && y in Companions(del[k])
    decreases |del|
  {
    if y !in Companions(del[0]) {
      RemovedFrom(del[1..], y);
      var k :| 0 <= k < |del[1..]| && y in Companions(del[1..][k]);
      assert y in Companions(del[k + 1]);
    }
  }

  /** Everything `cleanOldNightlyBuilds` removes from a directory: nothing
      while the listing holds at most `keepCount` builds, otherwise each
      deleted APK with the info and notes names computed from it. */
  function PruneAsWritten(files: seq<string>, keepCount: int): (r: set<string>)
    ensures |PruneListing(files)| <= keepCount ==> r == {}
    ensures forall x :: x in ToDelete(PruneListing(files), keepCount) ==>
      x in r && InfoToPrune(x) in r && NotesToPrune(x) in r
  {
    RemovedAsWritten(ToDelete(PruneListing(files), keepCount))
  }

  /** The companion stem of a written name still carries the commit. */
  lemma StemOfWrittenName(dateStr: string, timeStr: string, commit: string)
    requires Stamped(dateStr, timeStr) && '.' !in commit
    ensures CompanionStem(NightlyApkName(dateStr, timeStr, commit)) == dateStr + "-" + timeStr + "-" + commit
  {
    var stem := dateStr + "-" + timeStr + "-" + commit;
    var body := NightlyPrefix + stem;
    assert NightlyApkName(dateStr, timeStr, commit) == body + ".apk";
    BodyHasNoDot(dateStr, timeStr, commit);
    StripApk(body);
    StripPrefix(stem);
  }

  lemma BodyHasNoDot(dateStr: string, timeStr: string, commit: string)
    requires Stamped(dateStr, timeStr) && '.' !in commit
    ensures '.' !in NightlyPrefix + (dateStr + "-" + timeStr + "-" + commit)
  {
    var stem := dateStr + "-" + timeStr + "-" + commit;
    var body := NightlyPrefix + stem;
    forall j | 0 <= j < |body|
      ensures body[j] != '.'
    {
      if j < |NightlyPrefix| {
        PrefixLetters(j);
        assert body[j] == NightlyPrefix[j];
      } else {
        assert body[j] == stem[j - |NightlyPrefix|];
        StemHasNoDot(dateStr, timeStr, commit, j - |NightlyPrefix|);
      }
    }
  }

  /** Dropping the first `.apk` from a dot-free name plus `.apk`. */
  lemma StripApk(body: string)
    requires '.' !in body
    ensures ReplaceFirst(body + ".apk", ".apk", "") == body
  {
    var n := body + ".apk";
    var cut := |body|;
    assert n[cut..] == ".apk";
    assert OccursAt(n, ".apk", cut);
    var i := IndexOf(n, ".apk").value;
    assert n[i..i + 4][0] == n[i];
    assert i == cut;
  }

  /** Dropping the prefix from a name that starts with it. */
  lemma StripPrefix(stem: string)
    ensures ReplaceFirst(NightlyPrefix + stem, NightlyPrefix, "") == stem
  {
    var first := NightlyPrefix + stem;
    assert OccursAt(first, NightlyPrefix, 0);
    assert IndexOf(first, NightlyPrefix) == Some(0);
  }

  lemma StemHasNoDot(dateStr: string, timeStr: string, commit: string, k: nat)
    requires Stamped(dateStr, timeStr) && '.' !in commit
    requires k < |dateStr + "-" + timeStr + "-" + commit|
    ensures (dateStr + "-" + timeStr + "-" + commit)[k] != '.'
  {
    var stem := dateStr + "-" + timeStr + "-" + commit;
    if k < 8 {
      assert stem[k] == dateStr[k];
    } else if 9 <= k < 15 {
      assert stem[k] == timeStr[k - 9];
    } else if k >= 16 {
      assert stem[k] == commit[k - 16];
    }
  }

  /** Whatever a long-enough APK name is, its stem has at least 16
      characters: at most the suffix and the prefix are removed. */
  lemma CompanionStemLength(apk: string)
    requires |apk| >= 39 && EndsWith(apk, ".apk")
    ensures |CompanionStem(apk)| >= 16
  {
    assert OccursAt(apk, ".apk", |apk| - 4);
    assert Contains(apk, ".apk");
    var first := ReplaceFirst(apk, ".apk", "");
    assert |first| == |apk| - 4;
  }

  /** A long-enough nightly APK name and the companions computed from it
      differ from every sidecar name the writer produces: the computed
      names are longer, or differ in their ninth letter. */
  lemma NotASidecar(x: string, dateStr: string, timeStr: string)
    requires LongApk(x)
    requires |dateStr| == 8 && |timeStr| == 6
    ensures x != InfoName(dateStr, timeStr) && x != NotesName(dateStr, timeStr)
    ensures InfoToPrune(x) != InfoName(dateStr, timeStr) && InfoToPrune(x) != NotesName(dateStr, timeStr)
    ensures NotesToPrune(x) != InfoName(dateStr, timeStr) && NotesToPrune(x) != NotesName(dateStr, timeStr)
  {
    var info, notes := InfoName(dateStr, timeStr), NotesName(dateStr, timeStr);
    assert |info| == 33 && info[0] == 'n' && info[8] == 'i';
    assert |notes| == 32 && notes[0] == 'n' && notes[8] == 'n';
    CompanionStemLength(x);
    assert InfoToPrune(x)[8] == 'i' && NotesToPrune(x)[8] == 'n';
  }

  /** What the sidecar argument needs of a listed APK: the length of a
      stamped name, the leading `p` and the `.apk` ending. */
  predicate LongApk(x: string) {
    |x| >= 39 && x[0] == 'p' && EndsWith(x, ".apk")
  }

  lemma ListedLongApk(x: string)
    requires IsNightlyApk(x) && |x| >= 39
    ensures LongApk(x)
  {
    assert x[..|NightlyPrefix|] == NightlyPrefix;
    assert x[0] == NightlyPrefix[0];
  }

  /** The sidecars the writer produces for any date and time are never in
      the prune set, provided every listed APK carries the stamp (true of
      every name the writer produces). */
  lemma SidecarsNeverPruned(files: seq<string>, keepCount: int, dateStr: string, timeStr: string)
    requires forall k :: 0 <= k < |files| && IsNightlyApk(files[k]) ==> |files[k]| >= 39
    requires |dateStr| == 8 && |timeStr| == 6
    ensures InfoName(dateStr, timeStr) !in PruneAsWritten(files, keepCount)
    ensures NotesName(dateStr, timeStr) !in PruneAsWritten(files, keepCount)
  {
    var del := ToDelete(PruneListing(files), keepCount);
    forall k | 0 <= k < |del|
      ensures LongApk(del[k])
    {
      DeletedAreListed(files, keepCount, del[k]);
      var i :| 0 <= i < |files| && files[i] == del[k];
      ListedLongApk(del[k]);
    }
    NoSidecarRemoved(del, dateStr, timeStr);
  }

  lemma {:induction false} NoSidecarRemoved(del: seq<string>, dateStr: string, timeStr: string)
    requires forall k :: 0 <= k < |del| ==> LongApk(del[k])
    requires |dateStr| == 8 && |timeStr| == 6
    ensures InfoName(dateStr, timeStr) !in RemovedAsWritten(del)
    ensures NotesName(dateStr, timeStr) !in RemovedAsWritten(del)
    decreases |del|
  {
    if |del| > 0 {
      NotASidecar(del[0], dateStr, timeStr);
      var rest := del[1..];
      forall k | 0 <= k < |rest|
        ensures LongApk(rest[k])
      {
        assert rest[k] == del[k + 1];
      }
      NoSidecarRemoved(rest, dateStr, timeStr);
    }
  }

  /** The fixed-name copies survive every prune. */
  lemma AliasesSurvivePrune(files: seq<string>, keepCount: int)
    ensures LatestNightlyAlias !in PruneAsWritten(files, keepCount)
    ensures LatestInfoName !in PruneAsWritten(files, keepCount)
    ensures LatestNotesName !in PruneAsWritten(files, keepCount)
  {
    var del := ToDelete(PruneListing(files), keepCount);
    forall k | 0 <= k < |del|
      ensures ApkShaped(del[k])
    {
      DeletedAreListed(files, keepCount, del[k]);
      ListedApkShape(del[k]);
    }
    AliasApkKept(del);
    AliasInfoKept(del);
    AliasNotesKept(del);
  }

  /** Whatever APKs are deleted, as long as they are shaped like listed
      ones (`ListedApkShape`), the fixed-name copies are not removed. */
  lemma AliasApkKept(del: seq<string>)
    requires forall k :: 0 <= k < |del| ==> ApkShaped(del[k])
    ensures LatestNightlyAlias !in RemovedAsWritten(del)
  {
    AliasesAreForeign();
    ForeignNotRemoved(del, LatestNightlyAlias);
  }

  lemma AliasInfoKept(del: seq<string>)
    requires forall k :: 0 <= k < |del| ==> ApkShaped(del[k])
    ensures LatestInfoName !in RemovedAsWritten(del)
  {
    AliasesAreForeign();
    ForeignNotRemoved(del, LatestInfoName);
  }

  lemma AliasNotesKept(del: seq<string>)
    requires forall k :: 0 <= k < |del| ==> ApkShaped(del[k])
    ensures LatestNotesName !in RemovedAsWritten(del)
  {
    AliasesAreForeign();
    ForeignNotRemoved(del, LatestNotesName);
  }

  /** No foreign name is ever removed. */
  lemma {:induction false} ForeignNotRemoved(del: seq<string>, y: string)
    requires forall k :: 0 <= k < |del| ==> ApkShaped(del[k])
    requires Foreign(y)
    ensures y !in RemovedAsWritten(del)
    decreases |del|
  {
    if |del| > 0 {
      NotACompanion(del[0], y);
      var rest := del[1..];
      forall k | 0 <= k < |rest|
        ensures ApkShaped(rest[k])
      {
        assert rest[k] == del[k + 1];
      }
      ForeignNotRemoved(rest, y);
    }
  }

  /** Computed companion names start with `n`, and a listed APK has `n` at
      index 11; a foreign name has neither. */
  lemma NotACompanion(x: string, y: string)
    requires ApkShaped(x) && Foreign(y)
    ensures y !in Companions(x)
  {
    assert InfoToPrune(x)[0] == 'n' && NotesToPrune(x)[0] == 'n';
  }

  /** A name shaped unlike every pruned name: listed APKs have `n` at
      index 11 (from `playtivity-nightly-`) and computed companions start
      with `n`. */
  predicate Foreign(y: string) {
    |y| > 11 && y[0] != 'n' && y[11] != 'n'
  }

  /** The `n` of `nightly` at index 11 that every listed APK carries. */
  predicate ApkShaped(x: string) {
    |x| > 11 && x[11] == 'n'
  }

  lemma ListedApkShape(x: string)
    requires IsNightlyApk(x)
    ensures ApkShaped(x)
  {
    assert x[..|NightlyPrefix|] == NightlyPrefix;
    assert x[11] == NightlyPrefix[11];
  }

  /** The fixed-name copies the nightly build keeps next to the dated files
      are foreign to every prune. */
  lemma AliasesAreForeign()
    ensures Foreign(LatestNightlyAlias) && Foreign(LatestInfoName) && Foreign(LatestNotesName)
  {
    assert LatestNightlyAlias[0] == 'p' && LatestNightlyAlias[11] == 'l';
    assert LatestInfoName[0] == 'l' && LatestInfoName[11] == 't';
    assert LatestNotesName[0] == 'l' && LatestNotesName[11] == 't';
  }

  // ---------------------------------------------------------------------
  // Companion files keyed by build ID

  /** The info and notes names of the build whose ID is `id`: the names the
      writer uses, and the info name the listings read back. */
  function IdInfoName(id: string): string {
    "nightly-info-" + id + ".json"
  }

  function IdNotesName(id: string): string {
    "nightly-notes-" + id + ".md"
  }

  /** One deleted APK with the companions named from its build ID (only the
      APK when its name has none). */
  function CompanionsById(apk: string): set<string> {
    match BuildId(apk)
    case None => {apk}
    case Some(id) => {apk, IdInfoName(id), IdNotesName(id)}
  }

  /** The names removed for `del` when the companions are named from the
      build ID in each APK name. */
  function RemovedById(del: seq<string>): (r: set<string>)
    ensures forall x :: x in del ==> CompanionsById(x) <= r
  {
    if |del| == 0 then {} else CompanionsById(del[0]) + RemovedById(del[1..])
  }

  /** Each name the corrected prune removes belongs to some deleted APK. */
  lemma {:induction false} RemovedByIdFrom(del: seq<string>, y: string)
    requires y in RemovedById(del)
    ensures exists k :: 0 <= k < |del| && y in CompanionsById(del[k])
    decreases |del|
  {
    if y !in CompanionsById(del[0]) {
      RemovedByIdFrom(del[1..], y);
      var k :| 0 <= k < |del[1..]| && y in CompanionsById(del[1..][k]);
      assert y in CompanionsById(del[k + 1]);
    }
  }

  /** Pruning with companion names computed from the build ID: nothing
      while the listing holds at most `keepCount` builds, otherwise each
      deleted APK with the info and notes files named from its ID. */
  function PruneCorrected(files: seq<string>, keepCount: int): (r: set<string>)
    ensures |PruneListing(files)| <= keepCount ==> r == {}
    ensures forall x :: x in ToDelete(PruneListing(files), keepCount) ==>
      x in r && (BuildId(x).Some? ==> IdInfoName(BuildId(x).value) in r && IdNotesName(BuildId(x).value) in r)
  {
    RemovedById(ToDelete(PruneListing(files), keepCount))
  }

  /** Deleting a written build also deletes the sidecars written with it. */
  lemma CorrectedPrunesSidecars(files: seq<string>, keepCount: int, dateStr: string, timeStr: string, commit: string)
    requires Stamped(dateStr, timeStr)
    requires NightlyApkName(dateStr, timeStr, commit) in ToDelete(PruneListing(files), keepCount)
    ensures InfoName(dateStr, timeStr) in PruneCorrected(files, keepCount)
    ensures NotesName(dateStr, timeStr) in PruneCorrected(files, keepCount)
  {
    var del := ToDelete(PruneListing(files), keepCount);
    var n := NightlyApkName(dateStr, timeStr, commit);
    SidecarsById(dateStr, timeStr, commit);
    assert CompanionsById(n) <= RemovedById(del);
  }

  /** The companions named from a written build's ID are its sidecars. */
  lemma SidecarsById(dateStr: string, timeStr: string, commit: string)
    requires Stamped(dateStr, timeStr)
    ensures InfoName(dateStr, timeStr) in CompanionsById(NightlyApkName(dateStr, timeStr, commit))
    ensures NotesName(dateStr, timeStr) in CompanionsById(NightlyApkName(dateStr, timeStr, commit))
  {
    BuildIdOfApkName(dateStr, timeStr, commit);
    assert IdInfoName(dateStr + "-" + timeStr) == InfoName(dateStr, timeStr);
    assert IdNotesName(dateStr + "-" + timeStr) == NotesName(dateStr, timeStr);
  }

  /** The script as written leaves those same sidecars behind: called as
      `cleanOldNightlyBuilds(0)` on a directory holding a single written
      build, it deletes the APK and leaves its info and notes files. (The
      command line never passes 0, see `KeepZeroIsDefault`; any count below
      the number of builds has the same effect on the oldest ones.) */
  lemma AsWrittenLeavesSidecars(dateStr: string, timeStr: string, commit: string)
    requires Stamped(dateStr, timeStr) && 'l' !in commit
    ensures var n := NightlyApkName(dateStr, timeStr, commit);
      && n in PruneAsWritten([n], 0)
      && InfoName(dateStr, timeStr) !in PruneAsWritten([n], 0)
      && NotesName(dateStr, timeStr) !in PruneAsWritten([n], 0)
  {
    var n := NightlyApkName(dateStr, timeStr, commit);
    var files := [n];
    WrittenNameHasId(dateStr, timeStr, commit);
    WrittenApkIsListed(dateStr, timeStr, commit);
    FilterCount(files, IsNightlyApk, n);
    var listing := PruneListing(files);
    assert multiset(listing)[n] == 1;
    assert n in listing;
    assert ToDelete(listing, 0) == listing;
    SidecarsNeverPruned(files, 0, dateStr, timeStr);
  }

  // ---------------------------------------------------------------------
  // --keep-builds

  const DefaultKeep: int := 5

  /** The value after the first `--keep-builds`, when it is there and not
      empty, read with `parseInt(...) || 5`. */
  function KeepBuilds(args: seq<string>): (r: int)
    ensures r != 0
    ensures BuildPipeline.FlagValue(args, "--keep-builds").None? ==> r == DefaultKeep
    ensures BuildPipeline.FlagValue(args, "--keep-builds").Some? ==>
      var n := ParseInt(BuildPipeline.FlagValue(args, "--keep-builds").value);
      r == if n.Int? && n.i != 0 then n.i else DefaultKeep
  {
    match BuildPipeline.FlagValue(args, "--keep-builds")
    case None => DefaultKeep
    case Some(v) => OrDefault(ParseInt(v), DefaultKeep)
  }

  /** `--keep-builds 0` and a non-number both fall back to 5; a negative
      count is taken as it is. */
  lemma KeepZeroIsDefault()
    ensures KeepBuilds(["--keep-builds", "0"]) == DefaultKeep
  {
    assert BuildPipeline.FlagValue(["--keep-builds", "0"], "--keep-builds") == Some("0");
    ParseIntOfNatToString(0);
    assert NatToString(0) == "0";
  }

  lemma KeepNegativeIsTaken()
    ensures KeepBuilds(["--keep-builds", "-2"]) == -2
  {
    assert BuildPipeline.FlagValue(["--keep-builds", "-2"], "--keep-builds") == Some("-2");
    ParseMinusTwo();
  }

  lemma ParseMinusTwo()
    ensures ParseInt("-2") == Int(-2)
  {
    var s := "-2";
    TrimStartUntouched(s);
    assert s[1..] == "2" && "2" + [] == "2";
    ParseUnsignedDigitsThenText("2", []);
    assert DecimalValue("2") == 2;
  }

  lemma KeepMissingValueIsDefault()
    ensures KeepBuilds(["--keep-builds"]) == DefaultKeep
  {
  }
}
