/** nightly-apk.js `buildNightly`: stamp the pubspec with a nightly version,
    run the Flutter steps, copy the APK into the nightly directory with its
    info and notes files, prune old builds, and put the pubspec back. The
    file system is the pubspec text and the list of names in the nightly
    directory; git, the clock and the Flutter tools are inputs. */
module NightlyRun {
  import opened Results
  import opened Text
  import opened Versioning
  import opened Nightly
  import opened Retention
  import BuildPipeline

  // ---------------------------------------------------------------------
  // The nightly directory

  /** Copying a file in: a name already there is overwritten in place. */
  function Put(dir: seq<string>, name: string): (r: seq<string>)
    ensures name in r
    ensures forall y :: y in r <==> y in dir || y == name
  {
    if name in dir then dir else dir + [name]
  }

  /** Unlinking every name of `gone` that exists. */
  function Remove(dir: seq<string>, gone: set<string>): (r: seq<string>)
    ensures forall y :: y in r <==> y in dir && y !in gone
  {
    var keep := (y: string) => y !in gone;
    var r := Filter(dir, keep);
    forall y
      ensures y in r <==> y in dir && y !in gone
    {
      FilterCount(dir, keep, y);
      assert y in r <==> multiset(r)[y] > 0;
      assert y in dir <==> multiset(dir)[y] > 0;
    }
    r
  }

  datatype Store = Store(pubspec: string, dir: seq<string>)

  /** What the run reads from outside: the short commit hash (`None` when
      git fails), the date and time stamps and Unix seconds of the clock,
      the outcome of each Flutter step, and whether the release APK exists
      afterwards. */
  datatype Inputs = Inputs(
    commit: Option<string>,
    dateStr: string, timeStr: string, unixSeconds: int,
    steps: BuildPipeline.Outcomes,
    apkProduced: bool)

  /** `getGitInfo`: the fallback commit is `unknown`. */
  function CommitOf(inp: Inputs): (c: string)
    ensures inp.commit.None? ==> c == "unknown"
    ensures inp.commit.Some? ==> c == inp.commit.value
  {
    match inp.commit
    case None => "unknown"
    case Some(c) => c
  }

  /** The store after the run, and the process exit status. */
  datatype Outcome = Outcome(store: Store, exitCode: int)

  /** The files a successful run writes, in order: the timestamped APK, the
      alias, the info file and its latest copy, the notes file and its
      latest copy. */
  function Written(inp: Inputs): seq<string> {
    [ NightlyApkName(inp.dateStr, inp.timeStr, CommitOf(inp)), LatestNightlyAlias,
      InfoName(inp.dateStr, inp.timeStr), LatestInfoName,
      NotesName(inp.dateStr, inp.timeStr), LatestNotesName ]
  }

  function PutAll(dir: seq<string>, names: seq<string>): (r: seq<string>)
    ensures forall y :: y in r <==> y in dir || y in names
    decreases |names|
  {
    if |names| == 0 then dir else PutAll(Put(dir, names[0]), names[1..])
  }

  /** Whether every step the build method starts succeeds or is advisory. */
  predicate BuildSucceeds(inp: Inputs) {
    BuildPipeline.RunSteps(BuildPipeline.DevOrder, inp.steps).ok
  }

  /** The run with either prune: `byId` selects the corrected one, which
      names the companions from the build ID. */
  function RunWithPrune(s: Store, inp: Inputs, keepBuilds: int, byId: bool): Outcome {
    match CreateNightlyVersion(s.pubspec, inp.dateStr, inp.timeStr, inp.unixSeconds)
    case Err(_) => Outcome(s, 1)
    case Ok((v, stamped)) =>
      BackupIsNotEmpty(s.pubspec);
      var during := Store(stamped, s.dir);
      if !BuildSucceeds(inp) || !inp.apkProduced then
        Outcome(Restore(during, v.backup), 1)
      else
        var written := PutAll(during.dir, Written(inp));
        var gone := if byId then PruneCorrected(written, keepBuilds) else PruneAsWritten(written, keepBuilds);
        Outcome(Restore(Store(during.pubspec, Remove(written, gone)), v.backup), 0)
  }

  /** `buildNightly(keepBuilds)`, pruning with `cleanOldNightlyBuilds` as
      written. A pubspec without a version line stops the run before
      anything is written. A failed build or a missing APK restores the
      pubspec from the backup (which is never empty, since it holds a
      version line) and exits with 1. Otherwise the files are written, old
      builds are pruned, and the pubspec is restored. */
  function BuildNightly(s: Store, inp: Inputs, keepBuilds: int): (r: Outcome)
    ensures r.store.pubspec == s.pubspec
    ensures r.exitCode == 0 <==>
      ParseFirstVersionLine(s.pubspec).Ok? && BuildSucceeds(inp) && inp.apkProduced
    ensures r.exitCode == 0 || r.exitCode == 1
    ensures r.exitCode == 1 ==> r.store == s
  {
    RunWithPrune(s, inp, keepBuilds, false)
  }

  /** The same run with the corrected prune of `Retention.PruneCorrected`. */
  function BuildNightlyCorrected(s: Store, inp: Inputs, keepBuilds: int): (r: Outcome)
    ensures r.store.pubspec == s.pubspec
    ensures r.exitCode == 0 <==>
      ParseFirstVersionLine(s.pubspec).Ok? && BuildSucceeds(inp) && inp.apkProduced
    ensures r.exitCode == 0 || r.exitCode == 1
    ensures r.exitCode == 1 ==> r.store == s
  {
    RunWithPrune(s, inp, keepBuilds, true)
  }

  /** The catch block's `if (versionBackup)`: an empty backup is falsy and
      is not written back. */
  function Restore(s: Store, backup: string): (r: Store)
    ensures r.dir == s.dir
    ensures backup != "" ==> r.pubspec == backup
  {
    if backup != "" then Store(backup, s.dir) else s
  }

  /** Content with a version line is never empty. */
  lemma BackupIsNotEmpty(content: string)
    ensures ParseFirstVersionLine(content).Ok? ==> content != ""
  {
    if content == "" {
      assert Lines(content) == [""];
      assert !StartsWith("", VersionKey);
    }
  }

  /** Every nightly APK in the directory carries a name as long as the ones
      the script writes (prefix, stamp, a commit, `.apk`). */
  predicate WriterNamed(dir: seq<string>) {
    forall k :: 0 <= k < |dir| && IsNightlyApk(dir[k]) ==> |dir[k]| >= 39
  }

  /** After a successful run of the script as written, the fixed-name
      copies are there, every file the directory held that is not a listed
      nightly APK or a file named after a build is still there, and no info
      or notes file named after a date and time is ever removed: the ones
      this run wrote are there, and so is every such file the directory
      held, including those of the builds the prune deleted. */
  lemma SuccessfulRunLeavesDirectory(s: Store, inp: Inputs, keepBuilds: int)
    requires BuildNightly(s, inp, keepBuilds).exitCode == 0
    requires Stamped(inp.dateStr, inp.timeStr) && WriterNamed(s.dir)
    ensures var d := BuildNightly(s, inp, keepBuilds).store.dir;
      && LatestNightlyAlias in d && LatestInfoName in d && LatestNotesName in d
    ensures var d := BuildNightly(s, inp, keepBuilds).store.dir;
      forall y :: y in s.dir && !IsNightlyApk(y) && !StartsWith(y, "nightly-") ==> y in d
    ensures var d := BuildNightly(s, inp, keepBuilds).store.dir;
      InfoName(inp.dateStr, inp.timeStr) in d && NotesName(inp.dateStr, inp.timeStr) in d
    ensures var d := BuildNightly(s, inp, keepBuilds).store.dir;
      forall dt, tm :: |dt| == 8 && |tm| == 6 && InfoName(dt, tm) in s.dir ==> InfoName(dt, tm) in d
    ensures var d := BuildNightly(s, inp, keepBuilds).store.dir;
      forall dt, tm :: |dt| == 8 && |tm| == 6 && NotesName(dt, tm) in s.dir ==> NotesName(dt, tm) in d
  {
    var v := CreateNightlyVersion(s.pubspec, inp.dateStr, inp.timeStr, inp.unixSeconds).value.0;
    BackupIsNotEmpty(s.pubspec);
    var written := PutAll(s.dir, Written(inp));
    var gone := PruneAsWritten(written, keepBuilds);
    var d := Remove(written, gone);
    assert BuildNightly(s, inp, keepBuilds).store.dir == d;
    var del := ToDelete(PruneListing(written), keepBuilds);
    forall k | 0 <= k < |del|
      ensures IsNightlyApk(del[k])
    {
      DeletedAreListed(written, keepBuilds, del[k]);
    }
    AliasesSurvivePrune(written, keepBuilds);
    forall y | y in s.dir && !IsNightlyApk(y) && !StartsWith(y, "nightly-")
      ensures y in d
    {
      OnlyNightlyNamesRemovedAsWritten(del, y);
    }
    WrittenStaysWriterNamed(s.dir, inp);
    SidecarsNeverPruned(written, keepBuilds, inp.dateStr, inp.timeStr);
    forall dt, tm | |dt| == 8 && |tm| == 6
      ensures InfoName(dt, tm) !in gone && NotesName(dt, tm) !in gone
    {
      SidecarsNeverPruned(written, keepBuilds, dt, tm);
    }
  }

  /** The names the run writes keep the directory writer-named. */
  lemma WrittenStaysWriterNamed(dir: seq<string>, inp: Inputs)
    requires Stamped(inp.dateStr, inp.timeStr) && WriterNamed(dir)
    ensures WriterNamed(PutAll(dir, Written(inp)))
  {
    var w := PutAll(dir, Written(inp));
    forall k | 0 <= k < |w| && IsNightlyApk(w[k])
      ensures |w[k]| >= 39
    {
      var y := w[k];
      if y !in dir {
        assert y in Written(inp);
        WrittenApksAreLong(inp, y);
      } else {
        var i :| 0 <= i < |dir| && dir[i] == y;
      }
    }
  }

  lemma WrittenApksAreLong(inp: Inputs, y: string)
    requires Stamped(inp.dateStr, inp.timeStr)
    requires y in Written(inp) && IsNightlyApk(y)
    ensures |y| >= 39
  {
    AliasIsNotListed();
    NotAnApk(InfoName(inp.dateStr, inp.timeStr));
    NotAnApk(NotesName(inp.dateStr, inp.timeStr));
    NotAnApk(LatestInfoName);
    NotAnApk(LatestNotesName);
    WrittenNameHasId(inp.dateStr, inp.timeStr, CommitOf(inp));
  }

  /** A name that does not start with `p` is not a nightly APK. */
  lemma NotAnApk(y: string)
    requires |y| > 0 && y[0] != 'p'
    ensures !IsNightlyApk(y)
  {
  }

  /** The prune as written only names listed APKs and files starting with
      `nightly-`. */
  lemma {:induction false} OnlyNightlyNamesRemovedAsWritten(del: seq<string>, y: string)
    requires forall k :: 0 <= k < |del| ==> IsNightlyApk(del[k])
    requires !IsNightlyApk(y) && !StartsWith(y, "nightly-")
    ensures y !in RemovedAsWritten(del)
    decreases |del|
  {
    if |del| > 0 {
      ComputedCompanionsAreNightlyNames(del[0], y);
      var rest := del[1..];
      forall k | 0 <= k < |rest|
        ensures IsNightlyApk(rest[k])
      {
        assert rest[k] == del[k + 1];
      }
      OnlyNightlyNamesRemovedAsWritten(rest, y);
    }
  }

  lemma ComputedCompanionsAreNightlyNames(x: string, y: string)
    ensures y in Companions(x) ==> y == x || StartsWith(y, "nightly-")
  {
    CompanionNamesLed(CompanionStem(x));
  }

  lemma CompanionNamesLed(stem: string)
    ensures StartsWith("nightly-info-" + stem + ".json", "nightly-")
    ensures StartsWith("nightly-notes-" + stem + ".md", "nightly-")
  {
    LedBy("nightly-info-", "nightly-", stem);
    LedBy("nightly-info-" + stem, "nightly-", ".json");
    LedBy("nightly-notes-", "nightly-", stem);
    LedBy("nightly-notes-" + stem, "nightly-", ".md");
  }

  lemma LedBy(p: string, q: string, t: string)
    requires StartsWith(p, q)
    ensures StartsWith(p + t, q)
  {
    assert (p + t)[..|q|] == p[..|q|];
  }

  /** After a successful corrected run the fixed-name copies are there,
      every file the directory held that is not a listed nightly APK or a
      file named after a build is still there, and no pruned APK leaves its
      info or notes file behind. */
  lemma CorrectedRunLeavesDirectory(s: Store, inp: Inputs, keepBuilds: int)
    requires BuildNightlyCorrected(s, inp, keepBuilds).exitCode == 0
    ensures var d := BuildNightlyCorrected(s, inp, keepBuilds).store.dir;
      && LatestNightlyAlias in d && LatestInfoName in d && LatestNotesName in d
    ensures var d := BuildNightlyCorrected(s, inp, keepBuilds).store.dir;
      forall y :: y in s.dir && !IsNightlyApk(y) && !StartsWith(y, "nightly-") ==> y in d
    ensures var d := BuildNightlyCorrected(s, inp, keepBuilds).store.dir;
      forall x :: x in s.dir && x !in d && BuildId(x).Some? ==>
        IdInfoName(BuildId(x).value) !in d && IdNotesName(BuildId(x).value) !in d
  {
    var v := CreateNightlyVersion(s.pubspec, inp.dateStr, inp.timeStr, inp.unixSeconds).value.0;
    BackupIsNotEmpty(s.pubspec);
    var written := PutAll(s.dir, Written(inp));
    var gone := PruneCorrected(written, keepBuilds);
    var d := Remove(written, gone);
    assert BuildNightlyCorrected(s, inp, keepBuilds).store.dir == d;
    var del := ToDelete(PruneListing(written), keepBuilds);
    forall k | 0 <= k < |del|
      ensures IsNightlyApk(del[k]) && ApkShaped(del[k])
    {
      DeletedAreListed(written, keepBuilds, del[k]);
      ListedApkShape(del[k]);
    }
    AliasApkKeptById(del);
    AliasInfoKeptById(del);
    AliasNotesKeptById(del);
    forall y | y in s.dir && !IsNightlyApk(y) && !StartsWith(y, "nightly-")
      ensures y in d
    {
      OnlyNightlyNamesRemoved(del, y);
    }
    forall x | x in s.dir && x !in d && BuildId(x).Some?
      ensures IdInfoName(BuildId(x).value) !in d && IdNotesName(BuildId(x).value) !in d
    {
      assert x in gone;
      RemovedApkWasDeleted(del, x);
      assert CompanionsById(x) <= gone;
    }
  }

  /** The build-ID prune never names the fixed-name copies, whatever APKs
      shaped like listed ones it deletes. */
  lemma AliasApkKeptById(del: seq<string>)
    requires forall k :: 0 <= k < |del| ==> ApkShaped(del[k])
    ensures LatestNightlyAlias !in RemovedById(del)
  {
    AliasesAreForeign();
    ForeignNotRemovedById(del, LatestNightlyAlias);
  }

  lemma AliasInfoKeptById(del: seq<string>)
    requires forall k :: 0 <= k < |del| ==> ApkShaped(del[k])
    ensures LatestInfoName !in RemovedById(del)
  {
    AliasesAreForeign();
    ForeignNotRemovedById(del, LatestInfoName);
  }

  lemma AliasNotesKeptById(del: seq<string>)
    requires forall k :: 0 <= k < |del| ==> ApkShaped(del[k])
    ensures LatestNotesName !in RemovedById(del)
  {
    AliasesAreForeign();
    ForeignNotRemovedById(del, LatestNotesName);
  }

  lemma {:induction false} ForeignNotRemovedById(del: seq<string>, y: string)
    requires forall k :: 0 <= k < |del| ==> ApkShaped(del[k])
    requires Foreign(y)
    ensures y !in RemovedById(del)
    decreases |del|
  {
    if |del| > 0 {
      NotACompanionById(del[0], y);
      var rest := del[1..];
      forall k | 0 <= k < |rest|
        ensures ApkShaped(rest[k])
      {
        assert rest[k] == del[k + 1];
      }
      ForeignNotRemovedById(rest, y);
    }
  }

  lemma NotACompanionById(x: string, y: string)
    requires ApkShaped(x) && Foreign(y)
    ensures y !in CompanionsById(x)
  {
    match BuildId(x)
    case None =>
    case Some(id) =>
      assert IdInfoName(id)[0] == 'n' && IdNotesName(id)[0] == 'n';
  }

  /** A build-ID prune only names listed APKs and files starting with
      `nightly-`. */
  lemma {:induction false} OnlyNightlyNamesRemoved(del: seq<string>, y: string)
    requires forall k :: 0 <= k < |del| ==> IsNightlyApk(del[k])
    requires !IsNightlyApk(y) && !StartsWith(y, "nightly-")
    ensures y !in RemovedById(del)
    decreases |del|
  {
    if |del| > 0 {
      CompanionsAreNightlyNames(del[0], y);
      var rest := del[1..];
      forall k | 0 <= k < |rest|
        ensures IsNightlyApk(rest[k])
      {
        assert rest[k] == del[k + 1];
      }
      OnlyNightlyNamesRemoved(rest, y);
    }
  }

  lemma CompanionsAreNightlyNames(x: string, y: string)
    ensures y in CompanionsById(x) ==> y == x || StartsWith(y, "nightly-")
  {
    match BuildId(x)
    case None =>
    case Some(id) =>
      assert IdInfoName(id) == "nightly-" + ("info-" + id + ".json");
      assert IdNotesName(id) == "nightly-" + ("notes-" + id + ".md");
  }

  /** A name the build-ID prune removes that itself carries a build ID was
      one of the deleted APKs. */
  lemma RemovedApkWasDeleted(del: seq<string>, x: string)
    requires x in RemovedById(del) && BuildId(x).Some?
    ensures x in del
  {
    var k :| 0 <= k < |del| && x in CompanionsById(del[k]);
    OnlyTheApkHasAnId(del[k], x);
  }

  lemma OnlyTheApkHasAnId(a: string, x: string)
    requires x in CompanionsById(a) && BuildId(x).Some?
    ensures x == a
  {
    match BuildId(a)
    case None =>
    case Some(id) =>
      IdNamesHaveNoId(id);
  }

  /** Info and notes names are too short to hold a build ID themselves. */
  lemma IdNamesHaveNoId(id: string)
    requires |id| == 15
    ensures BuildId(IdInfoName(id)).None? && BuildId(IdNotesName(id)).None?
  {
    assert |IdInfoName(id)| == 33 && |IdNotesName(id)| == 32;
    assert IdMatchFrom(IdInfoName(id), 0).None?;
    assert IdMatchFrom(IdNotesName(id), 0).None?;
  }
}
