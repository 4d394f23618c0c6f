/** The parts of build-apk.js, release-apk.js and nightly-release.js around
    the version manager: which Flutter commands run in which order, what a
    failing step does to the outcome, the names given to the artifacts, and
    how each script reads its command line. The tools themselves are not
    run: whether each invocation exits successfully is an input. */
module BuildPipeline {
  import opened Results
  import opened Text
  import opened Versioning

  // ---------------------------------------------------------------------
  // Tool invocations

  datatype Step = PubGet | Clean | Test | BuildApk

  /** `fvm flutter` when `fvm --version` runs, plain `flutter` otherwise. */
  function FlutterCommand(fvmAvailable: bool): string {
    if fvmAvailable then "fvm flutter" else "flutter"
  }

  function StepArguments(s: Step): string {
    match s
    case PubGet => "pub get"
    case Clean => "clean"
    case Test => "test"
    case BuildApk => "build apk --release"
  }

  function CommandLine(fvmAvailable: bool, s: Step): string {
    FlutterCommand(fvmAvailable) + " " + StepArguments(s)
  }

  /** Whether each tool invocation would exit with status 0. */
  datatype Outcomes = Outcomes(pubGet: bool, clean: bool, test: bool, build: bool)

  predicate Succeeds(o: Outcomes, s: Step) {
    match s
    case PubGet => o.pubGet
    case Clean => o.clean
    case Test => o.test
    case BuildApk => o.build
  }

  /** Only the test step is advisory: its failure is logged and the build
      goes on. Every other failure ends the sequence. */
  predicate Advisory(s: Step) {
    s == Test
  }

  /** build-apk.js fetches dependencies before cleaning. */
  const DevOrder: seq<Step> := [PubGet, Clean, Test, BuildApk]

  /** release-apk.js and nightly-release.js clean first. */
  const ReleaseOrder: seq<Step> := [Clean, PubGet, Test, BuildApk]

  /** The steps that were started, and the boolean the build method returns. */
  datatype Run = Run(executed: seq<Step>, ok: bool)

  /** Runs the steps in order inside one `try`: the first failing step that
      is not advisory is the last one started, and the result is false. */
  function RunSteps(order: seq<Step>, o: Outcomes): (r: Run)
    ensures r.ok <==> forall k :: 0 <= k < |order| ==> Advisory(order[k]) || Succeeds(o, order[k])
    ensures |r.executed| <= |order| && r.executed == order[..|r.executed|]
    ensures r.ok ==> r.executed == order
    ensures !r.ok ==> (|r.executed| > 0
      && !Advisory(r.executed[|r.executed| - 1]) && !Succeeds(o, r.executed[|r.executed| - 1]))
    ensures forall k :: 0 <= k < |r.executed| - 1 ==> Advisory(r.executed[k]) || Succeeds(o, r.executed[k])
  {
    if |order| == 0 then Run([], true)
    else if !Advisory(order[0]) && !Succeeds(o, order[0]) then Run([order[0]], false)
    else
      var rest := RunSteps(order[1..], o);
      assert forall k :: 1 <= k < |order| ==> order[k] == order[1..][k - 1];
      Run([order[0]] + rest.executed, rest.ok)
  }

  /** The command lines of the started steps, in order. */
  function ExecutedCommands(fvmAvailable: bool, run: Run): (r: seq<string>)
    ensures |r| == |run.executed|
    ensures forall k :: 0 <= k < |r| ==> r[k] == CommandLine(fvmAvailable, run.executed[k])
  {
    seq(|run.executed|, k requires 0 <= k < |run.executed| => CommandLine(fvmAvailable, run.executed[k]))
  }

  /** build-apk.js `buildAPK` returns true exactly when dependency fetch,
      clean and build succeed; a failing test run does not change that. */
  lemma DevBuildOutcome(o: Outcomes)
    ensures RunSteps(DevOrder, o).ok <==> o.pubGet && o.clean && o.build
  {
    var order := DevOrder;
    assert order[0] == PubGet && order[1] == Clean && order[2] == Test && order[3] == BuildApk;
  }

  /** `buildReleaseAPK` (release-apk.js) and `buildSignedAPK`
      (nightly-release.js) return true under the same condition. */
  lemma ReleaseBuildOutcome(o: Outcomes)
    ensures RunSteps(ReleaseOrder, o).ok <==> o.pubGet && o.clean && o.build
  {
    var order := ReleaseOrder;
    assert order[0] == Clean && order[1] == PubGet && order[2] == Test && order[3] == BuildApk;
  }

  /** Flipping the test outcome never changes the boolean a build returns,
      whatever the order of the steps. */
  lemma TestIsAdvisory(order: seq<Step>, o: Outcomes)
    ensures RunSteps(order, o).ok == RunSteps(order, o.(test := !o.test)).ok
  {
    var o' := o.(test := !o.test);
    assert forall s :: !Advisory(s) ==> (Succeeds(o, s) <==> Succeeds(o', s));
  }

  /** A failing dependency fetch stops build-apk.js before anything else
      runs, while the release scripts have already cleaned. */
  lemma FailingPubGetStops(o: Outcomes)
    requires !o.pubGet
    ensures RunSteps(DevOrder, o) == Run([PubGet], false)
    ensures o.clean ==> RunSteps(ReleaseOrder, o) == Run([Clean, PubGet], false)
  {
    var order := ReleaseOrder;
    assert order[1..] == [PubGet, Test, BuildApk];
    assert [Clean] + [PubGet] == [Clean, PubGet];
  }

  // ---------------------------------------------------------------------
  // Artifact names

  /** `toISOString().replace(/[:.]/g, '-').slice(0, 16)` applied to the
      ISO text of the current time. */
  function Stamp(iso: string): (r: string)
    ensures |r| == if |iso| < 16 then |iso| else 16
    ensures forall k :: 0 <= k < |r| ==> r[k] != ':' && r[k] != '.'
    ensures forall k :: 0 <= k < |r| ==> iso[k] != ':' && iso[k] != '.' ==> r[k] == iso[k]
  {
    Take(ReplaceChars(iso, c => c == ':' || c == '.', '-'), 16)
  }

  /** An ISO time keeps its date, hour and minute. */
  lemma StampOfIsoTime()
    ensures Stamp("2025-06-14T14:30:22.123Z") == "2025-06-14T14-30"
  {
    var r := Stamp("2025-06-14T14:30:22.123Z");
    assert r[13] == '-';
  }

  const ApkPrefix: string := "playtivity-v"

  /** build-apk.js `copyAPK`: `playtivity-v<name>-build<build>-<stamp>.apk`. */
  function DevApkName(v: Version, stamp: string): string {
    ApkPrefix + v.name + "-build" + IntToString(v.build) + "-" + stamp + ".apk"
  }

  /** The fixed-name copy next to it. */
  const LatestAlias: string := "playtivity-latest.apk"

  /** The timestamped name starts with the version name and ends with the
      stamp, so it never overwrites the `latest` copy. */
  lemma DevApkNameShape(v: Version, stamp: string)
    ensures StartsWith(DevApkName(v, stamp), ApkPrefix + v.name + "-build")
    ensures EndsWith(DevApkName(v, stamp), "-" + stamp + ".apk")
    ensures DevApkName(v, stamp) != LatestAlias
  {
    var n := DevApkName(v, stamp);
    var p := ApkPrefix + v.name + "-build";
    var q := IntToString(v.build);
    assert n == p + (q + ("-" + stamp + ".apk"));
    assert n == (p + q) + ("-" + stamp + ".apk");
    assert n[11] == 'v' && LatestAlias[11] == 'l';
  }

  /** release-apk.js: `playtivity-v<name>-release.apk` and `.aab`. */
  function ReleaseApkName(name: string): string {
    ApkPrefix + name + "-release.apk"
  }

  function ReleaseAabName(name: string): string {
    ApkPrefix + name + "-release.aab"
  }

  function ReleaseNotesName(name: string): string {
    "release-notes-v" + name + ".md"
  }

  /** nightly-release.js: the promoted release's names. */
  function PromotedApkName(name: string): string {
    ApkPrefix + name + "-from-nightly-release.apk"
  }

  function PromotedAabName(name: string): string {
    ApkPrefix + name + "-from-nightly-release.aab"
  }

  function PromotedNotesName(name: string): string {
    "release-notes-v" + name + "-from-nightly.md"
  }

  /** The APK, the bundle and the notes of one release never share a name,
      and a promoted release never takes a direct release's names. */
  lemma ReleaseNamesDistinct(name: string)
    ensures ReleaseApkName(name) != ReleaseAabName(name)
    ensures PromotedApkName(name) != PromotedAabName(name)
    ensures ReleaseNotesName(name) != ReleaseApkName(name) && ReleaseNotesName(name) != ReleaseAabName(name)
    ensures PromotedNotesName(name) != PromotedApkName(name) && PromotedNotesName(name) != PromotedAabName(name)
    ensures PromotedApkName(name) != ReleaseApkName(name) && PromotedNotesName(name) != ReleaseNotesName(name)
  {
    var a, b := ReleaseApkName(name), ReleaseAabName(name);
    assert a[|a| - 1] == 'k' && b[|b| - 1] == 'b';
    var c, d := PromotedApkName(name), PromotedAabName(name);
    assert c[|c| - 1] == 'k' && d[|d| - 1] == 'b';
    var n, m := ReleaseNotesName(name), PromotedNotesName(name);
    assert n[0] == 'r' && m[0] == 'r' && a[0] == 'p' && b[0] == 'p' && c[0] == 'p' && d[0] == 'p';
    assert |c| == |a| + 13 && |m| == |n| + 13;
  }

  datatype Kind = Apk | Aab

  datatype ReleaseFile = ReleaseFile(kind: Kind, name: string)

  /** `copyReleaseFiles`: an APK entry if the APK build output exists, then
      a bundle entry if the bundle output exists. */
  function ReleaseFiles(apkExists: bool, aabExists: bool, apkName: string, aabName: string)
    : (r: seq<ReleaseFile>)
    ensures |r| == (if apkExists then 1 else 0) + (if aabExists then 1 else 0)
    ensures apkExists <==> |r| > 0 && r[0] == ReleaseFile(Apk, apkName)
    ensures aabExists <==> |r| > 0 && r[|r| - 1] == ReleaseFile(Aab, aabName)
  {
    (if apkExists then [ReleaseFile(Apk, apkName)] else [])
      + (if aabExists then [ReleaseFile(Aab, aabName)] else [])
  }

  // ---------------------------------------------------------------------
  // Command lines

  /** What a script does with its arguments: print help and exit 0, report
      an invalid increment type and exit 1, or go on with the options read. */
  datatype CliAction<T> = ShowHelp | InvalidType(t: string) | Proceed(options: T)

  predicate WantsHelp(args: seq<string>) {
    "--help" in args || "-h" in args
  }

  /** `args.indexOf(a)`, with `None` for -1. */
  function ArgIndex(args: seq<string>, a: string): (r: Option<nat>)
    ensures r.Some? ==> r.value < |args| && args[r.value] == a
    ensures r.Some? ==> forall j :: 0 <= j < r.value ==> args[j] != a
    ensures r.None? <==> a !in args
  {
    if |args| == 0 then None
    else if args[0] == a then Some(0)
    else match ArgIndex(args[1..], a)
      case None => None
      case Some(i) => Some(i + 1)
  }

  /** `args[args.indexOf(flag) + 1]` when the flag is present and that
      argument is truthy (there, and not empty). */
  function FlagValue(args: seq<string>, flag: string): (r: Option<string>)
    ensures r.Some? ==> r.value != "" && r.value in args
    ensures flag !in args ==> r.None?
    ensures |args| >= 2 && args[0] == flag && args[1] != "" ==> r == Some(args[1])
  {
    match ArgIndex(args, flag)
    case None => None
    case Some(i) => if i + 1 < |args| && args[i + 1] != "" then Some(args[i + 1]) else None
  }

  /** build-apk.js: `args[0] || 'build'`, checked against the four
      development types. */
  function DevCli(args: seq<string>): (r: CliAction<string>)
    ensures r.ShowHelp? <==> WantsHelp(args)
    ensures r.Proceed? ==> r.options in DevTypes
    ensures r.InvalidType? ==> |args| > 0 && r.t == args[0] && r.t !in DevTypes
    ensures !WantsHelp(args) && (|args| == 0 || args[0] == "") ==> r == Proceed("build")
    ensures !WantsHelp(args) && |args| > 0 && args[0] in DevTypes ==> r == Proceed(args[0])
  {
    if WantsHelp(args) then ShowHelp
    else
      var t := if |args| > 0 && args[0] != "" then args[0] else "build";
      if t in DevTypes then Proceed(t) else InvalidType(t)
  }

  /** The first argument that does not start with `--` (`args.find`). */
  function FirstNonOption(args: seq<string>): (r: Option<nat>)
    ensures r.Some? ==> r.value < |args| && !StartsWith(args[r.value], "--")
    ensures r.Some? ==> forall j :: 0 <= j < r.value ==> StartsWith(args[j], "--")
    ensures r.None? ==> forall j :: 0 <= j < |args| ==> StartsWith(args[j], "--")
  {
    if |args| == 0 then None
    else if !StartsWith(args[0], "--") then Some(0)
    else match FirstNonOption(args[1..])
      case None => None
      case Some(i) => Some(i + 1)
  }

  /** release-apk.js: the first non-option argument, or `patch` when there
      is none or it is empty, checked against the release types; the bundle
      is built unless `--no-bundle` is given. */
  function ReleaseCli(args: seq<string>): (r: CliAction<(string, bool)>)
    ensures r.ShowHelp? <==> WantsHelp(args)
    ensures r.Proceed? ==> r.options.0 in ReleaseTypes
    ensures r.Proceed? ==> (r.options.1 <==> "--no-bundle" !in args)
    ensures r.InvalidType? ==> r.t !in ReleaseTypes && r.t in args && !StartsWith(r.t, "--")
    ensures !WantsHelp(args) && (forall j :: 0 <= j < |args| ==> StartsWith(args[j], "--")) ==>
      r == Proceed(("patch", "--no-bundle" !in args))
  {
    if WantsHelp(args) then ShowHelp
    else
      var t := match FirstNonOption(args)
        case None => "patch"
        case Some(i) => if args[i] == "" then "patch" else args[i];
      if t in ReleaseTypes then Proceed((t, "--no-bundle" !in args)) else InvalidType(t)
  }

  /** nightly-release.js: the options object its argument loop fills in.
      `None` is an option left (or set) `undefined`. */
  datatype PromoteOptions = PromoteOptions(
    buildId: Option<string>, increment: Option<string>, custom: Option<string>,
    bundle: bool, listOnly: bool)

  const NoOptions: PromoteOptions := PromoteOptions(None, None, None, true, false)

  /** The argument loop from index `i`: a flag that takes a value consumes
      the next argument (undefined past the end), whatever it looks like;
      unknown arguments are skipped; a later flag overrides an earlier one. */
  function ReadPromoteArgs(args: seq<string>, i: nat, acc: PromoteOptions): (r: PromoteOptions)
    ensures r.listOnly ==> acc.listOnly || exists k :: i <= k < |args| && args[k] == "--list"
    ensures !r.bundle ==> !acc.bundle || exists k :: i <= k < |args| && args[k] == "--no-bundle"
    ensures r.increment.Some? ==> r.increment == acc.increment || exists k :: i < k < |args| && r.increment.value == args[k]
    decreases |args| + 1 - i
  {
    if i >= |args| then acc
    else if args[i] == "--build-id" then ReadPromoteArgs(args, i + 2, acc.(buildId := Part(args, i + 1)))
    else if args[i] == "--increment" then ReadPromoteArgs(args, i + 2, acc.(increment := Part(args, i + 1)))
    else if args[i] == "--version" then ReadPromoteArgs(args, i + 2, acc.(custom := Part(args, i + 1)))
    else if args[i] == "--no-bundle" then ReadPromoteArgs(args, i + 1, acc.(bundle := false))
    else if args[i] == "--list" then ReadPromoteArgs(args, i + 1, acc.(listOnly := true))
    else ReadPromoteArgs(args, i + 1, acc)
  }

  /** nightly-release.js: help, then the argument loop, then the check of an
      increment type that was given and is not empty. */
  function PromoteCli(args: seq<string>): (r: CliAction<PromoteOptions>)
    ensures r.ShowHelp? <==> WantsHelp(args)
    ensures r.InvalidType? ==> r.t != "" && r.t !in ReleaseTypes && r.t in args
    ensures r.Proceed? ==> (r.options.increment.None? || r.options.increment.value == ""
      || r.options.increment.value in ReleaseTypes)
    ensures r.Proceed? && r.options.listOnly ==> "--list" in args
    ensures r.Proceed? && !r.options.bundle ==> "--no-bundle" in args
  {
    if WantsHelp(args) then ShowHelp
    else
      var opts := ReadPromoteArgs(args, 0, NoOptions);
      match opts.increment
      case Some(t) => if t != "" && t !in ReleaseTypes then InvalidType(t) else Proceed(opts)
      case None => Proceed(opts)
  }

  /** The destructuring default: an increment type left undefined is
      `patch`; an empty one stays empty. */
  function EffectiveIncrement(opts: PromoteOptions): (t: string)
    ensures opts.increment.None? ==> t == "patch"
    ensures opts.increment.Some? ==> t == opts.increment.value
  {
    match opts.increment
    case None => "patch"
    case Some(t) => t
  }

  /** A flag's value is taken as it is, even when it looks like a flag. */
  lemma FlagValueIsNotAFlag()
    ensures PromoteCli(["--build-id", "--list"]) == Proceed(NoOptions.(buildId := Some("--list")))
  {
    var args := ["--build-id", "--list"];
    assert !WantsHelp(args);
    assert ReadPromoteArgs(args, 2, NoOptions.(buildId := Some("--list"))) == NoOptions.(buildId := Some("--list"));
  }

  /** A value flag given last sets its option to undefined, so the default
      applies afterwards. */
  lemma TrailingFlagIsUndefined()
    ensures PromoteCli(["--increment", "minor", "--increment"]) == Proceed(NoOptions)
    ensures EffectiveIncrement(NoOptions) == "patch"
  {
    var args := ["--increment", "minor", "--increment"];
    assert !WantsHelp(args);
    var a1 := NoOptions.(increment := Some("minor"));
    assert ReadPromoteArgs(args, 4, NoOptions) == NoOptions;
    assert ReadPromoteArgs(args, 2, a1) == NoOptions;
  }

  /** An empty increment type passes the command-line check but is rejected
      later by the version policy. */
  lemma EmptyIncrementFailsLate(name: string)
    ensures PromoteCli(["--increment", ""]) == Proceed(NoOptions.(increment := Some("")))
    ensures ReleaseIncrement(name, EffectiveIncrement(NoOptions.(increment := Some("")))).Err?
  {
    var args := ["--increment", ""];
    assert !WantsHelp(args);
    assert ReadPromoteArgs(args, 2, NoOptions.(increment := Some(""))) == NoOptions.(increment := Some(""));
    assert "" !in ReleaseTypes;
  }
}
