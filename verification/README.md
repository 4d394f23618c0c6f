# Playtivity build tooling and widgets, modelled in Dafny

Playtivity is a Flutter client for Spotify friend activity. Around the app sit four
Node.js build scripts, a nightly publisher, two home-screen widgets and an icon
converter. This project models their string, sequence and integer logic.

- **Version manager** (`build-apk.js`, `release-apk.js`, `nightly-release.js`,
  `nightly-apk.js`). It finds the first `version:` line of `pubspec.yaml` and parses it
  as `name+build`. It then applies the increment policy of each script and rewrites
  only that line. Nightly builds use the name `<base>-nightly-<date>-<time>`, and
  promotion strips it back off. Modules: `Versioning`, `JsNumber`, `Text`.
- **Build steps and artifact names**. This covers the order of the Flutter steps and
  the rule that only the test step is advisory. It also covers the names of development
  and release artifacts and how each script reads its command line. Module:
  `BuildPipeline`.
- **Nightly bookkeeping** (`nightly-apk.js`, `nightly-release.js`,
  `nightly-github-release.js`). This covers the fixed-width nightly names and build IDs
  read back from them. It covers the newest-first listing, selecting a build, and
  retention pruning. It also covers the whole nightly run, which puts `pubspec.yaml`
  back on every path. Modules: `Nightly`, `Retention`, `NightlyRun`.
- **GitHub release** (`nightly-github-release.js`). This covers `owner/repo` from the
  origin URL, the tag, the title and the prerelease flag. The temporary notes file is
  gone afterwards whether `gh` succeeds or fails. Module: `GitHubRelease`.
- **Widgets**. On Android, `PlaytivityWidgetProvider.kt` reads numbered preference
  slots, drops incomplete ones, sorts them (playing first, then newest first) and
  labels the elapsed time. On iOS, `WidgetDataProvider.swift` reads at most ten slots
  and words the status differently. The string-to-number and string-to-boolean
  readings of both platforms live in `NumParse`. Modules: `AndroidWidget`,
  `IosWidget`, `NumParse`.
- **Icon format detection** (`scripts/convert_icon.py`). `detect_file_format` checks the
  extension first, then the first ten bytes. `main` uses it to decide the exit status.
  Module: `IconFormat`.

External tools (flutter, fvm, git, gh), the clock and file existence are inputs to the
model. A directory is a sequence of entry names in `readdir` order. A file store that
needs contents is a map from names to contents. JavaScript semantics are written out
where they matter:

- `parseInt` with its white-space skip, sign, `0x` prefix and NaN;
- `x || d`;
- template rendering of `undefined` and `NaN`;
- `split`, `trim`, and first-occurrence `replace`;
- `slice` with a negative start;
- the default string `sort`.

JavaScript numbers are IEEE-754 doubles, but the model reads them as unbounded
integers. Build numbers, version components and keep counts stay far below 2^53,
where the two agree. The members whose contracts rely on exact integers are listed
under "Left out" below.

Kotlin `Long` subtraction wraps modulo 2^64, and JVM and Swift integer division
truncates toward zero; both are modelled explicitly.

`cleanOldNightlyBuilds` means to delete each old build's info and notes files along
with its APK (its comment at nightly-apk.js:456 says so). The names it computes do
not match the files the run writes, so they stay behind (see Findings).
`NightlyRun.BuildNightly` runs the prune as written. `NightlyRun.BuildNightlyCorrected`
is the same run with the corrected prune.

## Model

| member | source | states |
|---|---|---|
| Versioning.CaptureAfterKey | build-apk.js:54 | `\s*(.+)` after the key fails exactly when only line terminators follow; a capture is non-empty and stays on one line |
| Versioning.VersionCapture | build-apk.js:54 | whatever the leftmost match captures is a non-empty single-line text |
| Versioning.CaptureOfKeyLine | build-apk.js:79-82 | on a line that starts with `version:` the leftmost regex match is the one right after that key |
| Versioning.VersionOf | build-apk.js:59-66 | the parsed record keeps the trimmed text as `fullVersion`; its name is never empty and has no `+`, and its build number is never 0 |
| Versioning.ParseVersion | build-apk.js:52-67 | `parseVersion` fails, with the script's message, exactly when the pattern does not match; on success the name is non-empty without `+` and the build number is non-zero |
| Versioning.ParseVersionFailsIff | build-apk.js:54-57 | a `version:` line is rejected if and only if nothing but line terminators follows the key |
| Versioning.ParsedNameSingleLine | build-apk.js:59-60 | a parsed version name never contains a newline |
| Versioning.ParseVersionRoundTrip | build-apk.js:52-67 | the line `version: <name>+<b>` that the scripts write parses back to exactly that name and build number (valid name, b >= 1) |
| Versioning.Lines | build-apk.js:73 | splitting the configuration on `\n` gives newline-free lines that join back to the content |
| Versioning.FindVersionLine | build-apk.js:78-85 | the index found is the first line starting with `version:`, and there is none exactly when no line starts so |
| Versioning.SetVersionLineTouchesOnlyThatLine | build-apk.js:119-125 | rewriting replaces only the first version line by `version: <full>`; the line count and every other line are unchanged, and content without a version line is untouched |
| Versioning.BumpNameKeepsHigherParts | build-apk.js:97-112 | `major` ends in `.0.0`, `minor` in `.0`, and the components above the bumped one are copied verbatim as text |
| Versioning.BumpMajorDotted | build-apk.js:98-102 | on `a.b.c` a major bump gives `(a+1).0.0` |
| Versioning.BumpMinorDotted | build-apk.js:103-107 | on `a.b.c` a minor bump gives `a.(b+1).0` |
| Versioning.BumpPatchDotted | build-apk.js:108-112 | on `a.b.c` a patch bump gives `a.b.(c+1)` |
| Versioning.DevIncrement | build-apk.js:93-119 | a name bump resets the build number to 1; `build` and every unrecognised type keep the name and add one to the build number |
| Versioning.ReleaseIncrement | release-apk.js:110-135 | it succeeds exactly for `patch`, `minor`, `major` and `none`, always with build number 1; `none` keeps the name, and any other type fails with `Invalid increment type: <t>` |
| Versioning.ParseFirstVersionLine | release-apk.js:74-85 | `getCurrentVersion`, and the search every `incrementVersion` starts with (build-apk.js:78-89): the parse of the first line starting with `version:`, and the script's missing-line error when no line does |
| Versioning.DevIncrementVersion | build-apk.js:69-134 | build-apk.js `incrementVersion` fails exactly when reading the version fails; otherwise it applies the development policy and writes the new full version into that line |
| Versioning.ReleaseIncrementVersion | release-apk.js:87-147 | release-apk.js `incrementVersion` propagates a read error; otherwise it succeeds exactly for a release type, with build number 1 and the version line rewritten |
| Versioning.DevIncrementTouchesOnlyVersionLine | build-apk.js:119-125 | after a development increment every line except the version line is as before |
| Versioning.ReleaseIncrementTouchesOnlyVersionLine | release-apk.js:135-138 | after a release increment every line except the version line is as before |
| Versioning.StripNightly | nightly-release.js:176-180 | the base is a prefix of the name that ends at the first `-nightly-`; the whole name is the base when there is no marker |
| Versioning.StripNightlyRecoversBase | nightly-release.js:177-180 | stripping a nightly name recovers its base whenever the base neither contains `-nightly-` nor ends with `-nightly` |
| Versioning.StripNightlyCutsShort | nightly-release.js:177-180 | a base ending in `-nightly` is cut short by the strip, so the condition above cannot be dropped |
| Versioning.CreateNightlyVersion | nightly-apk.js:69-123 | the nightly name is `<base>-nightly-<date>-<time>` with the Unix seconds as build number; the backup is the untouched content, and only the version line changes |
| Versioning.UpdateVersionInPubspec | nightly-release.js:221-233 | content without a version line is written back unchanged; otherwise, for a one-line version text, the lines are the old ones with the first version line replaced by `version: <full>` |
| Versioning.CreateReleaseVersion | nightly-release.js:144-219 | a non-empty custom version skips parsing and gives `<custom>+1`; otherwise a read error propagates, only release types succeed, and every result has build number 1 and `fullVersion == name + "+1"` |
| Versioning.PromoteNightlyKeepsBase | nightly-release.js:176-209 | promoting with `none` the version a nightly run wrote gives back the base version `<base>+1` |
| JsNumber.ParseInt | build-apk.js:64 | `parseInt` of the empty string, or of text that does not start with white space, a sign or a digit, is NaN |
| JsNumber.ParseSigned | build-apk.js:64 | once the leading blanks are gone, text starting with a digit reads as its digit prefix, and empty text or text starting with anything but a sign or a digit is NaN |
| JsNumber.OrDefault | build-apk.js:64 | `n \|\| d` is `n` when it is a non-zero number and `d` for NaN and 0, so a non-zero default never yields 0 |
| JsNumber.Succ | build-apk.js:100 | `n + 1` stays NaN on NaN and adds one otherwise |
| JsNumber.Show | build-apk.js:100 | a template renders NaN as `NaN` and a natural number as its canonical decimal digits |
| JsNumber.ShowPart | build-apk.js:105 | a template renders a missing array element as `undefined` |
| JsNumber.ParseIntOfNatToString | build-apk.js:64 | printing a natural number and reading it with `parseInt` gives it back |
| JsNumber.ParseIntOfNegative | nightly-apk.js:607 | a leading minus sign negates the number read |
| JsNumber.ParseIntDigitsThenText | build-apk.js:64 | digits followed by text that is not a digit read as the digits' value (`parseInt("12abc") == 12`) |
| JsNumber.ParseIntOfUndefined | build-apk.js:99-100 | `parseInt(undefined)` is NaN |
| Text.Split | build-apk.js:73 | `split` gives at least one separator-free piece, and the pieces join back to the text |
| Text.SplitJoin | build-apk.js:124 | splitting the join of separator-free pieces gives the pieces back |
| Text.Trim | build-apk.js:59 | `trim` leaves no white space at either end, and all-space text trims to empty |
| Text.TrimStart | build-apk.js:59 | the leading white space, and only that, is removed |
| Text.TrimEnd | build-apk.js:59 | the trailing white space, and only that, is removed |
| Text.PrefixBefore | nightly-release.js:179 | `split(p)[0]` is the prefix that ends at the first occurrence of `p`, or the whole text |
| Text.IndexOf | nightly-release.js:179 | the position found is the first occurrence of the pattern, and there is none exactly when the pattern never occurs |
| Text.ReplaceFirst | nightly-apk.js:449 | a string-pattern `replace` leaves text without the pattern unchanged and otherwise changes the length by one substitution |
| Text.ReplaceChars | build-apk.js:194 | a global one-class replace substitutes exactly the matching characters and keeps the length |
| Text.Take | build-apk.js:194 | `slice(0, n)` is the prefix of length `min(n, length)` |
| Text.Lower | scripts/convert_icon.py:25 | lower-casing keeps the length and maps every character on its own |
| Text.NatToString | build-apk.js:100 | a natural number prints as canonical digits whose value is the number |
| Text.StrLessTransitive | nightly-release.js:50 | the default string order of `sort` is transitive |
| Text.StrLessTotal | nightly-release.js:50 | any two different strings are ordered one way or the other |
| Text.StrLessIrreflexive | nightly-release.js:50 | no string sorts before itself |
| Text.StrLessAsymmetric | nightly-release.js:50 | two strings are never each before the other |
| Text.StrLessCommonPrefix | nightly-release.js:48-50 | names sharing a prefix compare as their remainders do |
| Text.DigitsOrderIsNumeric | nightly-apk.js:302 | for digit strings of one length, string order is numeric order |
| BuildPipeline.RunSteps | build-apk.js:165-186 | the build returns true exactly when every step succeeds or is advisory; the steps started are a prefix of the order, and a false result ends at the first failing non-advisory step |
| BuildPipeline.ExecutedCommands | build-apk.js:167-180 | one command line per started step, in order, with `fvm flutter` or `flutter` |
| BuildPipeline.DevBuildOutcome | build-apk.js:165-186 | `buildAPK` returns true if and only if pub get, clean and build succeed |
| BuildPipeline.ReleaseBuildOutcome | release-apk.js:227-246 | `buildReleaseAPK` (and `buildSignedAPK`) return true under the same condition, with clean first |
| BuildPipeline.TestIsAdvisory | build-apk.js:172-177 | flipping the test outcome never changes the result, whatever the step order |
| BuildPipeline.FailingPubGetStops | build-apk.js:165-170 | a failing pub get stops build-apk.js before anything else runs, while the release scripts have already cleaned |
| BuildPipeline.Stamp | build-apk.js:194 | the stamp is the first 16 characters of the ISO time with every `:` and `.` replaced, all others kept |
| BuildPipeline.StampOfIsoTime | build-apk.js:194 | `2025-06-14T14:30:22.123Z` stamps as `2025-06-14T14-30` |
| BuildPipeline.DevApkNameShape | build-apk.js:194-207 | the development APK name starts with `playtivity-v<name>-build` and ends with `-<stamp>.apk`, so it is never the `latest` copy |
| BuildPipeline.ReleaseNamesDistinct | release-apk.js:324-381 | a release's APK, bundle and notes names are pairwise different, and promoted releases never reuse a direct release's names |
| BuildPipeline.ReleaseFiles | release-apk.js:322-361 | there is an APK entry exactly when the APK exists and then it is first; there is a bundle entry exactly when the bundle exists and then it is last |
| BuildPipeline.ArgIndex | nightly-apk.js:605 | `indexOf` finds the first occurrence, and -1 exactly when the argument is absent |
| BuildPipeline.FlagValue | nightly-apk.js:605-608 | the value after a flag is taken only when the flag is there and the value is non-empty |
| BuildPipeline.DevCli | build-apk.js:299-313 | help exactly on `--help`/`-h`; a missing or empty type is `build`; the run goes on only with one of the four development types, otherwise the invalid type is reported |
| BuildPipeline.FirstNonOption | release-apk.js:542 | `args.find` returns the first argument not starting with `--` |
| BuildPipeline.ReleaseCli | release-apk.js:535-551 | help exactly on `--help`/`-h`; the type is the first non-option argument or `patch`; only release types go on; the bundle is built exactly when `--no-bundle` is absent |
| BuildPipeline.ReadPromoteArgs | nightly-release.js:646-664 | the argument loop sets `listOnly` and clears `bundle` only for flags that occur; a value flag takes the argument after it |
| BuildPipeline.PromoteCli | nightly-release.js:636-671 | help exactly on `--help`/`-h`; an invalid type is a non-empty given type outside the release types; `--list` and `--no-bundle` take effect only when given |
| BuildPipeline.EffectiveIncrement | nightly-release.js:504-510 | an increment left undefined defaults to `patch`; a given one, even empty, is kept |
| BuildPipeline.FlagValueIsNotAFlag | nightly-release.js:648-650 | `--build-id --list` takes `--list` as the build ID |
| BuildPipeline.TrailingFlagIsUndefined | nightly-release.js:651-653 | a trailing `--increment` sets the option to undefined, so `patch` applies |
| BuildPipeline.EmptyIncrementFailsLate | nightly-release.js:667 | without `--version`, an empty increment type (`--increment ""`) passes the command-line check but is rejected by the version policy |
| Nightly.Filter | nightly-release.js:47-49 | every kept name satisfies the filter |
| Nightly.FilterCount | nightly-release.js:47-49 | filtering keeps every occurrence of a kept name and drops every other name |
| Nightly.EmptyIffNoneKept | nightly-release.js:53-55 | the listing is empty exactly when no directory entry is a nightly APK |
| Nightly.AliasIsNotListed | nightly-apk.js:310 | `playtivity-latest-nightly.apk` never enters a listing |
| Nightly.WrittenApkIsListed | nightly-apk.js:302 | every APK name the nightly build writes (with a commit text without `l`) is listed |
| Nightly.IdMatchFrom | nightly-release.js:62 | the regex search returns the leftmost position where the build-ID pattern matches, and none when it matches nowhere |
| Nightly.BuildId | nightly-release.js:62 | a build ID has 15 characters with `-` in the middle, and there is none exactly when the pattern matches nowhere |
| Nightly.BuildIdOfApkName | nightly-release.js:62 | the build ID read back from a written APK name is `<date>-<time>` |
| Nightly.WrittenNameHasId | nightly-apk.js:302 | a written name matches the build-ID pattern at its start and holds the stamp at characters 19 to 33 |
| Nightly.NoBuildIdWithoutStamp | nightly-release.js:62 | a listed name without the fixed-width stamp has no build ID |
| Nightly.SortDesc | nightly-release.js:50-51 | `.sort().reverse()` gives a descending permutation of the names |
| Nightly.SortedDescUnique | nightly-release.js:46-51 | a descending arrangement of a multiset of names is unique |
| Nightly.NamesOrderedByStamp | nightly-apk.js:302 | for written names, string order is chronological order: the earlier date, or on the same date the earlier time, is smaller |
| Nightly.DateDecides | nightly-apk.js:302 | two stamps with different dates compare as the dates' values |
| Nightly.TimeDecides | nightly-apk.js:302 | two stamps on one date compare as the times' values |
| Nightly.ListNightlyApks | nightly-release.js:41-56 | a missing directory and an empty filtered list give the two errors; otherwise the result is exactly the nightly APKs of the directory, newest first |
| Nightly.ListingIgnoresEntryOrder | nightly-release.js:46-51 | the listing depends only on which entries the directory holds, not on their order |
| Nightly.Describe | nightly-release.js:57-82 | each listed name is paired with its build ID, in order |
| Nightly.FindById | nightly-release.js:87 | `find` returns the first build carrying the ID, and none exactly when no build carries it |
| Nightly.SelectBuild | nightly-release.js:85-96 | without an ID the head is chosen; with one, the first build carrying it, or the not-found error exactly when none does |
| Nightly.ListAndSelect | nightly-github-release.js:253-258 | a listing error propagates, and without an ID the newest listed name is chosen |
| Nightly.DefaultIsNewest | nightly-release.js:94-95 | without an ID no nightly APK in the directory is newer, in name order, than the one chosen |
| Retention.SliceFrom | nightly-apk.js:445 | `slice(start)` is a suffix of the array, with a negative start counting from the end |
| Retention.ToDelete | nightly-apk.js:444-446 | with more builds than `keepCount` the deleted ones are exactly those after the first `keepCount`; otherwise none |
| Retention.PruneListing | nightly-apk.js:438-442 | the prune listing is descending and holds only nightly APKs of the directory |
| Retention.KeptAreNewest | nightly-apk.js:438-446 | for every keep count, negative ones included, no build before the deleted tail of the listing is older, in name order, than a deleted one |
| Retention.PruneAsWritten | nightly-apk.js:431-476 | `cleanOldNightlyBuilds` removes nothing while at most `keepCount` builds are listed; otherwise it removes each deleted APK with the info and notes names computed from it |
| Retention.PruneCorrected | nightly-apk.js:444-466 | the corrected prune removes nothing while at most `keepCount` builds are listed; otherwise it removes each deleted APK with the info and notes files named from its build ID |
| Retention.DeletedAreListed | nightly-apk.js:438-446 | every deleted name is a nightly APK from the directory |
| Retention.RemovedAsWritten | nightly-apk.js:447-467 | every deleted APK is removed together with the info and notes names the script computes from it |
| Retention.RemovedFrom | nightly-apk.js:447-467 | nothing else is removed: each removed name is a deleted APK or one of the two names computed from it |
| Retention.StemOfWrittenName | nightly-apk.js:449-458 | the stem the script computes from a written APK name still ends with `-<commit>` |
| Retention.SidecarsNeverPruned | nightly-apk.js:457-458 | the info and notes files written for any date and time are never in the script's prune set |
| Retention.AliasesSurvivePrune | nightly-apk.js:438-467 | the `latest` APK, info and notes copies survive every prune |
| Retention.AsWrittenLeavesSidecars | nightly-apk.js:457-458 | pruning a written build deletes its APK and leaves its info and notes files behind |
| Retention.RemovedById | nightly-apk.js:447-467 | the corrected prune removes every deleted APK together with the info and notes files named from its build ID |
| Retention.RemovedByIdFrom | nightly-apk.js:447-467 | the corrected prune removes nothing else: each removed name is a deleted APK or a companion named from its build ID |
| Retention.SidecarsById | nightly-apk.js:338 | the companions named from a written build's ID are the sidecars the writer produced |
| Retention.CorrectedPrunesSidecars | nightly-apk.js:457-466 | with the corrected prune, deleting a written build also deletes its info and notes files |
| Retention.KeepBuilds | nightly-apk.js:604-608 | `--keep-builds` is 5 when absent, valueless, 0 or not a number, and otherwise the value `parseInt` reads |
| Retention.KeepZeroIsDefault | nightly-apk.js:607 | `--keep-builds 0` means 5 |
| Retention.KeepNegativeIsTaken | nightly-apk.js:607 | `--keep-builds -2` is taken as -2 |
| Retention.KeepMissingValueIsDefault | nightly-apk.js:606 | a trailing `--keep-builds` means 5 |
| NightlyRun.Put | nightly-apk.js:305 | copying a file in adds its name and keeps every other name |
| NightlyRun.Remove | nightly-apk.js:452-466 | unlinking removes exactly the names that exist and are to go |
| NightlyRun.CommitOf | nightly-apk.js:231-239 | a failed git query gives the commit `unknown` |
| NightlyRun.BuildNightly | nightly-apk.js:478-558 | the run as written, pruning with `cleanOldNightlyBuilds`: `pubspec.yaml` equals its pre-run content after every run; the exit status is 0 exactly when the version line parses, the build succeeds and the APK exists; a failed run leaves the store unchanged |
| NightlyRun.BuildNightlyCorrected | nightly-apk.js:478-558 | the same run with the corrected prune, with the same guarantees for `pubspec.yaml`, the exit status and a failed run |
| NightlyRun.Restore | nightly-apk.js:545-553 | the catch block writes back a non-empty backup and touches nothing else |
| NightlyRun.BackupIsNotEmpty | nightly-apk.js:546 | a backup holding a version line is never empty, so the restore is never skipped |
| NightlyRun.SuccessfulRunLeavesDirectory | nightly-apk.js:503-515 | after a successful run as written, the `latest` copies exist and unrelated files survive; no info or notes file named after a date and time is removed, so this run's are there and a pruned build's stay behind (when every listed APK has a written name's length) |
| NightlyRun.CorrectedRunLeavesDirectory | nightly-apk.js:503-515 | after a successful corrected run, the `latest` copies exist, unrelated files survive, and no pruned build leaves its info or notes file |
| NightlyRun.OnlyNightlyNamesRemovedAsWritten | nightly-apk.js:447-467 | the prune as written only removes listed APKs and files starting with `nightly-` |
| NightlyRun.OnlyNightlyNamesRemoved | nightly-apk.js:447-467 | the corrected prune only removes listed APKs and files starting with `nightly-` |
| NightlyRun.RemovedApkWasDeleted | nightly-apk.js:447-467 | every removed name that carries a build ID was one of the deleted APKs |
| Retention.AliasApkKept | nightly-apk.js:438-467 | the `latest` APK copy is never among the names the prune removes, for any deleted APKs shaped like listed ones |
| Retention.AliasInfoKept | nightly-apk.js:447-467 | the `latest` info copy is never among the names the prune removes |
| Retention.AliasNotesKept | nightly-apk.js:447-467 | the `latest` notes copy is never among the names the prune removes |
| NightlyRun.AliasApkKeptById | nightly-apk.js:438-467 | the corrected prune never removes the `latest` APK copy |
| NightlyRun.AliasInfoKeptById | nightly-apk.js:447-467 | the corrected prune never removes the `latest` info copy |
| NightlyRun.AliasNotesKeptById | nightly-apk.js:447-467 | the corrected prune never removes the `latest` notes copy |
| GitHubRelease.RepoPath | nightly-github-release.js:34 | the text after the host reads as `owner/repo` only when it is two word runs around a slash, with an optional `.git` |
| GitHubRelease.LeftmostMatch | nightly-github-release.js:34 | the search returns the leftmost match, and nothing only when the pattern matches nowhere |
| GitHubRelease.StripDotGit | nightly-github-release.js:34 | an optional trailing `.git` is dropped, and other text is kept whole |
| GitHubRelease.DetectRepo | nightly-github-release.js:29-44 | the result is `owner/repo` of word runs, and null exactly when git fails or the trimmed URL does not match |
| GitHubRelease.RepoPathOf | nightly-github-release.js:34-37 | `owner/repo`, with or without `.git`, reads back as `owner/repo` |
| GitHubRelease.HttpsRemote | nightly-github-release.js:33-37 | `https://github.com/o/r(.git)` gives `o/r` |
| GitHubRelease.SshRemote | nightly-github-release.js:33-37 | `git@github.com:o/r(.git)` gives `o/r` |
| GitHubRelease.TrailingSlashIsRejected | nightly-github-release.js:34-43 | a URL with a trailing slash is never recognised |
| GitHubRelease.DotInOwnerIsRejected | nightly-github-release.js:34-43 | a dot inside the owner makes the URL unrecognised |
| GitHubRelease.CheckRepo | nightly-github-release.js:73-78 | the check passes exactly for a non-empty repository, with the script's error otherwise |
| GitHubRelease.DetectedRepoIsNotEmpty | nightly-github-release.js:73-76 | a detected repository is never empty, so the check passes exactly when detection succeeds |
| GitHubRelease.Tag | nightly-github-release.js:145 | every tag starts with `nightly-` |
| GitHubRelease.Title | nightly-github-release.js:145-146 | every title starts with `🌙 Nightly Build ` and names the same build ID as the tag |
| GitHubRelease.TagRoundTrip | nightly-github-release.js:145 | the build ID comes back out of the tag, and distinct builds get distinct tags |
| GitHubRelease.TagOfWrittenBuild | nightly-github-release.js:145 | a written build is tagged `nightly-<date>-<time>` |
| GitHubRelease.PrereleaseFlag | nightly-github-release.js:155 | the flag is `--prerelease` exactly for a prerelease, and empty otherwise |
| GitHubRelease.ReadOptions | nightly-github-release.js:318-336 | help exactly on `--help`/`-h`; prerelease exactly when `--stable` is absent; the build ID is the non-empty value after `--build-id` |
| GitHubRelease.Publish | nightly-github-release.js:154-180 | the notes file does not exist afterwards, whether `gh` succeeds or fails, and no other file changes; a failure is rethrown with the `Failed to create GitHub release: ` prefix |
| GitHubRelease.GhCommand | nightly-github-release.js:163 | the command starts with `gh release create "<tag>" `, names the notes file inside the nightly directory, and ends in ` --prerelease` exactly for a prerelease |
| GitHubRelease.CommandShape | nightly-github-release.js:155-163 | appending the flag after a space-terminated command keeps its head and ends in ` --prerelease` exactly when set |
| GitHubRelease.CommitShort | nightly-github-release.js:262-264 | the short commit has at most 7 characters and is a prefix of the commit, the whole commit when it is short, and `unknown` without one (the value appears only in a log line) |
| GitHubRelease.ReleaseNightly | nightly-github-release.js:244-277 | the release succeeds exactly when gh is installed and authenticated, the repository is detected, a build is selected and `gh` succeeds; it publishes the selected build, removes the notes file and changes nothing else |
| NumParse.SignedDecimal | android/app/src/main/kotlin/com/mliem/playtivity/widget/PlaytivityWidgetProvider.kt:107 | text is a decimal exactly when it is an optional sign followed by digits, and the sign decides the value's sign |
| NumParse.Quot | android/app/src/main/kotlin/com/mliem/playtivity/widget/PlaytivityWidgetProvider.kt:36 | JVM and Swift division truncates toward zero: the quotient's bounds for non-negative and for negative dividends |
| NumParse.ParseFixed | android/app/src/main/kotlin/com/mliem/playtivity/widget/PlaytivityWidgetProvider.kt:77 | `toIntOrNull`/`toLongOrNull`/`Int64(_:)` give a value exactly for a decimal within the width, and `null` for malformed text and overflow |
| NumParse.KotlinToInt | android/app/src/main/kotlin/com/mliem/playtivity/widget/PlaytivityWidgetProvider.kt:77-78 | `toIntOrNull` gives a value exactly for a decimal within 32 bits, and that value is the decimal's |
| NumParse.KotlinToLong | android/app/src/main/kotlin/com/mliem/playtivity/widget/PlaytivityWidgetProvider.kt:107 | `toLongOrNull` gives a value exactly for a decimal within 64 bits, and that value is the decimal's |
| NumParse.SwiftInt64 | ios/PlaytivityWidget/WidgetDataProvider.swift:144 | `Int64(_:)` gives a value exactly for a decimal within 64 bits, and that value is the decimal's |
| NumParse.ParseOfPrinted | android/app/src/main/kotlin/com/mliem/playtivity/widget/PlaytivityWidgetProvider.kt:106-110 | a printed integer that fits the width parses back to itself |
| NumParse.ParseOfPlusSigned | android/app/src/main/kotlin/com/mliem/playtivity/widget/PlaytivityWidgetProvider.kt:107 | an explicit `+` is accepted |
| NumParse.WidthDecides | android/app/src/main/kotlin/com/mliem/playtivity/widget/PlaytivityWidgetProvider.kt:77-78 | a count beyond 32 bits is `null` to `toIntOrNull` but a value to `toLongOrNull` and Swift |
| NumParse.BlanksAreRejected | android/app/src/main/kotlin/com/mliem/playtivity/widget/PlaytivityWidgetProvider.kt:107 | surrounding blanks make a number unreadable |
| NumParse.KotlinToBoolean | android/app/src/main/kotlin/com/mliem/playtivity/widget/PlaytivityWidgetProvider.kt:113 | `toBoolean` is true only for four-letter text starting with `t` or `T`, and true for `true` |
| NumParse.SwiftFlag | ios/PlaytivityWidget/WidgetDataProvider.swift:145 | `Bool(s) ?? false` is true exactly for `true` |
| NumParse.SwiftBool | ios/PlaytivityWidget/WidgetDataProvider.swift:145 | `Bool(String)` is true exactly for `true` and false exactly for `false` |
| NumParse.BooleanReadings | android/app/src/main/kotlin/com/mliem/playtivity/widget/PlaytivityWidgetProvider.kt:112-116 | Swift's reading implies Kotlin's `toBoolean`, and they differ exactly on the non-lower-case spellings of `true` |
| NumParse.UpperCaseTrue | ios/PlaytivityWidget/WidgetDataProvider.swift:145 | `TRUE` is playing on Android and not on iOS |
| AndroidWidget.Wrap64 | android/app/src/main/kotlin/com/mliem/playtivity/widget/PlaytivityWidgetProvider.kt:36 | a `Long` result is the exact value reduced modulo 2^64 into range, and the value itself when it fits |
| AndroidWidget.TimeAgoText | android/app/src/main/kotlin/com/mliem/playtivity/widget/PlaytivityWidgetProvider.kt:30-48 | a playing item reads `Listening now` whatever its timestamp; the date form shows the item's own timestamp |
| AndroidWidget.TimeAgoBuckets | android/app/src/main/kotlin/com/mliem/playtivity/widget/PlaytivityWidgetProvider.kt:35-46 | under a minute (negative included) is `Just now`; then `Nm ago`, `(N/60)h ago`, `(N/1440)d ago` with the right whole unit; a week or more shows the date |
| AndroidWidget.PastTimestampIsExact | android/app/src/main/kotlin/com/mliem/playtivity/widget/PlaytivityWidgetProvider.kt:36 | a timestamp between the epoch and now is subtracted without wrapping |
| AndroidWidget.FutureTimestampIsJustNow | android/app/src/main/kotlin/com/mliem/playtivity/widget/PlaytivityWidgetProvider.kt:36-39 | a timestamp ahead of the clock reads `Just now` |
| AndroidWidget.OldestTimestampWraps | android/app/src/main/kotlin/com/mliem/playtivity/widget/PlaytivityWidgetProvider.kt:36-39 | the most negative `Long` wraps in the subtraction and reads `Just now` |
| AndroidWidget.Compare | android/app/src/main/kotlin/com/mliem/playtivity/widget/PlaytivityWidgetProvider.kt:136-142 | the comparator answers -1, 0 or 1 |
| AndroidWidget.CompareMeansPrecedes | android/app/src/main/kotlin/com/mliem/playtivity/widget/PlaytivityWidgetProvider.kt:137-141 | "not after" means playing first, then newer first; the comparator is antisymmetric and ties exactly on equal state and timestamp |
| AndroidWidget.PrecedesIsTotalPreorder | android/app/src/main/kotlin/com/mliem/playtivity/widget/PlaytivityWidgetProvider.kt:137-141 | the order is total and transitive, so the comparator is valid for a sort |
| AndroidWidget.Insert | android/app/src/main/kotlin/com/mliem/playtivity/widget/PlaytivityWidgetProvider.kt:136-142 | inserting into a sorted list keeps it sorted and adds exactly the item |
| AndroidWidget.SortActivities | android/app/src/main/kotlin/com/mliem/playtivity/widget/PlaytivityWidgetProvider.kt:136-142 | the sorted list is ordered by the comparator and is a permutation of the input |
| AndroidWidget.InsertKeepsTies | android/app/src/main/kotlin/com/mliem/playtivity/widget/PlaytivityWidgetProvider.kt:342-348 | an inserted item goes after the items tied with it and leaves other groups alone |
| AndroidWidget.SortIsStable | android/app/src/main/kotlin/com/mliem/playtivity/widget/PlaytivityWidgetProvider.kt:342-348 | items tied under the comparator keep their slot order |
| AndroidWidget.SortedOrder | android/app/src/main/kotlin/com/mliem/playtivity/widget/PlaytivityWidgetProvider.kt:134-142 | after sorting every playing item precedes every other, and timestamps do not increase within each group |
| AndroidWidget.SortKeepsLength | android/app/src/main/kotlin/com/mliem/playtivity/widget/PlaytivityWidgetProvider.kt:136 | sorting neither adds nor drops items |
| AndroidWidget.FlutterSlotsAreIgnored | android/app/src/main/kotlin/com/mliem/playtivity/widget/PlaytivityWidgetProvider.kt:89-104 | a slot field is the HomeWidget value or its default, whatever the Flutter preferences hold |
| AndroidWidget.SlotRoundTrip | android/app/src/main/kotlin/com/mliem/playtivity/widget/PlaytivityWidgetProvider.kt:88-116 | a slot stored as the app stores it reads back as the item it was stored from |
| AndroidWidget.WrittenFields | android/app/src/main/kotlin/com/mliem/playtivity/widget/PlaytivityWidgetProvider.kt:89-104 | every field of a stored slot sits under its own `friend_<i>_<field>` key |
| AndroidWidget.CompleteOnly | android/app/src/main/kotlin/com/mliem/playtivity/widget/PlaytivityWidgetProvider.kt:118 | only slots with a friend name and a track are kept, and nothing new appears |
| AndroidWidget.ReadSlot | android/app/src/main/kotlin/com/mliem/playtivity/widget/PlaytivityWidgetProvider.kt:89-116 | a slot's timestamp is always a `Long` (the clock is one), and the playing flag is set only when the HomeWidget store holds it |
| AndroidWidget.ReadSlots | android/app/src/main/kotlin/com/mliem/playtivity/widget/PlaytivityWidgetProvider.kt:88-132 | every item read is complete, and there are at most `count` of them (none for a count at or below 0) |
| AndroidWidget.ReadSlotsFilters | android/app/src/main/kotlin/com/mliem/playtivity/widget/PlaytivityWidgetProvider.kt:88-132 | the loop keeps exactly the complete slots, in slot order |
| AndroidWidget.LoadActivities | android/app/src/main/kotlin/com/mliem/playtivity/widget/PlaytivityWidgetProvider.kt:281-348 | the factory's rows are sorted (playing first, then newest first) and are exactly the complete slots among the first `count`, each as often as it was read |
| AndroidWidget.UpdateWidget | android/app/src/main/kotlin/com/mliem/playtivity/widget/PlaytivityWidgetProvider.kt:64-171 | the list is shown only for a positive count, and exactly when the factory has rows |
| AndroidWidget.ActivitiesCount | android/app/src/main/kotlin/com/mliem/playtivity/widget/PlaytivityWidgetProvider.kt:76-82 | the count is a 32-bit `Int` |
| AndroidWidget.CountReadsBack | android/app/src/main/kotlin/com/mliem/playtivity/widget/PlaytivityWidgetProvider.kt:76-82 | a count stored by either side reads back, HomeWidget's first, and with neither readable the count is 0 |
| AndroidWidget.ProviderAgreesWithFactory | android/app/src/main/kotlin/com/mliem/playtivity/widget/PlaytivityWidgetProvider.kt:84-173 | the provider shows the list exactly when the factory has rows, and every row is a complete slot among those read |
| IosWidget.DiffMinutes | ios/PlaytivityWidget/WidgetDataProvider.swift:21-23 | a timestamp at or below 0 counts as now (0 minutes); a future one gives at most 0; a past one gives the whole minutes elapsed |
| IosWidget.FormatTimeAgo | ios/PlaytivityWidget/WidgetDataProvider.swift:51-62 | `just now` under a minute, `Nm ago` under an hour, `(N/60)h ago` with the right whole hour count under a day, and from a day on `(N/1440)d ago` with the right whole day count; a negative count under a day reads `0d ago` |
| IosWidget.StatusText | ios/PlaytivityWidget/WidgetDataProvider.swift:20-42 | a recent or playing activity reads as listening now, with the playlist wording for a playlist; every other one starts with `Played ` |
| IosWidget.StatusMatchesRecent | ios/PlaytivityWidget/WidgetDataProvider.swift:28-49 | `isRecentOrPlaying` holds exactly when the status takes the listening-now branch |
| IosWidget.UndatedOrFutureIsNow | ios/PlaytivityWidget/WidgetDataProvider.swift:22-26 | a timestamp at or below 0 or in the future counts as recent |
| IosWidget.PlayedLabels | ios/PlaytivityWidget/WidgetDataProvider.swift:34-40 | a past activity reads `Played Nm ago`, `Played (N/60)h ago` or `Played (N/1440)d ago` |
| IosWidget.SameMinutes | ios/PlaytivityWidget/WidgetDataProvider.swift:21-23 | for a past activity both widgets count the same minutes |
| IosWidget.LabelsAgreeWithinAWeek | ios/PlaytivityWidget/WidgetDataProvider.swift:35-39 | between a minute and a week ago the iOS status is `Played ` followed by the Android label |
| IosWidget.LabelsDifferAfterAWeek | ios/PlaytivityWidget/WidgetDataProvider.swift:51-61 | a week or more ago Android shows the date while iOS keeps counting days |
| IosWidget.Str | ios/PlaytivityWidget/WidgetDataProvider.swift:116-119 | a missing suite or key gives the default, and a present key its stored string |
| IosWidget.WithTrack | ios/PlaytivityWidget/WidgetDataProvider.swift:147 | only activities with a track are kept, and nothing new appears |
| IosWidget.ReadFriend | ios/PlaytivityWidget/WidgetDataProvider.swift:135-157 | a friend's timestamp is always an `Int64`, and the playing flag is set only when the suite stores exactly `true` |
| IosWidget.ReadFriends | ios/PlaytivityWidget/WidgetDataProvider.swift:134-159 | every friend read has a track, and there are at most as many as slots read |
| IosWidget.ReadFriendsFilters | ios/PlaytivityWidget/WidgetDataProvider.swift:134-159 | the loop keeps exactly the slots with a track, in slot order |
| IosWidget.Count | ios/PlaytivityWidget/WidgetDataProvider.swift:129-130 | the count is an `Int64` |
| IosWidget.CreateEntryAsWritten | ios/PlaytivityWidget/WidgetDataProvider.swift:133-134 | as written, `createEntry` traps exactly when the count is negative |
| IosWidget.SlotsToRead | ios/PlaytivityWidget/WidgetDataProvider.swift:133 | the slots read number `min(count, 10)`, and none for a negative count |
| IosWidget.CreateEntry | ios/PlaytivityWidget/WidgetDataProvider.swift:112-167 | the corrected `createEntry` (a negative count shows no friends instead of trapping): at most ten friends, each with a track; the user name is `User` when the suite or the key is missing |
| IosWidget.NoSuiteGivesDefaults | ios/PlaytivityWidget/WidgetDataProvider.swift:114-119 | without the suite the entry has empty track texts, `User` and no friends |
| IosWidget.EntryFriends | ios/PlaytivityWidget/WidgetDataProvider.swift:128-159 | the friends shown are the slots with a track among the slots read, in slot order |
| IosWidget.CorrectedAgreesWhereDefined | ios/PlaytivityWidget/WidgetDataProvider.swift:129-134 | the corrected entry is the as-written one whenever the count is not negative |
| IosWidget.MinusOneCountTraps | ios/PlaytivityWidget/WidgetDataProvider.swift:129-134 | a suite holding `activities_count = "-1"` traps as written and shows no friends corrected |
| IosWidget.WrittenFields | ios/PlaytivityWidget/WidgetDataProvider.swift:135-142 | every field of a stored slot sits under its own key |
| IosWidget.FriendRoundTrip | ios/PlaytivityWidget/WidgetDataProvider.swift:135-145 | a slot stored as the app stores it reads back as the activity it was stored from |
| IconFormat.LastIndex | scripts/convert_icon.py:25 | the index found holds the last occurrence of the character, and there is none exactly when it is absent |
| IconFormat.Name | scripts/convert_icon.py:25 | a path's name never contains `/` |
| IconFormat.NameOfJoined | scripts/convert_icon.py:25 | the name of `dir/file` is `file` |
| IconFormat.Suffix | scripts/convert_icon.py:25 | a suffix is empty or a dot followed by a dot-free text that ends the name and is shorter than it |
| IconFormat.SuffixOfJoined | scripts/convert_icon.py:25 | `stem.ext` has the suffix `.ext` |
| IconFormat.DotFileHasNoSuffix | scripts/convert_icon.py:25 | a hidden file like `.png` has no suffix |
| IconFormat.Header | scripts/convert_icon.py:34-35 | `read(10)` is a prefix of the contents, ten bytes long when there are that many |
| IconFormat.SniffMeans | scripts/convert_icon.py:36-43 | a header is SVG exactly when it contains `<svg`, and raster exactly when it is not SVG and starts with a PNG or JPEG signature |
| IconFormat.DetectFormat | scripts/convert_icon.py:23-45 | `.svg` gives SVG and the six raster extensions give raster; otherwise a read failure is unknown and the header decides |
| IconFormat.ExtensionDecides | scripts/convert_icon.py:25-30 | a recognised extension decides without reading the file, and is never unknown |
| IconFormat.OnlyHeaderMatters | scripts/convert_icon.py:33-43 | only the first ten bytes are looked at |
| IconFormat.ExtensionOfJoined | scripts/convert_icon.py:25 | the extension of `dir/stem.ext` is `.ext` in lower case |
| IconFormat.ExtensionIgnoresCase | scripts/convert_icon.py:25-28 | `logo.SVG` (any case) is SVG whatever the file holds |
| IconFormat.DotFileIsSniffed | scripts/convert_icon.py:25-43 | a name like `.png` has no extension, so its bytes decide |
| IconFormat.NoDotNoExtension | scripts/convert_icon.py:25 | a name without a dot has no extension |
| IconFormat.XmlDeclarationHidesSvg | scripts/convert_icon.py:35-43 | an extension-less SVG whose XML declaration pushes `<svg` past byte ten is unknown |
| IconFormat.IconMain | scripts/convert_icon.py:275-363 | exit 0 exactly for one argument naming an existing file of a known format whose Android icon replacement succeeds; conversion starts exactly when the format is known; cleanup runs exactly when the file check passed |
| IconFormat.UnreadableFile | scripts/convert_icon.py:33-45 | an unreadable file still goes on to conversion exactly when its extension is recognised |

## Left out

- External processes (`execSync` of flutter, fvm, gradle, java, git, gh, aapt) are not run. Their success, their output (the short commit, the remote URL) and their error messages are inputs.
- File I/O is abstract. `pubspec.yaml` is a string, the nightly directory is a sequence of names, and the publisher's directory is a name-to-content map. Copy, stat, mkdir and JSON reading and writing are not modelled.
- The clock is an input: `nowMs`, the date and time stamps, the Unix seconds and the ISO text. The UTC date next to the local time in nightly-apk.js:94-95 therefore needs no time-zone model. Locale formatting (`toLocaleString`, Kotlin's `MMM dd`) is not modelled.
- AndroidWidget.TimeAgoText: the `MMM dd` branch is represented by the timestamp it formats, not by the formatted text.
- SHA-256 checksums, the MD5 image-cache names, file sizes in MB (`toFixed(2)`, floating point) and Swift's `timeIntervalSince1970 * 1000` are not modelled.
- The Markdown bodies of the release and nightly notes, `generateNightlyInfo`'s JSON contents and `getBuildEnvironmentInfo` are not modelled. They are constant templates filled with values the model already has.
- Keystore setup, credential prompts, `verifyAPKSignature` and the bundle builds (`buildReleaseBundle`, `buildSignedBundle`) are not modelled. A bundle's existence enters `BuildPipeline.ReleaseFiles` as an input.
- The `release` and `releaseFromNightly` drivers are modelled only through their parts: the version update, the build outcome, the file list and the command line.
- The icon conversion itself (PIL and cairosvg resizing, Android mipmap replacement, Flutter images) is an input to `IconFormat.IconMain`: it either raises or reports whether the Android replacement succeeded. The module-level `from PIL import Image` (convert_icon.py:17) is not modelled: without Pillow the script exits 1 before the argument check, so nothing is converted and the `finally` cleanup never runs.
- Platform UI (RemoteViews, PendingIntents, SwiftUI views, image loading) and the other Kotlin and Swift files are not part of this model.
- Text.Lower: only ASCII letters are lower-cased. That covers every extension compared and every `true` spelling the widgets distinguish; Python's and Kotlin's full Unicode case mapping is not modelled.
- Text.StrLessTransitive: JavaScript's default `sort` compares UTF-16 code units. The model compares characters, which agrees on the ASCII file names the scripts produce.
- IconFormat.Name: POSIX paths only. Windows separators and drive letters (`PureWindowsPath`) are not modelled.
- NumParse.SwiftInt64: Swift `Int` is taken to be 64 bits wide, as on the devices the widget runs on.
- IosWidget.DiffMinutes: requires a clock reading at or after the epoch (and within `Int64`). Before the epoch the subtraction could overflow, and Swift traps on that.
- AndroidWidget.ReadSlot: preference values are strings. A value stored with another type (which makes `getString` throw) is not modelled.
- Nightly.SelectBuild: requires a non-empty list. Both scripts call it only after `listNightlyBuilds` has thrown on an empty listing.
- Versioning.ParseVersionRoundTrip: the build number is read back exactly for every b >= 1. JavaScript's `parseInt` rounds a run of more than 15 or 16 digits to a double, so above 2^53 the program reads back a neighbouring value.
- Versioning.BumpMajorDotted: `(a+1).0.0` holds for unbounded integers. In JavaScript, `a + 1` is rounded above 2^53, and from 1e21 on the number prints in exponent form.
- Versioning.BumpMinorDotted: `a.(b+1).0` holds for unbounded integers. Above 2^53, and from 1e21 on, JavaScript's double arithmetic and printing differ.
- Versioning.BumpPatchDotted: `a.b.(c+1)` holds for unbounded integers. Above 2^53, and from 1e21 on, JavaScript's double arithmetic and printing differ.
- Versioning.DevIncrement: the build number grows by exactly one. In JavaScript, `build + 1` stops growing at 2^53.
- JsNumber.ParseSigned: a digit run reads as its exact value. JavaScript rounds the value of a long run to the nearest double.
- JsNumber.Succ: `n + 1` is exact. On doubles it is rounded above 2^53.
- JsNumber.Show: a number prints as its decimal digits. JavaScript prints numbers from 1e21 on in exponent form (`1e+21`), and prints the rounded value above 2^53.
- JsNumber.ParseIntOfNatToString: the round trip holds for every natural number. In JavaScript it holds only up to 2^53.
- JsNumber.ParseIntDigitsThenText: the digit prefix reads as its exact value. JavaScript rounds a long prefix to the nearest double.
- NumParse.ParseFixed: only ASCII digits are accepted. On the JVM, `toIntOrNull` and `toLongOrNull` read digits through `Character.digit`, so other Unicode decimal digits (`"٤٢"`) are accepted too. The widget's own writer stores ASCII digits only.
- NumParse.SignedDecimal: ASCII digits only, for the reason given for `ParseFixed`. Swift's `Int64(_:)` takes ASCII digits only, so this difference is Kotlin's alone.
- Versioning.StripNightlyRecoversBase: the round trip needs a base that does not end with `-nightly`, besides not containing `-nightly-`. `Versioning.StripNightlyCutsShort` shows the base that breaks it.

## Findings

| source | as written | input that shows it | evidently intended | confidence | as-written member | corrected member |
|---|---|---|---|---|---|---|
| nightly-apk.js:457-458 | The pruned build's info and notes names are computed from the APK name with only the prefix and `.apk` removed. They keep `-<commit>`, but the files were written as `nightly-info-<date>-<time>.json` and `nightly-notes-<date>-<time>.md` (nightly-apk.js:338, 365). | Pruning `playtivity-nightly-20250614-143022-abc1234.apk` deletes the APK, looks for `nightly-info-20250614-143022-abc1234.json`, and leaves `nightly-info-20250614-143022.json` and `nightly-notes-20250614-143022.md` behind. | A pruned build's info and notes files go with it, as the comment at nightly-apk.js:456 says. | not executed | Retention.AsWrittenLeavesSidecars, NightlyRun.BuildNightly | Retention.CorrectedPrunesSidecars, NightlyRun.BuildNightlyCorrected |
| ios/PlaytivityWidget/WidgetDataProvider.swift:133-134 | `min(count, 10)` of a negative count is negative, and `0..<maxFriends` with a negative upper bound is a runtime trap. | A shared suite holding `activities_count = "-1"`. | A negative count shows no friends, as Kotlin's `0 until n` does. | not executed | IosWidget.MinusOneCountTraps | IosWidget.CreateEntry |
