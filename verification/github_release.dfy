/** nightly-github-release.js: identify the GitHub repository from the
    origin remote, pick a nightly build, and publish it with the GitHub CLI
    through a temporary notes file that is removed whatever happens. The
    nightly directory is a map from file names to contents; the remote URL
    and the outcomes of the `gh` calls are inputs. */
module GitHubRelease {
  import opened Results
  import opened Text
  import opened JsNumber
  import opened Nightly
  import BuildPipeline

  // ---------------------------------------------------------------------
  // /github\.com[/:]([\w-]+)\/([\w-]+)(?:\.git)?$/

  /** `[\w-]`: ASCII letters, digits, `_` and `-`. */
  predicate WordChar(c: char) {
    ('a' <= c <= 'z') || ('A' <= c <= 'Z') || ('0' <= c <= '9') || c == '_' || c == '-'
  }

  /** `[\w-]+` matches the whole of `s`. */
  predicate WordRun(s: string) {
    |s| > 0 && forall k :: 0 <= k < |s| ==> WordChar(s[k])
  }

  const Host: string := "github.com"

  /** `github\.com[/:]` matches at `i`. */
  predicate HostAt(s: string, i: nat) {
    i + 11 <= |s| && s[i..i + 10] == Host && (s[i + 10] == '/' || s[i + 10] == ':')
  }

  /** The text after the host with the optional `.git` dropped. */
  function StripDotGit(t: string): (r: string)
    ensures EndsWith(t, ".git") ==> t == r + ".git"
    ensures !EndsWith(t, ".git") ==> r == t
  {
    if EndsWith(t, ".git") then t[..|t| - 4] else t
  }

  /** `owner/repo`: two word runs around one slash. */
  predicate OwnerRepo(x: string) {
    exists p :: 0 <= p < |x| && x[p] == '/' && WordRun(x[..p]) && WordRun(x[p + 1..])
  }

  /** The two groups joined by `/` when the rest of the URL is
      `owner/repo` or `owner/repo.git` up to its end. Neither group can hold
      `.` or `/`, so the groups are the runs on either side of the only
      slash, and `.git` can only be the optional suffix. */
  function RepoPath(t: string): (r: Option<string>)
    ensures r.Some? ==> (t == r.value || t == r.value + ".git") && OwnerRepo(r.value)
  {
    var body := StripDotGit(t);
    match IndexOf(body, "/")
    case None => None
    case Some(p) =>
      assert body[p..p + 1][0] == body[p];
      if WordRun(body[..p]) && WordRun(body[p + 1..]) then Some(body) else None
  }

  /** The whole pattern matches at `i`. */
  predicate MatchAt(s: string, i: nat) {
    HostAt(s, i) && RepoPath(s[i + 11..]).Some?
  }

  /** The leftmost match at or after `i`. */
  function MatchFrom(s: string, i: nat): Option<nat>
    decreases |s| - i
  {
    if i + 11 > |s| then None
    else if MatchAt(s, i) then Some(i)
    else MatchFrom(s, i + 1)
  }

  /** What the scan returns is a match. */
  lemma {:induction false} FoundIsMatch(s: string, i: nat)
    ensures MatchFrom(s, i).Some? ==> i <= MatchFrom(s, i).value && MatchAt(s, MatchFrom(s, i).value)
    decreases |s| - i
  {
    if i + 11 <= |s| && !MatchAt(s, i) {
      FoundIsMatch(s, i + 1);
    }
  }

  /** Nothing matches before what the scan returns. */
  lemma {:induction false} NoneBefore(s: string, i: nat, j: nat)
    requires MatchFrom(s, i).Some? && i <= j < MatchFrom(s, i).value
    ensures !MatchAt(s, j)
    decreases |s| - i
  {
    if i < j {
      NoneBefore(s, i + 1, j);
    }
  }

  /** A scan that finds nothing passed over no match. */
  lemma {:induction false} NoneAfter(s: string, i: nat, j: nat)
    requires MatchFrom(s, i).None? && i <= j
    ensures !MatchAt(s, j)
    decreases |s| - i
  {
    if i < j && i + 11 <= |s| {
      NoneAfter(s, i + 1, j);
    }
  }

  /** The scan finds the leftmost match, and finds none only when there is
      none. */
  lemma LeftmostMatch(s: string, i: nat)
    ensures MatchFrom(s, i).Some? ==> i <= MatchFrom(s, i).value && MatchAt(s, MatchFrom(s, i).value)
    ensures MatchFrom(s, i).Some? ==> forall j :: i <= j < MatchFrom(s, i).value ==> !MatchAt(s, j)
    ensures MatchFrom(s, i).None? ==> forall j :: i <= j ==> !MatchAt(s, j)
  {
    FoundIsMatch(s, i);
    forall j | MatchFrom(s, i).Some? && i <= j < MatchFrom(s, i).value
      ensures !MatchAt(s, j)
    {
      NoneBefore(s, i, j);
    }
    forall j | MatchFrom(s, i).None? && i <= j
      ensures !MatchAt(s, j)
    {
      NoneAfter(s, i, j);
    }
  }

  /** `detectGitHubRepo`: `owner/repo` from the trimmed origin URL, or
      `null` when the pattern does not match (or git fails: `None` in). */
  function DetectRepo(remote: Option<string>): (r: Option<string>)
    ensures remote.None? ==> r.None?
    ensures r.Some? ==> OwnerRepo(r.value)
    ensures remote.Some? ==> (r.None? <==> forall j :: !MatchAt(Trim(remote.value), j))
  {
    match remote
    case None => None
    case Some(url) =>
      LeftmostMatch(Trim(url), 0);
      match MatchFrom(Trim(url), 0)
      case None => None
      case Some(j) => RepoPath(Trim(url)[j + 11..])
  }

  /** The part of a remote URL after the host: `owner/repo`, optionally
      followed by `.git`. */
  function RepoTail(owner: string, repo: string, dotGit: bool): string {
    owner + "/" + repo + (if dotGit then ".git" else "")
  }

  /** `owner/repo`, with or without `.git`, reads back as `owner/repo`. */
  lemma RepoPathOf(owner: string, repo: string, dotGit: bool)
    requires WordRun(owner) && WordRun(repo)
    ensures RepoPath(RepoTail(owner, repo, dotGit)) == Some(owner + "/" + repo)
  {
    var body := owner + "/" + repo;
    StripOfTail(owner, repo, dotGit);
    FirstSlash(owner, repo);
    assert body[..|owner|] == owner;
    assert body[|owner| + 1..] == repo;
  }

  /** Dropping the optional `.git` gives back `owner/repo`: a word run
      cannot end in `.git`. */
  lemma StripOfTail(owner: string, repo: string, dotGit: bool)
    requires WordRun(owner) && WordRun(repo)
    ensures StripDotGit(RepoTail(owner, repo, dotGit)) == owner + "/" + repo
  {
    var body := owner + "/" + repo;
    var t := RepoTail(owner, repo, dotGit);
    if dotGit {
      assert t == body + ".git";
      assert EndsWith(t, ".git");
      assert t[..|t| - 4] == body;
    } else {
      assert t == body;
      if |t| >= 4 {
        var w := t[|t| - 4..];
        if |repo| >= 4 {
          assert w[0] == repo[|repo| - 4];
          assert w[0] != ".git"[0];
        } else {
          var q := 3 - |repo|;
          assert w[q] == '/';
          assert w[q] != ".git"[q];
        }
      }
    }
  }

  /** The only slash of `owner/repo` is the one after the owner. */
  lemma FirstSlash(owner: string, repo: string)
    requires WordRun(owner)
    ensures IndexOf(owner + "/" + repo, "/") == Some(|owner|)
  {
    var body := owner + "/" + repo;
    assert OccursAt(body, "/", |owner|);
    forall j | 0 <= j < |owner|
      ensures !OccursAt(body, "/", j)
    {
      assert body[j] == owner[j];
      assert body[j..j + 1][0] == body[j];
    }
  }

  /** A position where the pattern does not match is passed over. */
  lemma StepPast(s: string, i: nat)
    requires !MatchAt(s, i)
    ensures MatchFrom(s, i) == MatchFrom(s, i + 1)
  {
  }

  /** One character that differs from the host rules out a match. */
  lemma NoHostWhere(s: string, k: nat, d: nat)
    requires d < 10 && k + d < |s| && s[k + d] != Host[d]
    ensures !MatchAt(s, k)
  {
    if k + 11 <= |s| {
      assert s[k..k + 10][d] == s[k + d];
    }
  }

  /** Nothing matches where no `g` follows. */
  lemma {:induction false} NoHostNoMatch(s: string, i: nat)
    requires forall k :: i <= k < |s| ==> s[k] != 'g'
    ensures MatchFrom(s, i).None?
    decreases |s| - i
  {
    if i + 11 <= |s| {
      NotAtNonG(s, i);
      NoHostNoMatch(s, i + 1);
    }
  }

  /** The host at `i`, followed by `owner/repo(.git)` to the end. */
  lemma MatchesAt(s: string, i: nat, owner: string, repo: string, dotGit: bool)
    requires WordRun(owner) && WordRun(repo)
    requires i + 11 <= |s| && s[i..i + 10] == Host && (s[i + 10] == '/' || s[i + 10] == ':')
    requires s[i + 11..] == RepoTail(owner, repo, dotGit)
    ensures MatchAt(s, i) && RepoPath(s[i + 11..]) == Some(owner + "/" + repo)
  {
    RepoPathOf(owner, repo, dotGit);
  }

  /** Positions holding no `g` are passed over. */
  lemma {:induction false} SkipFrom(s: string, i: nat, n: nat)
    requires i <= n <= |s| && forall k :: i <= k < n ==> s[k] != 'g'
    ensures MatchFrom(s, i) == MatchFrom(s, n)
    decreases n - i
  {
    if i < n {
      assert s[i] != 'g';
      NotAtNonG(s, i);
      StepPast(s, i);
      SkipFrom(s, i + 1, n);
    }
  }

  /** The host starts with `g`. */
  lemma NotAtNonG(s: string, i: nat)
    requires i < |s| && s[i] != 'g'
    ensures !MatchAt(s, i)
  {
    NoHostWhere(s, i, 0);
  }

  /** The two remote forms `git remote get-url origin` prints for a GitHub
      repository. */
  function HttpsUrl(owner: string, repo: string, dotGit: bool): string {
    "https://github.com/" + RepoTail(owner, repo, dotGit)
  }

  function SshUrl(owner: string, repo: string, dotGit: bool): string {
    "git@github.com:" + RepoTail(owner, repo, dotGit)
  }

  /** `https://github.com/owner/repo(.git)` gives `owner/repo`. */
  lemma HttpsRemote(owner: string, repo: string, dotGit: bool)
    requires WordRun(owner) && WordRun(repo)
    ensures DetectRepo(Some(HttpsUrl(owner, repo, dotGit))) == Some(owner + "/" + repo)
  {
    var s := HttpsUrl(owner, repo, dotGit);
    HttpsShape(owner, repo, dotGit);
    SkipFrom(s, 0, 8);
    DetectFrom(s, 8, owner, repo, dotGit);
  }

  /** `git@github.com:owner/repo(.git)` gives `owner/repo`. */
  lemma SshRemote(owner: string, repo: string, dotGit: bool)
    requires WordRun(owner) && WordRun(repo)
    ensures DetectRepo(Some(SshUrl(owner, repo, dotGit))) == Some(owner + "/" + repo)
  {
    var s := SshUrl(owner, repo, dotGit);
    SshShape(owner, repo, dotGit);
    NoHostWhere(s, 0, 3);
    StepPast(s, 0);
    SkipFrom(s, 1, 4);
    DetectFrom(s, 4, owner, repo, dotGit);
  }

  /** Where the host and the path sit in an HTTPS remote. */
  lemma HttpsShape(owner: string, repo: string, dotGit: bool)
    requires WordRun(owner) && WordRun(repo)
    ensures var s := HttpsUrl(owner, repo, dotGit);
      && |s| >= 19 && s[8..18] == Host && s[18] == '/' && s[19..] == RepoTail(owner, repo, dotGit)
      && Trim(s) == s && forall k :: 0 <= k < 8 ==> s[k] != 'g'
  {
    var tail := RepoTail(owner, repo, dotGit);
    Layout("https://github.com/", tail, HttpsUrl(owner, repo, dotGit));
    HttpsLead();
    UrlIsTrimmed("https://github.com/", tail);
  }

  /** Where the host and the path sit in an SSH remote. */
  lemma SshShape(owner: string, repo: string, dotGit: bool)
    requires WordRun(owner) && WordRun(repo)
    ensures var s := SshUrl(owner, repo, dotGit);
      && |s| >= 15 && s[3] == '@' && s[4..14] == Host && s[14] == ':'
      && s[15..] == RepoTail(owner, repo, dotGit)
      && Trim(s) == s && forall k :: 1 <= k < 4 ==> s[k] != 'g'
  {
    var tail := RepoTail(owner, repo, dotGit);
    Layout("git@github.com:", tail, SshUrl(owner, repo, dotGit));
    SshLead();
    UrlIsTrimmed("git@github.com:", tail);
  }

  /** A URL is its scheme part followed by the path. */
  lemma Layout(lead: string, tail: string, s: string)
    requires s == lead + tail
    ensures |s| == |lead| + |tail| && s[|lead|..] == tail
    ensures forall i, j :: 0 <= i <= j <= |lead| ==> s[i..j] == lead[i..j]
    ensures forall k :: 0 <= k < |lead| ==> s[k] == lead[k]
  {
    forall i, j | 0 <= i <= j <= |lead|
      ensures s[i..j] == lead[i..j]
    {
      assert s[..|lead|] == lead;
      assert s[i..j] == s[..|lead|][i..j];
    }
  }

  /** The HTTPS scheme part: its only `g` starts the host. */
  lemma HttpsLead()
    ensures var l := "https://github.com/";
      && l[8..18] == Host && l[18] == '/'
      && (forall k :: 0 <= k < 8 ==> l[k] != 'g') && (forall k :: 9 <= k < |l| ==> l[k] != 'g')
  {
  }

  /** The SSH scheme part: a `g` at 0 that `@` stops, then the host. */
  lemma SshLead()
    ensures var l := "git@github.com:";
      && l[3] == '@' && l[4..14] == Host && l[14] == ':' && forall k :: 1 <= k < 4 ==> l[k] != 'g'
  {
  }

  /** A trimmed URL whose leftmost candidate is the host at `i` followed by
      `owner/repo(.git)`. */
  lemma DetectFrom(s: string, i: nat, owner: string, repo: string, dotGit: bool)
    requires WordRun(owner) && WordRun(repo)
    requires i + 11 <= |s| && s[i..i + 10] == Host && (s[i + 10] == '/' || s[i + 10] == ':')
    requires s[i + 11..] == RepoTail(owner, repo, dotGit)
    requires Trim(s) == s && MatchFrom(s, 0) == MatchFrom(s, i)
    ensures DetectRepo(Some(s)) == Some(owner + "/" + repo)
  {
    MatchesAt(s, i, owner, repo, dotGit);
    DetectAt(s, i);
  }

  /** A trimmed URL whose leftmost match is at `i`. */
  lemma DetectAt(s: string, i: nat)
    requires Trim(s) == s && MatchFrom(s, 0) == MatchFrom(s, i) && MatchAt(s, i)
    ensures DetectRepo(Some(s)) == RepoPath(s[i + 11..])
  {
    assert MatchFrom(s, i) == Some(i);
  }

  lemma UrlIsTrimmed(lead: string, tail: string)
    requires |lead| > 0 && !IsSpace(lead[0])
    requires |tail| > 0 && (WordChar(tail[|tail| - 1]) || tail[|tail| - 1] == 't')
    ensures Trim(lead + tail) == lead + tail
  {
    var s := lead + tail;
    assert s[|s| - 1] == tail[|tail| - 1];
    TrimUntouched(s);
  }

  /** Text ending in a slash (or empty) is not `owner/repo(.git)`. */
  lemma NoRepoPathBeforeSlash(t: string)
    requires |t| == 0 || t[|t| - 1] == '/'
    ensures RepoPath(t).None?
  {
    if |t| >= 4 {
      assert t[|t| - 4..][3] == t[|t| - 1];
    }
    assert StripDotGit(t) == t;
    match IndexOf(t, "/")
    case None =>
    case Some(p) =>
      var repo := t[p + 1..];
      if |repo| > 0 {
        assert repo[|repo| - 1] == t[|t| - 1];
      }
      assert !WordRun(repo);
  }

  /** A URL with a trailing slash never matches: the last group would have
      to end at the slash. */
  lemma TrailingSlashIsRejected(url: string)
    requires EndsWith(Trim(url), "/")
    ensures DetectRepo(Some(url)).None?
  {
    var s := Trim(url);
    assert s[|s| - 1] == '/';
    forall j | HostAt(s, j)
      ensures !MatchAt(s, j)
    {
      NoMatchBeforeSlash(s, j);
    }
  }

  lemma NoMatchBeforeSlash(s: string, j: nat)
    requires |s| > 0 && s[|s| - 1] == '/' && HostAt(s, j)
    ensures !MatchAt(s, j)
  {
    var t := s[j + 11..];
    if |t| > 0 {
      assert t[|t| - 1] == s[|s| - 1];
    }
    NoRepoPathBeforeSlash(t);
  }

  /** A dot inside the owner is not a word character. */
  lemma DotInOwnerIsRejected()
    ensures DetectRepo(Some(HttpsUrl("m.liem", "playtivity", false))).None?
  {
    DottedUrl(HttpsUrl("m.liem", "playtivity", false));
    OnlyCandidateFails(HttpsUrl("m.liem", "playtivity", false));
  }

  lemma DottedUrl(s: string)
    requires s == HttpsUrl("m.liem", "playtivity", false)
    ensures |s| >= 19 && s[8..18] == Host && s[18] == '/' && Trim(s) == s
    ensures forall k :: 0 <= k < 8 ==> s[k] != 'g'
    ensures forall k :: 9 <= k < |s| ==> s[k] != 'g'
    ensures RepoPath(s[19..]).None?
  {
    DottedUrlShape(s);
    DottedUrlHasOneG(s);
    DottedPath(RepoTail("m.liem", "playtivity", false));
  }

  lemma DottedUrlShape(s: string)
    requires s == HttpsUrl("m.liem", "playtivity", false)
    ensures |s| >= 19 && s[8..18] == Host && s[18] == '/' && Trim(s) == s
    ensures s[19..] == RepoTail("m.liem", "playtivity", false)
  {
    var lead, t := "https://github.com/", RepoTail("m.liem", "playtivity", false);
    Layout(lead, t, s);
    HttpsLead();
    assert t[|t| - 1] == 'y';
    UrlIsTrimmed(lead, t);
  }

  lemma DottedUrlHasOneG(s: string)
    requires s == HttpsUrl("m.liem", "playtivity", false)
    ensures forall k :: 0 <= k < 8 ==> s[k] != 'g'
    ensures forall k :: 9 <= k < |s| ==> s[k] != 'g'
  {
    var lead, t := "https://github.com/", RepoTail("m.liem", "playtivity", false);
    Layout(lead, t, s);
    HttpsLead();
    DottedPath(t);
    forall k | 19 <= k < |s|
      ensures s[k] != 'g'
    {
      assert s[k] == t[k - 19];
    }
  }

  lemma DottedPath(t: string)
    requires t == RepoTail("m.liem", "playtivity", false)
    ensures forall k :: 0 <= k < |t| ==> t[k] != 'g'
    ensures RepoPath(t).None?
  {
    assert t == "m.liem/playtivity";
    assert t[0] == 'm' && t[1] == '.' && t[|t| - 1] == 'y';
    DotBeforeSlash(t, 1);
  }

  /** An HTTPS URL whose one `g` is the host's and whose path does not
      match has no match at all. */
  lemma OnlyCandidateFails(s: string)
    requires |s| >= 19 && s[8..18] == Host && s[18] == '/' && Trim(s) == s
    requires forall k :: 0 <= k < 8 ==> s[k] != 'g'
    requires forall k :: 9 <= k < |s| ==> s[k] != 'g'
    requires RepoPath(s[19..]).None?
    ensures DetectRepo(Some(s)).None?
  {
    SkipFrom(s, 0, 8);
    StepPast(s, 8);
    NoHostNoMatch(s, 9);
  }

  /** A dot before the first slash puts a non-word character in the owner,
      unless the text is `.git`-terminated (not the case when it ends in
      some other letter). */
  lemma DotBeforeSlash(t: string, d: nat)
    requires d < |t| && t[d] == '.' && t[|t| - 1] != 't'
    requires forall k :: 0 <= k <= d ==> t[k] != '/'
    ensures RepoPath(t).None?
  {
    if |t| >= 4 {
      assert t[|t| - 4..][3] == t[|t| - 1];
    }
    assert StripDotGit(t) == t;
    match IndexOf(t, "/")
    case None =>
    case Some(p) =>
      assert t[p..p + 1][0] == t[p];
      assert t[..p][d] == '.';
  }

  const RepoNotDetectedError: string :=
    "GitHub repository not detected. Ensure you are in a git repository with GitHub origin."

  /** `checkGitHubRepo`. */
  function CheckRepo(repo: Option<string>): (r: Result<string>)
    ensures r.Ok? <==> repo.Some? && repo.value != ""
    ensures r.Ok? ==> r.value == repo.value
    ensures r.Err? ==> r.msg == RepoNotDetectedError
  {
    if repo.Some? && repo.value != "" then Ok(repo.value) else Err(RepoNotDetectedError)
  }

  // ---------------------------------------------------------------------
  // Tag, title, flag

  /** `nightly-${build.buildId}`; an ID-less build renders `undefined`. */
  function Tag(buildId: Option<string>): (r: string)
    ensures StartsWith(r, "nightly-")
  {
    "nightly-" + ShowPart(buildId)
  }

  /** The release title names the same build as the tag. */
  function Title(buildId: Option<string>): (r: string)
    ensures StartsWith(r, "\U{1F319} Nightly Build ")
    ensures r[|"\U{1F319} Nightly Build "|..] == Tag(buildId)[|"nightly-"|..]
  {
    "\U{1F319} Nightly Build " + ShowPart(buildId)
  }

  /** The build ID comes back out of the tag, and distinct builds get
      distinct tags. */
  lemma TagRoundTrip(a: Option<string>, b: Option<string>)
    ensures Tag(a)[8..] == ShowPart(a)
    ensures a.Some? && b.Some? && Tag(a) == Tag(b) ==> a == b
  {
    assert Tag(a)[8..] == ShowPart(a);
    assert Tag(b)[8..] == ShowPart(b);
  }

  /** A written build is tagged with its date and time. */
  lemma TagOfWrittenBuild(dateStr: string, timeStr: string, commit: string)
    requires Stamped(dateStr, timeStr)
    ensures Tag(BuildId(NightlyApkName(dateStr, timeStr, commit))) == "nightly-" + dateStr + "-" + timeStr
  {
    BuildIdOfApkName(dateStr, timeStr, commit);
  }

  function PrereleaseFlag(prerelease: bool): (r: string)
    ensures r != "" <==> prerelease
    ensures r != "" ==> r == "--prerelease"
  {
    if prerelease then "--prerelease" else ""
  }

  /** The options the CLI reads: the value after the first `--build-id`
      when it is there and not empty, and prerelease unless `--stable`
      appears anywhere. */
  datatype Options = Options(buildId: Option<string>, prerelease: bool)

  function ReadOptions(args: seq<string>): (r: BuildPipeline.CliAction<Options>)
    ensures r.ShowHelp? <==> BuildPipeline.WantsHelp(args)
    ensures !r.InvalidType?
    ensures r.Proceed? ==> (r.options.prerelease <==> "--stable" !in args)
    ensures r.Proceed? ==> r.options.buildId == BuildPipeline.FlagValue(args, "--build-id")
  {
    if BuildPipeline.WantsHelp(args) then BuildPipeline.ShowHelp
    else BuildPipeline.Proceed(Options(BuildPipeline.FlagValue(args, "--build-id"), "--stable" !in args))
  }

  // ---------------------------------------------------------------------
  // Publishing through a temporary notes file

  /** `release-notes-${build.buildId}.md` in the nightly directory. */
  function NotesFile(buildId: Option<string>): string {
    "release-notes-" + ShowPart(buildId) + ".md"
  }

  const PublishErrorPrefix: string := "Failed to create GitHub release: "

  /** `createReleaseWithGHCLI`: write the notes, run `gh release create`
      (its success and error message are inputs), and in `finally` unlink
      the notes file if it exists. A failure is rethrown with the prefix. */
  function Publish(dir: map<string, string>, buildId: Option<string>, body: string, ghOk: bool, ghMessage: string)
    : (r: (map<string, string>, Result<()>))
    ensures NotesFile(buildId) !in r.0
    ensures forall x :: x != NotesFile(buildId) ==> (x in r.0 <==> x in dir)
    ensures forall x :: x in r.0 ==> r.0[x] == dir[x]
    ensures r.1.Ok? <==> ghOk
    ensures r.1.Err? ==> r.1.msg == PublishErrorPrefix + ghMessage
  {
    var notes := NotesFile(buildId);
    var during := dir[notes := body];
    var outcome := if ghOk then Ok(()) else Err(PublishErrorPrefix + ghMessage);
    var after := if notes in during then during - {notes} else during;
    (after, outcome)
  }

  /** The `gh` command line the publisher runs; the notes file is named
      inside the nightly directory `nightlyDir` (`path.join` is modelled
      as joining with `/`). */
  function GhCommand(buildId: Option<string>, apkPath: string, nightlyDir: string, prerelease: bool): (r: string)
    ensures StartsWith(r, "gh release create \"" + Tag(buildId) + "\" ")
    ensures prerelease <==> EndsWith(r, " --prerelease")
  {
    var head := "gh release create \"" + Tag(buildId) + "\" ";
    var mid := "\"" + apkPath + "\" --title \"" + Title(buildId) + "\" --notes-file \""
      + nightlyDir + "/" + NotesFile(buildId) + "\" ";
    CommandShape(head, mid, prerelease);
    head + mid + PrereleaseFlag(prerelease)
  }

  /** A command whose options end in a space ends in ` --prerelease`
      exactly when the flag is appended. */
  lemma CommandShape(head: string, mid: string, prerelease: bool)
    requires |mid| > 0 && mid[|mid| - 1] == ' '
    ensures StartsWith(head + mid + PrereleaseFlag(prerelease), head)
    ensures prerelease <==> EndsWith(head + mid + PrereleaseFlag(prerelease), " --prerelease")
  {
    var r := head + mid + PrereleaseFlag(prerelease);
    assert r == head + (mid + PrereleaseFlag(prerelease));
    assert r[..|head|] == head;
    if prerelease {
      FlagAfterSpace(head + mid);
    } else {
      assert r == head + mid;
      assert r[|r| - 1] == ' ';
    }
  }

  lemma FlagAfterSpace(s: string)
    requires |s| > 0 && s[|s| - 1] == ' '
    ensures EndsWith(s + "--prerelease", " --prerelease")
  {
    var r := s + "--prerelease";
    assert r[|r| - 13..] == [s[|s| - 1]] + "--prerelease";
  }

  // ---------------------------------------------------------------------
  // The whole release

  /** `commit.length > 7 ? commit.substring(0, 7) : commit`, with the
      commit defaulting to `unknown` when it is missing or empty. */
  function CommitShort(commit: Option<string>): (r: string)
    ensures |r| <= 7
    ensures commit.Some? && commit.value != "" ==> StartsWith(commit.value, r)
    ensures commit.Some? && commit.value != "" && |commit.value| <= 7 ==> r == commit.value
    ensures commit.None? || commit.value == "" ==> r == "unknown"
  {
    var c := if commit.Some? && commit.value != "" then commit.value else "unknown";
    if |c| > 7 then c[..7] else c
  }

  /** What `releaseNightly` reads from outside. */
  datatype Env = Env(ghInstalled: bool, ghAuthenticated: bool, remote: Option<string>,
                     dirExists: bool, ghOk: bool, ghMessage: string)

  const CliMissingError: string := "GitHub CLI not found."
  const CliUnauthenticatedError: string := "GitHub CLI not authenticated."

  /** `releaseNightly`: check the CLI, the repository, list and select a
      build, publish it. The result is the directory afterwards and the
      published build or the reason it failed (exit status 1). */
  function ReleaseNightly(env: Env, dir: map<string, string>, files: seq<string>, opts: Options, body: string)
    : (r: (map<string, string>, Result<NightlyBuild>))
    ensures r.1.Ok? <==> (env.ghInstalled && env.ghAuthenticated && DetectRepo(env.remote).Some?
      && ListAndSelect(env.dirExists, files, opts.buildId).Ok? && env.ghOk)
    ensures r.1.Ok? ==> r.1.value == ListAndSelect(env.dirExists, files, opts.buildId).value
    ensures r.1.Ok? ==> NotesFile(r.1.value.buildId) !in r.0
    ensures forall x :: x in r.0 ==> x in dir && r.0[x] == dir[x]
    ensures ListAndSelect(env.dirExists, files, opts.buildId).Err? ==> r.0 == dir
  {
    DetectedRepoIsNotEmpty(env.remote);
    if !env.ghInstalled then (dir, Err(CliMissingError))
    else if !env.ghAuthenticated then (dir, Err(CliUnauthenticatedError))
    else match CheckRepo(DetectRepo(env.remote))
      case Err(m) => (dir, Err(m))
      case Ok(_) =>
        match ListAndSelect(env.dirExists, files, opts.buildId)
        case Err(m) => (dir, Err(m))
        case Ok(build) =>
          var (after, outcome) := Publish(dir, build.buildId, body, env.ghOk, env.ghMessage);
          if outcome.Ok? then (after, Ok(build)) else (after, Err(outcome.msg))
  }

  /** A detected repository is never empty, so the repository check passes
      exactly when detection succeeds. */
  lemma DetectedRepoIsNotEmpty(remote: Option<string>)
    ensures DetectRepo(remote).Some? ==> DetectRepo(remote).value != ""
  {
    if DetectRepo(remote).Some? {
      var r := DetectRepo(remote).value;
      var p :| 0 <= p < |r| && r[p] == '/' && WordRun(r[..p]) && WordRun(r[p + 1..]);
    }
  }
}
