/** The version manager shared by the four build scripts: finding the first
    `version:` line of the Flutter configuration (`pubspec.yaml`), parsing it
    into a name and a build number, the increment policies, rewriting that
    one line, and the nightly naming scheme `<base>-nightly-<date>-<time>`. */
module Versioning {
  import opened Results
  import opened Text
  import opened JsNumber

  /** What every script's `parseVersion` returns: `name` is `versionName`,
      `build` is `buildNumber`, and `full` is `fullVersion`. */
  datatype Version = Version(name: string, build: int, full: string)

  const VersionKey: string := "version:"
  const DefaultName: string := "0.0.1"
  const ParseError: string := "Invalid version format in pubspec.yaml"
  const MissingLineError: string := "Version line not found in pubspec.yaml"

  // ---------------------------------------------------------------------
  // The regular expression /version:\s*(.+)/

  /** What `.+` (or `.*`) consumes from the start of `s`: the longest prefix
      without a line terminator. */
  function LineBody(s: string): (r: string)
    ensures StartsWith(s, r)
    ensures forall k :: 0 <= k < |r| ==> !IsLineTerminator(r[k])
    ensures |r| < |s| ==> IsLineTerminator(s[|r|])
  {
    if |s| == 0 || IsLineTerminator(s[0]) then ""
    else
      var r := [s[0]] + LineBody(s[1..]);
      assert s[..|r|] == [s[0]] + s[1..][..|r| - 1];
      r
  }

  /** The last index of `s` holding a character that is not a line
      terminator. */
  function LastVisible(s: string): (r: Option<nat>)
    ensures r.Some? ==> r.value < |s| && !IsLineTerminator(s[r.value])
    ensures r.Some? ==> forall k :: r.value < k < |s| ==> IsLineTerminator(s[k])
    ensures r.None? <==> forall k :: 0 <= k < |s| ==> IsLineTerminator(s[k])
  {
    if |s| == 0 then None
    else if !IsLineTerminator(s[|s| - 1]) then Some(|s| - 1)
    else LastVisible(s[..|s| - 1])
  }

  /** What a capture of `(.+)` always is: at least one character, none of
      them a line terminator. */
  predicate Captured(c: string) {
    |c| >= 1 && forall k :: 0 <= k < |c| ==> !IsLineTerminator(c[k])
  }

  /** What `\s*(.+)` captures when matched against `rest`, the text right
      after `version:`. The greedy `\s*` takes all leading white space and
      `.+` the rest of that line; when only white space is left, `\s*` backs
      off by one visible character, which alone is captured; when only line
      terminators are left there is no match. */
  function CaptureAfterKey(rest: string): (r: Option<string>)
    ensures r.None? <==> forall k :: 0 <= k < |rest| ==> IsLineTerminator(rest[k])
    ensures r.Some? ==> Captured(r.value)
  {
    var body := TrimStart(rest);
    if |body| > 0 then
      assert !IsLineTerminator(body[0]);
      Some(LineBody(body))
    else
      match LastVisible(rest)
      case None => None
      case Some(j) => Some([rest[j]])
  }

  /** The match of the pattern starting exactly at `i`, if any. */
  function MatchAt(line: string, i: nat): (r: Option<string>)
    ensures r.Some? ==> OccursAt(line, VersionKey, i)
    ensures r.Some? ==> Captured(r.value)
  {
    if OccursAt(line, VersionKey, i) then CaptureAfterKey(line[i + |VersionKey|..]) else None
  }

  /** The leftmost match of the pattern in `line` at or after `from`: the
      regular expression engine tries each start position in turn. */
  function MatchFrom(line: string, from: nat): (r: Option<string>)
    requires from <= |line|
    ensures r.Some? ==> Captured(r.value)
    decreases |line| - from
  {
    if MatchAt(line, from).Some? then MatchAt(line, from)
    else if from == |line| then None
    else MatchFrom(line, from + 1)
  }

  /** `line.match(/version:\s*(.+)/)[1]`, or None for no match. */
  function VersionCapture(line: string): (r: Option<string>)
    ensures r.Some? ==> Captured(r.value)
  {
    MatchFrom(line, 0)
  }

  /** On a line that starts with `version:` (the only lines the scripts pass)
      the match is the one right after that key. */
  lemma CaptureOfKeyLine(line: string)
    requires StartsWith(line, VersionKey)
    ensures VersionCapture(line) == CaptureAfterKey(line[|VersionKey|..])
  {
    assert OccursAt(line, VersionKey, 0);
    var rest := line[|VersionKey|..];
    if CaptureAfterKey(rest).None? {
      assert forall k :: |VersionKey| <= k < |line| ==> line[k] == rest[k - |VersionKey|];
      if 1 <= |line| {
        NoLaterMatch(line, 1);
      }
    }
  }

  /** When only line terminators follow the leading key, nothing matches
      at a later position. */
  lemma {:induction false} NoLaterMatch(line: string, from: nat)
    requires StartsWith(line, VersionKey)
    requires forall k :: |VersionKey| <= k < |line| ==> IsLineTerminator(line[k])
    requires 1 <= from <= |line|
    ensures MatchFrom(line, from) == None
    decreases |line| - from
  {
    if from < |VersionKey| {
      KeyNotAtSmallOffset(line, from);
    } else if from < |line| {
      KeyNotInTerminators(line, from);
    } else {
      assert !OccursAt(line, VersionKey, from);
    }
    if from < |line| {
      NoLaterMatch(line, from + 1);
    }
  }

  /** The key has no second `v`, so it cannot occur again inside itself. */
  lemma KeyNotAtSmallOffset(line: string, j: nat)
    requires StartsWith(line, VersionKey) && 1 <= j < |VersionKey|
    ensures !OccursAt(line, VersionKey, j)
  {
    assert line[j] == line[..|VersionKey|][j] == VersionKey[j];
    assert VersionKey[j] != 'v';
    if j + |VersionKey| <= |line| {
      assert line[j..j + |VersionKey|][0] == line[j];
    }
  }

  lemma KeyNotInTerminators(line: string, j: nat)
    requires |VersionKey| <= j < |line| && IsLineTerminator(line[j])
    ensures !OccursAt(line, VersionKey, j)
  {
    if j + |VersionKey| <= |line| {
      assert line[j..j + |VersionKey|][0] == line[j];
    }
  }

  // ---------------------------------------------------------------------
  // parseVersion

  /** The record built from the trimmed capture: the text before the first
      `+` (or `0.0.1` when that is empty), and the integer after it (or 1 when
      it is absent, not a number, or zero). */
  function VersionOf(full: string): (v: Version)
    ensures v.full == full
    ensures v.build != 0 && |v.name| > 0 && '+' !in v.name
  {
    var parts := Split(full, '+');
    assert '+' !in parts[0];
    assert DefaultName == "0.0.1" && '+' !in DefaultName;
    var name := if parts[0] == "" then DefaultName else parts[0];
    var build := OrDefault(ParseIntOpt(if |parts| > 1 then Some(parts[1]) else None), 1);
    Version(name, build, full)
  }

  /** `parseVersion(line)`: an error when the pattern does not match. */
  function ParseVersion(line: string): (r: Result<Version>)
    ensures r.Err? <==> VersionCapture(line).None?
    ensures r.Err? ==> r.msg == ParseError
    ensures r.Ok? ==> r.value.build != 0 && |r.value.name| > 0 && '+' !in r.value.name
  {
    match VersionCapture(line)
    case None => Err(ParseError)
    case Some(cap) => Ok(VersionOf(Trim(cap)))
  }

  /** A line starting with `version:` fails to parse exactly when nothing
      but line terminators follows the key. */
  lemma ParseVersionFailsIff(line: string)
    requires StartsWith(line, VersionKey)
    ensures ParseVersion(line).Err? <==>
      forall k :: |VersionKey| <= k < |line| ==> IsLineTerminator(line[k])
  {
    CaptureOfKeyLine(line);
    TerminatorsAfterKey(line);
  }

  lemma TerminatorsAfterKey(line: string)
    requires |VersionKey| <= |line|
    ensures (forall k :: 0 <= k < |line[|VersionKey|..]| ==> IsLineTerminator(line[|VersionKey|..][k]))
      <==> (forall k :: |VersionKey| <= k < |line| ==> IsLineTerminator(line[k]))
  {
    var rest := line[|VersionKey|..];
    assert forall k :: |VersionKey| <= k < |line| ==> line[k] == rest[k - |VersionKey|];
  }

  lemma CapturedSingleLine(c: string)
    requires Captured(c)
    ensures '\n' !in c
  {
    forall k | 0 <= k < |c| ensures c[k] != '\n' {
      assert !IsLineTerminator(c[k]);
    }
  }

  /** A parsed name never contains a newline: the capture stops at the end
      of the line, and trimming and splitting only drop characters. */
  lemma ParsedNameSingleLine(line: string)
    requires ParseVersion(line).Ok?
    ensures '\n' !in ParseVersion(line).value.name
  {
    var cap := VersionCapture(line).value;
    CapturedSingleLine(cap);
    TrimChars(cap);
    assert '\n' !in Trim(cap);
    VersionOfSingleLine(Trim(cap));
  }

  lemma VersionOfSingleLine(full: string)
    requires '\n' !in full
    ensures '\n' !in VersionOf(full).name
  {
    SplitPartChars(full, '+', 0);
    assert '\n' !in Split(full, '+')[0];
    assert DefaultName == "0.0.1" && '\n' !in DefaultName;
  }

  /** The text the scripts write for a version: `<name>+<build>`. */
  function Serialize(name: string, build: int): string {
    name + "+" + IntToString(build)
  }

  /** The whole configuration line the scripts write. */
  function VersionLine(full: string): string {
    "version: " + full
  }

  /** A name the scripts can write and read back: not empty, no `+`, no line
      terminator, and not starting with white space. */
  predicate ValidName(name: string) {
    && |name| > 0
    && '+' !in name
    && !IsSpace(name[0])
    && forall k :: 0 <= k < |name| ==> !IsLineTerminator(name[k])
  }

  lemma {:induction false} LineBodyAll(s: string)
    requires forall k :: 0 <= k < |s| ==> !IsLineTerminator(s[k])
    ensures LineBody(s) == s
    decreases |s|
  {
    if |s| > 0 {
      LineBodyAll(s[1..]);
      assert s == [s[0]] + s[1..];
    }
  }

  lemma VersionOfSerialized(name: string, b: nat)
    requires |name| > 0 && '+' !in name && b >= 1
    ensures VersionOf(Serialize(name, b)) == Version(name, b, Serialize(name, b))
  {
    var digits := NatToString(b);
    var parts := [name, digits];
    SplitJoin(parts, '+');
    assert Join(parts, '+') == Serialize(name, b);
    ParseIntOfNatToString(b);
  }

  /** One line of text that starts and ends with a character that is not
      white space: what the scripts write after `version: `. */
  predicate Visible(full: string) {
    && |full| > 0 && !IsSpace(full[0]) && !IsSpace(full[|full| - 1])
    && forall k :: 0 <= k < |full| ==> !IsLineTerminator(full[k])
  }

  /** The serialized text of a valid name is visible. */
  lemma SerializedShape(name: string, b: nat)
    requires ValidName(name)
    ensures Visible(Serialize(name, b))
  {
    var full := Serialize(name, b);
    var digits := NatToString(b);
    assert full == name + "+" + digits;
    forall k | 0 <= k < |full| ensures !IsLineTerminator(full[k]) {
      if k < |name| {
        assert full[k] == name[k];
      } else if k > |name| {
        assert full[k] == digits[k - |name| - 1];
        assert IsDigit(digits[k - |name| - 1]);
      }
    }
    assert full[0] == name[0];
    assert full[|full| - 1] == digits[|digits| - 1];
    assert IsDigit(full[|full| - 1]);
  }

  /** After `version: ` a visible text is captured whole. */
  lemma CaptureOfPadded(full: string)
    requires Visible(full)
    ensures CaptureAfterKey([' '] + full) == Some(full)
  {
    var rest := [' '] + full;
    assert rest[1..] == full;
    assert TrimStart(rest) == TrimStart(full);
    TrimStartUntouched(full);
    LineBodyAll(full);
  }

  /** Round trip: the line written for a valid name and a positive build
      number parses back to that name and number. */
  lemma ParseVersionRoundTrip(name: string, b: nat)
    requires ValidName(name) && b >= 1
    ensures ParseVersion(VersionLine(Serialize(name, b))) == Ok(Version(name, b, Serialize(name, b)))
  {
    var full := Serialize(name, b);
    SerializedShape(name, b);
    CaptureOfLine(full);
    VersionOfSerialized(name, b);
    ParseVersionOfCapture(VersionLine(full), full, Version(name, b, full));
  }

  lemma ParseVersionOfCapture(line: string, cap: string, v: Version)
    requires VersionCapture(line) == Some(cap)
    requires Visible(cap) && VersionOf(cap) == v
    ensures ParseVersion(line) == Ok(v)
  {
    TrimUntouched(cap);
  }

  /** The line written for a visible text captures exactly that text. */
  lemma CaptureOfLine(full: string)
    requires Visible(full)
    ensures VersionCapture(VersionLine(full)) == Some(full)
  {
    var line := VersionLine(full);
    assert line == VersionKey + ([' '] + full);
    PrefixOfConcat(VersionKey, [' '] + full);
    CaptureOfKeyLine(line);
    assert line[|VersionKey|..] == [' '] + full;
    CaptureOfPadded(full);
  }


  // ---------------------------------------------------------------------
  // Finding and rewriting the version line

  function Lines(content: string): (r: seq<string>)
    ensures |r| >= 1
    ensures forall k :: 0 <= k < |r| ==> '\n' !in r[k]
    ensures Join(r, '\n') == content
  {
    Split(content, '\n')
  }

  /** The index of the first line starting with `version:`. */
  function FindVersionLine(lines: seq<string>): (r: Option<nat>)
    ensures r.Some? ==> r.value < |lines| && StartsWith(lines[r.value], VersionKey)
    ensures r.Some? ==> forall j :: 0 <= j < r.value ==> !StartsWith(lines[j], VersionKey)
    ensures r.None? ==> forall j :: 0 <= j < |lines| ==> !StartsWith(lines[j], VersionKey)
  {
    if |lines| == 0 then None
    else if StartsWith(lines[0], VersionKey) then Some(0)
    else match FindVersionLine(lines[1..])
      case None => None
      case Some(i) => Some(i + 1)
  }

  /** Replaces the first `version:` line by `version: <full>`; content
      without such a line is returned as it is. */
  function SetVersionLine(content: string, full: string): string {
    var lines := Lines(content);
    match FindVersionLine(lines)
    case None => content
    case Some(i) => Join(lines[i := VersionLine(full)], '\n')
  }

  /** Rewriting touches only the version line: the line count and every
      other line stay as they were. */
  lemma SetVersionLineTouchesOnlyThatLine(content: string, full: string)
    requires '\n' !in full
    ensures FindVersionLine(Lines(content)).None? ==> SetVersionLine(content, full) == content
    ensures FindVersionLine(Lines(content)).Some? ==>
      var i := FindVersionLine(Lines(content)).value;
      Lines(SetVersionLine(content, full)) == Lines(content)[i := VersionLine(full)]
  {
    var lines := Lines(content);
    match FindVersionLine(lines)
    case None =>
    case Some(i) =>
      var updated := lines[i := VersionLine(full)];
      assert '\n' !in VersionLine(full);
      assert forall k :: 0 <= k < |updated| ==> '\n' !in updated[k];
      SplitJoin(updated, '\n');
  }

  // ---------------------------------------------------------------------
  // Increment policies

  datatype Bump = Major | Minor | Patch

  /** The element at `k` of a split, or `undefined`. */
  function Part(parts: seq<string>, k: nat): Option<string> {
    if k < |parts| then Some(parts[k]) else None
  }

  /** The three scripts' version-name bump: `major` adds one to the first
      dot-separated component, `minor` to the second, `patch` to the third;
      lower components become zero and higher ones are copied as text. */
  function BumpName(name: string, b: Bump): string {
    var parts := Split(name, '.');
    match b
    case Major => Show(Succ(ParseInt(parts[0]))) + ".0.0"
    case Minor => parts[0] + "." + Show(Succ(ParseIntOpt(Part(parts, 1)))) + ".0"
    case Patch => parts[0] + "." + ShowPart(Part(parts, 1)) + "." + Show(Succ(ParseIntOpt(Part(parts, 2))))
  }

  /** The components above the bumped one are copied as text, and those
      below it become zero. */
  lemma BumpNameKeepsHigherParts(name: string, b: Bump)
    ensures b == Major ==> EndsWith(BumpName(name, b), ".0.0")
    ensures b == Minor ==> EndsWith(BumpName(name, b), ".0")
    ensures b != Major ==> StartsWith(BumpName(name, b), Split(name, '.')[0] + ".")
    ensures b == Patch && |Split(name, '.')| >= 2 ==>
      StartsWith(BumpName(name, b), Split(name, '.')[0] + "." + Split(name, '.')[1] + ".")
  {
    var parts := Split(name, '.');
    match b
    case Major =>
      SuffixOfConcat(Show(Succ(ParseInt(parts[0]))), ".0.0");
    case Minor =>
      var x := Show(Succ(ParseIntOpt(Part(parts, 1))));
      ConcatShape(parts[0] + ".", x, ".0");
    case Patch =>
      var y := ShowPart(Part(parts, 1));
      var x := Show(Succ(ParseIntOpt(Part(parts, 2))));
      PrefixesOfConcat(parts[0] + ".", y, ".", x);
  }

  lemma PrefixesOfConcat(p: string, y: string, z: string, x: string)
    ensures StartsWith(p + y + z + x, p) && StartsWith(p + y + z + x, p + y + z)
  {
    var s := p + y + z + x;
    assert s[..|p|] == p;
    assert s[..|p + y + z|] == p + y + z;
  }

  lemma SuffixOfConcat(x: string, q: string)
    ensures EndsWith(x + q, q)
  {
    assert (x + q)[|x|..] == q;
  }

  /** `p + m + q` starts with `p` and ends with `q`. */
  lemma ConcatShape(p: string, m: string, q: string)
    ensures StartsWith(p + m + q, p) && EndsWith(p + m + q, q)
  {
    assert (p + m + q)[..|p|] == p;
    assert (p + m + q)[|p| + |m|..] == q;
  }

  lemma PrefixOfConcat(p: string, x: string)
    ensures StartsWith(p + x, p)
  {
    assert (p + x)[..|p|] == p;
  }

  /** `a.b.c` for natural numbers. */
  function Dotted(a: nat, b: nat, c: nat): string {
    NatToString(a) + "." + NatToString(b) + "." + NatToString(c)
  }

  lemma NoDotInDigits(n: nat)
    ensures '.' !in NatToString(n)
  {
  }

  lemma SplitDotted(a: nat, b: nat, c: nat)
    ensures Split(Dotted(a, b, c), '.') == [NatToString(a), NatToString(b), NatToString(c)]
  {
    var parts := [NatToString(a), NatToString(b), NatToString(c)];
    NoDotInDigits(a);
    NoDotInDigits(b);
    NoDotInDigits(c);
    assert Join(parts[1..], '.') == NatToString(b) + "." + NatToString(c) by {
      assert parts[1..][1..] == [NatToString(c)];
    }
    assert Join(parts, '.') == Dotted(a, b, c);
    SplitJoin(parts, '.');
  }

  /** On a canonical `a.b.c` name the bumps are the numeric ones. */
  lemma BumpMajorDotted(a: nat, b: nat, c: nat)
    ensures BumpName(Dotted(a, b, c), Major) == Dotted(a + 1, 0, 0)
  {
    BumpOfDotted(a, b, c);
    NextOfPrinted(a);
    ZeroTail(NatToString(a + 1));
  }

  lemma ZeroTail(x: string)
    ensures x + "." + NatToString(0) + "." + NatToString(0) == x + ".0.0"
  {
    assert NatToString(0) == "0";
    assert x + "." + "0" + "." + "0" == x + ".0.0";
  }

  lemma BumpMinorDotted(a: nat, b: nat, c: nat)
    ensures BumpName(Dotted(a, b, c), Minor) == Dotted(a, b + 1, 0)
  {
    BumpOfDotted(a, b, c);
    NextOfPrinted(b);
    ZeroLast(NatToString(a), NatToString(b + 1));
  }

  lemma ZeroLast(x: string, y: string)
    ensures x + "." + y + "." + NatToString(0) == x + "." + y + ".0"
  {
    assert NatToString(0) == "0";
    assert (x + "." + y) + "." + "0" == (x + "." + y) + ".0";
  }

  lemma BumpPatchDotted(a: nat, b: nat, c: nat)
    ensures BumpName(Dotted(a, b, c), Patch) == Dotted(a, b, c + 1)
  {
    BumpOfDotted(a, b, c);
    NextOfPrinted(c);
  }

  /** The three bumps of `a.b.c`, with the bumped component still in its
      parse-and-print form. */
  lemma BumpOfDotted(a: nat, b: nat, c: nat)
    ensures BumpName(Dotted(a, b, c), Major) == Show(Succ(ParseInt(NatToString(a)))) + ".0.0"
    ensures BumpName(Dotted(a, b, c), Minor) == NatToString(a) + "." + Show(Succ(ParseInt(NatToString(b)))) + ".0"
    ensures BumpName(Dotted(a, b, c), Patch) == NatToString(a) + "." + NatToString(b) + "." + Show(Succ(ParseInt(NatToString(c))))
  {
    var parts := Split(Dotted(a, b, c), '.');
    SplitDotted(a, b, c);
    assert Part(parts, 1) == Some(NatToString(b));
    assert Part(parts, 2) == Some(NatToString(c));
  }

  /** Parsing a printed count, adding one and printing again gives the
      next count. */
  lemma NextOfPrinted(n: nat)
    ensures Show(Succ(ParseInt(NatToString(n)))) == NatToString(n + 1)
  {
    ParseIntOfNatToString(n);
    var next := Succ(Int(n));
    assert next == Int(n + 1);
    assert Show(next) == IntToString(n + 1);
  }

  /** The version name text never gains a newline from a bump. */
  lemma BumpNameSingleLine(name: string, b: Bump)
    requires '\n' !in name
    ensures '\n' !in BumpName(name, b)
  {
    var parts := Split(name, '.');
    assert '\n' !in "." && '\n' !in ".0" && '\n' !in ".0.0";
    match b
    case Major =>
      NumberTextSingleLine(Succ(ParseInt(parts[0])));
    case Minor =>
      PartSingleLine(name, 0);
      NumberTextSingleLine(Succ(ParseIntOpt(Part(parts, 1))));
    case Patch =>
      PartSingleLine(name, 0);
      PartSingleLine(name, 1);
      NumberTextSingleLine(Succ(ParseIntOpt(Part(parts, 2))));
  }

  lemma PartSingleLine(name: string, k: nat)
    requires '\n' !in name
    ensures '\n' !in ShowPart(Part(Split(name, '.'), k))
    ensures k < |Split(name, '.')| ==> '\n' !in Split(name, '.')[k]
  {
    if k < |Split(name, '.')| {
      SplitPartChars(name, '.', k);
    } else {
      assert '\n' !in "undefined";
    }
  }

  lemma NumberTextSingleLine(n: Num)
    ensures '\n' !in Show(n)
  {
  }

  const DevTypes: set<string> := {"build", "patch", "minor", "major"}
  const ReleaseTypes: set<string> := {"patch", "minor", "major", "none"}

  function BumpOf(t: string): Option<Bump> {
    if t == "major" then Some(Major)
    else if t == "minor" then Some(Minor)
    else if t == "patch" then Some(Patch)
    else None
  }

  /** build-apk.js: a name bump resets the build number to 1; `build` and
      every type it does not recognise keep the name and add 1 to the build
      number. */
  function DevIncrement(v: Version, t: string): (r: Version)
    ensures BumpOf(t).None? ==> r.name == v.name && r.build == v.build + 1
    ensures BumpOf(t).Some? ==> r.build == 1 && r.name == BumpName(v.name, BumpOf(t).value)
    ensures r.full == Serialize(r.name, r.build)
  {
    match BumpOf(t)
    case None => Version(v.name, v.build + 1, Serialize(v.name, v.build + 1))
    case Some(b) =>
      var name := BumpName(v.name, b);
      Version(name, 1, Serialize(name, 1))
  }

  /** release-apk.js and nightly-release.js: the build number is always 1;
      `none` keeps the name; a type outside the four is an error. */
  function ReleaseIncrement(name: string, t: string): (r: Result<Version>)
    ensures r.Ok? <==> t in ReleaseTypes
    ensures r.Err? ==> r.msg == "Invalid increment type: " + t
    ensures r.Ok? ==> r.value.build == 1 && r.value.full == r.value.name + "+1"
    ensures t == "none" ==> r.Ok? && r.value.name == name
    ensures BumpOf(t).Some? ==> r.Ok? && r.value.name == BumpName(name, BumpOf(t).value)
  {
    var newName :- if t == "none" then Ok(name)
      else match BumpOf(t)
        case Some(b) => Ok(BumpName(name, b))
        case None => Err("Invalid increment type: " + t);
    Ok(Version(newName, 1, newName + "+1"))
  }

  /** The content written back and the version returned by an update. */
  datatype Update = Update(content: string, version: Version)

  /** release-apk.js `getCurrentVersion`, which is also the loop every
      `incrementVersion` starts with: the first `version:` line, parsed, or
      the missing-line error when there is none. */
  function ParseFirstVersionLine(content: string): (r: Result<Version>)
    ensures FindVersionLine(Lines(content)).None? ==> r == Err(MissingLineError)
    ensures FindVersionLine(Lines(content)).Some? ==>
      r == ParseVersion(Lines(content)[FindVersionLine(Lines(content)).value])
  {
    var lines := Lines(content);
    match FindVersionLine(lines)
    case None => Err(MissingLineError)
    case Some(i) => ParseVersion(lines[i])
  }

  /** build-apk.js `incrementVersion`. */
  function DevIncrementVersion(content: string, t: string): (r: Result<Update>)
    ensures r.Err? <==> ParseFirstVersionLine(content).Err?
    ensures r.Ok? ==> r.value.version == DevIncrement(ParseFirstVersionLine(content).value, t)
    ensures r.Ok? ==> r.value.content == SetVersionLine(content, r.value.version.full)
  {
    var v :- ParseFirstVersionLine(content);
    var nv := DevIncrement(v, t);
    Ok(Update(SetVersionLine(content, nv.full), nv))
  }

  /** release-apk.js `incrementVersion`. */
  function ReleaseIncrementVersion(content: string, t: string): (r: Result<Update>)
    ensures ParseFirstVersionLine(content).Err? ==> r.Err? && r.msg == ParseFirstVersionLine(content).msg
    ensures ParseFirstVersionLine(content).Ok? ==> (r.Ok? <==> t in ReleaseTypes)
    ensures r.Ok? ==> r.value.version.build == 1
    ensures r.Ok? ==> r.value.content == SetVersionLine(content, r.value.version.full)
  {
    var v :- ParseFirstVersionLine(content);
    var nv :- ReleaseIncrement(v.name, t);
    Ok(Update(SetVersionLine(content, nv.full), nv))
  }

  lemma SerializeSingleLine(name: string, build: int)
    requires '\n' !in name
    ensures '\n' !in Serialize(name, build)
  {
    NumberTextSingleLine(Int(build));
  }

  lemma DevIncrementSingleLine(v: Version, t: string)
    requires '\n' !in v.name
    ensures '\n' !in DevIncrement(v, t).full
  {
    match BumpOf(t)
    case None =>
      SerializeSingleLine(v.name, v.build + 1);
    case Some(b) =>
      BumpNameSingleLine(v.name, b);
      SerializeSingleLine(BumpName(v.name, b), 1);
  }

  lemma ReleaseIncrementSingleLine(name: string, t: string)
    requires '\n' !in name
    ensures ReleaseIncrement(name, t).Ok? ==> '\n' !in ReleaseIncrement(name, t).value.full
  {
    if BumpOf(t).Some? {
      BumpNameSingleLine(name, BumpOf(t).value);
    }
  }

  /** build-apk.js rewrites exactly the version line: every other line of
      the configuration is kept. */
  lemma DevIncrementTouchesOnlyVersionLine(content: string, t: string)
    requires DevIncrementVersion(content, t).Ok?
    ensures var i := FindVersionLine(Lines(content)).value;
      Lines(DevIncrementVersion(content, t).value.content)
        == Lines(content)[i := VersionLine(DevIncrementVersion(content, t).value.version.full)]
  {
    var lines := Lines(content);
    var i := FindVersionLine(lines).value;
    ParsedNameSingleLine(lines[i]);
    var v := ParseVersion(lines[i]).value;
    DevIncrementSingleLine(v, t);
    SetVersionLineTouchesOnlyThatLine(content, DevIncrement(v, t).full);
  }

  /** release-apk.js rewrites exactly the version line too. */
  lemma ReleaseIncrementTouchesOnlyVersionLine(content: string, t: string)
    requires ReleaseIncrementVersion(content, t).Ok?
    ensures var i := FindVersionLine(Lines(content)).value;
      Lines(ReleaseIncrementVersion(content, t).value.content)
        == Lines(content)[i := VersionLine(ReleaseIncrementVersion(content, t).value.version.full)]
  {
    var lines := Lines(content);
    var i := FindVersionLine(lines).value;
    ParsedNameSingleLine(lines[i]);
    var v := ParseVersion(lines[i]).value;
    ReleaseIncrementSingleLine(v.name, t);
    SetVersionLineTouchesOnlyThatLine(content, ReleaseIncrement(v.name, t).value.full);
  }

  // ---------------------------------------------------------------------
  // Nightly names

  const NightlyMarker: string := "-nightly-"

  /** nightly-apk.js: `<base>-nightly-<date>-<time>`. */
  function NightlyName(base: string, dateStr: string, timeStr: string): string {
    base + NightlyMarker + dateStr + "-" + timeStr
  }

  /** nightly-release.js: the version name up to the first `-nightly-`. */
  function StripNightly(name: string): (r: string)
    ensures StartsWith(name, r)
    ensures !Contains(name, NightlyMarker) ==> r == name
    ensures Contains(name, NightlyMarker) ==> OccursAt(name, NightlyMarker, |r|)
    ensures Contains(name, NightlyMarker) ==> forall j :: 0 <= j < |r| ==> !OccursAt(name, NightlyMarker, j)
  {
    if Contains(name, NightlyMarker) then PrefixBefore(name, NightlyMarker) else name
  }

  /** No `-nightly-` starts inside a base that neither contains it nor ends
      with `-nightly`, whatever follows the appended marker. */
  lemma NoMarkerInsideBase(base: string, rest: string, j: nat)
    requires !Contains(base, NightlyMarker) && !EndsWith(base, "-nightly")
    requires j < |base|
    ensures !OccursAt(base + NightlyMarker + rest, NightlyMarker, j)
  {
    var s := base + NightlyMarker + rest;
    if j + |NightlyMarker| <= |base| {
      WindowInsideBase(base, rest, j);
    } else if j + |NightlyMarker| <= |s| {
      var d := |base| - j;
      if d == 8 {
        WindowAtBaseEnd(base, rest);
      } else {
        WindowStraddlingMarker(base, rest, j);
      }
    }
  }

  lemma WindowInsideBase(base: string, rest: string, j: nat)
    requires !Contains(base, NightlyMarker)
    requires j + |NightlyMarker| <= |base|
    ensures !OccursAt(base + NightlyMarker + rest, NightlyMarker, j)
  {
    var s := base + NightlyMarker + rest;
    assert s[j..j + |NightlyMarker|] == base[j..j + |NightlyMarker|];
    assert !OccursAt(base, NightlyMarker, j);
  }

  lemma WindowAtBaseEnd(base: string, rest: string)
    requires !EndsWith(base, "-nightly") && |base| >= 8
    ensures !OccursAt(base + NightlyMarker + rest, NightlyMarker, |base| - 8)
  {
    var s := base + NightlyMarker + rest;
    var j := |base| - 8;
    assert s[j..j + |NightlyMarker|][..8] == base[j..];
    assert NightlyMarker[..8] == "-nightly";
  }

  lemma WindowStraddlingMarker(base: string, rest: string, j: nat)
    requires j < |base| < j + 8
    ensures !OccursAt(base + NightlyMarker + rest, NightlyMarker, j)
  {
    var s := base + NightlyMarker + rest;
    var d := |base| - j;
    var w := s[j..j + |NightlyMarker|];
    assert w[d] == s[|base|] == '-';
    assert NightlyMarker[d] != '-';
  }

  /** Stripping recovers the base exactly when the base neither contains
      `-nightly-` nor ends with `-nightly` (the one way its end can combine
      with the marker into an earlier occurrence). */
  lemma StripNightlyRecoversBase(base: string, dateStr: string, timeStr: string)
    requires !Contains(base, NightlyMarker) && !EndsWith(base, "-nightly")
    ensures StripNightly(NightlyName(base, dateStr, timeStr)) == base
  {
    var tail := dateStr + "-" + timeStr;
    NightlyNameSplits(base, dateStr, timeStr);
    MarkerAfter(base, tail);
    NoEarlierMarker(base, tail);
    StripAtFirstMarker(base + NightlyMarker + tail, |base|);
  }

  lemma NightlyNameSplits(base: string, dateStr: string, timeStr: string)
    ensures NightlyName(base, dateStr, timeStr) == base + NightlyMarker + (dateStr + "-" + timeStr)
  {
  }

  lemma NoEarlierMarker(base: string, tail: string)
    requires !Contains(base, NightlyMarker) && !EndsWith(base, "-nightly")
    ensures forall j :: 0 <= j < |base| ==> !OccursAt(base + NightlyMarker + tail, NightlyMarker, j)
  {
    forall j | 0 <= j < |base|
      ensures !OccursAt(base + NightlyMarker + tail, NightlyMarker, j)
    {
      NoMarkerInsideBase(base, tail, j);
    }
  }

  lemma MarkerAfter(base: string, tail: string)
    ensures OccursAt(base + NightlyMarker + tail, NightlyMarker, |base|)
    ensures (base + NightlyMarker + tail)[..|base|] == base
  {
    var s := base + NightlyMarker + tail;
    assert s[|base|..|base| + |NightlyMarker|] == NightlyMarker;
  }

  /** The strip cuts at the first marker. */
  lemma StripAtFirstMarker(s: string, i: nat)
    requires OccursAt(s, NightlyMarker, i)
    requires forall j :: 0 <= j < i ==> !OccursAt(s, NightlyMarker, j)
    ensures StripNightly(s) == s[..i]
  {
    assert Contains(s, NightlyMarker);
  }

  /** Without that condition the round trip fails: a base ending in
      `-nightly` (here one without any other `-`) is cut short. */
  lemma StripNightlyCutsShort(p: string, dateStr: string, timeStr: string)
    requires '-' !in p
    ensures StripNightly(NightlyName(p + "-nightly", dateStr, timeStr)) == p
  {
    var tail := "nightly-" + dateStr + "-" + timeStr;
    var s := NightlyName(p + "-nightly", dateStr, timeStr);
    assert s == p + NightlyMarker + tail by {
      assert "-nightly" + NightlyMarker == NightlyMarker + "nightly-";
    }
    MarkerAfter(p, tail);
    forall j | 0 <= j < |p| ensures !OccursAt(s, NightlyMarker, j) {
      assert s[j] == p[j];
      if j + |NightlyMarker| <= |s| {
        assert s[j..j + |NightlyMarker|][0] == s[j];
      }
    }
    StripAtFirstMarker(s, |p|);
  }

  /** What `createNightlyVersion` returns next to the rewritten content. */
  datatype NightlyVersion = NightlyVersion(
    original: Version, nightly: Version, backup: string, dateStr: string, timeStr: string)

  /** nightly-apk.js `createNightlyVersion`: the nightly name from the parsed
      name and the date and time strings, the Unix-seconds build number, and
      the untouched content kept as the backup. */
  function CreateNightlyVersion(content: string, dateStr: string, timeStr: string, unixSeconds: int)
    : (r: Result<(NightlyVersion, string)>)
    ensures r.Err? <==> ParseFirstVersionLine(content).Err?
    ensures r.Ok? ==> r.value.0.backup == content
    ensures r.Ok? ==> r.value.0.original == ParseFirstVersionLine(content).value
    ensures r.Ok? ==> r.value.0.nightly.name == NightlyName(r.value.0.original.name, dateStr, timeStr)
    ensures r.Ok? ==> r.value.0.nightly.build == unixSeconds
    ensures r.Ok? ==> r.value.1 == SetVersionLine(content, r.value.0.nightly.full)
  {
    var v :- ParseFirstVersionLine(content);
    var name := NightlyName(v.name, dateStr, timeStr);
    var nightly := Version(name, unixSeconds, Serialize(name, unixSeconds));
    Ok((NightlyVersion(v, nightly, content, dateStr, timeStr), SetVersionLine(content, nightly.full)))
  }

  /** nightly-release.js `updateVersionInPubspec`. */
  function UpdateVersionInPubspec(content: string, full: string): (r: string)
    ensures FindVersionLine(Lines(content)).None? ==> r == content
    ensures '\n' !in full && FindVersionLine(Lines(content)).Some? ==>
      var i := FindVersionLine(Lines(content)).value;
      Lines(r) == Lines(content)[i := VersionLine(full)]
  {
    if '\n' in full then SetVersionLine(content, full)
    else
      SetVersionLineTouchesOnlyThatLine(content, full);
      SetVersionLine(content, full)
  }

  /** nightly-release.js `createReleaseVersion`: a custom version skips
      parsing; otherwise the base name is the parsed name up to `-nightly-`,
      and the release policy applies to it. */
  function CreateReleaseVersion(content: string, t: string, custom: Option<string>): (r: Result<Update>)
    ensures custom.Some? && custom.value != "" ==>
      r == Ok(Update(UpdateVersionInPubspec(content, custom.value + "+1"),
                     Version(custom.value, 1, custom.value + "+1")))
    ensures (custom.None? || custom.value == "") && ParseFirstVersionLine(content).Err? ==> r.Err?
    ensures (custom.None? || custom.value == "") && ParseFirstVersionLine(content).Ok? ==>
      (r.Ok? <==> t in ReleaseTypes)
    ensures r.Ok? ==> r.value.version.build == 1 && r.value.version.full == r.value.version.name + "+1"
    ensures r.Ok? ==> r.value.content == SetVersionLine(content, r.value.version.full)
  {
    if custom.Some? && custom.value != "" then
      var full := custom.value + "+1";
      Ok(Update(UpdateVersionInPubspec(content, full), Version(custom.value, 1, full)))
    else
      var v :- ParseFirstVersionLine(content);
      var nv :- ReleaseIncrement(StripNightly(v.name), t);
      Ok(Update(SetVersionLine(content, nv.full), nv))
  }

  /** Promoting the version a nightly build wrote, with `none`, gives back
      the base version with build number 1. */
  lemma PromoteNightlyKeepsBase(content: string, base: string, dateStr: string, timeStr: string, secs: nat)
    requires ValidName(base) && !Contains(base, NightlyMarker) && !EndsWith(base, "-nightly")
    requires ValidName(NightlyName(base, dateStr, timeStr)) && secs >= 1
    requires FindVersionLine(Lines(content)).Some?
    requires Lines(content)[FindVersionLine(Lines(content)).value]
      == VersionLine(Serialize(NightlyName(base, dateStr, timeStr), secs))
    ensures CreateReleaseVersion(content, "none", None).Ok?
    ensures CreateReleaseVersion(content, "none", None).value.version == Version(base, 1, base + "+1")
  {
    ParseVersionRoundTrip(NightlyName(base, dateStr, timeStr), secs);
    StripNightlyRecoversBase(base, dateStr, timeStr);
  }
}
