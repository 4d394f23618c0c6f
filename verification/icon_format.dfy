/** The icon converter's input check (scripts/convert_icon.py): the format
    of the image is decided by the file name's extension and, failing
    that, by the first ten bytes of the file; the script exits with 0 only
    when the format is known and every Android icon was replaced. Paths are
    POSIX paths; the file system and the conversion itself are inputs. */
module IconFormat {
  import opened Results
  import opened Text

  newtype byte = x: int | 0 <= x < 256

  datatype Format = Svg | Raster | Unknown

  // ---------------------------------------------------------------------
  // File names

  /** The index of the last `c` in `s`. */
  function LastIndex(s: string, c: char): (r: Option<nat>)
    ensures r.None? <==> c !in s
    ensures r.Some? ==> r.value < |s| && s[r.value] == c && c !in s[r.value + 1..]
    decreases |s|
  {
    if |s| == 0 then None
    else if s[|s| - 1] == c then Some(|s| - 1)
    else
      var r := LastIndex(s[..|s| - 1], c);
      assert s == s[..|s| - 1] + [s[|s| - 1]];
      if r.Some? then
        assert s[r.value + 1..] == s[..|s| - 1][r.value + 1..] + [s[|s| - 1]];
        r
      else r
  }

  /** The last index of `c` is the only `c` with none after it. */
  lemma LastIndexIsUnique(s: string, c: char, i: nat)
    requires i < |s| && s[i] == c && c !in s[i + 1..]
    ensures LastIndex(s, c) == Some(i)
  {
  }

  /** `PurePosixPath(path).name`: the last component, where empty and `.`
      components do not count. */
  function Name(path: string): (r: string)
    ensures '/' !in r
    decreases |path|
  {
    match LastIndex(path, '/')
    case None => if path == "." then "" else path
    case Some(i) =>
      var last := path[i + 1..];
      if last == "" || last == "." then Name(path[..i]) else last
  }

  /** The name of a file inside a directory is the file's own name. */
  lemma NameOfJoined(dir: string, file: string)
    requires file != "" && file != "." && '/' !in file
    ensures Name(dir + "/" + file) == file
  {
    var p := dir + "/" + file;
    assert p[|dir| + 1..] == file;
    LastIndexIsUnique(p, '/', |dir|);
  }

  /** `PurePath.suffix`: from the last dot of the name, when that dot is
      neither the first nor the last character. */
  function Suffix(name: string): (r: string)
    ensures r == "" || (|r| >= 2 && r[0] == '.' && '.' !in r[1..] && |r| < |name| && EndsWith(name, r))
  {
    match LastIndex(name, '.')
    case None => ""
    case Some(i) =>
      if 0 < i < |name| - 1 then
        assert name[i..][1..] == name[i + 1..];
        name[i..]
      else ""
  }

  /** A stem and an extension joined by a dot give the extension back. */
  lemma SuffixOfJoined(stem: string, ext: string)
    requires stem != "" && ext != "" && '.' !in ext
    ensures Suffix(stem + "." + ext) == "." + ext
  {
    var n := stem + "." + ext;
    var i := |stem|;
    assert n[i] == '.' && n[i + 1..] == ext;
    LastIndexIsUnique(n, '.', i);
    SuffixAt(n, i);
    assert n[i..] == "." + ext;
  }

  lemma SuffixAt(name: string, i: nat)
    requires LastIndex(name, '.') == Some(i) && 0 < i < |name| - 1
    ensures Suffix(name) == name[i..]
  {
  }

  /** A hidden file named like an extension has no suffix. */
  lemma DotFileHasNoSuffix(ext: string)
    requires '.' !in ext
    ensures Suffix("." + ext) == ""
  {
    var n := "." + ext;
    assert n[1..] == ext;
    LastIndexIsUnique(n, '.', 0);
  }

  /** `Path(file_path).suffix.lower()`. */
  function Extension(path: string): string {
    Lower(Suffix(Name(path)))
  }

  const SvgExtension: string := ".svg"
  const RasterExtensions: seq<string> := [".png", ".jpg", ".jpeg", ".bmp", ".tiff", ".webp"]

  // ---------------------------------------------------------------------
  // Content sniffing

  predicate BytesAt(h: seq<byte>, p: seq<byte>, i: int) {
    0 <= i && i + |p| <= |h| && h[i..i + |p|] == p
  }

  /** `p in h` on Python bytes. */
  predicate BytesContain(h: seq<byte>, p: seq<byte>) {
    exists i :: 0 <= i <= |h| - |p| && BytesAt(h, p, i)
  }

  predicate BytesStart(h: seq<byte>, p: seq<byte>) {
    BytesAt(h, p, 0)
  }

  /** `<svg`. */
  const SvgTag: seq<byte> := [0x3C, 0x73, 0x76, 0x67]
  /** The start of the PNG signature, `\x89PNG`. */
  const PngMagic: seq<byte> := [0x89, 0x50, 0x4E, 0x47]
  /** The JPEG start-of-image marker and the next marker's lead byte. */
  const JpegMagic: seq<byte> := [0xFF, 0xD8, 0xFF]

  const HeaderSize: nat := 10

  /** `f.read(10)`: at most the first ten bytes. */
  function Header(contents: seq<byte>): (h: seq<byte>)
    ensures |h| <= HeaderSize
    ensures |contents| >= HeaderSize ==> |h| == HeaderSize
    ensures h <= contents
  {
    if |contents| <= HeaderSize then contents else contents[..HeaderSize]
  }

  /** The checks on the header, in the order the script makes them. */
  function Sniff(h: seq<byte>): Format {
    if BytesStart(h, SvgTag) || BytesContain(h, SvgTag) then Svg
    else if BytesStart(h, PngMagic) then Raster
    else if BytesStart(h, JpegMagic) then Raster
    else Unknown
  }

  /** The `startswith(b'<svg')` test adds nothing to `b'<svg' in header`;
      a header is SVG exactly when the tag occurs in it, and raster exactly
      when it is not SVG and starts with a PNG or JPEG signature. */
  lemma SniffMeans(h: seq<byte>)
    ensures Sniff(h) == Svg <==> BytesContain(h, SvgTag)
    ensures Sniff(h) == Raster <==>
      !BytesContain(h, SvgTag) && (BytesStart(h, PngMagic) || BytesStart(h, JpegMagic))
  {
    if BytesStart(h, SvgTag) {
      assert BytesAt(h, SvgTag, 0);
    }
  }

  /** `detect_file_format(file_path)`, with the file's bytes, or `None` when
      opening or reading it raises. */
  function DetectFormat(path: string, contents: Option<seq<byte>>): (r: Format)
    ensures Extension(path) == SvgExtension ==> r == Svg
    ensures Extension(path) in RasterExtensions ==> r == Raster
    ensures Extension(path) != SvgExtension && Extension(path) !in RasterExtensions ==>
      (r == if contents.None? then Unknown else Sniff(Header(contents.value)))
  {
    var ext := Extension(path);
    if ext == SvgExtension then Svg
    else if ext in RasterExtensions then Raster
    else
      match contents
      case None => Unknown
      case Some(c) => Sniff(Header(c))
  }

  /** A recognised extension decides without reading the file: the
      contents, and whether they can be read at all, do not matter. */
  lemma ExtensionDecides(path: string, c1: Option<seq<byte>>, c2: Option<seq<byte>>)
    requires Extension(path) == SvgExtension || Extension(path) in RasterExtensions
    ensures DetectFormat(path, c1) == DetectFormat(path, c2) != Unknown
  {
  }

  /** Otherwise only the first ten bytes are looked at. */
  lemma OnlyHeaderMatters(path: string, c1: seq<byte>, c2: seq<byte>)
    requires |c1| >= HeaderSize && |c2| >= HeaderSize && c1[..HeaderSize] == c2[..HeaderSize]
    ensures DetectFormat(path, Some(c1)) == DetectFormat(path, Some(c2))
  {
    assert Header(c1) == c1[..HeaderSize] && Header(c2) == c2[..HeaderSize];
  }

  /** The extension of `dir/stem.ext` is `.ext` in lower case. */
  lemma ExtensionOfJoined(dir: string, stem: string, ext: string)
    requires stem != "" && ext != "" && '.' !in ext && '/' !in stem && '/' !in ext
    ensures Extension(dir + "/" + (stem + "." + ext)) == "." + Lower(ext)
  {
    var file := stem + "." + ext;
    NotInJoined(stem, ext, '/');
    assert file != "" && file != "." && '/' !in file;
    NameOfJoined(dir, file);
    SuffixOfJoined(stem, ext);
    LowerAfterDot(ext);
  }

  lemma NotInJoined(a: string, b: string, x: char)
    requires x !in a && x !in b && x != '.'
    ensures x !in a + "." + b
  {
    assert a + "." + b == a + ("." + b);
  }

  lemma LowerAfterDot(ext: string)
    ensures Lower("." + ext) == "." + Lower(ext)
  {
    var l, r := Lower("." + ext), "." + Lower(ext);
    assert |l| == |r|;
    forall k | 0 <= k < |l|
      ensures l[k] == r[k]
    {
      if k > 0 {
        assert ("." + ext)[k] == ext[k - 1];
      }
    }
  }

  /** Extensions are compared without regard to case: `logo.SVG` is SVG
      whatever the file holds. */
  lemma ExtensionIgnoresCase(dir: string, stem: string, ext: string, c: Option<seq<byte>>)
    requires stem != "" && '/' !in stem && '/' !in ext && Lower(ext) == "svg"
    ensures DetectFormat(dir + "/" + (stem + "." + ext), c) == Svg
  {
    SvgLikeHasNoDot(ext);
    ExtensionOfJoined(dir, stem, ext);
    DotSvg(Lower(ext));
  }

  lemma DotSvg(t: string)
    requires t == "svg"
    ensures "." + t == SvgExtension
  {
    var d := "." + t;
    assert |d| == 4 && d[0] == '.' && d[1] == 's' && d[2] == 'v' && d[3] == 'g';
  }

  lemma SvgLikeHasNoDot(ext: string)
    requires Lower(ext) == "svg"
    ensures ext != "" && '.' !in ext
  {
    var l := Lower(ext);
    forall k | 0 <= k < |ext|
      ensures ext[k] != '.'
    {
      assert LowerChar(ext[k]) == l[k];
    }
  }

  /** A name whose only dot leads, like `.png`, has no extension, so its
      bytes decide. */
  lemma DotFileIsSniffed(ext: string, c: seq<byte>)
    requires '.' !in ext && '/' !in ext
    ensures DetectFormat("." + ext, Some(c)) == Sniff(Header(c))
  {
    var n := "." + ext;
    DotFileHasNoSuffix(ext);
    NotInJoined("", ext, '/');
    assert "" + "." + ext == n;
    assert n != "." ==> Name(n) == n;
    assert Lower("") == "";
  }

  /** A path whose name has no dot has no extension. */
  lemma NoDotNoExtension(path: string)
    requires path != "" && path != "." && '/' !in path && '.' !in path
    ensures Extension(path) == ""
  {
    assert Name(path) == path;
    assert Lower("") == "";
  }

  /** An SVG file without the extension whose XML declaration pushes the
      tag past the tenth byte is not recognised. */
  lemma XmlDeclarationHidesSvg(path: string)
    requires path != "" && path != "." && '/' !in path && '.' !in path
    ensures var c: seq<byte> := [0x3C, 0x3F, 0x78, 0x6D, 0x6C, 0x20, 0x76, 0x65, 0x72, 0x73] + SvgTag;
      BytesContain(c, SvgTag) && DetectFormat(path, Some(c)) == Unknown
  {
    var c: seq<byte> := [0x3C, 0x3F, 0x78, 0x6D, 0x6C, 0x20, 0x76, 0x65, 0x72, 0x73] + SvgTag;
    assert BytesAt(c, SvgTag, 10);
    NoDotNoExtension(path);
    var h := Header(c);
    assert h == c[..10];
    assert h[0] == 0x3C && h[1] == 0x3F && h[2] == 0x78 && h[3] == 0x6D && h[4] == 0x6C && h[5] == 0x20 && h[6] == 0x76;
    assert !BytesContain(h, SvgTag);
  }

  // ---------------------------------------------------------------------
  // The script

  /** How the conversion steps after the check ended: with an exception
      (a missing package included), or with the outcome of replacing the
      Android icons. */
  datatype Conversion = Raised | Finished(androidSuccess: bool)

  /** The exit status, whether the conversion was started, and whether the
      `finally` clause cleaned up the temporary directory. */
  datatype Run = Run(exitCode: int, converted: bool, cleanedUp: bool)

  /** `main()` with `sys.argv`, whether the path exists, the file's bytes
      and the conversion's outcome. */
  function IconMain(argv: seq<string>, fileExists: bool, contents: Option<seq<byte>>, conv: Conversion): (r: Run)
    ensures r.exitCode == 0 || r.exitCode == 1
    ensures r.exitCode == 0 <==>
      |argv| == 2 && fileExists && DetectFormat(argv[1], contents) != Unknown && conv == Finished(true)
    ensures r.converted <==> |argv| == 2 && fileExists && DetectFormat(argv[1], contents) != Unknown
    ensures r.cleanedUp <==> |argv| == 2 && fileExists
  {
    if |argv| != 2 || !fileExists then Run(1, false, false)
    else if DetectFormat(argv[1], contents) == Unknown then Run(1, false, true)
    else
      match conv
      case Raised => Run(1, true, true)
      case Finished(ok) => Run(if ok then 0 else 1, true, true)
  }

  /** An unreadable file with a recognised extension still goes on to the
      conversion; one without fails the check. */
  lemma UnreadableFile(argv: seq<string>, conv: Conversion)
    requires |argv| == 2
    ensures IconMain(argv, true, None, conv).converted <==>
      Extension(argv[1]) == SvgExtension || Extension(argv[1]) in RasterExtensions
  {
  }
}
