/**
 * Upload handling: the stored filename multer's `diskStorage` builds, the `fileFilter` that admits
 * images only, and the compression loop that renames each uploaded file in place.
 */
module Upload {
  import opened Wrappers
  import opened Js

  // =============================================================================================
  // The stored filename: `${Date.now()}-${Math.round(Math.random() * 1e9)}-${sanitised}`

  /** The characters `[a-zA-Z0-9.]` the upload name keeps. */
  predicate UploadNameChar(c: char) {
    ('a' <= c <= 'z') || ('A' <= c <= 'Z') || ('0' <= c <= '9') || c == '.'
  }

  /** `originalname.replace(/[^a-zA-Z0-9.]/g, "_")` */
  function SanitizeUploadName(name: string): (r: string)
    ensures |r| == |name|
    ensures forall i :: 0 <= i < |r| ==> r[i] == if UploadNameChar(name[i]) then name[i] else '_'
  {
    ReplaceOutside(name, UploadNameChar)
  }

  /** Only letters, digits, dots, underscores and dashes. */
  predicate SafeName(s: string) {
    forall i :: 0 <= i < |s| ==> UploadNameChar(s[i]) || s[i] == '_' || s[i] == '-'
  }

  lemma SafeConcat(a: string, b: string)
    requires SafeName(a) && SafeName(b)
    ensures SafeName(a + b)
  {
    forall i | 0 <= i < |a + b| ensures UploadNameChar((a + b)[i]) || (a + b)[i] == '_' || (a + b)[i] == '-' {
      if i >= |a| {
        assert (a + b)[i] == b[i - |a|];
      }
    }
  }

  /**
   * The name the `filename` callback gives a file uploaded at `timestamp` with random suffix
   * `random`: it ends in the sanitised original name and holds nothing but letters, digits, dots,
   * underscores and dashes (so in particular no slash).
   */
  function StoredFilename(timestamp: nat, random: nat, originalName: string): (r: string)
    ensures |r| >= |originalName| + 4
    ensures r[|r| - |originalName|..] == SanitizeUploadName(originalName)
    ensures SafeName(r) && '/' !in r
  {
    var t, n, u := NumberToString(timestamp), NumberToString(random), SanitizeUploadName(originalName);
    SafeConcat(t, "-");
    SafeConcat(t + "-", n);
    SafeConcat(t + "-" + n, "-");
    SafeConcat(t + "-" + n + "-", u);
    var r := t + "-" + n + "-" + u;
    assert r[|r| - |u|..] == u;
    assert '/' !in r by {
      forall i | 0 <= i < |r| ensures r[i] != '/' {
        assert UploadNameChar(r[i]) || r[i] == '_' || r[i] == '-';
      }
    }
    r
  }

  /** The first position of `c` in `s`. */
  function IndexOf(s: string, c: char): (r: Option<nat>)
    ensures r.None? ==> c !in s
    ensures r.Some? ==> r.value < |s| && s[r.value] == c && c !in s[..r.value]
  {
    if s == [] then None
    else if s[0] == c then Some(0)
    else match IndexOf(s[1..], c)
      case None => None
      case Some(i) => assert s[..i + 1] == [s[0]] + s[1..][..i]; Some(i + 1)
  }

  /** Cuts a stored filename at its first two dashes. */
  function SplitStoredFilename(s: string): Option<(string, string, string)> {
    match IndexOf(s, '-')
    case None => None
    case Some(i) =>
      match IndexOf(s[i + 1..], '-')
      case None => None
      case Some(j) => Some((s[..i], s[i + 1..i + 1 + j], s[i + 2 + j..]))
  }

  lemma IndexOfAfter(a: string, c: char, b: string)
    requires c !in a
    ensures IndexOf(a + [c] + b, c) == Some(|a|)
  {
    var s := a + [c] + b;
    assert s[|a|] == c;
    assert s[..|a|] == a;
  }

  /** Cutting `t + "-" + rest` at its first dash, where `t` has none. */
  lemma SplitFirst(t: string, rest: string)
    requires '-' !in t
    ensures IndexOf(t + "-" + rest, '-') == Some(|t|)
    ensures (t + "-" + rest)[..|t|] == t && (t + "-" + rest)[|t| + 1..] == rest
  {
    assert t + "-" + rest == t + ['-'] + rest;
    IndexOfAfter(t, '-', rest);
  }

  /** A name joined from two dash-free parts and a rest splits back into them. */
  lemma SplitJoined(t: string, r: string, n: string)
    requires '-' !in t && '-' !in r
    ensures SplitStoredFilename(t + "-" + r + "-" + n) == Some((t, r, n))
  {
    var s := t + "-" + r + "-" + n;
    assert s == t + "-" + (r + "-" + n);
    SplitFirst(t, r + "-" + n);
    SplitFirst(r, n);
    var rest := s[|t| + 1..];
    assert s[|t| + 1..|t| + 1 + |r|] == rest[..|r|];
    assert s[|t| + 2 + |r|..] == rest[|r| + 1..];
  }

  /**
   * The stored filename can be taken apart again: it holds the decimal timestamp, the decimal random
   * suffix and the sanitised original name (which has the original's length), separated by the only
   * two dashes before it.
   */
  lemma StoredFilenameRoundTrip(timestamp: nat, random: nat, originalName: string)
    ensures var split := SplitStoredFilename(StoredFilename(timestamp, random, originalName));
      && split.Some?
      && (forall i :: 0 <= i < |split.value.0| ==> IsDigit(split.value.0[i]))
      && (forall i :: 0 <= i < |split.value.1| ==> IsDigit(split.value.1[i]))
      && ParseDecimal(split.value.0) == timestamp
      && ParseDecimal(split.value.1) == random
      && split.value.2 == SanitizeUploadName(originalName)
      && |split.value.2| == |originalName|
  {
    var t, r := NumberToString(timestamp), NumberToString(random);
    assert '-' !in t && '-' !in r by {
      assert !IsDigit('-');
    }
    SplitJoined(t, r, SanitizeUploadName(originalName));
    DecimalRoundTrip(timestamp);
    DecimalRoundTrip(random);
  }

  // =============================================================================================
  // fileFilter: `/jpeg|jpg|png|gif/` tested on the lower-cased extension and on the mimetype

  /** `p` without the slashes it ends in. */
  function StripTrailingSlashes(p: string): (r: string)
    ensures |r| <= |p| && r == p[..|r|]
    ensures forall i :: |r| <= i < |p| ==> p[i] == '/'
    ensures r == [] || r[|r| - 1] != '/'
  {
    if p != [] && p[|p| - 1] == '/' then StripTrailingSlashes(p[..|p| - 1]) else p
  }

  /** The last position of `c` in `s`. */
  function LastIndexOf(s: string, c: char): (r: Option<nat>)
    ensures r.None? ==> c !in s
    ensures r.Some? ==> r.value < |s| && s[r.value] == c && c !in s[r.value + 1..]
  {
    if s == [] then None
    else if s[|s| - 1] == c then Some(|s| - 1)
    else
      var r := LastIndexOf(s[..|s| - 1], c);
      assert r.Some? ==> s[r.value + 1..] == s[..|s| - 1][r.value + 1..] + [s[|s| - 1]];
      assert r.None? ==> s == s[..|s| - 1] + [s[|s| - 1]];
      r
  }

  /**
   * The last path segment, trailing slashes ignored: the ending of the stripped path that follows
   * its last slash (all of it when there is none).
   */
  function Basename(p: string): (r: string)
    ensures var q := StripTrailingSlashes(p);
      && |r| <= |q| && r == q[|q| - |r|..]
      && '/' !in r
      && (|r| < |q| ==> q[|q| - |r| - 1] == '/')
  {
    var q := StripTrailingSlashes(p);
    match LastIndexOf(q, '/')
    case None => q
    case Some(i) => q[i + 1..]
  }

  /**
   * Node's `path.extname` (POSIX): from the last dot of the last segment to its end; "" when the
   * segment has no dot, when its only dot leads it (".png") or when the segment is "..".
   */
  function ExtName(p: string): (r: string)
    ensures r == "" || (r[0] == '.' && '.' !in r[1..] && '/' !in r)
    ensures r != "" ==> |r| <= |Basename(p)| && r == Basename(p)[|Basename(p)| - |r|..]
  {
    SegmentExtension(Basename(p))
  }

  /** `extname` of one path segment `b`. */
  function SegmentExtension(b: string): (r: string)
    requires '/' !in b
    ensures r == "" || (r[0] == '.' && '.' !in r[1..] && '/' !in r)
    ensures r != "" ==> |r| <= |b| && r == b[|b| - |r|..]
  {
    var i := LastIndexOf(b, '.');
    if i.None? || i.value == 0 || b == ".." then ""
    else
      assert b[i.value..][1..] == b[i.value + 1..];
      b[i.value..]
  }

  /** `/jpeg|jpg|png|gif/.test(s)`: only a string of three or more characters can pass. */
  predicate NamesImageType(s: string)
    ensures NamesImageType(s) ==> |s| >= 3
  {
    HasInfix(s, "jpeg") || HasInfix(s, "jpg") || HasInfix(s, "png") || HasInfix(s, "gif")
  }

  /**
   * The filter admits a file iff both the lower-cased extension and the declared mimetype name an
   * image type; an admitted file has a non-empty extension.
   */
  predicate AcceptFile(originalName: string, mimetype: string)
    ensures AcceptFile(originalName, mimetype) ==> ExtName(originalName) != "" && |mimetype| >= 3
  {
    NamesImageType(AsciiLower(ExtName(originalName))) && NamesImageType(mimetype)
  }

  /** A word that does not start with a dot fits in a dot-led string only after the dot. */
  lemma DotLedInfix(s: string, t: string)
    requires HasInfix(s, t) && t != [] && t[0] != '.'
    ensures |s| >= |t|
    ensures s != [] && s[0] == '.' ==> |s| >= |t| + 1
  {
    var i :| InfixAt(s, t, i);
    if i == 0 {
      assert s[0] == s[i..i + |t|][0];
    }
  }

  /**
   * An accepted file has a real extension: a dot followed by at least three characters, none of them
   * a dot or a slash. A name without an extension, or with a leading dot only, is always refused.
   */
  lemma AcceptedHasExtension(originalName: string, mimetype: string)
    requires AcceptFile(originalName, mimetype)
    ensures var ext := ExtName(originalName);
      |ext| >= 4 && ext[0] == '.' && '.' !in ext[1..] && '/' !in ext
  {
    var ext := ExtName(originalName);
    var lower := AsciiLower(ext);
    var w: string :=
      if HasInfix(lower, "jpeg") then "jpeg"
      else if HasInfix(lower, "jpg") then "jpg"
      else if HasInfix(lower, "png") then "png"
      else "gif";
    assert HasInfix(lower, w) && |w| >= 3 && w[0] != '.';
    DotLedInfix(lower, w);
    assert ext != [];
    assert lower[0] == '.';
  }

  /** The last occurrence of `c` in `a + [c] + b`, when `b` has none, is the one after `a`. */
  lemma LastIndexOfBefore(a: string, c: char, b: string)
    requires c !in b
    ensures LastIndexOf(a + [c] + b, c) == Some(|a|)
  {
    var s := a + [c] + b;
    assert s[|a|] == c;
    assert s[|a| + 1..] == b;
  }

  /** A name that neither contains nor ends in a slash is its own basename. */
  lemma BasenameOfPlainName(name: string)
    requires name != [] && '/' !in name
    ensures Basename(name) == name
  {
    assert name[|name| - 1] in name;
  }

  /**
   * A plain name `base.ext` (no slash; not the name "..") has the extension ".ext": everything from
   * the last dot on.
   */
  lemma ExtNameOfPlainName(base: string, ext: string)
    requires base != [] && '/' !in base && '.' !in ext && '/' !in ext
    requires !(base == "." && ext == "")
    ensures ExtName(base + "." + ext) == "." + ext
  {
    var name := base + "." + ext;
    assert name == base + ['.'] + ext;
    assert '/' !in name by {
      forall i | 0 <= i < |name| ensures name[i] != '/' {
        if i < |base| { assert name[i] == base[i]; }
        else if i > |base| { assert name[i] == ext[i - |base| - 1]; }
      }
    }
    BasenameOfPlainName(name);
    LastIndexOfBefore(base, '.', ext);
    assert name != ".." by {
      if |base| == 1 && |ext| == 0 {
        assert base == [base[0]] && name[0] == base[0];
      }
    }
    assert name[|base|..] == "." + ext;
  }

  /** A name whose only dot leads it (".png", ".gitignore") has no extension and is refused whatever its type. */
  lemma DotFileRefused(rest: string, mimetype: string)
    requires '.' !in rest && '/' !in rest
    ensures ExtName("." + rest) == ""
    ensures !AcceptFile("." + rest, mimetype)
  {
    var name := "." + rest;
    assert name == [] + ['.'] + rest;
    assert '/' !in name by {
      forall i | 0 <= i < |name| ensures name[i] != '/' {
        if i > 0 { assert name[i] == rest[i - 1]; }
      }
    }
    BasenameOfPlainName(name);
    LastIndexOfBefore([], '.', rest);
    assert AsciiLower("") == "";
    NoInfixWithout("", "jpeg", 0);
    NoInfixWithout("", "jpg", 0);
    NoInfixWithout("", "png", 0);
    NoInfixWithout("", "gif", 0);
  }

  /** Every allowed word contains a "g", so a mimetype without one (text/plain, application/pdf) is refused. */
  lemma RefusesMimetypeWithoutG(originalName: string, mimetype: string)
    requires 'g' !in mimetype
    ensures !AcceptFile(originalName, mimetype)
  {
    NoInfixWithout(mimetype, "jpeg", 3);
    NoInfixWithout(mimetype, "jpg", 2);
    NoInfixWithout(mimetype, "png", 2);
    NoInfixWithout(mimetype, "gif", 0);
  }

  /**
   * For a plain name `base.ext` the filter reads the text after the LAST dot only: "photo.png.exe"
   * is judged by ".exe", and ".apng" passes because it contains "png".
   */
  lemma FilterReadsLastExtension(base: string, ext: string, mimetype: string)
    requires base != [] && '/' !in base && '.' !in ext && '/' !in ext
    requires !(base == "." && ext == "")
    ensures AcceptFile(base + "." + ext, mimetype) <==> NamesImageType(AsciiLower("." + ext)) && NamesImageType(mimetype)
  {
    ExtNameOfPlainName(base, ext);
  }

  /** Lower-casing keeps dots and slashes where they are, and lowering twice is lowering once. */
  lemma LowerDotted(ext: string)
    requires '.' !in ext && '/' !in ext
    ensures '.' !in AsciiLower(ext) && '/' !in AsciiLower(ext)
    ensures AsciiLower("." + ext) == AsciiLower("." + AsciiLower(ext))
  {
    var lowerExt := AsciiLower(ext);
    forall i | 0 <= i < |lowerExt| ensures lowerExt[i] != '.' && lowerExt[i] != '/' {
      assert ext[i] in ext;
    }
    var a, b := AsciiLower("." + ext), AsciiLower("." + lowerExt);
    forall i | 0 <= i < |a| ensures a[i] == b[i] {
      if i > 0 {
        assert ("." + ext)[i] == ext[i - 1];
        assert ("." + lowerExt)[i] == lowerExt[i - 1];
      }
    }
  }

  /** Case in the extension does not matter: "photo.JPG" is judged exactly as "photo.jpg". */
  lemma FilterIgnoresCase(base: string, ext: string, mimetype: string)
    requires base != [] && '/' !in base && '.' !in ext && '/' !in ext
    requires !(base == "." && ext == "")
    ensures AcceptFile(base + "." + ext, mimetype) == AcceptFile(base + "." + AsciiLower(ext), mimetype)
  {
    LowerDotted(ext);
    FilterReadsLastExtension(base, ext, mimetype);
    FilterReadsLastExtension(base, AsciiLower(ext), mimetype);
  }

  // =============================================================================================
  // The compression loop: each uploaded file is renamed to its compressed copy

  /** A file object as multer hands it to the route: `destination` is "upload/", so `path` is "upload/" + filename. */
  class UploadedFile {
    var path: string
    var filename: string
    const originalname: string
    const mimetype: string

    /** multer's `diskStorage` for a file uploaded at `timestamp` with random suffix `random`. */
    constructor (originalname: string, mimetype: string, timestamp: nat, random: nat)
      ensures this.originalname == originalname && this.mimetype == mimetype
      ensures filename == StoredFilename(timestamp, random, originalname)
      ensures path == "upload/" + filename
    {
      this.originalname := originalname;
      this.mimetype := mimetype;
      filename := StoredFilename(timestamp, random, originalname);
      path := "upload/" + StoredFilename(timestamp, random, originalname);
    }
  }

  const CompressedPrefix := "compressed-"

  function CompressedName(filename: string): (r: string)
    ensures |r| == |CompressedPrefix| + |filename|
    ensures r[..|CompressedPrefix|] == CompressedPrefix && r[|CompressedPrefix|..] == filename
  {
    CompressedPrefix + filename
  }

  /**
   * `for (const file of uploadedFiles)`: after sharp writes "upload/compressed-<filename>" and the
   * original is deleted, the file object is made to point at the compressed copy.
   */
  method CompressAll(files: seq<UploadedFile>)
    requires forall i, j :: 0 <= i < j < |files| ==> files[i] != files[j]
    modifies files
    ensures forall i :: 0 <= i < |files| ==>
      && files[i].filename == CompressedName(old(files[i].filename))
      && files[i].path == "upload/" + CompressedName(old(files[i].filename))
  {
    for n := 0 to |files|
      invariant forall i :: 0 <= i < n ==>
        && files[i].filename == CompressedName(old(files[i].filename))
        && files[i].path == "upload/" + CompressedName(old(files[i].filename))
      invariant forall i :: n <= i < |files| ==> files[i].filename == old(files[i].filename)
    {
      var file := files[n];
      var compressedPath := "upload/" + CompressedPrefix + file.filename;
      file.path := compressedPath;
      file.filename := CompressedPrefix + file.filename;
    }
  }

  /** The file names of a list of file objects. */
  function Filenames(files: seq<UploadedFile>): seq<string>
    reads files
  {
    seq(|files|, i requires 0 <= i < |files| reads files => files[i].filename)
  }
}
