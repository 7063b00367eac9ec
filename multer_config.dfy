/** The upload configuration: the file filter that admits images and
    videos, the stored file's name and the size limit. */
module MulterConfig {
  import opened Wrappers
  import opened Text

  /** The largest accepted upload, 25 MiB. */
  const MaxFileSize: nat := 25 * 1024 * 1024

  /** A file of `size` bytes gets through the size limit. */
  predicate WithinSizeLimit(size: nat) {
    size <= MaxFileSize
  }

  /** The message of the error a file over the limit raises. */
  const FileTooLarge := "File too large"

  /** The alternatives of the pattern `/jpeg|jpg|png|gif|mp4|webm|mov/`. */
  const FileTypes: seq<string> := ["jpeg", "jpg", "png", "gif", "mp4", "webm", "mov"]

  /** Some word of `words` occurs in `s`. */
  predicate IncludesAny(s: string, words: seq<string>) {
    words != [] && (Includes(s, words[0]) || IncludesAny(s, words[1..]))
  }

  /** `IncludesAny` holds exactly when one of the words occurs. */
  lemma {:induction false} IncludesAnyIffSome(s: string, words: seq<string>)
    ensures IncludesAny(s, words) <==> exists k :: 0 <= k < |words| && Includes(s, words[k])
  {
    if words != [] {
      IncludesAnyIffSome(s, words[1..]);
      if !Includes(s, words[0]) && IncludesAny(s, words[1..]) {
        var k :| 0 <= k < |words[1..]| && Includes(s, words[1..][k]);
        assert words[1..][k] == words[k + 1];
      }
      if exists k :: 0 <= k < |words| && Includes(s, words[k]) {
        var k :| 0 <= k < |words| && Includes(s, words[k]);
        if k > 0 {
          assert words[k] == words[1..][k - 1];
        }
      }
    }
  }

  /** `filetypes.test(s)`: the pattern has no anchors, so it matches when any
      alternative occurs anywhere in `s`. */
  predicate MatchesFileTypes(s: string) {
    IncludesAny(s, FileTypes)
  }

  /** `p` without its trailing slashes. */
  function DropTrailingSlashes(p: string): (q: string)
    ensures |q| <= |p| && q == p[..|q|]
    ensures q == [] || q[|q| - 1] != '/'
  {
    if |p| > 0 && p[|p| - 1] == '/' then DropTrailingSlashes(p[..|p| - 1]) else p
  }

  /** The part of `q` after its last slash. */
  function AfterLastSlash(q: string): (b: string)
    ensures |b| <= |q| && b == q[|q| - |b|..]
    ensures '/' !in b
  {
    if q == [] || q[|q| - 1] == '/' then []
    else
      var b := AfterLastSlash(q[..|q| - 1]);
      assert q[..|q| - 1][|q| - 1 - |b|..] + [q[|q| - 1]] == q[|q| - 1 - |b|..];
      b + [q[|q| - 1]]
  }

  /** The index of the last `.` in `b`, or -1 when there is none. */
  function LastDot(b: string): (d: int)
    ensures -1 <= d < |b|
    ensures d >= 0 ==> b[d] == '.'
    ensures forall i :: d < i < |b| ==> b[i] != '.'
  {
    if b == [] then -1
    else if b[|b| - 1] == '.' then |b| - 1
    else LastDot(b[..|b| - 1])
  }

  /** The extension of a last name `b`: from its last `.` on; empty when
      `b` has no `.`, when its only `.` is its first character, or when `b`
      is `..`. */
  function NameExt(b: string): string {
    var d := LastDot(b);
    if d <= 0 || b == ".." then "" else b[d..]
  }

  /** Node's POSIX `path.extname`: the extension of the path's last name,
      empty or a dot followed by neither a dot nor a slash. */
  function ExtName(p: string): (e: string)
    ensures e == [] || (e[0] == '.' && '/' !in e && '.' !in e[1..])
  {
    var b := AfterLastSlash(DropTrailingSlashes(p));
    var d := LastDot(b);
    assert d > 0 && b != ".." ==> forall i :: 0 <= i < |b[d..]| ==> b[d..][i] == b[d + i];
    NameExt(b)
  }

  /** The verdict the filter hands to multer's callback. */
  datatype FilterVerdict = Accept | Reject(message: string)

  const OnlyImagesAndVideos := "Only images and videos are allowed"

  /** `fileFilter`: a file is accepted exactly when the pattern matches its
      mimetype as given and its lower-cased extension; otherwise it is
      refused with an error. */
  function FileFilter(mimetype: string, originalName: string): (v: FilterVerdict)
    ensures v == Accept <==> MatchesFileTypes(mimetype) && MatchesFileTypes(Lower(ExtName(originalName)))
    ensures v != Accept ==> v == Reject(OnlyImagesAndVideos)
  {
    var mimeOk := MatchesFileTypes(mimetype);
    var extOk := MatchesFileTypes(Lower(ExtName(originalName)));
    if mimeOk && extOk then Accept else Reject(OnlyImagesAndVideos)
  }

  /** The `filename` callback: the upload time in milliseconds, a dash, then
      the original name. The name is kept whole at the end, and the time can
      be read back from the front by `parseInt`. */
  function StoredFileName(now: nat, originalName: string): (r: string)
    ensures |r| == |Decimal(now)| + 1 + |originalName|
    ensures r[..|Decimal(now)| + 1] == Decimal(now) + "-"
    ensures r[|r| - |originalName|..] == originalName
    ensures ParseInt(r) == Some(now)
  {
    var r := Decimal(now) + "-" + originalName;
    assert r == Decimal(now) + ("-" + originalName);
    ParseIntReadsDecimal(now, "-" + originalName);
    r
  }

  // Facts about the extension test.

  /** The last dot of `x + "." + y` is the one between them when `y` has none. */
  lemma {:induction false} LastDotBeforeDotFree(x: string, y: string)
    requires '.' !in y
    ensures LastDot(x + "." + y) == |x|
  {
    var p := x + "." + y;
    if y == [] {
      assert p[|p| - 1] == '.';
    } else {
      assert p[|p| - 1] == y[|y| - 1];
      assert p[..|p| - 1] == x + "." + y[..|y| - 1];
      LastDotBeforeDotFree(x, y[..|y| - 1]);
    }
  }

  /** A path without slashes is its own last name. */
  lemma {:induction false} NoSlashIsOwnBase(q: string)
    requires '/' !in q
    ensures AfterLastSlash(q) == q
  {
    if q != [] {
      assert '/' !in q[..|q| - 1];
      NoSlashIsOwnBase(q[..|q| - 1]);
    }
  }

  /** `extname` of a slash-free name whose last dot is at `d`. */
  lemma ExtNameAtLastDot(p: string, d: nat)
    requires '/' !in p && 0 < d < |p| && p[d] == '.' && p != ".."
    requires forall i :: d < i < |p| ==> p[i] != '.'
    ensures ExtName(p) == p[d..]
  {
    assert p[|p| - 1] in p;
    NoSlashIsOwnBase(p);
    assert DropTrailingSlashes(p) == p;
    assert LastDot(p) == d;
  }

  /** A stem, a dot, and a dot-free extension: the extension is that dot and what follows. */
  lemma ExtNameOfStemAndExtension(stem: string, ext: string)
    requires '/' !in stem && '/' !in ext && '.' !in ext
    requires stem != "" && !(stem == "." && ext == "")
    ensures ExtName(stem + "." + ext) == "." + ext
  {
    var p := stem + "." + ext;
    assert '/' !in p by {
      assert forall c :: c in p ==> c in stem || c == '.' || c in ext;
    }
    assert p != ".." by {
      if |p| == 2 {
        assert p == [stem[0], '.'];
      }
    }
    assert p[|stem|] == '.';
    assert forall i :: |stem| < i < |p| ==> p[i] != '.' by {
      forall i | |stem| < i < |p| ensures p[i] != '.' {
        assert p[i] == ext[i - |stem| - 1];
      }
    }
    ExtNameAtLastDot(p, |stem|);
    SliceAfterStem(stem, ext);
  }

  /** Dropping the stem of `stem + "." + ext` leaves the dot and the extension. */
  lemma SliceAfterStem(stem: string, ext: string)
    ensures (stem + "." + ext)[|stem|..] == "." + ext
  {
  }

  /** A slash-free name without a dot has no extension. */
  lemma ExtNameNoDot(p: string)
    requires '/' !in p && '.' !in p
    ensures ExtName(p) == ""
  {
    NoSlashIsOwnBase(p);
    assert p != [] ==> p[|p| - 1] in p;
    assert DropTrailingSlashes(p) == p;
  }

  /** A name without any extension is refused, whatever the mimetype. */
  lemma NoExtensionRefused(mimetype: string, p: string)
    requires ExtName(p) == ""
    ensures FileFilter(mimetype, p) == Reject(OnlyImagesAndVideos)
  {
    assert Lower("") == "";
    NothingMatches(Lower(""));
  }

  /** The last name of a path is everything after its last slash. */
  lemma {:induction false} AfterLastSlashOfPath(dir: string, name: string)
    requires '/' !in name
    ensures AfterLastSlash(dir + "/" + name) == name
  {
    var q := dir + "/" + name;
    if name != [] {
      assert q[..|q| - 1] == dir + "/" + name[..|name| - 1];
      assert q[|q| - 1] == name[|name| - 1];
      assert q[|q| - 1] != '/' by {
        assert name[|name| - 1] in name;
      }
      AfterLastSlashOfPath(dir, name[..|name| - 1]);
      assert name[..|name| - 1] + [name[|name| - 1]] == name;
    }
  }

  /** The directory part of a path does not affect its extension. */
  lemma ExtNameOfPath(dir: string, name: string)
    requires '/' !in name && name != ""
    ensures ExtName(dir + "/" + name) == ExtName(name)
  {
    var q := dir + "/" + name;
    assert q[|q| - 1] == name[|name| - 1];
    assert name[|name| - 1] in name;
    assert DropTrailingSlashes(q) == q;
    assert DropTrailingSlashes(name) == name;
    AfterLastSlashOfPath(dir, name);
    NoSlashIsOwnBase(name);
  }

  /** A name whose only dot is its first character (a "dotfile") has no
      extension, so the filter refuses it whatever its mimetype. */
  lemma DotFileIsRefused(mimetype: string, name: string)
    requires '/' !in name && '.' !in name && name != ""
    ensures ExtName("." + name) == ""
    ensures FileFilter(mimetype, "." + name).Reject?
  {
    var p := "." + name;
    assert '/' !in p by {
      assert forall c :: c in p ==> c == '.' || c in name;
    }
    assert DropTrailingSlashes(p) == p by {
      assert p[|p| - 1] in p;
    }
    NoSlashIsOwnBase(p);
    assert LastDot(p) == 0 by {
      LastDotBeforeDotFree("", name);
      assert "" + "." + name == p;
    }
    NothingMatches("");
  }

  /** A string holding none of the first letters `j`, `p`, `g`, `m`, `w` of
      the words does not match the pattern. */
  lemma NothingMatches(s: string)
    requires 'j' !in s && 'p' !in s && 'g' !in s && 'm' !in s && 'w' !in s
    ensures !MatchesFileTypes(s)
  {
    IncludesAnyIffSome(s, FileTypes);
    forall k | 0 <= k < |FileTypes| ensures !Includes(s, FileTypes[k]) {
      if Includes(s, FileTypes[k]) {
        IncludedCharsOccur(s, FileTypes[k], 0);
      }
    }
  }

  // Lower-casing commutes with every step of `extname`, because it maps
  // no character to or from `/` or `.`.

  /** Lower-casing commutes with taking a prefix. */
  lemma LowerSlices(s: string, k: nat)
    requires k <= |s|
    ensures Lower(s[..k]) == Lower(s)[..k]
  {
  }

  /** Lower-casing a string with one more character appends that character lower-cased. */
  lemma LowerAppend(b: string, c: char)
    ensures Lower(b + [c]) == Lower(b) + [LowerChar(c)]
  {
  }

  /** Lower-casing commutes with dropping trailing slashes. */
  lemma {:induction false} LowerDropTrailingSlashes(p: string)
    ensures DropTrailingSlashes(Lower(p)) == Lower(DropTrailingSlashes(p))
  {
    if |p| > 0 && p[|p| - 1] == '/' {
      LowerSlices(p, |p| - 1);
      LowerDropTrailingSlashes(p[..|p| - 1]);
    }
  }

  /** Lower-casing commutes with taking the text after the last slash. */
  lemma {:induction false} LowerAfterLastSlash(q: string)
    ensures AfterLastSlash(Lower(q)) == Lower(AfterLastSlash(q))
  {
    if q != [] && q[|q| - 1] != '/' {
      LowerSlices(q, |q| - 1);
      LowerAfterLastSlash(q[..|q| - 1]);
      LowerAppend(AfterLastSlash(q[..|q| - 1]), q[|q| - 1]);
    }
  }

  /** Lower-casing moves no dot. */
  lemma {:induction false} LowerLastDot(b: string)
    ensures LastDot(Lower(b)) == LastDot(b)
  {
    if b != [] && b[|b| - 1] != '.' {
      LowerSlices(b, |b| - 1);
      LowerLastDot(b[..|b| - 1]);
    }
  }

  /** Lower-casing commutes with taking a suffix. */
  lemma LowerSuffix(s: string, k: nat)
    requires k <= |s|
    ensures Lower(s[k..]) == Lower(s)[k..]
  {
  }

  /** Lower-casing commutes with taking the extension of a slash-free name. */
  lemma LowerNameExt(b: string)
    ensures NameExt(Lower(b)) == Lower(NameExt(b))
  {
    LowerLastDot(b);
    var d := LastDot(b);
    assert Lower(b) == ".." <==> b == ".." by {
      if |b| == 2 {
        assert Lower(b)[0] == LowerChar(b[0]) && Lower(b)[1] == LowerChar(b[1]);
      }
    }
    if d > 0 {
      LowerSuffix(b, d);
    }
  }

  /** Lower-casing a name before or after taking its extension is the same. */
  lemma ExtNameOfLower(p: string)
    ensures ExtName(Lower(p)) == Lower(ExtName(p))
  {
    LowerDropTrailingSlashes(p);
    LowerAfterLastSlash(DropTrailingSlashes(p));
    LowerNameExt(AfterLastSlash(DropTrailingSlashes(p)));
  }

  /** Lower-casing twice is lower-casing once. */
  lemma LowerIdempotent(s: string)
    ensures Lower(Lower(s)) == Lower(s)
  {
  }

  /** The filter's verdict does not change when the original name is lower-cased. */
  lemma FilterIgnoresNameCase(mimetype: string, originalName: string)
    ensures FileFilter(mimetype, Lower(originalName)) == FileFilter(mimetype, originalName)
  {
    ExtNameOfLower(originalName);
    LowerIdempotent(ExtName(originalName));
  }

  /** `image/png` matches the pattern; `IMAGE/PNG` does not. */
  lemma PngMimetypeCase()
    ensures MatchesFileTypes("image/png")
    ensures !MatchesFileTypes("IMAGE/PNG")
  {
    assert "image/png"[6..] == "png";
    IncludesAt("image/png", "png", 6);
    assert FileTypes[2] == "png";
    NothingMatches("IMAGE/PNG");
  }

  /** The mimetype is not lower-cased: whatever the name, a mimetype that
      matches in lower case no longer matches in upper case. */
  lemma FilterIsCaseSensitiveOnMimetype(originalName: string)
    requires MatchesFileTypes(Lower(ExtName(originalName)))
    ensures FileFilter("image/png", originalName) == Accept
    ensures FileFilter("IMAGE/PNG", originalName) == Reject(OnlyImagesAndVideos)
  {
    PngMimetypeCase();
  }

  /** An extension holding none of the words' first letters is refused
      whatever the mimetype and whatever the rest of the name holds. */
  lemma FilterNeedsMatchingExtension(mimetype: string, stem: string, ext: string)
    requires '/' !in stem && '/' !in ext && '.' !in ext
    requires stem != "" && !(stem == "." && ext == "")
    requires forall c :: c in Lower(ext) ==> c !in "jpgmw"
    ensures FileFilter(mimetype, stem + "." + ext) == Reject(OnlyImagesAndVideos)
  {
    ExtNameOfStemAndExtension(stem, ext);
    DotExtensionRefused(ext);
  }

  /** The lower-cased `.ext` of such an extension matches no word. */
  lemma DotExtensionRefused(ext: string)
    requires forall c :: c in Lower(ext) ==> c !in "jpgmw"
    ensures !MatchesFileTypes(Lower("." + ext))
  {
    LowerDotPrefix(ext);
    var e := "." + Lower(ext);
    assert forall c :: c in e ==> c == '.' || c in Lower(ext);
    assert 'j' in "jpgmw" && 'p' in "jpgmw" && 'g' in "jpgmw" && 'm' in "jpgmw" && 'w' in "jpgmw";
    NothingMatches(e);
  }

  /** Lower-casing keeps a leading dot. */
  lemma LowerDotPrefix(ext: string)
    ensures Lower("." + ext) == "." + Lower(ext)
  {
  }

  /** A word anywhere in the lower-cased extension makes it match. */
  lemma WordInsideMatches(ext: string, k: nat, i: nat)
    requires k < |FileTypes| && i <= |ext| && StartsWith(Lower(ext)[i..], FileTypes[k])
    ensures MatchesFileTypes(Lower("." + ext))
  {
    LowerDotPrefix(ext);
    var e := "." + Lower(ext);
    assert e[i + 1..] == Lower(ext)[i..];
    IncludesAt(e, FileTypes[k], i + 1);
    IncludesAnyIffSome(e, FileTypes);
  }

  /** The match is unanchored: an extension that merely contains one of the
      words anywhere passes, with a matching mimetype. */
  lemma FilterMatchesInsideExtension(mimetype: string, stem: string, ext: string, k: nat, i: nat)
    requires '/' !in stem && '/' !in ext && '.' !in ext
    requires stem != "" && !(stem == "." && ext == "")
    requires MatchesFileTypes(mimetype)
    requires k < |FileTypes| && i <= |ext| && StartsWith(Lower(ext)[i..], FileTypes[k])
    ensures FileFilter(mimetype, stem + "." + ext) == Accept
  {
    ExtNameOfStemAndExtension(stem, ext);
    WordInsideMatches(ext, k, i);
  }
}
