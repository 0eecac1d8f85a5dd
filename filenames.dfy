/** The batch driver's string logic: the case-insensitive extension filter,
    the output name `<stem>_card.png`, and the POSIX path helpers it relies
    on (os.path.splitext and os.path.join). */
module FileNames {

  /** The suffixes accepted by the filter, in the source's order. */
  const ImageExtensions: seq<string> := [".png", ".jpg", ".jpeg", ".webp"]

  /** Appended to the stem to name the output card. */
  const CardSuffix: string := "_card.png"

  /** str.lower() on one character, for the ASCII letters. */
  function LowerChar(ch: char): char {
    if 'A' <= ch <= 'Z' then (ch as int + 32) as char else ch
  }

  function Lower(s: string): string {
    seq(|s|, i requires 0 <= i < |s| => LowerChar(s[i]))
  }

  predicate EndsWith(s: string, suffix: string) {
    |suffix| <= |s| && s[|s| - |suffix|..] == suffix
  }

  /** filename.lower().endswith(('.png', '.jpg', '.jpeg', '.webp')) */
  predicate IsImageFile(name: string) {
    exists i | 0 <= i < |ImageExtensions| :: EndsWith(Lower(name), ImageExtensions[i])
  }

  /** str.rfind on one character: the last index of ch in s, or -1. */
  function RFind(s: string, ch: char): (i: int)
    ensures -1 <= i < |s|
  {
    if |s| == 0 then -1
    else if s[|s| - 1] == ch then |s| - 1
    else RFind(s[..|s| - 1], ch)
  }

  /** RFind finds ch, and no ch follows what it finds. */
  lemma {:induction false} RFindSpec(s: string, ch: char)
    ensures var i := RFind(s, ch);
      && (0 <= i ==> s[i] == ch)
      && (forall k | i < k < |s| :: s[k] != ch)
  {
    if |s| > 0 && s[|s| - 1] != ch {
      RFindSpec(s[..|s| - 1], ch);
      assert forall k | 0 <= k < |s| - 1 :: s[..|s| - 1][k] == s[k];
    }
  }

  /** os.path.splitext for POSIX paths: split at the last dot of the last
      path component, unless everything before that dot in the component is
      dots (a hidden file such as ".png" has no extension). */
  function SplitExt(p: string): (string, string) {
    var sepIndex := RFind(p, '/');
    var dotIndex := RFind(p, '.');
    if dotIndex > sepIndex && exists k | sepIndex + 1 <= k < dotIndex :: p[k] != '.' then
      (p[..dotIndex], p[dotIndex..])
    else
      (p, [])
  }

  /** splitext loses nothing, and the extension it splits off is empty or a
      dot followed by no further dot and no slash. */
  lemma {:induction false} SplitExtParts(p: string)
    ensures var (root, ext) := SplitExt(p);
      && root + ext == p
      && (ext == [] || ext[0] == '.')
      && (forall k | 1 <= k < |ext| :: ext[k] != '.')
      && (forall k | 0 <= k < |ext| :: ext[k] != '/')
  {
    RFindSpec(p, '/');
    RFindSpec(p, '.');
    var dotIndex := RFind(p, '.');
    if SplitExt(p).1 != [] {
      assert p[..dotIndex] + p[dotIndex..] == p;
      assert forall k | 0 <= k < |p| - dotIndex :: p[dotIndex..][k] == p[dotIndex + k];
    }
  }

  /** f"{os.path.splitext(filename)[0]}_card.png" */
  function OutputName(filename: string): string {
    SplitExt(filename).0 + CardSuffix
  }

  /** os.path.join(a, b) for POSIX paths with two arguments. */
  function Join(a: string, b: string): string {
    if |b| > 0 && b[0] == '/' then b
    else if a == [] || a[|a| - 1] == '/' then a + b
    else a + "/" + b
  }

  /** The component Join(a, _) appended: the inverse of Join for a fixed
      relative folder a. */
  function Unjoin(a: string, path: string): string {
    if |path| > 0 && path[0] == '/' then path
    else if |a| + 1 <= |path| then path[|a| + 1..]
    else path
  }

  /** Joining a relative folder name that does not end in a slash loses
      nothing: the joined component can be recovered from the path. */
  lemma {:induction false} JoinRoundTrip(a: string, b: string)
    requires |a| > 0 && a[0] != '/' && a[|a| - 1] != '/'
    ensures Unjoin(a, Join(a, b)) == b
  {
    if !(|b| > 0 && b[0] == '/') {
      var path := a + "/" + b;
      assert Join(a, b) == path;
      assert path[|a| + 1..] == b;
    }
  }

  /** A name accepted by the filter ends in a dot followed by the extension's
      letters in either case, so the extension holds no dot or slash. */
  lemma {:induction false} AcceptedSuffixShape(name: string, e: string)
    requires e in ImageExtensions && EndsWith(Lower(name), e)
    ensures 0 <= |name| - |e| && name[|name| - |e|] == '.'
    ensures forall k | |name| - |e| < k < |name| :: name[k] != '.' && name[k] != '/'
  {
    var n := |name| - |e|;
    var lower := Lower(name);
    assert lower[n..] == e;
    assert LowerChar(name[n]) == lower[n] == e[0] == '.';
    forall k | n + 1 <= k < |name|
      ensures name[k] != '.' && name[k] != '/'
    {
      assert LowerChar(name[k]) == lower[k] == e[k - n];
      assert e[k - n] in "pngjewb";
    }
  }

  /** For a listed file name (no slash) that the filter accepts with
      extension e, the output name drops exactly e and appends "_card.png";
      a name made of dots before e (such as ".png") has no extension for
      splitext and keeps e in front of the suffix. */
  lemma {:induction false} OutputNameOfImage(name: string, e: string)
    requires '/' !in name
    requires e in ImageExtensions && EndsWith(Lower(name), e)
    ensures var n := |name| - |e|;
      OutputName(name) ==
        (if exists k | 0 <= k < n :: name[k] != '.' then name[..n] else name) + CardSuffix
  {
    var n := |name| - |e|;
    AcceptedSuffixShape(name, e);
    LastDotIs(name, n);
    RFindSpec(name, '/');
    assert RFind(name, '/') == -1;
  }

  /** The last dot of s is at n when s[n] is a dot and no dot follows it. */
  lemma {:induction false} LastDotIs(s: string, n: int)
    requires 0 <= n < |s| && s[n] == '.'
    requires forall k | n < k < |s| :: s[k] != '.'
    ensures RFind(s, '.') == n
  {
    RFindSpec(s, '.');
  }

  /** splitext's extension, lower-cased, is one of the four exactly when
      the filter accepts a name whose stem is not all dots: the filter and
      the name derivation agree on what the extension is. */
  lemma {:induction false} FilterAgreesWithSplitExt(name: string)
    requires '/' !in name
    ensures Lower(SplitExt(name).1) in ImageExtensions ==> IsImageFile(name)
    ensures IsImageFile(name) && SplitExt(name).1 != [] ==> Lower(SplitExt(name).1) in ImageExtensions
  {
    var (root, ext) := SplitExt(name);
    SplitExtParts(name);
    if Lower(ext) in ImageExtensions {
      var i :| 0 <= i < |ImageExtensions| && ImageExtensions[i] == Lower(ext);
      assert Lower(name)[|name| - |ext|..] == Lower(ext) by {
        assert name[|root|..] == ext;
      }
      assert EndsWith(Lower(name), ImageExtensions[i]);
    }
    if IsImageFile(name) && ext != [] {
      var i :| 0 <= i < |ImageExtensions| && EndsWith(Lower(name), ImageExtensions[i]);
      var e := ImageExtensions[i];
      var n := |name| - |e|;
      AcceptedSuffixShape(name, e);
      LastDotIs(name, n);
      assert name[n..] == ext;
      assert Lower(ext) == Lower(name)[n..] == e;
    }
  }

  /** The filter ignores case, and the output name drops the extension. */
  lemma ExampleUpperCase()
    ensures IsImageFile("Photo.JPEG") && OutputName("Photo.JPEG") == "Photo_card.png"
  {
    assert EndsWith(Lower("Photo.JPEG"), ImageExtensions[2]);
    OutputNameOfImage("Photo.JPEG", ".jpeg");
    assert "Photo.JPEG"[0] != '.' && "Photo.JPEG"[..5] == "Photo";
  }

  /** Only the last extension is dropped. */
  lemma ExampleDottedStem()
    ensures IsImageFile("archive.tar.WebP") && OutputName("archive.tar.WebP") == "archive.tar_card.png"
  {
    assert EndsWith(Lower("archive.tar.WebP"), ImageExtensions[3]);
    OutputNameOfImage("archive.tar.WebP", ".webp");
    assert "archive.tar.WebP"[0] != '.' && "archive.tar.WebP"[..11] == "archive.tar";
  }

  /** A name that is only an extension is accepted and keeps it. */
  lemma ExampleHiddenName()
    ensures IsImageFile(".png") && OutputName(".png") == ".png_card.png"
  {
    assert EndsWith(Lower(".png"), ImageExtensions[0]);
    OutputNameOfImage(".png", ".png");
  }

  /** A relative name joined under a folder name. */
  lemma JoinExample(a: string, b: string)
    requires |a| > 0 && a[|a| - 1] != '/' && |b| > 0 && b[0] != '/'
    ensures Join(a, b) == a + "/" + b
  {
  }

  /** Other extensions, and an extension without its dot, are rejected. */
  lemma ExampleRejected()
    ensures !IsImageFile("notes.txt") && !IsImageFile("png") && !IsImageFile("photo.gif")
  {
    AcceptedEnding("notes.txt");
    AcceptedEnding("png");
    AcceptedEnding("photo.gif");
  }

  /** Every accepted name is at least four characters long and ends in a
      'g' or a 'p' of either case. */
  lemma AcceptedEnding(name: string)
    ensures IsImageFile(name) ==> |name| >= 4 && LowerChar(name[|name| - 1]) in "gp"
  {
    if IsImageFile(name) {
      var i :| 0 <= i < |ImageExtensions| && EndsWith(Lower(name), ImageExtensions[i]);
      var e := ImageExtensions[i];
      assert Lower(name)[|name| - 1] == e[|e| - 1];
    }
  }
}
