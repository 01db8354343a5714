/** The file-name side of the catalog: pathlib's final component and suffix
    of a POSIX path, and the image extension allow-list. */
module Paths {
  import opened Text

  /** The extensions the gallery shows, lower-case and with their dot. */
  const AllowedExts: set<string> := {".jpg", ".jpeg", ".png", ".gif", ".bmp", ".webp", ".tif", ".tiff"}

  /** `s.rfind(c)`: the last index holding `c`, or -1 when there is none. */
  function LastIndexOf(s: string, c: char): (k: int)
    ensures -1 <= k < |s|
    ensures k >= 0 ==> s[k] == c
    ensures forall j :: k < j < |s| ==> s[j] != c
  {
    if s == [] then -1
    else if s[|s| - 1] == c then |s| - 1
    else LastIndexOf(s[..|s| - 1], c)
  }

  /** `PurePosixPath(s).name`: the last component that is neither empty nor
      `.`, or the empty string when there is none. */
  function BaseName(s: string): (b: string)
    ensures |b| <= |s|
    ensures '/' !in b && b != "."
    decreases |s|
  {
    var k := LastIndexOf(s, '/');
    var seg := s[k + 1..];
    if seg != [] && seg != "." then seg
    else if k < 0 then []
    else BaseName(s[..k])
  }

  /** A plain component names itself. */
  lemma BaseNameOfComponent(s: string)
    requires '/' !in s && s != [] && s != "."
    ensures BaseName(s) == s
  {
    assert LastIndexOf(s, '/') == -1;
  }

  /** The name of a path is its part after the last slash, when that part
      is a plain component (`photos/a.jpg` names `a.jpg`). */
  lemma BaseNameOfPath(d: string, n: string)
    requires '/' !in n && n != [] && n != "."
    ensures BaseName(d + "/" + n) == n
  {
    var s := d + "/" + n;
    assert s[|d|] == '/';
    forall j | |d| < j < |s|
      ensures s[j] != '/'
    {
      assert s[j] == n[j - |d| - 1];
    }
    assert LastIndexOf(s, '/') == |d|;
    assert s[|d| + 1..] == n;
  }

  /** `PurePath(name).suffix` of a final component: from the last dot on,
      provided that dot is neither the first nor the last character. */
  function Suffix(name: string): (x: string)
    ensures x == [] || (|x| >= 2 && |x| < |name| && x == name[|name| - |x|..])
    ensures x != [] ==> x[0] == '.' && '.' !in x[1..]
  {
    var i := LastIndexOf(name, '.');
    if 0 < i < |name| - 1 then name[i..] else []
  }

  /** `is_allowed(filename)`: the lower-cased suffix is an allowed extension. */
  predicate IsAllowed(filename: string) {
    Lower(Suffix(BaseName(filename))) in AllowedExts
  }

  /** Every allowed extension is a dot followed by dot-free text. */
  lemma AllowedExtsShape(e: string)
    requires e in AllowedExts
    ensures |e| >= 2 && e[0] == '.' && '.' !in e[1..] && '/' !in e
  {
  }

  /** A file is allowed exactly when its final component splits into a
      non-empty stem and a tail that, lower-cased, is an allowed extension;
      so only the last extension counts and letter case does not. */
  lemma IsAllowedIff(filename: string)
    ensures IsAllowed(filename) <==>
      exists k :: 0 < k < |BaseName(filename)| && Lower(BaseName(filename)[k..]) in AllowedExts
  {
    var b := BaseName(filename);
    var i := LastIndexOf(b, '.');
    if IsAllowed(filename) {
      assert Suffix(b) == b[i..];
      assert 0 < i < |b| && Lower(b[i..]) in AllowedExts;
    }
    forall k | 0 < k < |b| && Lower(b[k..]) in AllowedExts
      ensures IsAllowed(filename)
    {
      TailIsSuffix(b, k);
    }
  }

  /** If the tail of `b` from `k` on lower-cases to an allowed extension,
      that tail is `b`'s suffix. */
  lemma TailIsSuffix(b: string, k: int)
    requires 0 < k < |b| && Lower(b[k..]) in AllowedExts
    ensures Suffix(b) == b[k..]
  {
    var t := b[k..];
    AllowedExtsShape(Lower(t));
    LowerKeepsPunctuation(t, 0);
    assert b[k] == '.';
    forall j | k < j < |b|
      ensures b[j] != '.'
    {
      LowerKeepsPunctuation(t, j - k);
      assert Lower(t)[j - k] in Lower(t)[1..];
    }
    var i := LastIndexOf(b, '.');
    assert i == k;
  }

  /** Any stem followed by an extension whose lower-case form is allowed is
      accepted, whatever the letter case. */
  lemma AllowedByExtension(stem: string, ext: string)
    requires stem != [] && '/' !in stem
    requires Lower(ext) in AllowedExts
    ensures IsAllowed(stem + ext)
  {
    var name := stem + ext;
    AllowedExtsShape(Lower(ext));
    forall j | 0 <= j < |ext|
      ensures ext[j] != '/'
    {
      LowerKeepsPunctuation(ext, j);
      assert Lower(ext)[j] in Lower(ext);
    }
    assert '/' !in name by {
      forall j | 0 <= j < |name|
        ensures name[j] != '/'
      {
        if j >= |stem| {
          assert name[j] == ext[j - |stem|];
        } else {
          assert name[j] == stem[j];
        }
      }
    }
    BaseNameOfComponent(name);
    assert name[|stem|..] == ext;
    IsAllowedIff(name);
  }

  /** `rfind` pinned down by its postcondition: the dot at `k` with none after it. */
  lemma LastDotAt(s: string, k: int)
    requires 0 <= k < |s| && s[k] == '.'
    requires forall j :: k < j < |s| ==> s[j] != '.'
    ensures LastIndexOf(s, '.') == k
  {
  }

  /** A stem followed by a dot-led, dot-free extension has that extension
      as its suffix. */
  lemma SuffixOfStemAndExtension(stem: string, ext: string)
    requires stem != []
    requires |ext| >= 2 && ext[0] == '.' && '.' !in ext[1..]
    ensures Suffix(stem + ext) == ext
  {
    var name := stem + ext;
    forall j | |stem| < j < |name|
      ensures name[j] != '.'
    {
      assert name[j] == ext[1..][j - |stem| - 1];
    }
    LastDotAt(name, |stem|);
    assert name[|stem|..] == ext;
  }

  /** A name whose last extension is not on the list is refused, whatever
      extensions come before it (`x.jpg.txt`). */
  lemma RefusedByExtension(stem: string, ext: string)
    requires stem != [] && '/' !in stem + ext
    requires |ext| >= 2 && ext[0] == '.' && '.' !in ext[1..]
    requires Lower(ext) !in AllowedExts
    ensures !IsAllowed(stem + ext)
  {
    BaseNameOfComponent(stem + ext);
    SuffixOfStemAndExtension(stem, ext);
  }

  /** A name without a suffix is refused. */
  lemma NoSuffixRefused(filename: string)
    requires Suffix(BaseName(filename)) == []
    ensures !IsAllowed(filename)
  {
    assert Lower([]) == [];
  }

  /** A dot followed by dot-free text has no suffix: its only dot leads. */
  lemma NoSuffixAfterLeadingDot(name: string)
    requires |name| > 1 && name[0] == '.' && '.' !in name[1..]
    ensures Suffix(name) == []
  {
    forall j | 0 < j < |name|
      ensures name[j] != '.'
    {
      assert name[j] == name[1..][j - 1];
    }
    LastDotAt(name, 0);
  }

  /** A hidden file that is only a dot and an extension (`.jpg`) has no
      suffix in pathlib's sense and is refused. */
  lemma RefusedBareExtension(name: string)
    requires name != [] && name[0] == '.' && '.' !in name[1..] && '/' !in name
    ensures !IsAllowed(name)
  {
    if |name| == 1 {
      assert LastIndexOf(name, '/') == -1;
      assert BaseName(name) == [];
    } else {
      BaseNameOfComponent(name);
      NoSuffixAfterLeadingDot(name);
    }
    NoSuffixRefused(name);
  }

  /** `A.JPG` is shown. */
  lemma AllowedUpperJpg(name: string)
    requires name == "A.JPG"
    ensures IsAllowed(name)
  {
    var ext := ".JPG";
    assert Lower(ext) == ".jpg";
    assert name == "A" + ext;
    AllowedByExtension("A", ext);
  }

  /** `b.jpeg` is shown. */
  lemma AllowedLowerJpeg(name: string)
    requires name == "b.jpeg"
    ensures IsAllowed(name)
  {
    var ext := ".jpeg";
    assert Lower(ext) == ".jpeg";
    assert name == "b" + ext;
    AllowedByExtension("b", ext);
  }

  /** `c.txt` is not shown. */
  lemma RefusedTxt(name: string)
    requires name == "c.txt"
    ensures !IsAllowed(name)
  {
    var ext := ".txt";
    assert '.' !in ext[1..];
    assert Lower(ext) == ".txt";
    assert name == "c" + ext;
    assert '/' !in name;
    RefusedByExtension("c", ext);
  }

  /** `x.jpg.txt` is not shown: only the last extension counts. */
  lemma RefusedDoubleExtension(name: string)
    requires name == "x.jpg.txt"
    ensures !IsAllowed(name)
  {
    var ext := ".txt";
    assert '.' !in ext[1..];
    assert Lower(ext) == ".txt";
    assert name == "x.jpg" + ext;
    assert '/' !in name;
    RefusedByExtension("x.jpg", ext);
  }
}
