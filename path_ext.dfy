/** The file-name rewrite `os.path.splitext(filename)[0] + '.mp3'` that the
    download task applies to the name the engine reports. `splitext` is the
    POSIX one: the separator is '/', the extension starts at the last '.'
    of the final path component, and leading dots of that component do not
    start an extension.
 */
module PathExt {

  /** `str.rfind(c)`: the index of the last occurrence of `c` in `p`, or -1. */
  function RFind(p: seq<char>, c: char): (r: int)
    ensures -1 <= r < |p|
    ensures r >= 0 ==> p[r] == c
    ensures forall j :: r < j < |p| ==> p[j] != c
  {
    if |p| == 0 then -1
    else if p[|p| - 1] == c then |p| - 1
    else RFind(p[..|p| - 1], c)
  }

  /** Some character of `p` at an index in `lo .. hi - 1` is not a dot. */
  predicate HasNonDot(p: seq<char>, lo: int, hi: int) {
    exists i :: lo <= i < hi && 0 <= i < |p| && p[i] != '.'
  }

  /** `os.path.splitext(p)`: the pair (root, extension). */
  function SplitExt(p: seq<char>): (parts: (seq<char>, seq<char>))
    ensures parts.0 + parts.1 == p
    ensures parts.1 == [] || parts.1[0] == '.'
  {
    var sepIndex := RFind(p, '/');
    var dotIndex := RFind(p, '.');
    // a dot after the last separator, preceded by some non-dot character of the component
    if dotIndex > sepIndex && HasNonDot(p, sepIndex + 1, dotIndex) then
      (p[..dotIndex], p[dotIndex..])
    else
      (p, [])
  }

  /** The rename on line 78 of the bot: drop the extension, append ".mp3". */
  function Mp3Name(filename: seq<char>): (r: seq<char>)
    ensures 4 <= |r| && r[|r| - 4..] == ".mp3"
    ensures r[..|r| - 4] <= filename
  {
    SplitExt(filename).0 + ".mp3"
  }

  // ---------------------------------------------------------------------
  // What a split means, stated without the algorithm
  // ---------------------------------------------------------------------

  /** The final component of `p` (after its last '/') has no dot that comes
      after a non-dot character of that component: `p` has no extension. */
  ghost predicate NoExtension(p: seq<char>) {
    forall i, j :: RFind(p, '/') < j < i < |p| && p[i] == '.' ==> p[j] == '.'
  }

  /** `ext` is an extension of `p` split off after `root`: it starts with a
      dot, holds no other dot and no separator, and the final component of
      `root` has a non-dot character. */
  ghost predicate IsExtension(p: seq<char>, root: seq<char>, ext: seq<char>) {
    root + ext == p
    && 0 < |ext| && ext[0] == '.'
    && (forall j :: 0 < j < |ext| ==> ext[j] != '.' && ext[j] != '/')
    && (exists j :: RFind(p, '/') < j < |root| && p[j] != '.')
  }

  /** (root, ext) is a correct answer of `splitext` for `p`. */
  ghost predicate ValidSplit(p: seq<char>, root: seq<char>, ext: seq<char>) {
    if ext == [] then root == p && NoExtension(p) else IsExtension(p, root, ext)
  }

  /** The final component of `root` has a character other than '.'. */
  ghost predicate HasStem(root: seq<char>) {
    exists j :: RFind(root, '/') < j < |root| && root[j] != '.'
  }

  // ---------------------------------------------------------------------
  // Properties
  // ---------------------------------------------------------------------

  /** Appending text without `c` does not move the last `c`. */
  lemma {:induction false} RFindAppend(p: seq<char>, q: seq<char>, c: char)
    requires forall j :: 0 <= j < |q| ==> q[j] != c
    ensures RFind(p + q, c) == RFind(p, c)
  {
    var s := RFind(p, c);
    forall j | s < j < |p + q|
      ensures (p + q)[j] != c
    {
      if j < |p| {
        assert (p + q)[j] == p[j];
      } else {
        assert (p + q)[j] == q[j - |p|];
      }
    }
    if s >= 0 {
      assert (p + q)[s] == p[s];
    }
  }

  /** `splitext` always returns a correct split. */
  lemma SplitExtValid(p: seq<char>)
    ensures ValidSplit(p, SplitExt(p).0, SplitExt(p).1)
  {
    var sepIndex := RFind(p, '/');
    var dotIndex := RFind(p, '.');
    if dotIndex > sepIndex && HasNonDot(p, sepIndex + 1, dotIndex) {
      var ext := p[dotIndex..];
      assert p[..dotIndex] + ext == p;
      forall j | 0 < j < |ext|
        ensures ext[j] != '.' && ext[j] != '/'
      {
        assert ext[j] == p[dotIndex + j];
      }
    } else {
      forall i, j | sepIndex < j < i < |p| && p[i] == '.'
        ensures p[j] == '.'
      {
        assert sepIndex + 1 <= j < i <= dotIndex;
      }
    }
  }

  /** ... and the only one: any correct split is the one `splitext` returns. */
  lemma SplitExtUnique(p: seq<char>, root: seq<char>, ext: seq<char>)
    requires ValidSplit(p, root, ext)
    ensures SplitExt(p) == (root, ext)
  {
    var sepIndex := RFind(p, '/');
    var dotIndex := RFind(p, '.');
    if ext != [] {
      var d := |root|;
      assert p[d] == ext[0] == '.';
      forall k | d < k < |p|
        ensures p[k] != '.' && p[k] != '/'
      {
        assert p[k] == ext[k - d];
      }
      assert dotIndex == d;
      assert sepIndex < d;
      var j :| RFind(p, '/') < j < |root| && p[j] != '.';
      assert HasNonDot(p, sepIndex + 1, dotIndex);
      assert p[..d] == root && p[d..] == ext;
    }
  }

  /** The new name is the root of any correct split followed by ".mp3". */
  lemma Mp3NameOfSplit(filename: seq<char>, root: seq<char>, ext: seq<char>)
    requires ValidSplit(filename, root, ext)
    ensures Mp3Name(filename) == root + ".mp3"
  {
    SplitExtUnique(filename, root, ext);
  }

  /** A name without an extension just gets ".mp3" appended. */
  lemma Mp3NameAppends(filename: seq<char>)
    requires NoExtension(filename)
    ensures Mp3Name(filename) == filename + ".mp3"
  {
    Mp3NameOfSplit(filename, filename, []);
  }

  /** A name with an extension has exactly that extension replaced. */
  lemma Mp3NameReplaces(filename: seq<char>, root: seq<char>, ext: seq<char>)
    requires IsExtension(filename, root, ext)
    ensures Mp3Name(filename) == root + ".mp3"
  {
    Mp3NameOfSplit(filename, root, ext);
  }

  /** The directory part is unchanged: the last '/' stays where it was, and
      everything up to it is the same. */
  lemma Mp3NameKeepsDirectory(filename: seq<char>)
    ensures var r := Mp3Name(filename);
      RFind(r, '/') == RFind(filename, '/')
      && r[..RFind(filename, '/') + 1] == filename[..RFind(filename, '/') + 1]
  {
    SplitExtValid(filename);
    var (root, ext) := SplitExt(filename);
    var mp3: seq<char> := ".mp3";
    RFindAppend(root, mp3, '/');
    if ext != [] {
      RFindAppend(root, ext, '/');
    }
    var d := RFind(filename, '/') + 1;
    assert d <= |root|;
    assert (root + mp3)[..d] == root[..d] == filename[..d];
  }

  /** Renaming twice is renaming once exactly when the root keeps a stem
      (otherwise, as for "dir/" or "..", the ".mp3" itself is no extension). */
  lemma Mp3NameIdempotent(filename: seq<char>)
    ensures Mp3Name(Mp3Name(filename)) == Mp3Name(filename) <==> HasStem(SplitExt(filename).0)
  {
    var root := SplitExt(filename).0;
    var mp3: seq<char> := ".mp3";
    var r := root + mp3;
    RFindAppend(root, mp3, '/');
    if HasStem(root) {
      var j :| RFind(root, '/') < j < |root| && root[j] != '.';
      assert r[j] == root[j];
      forall k | 0 < k < |mp3|
        ensures mp3[k] != '.' && mp3[k] != '/'
      {
      }
      assert IsExtension(r, root, mp3);
      Mp3NameOfSplit(r, root, mp3);
    } else {
      var dotIndex := RFind(r, '.');
      assert r[|root|] == '.';
      assert dotIndex == |root|;
      assert SplitExt(r) == (r, []);
    }
  }

  /** A title with an extension loses it. */
  lemma Mp3NameOfTitle()
    ensures Mp3Name("downloads/Song.webm") == "downloads/Song.mp3"
  {
    var p: seq<char> := "downloads/Song.webm";
    assert p[9] == '/' && p[10] == 'S';
    assert IsExtension(p, "downloads/Song", ".webm");
    Mp3NameReplaces(p, "downloads/Song", ".webm");
  }

  /** A dot-file has no extension. */
  lemma Mp3NameOfDotFile()
    ensures Mp3Name("downloads/.bashrc") == "downloads/.bashrc.mp3"
  {
    var q: seq<char> := "downloads/.bashrc";
    assert q[9] == '/' && RFind(q, '/') == 9;
    assert NoExtension(q);
    Mp3NameAppends(q);
  }

  /** A dot in a directory name is no extension. */
  lemma Mp3NameInDottedDirectory()
    ensures Mp3Name("v1.2/clip") == "v1.2/clip.mp3"
  {
    var r: seq<char> := "v1.2/clip";
    assert r[4] == '/' && RFind(r, '/') == 4;
    assert NoExtension(r);
    Mp3NameAppends(r);
  }
}
