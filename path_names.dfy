/**
 * How a voter's name is read off the file path the face matcher returns:
 * `os.path.splitext(os.path.basename(path))[0]` with Python's POSIX path rules
 * (separator '/', extension separator '.').
 *
 * The functions carry no quantified postconditions, so that callers elsewhere
 * see a cheap definition; what they compute is stated by the lemmas below them.
 */
module PathNames {

  /** `s.rfind(c)`: the index of the last occurrence of `c` in `s`, or -1. */
  function RFind(s: string, c: char): (r: int)
    ensures -1 <= r < |s|
    decreases |s|
  {
    if |s| == 0 then -1
    else if s[|s| - 1] == c then |s| - 1
    else RFind(s[..|s| - 1], c)
  }

  /** `os.path.basename`: everything after the last '/'. */
  function Basename(p: string): (base: string)
  {
    p[RFind(p, '/') + 1..]
  }

  /** Some character of `p[lo..hi]` is not a '.'. */
  predicate HasNonDot(p: string, lo: int, hi: int)
    requires 0 <= lo <= hi <= |p|
  {
    exists k :: lo <= k < hi && p[k] != '.'
  }

  /**
   * `os.path.splitext(p)[0]`: `p` without its extension. The extension starts at
   * the last '.' after the last '/', and only if some character before that dot
   * in the last component is not a '.' (so ".bashrc" and "..x" keep their dots).
   */
  function SplitExtRoot(p: string): (root: string)
  {
    var sep := RFind(p, '/');
    var dot := RFind(p, '.');
    if dot > sep && HasNonDot(p, sep + 1, dot) then p[..dot] else p
  }

  /** The voter name for a gallery file: the base name without its extension. */
  function NameFromPath(path: string): (name: string)
  {
    SplitExtRoot(Basename(path))
  }

  /** `RFind` finds the last `c`: it is a `c`, and none comes after it. */
  lemma {:induction false} RFindIsLast(s: string, c: char)
    ensures RFind(s, c) >= 0 ==> s[RFind(s, c)] == c
    ensures forall k :: RFind(s, c) < k < |s| ==> s[k] != c
    decreases |s|
  {
    if |s| > 0 && s[|s| - 1] != c {
      RFindIsLast(s[..|s| - 1], c);
    }
  }

  /** The base name is the tail of the path after its last '/', and holds no '/'. */
  lemma BasenameIsLastComponent(p: string)
    ensures |Basename(p)| <= |p| && Basename(p) == p[|p| - |Basename(p)|..]
    ensures '/' !in Basename(p)
    ensures |Basename(p)| < |p| ==> p[|p| - |Basename(p)| - 1] == '/'
  {
    RFindIsLast(p, '/');
    var i := RFind(p, '/') + 1;
    assert forall k :: 0 <= k < |p[i..]| ==> p[i..][k] == p[i + k];
  }

  /**
   * The root is a prefix of the name; when it is shorter, what was cut off starts
   * at a '.', holds no other '.', and no '/'.
   */
  lemma SplitExtRootIsPrefix(p: string)
    ensures |SplitExtRoot(p)| <= |p| && SplitExtRoot(p) == p[..|SplitExtRoot(p)|]
    ensures SplitExtRoot(p) != p ==>
      var n := |SplitExtRoot(p)|;
      p[n] == '.' && '.' !in p[n + 1..] && '/' !in p[n..]
  {
    RFindIsLast(p, '/');
    RFindIsLast(p, '.');
    var sep := RFind(p, '/');
    var dot := RFind(p, '.');
    if dot > sep && HasNonDot(p, sep + 1, dot) {
      assert forall k :: dot < k < |p| ==> p[k] != '.' && p[k] != '/';
    }
  }

  /** A voter name never holds a '/', and is the start of the path's last component. */
  lemma NameFromPathIsPiece(path: string)
    ensures '/' !in NameFromPath(path)
    ensures var i := |path| - |Basename(path)|;
      0 <= i <= i + |NameFromPath(path)| <= |path| && NameFromPath(path) == path[i..i + |NameFromPath(path)|]
  {
    var b := Basename(path);
    var name := NameFromPath(path);
    BasenameIsLastComponent(path);
    SplitExtRootIsPrefix(b);
    assert forall k :: 0 <= k < |name| ==> name[k] == b[k];
    var i := |path| - |b|;
    assert name == path[i..i + |name|];
  }

  /** The last `c` of `s + [c] + t` is the one between them when `t` has none. */
  lemma RFindAfter(s: string, c: char, t: string)
    requires c !in t
    ensures RFind(s + [c] + t, c) == |s|
  {
    var u := s + [c] + t;
    RFindIsLast(u, c);
    assert u[|s|] == c;
    assert RFind(u, c) >= |s|;
  }

  /** A string without `c` has none to find. */
  lemma RFindAbsent(s: string, c: char)
    requires c !in s
    ensures RFind(s, c) == -1
  {
    RFindIsLast(s, c);
  }

  /** `os.path.basename` drops a leading directory part that ends in '/'. */
  lemma BasenameAfterDir(dir: string, file: string)
    requires dir == [] || dir[|dir| - 1] == '/'
    requires '/' !in file
    ensures Basename(dir + file) == file
  {
    if dir == [] {
      assert dir + file == file;
      RFindAbsent(file, '/');
    } else {
      assert dir + file == dir[..|dir| - 1] + ['/'] + file;
      RFindAfter(dir[..|dir| - 1], '/', file);
    }
  }

  /** `os.path.splitext("stem.ext")[0]` is "stem" when the stem is not all dots. */
  lemma RootOfStemDotExt(stem: string, ext: string)
    requires '/' !in stem && '/' !in ext && '.' !in ext
    requires exists k :: 0 <= k < |stem| && stem[k] != '.'
    ensures SplitExtRoot(stem + "." + ext) == stem
  {
    var file := stem + "." + ext;
    assert file == stem + ['.'] + ext;
    RFindAfter(stem, '.', ext);
    RFindAbsent(file, '/');
    var k :| 0 <= k < |stem| && stem[k] != '.';
    assert file[k] == stem[k];
    assert HasNonDot(file, 0, |stem|);
    assert file[..|stem|] == stem;
  }

  /**
   * A gallery file `dir/stem.ext` is read back as `stem`, provided the stem is
   * not made of dots only and the extension holds no further dot.
   */
  lemma NameOfGalleryFile(dir: string, stem: string, ext: string)
    requires dir == [] || dir[|dir| - 1] == '/'
    requires '/' !in stem && '/' !in ext && '.' !in ext
    requires exists k :: 0 <= k < |stem| && stem[k] != '.'
    ensures NameFromPath(dir + stem + "." + ext) == stem
  {
    var file := stem + "." + ext;
    assert dir + stem + "." + ext == dir + file;
    BasenameAfterDir(dir, file);
    RootOfStemDotExt(stem, ext);
  }

  /** A file name without any dot is its own voter name. */
  lemma NameOfFileWithoutExtension(dir: string, stem: string)
    requires dir == [] || dir[|dir| - 1] == '/'
    requires '/' !in stem && '.' !in stem
    ensures NameFromPath(dir + stem) == stem
  {
    BasenameAfterDir(dir, stem);
    RFindAbsent(stem, '.');
  }

  /** A name made of dots only (such as "..") keeps all of it. */
  lemma NameOfDotsOnlyFile(dir: string, dots: string)
    requires dir == [] || dir[|dir| - 1] == '/'
    requires forall k :: 0 <= k < |dots| ==> dots[k] == '.'
    ensures NameFromPath(dir + dots) == dots
  {
    BasenameAfterDir(dir, dots);
  }

  /**
   * A hidden file `dir/dots.ext` (such as "faces/.jpg" or "..x") keeps its whole
   * file name: its only non-dot characters come after its last dot, so Python's
   * `splitext` finds no extension.
   */
  lemma NameOfHiddenFile(dir: string, dots: string, ext: string)
    requires dir == [] || dir[|dir| - 1] == '/'
    requires forall k :: 0 <= k < |dots| ==> dots[k] == '.'
    requires '/' !in ext && '.' !in ext
    ensures NameFromPath(dir + dots + "." + ext) == dots + "." + ext
  {
    var file := dots + "." + ext;
    assert dir + dots + "." + ext == dir + file;
    assert '/' !in file by {
      assert forall k :: 0 <= k < |file| ==> file[k] != '/' by {
        forall k | 0 <= k < |file| ensures file[k] != '/' {
          if k < |dots| { assert file[k] == dots[k]; }
          else if k > |dots| { assert file[k] == ext[k - |dots| - 1]; }
        }
      }
    }
    BasenameAfterDir(dir, file);
    assert file == dots + ['.'] + ext;
    RFindAfter(dots, '.', ext);
    RFindAbsent(file, '/');
    assert !HasNonDot(file, 0, |dots|) by {
      forall k | 0 <= k < |dots| ensures file[k] == '.' {
        assert file[k] == dots[k];
      }
    }
  }
}
