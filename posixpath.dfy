/**
  `os.path.splitext` on a POSIX host: a path splits into a root and an
  extension at the last `.` of its last component (the text after the last
  `/`), unless everything in that component before the dot is a dot itself
  (`.bashrc`, `..pdf`), in which case the extension is empty.
*/
module PosixPath {

  /** Index of the last occurrence of `c` in `s`, or -1 when there is none. */
  function LastIndex(s: string, c: char): (r: int)
    ensures -1 <= r < |s|
    ensures r >= 0 ==> s[r] == c
    ensures forall k :: r < k < |s| ==> s[k] != c
  {
    if s == [] then -1
    else if s[|s| - 1] == c then |s| - 1
    else LastIndex(s[..|s| - 1], c)
  }

  /** Some character of `s[lo..hi]` is not a dot. */
  predicate HasNonDot(s: string, lo: int, hi: int)
    requires 0 <= lo && hi <= |s|
  {
    exists k :: lo <= k < hi && s[k] != '.'
  }

  /** Start of the last path component. */
  function ComponentStart(p: string): (r: nat)
    ensures r <= |p|
    ensures forall k :: r <= k < |p| ==> p[k] != '/'
    ensures r > 0 ==> p[r - 1] == '/'
  {
    LastIndex(p, '/') + 1
  }

  /**
    The split `(root, ext)`. An extension, when there is one, is a dot and the
    characters after it, none a dot or a slash, and the root keeps a non-dot
    character of the last component; when there is none, no dot of the last
    component has a non-dot character before it in that component.
  */
  function SplitExt(p: string): (r: (string, string))
    ensures r.0 + r.1 == p
    ensures r.1 != [] ==> r.1[0] == '.'
    ensures forall k :: 0 < k < |r.1| ==> r.1[k] != '.' && r.1[k] != '/'
    ensures r.1 != [] ==> ComponentStart(p) <= |r.0| && HasNonDot(p, ComponentStart(p), |r.0|)
    ensures r.1 == [] ==>
      forall d :: ComponentStart(p) <= d < |p| && p[d] == '.' ==> !HasNonDot(p, ComponentStart(p), d)
  {
    var start := ComponentStart(p);
    var dot := LastIndex(p, '.');
    if dot >= start && HasNonDot(p, start, dot) then
      assert p == p[..dot] + p[dot..];
      (p[..dot], p[dot..])
    else
      NoExtension(p, start, dot);
      (p, [])
  }

  /** Without a split point, no dot of the last component follows a non-dot of it. */
  lemma NoExtension(p: string, start: nat, dot: int)
    requires start == ComponentStart(p) && dot == LastIndex(p, '.')
    requires !(dot >= start && HasNonDot(p, start, dot))
    ensures forall d :: start <= d < |p| && p[d] == '.' ==> !HasNonDot(p, start, d)
  {
    forall d | start <= d < |p| && p[d] == '.'
      ensures HasNonDot(p, start, d) ==> dot >= start && HasNonDot(p, start, dot)
    {
      assert d <= dot;
    }
  }

  /** The root of `p`: what `os.path.splitext(p)[0]` returns. */
  function Stem(p: string): (r: string)
    ensures r <= p
  {
    SplitExt(p).0
  }

  /** The split is the only one with the properties `SplitExt` promises. */
  lemma SplitExtUnique(p: string, root: string, ext: string)
    requires root + ext == p
    requires ext != [] ==> ext[0] == '.'
    requires forall k :: 0 < k < |ext| ==> ext[k] != '.' && ext[k] != '/'
    requires ext != [] ==> ComponentStart(p) <= |root| && HasNonDot(p, ComponentStart(p), |root|)
    requires ext == [] ==>
      forall d :: ComponentStart(p) <= d < |p| && p[d] == '.' ==> !HasNonDot(p, ComponentStart(p), d)
    ensures SplitExt(p) == (root, ext)
  {
    if ext != [] {
      forall k | |root| < k < |p| ensures p[k] != '.' {
        assert p[k] == ext[k - |root|];
      }
      LastIndexAt(p, '.', |root|);
      assert p[..|root|] == root && p[|root|..] == ext;
    } else {
      var start, dot := ComponentStart(p), LastIndex(p, '.');
      assert dot >= start ==> !HasNonDot(p, start, dot);
      assert root + ext == root;
    }
  }

  /** `i` is the last position of `c` in `s`. */
  lemma LastIndexAt(s: string, c: char, i: int)
    requires -1 <= i < |s|
    requires i >= 0 ==> s[i] == c
    requires forall k :: i < k < |s| ==> s[k] != c
    ensures LastIndex(s, c) == i
  {
  }

  lemma SplitExtExamples()
    ensures SplitExt("report.pdf") == ("report", ".pdf")
    ensures SplitExt("a.tar.gz") == ("a.tar", ".gz")
    ensures SplitExt("notes") == ("notes", "")
    ensures SplitExt(".bashrc") == (".bashrc", "")
    ensures SplitExt("..pdf") == ("..pdf", "")
    ensures SplitExt("dir.d/file") == ("dir.d/file", "")
  {
    LastIndexAt("report.pdf", '/', -1);
    assert "report.pdf"[0] != '.';
    SplitExtUnique("report.pdf", "report", ".pdf");
    LastIndexAt("a.tar.gz", '/', -1);
    assert "a.tar.gz"[0] != '.';
    SplitExtUnique("a.tar.gz", "a.tar", ".gz");
    LastIndexAt("notes", '/', -1);
    SplitExtUnique("notes", "notes", "");
    LastIndexAt(".bashrc", '/', -1);
    SplitExtUnique(".bashrc", ".bashrc", "");
    LastIndexAt("..pdf", '/', -1);
    SplitExtUnique("..pdf", "..pdf", "");
    LastIndexAt("dir.d/file", '/', 5);
    SplitExtUnique("dir.d/file", "dir.d/file", "");
  }
}
