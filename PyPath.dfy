/** The two `os.path` functions (POSIX flavour) whose results the scanner
    computes rather than asks the filesystem for: `join` and `splitext`. */
module PyPath {

  predicate IsAbsolute(p: string) {
    |p| > 0 && p[0] == '/'
  }

  /** `os.path.join(a, b)`: `b` replaces `a` when absolute; otherwise `b` is
      appended to `a`, with one `/` between them unless `a` is empty or
      already ends in `/`. */
  function Join(a: string, b: string): string {
    if IsAbsolute(b) then b
    else if a == [] || a[|a| - 1] == '/' then a + b
    else a + "/" + b
  }

  /** The joined path ends with `b`; a relative `b` keeps `a` in front. */
  lemma JoinShape(a: string, b: string)
    ensures var r := Join(a, b);
      && |r| >= |b| && r[|r| - |b|..] == b
      && (!IsAbsolute(b) ==> a <= r)
      && (!IsAbsolute(b) && a != [] && a[|a| - 1] != '/' ==> r == a + "/" + b)
  {
  }

  /** Joining one folder with two names that begin with the same character
      gives two different paths when the names differ. */
  lemma JoinInjective(a: string, b1: string, b2: string)
    requires |b1| > 0 && |b2| > 0 && b1[0] == b2[0]
    requires Join(a, b1) == Join(a, b2)
    ensures b1 == b2
  {
    var r := Join(a, b1);
    if !IsAbsolute(b1) {
      var prefix := if a == [] || a[|a| - 1] == '/' then a else a + "/";
      assert r == prefix + b1 && r == prefix + b2;
      assert b1 == r[|prefix|..] == b2;
    }
  }

  /** `s.rfind(c)`: the last position of `c` in `s`, or -1. */
  function RFind(s: string, c: char): (i: int)
    ensures -1 <= i < |s|
    ensures i >= 0 ==> s[i] == c
    ensures forall k :: i < k < |s| ==> s[k] != c
  {
    if s == [] then -1
    else if s[|s| - 1] == c then |s| - 1
    else RFind(s[..|s| - 1], c)
  }

  /** The stretch `p[from..to]` holds a character other than `.`. */
  predicate HasNonDot(p: string, from: int, to: int)
    requires 0 <= from <= to <= |p|
  {
    exists k :: from <= k < to && p[k] != '.'
  }

  /** `os.path.splitext(p)`: the extension runs from the last `.` of the
      last path component to the end, unless everything in that component
      before the dot is a dot itself (so `.png` and `..png` have none). */
  function SplitExt(p: string): (r: (string, string))
    ensures r.0 + r.1 == p
    ensures r.1 != [] ==> r.1[0] == '.' && '.' !in r.1[1..] && '/' !in r.1
    ensures r.1 != [] ==> HasNonDot(p, RFind(p, '/') + 1, |r.0|)
    ensures r.1 == [] ==> forall d :: RFind(p, '/') < d < |p| && p[d] == '.' ==> !HasNonDot(p, RFind(p, '/') + 1, d)
  {
    var sepIndex := RFind(p, '/');
    var dotIndex := RFind(p, '.');
    if dotIndex > sepIndex && HasNonDot(p, sepIndex + 1, dotIndex) then
      assert p[..dotIndex] + p[dotIndex..] == p;
      (p[..dotIndex], p[dotIndex..])
    else
      (p, [])
  }

  /** The extension of a plain file name is its last dot and what follows,
      with its case kept. */
  lemma ExtensionOfPlainName()
    ensures SplitExt("X.JPG") == ("X", ".JPG")
  {
    var p := "X.JPG";
    assert RFind(p, '/') == -1 by { assert '/' !in p; }
    assert RFind(p, '.') == 1 by {
      assert p[1] == '.' && p[2] != '.' && p[3] != '.' && p[4] != '.';
    }
    assert HasNonDot(p, 0, 1) by { assert p[0] != '.'; }
    assert p[..1] == "X";
  }

  /** Only the last suffix counts. */
  lemma ExtensionIsLastSuffix()
    ensures SplitExt("a.jpg.zip").1 == ".zip"
  {
    var p := "a.jpg.zip";
    assert RFind(p, '/') == -1 by { assert '/' !in p; }
    assert RFind(p, '.') == 5 by {
      assert p[5] == '.' && p[6] != '.' && p[7] != '.' && p[8] != '.';
    }
    assert HasNonDot(p, 0, 5) by { assert p[0] != '.'; }
  }

  /** A name made of dots and then a suffix, such as a hidden file, has no
      extension; neither has a name without a dot. */
  lemma NoExtensionExamples()
    ensures SplitExt(".png").1 == ""
    ensures SplitExt("..png").1 == ""
    ensures SplitExt("archive").1 == ""
  {
    assert RFind(".png", '.') == 0 by { assert ".png"[0] == '.'; }
    assert RFind("..png", '.') == 1 by { assert "..png"[1] == '.'; }
    assert !HasNonDot("..png", 0, 1) by { assert "..png"[0] == '.'; }
    assert RFind("archive", '.') == -1 by { assert '.' !in "archive"; }
  }
}
