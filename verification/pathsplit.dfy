/**
  Python's `os.path.splitext` on POSIX paths: the extension is the suffix that starts
  at the last '.' after the last '/', unless every character of the base name before
  that dot is itself a dot (so ".wav", "..wav" and "dir/.bashrc" have no extension).
 */
module PathSplit {

  /** The path separator and the extension separator of POSIX paths. */
  const Sep: char := '/'
  const ExtSep: char := '.'

  /** Index of the last occurrence of `c` in `s`, or -1 when there is none
      (Python's `str.rfind`). */
  function RFind(s: string, c: char): (i: int)
    ensures -1 <= i < |s|
    ensures 0 <= i ==> s[i] == c
    ensures forall j :: i < j < |s| ==> s[j] != c
  {
    if |s| == 0 then -1
    else if s[|s| - 1] == c then |s| - 1
    else RFind(s[..|s| - 1], c)
  }

  /** RFind's contract determines its result: `i` is the last occurrence of `c`. */
  lemma RFindIs(s: string, c: char, i: int)
    requires -1 <= i < |s|
    requires 0 <= i ==> s[i] == c
    requires forall j :: i < j < |s| ==> s[j] != c
    ensures RFind(s, c) == i
  {
  }

  /** The characters p[lo..hi] are all dots: the scan that skips the leading dots
      of the base name before deciding that there is an extension. */
  predicate OnlyDots(p: string, lo: int, hi: int)
    requires 0 <= lo <= hi <= |p|
    decreases hi - lo
  {
    lo == hi || (p[lo] == ExtSep && OnlyDots(p, lo + 1, hi))
  }

  /** Splits `p` into (root, ext) with root + ext == p. */
  function SplitExt(p: string): (r: (string, string))
    ensures r.0 + r.1 == p
    ensures r.1 == [] || IsExtension(r.1)
  {
    var sepIndex := RFind(p, Sep);
    var dotIndex := RFind(p, ExtSep);
    if dotIndex > sepIndex && !OnlyDots(p, sepIndex + 1, dotIndex) then
      (p[..dotIndex], p[dotIndex..])
    else
      (p, [])
  }

  /** `ext` has the shape of an extension: one leading dot, then neither dots nor
      separators. */
  predicate IsExtension(ext: string) {
    && |ext| > 0
    && ext[0] == ExtSep
    && (forall m :: 1 <= m < |ext| ==> ext[m] != ExtSep)
    && (forall m :: 0 <= m < |ext| ==> ext[m] != Sep)
  }

  /** No separator occurs in p at index `from` or later. */
  predicate NoSepFrom(p: string, from: int) {
    forall m :: 0 <= m < |p| && from <= m ==> p[m] != Sep
  }

  /** The base name of `root` (what follows its last separator) holds a character
      other than a dot. */
  ghost predicate BaseHasNonDot(root: string) {
    exists j :: 0 <= j < |root| && root[j] != ExtSep && NoSepFrom(root, j)
  }

  /** `p` has an extension: some dot of its base name is preceded, within that
      base name, by a character that is not a dot. */
  ghost predicate HasExtension(p: string) {
    exists k :: 0 <= k < |p| && p[k] == ExtSep && NoSepFrom(p, k) && BaseHasNonDot(p[..k])
  }

  lemma {:induction false} OnlyDotsMeans(p: string, lo: int, hi: int)
    requires 0 <= lo <= hi <= |p|
    ensures OnlyDots(p, lo, hi) <==> forall i :: lo <= i < hi ==> p[i] == ExtSep
    decreases hi - lo
  {
    if lo < hi {
      OnlyDotsMeans(p, lo + 1, hi);
    }
  }

  /** The extension is empty exactly when no dot of the base name follows a non-dot
      character of that base name; when it is not empty, the root left over still
      has a base name with a non-dot character. */
  lemma SplitExtNonEmptyIff(p: string)
    ensures SplitExt(p).1 != [] <==> HasExtension(p)
    ensures SplitExt(p).1 != [] ==> BaseHasNonDot(SplitExt(p).0)
  {
    var sepIndex := RFind(p, Sep);
    var dotIndex := RFind(p, ExtSep);
    if SplitExt(p).1 != [] {
      assert dotIndex > sepIndex && !OnlyDots(p, sepIndex + 1, dotIndex);
      OnlyDotsMeans(p, sepIndex + 1, dotIndex);
      var j :| sepIndex + 1 <= j < dotIndex && p[j] != ExtSep;
      var root := p[..dotIndex];
      assert root == SplitExt(p).0;
      assert root[j] == p[j];
      assert NoSepFrom(root, j);
      assert BaseHasNonDot(root);
    }
    if HasExtension(p) {
      var k :| 0 <= k < |p| && p[k] == ExtSep && NoSepFrom(p, k) && BaseHasNonDot(p[..k]);
      var j :| 0 <= j < k && p[..k][j] != ExtSep && NoSepFrom(p[..k], j);
      assert p[j] != ExtSep;
      assert k <= dotIndex;
      assert NoSepFrom(p, j);
      assert sepIndex < j;
      OnlyDotsMeans(p, sepIndex + 1, dotIndex);
    }
  }

  /** Splitting a root joined with an extension gives both back, provided the root's
      base name has a non-dot character: only the last dot-suffix is the extension. */
  lemma SplitExtOfJoin(root: string, ext: string)
    requires IsExtension(ext)
    requires BaseHasNonDot(root)
    ensures SplitExt(root + ext) == (root, ext)
  {
    var p := root + ext;
    var sepIndex := RFind(p, Sep);
    var dotIndex := RFind(p, ExtSep);
    var j :| 0 <= j < |root| && root[j] != ExtSep && NoSepFrom(root, j);
    assert p[|root|] == ExtSep;
    assert dotIndex == |root|;
    assert NoSepFrom(p, j);
    assert sepIndex < j;
    assert p[j] == root[j];
    OnlyDotsMeans(p, sepIndex + 1, dotIndex);
    assert p[..dotIndex] == root;
    assert p[dotIndex..] == ext;
  }
}
