/** `os.path.join` and `os.path.splitext` as Python implements them for POSIX paths. */
module PosixPath {
  import opened Strings

  /**
   * `os.path.join(a, b)`: an absolute `b` replaces `a`; otherwise `b` is appended,
   * with a `/` in between unless `a` is empty or already ends with one.
   */
  function Join(a: string, b: string): (r: string)
    ensures EndsWith(r, b)
    ensures (b == [] || b[0] != '/') ==> |a| <= |r| && r[..|a|] == a
    ensures (b == [] || b[0] != '/') && a != [] && a[|a| - 1] != '/' ==> r == a + "/" + b
  {
    if b != [] && b[0] == '/' then b
    else if a == [] || a[|a| - 1] == '/' then a + b
    else a + "/" + b
  }

  /** There is a character other than `.` in `p[lo..hi]`. */
  predicate HasNonDot(p: string, lo: int, hi: int)
    requires -1 <= lo && hi <= |p|
  {
    exists k :: lo <= k < hi && 0 <= k && p[k] != '.'
  }

  /**
   * `os.path.splitext(p)`: the extension runs from the last `.` of the last path
   * component to the end, provided something other than dots comes before that
   * `.` in the component (leading dots do not start an extension); otherwise the
   * extension is empty.
   */
  function Splitext(p: string): (r: (string, string))
    ensures r.0 + r.1 == p
    ensures r.1 != [] <==> RFind(p, '.') > RFind(p, '/') && HasNonDot(p, RFind(p, '/') + 1, RFind(p, '.'))
    ensures r.1 != [] ==> r.1[0] == '.' && forall k :: 0 < k < |r.1| ==> r.1[k] != '.' && r.1[k] != '/'
  {
    var sepIndex := RFind(p, '/');
    var dotIndex := RFind(p, '.');
    if dotIndex > sepIndex && HasNonDot(p, sepIndex + 1, dotIndex) then
      assert p[..dotIndex] + p[dotIndex..] == p;
      (p[..dotIndex], p[dotIndex..])
    else (p, [])
  }

  /**
   * A name made of a stem with a non-dot character in its last component and a
   * suffix of one `.` followed by neither `.` nor `/` splits into exactly that
   * stem and that suffix.
   */
  lemma SplitextOfSuffix(stem: string, ext: string)
    requires ext != [] && ext[0] == '.' && forall k :: 0 < k < |ext| ==> ext[k] != '.' && ext[k] != '/'
    requires HasNonDot(stem, RFind(stem, '/') + 1, |stem|)
    ensures Splitext(stem + ext) == (stem, ext)
  {
    var p := stem + ext;
    LastDotAt(stem, ext);
    LastSlashIn(stem, ext);
    NonDotIn(stem, ext, RFind(stem, '/') + 1);
    assert p[..|stem|] == stem && p[|stem|..] == ext;
  }

  lemma LastDotAt(stem: string, ext: string)
    requires ext != [] && ext[0] == '.' && forall k :: 0 < k < |ext| ==> ext[k] != '.'
    ensures RFind(stem + ext, '.') == |stem|
  {
    var p := stem + ext;
    assert p[|stem|] == '.';
    assert forall k :: |stem| < k < |p| ==> p[k] == ext[k - |stem|];
  }

  lemma LastSlashIn(stem: string, ext: string)
    requires forall k :: 0 <= k < |ext| ==> ext[k] != '/'
    ensures RFind(stem + ext, '/') == RFind(stem, '/')
  {
    var p := stem + ext;
    assert forall k :: |stem| <= k < |p| ==> p[k] == ext[k - |stem|];
    assert forall k :: 0 <= k < |stem| ==> p[k] == stem[k];
  }

  lemma NonDotIn(stem: string, ext: string, lo: int)
    requires -1 <= lo && HasNonDot(stem, lo, |stem|)
    ensures HasNonDot(stem + ext, lo, |stem|)
  {
    var w :| lo <= w < |stem| && 0 <= w && stem[w] != '.';
    assert (stem + ext)[w] == stem[w];
  }
}
