/**
 * The few `os.path` (posixpath) helpers the search-path logic of setup.py
 * relies on, written out over strings: `isabs`, two- and three-argument
 * `join`, `dirname`, the slice `s[1:]` and `s.rstrip(os.sep)`.
 * The separator `os.sep` is '/'.
 */
module PosixPath {

  import opened Wrappers

  const Sep: char := '/'

  predicate StartsWith(s: string, prefix: string) {
    |prefix| <= |s| && s[..|prefix|] == prefix
  }

  predicate EndsWithSep(s: string) {
    |s| > 0 && s[|s| - 1] == Sep
  }

  /** `os.path.isabs`: the path starts with the separator. */
  predicate IsAbs(s: string) {
    |s| > 0 && s[0] == Sep
  }

  /** The slice `s[1:]`, which is empty for the empty string. */
  function DropFirst(s: string): (r: string)
    ensures |s| > 0 ==> s == [s[0]] + r
    ensures |s| == 0 ==> r == ""
  {
    if |s| == 0 then "" else s[1..]
  }

  /**
   * `os.path.join(a, b)`: an absolute `b` replaces `a`; otherwise a
   * separator is put between them unless `a` is empty or already ends in one.
   */
  function Join(a: string, b: string): string {
    if IsAbs(b) then b
    else if a == "" || EndsWithSep(a) then a + b
    else a + [Sep] + b
  }

  /**
   * The joined path ends with its second part; it starts with the first
   * part unless the second is absolute, in which case it is the second.
   */
  lemma JoinParts(a: string, b: string)
    ensures var r := Join(a, b); |b| <= |r| && r[|r| - |b|..] == b
    ensures !IsAbs(b) ==> StartsWith(Join(a, b), a)
    ensures IsAbs(b) ==> Join(a, b) == b
  {
  }

  /** `os.path.join(a, b, c)`, which joins from the left. */
  function Join3(a: string, b: string, c: string): string {
    Join(Join(a, b), c)
  }

  /** `s.rstrip(os.sep)`: every trailing separator removed. */
  function RStripSep(s: string): (r: string)
    ensures StartsWith(s, r)
    ensures r == "" || r[|r| - 1] != Sep
    ensures forall j :: |r| <= j < |s| ==> s[j] == Sep
  {
    if s == "" || s[|s| - 1] != Sep then s else RStripSep(s[..|s| - 1])
  }

  /** The index of the last separator in `s` (`s.rfind(os.sep)`), if any. */
  function LastSep(s: string): (r: Option<nat>)
    ensures r.Some? ==> r.value < |s| && s[r.value] == Sep
    ensures r.Some? ==> forall j :: r.value < j < |s| ==> s[j] != Sep
    ensures r.None? ==> forall j :: 0 <= j < |s| ==> s[j] != Sep
  {
    if s == "" then None
    else if s[|s| - 1] == Sep then Some(|s| - 1)
    else LastSep(s[..|s| - 1])
  }

  predicate AllSep(s: string) {
    forall j :: 0 <= j < |s| ==> s[j] == Sep
  }

  /** `rstrip(os.sep)` empties a string made of separators only. */
  lemma {:induction false} RStripAllSep(s: string)
    requires AllSep(s)
    ensures RStripSep(s) == ""
    decreases |s|
  {
    if s != "" {
      RStripAllSep(s[..|s| - 1]);
    }
  }

  /**
   * `os.path.dirname`: everything up to and including the last separator,
   * with trailing separators removed unless that part consists of
   * separators only.
   */
  function Dirname(p: string): (r: string)
    ensures StartsWith(p, r)
    ensures (forall j :: 0 <= j < |p| ==> p[j] != Sep) ==> r == ""
  {
    var i := match LastSep(p) case None => 0 case Some(k) => k + 1;
    var head := p[..i];
    if head != "" && !AllSep(head) then RStripSep(head) else head
  }

  /**
   * The directory part of a joined path is the directory, trailing
   * separators stripped, whenever the file name is a plain name and the
   * directory is not made of separators only.
   */
  lemma DirnameOfJoin(d: string, f: string)
    requires !AllSep(d)
    requires f != "" && forall j :: 0 <= j < |f| ==> f[j] != Sep
    ensures Dirname(Join(d, f)) == RStripSep(d)
  {
    var p := Join(d, f);
    var head := if EndsWithSep(d) then d else d + [Sep];
    assert p == head + f;
    LastSepOfAppend(head, f);
    assert p[..|head|] == head;
    assert !AllSep(head);
    if !EndsWithSep(d) {
      assert head[..|head| - 1] == d;
    }
  }

  lemma LastSepOfAppend(head: string, f: string)
    requires EndsWithSep(head)
    requires forall j :: 0 <= j < |f| ==> f[j] != Sep
    ensures LastSep(head + f) == Some(|head| - 1)
  {
    var r := LastSep(head + f);
    assert (head + f)[|head| - 1] == Sep;
  }
}
