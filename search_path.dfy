/**
 * Search-directory lists and `add_dir_to_list` (setup.py:48-61), together
 * with the loop of `detect_modules` that feeds the `-R`, `-L` and `-I`
 * directories of LDFLAGS and CPPFLAGS into those lists in reverse order
 * (setup.py:566-568).
 *
 * A directory is added at most once and only if it is an existing
 * directory (`isDir` stands for `os.path.isdir`). It goes right after the
 * FIRST relative entry of the list, or to the front when every entry is
 * absolute. The docstring says "(after and relative directories)", read
 * as "after any relative directories"; the code does what is modelled
 * here, and `DocstringOrderDoesNotHold` shows a list on which the two
 * differ.
 */
module SearchPath {

  import opened Wrappers
  import opened PosixPath

  /** The index of the first relative (non-absolute) entry, if any. */
  function FirstRelative(list: seq<string>): (r: Option<nat>)
    ensures r.Some? ==> r.value < |list| && !IsAbs(list[r.value])
    ensures r.Some? ==> forall j :: 0 <= j < r.value ==> IsAbs(list[j])
    ensures r.None? ==> forall j :: 0 <= j < |list| ==> IsAbs(list[j])
  {
    if list == [] then None
    else if !IsAbs(list[0]) then Some(0)
    else match FirstRelative(list[1..])
      case None => None
      case Some(i) => Some(i + 1)
  }

  /** Where `add_dir_to_list` inserts: after the first relative entry, else at 0. */
  function InsertPosition(list: seq<string>): (p: nat)
    ensures p <= |list|
    ensures forall j :: 0 <= j < p - 1 ==> IsAbs(list[j])
    ensures p > 0 ==> !IsAbs(list[p - 1])
    ensures p == 0 ==> forall j :: 0 <= j < |list| ==> IsAbs(list[j])
  {
    match FirstRelative(list)
    case None => 0
    case Some(i) => i + 1
  }

  /** The three conditions under which `add_dir_to_list` changes its list. */
  predicate WillAdd(list: seq<string>, dir: Option<string>, isDir: set<string>) {
    dir.Some? && dir.value in isDir && dir.value !in list
  }

  /** The list `add_dir_to_list(list, dir)` leaves behind. */
  function AddDirToList(list: seq<string>, dir: Option<string>, isDir: set<string>): (r: seq<string>)
    ensures !WillAdd(list, dir, isDir) ==> r == list
    ensures WillAdd(list, dir, isDir) ==>
      |r| == |list| + 1 && multiset(r) == multiset(list) + multiset{dir.value}
    ensures forall x :: x in r <==> x in list || (WillAdd(list, dir, isDir) && x == dir.value)
  {
    if !WillAdd(list, dir, isDir) then list
    else
      var p := InsertPosition(list);
      assert list == list[..p] + list[p..];
      list[..p] + [dir.value] + list[p..]
  }

  predicate Distinct(s: seq<string>) {
    forall i, j :: 0 <= i < j < |s| ==> s[i] != s[j]
  }

  /** A list whose entries are all absolute gets the new directory at its front. */
  lemma AddDirAtFront(list: seq<string>, dir: string, isDir: set<string>)
    requires dir in isDir && dir !in list
    requires forall j :: 0 <= j < |list| ==> IsAbs(list[j])
    ensures AddDirToList(list, Some(dir), isDir) == [dir] + list
  {
  }

  /**
   * When entry `i` is the first relative one, the new directory lands at
   * index `i + 1` and every old entry keeps its relative order.
   */
  lemma AddDirAfterFirstRelative(list: seq<string>, dir: string, isDir: set<string>, i: nat)
    requires dir in isDir && dir !in list
    requires i < |list| && !IsAbs(list[i])
    requires forall j :: 0 <= j < i ==> IsAbs(list[j])
    ensures AddDirToList(list, Some(dir), isDir) == list[..i + 1] + [dir] + list[i + 1..]
  {
  }

  /** Adding the same directory a second time changes nothing. */
  lemma AddDirIdempotent(list: seq<string>, dir: Option<string>, isDir: set<string>)
    ensures AddDirToList(AddDirToList(list, dir, isDir), dir, isDir) == AddDirToList(list, dir, isDir)
  {
  }

  /** A list without duplicates stays without duplicates. */
  lemma AddDirKeepsDistinct(list: seq<string>, dir: Option<string>, isDir: set<string>)
    requires Distinct(list)
    ensures Distinct(AddDirToList(list, dir, isDir))
  {
    if WillAdd(list, dir, isDir) {
      var p := InsertPosition(list);
      assert list == list[..p] + list[p..];
      DistinctInsert(list[..p], dir.value, list[p..]);
    }
  }

  lemma DistinctInsert(a: seq<string>, x: string, b: seq<string>)
    requires Distinct(a + b) && x !in a + b
    ensures Distinct(a + [x] + b)
  {
    var s, r := a + b, a + [x] + b;
    forall i, j | 0 <= i < j < |r| ensures r[i] != r[j] {
      if j < |a| {
        assert r[i] == s[i] && r[j] == s[j];
      } else if |a| < i {
        assert r[i] == s[i - 1] && r[j] == s[j - 1];
      } else if i < |a| < j {
        assert r[i] == s[i] && r[j] == s[j - 1];
      } else if i == |a| {
        assert r[j] == s[j - 1];
      } else {
        assert r[i] == s[i];
      }
    }
  }

  /**
   * With '.' and 'Include' at the front (the local build directories that
   * setup.py:540-542 wants first), a new absolute directory goes between
   * them rather than after both.
   */
  lemma DocstringOrderDoesNotHold(isDir: set<string>)
    requires "/usr/local/include" in isDir
    ensures AddDirToList([".", "Include"], Some("/usr/local/include"), isDir)
         == [".", "/usr/local/include", "Include"]
  {
    AddDirAfterFirstRelative([".", "Include"], "/usr/local/include", isDir, 0);
  }

  /**
   * `for directory in reversed(dirs): add_dir_to_list(list, directory)`:
   * the last flag directory is added first and `dirs[0]` last.
   */
  function AddReversed(list: seq<string>, dirs: seq<string>, isDir: set<string>): (r: seq<string>)
    ensures forall x :: x in list ==> x in r
    ensures forall x :: x in r ==> x in list || x in dirs
    ensures |list| <= |r| <= |list| + |dirs|
  {
    if dirs == [] then list
    else AddDirToList(AddReversed(list, dirs[1..], isDir), Some(dirs[0]), isDir)
  }

  /** Inserting absolute entries, or anything after a relative one, leaves the insert position where it was. */
  lemma InsertPositionStable(list: seq<string>, mid: seq<string>)
    requires FirstRelative(list).None? ==> forall k :: 0 <= k < |mid| ==> IsAbs(mid[k])
    ensures var p := InsertPosition(list);
      InsertPosition(list[..p] + mid + list[p..]) == p
  {
    var p := InsertPosition(list);
    var m := list[..p] + mid + list[p..];
    if FirstRelative(list).None? {
      forall j | 0 <= j < |m| ensures IsAbs(m[j]) {
        if j >= |mid| { assert m[j] == list[j - |mid|]; } else { assert m[j] == mid[j]; }
      }
    } else {
      var i := FirstRelative(list).value;
      assert m[i] == list[i];
      assert forall j :: 0 <= j < i ==> m[j] == list[j];
    }
  }

  /**
   * Distinct, existing flag directories that are not yet in the list end
   * up side by side, in their order on the command line, at the position
   * `add_dir_to_list` uses. When the list has no relative entry this is
   * proved when every flag directory is absolute; `LastRelativeFlagFirst`
   * covers relative flag directories there.
   */
  lemma {:induction false} FlagDirsContiguous(list: seq<string>, dirs: seq<string>, isDir: set<string>)
    requires Distinct(dirs)
    requires forall k :: 0 <= k < |dirs| ==> dirs[k] in isDir && dirs[k] !in list
    requires FirstRelative(list).None? ==> forall k :: 0 <= k < |dirs| ==> IsAbs(dirs[k])
    ensures var p := InsertPosition(list);
      AddReversed(list, dirs, isDir) == list[..p] + dirs + list[p..]
  {
    var p := InsertPosition(list);
    if dirs == [] {
      assert list[..p] + list[p..] == list;
    } else {
      var rest := dirs[1..];
      assert Distinct(rest) by {
        forall i, j | 0 <= i < j < |rest| ensures rest[i] != rest[j] {
          assert rest[i] == dirs[i + 1] && rest[j] == dirs[j + 1];
        }
      }
      FlagDirsContiguous(list, rest, isDir);
      InsertPositionStable(list, rest);
      AddFirstFlagDir(list, dirs, isDir);
    }
  }

  /** The induction step of `FlagDirsContiguous`: `dirs[0]` goes in front of the others. */
  lemma AddFirstFlagDir(list: seq<string>, dirs: seq<string>, isDir: set<string>)
    requires |dirs| > 0 && Distinct(dirs)
    requires forall k :: 0 <= k < |dirs| ==> dirs[k] in isDir && dirs[k] !in list
    requires var p := InsertPosition(list);
      InsertPosition(list[..p] + dirs[1..] + list[p..]) == p
    ensures var p := InsertPosition(list);
      AddDirToList(list[..p] + dirs[1..] + list[p..], Some(dirs[0]), isDir) == list[..p] + dirs + list[p..]
  {
    var p := InsertPosition(list);
    var rest := dirs[1..];
    var m := list[..p] + rest + list[p..];
    var d := dirs[0];
    calc {
      AddDirToList(m, Some(d), isDir);
    == { assert d !in rest;
         assert d !in list;
         assert WillAdd(m, Some(d), isDir); }
      m[..p] + [d] + m[p..];
    == { assert m[..p] == list[..p];
         assert m[p..] == rest + list[p..]; }
      list[..p] + [d] + (rest + list[p..]);
    == { assert [d] + rest == dirs; }
      list[..p] + dirs + list[p..];
    }
  }

  /** Feeding `a + b` in reverse feeds `b` first, then `a`. */
  lemma {:induction false} AddReversedAppend(list: seq<string>, a: seq<string>, b: seq<string>, isDir: set<string>)
    ensures AddReversed(list, a + b, isDir) == AddReversed(AddReversed(list, b, isDir), a, isDir)
    decreases |a|
  {
    if a == [] {
      assert a + b == b;
    } else {
      assert (a + b)[0] == a[0];
      assert (a + b)[1..] == a[1..] + b;
      AddReversedAppend(list, a[1..], b, isDir);
    }
  }

  /**
   * Flag directories fed into an all-absolute list when some of them are
   * relative: the last relative flag directory `x` goes to the front,
   * because it is added first among the relative ones and lands at index 0;
   * every later relative or absolute one then goes right after it. All the
   * other flag directories keep their command-line order.
   */
  lemma LastRelativeFlagFirst(list: seq<string>, pre: seq<string>, x: string, post: seq<string>,
                              isDir: set<string>)
    requires Distinct(pre + [x] + post)
    requires forall y :: y in pre + [x] + post ==> y in isDir && y !in list
    requires forall j :: 0 <= j < |list| ==> IsAbs(list[j])
    requires !IsAbs(x) && forall k :: 0 <= k < |post| ==> IsAbs(post[k])
    ensures AddReversed(list, pre + [x] + post, isDir) == [x] + pre + post + list
  {
    var dirs := pre + [x] + post;
    DistinctParts(pre, x, post);
    var l1 := post + list;
    calc {
      AddReversed(list, dirs, isDir);
    == { AddReversedAppend(list, pre + [x], post, isDir); }
      AddReversed(AddReversed(list, post, isDir), pre + [x], isDir);
    == { assert forall k :: 0 <= k < |post| ==> post[k] in dirs;
         AbsoluteFlagsInFront(list, post, isDir); }
      AddReversed(l1, pre + [x], isDir);
    == { AddReversedAppend(l1, pre, [x], isDir); }
      AddReversed(AddReversed(l1, [x], isDir), pre, isDir);
    == { assert x in dirs;
         forall j | 0 <= j < |l1| ensures IsAbs(l1[j]) {
           if j >= |post| { assert l1[j] == list[j - |post|]; }
         }
         RelativeFlagAtFront(l1, x, isDir); }
      AddReversed([x] + l1, pre, isDir);
    == { assert forall k :: 0 <= k < |pre| ==> pre[k] in dirs;
         FlagsAfterFirstEntry(x, l1, pre, isDir); }
      [x] + pre + l1;
    ==
      [x] + pre + post + list;
    }
  }

  /** The parts of a duplicate-free `pre + [x] + post` are duplicate-free and disjoint. */
  lemma DistinctParts(pre: seq<string>, x: string, post: seq<string>)
    requires Distinct(pre + [x] + post)
    ensures Distinct(pre) && Distinct(post) && x !in pre && x !in post
    ensures forall y :: y in pre ==> y !in post
  {
    var dirs := pre + [x] + post;
    forall i, j | 0 <= i < j < |pre| ensures pre[i] != pre[j] {
      assert pre[i] == dirs[i] && pre[j] == dirs[j];
    }
    forall i, j | 0 <= i < j < |post| ensures post[i] != post[j] {
      assert post[i] == dirs[|pre| + 1 + i] && post[j] == dirs[|pre| + 1 + j];
    }
    forall k | 0 <= k < |pre| ensures pre[k] != x && pre[k] !in post {
      assert pre[k] == dirs[k] && x == dirs[|pre|];
      forall m | 0 <= m < |post| ensures pre[k] != post[m] {
        assert post[m] == dirs[|pre| + 1 + m];
      }
    }
    forall m | 0 <= m < |post| ensures post[m] != x {
      assert post[m] == dirs[|pre| + 1 + m] && x == dirs[|pre|];
    }
  }

  /** Absolute flag directories fed into an all-absolute list go to its front, in order. */
  lemma AbsoluteFlagsInFront(list: seq<string>, post: seq<string>, isDir: set<string>)
    requires Distinct(post)
    requires forall k :: 0 <= k < |post| ==> post[k] in isDir && post[k] !in list
    requires forall j :: 0 <= j < |list| ==> IsAbs(list[j])
    requires forall k :: 0 <= k < |post| ==> IsAbs(post[k])
    ensures AddReversed(list, post, isDir) == post + list
  {
    calc {
      AddReversed(list, post, isDir);
    == { AllAbsoluteInsertsAtFront(list);
         FlagDirsContiguous(list, post, isDir); }
      list[..0] + post + list[0..];
    ==
      post + list;
    }
  }

  /** A list whose entries are all absolute has no relative entry, and `add_dir_to_list` inserts at 0. */
  lemma AllAbsoluteInsertsAtFront(list: seq<string>)
    requires forall j :: 0 <= j < |list| ==> IsAbs(list[j])
    ensures FirstRelative(list).None? && InsertPosition(list) == 0
  {
  }

  /** A relative directory fed into an all-absolute list goes to index 0. */
  lemma RelativeFlagAtFront(l: seq<string>, x: string, isDir: set<string>)
    requires x in isDir && x !in l
    requires forall j :: 0 <= j < |l| ==> IsAbs(l[j])
    ensures AddReversed(l, [x], isDir) == [x] + l
  {
    assert [x][1..] == [];
    AddDirAtFront(l, x, isDir);
  }

  /** Flag directories fed into a list starting with a relative entry go right after it, in order. */
  lemma FlagsAfterFirstEntry(x: string, l: seq<string>, pre: seq<string>, isDir: set<string>)
    requires !IsAbs(x) && Distinct(pre)
    requires forall k :: 0 <= k < |pre| ==> pre[k] in isDir && pre[k] != x && pre[k] !in l
    ensures AddReversed([x] + l, pre, isDir) == [x] + pre + l
  {
    var l2 := [x] + l;
    assert FirstRelative(l2) == Some(0);
    forall k | 0 <= k < |pre| ensures pre[k] !in l2 { }
    FlagDirsContiguous(l2, pre, isDir);
    assert l2[..1] == [x] && l2[1..] == l;
  }

  /** With three relative flags, `-Ia -Ib -Ic` into an empty list gives `c, a, b`. */
  lemma ThreeRelativeFlagDirs(isDir: set<string>)
    requires "a" in isDir && "b" in isDir && "c" in isDir
    ensures AddReversed([], ["a", "b", "c"], isDir) == ["c", "a", "b"]
  {
    assert ["a", "b"] + ["c"] + [] == ["a", "b", "c"];
    LastRelativeFlagFirst([], ["a", "b"], "c", [], isDir);
  }

  /** Two relative flag directories added to an empty list come out in reverse order. */
  lemma RelativeFlagDirsReversed(isDir: set<string>)
    requires "a" in isDir && "b" in isDir
    ensures AddReversed([], ["a", "b"], isDir) == ["b", "a"]
  {
    var one := AddReversed([], ["b"], isDir);
    assert ["a", "b"][1..] == ["b"];
    assert ["b"][1..] == [];
    AddDirAtFront([], "b", isDir);
    assert one == ["b"];
    AddDirAfterFirstRelative(["b"], "a", isDir, 0);
  }

  /**
   * A search-directory list such as `compiler.include_dirs`: a Python list
   * that `add_dir_to_list` updates in place.
   */
  class DirList {
    var entries: seq<string>

    constructor (initial: seq<string>)
      ensures entries == initial
    {
      entries := initial;
    }

    /** `add_dir_to_list(self, dir)`, with its `enumerate` loop. */
    method AddDir(dir: Option<string>, isDir: set<string>)
      modifies this
      ensures entries == AddDirToList(old(entries), dir, isDir)
    {
      if dir.None? || dir.value !in isDir || dir.value in entries {
        return;
      }
      var i := 0;
      while i < |entries|
        invariant 0 <= i <= |entries|
        invariant entries == old(entries)
        invariant forall j :: 0 <= j < i ==> IsAbs(entries[j])
      {
        if !IsAbs(entries[i]) {
          AddDirAfterFirstRelative(entries, dir.value, isDir, i);
          entries := entries[..i + 1] + [dir.value] + entries[i + 1..];
          return;
        }
        i := i + 1;
      }
      AddDirAtFront(entries, dir.value, isDir);
      entries := [dir.value] + entries;
    }

    /** setup.py:566-568: the flag directories, fed in from the last to the first. */
    method AddFlagDirs(dirs: seq<string>, isDir: set<string>)
      modifies this
      ensures entries == AddReversed(old(entries), dirs, isDir)
    {
      var n := |dirs|;
      var i := 0;
      while i < n
        invariant 0 <= i <= n
        invariant entries == AddReversed(old(entries), dirs[n - i..], isDir)
      {
        var directory := dirs[n - 1 - i];
        assert dirs[n - 1 - i..][1..] == dirs[n - i..];
        AddDir(Some(directory), isDir);
        i := i + 1;
      }
      assert dirs[n - n..] == dirs;
    }
  }
}
