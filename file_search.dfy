/**
 * Locating headers, libraries and module sources (setup.py:101-214).
 *
 * The filesystem enters as the set `present` of paths for which
 * `os.path.exists` holds. `host_platform == 'darwin'` and the SDK root that
 * `macosx_sdk_root()` reads from CFLAGS are a `Platform` value. The result
 * of the compiler's own `find_library_file` probe is a parameter.
 */
module FileSearch {

  import opened Wrappers
  import opened PosixPath

  datatype Platform = Platform(darwin: bool, sdkRoot: string)

  /** `is_macosx_sdk_path`: a path that a macOS SDK can hold a copy of. */
  predicate IsMacOSXSdkPath(path: string)
    ensures IsMacOSXSdkPath(path) ==> IsAbs(path) && |path| > 1 && path[1] != Sep
  {
    (StartsWith(path, "/usr/") && !StartsWith(path, "/usr/local"))
    || StartsWith(path, "/System/")
    || StartsWith(path, "/Library/")
  }

  /** Re-rooting an SDK path under the default root '/' gives back the same path. */
  lemma SdkRewriteWithDefaultRoot(path: string)
    requires IsMacOSXSdkPath(path)
    ensures Join("/", DropFirst(path)) == path
  {
    assert [path[0]] + DropFirst(path) == path;
  }

  /** `/usr/local` and everything whose name merely starts like it stay on the host. */
  lemma UsrLocalIsNotSdkPath(path: string)
    requires StartsWith(path, "/usr/local")
    ensures !IsMacOSXSdkPath(path)
  {
    assert path[..5] == "/usr/local"[..5];
    assert !StartsWith(path, "/System/") by { assert path[1] == 'u'; }
    assert !StartsWith(path, "/Library/") by { assert path[1] == 'u'; }
  }

  /** The path `find_file` probes for `filename` in `dir`. */
  function ProbePath(plat: Platform, dir: string, filename: string): string {
    if plat.darwin && IsMacOSXSdkPath(dir) then Join3(plat.sdkRoot, DropFirst(dir), filename)
    else Join(dir, filename)
  }

  predicate Hit(plat: Platform, dir: string, filename: string, present: set<string>) {
    ProbePath(plat, dir, filename) in present
  }

  /**
   * The early-return scan `for x in xs: if test(x): return ...`, run over
   * the outcomes of the tests: the index of the first true one, if any.
   */
  function FirstTrue(tests: seq<bool>): (r: Option<nat>)
    ensures r.Some? ==> r.value < |tests| && tests[r.value]
    ensures r.Some? ==> forall j :: 0 <= j < r.value ==> !tests[j]
    ensures r.None? ==> forall j :: 0 <= j < |tests| ==> !tests[j]
  {
    if tests == [] then None
    else if tests[0] then Some(0)
    else
      var rest := FirstTrue(tests[1..]);
      assert forall j :: 1 <= j < |tests| ==> tests[j] == tests[1..][j - 1];
      if rest.None? then None else Some(rest.value + 1)
  }

  /** Which directories of `dirs` hold `filename`, as `find_file` probes them. */
  function Hits(plat: Platform, dirs: seq<string>, filename: string, present: set<string>): (r: seq<bool>)
    ensures |r| == |dirs|
    ensures forall j :: 0 <= j < |dirs| ==> r[j] == Hit(plat, dirs[j], filename, present)
  {
    seq(|dirs|, j requires 0 <= j < |dirs| => Hit(plat, dirs[j], filename, present))
  }

  /** The index of the first directory in `dirs` whose probe exists. */
  function FirstHit(plat: Platform, dirs: seq<string>, filename: string, present: set<string>): (r: Option<nat>)
    ensures r.Some? ==> r.value < |dirs| && Hit(plat, dirs[r.value], filename, present)
    ensures r.Some? ==> forall j :: 0 <= j < r.value ==> !Hit(plat, dirs[j], filename, present)
    ensures r.None? ==> forall j :: 0 <= j < |dirs| ==> !Hit(plat, dirs[j], filename, present)
  {
    FirstTrue(Hits(plat, dirs, filename, present))
  }

  /** A true test with only false ones before it is the one the scan reports. */
  lemma FirstTrueIsFirst(tests: seq<bool>, i: nat)
    requires i < |tests| && tests[i] && forall j :: 0 <= j < i ==> !tests[j]
    ensures FirstTrue(tests) == Some(i)
  {
  }

  /** The first index the scan reports is the only index that is first to hit. */
  lemma FirstHitIsFirst(plat: Platform, dirs: seq<string>, filename: string, present: set<string>, i: nat)
    requires i < |dirs| && Hit(plat, dirs[i], filename, present)
    requires forall j :: 0 <= j < i ==> !Hit(plat, dirs[j], filename, present)
    ensures FirstHit(plat, dirs, filename, present) == Some(i)
  {
    var tests := Hits(plat, dirs, filename, present);
    assert forall j :: 0 <= j < i ==> !tests[j];
    FirstTrueIsFirst(tests, i);
  }

  /**
   * `find_file`: `[]` when a standard directory holds the file, `[d]` for the
   * first extra directory `d` that does, `None` when neither list does.
   */
  function FindFile(plat: Platform, filename: string, stdDirs: seq<string>, paths: seq<string>,
                    present: set<string>): (r: Option<seq<string>>)
    ensures r.Some? ==> |r.value| <= 1
    ensures r == Some([]) <==> exists j :: 0 <= j < |stdDirs| && Hit(plat, stdDirs[j], filename, present)
    ensures r.None? <==>
      (forall j :: 0 <= j < |stdDirs| ==> !Hit(plat, stdDirs[j], filename, present)) &&
      (forall j :: 0 <= j < |paths| ==> !Hit(plat, paths[j], filename, present))
    ensures r.Some? && r.value != [] ==>
      exists i :: 0 <= i < |paths| && r.value == [paths[i]] && Hit(plat, paths[i], filename, present) &&
        forall j :: 0 <= j < i ==> !Hit(plat, paths[j], filename, present)
  {
    if FirstHit(plat, stdDirs, filename, present).Some? then Some([])
    else match FirstHit(plat, paths, filename, present)
      case Some(i) => Some([paths[i]])
      case None => None
  }

  /**
   * Without an SDK (root '/') the darwin rewrite changes nothing:
   * `find_file` answers as on any other platform.
   */
  lemma FindFileDarwinDefaultRoot(filename: string, stdDirs: seq<string>, paths: seq<string>,
                                  present: set<string>, otherRoot: string)
    ensures FindFile(Platform(true, "/"), filename, stdDirs, paths, present)
         == FindFile(Platform(false, otherRoot), filename, stdDirs, paths, present)
  {
    FirstHitDefaultRoot(stdDirs, filename, present, otherRoot);
    FirstHitDefaultRoot(paths, filename, present, otherRoot);
  }

  lemma FirstHitDefaultRoot(dirs: seq<string>, filename: string, present: set<string>, otherRoot: string)
    ensures FirstHit(Platform(true, "/"), dirs, filename, present)
         == FirstHit(Platform(false, otherRoot), dirs, filename, present)
  {
    var h1, h2 := Hits(Platform(true, "/"), dirs, filename, present), Hits(Platform(false, otherRoot), dirs, filename, present);
    forall j | 0 <= j < |dirs| ensures h1[j] == h2[j] {
      ProbeDefaultRoot(dirs[j], filename, otherRoot);
    }
    assert h1 == h2;
  }

  /** On darwin with root '/', each directory is probed where it would be elsewhere. */
  lemma ProbeDefaultRoot(dir: string, filename: string, otherRoot: string)
    ensures ProbePath(Platform(true, "/"), dir, filename) == ProbePath(Platform(false, otherRoot), dir, filename)
  {
    if IsMacOSXSdkPath(dir) {
      SdkRewriteWithDefaultRoot(dir);
    }
  }

  /**
   * On darwin with an SDK root, a system directory is probed at the same
   * place re-rooted under the SDK: `join(sysroot, dir[1:], f)` is
   * `join(sysroot + dir, f)`.
   */
  lemma SdkProbeIsReRooted(root: string, dir: string, filename: string)
    requires root != "" && !EndsWithSep(root) && IsMacOSXSdkPath(dir)
    ensures ProbePath(Platform(true, root), dir, filename) == Join(root + dir, filename)
  {
    assert [dir[0]] + DropFirst(dir) == dir;
    assert Join(root, DropFirst(dir)) == root + [Sep] + DropFirst(dir);
    assert root + [Sep] + DropFirst(dir) == root + dir;
  }

  /**
   * With an SDK given, a header present on the host but missing from the
   * SDK is not found in a system directory, and one present in the SDK is.
   */
  lemma FindFileProbesOnlyTheSdk(root: string, dir: string, filename: string, present: set<string>)
    requires root != "" && !EndsWithSep(root) && IsMacOSXSdkPath(dir)
    ensures Join(root + dir, filename) !in present ==>
      FindFile(Platform(true, root), filename, [dir], [], present) == None
    ensures Join(root + dir, filename) in present ==>
      FindFile(Platform(true, root), filename, [dir], [], present) == Some([])
  {
    SdkProbeIsReRooted(root, dir, filename);
    assert [dir][0] == dir;
  }

  /**
   * A header present only under an extra directory yields exactly that
   * directory, and one present under a standard directory as well yields
   * `[]`.
   */
  lemma FindFileExtraOnly(plat: Platform)
    requires !plat.darwin
    ensures FindFile(plat, "x.h", ["/usr/include"], ["/opt/lib/include"], {"/opt/lib/include/x.h"})
         == Some(["/opt/lib/include"])
    ensures FindFile(plat, "x.h", ["/usr/include"], ["/opt/lib/include"],
                     {"/opt/lib/include/x.h", "/usr/include/x.h"}) == Some([])
  {
    assert Join("/usr/include", "x.h") == "/usr/include/x.h";
    assert Join("/opt/lib/include", "x.h") == "/opt/lib/include/x.h";
    assert "/usr/include/x.h" != "/opt/lib/include/x.h" by {
      assert "/usr/include/x.h"[1] != "/opt/lib/include/x.h"[1];
    }
  }

  /**
   * Whether the stripped directory `p` is the directory `dirname` the
   * compiler found the library in, directly or, on darwin, inside the SDK.
   */
  predicate Matches(plat: Platform, p: string, dirname: string) {
    (plat.darwin && IsMacOSXSdkPath(p) && Join(plat.sdkRoot, DropFirst(p)) == dirname) || p == dirname
  }

  /** Which directories of `dirs`, stripped of trailing separators, match `dirname`. */
  function Matching(plat: Platform, dirs: seq<string>, dirname: string): (r: seq<bool>)
    ensures |r| == |dirs|
    ensures forall j :: 0 <= j < |dirs| ==> r[j] == Matches(plat, RStripSep(dirs[j]), dirname)
  {
    seq(|dirs|, j requires 0 <= j < |dirs| => Matches(plat, RStripSep(dirs[j]), dirname))
  }

  /** The index of the first directory in `dirs` that matches `dirname` once stripped. */
  function FirstMatch(plat: Platform, dirs: seq<string>, dirname: string): (r: Option<nat>)
    ensures r.Some? ==> r.value < |dirs| && Matches(plat, RStripSep(dirs[r.value]), dirname)
    ensures r.Some? ==> forall j :: 0 <= j < r.value ==> !Matches(plat, RStripSep(dirs[j]), dirname)
    ensures r.None? ==> forall j :: 0 <= j < |dirs| ==> !Matches(plat, RStripSep(dirs[j]), dirname)
  {
    FirstTrue(Matching(plat, dirs, dirname))
  }

  const InternalError: string := "Internal error: Path not found is std_dirs or paths"

  /**
   * `find_library_file`, given what `compiler.find_library_file(std_dirs +
   * paths, libname)` returned. `None` when the compiler found nothing, `[]`
   * when the library's directory is a standard one, `[p]` for the first
   * extra directory `p` (stripped of trailing separators) it is, and the
   * failed assertion when it is neither.
   */
  function FindLibraryFile(plat: Platform, found: Option<string>, stdDirs: seq<string>,
                           paths: seq<string>): (r: Result<Option<seq<string>>, string>)
    ensures r == Success(None) <==> found.None?
    ensures r == Success(Some([])) <==>
      found.Some? && exists j :: 0 <= j < |stdDirs| && Matches(plat, RStripSep(stdDirs[j]), Dirname(found.value))
    ensures r.Failure? <==> (found.Some? &&
      (forall j :: 0 <= j < |stdDirs| ==> !Matches(plat, RStripSep(stdDirs[j]), Dirname(found.value))) &&
      (forall j :: 0 <= j < |paths| ==> !Matches(plat, RStripSep(paths[j]), Dirname(found.value))))
    ensures r.Failure? ==> r.error == InternalError
    ensures r.Success? && r.value.Some? && r.value.value != [] ==> (found.Some? &&
      exists i :: 0 <= i < |paths| && r.value.value == [RStripSep(paths[i])] &&
        Matches(plat, RStripSep(paths[i]), Dirname(found.value)) &&
        forall j :: 0 <= j < i ==> !Matches(plat, RStripSep(paths[j]), Dirname(found.value)))
  {
    match found
    case None => Success(None)
    case Some(result) =>
      var dirname := Dirname(result);
      if FirstMatch(plat, stdDirs, dirname).Some? then Success(Some([]))
      else match FirstMatch(plat, paths, dirname)
        case Some(i) => Success(Some([RStripSep(paths[i])]))
        case None => Failure(InternalError)
  }

  /**
   * When the compiler behaves, that is it returns `join(d, f)` for a
   * directory `d` it was given and a plain file name `f`, the assertion
   * cannot fail, and a standard `d` gives `[]`.
   */
  lemma LibraryInSearchedDirIsClassified(plat: Platform, stdDirs: seq<string>, paths: seq<string>,
                                         d: string, f: string)
    requires d in stdDirs + paths && !AllSep(d)
    requires f != "" && forall j :: 0 <= j < |f| ==> f[j] != Sep
    ensures FindLibraryFile(plat, Some(Join(d, f)), stdDirs, paths).Success?
    ensures d in stdDirs ==> FindLibraryFile(plat, Some(Join(d, f)), stdDirs, paths) == Success(Some([]))
  {
    DirnameOfJoin(d, f);
    var dirname := Dirname(Join(d, f));
    assert Matches(plat, RStripSep(d), dirname);
    if d in stdDirs {
      var j :| 0 <= j < |stdDirs| && stdDirs[j] == d;
    } else {
      assert d in paths;
      var j :| 0 <= j < |paths| && paths[j] == d;
    }
  }

  /**
   * A library found in a directory made of separators only, such as `/`
   * (from `-L/`), is never classified, whatever the searched directories
   * are: its directory `/` ends in a separator, while a directory stripped
   * by `rstrip(os.sep)` never does, and neither does its re-rooted SDK
   * form. So the assertion fires.
   */
  lemma SeparatorOnlyDirsFail(plat: Platform, stdDirs: seq<string>, paths: seq<string>, d: string, f: string)
    requires d != "" && AllSep(d)
    requires f != "" && forall j :: 0 <= j < |f| ==> f[j] != Sep
    ensures FindLibraryFile(plat, Some(Join(d, f)), stdDirs, paths) == Failure(InternalError)
  {
    var p := Join(d, f);
    assert EndsWithSep(d);
    assert p == d + f;
    LastSepOfAppend(d, f);
    assert p[..|d|] == d;
    assert Dirname(p) == d;
    forall j | 0 <= j < |stdDirs| ensures !Matches(plat, RStripSep(stdDirs[j]), d) {
      NoMatchOfSeparatorDir(plat, stdDirs[j], d);
    }
    forall j | 0 <= j < |paths| ensures !Matches(plat, RStripSep(paths[j]), d) {
      NoMatchOfSeparatorDir(plat, paths[j], d);
    }
  }

  /** No stripped directory, direct or re-rooted under the SDK, is a directory ending in a separator. */
  lemma NoMatchOfSeparatorDir(plat: Platform, q: string, d: string)
    requires d != "" && AllSep(d)
    ensures !Matches(plat, RStripSep(q), d)
  {
    var p := RStripSep(q);
    assert d[|d| - 1] == Sep;
    if plat.darwin && IsMacOSXSdkPath(p) {
      var rest := DropFirst(p);
      assert !IsAbs(rest);
      JoinParts(plat.sdkRoot, rest);
      var r := Join(plat.sdkRoot, rest);
      assert r[|r| - 1] == rest[|rest| - 1] == p[|p| - 1];
    }
  }

  /**
   * On darwin, when the compiler returns `join(sysroot, p[1:], f)` for a
   * searched SDK directory `p` (stripped of trailing separators) and a
   * plain file name `f`, the assertion cannot fire, and a standard `p`
   * gives `[]`.
   */
  lemma LibraryInSdkDirIsClassified(plat: Platform, stdDirs: seq<string>, paths: seq<string>,
                                    d: string, f: string)
    requires plat.darwin && d in stdDirs + paths && IsMacOSXSdkPath(RStripSep(d))
    requires f != "" && forall j :: 0 <= j < |f| ==> f[j] != Sep
    ensures FindLibraryFile(plat, Some(Join3(plat.sdkRoot, DropFirst(RStripSep(d)), f)), stdDirs, paths).Success?
    ensures d in stdDirs ==>
      FindLibraryFile(plat, Some(Join3(plat.sdkRoot, DropFirst(RStripSep(d)), f)), stdDirs, paths) == Success(Some([]))
  {
    var p := RStripSep(d);
    var rest := DropFirst(p);
    assert !IsAbs(rest);
    JoinParts(plat.sdkRoot, rest);
    var dir := Join(plat.sdkRoot, rest);
    assert dir[|dir| - 1] == rest[|rest| - 1] == p[|p| - 1];
    assert !AllSep(dir);
    DirnameOfJoin(dir, f);
    assert RStripSep(dir) == dir;
    assert Matches(plat, p, Dirname(Join(dir, f)));
    if d in stdDirs {
      var j :| 0 <= j < |stdDirs| && stdDirs[j] == d;
    } else {
      assert d in paths;
      var j :| 0 <= j < |paths| && paths[j] == d;
    }
  }

  /**
   * `find_module_file`: `join(d, module)` for the first directory `d` of
   * `dirlist` that holds the module, and the bare name when none does.
   */
  function FindModuleFile(plat: Platform, moduleName: string, dirlist: seq<string>, present: set<string>): (r: string)
    ensures (forall j :: 0 <= j < |dirlist| ==> !Hit(plat, dirlist[j], moduleName, present)) ==> r == moduleName
    ensures forall i ::
      (0 <= i < |dirlist| && Hit(plat, dirlist[i], moduleName, present) &&
       forall j :: 0 <= j < i ==> !Hit(plat, dirlist[j], moduleName, present))
      ==> r == Join(dirlist[i], moduleName)
  {
    var k := FirstHit(plat, dirlist, moduleName, present);
    assert FirstHit(plat, [], moduleName, present) == None;
    assert FindFile(plat, moduleName, [], dirlist, present) == if k.None? then None else Some([dirlist[k.value]]);
    forall i | 0 <= i < |dirlist| && Hit(plat, dirlist[i], moduleName, present) &&
      (forall j :: 0 <= j < i ==> !Hit(plat, dirlist[j], moduleName, present))
      ensures k == Some(i)
    {
      FirstHitIsFirst(plat, dirlist, moduleName, present, i);
    }
    match FindFile(plat, moduleName, [], dirlist, present)
    case None => moduleName
    case Some(list) => if list == [] then moduleName else Join(list[0], moduleName)
  }
}
