/**
 * The list handling inside `PyBuildExt.build_extensions` and the
 * `module_enalbed` helper (setup.py:200-204, 231-237, 315-320): dropping the
 * extensions named on the disabled list, moving `_ctypes` to the end
 * because it depends on the others, counting extensions by name, and
 * laying out a report in rows of three.
 */
module BuildExt {

  import opened Wrappers

  /** A distutils `Extension`; only its name matters to the code modelled here. */
  datatype Extension = Extension(name: string, sources: seq<string>)

  /** `[ext for ext in extlist if ext.name == modname]`. */
  function Named(extlist: seq<Extension>, modname: string): (r: seq<Extension>)
    ensures forall e :: e in r ==> e in extlist && e.name == modname
    ensures forall e :: e in extlist && e.name == modname ==> e in r
    ensures |r| <= |extlist|
  {
    if extlist == [] then []
    else (if extlist[0].name == modname then [extlist[0]] else []) + Named(extlist[1..], modname)
  }

  /** `module_enalbed`: how many extensions of the list carry the name. */
  function ModuleEnabled(extlist: seq<Extension>, modname: string): (r: nat)
    ensures r <= |extlist|
    ensures r == 0 <==> forall j :: 0 <= j < |extlist| ==> extlist[j].name != modname
  {
    var named := Named(extlist, modname);
    assert (exists j :: 0 <= j < |extlist| && extlist[j].name == modname) ==> named != [] by {
      if j :| 0 <= j < |extlist| && extlist[j].name == modname {
        assert extlist[j] in named;
      }
    }
    assert named != [] ==> exists j :: 0 <= j < |extlist| && extlist[j].name == modname by {
      if named != [] {
        assert named[0] in extlist;
      }
    }
    |named|
  }

  lemma {:induction false} NamedAppend(a: seq<Extension>, b: seq<Extension>, modname: string)
    ensures Named(a + b, modname) == Named(a, modname) + Named(b, modname)
  {
    if a == [] {
      assert a + b == b;
    } else {
      assert (a + b)[1..] == a[1..] + b;
      NamedAppend(a[1..], b, modname);
    }
  }

  /** The comprehension keeps every extension carrying the name as often as it occurs, and no other. */
  lemma {:induction false} NamedCounts(extlist: seq<Extension>, modname: string, e: Extension)
    ensures multiset(Named(extlist, modname))[e] == if e.name == modname then multiset(extlist)[e] else 0
  {
    if extlist != [] {
      var rest := extlist[1..];
      NamedCounts(rest, modname, e);
      var head := if extlist[0].name == modname then [extlist[0]] else [];
      assert multiset(Named(extlist, modname)) == multiset(head) + multiset(Named(rest, modname));
      assert extlist == [extlist[0]] + rest;
      assert multiset(extlist) == multiset{extlist[0]} + multiset(rest);
    }
  }

  /** `module_enalbed` is the number of positions of the list whose extension carries the name. */
  lemma {:induction false} ModuleEnabledCountsPositions(extlist: seq<Extension>, modname: string)
    ensures ModuleEnabled(extlist, modname) == |set j | 0 <= j < |extlist| && extlist[j].name == modname|
    decreases |extlist|
  {
    if extlist != [] {
      var init := extlist[..|extlist| - 1];
      var last := extlist[|extlist| - 1];
      assert extlist == init + [last];
      NamedSnoc(init, last, modname);
      ModuleEnabledCountsPositions(init, modname);
      PositionsSnoc(init, last, modname);
    }
  }

  lemma NamedSnoc(init: seq<Extension>, last: Extension, modname: string)
    ensures |Named(init + [last], modname)| == |Named(init, modname)| + if last.name == modname then 1 else 0
  {
    NamedAppend(init, [last], modname);
    assert [last][1..] == [];
  }

  lemma PositionsSnoc(init: seq<Extension>, last: Extension, modname: string)
    ensures |set j | 0 <= j < |init + [last]| && (init + [last])[j].name == modname|
         == |set j | 0 <= j < |init| && init[j].name == modname| + if last.name == modname then 1 else 0
  {
    var xs := init + [last];
    var before := set j | 0 <= j < |init| && init[j].name == modname;
    var after := set j | 0 <= j < |xs| && xs[j].name == modname;
    if last.name == modname {
      assert after == before + {|init|};
    } else {
      assert after == before;
    }
  }

  /** `[ext for ext in extensions if ext.name not in disabled_module_list]`. */
  function Enabled(exts: seq<Extension>, disabled: seq<string>): (r: seq<Extension>)
    ensures forall e :: e in r ==> e in exts && e.name !in disabled
    ensures forall e :: e in exts && e.name !in disabled ==> e in r
    ensures |r| <= |exts|
  {
    if exts == [] then []
    else (if exts[0].name in disabled then [] else [exts[0]]) + Enabled(exts[1..], disabled)
  }

  /** Nothing but the disabled extensions is lost, and nothing is added or duplicated. */
  lemma {:induction false} EnabledCounts(exts: seq<Extension>, disabled: seq<string>, e: Extension)
    ensures multiset(Enabled(exts, disabled))[e] == if e.name in disabled then 0 else multiset(exts)[e]
  {
    if exts != [] {
      var rest := exts[1..];
      EnabledCounts(rest, disabled, e);
      var head := if exts[0].name in disabled then [] else [exts[0]];
      assert multiset(Enabled(exts, disabled)) == multiset(head) + multiset(Enabled(rest, disabled));
      assert exts == [exts[0]] + rest;
      assert multiset(exts) == multiset{exts[0]} + multiset(rest);
    }
  }

  /** The filter keeps the order of what it keeps: it distributes over concatenation. */
  lemma {:induction false} EnabledAppend(a: seq<Extension>, b: seq<Extension>, disabled: seq<string>)
    ensures Enabled(a + b, disabled) == Enabled(a, disabled) + Enabled(b, disabled)
  {
    if a == [] {
      assert a + b == b;
    } else {
      assert (a + b)[1..] == a[1..] + b;
      EnabledAppend(a[1..], b, disabled);
    }
  }

  /** The index the dict `ext_map` keeps for `name`: that of its last occurrence. */
  function LastNamed(exts: seq<Extension>, name: string): (r: Option<nat>)
    ensures r.Some? ==> r.value < |exts| && exts[r.value].name == name
    ensures r.Some? ==> forall j :: r.value < j < |exts| ==> exts[j].name != name
    ensures r.None? ==> forall j :: 0 <= j < |exts| ==> exts[j].name != name
  {
    if exts == [] then None
    else if exts[|exts| - 1].name == name then Some(|exts| - 1)
    else
      var rest := LastNamed(exts[..|exts| - 1], name);
      assert forall j :: 0 <= j < |exts| - 1 ==> exts[j] == exts[..|exts| - 1][j];
      rest
  }

  const Ctypes: string := "_ctypes"

  /** `extensions.pop(ext_map["_ctypes"])` followed by `extensions.append(ctypes)`. */
  function MoveCtypesLast(exts: seq<Extension>): (r: seq<Extension>)
    ensures multiset(r) == multiset(exts)
    ensures (forall j :: 0 <= j < |exts| ==> exts[j].name != Ctypes) ==> r == exts
    ensures (exists j :: 0 <= j < |exts| && exts[j].name == Ctypes) ==> r[|r| - 1].name == Ctypes
  {
    match LastNamed(exts, Ctypes)
    case None => exts
    case Some(k) =>
      assert exts == exts[..k] + [exts[k]] + exts[k + 1..];
      exts[..k] + exts[k + 1..] + [exts[k]]
  }

  /**
   * Everything but the last `_ctypes` extension keeps its place relative to
   * the others; the earlier `_ctypes` entries, if names repeat, stay put.
   */
  lemma MoveCtypesKeepsOrder(exts: seq<Extension>, k: nat)
    requires k < |exts| && exts[k].name == Ctypes
    requires forall j :: k < j < |exts| ==> exts[j].name != Ctypes
    ensures MoveCtypesLast(exts) == exts[..k] + exts[k + 1..] + [exts[k]]
  {
  }

  /**
   * After the reordering each name is carried by as many extensions as
   * before, except the disabled names, which are carried by none.
   */
  lemma ModuleEnabledAfterOrdering(exts: seq<Extension>, disabled: seq<string>, modname: string)
    ensures ModuleEnabled(MoveCtypesLast(Enabled(exts, disabled)), modname)
         == if modname in disabled then 0 else ModuleEnabled(exts, modname)
  {
    NamedAfterMove(Enabled(exts, disabled), modname);
    NamedOfEnabled(exts, disabled, modname);
  }

  /** Moving `_ctypes` changes no count by name. */
  lemma NamedAfterMove(f: seq<Extension>, modname: string)
    ensures |Named(MoveCtypesLast(f), modname)| == |Named(f, modname)|
  {
    match LastNamed(f, Ctypes)
    case None =>
    case Some(k) =>
      var pre, mid, post := f[..k], [f[k]], f[k + 1..];
      assert f == pre + mid + post;
      assert MoveCtypesLast(f) == pre + post + mid;
      NamedAppend(pre + mid, post, modname);
      NamedAppend(pre, mid, modname);
      NamedAppend(pre + post, mid, modname);
      NamedAppend(pre, post, modname);
  }

  lemma {:induction false} NamedOfEnabled(exts: seq<Extension>, disabled: seq<string>, modname: string)
    ensures |Named(Enabled(exts, disabled), modname)| == if modname in disabled then 0 else |Named(exts, modname)|
  {
    if exts != [] {
      NamedOfEnabled(exts[1..], disabled, modname);
      var head := if exts[0].name in disabled then [] else [exts[0]];
      assert Enabled(exts, disabled) == head + Enabled(exts[1..], disabled);
      NamedAppend(head, Enabled(exts[1..], disabled), modname);
    }
  }

  /**
   * What `ext_map` holds after the first `i` extensions: every name seen so
   * far, mapped to the index of its last occurrence among them.
   */
  predicate LastIndexMap(extMap: map<string, nat>, exts: seq<Extension>, i: nat)
    requires i <= |exts|
  {
    && (forall j :: 0 <= j < i ==> exts[j].name in extMap)
    && (forall name :: name in extMap ==> extMap[name] < i && exts[extMap[name]].name == name)
    && (forall name, j :: name in extMap && extMap[name] < j < i ==> exts[j].name != name)
  }

  lemma LastIndexMapStep(extMap: map<string, nat>, exts: seq<Extension>, i: nat)
    requires i < |exts| && LastIndexMap(extMap, exts, i)
    ensures LastIndexMap(extMap[exts[i].name := i], exts, i + 1)
  {
    var m := extMap[exts[i].name := i];
    forall name | name in m ensures m[name] <= i && exts[m[name]].name == name {
      if name != exts[i].name { assert m[name] == extMap[name]; }
    }
    forall name, j | name in m && m[name] < j < i + 1 ensures exts[j].name != name {
      if name != exts[i].name {
        assert m[name] == extMap[name];
      }
    }
  }

  /**
   * setup.py:231-237: drop the disabled extensions, then move the
   * extension named `_ctypes` (the last one, should names repeat) to the end.
   */
  method OrderExtensions(exts: seq<Extension>, disabled: seq<string>) returns (extensions: seq<Extension>)
    ensures extensions == MoveCtypesLast(Enabled(exts, disabled))
  {
    extensions := Enabled(exts, disabled);
    var extMap: map<string, nat> := map[];
    for i := 0 to |extensions|
      invariant LastIndexMap(extMap, extensions, i)
    {
      LastIndexMapStep(extMap, extensions, i);
      extMap := extMap[extensions[i].name := i];
    }
    if Ctypes in extMap {
      var k := extMap[Ctypes];
      MoveCtypesKeepsOrder(extensions, k);
      var ctypes := extensions[k];
      extensions := extensions[..k] + extensions[k + 1..];
      extensions := extensions + [ctypes];
    } else {
      assert LastNamed(extensions, Ctypes).None?;
    }
  }

  /**
   * The `while len(lst) % 3: lst.append("")` loop of `print_three_column`:
   * the fewest empty strings that make the length a multiple of three.
   */
  method PadToMultipleOfThree(lst: seq<string>) returns (padded: seq<string>)
    ensures |padded| % 3 == 0
    ensures |lst| <= |padded| < |lst| + 3
    ensures padded[..|lst|] == lst
    ensures forall j :: |lst| <= j < |padded| ==> padded[j] == ""
  {
    padded := lst;
    while |padded| % 3 != 0
      invariant |lst| <= |padded| <= |lst| + 2
      invariant |padded| > |lst| ==> |lst| % 3 != 0
      invariant |padded| > |lst| + 1 ==> (|lst| + 1) % 3 != 0
      invariant padded[..|lst|] == lst
      invariant forall j :: |lst| <= j < |padded| ==> padded[j] == ""
      decreases |lst| + 3 - |padded|
    {
      padded := padded + [""];
    }
  }

  /** The slice `lst[start::3]`. */
  function Stride(lst: seq<string>, start: nat): (r: seq<string>)
    ensures |r| == if start < |lst| then (|lst| - start + 2) / 3 else 0
    ensures forall i :: 0 <= i < |r| ==> r[i] == lst[start + 3 * i]
    decreases |lst| - start
  {
    if start >= |lst| then [] else [lst[start]] + Stride(lst, start + 3)
  }

  /** Python's three-argument `zip`, which stops at the shortest argument. */
  function Zip3(a: seq<string>, b: seq<string>, c: seq<string>): (r: seq<(string, string, string)>)
    ensures |r| <= |a| && |r| <= |b| && |r| <= |c|
    ensures |r| == |a| || |r| == |b| || |r| == |c|
    ensures forall i :: 0 <= i < |r| ==> r[i] == (a[i], b[i], c[i])
  {
    if a == [] || b == [] || c == [] then []
    else [(a[0], b[0], c[0])] + Zip3(a[1..], b[1..], c[1..])
  }

  /**
   * The rows `zip(lst[::3], lst[1::3], lst[2::3])`: row `i` holds entries
   * `3i`, `3i + 1` and `3i + 2`, and entries past the last full row are dropped.
   */
  function Rows(lst: seq<string>): (r: seq<(string, string, string)>)
    ensures |r| == |lst| / 3
    ensures forall i :: 0 <= i < |r| ==> r[i] == (lst[3 * i], lst[3 * i + 1], lst[3 * i + 2])
  {
    Zip3(Stride(lst, 0), Stride(lst, 1), Stride(lst, 2))
  }

  /** Column `c` (0, 1 or 2) of row `i`. */
  function Cell(rows: seq<(string, string, string)>, i: nat, c: nat): string
    requires i < |rows| && c < 3
  {
    if c == 0 then rows[i].0 else if c == 1 then rows[i].1 else rows[i].2
  }

  /**
   * Once the list is padded as `PadToMultipleOfThree` pads it, every
   * original entry `3i + c` appears in row `i`, column `c`: zip drops nothing.
   */
  lemma PaddedRowsKeepEveryEntry(lst: seq<string>, padded: seq<string>)
    requires |padded| % 3 == 0 && |lst| <= |padded| && padded[..|lst|] == lst
    ensures |lst| <= 3 * |Rows(padded)|
    ensures forall i: nat, c: nat :: c < 3 && 3 * i + c < |lst| ==>
      i < |Rows(padded)| && Cell(Rows(padded), i, c) == lst[3 * i + c]
  {
    forall i: nat, c: nat | c < 3 && 3 * i + c < |lst|
      ensures i < |Rows(padded)| && Cell(Rows(padded), i, c) == lst[3 * i + c]
    {
      RowsCell(padded, i, c);
    }
  }

  /** Entry `3i + c` of a list whose length is a multiple of three is cell `(i, c)` of its rows. */
  lemma RowsCell(lst: seq<string>, i: nat, c: nat)
    requires |lst| % 3 == 0 && c < 3 && 3 * i + c < |lst|
    ensures i < |Rows(lst)| && Cell(Rows(lst), i, c) == lst[3 * i + c]
  {
    var rows := Rows(lst);
    assert 3 * |rows| == |lst|;
    assert i < |rows| by {
      assert 3 * i < 3 * |rows|;
    }
    var row := rows[i];
    assert row == (lst[3 * i], lst[3 * i + 1], lst[3 * i + 2]);
  }

  /** Without the padding, a list of four names loses its fourth. */
  lemma UnpaddedRowsDropEntries(lst: seq<string>)
    requires |lst| == 4
    ensures |Rows(lst)| == 1 && Rows(lst)[0] == (lst[0], lst[1], lst[2])
  {
  }
}
