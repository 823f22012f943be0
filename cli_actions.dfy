/**
 * The command line's helpers for naming things: `module/name` arguments, the
 * search for a packager along a `/`-path of group names, the preorder listing
 * of a module's packagers, and the folder name of a module's git URL.
 */
module CliActions {
  import opened Wrappers
  import opened Dicts
  import Strs
  import opened Packagers
  import opened ModuleSpecs
  import Servicers

  // ---------------------------------------------------------------------------
  // `module/name` arguments

  /** `module_name, _, name = argument.partition("/")` */
  function ModuleAndName(s: string): (string, string) {
    var (m, _, rest) := Strs.Partition(s, '/');
    (m, rest)
  }

  /** The argument splits at its first `/`; without one, the name is empty. */
  lemma ModuleAndNameSpec(m: string, rest: string)
    requires '/' !in m
    ensures ModuleAndName(m + "/" + rest) == (m, rest)
    ensures ModuleAndName(m) == (m, "")
  {
    Strs.IndexOfFirst(m, '/', rest);
    var s := m + "/" + rest;
    assert s[..|m|] == m && s[|m| + 1..] == rest;
  }

  /** The installed module of that name, if there is one. */
  function InstalledModule(modules: Dict<string, LoytraModule>, moduleName: string): Option<LoytraModule> {
    match modules.Get(moduleName)
    case None => None
    case Some(m) => if m.moduler.installed && m.instance then Some(m) else None
  }

  /** `get_servicer_by_module_service_name` */
  function ServicerByName(modules: Dict<string, LoytraModule>, s: string): Option<Servicers.Servicer> {
    var (moduleName, serviceName) := ModuleAndName(s);
    match InstalledModule(modules, moduleName)
    case None => None
    case Some(m) => m.services.Get(serviceName)
  }

  /** `get_packager_by_module_package_name` */
  function PackagerByName(modules: Dict<string, LoytraModule>, s: string): Option<Packager> {
    var (moduleName, packageName) := ModuleAndName(s);
    match InstalledModule(modules, moduleName)
    case None => None
    case Some(m) => m.packages.Get(packageName)
  }

  /**
   * `m/n` names service (packager) `n` of module `m` exactly when `m` is a
   * known, installed module instance that has one by that name.
   */
  lemma ByNameSpec(modules: Dict<string, LoytraModule>, m: string, n: string)
    requires '/' !in m
    ensures ServicerByName(modules, m + "/" + n).Some? <==>
      m in modules.entries && modules.entries[m].moduler.installed && modules.entries[m].instance
      && n in modules.entries[m].services.entries
    ensures ServicerByName(modules, m + "/" + n).Some? ==>
      ServicerByName(modules, m + "/" + n).value == modules.entries[m].services.entries[n]
    ensures PackagerByName(modules, m + "/" + n).Some? <==>
      m in modules.entries && modules.entries[m].moduler.installed && modules.entries[m].instance
      && n in modules.entries[m].packages.entries
    ensures PackagerByName(modules, m + "/" + n).Some? ==>
      PackagerByName(modules, m + "/" + n).value == modules.entries[m].packages.entries[n]
  {
    ModuleAndNameSpec(m, n);
  }

  // ---------------------------------------------------------------------------
  // finding a packager along a path

  /** `_find_packager_in_path(packagers, path, level)` */
  function FindInPath(ps: seq<Packager>, path: seq<string>, level: nat := 0): Option<Packager>
    decreases ps, 1, 0
  {
    if level >= |path| then None else ScanFrom(ps, path, level, 0)
  }

  /** The loop of `_find_packager_in_path`, from the `i`-th packager on. */
  function ScanFrom(ps: seq<Packager>, path: seq<string>, level: nat, i: nat): Option<Packager>
    requires level < |path|
    decreases ps, 0, |ps| - i
  {
    if i >= |ps| then None
    else if ps[i].name == path[level] then
      if level + 1 == |path| then Some(ps[i])
      else if ps[i].Group? then FindInPath(ps[i].children, path, level + 1)
      else ScanFrom(ps, path, level, i + 1)
    else ScanFrom(ps, path, level, i + 1)
  }

  /**
   * A packager the search stops at on this level: one named `path[level]` that
   * is the last step of the path, or a group.
   */
  predicate Hit(p: Packager, path: seq<string>, level: nat)
    requires level < |path|
  {
    p.name == path[level] && (level + 1 == |path| || p.Group?)
  }

  lemma {:induction false} ScanFirstHit(ps: seq<Packager>, path: seq<string>, level: nat, k: nat, i: nat)
    requires level < |path| && k <= i < |ps| && Hit(ps[i], path, level)
    requires forall j | k <= j < i :: !Hit(ps[j], path, level)
    ensures ScanFrom(ps, path, level, k)
      == if level + 1 == |path| then Some(ps[i]) else FindInPath(ps[i].children, path, level + 1)
    decreases i - k
  {
    if k < i {
      ScanFirstHit(ps, path, level, k + 1, i);
    }
  }

  lemma {:induction false} ScanNoHit(ps: seq<Packager>, path: seq<string>, level: nat, k: nat)
    requires level < |path| && forall j | k <= j < |ps| :: !Hit(ps[j], path, level)
    ensures ScanFrom(ps, path, level, k) == None
    decreases |ps| - k
  {
    if k < |ps| {
      ScanNoHit(ps, path, level, k + 1);
    }
  }

  /**
   * The search fails past the end of the path. Otherwise it stops at the first
   * packager named `path[level]` that ends the path or is a group: it returns
   * that packager at the last step, and else whatever the search among the
   * group's children returns, even nothing, without trying later siblings.
   * Same-named packagers that are not groups are passed over on the way.
   */
  lemma FindInPathSpec(ps: seq<Packager>, path: seq<string>, level: nat, i: nat)
    ensures level >= |path| ==> FindInPath(ps, path, level) == None
    ensures level < |path| && (forall j | 0 <= j < |ps| :: !Hit(ps[j], path, level)) ==>
      FindInPath(ps, path, level) == None
    ensures (level < |path| && i < |ps| && Hit(ps[i], path, level)
             && forall j | 0 <= j < i :: !Hit(ps[j], path, level)) ==>
      FindInPath(ps, path, level)
        == if level + 1 == |path| then Some(ps[i]) else FindInPath(ps[i].children, path, level + 1)
  {
    if level < |path| {
      if forall j | 0 <= j < |ps| :: !Hit(ps[j], path, level) {
        ScanNoHit(ps, path, level, 0);
      }
      if i < |ps| && Hit(ps[i], path, level) && forall j | 0 <= j < i :: !Hit(ps[j], path, level) {
        ScanFirstHit(ps, path, level, 0, i);
      }
    }
  }

  /**
   * `route` leads from `ps` down the path from `level` on: its first packager
   * is one of `ps`, each is named by its step of the path, and each but the
   * last is a group holding the next.
   */
  ghost predicate IsRoute(ps: seq<Packager>, path: seq<string>, level: nat, route: seq<Packager>) {
    && level < |path|
    && |route| == |path| - level
    && route[0] in ps
    && (forall j | 0 <= j < |route| :: route[j].name == path[level + j])
    && (forall j | 0 <= j < |route| - 1 :: route[j].Group? && route[j + 1] in route[j].children)
  }

  /** A packager found at the end of a route is named by the last step of the path. */
  lemma {:induction false} FindRoute(ps: seq<Packager>, path: seq<string>, level: nat)
    requires FindInPath(ps, path, level).Some?
    ensures exists route ::
      IsRoute(ps, path, level, route) && route[|route| - 1] == FindInPath(ps, path, level).value
    decreases ps, 1, 0
  {
    ScanRoute(ps, path, level, 0);
  }

  lemma {:induction false} ScanRoute(ps: seq<Packager>, path: seq<string>, level: nat, k: nat)
    requires level < |path| && ScanFrom(ps, path, level, k).Some?
    ensures exists route ::
      IsRoute(ps, path, level, route) && route[|route| - 1] == ScanFrom(ps, path, level, k).value
    decreases ps, 0, |ps| - k
  {
    var found := ScanFrom(ps, path, level, k).value;
    if ps[k].name == path[level] && level + 1 == |path| {
      assert IsRoute(ps, path, level, [ps[k]]);
    } else if ps[k].name == path[level] && ps[k].Group? {
      var cs := ps[k].children;
      FindRoute(cs, path, level + 1);
      var sub :| IsRoute(cs, path, level + 1, sub) && sub[|sub| - 1] == found;
      var route := [ps[k]] + sub;
      forall j | 0 <= j < |route|
        ensures route[j].name == path[level + j]
      {
        if j > 0 {
          assert route[j] == sub[j - 1];
        }
      }
      forall j | 0 <= j < |route| - 1
        ensures route[j].Group? && route[j + 1] in route[j].children
      {
        if j > 0 {
          assert route[j] == sub[j - 1] && route[j + 1] == sub[j];
        }
      }
      assert IsRoute(ps, path, level, route) && route[|route| - 1] == found;
    } else {
      ScanRoute(ps, path, level, k + 1);
    }
  }

  /**
   * The search does not back up: a first group of the right name that lacks
   * the rest of the path hides a later group of that name that has it.
   */
  lemma NoBacktracking()
    ensures FindInPath([Group("a", []), Group("a", [Base("b")])], ["a", "b"]) == None
    ensures FindInPath([Group("a", [Base("b")])], ["a", "b"]) == Some(Base("b"))
  {
    var path := ["a", "b"];
    FindInPathSpec([Group("a", []), Group("a", [Base("b")])], path, 0, 0);
    FindInPathSpec([], path, 1, 0);
    FindInPathSpec([Group("a", [Base("b")])], path, 0, 0);
    FindInPathSpec([Base("b")], path, 1, 0);
  }

  // ---------------------------------------------------------------------------
  // finding a module's packager

  /** `filter(lambda it: len(it) > 0, parts)` */
  function NonEmpty(parts: seq<string>): (r: seq<string>)
    ensures forall i | 0 <= i < |r| :: |r[i]| > 0
  {
    if |parts| == 0 then []
    else (if |parts[0]| > 0 then [parts[0]] else []) + NonEmpty(parts[1..])
  }

  /** The non-empty `/`-separated segments of a path. */
  function PathParts(s: string): seq<string> {
    NonEmpty(Strs.Split(s, '/'))
  }

  lemma {:induction false} NonEmptyKeeps(parts: seq<string>)
    requires forall i | 0 <= i < |parts| :: |parts[i]| > 0
    ensures NonEmpty(parts) == parts
  {
    if |parts| > 0 {
      NonEmptyKeeps(parts[1..]);
    }
  }

  /** The filter keeps a single segment exactly when it is non-empty. */
  lemma NonEmptySingle(s: string)
    ensures NonEmpty([s]) == if |s| > 0 then [s] else []
  {
    assert [s][1..] == [];
  }

  /** The filter keeps the order: filtering a concatenation concatenates the filtered halves. */
  lemma {:induction false} NonEmptyConcat(a: seq<string>, b: seq<string>)
    ensures NonEmpty(a + b) == NonEmpty(a) + NonEmpty(b)
  {
    if |a| == 0 {
      assert a + b == b;
    } else {
      assert (a + b)[0] == a[0];
      assert (a + b)[1..] == a[1..] + b;
      NonEmptyConcat(a[1..], b);
    }
  }

  /**
   * Splitting a `/`-join of `/`-free segments at `/` and dropping the empty
   * segments gives the non-empty segments in order (all of them, when none is
   * empty); and a leading `/` changes nothing.
   */
  lemma PathPartsSpec(parts: seq<string>, s: string)
    requires forall i | 0 <= i < |parts| :: '/' !in parts[i]
    ensures PathParts(Strs.Join(parts, '/')) == NonEmpty(parts)
    ensures (forall i | 0 <= i < |parts| :: |parts[i]| > 0) ==> PathParts(Strs.Join(parts, '/')) == parts
    ensures PathParts("/" + s) == PathParts(s)
  {
    if |parts| > 0 {
      Strs.SplitJoin(parts, '/');
    } else {
      assert Strs.Split("", '/') == [""];
      assert NonEmpty([""]) == [];
    }
    if forall i | 0 <= i < |parts| :: |parts[i]| > 0 {
      NonEmptyKeeps(parts);
    }
    Strs.SplitCons("", '/', s);
    assert "" + ['/'] + s == "/" + s;
  }

  /** Every module's packager dict is well formed. */
  ghost predicate PackagesValid(modules: Dict<string, LoytraModule>) {
    forall k | k in modules.entries :: modules.entries[k].packages.Valid()
  }

  /**
   * What `_find_module_packager_in_path` finds: the module instance named by
   * the first segment, and the packager the rest of the path leads to in it.
   */
  function ModulePackager(modules: Dict<string, LoytraModule>, s: string): (Option<LoytraModule>, Option<Packager>)
    requires PackagesValid(modules)
  {
    var parts := PathParts(s);
    if |parts| == 0 || parts[0] !in modules.entries || !modules.entries[parts[0]].instance then (None, None)
    else
      var m := modules.entries[parts[0]];
      (Some(m), FindInPath(m.packages.Values(), parts[1..]))
  }

  /** `_find_module_packager_in_path` */
  method FindModulePackagerInPath(modules: Dict<string, LoytraModule>, s: string)
    returns (foundModule: Option<LoytraModule>, foundPackager: Option<Packager>)
    requires modules.Valid() && PackagesValid(modules)
    ensures (foundModule, foundPackager) == ModulePackager(modules, s)
  {
    foundModule, foundPackager := None, None;
    var parts := PathParts(s);
    if |parts| > 0 {
      var target := parts[0];
      var i := 0;
      while i < |modules.keys|
        invariant 0 <= i <= |modules.keys|
        invariant (foundModule, foundPackager)
          == if target in modules.keys[..i] then ModulePackager(modules, s) else (None, None)
      {
        var name := modules.keys[i];
        var m := modules.entries[name];
        assert modules.keys[..i + 1] == modules.keys[..i] + [name];
        if name == target && m.instance {
          foundModule := Some(m);
          foundPackager := FindInPath(m.packages.Values(), parts[1..]);
          if foundPackager.Some? {
            break;
          }
        }
        i := i + 1;
      }
      assert modules.keys[..|modules.keys|] == modules.keys;
    }
  }

  /**
   * An empty path finds nothing; a packager is only found inside a module
   * instance; naming only the module finds the module but no packager.
   */
  lemma ModulePackagerSpec(modules: Dict<string, LoytraModule>, s: string, m: string)
    requires PackagesValid(modules)
    ensures PathParts(s) == [] ==> ModulePackager(modules, s) == (None, None)
    ensures ModulePackager(modules, s).1.Some? ==>
      ModulePackager(modules, s).0.Some? && ModulePackager(modules, s).0.value.instance
    ensures |m| > 0 && '/' !in m && m in modules.entries && modules.entries[m].instance ==>
      ModulePackager(modules, m) == (Some(modules.entries[m]), None)
  {
    if |m| > 0 && '/' !in m {
      assert Strs.Split(m, '/') == [m];
      assert [m][1..] == [];
      assert NonEmpty([m]) == [m] + NonEmpty([]);
    }
  }

  // ---------------------------------------------------------------------------
  // listing

  /** One line of the packager listing: the packager, its depth, and whether it is a group. */
  datatype ListEntry = ListEntry(packager: Packager, level: nat, isGroup: bool)

  /** `_traverse_packagers_for_list(packagers, level)`, as the list of what it yields. */
  function Traverse(ps: seq<Packager>, level: nat := 0): seq<ListEntry>
    decreases ps, 1, 0
  {
    TraverseFrom(ps, level, 0)
  }

  /** The entries for the packagers from the `i`-th on. */
  function TraverseFrom(ps: seq<Packager>, level: nat, i: nat): seq<ListEntry>
    decreases ps, 0, |ps| - i
  {
    if i >= |ps| then []
    else
      var p := ps[i];
      (if p.Group? then [ListEntry(p, level, true)] + Traverse(p.children, level + 1)
       else [ListEntry(p, level, false)])
      + TraverseFrom(ps, level, i + 1)
  }

  /** The packagers of the entries at `level`, in order. */
  function AtLevel(es: seq<ListEntry>, level: nat): seq<Packager> {
    if |es| == 0 then []
    else (if es[0].level == level then [es[0].packager] else []) + AtLevel(es[1..], level)
  }

  /**
   * From one entry to the next the depth grows by one exactly after a group
   * with children (the next entry is its first child), and never by more.
   */
  ghost predicate Step(e: ListEntry, f: ListEntry) {
    f.level <= e.level + 1
    && (f.level == e.level + 1 <==> e.packager.Group? && |e.packager.children| > 0)
  }

  ghost predicate Preorder(es: seq<ListEntry>) {
    forall k | 0 <= k < |es| - 1 :: Step(es[k], es[k + 1])
  }

  /** The entries of a listing that starts at `level`. */
  ghost predicate Listing(es: seq<ListEntry>, level: nat) {
    && Preorder(es)
    && (forall k | 0 <= k < |es| :: es[k].level >= level && es[k].isGroup == es[k].packager.Group?)
    && (|es| > 0 ==> es[0].level == level)
    && (|es| > 0 ==> !(es[|es| - 1].packager.Group? && |es[|es| - 1].packager.children| > 0))
  }

  /** The number of packagers in `ps` and, for groups, in their subtrees. */
  function Count(ps: seq<Packager>): nat
    decreases ps, 1, 0
  {
    CountFrom(ps, 0)
  }

  function CountFrom(ps: seq<Packager>, i: nat): nat
    decreases ps, 0, |ps| - i
  {
    if i >= |ps| then 0
    else
      var p := ps[i];
      1 + (if p.Group? then Count(p.children) else 0) + CountFrom(ps, i + 1)
  }

  /**
   * How many entries from the start of `es` lie deeper than `level`: the
   * index of the first entry at `level` or above, or `|es|`.
   */
  function Boundary(es: seq<ListEntry>, level: nat): (n: nat)
    ensures n <= |es|
    ensures forall j | 0 <= j < n :: es[j].level > level
    ensures n < |es| ==> es[n].level <= level
  {
    if |es| == 0 || es[0].level <= level then 0
    else
      var n := 1 + Boundary(es[1..], level);
      assert forall j | 1 <= j < n :: es[j] == es[1..][j - 1];
      n
  }

  /**
   * The entry at `k`, when it is a group's, is followed by its own subtree: the
   * entries after it, up to the next one at its depth or above, list its
   * children one level down.
   */
  ghost predicate SubtreeAt(es: seq<ListEntry>, k: nat)
    requires k < |es|
  {
    es[k].packager.Group? ==>
      AtLevel(es[k + 1..][..Boundary(es[k + 1..], es[k].level)], es[k].level + 1) == es[k].packager.children
  }

  /** Every group's entry is followed by its own subtree. */
  ghost predicate Subtrees(es: seq<ListEntry>) {
    forall k | 0 <= k < |es| :: SubtreeAt(es, k)
  }

  /** The boundary is the one index with its two properties. */
  lemma BoundaryUnique(es: seq<ListEntry>, level: nat, n: nat)
    requires n <= |es|
    requires forall j | 0 <= j < n :: es[j].level > level
    requires n < |es| ==> es[n].level <= level
    ensures Boundary(es, level) == n
  {
  }

  /** Entries after a stretch do not move its boundary when the next one is at `level` or above. */
  lemma BoundaryPrefix(x: seq<ListEntry>, y: seq<ListEntry>, level: nat)
    requires |y| > 0 ==> y[0].level <= level
    ensures Boundary(x + y, level) == Boundary(x, level)
  {
    var n := Boundary(x, level);
    forall j | 0 <= j < n
      ensures (x + y)[j].level > level
    {
      assert (x + y)[j] == x[j];
    }
    if n < |x| {
      assert (x + y)[n] == x[n];
    } else if |y| > 0 {
      assert (x + y)[n] == y[0];
    }
    BoundaryUnique(x + y, level, n);
  }

  /** An entry of the first stretch keeps its subtree when a stretch starting at `level` follows. */
  lemma SubtreeAtLeft(a: seq<ListEntry>, b: seq<ListEntry>, level: nat, k: nat)
    requires k < |a| && SubtreeAt(a, k) && a[k].level >= level
    requires |b| > 0 ==> b[0].level == level
    ensures SubtreeAt(a + b, k)
  {
    var es := a + b;
    assert es[k] == a[k];
    assert es[k + 1..] == a[k + 1..] + b;
    BoundaryPrefix(a[k + 1..], b, a[k].level);
    var n := Boundary(a[k + 1..], a[k].level);
    assert es[k + 1..][..n] == a[k + 1..][..n];
  }

  /** An entry keeps its subtree when entries are put in front of it. */
  lemma SubtreeAtRight(a: seq<ListEntry>, b: seq<ListEntry>, k: nat)
    requires k < |b| && SubtreeAt(b, k)
    ensures SubtreeAt(a + b, |a| + k)
  {
    var es := a + b;
    assert es[|a| + k] == b[k];
    assert es[|a| + k + 1..] == b[k + 1..];
  }

  /** Two stretches each listing their subtrees, the second starting at the first's top depth. */
  lemma SubtreesAppend(a: seq<ListEntry>, b: seq<ListEntry>, level: nat)
    requires Subtrees(a) && Subtrees(b)
    requires forall k | 0 <= k < |a| :: a[k].level >= level
    requires |b| > 0 ==> b[0].level == level
    ensures Subtrees(a + b)
  {
    forall k | 0 <= k < |a + b|
      ensures SubtreeAt(a + b, k)
    {
      if k < |a| {
        SubtreeAtLeft(a, b, level, k);
      } else {
        SubtreeAtRight(a, b, k - |a|);
      }
    }
  }

  /** A group's entry followed by a listing of its children one level down. */
  lemma SubtreesGroup(g: Packager, level: nat, sub: seq<ListEntry>)
    requires g.Group? && Subtrees(sub) && AtLevel(sub, level + 1) == g.children
    requires forall k | 0 <= k < |sub| :: sub[k].level > level
    ensures Subtrees([ListEntry(g, level, true)] + sub)
  {
    var es := [ListEntry(g, level, true)] + sub;
    BoundaryUnique(sub, level, |sub|);
    SubtreeAtGroupHead(g, level, sub);
    forall k | 0 <= k < |es|
      ensures SubtreeAt(es, k)
    {
      if k > 0 {
        SubtreeAtRight([ListEntry(g, level, true)], sub, k - 1);
      }
    }
  }

  /** The group's own entry is followed by exactly its children's listing. */
  lemma SubtreeAtGroupHead(g: Packager, level: nat, sub: seq<ListEntry>)
    requires g.Group? && AtLevel(sub, level + 1) == g.children && Boundary(sub, level) == |sub|
    ensures SubtreeAt([ListEntry(g, level, true)] + sub, 0)
  {
    var es := [ListEntry(g, level, true)] + sub;
    var rest := es[1..];
    assert es[0] == ListEntry(g, level, true) && rest == sub;
    assert rest[..Boundary(rest, level)] == sub;
  }

  lemma AtLevelAppend(a: seq<ListEntry>, b: seq<ListEntry>, level: nat)
    ensures AtLevel(a + b, level) == AtLevel(a, level) + AtLevel(b, level)
  {
    if |a| > 0 {
      AtLevelAppend(a[1..], b, level);
      assert (a + b)[1..] == a[1..] + b;
    } else {
      assert a + b == b;
    }
  }

  lemma {:induction false} AtLevelDeeper(es: seq<ListEntry>, level: nat)
    requires forall k | 0 <= k < |es| :: es[k].level > level
    ensures AtLevel(es, level) == []
  {
    if |es| > 0 {
      AtLevelDeeper(es[1..], level);
    }
  }

  lemma ListingAppend(a: seq<ListEntry>, b: seq<ListEntry>, level: nat)
    requires Listing(a, level) && Listing(b, level)
    ensures Listing(a + b, level)
  {
    var es := a + b;
    forall k | 0 <= k < |es| - 1
      ensures Step(es[k], es[k + 1])
    {
      if k < |a| - 1 {
        assert es[k] == a[k] && es[k + 1] == a[k + 1];
      } else if k == |a| - 1 {
        assert es[k] == a[|a| - 1] && es[k + 1] == b[0];
      } else {
        assert es[k] == b[k - |a|] && es[k + 1] == b[k - |a| + 1];
      }
    }
  }

  /** The entries of one packager: the packager itself, then, for a group, its subtree one level down. */
  function Entries(p: Packager, level: nat, sub: seq<ListEntry>): seq<ListEntry> {
    if p.Group? then [ListEntry(p, level, true)] + sub else [ListEntry(p, level, false)]
  }

  lemma EntriesListing(p: Packager, level: nat, sub: seq<ListEntry>)
    requires p.Group? ==> Listing(sub, level + 1) && (|sub| > 0 <==> |p.children| > 0)
    ensures Listing(Entries(p, level, sub), level)
    ensures AtLevel(Entries(p, level, sub), level) == [p]
  {
    var es := Entries(p, level, sub);
    if p.Group? {
      forall k | 0 <= k < |es| - 1
        ensures Step(es[k], es[k + 1])
      {
        if k > 0 {
          assert es[k] == sub[k - 1] && es[k + 1] == sub[k];
        }
      }
      AtLevelDeeper(sub, level);
      AtLevelAppend([ListEntry(p, level, true)], sub, level);
    }
  }

  /** One packager's entries followed by a listing of its later siblings. */
  lemma EntriesThenRest(p: Packager, level: nat, sub: seq<ListEntry>, rest: seq<ListEntry>, tail: seq<Packager>)
    requires p.Group? ==> Listing(sub, level + 1) && (|sub| > 0 <==> |p.children| > 0)
    requires Listing(rest, level) && AtLevel(rest, level) == tail
    ensures Listing(Entries(p, level, sub) + rest, level)
    ensures AtLevel(Entries(p, level, sub) + rest, level) == [p] + tail
  {
    EntriesListing(p, level, sub);
    ListingAppend(Entries(p, level, sub), rest, level);
    AtLevelAppend(Entries(p, level, sub), rest, level);
  }

  /**
   * The listing is a preorder walk: it starts at the given depth, goes one
   * level down exactly after a group with children, and each entry's flag says
   * whether its packager is a group. The entries at the starting depth are the
   * given packagers, in order; each group's entry is followed by its own
   * subtree; and there is one entry per packager.
   */
  lemma {:induction false} TraverseSpec(ps: seq<Packager>, level: nat)
    ensures Listing(Traverse(ps, level), level)
    ensures AtLevel(Traverse(ps, level), level) == ps
    ensures |ps| > 0 <==> |Traverse(ps, level)| > 0
    ensures Subtrees(Traverse(ps, level))
    ensures |Traverse(ps, level)| == Count(ps)
    decreases ps, 1, 0
  {
    TraverseFromSpec(ps, level, 0);
  }

  lemma {:induction false} TraverseFromSpec(ps: seq<Packager>, level: nat, i: nat)
    requires i <= |ps|
    ensures Listing(TraverseFrom(ps, level, i), level)
    ensures AtLevel(TraverseFrom(ps, level, i), level) == ps[i..]
    ensures i < |ps| <==> |TraverseFrom(ps, level, i)| > 0
    ensures Subtrees(TraverseFrom(ps, level, i))
    ensures |TraverseFrom(ps, level, i)| == CountFrom(ps, i)
    decreases ps, 0, |ps| - i
  {
    if i < |ps| {
      var p := ps[i];
      TraverseFromSpec(ps, level, i + 1);
      var sub := if p.Group? then Traverse(p.children, level + 1) else [];
      var rest := TraverseFrom(ps, level, i + 1);
      if p.Group? {
        TraverseSpec(p.children, level + 1);
        SubtreesGroup(p, level, sub);
      } else {
        assert SubtreeAt([ListEntry(p, level, false)], 0);
      }
      EntriesThenRest(p, level, sub, rest, ps[i + 1..]);
      assert TraverseFrom(ps, level, i) == Entries(p, level, sub) + rest;
      SubtreesAppend(Entries(p, level, sub), rest, level);
      Uncons(ps, i);
    }
  }

  lemma Uncons<T>(s: seq<T>, i: nat)
    requires i < |s|
    ensures s[i..] == [s[i]] + s[i + 1..]
  {
  }

  // ---------------------------------------------------------------------------
  // installing from a URL

  /** The URL `install` hands to `Moduler`: `https://` removed everywhere, then one trailing `.git`, then one trailing `/`. */
  function NormalisedUrl(moduleName: string): string {
    Strs.RemoveSuffix(Strs.RemoveSuffix(Strs.RemoveAll(moduleName, "https://"), ".git"), "/")
  }

  /** The folder the module is expected in: the last `/`-segment of the URL. */
  function UrlFolderName(moduleName: string): string {
    var parts := Strs.Split(NormalisedUrl(moduleName), '/');
    parts[|parts| - 1]
  }

  /**
   * For `https://<base>/<repo>` with or without `.git` or a trailing `/`, the
   * URL loses its scheme and suffix, and the folder is the repository's name.
   */
  lemma UrlFolderNameSpec(base: string, repo: string, suffix: string)
    requires ':' !in base && ':' !in repo && '/' !in repo && |repo| > 0 && !Strs.EndsWith(repo, ".git")
    requires suffix == "" || suffix == "/" || suffix == ".git"
    ensures NormalisedUrl("https://" + base + "/" + repo + suffix) == base + "/" + repo
    ensures UrlFolderName("https://" + base + "/" + repo + suffix) == repo
  {
    var url := base + "/" + repo;
    var full := "https://" + base + "/" + repo + suffix;
    assert full == "https://" + (url + suffix) by {
      Prepended("https://", base, "/", repo, suffix);
    }
    assert NormalisedUrl(full) == url by {
      SchemeRemoved(url + suffix);
      UrlSuffixes(base, repo, suffix);
    }
    Strs.SplitLast(base, '/', repo);
  }

  lemma Prepended<T>(a: seq<T>, b: seq<T>, c: seq<T>, d: seq<T>, e: seq<T>)
    ensures a + b + c + d + e == a + (b + c + d + e)
  {
  }

  lemma SchemeRemoved(rest: string)
    requires ':' !in rest
    ensures Strs.RemoveAll("https://" + rest, "https://") == rest
  {
    var s := "https://" + rest;
    assert s[..|"https://"|] == "https://";
    assert s[|"https://"|..] == rest;
    Strs.RemoveAllAbsent(rest, "https://", ':');
  }

  lemma LastOfSuffix(s: string, p: string)
    requires Strs.EndsWith(s, p) && |p| > 0
    ensures s[|s| - 1] == p[|p| - 1]
  {
    assert s[|s| - 1] == s[|s| - |p|..][|p| - 1];
  }

  lemma UrlSuffixes(base: string, repo: string, suffix: string)
    requires suffix == "" || suffix == "/" || suffix == ".git"
    requires |repo| > 0 && !Strs.EndsWith(repo, ".git") && '/' !in repo
    ensures var url := base + "/" + repo;
      Strs.RemoveSuffix(Strs.RemoveSuffix(url + suffix, ".git"), "/") == url
  {
    var url := base + "/" + repo;
    assert url[|url| - 1] == repo[|repo| - 1];
    assert repo[|repo| - 1] in repo;
    if Strs.EndsWith(url, "/") {
      LastOfSuffix(url, "/");
    }
    if suffix == ".git" {
      assert (url + suffix)[|url + suffix| - 4..] == ".git";
      assert (url + suffix)[..|url + suffix| - 4] == url;
    } else if suffix == "/" {
      if Strs.EndsWith(url + suffix, ".git") {
        LastOfSuffix(url + suffix, ".git");
      }
      assert (url + suffix)[..|url + suffix| - 1] == url;
    } else {
      assert url + suffix == url;
      NoGitSuffix(base, repo);
    }
  }

  /** `<base>/<repo>` does not end with `.git` when the repository name does not. */
  lemma NoGitSuffix(base: string, repo: string)
    requires |repo| > 0 && !Strs.EndsWith(repo, ".git") && '/' !in repo
    ensures !Strs.EndsWith(base + "/" + repo, ".git")
  {
    var url := base + "/" + repo;
    if |repo| >= 4 {
      assert url[|url| - 4..] == repo[|repo| - 4..];
    } else if |url| >= 4 {
      var k := |url| - |repo| - 1;
      assert url[|url| - 4..][k - (|url| - 4)] == '/';
    }
  }

}
