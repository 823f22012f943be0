/**
 * Finding the installed modules: every folder under the modules' parent
 * folder that holds a `__loytra_module__.py` contributes the modules its
 * export names; they are ordered by sort index and keyed by module name.
 */
module ModuleFinder {
  import opened Wrappers
  import opened Dicts
  import Strs
  import opened ModuleSpecs
  import StableSorts

  /** `LOYTRA_MODULE_FILE` */
  const LOYTRA_MODULE_FILE := "__loytra_module__.py"

  /** The sort key of a module without a sort index (a negative one). */
  const UNSORTED_KEY := 999999

  // ---------------------------------------------------------------------------
  // paths

  /** `_get_loytra_module_folder_path`; `parent` is the modules' parent folder. */
  function ModuleFolderPath(parent: string, folder: string): string {
    parent + "/" + folder
  }

  /** `_get_loytra_module_file_path` */
  function ModuleFilePath(parent: string, folder: string): string {
    ModuleFolderPath(parent, folder) + "/" + LOYTRA_MODULE_FILE
  }

  /**
   * The module file lies directly in the folder under the parent: the folder
   * name is recovered from the file path.
   */
  lemma ModuleFilePathRoundTrip(parent: string, folder: string)
    ensures var p := ModuleFilePath(parent, folder);
      && Strs.StartsWith(p, ModuleFolderPath(parent, folder) + "/")
      && Strs.EndsWith(p, "/" + LOYTRA_MODULE_FILE)
      && Strs.RemoveSuffix(Strs.RemovePrefix(p, parent + "/"), "/" + LOYTRA_MODULE_FILE) == folder
  {
    var p := ModuleFilePath(parent, folder);
    var file := "/" + LOYTRA_MODULE_FILE;
    assert p == (parent + "/") + folder + file;
    assert p[..|parent + "/"|] == parent + "/";
    assert Strs.RemovePrefix(p, parent + "/") == folder + file;
    assert (folder + file)[|folder + file| - |file|..] == file;
    assert (folder + file)[..|folder|] == folder;
    assert p == (parent + "/" + folder + "/") + LOYTRA_MODULE_FILE;
    assert p[..|parent + "/" + folder + "/"|] == parent + "/" + folder + "/";
    assert p[|p| - |file|..] == file;
  }

  // ---------------------------------------------------------------------------
  // parsing an export

  /** An element of an exported list: a `LoytraModule`, or an object of any other type. */
  datatype Item = ModuleItem(loytraModule: LoytraModule) | OtherItem

  /** The value a module file binds to `__loytra_module__`. */
  datatype Export =
    | SingleExport(single: LoytraModule)
    | ListExport(items: seq<Item>)
    | OtherExport

  /** The modules of a list, in list order. */
  function ModulesOf(items: seq<Item>): (ms: seq<LoytraModule>)
    ensures |ms| <= |items|
  {
    if |items| == 0 then []
    else
      var last := items[|items| - 1];
      ModulesOf(items[..|items| - 1]) + (if last.ModuleItem? then [last.loytraModule] else [])
  }

  /** What `_parse_loytra_module_export` returns, or that it raises `RuntimeError`. */
  function ParsedExport(e: Export): Outcome<seq<LoytraModule>> {
    match e
    case ListExport(items) => Returns(ModulesOf(items))
    case SingleExport(m) => Returns([m])
    case OtherExport => Raises
  }

  /** `_parse_loytra_module_export` */
  method ParseExport(e: Export) returns (r: Outcome<seq<LoytraModule>>)
    ensures r == ParsedExport(e)
  {
    if e.ListExport? {
      var result := [];
      for i := 0 to |e.items|
        invariant result == ModulesOf(e.items[..i])
      {
        assert e.items[..i + 1][..i] == e.items[..i];
        if e.items[i].ModuleItem? {
          result := result + [e.items[i].loytraModule];
        }
      }
      assert e.items[..|e.items|] == e.items;
      r := Returns(result);
    } else if e.SingleExport? {
      r := Returns([e.single]);
    } else {
      r := Raises;
    }
  }

  /** A list export keeps exactly its modules; a list without one gives none. */
  lemma {:induction false} ModulesOfMembers(items: seq<Item>)
    ensures forall m :: m in ModulesOf(items) <==> ModuleItem(m) in items
    ensures (forall i | 0 <= i < |items| :: items[i].OtherItem?) ==> ModulesOf(items) == []
  {
    if |items| > 0 {
      var init := items[..|items| - 1];
      ModulesOfMembers(init);
      assert items == init + [items[|items| - 1]];
    }
  }

  /** A list export keeps its modules in list order. */
  lemma {:induction false} ModulesOfAppend(a: seq<Item>, b: seq<Item>)
    ensures ModulesOf(a + b) == ModulesOf(a) + ModulesOf(b)
    decreases |b|
  {
    if |b| == 0 {
      assert a + b == a;
    } else {
      var init := b[..|b| - 1];
      ModulesOfAppend(a, init);
      assert (a + b)[..|a + b| - 1] == a + init;
    }
  }

  /** Only an export that is neither a list nor a module raises; a module export is a list of one. */
  lemma ParsedExportSpec(e: Export)
    ensures ParsedExport(e).Raises? <==> e.OtherExport?
    ensures e.SingleExport? ==> ParsedExport(e) == Returns([e.single])
    ensures e.ListExport? ==>
      ParsedExport(e).Returns? && forall m :: m in ParsedExport(e).value <==> ModuleItem(m) in e.items
  {
    if e.ListExport? {
      ModulesOfMembers(e.items);
    }
  }

  // ---------------------------------------------------------------------------
  // loading the modules of every folder

  /**
   * What one folder contributes: nothing without a module file, nothing when
   * loading the file or parsing its export raises. `pathExists` answers whether a
   * path exists; `load` gives the export of a module file, `None` when importing
   * it raises.
   */
  function FolderModules(parent: string, folder: string, pathExists: string -> bool,
                         load: string -> Option<Export>): seq<LoytraModule> {
    var path := ModuleFilePath(parent, folder);
    if !pathExists(path) then []
    else match load(path)
      case None => []
      case Some(e) => match ParsedExport(e)
        case Raises => []
        case Returns(ms) => ms
  }

  /** The modules of the folders, folder by folder. */
  function Loaded(parent: string, folders: seq<string>, pathExists: string -> bool,
                  load: string -> Option<Export>): seq<LoytraModule> {
    if |folders| == 0 then []
    else Loaded(parent, folders[..|folders| - 1], pathExists, load)
         + FolderModules(parent, folders[|folders| - 1], pathExists, load)
  }

  /** `_get_loytra_modules`; `folders` lists the parent folder. */
  method GetModules(parent: string, folders: seq<string>, pathExists: string -> bool,
                    load: string -> Option<Export>) returns (ms: seq<LoytraModule>)
    ensures ms == Loaded(parent, folders, pathExists, load)
  {
    ms := [];
    for i := 0 to |folders|
      invariant ms == Loaded(parent, folders[..i], pathExists, load)
    {
      assert folders[..i + 1][..i] == folders[..i];
      var path := ModuleFilePath(parent, folders[i]);
      if pathExists(path) {
        var e := load(path);
        if e.Some? {
          var parsed := ParseExport(e.value);
          if parsed.Returns? {
            ms := ms + parsed.value;
          }
        }
      }
    }
    assert folders[..|folders|] == folders;
  }

  /** Folders whose module file is missing add nothing. */
  lemma {:induction false} MissingFilesSkipped(parent: string, folders: seq<string>, pathExists: string -> bool,
                                               load: string -> Option<Export>)
    requires forall i | 0 <= i < |folders| :: !pathExists(ModuleFilePath(parent, folders[i]))
    ensures Loaded(parent, folders, pathExists, load) == []
  {
    if |folders| > 0 {
      MissingFilesSkipped(parent, folders[..|folders| - 1], pathExists, load);
    }
  }

  /** `get_loytra_modules_by_folder_name`: no existence check, and a failing import or export raises. */
  function ModulesByFolderName(parent: string, folder: string,
                               load: string -> Option<Export>): Outcome<seq<LoytraModule>> {
    match load(ModuleFilePath(parent, folder))
    case None => Raises
    case Some(e) => ParsedExport(e)
  }

  /**
   * A folder with a module file adds to the module list exactly what loading
   * it by name returns, and nothing when that raises.
   */
  lemma FolderModulesByName(parent: string, folder: string, pathExists: string -> bool,
                            load: string -> Option<Export>)
    requires pathExists(ModuleFilePath(parent, folder))
    ensures var byName := ModulesByFolderName(parent, folder, load);
      FolderModules(parent, folder, pathExists, load) == if byName.Returns? then byName.value else []
  {
  }

  // ---------------------------------------------------------------------------
  // ordering

  /** The key `find_loytra_modules` sorts by. */
  function SortKey(m: LoytraModule): (k: int)
    ensures k >= 0
    ensures m.sortIndex >= 0 ==> k == m.sortIndex
  {
    if m.sortIndex >= 0 then m.sortIndex else UNSORTED_KEY
  }

  /** A module without a sort index sorts after every module with an index below 999999, and ties with none of them. */
  lemma UnsortedLast(a: LoytraModule, b: LoytraModule)
    requires a.sortIndex < 0 && 0 <= b.sortIndex < UNSORTED_KEY
    ensures SortKey(b) < SortKey(a)
  {
  }

  /** `sorted(modules, key=...)` of `find_loytra_modules` */
  function SortModules(ms: seq<LoytraModule>): seq<LoytraModule> {
    StableSorts.Sort(ms, SortKey)
  }

  /**
   * The modules come out ordered by key, as a permutation of the loaded ones,
   * and modules with equal keys keep their loading order.
   */
  lemma SortModulesSpec(ms: seq<LoytraModule>, k: int)
    ensures StableSorts.SortedBy(SortModules(ms), SortKey)
    ensures multiset(SortModules(ms)) == multiset(ms)
    ensures StableSorts.WithKey(SortModules(ms), SortKey, k) == StableSorts.WithKey(ms, SortKey, k)
  {
    StableSorts.SortSpec(ms, SortKey);
    StableSorts.SortStable(ms, SortKey, k);
  }

  // ---------------------------------------------------------------------------
  // keying by name

  function ModuleName(m: LoytraModule): string {
    m.moduleName
  }

  /** The loop of `find_loytra_modules` that keys the sorted modules by name. */
  method KeyByName(ms: seq<LoytraModule>) returns (d: Dict<string, LoytraModule>)
    ensures d == FromList(ms, ModuleName)
  {
    d := Empty();
    for i := 0 to |ms|
      invariant d == FromList(ms[..i], ModuleName)
    {
      assert ms[..i + 1][..i] == ms[..i];
      d := d.Put(ms[i].moduleName, ms[i]);
    }
    assert ms[..|ms|] == ms;
  }

  /** `find_loytra_modules` */
  method FindModules(parent: string, folders: seq<string>, pathExists: string -> bool,
                     load: string -> Option<Export>) returns (d: Dict<string, LoytraModule>)
    ensures d == FromList(SortModules(Loaded(parent, folders, pathExists, load)), ModuleName)
  {
    var ms := GetModules(parent, folders, pathExists, load);
    d := KeyByName(SortModules(ms));
  }

  /** The last index of `ms` holding a module named `k`, -1 when there is none. */
  function LastNamed(ms: seq<LoytraModule>, k: string): (i: int)
    ensures -1 <= i < |ms|
    ensures 0 <= i ==> ms[i].moduleName == k
    ensures forall j | i < j < |ms| :: ms[j].moduleName != k
  {
    if |ms| == 0 then -1
    else if ms[|ms| - 1].moduleName == k then |ms| - 1
    else LastNamed(ms[..|ms| - 1], k)
  }

  /** Every loaded module's name is a key, and every key is a loaded module's name. */
  lemma FoundModulesKeys(ms: seq<LoytraModule>)
    ensures var d := FromList(SortModules(ms), ModuleName);
      && (forall m | m in ms :: m.moduleName in d.entries)
      && (forall k | k in d.entries :: exists m | m in ms :: m.moduleName == k)
  {
    var s := SortModules(ms);
    StableSorts.SortPermutes(ms, SortKey);
    FromListKeys(s, ModuleName);
    forall m | m in ms
      ensures m.moduleName in FromList(s, ModuleName).entries
    {
      assert m in multiset(s);
      var i :| 0 <= i < |s| && s[i] == m;
      assert ModuleName(s[i]) == m.moduleName;
    }
    forall k | k in FromList(s, ModuleName).entries
      ensures exists m | m in ms :: m.moduleName == k
    {
      var i :| 0 <= i < |s| && ModuleName(s[i]) == k;
      assert s[i] in multiset(ms);
    }
  }

  /**
   * A name shared by loaded modules with different sort keys goes to the one
   * that sorts last; in particular one with a sort index below 999999 beats
   * one without.
   */
  lemma FoundModuleWinner(ms: seq<LoytraModule>, a: LoytraModule)
    requires a in ms
    requires forall b | b in ms && b.moduleName == a.moduleName && b != a :: SortKey(b) < SortKey(a)
    ensures a.moduleName in FromList(SortModules(ms), ModuleName).entries
    ensures FromList(SortModules(ms), ModuleName).entries[a.moduleName] == a
  {
    var s := SortModules(ms);
    var p := SortedPosition(ms, a);
    var i := LastNamed(s, a.moduleName);
    FromListLastWins(s, ModuleName, i);
    var b := s[i];
    assert b in ms by {
      StableSorts.SortPermutes(ms, SortKey);
      assert b in multiset(s);
    }
    assert SortKey(a) <= SortKey(b) by {
      StableSorts.SortSorted(ms, SortKey);
    }
  }

  /** Where a loaded module ends up in the sorted list. */
  lemma SortedPosition(ms: seq<LoytraModule>, a: LoytraModule) returns (p: nat)
    requires a in ms
    ensures p < |SortModules(ms)| && SortModules(ms)[p] == a
  {
    StableSorts.SortPermutes(ms, SortKey);
    assert a in multiset(SortModules(ms));
    p :| p < |SortModules(ms)| && SortModules(ms)[p] == a;
  }
}
