/**
 * `LoytraModule`: what a module's `__loytra_module__.py` exports: its name,
 * its installer, its services and packagers, and its place in the module list.
 */
module ModuleSpecs {
  import opened Wrappers
  import opened Dicts
  import Servicers
  import Packagers

  /**
   * The module's installer (`Moduler`). Only whether it reports the module as
   * installed is visible to the rest of the model; its git and pip work is not.
   */
  datatype Moduler = Moduler(installed: bool)

  /**
   * `LoytraModule`. `instance` says whether the object is a
   * `LoytraModuleInstance`, the subclass the command line asks for before it
   * treats a module as installed; that subclass is not part of this model.
   */
  datatype LoytraModule = LoytraModule(
    moduleName: string,
    moduler: Moduler,
    services: Dict<string, Servicers.Servicer>,
    packages: Dict<string, Packagers.Packager>,
    sortIndex: int,
    instance: bool)

  function NameOf(p: Packagers.Packager): string {
    p.name
  }

  /** The packagers of a list, keyed by name; a later entry replaces an earlier one of the same name. */
  function PackagerMap(ps: seq<Packagers.Packager>): (d: Dict<string, Packagers.Packager>)
    ensures d.Valid()
  {
    FromList(ps, NameOf)
  }

  /** `LoytraModule(module_name, moduler, services=None, packages=None, sort_index=-1)` */
  function NewModule(moduleName: string, moduler: Moduler,
                     services: Option<Dict<string, Servicers.Servicer>> := None,
                     packages: Option<seq<Packagers.Packager>> := None,
                     sortIndex: int := -1, instance: bool := false): (m: LoytraModule)
    ensures m.moduleName == moduleName && m.moduler == moduler && m.instance == instance
    ensures m.packages.Valid()
  {
    LoytraModule(moduleName, moduler,
                 if services.Some? then services.value else Empty(),
                 PackagerMap(if packages.Some? then packages.value else []),
                 sortIndex, instance)
  }

  /** Left out, `services` and `packages` are empty and the sort index is -1. */
  lemma NewModuleDefaults(moduleName: string, moduler: Moduler)
    ensures var m := NewModule(moduleName, moduler);
      m.services.keys == [] && m.services.entries == map[]
      && m.packages.keys == [] && m.packages.entries == map[]
      && m.sortIndex == -1
  {
  }

  /** A given `services` dict is kept as it is. */
  lemma NewModuleServices(moduleName: string, moduler: Moduler, services: Dict<string, Servicers.Servicer>,
                          packages: Option<seq<Packagers.Packager>>, sortIndex: int)
    ensures NewModule(moduleName, moduler, Some(services), packages, sortIndex).services == services
  {
  }

  /**
   * The packager map has exactly the names of the list as keys, and each name
   * maps to the last packager of the list that carries it.
   */
  lemma PackagerMapSpec(ps: seq<Packagers.Packager>)
    ensures forall i | 0 <= i < |ps| :: ps[i].name in PackagerMap(ps).entries
    ensures forall k | k in PackagerMap(ps).entries :: exists i | 0 <= i < |ps| :: ps[i].name == k
    ensures forall i | 0 <= i < |ps| && (forall j | i < j < |ps| :: ps[j].name != ps[i].name) ::
      PackagerMap(ps).entries[ps[i].name] == ps[i]
  {
    FromListKeys(ps, NameOf);
    forall i | 0 <= i < |ps| && (forall j | i < j < |ps| :: ps[j].name != ps[i].name)
      ensures PackagerMap(ps).entries[ps[i].name] == ps[i]
    {
      FromListLastWins(ps, NameOf, i);
    }
  }

  /** Of two packagers with one name, the later one is the one kept. */
  lemma LaterPackagerWins(a: Packagers.Packager, b: Packagers.Packager)
    requires a.name == b.name
    ensures PackagerMap([a, b]).entries == map[a.name := b]
    ensures PackagerMap([a, b]).keys == [a.name]
  {
    assert [a, b][..1] == [a] && [a][..0] == [];
    assert FromList([a], NameOf) == Empty().Put(a.name, a);
  }
}
