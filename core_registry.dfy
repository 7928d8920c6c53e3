// The application's module registry: the modules in the order added, no
// two with the same name. A module may veto its own registration through
// its OnAddRegistry hook.
module CoreRegistry {
  import opened Wrappers

  const ErrModuleConflict: string := "module conflict"

  /**
   * An application module as the registry and the module service see it:
   * its avatar, name and description, and what the optional interfaces it
   * implements answer (None: the interface is not implemented). The
   * registration hook's answer is its error, if any.
   */
  datatype AppModule = AppModule(
    avatar: string,
    name: string,
    desc: string,
    hasWeb: Option<bool>,
    enabled: Option<bool>,
    readOnly: Option<bool>,
    onAddRegistry: Option<string>)

  /** No two modules share a name. */
  predicate DistinctNames(modules: seq<AppModule>)
  {
    forall i, j :: 0 <= i < j < |modules| ==> modules[i].name != modules[j].name
  }

  /** Some module already has this name. */
  predicate HasName(modules: seq<AppModule>, name: string)
  {
    exists i :: 0 <= i < |modules| && modules[i].name == name
  }

  /** The first module with the given name, if any. */
  function ModuleNamed(modules: seq<AppModule>, name: string): (r: Option<AppModule>)
  {
    if modules == [] then None
    else if modules[0].name == name then Some(modules[0])
    else ModuleNamed(modules[1..], name)
  }

  /** ModuleNamed finds a module exactly when one has the name, and the one it finds is the first. */
  lemma {:induction false} ModuleNamedSpec(modules: seq<AppModule>, name: string)
    ensures ModuleNamed(modules, name).Some? <==> HasName(modules, name)
    ensures ModuleNamed(modules, name).Some? ==>
      exists i :: 0 <= i < |modules| && modules[i] == ModuleNamed(modules, name).value &&
        modules[i].name == name && forall k :: 0 <= k < i ==> modules[k].name != name
  {
    if modules != [] && modules[0].name != name {
      ModuleNamedSpec(modules[1..], name);
      if HasName(modules, name) {
        var i :| 0 <= i < |modules| && modules[i].name == name;
        assert modules[1..][i - 1].name == name;
      }
      if ModuleNamed(modules, name).Some? {
        var i :| 0 <= i < |modules| - 1 && modules[1..][i] == ModuleNamed(modules, name).value &&
          modules[1..][i].name == name && forall k :: 0 <= k < i ==> modules[1..][k].name != name;
        assert modules[i + 1] == modules[1..][i];
      }
    } else if modules != [] {
      assert modules[0].name == name;
    }
  }

  /** The list after AddModule, or its error: the hook's, or a conflict on the name. */
  function Added(modules: seq<AppModule>, m: AppModule): (r: Result<seq<AppModule>>)
  {
    if m.onAddRegistry.Some? then Err(m.onAddRegistry.value)
    else if HasName(modules, m.name) then Err(ErrModuleConflict)
    else Ok(modules + [m])
  }

  /** AddModule keeps the names distinct, and only a conflicting name or a hook error refuses a module. */
  lemma AddedKeepsDistinct(modules: seq<AppModule>, m: AppModule)
    requires DistinctNames(modules)
    ensures Added(modules, m).Ok? ==> DistinctNames(Added(modules, m).value)
    ensures Added(modules, m).Err? <==> m.onAddRegistry.Some? || HasName(modules, m.name)
  {
  }

  /** The registry: modules in the order they were added. */
  class Registry {
    var modules: seq<AppModule>

    ghost predicate Valid()
      reads this
    {
      DistinctNames(modules)
    }

    constructor ()
      ensures modules == [] && Valid()
    {
      modules := [];
    }

    /**
     * AddModule: the hook runs first and its error aborts; then a module
     * with the same name is a conflict; otherwise the module goes last.
     */
    method AddModule(m: AppModule) returns (err: Option<string>)
      requires Valid()
      modifies this
      ensures Valid()
      ensures Added(old(modules), m).Ok? ==> err.None? && modules == Added(old(modules), m).value
      ensures Added(old(modules), m).Err? ==> err == Some(Added(old(modules), m).error) && modules == old(modules)
    {
      if m.onAddRegistry.Some? {
        return m.onAddRegistry;
      }
      var i := 0;
      while i < |modules|
        invariant i <= |modules|
        invariant forall k :: 0 <= k < i ==> modules[k].name != m.name
      {
        if modules[i].name == m.name {
          return Some(ErrModuleConflict);
        }
        i := i + 1;
      }
      modules := modules + [m];
      return None;
    }

    /** GetModules: a copy of the list. */
    method GetModules() returns (r: seq<AppModule>)
      ensures r == modules
    {
      r := modules;
    }

    /** GetModuleByName: the first module with that name, or nil. */
    method GetModuleByName(name: string) returns (r: Option<AppModule>)
      ensures r == ModuleNamed(modules, name)
    {
      var i := 0;
      while i < |modules|
        invariant i <= |modules|
        invariant ModuleNamed(modules, name) == ModuleNamed(modules[i..], name)
      {
        if modules[i].name == name {
          return Some(modules[i]);
        }
        assert modules[i..][1..] == modules[i + 1..];
        i := i + 1;
      }
      return None;
    }
  }

  /** Adding a module twice: the second time is a conflict and the list stays as the first left it. */
  lemma AddTwiceConflicts(modules: seq<AppModule>, m: AppModule)
    requires m.onAddRegistry.None? && !HasName(modules, m.name)
    ensures Added(modules, m) == Ok(modules + [m])
    ensures Added(modules + [m], m) == Err(ErrModuleConflict)
  {
    assert (modules + [m])[|modules|].name == m.name;
  }
}
