// The module service: it turns the registry's application modules into
// the API's module records, searches them by comma-separated keywords and
// switches a module on or off when the module allows it.
module ModuleService {
  import opened Wrappers
  import opened Errors
  import opened CoreRegistry
  import opened GoStrings

  /** models.Module: what the API reports about a module. */
  datatype Module = Module(avatar: string, name: string, desc: string, enabled: bool, readOnly: bool, hasWeb: bool)

  /** The zero value of models.Module, returned beside an error. */
  const NoModule: Module := Module("", "", "", false, false, false)

  /**
   * generateModule: the module's own avatar, name and description; a
   * module is enabled and read-only and has no web part unless the
   * matching interface says otherwise.
   */
  function GenerateModule(a: AppModule): (r: Module)
    ensures r.avatar == a.avatar && r.name == a.name && r.desc == a.desc
    ensures r.hasWeb <==> a.hasWeb == Some(true)
    ensures !r.enabled <==> a.enabled == Some(false)
    ensures !r.readOnly <==> a.readOnly == Some(false)
  {
    Module(
      a.avatar, a.name, a.desc,
      if a.enabled.Some? then a.enabled.value else true,
      if a.readOnly.Some? then a.readOnly.value else true,
      if a.hasWeb.Some? then a.hasWeb.value else false)
  }

  /** Every module of the registry, in order, as an API record. */
  function AllModules(modules: seq<AppModule>): seq<Module>
  {
    if modules == [] then [] else [GenerateModule(modules[0])] + AllModules(modules[1..])
  }

  /** AllModules keeps the registry's length and order. */
  lemma {:induction false} AllModulesSpec(modules: seq<AppModule>)
    ensures |AllModules(modules)| == |modules|
    ensures forall i :: 0 <= i < |modules| ==> AllModules(modules)[i] == GenerateModule(modules[i])
  {
    if modules != [] {
      AllModulesSpec(modules[1..]);
      assert forall i :: 1 <= i < |modules| ==> modules[1..][i - 1] == modules[i];
    }
  }

  /** A piece of the keyword string that counts as a keyword: not only spaces. */
  predicate IsKeyword(k: string)
  {
    Trim(k, ' ') != []
  }

  /** The pieces that count as keywords, in order and untrimmed. */
  function KeepKeywords(parts: seq<string>): seq<string>
  {
    if parts == [] then []
    else if IsKeyword(parts[0]) then [parts[0]] + KeepKeywords(parts[1..])
    else KeepKeywords(parts[1..])
  }

  /** The keywords of a search: the comma-separated pieces that are not blank. */
  function Keywords(keyword: string): seq<string>
  {
    KeepKeywords(Split(keyword, ','))
  }

  /** KeepKeywords keeps exactly the pieces that are keywords. */
  lemma {:induction false} KeepKeywordsSpec(parts: seq<string>)
    ensures forall k :: k in KeepKeywords(parts) <==> k in parts && IsKeyword(k)
    ensures |KeepKeywords(parts)| <= |parts|
  {
    if parts != [] {
      KeepKeywordsSpec(parts[1..]);
      assert parts == [parts[0]] + parts[1..];
    }
  }

  /** A search's keywords are the non-blank pieces between commas, and contain no comma. */
  lemma KeywordsSpec(keyword: string)
    ensures forall k :: k in Keywords(keyword) <==> k in Split(keyword, ',') && IsKeyword(k)
    ensures forall k :: k in Keywords(keyword) ==> ',' !in k && exists i :: 0 <= i < |k| && k[i] != ' '
  {
    KeepKeywordsSpec(Split(keyword, ','));
  }

  /** The keyword loop of Search: blank pieces skipped, the others kept as they are. */
  method SearchKeywords(keyword: string) returns (kws: seq<string>)
    ensures kws == Keywords(keyword)
  {
    var parts := Split(keyword, ',');
    kws := [];
    var i := 0;
    while i < |parts|
      invariant i <= |parts|
      invariant kws + KeepKeywords(parts[i..]) == KeepKeywords(parts)
    {
      assert parts[i..][1..] == parts[i + 1..];
      if IsKeyword(parts[i]) {
        kws := kws + [parts[i]];
      }
      i := i + 1;
    }
    assert parts[i..] == [];
  }

  /** A module matches when some keyword occurs in its name or its description. */
  predicate Matches(a: AppModule, kws: seq<string>)
  {
    exists k :: 0 <= k < |kws| && (Contains(a.name, kws[k]) || Contains(a.desc, kws[k]))
  }

  /**
   * The matching loop of Search: -1 when there are no keywords, 1 at the
   * first keyword found in the name or the description, 0 when none is.
   */
  method MatchStatus(a: AppModule, kws: seq<string>) returns (status: int)
    ensures kws == [] ==> status == -1
    ensures kws != [] ==> (status == 1 <==> Matches(a, kws)) && (status == 0 <==> !Matches(a, kws))
  {
    status := -1;
    var i := 0;
    while i < |kws|
      invariant i <= |kws|
      invariant i == 0 ==> status == -1
      invariant i > 0 ==> status == 0
      invariant forall k :: 0 <= k < i ==> !Contains(a.name, kws[k]) && !Contains(a.desc, kws[k])
    {
      if Contains(a.name, kws[i]) || Contains(a.desc, kws[i]) {
        return 1;
      }
      status := 0;
      i := i + 1;
    }
  }

  /** The records of the modules that match, in registry order. */
  function Selected(modules: seq<AppModule>, kws: seq<string>): seq<Module>
  {
    if modules == [] then []
    else if Matches(modules[0], kws) then [GenerateModule(modules[0])] + Selected(modules[1..], kws)
    else Selected(modules[1..], kws)
  }

  /** Selected holds the record of every matching module and nothing else. */
  lemma {:induction false} SelectedSpec(modules: seq<AppModule>, kws: seq<string>)
    ensures |Selected(modules, kws)| <= |modules|
    ensures forall i :: 0 <= i < |modules| && Matches(modules[i], kws) ==>
      GenerateModule(modules[i]) in Selected(modules, kws)
    ensures forall r :: r in Selected(modules, kws) ==>
      exists i :: 0 <= i < |modules| && Matches(modules[i], kws) && r == GenerateModule(modules[i])
  {
    if modules != [] {
      SelectedSpec(modules[1..], kws);
      assert forall i :: 1 <= i < |modules| ==> modules[1..][i - 1] == modules[i];
      forall r | r in Selected(modules, kws)
        ensures exists i :: 0 <= i < |modules| && Matches(modules[i], kws) && r == GenerateModule(modules[i])
      {
        if r !in Selected(modules[1..], kws) {
          assert Matches(modules[0], kws) && r == GenerateModule(modules[0]);
        } else {
          var j :| 0 <= j < |modules| - 1 && Matches(modules[1..][j], kws) && r == GenerateModule(modules[1..][j]);
          assert modules[j + 1] == modules[1..][j];
        }
      }
    }
  }

  /** models.ModuleSearchResult; Items is nil when nothing was appended. */
  datatype SearchResult = SearchResult(total: int, items: Option<seq<Module>>)

  /** The service, over the registry it reads. */
  class ModuleServiceImpl {
    const registry: Registry

    constructor (registry: Registry)
      ensures this.registry == registry
    {
      this.registry := registry;
    }

    /** GetAll: every module of the registry as a record, in order. */
    method GetAll() returns (r: seq<Module>)
      ensures r == AllModules(registry.modules)
    {
      var modules := registry.GetModules();
      r := [];
      var i := 0;
      while i < |modules|
        invariant i <= |modules|
        invariant r + AllModules(modules[i..]) == AllModules(modules)
      {
        assert modules[i..][1..] == modules[i + 1..];
        r := r + [GenerateModule(modules[i])];
        i := i + 1;
      }
      assert modules[i..] == [];
    }

    /**
     * Search: without keywords, every module and their number; with
     * keywords, the matching modules (nil when none does) and their number.
     */
    method Search(keyword: string) returns (r: SearchResult)
      ensures Keywords(keyword) == [] ==>
        r == SearchResult(|registry.modules|, Some(AllModules(registry.modules)))
      ensures Keywords(keyword) != [] ==>
        var s := Selected(registry.modules, Keywords(keyword));
        r == SearchResult(|s|, if s == [] then None else Some(s))
    {
      var kws := SearchKeywords(keyword);
      if |kws| == 0 {
        var all := GetAll();
        AllModulesSpec(registry.modules);
        return SearchResult(|all|, Some(all));
      }
      var modules := registry.GetModules();
      var total := 0;
      var items: Option<seq<Module>> := None;
      ghost var sel: seq<Module> := [];
      var i := 0;
      while i < |modules|
        invariant i <= |modules|
        invariant sel == Selected(modules[..i], kws)
        invariant total == |sel| && items == if sel == [] then None else Some(sel)
      {
        SelectedSnoc(modules[..i], modules[i], kws);
        assert modules[..i + 1] == modules[..i] + [modules[i]];
        var status := MatchStatus(modules[i], kws);
        if status != 0 {
          total := total + 1;
          items := Some((if items.Some? then items.value else []) + [GenerateModule(modules[i])]);
          sel := sel + [GenerateModule(modules[i])];
        }
        i := i + 1;
      }
      assert modules[..i] == modules;
      return SearchResult(total, items);
    }

    /** SetEnabled: not found, forbidden when the module cannot be switched, or what its SetEnable answers. */
    method SetEnabled(name: string, enable: bool, setEnable: (AppModule, bool) -> Option<string>) returns (err: Option<string>)
      ensures ModuleNamed(registry.modules, name).None? ==> err == Some(ErrNotFound)
      ensures ModuleNamed(registry.modules, name).Some? ==>
        var a := ModuleNamed(registry.modules, name).value;
        err == if a.enabled.None? then Some(ErrForbidden) else setEnable(a, enable)
    {
      var a := registry.GetModuleByName(name);
      if a.None? {
        return Some(ErrNotFound);
      }
      if a.value.enabled.Some? {
        return setEnable(a.value, enable);
      }
      return Some(ErrForbidden);
    }

    /** Get: the record of the module with that name, or not found. */
    method Get(name: string) returns (m: Module, err: Option<string>)
      ensures ModuleNamed(registry.modules, name).None? ==> m == NoModule && err == Some(ErrNotFound)
      ensures ModuleNamed(registry.modules, name).Some? ==>
        err.None? && m == GenerateModule(ModuleNamed(registry.modules, name).value) && m.name == name
      ensures err.None? <==> HasName(registry.modules, name)
    {
      ModuleNamedSpec(registry.modules, name);
      var a := registry.GetModuleByName(name);
      if a.None? {
        return NoModule, Some(ErrNotFound);
      }
      return GenerateModule(a.value), None;
    }
  }

  /** Selected grows by the record of a matching module appended to the list, and not otherwise. */
  lemma {:induction false} SelectedSnoc(modules: seq<AppModule>, a: AppModule, kws: seq<string>)
    ensures Selected(modules + [a], kws) ==
      Selected(modules, kws) + (if Matches(a, kws) then [GenerateModule(a)] else [])
  {
    if modules == [] {
      assert [a][1..] == [];
    } else {
      assert (modules + [a])[1..] == modules[1..] + [a];
      SelectedSnoc(modules[1..], a, kws);
    }
  }

  /** Two non-blank keywords joined by a comma are the search's two keywords, as they stand. */
  lemma KeywordsOfPair(a: string, b: string)
    requires ',' !in a && ',' !in b && a != [] && b != [] && a[0] != ' ' && b[0] != ' '
    ensures Keywords(a + [','] + b) == [a, b]
  {
    SplitPair(a, b, ',');
    assert IsKeyword(a) && IsKeyword(b);
    assert [a, b][1..] == [b] && [b][1..] == [];
    assert KeepKeywords([b]) == [b];
  }

  /** The keyword string "Name A,Desc B" holds those two keywords. */
  lemma KeywordsExample()
    ensures Keywords("Name A,Desc B") == ["Name A", "Desc B"]
  {
    assert "Name A,Desc B" == "Name A" + [','] + "Desc B";
    KeywordsOfPair("Name A", "Desc B");
  }

  /** Of modules A, B and C, the keywords "Name A" and "Desc B" match A by its name and B by its description, and not C. */
  lemma ExampleMatches()
    ensures Matches(AppModule("", "Name A", "Desc A", None, None, None, None), ["Name A", "Desc B"])
    ensures Matches(AppModule("", "Name B", "Desc B", None, None, None, None), ["Name A", "Desc B"])
    ensures !Matches(AppModule("", "Name C", "Desc C", None, None, None, None), ["Name A", "Desc B"])
  {
    var kws := ["Name A", "Desc B"];
    ContainsSameLength("Name A", kws[0]);
    ContainsSameLength("Desc B", kws[1]);
    MatchesNeither(AppModule("", "Name C", "Desc C", None, None, None, None), kws);
  }

  /** A module whose name and description are each as long as every keyword, and equal to none, matches none. */
  lemma MatchesNeither(c: AppModule, kws: seq<string>)
    requires forall k :: 0 <= k < |kws| ==> |kws[k]| == |c.name| == |c.desc| && kws[k] != c.name && kws[k] != c.desc
    ensures !Matches(c, kws)
  {
    forall k | 0 <= k < |kws| ensures !Contains(c.name, kws[k]) && !Contains(c.desc, kws[k]) {
      ContainsSameLength(c.name, kws[k]);
      ContainsSameLength(c.desc, kws[k]);
    }
  }

  /** Of modules A, B and C, the keywords "Name A" and "Desc B" select A and B. */
  lemma SelectedExample()
    ensures
      var a := AppModule("", "Name A", "Desc A", None, None, None, None);
      var b := AppModule("", "Name B", "Desc B", None, None, None, None);
      var c := AppModule("", "Name C", "Desc C", None, None, None, None);
      Selected([a, b, c], ["Name A", "Desc B"]) == [GenerateModule(a), GenerateModule(b)]
  {
    var a := AppModule("", "Name A", "Desc A", None, None, None, None);
    var b := AppModule("", "Name B", "Desc B", None, None, None, None);
    var c := AppModule("", "Name C", "Desc C", None, None, None, None);
    var kws := ["Name A", "Desc B"];
    ExampleMatches();
    assert [a, b, c][1..] == [b, c] && [b, c][1..] == [c] && [c][1..] == [];
    assert Selected([c], kws) == [];
    assert Selected([b, c], kws) == [GenerateModule(b)];
  }
}
