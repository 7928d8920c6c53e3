// The runtime's type-indexed registry: for every type a module was
// registered under, the list of those modules in the order they came.
// A module may be registered under its own concrete type or under an
// interface type its concrete type implements.
module TypeRegistry {
  import opened Wrappers
  import opened Errors

  /** A reflect.Type, as far as the registry looks at it: its identity and whether it is an interface. */
  datatype TypeRef = TypeRef(name: string, isInterface: bool)

  /** A registered value: its identity, its concrete type and the interface types that type implements. */
  datatype RtModule = RtModule(ident: string, dynType: TypeRef, implements: set<TypeRef>)

  /** A module may be listed under t: t is an interface it implements, or its own type. */
  predicate Fits(m: RtModule, t: TypeRef)
  {
    (t.isInterface && t in m.implements) || t == m.dynType
  }

  /** No module is listed twice. */
  predicate NoDuplicates(ms: seq<RtModule>)
  {
    forall i, j :: 0 <= i < j < |ms| ==> ms[i] != ms[j]
  }

  /** What the registry keeps: every list non-empty, without repeats, and holding only modules that fit its type. */
  predicate WellFormed(reg: map<TypeRef, seq<RtModule>>)
  {
    forall t :: t in reg ==>
      reg[t] != [] && NoDuplicates(reg[t]) && forall k :: 0 <= k < |reg[t]| ==> Fits(reg[t][k], t)
  }

  /**
   * One step of Append's loop as the code is written: a list that exists
   * and lacks the module gets it at the end; in every other case, the list
   * already holding the module included, the list becomes the module alone.
   */
  function AddUnderAsWritten(reg: map<TypeRef, seq<RtModule>>, m: RtModule, t: TypeRef): (r: map<TypeRef, seq<RtModule>>)
    ensures r.Keys == reg.Keys + {t}
    ensures forall u :: u in reg && u != t ==> r[u] == reg[u]
    ensures r[t] != [] && r[t][|r[t]| - 1] == m
    ensures t in reg && m in reg[t] ==> r[t] == [m]
  {
    if t in reg && m !in reg[t] then reg[t := reg[t] + [m]] else reg[t := [m]]
  }

  /** One step of Append's loop as intended: add the module at the end of its list, unless it is there already. */
  function AddUnder(reg: map<TypeRef, seq<RtModule>>, m: RtModule, t: TypeRef): (r: map<TypeRef, seq<RtModule>>)
    ensures r.Keys == reg.Keys + {t}
    ensures m in r[t] && (t in reg ==> reg[t] <= r[t] && |r[t]| <= |reg[t]| + 1)
    ensures r == reg <==> t in reg && m in reg[t]
  {
    if t !in reg then reg[t := [m]]
    else if m in reg[t] then reg
    else reg[t := reg[t] + [m]]
  }

  /** Re-appending a module already listed under a type throws away the other modules of that list. */
  lemma AddUnderAsWrittenDropsOthers()
    ensures
      var t := TypeRef("T", true);
      var a := RtModule("a", TypeRef("A", false), {t});
      var b := RtModule("b", TypeRef("B", false), {t});
      AddUnderAsWritten(map[t := [a, b]], b, t) == map[t := [b]] &&
      AddUnder(map[t := [a, b]], b, t) == map[t := [a, b]]
  {
    var t := TypeRef("T", true);
    var a := RtModule("a", TypeRef("A", false), {t});
    var b := RtModule("b", TypeRef("B", false), {t});
    assert [a, b][1] == b;
  }

  /** Adding a module keeps the other lists and extends its own list without losing an entry. */
  lemma AddUnderKeeps(reg: map<TypeRef, seq<RtModule>>, m: RtModule, t: TypeRef)
    ensures var r := AddUnder(reg, m, t);
      t in r && m in r[t] &&
      (forall u :: u in reg ==> u in r && reg[u] <= r[u]) &&
      (forall u :: u in r && u != t ==> u in reg && r[u] == reg[u])
  {
  }

  /** Adding a module under a type it fits keeps the registry well formed. */
  lemma AddUnderWellFormed(reg: map<TypeRef, seq<RtModule>>, m: RtModule, t: TypeRef)
    requires WellFormed(reg) && Fits(m, t)
    ensures WellFormed(AddUnder(reg, m, t))
  {
    var r := AddUnder(reg, m, t);
    if t in reg && m !in reg[t] {
      forall i, j | 0 <= i < j < |r[t]|
        ensures r[t][i] != r[t][j]
      {
        if j == |reg[t]| {
          assert r[t][i] == reg[t][i];
        }
      }
    }
  }

  /**
   * Append over a list of types: each type in turn, until the first one
   * the module does not fit, which ends the loop with ErrModuleType and
   * leaves the types before it registered.
   */
  function Appended(reg: map<TypeRef, seq<RtModule>>, m: RtModule, types: seq<TypeRef>):
    (r: (map<TypeRef, seq<RtModule>>, Option<string>))
    ensures r.1.None? || r.1 == Some(ErrModuleType)
    ensures reg.Keys <= r.0.Keys
    decreases |types|
  {
    if types == [] then (reg, None)
    else if !Fits(m, types[0]) then (reg, Some(ErrModuleType))
    else Appended(AddUnder(reg, m, types[0]), m, types[1..])
  }

  /** The number of types the module fits before the first it does not (all of them when it fits every one). */
  function FitCount(m: RtModule, types: seq<TypeRef>): (n: nat)
    ensures n <= |types|
    ensures forall k :: 0 <= k < n ==> Fits(m, types[k])
    ensures n < |types| ==> !Fits(m, types[n])
  {
    if types == [] || !Fits(m, types[0]) then 0 else 1 + FitCount(m, types[1..])
  }

  /**
   * Append fails exactly when some type does not fit; the module is then
   * listed under every type before the first misfit, and under all of
   * them when there is none; the lists of every other type stay as they
   * were, and no list loses an entry.
   */
  lemma AppendedSpec(reg: map<TypeRef, seq<RtModule>>, m: RtModule, types: seq<TypeRef>)
    ensures var (r, err) := Appended(reg, m, types);
      (err.Some? <==> FitCount(m, types) < |types|) &&
      (err.Some? ==> err == Some(ErrModuleType)) &&
      (forall k :: 0 <= k < FitCount(m, types) ==> types[k] in r && m in r[types[k]]) &&
      (forall u :: u in reg ==> u in r && reg[u] <= r[u]) &&
      (forall u :: u in r && u !in types[..FitCount(m, types)] ==> u in reg && r[u] == reg[u])
  {
    AppendedError(reg, m, types);
    AppendedKeeps(reg, m, types);
    AppendedLists(reg, m, types);
    AppendedOthers(reg, m, types);
  }

  /** Append fails, with ErrModuleType, exactly when some type does not fit. */
  lemma {:induction false} AppendedError(reg: map<TypeRef, seq<RtModule>>, m: RtModule, types: seq<TypeRef>)
    ensures var err := Appended(reg, m, types).1;
      (err.Some? <==> FitCount(m, types) < |types|) && (err.Some? ==> err == Some(ErrModuleType))
    decreases |types|
  {
    if types != [] && Fits(m, types[0]) {
      AppendedError(AddUnder(reg, m, types[0]), m, types[1..]);
    }
  }

  /** No list loses an entry. */
  lemma {:induction false} AppendedKeeps(reg: map<TypeRef, seq<RtModule>>, m: RtModule, types: seq<TypeRef>)
    ensures var r := Appended(reg, m, types).0;
      forall u :: u in reg ==> u in r && reg[u] <= r[u]
    decreases |types|
  {
    if types != [] && Fits(m, types[0]) {
      var next := AddUnder(reg, m, types[0]);
      AddUnderKeeps(reg, m, types[0]);
      AppendedKeeps(next, m, types[1..]);
    }
  }

  /** The module is listed under every type before the first misfit. */
  lemma {:induction false} AppendedLists(reg: map<TypeRef, seq<RtModule>>, m: RtModule, types: seq<TypeRef>)
    ensures var r := Appended(reg, m, types).0;
      forall k :: 0 <= k < FitCount(m, types) ==> types[k] in r && m in r[types[k]]
    decreases |types|
  {
    if types != [] && Fits(m, types[0]) {
      var next := AddUnder(reg, m, types[0]);
      var r := Appended(reg, m, types).0;
      assert r == Appended(next, m, types[1..]).0;
      AddUnderKeeps(reg, m, types[0]);
      AppendedKeeps(next, m, types[1..]);
      AppendedLists(next, m, types[1..]);
      assert types[0] in r && m in r[types[0]] by {
        assert next[types[0]] <= r[types[0]];
      }
      forall k | 0 < k < FitCount(m, types)
        ensures types[k] in r && m in r[types[k]]
      {
        assert types[k] == types[1..][k - 1];
      }
    }
  }

  /** Every other type's list stays as it was. */
  lemma {:induction false} AppendedOthers(reg: map<TypeRef, seq<RtModule>>, m: RtModule, types: seq<TypeRef>)
    ensures var r := Appended(reg, m, types).0;
      forall u :: u in r && u !in types[..FitCount(m, types)] ==> u in reg && r[u] == reg[u]
    decreases |types|
  {
    if types != [] && Fits(m, types[0]) {
      var next := AddUnder(reg, m, types[0]);
      var n := FitCount(m, types);
      AddUnderKeeps(reg, m, types[0]);
      AppendedOthers(next, m, types[1..]);
      assert types[..n] == [types[0]] + types[1..][..n - 1];
    }
  }

  /** Append keeps the registry well formed. */
  lemma {:induction false} AppendedWellFormed(reg: map<TypeRef, seq<RtModule>>, m: RtModule, types: seq<TypeRef>)
    requires WellFormed(reg)
    ensures WellFormed(Appended(reg, m, types).0)
    decreases |types|
  {
    if types != [] && Fits(m, types[0]) {
      AddUnderWellFormed(reg, m, types[0]);
      AppendedWellFormed(AddUnder(reg, m, types[0]), m, types[1..]);
    }
  }

  /** Appending the same module under the same types a second time changes nothing. */
  lemma {:induction false} AppendedIdempotent(reg: map<TypeRef, seq<RtModule>>, m: RtModule, types: seq<TypeRef>)
    ensures var once := Appended(reg, m, types);
      Appended(once.0, m, types) == once
  {
    var once := Appended(reg, m, types);
    AppendedSpec(reg, m, types);
    AppendAgain(once.0, m, types, FitCount(m, types));
  }

  /** Appending once more changes nothing when the module is already under every type before the first misfit. */
  lemma {:induction false} AppendAgain(reg: map<TypeRef, seq<RtModule>>, m: RtModule, types: seq<TypeRef>, n: nat)
    requires n == FitCount(m, types)
    requires forall k :: 0 <= k < n ==> types[k] in reg && m in reg[types[k]]
    ensures Appended(reg, m, types) == (reg, if n < |types| then Some(ErrModuleType) else None)
  {
    if types != [] && Fits(m, types[0]) {
      assert AddUnder(reg, m, types[0]) == reg;
      forall k | 0 <= k < n - 1
        ensures types[1..][k] in reg && m in reg[types[1..][k]]
      {
        assert types[1..][k] == types[k + 1];
      }
      AppendAgain(reg, m, types[1..], n - 1);
    }
  }

  /** The modules f is called on: in order, up to and including the first that returns an error. */
  function Visited(ms: seq<RtModule>, f: RtModule -> Option<string>): seq<RtModule>
  {
    if ms == [] then []
    else if f(ms[0]).Some? then [ms[0]]
    else [ms[0]] + Visited(ms[1..], f)
  }

  /** The error of the first module f rejects, if any. */
  function FirstError(ms: seq<RtModule>, f: RtModule -> Option<string>): Option<string>
  {
    if ms == [] then None
    else if f(ms[0]).Some? then f(ms[0])
    else FirstError(ms[1..], f)
  }

  /**
   * A traversal visits a prefix of the list; every module it passes over
   * was accepted; it fails exactly when some module is rejected, and then
   * with the error of the last one it visited; otherwise it visits all.
   */
  lemma TraversalSpec(ms: seq<RtModule>, f: RtModule -> Option<string>)
    ensures var v := Visited(ms, f);
      v <= ms &&
      (forall k :: 0 <= k < |v| - 1 ==> f(v[k]).None?) &&
      (FirstError(ms, f).Some? <==> exists k :: 0 <= k < |ms| && f(ms[k]).Some?) &&
      (FirstError(ms, f).Some? ==> v != [] && FirstError(ms, f) == f(v[|v| - 1])) &&
      (FirstError(ms, f).None? ==> v == ms)
  {
    VisitedPrefix(ms, f);
    VisitedAccepted(ms, f);
    FirstErrorIff(ms, f);
    FirstErrorLast(ms, f);
  }

  /** The modules visited are a prefix of the list, all of it when none is rejected. */
  lemma {:induction false} VisitedPrefix(ms: seq<RtModule>, f: RtModule -> Option<string>)
    ensures Visited(ms, f) <= ms
    ensures FirstError(ms, f).None? ==> Visited(ms, f) == ms
  {
    if ms != [] && f(ms[0]).None? {
      VisitedPrefix(ms[1..], f);
      assert ms == [ms[0]] + ms[1..];
    }
  }

  /** Every visited module but the last was accepted. */
  lemma {:induction false} VisitedAccepted(ms: seq<RtModule>, f: RtModule -> Option<string>)
    ensures forall k :: 0 <= k < |Visited(ms, f)| - 1 ==> f(Visited(ms, f)[k]).None?
  {
    if ms != [] && f(ms[0]).None? {
      VisitedAccepted(ms[1..], f);
      var v := Visited(ms, f);
      var w := Visited(ms[1..], f);
      assert v == [ms[0]] + w;
      forall k | 0 <= k < |v| - 1 ensures f(v[k]).None? {
        if k > 0 {
          assert v[k] == w[k - 1];
        }
      }
    }
  }

  /** The traversal fails exactly when some module is rejected. */
  lemma {:induction false} FirstErrorIff(ms: seq<RtModule>, f: RtModule -> Option<string>)
    ensures FirstError(ms, f).Some? <==> exists k :: 0 <= k < |ms| && f(ms[k]).Some?
  {
    if ms != [] && f(ms[0]).None? {
      FirstErrorIff(ms[1..], f);
      if FirstError(ms, f).Some? {
        var k :| 0 <= k < |ms[1..]| && f(ms[1..][k]).Some?;
        assert f(ms[k + 1]).Some?;
      }
      if exists k :: 0 <= k < |ms| && f(ms[k]).Some? {
        var k :| 0 <= k < |ms| && f(ms[k]).Some?;
        assert f(ms[1..][k - 1]).Some?;
      }
    }
  }

  /** A failed traversal's error is that of the last module it visited. */
  lemma {:induction false} FirstErrorLast(ms: seq<RtModule>, f: RtModule -> Option<string>)
    ensures FirstError(ms, f).Some? ==> Visited(ms, f) != [] && FirstError(ms, f) == f(Visited(ms, f)[|Visited(ms, f)| - 1])
  {
    if ms != [] && f(ms[0]).None? {
      FirstErrorLast(ms[1..], f);
    }
  }

  /** The registry: a list of modules per type. */
  class Registry {
    var modules: map<TypeRef, seq<RtModule>>

    ghost predicate Valid()
      reads this
    {
      WellFormed(modules)
    }

    /** NewRegistry: no types yet. */
    constructor ()
      ensures modules == map[] && Valid()
    {
      modules := map[];
    }

    /** Count: the length of the type's list, 0 for a type never registered. */
    method Count(t: TypeRef) returns (n: int)
      ensures n == if t in modules then |modules[t]| else 0
      ensures n == 0 <==> t !in modules || modules[t] == []
    {
      if t in modules {
        return |modules[t]|;
      }
      return 0;
    }

    /** Append: the module under each of the types in turn, stopping at the first it does not fit. */
    method Append(m: RtModule, types: seq<TypeRef>) returns (err: Option<string>)
      requires Valid()
      modifies this
      ensures Valid()
      ensures (modules, err) == Appended(old(modules), m, types)
    {
      AppendedWellFormed(modules, m, types);
      ghost var goal := Appended(modules, m, types);
      var i := 0;
      while i < |types|
        invariant i <= |types|
        invariant Appended(modules, m, types[i..]) == goal
      {
        assert types[i..][1..] == types[i + 1..];
        var t := types[i];
        if !Fits(m, t) {
          return Some(ErrModuleType);
        }
        if t in modules && m !in modules[t] {
          modules := modules[t := modules[t] + [m]];
        } else if t !in modules {
          modules := modules[t := [m]];
        }
        i := i + 1;
      }
      assert types[i..] == [];
      return None;
    }

    /** ModulesByType: the type's list and whether the type was ever registered. */
    method ModulesByType(t: TypeRef) returns (ms: seq<RtModule>, ok: bool)
      ensures ok <==> t in modules
      ensures ok ==> ms == modules[t]
      ensures !ok ==> ms == []
    {
      if t in modules {
        return modules[t], true;
      }
      return [], false;
    }

    /**
     * TraverseByType: f on the type's modules in order until it returns
     * an error; nothing is visited, and nil returned, for a type never
     * registered. `visited` is the sequence of calls made.
     */
    method TraverseByType(f: RtModule -> Option<string>, t: TypeRef) returns (visited: seq<RtModule>, err: Option<string>)
      ensures var ms := if t in modules then modules[t] else [];
        visited == Visited(ms, f) && err == FirstError(ms, f)
    {
      if t !in modules || |modules[t]| == 0 {
        return [], None;
      }
      var ms := modules[t];
      visited := [];
      err := None;
      var i := 0;
      while i < |ms|
        invariant i <= |ms|
        invariant visited == ms[..i] && err.None?
        invariant Visited(ms, f) == visited + Visited(ms[i..], f)
        invariant FirstError(ms, f) == FirstError(ms[i..], f)
      {
        assert ms[i..][1..] == ms[i + 1..];
        visited := visited + [ms[i]];
        err := f(ms[i]);
        if err.Some? {
          assert Visited(ms[i..], f) == [ms[i]];
          return;
        }
        i := i + 1;
      }
      assert ms[i..] == [];
    }
  }

  /**
   * ModulesForType: a copy of the type's list, nil for a type never
   * registered (and, as the copy starts nil, for an empty list).
   */
  method ModulesForType(registry: Registry, t: TypeRef) returns (ts: Option<seq<RtModule>>)
    ensures t !in registry.modules ==> ts.None?
    ensures t in registry.modules ==> ts == if registry.modules[t] == [] then None else Some(registry.modules[t])
    ensures registry.Valid() ==> (ts.Some? <==> t in registry.modules)
  {
    var modules, ok := registry.ModulesByType(t);
    if !ok {
      return None;
    }
    ts := None;
    var i := 0;
    while i < |modules|
      invariant i <= |modules|
      invariant ts == if i == 0 then None else Some(modules[..i])
    {
      ts := Some((if ts.Some? then ts.value else []) + [modules[i]]);
      assert modules[..i + 1] == modules[..i] + [modules[i]];
      i := i + 1;
    }
    assert modules[..i] == modules;
  }
}
