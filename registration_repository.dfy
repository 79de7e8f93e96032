/** The registration descriptor and the parts of the runtime the repository only calls. */
module Registrations {
  import opened Types

  /**
   * An `IServiceRegistration`, opaque apart from `HasCondition`; `id` stands for its
   * object identity.
   */
  datatype Registration = Registration(id: nat, hasCondition: bool)

  /**
   * The opaque functions the repository relies on: `GetHashCode` of types and of names
   * (not assumed injective) and `IServiceRegistration.IsUsableForCurrentContext`.
   */
  datatype Env = Env(
    typeHash: ClrType -> int,
    nameHash: string -> int,
    isUsable: (Registration, TypeInformation) -> bool)
}

/**
 * `RegistrationRepository`: a tree of trees, contract-type hash -> name hash ->
 * registration, once for closed/concrete types and once for open generic definitions.
 * The queries are functions of the two tables (the snapshot a reader sees); the class
 * holds the two fields the writers reassign.
 */
module Repository {
  import opened Wrappers
  import opened Types
  import opened Registrations
  import opened ImmutableTree

  type Table = Tree<Tree<Registration>>

  /** Both levels are search trees, and no type maps to an empty name table. */
  ghost predicate TableValid(table: Table) {
    && Valid(table)
    && forall i :: 0 <= i < |table.entries| ==>
         Valid(table.entries[i].value) && table.entries[i].value.entries != []
  }

  /** The registration stored under (type hash, name hash), if any. */
  function RegisteredUnder(table: Table, tk: int, nk: int): Option<Registration> {
    match Get(table, tk)
    case None => None
    case Some(names) => Get(names, nk)
  }

  ghost predicate Registered(table: Table, x: Registration) {
    exists tk, nk :: RegisteredUnder(table, tk, nk) == Some(x)
  }

  // ---------------------------------------------------------------------------------
  // Writers

  /** `ImmutableTree<IServiceRegistration>.Empty.AddOrUpdate(nameHash, registration)` */
  function Single(nk: int, reg: Registration): (t: Tree<Registration>)
    ensures Valid(t) && t.entries == [Entry(nk, reg)]
  {
    AddOrUpdate(Empty(), nk, reg, None)
  }

  /** The merge delegate of `Add*`: add the name to the stored name table, keeping an existing entry. */
  function KeepExisting(nk: int, reg: Registration): (Tree<Registration>, Tree<Registration>) -> Tree<Registration> {
    (oldValue: Tree<Registration>, newValue: Tree<Registration>) =>
      AddOrUpdate(oldValue, nk, reg, Some((oldRegistration: Registration, newReg: Registration) => oldRegistration))
  }

  /**
   * The type-level upsert performed by `AddRegistration` and `AddGenericDefinition`: the
   * type ends up with a name table and no other type is touched.
   */
  function AddName(table: Table, tk: int, nk: int, reg: Registration): (r: Table)
    ensures Valid(table) ==> Valid(r) && Get(r, tk).Some?
    ensures forall tk' :: tk' != tk ==> Get(r, tk') == Get(table, tk')
  {
    AddOrUpdate(table, tk, Single(nk, reg), Some(KeepExisting(nk, reg)))
  }

  /**
   * The type-level upsert of the `AddOrUpdate*` writers: the new one-name table replaces
   * the old one, and no other type is touched.
   */
  function ReplaceType(table: Table, tk: int, nk: int, reg: Registration): (r: Table)
    ensures Valid(table) ==> Valid(r) && Get(r, tk) == Some(Tree([Entry(nk, reg)]))
    ensures forall tk' :: tk' != tk ==> Get(r, tk') == Get(table, tk')
  {
    AddOrUpdate(table, tk, Single(nk, reg), Some((oldValue: Tree<Registration>, newValue: Tree<Registration>) => newValue))
  }

  lemma {:induction false} GetValid(table: Table, tk: int)
    requires TableValid(table) && Get(table, tk).Some?
    ensures Valid(Get(table, tk).value) && Get(table, tk).value.entries != []
  {
    var i :| 0 <= i < |table.entries| && table.entries[i] == Entry(tk, Get(table, tk).value);
  }

  /** Adding a name keeps both levels valid and every name table non-empty. */
  lemma {:induction false} AddNameValid(table: Table, tk: int, nk: int, reg: Registration)
    requires TableValid(table)
    ensures TableValid(AddName(table, tk, nk, reg))
  {
    var r := AddName(table, tk, nk, reg);
    var merged := Merged(Get(table, tk), Single(nk, reg), Some(KeepExisting(nk, reg)));
    if Get(table, tk).Some? {
      GetValid(table, tk);
      var names := Get(table, tk).value;
      assert merged == AddOrUpdate(names, nk, reg, Some((o: Registration, n: Registration) => o));
      assert Get(merged, nk).Some?;
    }
    assert Valid(merged) && merged.entries != [];
    forall i | 0 <= i < |r.entries|
      ensures Valid(r.entries[i].value) && r.entries[i].value.entries != []
    {
      assert r.entries[i] in table.entries || r.entries[i] == Entry(tk, merged);
    }
  }

  /** Replacing a type keeps both levels valid. */
  lemma {:induction false} ReplaceTypeValid(table: Table, tk: int, nk: int, reg: Registration)
    requires TableValid(table)
    ensures TableValid(ReplaceType(table, tk, nk, reg))
  {
    var r := ReplaceType(table, tk, nk, reg);
    forall i | 0 <= i < |r.entries|
      ensures Valid(r.entries[i].value) && r.entries[i].value.entries != []
    {
      assert r.entries[i] in table.entries || r.entries[i] == Entry(tk, Single(nk, reg));
    }
  }

  /**
   * `AddRegistration` on the table: an existing (type, name) entry is kept, a new one
   * holds the registration, every other (type, name) pair answers as before and every
   * other type keeps its whole name table.
   */
  lemma {:induction false} AddNameLookup(table: Table, tk: int, nk: int, reg: Registration)
    requires TableValid(table)
    ensures var r := AddName(table, tk, nk, reg);
      && RegisteredUnder(r, tk, nk) == (if RegisteredUnder(table, tk, nk).Some? then RegisteredUnder(table, tk, nk) else Some(reg))
      && (forall nk' :: nk' != nk ==> RegisteredUnder(r, tk, nk') == RegisteredUnder(table, tk, nk'))
      && (forall tk' :: tk' != tk ==> Get(r, tk') == Get(table, tk'))
  {
    var r := AddName(table, tk, nk, reg);
    if Get(table, tk).Some? {
      GetValid(table, tk);
      var names := Get(table, tk).value;
      assert Get(r, tk) == Some(AddOrUpdate(names, nk, reg, Some((o: Registration, n: Registration) => o)));
    } else {
      assert Get(r, tk) == Some(Single(nk, reg));
      forall nk' | nk' != nk ensures RegisteredUnder(r, tk, nk') == None {
        assert Get(Single(nk, reg), nk') == None;
      }
    }
  }

  /**
   * `AddOrUpdateRegistration` on the table: the type is left with exactly one name,
   * mapped to the new registration; all other types keep their name tables.
   */
  lemma {:induction false} ReplaceTypeLookup(table: Table, tk: int, nk: int, reg: Registration)
    requires TableValid(table)
    ensures var r := ReplaceType(table, tk, nk, reg);
      && Get(r, tk) == Some(Tree([Entry(nk, reg)]))
      && (forall nk' :: RegisteredUnder(r, tk, nk') == if nk' == nk then Some(reg) else None)
      && (forall tk' :: tk' != tk ==> Get(r, tk') == Get(table, tk'))
  {
    var r := ReplaceType(table, tk, nk, reg);
    assert Get(r, tk) == Some(Single(nk, reg));
  }

  // ---------------------------------------------------------------------------------
  // Queries

  /**
   * `TryGetRegistrationsByType`: the concrete table first, then, for a constructed generic
   * type only, the open generic definition's entry.
   */
  function RegistrationsByType(s: Table, g: Table, env: Env, t: ClrType): (r: Option<Tree<Registration>>)
    ensures Get(s, env.typeHash(t)).Some? ==> r == Get(s, env.typeHash(t))
    ensures r.None? <==>
      Get(s, env.typeHash(t)).None? && (!IsConstructedGenericType(t) || Get(g, env.typeHash(t.definition)).None?)
    ensures r.Some? ==>
      || Entry(env.typeHash(t), r.value) in s.entries
      || (IsConstructedGenericType(t) && Entry(env.typeHash(t.definition), r.value) in g.entries)
  {
    var direct := Get(s, env.typeHash(t));
    if direct.Some? then direct
    else if IsConstructedGenericType(t) then Get(g, env.typeHash(t.definition))
    else None
  }

  /** `TryGetRegistrationsByTypeWithoutGenericDefinitionExtraction` */
  function RegistrationsByTypeOnly(s: Table, env: Env, t: ClrType): (r: Option<Tree<Registration>>)
    ensures r.None? <==> forall e :: e in s.entries ==> e.key != env.typeHash(t)
    ensures r.Some? ==> Entry(env.typeHash(t), r.value) in s.entries
  {
    Get(s, env.typeHash(t))
  }

  /**
   * `TryGetByTypeKey`: the root registration of the type's name table, one of its
   * registrations; null when no table is found, and also (unlike the source, which
   * then answers true with a null registration) for an empty name table.
   */
  function TryGetByTypeKey(s: Table, g: Table, env: Env, info: TypeInformation): (r: Option<Registration>)
    ensures var names := RegistrationsByType(s, g, env, info.serviceType);
      r.None? <==> names.None? || names.value.entries == []
    ensures r.Some? ==> r.value in Values(RegistrationsByType(s, g, env, info.serviceType).value)
  {
    match RegistrationsByType(s, g, env, info.serviceType)
    case None => None
    case Some(names) => Value(names)
  }

  /** `TryGetByNamedKey`: the entry of the dependency name in the type's name table, or null. */
  function TryGetByNamedKey(s: Table, g: Table, env: Env, info: TypeInformation): (r: Option<Registration>)
    requires info.dependencyName.Some?
    ensures var names := RegistrationsByType(s, g, env, info.serviceType);
      r.None? <==> names.None? || forall e :: e in names.value.entries ==> e.key != env.nameHash(info.dependencyName.value)
    ensures r.Some? ==>
      Entry(env.nameHash(info.dependencyName.value), r.value) in RegistrationsByType(s, g, env, info.serviceType).value.entries
  {
    match RegistrationsByType(s, g, env, info.serviceType)
    case None => None
    case Some(names) => Get(names, env.nameHash(info.dependencyName.value))
  }

  /** `TryGetByNamedKeyWithoutGenericDefinitionExtraction` */
  function TryGetByNamedKeyWithoutGenericDefinitionExtraction(s: Table, env: Env, info: TypeInformation): (r: Option<Registration>)
    requires info.dependencyName.Some?
    ensures var names := Get(s, env.typeHash(info.serviceType));
      r.None? <==> names.None? || forall e :: e in names.value.entries ==> e.key != env.nameHash(info.dependencyName.value)
    ensures r.Some? ==>
      Entry(env.nameHash(info.dependencyName.value), r.value) in Get(s, env.typeHash(info.serviceType)).value.entries
  {
    match RegistrationsByTypeOnly(s, env, info.serviceType)
    case None => None
    case Some(names) => Get(names, env.nameHash(info.dependencyName.value))
  }

  /**
   * `Enumerable.Where`: exactly the elements that satisfy `p`, in their order (see
   * `WhereConcat` for the order).
   */
  function Where(regs: seq<Registration>, p: Registration -> bool): (r: seq<Registration>)
    ensures forall x :: x in r <==> x in regs && p(x)
    ensures |r| <= |regs|
  {
    if regs == [] then []
    else if p(regs[0]) then [regs[0]] + Where(regs[1..], p)
    else Where(regs[1..], p)
  }

  /** `Enumerable.FirstOrDefault(p)`: the first element satisfying `p`, or null. */
  function FirstOrDefault(regs: seq<Registration>, p: Registration -> bool): (r: Option<Registration>)
    ensures r.None? <==> forall i :: 0 <= i < |regs| ==> !p(regs[i])
    ensures r.Some? ==> exists i :: 0 <= i < |regs| && regs[i] == r.value && p(regs[i])
                                    && forall j :: 0 <= j < i ==> !p(regs[j])
  {
    if regs == [] then None
    else if p(regs[0]) then Some(regs[0])
    else
      var r := FirstOrDefault(regs[1..], p);
      assert forall i :: 1 <= i < |regs| ==> regs[i] == regs[1..][i - 1];
      r
  }

  /**
   * Filtering a concatenation filters each part and concatenates the results: together
   * with the one-element case of the definition this pins `Where` down as the
   * order-preserving filter.
   */
  lemma {:induction false} WhereConcat(a: seq<Registration>, b: seq<Registration>, p: Registration -> bool)
    ensures Where(a + b, p) == Where(a, p) + Where(b, p)
  {
    if a != [] {
      assert (a + b)[1..] == a[1..] + b;
      WhereConcat(a[1..], b, p);
    } else {
      assert a + b == b;
    }
  }

  /** Filtering first and then taking the first match is taking the first element that passes both. */
  lemma {:induction false} FirstOfWhere(regs: seq<Registration>, p: Registration -> bool, q: Registration -> bool)
    ensures FirstOrDefault(Where(regs, p), q) == FirstOrDefault(regs, x => p(x) && q(x))
  {
    if regs != [] {
      FirstOfWhere(regs[1..], p, q);
    }
  }

  /** `IsUsableForCurrentContext` of the request, as a filter on candidates. */
  function UsableFor(env: Env, info: TypeInformation): Registration -> bool {
    reg => env.isUsable(reg, info)
  }

  predicate AnyConditioned(regs: seq<Registration>) {
    exists i :: 0 <= i < |regs| && regs[i].hasCondition
  }

  /**
   * A candidate the conditional lookup may return: usable in the current context and,
   * when some candidate has a condition, itself conditioned.
   */
  ghost predicate Eligible(regs: seq<Registration>, usable: Registration -> bool, i: int)
    requires 0 <= i < |regs|
  {
    usable(regs[i]) && (AnyConditioned(regs) ==> regs[i].hasCondition)
  }

  /**
   * The selection of `TryGetByTypeKeyWithConditions`: the FIRST eligible candidate in
   * enumeration order, and null exactly when there is none.
   */
  function SelectConditioned(regs: seq<Registration>, usable: Registration -> bool): (r: Option<Registration>)
    ensures r.None? <==> forall i :: 0 <= i < |regs| ==> !Eligible(regs, usable, i)
    ensures r.Some? ==> exists i :: 0 <= i < |regs| && regs[i] == r.value && Eligible(regs, usable, i)
                                    && forall j :: 0 <= j < i ==> !Eligible(regs, usable, j)
  {
    if AnyConditioned(regs) then
      var conditioned := (reg: Registration) => reg.hasCondition;
      FirstOfWhere(regs, conditioned, usable);
      assert forall i :: 0 <= i < |regs| ==>
        (Eligible(regs, usable, i) <==> (x => conditioned(x) && usable(x))(regs[i]));
      FirstOrDefault(Where(regs, (reg: Registration) => reg.hasCondition), usable)
    else
      assert forall i :: 0 <= i < |regs| ==> (Eligible(regs, usable, i) <==> usable(regs[i]));
      FirstOrDefault(regs, usable)
  }

  /**
   * `TryGetByTypeKeyWithConditions`: a registration of the type's name table that is
   * usable for the request, a conditioned one whenever the table has any; null only when
   * no table is found or no candidate is eligible.
   */
  function TryGetByTypeKeyWithConditions(s: Table, g: Table, env: Env, info: TypeInformation): (r: Option<Registration>)
    ensures var names := RegistrationsByType(s, g, env, info.serviceType);
      r.Some? ==>
        && names.Some? && r.value in Values(names.value) && env.isUsable(r.value, info)
        && (AnyConditioned(Values(names.value)) ==> r.value.hasCondition)
    ensures var names := RegistrationsByType(s, g, env, info.serviceType);
      names.Some? ==>
        (r.None? <==> forall i :: 0 <= i < |names.value.entries| ==>
                        !Eligible(Values(names.value), UsableFor(env, info), i))
  {
    match RegistrationsByType(s, g, env, info.serviceType)
    case None => None
    case Some(names) => SelectConditioned(Values(names), UsableFor(env, info))
  }

  /** `TryGetByTypeKeyWithConditionsWithoutGenericDefinitionExtraction` */
  function TryGetByTypeKeyWithConditionsWithoutGenericDefinitionExtraction(s: Table, env: Env, info: TypeInformation): (r: Option<Registration>)
    ensures var names := Get(s, env.typeHash(info.serviceType));
      r.Some? ==>
        && names.Some? && r.value in Values(names.value) && env.isUsable(r.value, info)
        && (AnyConditioned(Values(names.value)) ==> r.value.hasCondition)
    ensures var names := Get(s, env.typeHash(info.serviceType));
      names.Some? ==>
        (r.None? <==> forall i :: 0 <= i < |names.value.entries| ==>
                        !Eligible(Values(names.value), UsableFor(env, info), i))
  {
    match RegistrationsByTypeOnly(s, env, info.serviceType)
    case None => None
    case Some(names) => SelectConditioned(Values(names), UsableFor(env, info))
  }

  /**
   * `TryGetRegistration`: by name when the request carries one, otherwise by type; any
   * answer is a registration of the type's name table.
   */
  function TryGetRegistration(s: Table, g: Table, env: Env, info: TypeInformation): (r: Option<Registration>)
    ensures r.Some? ==>
      var names := RegistrationsByType(s, g, env, info.serviceType);
      names.Some? && r.value in Values(names.value)
    ensures info.dependencyName.Some? ==>
      r == RegisteredUnder(s, env.typeHash(info.serviceType), env.nameHash(info.dependencyName.value))
      || (Get(s, env.typeHash(info.serviceType)).None? && IsConstructedGenericType(info.serviceType))
  {
    if info.dependencyName.None? then TryGetByTypeKey(s, g, env, info) else TryGetByNamedKey(s, g, env, info)
  }

  /**
   * `TryGetRegistrationWithConditions`: conditions and usability are weighed only for a
   * request without a dependency name; a named request is answered as by
   * `TryGetRegistration`.
   */
  function TryGetRegistrationWithConditions(s: Table, g: Table, env: Env, info: TypeInformation): (r: Option<Registration>)
    ensures r.Some? ==>
      var names := RegistrationsByType(s, g, env, info.serviceType);
      names.Some? && r.value in Values(names.value)
    ensures info.dependencyName.None? && r.Some? ==> env.isUsable(r.value, info)
    ensures info.dependencyName.Some? ==> r == TryGetRegistration(s, g, env, info)
  {
    if info.dependencyName.None? then TryGetByTypeKeyWithConditions(s, g, env, info)
    else TryGetByNamedKey(s, g, env, info)
  }

  /** `TryGetRegistrationWithConditionsWithoutGenericDefinitionExtraction` */
  function TryGetRegistrationWithConditionsWithoutGenericDefinitionExtraction(s: Table, env: Env, info: TypeInformation): (r: Option<Registration>)
    ensures r.Some? ==>
      var names := Get(s, env.typeHash(info.serviceType));
      names.Some? && r.value in Values(names.value)
    ensures info.dependencyName.None? && r.Some? ==> env.isUsable(r.value, info)
    ensures info.dependencyName.Some? ==>
      r == RegisteredUnder(s, env.typeHash(info.serviceType), env.nameHash(info.dependencyName.value))
  {
    if info.dependencyName.None? then TryGetByTypeKeyWithConditionsWithoutGenericDefinitionExtraction(s, env, info)
    else TryGetByNamedKeyWithoutGenericDefinitionExtraction(s, env, info)
  }

  /** `TryGetTypedRepositoryRegistrations`: every registration of the type, in enumeration order. */
  function TryGetTypedRepositoryRegistrations(s: Table, g: Table, env: Env, info: TypeInformation): (r: Option<seq<Registration>>)
    ensures var names := RegistrationsByType(s, g, env, info.serviceType);
      && (r.None? <==> names.None?)
      && (r.Some? ==>
            && |r.value| == |names.value.entries|
            && forall i :: 0 <= i < |r.value| ==> r.value[i] == names.value.entries[i].value)
  {
    match RegistrationsByType(s, g, env, info.serviceType)
    case None => None
    case Some(names) => Some(Values(names))
  }

  /**
   * `Constains(type, name)`: reads the concrete table only; whether the type has an
   * entry and, when a name is given, whether its name table has an entry for the name.
   */
  function Constains(s: Table, env: Env, t: ClrType, name: Option<string>): (r: bool)
    ensures name.None? ==> (r <==> exists e :: e in s.entries && e.key == env.typeHash(t))
    ensures name.Some? && Valid(s) ==>
      (r <==> exists e, n :: e in s.entries && e.key == env.typeHash(t)
                             && n in e.value.entries && n.key == env.nameHash(name.value))
  {
    var regs := Get(s, env.typeHash(t));
    if name.Some? then regs.Some? && Get(regs.value, env.nameHash(name.value)).Some?
    else regs.Some?
  }

  predicate AnyUsable(names: Tree<Registration>, usable: Registration -> bool) {
    exists i :: 0 <= i < |names.entries| && usable(names.entries[i].value)
  }

  /**
   * `ConstainsTypeKeyWithConditions`; the generic-definition fallback asks the candidates
   * about a request retargeted to the open definition.
   */
  function ConstainsTypeKeyWithConditions(s: Table, g: Table, env: Env, info: TypeInformation): (r: bool)
    ensures var names := Get(s, env.typeHash(info.serviceType));
      names.Some? ==> (r <==> exists e :: e in names.value.entries && env.isUsable(e.value, info))
    ensures var t := info.serviceType;
      Get(s, env.typeHash(t)).None? ==>
        (r <==> IsConstructedGenericType(t) && Get(g, env.typeHash(t.definition)).Some?
                && exists e :: e in Get(g, env.typeHash(t.definition)).value.entries
                               && env.isUsable(e.value, info.Clone(t.definition)))
  {
    var t := info.serviceType;
    match Get(s, env.typeHash(t))
    case Some(names) => Value(names).Some? && AnyUsable(names, reg => env.isUsable(reg, info))
    case None =>
      if !IsConstructedGenericType(t) then false
      else
        match Get(g, env.typeHash(t.definition))
        case None => false
        case Some(names) => AnyUsable(names, reg => env.isUsable(reg, info.Clone(t.definition)))
  }

  /** `ConstainsTypeKeyWithConditionsWithoutGenericDefinitionExtraction` */
  function ConstainsTypeKeyWithConditionsWithoutGenericDefinitionExtraction(s: Table, env: Env, info: TypeInformation): (r: bool)
    ensures var names := Get(s, env.typeHash(info.serviceType));
      r <==> names.Some? && exists e :: e in names.value.entries && env.isUsable(e.value, info)
  {
    match Get(s, env.typeHash(info.serviceType))
    case None => false
    case Some(names) => Value(names).Some? && AnyUsable(names, reg => env.isUsable(reg, info))
  }

  /** Every registration of a table: type by type, name by name, in enumeration order. */
  function Flatten(table: Table): seq<Registration>
    decreases |table.entries|
  {
    if table.entries == [] then []
    else Values(table.entries[0].value) + Flatten(Tree(table.entries[1..]))
  }

  /**
   * `GetAllRegistrations`: every registration stored in either table, and nothing else;
   * see `AllRegistrationsConcreteFirst` for the order of the two parts.
   */
  function GetAllRegistrations(s: Table, g: Table): (r: seq<Registration>)
    ensures forall x :: x in r <==> Stored(s, x) || Stored(g, x)
  {
    assert forall x :: x in Flatten(s) + Flatten(g) <==> Stored(s, x) || Stored(g, x) by {
      forall x ensures x in Flatten(s) + Flatten(g) <==> Stored(s, x) || Stored(g, x) {
        FlattenMember(s, x);
        FlattenMember(g, x);
      }
    }
    Flatten(s) + Flatten(g)
  }

  // ---------------------------------------------------------------------------------
  // Properties of the queries

  /**
   * After `AddRegistration(t, reg, n)` on a type with no entry yet, the named lookup of
   * any request whose type and name hash like `t` and `n` answers `reg`.
   */
  lemma {:induction false} AddThenNamedLookup(s: Table, g: Table, env: Env, t: ClrType, n: string, reg: Registration, info: TypeInformation)
    requires TableValid(s)
    requires Get(s, env.typeHash(t)).None?
    requires env.typeHash(info.serviceType) == env.typeHash(t)
    requires info.dependencyName.Some? && env.nameHash(info.dependencyName.value) == env.nameHash(n)
    ensures TryGetRegistration(AddName(s, env.typeHash(t), env.nameHash(n), reg), g, env, info) == Some(reg)
    ensures TryGetRegistrationWithConditions(AddName(s, env.typeHash(t), env.nameHash(n), reg), g, env, info) == Some(reg)
  {
    var s' := AddName(s, env.typeHash(t), env.nameHash(n), reg);
    AddNameLookup(s, env.typeHash(t), env.nameHash(n), reg);
    assert RegisteredUnder(s, env.typeHash(t), env.nameHash(n)).None?;
    assert Get(s', env.typeHash(t)).Some?;
  }

  /**
   * The generic-definition table is consulted only when the concrete table has no entry
   * for the type and the type is a constructed generic; the lookups that skip extraction
   * agree with the full ones whenever the concrete table has an entry.
   */
  lemma {:induction false} GenericTableOnlyOnMiss(s: Table, g1: Table, g2: Table, env: Env, info: TypeInformation)
    ensures var t := info.serviceType;
      (Get(s, env.typeHash(t)).Some? || !IsConstructedGenericType(t)) ==>
        && TryGetRegistration(s, g1, env, info) == TryGetRegistration(s, g2, env, info)
        && TryGetRegistrationWithConditions(s, g1, env, info) == TryGetRegistrationWithConditions(s, g2, env, info)
        && TryGetTypedRepositoryRegistrations(s, g1, env, info) == TryGetTypedRepositoryRegistrations(s, g2, env, info)
        && ConstainsTypeKeyWithConditions(s, g1, env, info) == ConstainsTypeKeyWithConditions(s, g2, env, info)
    ensures var t := info.serviceType;
      (Get(s, env.typeHash(t)).None? && !IsConstructedGenericType(t)) ==>
        && TryGetRegistration(s, g1, env, info).None?
        && TryGetRegistrationWithConditions(s, g1, env, info).None?
        && TryGetTypedRepositoryRegistrations(s, g1, env, info).None?
        && !ConstainsTypeKeyWithConditions(s, g1, env, info)
    ensures Get(s, env.typeHash(info.serviceType)).Some? ==>
      && TryGetRegistrationWithConditions(s, g1, env, info) == TryGetRegistrationWithConditionsWithoutGenericDefinitionExtraction(s, env, info)
      && ConstainsTypeKeyWithConditions(s, g1, env, info) == ConstainsTypeKeyWithConditionsWithoutGenericDefinitionExtraction(s, env, info)
  {
  }

  /**
   * The unconditional lookup by type answers exactly when a name table is found for the
   * type, and then with one of that table's registrations.
   */
  lemma {:induction false} TypeKeyLookup(s: Table, g: Table, env: Env, info: TypeInformation)
    requires TableValid(s) && TableValid(g)
    ensures TryGetByTypeKey(s, g, env, info).Some? <==> RegistrationsByType(s, g, env, info.serviceType).Some?
    ensures TryGetByTypeKey(s, g, env, info).Some? ==>
      TryGetByTypeKey(s, g, env, info).value in Values(RegistrationsByType(s, g, env, info.serviceType).value)
  {
    var t := info.serviceType;
    if Get(s, env.typeHash(t)).Some? {
      GetValid(s, env.typeHash(t));
    } else if IsConstructedGenericType(t) && Get(g, env.typeHash(t.definition)).Some? {
      GetValid(g, env.typeHash(t.definition));
    }
  }

  /**
   * A constructed generic type with no concrete entry is answered from its open
   * definition's name table.
   */
  lemma {:induction false} GenericFallback(s: Table, g: Table, env: Env, info: TypeInformation)
    requires Get(s, env.typeHash(info.serviceType)).None? && IsConstructedGenericType(info.serviceType)
    ensures var names := Get(g, env.typeHash(info.serviceType.definition));
      && TryGetTypedRepositoryRegistrations(s, g, env, info) == (if names.Some? then Some(Values(names.value)) else None)
      && (info.dependencyName.Some? ==>
            TryGetRegistration(s, g, env, info) == RegisteredUnder(g, env.typeHash(info.serviceType.definition), env.nameHash(info.dependencyName.value)))
  {
  }

  /**
   * `Constains` looks at the concrete table only: after `AddRegistration(t, reg, n)` the
   * type and the (type, name) pair are both present; a present pair implies a present type.
   */
  lemma {:induction false} ContainsAfterAdd(s: Table, env: Env, t: ClrType, n: string, reg: Registration)
    requires TableValid(s)
    ensures Constains(AddName(s, env.typeHash(t), env.nameHash(n), reg), env, t, Some(n))
    ensures Constains(AddName(s, env.typeHash(t), env.nameHash(n), reg), env, t, None)
    ensures forall name :: Constains(s, env, t, Some(name)) ==> Constains(s, env, t, None)
  {
    AddNameLookup(s, env.typeHash(t), env.nameHash(n), reg);
  }

  /**
   * Whatever the conditional lookup of a concretely registered type returns, the
   * conditional containment test agrees that the type is there.
   */
  lemma {:induction false} ContainsCoversConditionalLookup(s: Table, g: Table, env: Env, info: TypeInformation)
    requires Get(s, env.typeHash(info.serviceType)).Some?
    requires TryGetByTypeKeyWithConditions(s, g, env, info).Some?
    ensures ConstainsTypeKeyWithConditions(s, g, env, info)
    ensures ConstainsTypeKeyWithConditionsWithoutGenericDefinitionExtraction(s, env, info)
  {
    var names := Get(s, env.typeHash(info.serviceType)).value;
    var usable := UsableFor(env, info);
    var regs := Values(names);
    var i :| 0 <= i < |regs| && Eligible(regs, usable, i);
    assert usable(names.entries[i].value);
  }

  /** The registration is held in some name table of the table (at any key, valid or not). */
  ghost predicate Stored(table: Table, x: Registration) {
    exists i, j :: 0 <= i < |table.entries| && 0 <= j < |table.entries[i].value.entries|
                   && table.entries[i].value.entries[j].value == x
  }

  lemma {:induction false} FlattenMember(table: Table, x: Registration)
    ensures x in Flatten(table) <==> Stored(table, x)
    decreases |table.entries|
  {
    if table.entries != [] {
      var rest := Tree(table.entries[1..]);
      FlattenMember(rest, x);
      if x in Flatten(table) {
        if x in Values(table.entries[0].value) {
          var j :| 0 <= j < |table.entries[0].value.entries| && Values(table.entries[0].value)[j] == x;
        } else {
          var i, j :| 0 <= i < |rest.entries| && 0 <= j < |rest.entries[i].value.entries|
                      && rest.entries[i].value.entries[j].value == x;
          assert table.entries[i + 1] == rest.entries[i];
        }
      }
      if exists i, j :: 0 <= i < |table.entries| && 0 <= j < |table.entries[i].value.entries|
                        && table.entries[i].value.entries[j].value == x {
        var i, j :| 0 <= i < |table.entries| && 0 <= j < |table.entries[i].value.entries|
                    && table.entries[i].value.entries[j].value == x;
        if i == 0 {
          assert Values(table.entries[0].value)[j] == x;
        } else {
          assert rest.entries[i - 1] == table.entries[i];
        }
      }
    }
  }

  /** In a valid table, the flattened registrations are exactly the registered ones. */
  lemma {:induction false} FlattenRegistered(table: Table, x: Registration)
    requires TableValid(table)
    ensures x in Flatten(table) <==> Registered(table, x)
  {
    FlattenMember(table, x);
    if x in Flatten(table) {
      var i, j :| 0 <= i < |table.entries| && 0 <= j < |table.entries[i].value.entries|
                  && table.entries[i].value.entries[j].value == x;
      var names := table.entries[i].value;
      GetEntry(table, i);
      GetEntry(names, j);
      assert RegisteredUnder(table, table.entries[i].key, names.entries[j].key) == Some(x);
    }
    if Registered(table, x) {
      var tk, nk :| RegisteredUnder(table, tk, nk) == Some(x);
      var names := Get(table, tk).value;
      var i :| 0 <= i < |table.entries| && table.entries[i] == Entry(tk, names);
      var j :| 0 <= j < |names.entries| && names.entries[j] == Entry(nk, x);
      assert table.entries[i].value.entries[j].value == x;
    }
  }

  /**
   * `GetAllRegistrations` lists the concrete registrations first and the
   * generic-definition registrations after them, each part holding exactly the
   * registrations stored in its table.
   */
  lemma {:induction false} AllRegistrationsConcreteFirst(s: Table, g: Table)
    requires TableValid(s) && TableValid(g)
    ensures var all := GetAllRegistrations(s, g);
      && (forall x :: x in all[..|Flatten(s)|] <==> Registered(s, x))
      && (forall x :: x in all[|Flatten(s)|..] <==> Registered(g, x))
  {
    var all := GetAllRegistrations(s, g);
    assert all[..|Flatten(s)|] == Flatten(s);
    assert all[|Flatten(s)|..] == Flatten(g);
    forall x ensures x in Flatten(s) <==> Registered(s, x) { FlattenRegistered(s, x); }
    forall x ensures x in Flatten(g) <==> Registered(g, x) { FlattenRegistered(g, x); }
  }

  // ---------------------------------------------------------------------------------
  // The repository object

  class RegistrationRepository {
    const env: Env
    /** The concrete-type table; null once `CleanUp` has run. */
    var serviceRepository: Option<Table>
    var genericDefinitionRepository: Table
    /** The registrations whose own `CleanUp` has been called, in call order. */
    var cleanedUp: seq<Registration>

    ghost predicate Valid()
      reads this
    {
      && (serviceRepository.Some? ==> TableValid(serviceRepository.value))
      && TableValid(genericDefinitionRepository)
    }

    constructor (env: Env)
      ensures Valid() && this.env == env
      ensures serviceRepository == Some(Empty()) && genericDefinitionRepository == Empty()
      ensures cleanedUp == []
    {
      this.env := env;
      serviceRepository := Some(Empty());
      genericDefinitionRepository := Empty();
      cleanedUp := [];
    }

    /** `AddRegistration`: add (type, name) to the concrete table unless it is taken. */
    method AddRegistration(typeKey: ClrType, registration: Registration, nameKey: string)
      requires Valid() && serviceRepository.Some?
      modifies this`serviceRepository
      ensures Valid()
      ensures serviceRepository == Some(AddName(old(serviceRepository.value), env.typeHash(typeKey), env.nameHash(nameKey), registration))
      ensures genericDefinitionRepository == old(genericDefinitionRepository)
    {
      var newTree := AddOrUpdate(Empty(), env.nameHash(nameKey), registration, None);
      var nk := env.nameHash(nameKey);
      serviceRepository := Some(AddOrUpdate(serviceRepository.value, env.typeHash(typeKey), newTree,
        Some((oldValue: Tree<Registration>, newValue: Tree<Registration>) =>
          AddOrUpdate(oldValue, nk, registration, Some((oldRegistration: Registration, newReg: Registration) => oldRegistration)))));
      AddNameValid(old(serviceRepository.value), env.typeHash(typeKey), nk, registration);
    }

    /** `AddOrUpdateRegistration`: the type's whole name table is replaced (re-map). */
    method AddOrUpdateRegistration(typeKey: ClrType, registration: Registration, nameKey: string)
      requires Valid() && serviceRepository.Some?
      modifies this`serviceRepository
      ensures Valid()
      ensures serviceRepository == Some(ReplaceType(old(serviceRepository.value), env.typeHash(typeKey), env.nameHash(nameKey), registration))
      ensures genericDefinitionRepository == old(genericDefinitionRepository)
    {
      var newTree := AddOrUpdate(Empty(), env.nameHash(nameKey), registration, None);
      serviceRepository := Some(AddOrUpdate(serviceRepository.value, env.typeHash(typeKey), newTree,
        Some((oldValue: Tree<Registration>, newValue: Tree<Registration>) => newValue)));
      ReplaceTypeValid(old(serviceRepository.value), env.typeHash(typeKey), env.nameHash(nameKey), registration);
    }

    /** `AddGenericDefinition`: as `AddRegistration`, on the open-generic table. */
    method AddGenericDefinition(typeKey: ClrType, registration: Registration, nameKey: string)
      requires Valid()
      modifies this`genericDefinitionRepository
      ensures Valid()
      ensures genericDefinitionRepository == AddName(old(genericDefinitionRepository), env.typeHash(typeKey), env.nameHash(nameKey), registration)
      ensures serviceRepository == old(serviceRepository)
    {
      var newTree := AddOrUpdate(Empty(), env.nameHash(nameKey), registration, None);
      var nk := env.nameHash(nameKey);
      genericDefinitionRepository := AddOrUpdate(genericDefinitionRepository, env.typeHash(typeKey), newTree,
        Some((oldValue: Tree<Registration>, newValue: Tree<Registration>) =>
          AddOrUpdate(oldValue, nk, registration, Some((oldRegistration: Registration, newReg: Registration) => oldRegistration))));
      AddNameValid(old(genericDefinitionRepository), env.typeHash(typeKey), nk, registration);
    }

    /** `AddOrUpdateGenericDefinition`: as `AddOrUpdateRegistration`, on the open-generic table. */
    method AddOrUpdateGenericDefinition(typeKey: ClrType, registration: Registration, nameKey: string)
      requires Valid()
      modifies this`genericDefinitionRepository
      ensures Valid()
      ensures genericDefinitionRepository == ReplaceType(old(genericDefinitionRepository), env.typeHash(typeKey), env.nameHash(nameKey), registration)
      ensures serviceRepository == old(serviceRepository)
    {
      var newTree := AddOrUpdate(Empty(), env.nameHash(nameKey), registration, None);
      genericDefinitionRepository := AddOrUpdate(genericDefinitionRepository, env.typeHash(typeKey), newTree,
        Some((oldValue: Tree<Registration>, newValue: Tree<Registration>) => newValue));
      ReplaceTypeValid(old(genericDefinitionRepository), env.typeHash(typeKey), env.nameHash(nameKey), registration);
    }

    /**
     * `CleanUp`: every concrete registration is cleaned up, in enumeration order, and the
     * concrete table is dropped; the generic-definition table is left alone.
     */
    method CleanUp()
      requires Valid() && serviceRepository.Some?
      modifies this`serviceRepository, this`cleanedUp
      ensures Valid()
      ensures cleanedUp == old(cleanedUp) + Flatten(old(serviceRepository.value))
      ensures serviceRepository.None?
      ensures genericDefinitionRepository == old(genericDefinitionRepository)
    {
      var registrations := Flatten(serviceRepository.value);
      for i := 0 to |registrations|
        invariant cleanedUp == old(cleanedUp) + registrations[..i]
      {
        cleanedUp := cleanedUp + [registrations[i]];
      }
      serviceRepository := None;
    }
  }
}
