/**
 * The documented contract of `IResolutionScope`, met by a reference scope object: a
 * cache of scoped instances keyed by type (add-or-update, get-or-null), a cache of
 * scoped items keyed by object (get-or-add through a factory), and the lists of objects
 * tracked for disposal and for finalization.
 */
module Infrastructure {
  import opened Wrappers
  import opened Types

  /** An opaque object reference: a service instance, or the key of a scoped item. */
  datatype Obj = Obj(id: nat)

  /** An opaque cleanup delegate (`Action<TService>`). */
  datatype Finalizer = Finalizer(id: nat)

  /** The value of the latest `AddScopedInstance(key, _)` in a history of calls, or null. */
  function LastAdded(history: seq<(ClrType, Obj)>, key: ClrType): (r: Option<Obj>)
    ensures r.None? <==> forall i :: 0 <= i < |history| ==> history[i].0 != key
    ensures r.Some? ==> exists i :: 0 <= i < |history| && history[i] == (key, r.value)
                                    && forall j :: i < j < |history| ==> history[j].0 != key
  {
    if history == [] then None
    else if history[|history| - 1].0 == key then Some(history[|history| - 1].1)
    else LastAdded(history[..|history| - 1], key)
  }

  /** The instance map that a history of add-or-update calls builds from an empty scope. */
  function Replay(history: seq<(ClrType, Obj)>): map<ClrType, Obj> {
    if history == [] then map[]
    else Replay(history[..|history| - 1])[history[|history| - 1].0 := history[|history| - 1].1]
  }

  /** Only an empty history builds an empty map. */
  lemma {:induction false} ReplayEmpty(history: seq<(ClrType, Obj)>)
    ensures Replay(history) == map[] <==> history == []
  {
    if history != [] {
      var last := history[|history| - 1];
      assert last.0 in Replay(history);
    }
  }

  /** The map built by add-or-update holds, for every key, the most recently added value. */
  lemma {:induction false} ReplayIsLastAdded(history: seq<(ClrType, Obj)>, key: ClrType)
    ensures LastAdded(history, key) == if key in Replay(history) then Some(Replay(history)[key]) else None
  {
    if history != [] {
      ReplayIsLastAdded(history[..|history| - 1], key);
    }
  }

  /**
   * What a factory did to the scope it was handed while it built its item: the
   * `AddScopedInstance` calls it made, and the objects it handed to
   * `AddDisposableTracking` and to `AddWithFinalizer`, each in call order.
   */
  datatype ScopeEffects = ScopeEffects(
    instances: seq<(ClrType, Obj)>,
    disposables: seq<Obj>,
    finalizables: seq<(Obj, Finalizer)>)

  /** What a `Func<IResolutionScope, object>` factory produces: the item, and its effects on the scope. */
  datatype FactoryResult = FactoryResult(item: Obj, effects: ScopeEffects)

  class ResolutionScope {
    /** `Name`: null for a regular, nameless scope. */
    const name: Option<string>
    var scopedInstances: map<ClrType, Obj>
    /** Every `AddScopedInstance` call so far, oldest first. */
    ghost var history: seq<(ClrType, Obj)>
    var scopedItems: map<Obj, Obj>
    /** The keys for which `GetOrAddScopedItem` has run its factory, in call order. */
    ghost var factoryCalls: seq<Obj>
    var disposables: seq<Obj>
    var finalizables: seq<(Obj, Finalizer)>

    ghost predicate Valid()
      reads this
    {
      scopedInstances == Replay(history)
    }

    constructor (name: Option<string>)
      ensures Valid() && this.name == name
      ensures history == [] && scopedItems == map[] && factoryCalls == []
      ensures disposables == [] && finalizables == []
    {
      this.name := name;
      scopedInstances := map[];
      history := [];
      scopedItems := map[];
      factoryCalls := [];
      disposables := [];
      finalizables := [];
    }

    /** `HasScopedInstances`: true exactly when some `AddScopedInstance` call has been made. */
    predicate HasScopedInstances()
      requires Valid()
      reads this
      ensures HasScopedInstances() <==> history != []
    {
      ReplayEmpty(history);
      scopedInstances != map[]
    }

    /** `AddScopedInstance`: add or update the instance kept for `key`. */
    method AddScopedInstance(key: ClrType, value: Obj)
      requires Valid()
      modifies this
      ensures Valid()
      ensures history == old(history) + [(key, value)]
      ensures scopedInstances == old(scopedInstances)[key := value]
      ensures HasScopedInstances()
      ensures scopedItems == old(scopedItems) && factoryCalls == old(factoryCalls)
      ensures disposables == old(disposables) && finalizables == old(finalizables)
    {
      scopedInstances := scopedInstances[key := value];
      history := history + [(key, value)];
      assert history[..|history| - 1] == old(history);
    }

    /**
     * `GetScopedInstanceOrDefault`: the value most recently given to
     * `AddScopedInstance(key, _)`, and null for a key never added.
     */
    function GetScopedInstanceOrDefault(key: ClrType): (r: Option<Obj>)
      requires Valid()
      reads this
      ensures r == LastAdded(history, key)
      ensures r.None? <==> forall i :: 0 <= i < |history| ==> history[i].0 != key
    {
      ReplayIsLastAdded(history, key);
      if key in scopedInstances then Some(scopedInstances[key]) else None
    }

    /** The calls a factory makes on this scope while it runs, replayed in order. */
    method RunFactoryEffects(effects: ScopeEffects)
      requires Valid()
      modifies this
      ensures Valid()
      ensures history == old(history) + effects.instances
      ensures disposables == old(disposables) + effects.disposables
      ensures finalizables == old(finalizables) + effects.finalizables
      ensures scopedItems == old(scopedItems) && factoryCalls == old(factoryCalls)
    {
      for i := 0 to |effects.instances|
        invariant Valid()
        invariant history == old(history) + effects.instances[..i]
        invariant disposables == old(disposables) && finalizables == old(finalizables)
        invariant scopedItems == old(scopedItems) && factoryCalls == old(factoryCalls)
      {
        AddScopedInstance(effects.instances[i].0, effects.instances[i].1);
        assert effects.instances[..i + 1] == effects.instances[..i] + [effects.instances[i]];
      }
      assert effects.instances[..|effects.instances|] == effects.instances;
      for i := 0 to |effects.disposables|
        modifies this`disposables
        invariant disposables == old(disposables) + effects.disposables[..i]
      {
        var _ := AddDisposableTracking(effects.disposables[i]);
        assert effects.disposables[..i + 1] == effects.disposables[..i] + [effects.disposables[i]];
      }
      assert effects.disposables[..|effects.disposables|] == effects.disposables;
      for i := 0 to |effects.finalizables|
        modifies this`finalizables
        invariant finalizables == old(finalizables) + effects.finalizables[..i]
      {
        var _ := AddWithFinalizer(effects.finalizables[i].0, effects.finalizables[i].1);
        assert effects.finalizables[..i + 1] == effects.finalizables[..i] + [effects.finalizables[i]];
      }
      assert effects.finalizables[..|effects.finalizables|] == effects.finalizables;
    }

    /**
     * `GetOrAddScopedItem`: the stored item for `key`, and then nothing changes; only when
     * there is none is the factory called with this scope. Whatever the factory added to
     * the scope while it ran stays there, and its item is stored and returned.
     */
    method GetOrAddScopedItem(key: Obj, factory: ResolutionScope -> FactoryResult) returns (item: Obj)
      requires Valid()
      modifies this
      ensures Valid()
      ensures old(key in scopedItems) ==>
        && item == old(scopedItems[key]) && scopedItems == old(scopedItems) && factoryCalls == old(factoryCalls)
        && history == old(history) && disposables == old(disposables) && finalizables == old(finalizables)
      ensures old(key !in scopedItems) ==>
        var made := factory(this);
        && item == made.item && scopedItems == old(scopedItems)[key := item]
        && factoryCalls == old(factoryCalls) + [key]
        && history == old(history) + made.effects.instances
        && disposables == old(disposables) + made.effects.disposables
        && finalizables == old(finalizables) + made.effects.finalizables
    {
      if key in scopedItems {
        item := scopedItems[key];
      } else {
        var made := factory(this);
        RunFactoryEffects(made.effects);
        item := made.item;
        scopedItems := scopedItems[key := item];
        factoryCalls := factoryCalls + [key];
      }
    }

    /** `AddDisposableTracking`: remember the object for disposal and hand it back. */
    method AddDisposableTracking(disposable: Obj) returns (r: Obj)
      modifies this`disposables
      ensures r == disposable
      ensures disposables == old(disposables) + [disposable]
    {
      disposables := disposables + [disposable];
      r := disposable;
    }

    /** `AddWithFinalizer`: remember the object with its cleanup delegate and hand it back. */
    method AddWithFinalizer(finalizable: Obj, finalizer: Finalizer) returns (r: Obj)
      modifies this`finalizables
      ensures r == finalizable
      ensures finalizables == old(finalizables) + [(finalizable, finalizer)]
    {
      finalizables := finalizables + [(finalizable, finalizer)];
      r := finalizable;
    }
  }

  /** A client: what was added last under a key is what the scope answers for it. */
  method AddThenGet(scope: ResolutionScope, key: ClrType, first: Obj, second: Obj)
    requires scope.Valid()
    modifies scope
    ensures scope.Valid() && scope.GetScopedInstanceOrDefault(key) == Some(second)
  {
    scope.AddScopedInstance(key, first);
    scope.AddScopedInstance(key, second);
  }

  /**
   * A client: a second `GetOrAddScopedItem` for the same key returns the first item, and
   * the factory runs at most once for the two calls.
   */
  method GetOrAddTwice(scope: ResolutionScope, key: Obj, factory: ResolutionScope -> FactoryResult)
    returns (first: Obj, second: Obj)
    requires scope.Valid()
    modifies scope
    ensures first == second
    ensures scope.factoryCalls == old(scope.factoryCalls) + (if key in old(scope.scopedItems) then [] else [key])
  {
    first := scope.GetOrAddScopedItem(key, factory);
    second := scope.GetOrAddScopedItem(key, factory);
  }
}
