/**
 * `ConcurrentTree`: a persistent tree held in a field that writers replace with
 * compare-and-swap, retrying a bounded number of times. The model is sequential: the
 * outcome of each compare-and-swap attempt is an input (`contended(n)` says that attempt
 * `n` found the field changed under it), attempt 0 being the one made directly by
 * `AddOrUpdate` and attempts 1 to 20 those of the retry loop.
 */
module Concurrent {
  import opened Wrappers
  import opened ImmutableTree

  /** The most retries `SwapCurrentRepository` makes before giving up. */
  const SwapQuota: nat := 20

  datatype SwapError = SwapQuotaExceeded(message: string)

  /** Whether every one of attempts `from`..`to` (inclusive) is contended. */
  ghost predicate AllContended(contended: nat -> bool, from: nat, to: nat) {
    forall n :: from <= n <= to ==> contended(n)
  }

  class ConcurrentTree<V> {
    var repository: Tree<V>

    ghost predicate Valid()
      reads this
    {
      ImmutableTree.Valid(repository)
    }

    constructor ()
      ensures Valid() && repository == Empty()
    {
      repository := Empty();
    }

    /** `Value`: the value at the root, some stored value, or null when empty. */
    function Value(): (r: Option<V>)
      reads this
      ensures r.None? <==> repository.entries == []
      ensures r.Some? ==> exists i :: 0 <= i < |repository.entries| && repository.entries[i].value == r.value
    {
      ImmutableTree.Value(repository)
    }

    /** `GetOrDefault`: the value stored under `key`, or null. */
    function GetOrDefault(key: int): (r: Option<V>)
      reads this
      ensures r.None? <==> forall i :: 0 <= i < |repository.entries| ==> repository.entries[i].key != key
      ensures r.Some? ==> exists i :: 0 <= i < |repository.entries| && repository.entries[i] == Entry(key, r.value)
    {
      Get(repository, key)
    }

    /**
     * `TrySwapCurrentRepository`: install `newRepo` unless the attempt is contended. The
     * comparand is the snapshot the caller has just read from the field; another writer
     * replacing the field in between is what `contended` stands for, so a comparand that
     * differs from the field is not a state of the sequential model.
     */
    method TrySwapCurrentRepository(currentRepo: Tree<V>, newRepo: Tree<V>, contended: bool) returns (swapped: bool)
      requires currentRepo == repository
      modifies this
      ensures swapped == !contended
      ensures repository == if swapped then newRepo else old(repository)
    {
      swapped := !contended;
      if swapped {
        repository := newRepo;
      }
    }

    /**
     * `SwapCurrentRepository`: the do-while retry loop. Each round bumps the counter, fails
     * once it exceeds the quota, and otherwise recomputes from the field and tries to swap.
     * It succeeds at the first uncontended attempt among 1..20, having computed the new
     * tree `attempts` times; if all twenty are contended it throws and nothing changed.
     */
    method SwapCurrentRepository(repoFactory: Tree<V> -> Tree<V>, contended: nat -> bool)
      returns (result: Outcome, attempts: nat)
      modifies this
      ensures 1 <= attempts <= SwapQuota
      ensures result.Pass? <==> !AllContended(contended, 1, SwapQuota)
      ensures result.Pass? ==> !contended(attempts) && AllContended(contended, 1, attempts - 1)
      ensures result.Pass? ==> repository == repoFactory(old(repository))
      ensures result.Fail? ==>
        && attempts == SwapQuota && repository == old(repository)
        && result.error == SwapQuotaExceeded("Swap quota exceeded.")
    {
      var counter := 0;
      var swapped := false;
      attempts := 0;
      while !swapped
        invariant 0 <= counter <= SwapQuota && attempts == counter
        invariant swapped ==> 1 <= counter && !contended(counter) && repository == repoFactory(old(repository))
        invariant AllContended(contended, 1, if swapped then counter - 1 else counter)
        invariant !swapped ==> repository == old(repository)
        decreases SwapQuota - counter
      {
        counter := counter + 1;
        if counter > SwapQuota {
          assert AllContended(contended, 1, SwapQuota);
          return Fail(SwapQuotaExceeded("Swap quota exceeded.")), SwapQuota;
        }
        var currentRepo := repository;
        var newRepo := repoFactory(currentRepo);
        attempts := counter;
        swapped := TrySwapCurrentRepository(currentRepo, newRepo, contended(counter));
      }
      result := Pass;
    }

    /**
     * `AddOrUpdate`: one direct attempt, then the retry loop on contention. On success the
     * tree is the single-step upsert of the old one; it answers the receiver itself.
     */
    method AddOrUpdate(key: int, value: V, updateDelegate: Option<(V, V) -> V>, contended: nat -> bool)
      returns (r: Result<ConcurrentTree<V>, SwapError>)
      requires Valid()
      modifies this
      ensures Valid()
      ensures r.Success? <==> !contended(0) || !AllContended(contended, 1, SwapQuota)
      ensures r.Success? ==> r.value == this
      ensures r.Success? ==> repository == ImmutableTree.AddOrUpdate(old(repository), key, value, updateDelegate)
      ensures r.Failure? ==> repository == old(repository)
    {
      var currentRepo := repository;
      var newRepo := ImmutableTree.AddOrUpdate(repository, key, value, updateDelegate);
      var swapped := TrySwapCurrentRepository(currentRepo, newRepo, contended(0));
      if !swapped {
        var outcome, _ := SwapCurrentRepository(repo => ImmutableTree.AddOrUpdate(repo, key, value, updateDelegate), contended);
        if outcome.Fail? {
          return Failure(outcome.error);
        }
      }
      r := Success(this);
    }

    /** `ConcurrentTree<TValue>.Add`: store `value` under its own hash code. */
    method Add(value: V, hash: V -> int, contended: nat -> bool) returns (r: Result<ConcurrentTree<V>, SwapError>)
      requires Valid()
      modifies this
      ensures Valid()
      ensures r.Success? ==> repository == ImmutableTree.AddOrUpdate(old(repository), hash(value), value, None)
      ensures r.Failure? ==> repository == old(repository)
    {
      r := AddOrUpdate(hash(value), value, None, contended);
    }
  }

  datatype Outcome = Pass | Fail(error: SwapError)

  /**
   * What a successful `AddOrUpdate(k, v, delegate)` leaves behind: `k` answers `v` when it
   * was absent, the stored value when present and no delegate was given, the delegate's
   * result otherwise; every other key answers as before.
   */
  lemma {:induction false} AddOrUpdateLookup<V>(t: Tree<V>, k: int, v: V, updateDelegate: Option<(V, V) -> V>)
    requires ImmutableTree.Valid(t)
    ensures var r := ImmutableTree.AddOrUpdate(t, k, v, updateDelegate);
      && (Get(t, k).None? ==> Get(r, k) == Some(v))
      && (Get(t, k).Some? && updateDelegate.None? ==> Get(r, k) == Get(t, k))
      && (Get(t, k).Some? && updateDelegate.Some? ==> Get(r, k) == Some(updateDelegate.value(Get(t, k).value, v)))
      && (forall k' :: k' != k ==> Get(r, k') == Get(t, k'))
  {
  }

  /** A client: when the first swap goes through, the retry loop is never entered. */
  method AddUncontended<V>(tree: ConcurrentTree<V>, key: int, value: V, contended: nat -> bool)
    requires tree.Valid() && tree.GetOrDefault(key).None? && !contended(0)
    modifies tree
    ensures tree.GetOrDefault(key) == Some(value)
  {
    var r := tree.AddOrUpdate(key, value, None, contended);
    assert r.Success?;
  }
}
