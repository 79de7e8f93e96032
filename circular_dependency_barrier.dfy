/**
 * `CircularDependencyBarrier`: a scoped acquisition on the per-resolution set of types
 * being resolved. Acquiring a type already in the set is a circular dependency;
 * disposing the barrier takes its type out again.
 */
module BuildUp {
  import opened Wrappers
  import opened Types

  /** The shared `HashSet<Type>` of the resolution context. */
  class TypeSet {
    var contents: set<ClrType>

    constructor (contents: set<ClrType>)
      ensures this.contents == contents
    {
      this.contents := contents;
    }
  }

  /** `CircularDependencyException`, carrying the full name of the offending type. */
  datatype CircularDependencyException = CircularDependencyException(typeName: string)

  class CircularDependencyBarrier {
    const inFlight: TypeSet
    const barrierType: ClrType

    /** The successful path of the constructor: the type is added to the set. */
    constructor (inFlight: TypeSet, t: ClrType)
      requires t !in inFlight.contents
      modifies inFlight
      ensures this.inFlight == inFlight && barrierType == t
      ensures inFlight.contents == old(inFlight.contents) + {t}
    {
      inFlight.contents := inFlight.contents + {t};
      this.inFlight := inFlight;
      barrierType := t;
    }

    /**
     * The constructor with its check: a type already in flight throws and leaves the set
     * as it was; otherwise a new barrier holds the type, which is now in the set.
     */
    static method Acquire(inFlight: TypeSet, t: ClrType) returns (r: Result<CircularDependencyBarrier, CircularDependencyException>)
      modifies inFlight
      ensures t in old(inFlight.contents) ==>
        r == Failure(CircularDependencyException(FullName(t))) && inFlight.contents == old(inFlight.contents)
      ensures t !in old(inFlight.contents) ==>
        && r.Success? && fresh(r.value)
        && r.value.inFlight == inFlight && r.value.barrierType == t
        && inFlight.contents == old(inFlight.contents) + {t}
    {
      if t in inFlight.contents {
        return Failure(CircularDependencyException(FullName(t)));
      }
      var barrier := new CircularDependencyBarrier(inFlight, t);
      r := Success(barrier);
    }

    /** `Dispose`: remove exactly the barrier's own type, leaving every other member in place. */
    method Dispose()
      modifies inFlight
      ensures inFlight.contents == old(inFlight.contents) - {barrierType}
    {
      inFlight.contents := inFlight.contents - {barrierType};
    }
  }

  /** A client: acquire then dispose restores the set; disposing again changes nothing. */
  method AcquireRelease(inFlight: TypeSet, t: ClrType)
    requires t !in inFlight.contents
    modifies inFlight
    ensures inFlight.contents == old(inFlight.contents)
  {
    var r := CircularDependencyBarrier.Acquire(inFlight, t);
    var barrier := r.value;
    barrier.Dispose();
    assert inFlight.contents == old(inFlight.contents);
    barrier.Dispose();
  }

  /** A client: two nested barriers on distinct types, released inner first. */
  method Nested(inFlight: TypeSet, outer: ClrType, inner: ClrType)
    requires outer != inner && outer !in inFlight.contents && inner !in inFlight.contents
    modifies inFlight
    ensures inFlight.contents == old(inFlight.contents)
  {
    var r1 := CircularDependencyBarrier.Acquire(inFlight, outer);
    var r2 := CircularDependencyBarrier.Acquire(inFlight, inner);
    r2.value.Dispose();
    r1.value.Dispose();
  }

  // ---------------------------------------------------------------------------------
  // Nesting, on values: a chain of resolutions acquires one barrier per type in order;
  // the barriers are disposed innermost first.

  /** Acquire barriers for `ts[0]`, `ts[1]`, ... in nesting order; stop at the first conflict. */
  function AcquireAll(inFlight: set<ClrType>, ts: seq<ClrType>): Result<set<ClrType>, CircularDependencyException>
    decreases |ts|
  {
    if ts == [] then Success(inFlight)
    else if ts[0] in inFlight then Failure(CircularDependencyException(FullName(ts[0])))
    else AcquireAll(inFlight + {ts[0]}, ts[1..])
  }

  /** Dispose the barriers of `ts` innermost first: the inner ones, then `ts[0]`. */
  function ReleaseAll(inFlight: set<ClrType>, ts: seq<ClrType>): set<ClrType> {
    if ts == [] then inFlight else ReleaseAll(inFlight, ts[1..]) - {ts[0]}
  }

  /** The chain has no repeated type and none already in flight. */
  ghost predicate Acyclic(inFlight: set<ClrType>, ts: seq<ClrType>) {
    && (forall i :: 0 <= i < |ts| ==> ts[i] !in inFlight)
    && (forall i, j :: 0 <= i < j < |ts| ==> ts[i] != ts[j])
  }

  /**
   * A chain of nested acquisitions succeeds exactly when it is acyclic, and then adds
   * exactly its types; otherwise it fails naming a type that was re-entered.
   */
  lemma {:induction false} AcquireAllSpec(inFlight: set<ClrType>, ts: seq<ClrType>)
    ensures AcquireAll(inFlight, ts).Success? <==> Acyclic(inFlight, ts)
    ensures AcquireAll(inFlight, ts).Success? ==>
      AcquireAll(inFlight, ts).value == inFlight + set i | 0 <= i < |ts| :: ts[i]
    ensures AcquireAll(inFlight, ts).Failure? ==>
      exists k :: 0 <= k < |ts| && (ts[k] in inFlight || ts[k] in ts[..k])
                  && AcquireAll(inFlight, ts).error == CircularDependencyException(FullName(ts[k]))
    decreases |ts|
  {
    if ts != [] {
      var rest := ts[1..];
      AcquireAllSpec(inFlight + {ts[0]}, rest);
      assert forall i :: 1 <= i < |ts| ==> ts[i] == rest[i - 1];
      if ts[0] in inFlight {
        assert !Acyclic(inFlight, ts);
      } else {
        if Acyclic(inFlight, ts) {
          assert Acyclic(inFlight + {ts[0]}, rest);
        }
        if Acyclic(inFlight + {ts[0]}, rest) {
          assert Acyclic(inFlight, ts);
        }
        if AcquireAll(inFlight, ts).Success? {
          assert (set i | 0 <= i < |ts| :: ts[i]) == {ts[0]} + set i | 0 <= i < |rest| :: rest[i];
        } else {
          var k :| 0 <= k < |rest| && (rest[k] in inFlight + {ts[0]} || rest[k] in rest[..k])
                   && AcquireAll(inFlight + {ts[0]}, rest).error == CircularDependencyException(FullName(rest[k]));
          assert ts[..k + 1] == [ts[0]] + rest[..k];
          if rest[k] == ts[0] {
            assert ts[k + 1] in ts[..k + 1];
          } else if rest[k] in rest[..k] {
            var m :| 0 <= m < k && rest[..k][m] == rest[k];
            assert ts[..k + 1][m + 1] == ts[k + 1];
          }
        }
      }
    }
  }

  /** Nested barriers on distinct types, released in reverse order, restore the original set. */
  lemma {:induction false} NestedReleaseRestores(inFlight: set<ClrType>, ts: seq<ClrType>)
    requires AcquireAll(inFlight, ts).Success?
    ensures ReleaseAll(AcquireAll(inFlight, ts).value, ts) == inFlight
    decreases |ts|
  {
    if ts != [] {
      NestedReleaseRestores(inFlight + {ts[0]}, ts[1..]);
    }
  }

  /** Acquiring `ts + [t]` is acquiring `ts` and then, unless that already failed, `t`. */
  lemma {:induction false} AcquireAllSnoc(inFlight: set<ClrType>, ts: seq<ClrType>, t: ClrType)
    ensures AcquireAll(inFlight, ts + [t]) ==
      match AcquireAll(inFlight, ts)
      case Failure(e) => Failure(e)
      case Success(held) =>
        if t in held then Failure(CircularDependencyException(FullName(t))) else Success(held + {t})
    decreases |ts|
  {
    if ts != [] {
      assert (ts + [t])[1..] == ts[1..] + [t];
      AcquireAllSnoc(inFlight + {ts[0]}, ts[1..], t);
    }
  }

  /** Once a chain has failed, the barriers nested inside it are never attempted. */
  lemma {:induction false} AcquireAllFailurePrefix(inFlight: set<ClrType>, ts: seq<ClrType>, more: seq<ClrType>)
    requires AcquireAll(inFlight, ts).Failure?
    ensures AcquireAll(inFlight, ts + more) == AcquireAll(inFlight, ts)
    decreases |ts|
  {
    assert (ts + more)[0] == ts[0];
    if ts[0] !in inFlight {
      assert (ts + more)[1..] == ts[1..] + more;
      AcquireAllFailurePrefix(inFlight + {ts[0]}, ts[1..], more);
    }
  }

  /** Dispose a chain of barriers on one set, innermost (last) first. */
  method ReleaseChain(inFlight: TypeSet, barriers: seq<CircularDependencyBarrier>)
    requires forall i :: 0 <= i < |barriers| ==> barriers[i].inFlight == inFlight
    modifies inFlight
    ensures inFlight.contents == old(inFlight.contents) - set i | 0 <= i < |barriers| :: barriers[i].barrierType
  {
    var k := |barriers|;
    while k > 0
      invariant 0 <= k <= |barriers|
      invariant inFlight.contents == old(inFlight.contents) - set i | k <= i < |barriers| :: barriers[i].barrierType
    {
      k := k - 1;
      barriers[k].Dispose();
      assert (set i | k <= i < |barriers| :: barriers[i].barrierType)
          == {barriers[k].barrierType} + set i | k + 1 <= i < |barriers| :: barriers[i].barrierType;
    }
  }

  /**
   * A chain of nested resolutions: one barrier per type of `ts`, acquired in order with
   * `Acquire`. It ends as `AcquireAll` says: with every barrier held and the set extended
   * by the chain, or with the exception of the first re-entered type, after the barriers
   * already held are disposed innermost first (as the enclosing `using` blocks do when the
   * exception passes through them), which leaves the set as it was.
   */
  method AcquireChain(inFlight: TypeSet, ts: seq<ClrType>)
    returns (r: Result<seq<CircularDependencyBarrier>, CircularDependencyException>)
    modifies inFlight
    ensures AcquireAll(old(inFlight.contents), ts).Success? ==>
      && r.Success? && |r.value| == |ts|
      && inFlight.contents == AcquireAll(old(inFlight.contents), ts).value
      && forall i :: 0 <= i < |ts| ==> r.value[i].inFlight == inFlight && r.value[i].barrierType == ts[i]
    ensures AcquireAll(old(inFlight.contents), ts).Failure? ==>
      && r == Failure(AcquireAll(old(inFlight.contents), ts).error)
      && inFlight.contents == old(inFlight.contents)
  {
    ghost var start := inFlight.contents;
    var held: seq<CircularDependencyBarrier> := [];
    for i := 0 to |ts|
      invariant AcquireAll(start, ts[..i]) == Success(inFlight.contents)
      invariant |held| == i
      invariant forall j :: 0 <= j < i ==> held[j].inFlight == inFlight && held[j].barrierType == ts[j]
    {
      AcquireAllSnoc(start, ts[..i], ts[i]);
      assert ts[..i + 1] == ts[..i] + [ts[i]];
      var b := CircularDependencyBarrier.Acquire(inFlight, ts[i]);
      if b.Failure? {
        AcquireAllFailurePrefix(start, ts[..i + 1], ts[i + 1..]);
        assert ts[..i + 1] + ts[i + 1..] == ts;
        AcquireAllSpec(start, ts[..i]);
        assert (set j | 0 <= j < |held| :: held[j].barrierType) == set j | 0 <= j < i :: ts[..i][j];
        ReleaseChain(inFlight, held);
        return Failure(b.error);
      }
      held := held + [b.value];
    }
    assert ts[..|ts|] == ts;
    r := Success(held);
  }
}
