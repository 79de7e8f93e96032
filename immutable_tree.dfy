/**
 * The persistent, hash-keyed search tree behind every table of the container
 * (`ImmutableTree` / `AvlTree`). Its balancing is not modelled: a tree is given by its
 * in-order traversal, a list of entries with strictly ascending integer keys. Keys are
 * hash codes, so two logical keys with the same hash are the same key here, as in the
 * code.
 */
module ImmutableTree {
  import opened Wrappers

  datatype Entry<V> = Entry(key: int, value: V)

  datatype Tree<V> = Tree(entries: seq<Entry<V>>)

  /** The search-tree order: keys strictly ascend along the in-order traversal. */
  ghost predicate Valid<V>(t: Tree<V>) {
    forall i, j :: 0 <= i < j < |t.entries| ==> t.entries[i].key < t.entries[j].key
  }

  function Empty<V>(): (t: Tree<V>)
    ensures Valid(t) && t.entries == []
  {
    Tree([])
  }

  /** `Enumerate()`: the entries in traversal order. */
  function Enumerate<V>(t: Tree<V>): seq<Entry<V>> {
    t.entries
  }

  function Values<V>(t: Tree<V>): (vs: seq<V>)
    ensures |vs| == |t.entries|
    ensures forall i :: 0 <= i < |vs| ==> vs[i] == t.entries[i].value
  {
    seq(|t.entries|, i requires 0 <= i < |t.entries| => t.entries[i].value)
  }

  function Find<V>(es: seq<Entry<V>>, k: int): (r: Option<V>)
    ensures r.None? <==> forall i :: 0 <= i < |es| ==> es[i].key != k
    ensures r.Some? ==> exists i :: 0 <= i < |es| && es[i] == Entry(k, r.value)
  {
    if es == [] then None
    else if es[0].key == k then Some(es[0].value)
    else
      var r := Find(es[1..], k);
      assert forall i :: 1 <= i < |es| ==> es[i] == es[1..][i - 1];
      r
  }

  /** `GetValueOrDefault(key)`: the value stored under `key`, or null. */
  function Get<V>(t: Tree<V>, k: int): (r: Option<V>)
    ensures r.None? <==> forall i :: 0 <= i < |t.entries| ==> t.entries[i].key != k
    ensures r.Some? ==> exists i :: 0 <= i < |t.entries| && t.entries[i] == Entry(k, r.value)
  {
    Find(t.entries, k)
  }

  /**
   * The value an upsert leaves under its key: the new value when the key was absent,
   * otherwise the stored one, or what the merge delegate makes of (stored, new).
   */
  function Merged<V>(stored: Option<V>, v: V, merge: Option<(V, V) -> V>): V {
    match stored
    case None => v
    case Some(o) => if merge.None? then o else merge.value(o, v)
  }

  function Insert<V>(es: seq<Entry<V>>, k: int, v: V, merge: Option<(V, V) -> V>): (r: seq<Entry<V>>)
  {
    if es == [] then [Entry(k, v)]
    else if es[0].key == k then [Entry(k, Merged(Some(es[0].value), v, merge))] + es[1..]
    else if k < es[0].key then [Entry(k, v)] + es
    else [es[0]] + Insert(es[1..], k, v, merge)
  }

  lemma {:induction false} FindTail<V>(es: seq<Entry<V>>, k: int)
    requires es != [] && es[0].key != k
    ensures Find(es, k) == Find(es[1..], k)
  {
  }

  /** Inserting under one key leaves what every other key finds unchanged. */
  lemma {:induction false} InsertOther<V>(es: seq<Entry<V>>, k: int, v: V, merge: Option<(V, V) -> V>)
    ensures forall k' :: k' != k ==> Find(Insert(es, k, v, merge), k') == Find(es, k')
  {
    if es != [] && es[0].key != k && !(k < es[0].key) {
      InsertOther(es[1..], k, v, merge);
      var r := Insert(es, k, v, merge);
      forall k' | k' != k ensures Find(r, k') == Find(es, k') {
        if es[0].key != k' {
          FindTail(r, k');
          FindTail(es, k');
        }
      }
    }
  }

  /** Dropping the first entry of a search tree leaves a search tree. */
  lemma {:induction false} ValidTail<V>(es: seq<Entry<V>>)
    requires es != [] && Valid(Tree(es))
    ensures Valid(Tree(es[1..]))
    ensures forall i :: 0 <= i < |es[1..]| ==> es[0].key < es[1..][i].key
  {
    forall i, j | 0 <= i < j < |es[1..]| ensures es[1..][i].key < es[1..][j].key {
      assert es[1..][i] == es[i + 1] && es[1..][j] == es[j + 1];
    }
    forall i | 0 <= i < |es[1..]| ensures es[0].key < es[1..][i].key {
      assert es[1..][i] == es[i + 1];
    }
  }

  /** An insert keeps the old entries and adds or rewrites only the one under its key. */
  lemma {:induction false} InsertMembers<V>(es: seq<Entry<V>>, k: int, v: V, merge: Option<(V, V) -> V>)
    ensures Valid(Tree(es)) ==>
      forall e :: e in Insert(es, k, v, merge) ==> e in es || e == Entry(k, Merged(Find(es, k), v, merge))
  {
    if !Valid(Tree(es)) || es == [] || es[0].key == k {
    } else if k < es[0].key {
      assert Find(es, k).None?;
    } else {
      var r := Insert(es, k, v, merge);
      var rest := es[1..];
      var tail := Insert(rest, k, v, merge);
      ValidTail(es);
      InsertMembers(rest, k, v, merge);
      FindTail(es, k);
      assert r == [es[0]] + tail;
      forall e | e in r ensures e in es || e == Entry(k, Merged(Find(es, k), v, merge)) {
        if e != es[0] {
          assert e in tail;
          assert e in rest ==> e in es;
        }
      }
    }
  }

  /** The keys of an insert into a search tree still ascend. */
  lemma {:induction false} InsertValid<V>(es: seq<Entry<V>>, k: int, v: V, merge: Option<(V, V) -> V>)
    ensures Valid(Tree(es)) ==> Valid(Tree(Insert(es, k, v, merge)))
  {
    if !Valid(Tree(es)) || es == [] || es[0].key == k || k < es[0].key {
    } else {
      var r := Insert(es, k, v, merge);
      var rest := es[1..];
      var tail := Insert(rest, k, v, merge);
      ValidTail(es);
      InsertValid(rest, k, v, merge);
      InsertMembers(rest, k, v, merge);
      forall i | 0 <= i < |tail| ensures es[0].key < tail[i].key {
        assert tail[i] in tail;
        assert tail[i] in rest || tail[i].key == k;
      }
      assert r == [es[0]] + tail;
      forall i, j | 0 <= i < j < |r| ensures r[i].key < r[j].key {
        assert r[j] == tail[j - 1];
        if i > 0 {
          assert r[i] == tail[i - 1];
        }
      }
    }
  }

  /** An insert into a search tree finds the merged value under its key, and grows exactly when the key was new. */
  lemma {:induction false} InsertEntries<V>(es: seq<Entry<V>>, k: int, v: V, merge: Option<(V, V) -> V>)
    ensures Valid(Tree(es)) ==> var r := Insert(es, k, v, merge);
      && Find(r, k) == Some(Merged(Find(es, k), v, merge))
      && |r| == |es| + (if Find(es, k).Some? then 0 else 1)
  {
    if !Valid(Tree(es)) || es == [] || es[0].key == k {
    } else if k < es[0].key {
      assert Find(es, k).None?;
    } else {
      var r := Insert(es, k, v, merge);
      ValidTail(es);
      InsertEntries(es[1..], k, v, merge);
      FindTail(es, k);
      FindTail(r, k);
    }
  }

  /**
   * `AddOrUpdate(key, value, merge)`: a new tree in which `key` holds `value` if it was
   * absent, or else the stored value (no delegate) or `merge(stored, value)`. The
   * receiver is a value and is left as it was.
   */
  function AddOrUpdate<V>(t: Tree<V>, k: int, v: V, merge: Option<(V, V) -> V>): (r: Tree<V>)
    ensures Valid(t) ==> Valid(r)
    ensures Valid(t) ==> Get(r, k) == Some(Merged(Get(t, k), v, merge))
    ensures forall k' :: k' != k ==> Get(r, k') == Get(t, k')
    ensures Valid(t) ==> |r.entries| == |t.entries| + (if Get(t, k).Some? then 0 else 1)
    ensures Valid(t) ==>
      forall i :: 0 <= i < |r.entries| ==> r.entries[i] in t.entries || r.entries[i] == Entry(k, Merged(Get(t, k), v, merge))
  {
    InsertOther(t.entries, k, v, merge);
    InsertMembers(t.entries, k, v, merge);
    InsertValid(t.entries, k, v, merge);
    InsertEntries(t.entries, k, v, merge);
    Tree(Insert(t.entries, k, v, merge))
  }

  /**
   * `Value`: the value at the root of the tree; only that it is one of the stored
   * values is promised (the middle of the traversal is taken), null for an empty tree.
   */
  function Value<V>(t: Tree<V>): (r: Option<V>)
    ensures r.None? <==> t.entries == []
    ensures r.Some? ==> exists i :: 0 <= i < |t.entries| && t.entries[i].value == r.value
  {
    if t.entries == [] then None else Some(t.entries[|t.entries| / 2].value)
  }

  /** In a valid tree every entry is found under its own key. */
  lemma {:induction false} GetEntry<V>(t: Tree<V>, i: int)
    requires Valid(t) && 0 <= i < |t.entries|
    ensures Get(t, t.entries[i].key) == Some(t.entries[i].value)
  {
    var k := t.entries[i].key;
    var r := Get(t, k);
    assert r.Some?;
    var j :| 0 <= j < |t.entries| && t.entries[j] == Entry(k, r.value);
    assert i == j;
  }
}
