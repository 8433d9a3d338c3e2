/**
 * The component map of an entity, as a value: a map from a component's type
 * tag to the component stored for it. The three functions here are the
 * effects that Entity::addComponent, Entity::getComponent and
 * Entity::removeComponent have on that map (main.cpp:34-59); the class
 * Ecs.Entity states its methods in terms of them.
 */
module Registry {

  datatype Option<T> = None | Some(value: T)

  /** What getComponent finds: the stored value when the key is present, nothing otherwise. */
  function Lookup<K, V>(m: map<K, V>, k: K): Option<V>
  {
    if k in m then Some(m[k]) else None
  }

  /**
   * The map after addComponent: an existing entry is kept (no overwrite),
   * otherwise exactly one entry k -> v is inserted.
   */
  function AfterAdd<K, V>(m: map<K, V>, k: K, v: V): (r: map<K, V>)
    ensures r.Keys == m.Keys + {k}
    ensures r[k] == if k in m then m[k] else v
    ensures forall j :: j in m && j != k ==> r[j] == m[j]
    ensures |r| == if k in m then |m| else |m| + 1
  {
    if k in m then m else m[k := v]
  }

  /** The map after removeComponent: the entry for k is gone, every other entry is kept. */
  function AfterRemove<K, V>(m: map<K, V>, k: K): (r: map<K, V>)
    ensures r.Keys == m.Keys - {k}
    ensures forall j :: j in r ==> r[j] == m[j]
    ensures |r| == if k in m then |m| - 1 else |m|
  {
    var r := m - {k};
    assert r.Keys == m.Keys - {k};
    r
  }

  /** Adding a key twice is the same as adding it once: the second add changes nothing. */
  lemma AddIdempotent<K, V>(m: map<K, V>, k: K, v: V, w: V)
    ensures AfterAdd(AfterAdd(m, k, v), k, w) == AfterAdd(m, k, v)
  {
  }

  /** Removing a key that was just added restores the map, when the key was absent before. */
  lemma RemoveUndoesAdd<K, V>(m: map<K, V>, k: K, v: V)
    requires k !in m
    ensures AfterRemove(AfterAdd(m, k, v), k) == m
  {
  }

  /** After an add, looking the key up finds the kept entry, or the new value when there was none. */
  lemma LookupAfterAdd<K, V>(m: map<K, V>, k: K, v: V)
    ensures Lookup(AfterAdd(m, k, v), k) == Some(if k in m then m[k] else v)
  {
  }

  /** After a remove, looking the key up finds nothing. */
  lemma LookupAfterRemove<K, V>(m: map<K, V>, k: K)
    ensures Lookup(AfterRemove(m, k), k) == None
  {
  }

  /** Removing an absent key is a no-op. */
  lemma RemoveAbsentIsNoop<K, V>(m: map<K, V>, k: K)
    requires k !in m
    ensures AfterRemove(m, k) == m
  {
  }

  // ---------------------------------------------------------------------------
  // A history of attach/detach calls on one entity.

  /** One call: an add that would store `value` when the key is absent, or a remove. */
  datatype Op<K, V> = Attach(key: K, value: V) | Detach(key: K)

  /** The last operation in `ops` that concerns key `k`, if any. */
  function LastOn<K(==), V>(ops: seq<Op<K, V>>, k: K): (r: Option<Op<K, V>>)
    ensures r.Some? ==> r.value in ops && r.value.key == k
    decreases |ops|
  {
    if ops == [] then None
    else if ops[|ops| - 1].key == k then Some(ops[|ops| - 1])
    else LastOn(ops[..|ops| - 1], k)
  }

  /**
   * The component map after replaying a history of add/remove calls, one
   * AfterAdd or AfterRemove per step; each add carries the component it
   * would store.
   */
  function Replay<K, V>(m: map<K, V>, ops: seq<Op<K, V>>): map<K, V>
    decreases |ops|
  {
    if ops == [] then m
    else
      var before := Replay(m, ops[..|ops| - 1]);
      match ops[|ops| - 1]
      case Attach(k, v) => AfterAdd(before, k, v)
      case Detach(k) => AfterRemove(before, k)
  }

  /**
   * An entity holds a tag after a history of add/remove calls exactly when
   * the last call concerning that tag was an add, or, if no call concerned
   * it, when it held the tag at the start.
   */
  lemma {:induction false} HeldIffLastIsAttach<K, V>(m: map<K, V>, ops: seq<Op<K, V>>, k: K)
    ensures k in Replay(m, ops) <==>
      match LastOn(ops, k)
      case None => k in m
      case Some(op) => op.Attach?
    decreases |ops|
  {
    if ops != [] {
      HeldIffLastIsAttach(m, ops[..|ops| - 1], k);
    }
  }
}
