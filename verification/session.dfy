/**
 * The session backend (`Alexya\Tools\Session\Session`).
 *
 * The class extends a `Collection` and also writes every change through to
 * PHP's `$_SESSION` superglobal, so a session holds two mirrors of the same
 * variables. Both are plain maps here; `session_start` and `session_destroy`
 * are left out.
 */
module Session {
  import opened Wrappers

  /** `items` is the `Collection` parent's storage, `superglobal` is `$_SESSION`. */
  datatype Store<V> = Store(items: map<string, V>, superglobal: map<string, V>)

  /** The invariant the class relies on: both mirrors hold the same variables. */
  ghost predicate Mirrored<V(!new)>(s: Store<V>)
  {
    s.items == s.superglobal
  }

  /** Every variable other than `name` reads the same in `s` and `t`. */
  ghost predicate SameExcept<V(!new)>(s: Store<V>, t: Store<V>, name: string)
  {
    forall k, d :: k != name ==> Get(t, k, d) == Get(s, k, d)
  }

  /**
   * The constructor after `session_start`: the collection is built from the
   * variables PHP loaded into `$_SESSION`.
   */
  function Start<V(!new)>(loaded: map<string, V>): (s: Store<V>)
    ensures Mirrored(s)
    ensures forall k, d :: Get(s, k, d) == (if k in loaded then Some(loaded[k]) else d)
  {
    Store(loaded, loaded)
  }

  /** `exists`/`keyExists` of the collection. */
  function Exists<V(!new)>(s: Store<V>, name: string): bool
  {
    name in s.items
  }

  /**
   * `get($name, $default)`: the default when the collection lacks the key;
   * otherwise `$_SESSION[$name]`, which PHP reads as `null` when the
   * superglobal lacks it.
   */
  function Get<V(!new)>(s: Store<V>, name: string, default: Option<V>): (r: Option<V>)
    ensures !Exists(s, name) ==> r == default
    ensures Mirrored(s) && Exists(s, name) ==> r == Some(s.items[name])
  {
    if name !in s.items then default
    else if name in s.superglobal then Some(s.superglobal[name])
    else None
  }

  /** `set($name, $value)`: writes `$_SESSION` first, then the collection. */
  function Set<V(!new)>(s: Store<V>, name: string, v: V): (t: Store<V>)
    ensures Exists(t, name)
    ensures forall d :: Get(t, name, d) == Some(v)
    ensures SameExcept(s, t, name)
    ensures Mirrored(s) ==> Mirrored(t)
  {
    var sg := s.superglobal[name := v];
    Store(s.items[name := v], sg)
  }

  /**
   * `deleteByKey($name)`: nothing happens when the collection lacks the key;
   * otherwise the key leaves both the collection and `$_SESSION`.
   */
  function DeleteByKey<V(!new)>(s: Store<V>, name: string): (t: Store<V>)
    ensures !Exists(s, name) ==> t == s
    ensures Exists(s, name) ==> name !in t.items && name !in t.superglobal
    ensures forall d :: Get(t, name, d) == d
    ensures SameExcept(s, t, name)
    ensures Mirrored(s) ==> Mirrored(t)
  {
    if name !in s.items then s
    else Store(s.items - {name}, s.superglobal - {name})
  }

  /** On a mirrored session, deleting a key undoes any earlier `set` of it. */
  lemma DeleteUndoesSet<V(!new)>(s: Store<V>, name: string, v: V)
    requires Mirrored(s)
    ensures DeleteByKey(Set(s, name, v), name) == DeleteByKey(s, name)
  {
    var t := Set(s, name, v);
    assert t.items - {name} == s.items - {name};
    assert t.superglobal - {name} == s.superglobal - {name};
    if name !in s.items {
      assert s.items - {name} == s.items;
      assert s.superglobal - {name} == s.superglobal;
    }
  }
}
