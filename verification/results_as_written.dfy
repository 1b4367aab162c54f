/**
 * The loops of `Results::delete` and `Results::get` exactly as written, on a
 * PHP array whose `unset` leaves holes: the keys of the remaining records do
 * not move, while `count()` drops by one.
 */
module ResultsAsWritten {
  import opened Wrappers
  import opened ResultList

  /** A PHP list indexed `0..n-1`; `None` marks a key removed by `unset`. */
  type Slots<T> = seq<Option<Entry<T>>>

  /** PHP's `count()`: the number of keys still present. */
  function Count<T>(a: Slots<T>): (n: nat)
    ensures n <= |a|
    decreases |a|
  {
    if |a| == 0 then 0 else Count(a[..|a| - 1]) + (if a[|a| - 1].Some? then 1 else 0)
  }

  /** The array `session->get("_RESULTS")` returns for a list without holes. */
  function Dense<T>(l: seq<Entry<T>>): (a: Slots<T>)
    ensures |a| == |l|
  {
    seq(|l|, i requires 0 <= i < |l| => Some(l[i]))
  }

  /**
   * The loop of `delete($name)`. The test reads the undefined `$result`
   * (null), and `null == $name` holds exactly when `$name` is `""`, so `hit`
   * is the same on every iteration.
   */
  function DeleteLoop<T>(a: Slots<T>, i: nat, hit: bool): (r: Slots<T>)
    ensures |r| == |a|
    ensures forall j :: 0 <= j < |a| ==> r[j] == a[j] || r[j] == None
    decreases |a| - i
  {
    if i >= Count(a) then a
    else DeleteLoop(if hit then a[i := None] else a, i + 1, hit)
  }

  /**
   * `delete($name)` as written: `unset` only removes keys, so every record is
   * either still at its index or gone; none moves.
   */
  function DeleteAsWritten<T>(l: seq<Entry<T>>, name: string): (r: Slots<T>)
    ensures |r| == |l|
    ensures forall i :: 0 <= i < |l| ==> r[i] == Some(l[i]) || r[i] == None
  {
    DeleteLoop(Dense(l), 0, name == "")
  }

  /** With `hit` false the delete loop never touches the array. */
  lemma {:induction false} DeleteLoopMisses<T>(a: Slots<T>, i: nat)
    ensures DeleteLoop(a, i, false) == a
    decreases |a| - i
  {
    if i < Count(a) {
      DeleteLoopMisses(a, i + 1);
    }
  }

  /**
   * `delete` as written removes nothing for any non-empty name: every record
   * called `name` is still stored, which the intended `Remove` never leaves.
   */
  lemma DeleteIgnoresName<T>(l: seq<Entry<T>>, name: string)
    requires name != ""
    ensures DeleteAsWritten(l, name) == Dense(l)
    ensures forall i :: 0 <= i < |l| && l[i].name == name ==> DeleteAsWritten(l, name)[i] == Some(l[i])
  {
    DeleteLoopMisses(Dense(l), 0);
  }

  /**
   * The loop of `get($length, $offset)`: the bound `count($results)` is
   * re-evaluated after each `unset`, and the loop breaks when `$length`
   * equals the absolute index `$i`. Returns the array written back and the
   * values collected.
   */
  function GetLoop<T>(a: Slots<T>, i: nat, length: int, offset: int, ret: seq<T>): (r: (Slots<T>, seq<T>))
    requires i <= |a|
    requires forall j :: i <= j < |a| ==> a[j].Some?
    ensures |r.0| == |a|
    ensures forall j :: 0 <= j < |a| ==> r.0[j] == a[j] || (r.0[j] == None && a[j].Some? && a[j].value.kind == Flash)
    ensures |r.1| <= |ret| + |a| - i
    decreases |a| - i
  {
    if i >= Count(a) then (a, ret)
    else if offset > 0 then GetLoop(a, i + 1, length, offset - 1, ret)
    else
      var e := a[i].value;
      var a' := if e.kind == Flash then a[i := None] else a;
      if length == i then (a', ret + [e.result])
      else GetLoop(a', i + 1, length, offset, ret + [e.result])
  }

  /**
   * `get($length, $offset)` as written: the array written back keeps every
   * record at its index except unset flash ones, and at most one value per
   * record is returned.
   */
  function GetAsWritten<T>(l: seq<Entry<T>>, length: int, offset: int): (r: (Slots<T>, seq<T>))
    ensures |r.0| == |l| && |r.1| <= |l|
    ensures forall i :: 0 <= i < |l| ==> r.0[i] == Some(l[i]) || (r.0[i] == None && l[i].kind == Flash)
  {
    GetLoop(Dense(l), 0, length, offset, [])
  }

  /**
   * `$length == $i` compares with the absolute index: asking for one result
   * of three permanent ones returns two, where the window holds one.
   */
  lemma GetLengthComparesIndex()
    ensures var l := [Entry(Permanent, "a", 1), Entry(Permanent, "b", 2), Entry(Permanent, "c", 3)];
            GetAsWritten(l, 1, 0).1 == [1, 2] && Values(Window(l, 1, 0)) == [1]
  {
    var l := [Entry(Permanent, "a", 1), Entry(Permanent, "b", 2), Entry(Permanent, "c", 3)];
    var a := Dense(l);
    assert Count(a[..0]) == 0;
    assert Count(a[..1]) == 1 && Count(a[..2]) == 2 && Count(a) == 3;
    assert a[0] == Some(l[0]) && a[1] == Some(l[1]);
    assert a[1].value.kind != Flash && a[1].value.result == 2;
    assert [1] + [2] == [1, 2];
    assert GetLoop(a, 1, 1, 0, [1]) == (a, [1] + [a[1].value.result]);
    assert GetLoop(a, 1, 1, 0, [1]) == (a, [1, 2]);
    assert a[0].value.kind != Flash && a[0].value.result == 1;
    assert GetLoop(a, 0, 1, 0, []) == GetLoop(a, 1, 1, 0, [] + [a[0].value.result]);
    assert [] + [1] == [1];
    assert Window(l, 1, 0) == [l[0]];
  }

  /**
   * `unset` inside the `count()`-bounded loop shrinks the bound: reading all
   * of two flash results returns only the first and leaves the second stored.
   */
  lemma GetSkipsAfterEviction()
    ensures var l := [Entry(Flash, "a", 1), Entry(Flash, "b", 2)];
            GetAsWritten(l, -1, 0) == ([None, Some(l[1])], [1]) && Values(Window(l, -1, 0)) == [1, 2]
  {
    var l := [Entry(Flash, "a", 1), Entry(Flash, "b", 2)];
    var a := Dense(l);
    var a1 := a[0 := None];
    assert a1 == [None, Some(l[1])];
    assert Count(a1[..0]) == 0 && Count(a1[..1]) == 0 && Count(a1) == 1;
    assert Count(a[..0]) == 0 && Count(a[..1]) == 1 && Count(a) == 2;
    assert a[0] == Some(l[0]) && a[0].value.kind == Flash && a[0].value.result == 1;
    assert GetLoop(a1, 1, -1, 0, [1]) == (a1, [1]);
    assert GetLoop(a, 0, -1, 0, []) == GetLoop(a1, 1, -1, 0, [] + [a[0].value.result]);
    assert [] + [1] == [1];
    assert Window(l, -1, 0) == l;
  }
}
