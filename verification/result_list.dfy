/**
 * The list of results that `Results` keeps under `"_RESULTS"`: an ordered
 * sequence of `{type, name, result}` records, with the list-level meaning of
 * `delete` and of the eviction `get` performs.
 */
module ResultList {

  /** The `"type"` field of a record. */
  datatype Kind = Flash | Permanent

  /** One `["type" => …, "name" => …, "result" => …]` record. */
  datatype Entry<T> = Entry(kind: Kind, name: string, result: T)

  /** The `"result"` fields of `l`, in order. */
  function Values<T>(l: seq<Entry<T>>): (vs: seq<T>)
  {
    seq(|l|, i requires 0 <= i < |l| => l[i].result)
  }

  /** The records of `l` that satisfy `keep`, in their original order. */
  function Filter<T>(l: seq<Entry<T>>, keep: Entry<T> -> bool): (r: seq<Entry<T>>)
    ensures |r| <= |l|
    ensures forall i :: 0 <= i < |r| ==> keep(r[i])
    ensures (forall i :: 0 <= i < |l| ==> keep(l[i])) ==> r == l
    decreases |l|
  {
    if |l| == 0 then []
    else (if keep(l[0]) then [l[0]] else []) + Filter(l[1..], keep)
  }

  /** Filtering commutes with concatenation: the kept records stay in order. */
  lemma {:induction false} FilterSplit<T>(a: seq<Entry<T>>, b: seq<Entry<T>>, keep: Entry<T> -> bool)
    ensures Filter(a + b, keep) == Filter(a, keep) + Filter(b, keep)
    decreases |a|
  {
    if |a| == 0 {
      assert a + b == b;
    } else {
      assert (a + b)[1..] == a[1..] + b;
      FilterSplit(a[1..], b, keep);
    }
  }

  /** The test `delete($name)` applies: the record is not called `name`. */
  function NotNamed<T>(name: string): Entry<T> -> bool
  {
    (e: Entry<T>) => e.name != name
  }

  /** The test a read applies to decide which records survive it. */
  function IsPermanent<T>(e: Entry<T>): bool
  {
    e.kind == Permanent
  }

  /** The test a read applies to decide which records it consumes. */
  function IsFlash<T>(e: Entry<T>): bool
  {
    e.kind == Flash
  }

  /** The records `delete($name)` keeps: every record not called `name`. */
  function Remove<T>(l: seq<Entry<T>>, name: string): (r: seq<Entry<T>>)
    ensures forall i :: 0 <= i < |r| ==> r[i].name != name
    ensures (forall i :: 0 <= i < |l| ==> l[i].name != name) ==> r == l
  {
    Filter(l, NotNamed(name))
  }

  /** Removal works record by record and keeps the survivors in their original order. */
  lemma RemoveSplit<T>(a: seq<Entry<T>>, b: seq<Entry<T>>, name: string)
    ensures Remove(a + b, name) == Remove(a, name) + Remove(b, name)
    ensures Remove<T>([], name) == []
    ensures forall e: Entry<T> :: Remove([e], name) == if e.name == name then [] else [e]
  {
    FilterSplit(a, b, NotNamed(name));
    forall e: Entry<T> ensures Remove([e], name) == if e.name == name then [] else [e] {
      assert [e][1..] == [];
    }
  }

  /** Removing a name twice is the same as removing it once. */
  lemma RemoveIdempotent<T>(l: seq<Entry<T>>, name: string)
    ensures Remove(Remove(l, name), name) == Remove(l, name)
  {
  }

  /** The permanent records of `l`, in order: what survives a read. */
  function Permanents<T>(l: seq<Entry<T>>): (r: seq<Entry<T>>)
    ensures forall i :: 0 <= i < |r| ==> r[i].kind == Permanent
  {
    Filter(l, IsPermanent)
  }

  /** The flash records of `l`, in order: what a read consumes. */
  function Flashes<T>(l: seq<Entry<T>>): (r: seq<Entry<T>>)
    ensures forall i :: 0 <= i < |r| ==> r[i].kind == Flash
  {
    Filter(l, IsFlash)
  }

  /** Where the window of `get($length, $offset)` starts: after `$offset` records when positive. */
  function Start(size: nat, offset: int): (lo: nat)
    ensures lo <= size
    ensures offset <= 0 ==> lo == 0
    ensures 0 < offset <= size ==> lo == offset
    ensures offset > size ==> lo == size
  {
    if offset <= 0 then 0 else if offset < size then offset else size
  }

  /** Where the window ends: after at most `$length` records, or at the end when `$length` is negative. */
  function Stop(size: nat, length: int, offset: int): (hi: nat)
    ensures Start(size, offset) <= hi <= size
    ensures length < 0 ==> hi == size
    ensures length >= 0 ==> hi - Start(size, offset) == if length < size - Start(size, offset) then length else size - Start(size, offset)
  {
    var lo := Start(size, offset);
    if length < 0 || lo + length > size then size else lo + length
  }

  /** The records `get($length, $offset)` collects. */
  function Window<T>(l: seq<Entry<T>>, length: int, offset: int): (w: seq<Entry<T>>)
  {
    l[Start(|l|, offset)..Stop(|l|, length, offset)]
  }

  /**
   * The list `get($length, $offset)` writes back: the skipped prefix and the
   * records after the window untouched, the window reduced to its permanent
   * records.
   */
  function Evict<T>(l: seq<Entry<T>>, length: int, offset: int): (r: seq<Entry<T>>)
    ensures |r| == |l| - |Flashes(Window(l, length, offset))| >= Start(|l|, offset)
    ensures r[..Start(|l|, offset)] == l[..Start(|l|, offset)]
  {
    var lo, hi := Start(|l|, offset), Stop(|l|, length, offset);
    FilterPartitionLength(l[lo..hi]);
    l[..lo] + Permanents(l[lo..hi]) + l[hi..]
  }

  /** Every record is either permanent or flash. */
  lemma {:induction false} FilterPartitionLength<T>(l: seq<Entry<T>>)
    ensures |Permanents(l)| + |Flashes(l)| == |l|
    decreases |l|
  {
    if |l| > 0 {
      FilterPartitionLength(l[1..]);
    }
  }

  /** A read splits its window into the records it keeps and those it consumes, losing none. */
  lemma {:induction false} KindPartition<T>(l: seq<Entry<T>>)
    ensures forall x :: multiset(l)[x] == multiset(Permanents(l))[x] + multiset(Flashes(l))[x]
    decreases |l|
  {
    if |l| > 0 {
      var e, rest := l[0], l[1..];
      KindPartition(rest);
      assert l == [e] + rest;
      if e.kind == Permanent {
        assert Permanents(l) == [e] + Permanents(rest);
        assert Flashes(l) == Flashes(rest);
      } else {
        assert Permanents(l) == Permanents(rest);
        assert Flashes(l) == [e] + Flashes(rest);
      }
    }
  }

  /** The records a read removes are exactly the flash records of its window: every record is counted once, either in the list written back or among the evicted ones. */
  lemma EvictRemovesWindowFlashes<T>(l: seq<Entry<T>>, length: int, offset: int)
    ensures forall x :: multiset(Evict(l, length, offset))[x] + multiset(Flashes(Window(l, length, offset)))[x] == multiset(l)[x]
  {
    var lo, hi := Start(|l|, offset), Stop(|l|, length, offset);
    var pre, w, post := l[..lo], l[lo..hi], l[hi..];
    assert l == pre + (w + post);
    assert Evict(l, length, offset) == pre + (Permanents(w) + post);
    KindPartition(w);
  }

  /** `Values` distributes over concatenation. */
  lemma ValuesAppend<T>(a: seq<Entry<T>>, b: seq<Entry<T>>)
    ensures Values(a + b) == Values(a) + Values(b)
  {
  }

  /** One collecting step of the read loop extends the collected values and kept records by record `i`. */
  lemma CollectStep<T>(l: seq<Entry<T>>, lo: nat, i: nat)
    requires lo <= i < |l|
    ensures Permanents(l[lo..i + 1]) == Permanents(l[lo..i]) + (if IsPermanent(l[i]) then [l[i]] else [])
    ensures Values(l[lo..i + 1]) == Values(l[lo..i]) + [l[i].result]
  {
    assert l[lo..i + 1] == l[lo..i] + [l[i]];
    FilterSplit(l[lo..i], [l[i]], IsPermanent);
    assert [l[i]][1..] == [];
    ValuesAppend(l[lo..i], [l[i]]);
  }

  /**
   * The loop of `get($length, $offset)`: skip `$offset` records, then collect
   * values in order, keeping every record except the collected flash ones.
   * Eviction builds the kept list instead of unsetting indices, and the loop
   * stops once `$length` values are collected.
   */
  method Collect<T>(l: seq<Entry<T>>, length: int, offset: int) returns (values: seq<T>, kept: seq<Entry<T>>)
    ensures values == Values(Window(l, length, offset))
    ensures kept == Evict(l, length, offset)
  {
    var lo, hi := Start(|l|, offset), Stop(|l|, length, offset);
    var remaining := offset;
    values, kept := [], [];
    var i := 0;
    while i < |l|
      invariant 0 <= i <= |l|
      invariant i <= lo ==> remaining == (if offset > 0 then offset - i else offset) && kept == l[..i] && values == []
      invariant lo <= i ==> remaining <= 0 || i == |l|
      invariant i <= hi
      invariant lo <= i ==> kept == l[..lo] + Permanents(l[lo..i]) && values == Values(l[lo..i])
    {
      if remaining > 0 {
        remaining := remaining - 1;
        assert l[..i + 1] == l[..i] + [l[i]];
        kept := kept + [l[i]];
        i := i + 1;
        assert l[lo..lo] == [];
        continue;
      }
      if |values| == length {
        break;
      }
      CollectStep(l, lo, i);
      values := values + [l[i].result];
      if l[i].kind == Permanent {
        assert kept + [l[i]] == l[..lo] + (Permanents(l[lo..i]) + [l[i]]);
        kept := kept + [l[i]];
      }
      i := i + 1;
    }
    assert i == hi;
    kept := kept + l[i..];
  }

  /**
   * Reading the whole tail twice: the second read over the same window
   * returns exactly the permanent records of the first; the flash ones are
   * gone.
   */
  lemma ReadAgainAll<T>(l: seq<Entry<T>>, length: int, offset: int)
    requires length < 0
    ensures Window(Evict(l, length, offset), length, offset) == Permanents(Window(l, length, offset))
  {
    var lo := Start(|l|, offset);
    var r := Evict(l, length, offset);
    assert l[|l|..] == [] && l[lo..|l|] == l[lo..];
    assert r == l[..lo] + Permanents(l[lo..]);
    assert Start(|r|, offset) == lo;
  }

  /**
   * Reading a bounded window twice: the second read starts with the
   * permanent records of the first, in order, and continues only with records
   * the first read never reached; no flash record of the first window comes
   * back.
   */
  lemma ReadAgain<T>(l: seq<Entry<T>>, length: int, offset: int)
    ensures Permanents(Window(l, length, offset)) <= Window(Evict(l, length, offset), length, offset)
    ensures var w2 := Window(Evict(l, length, offset), length, offset);
            var p := Permanents(Window(l, length, offset));
            w2[|p|..] == l[Stop(|l|, length, offset)..][..|w2| - |p|]
  {
    var lo, hi := Start(|l|, offset), Stop(|l|, length, offset);
    var p := Permanents(l[lo..hi]);
    var r := Evict(l, length, offset);
    assert r == l[..lo] + p + l[hi..];
    assert Start(|r|, offset) == lo;
    var hi2 := Stop(|r|, length, offset);
    assert lo + |p| <= hi2;
    assert r[lo..hi2] == p + l[hi..][..hi2 - lo - |p|];
  }
}
