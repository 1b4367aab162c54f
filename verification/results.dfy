/**
 * The result mailbox (`Results`): flash and permanent results kept in the
 * session between requests, as one record list under the reserved session
 * variable `"_RESULTS"`.
 *
 * The class keeps the session in a static field set by `initialize`; here
 * that binding is the `Mailbox` value every operation takes and returns.
 */
module Results {
  import opened Wrappers
  import Session
  import opened ResultList

  /** The reserved session variable holding the record list. */
  const Key: string := "_RESULTS"

  /** A session variable: the record list, or any other PHP value. */
  datatype Slot<T> = Records(entries: seq<Entry<T>>) | Plain(value: T)

  /** Why an operation fails. */
  datatype Error =
    | NotInitialized  // `initialize` was never called: the static session is null
    | NotAList        // `"_RESULTS"` is missing or does not hold a record list

  /** The static session binding. */
  datatype Mailbox<T> = Unbound | Bound(session: Session.Store<Slot<T>>)

  /** What `get` leaves behind and what it returns. */
  datatype Got<T> = Got(box: Mailbox<T>, values: seq<T>)

  /** `$session->get("_RESULTS")`, with PHP's default `null`. */
  function Stored<T(!new)>(s: Session.Store<Slot<T>>): Option<Slot<T>>
  {
    Session.Get(s, Key, None)
  }

  /** The record list a bound mailbox reads back from its session. */
  function Read<T(!new)>(box: Mailbox<T>): Result<seq<Entry<T>>, Error>
  {
    match box
    case Unbound => Failure(NotInitialized)
    case Bound(s) =>
      match Stored(s)
      case Some(Records(l)) => Success(l)
      case _ => Failure(NotAList)
  }

  /** The mailbox changed nothing but `"_RESULTS"`, and kept the session's mirrors in step. */
  ghost predicate Confined<T(!new)>(box: Mailbox<T>, box': Mailbox<T>)
  {
    box.Bound? && box'.Bound?
    && Session.SameExcept(box.session, box'.session, Key)
    && (Session.Mirrored(box.session) ==> Session.Mirrored(box'.session))
  }

  /**
   * `initialize($session)`: binds the session and creates an empty record
   * list only when `"_RESULTS"` does not exist yet.
   */
  function Initialize<T(!new)>(s: Session.Store<Slot<T>>): (box: Mailbox<T>)
    ensures box.Bound?
    ensures Session.Exists(s, Key) ==> box.session == s
    ensures !Session.Exists(s, Key) ==> Read(box) == Success([])
    ensures Confined(Bound(s), box)
  {
    if Session.Exists(s, Key) then Bound(s) else Bound(Session.Set(s, Key, Records([])))
  }

  /** Calling `initialize` again on the session it produced changes nothing. */
  lemma InitializeIdempotent<T(!new)>(s: Session.Store<Slot<T>>)
    ensures Initialize(Initialize(s).session) == Initialize(s)
  {
  }

  /** Appends one record; PHP's `$results[] = …` turns a missing list into a new one. */
  function Append<T(!new)>(box: Mailbox<T>, e: Entry<T>): (r: Result<Mailbox<T>, Error>)
  {
    match box
    case Unbound => Failure(NotInitialized)
    case Bound(s) =>
      match Stored(s)
      case None => Success(Bound(Session.Set(s, Key, Records([e]))))
      case Some(Records(l)) => Success(Bound(Session.Set(s, Key, Records(l + [e]))))
      case Some(Plain(_)) => Failure(NotAList)
  }

  /**
   * `permanent($name, $result)`: the list read back afterwards is the old one
   * with exactly one permanent record appended, even when a record of that
   * name exists already.
   */
  function Permanent<T(!new)>(box: Mailbox<T>, name: string, v: T): (r: Result<Mailbox<T>, Error>)
    ensures box.Unbound? ==> r == Failure(NotInitialized)
    ensures Read(box).Success? ==> r.Success? && Read(r.value) == Success(Read(box).value + [Entry(Kind.Permanent, name, v)])
    ensures box.Bound? && Stored(box.session) == None ==> r.Success? && Read(r.value) == Success([Entry(Kind.Permanent, name, v)])
    ensures r.Success? ==> Confined(box, r.value)
  {
    Append(box, Entry(Kind.Permanent, name, v))
  }

  /**
   * `flash($name, $result)`: the list read back afterwards is the old one
   * with exactly one flash record appended.
   */
  function Flash<T(!new)>(box: Mailbox<T>, name: string, v: T): (r: Result<Mailbox<T>, Error>)
    ensures box.Unbound? ==> r == Failure(NotInitialized)
    ensures Read(box).Success? ==> r.Success? && Read(r.value) == Success(Read(box).value + [Entry(Kind.Flash, name, v)])
    ensures box.Bound? && Stored(box.session) == None ==> r.Success? && Read(r.value) == Success([Entry(Kind.Flash, name, v)])
    ensures r.Success? ==> Confined(box, r.value)
  {
    Append(box, Entry(Kind.Flash, name, v))
  }

  /**
   * `delete($name)`: the list read back afterwards holds no record called
   * `name` and every other record in its original order.
   */
  function Delete<T(!new)>(box: Mailbox<T>, name: string): (r: Result<Mailbox<T>, Error>)
    ensures Read(box).Failure? ==> r == Failure(Read(box).error)
    ensures Read(box).Success? ==> r.Success? && Read(r.value) == Success(Remove(Read(box).value, name))
    ensures r.Success? ==> Confined(box, r.value)
  {
    match Read(box)
    case Failure(err) => Failure(err)
    case Success(l) => Success(Bound(Session.Set(box.session, Key, Records(Remove(l, name)))))
  }

  /**
   * `get($length, $offset)`: returns the values of the window in order and
   * writes the list back once, with the window's flash records evicted.
   */
  function Get<T(!new)>(box: Mailbox<T>, length: int, offset: int): (r: Result<Got<T>, Error>)
    ensures Read(box).Failure? ==> r == Failure(Read(box).error)
    ensures Read(box).Success? ==>
              && r.Success?
              && r.value.values == Values(Window(Read(box).value, length, offset))
              && Read(r.value.box) == Success(Evict(Read(box).value, length, offset))
    ensures r.Success? ==> Confined(box, r.value.box)
  {
    match Read(box)
    case Failure(err) => Failure(err)
    case Success(l) =>
      Success(Got(Bound(Session.Set(box.session, Key, Records(Evict(l, length, offset)))),
                  Values(Window(l, length, offset))))
  }

  /**
   * Flash results are read once: a flash result published after `n` records
   * is returned by the first read past those records and by no later one,
   * and the list is back to what it was.
   */
  lemma FlashReadOnce<T(!new)>(box: Mailbox<T>, name: string, v: T)
    requires Read(box).Success?
    ensures var n := |Read(box).value|;
            var first := Get(Flash(box, name, v).value, -1, n).value;
            var second := Get(first.box, -1, n).value;
            first.values == [v] && second.values == [] && Read(second.box) == Read(box)
  {
    var l := Read(box).value;
    var n := |l|;
    var b1 := Flash(box, name, v).value;
    var l1 := l + [Entry(Kind.Flash, name, v)];
    assert Read(b1) == Success(l1);
    assert Window(l1, -1, n) == [Entry(Kind.Flash, name, v)];
    assert Evict(l1, -1, n) == l;
    assert Window(l, -1, n) == [];
    assert Evict(l, -1, n) == l;
  }

  /**
   * Permanent results are durable: a permanent result published after `n`
   * records is returned by every read past those records, and stays stored.
   */
  lemma PermanentDurable<T(!new)>(box: Mailbox<T>, name: string, v: T)
    requires Read(box).Success?
    ensures var n := |Read(box).value|;
            var b1 := Permanent(box, name, v).value;
            var first := Get(b1, -1, n).value;
            var second := Get(first.box, -1, n).value;
            first.values == [v] && second.values == [v] && Read(second.box) == Read(b1)
  {
    var l := Read(box).value;
    var n := |l|;
    var b1 := Permanent(box, name, v).value;
    var l1 := l + [Entry(Kind.Permanent, name, v)];
    assert Read(b1) == Success(l1);
    assert Window(l1, -1, n) == [Entry(Kind.Permanent, name, v)];
    assert Evict(l1, -1, n) == l1;
  }

  /**
   * Reading everything after the skipped prefix twice: the second read
   * returns exactly the permanent values of the first and the list is stable
   * from then on.
   */
  lemma ReadTwice<T(!new)>(box: Mailbox<T>, length: int, offset: int)
    requires Read(box).Success? && length < 0
    ensures var first := Get(box, length, offset).value;
            var second := Get(first.box, length, offset).value;
            second.values == Values(Permanents(Window(Read(box).value, length, offset)))
            && Read(second.box) == Read(first.box)
  {
    var l := Read(box).value;
    var first := Get(box, length, offset).value;
    var l1 := Evict(l, length, offset);
    ReadAgainAll(l, length, offset);
    var w2 := Window(l1, length, offset);
    assert w2 == Permanents(Window(l, length, offset));
    assert Permanents(w2) == w2;
    var lo := Start(|l1|, offset);
    assert Evict(l1, length, offset) == l1[..lo] + Permanents(w2) + l1[|l1|..];
    assert l1 == l1[..lo] + w2 + l1[|l1|..];
  }
}
