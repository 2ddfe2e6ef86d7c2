/** CAN_control.c: the ring of received messages, which overwrites the oldest when it is full. */
module CanLog {
  /** CAN_RX_LOG_SZ */
  const SIZE := 128

  /** The last n elements. */
  function Last<T>(s: seq<T>, n: nat): (r: seq<T>)
    ensures |r| == if |s| < n then |s| else n
  {
    if |s| <= n then s else s[|s| - n..]
  }

  /** The number of records between tail and head. */
  function Length(head: nat, tail: nat): nat {
    (head - tail) % SIZE
  }

  function Place(tail: nat, k: nat): (i: nat)
    ensures i < SIZE
  {
    (tail + k) % SIZE
  }

  /** One place on. */
  function Step(i: nat): nat {
    if i + 1 >= SIZE then 0 else i + 1
  }

  /** The ring unrolled: from the tail on, the head is the number of records further. */
  predicate Unrolled(head: nat, tail: nat, d: nat) {
    head < SIZE && tail < SIZE && d < SIZE && (head == tail + d || head + SIZE == tail + d)
  }

  lemma LengthIs(head: nat, tail: nat, d: nat)
    requires head < SIZE && tail < SIZE
    ensures Unrolled(head, tail, d) <==> d == Length(head, tail)
  {}

  lemma PlaceIs(tail: nat, k: nat)
    requires tail < SIZE && k < SIZE
    ensures Place(tail, k) == if tail + k < SIZE then tail + k else tail + k - SIZE
  {}

  lemma Places(head: nat, tail: nat, k: nat)
    requires head < SIZE && tail < SIZE && k < SIZE
    ensures Step(head) < SIZE && Step(tail) < SIZE
    ensures k < Length(head, tail) ==> Place(tail, k) != head
    ensures k == Length(head, tail) ==> Place(tail, k) == head
    ensures k > 0 ==> Place(Step(tail), k - 1) == Place(tail, k)
    ensures Length(head, tail) < SIZE - 1 ==> Length(Step(head), tail) == Length(head, tail) + 1
    ensures Step(head) == tail <==> Length(head, tail) == SIZE - 1
    ensures head != tail ==> Length(head, Step(tail)) == Length(head, tail) - 1
    ensures head == tail <==> Length(head, tail) == 0
  {
    var d := Length(head, tail);
    LengthIs(head, tail, d);
    PlaceIs(tail, k);
    if k > 0 { PlaceIs(Step(tail), k - 1); }
    hide Length, Place;
    if d < SIZE - 1 { LengthIs(Step(head), tail, d + 1); }
    if d > 0 { LengthIs(head, Step(tail), d - 1); }
  }

  class Log<T(0)> {
    const rxLog: array<T>
    var head: nat
    var tail: nat

    /** The records not popped yet, oldest first. */
    ghost var contents: seq<T>

    ghost predicate Valid()
      reads this, rxLog
    {
      && rxLog.Length == SIZE && head < SIZE && tail < SIZE
      && |contents| == Length(head, tail)
      && forall k :: 0 <= k < |contents| ==> rxLog[Place(tail, k)] == contents[k]
    }

    constructor ()
      ensures Valid() && fresh(rxLog) && contents == []
    {
      rxLog := new T[SIZE];
      head, tail, contents := 0, 0, [];
    }

    /** The record goes in at the head; the place may be the one before the tail. */
    method Store(x: T)
      requires Valid()
      modifies this`head, this`contents, rxLog
      ensures rxLog.Length == SIZE && contents == old(contents) + [x] && head == Step(old(head))
      ensures forall k :: 0 <= k < |contents| ==> rxLog[Place(tail, k)] == contents[k]
    {
      forall k: nat | k <= |contents|
        ensures k < |contents| ==> Place(tail, k) != head
        ensures k == |contents| ==> Place(tail, k) == head
      {
        Places(head, tail, k);
      }
      rxLog[head] := x;
      head := head + 1;
      if head >= SIZE { head := 0; }
      contents := contents + [x];
    }

    /** The oldest record goes. */
    method Drop()
      requires rxLog.Length == SIZE && head < SIZE && tail < SIZE && 0 < |contents| <= SIZE
      requires forall k :: 0 <= k < |contents| ==> rxLog[Place(tail, k)] == contents[k]
      modifies this`tail, this`contents
      ensures contents == old(contents)[1..] && tail == Step(old(tail)) && tail < SIZE
      ensures forall k :: 0 <= k < |contents| ==> rxLog[Place(tail, k)] == contents[k]
    {
      ghost var c, t := contents, tail;
      tail := tail + 1;
      if tail >= SIZE { tail := 0; }
      contents := contents[1..];
      forall k | 0 <= k < |contents|
        ensures rxLog[Place(tail, k)] == contents[k]
      {
        Places(head, t, k + 1);
        assert contents[k] == c[k + 1];
      }
    }

    /** CAN_push_log_rec: the latest 127 unread records stay. */
    method Push(x: T)
      requires Valid()
      modifies this`head, this`tail, this`contents, rxLog
      ensures Valid() && contents == Last(old(contents) + [x], 127)
    {
      Places(head, tail, 0);
      ghost var n, h := |contents|, head;
      Store(x);
      if head == tail {
        Drop();
        Places(h, old(tail), 0);
        FullTurn(h);
      }
    }

    /** CAN_pop_log_rec: the oldest record, if there is one. */
    method Pop() returns (ok: bool, rx: T)
      requires Valid()
      modifies this`tail, this`contents
      ensures Valid() && (ok <==> old(contents) != [])
      ensures contents == if ok then old(contents)[1..] else []
      ensures ok ==> rx == old(contents)[0]
    {
      Places(head, tail, 0);
      rx := rxLog[tail];
      if head != tail {
        assert Place(tail, 0) == tail;
        Drop();
        return true, rx;
      }
      return false, rx;
    }
  }

  /** After overwriting the ring holds one record less than it has places. */
  lemma FullTurn(head: nat)
    requires head < SIZE
    ensures Length(Step(head), Step(Step(head))) == SIZE - 1
  {}

  datatype Event<T> = Pushed(x: T) | Popped

  /** All the records pushed by a run. */
  function History<T>(events: seq<Event<T>>): seq<T>
    decreases |events|
  {
    if events == [] then [] else
      var h := History(events[..|events| - 1]);
      match events[|events| - 1]
      case Pushed(x) => h + [x]
      case Popped => h
  }

  /** The records of a run read out, in order. */
  function Unread<T>(events: seq<Event<T>>): seq<T>
    decreases |events|
  {
    if events == [] then [] else
      var u := Unread(events[..|events| - 1]);
      match events[|events| - 1]
      case Pushed(x) => Last(u + [x], SIZE - 1)
      case Popped => if u == [] then [] else u[1..]
  }

  /** What is unread is always the latest part of all that was pushed, in order of arrival, and at most 127 records. */
  lemma {:induction false} UnreadIsLatest<T>(events: seq<Event<T>>)
    ensures |Unread(events)| <= 127 && |Unread(events)| <= |History(events)|
    ensures Unread(events) == Last(History(events), |Unread(events)|)
    decreases |events|
  {
    if events != [] {
      var before := events[..|events| - 1];
      UnreadIsLatest(before);
      var h, u := History(before), Unread(before);
      match events[|events| - 1]
      case Pushed(x) =>
        assert h + [x] == h[..|h| - |u|] + (u + [x]) by { LastIs(h, u); }
        LastOfAppended(h[..|h| - |u|], u + [x], |Unread(events)|);
        LastOfLast(u + [x]);
      case Popped =>
        LastIs(h, u);
        if u != [] {
          assert h == h[..|h| - |u|] + u;
          LastOfAppended(h[..|h| - |u|], u, |u| - 1);
          assert Last(u, |u| - 1) == u[1..];
        } else {
          assert Last(h, 0) == [];
        }
    }
  }

  lemma LastIs<T>(h: seq<T>, u: seq<T>)
    requires |u| <= |h| && u == Last(h, |u|)
    ensures h == h[..|h| - |u|] + u
  {}

  lemma LastOfAppended<T>(a: seq<T>, b: seq<T>, n: nat)
    requires n <= |b|
    ensures Last(a + b, n) == Last(b, n)
  {}

  lemma LastOfLast<T>(s: seq<T>)
    ensures Last(s, |Last(s, SIZE - 1)|) == Last(s, SIZE - 1)
  {}

  /** The ring does what the queue of unread records does, over any run of pushes and pops. */
  method Refines<T(0)>(events: seq<Event<T>>) returns (log: Log<T>)
    ensures log.Valid() && log.contents == Unread(events)
  {
    log := new Log<T>();
    for i := 0 to |events|
      invariant log.Valid() && fresh(log) && fresh(log.rxLog) && log.contents == Unread(events[..i])
    {
      assert events[..i + 1][..i] == events[..i];
      match events[i]
      case Pushed(x) => log.Push(x);
      case Popped => var _, _ := log.Pop();
    }
    assert events[..|events|] == events;
  }
}
