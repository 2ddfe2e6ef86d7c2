/** usb_hid.c: the queue of four transfers on an endpoint, kept on wrapping 8-bit counters. */
module HidQueue {
  import opened Words

  /** MAX_QUEUE_ELEMS */
  const SLOTS := 4

  datatype Status = Ok | Refused | Busy

  /**
   * What the layer below makes of a transfer: it takes it, it refuses it with an error, or, while the bus is suspended, it
   * reports success and does nothing.
   */
  datatype Verdict = Taken | Declined | Ignored

  /** The difference of two 8-bit counters. */
  function Distance(producer: nat, consumer: nat): nat {
    (producer - consumer) % 0x100
  }

  function Next(counter: nat): (r: nat)
    ensures r < 0x100
  {
    (counter + 1) % 0x100
  }

  /** Where the k-th waiting transfer is. */
  function Slot(consumer: nat, k: nat): (i: nat)
    ensures i < SLOTS
  {
    (consumer + k) % SLOTS
  }

  /** Slots do not notice the counters wrapping, and a new transfer gets a slot of its own. */
  lemma SlotsWrap(producer: nat, consumer: nat, k: nat)
    requires producer < 0x100 && consumer < 0x100
    ensures k > 0 ==> Slot(Next(consumer), k - 1) == Slot(consumer, k)
    ensures k < Distance(producer, consumer) < SLOTS ==> Slot(consumer, k) != producer % SLOTS
    ensures k == Distance(producer, consumer) ==> Slot(consumer, k) == producer % SLOTS
  {
    var d := Distance(producer, consumer);
    DistanceIs(producer, consumer, d);
    SlotIs(producer, consumer, d, k);
    if k > 0 {
      SlotNext(consumer, k);
    }
  }

  lemma SlotIs(producer: nat, consumer: nat, d: nat, k: nat)
    requires producer == consumer + d || producer + 0x100 == consumer + d
    ensures k < d < SLOTS ==> Slot(consumer, k) != producer % SLOTS
    ensures k == d ==> Slot(consumer, k) == producer % SLOTS
  {
    SameSlot(producer, consumer + d);
    if k < d < SLOTS {
      Apart(consumer + k, consumer + d);
    }
  }

  lemma SameSlot(a: nat, b: nat)
    requires a == b || a + 0x100 == b
    ensures a % SLOTS == b % SLOTS
  {
    assert 0x100 == 64 * SLOTS;
  }

  lemma Apart(a: nat, b: nat)
    requires a < b < a + SLOTS
    ensures a % SLOTS != b % SLOTS
  {}

  lemma SlotNext(consumer: nat, k: nat)
    requires consumer < 0x100 && k > 0
    ensures Slot(Next(consumer), k - 1) == Slot(consumer, k)
  {}

  lemma DistanceSteps(producer: nat, consumer: nat)
    requires producer < 0x100 && consumer < 0x100
    ensures Distance(producer, consumer) < 0xFF ==> Distance(Next(producer), consumer) == Distance(producer, consumer) + 1
    ensures Distance(producer, consumer) > 0 ==> Distance(producer, Next(consumer)) == Distance(producer, consumer) - 1
    ensures Distance(producer, consumer) == 0 <==> producer == consumer
  {
    var d := Distance(producer, consumer);
    DistanceIs(producer, consumer, d);
    if d < 0xFF {
      DistanceIs(Next(producer), consumer, d + 1);
    }
    if d > 0 {
      DistanceIs(producer, Next(consumer), d - 1);
    }
  }

  lemma DistanceIs(producer: nat, consumer: nat, d: nat)
    requires producer < 0x100 && consumer < 0x100 && d < 0x100
    ensures Distance(producer, consumer) == d <==> producer == consumer + d || producer + 0x100 == consumer + d
  {}

  class Queue<T(0)> {
    const queue: array<T>
    var producer: nat
    var consumer: nat
    /** The transfer the hardware is carrying out. */
    var inFlight: Option<T>

    /** The transfers waiting, the first one in flight; all accepted so far; what became of those that do not wait any more. */
    ghost var waiting: seq<T>
    ghost var accepted: seq<T>
    ghost var fates: seq<Fate<T>>
    /** The layer below has not taken the transfer that should be in flight. */
    ghost var refused: bool

    ghost predicate Valid()
      reads this, queue
    {
      && queue.Length == SLOTS && producer < 0x100 && consumer < 0x100
      && |waiting| == Distance(producer, consumer) <= SLOTS
      && (forall k :: 0 <= k < |waiting| ==> queue[Slot(consumer, k)] == waiting[k])
      && accepted == Items(fates) + waiting
      && (inFlight.Some? ==> waiting != [] && inFlight.value == waiting[0])
      && (waiting != [] ==> (inFlight.Some? <==> !refused)) && (refused ==> waiting != [])
    }

    constructor ()
      ensures Valid() && fresh(queue) && Contents() == EMPTY()
    {
      queue := new T[SLOTS];
      producer, consumer, inFlight := 0, 0, None;
      waiting, accepted, fates, refused := [], [], [], false;
    }

    /** USB_Class_Send_Data */
    method Send(x: T, v: Verdict) returns (status: Status)
      requires inFlight.None?
      modifies this`inFlight, this`refused
      ensures status == if v.Declined? then Refused else Ok
      ensures inFlight == (if v.Taken? then Some(x) else None) && refused == !v.Taken?
    {
      refused := !v.Taken?;
      if v.Taken? { inFlight := Some(x); }
      return if v.Declined? then Refused else Ok;
    }

    /** The entry of the queue and the producer counter. */
    method Enqueue(x: T)
      requires Valid() && |waiting| < SLOTS
      modifies this`producer, this`waiting, this`accepted, queue
      ensures waiting == old(waiting) + [x] && accepted == old(accepted) + [x]
      ensures producer < 0x100 && |waiting| == Distance(producer, consumer) <= SLOTS
      ensures forall k :: 0 <= k < |waiting| ==> queue[Slot(consumer, k)] == waiting[k]
    {
      forall k: nat | k <= |waiting|
        ensures k < |waiting| ==> Slot(consumer, k) != producer % SLOTS
        ensures k == |waiting| ==> Slot(consumer, k) == producer % SLOTS
      {
        SlotsWrap(producer, consumer, k);
      }
      DistanceSteps(producer, consumer);
      queue[producer % SLOTS] := x;
      producer := Next(producer);
      waiting, accepted := waiting + [x], accepted + [x];
    }

    /** USB_Class_HID_Send_Data: refused when four wait; handed on at once when it is the only one. */
    method SendData(x: T, v: Verdict) returns (status: Status)
      requires Valid()
      modifies this`producer, this`inFlight, this`waiting, this`accepted, this`refused, queue
      ensures Valid()
      ensures status == if |old(waiting)| == 4 then Busy else if old(waiting) == [] && v.Declined? then Refused else Ok
      ensures Contents() == Submitted(old(Contents()), x, v)
      ensures old(waiting) != [] ==> inFlight == old(inFlight)
    {
      if Distance(producer, consumer) != SLOTS {
        Enqueue(x);
        status := Ok;
        if Distance(producer, consumer) == 1 {
          status := Send(x, v);
        }
        assert Items(fates) + (old(waiting) + [x]) == Items(fates) + old(waiting) + [x];
      } else {
        status := Busy;
      }
    }

    /** The consumer counter after a transfer that is done. */
    method Dequeue()
      requires Valid() && inFlight.Some?
      modifies this`consumer, this`waiting, this`fates, this`inFlight
      ensures fates == old(fates) + [Completed(old(waiting)[0])] && waiting == old(waiting)[1..] && inFlight.None?
      ensures consumer < 0x100 && |waiting| == Distance(producer, consumer) <= SLOTS && accepted == Items(fates) + waiting
      ensures forall k :: 0 <= k < |waiting| ==> queue[Slot(consumer, k)] == waiting[k]
    {
      forall k: nat | 0 < k < |waiting|
        ensures Slot(Next(consumer), k - 1) == Slot(consumer, k)
      {
        SlotsWrap(producer, consumer, k);
      }
      DistanceSteps(producer, consumer);
      ghost var before, old_consumer := waiting, consumer;
      ItemsAppend(fates, [Completed(waiting[0])]);
      assert before == [before[0]] + before[1..];
      consumer := Next(consumer);
      fates, waiting := fates + [Completed(waiting[0])], waiting[1..];
      inFlight := None;
      forall k | 0 <= k < |waiting|
        ensures queue[Slot(consumer, k)] == waiting[k]
      {
        assert Slot(consumer, (k + 1) - 1) == Slot(old_consumer, k + 1);
        assert waiting[k] == before[k + 1];
      }
      assert Items(fates) + waiting == Items(old(fates)) + before;
    }

    /** USB_Service_Hid at the end of a transfer: one with an error is sent again, otherwise the next one is. */
    method Service(errors: bool, v: Verdict)
      requires Valid() && inFlight.Some?
      modifies this`consumer, this`inFlight, this`waiting, this`fates, this`refused
      ensures Valid() && Contents() == Ended(old(Contents()), errors, v)
    {
      if !errors {
        Dequeue();
      } else {
        inFlight := None;
      }
      DistanceSteps(producer, consumer);
      if consumer != producer {
        assert queue[Slot(consumer, 0)] == waiting[0];
        var _ := Send(queue[consumer % SLOTS], v);
      }
    }

    /**
     * USB_Class_Hid_Event on a bus reset or a change of the configuration: the counters are cleared, and the controller gives
     * up the transfer it was carrying out.
     */
    method Reset()
      requires Valid()
      modifies this`producer, this`consumer, this`inFlight, this`waiting, this`fates, this`refused
      ensures Valid() && inFlight.None? && Contents() == Cleared(old(Contents()))
    {
      ItemsAppend(fates, Drops(waiting));
      ItemsOfDrops(waiting);
      assert Items(fates) + waiting + [] == accepted;
      fates, waiting, refused := fates + Drops(waiting), [], false;
      consumer := 0;
      producer := 0;
      inFlight := None;
    }

    /** Every accepted transfer is completed or dropped in order, once, or it waits. */
    lemma InOrder()
      requires Valid()
      ensures |accepted| == |fates| + |waiting| && |waiting| <= 4 && accepted[|fates|..] == waiting
      ensures forall i :: 0 <= i < |fates| ==> accepted[i] == fates[i].x
    {
      ItemsAt(fates);
    }

    /** One transfer is in flight exactly if one waits and the layer below took it, and it is the first. */
    lemma OneInFlight()
      requires Valid()
      ensures inFlight == if waiting == [] || refused then None else Some(waiting[0])
    {}

    /** What the queue stands for. */
    ghost function Contents(): Fifo<T>
      reads this
    {
      Fifo(waiting, accepted, fates, refused)
    }
  }

  // ---- The queue on values ----

  /** What became of a transfer: it was completed, or dropped by a reset. */
  datatype Fate<T> = Completed(x: T) | Dropped(x: T)

  function Items<T>(fates: seq<Fate<T>>): seq<T> {
    if fates == [] then [] else Items(fates[..|fates| - 1]) + [fates[|fates| - 1].x]
  }

  function Drops<T>(waiting: seq<T>): seq<Fate<T>>
    decreases |waiting|
  {
    if waiting == [] then [] else Drops(waiting[..|waiting| - 1]) + [Dropped(waiting[|waiting| - 1])]
  }

  /** How many were completed. */
  function Completions<T>(fates: seq<Fate<T>>): nat {
    if fates == [] then 0 else Completions(fates[..|fates| - 1]) + if fates[|fates| - 1].Completed? then 1 else 0
  }

  lemma {:induction false} ItemsAppend<T>(a: seq<Fate<T>>, b: seq<Fate<T>>)
    ensures Items(a + b) == Items(a) + Items(b) && Completions(a + b) == Completions(a) + Completions(b)
    decreases |b|
  {
    if b == [] {
      assert a + b == a;
    } else {
      assert (a + b)[..|a + b| - 1] == a + b[..|b| - 1];
      ItemsAppend(a, b[..|b| - 1]);
    }
  }

  lemma {:induction false} ItemsOfDrops<T>(waiting: seq<T>)
    ensures Items(Drops(waiting)) == waiting && Completions(Drops(waiting)) == 0
    decreases |waiting|
  {
    if waiting != [] {
      var w := waiting[..|waiting| - 1];
      ItemsOfDrops(w);
      assert Drops(waiting)[..|Drops(waiting)| - 1] == Drops(w);
      assert waiting == w + [waiting[|waiting| - 1]];
    }
  }

  lemma {:induction false} ItemsAt<T>(fates: seq<Fate<T>>)
    ensures |Items(fates)| == |fates| && forall i :: 0 <= i < |fates| ==> Items(fates)[i] == fates[i].x
    decreases |fates|
  {
    if fates != [] {
      ItemsAt(fates[..|fates| - 1]);
    }
  }

  /** A first-in first-out queue of capacity four, all it has accepted and what became of it, and whether its first was refused. */
  datatype Fifo<T> = Fifo(waiting: seq<T>, accepted: seq<T>, fates: seq<Fate<T>>, refused: bool)

  function EMPTY<T>(): Fifo<T> {
    Fifo([], [], [], false)
  }

  function Submitted<T>(q: Fifo<T>, x: T, v: Verdict): Fifo<T> {
    if |q.waiting| == SLOTS then q
    else Fifo(q.waiting + [x], q.accepted + [x], q.fates, q.refused || (q.waiting == [] && !v.Taken?))
  }

  /** The transfer in flight ends; without one in flight nothing can end. */
  function Ended<T>(q: Fifo<T>, errors: bool, v: Verdict): Fifo<T> {
    if q.waiting == [] || q.refused then q
    else if errors then q.(refused := !v.Taken?)
    else Fifo(q.waiting[1..], q.accepted, q.fates + [Completed(q.waiting[0])], q.waiting[1..] != [] && !v.Taken?)
  }

  /** What waits is dropped, taken or not. */
  function Cleared<T>(q: Fifo<T>): Fifo<T> {
    Fifo([], q.accepted, q.fates + Drops(q.waiting), false)
  }

  /** What may happen on the queue, with the verdict of the layer below on what it is handed. */
  datatype Event<T> = Submit(x: T, v: Verdict) | Done(errors: bool, v: Verdict) | Reset

  function Step<T>(q: Fifo<T>, e: Event<T>): Fifo<T> {
    match e
    case Submit(x, v) => Submitted(q, x, v)
    case Done(errors, v) => Ended(q, errors, v)
    case Reset => Cleared(q)
  }

  function After<T>(q: Fifo<T>, events: seq<Event<T>>): Fifo<T>
    decreases |events|
  {
    if events == [] then q else Step(After(q, events[..|events| - 1]), events[|events| - 1])
  }

  lemma AfterNext<T>(q: Fifo<T>, events: seq<Event<T>>, n: nat)
    requires n < |events|
    ensures After(q, events[..n + 1]) == Step(After(q, events[..n]), events[n])
  {
    assert events[..n + 1][..n] == events[..n];
  }

  // ---- After a refusal ----

  /** Since the reset number r, up to event n, nothing has been submitted. */
  predicate EmptySince<T>(events: seq<Event<T>>, r: nat, n: nat) {
    r < n <= |events| && events[r].Reset? && forall i :: r < i < n ==> events[i].Done?
  }

  /** The first transfer submitted after that reset, with event s, was taken, and again after every end with an error. */
  predicate GoingSince<T>(events: seq<Event<T>>, r: nat, s: nat, n: nat) {
    && s < n <= |events| && EmptySince(events, r, s) && events[s].Submit? && events[s].v.Taken?
    && forall i :: s < i < n ==> events[i].Submit? || (events[i].Done? && events[i].errors && events[i].v.Taken?)
  }

  /** With event d it ends without an error. */
  predicate Served<T>(events: seq<Event<T>>, r: nat, s: nat, d: nat) {
    d < |events| && GoingSince(events, r, s, d) && events[d].Done? && !events[d].errors
  }

  /** What has been completed stays completed. */
  lemma {:induction false} CompletionsGrow<T>(q: Fifo<T>, events: seq<Event<T>>, n: nat)
    requires n <= |events|
    ensures Completions(After(q, events[..n]).fates) <= Completions(After(q, events).fates)
    decreases |events|
  {
    if n < |events| {
      var es := events[..|events| - 1];
      CompletionsGrow(q, es, n);
      assert es[..n] == events[..n];
      StepGrows(After(q, es), events[|events| - 1]);
    } else {
      assert events[..n] == events;
    }
  }

  lemma StepGrows<T>(q: Fifo<T>, e: Event<T>)
    ensures Completions(Step(q, e).fates) == Completions(q.fates) + if Ends(q, e) then 1 else 0
  {
    ItemsOfDrops(q.waiting);
    ItemsAppend(q.fates, Drops(q.waiting));
    if q.waiting != [] {
      ItemsAppend(q.fates, [Completed(q.waiting[0])]);
    }
  }

  /** The event completes a transfer. */
  predicate Ends<T>(q: Fifo<T>, e: Event<T>) {
    e.Done? && !e.errors && q.waiting != [] && !q.refused
  }

  // A transfer has been completed since a reset, the first one submitted after it is on its way, or none has been submitted.

  ghost predicate HasServed<T>(events: seq<Event<T>>) {
    exists r: nat, s: nat, d: nat :: Served(events, r, s, d)
  }

  ghost predicate HasGoing<T>(events: seq<Event<T>>) {
    exists r: nat, s: nat :: GoingSince(events, r, s, |events|)
  }

  ghost predicate HasEmpty<T>(events: seq<Event<T>>) {
    exists r: nat :: EmptySince(events, r, |events|)
  }

  lemma ResetOn<T>(es: seq<Event<T>>)
    ensures HasEmpty(es + [Reset])
  {
    assert EmptySince(es + [Reset], |es|, |es| + 1);
  }

  lemma ServedOn<T>(es: seq<Event<T>>, e: Event<T>)
    requires HasServed(es)
    ensures HasServed(es + [e])
  {
    var r: nat, s: nat, d: nat :| Served(es, r, s, d);
    var all := es + [e];
    assert forall i :: 0 <= i < |es| ==> all[i] == es[i];
    assert Served(all, r, s, d);
  }

  lemma EmptyOn<T>(es: seq<Event<T>>, e: Event<T>)
    requires HasEmpty(es)
    ensures e.Done? ==> HasEmpty(es + [e])
    ensures e.Submit? && e.v.Taken? ==> HasGoing(es + [e])
  {
    var r: nat :| EmptySince(es, r, |es|);
    var all := es + [e];
    assert forall i :: 0 <= i < |es| ==> all[i] == es[i];
    assert EmptySince(all, r, |es|);
    if e.Done? {
      assert EmptySince(all, r, |all|);
    } else if e.Submit? && e.v.Taken? {
      assert GoingSince(all, r, |es|, |all|);
    }
  }

  lemma GoingOn<T>(es: seq<Event<T>>, e: Event<T>)
    requires HasGoing(es)
    ensures e.Submit? || (e.Done? && e.errors && e.v.Taken?) ==> HasGoing(es + [e])
    ensures e.Done? && !e.errors ==> HasServed(es + [e])
  {
    var r: nat, s: nat :| GoingSince(es, r, s, |es|);
    var all := es + [e];
    assert forall i :: 0 <= i < |es| ==> all[i] == es[i];
    assert EmptySince(all, r, s) && GoingSince(all, r, s, |es|);
    if e.Done? && !e.errors {
      assert Served(all, r, s, |es|);
    } else if e.Submit? || (e.Done? && e.errors && e.v.Taken?) {
      assert GoingSince(all, r, s, |all|);
    }
  }

  /** Where a queue that was stuck stands: as long as nothing has been completed, the events since the last reset say so. */
  ghost predicate Accounted<T>(done: nat, p: Fifo<T>, events: seq<Event<T>>) {
    if Completions(p.fates) > done then HasServed(events)
    else p.refused || (if p.waiting == [] then HasEmpty(events) else HasGoing(events))
  }

  lemma AccountedNext<T>(done: nat, p: Fifo<T>, es: seq<Event<T>>, e: Event<T>)
    requires Accounted(done, p, es) && Completions(p.fates) >= done && (p.refused ==> p.waiting != [])
    ensures Accounted(done, Step(p, e), es + [e]) && (Step(p, e).refused ==> Step(p, e).waiting != [])
  {
    hide HasServed, HasEmpty, HasGoing, Completions, Drops;
    StepGrows(p, e);
    if Completions(p.fates) > done {
      ServedOn(es, e);
    } else if e.Reset? {
      ResetOn(es);
    } else if !p.refused && p.waiting == [] {
      EmptyOn(es, e);
    } else if !p.refused {
      GoingOn(es, e);
    }
  }

  lemma {:induction false} StuckOr<T>(q: Fifo<T>, events: seq<Event<T>>)
    requires q.refused && q.waiting != []
    ensures Accounted(Completions(q.fates), After(q, events), events)
    ensures After(q, events).refused ==> After(q, events).waiting != []
    decreases |events|
  {
    if events != [] {
      hide Accounted;
      var es, e := events[..|events| - 1], events[|events| - 1];
      StuckOr(q, es);
      CompletionsGrow(q, es, 0);
      assert es[..0] == [] && es + [e] == events;
      AccountedNext(Completions(q.fates), After(q, es), es, e);
    }
  }

  lemma {:induction false} EmptyIs<T>(q: Fifo<T>, events: seq<Event<T>>, r: nat, n: nat)
    requires EmptySince(events, r, n)
    ensures After(q, events[..n]).waiting == [] && !After(q, events[..n]).refused
    decreases n
  {
    AfterNext(q, events, n - 1);
    if r < n - 1 {
      EmptyIs(q, events, r, n - 1);
    }
  }

  lemma {:induction false} GoingIs<T>(q: Fifo<T>, events: seq<Event<T>>, r: nat, s: nat, n: nat)
    requires GoingSince(events, r, s, n)
    ensures After(q, events[..n]).waiting != [] && !After(q, events[..n]).refused
    decreases n
  {
    AfterNext(q, events, n - 1);
    if s < n - 1 {
      GoingIs(q, events, r, s, n - 1);
    } else {
      EmptyIs(q, events, r, s);
    }
  }

  /**
   * After a refusal a transfer is completed again if and only if a reset comes, the first transfer submitted after it is taken,
   * and it ends without an error, having been taken again after every end with one. Without that nothing is completed at all.
   */
  lemma RefusedUntilReset<T>(q: Fifo<T>, events: seq<Event<T>>)
    requires q.refused && q.waiting != []
    ensures Completions(After(q, events).fates) > Completions(q.fates) <==> exists r: nat, s: nat, d: nat :: Served(events, r, s, d)
  {
    StuckOr(q, events);
    if HasServed(events) {
      var r: nat, s: nat, d: nat :| Served(events, r, s, d);
      ServedGrows(q, events, r, s, d);
    }
  }

  lemma ServedGrows<T>(q: Fifo<T>, events: seq<Event<T>>, r: nat, s: nat, d: nat)
    requires Served(events, r, s, d)
    ensures Completions(After(q, events).fates) > Completions(q.fates)
  {
    GoingIs(q, events, r, s, d);
    AfterNext(q, events, d);
    StepGrows(After(q, events[..d]), events[d]);
    CompletionsGrow(q, events[..d], 0);
    assert events[..d][..0] == [];
    CompletionsGrow(q, events, d + 1);
  }

  /** Without a reset the queue only fills up: what waited keeps waiting, and what is still accepted waits behind it. */
  lemma {:induction false} StuckWithoutReset<T>(q: Fifo<T>, events: seq<Event<T>>)
    requires q.refused && q.waiting != [] && |q.waiting| <= SLOTS && forall i :: 0 <= i < |events| ==> !events[i].Reset?
    ensures var p := After(q, events);
            p.refused && p.fates == q.fates && q.waiting <= p.waiting && |p.waiting| <= SLOTS
            && p.accepted == q.accepted + p.waiting[|q.waiting|..]
    decreases |events|
  {
    if events != [] {
      var es := events[..|events| - 1];
      assert forall i :: 0 <= i < |es| ==> es[i] == events[i];
      StuckWithoutReset(q, es);
    } else {
      assert q.accepted + q.waiting[|q.waiting|..] == q.accepted;
    }
  }

  /** As long as no transfer is refused, the queue comes to its end: as many faultless ends as transfers wait complete them all. */
  lemma {:induction false} Drains<T>(q: Fifo<T>, k: nat)
    requires !q.refused && k <= |q.waiting|
    ensures var p := After(q, seq(k, _ => Done(false, Taken)));
            && p.waiting == q.waiting[k..] && p.accepted == q.accepted && !p.refused
            && Items(p.fates) == Items(q.fates) + q.waiting[..k] && Completions(p.fates) == Completions(q.fates) + k
    decreases k
  {
    if k > 0 {
      var es: seq<Event<T>> := seq(k, _ => Done(false, Taken));
      assert es[..k - 1] == seq(k - 1, _ => Done(false, Taken));
      Drains(q, k - 1);
      var p := After(q, es[..k - 1]);
      ItemsAppend(p.fates, [Completed(p.waiting[0])]);
      StepGrows(p, es[k - 1]);
      assert q.waiting[..k] == q.waiting[..k - 1] + [q.waiting[k - 1]];
    } else {
      assert Items(q.fates) + q.waiting[..0] == Items(q.fates);
    }
  }

  /** Over any run, with any verdicts of the layer below and any resets, the counters and slots behave as that queue. */
  method Refines<T(0)>(events: seq<Event<T>>) returns (q: Queue<T>)
    ensures q.Valid() && q.Contents() == After(EMPTY(), events)
  {
    q := new Queue<T>();
    for i := 0 to |events|
      invariant q.Valid() && fresh(q) && fresh(q.queue)
      invariant q.Contents() == After(EMPTY(), events[..i])
    {
      AfterNext(EMPTY(), events, i);
      match events[i]
      case Submit(x, v) => var _ := q.SendData(x, v);
      case Done(errors, v) =>
        q.OneInFlight();
        if q.inFlight.Some? {
          q.Service(errors, v);
        }
      case Reset => q.Reset();
    }
    assert events[..|events|] == events;
  }
}
