/**
 * The sender the loader of Y_Loader.c is made for: it repeats a packet until it is acknowledged and only then goes on. On the line
 * between them packets get garbled or lost, and so do answers.
 */
module YSender {
  import opened Words
  import opened Flash
  import opened Ymodem
  import opened YLoader

  /** What the loader gets instead of a packet, and whether the sender gets its answer. */
  datatype Arrival = Whole | Garbled | Silence

  datatype Turn = Turn(arrival: Arrival, heard: bool)

  function EventOf(p: Packet, a: Arrival): Event {
    match a
    case Whole => Received(p)
    case Garbled => Error
    case Silence => Timeout
  }

  // ---- The file ----

  /** The data of the packets before number k, the header packet aside. */
  function Payload(packets: seq<Packet>, k: nat): seq<byte>
    requires k <= |packets|
    decreases k
  {
    if k <= 1 then [] else Payload(packets, k - 1) + Data(packets[k - 1])
  }

  /** A header packet with the size of a file and then its bytes, in packets that are numbered with eight bits. */
  ghost predicate Sends(packets: seq<Packet>, f: seq<byte>) {
    && |packets| >= 2 && DeclaredSize(Data(packets[0])) == |f|
    && (forall i :: 0 <= i < |packets| ==> packets[i][1] == (i % 0x100) as byte)
    && |Payload(packets, |packets| - 1)| < |f| && f <= Payload(packets, |packets|)
  }

  /** Where a session stands that has got the first k packets, each once and in order. */
  ghost function Given(packets: seq<Packet>, k: nat): Track
    requires k <= |packets|
    decreases k
  {
    if k == 0 then NOTHING else Follow(Given(packets, k - 1), Received(packets[k - 1]))
  }

  lemma {:induction false} PayloadGrows(packets: seq<Packet>, j: nat, k: nat)
    requires j <= k <= |packets|
    ensures Payload(packets, j) <= Payload(packets, k)
    decreases k
  {
    if j < k {
      PayloadGrows(packets, j, k - 1);
    }
  }

  /** The numbers of two packets one behind the other are not the same. */
  lemma Numbers(k: nat)
    ensures (k % 0x100) as byte != ((k + 1) % 0x100) as byte
  {
    hide ToNat;
    var x, y := k % 0x100, (k + 1) % 0x100;
    ByteKept(x);
    ByteKept(y);
    assert ToByte(x) != ToByte(y);
  }

  lemma PayloadUpTo(packets: seq<Packet>, f: seq<byte>, k: nat)
    requires Sends(packets, f) && 0 < k < |packets|
    ensures |Payload(packets, k)| < |f| && Payload(packets, k + 1) == Payload(packets, k) + Data(packets[k])
    ensures if k + 1 < |packets| then |Payload(packets, k + 1)| < |f| else f <= Payload(packets, k + 1)
  {
    hide DeclaredSize, IsPacket;
    PayloadGrows(packets, k, |packets| - 1);
    if k + 1 < |packets| {
      PayloadGrows(packets, k + 1, |packets| - 1);
    }
  }

  /** A packet that leaves something to come, and one that does not. */
  lemma TakeIs(t: Track, d: seq<byte>, whole: seq<byte>, f: seq<byte>)
    requires t.size == |f| && |t.data| < |f| && whole == t.data + d
    ensures |whole| < |f| ==> Take(t, d).data == whole && !Take(t, d).done && Take(t, d).cnt == t.cnt + 1
    ensures f <= whole ==> Take(t, d).data == f && Take(t, d).done && Take(t, d).cnt == t.cnt
    ensures Take(t, d).size == |f|
  {
    if |whole| < |f| {
      assert d[..|d|] == d;
    } else if f <= whole {
      assert f == whole[..|f|] == t.data + d[..|f| - |t.data|];
    }
  }

  /** The bytes of the first k packets have been taken, and with the last packet the file is done. */
  lemma {:induction false} GivenIs(packets: seq<Packet>, f: seq<byte>, k: nat)
    requires Sends(packets, f) && 0 < k <= |packets|
    ensures var g, n := Given(packets, k), |packets|;
            && g.size == |f| && g.data == (if k < n then Payload(packets, k) else f)
            && g.cnt == (if k < n then k else n - 1) && (g.done <==> k == n)
    decreases k
  {
    hide DeclaredSize, IsPacket, Take, Payload;
    if k > 1 {
      GivenIs(packets, f, k - 1);
      PayloadUpTo(packets, f, k - 1);
      TakeIs(Given(packets, k - 1), Data(packets[k - 1]), Payload(packets, k), f);
    } else {
      assert Payload(packets, 1) == [] by { PayloadStart(packets); }
      assert Given(packets, 0) == NOTHING;
    }
  }

  lemma PayloadStart(packets: seq<Packet>)
    requires |packets| > 0
    ensures Payload(packets, 1) == []
  {}

  /** The answer that acknowledges packet number k: with the one to the header packet the data are called for. */
  function Taking(k: nat): seq<byte> {
    if k == 0 then [ACK, CRC16] else [ACK]
  }

  /** The packet that is expected. */
  lemma Expected(packets: seq<Packet>, f: seq<byte>, a: nat)
    requires Sends(packets, f) && a < |packets|
    ensures var t, e := Given(packets, a), Received(packets[a]);
            Follow(t, e) == Given(packets, a + 1) && Reply(t, e) == if a == 0 then [0x06, 0x43] else [0x06]
  {
    hide DeclaredSize, IsPacket, Follow;
    if a > 0 {
      GivenIs(packets, f, a);
    }
  }

  /** A repetition of a packet that was taken, with more to come. */
  lemma Repeated(packets: seq<Packet>, f: seq<byte>, a: nat)
    requires Sends(packets, f) && a + 1 < |packets|
    ensures var t, e := Given(packets, a + 1), Received(packets[a]); Follow(t, e) == t && Reply(t, e) == [0x15]
  {
    hide DeclaredSize, IsPacket, Given, Take, Payload;
    GivenIs(packets, f, a + 1);
    Numbers(a);
  }

  /** A repetition of the last packet. */
  lemma RepeatedLast(packets: seq<Packet>, f: seq<byte>, a: nat)
    requires Sends(packets, f) && a + 1 == |packets|
    ensures var t, e := Given(packets, a + 1), Received(packets[a]); Follow(t, e) == t && Reply(t, e) == [0x06]
  {
    hide DeclaredSize, IsPacket, Given, Payload;
    GivenIs(packets, f, a + 1);
    var t := Given(packets, a + 1);
    assert t.data + Data(packets[a])[..0] == t.data;
  }

  /** What packet number a does to a session that has got just the packets before it, or that one as well. */
  lemma PacketIs(packets: seq<Packet>, f: seq<byte>, a: nat, taken: nat)
    requires Sends(packets, f) && a < |packets| && a <= taken <= a + 1
    ensures var t, e := Given(packets, taken), Received(packets[a]);
            && Follow(t, e) == Given(packets, a + 1)
            && Reply(t, e) == if taken != a && a + 1 != |packets| then [0x15] else if a == 0 then [0x06, 0x43] else [0x06]
  {
    hide DeclaredSize, IsPacket, Given, Follow, Reply;
    if taken == a {
      Expected(packets, f, a);
    } else if a + 1 < |packets| {
      Repeated(packets, f, a);
    } else {
      RepeatedLast(packets, f, a);
    }
  }

  // ---- The line ----

  /** For every packet that arrived whole, whether its answer was heard. */
  function Heard(line: seq<Turn>): seq<bool>
    decreases |line|
  {
    if line == [] then [] else
      var turn := line[|line| - 1];
      Heard(line[..|line| - 1]) + if turn.arrival.Whole? then [turn.heard] else []
  }

  /** How many answers were heard before the first that was not. */
  function Leading(h: seq<bool>): nat
    decreases |h|
  {
    if h == [] then 0 else
      var l := Leading(h[..|h| - 1]);
      if l == |h| - 1 && h[|h| - 1] then |h| else l
  }

  /** The number of packets the loader takes: it stops at the first packet but the last whose answer is lost. */
  function Taken(n: nat, h: seq<bool>): nat {
    Min(n, Min(|h|, Leading(h) + 1))
  }

  /** Nothing but the answer to the last packet may be lost, and that not for ever. */
  ghost predicate GetsThrough(n: nat, h: seq<bool>)
    requires n > 0
  {
    Leading(h) >= n - 1 && exists i :: n - 1 <= i < |h| && h[i]
  }

  /** The number of packets acknowledged. */
  ghost function Acknowledged(n: nat, h: seq<bool>): nat
    requires n > 0
  {
    if GetsThrough(n, h) then n else Min(n - 1, Leading(h))
  }

  lemma {:induction false} LeadingIs(h: seq<bool>)
    ensures Leading(h) <= |h| && (forall i :: 0 <= i < Leading(h) ==> h[i]) && (Leading(h) < |h| ==> !h[Leading(h)])
    decreases |h|
  {
    if h != [] {
      LeadingIs(h[..|h| - 1]);
    }
  }

  /** One more packet that arrives whole, while they are not all acknowledged. */
  lemma HeardMore(n: nat, h: seq<bool>, x: bool)
    requires n >= 2 && Acknowledged(n, h) < n
    ensures var a, g := Acknowledged(n, h), h + [x];
            && 0 <= a <= Taken(n, h) <= a + 1 && Taken(n, g) == a + 1
            && Acknowledged(n, g) == if x && (Taken(n, h) == a || a + 1 == n) then a + 1 else a
  {
    LeadingIs(h);
    LeadingIs(h + [x]);
    assert (h + [x])[..|h|] == h;
    var g := h + [x];
    assert g[|h|] == x;
    assert forall i :: 0 <= i < |h| ==> g[i] == h[i];
  }

  lemma HeardNone(n: nat)
    requires n >= 2
    ensures Taken(n, []) == 0 && Acknowledged(n, []) == 0
  {}

  lemma {:induction false} LeadingOn(h: seq<bool>, g: seq<bool>)
    ensures Leading(h) < |h| ==> Leading(h + g) == Leading(h)
    ensures Leading(h) == |h| ==> Leading(h + g) == |h| + Leading(g)
    decreases |g|
  {
    if g == [] {
      assert h + g == h;
    } else {
      LeadingOn(h, g[..|g| - 1]);
      assert (h + g)[..|h + g| - 1] == h + g[..|g| - 1];
      LeadingIs(g[..|g| - 1]);
    }
  }

  /**
   * The loader refuses a packet it has taken: once the answer to a packet before the last is lost, no further packet is ever
   * acknowledged, and until then the file can still get through.
   */
  lemma LostForEver(n: nat, h: seq<bool>)
    requires n >= 2
    ensures (exists g :: GetsThrough(n, h + g)) <==> !(Leading(h) < |h| && Leading(h) < n - 1)
    ensures Leading(h) < |h| && Leading(h) < n - 1 ==> forall g :: Acknowledged(n, h + g) == Acknowledged(n, h) == Leading(h)
  {
    LeadingIs(h);
    if Leading(h) < |h| && Leading(h) < n - 1 {
      forall g
        ensures !GetsThrough(n, h + g) && Acknowledged(n, h + g) == Leading(h)
      {
        LeadingOn(h, g);
      }
      assert h + [] == h;
    } else {
      var g := seq(n, _ => true);
      LeadingOn(h, g);
      LeadingAll(g);
      assert (h + g)[|h| + n - 1] == g[n - 1];
      assert GetsThrough(n, h + g);
    }
  }

  lemma {:induction false} LeadingAll(g: seq<bool>)
    requires false !in g
    ensures Leading(g) == |g|
  {
    LeadingIs(g);
  }

  // ---- Sender and loader together ----

  /** After the given events, with so many packets acknowledged and those answers heard. */
  ghost predicate Stands(packets: seq<Packet>, h: seq<bool>, events: seq<Event>, acknowledged: nat)
    requires packets != []
  {
    && acknowledged == Acknowledged(|packets|, h) && acknowledged <= Taken(|packets|, h) <= acknowledged + 1
    && FollowAll(NOTHING, events) == Given(packets, Taken(|packets|, h))
  }

  lemma {:induction false} NoFileEnds(events: seq<Event>)
    requires EndOfFile !in events
    ensures Single(events)
    decreases |events|
  {
    if events != [] {
      NoFileEnds(events[..|events| - 1]);
    }
  }

  /** The packets of a file, until they are all acknowledged, the line is used up, or the run ends. */
  method SendPackets(loader: Loader, packets: seq<Packet>, line: seq<Turn>, ghost f: seq<byte>)
    returns (acknowledged: nat, ended: bool, used: nat, errors: nat, sessionBegin: bool, ghost events: seq<Event>)
    requires loader.Sound() && Sends(packets, f)
    modifies loader, loader.device, loader.block, loader.chainBlock, loader.tables.block1, loader.tables.block2, loader.tables.sBox
    ensures loader.Sound() && used <= |line| && (if ended then used < |line| && acknowledged < |packets| else used == |line| || acknowledged == |packets|)
    ensures var b := Before(old(loader.log), old(loader.bootEncrypted), old(loader.device.past));
            if ended then loader.Ended(b, events + [EventOf(packets[acknowledged], line[used].arrival)]) else loader.Running(b, events)
    ensures !ended ==> NoneStops(events) && errors == Errors(events) && sessionBegin == Begun(events) && EndOfFile !in events
    ensures Stands(packets, Heard(line[..used]), events, acknowledged)
  {
    hide Loader.Sound, Loader.Running, Loader.Ended, NoneStops, Errors, Begun, Replies, FollowAll, IsPacket, Stands, Sends, Reply, Heard;
    ghost var b := Before(loader.log, loader.bootEncrypted, loader.device.past);
    var sent := loader.StartRun();
    acknowledged, ended, used, events := 0, false, 0, [];
    errors, sessionBegin := 0, false;
    SendsMany(packets, f);
    StandsFirst(packets);
    while used < |line| && acknowledged < |packets|
      invariant used <= |line| && acknowledged <= |packets| && !ended
      invariant loader.Running(b, events) && NoneStops(events) && errors == Errors(events) && sessionBegin == Begun(events)
      invariant Stands(packets, Heard(line[..used]), events, acknowledged) && EndOfFile !in events
    {
      var turn := line[used];
      var e := EventOf(packets[acknowledged], turn.arrival);
      var reply;
      reply, ended, errors, sessionBegin := loader.OnEvent(e, errors, sessionBegin, events, b);
      loader.EndedMeans(b, events + [e], ended);
      if ended { return; }
      assert line[..used + 1] == line[..used] + [turn];
      StandsNext(packets, f, line[..used], events, acknowledged, turn);
      if turn.heard && reply == Taking(acknowledged) {
        acknowledged := acknowledged + 1;
      }
      events := events + [e];
      used := used + 1;
    }
    loader.EndedMeans(b, events, false);
  }

  // ---- The end of the file ----

  function EndOf(a: Arrival): Event {
    match a
    case Whole => EndOfFile
    case Garbled => Error
    case Silence => Timeout
  }

  /** What the ends of a file that have come leave of its session. */
  function Closed(t: Track, ends: nat): Track {
    if ends == 0 then t else t.(cnt := 0, done := false)
  }

  /** An end of a file that is done is answered with NAK, and any further one as a new file may begin. */
  lemma EndIs(t: Track, h: seq<bool>, line: seq<Turn>, turn: Turn)
    requires t.done && h == Heard(line)
    ensures var e, u, g := EndOf(turn.arrival), Closed(t, |h|), Heard(line + [turn]);
            && Follow(u, e) == Closed(t, |g|) && !Loads(u, e)
            && g == (if e.EndOfFile? then h + [turn.heard] else h)
            && (Reply(u, e) == [ACK, CRC16] <==> e.EndOfFile? && |h| > 0)
  {
    assert (line + [turn])[..|line|] == line;
  }

  /** The sender repeats the end of the file until the answer tells it that a new file may begin. */
  method SendEnd(loader: Loader, line: seq<Turn>, errors: nat, sessionBegin: bool, ghost events: seq<Event>, ghost b: Before,
                 ghost f: seq<byte>) returns (closed: bool, ended: bool, used: nat, ghost more: seq<Event>)
    requires loader.Running(b, events) && NoneStops(events) && errors == Errors(events) && sessionBegin == Begun(events)
    requires EndOfFile !in events && FollowAll(NOTHING, events).done && FollowAll(NOTHING, events).data == f
    modifies loader, loader.device, loader.block, loader.chainBlock, loader.tables.block1, loader.tables.block2, loader.tables.sBox
    ensures loader.Sound() && used <= |line| && (if ended then used < |line| && !closed else used == |line| || closed)
    ensures if ended then loader.Ended(b, events + more + [EndOf(line[used].arrival)]) else loader.Running(b, events + more)
    ensures var h := Heard(line[..used]);
            && (closed <==> exists i :: 1 <= i < |h| && h[i])
            && FollowAll(NOTHING, events + more) == Closed(FollowAll(NOTHING, events), |h|)
    ensures FollowAll(NOTHING, events).intact ==> loader.Arrived(f, b.flag)
  {
    hide Loader.Sound, Loader.Running, Loader.Ended, Loader.Arrived, NoneStops, Errors, Begun, Replies, FollowAll, IsPacket, Reply, Heard, Tail, Closed;
    ghost var t := FollowAll(NOTHING, events);
    closed, ended, used, more := false, false, 0, [];
    var n, begun := errors, sessionBegin;
    assert events + [] == events;
    NothingEnded(t);
    while used < |line| && !closed
      invariant used <= |line| && !ended && Tail(t, more)
      invariant loader.Running(b, events + more) && NoneStops(events + more) && n == Errors(events + more) && begun == Begun(events + more)
      invariant FollowAll(NOTHING, events + more) == Closed(t, |Heard(line[..used])|)
      invariant var h := Heard(line[..used]); closed <==> exists i :: 1 <= i < |h| && h[i]
    {
      var turn := line[used];
      var e := EndOf(turn.arrival);
      ghost var es, h := events + more, Heard(line[..used]);
      EndIs(t, h, line[..used], turn);
      FollowOne(NOTHING, es, e);
      TailMore(events, more, e);
      var reply;
      reply, ended, n, begun := loader.OnEvent(e, n, begun, es, b);
      loader.EndedMeans(b, es + [e], ended);
      if ended {
        StillThere(loader, b, events, more + [e], f, true);
        return;
      }
      assert line[..used + 1] == line[..used] + [turn];
      HeardLater(h, turn.heard);
      closed := turn.heard && reply == [ACK, CRC16];
      more := more + [e];
      used := used + 1;
    }
    loader.EndedMeans(b, events + more, false);
    StillThere(loader, b, events, more, f, false);
  }

  lemma NothingEnded(t: Track)
    ensures Heard([]) == [] && Closed(t, 0) == t && Tail(t, [])
  {}

  lemma HeardLater(h: seq<bool>, x: bool)
    ensures (exists i :: 1 <= i < |h + [x]| && (h + [x])[i]) <==> (exists i :: 1 <= i < |h| && h[i]) || (|h| > 0 && x)
  {
    var g := h + [x];
    assert g[|h|] == x;
    assert forall i :: 0 <= i < |h| ==> g[i] == h[i];
  }

  lemma TailMore(events: seq<Event>, more: seq<Event>, e: Event)
    requires Tail(FollowAll(NOTHING, events), more) && !Loads(FollowAll(NOTHING, events + more), e)
    ensures Tail(FollowAll(NOTHING, events), more + [e]) && events + more + [e] == events + (more + [e])
  {
    hide FollowAll;
    FollowAllConcat(NOTHING, events, more);
    assert (more + [e])[..|more|] == more;
  }

  /** What the file left in the flash is still there. */
  lemma StillThere(loader: Loader, b: Before, events: seq<Event>, more: seq<Event>, f: seq<byte>, ended: bool)
    requires if ended then loader.Ended(b, events + more) else loader.Running(b, events + more)
    requires NoneStops(events) && EndOfFile !in events && Tail(FollowAll(NOTHING, events), more) && (ended ==> more != [])
    requires FollowAll(NOTHING, events).done && FollowAll(NOTHING, events).data == f
    ensures FollowAll(NOTHING, events).intact ==> loader.Arrived(f, b.flag)
  {
    hide Loader.Running, Loader.Ended, Loader.Arrived, Loader.AtRest, Loader.Follows, Loader.Refused, NoneStops, FollowAll, RestAfter, Single, Tail, Stops;
    var all, n := events + more, |events|;
    assert all[..n] == events && all[n..|all|] == more && all[..|all|] == all;
    NoFileEnds(events);
    if ended {
      loader.EndedFacts(b, all);
      loader.TailRefuses(events, more);
    } else {
      loader.RunningFacts(b, all);
    }
    if FollowAll(NOTHING, events).intact {
      loader.TransferRests(b, all, n, |all|, f);
    }
  }

  /**
   * A sender with the packets of a file and the loop of Ymodem_programmator. Whatever is garbled or lost, the loader has taken
   * what it would have taken of an undisturbed line, and at most one packet more than the sender knows of. The last packet is
   * acknowledged if and only if every answer to a packet before it is heard, and one to the last; the file is then done, and in
   * the flash if its packets are intact. The sender ends it if and only if the answer to its second end of the file, or to a
   * later one, is heard; the file stays where it is whatever becomes of that.
   */
  method SendFile(loader: Loader, packets: seq<Packet>, line: seq<Turn>, ghost f: seq<byte>)
    returns (acknowledged: nat, closed: bool, ended: bool, used: nat, later: nat, ghost events: seq<Event>)
    requires loader.Sound() && Sends(packets, f)
    modifies loader, loader.device, loader.block, loader.chainBlock, loader.tables.block1, loader.tables.block2, loader.tables.sBox
    ensures loader.Sound() && used + later <= |line| && (!ended && !closed ==> used + later == |line|)
    ensures Stands(packets, Heard(line[..used]), events, acknowledged)
    ensures acknowledged == |packets| ==>
      var t := FollowAll(NOTHING, events); t.done && t.data == f && (t.intact ==> loader.Arrived(f, old(loader.bootEncrypted)))
    ensures var h := Heard(line[used..used + later]); closed <==> acknowledged == |packets| && exists i :: 1 <= i < |h| && h[i]
  {
    hide Loader.Sound, Loader.Running, Loader.Ended, Loader.Arrived, NoneStops, Errors, Begun, FollowAll, IsPacket, Stands, Sends, Heard;
    ghost var b := Before(loader.log, loader.bootEncrypted, loader.device.past);
    var errors, sessionBegin;
    acknowledged, ended, used, errors, sessionBegin, events := SendPackets(loader, packets, line, f);
    closed, later := false, 0;
    if acknowledged == |packets| {
      AllTaken(packets, f, Heard(line[..used]), events);
      var rest := line[used..];
      ghost var more;
      closed, ended, later, more := SendEnd(loader, rest, errors, sessionBegin, events, b, f);
      assert rest[..later] == line[used..used + later];
    }
  }

  lemma StandsFirst(packets: seq<Packet>)
    requires |packets| >= 2
    ensures Stands(packets, Heard([]), [], 0)
  {
    HeardNone(|packets|);
  }

  /** One turn. */
  lemma StandsNext(packets: seq<Packet>, f: seq<byte>, line: seq<Turn>, events: seq<Event>, a: nat, turn: Turn)
    requires Sends(packets, f) && Stands(packets, Heard(line), events, a) && a < |packets|
    ensures var e := EventOf(packets[a], turn.arrival);
            var reply := Reply(FollowAll(NOTHING, events), e);
            Stands(packets, Heard(line + [turn]), events + [e], if turn.heard && reply == Taking(a) then a + 1 else a)
  {
    hide Sends, FollowAll, IsPacket, Follow, Taken, Acknowledged;
    var e, n, h := EventOf(packets[a], turn.arrival), |packets|, Heard(line);
    assert (line + [turn])[..|line|] == line;
    FollowOne(NOTHING, events, e);
    SendsMany(packets, f);
    match turn.arrival {
    case Whole =>
      HeardMore(n, h, turn.heard);
      PacketIs(packets, f, a, Taken(n, h));
    case _ =>
      assert Heard(line + [turn]) == h;
    }
  }

  lemma SendsMany(packets: seq<Packet>, f: seq<byte>)
    requires Sends(packets, f)
    ensures |packets| >= 2
  {}

  /** As long as no answer is lost, what the loader has taken is exactly what it has acknowledged. */
  lemma NothingLost(packets: seq<Packet>, h: seq<bool>, events: seq<Event>, acknowledged: nat)
    requires |packets| >= 2 && Stands(packets, h, events, acknowledged) && false !in h
    ensures FollowAll(NOTHING, events) == Given(packets, acknowledged) && acknowledged == Min(|packets|, |h|)
  {
    LeadingAll(h);
  }

  /** When the last packet has been acknowledged the file is done. */
  lemma AllTaken(packets: seq<Packet>, f: seq<byte>, h: seq<bool>, events: seq<Event>)
    requires Sends(packets, f) && Stands(packets, h, events, |packets|)
    ensures FollowAll(NOTHING, events).done && FollowAll(NOTHING, events).data == f
  {
    hide Sends, FollowAll;
    SendsMany(packets, f);
    GivenIs(packets, f, |packets|);
  }
}
