/** CAN_task.c: a block of up to 512 bytes is sent as one frame of seven bytes and frames of eight, and put together again. */
module CanTransport {
  import opened Words

  type octet = n: nat | n < 0x100

  /** COMCH_BLOCK_MAX_SZ */
  const BLOCK_MAX := 512

  /** Four bytes, the way both sides exchange a checksum. */
  type Quad = s: seq<octet> | |s| == 4 witness [0, 0, 0, 0]

  type Frame = s: seq<octet> | |s| <= 8 witness []

  // ---- What is to be sent ----

  function Zeros(n: nat): (s: seq<octet>)
    ensures |s| == n && forall i :: 0 <= i < n ==> s[i] == 0
  {
    seq(n, _ => 0)
  }

  /** Length, checksum and number. */
  function Header(n: nat, sum: Quad, id: octet): (f: Frame)
    ensures |f| == 7
  {
    [n % 0x100, n / 0x100 % 0x100] + sum + [id]
  }

  /** Eight bytes a frame, the last one filled up with zeros. */
  function DataFrames(block: seq<octet>): (fs: seq<Frame>)
    ensures forall i :: 0 <= i < |fs| ==> |fs[i]| == 8
    decreases |block|
  {
    if |block| == 0 then []
    else if |block| < 8 then [block + Zeros(8 - |block|)]
    else [block[..8]] + DataFrames(block[8..])
  }

  function Frames(block: seq<octet>, id: octet, crc: seq<octet> -> Quad): seq<Frame> {
    [Header(|block|, crc(block), id)] + DataFrames(block)
  }

  // ---- The receiver, on values ----

  /** The receive buffer, the length and checksum and number announced, the bytes to come, and where they go. */
  datatype Receiving = Receiving(buf: seq<octet>, len: nat, cnt: nat, ptr: nat, sum: Quad, id: octet, active: bool)

  /** While a block is being received, everything announced is either there or still to come, and there is room for it. */
  predicate Fits(s: Receiving) {
    |s.buf| == BLOCK_MAX && (s.active ==> s.ptr + s.cnt == s.len <= BLOCK_MAX && s.ptr % 8 == 0)
  }

  /** The length a header frame announces. */
  function Announced(f: Frame): nat
    requires |f| == 7
  {
    var low: int, high: int := f[0], f[1];
    low + 0x100 * high
  }

  /** The state after a frame, and the number to acknowledge if the frame completes a block. */
  function Step(s: Receiving, f: Frame, crc: seq<octet> -> Quad): (r: (Receiving, Option<octet>))
    requires Fits(s)
    ensures Fits(r.0)
  {
    if |f| == 7 then
      var n := Announced(f);
      (Receiving(s.buf, n, n, 0, f[2..6], f[6], n <= BLOCK_MAX), None)
    else if |f| == 8 && s.active && s.cnt != 0 then
      Room(s);
      var b := s.buf[..s.ptr] + f + s.buf[s.ptr + 8..];
      if s.cnt > 8 then
        (s.(buf := b, ptr := s.ptr + 8, cnt := s.cnt - 8), None)
      else
        (s.(buf := b, ptr := s.ptr + 8, active := false), if crc(b[..s.len]) == s.sum then Some(s.id) else None)
    else
      (s, None)
  }

  /** No copy leaves the buffer. */
  lemma Room(s: Receiving)
    requires Fits(s) && s.active && s.cnt > 0
    ensures s.ptr + 8 <= BLOCK_MAX
  {
    assert s.ptr < BLOCK_MAX && BLOCK_MAX % 8 == 0;
    assert s.ptr == 8 * (s.ptr / 8);
  }

  /** The state after a series of frames. */
  function Run(s: Receiving, fs: seq<Frame>, crc: seq<octet> -> Quad): (r: Receiving)
    requires Fits(s)
    ensures Fits(r)
    decreases |fs|
  {
    if fs == [] then s else Step(Run(s, fs[..|fs| - 1], crc), fs[|fs| - 1], crc).0
  }

  /** What the last of a series of frames gives. */
  function Answer(s: Receiving, fs: seq<Frame>, crc: seq<octet> -> Quad): Option<octet>
    requires Fits(s)
  {
    if fs == [] then None else Step(Run(s, fs[..|fs| - 1], crc), fs[|fs| - 1], crc).1
  }

  // ---- Whatever is received ----

  /** The bytes of the data frames since the last header, as far as they were called for. */
  function Since(s: Receiving, fs: seq<Frame>, crc: seq<octet> -> Quad): seq<octet>
    requires Fits(s)
    decreases |fs|
  {
    if fs == [] then [] else
      var u, f := Run(s, fs[..|fs| - 1], crc), fs[|fs| - 1];
      if |f| == 7 then []
      else if |f| == 8 && u.active && u.cnt != 0 then Since(s, fs[..|fs| - 1], crc) + f
      else Since(s, fs[..|fs| - 1], crc)
  }

  /** The buffer holds them in order. */
  lemma {:induction false} Collected(s: Receiving, fs: seq<Frame>, crc: seq<octet> -> Quad)
    requires Fits(s) && !s.active
    ensures var u := Run(s, fs, crc);
            u.active ==> |Since(s, fs, crc)| == u.ptr && u.ptr <= BLOCK_MAX && u.buf[..u.ptr] == Since(s, fs, crc)
    decreases |fs|
  {
    if fs != [] {
      var gs, f := fs[..|fs| - 1], fs[|fs| - 1];
      Collected(s, gs, crc);
      var u := Run(s, gs, crc);
      if |f| == 8 && u.active && u.cnt != 0 {
        Room(u);
        assert (u.buf[..u.ptr] + f + u.buf[u.ptr + 8..])[..u.ptr + 8] == u.buf[..u.ptr] + f;
      }
    }
  }

  /** A block is acknowledged only if the frames since its header brought it, with the checksum the header announced. */
  lemma AnsweredMeans(s: Receiving, fs: seq<Frame>, crc: seq<octet> -> Quad)
    requires Fits(s) && !s.active && Answer(s, fs, crc).Some?
    ensures var u, b := Run(s, fs, crc), Since(s, fs, crc);
            && u.len <= |b| < u.len + 8 && u.len <= BLOCK_MAX && u.buf[..u.len] == b[..u.len]
            && crc(b[..u.len]) == u.sum && Answer(s, fs, crc) == Some(u.id) && !u.active
  {
    var gs, f := fs[..|fs| - 1], fs[|fs| - 1];
    Collected(s, gs, crc);
    var u := Run(s, gs, crc);
    Room(u);
    var b := u.buf[..u.ptr] + f + u.buf[u.ptr + 8..];
    assert b[..u.len] == (u.buf[..u.ptr] + f)[..u.len];
  }

  // ---- A block is delivered ----

  lemma {:induction false} RunSplit(s: Receiving, fs: seq<Frame>, gs: seq<Frame>, crc: seq<octet> -> Quad)
    requires Fits(s)
    ensures Run(s, fs + gs, crc) == Run(Run(s, fs, crc), gs, crc)
    ensures gs != [] ==> Answer(s, fs + gs, crc) == Answer(Run(s, fs, crc), gs, crc)
    decreases |gs|
  {
    hide Step;
    if gs == [] {
      assert fs + gs == fs;
    } else {
      assert (fs + gs)[..|fs + gs| - 1] == fs + gs[..|gs| - 1];
      RunSplit(s, fs, gs[..|gs| - 1], crc);
    }
  }

  lemma RunOne(s: Receiving, f: Frame, crc: seq<octet> -> Quad)
    requires Fits(s)
    ensures Run(s, [f], crc) == Step(s, f, crc).0 && Answer(s, [f], crc) == Step(s, f, crc).1
  {
    hide Step;
    assert [f][..0] == [];
    assert Run(s, [f][..0], crc) == s;
  }

  /** Receiving is under way: the beginning of the block is there and the rest is to come. */
  ghost predicate Midway(s: Receiving, block: seq<octet>, rest: seq<octet>, id: octet, crc: seq<octet> -> Quad) {
    && Fits(s) && s.active && s.len == |block| && s.cnt == |rest| && s.id == id && s.sum == crc(block)
    && s.buf[..s.ptr] + rest == block
  }

  /** The last frame completes the block, and no frame before it does. */
  lemma {:induction false} RestDelivered(s: Receiving, block: seq<octet>, rest: seq<octet>, id: octet, crc: seq<octet> -> Quad, k: nat)
    requires Midway(s, block, rest, id, crc) && |rest| > 0 && k <= |DataFrames(rest)|
    ensures Answer(s, DataFrames(rest)[..k], crc) == if k == |DataFrames(rest)| then Some(id) else None
    ensures k == |DataFrames(rest)| ==> Run(s, DataFrames(rest), crc).buf[..|block|] == block
    decreases |rest|
  {
    Room(s);
    var fs := DataFrames(rest);
    if k > 0 {
      var f := fs[0];
      RunOne(s, f, crc);
      var u := Step(s, f, crc).0;
      if |rest| <= 8 {
        LastFrame(s, block, rest, id, crc);
        assert fs == [f] && fs[..k] == fs;
      } else {
        NextFrame(s, block, rest, id, crc);
        var gs := DataFrames(rest[8..]);
        assert fs == [f] + gs && fs[..k] == [f] + gs[..k - 1];
        RestDelivered(u, block, rest[8..], id, crc, k - 1);
        RunSplit(s, [f], gs[..k - 1], crc);
        assert k == |fs| ==> gs[..k - 1] == gs;
      }
    }
  }

  lemma LastFrame(s: Receiving, block: seq<octet>, rest: seq<octet>, id: octet, crc: seq<octet> -> Quad)
    requires Midway(s, block, rest, id, crc) && 0 < |rest| <= 8
    ensures |DataFrames(rest)| == 1
    ensures var r := Step(s, DataFrames(rest)[0], crc); r.1 == Some(id) && r.0.buf[..|block|] == block
  {
    Room(s);
    if |rest| == 8 {
      assert rest[8..] == [] && rest[..8] == rest;
      assert DataFrames(rest) == [rest] + DataFrames([]);
    }
    var f := DataFrames(rest)[0];
    assert f[..|rest|] == rest;
    assert (s.buf[..s.ptr] + f + s.buf[s.ptr + 8..])[..|block|] == s.buf[..s.ptr] + rest;
  }

  lemma NextFrame(s: Receiving, block: seq<octet>, rest: seq<octet>, id: octet, crc: seq<octet> -> Quad)
    requires Midway(s, block, rest, id, crc) && |rest| > 8
    ensures DataFrames(rest) == [rest[..8]] + DataFrames(rest[8..])
    ensures var r := Step(s, rest[..8], crc); r.1 == None && Midway(r.0, block, rest[8..], id, crc)
  {
    Room(s);
    var f := rest[..8];
    assert (s.buf[..s.ptr] + f + s.buf[s.ptr + 8..])[..s.ptr + 8] == s.buf[..s.ptr] + f;
    assert s.buf[..s.ptr] + f + rest[8..] == s.buf[..s.ptr] + rest;
  }

  /** The two length bytes of the header stand for the length. */
  lemma LengthSurvives(n: nat, sum: Quad, id: octet)
    requires n < 0x1_0000
    ensures Announced(Header(n, sum, id)) == n && Header(n, sum, id)[2..6] == sum && Header(n, sum, id)[6] == id
  {
    assert n / 0x100 % 0x100 == n / 0x100;
  }

  /**
   * Whatever the receiver was doing before, the frames of a block bring it over: the last frame, and no other,
   * is answered, with the number of the block, and the block is then in the buffer.
   */
  lemma Delivered(s: Receiving, block: seq<octet>, id: octet, crc: seq<octet> -> Quad, k: nat)
    requires Fits(s) && 0 < |block| <= 512 && k <= |Frames(block, id, crc)|
    ensures var fs := Frames(block, id, crc);
            && Answer(s, fs[..k], crc) == (if k == |fs| then Some(id) else None)
            && Run(s, fs, crc).buf[..|block|] == block
  {
    var fs, gs := Frames(block, id, crc), DataFrames(block);
    var h := Header(|block|, crc(block), id);
    LengthSurvives(|block|, crc(block), id);
    RunOne(s, h, crc);
    var u := Step(s, h, crc).0;
    assert u.buf[..0] + block == block;
    RestDelivered(u, block, block, id, crc, |gs|);
    RunSplit(s, [h], gs, crc);
    assert gs[..|gs|] == gs;
    if k > 0 {
      RestDelivered(u, block, block, id, crc, k - 1);
      RunSplit(s, [h], gs[..k - 1], crc);
      assert fs[..k] == [h] + gs[..k - 1];
      assert k == 1 ==> fs[..k] == [h];
    }
  }

  /** A block of no bytes is never answered. */
  lemma EmptyNeverAnswered(s: Receiving, id: octet, crc: seq<octet> -> Quad)
    requires Fits(s)
    ensures Frames([], id, crc) == [Header(0, crc([]), id)]
    ensures Answer(s, Frames([], id, crc), crc) == None && Run(s, Frames([], id, crc), crc).cnt == 0
  {
    LengthSurvives(0, crc([]), id);
    RunOne(s, Header(0, crc([]), id), crc);
  }

  // ---- The routines ----

  /** The bus as a sender sees it: which sends get through, what has been sent, and what the polls for an answer bring. */
  class Bus {
    const works: nat -> bool
    var sent: seq<Frame>

    constructor (works: nat -> bool)
      ensures sent == [] && this.works == works
    {
      this.works, sent := works, [];
    }

    /** Send_data_chank: a frame of up to eight bytes, given up if the controller stays busy. */
    method SendDataChunk(data: seq<octet>) returns (ok: bool)
      modifies this
      ensures ok <==> 0 < |data| <= 8 && works(|old(sent)|)
      ensures sent == if ok then old(sent) + [data] else old(sent)
    {
      if 0 < |data| <= 8 && works(|sent|) {
        sent := sent + [data];
        return true;
      }
      return false;
    }
  }

  /** Sending succeeds for the frames from number i on. */
  ghost predicate AllWork(works: nat -> bool, i: nat, n: nat) {
    forall k :: i <= k < i + n ==> works(k)
  }

  const MAX_POLLS := 100_001

  class Sender {
    const bus: Bus
    const crc: seq<octet> -> Quad
    var txPackId: octet

    constructor (bus: Bus, crc: seq<octet> -> Quad)
      ensures this.bus == bus && this.crc == crc
    {
      this.bus, this.crc, txPackId := bus, crc, 0;
    }

    /** The loop over full frames. */
    method SendFull(block: seq<octet>) returns (ok: bool, rest: seq<octet>)
      modifies bus
      ensures ok ==> |rest| == |block| % 8 && rest == block[|block| - |block| % 8..]
      ensures ok ==> bus.sent + DataFrames(rest) == old(bus.sent) + DataFrames(block)
      ensures ok <==> AllWork(bus.works, |old(bus.sent)|, |block| / 8)
      ensures bus.sent <= old(bus.sent) + DataFrames(block)
    {
      rest := block;
      ghost var k := 0;
      while |rest| >= 8
        invariant 8 * k <= |block| && rest == block[8 * k..]
        invariant bus.sent + DataFrames(rest) == old(bus.sent) + DataFrames(block)
        invariant |bus.sent| == |old(bus.sent)| + k && AllWork(bus.works, |old(bus.sent)|, k)
        decreases |rest|
      {
        assert bus.sent + DataFrames(rest) == bus.sent + [rest[..8]] + DataFrames(rest[8..]);
        ok := bus.SendDataChunk(rest[..8]);
        if !ok {
          assert !bus.works(|old(bus.sent)| + k) && k < |block| / 8;
          return false, rest;
        }
        rest, k := rest[8..], k + 1;
      }
      assert k == |block| / 8;
      return true, rest;
    }

    /** CAN_send_packet: polls are what the polls for the acknowledgement bring. */
    method SendPacket(block: seq<octet>, polls: seq<Option<Frame>>) returns (success: bool)
      requires |block| <= BLOCK_MAX && |polls| == MAX_POLLS
      modifies this`txPackId, bus
      ensures txPackId == (old(txPackId) + 1) % 0x100
      ensures bus.sent <= old(bus.sent) + Frames(block, txPackId, crc)
      ensures AllWork(bus.works, |old(bus.sent)|, |Frames(block, txPackId, crc)|) ==>
        bus.sent == old(bus.sent) + Frames(block, txPackId, crc)
      ensures success <==>
        && |block| % 8 != 0 && AllWork(bus.works, |old(bus.sent)|, |Frames(block, txPackId, crc)|)
        && exists i :: 0 <= i < |polls| && polls[i].Some? && polls[i].value == [txPackId]
    {
      txPackId := (txPackId + 1) % 0x100;
      ghost var before, first := bus.sent, |bus.sent|;
      ghost var fs := Frames(block, txPackId, crc);
      FrameCount(block);
      var buf := Header(|block|, crc(block), txPackId);
      var ok := bus.SendDataChunk(buf);
      if !ok {
        assert !bus.works(first);
        return false;
      }
      assert before + fs == bus.sent + DataFrames(block);
      hide DataFrames, Header;
      var rest;
      ok, rest := SendFull(block);
      if !ok { return false; }
      FewFrames(rest);
      if |rest| != 0 {
        ok := bus.SendDataChunk(rest + Zeros(8 - |rest|));
        if !ok {
          assert !bus.works(first + 1 + |block| / 8);
          return false;
        }
        success := Await(polls);
      } else {
        success := false;
      }
    }

    /** Waits for the acknowledgement. */
    method Await(polls: seq<Option<Frame>>) returns (success: bool)
      ensures success <==> exists i :: 0 <= i < |polls| && polls[i].Some? && polls[i].value == [txPackId]
    {
      for n := 0 to |polls|
        invariant forall i :: 0 <= i < n ==> !(polls[i].Some? && polls[i].value == [txPackId])
      {
        if polls[n].Some? && |polls[n].value| == 1 && polls[n].value[0] == txPackId {
          assert polls[n].value == [txPackId];
          return true;
        }
      }
      return false;
    }
  }

  class Receiver {
    const rxBlock: array<octet>
    const crc: seq<octet> -> Quad
    var rxBlockLen: nat
    var rxBlockCnt: nat
    var rxBlockPtr: nat
    var rxBlockCrc: Quad
    var rxBlockId: octet
    var rxActive: bool
    /** The acknowledgements sent. */
    var acks: seq<octet>

    function State(): Receiving
      reads this, rxBlock
    {
      Receiving(rxBlock[..], rxBlockLen, rxBlockCnt, rxBlockPtr, rxBlockCrc, rxBlockId, rxActive)
    }

    ghost predicate Valid()
      reads this, rxBlock
    {
      Fits(State())
    }

    constructor (crc: seq<octet> -> Quad)
      ensures Valid() && fresh(rxBlock) && !rxActive && acks == [] && this.crc == crc
    {
      rxBlock := new octet[BLOCK_MAX](_ => 0);
      rxBlockLen, rxBlockCnt, rxBlockPtr, rxBlockCrc, rxBlockId, rxActive, acks := 0, 0, 0, [0, 0, 0, 0], 0, false, [];
      this.crc := crc;
    }

    /** CAN_receiving_packet for one message of the bus, if there is one; success means that a block is complete. */
    method ReceivingPacket(msg: Option<Frame>) returns (success: bool)
      requires Valid()
      modifies this, rxBlock
      ensures Valid()
      ensures msg.None? ==> !success && State() == old(State()) && acks == old(acks)
      ensures msg.Some? ==> State() == Step(old(State()), msg.value, crc).0
      ensures msg.Some? ==> (success <==> Step(old(State()), msg.value, crc).1.Some?)
      ensures acks == if success then old(acks) + [rxBlockId] else old(acks)
    {
      if msg.None? { return false; }
      var f := msg.value;
      if |f| == 7 {
        rxBlockLen := Announced(f);
        rxBlockCnt := rxBlockLen;
        rxBlockCrc := f[2..6];
        rxBlockId := f[6];
        rxBlockPtr := 0;
        rxActive := rxBlockLen <= BLOCK_MAX;
      } else if |f| == 8 && rxActive {
        if rxBlockCnt != 0 {
          ghost var b := rxBlock[..];
          Room(State());
          Store(f);
          rxBlockPtr := rxBlockPtr + 8;
          if rxBlockCnt > 8 {
            rxBlockCnt := rxBlockCnt - 8;
          } else {
            rxActive := false;
            if crc(rxBlock[..rxBlockLen]) == rxBlockCrc {
              assert rxBlock[..rxBlockLen] == rxBlock[..][..rxBlockLen];
              acks := acks + [rxBlockId];
              return true;
            }
            assert rxBlock[..rxBlockLen] == rxBlock[..][..rxBlockLen];
          }
        }
      }
      return false;
    }

    /** The copy of eight bytes. */
    method Store(f: seq<octet>)
      requires |f| == 8 && rxBlockPtr + 8 <= rxBlock.Length
      modifies rxBlock
      ensures rxBlock[..] == old(rxBlock[..rxBlockPtr]) + f + old(rxBlock[rxBlockPtr + 8..])
    {
      for i := 0 to 8
        invariant forall k :: 0 <= k < rxBlock.Length ==>
          rxBlock[k] == if rxBlockPtr <= k < rxBlockPtr + i then f[k - rxBlockPtr] else old(rxBlock[k])
      {
        rxBlock[rxBlockPtr + i] := f[i];
      }
    }
  }

  /**
   * On a bus that works, every block brings the receiver to acknowledge it, and its sender sees the acknowledgement; but
   * for a block of a whole number of frames it reports an error, whatever the polls bring.
   */
  method WholeFramesUnreported(sender: Sender, block: seq<octet>, polls: seq<Option<Frame>>, ghost s: Receiving) returns (success: bool)
    requires Fits(s) && 0 < |block| <= BLOCK_MAX && |polls| == MAX_POLLS && forall k :: sender.bus.works(k)
    modifies sender`txPackId, sender.bus
    ensures var fs := Frames(block, sender.txPackId, sender.crc);
            && sender.bus.sent == old(sender.bus.sent) + fs && Answer(s, fs, sender.crc) == Some(sender.txPackId)
            && Run(s, fs, sender.crc).buf[..|block|] == block
    ensures success <==> |block| % 8 != 0 && exists i :: 0 <= i < |polls| && polls[i].Some? && polls[i].value == [sender.txPackId]
  {
    success := sender.SendPacket(block, polls);
    ghost var fs := Frames(block, sender.txPackId, sender.crc);
    Delivered(s, block, sender.txPackId, sender.crc, |fs|);
    assert fs[..|fs|] == fs;
  }

  // ---- Sender and receiver together ----

  /** Frames get lost on the way, but they do not overtake one another. */
  ghost predicate Lossy(heard: seq<Frame>, sent: seq<Frame>)
    decreases |sent|
  {
    || heard == []
    || (sent != [] && (Lossy(heard, sent[1..]) || (heard[0] == sent[0] && Lossy(heard[1..], sent[1..]))))
  }

  lemma {:induction false} LossyAre(heard: seq<Frame>, sent: seq<Frame>)
    requires Lossy(heard, sent)
    ensures |heard| <= |sent| && (|heard| == |sent| ==> heard == sent) && forall f :: f in heard ==> f in sent
    decreases |sent|
  {
    if heard != [] {
      if Lossy(heard, sent[1..]) {
        LossyAre(heard, sent[1..]);
      } else {
        LossyAre(heard[1..], sent[1..]);
        assert heard == [heard[0]] + heard[1..] && sent == [sent[0]] + sent[1..];
      }
    }
  }

  /** The acknowledgements a series of frames draws from the receiver. */
  function Answers(s: Receiving, fs: seq<Frame>, crc: seq<octet> -> Quad): seq<octet>
    requires Fits(s)
    decreases |fs|
  {
    if fs == [] then [] else
      var a := Answer(s, fs, crc);
      Answers(s, fs[..|fs| - 1], crc) + if a.Some? then [a.value] else []
  }

  /** Without a header only the block that was under way before can be answered. */
  lemma {:induction false} NoHeader(s: Receiving, fs: seq<Frame>, crc: seq<octet> -> Quad, id: octet)
    requires Fits(s) && (s.active ==> s.id != id) && forall f :: f in fs ==> |f| == 8
    ensures id !in Answers(s, fs, crc)
    ensures var u := Run(s, fs, crc); u.active ==> u.id != id
    decreases |fs|
  {
    if fs != [] {
      NoHeader(s, fs[..|fs| - 1], crc, id);
    }
  }

  /** After its header a block is not answered before as many frames have come as it takes. */
  lemma {:induction false} NotBefore(s: Receiving, fs: seq<Frame>, crc: seq<octet> -> Quad)
    requires Fits(s) && s.active && s.ptr == 0 && (forall f :: f in fs ==> |f| == 8)
    requires fs != [] ==> 8 * (|fs| - 1) < s.len
    ensures var u := Run(s, fs, crc);
            && (8 * |fs| < s.len ==> u.active && u.cnt == s.len - 8 * |fs| && Answers(s, fs, crc) == [])
            && (fs != [] && 8 * |fs| >= s.len ==> Answers(s, fs[..|fs| - 1], crc) == [])
    decreases |fs|
  {
    if fs != [] {
      NotBefore(s, fs[..|fs| - 1], crc);
    }
  }

  lemma {:induction false} AnswersSplit(s: Receiving, fs: seq<Frame>, gs: seq<Frame>, crc: seq<octet> -> Quad)
    requires Fits(s)
    ensures Answers(s, fs + gs, crc) == Answers(s, fs, crc) + Answers(Run(s, fs, crc), gs, crc)
    decreases |gs|
  {
    hide Step;
    if gs == [] {
      assert fs + gs == fs;
    } else {
      assert (fs + gs)[..|fs + gs| - 1] == fs + gs[..|gs| - 1];
      AnswersSplit(s, fs, gs[..|gs| - 1], crc);
      RunSplit(s, fs, gs, crc);
    }
  }

  /** Whatever was lost on the way: a block whose number is answered has come over completely. */
  lemma AnsweredIsHeld(s: Receiving, block: seq<octet>, id: octet, crc: seq<octet> -> Quad, heard: seq<Frame>)
    requires Fits(s) && (s.active ==> s.id != id) && 0 < |block| <= BLOCK_MAX
    requires Lossy(heard, Frames(block, id, crc))
    ensures id in Answers(s, heard, crc) <==> heard == Frames(block, id, crc)
    ensures id in Answers(s, heard, crc) ==> Run(s, heard, crc).buf[..|block|] == block
  {
    var fs, gs, h := Frames(block, id, crc), DataFrames(block), Header(|block|, crc(block), id);
    assert fs[1..] == gs;
    Delivered(s, block, id, crc, |fs|);
    assert fs[..|fs|] == fs;
    if Lossy(heard, gs) {
      LossyAre(heard, gs);
      NoHeader(s, heard, crc, id);
    } else {
      var ds := heard[1..];
      LossyAre(ds, gs);
      FrameCount(block);
      assert heard == [h] + ds;
      if ds != gs {
        LengthSurvives(|block|, crc(block), id);
        RunOne(s, h, crc);
        AnswersSplit(s, [h], ds, crc);
        NotBefore(Step(s, h, crc).0, ds, crc);
      }
    }
  }

  /** CAN_receiving_packet for one frame after the other. */
  method Hear(receiver: Receiver, fs: seq<Frame>)
    requires receiver.Valid()
    modifies receiver, receiver.rxBlock
    ensures receiver.Valid() && receiver.State() == Run(old(receiver.State()), fs, receiver.crc)
    ensures receiver.acks == old(receiver.acks) + Answers(old(receiver.State()), fs, receiver.crc)
  {
    hide Step, Fits;
    ghost var s := receiver.State();
    for i := 0 to |fs|
      invariant receiver.Valid() && receiver.State() == Run(s, fs[..i], receiver.crc)
      invariant receiver.acks == old(receiver.acks) + Answers(s, fs[..i], receiver.crc)
    {
      assert fs[..i + 1][..i] == fs[..i];
      var success := receiver.ReceivingPacket(Some(fs[i]));
      StepNumber(Run(s, fs[..i], receiver.crc), fs[i], receiver.crc);
    }
    assert fs[..|fs|] == fs;
  }

  lemma StepNumber(s: Receiving, f: Frame, crc: seq<octet> -> Quad)
    requires Fits(s)
    ensures var r := Step(s, f, crc); r.1.Some? ==> r.1.value == r.0.id
  {}

  /**
   * CAN_send_packet and the receiver at the other end, with any frames lost between them. When the polls bring the
   * acknowledgements the receiver sends for these frames, and besides them only stale ones with other numbers, success means
   * that the receiver holds this block; and it is reported exactly if no frame was lost, the acknowledgement arrives, and the
   * block is not one of whole frames.
   */
  method Exchange(sender: Sender, receiver: Receiver, block: seq<octet>, polls: seq<Option<Frame>>, heard: seq<Frame>)
    returns (success: bool)
    requires receiver.Valid() && receiver.crc == sender.crc && 0 < |block| <= BLOCK_MAX && |polls| == MAX_POLLS
    requires receiver.rxActive ==> receiver.rxBlockId != (sender.txPackId + 1) % 0x100
    requires {receiver as object, receiver.rxBlock} !! {sender as object, sender.bus}
    requires Lossy(heard, Frames(block, (sender.txPackId + 1) % 0x100, sender.crc))
    modifies sender`txPackId, sender.bus, receiver, receiver.rxBlock
    ensures var n, id := |old(receiver.acks)|, sender.txPackId;
            var arrives := exists i :: 0 <= i < |polls| && polls[i].Some? && polls[i].value == [id];
            && n <= |receiver.acks|
            && ((arrives ==> id in receiver.acks[n..]) && success ==> receiver.rxBlock[..|block|] == block)
            && ((arrives <==> id in receiver.acks[n..]) && (forall k :: sender.bus.works(k)) ==>
                  (success <==> |block| % 8 != 0 && heard == Frames(block, id, sender.crc)))
  {
    hide Lossy, Frames, Fits;
    ghost var s := receiver.State();
    success := sender.SendPacket(block, polls);
    AnsweredIsHeld(s, block, sender.txPackId, sender.crc, heard);
    Hear(receiver, heard);
    assert receiver.State().buf == receiver.rxBlock[..];
  }

  lemma FewFrames(rest: seq<octet>)
    requires |rest| < 8
    ensures DataFrames(rest) == if rest == [] then [] else [rest + Zeros(8 - |rest|)]
  {}

  lemma {:induction false} FrameCount(block: seq<octet>)
    ensures |DataFrames(block)| == |block| / 8 + if |block| % 8 == 0 then 0 else 1
    decreases |block|
  {
    if |block| >= 8 {
      FrameCount(block[8..]);
    }
  }
}
