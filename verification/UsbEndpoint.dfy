/**
 * usb_dci_kinetis.c: one transfer on an endpoint is carried out as a series of packets through two alternating
 * buffer descriptors.
 */
module UsbEndpoint {
  type octet = n: nat | n < 0x100

  /** The largest count a 16-bit field holds, which also marks a length as not initialised. */
  const UNINITIALISED := 0xFFFF

  /** A packet with its data toggle: false is DATA0, true is DATA1. */
  datatype Packet = Packet(data: seq<octet>, toggle: bool)

  /** A buffer descriptor: byte count, place in the buffer of the application, data toggle, and whether the hardware owns it. */
  datatype Descriptor = Descriptor(cnt: nat, addr: nat, toggle: bool, own: bool)

  // ---- IN transfers ----

  /** A full packet asks for a further one, if the endpoint has the zero termination flag; the length is compared as a byte. */
  predicate AsksForMore(sent: nat, len: nat, flag: bool) {
    sent % 0x100 == len && flag
  }

  /** The packets of a transfer, the first one with the given toggle. */
  function Packets(buf: seq<octet>, len: nat, flag: bool, toggle: bool): (ps: seq<Packet>)
    requires len > 0
    ensures |ps| > 0 && ps[0].toggle == toggle
    decreases |buf|
  {
    if |buf| > len then [Packet(buf[..len], toggle)] + Packets(buf[len..], len, flag, !toggle)
    else if |buf| == len && AsksForMore(len, len, flag) then [Packet(buf, toggle), Packet([], !toggle)]
    else [Packet(buf, toggle)]
  }

  function Payload(ps: seq<Packet>): seq<octet> {
    if ps == [] then [] else ps[0].data + Payload(ps[1..])
  }

  /** Together the packets are the buffer. */
  lemma {:induction false} PayloadIsBuffer(buf: seq<octet>, len: nat, flag: bool, toggle: bool)
    requires len > 0
    ensures Payload(Packets(buf, len, flag, toggle)) == buf
    decreases |buf|
  {
    var ps := Packets(buf, len, flag, toggle);
    if |buf| > len {
      PayloadIsBuffer(buf[len..], len, flag, !toggle);
      assert ps[1..] == Packets(buf[len..], len, flag, !toggle);
      assert buf == buf[..len] + buf[len..];
    } else if |buf| == len && AsksForMore(len, len, flag) {
      assert ps[1..] == [Packet([], !toggle)];
      assert ps[1..][1..] == [];
      assert Payload(ps[1..]) == [];
      assert buf + [] == buf;
    } else {
      assert ps[1..] == [];
    }
  }

  predicate Even(k: nat) { k % 2 == 0 }

  /** The toggles alternate; every packet but the last is full, and no packet is larger than the endpoint. */
  lemma {:induction false} PacketsAlternate(buf: seq<octet>, len: nat, flag: bool, toggle: bool, k: nat)
    requires len > 0 && k < |Packets(buf, len, flag, toggle)|
    ensures var ps := Packets(buf, len, flag, toggle);
            && (ps[k].toggle == if Even(k) then toggle else !toggle)
            && (if k < |ps| - 1 then |ps[k].data| == len else |ps[k].data| <= len)
    decreases |buf|
  {
    if |buf| > len && k > 0 {
      PacketsAlternate(buf[len..], len, flag, !toggle, k - 1);
      assert Even(k) == !Even(k - 1);
    }
  }

  lemma DivStep(n: nat, len: nat)
    requires len > 0 && n >= len
    ensures n / len == (n - len) / len + 1 && n % len == (n - len) % len
  {
    var q, r := (n - len) / len, (n - len) % len;
    assert n == (q + 1) * len + r;
    DivUnique(n, len, q + 1, r);
  }

  lemma DivUnique(n: nat, len: nat, q: nat, r: nat)
    requires len > 0 && n == q * len + r && r < len
    ensures n / len == q && n % len == r
  {
    var q', r' := n / len, n % len;
    assert n == q' * len + r';
    assert (q' - q) * len == r - r' && (q - q') * len == r' - r;
    if q' > q { Grows(q' - q, len); }
    if q > q' { Grows(q - q', len); }
  }

  lemma Grows(d: int, len: nat)
    requires d > 0
    ensures d * len >= len
  {}

  lemma DivSmall(n: nat, len: nat)
    requires n < len
    ensures n / len == 0 && n % len == n
  {}

  /** The number of packets. */
  lemma {:induction false} PacketCount(buf: seq<octet>, len: nat, flag: bool, toggle: bool)
    requires len > 0
    ensures |Packets(buf, len, flag, toggle)| ==
      |buf| / len + if |buf| % len != 0 || |buf| == 0 || AsksForMore(len, len, flag) then 1 else 0
    decreases |buf|
  {
    if |buf| > len {
      DivStep(|buf|, len);
      PacketCount(buf[len..], len, flag, toggle);
      PacketCount(buf[len..], len, flag, !toggle);
    } else if |buf| == len {
      DivStep(|buf|, len);
    }
  }

  /**
   * With zero termination a transfer takes exactly the packets a host expects, one more than the full ones, unless the
   * endpoint is larger than a byte can count and the data fill its packets.
   */
  lemma TerminatedCount(buf: seq<octet>, len: nat, toggle: bool)
    requires len > 0
    ensures |Packets(buf, len, true, toggle)| == |buf| / len + 1 <==> len < 0x100 || |buf| % len != 0 || |buf| == 0
  {
    PacketCount(buf, len, true, toggle);
  }

  /** The host can tell the end by a short packet under the same condition. */
  lemma EndsShort(buf: seq<octet>, len: nat, toggle: bool)
    requires len > 0
    ensures var ps := Packets(buf, len, true, toggle);
            |ps[|ps| - 1].data| < len <==> len < 0x100 || |buf| % len != 0 || |buf| == 0
  {
    LastPacket(buf, len, toggle);
  }

  lemma {:induction false} LastPacket(buf: seq<octet>, len: nat, toggle: bool)
    requires len > 0
    ensures var ps := Packets(buf, len, true, toggle);
            |ps[|ps| - 1].data| == if |buf| % len != 0 || |buf| == 0 || len < 0x100 then |buf| % len else len
    decreases |buf|
  {
    var ps := Packets(buf, len, true, toggle);
    if |buf| > len {
      DivStep(|buf|, len);
      LastPacket(buf[len..], len, !toggle);
      assert ps[|ps| - 1] == Packets(buf[len..], len, true, !toggle)[|ps| - 2];
    } else if |buf| == len {
      DivStep(|buf|, len);
      DivSmall(0, len);
    } else {
      DivSmall(|buf|, len);
    }
  }

  /** The sending direction of an endpoint, with the two descriptors it alternates between. */
  class InEndpoint {
    const len: nat
    const flag: bool
    const epCbl: array<Descriptor>
    /** The descriptor the driver and the one the hardware uses next. */
    var epCblIndx: nat
    var hardware: nat
    var appBuffer: seq<octet>
    var currOffset: nat

    ghost predicate Valid()
      reads this, epCbl
    {
      && 0 < len < UNINITIALISED && epCbl.Length == 2 && epCblIndx < 2 && hardware == epCblIndx
      && !epCbl[1 - epCblIndx].own && |appBuffer| <= UNINITIALISED
      && (epCbl[epCblIndx].own ==> Armed(appBuffer, currOffset, epCbl[epCblIndx], len))
    }

    /** The next toggle. */
    ghost function Toggle(): bool
      requires Valid()
      reads this, epCbl
    {
      epCbl[epCblIndx].toggle
    }

    /** The packets still to be sent. */
    ghost function Pending(): seq<Packet>
      requires Valid()
      reads this, epCbl
    {
      if epCbl[epCblIndx].own then Rest(appBuffer, currOffset, epCbl[epCblIndx], len, flag) else []
    }

    constructor (len: nat, flag: bool)
      requires 0 < len < UNINITIALISED
      ensures Valid() && fresh(epCbl) && this.len == len && this.flag == flag && Pending() == [] && !Toggle()
    {
      this.len, this.flag := len, flag;
      epCbl := new Descriptor[2](_ => Descriptor(0, 0, false, false));
      epCblIndx, hardware, appBuffer, currOffset := 0, 0, [], 0;
    }

    /** USB_DCI_Prepare_Send_Data for a descriptor; the caller hands it over to the hardware. */
    method PrepareSendData(i: nat)
      requires epCbl.Length == 2 && i < 2 && currOffset <= |appBuffer|
      modifies epCbl
      ensures epCbl[1 - i] == old(epCbl[1 - i])
      ensures epCbl[i] == old(epCbl[i]).(cnt := Least(len, |appBuffer| - currOffset), addr := currOffset)
    {
      var current := if |appBuffer| - currOffset > len then len else |appBuffer| - currOffset;
      epCbl[i] := epCbl[i].(cnt := current, addr := currOffset);
    }

    /** USB_DCI_Send_Data; whether the endpoint is stalled is read from the hardware. */
    method SendData(buf: seq<octet>, stalled: bool) returns (ok: bool)
      requires Valid() && |buf| <= UNINITIALISED
      modifies this`appBuffer, this`currOffset, epCbl
      ensures Valid()
      ensures ok <==> old(Pending()) == [] && !stalled
      ensures ok ==> Pending() == Packets(buf, len, flag, old(Toggle())) && appBuffer == buf
      ensures !ok ==> Pending() == old(Pending()) && Toggle() == old(Toggle())
    {
      PendingPositive();
      if epCbl[epCblIndx].own || stalled { return false; }
      appBuffer := buf;
      currOffset := 0;
      PrepareSendData(epCblIndx);
      epCbl[epCblIndx] := epCbl[epCblIndx].(own := true);
      assert buf[0..] == buf;
      return true;
    }

    lemma PendingPositive()
      requires Valid()
      ensures Pending() == [] <==> !epCbl[epCblIndx].own
    {}

    /**
     * The hardware sends what the descriptor holds and gives it back, and USB_Packet_RXTX_Handler goes on with the
     * transfer or reports its end.
     */
    method TokenDone() returns (p: Packet, finished: bool, reported: nat)
      requires Valid() && Pending() != []
      modifies this`epCblIndx, this`hardware, this`currOffset, epCbl
      ensures Valid()
      ensures old(Pending()) == [p] + Pending() && Toggle() == !p.toggle
      ensures finished <==> Pending() == []
      ensures reported == if finished then |appBuffer| else 0
    {
      PendingPositive();
      var i := hardware;
      ghost var d := epCbl[i];
      p := Packet(appBuffer[epCbl[i].addr..epCbl[i].addr + epCbl[i].cnt], epCbl[i].toggle);
      RestStep(appBuffer, currOffset, d, len, flag);
      epCbl[i] := epCbl[i].(own := false);
      hardware := 1 - hardware;

      epCblIndx := 1 - epCblIndx;
      epCbl[1 - i] := epCbl[1 - i].(toggle := !epCbl[i].toggle, own := false);
      currOffset := currOffset + epCbl[i].cnt;
      if |appBuffer| > currOffset || AsksForMore(epCbl[i].cnt, len, flag) {
        PrepareSendData(1 - i);
        epCbl[1 - i] := epCbl[1 - i].(own := true);
        return p, false, 0;
      }
      return p, true, currOffset;
    }
  }

  lemma Regroup(ps: seq<Packet>, p: Packet, rest: seq<Packet>)
    ensures ps + ([p] + rest) == ps + [p] + rest
  {}

  /** A whole transfer, driven by the completions the hardware reports. */
  method Transfer(ep: InEndpoint, buf: seq<octet>, stalled: bool) returns (ok: bool, packets: seq<Packet>)
    requires ep.Valid() && |buf| <= UNINITIALISED
    modifies ep, ep.epCbl
    ensures ep.Valid() && (ok <==> old(ep.Pending()) == [] && !stalled)
    ensures ok ==> packets == Packets(buf, ep.len, ep.flag, old(ep.Toggle())) && ep.Pending() == []
    ensures ok ==> ep.Toggle() == !packets[|packets| - 1].toggle
  {
    hide InEndpoint.Pending, InEndpoint.Valid, InEndpoint.Toggle, Packets;
    packets := [];
    ok := ep.SendData(buf, stalled);
    if ok {
      ghost var all := ep.Pending();
      var finished := false;
      while !finished
        invariant ep.Valid() && packets + ep.Pending() == all && (finished <==> ep.Pending() == [])
        invariant packets != [] ==> ep.Toggle() == !packets[|packets| - 1].toggle
        decreases |ep.Pending()|
      {
        var p, last, _ := ep.TokenDone();
        Regroup(packets, p, ep.Pending());
        finished := last;
        packets := packets + [p];
      }
    }
  }

  function Least(a: nat, b: nat): nat {
    if a <= b then a else b
  }

  /** The descriptor holds the next packet of the buffer. */
  predicate Armed(buf: seq<octet>, offset: nat, d: Descriptor, len: nat) {
    offset <= |buf| && d.addr == offset && d.cnt == Least(len, |buf| - offset)
  }

  /** The packets from an armed descriptor on; at the end of the buffer it is the empty one. */
  ghost function Rest(buf: seq<octet>, offset: nat, d: Descriptor, len: nat, flag: bool): (ps: seq<Packet>)
    requires len > 0 && Armed(buf, offset, d, len)
    ensures |ps| > 0 && ps[0].toggle == d.toggle
  {
    Packets(buf[offset..], len, flag, d.toggle)
  }

  lemma ByteOf(n: nat, len: nat)
    requires n <= len
    ensures n % 0x100 == len ==> n == len
  {}

  lemma RestStep(buf: seq<octet>, offset: nat, d: Descriptor, len: nat, flag: bool)
    requires len > 0 && Armed(buf, offset, d, len)
    ensures var p := Packet(buf[offset..offset + d.cnt], d.toggle);
            var e := Descriptor(Least(len, |buf| - offset - d.cnt), offset + d.cnt, !d.toggle, true);
            Rest(buf, offset, d, len, flag) ==
              [p] + if |buf| > offset + d.cnt || AsksForMore(d.cnt, len, flag) then Rest(buf, offset + d.cnt, e, len, flag) else []
  {
    var rest := buf[offset..];
    assert rest[..d.cnt] == buf[offset..offset + d.cnt];
    assert rest[..|rest|] == rest;
    ByteOf(d.cnt, len);
    assert rest[d.cnt..] == buf[offset + d.cnt..];
  }

  // ---- OUT transfers ----

  /** Whether a further packet is awaited after one of the given size that has brought the transfer to the given offset. */
  predicate Continues(n: nat, len: nat, flag: bool, offset: nat, size: nat)
    requires len > 0
  {
    (size == len && n > offset) || (n > 0 && n % len == 0 && flag)
  }

  /** No packet is larger than what is left, nor than the endpoint. */
  predicate Conforming(n: nat, len: nat, offset: nat, sizes: seq<nat>)
    decreases |sizes|
  {
    sizes == [] || (offset <= n && sizes[0] <= Least(len, n - offset) && Conforming(n, len, offset + sizes[0], sizes[1..]))
  }

  /** The number of packets after which the transfer is reported as complete; one more than there are if it is not. */
  function PacketsUsed(n: nat, len: nat, flag: bool, offset: nat, sizes: seq<nat>): (k: nat)
    requires len > 0
    ensures 0 < k <= |sizes| + 1
    decreases |sizes|
  {
    if sizes == [] then 1
    else if !Continues(n, len, flag, offset + sizes[0], sizes[0]) then 1
    else 1 + PacketsUsed(n, len, flag, offset + sizes[0], sizes[1..])
  }

  predicate Completes(n: nat, len: nat, flag: bool, sizes: seq<nat>)
    requires len > 0
  {
    PacketsUsed(n, len, flag, 0, sizes) <= |sizes|
  }

  /** A positive multiple of the packet size, under the zero termination flag. */
  predicate Starved(n: nat, len: nat, flag: bool)
    requires len > 0
  {
    n > 0 && n % len == 0 && flag
  }

  lemma {:induction false} StarvedNeverCompletes(n: nat, len: nat, flag: bool, offset: nat, sizes: seq<nat>)
    requires len > 0 && Starved(n, len, flag)
    ensures PacketsUsed(n, len, flag, offset, sizes) == |sizes| + 1
    decreases |sizes|
  {
    if sizes != [] {
      StarvedNeverCompletes(n, len, flag, offset + sizes[0], sizes[1..]);
    }
  }

  lemma {:induction false} EnoughPackets(n: nat, len: nat, flag: bool, offset: nat, sizes: seq<nat>)
    requires len > 0 && !Starved(n, len, flag) && offset <= n && Conforming(n, len, offset, sizes)
    requires |sizes| > (n - offset) / len
    ensures PacketsUsed(n, len, flag, offset, sizes) <= (n - offset) / len + 1
    decreases |sizes|
  {
    DivNonNegative(n - offset, len);
    var s := sizes[0];
    if Continues(n, len, flag, offset + s, s) {
      DivStep(n - offset, len);
      EnoughPackets(n, len, flag, offset + len, sizes[1..]);
    }
  }

  lemma DivNonNegative(n: nat, len: nat)
    requires len > 0
    ensures n / len >= 0
  {}

  function Silence(k: nat): (s: seq<nat>)
    ensures |s| == k
  {
    seq(k, _ => 0)
  }

  lemma {:induction false} SilenceConforms(n: nat, len: nat, k: nat)
    ensures Conforming(n, len, 0, Silence(k))
    decreases k
  {
    if k > 0 {
      assert Silence(k)[1..] == Silence(k - 1);
      SilenceConforms(n, len, k - 1);
    }
  }

  /**
   * A transfer completes, whatever conforming packets arrive once there are more of them than full ones fit, exactly
   * if its size is not a positive multiple of the packet size on an endpoint with zero termination.
   */
  lemma CompletesIff(n: nat, len: nat, flag: bool)
    requires len > 0
    ensures (forall sizes :: Conforming(n, len, 0, sizes) && |sizes| > n / len ==> Completes(n, len, flag, sizes)) <==> !Starved(n, len, flag)
  {
    DivNonNegative(n, len);
    if Starved(n, len, flag) {
      var sizes := Silence(n / len + 1);
      SilenceConforms(n, len, n / len + 1);
      StarvedNeverCompletes(n, len, flag, 0, sizes);
      assert Conforming(n, len, 0, sizes) && |sizes| > n / len && !Completes(n, len, flag, sizes);
    } else {
      forall sizes | Conforming(n, len, 0, sizes) && |sizes| > n / len
        ensures Completes(n, len, flag, sizes)
      {
        EnoughPackets(n, len, flag, 0, sizes);
      }
    }
  }

  /** On endpoints of 64 bytes a block of 63 completes with its first packet, whatever its size; one of 64 never does. */
  lemma SixtyThree(sizes: seq<nat>)
    ensures Conforming(63, 64, 0, sizes) && sizes != [] ==> PacketsUsed(63, 64, true, 0, sizes) == 1
    ensures !Completes(64, 64, true, sizes)
  {
    StarvedNeverCompletes(64, 64, true, 0, sizes);
    if Conforming(63, 64, 0, sizes) && sizes != [] {
      EnoughPackets(63, 64, true, 0, sizes);
    }
  }

  /** The receiving direction of an endpoint other than the control endpoint. */
  class OutEndpoint {
    const len: nat
    const flag: bool
    const epCbl: array<Descriptor>
    var epCblIndx: nat
    var hardware: nat
    var appBuffer: array<octet>
    var appLen: nat
    var currOffset: nat

    /** A transfer is under way, its next packet is awaited. */
    ghost predicate Receiving()
      reads this, epCbl
    {
      && 0 < len < UNINITIALISED && epCbl.Length == 2 && epCblIndx < 2 && hardware == epCblIndx
      && 0 < appLen < UNINITIALISED && currOffset <= appLen <= appBuffer.Length
      && epCbl[epCblIndx].own && !epCbl[1 - epCblIndx].own
      && epCbl[epCblIndx].cnt == Least(len, appLen - currOffset)
      && (currOffset < appLen ==> epCbl[epCblIndx].addr == currOffset)
    }

    ghost predicate Idle()
      reads this, epCbl
    {
      && 0 < len < UNINITIALISED && epCbl.Length == 2 && epCblIndx < 2 && hardware == epCblIndx
      && !epCbl[epCblIndx].own && !epCbl[1 - epCblIndx].own
    }

    constructor (len: nat, flag: bool)
      requires 0 < len < UNINITIALISED
      ensures Idle() && fresh(epCbl) && this.len == len && this.flag == flag
    {
      this.len, this.flag := len, flag;
      epCbl := new Descriptor[2](_ => Descriptor(0, 0, false, false));
      epCblIndx, hardware, appLen, currOffset := 0, 0, UNINITIALISED, 0;
      appBuffer := new octet[0];
    }

    /** USB_DCI_Recv_Data for a buffer that is not empty. */
    method RecvData(buf: array<octet>, size: nat) returns (ok: bool)
      requires Idle() && 0 < size < UNINITIALISED && size <= buf.Length
      modifies this, epCbl
      ensures ok && Receiving() && appLen == size && appBuffer == buf && currOffset == 0
      ensures epCbl[epCblIndx].toggle == old(epCbl[epCblIndx].toggle) && epCblIndx == old(epCblIndx)
    {
      if epCbl[1 - epCblIndx].own { return false; }
      appLen, appBuffer, currOffset := size, buf, 0;
      var count := if size > len then len else size;
      epCbl[epCblIndx] := Descriptor(count, 0, epCbl[epCblIndx].toggle, true);
      return true;
    }

    /** The hardware stores a packet and gives the descriptor back; USB_Packet_RXTX_Handler awaits the next or reports. */
    method TokenDone(data: seq<octet>) returns (finished: bool, reported: nat)
      requires Receiving() && |data| <= epCbl[epCblIndx].cnt
      modifies this, epCbl, appBuffer
      ensures appBuffer == old(appBuffer) && epCbl.Length == 2 && epCblIndx == 1 - old(epCblIndx)
      ensures finished <==> !Continues(old(appLen), len, flag, old(currOffset) + |data|, |data|)
      ensures !finished ==> reported == 0 && Receiving() && appLen == old(appLen) && currOffset == old(currOffset) + |data|
      ensures !finished ==> epCbl[epCblIndx].toggle == !old(epCbl[epCblIndx].toggle)
      ensures finished ==> Idle() && reported == old(currOffset) + |data| && appLen == UNINITIALISED
      ensures old(currOffset) + |data| <= appBuffer.Length
      ensures appBuffer[..old(currOffset) + |data|] == old(appBuffer[..currOffset]) + data
    {
      var i := hardware;
      Store(epCbl[i].addr, data);
      Turn(|data|);
      var size := epCbl[i].cnt;
      currOffset := currOffset + size;
      if (size == len && appLen > currOffset) || (appLen != 0 && appLen % len == 0 && flag) {
        var cnt := if appLen - currOffset > len then len else appLen - currOffset;
        if cnt == 0 {
          epCbl[1 - i] := epCbl[1 - i].(cnt := 0, own := true);
        } else {
          epCbl[1 - i] := epCbl[1 - i].(addr := currOffset, cnt := cnt, own := true);
        }
        return false, 0;
      }
      appLen := UNINITIALISED;
      return true, currOffset;
    }

    /** The descriptor comes back with the count received, and driver and hardware turn to the other one. */
    method Turn(received: nat)
      requires epCbl.Length == 2 && epCblIndx < 2 && hardware == epCblIndx
      modifies this`epCblIndx, this`hardware, epCbl
      ensures epCblIndx == hardware == 1 - old(epCblIndx)
      ensures epCbl[1 - epCblIndx] == old(epCbl[epCblIndx]).(cnt := received, own := false)
      ensures epCbl[epCblIndx] == old(epCbl[1 - epCblIndx]).(toggle := !old(epCbl[epCblIndx].toggle), own := false)
    {
      var i := hardware;
      epCbl[i] := epCbl[i].(cnt := received, own := false);
      hardware := 1 - hardware;
      epCblIndx := 1 - epCblIndx;
      epCbl[1 - i] := epCbl[1 - i].(toggle := !epCbl[i].toggle, own := false);
    }

    /** The hardware writes a packet; an empty one leaves memory alone. */
    method Store(addr: nat, data: seq<octet>)
      requires data == [] || addr + |data| <= appBuffer.Length
      modifies appBuffer
      ensures forall k :: 0 <= k < appBuffer.Length ==> appBuffer[k] == if addr <= k < addr + |data| then data[k - addr] else old(appBuffer[k])
    {
      for j := 0 to |data|
        invariant forall k :: 0 <= k < appBuffer.Length ==> appBuffer[k] == if addr <= k < addr + j then data[k - addr] else old(appBuffer[k])
      {
        appBuffer[addr + j] := data[j];
      }
    }
  }

  function Sizes(packets: seq<seq<octet>>): (s: seq<nat>)
    ensures |s| == |packets|
    decreases |packets|
  {
    if packets == [] then [] else [|packets[0]|] + Sizes(packets[1..])
  }

  function Joined(packets: seq<seq<octet>>): seq<octet>
    decreases |packets|
  {
    if packets == [] then [] else packets[0] + Joined(packets[1..])
  }

  /** A transfer with the packets of a host: it is reported exactly if it completes, and then the buffer holds what was sent. */
  method Reception(ep: OutEndpoint, buf: array<octet>, n: nat, packets: seq<seq<octet>>) returns (complete: bool, used: nat)
    requires ep.Idle() && 0 < n < UNINITIALISED && n <= buf.Length
    requires Conforming(n, ep.len, 0, Sizes(packets))
    modifies ep, ep.epCbl, buf
    ensures complete <==> Completes(n, ep.len, ep.flag, Sizes(packets))
    ensures used <= |packets| && |Joined(packets[..used])| <= n && buf[..|Joined(packets[..used])|] == Joined(packets[..used])
    ensures if complete then used == PacketsUsed(n, ep.len, ep.flag, 0, Sizes(packets)) && ep.Idle() else used == |packets|
  {
    hide Joined, Sizes, Conforming, PacketsUsed, Continues;
    var _ := ep.RecvData(buf, n);
    used := 0;
    JoinedNone(packets);
    NoneLeft(n, ep.len, ep.flag);
    while used < |packets|
      invariant used <= |packets| && ep.Receiving() && ep.appBuffer == buf && ep.appLen == n
      invariant ep.currOffset == |Joined(packets[..used])| && buf[..ep.currOffset] == Joined(packets[..used])
      invariant Conforming(n, ep.len, ep.currOffset, Sizes(packets[used..]))
      invariant PacketsUsed(n, ep.len, ep.flag, 0, Sizes(packets)) == used + PacketsUsed(n, ep.len, ep.flag, ep.currOffset, Sizes(packets[used..]))
    {
      NextPacket(packets, used);
      NextSize(n, ep.len, ep.flag, ep.currOffset, |packets[used]|, Sizes(packets[used + 1..]));
      var done, _ := ep.TokenDone(packets[used]);
      used := used + 1;
      if done { return true, used; }
    }
    complete := false;
  }

  lemma JoinedNone(packets: seq<seq<octet>>)
    ensures Joined(packets[..0]) == [] && packets[0..] == packets && packets[..|packets|] == packets
    ensures Sizes(packets[|packets|..]) == []
  {}

  lemma NoneLeft(n: nat, len: nat, flag: bool)
    requires len > 0
    ensures forall offset :: PacketsUsed(n, len, flag, offset, []) == 1
  {}

  lemma NextSize(n: nat, len: nat, flag: bool, offset: nat, size: nat, rest: seq<nat>)
    requires len > 0 && Conforming(n, len, offset, [size] + rest)
    ensures offset <= n && size <= Least(len, n - offset) && Conforming(n, len, offset + size, rest)
    ensures PacketsUsed(n, len, flag, offset, [size] + rest) ==
      if Continues(n, len, flag, offset + size, size) then 1 + PacketsUsed(n, len, flag, offset + size, rest) else 1
  {
    assert ([size] + rest)[1..] == rest;
  }

  lemma NextPacket(packets: seq<seq<octet>>, k: nat)
    requires k < |packets|
    ensures Joined(packets[..k + 1]) == Joined(packets[..k]) + packets[k]
    ensures Sizes(packets[k..]) == [|packets[k]|] + Sizes(packets[k + 1..])
  {
    assert packets[k..][1..] == packets[k + 1..];
    JoinedSnoc(packets[..k], packets[k]);
    assert packets[..k + 1] == packets[..k] + [packets[k]];
  }

  lemma {:induction false} JoinedSnoc(ps: seq<seq<octet>>, p: seq<octet>)
    ensures Joined(ps + [p]) == Joined(ps) + p
    decreases |ps|
  {
    if ps == [] {
      assert [p][1..] == [];
    } else {
      assert (ps + [p])[1..] == ps[1..] + [p];
      JoinedSnoc(ps[1..], p);
    }
  }
}
