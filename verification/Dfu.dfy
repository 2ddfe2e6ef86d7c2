/**
 * usb_dfu.c: the state machine of USB DFU 1.1 (appendix A) with the buffer in which a download is collected, and
 * the step in USB_task.c that flashes it.
 */
module Dfu {
  import opened Words

  type octet = n: nat | n < 0x100

  /** DFU_MAX_BLOCK_SIZE, DFU_RECV_BUFFER_LENGTH and FIRMWARE_SIZE */
  const MAX_BLOCK := 63
  const CAPACITY := 2520
  const FIRMWARE_SIZE := 0x1_0001

  const HALF := 0x1_0000
  const WORD := 0x1_0000_0000

  datatype Phase = AppIdle | AppDetach | Idle | DnloadSync | Dnbusy | DnloadIdle | ManifestSync | Manifest
                 | ManifestWaitReset | UploadIdle | Error

  datatype Status = Ok | InvalidRequest

  /** The class requests, with the block number and what else they carry; the interface is a known one or not. */
  datatype Request = Detach | Dnload(block: nat, data: seq<octet>) | Upload(block: nat, length: nat)
                   | GetStatus(known: bool) | ClrStatus | GetState(known: bool) | Abort

  /** What goes back to the host. */
  datatype Reply = Nothing | StatusOf(phase: Phase) | StateOf(phase: Phase) | Block(data: seq<octet>)

  function Least(a: nat, b: nat): nat {
    if a <= b then a else b
  }

  /** The phases between a block and its acknowledgement. */
  predicate Downloading(p: Phase) {
    p == DnloadSync || p == Dnbusy || p == DnloadIdle
  }

  class Device {
    var state: Phase
    var blockFlashingDone: bool
    var flashManifestDone: bool
    const recvBuff: array<octet>
    var buffIndx: nat
    var buffReady: bool
    var dataSize: nat
    var firmwareSize: nat
    var bytesWritten: nat
    /** What has been flashed, each time with its distance from the start of the image. */
    var flashed: seq<(nat, seq<octet>)>
    var addr: nat
    /** The flash from the start of the image on. */
    const image: nat -> octet

    /** The bytes of all blocks accepted since block 0. */
    ghost var since: seq<octet>
    /** The blocks accepted so far, and how many of them there were when the flashing step last ran. */
    ghost var blocks: nat
    ghost var served: nat

    ghost predicate Valid()
      reads this, recvBuff
    {
      && recvBuff.Length == CAPACITY && addr < WORD && firmwareSize < WORD && bytesWritten == Total(flashed)
      // The buffer collects the blocks, as far as it goes.
      && buffIndx == Least(|since|, CAPACITY) && recvBuff[..buffIndx] == since[..buffIndx]
      && (buffReady ==> dataSize <= CAPACITY)
      // In dfuDNLOAD-IDLE the flashing step of the last block has run and nothing is pending.
      && (Downloading(state) && blockFlashingDone ==> !buffReady && served == blocks && buffIndx < CAPACITY)
      && (state == DnloadIdle ==> blockFlashingDone)
      && (Downloading(state) && !blockFlashingDone && buffIndx == CAPACITY ==> buffReady)
      // What manifestation will flash is the whole download.
      && ((state == ManifestSync || state == Manifest) && buffReady ==> dataSize == buffIndx == |since|)
    }

    constructor (image: nat -> octet)
      ensures Valid() && fresh(recvBuff) && Snap() == Snapshot(AppIdle, Flags(false, false, false, 0, 0), [], [], 0, 0)
    {
      this.image := image;
      recvBuff := new octet[CAPACITY](_ => 0);
      state, blockFlashingDone, flashManifestDone := AppIdle, false, false;
      buffIndx, buffReady, dataSize, firmwareSize, bytesWritten, flashed, addr := 0, false, 0, 0, 0, [], 0;
      since, blocks, served := [], 0, 0;
    }

    /** Collects the bytes of a block as long as there is room. */
    method Collect(data: seq<octet>)
      requires recvBuff.Length == CAPACITY
      requires buffIndx == Least(|since|, CAPACITY) && recvBuff[..buffIndx] == since[..buffIndx]
      modifies this`buffIndx, this`since, recvBuff
      ensures since == old(since) + data
      ensures buffIndx == Least(|since|, CAPACITY) && recvBuff[..buffIndx] == since[..buffIndx]
    {
      for i := 0 to |data|
        invariant since == old(since) && buffIndx == Least(|old(since) + data[..i]|, CAPACITY)
        invariant recvBuff[..buffIndx] == (old(since) + data[..i])[..buffIndx]
      {
        assert data[..i + 1] == data[..i] + [data[i]];
        if buffIndx < CAPACITY {
          recvBuff[buffIndx] := data[i];
          buffIndx := buffIndx + 1;
        }
      }
      assert data[..|data|] == data;
      since := since + data;
    }

    /** USB_Class_DFU_receive_block */
    method ReceiveBlock(block: nat, data: seq<octet>) returns (status: Status)
      requires recvBuff.Length == CAPACITY && firmwareSize < WORD
      requires buffIndx == Least(|since|, CAPACITY) && recvBuff[..buffIndx] == since[..buffIndx]
      modifies this`buffIndx, this`since, this`buffReady, this`dataSize, this`firmwareSize, this`flashManifestDone, recvBuff
      ensures buffIndx == Least(|since|, CAPACITY) && recvBuff[..buffIndx] == since[..buffIndx] && firmwareSize < WORD
      ensures status == if data != [] && block * MAX_BLOCK > FIRMWARE_SIZE then InvalidRequest else Ok
      ensures since == if status != Ok then old(since) else if data != [] && block == 0 then data else old(since) + data
      ensures status == Ok && (buffIndx == CAPACITY || data == []) ==> buffReady && dataSize == buffIndx
      ensures status != Ok || !(buffIndx == CAPACITY || data == []) ==> buffReady == old(buffReady) && dataSize == old(dataSize)
      ensures flashManifestDone == (old(flashManifestDone) && !(status == Ok && data != [] && block == 0))
    {
      if data != [] {
        if block * MAX_BLOCK > FIRMWARE_SIZE { return InvalidRequest; }
        if block == 0 {
          flashManifestDone := false;
          firmwareSize := 0;
          buffIndx := 0;
          since := [];
        }
        Collect(data);
      } else {
        assert since + data == since;
      }
      if buffIndx == CAPACITY || data == [] {
        buffReady := true;
        dataSize := buffIndx;
      }
      firmwareSize := (firmwareSize + |data|) % WORD;
      return Ok;
    }

    /** USB_Class_DFU_transmit_block; the host keeps to the block size the device announces. */
    method TransmitBlock(block: nat, length: nat) returns (data: seq<octet>)
      requires length <= MAX_BLOCK && addr < WORD && firmwareSize < WORD
      modifies this`addr, this`firmwareSize
      ensures |data| <= length
      ensures firmwareSize < WORD && addr < WORD
      ensures data == Part(image, if block == 0 then 0 else old(addr), Granted(firmwareSize, if block == 0 then 0 else old(addr), length))
      ensures firmwareSize == if block == 0 then FIRMWARE_SIZE else old(firmwareSize)
      ensures addr == ((if block == 0 then 0 else old(addr)) + length) % WORD
    {
      if block == 0 {
        addr := 0;
        firmwareSize := FIRMWARE_SIZE;
      }
      var size := if (firmwareSize - addr) % WORD >= length then length else (firmwareSize - addr) % WORD % HALF;
      data := [];
      for i := 0 to size
        invariant data == Part(image, addr, i)
      {
        data := data + [image(addr + i)];
      }
      addr := (addr + length) % WORD;
    }

    /** USB_Class_DFU_Getstatus and USB_Class_DFU_Getstate */
    method Get(known: bool, answer: Reply) returns (status: Status, reply: Reply)
      ensures if known then status == Ok && reply == answer else status == InvalidRequest && reply == Nothing
    {
      if known { return Ok, answer; }
      return InvalidRequest, Nothing;
    }

    /** What is pending, and how much has been flashed. */
    ghost function Pending(): Flags
      reads this
    {
      Flags(blockFlashingDone, flashManifestDone, buffReady, dataSize, bytesWritten)
    }

    /** A block arrives in a phase that takes one. */
    method TakeBlock(block: nat, data: seq<octet>) returns (status: Status)
      requires Valid() && data != []
      modifies this, recvBuff
      ensures Valid() && flashed == old(flashed)
      ensures Pending() == FlagsAfter(old(Pending()), Dnload(block, data), status, |since|)
      ensures status == if block * MAX_BLOCK > FIRMWARE_SIZE then InvalidRequest else Ok
      ensures state == (if status == Ok then DnloadSync else Error) && addr == old(addr)
      ensures since == if status != Ok then old(since) else if block == 0 then data else old(since) + data
      ensures status == Ok ==> blocks == old(blocks) + 1 && !blockFlashingDone
    {
      state := DnloadSync;
      blockFlashingDone := false;
      status := ReceiveBlock(block, data);
      if status != Ok {
        state := Error;
      } else {
        blocks := blocks + 1;
      }
    }

    /** The first request of an upload. */
    method StartUpload(r: Request) returns (reply: Reply)
      requires Valid() && state == Idle && r.Upload? && Announced(r)
      modifies this`state, this`addr, this`firmwareSize
      ensures Valid() && state == After(Idle, r, blockFlashingDone, flashManifestDone, Ok, reply)
      ensures Uploaded(image, r, Idle, old(addr), old(firmwareSize), reply, addr, firmwareSize)
      ensures reply.Block? && |reply.data| <= r.length
    {
      hide Part, Granted;
      var data := TransmitBlock(r.block % 0x100, r.length);
      reply := Block(data);
      state := if |data| < r.length then Idle else UploadIdle;
    }

    method IdleState(r: Request) returns (status: Status, reply: Reply)
      requires Valid() && state == Idle && Announced(r)
      modifies this, recvBuff
      ensures Valid() && Answered(r, status, reply, old(state), old(blockFlashingDone), old(flashManifestDone), state)
      ensures Taken(r, status, old(state), old(since), since) && flashed == old(flashed)
      ensures Pending() == if Loads(r, old(state)) then FlagsAfter(old(Pending()), r, status, |since|) else old(Pending())
      ensures Loads(r, old(state)) ==> status == if r.data != [] && r.block * MAX_BLOCK > FIRMWARE_SIZE then InvalidRequest else Ok
      ensures r.Upload? ==> Uploaded(image, r, Idle, old(addr), old(firmwareSize), reply, addr, firmwareSize)
      ensures !r.Upload? ==> addr == old(addr) && (r.Dnload? || firmwareSize == old(firmwareSize))
    {
      hide Uploaded, FlagsAfter;
      status, reply := Ok, Nothing;
      match r
      case Dnload(block, data) =>
        if data != [] {
          status := TakeBlock(block, data);
        } else {
          status := InvalidRequest;
          state := Error;
        }
      case Upload(_, _) => reply := StartUpload(r);
      case Abort =>
      case GetStatus(known) => status, reply := Get(known, StatusOf(state));
      case GetState(known) => status, reply := Get(known, StateOf(state));
      case _ =>
        status := InvalidRequest;
        state := Error;
    }

    method DnloadSyncState(r: Request) returns (status: Status, reply: Reply)
      requires Valid() && state == DnloadSync
      modifies this`state
      ensures Valid() && Answered(r, status, reply, old(state), blockFlashingDone, flashManifestDone, state)
    {
      match r
      case GetStatus(known) =>
        state := if blockFlashingDone then DnloadIdle else Dnbusy;
        status, reply := Get(known, StatusOf(state));
      case GetState(known) => status, reply := Get(known, StateOf(state));
      case _ =>
        status, reply := InvalidRequest, Nothing;
        state := Error;
    }

    method DnloadIdleState(r: Request) returns (status: Status, reply: Reply)
      requires Valid() && state == DnloadIdle
      modifies this, recvBuff
      ensures Valid() && Answered(r, status, reply, old(state), old(blockFlashingDone), old(flashManifestDone), state)
      ensures Taken(r, status, old(state), old(since), since) && flashed == old(flashed)
      ensures Pending() == if Loads(r, old(state)) then FlagsAfter(old(Pending()), r, status, |since|) else old(Pending())
      ensures Loads(r, old(state)) ==> status == if r.data != [] && r.block * MAX_BLOCK > FIRMWARE_SIZE then InvalidRequest else Ok
      ensures addr == old(addr) && (r.Dnload? || firmwareSize == old(firmwareSize))
    {
      status, reply := Ok, Nothing;
      match r
      case Dnload(block, data) =>
        if data != [] {
          status := TakeBlock(block, data);
        } else {
          state := ManifestSync;
          status := ReceiveBlock(block, data);
          assert old(since) + [] == old(since);
        }
      case Abort => state := Idle;
      case GetStatus(known) => status, reply := Get(known, StatusOf(state));
      case GetState(known) => status, reply := Get(known, StateOf(state));
      case _ =>
        status := InvalidRequest;
        state := Error;
    }

    method ManifestSyncState(r: Request) returns (status: Status, reply: Reply)
      requires Valid() && state == ManifestSync
      modifies this`state
      ensures Valid() && Answered(r, status, reply, old(state), blockFlashingDone, flashManifestDone, state)
    {
      match r
      case GetStatus(known) =>
        state := if flashManifestDone then Idle else Manifest;
        status, reply := Get(known, StatusOf(state));
      case GetState(known) => status, reply := Get(known, StateOf(state));
      case _ =>
        status, reply := InvalidRequest, Nothing;
        state := Error;
    }

    /** A further request of an upload. */
    method NextUpload(r: Request) returns (reply: Reply)
      requires Valid() && (state == UploadIdle || state == Dnbusy) && r.Upload? && Announced(r)
      modifies this`state, this`addr, this`firmwareSize
      ensures Valid() && state == After(old(state), r, blockFlashingDone, flashManifestDone, Ok, reply)
      ensures Uploaded(image, r, old(state), old(addr), old(firmwareSize), reply, addr, firmwareSize)
      ensures reply.Block? && |reply.data| <= r.length
    {
      hide Part, Granted;
      var data := TransmitBlock(r.block, r.length);
      reply := Block(data);
      if |data| < r.length { state := Idle; }
    }

    /** The handler of dfuUPLOAD-IDLE, which serves dfuDNBUSY as well. */
    method UploadIdleState(r: Request) returns (status: Status, reply: Reply)
      requires Valid() && (state == UploadIdle || state == Dnbusy) && Announced(r)
      modifies this`state, this`addr, this`firmwareSize
      ensures Valid() && Answered(r, status, reply, old(state), blockFlashingDone, flashManifestDone, state)
      ensures r.Upload? ==> Uploaded(image, r, old(state), old(addr), old(firmwareSize), reply, addr, firmwareSize)
      ensures !r.Upload? ==> addr == old(addr) && firmwareSize == old(firmwareSize)
    {
      hide Uploaded;
      status, reply := Ok, Nothing;
      match r
      case Upload(_, _) => reply := NextUpload(r);
      case Abort => state := Idle;
      case GetStatus(known) => status, reply := Get(known, StatusOf(state));
      case GetState(known) => status, reply := Get(known, StateOf(state));
      case _ =>
        status := InvalidRequest;
        state := Error;
    }

    method ErrorState(r: Request) returns (status: Status, reply: Reply)
      requires Valid() && state == Error
      modifies this`state
      ensures Valid() && Answered(r, status, reply, old(state), blockFlashingDone, flashManifestDone, state)
    {
      match r
      case GetStatus(known) => status, reply := Get(known, StatusOf(state));
      case GetState(known) => status, reply := Get(known, StateOf(state));
      case ClrStatus =>
        status, reply := Ok, Nothing;
        state := Idle;
      case _ => status, reply := InvalidRequest, Nothing;
    }

    method AppDetachState(r: Request) returns (status: Status, reply: Reply)
      requires Valid() && state == AppDetach
      modifies this`state
      ensures Valid() && Answered(r, status, reply, old(state), blockFlashingDone, flashManifestDone, state)
    {
      match r
      case GetStatus(known) => status, reply := Get(known, StatusOf(state));
      case GetState(known) => status, reply := Get(known, StateOf(state));
      case _ =>
        status, reply := InvalidRequest, Nothing;
        state := AppIdle;
    }

    /** The phases that serve no request. */
    method RestState(r: Request) returns (status: Status, reply: Reply)
      requires Valid() && (state == Manifest || state == ManifestWaitReset || state == AppIdle)
      modifies this`state
      ensures Valid() && Answered(r, status, reply, old(state), blockFlashingDone, flashManifestDone, state)
    {
      if state == AppIdle { return Ok, Nothing; }
      if state == Manifest { state := Error; }
      return InvalidRequest, Nothing;
    }

    /** USB_Other_Requests for a request of the class. */
    method OtherRequests(r: Request) returns (status: Status, reply: Reply)
      requires Valid() && Announced(r)
      modifies this, recvBuff
      ensures Valid() && Answered(r, status, reply, old(state), old(blockFlashingDone), old(flashManifestDone), state)
      ensures Taken(r, status, old(state), old(since), since) && flashed == old(flashed)
      ensures Pending() == if Loads(r, old(state)) then FlagsAfter(old(Pending()), r, status, |since|) else old(Pending())
      ensures r.Upload? && Allowed(old(state), r) ==> Uploaded(image, r, old(state), old(addr), old(firmwareSize), reply, addr, firmwareSize)
      ensures !(r.Upload? && Allowed(old(state), r)) ==> addr == old(addr) && (r.Dnload? || firmwareSize == old(firmwareSize))
    {
      hide Part, Granted, Uploaded, Answered, FlagsAfter;
      match state
      case AppDetach => status, reply := AppDetachState(r);
      case Idle => status, reply := IdleState(r);
      case DnloadSync => status, reply := DnloadSyncState(r);
      case Dnbusy => status, reply := UploadIdleState(r);
      case DnloadIdle => status, reply := DnloadIdleState(r);
      case ManifestSync => status, reply := ManifestSyncState(r);
      case UploadIdle => status, reply := UploadIdleState(r);
      case Error => status, reply := ErrorState(r);
      case _ => status, reply := RestState(r);
    }

    /** USB_Class_DFU_Process_bwPoll_TimeOut */
    method PollTimeOut()
      requires Valid()
      modifies this`state
      ensures Valid()
      ensures state == if old(state) == Dnbusy then DnloadSync else if old(state) == Manifest then ManifestSync else old(state)
    {
      if state == Dnbusy { state := DnloadSync; }
      if state == Manifest { state := ManifestSync; }
    }

    /** A bus reset, with the callback of the application: it leaves the DFU mode after a manifestation. */
    method BusReset() returns (runtimeMode: bool)
      requires Valid()
      modifies this`state, this`flashManifestDone
      ensures Valid() && runtimeMode == (old(flashManifestDone) && old(state) != AppDetach)
      ensures state == if old(state) == AppDetach then Idle else if old(flashManifestDone) then old(state) else Error
      ensures flashManifestDone == (old(flashManifestDone) && old(state) == AppDetach)
    {
      var manifest := flashManifestDone;
      if state == AppDetach {
        state := Idle;
        return false;
      }
      if !flashManifestDone { state := Error; }
      if manifest { flashManifestDone := false; }
      return manifest;
    }

    /** The bus is powered, or the application detaches. */
    method SetDetach()
      requires Valid()
      modifies this`state
      ensures Valid() && state == AppDetach
    {
      state := AppDetach;
    }

    /** Flash_recv_buff: each piece goes behind all that has ever been flashed. */
    method FlashRecvBuff(size: nat)
      requires recvBuff.Length == CAPACITY && size <= CAPACITY
      modifies this`flashed, this`bytesWritten
      ensures flashed == old(flashed) + [(old(bytesWritten), recvBuff[..size])] && bytesWritten == old(bytesWritten) + size
      ensures Total(flashed) == Total(old(flashed)) + size
    {
      assert (flashed + [(bytesWritten, recvBuff[..size])])[..|flashed|] == flashed;
      flashed := flashed + [(bytesWritten, recvBuff[..size])];
      bytesWritten := bytesWritten + size;
    }

    /**
     * USB_App_task with USB_Class_DFU_task in it. Manifestation flashes the whole download in one piece; flashing in
     * dfuDNBUSY, which happens when the buffer is full, ends in appIDLE.
     */
    method AppTask()
      requires Valid()
      modifies this
      ensures Valid() && since == old(since) && addr == old(addr) && firmwareSize == old(firmwareSize) && dataSize == old(dataSize)
      ensures old(state) == Dnbusy && !old(blockFlashingDone) ==>
        && blockFlashingDone && served == blocks && !buffReady && flashManifestDone == old(flashManifestDone)
        && state == (if old(buffReady) then AppIdle else Dnbusy)
        && flashed == old(if buffReady then flashed + [(bytesWritten, recvBuff[..dataSize])] else flashed)
        && bytesWritten == old(if buffReady then bytesWritten + dataSize else bytesWritten)
      ensures old(state) == Manifest && !old(flashManifestDone) ==>
        && flashManifestDone && state == Manifest && !buffReady && blockFlashingDone == old(blockFlashingDone)
        && flashed == old(if buffReady then flashed + [(bytesWritten, since)] else flashed)
        && bytesWritten == old(if buffReady then bytesWritten + dataSize else bytesWritten)
      ensures !(old(state) == Dnbusy && !old(blockFlashingDone)) && !(old(state) == Manifest && !old(flashManifestDone)) ==>
        state == old(state) && flashed == old(flashed) && Pending() == old(Pending())
    {
      hide Total;
      var flashResult := false;
      if state == Dnbusy {
        if !blockFlashingDone {
          if buffReady {
            FlashRecvBuff(dataSize);
            flashResult := true;
            buffReady := false;
          }
          blockFlashingDone := true;
          served := blocks;
        }
      }
      if state == Manifest {
        if !flashManifestDone {
          if buffReady {
            assert recvBuff[..dataSize] == since;
            FlashRecvBuff(dataSize);
            buffReady := false;
          }
          flashManifestDone := true;
        }
      }
      if flashResult { state := AppIdle; }
    }

    /** The device as the host and the flash know it. */
    ghost function Snap(): Snapshot
      reads this
    {
      Snapshot(state, Pending(), since, flashed, addr, firmwareSize)
    }

    /** One event. */
    method Do(e: Event) returns (answer: Option<(Status, Reply)>)
      requires Valid() && (e.Class? ==> Announced(e.request))
      modifies this, recvBuff
      ensures Valid() && Carried(image, old(Snap()), e, answer, Snap())
    {
      hide Uploaded, FlagsAfter, Answered, Total;
      answer := None;
      match e
      case Class(r) =>
        var status, reply := OtherRequests(r);
        answer := Some((status, reply));
      case TimeOut => PollTimeOut();
      case Reset => var _ := BusReset();
      case Powered => SetDetach();
      case Task => AppTask();
    }

    /**
     * Every event of a run is carried out and answered as the model says; and in dfuDNLOAD-IDLE everything received so far is in
     * the buffer, which is not full.
     */
    method Run(events: seq<Event>) returns (answers: seq<Option<(Status, Reply)>>, ghost trace: seq<Snapshot>)
      requires Valid() && forall i :: 0 <= i < |events| && events[i].Class? ==> Announced(events[i].request)
      modifies this, recvBuff
      ensures Valid()
      ensures Chained(image, events, answers, trace) && trace[0] == old(Snap()) && trace[|events|] == Snap()
      ensures state == DnloadIdle ==> blockFlashingDone && !buffReady && served == blocks && |since| < CAPACITY && recvBuff[..|since|] == since
    {
      answers, trace := [], [Snap()];
      for i := 0 to |events|
        invariant Valid() && |trace| == i + 1 && |answers| == i && trace[0] == old(Snap()) && trace[i] == Snap()
        invariant forall k :: 0 <= k < i ==> Carried(image, trace[k], events[k], answers[k], trace[k + 1])
      {
        hide Valid, Carried;
        var answer := Do(events[i]);
        answers, trace := answers + [answer], trace + [Snap()];
      }
    }
  }

  datatype Snapshot = Snapshot(phase: Phase, flags: Flags, since: seq<octet>, flashed: seq<(nat, seq<octet>)>, addr: nat,
                               firmwareSize: nat)

  /** What an event makes of the device, and what it is answered. */
  predicate Carried(image: nat -> octet, s: Snapshot, e: Event, answer: Option<(Status, Reply)>, t: Snapshot) {
    match e
    case Class(r) =>
      && answer.Some?
      && var (status, reply) := answer.value;
      && Answered(r, status, reply, s.phase, s.flags.blockDone, s.flags.manifestDone, t.phase)
      && Taken(r, status, s.phase, s.since, t.since) && t.flashed == s.flashed
      && t.flags == (if Loads(r, s.phase) then FlagsAfter(s.flags, r, status, |t.since|) else s.flags)
      && (if r.Upload? && Allowed(s.phase, r) then Uploaded(image, r, s.phase, s.addr, s.firmwareSize, reply, t.addr, t.firmwareSize)
          else t.addr == s.addr && (r.Dnload? || t.firmwareSize == s.firmwareSize))
    case TimeOut =>
      && answer == None
      && t == s.(phase := if s.phase == Dnbusy then DnloadSync else if s.phase == Manifest then ManifestSync else s.phase)
    case Reset =>
      && answer == None
      && t == (if s.phase == AppDetach then s.(phase := Idle)
               else if s.flags.manifestDone then s.(flags := s.flags.(manifestDone := false)) else s.(phase := Error))
    case Powered => answer == None && t == s.(phase := AppDetach)
    case Task =>
      && answer == None
      && (if s.phase == Dnbusy && !s.flags.blockDone then
            && Flushed(s.(flags := s.flags.(blockDone := true)), t) && (s.flags.ready ==> t.phase == AppIdle)
          else if s.phase == Manifest && !s.flags.manifestDone then
            && Flushed(s.(flags := s.flags.(manifestDone := true)), t) && t.phase == Manifest
            && (s.flags.ready ==> t.flashed[|s.flashed|].1 == s.since)
          else t == s)
  }

  /** What is pending, if anything is, is flashed behind all that has been flashed before. */
  predicate Flushed(s: Snapshot, t: Snapshot) {
    if s.flags.ready then
      && |t.flashed| == |s.flashed| + 1 && t.flashed[..|s.flashed|] == s.flashed
      && t.flashed[|s.flashed|].0 == s.flags.written && |t.flashed[|s.flashed|].1| == s.flags.size
      && t == s.(phase := t.phase, flashed := t.flashed, flags := s.flags.(ready := false, written := s.flags.written + s.flags.size))
    else t == s
  }

  /** A run: a snapshot before every event and one at the end, and an answer to every request. */
  predicate Chained(image: nat -> octet, events: seq<Event>, answers: seq<Option<(Status, Reply)>>, trace: seq<Snapshot>) {
    && |trace| == |events| + 1 && |answers| == |events|
    && forall k :: 0 <= k < |events| ==> Carried(image, trace[k], events[k], answers[k], trace[k + 1])
  }

  // ---- The table of phases, read from where they lead ----

  /** By what each phase is entered; all the rest leads to dfuERROR. */
  lemma Entered(p: Phase, r: Request, flashingDone: bool, manifestDone: bool, status: Status, reply: Reply)
    requires Answered(r, status, reply, p, flashingDone, manifestDone, After(p, r, flashingDone, manifestDone, status, reply))
    ensures var q := After(p, r, flashingDone, manifestDone, status, reply);
            var short := r.Upload? && reply.Block? && |reply.data| < r.length;
            q != p ==>
              && (q == DnloadSync <==> (p == Idle || p == DnloadIdle) && r.Dnload? && r.data != [] && status == Ok)
              && (q == ManifestSync <==> p == DnloadIdle && r.Dnload? && r.data == [])
              && (q == Dnbusy <==> p == DnloadSync && r.GetStatus? && !flashingDone)
              && (q == DnloadIdle <==> p == DnloadSync && r.GetStatus? && flashingDone)
              && (q == Manifest <==> p == ManifestSync && r.GetStatus? && !manifestDone)
              && (q == UploadIdle <==> p == Idle && r.Upload? && !short)
              && (q == Idle <==> (r.Abort? && Allowed(p, r)) || (r.ClrStatus? && p == Error) || short
                                 || (p == ManifestSync && r.GetStatus? && manifestDone))
              && (q == AppIdle <==> p == AppDetach) && q != AppDetach && q != ManifestWaitReset
  {}

  /** A request is refused exactly if it leads to dfuERROR; questions alone do not change anything but in the two SYNC phases. */
  lemma RefusedIsError(p: Phase, r: Request, flashingDone: bool, manifestDone: bool, status: Status, reply: Reply)
    requires Answered(r, status, reply, p, flashingDone, manifestDone, After(p, r, flashingDone, manifestDone, status, reply))
    ensures var q := After(p, r, flashingDone, manifestDone, status, reply);
            && (p != AppIdle && p != AppDetach && p != ManifestWaitReset && !(Asks(r) && Serves(p)) ==> (status != Ok <==> q == Error))
            && (r.Abort? && (p == Idle || p == DnloadIdle || p == UploadIdle) ==> q == Idle && status == Ok)
            && (Asks(r) && q != p ==> (r.GetStatus? && (p == DnloadSync || p == ManifestSync)) || p == Manifest || !Serves(p))
  {}

  /** What the host is told in dfuERROR. */
  function Stalled(e: Event): Option<(Status, Reply)> {
    match e
    case Class(GetStatus(true)) => Some((Ok, StatusOf(Error)))
    case Class(GetState(true)) => Some((Ok, StateOf(Error)))
    case Class(_) => Some((InvalidRequest, Nothing))
    case _ => None
  }

  lemma ErrorStep(image: nat -> octet, s: Snapshot, e: Event, answer: Option<(Status, Reply)>, t: Snapshot)
    requires Carried(image, s, e, answer, t) && s.phase == Error && e != Powered && e != Class(ClrStatus)
    ensures t.phase == Error && t.since == s.since && t.flashed == s.flashed && answer == Stalled(e)
  {
    if e.Class? {
      var (status, reply) := answer.value;
      assert e.request.ClrStatus? ==> e == Class(ClrStatus);
      assert status == Ok || status == InvalidRequest;
      assert answer == Some((status, reply));
    }
  }

  /** Nothing but ClrStatus, and the power coming on, leads out of dfuERROR, and the error is all the host is told until then. */
  lemma {:induction false} ErrorStays(image: nat -> octet, events: seq<Event>, answers: seq<Option<(Status, Reply)>>,
                                      trace: seq<Snapshot>, n: nat)
    requires Chained(image, events, answers, trace) && trace[0].phase == Error && n <= |events|
    requires forall k :: 0 <= k < n ==> events[k] != Powered && events[k] != Class(ClrStatus)
    ensures trace[n].phase == Error && trace[n].since == trace[0].since && trace[n].flashed == trace[0].flashed
    ensures forall k :: 0 <= k < n ==> answers[k] == Stalled(events[k])
    decreases n
  {
    if n > 0 {
      hide Carried, Stalled;
      ErrorStays(image, events, answers, trace, n - 1);
      ErrorStep(image, trace[n - 1], events[n - 1], answers[n - 1], trace[n]);
    }
  }

  /** What has been flashed is never taken back. */
  lemma {:induction false} FlashedGrows(image: nat -> octet, events: seq<Event>, answers: seq<Option<(Status, Reply)>>,
                                        trace: seq<Snapshot>, n: nat)
    requires Chained(image, events, answers, trace) && n <= |events|
    ensures trace[0].flashed <= trace[n].flashed && trace[0].flags.written <= trace[n].flags.written
    decreases n
  {
    if n > 0 {
      FlashedGrows(image, events, answers, trace, n - 1);
      assert Carried(image, trace[n - 1], events[n - 1], answers[n - 1], trace[n]);
    }
  }

  /** How much has been flashed. */
  function Total(flashed: seq<(nat, seq<octet>)>): nat {
    if flashed == [] then 0 else Total(flashed[..|flashed| - 1]) + |flashed[|flashed| - 1].1|
  }

  datatype Flags = Flags(blockDone: bool, manifestDone: bool, ready: bool, size: nat, written: nat)

  /** The request is a block, or the empty one that ends a download, in a phase that takes it. */
  predicate Loads(r: Request, p: Phase) {
    r.Dnload? && (p == DnloadIdle || (p == Idle && r.data != []))
  }

  /** A full buffer, or the end of the download, makes the bytes collected ready to be flashed. */
  function FlagsAfter(f: Flags, r: Request, status: Status, since: nat): Flags
    requires r.Dnload?
  {
    var blockDone := f.blockDone && r.data == [];
    if status != Ok then f.(blockDone := blockDone) else
      var manifestDone := f.manifestDone && !(r.data != [] && r.block == 0);
      if since >= CAPACITY || r.data == [] then Flags(blockDone, manifestDone, true, Least(since, CAPACITY), f.written)
      else f.(blockDone := blockDone, manifestDone := manifestDone)
  }

  datatype Event = Class(request: Request) | TimeOut | Reset | Powered | Task

  /** An upload asks for no more than the announced block size. */
  predicate Announced(r: Request) {
    r.Upload? ==> r.length <= MAX_BLOCK
  }

  /** The block number counts with eight bits in dfuIDLE; number 0 goes back to the start of the image. */
  predicate Uploaded(image: nat -> octet, r: Request, before: Phase, addr: nat, size: nat, reply: Reply, addr': nat, size': nat)
    requires r.Upload?
  {
    var start := (if before == Idle then r.block % 0x100 else r.block) == 0;
    var from := if start then 0 else addr;
    && size' == (if start then FIRMWARE_SIZE else size)
    && reply == Block(Part(image, from, Granted(size', from, r.length)))
    && addr' == (from + r.length) % WORD
  }

  // ---- Uploads ----

  function Sum(sizes: seq<nat>): nat {
    if sizes == [] then 0 else Sum(sizes[..|sizes| - 1]) + sizes[|sizes| - 1]
  }

  /** Requests a host may make: none is empty or larger than the announced block size. */
  predicate Requests(sizes: seq<nat>) {
    forall i :: 0 <= i < |sizes| ==> 1 <= sizes[i] <= MAX_BLOCK
  }

  lemma PartAppends(image: nat -> octet, a: nat, n: nat)
    ensures Part(image, 0, a) + Part(image, a, n) == Part(image, 0, a + n)
  {}

  lemma PartNone(image: nat -> octet)
    ensures Part(image, 0, 0) == []
  {}

  lemma GrantedIs(addr: nat, length: nat)
    requires addr <= FIRMWARE_SIZE && 0 < length <= MAX_BLOCK
    ensures Granted(FIRMWARE_SIZE, addr, length) == Least(length, FIRMWARE_SIZE - addr)
  {}

  /** One request of an upload that has come as far as the given address. */
  method UploadOne(device: Device, k: nat, length: nat, ghost from: nat) returns (data: seq<octet>)
    requires device.Valid() && k < HALF && device.state == (if k == 0 then Idle else UploadIdle)
    requires 1 <= length <= MAX_BLOCK && from <= FIRMWARE_SIZE && (k == 0 ==> from == 0)
    requires k > 0 ==> device.addr == from && device.firmwareSize == FIRMWARE_SIZE
    modifies device, device.recvBuff
    ensures device.Valid() && device.addr == from + length && device.firmwareSize == FIRMWARE_SIZE
    ensures data == Part(device.image, from, Least(length, FIRMWARE_SIZE - from))
    ensures device.state == if |data| < length then Idle else UploadIdle
  {
    hide Device.Valid;
    GrantedIs(from, length);
    hide Granted, Taken;
    var r := Upload(k, length);
    var _, reply := device.OtherRequests(r);
    data := reply.data;
  }

  /**
   * A host that asks with numbers counting up from 0, for whatever sizes, receives the whole image and a short answer at its
   * end if and only if the sizes pass the image size before the 16-bit number comes back to 0; until then it has received
   * the beginning of the image.
   */
  method UploadAll(device: Device, sizes: seq<nat>) returns (data: seq<octet>, used: nat, short: bool)
    requires device.Valid() && device.state == Idle && Requests(sizes) && |sizes| <= HALF
    modifies device, device.recvBuff
    ensures device.Valid() && (short <==> Sum(sizes) > FIRMWARE_SIZE)
    ensures short ==> device.state == Idle && data == Part(device.image, 0, 0x1_0001)
    ensures short ==> 0 < used <= |sizes| && Sum(sizes[..used - 1]) <= FIRMWARE_SIZE < Sum(sizes[..used])
    ensures !short ==> data == Part(device.image, 0, Sum(sizes)) && device.state == if sizes == [] then Idle else UploadIdle
    ensures !short && sizes != [] ==> device.addr == Sum(sizes) && device.firmwareSize == FIRMWARE_SIZE
  {
    hide Device.Valid, Part;
    data, used, short := [], 0, false;
    PartNone(device.image);
    while used < |sizes|
      invariant used <= |sizes| && device.Valid() && device.state == if used == 0 then Idle else UploadIdle
      invariant Sum(sizes[..used]) <= FIRMWARE_SIZE && data == Part(device.image, 0, Sum(sizes[..used]))
      invariant used > 0 ==> device.addr == Sum(sizes[..used]) && device.firmwareSize == FIRMWARE_SIZE
    {
      ghost var from := Sum(sizes[..used]);
      assert sizes[..used + 1][..used] == sizes[..used];
      PartAppends(device.image, from, Least(sizes[used], FIRMWARE_SIZE - from));
      var part := UploadOne(device, used, sizes[used], from);
      data := data + part;
      used := used + 1;
      if |part| < sizes[used - 1] {
        SumOfPrefix(sizes, used);
        return data, used, true;
      }
    }
    assert sizes[..|sizes|] == sizes;
  }

  lemma {:induction false} SumOfPrefix(sizes: seq<nat>, k: nat)
    requires k <= |sizes|
    ensures Sum(sizes[..k]) <= Sum(sizes)
    decreases |sizes|
  {
    if k < |sizes| {
      SumOfPrefix(sizes[..|sizes| - 1], k);
      assert sizes[..|sizes| - 1][..k] == sizes[..k];
    } else {
      assert sizes[..k] == sizes;
    }
  }

  /** If the number comes back to 0 first, the request with it is answered from the beginning of the image again. */
  method UploadWraps(device: Device, sizes: seq<nat>, length: nat) returns (data: seq<octet>, again: seq<octet>)
    requires device.Valid() && device.state == Idle && Requests(sizes) && 1 <= length <= MAX_BLOCK
    requires |sizes| == HALF && Sum(sizes) <= FIRMWARE_SIZE
    modifies device, device.recvBuff
    ensures device.Valid() && data == Part(device.image, 0, Sum(sizes))
    ensures again == Part(device.image, 0, length) && device.state == UploadIdle && device.addr == length
  {
    hide Device.Valid, Part, Sum;
    var used, short;
    data, used, short := UploadAll(device, sizes);
    GrantedIs(0, length);
    hide Granted, Taken;
    var _, reply := device.OtherRequests(Upload(|sizes| % HALF, length));
    again := reply.data;
  }

  /**
   * A host that asks for single bytes is never told the end of the image: after any number of requests it has got the first
   * 65536 bytes over and over again, and the device still waits for more.
   */
  method OneByteUploads(device: Device, n: nat) returns (data: seq<octet>)
    requires device.Valid() && device.state == Idle
    modifies device, device.recvBuff
    ensures device.Valid() && (n > 0 ==> device.state == UploadIdle)
    ensures |data| == n && forall i :: 0 <= i < n ==> data[i] == device.image(i % HALF)
  {
    hide Device.Valid, Granted, Taken;
    data := [];
    for k := 0 to n
      invariant device.Valid() && device.state == if k == 0 then Idle else UploadIdle
      invariant k > 0 ==> device.addr == (k - 1) % HALF + 1 && device.firmwareSize == FIRMWARE_SIZE
      invariant |data| == k && forall i :: 0 <= i < k ==> data[i] == device.image(i % HALF)
    {
      NumberWraps(k);
      var part := UploadSingle(device, k % HALF, k == 0);
      data := data + part;
    }
  }

  /** One request for a single byte. */
  method UploadSingle(device: Device, k: nat, first: bool) returns (data: seq<octet>)
    requires device.Valid() && k < HALF && device.state == (if first then Idle else UploadIdle) && (first ==> k == 0)
    requires k > 0 ==> device.addr == k && device.firmwareSize == FIRMWARE_SIZE
    modifies device, device.recvBuff
    ensures device.Valid() && device.state == UploadIdle && device.addr == k + 1 && device.firmwareSize == FIRMWARE_SIZE
    ensures data == [device.image(k)]
  {
    hide Device.Valid;
    GrantedIs(k, 1);
    hide Granted, Taken;
    var _, reply := device.OtherRequests(Upload(k, 1));
    data := reply.data;
  }

  lemma NumberWraps(k: nat)
    ensures k > 0 && k % HALF > 0 ==> (k - 1) % HALF + 1 == k % HALF
  {}

  // ---- Downloads ----

  function Concat(blocks: seq<seq<octet>>): seq<octet> {
    if blocks == [] then [] else Concat(blocks[..|blocks| - 1]) + blocks[|blocks| - 1]
  }

  /** The last block number the device does not refuse. */
  const LAST_BLOCK := FIRMWARE_SIZE / MAX_BLOCK

  /** The host asks for the status, the device does its work, the poll timeout passes, and the host asks again. */
  method Poll(device: Device)
    requires device.Valid() && (device.state == DnloadSync ==> !device.blockFlashingDone)
    requires device.state == ManifestSync ==> device.buffReady && !device.flashManifestDone
    requires device.state in {DnloadSync, ManifestSync, AppIdle, Error}
    modifies device, device.recvBuff
    ensures device.Valid() && device.since == old(device.since)
    ensures old(device.state) == DnloadSync && !old(device.buffReady) ==>
      device.state == DnloadIdle && device.flashed == old(device.flashed) && device.bytesWritten == old(device.bytesWritten)
      && device.flashManifestDone == old(device.flashManifestDone)
    ensures old(device.state) == DnloadSync && old(device.buffReady) ==> device.state == AppIdle
    ensures old(device.state) == DnloadSync && old(device.buffReady) && old(device.dataSize) == Least(|device.since|, CAPACITY) ==>
      device.flashed == old(device.flashed) + [(old(device.bytesWritten), device.since[..old(device.dataSize)])]
    ensures old(device.state) == ManifestSync ==>
      device.state == Idle && device.flashed == old(device.flashed) + [(old(device.bytesWritten), device.since)]
      && device.bytesWritten == old(device.bytesWritten) + |device.since|
    ensures old(device.state) == AppIdle || old(device.state) == Error ==>
      device.state == old(device.state) && device.flashed == old(device.flashed)
  {
    hide Uploaded, FlagsAfter, Total;
    var _, _ := device.OtherRequests(GetStatus(true));
    device.AppTask();
    device.PollTimeOut();
    var _, _ := device.OtherRequests(GetStatus(true));
  }

  /** The device has taken k blocks and waits for more. */
  ghost predicate Loading(device: Device, k: nat, all: seq<octet>, offset: nat)
    reads device, device.recvBuff
  {
    && device.Valid() && device.state == (if k == 0 then Idle else DnloadIdle) && device.bytesWritten == offset
    && (k > 0 ==> device.since == all && !device.flashManifestDone && 0 < |all| < CAPACITY && k <= LAST_BLOCK + 1)
  }

  /** A device that has left the download, because it failed or because the buffer was full. */
  predicate Left(p: Phase) {
    p == Error || p == AppIdle
  }

  /** A block and the status requests after it. */
  method DownloadOne(device: Device, k: nat, data: seq<octet>, ghost all: seq<octet>)
    requires device.Valid() && data != [] && (k == 0 ==> all == [])
    requires Left(device.state) || Loading(device, k, all, device.bytesWritten)
    modifies device, device.recvBuff
    ensures device.Valid()
    ensures old(Left(device.state)) ==> device.state == old(device.state) && device.flashed == old(device.flashed)
    ensures !old(Left(device.state)) && k > LAST_BLOCK ==> device.state == Error && device.flashed == old(device.flashed)
    ensures !old(Left(device.state)) && k <= LAST_BLOCK && !old(device.buffReady) && |all + data| < CAPACITY ==>
      Loading(device, k + 1, all + data, old(device.bytesWritten)) && device.flashed == old(device.flashed)
    ensures !old(Left(device.state)) && k <= LAST_BLOCK && (old(device.buffReady) || |all + data| >= CAPACITY) ==>
      device.state == AppIdle
    ensures !old(Left(device.state)) && k <= LAST_BLOCK && !old(device.buffReady) && |all + data| >= CAPACITY ==>
      device.flashed == old(device.flashed) + [(old(device.bytesWritten), (all + data)[..CAPACITY])]
  {
    hide Uploaded, Total;
    assert k == 0 ==> all + data == data;
    var _, _ := device.OtherRequests(Dnload(k % HALF, data));
    Poll(device);
  }

  /** The empty block and the status requests after it. */
  method DownloadEnd(device: Device, k: nat, ghost all: seq<octet>)
    requires device.Valid() && k > 0
    requires Left(device.state) || Loading(device, k, all, device.bytesWritten)
    modifies device, device.recvBuff
    ensures device.Valid()
    ensures old(Left(device.state)) ==> device.state == old(device.state) && device.flashed == old(device.flashed)
    ensures !old(Left(device.state)) ==>
      device.state == Idle && device.flashed == old(device.flashed) + [(old(device.bytesWritten), all)]
      && device.bytesWritten == old(device.bytesWritten) + |all|
  {
    hide Uploaded, Total;
    var _, _ := device.OtherRequests(Dnload(k % HALF, []));
    Poll(device);
  }

  /** The bytes sent so far filled the buffer, and as many of them were flashed; none came after a full buffer but to no avail. */
  predicate Cut(flashed: seq<(nat, seq<octet>)>, before: seq<(nat, seq<octet>)>, offset: nat, all: seq<octet>, k: nat) {
    |all| >= CAPACITY && flashed == before + [(offset, all[..CAPACITY])] && (k <= LAST_BLOCK + 1 || |all| > CAPACITY)
  }

  /** Where a download stands after k blocks. */
  ghost predicate Stands(device: Device, k: nat, all: seq<octet>, before: seq<(nat, seq<octet>)>, offset: nat, stale: bool)
    reads device, device.recvBuff
  {
    match device.state
    case Error => !stale && device.flashed == before && k > LAST_BLOCK + 1
    case AppIdle => k > 0 && (stale || Cut(device.flashed, before, offset, all, k))
    case _ => (k > 0 ==> !stale) && device.flashed == before && (k == 0 ==> device.buffReady == stale)
              && Loading(device, k, all, offset)
  }

  method DownloadNext(device: Device, k: nat, data: seq<octet>, ghost all: seq<octet>, ghost before: seq<(nat, seq<octet>)>,
                      ghost offset: nat, ghost stale: bool)
    requires device.Valid() && Stands(device, k, all, before, offset, stale) && data != [] && (k == 0 ==> all == [])
    modifies device, device.recvBuff
    ensures device.Valid() && Stands(device, k + 1, all + data, before, offset, stale)
  {
    hide Device.Valid;
    LoadingReady(device, k, all, offset);
    assert |all| >= CAPACITY ==> (all + data)[..CAPACITY] == all[..CAPACITY];
    DownloadOne(device, k, data, all);
  }

  lemma LoadingReady(device: Device, k: nat, all: seq<octet>, offset: nat)
    requires device.Valid()
    ensures Loading(device, k, all, offset) && k > 0 ==> !device.buffReady
  {}

  /**
   * A whole download by the book: every block is followed by a status request, the work of the device, the end of the poll
   * timeout and another status request, and an empty block ends it. It is taken to its end if and only if nothing was left
   * to be flashed before, the buffer is not filled and no block number is refused; then it is flashed in one piece, behind
   * all that was flashed before. One that just fills the buffer is flashed, but leaves the DFU mode; a longer one is cut.
   */
  method Download(device: Device, blocks: seq<seq<octet>>)
    requires device.Valid() && device.state == Idle && blocks != []
    requires forall i :: 0 <= i < |blocks| ==> blocks[i] != []
    modifies device, device.recvBuff
    ensures device.Valid() && (device.state == Idle || device.state == AppIdle || device.state == Error)
    ensures device.state == Idle <==> !old(device.buffReady) && |Concat(blocks)| < 2520 && |blocks| <= 1041
    ensures device.state == Idle ==> device.bytesWritten == old(device.bytesWritten) + |Concat(blocks)|
    ensures !old(device.buffReady) ==>
      (device.flashed == old(device.flashed) + [(old(device.bytesWritten), Concat(blocks))] <==>
       |Concat(blocks)| <= 2520 && |blocks| <= 1041)
  {
    hide Device.Valid;
    ghost var offset, before, stale := device.bytesWritten, device.flashed, device.buffReady;
    hide Stands;
    DownloadStands(device);
    for k := 0 to |blocks|
      invariant device.Valid() && Stands(device, k, Concat(blocks[..k]), before, offset, stale)
    {
      assert blocks[..k + 1][..k] == blocks[..k];
      DownloadNext(device, k, blocks[k], Concat(blocks[..k]), before, offset, stale);
    }
    assert blocks[..|blocks|] == blocks;
    DownloadResult(device, |blocks|, Concat(blocks), before, offset, stale);
  }

  lemma DownloadStands(device: Device)
    requires device.Valid() && device.state == Idle
    ensures Stands(device, 0, [], device.flashed, device.bytesWritten, device.buffReady)
  {}

  /** A bus reset before the manifestation leaves something to be flashed behind, which makes the next download fail. */
  method Interrupted(device: Device, data: seq<octet>)
    requires device.Valid() && device.state == Idle && !device.buffReady && 0 < |data| < CAPACITY
    modifies device, device.recvBuff
    ensures device.Valid() && device.state == Idle && device.buffReady && device.flashed == old(device.flashed)
  {
    hide Uploaded, Total;
    assert [] + data == data;
    DownloadOne(device, 0, data, []);
    var _, _ := device.OtherRequests(Dnload(1, []));
    var _ := device.BusReset();
    var _, _ := device.OtherRequests(ClrStatus);
  }

  lemma LastOf(s: seq<(nat, seq<octet>)>, x: (nat, seq<octet>), y: (nat, seq<octet>))
    ensures s + [x] != s && (s + [x] == s + [y] <==> x == y)
  {
    assert (s + [x])[|s|] == x && (s + [y])[|s|] == y;
  }

  method DownloadResult(device: Device, k: nat, ghost all: seq<octet>, ghost before: seq<(nat, seq<octet>)>,
                        ghost offset: nat, ghost stale: bool)
    requires device.Valid() && Stands(device, k, all, before, offset, stale) && k > 0
    modifies device, device.recvBuff
    ensures device.Valid() && (device.state == Idle || device.state == AppIdle || device.state == Error)
    ensures device.state == Idle <==> !stale && |all| < CAPACITY && k - 1 <= LAST_BLOCK
    ensures device.state == Idle ==> device.bytesWritten == offset + |all|
    ensures !stale ==> (device.flashed == before + [(offset, all)] <==> |all| <= CAPACITY && k - 1 <= LAST_BLOCK)
  {
    hide Device.Valid;
    var most := all[..Least(|all|, CAPACITY)];
    assert |all| <= CAPACITY ==> most == all;
    assert |all| >= CAPACITY ==> most == all[..CAPACITY];
    LastOf(before, (offset, all), (offset, most));
    DownloadEnd(device, k, all);
  }

  /** The phase after a request, given what the request was answered. */
  function After(p: Phase, r: Request, flashingDone: bool, manifestDone: bool, status: Status, reply: Reply): Phase {
    var short := r.Upload? && reply.Block? && |reply.data| < r.length;
    match p
    case AppIdle => AppIdle
    case AppDetach => if r.GetStatus? || r.GetState? then AppDetach else AppIdle
    case Idle =>
      if r.Dnload? then if r.data != [] && status == Ok then DnloadSync else Error
      else if r.Upload? then if short then Idle else UploadIdle
      else if r.Abort? || r.GetStatus? || r.GetState? then Idle
      else Error
    case DnloadSync =>
      if r.GetStatus? then if flashingDone then DnloadIdle else Dnbusy
      else if r.GetState? then DnloadSync
      else Error
    case DnloadIdle =>
      if r.Dnload? then if status != Ok then Error else if r.data == [] then ManifestSync else DnloadSync
      else if r.Abort? then Idle
      else if r.GetStatus? || r.GetState? then DnloadIdle
      else Error
    case ManifestSync =>
      if r.GetStatus? then if manifestDone then Idle else Manifest
      else if r.GetState? then ManifestSync
      else Error
    case Manifest => Error
    case ManifestWaitReset => ManifestWaitReset
    case Error => if r.ClrStatus? then Idle else Error
    case _ =>
      if r.Upload? then if short then Idle else p
      else if r.Abort? then Idle
      else if r.GetStatus? || r.GetState? then p
      else Error
  }

  /** The phases in which the device answers what it is asked. */
  predicate Serves(p: Phase) {
    p != AppIdle && p != Manifest && p != ManifestWaitReset
  }

  predicate Asks(r: Request) {
    r.GetStatus? || r.GetState?
  }

  /** The phases in which a request is granted. */
  predicate Allowed(p: Phase, r: Request) {
    match r
    case Detach => false
    case Dnload(block, data) =>
      (p == Idle || p == DnloadIdle) && if data == [] then p == DnloadIdle else block * MAX_BLOCK <= FIRMWARE_SIZE
    case Upload(_, _) => p == Idle || p == UploadIdle || p == Dnbusy
    case Abort => p == Idle || p == DnloadIdle || p == UploadIdle || p == Dnbusy
    case ClrStatus => p == Error
    case GetStatus(known) => known && Serves(p)
    case GetState(known) => known && Serves(p)
  }

  /**
   * The phase goes on by the table. In appIDLE every request is accepted to no avail; in the other phases those that are not
   * allowed are refused and nothing goes back. A status request is told the phase that follows it, and GetState the phase there
   * was, which it leaves as it is.
   */
  predicate Answered(r: Request, status: Status, reply: Reply, before: Phase, flashingDone: bool, manifestDone: bool, after: Phase) {
    && after == After(before, r, flashingDone, manifestDone, status, reply)
    && (status == Ok <==> before == AppIdle || Allowed(before, r))
    && (if !Allowed(before, r) then reply == Nothing
        else match r
             case GetStatus(_) => reply == StatusOf(after)
             case GetState(_) => reply == StateOf(before) && after == before
             case Upload(_, length) => reply.Block? && |reply.data| <= length
             case _ => reply == Nothing)
  }

  /** Only a block accepted in dfuIDLE or dfuDNLOAD-IDLE is collected, and block 0 starts anew. */
  predicate Taken(r: Request, status: Status, before: Phase, since: seq<octet>, since': seq<octet>) {
    since' == if r.Dnload? && r.data != [] && (before == Idle || before == DnloadIdle) && status == Ok
              then if r.block == 0 then r.data else since + r.data
              else since
  }

  /** n bytes of the image. */
  function Part(image: nat -> octet, addr: nat, n: nat): (s: seq<octet>)
    ensures |s| == n
  {
    seq(n, (i: nat) => image(addr + i))
  }

  /** The bytes sent for a request. */
  function Granted(size: nat, addr: nat, length: nat): nat {
    if (size - addr) % WORD >= length then length else (size - addr) % WORD % HALF
  }
}
