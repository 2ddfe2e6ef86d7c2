/** Y_Loader.c: the packets of the Ymodem protocol, and which of them a session takes. */
module Ymodem {
  import opened Words
  import Numbers

  const SOH: byte := 0x01
  const STX: byte := 0x02
  const ACK: byte := 0x06
  const NAK: byte := 0x15
  const CA: byte := 0x18
  const CRC16: byte := 0x43

  const FILE_NAME_LENGTH := 32
  const FILE_SIZE_LENGTH := 16
  const MAX_ERRORS := 5

  /** Kind, number, complement of the number, 128 or 1024 bytes of data as the kind says, and two more bytes. */
  type Packet = p: seq<byte> | IsPacket(p) witness [SOH] + seq(132, _ => 0)

  predicate IsPacket(p: seq<byte>) {
    if |p| == 133 then p[0] == SOH else |p| == 1029 && p[0] == STX
  }

  function Data(p: Packet): (d: seq<byte>)
    ensures |d| == 128 || |d| == 1024
  {
    p[3..|p| - 2]
  }

  /** The empty packet a sender without files sends. */
  predicate IsNull(p: Packet) {
    p[0] == SOH && p[1] == 0 && p[2] == 0xFF && p[3] == 0 && p[4] == 0
  }

  /** What the receiving routine reports: a packet, the end of a file, the two ways to give up, an error or silence. */
  datatype Event = Received(packet: Packet) | EndOfFile | Cancelled | UserAbort | Error | Timeout

  // ---- The header packet ----

  /** The first place of a byte, or the length. */
  function Find(s: seq<byte>, b: byte): (k: nat)
    ensures k <= |s| && b !in s[..k] && (k < |s| ==> s[k] == b)
    decreases |s|
  {
    if s == [] || s[0] == b then 0 else
      var k := Find(s[1..], b);
      assert s[..k + 1] == [s[0]] + s[1..][..k];
      k + 1
  }

  lemma {:induction false} FindIs(s: seq<byte>, b: byte, k: nat)
    requires k <= |s| && b !in s[..k] && (k < |s| ==> s[k] == b)
    ensures Find(s, b) == k
    decreases k
  {
    if k > 0 {
      assert s[..k][0] == s[0];
      assert s[1..][..k - 1] == s[..k][1..];
      FindIs(s[1..], b, k - 1);
    }
  }

  /** Where the size begins: after the name and its zero, or after the longest name. */
  function NameEnd(data: seq<byte>): (p: nat)
    requires |data| >= 128
    ensures p <= FILE_NAME_LENGTH
  {
    var k := Find(data[..FILE_NAME_LENGTH], 0);
    if k < FILE_NAME_LENGTH then k + 1 else k
  }

  /** The characters of the size: up to a space, and no more than fit. */
  function SizeField(data: seq<byte>): seq<byte>
    requires |data| >= 128
  {
    var s := data[NameEnd(data)..][..FILE_SIZE_LENGTH];
    s[..Find(s, 0x20)]
  }

  function Char(b: byte): char {
    b as char
  }

  /** A string in memory, as far as its zero. */
  function Text(s: seq<byte>): string {
    var t := s[..Find(s, 0)];
    seq(|t|, i requires 0 <= i < |t| => Char(t[i]))
  }

  /** The file size a header packet declares; it stays zero if the field is not a number. */
  function DeclaredSize(data: seq<byte>): nat
    requires |data| >= 128
  {
    var n := Numbers.Parse(Text(SizeField(data)));
    if n.Some? then n.value else 0
  }

  lemma CharZero(b: byte)
    requires b != 0
    ensures Char(b) != '\0'
  {}

  lemma TextHasNoZero(s: seq<byte>)
    ensures '\0' !in Text(s)
  {
    hide Char;
    var t := s[..Find(s, 0)];
    forall i | 0 <= i < |t|
      ensures Text(s)[i] != '\0'
    {
      CharZero(t[i]);
    }
  }

  /** The part of the packet processing that reads name and size. */
  method ReadHeader(data: seq<byte>) returns (fileSize: nat)
    requires |data| >= 128
    ensures fileSize == DeclaredSize(data)
  {
    hide Numbers.Parse, Char;
    var p, i := 0, 0;
    while i < FILE_NAME_LENGTH
      invariant i == p <= FILE_NAME_LENGTH && 0 !in data[..p]
    {
      p := p + 1;
      if data[p - 1] == 0 { break; }
      i := i + 1;
      assert data[..p] == data[..p - 1] + [data[p - 1]];
    }
    NameEndIs(data, i, p);
    ghost var s := data[p..][..FILE_SIZE_LENGTH];
    i := 0;
    while i < FILE_SIZE_LENGTH
      invariant i <= FILE_SIZE_LENGTH && 0x20 !in s[..i]
    {
      if data[p + i] == 0x20 { break; }
      assert s[..i + 1] == s[..i] + [data[p + i]];
      i := i + 1;
    }
    FindIs(s, 0x20, i);
    var field := data[p..p + i];
    SliceOfSlice(data, p, FILE_SIZE_LENGTH, i);
    TextHasNoZero(field);
    var _, size := Numbers.Str2Int(Text(field), 0);
    fileSize := size;
  }

  lemma SliceOfSlice(s: seq<byte>, p: nat, n: nat, i: nat)
    requires p + n <= |s| && i <= n
    ensures s[p..][..n][..i] == s[p..p + i]
  {}

  lemma NameEndIs(data: seq<byte>, i: nat, p: nat)
    requires |data| >= 128 && i <= FILE_NAME_LENGTH && 0 !in data[..i]
    requires if i < FILE_NAME_LENGTH then data[i] == 0 && p == i + 1 else p == i
    ensures NameEnd(data) == p
  {
    assert data[..FILE_NAME_LENGTH][..i] == data[..i];
    FindIs(data[..FILE_NAME_LENGTH], 0, i);
  }

  /** A header packet without a name, for a file of 512 bytes. */
  const SMALL: Packet := [SOH, 0, 0xFF, 0, 0x35, 0x31, 0x32, 0x20] + seq(125, _ => 0)

  lemma SmallDeclares()
    ensures !IsNull(SMALL) && SMALL[1] == 0 && DeclaredSize(Data(SMALL)) == 512
  {
    hide Numbers.Parse, Char;
    var d := Data(SMALL);
    assert d[0] == 0 && d[1] == 0x35 && d[2] == 0x31 && d[3] == 0x32 && d[4] == 0x20;
    FindIs(d[..FILE_NAME_LENGTH], 0, 0);
    var s := d[1..][..FILE_SIZE_LENGTH];
    FindIs(s, 0x20, 3);
    var t := s[..3];
    assert t == [0x35, 0x31, 0x32];
    FindIs(t, 0, 3);
    assert t[..3] == t;
    SmallText(t);
    SmallValue();
  }

  /** The same for a file of 2048 bytes. */
  function Large(): Packet {
    [SOH, 0, 0xFF, 0, 0x32, 0x30, 0x34, 0x38, 0x20] + seq(124, _ => 0)
  }

  lemma LargeDeclares()
    ensures !IsNull(Large()) && Large()[1] == 0 && DeclaredSize(Data(Large())) == 2048
  {
    hide Numbers.Parse, Char;
    var d := Data(Large());
    assert d[0] == 0 && d[1] == 0x32 && d[2] == 0x30 && d[3] == 0x34 && d[4] == 0x38 && d[5] == 0x20;
    FindIs(d[..FILE_NAME_LENGTH], 0, 0);
    var s := d[1..][..FILE_SIZE_LENGTH];
    FindIs(s, 0x20, 4);
    var t := s[..4];
    assert t == [0x32, 0x30, 0x34, 0x38];
    FindIs(t, 0, 4);
    assert t[..4] == t;
    LargeText(t);
    LargeValue();
  }

  lemma LargeText(t: seq<byte>)
    requires t == [0x32, 0x30, 0x34, 0x38] && Find(t, 0) == 4
    ensures Text(t) == "2048"
  {
    assert Char(0x32) == '2' && Char(0x30) == '0' && Char(0x34) == '4' && Char(0x38) == '8';
  }

  lemma LargeValue()
    ensures Numbers.Parse("2048") == Some(2048)
  {
    var s := "2048";
    Numbers.LeadingIs(s, 4);
    assert s[..4] == s;
    assert Numbers.Value("", 10) == 0;
    assert Numbers.Value("2", 10) == 2 by { assert "2"[..0] == ""; }
    assert Numbers.Value("20", 10) == 20 by { assert "20"[..1] == "2"; }
    assert Numbers.Value("204", 10) == 204 by { assert "204"[..2] == "20"; }
    assert Numbers.Value(s, 10) == 2048 by { assert s[..3] == "204"; }
  }

  lemma SmallText(t: seq<byte>)
    requires t == [0x35, 0x31, 0x32] && Find(t, 0) == 3
    ensures Text(t) == "512"
  {
    assert Char(0x35) == '5' && Char(0x31) == '1' && Char(0x32) == '2';
  }

  lemma SmallValue()
    ensures Numbers.Parse("512") == Some(512)
  {
    var s := "512";
    Numbers.LeadingIs(s, 3);
    assert s[..3] == s && s[..2] == "51" && s[..2][..1] == "5" && s[..2][..1][..0] == "";
    assert Numbers.Value("", 10) == 0;
    assert Numbers.Value("5", 10) == 5 by { assert "5"[..0] == ""; }
    assert Numbers.Value("51", 10) == 51 by { assert "51"[..1] == "5"; }
    assert Numbers.Value(s, 10) == 512;
  }

  // ---- What a session takes ----

  /**
   * The number of the packet expected, the declared size, the bytes taken, whether the file is done, and whether every packet
   * taken was a long one or brought all the bytes that remained.
   */
  datatype Track = Track(cnt: nat, size: nat, data: seq<byte>, done: bool, intact: bool)

  /** The packet has the number expected, of which eight bits are sent. */
  predicate IsNumber(p: Packet, cnt: nat) {
    p[1] == (cnt % 0x100) as byte
  }

  /** The bytes that remain to be taken. */
  function Room(t: Track): nat {
    if t.size < |t.data| then 0 else t.size - |t.data|
  }

  function Take(t: Track, data: seq<byte>): Track {
    var d := t.data + data[..if |data| <= Room(t) then |data| else Room(t)];
    var intact := t.intact && (|data| == 1024 || |data| >= Room(t));
    if |d| >= t.size then Track(t.cnt, t.size, d, true, intact) else Track(t.cnt + 1, t.size, d, false, intact)
  }

  /** A packet with another number than the expected one is not taken. */
  function Follow(t: Track, e: Event): Track {
    match e
    case Received(p) =>
      if !IsNumber(p, t.cnt) then t
      else if t.cnt == 0 then Track(1, DeclaredSize(Data(p)), [], false, true)
      else Take(t, Data(p))
    case EndOfFile => if t.done then t.(cnt := 0, done := false) else t
    case _ => t
  }

  function FollowAll(t: Track, es: seq<Event>): Track
    decreases |es|
  {
    if es == [] then t else Follow(FollowAll(t, es[..|es| - 1]), es[|es| - 1])
  }

  /** The event brings the next bytes of the file, or it is one the session does not take. */
  predicate Brings(t: Track, e: Event, f: seq<byte>) {
    e.Received? && IsNumber(e.packet, t.cnt) && t.cnt > 0 && |t.data| < |f| ==>
      var n := |Data(e.packet)|;
      forall i :: 0 <= i < n && |t.data| + i < |f| ==> Data(e.packet)[i] == f[|t.data| + i]
  }

  /** In a transfer of a file no second header is taken, and every packet that is taken brings the next bytes. */
  predicate Transfers(t: Track, es: seq<Event>, f: seq<byte>)
    decreases |es|
  {
    es == [] ||
      var u := FollowAll(t, es[..|es| - 1]);
      var e := es[|es| - 1];
      Transfers(t, es[..|es| - 1], f) && Brings(u, e, f) && !(u.done && e.EndOfFile?)
  }

  /** Whatever else is sent in between, the bytes taken are those of the file in order, and when it is done, all of them. */
  lemma {:induction false} TakenInOrder(t: Track, es: seq<Event>, f: seq<byte>)
    requires t.cnt > 0 && t.size == |f| && t.data <= f && (t.done ==> t.data == f)
    requires Transfers(t, es, f)
    ensures var u := FollowAll(t, es); u.cnt > 0 && u.size == |f| && u.data <= f && (u.done ==> u.data == f)
    decreases |es|
  {
    if es != [] {
      TakenInOrder(t, es[..|es| - 1], f);
      TakenOne(FollowAll(t, es[..|es| - 1]), es[|es| - 1], f);
    }
  }

  lemma TakenOne(u: Track, e: Event, f: seq<byte>)
    requires u.cnt > 0 && u.size == |f| && u.data <= f && (u.done ==> u.data == f)
    requires Brings(u, e, f) && !(u.done && e.EndOfFile?)
    ensures var v := Follow(u, e); v.cnt > 0 && v.size == |f| && v.data <= f && (v.done ==> v.data == f)
  {
    hide DeclaredSize;
    if e.Received? && IsNumber(e.packet, u.cnt) {
      var d := Data(e.packet);
      var room := |f| - |u.data|;
      var k := if |d| <= room then |d| else room;
      forall i | 0 <= i < k
        ensures d[i] == f[|u.data| + i]
      {
        assert Data(e.packet)[i] == f[|u.data| + i];
      }
      assert f[..|u.data| + k] == u.data + d[..k];
    }
  }

  /** The event is a packet with further bytes of the file. */
  predicate Loads(t: Track, e: Event) {
    e.Received? && IsNumber(e.packet, t.cnt) && t.cnt > 0 && !IsNull(e.packet)
  }

  /** None of the events brings bytes of a file. */
  predicate Tail(t: Track, es: seq<Event>)
    decreases |es|
  {
    es == [] || (Tail(t, es[..|es| - 1]) && !Loads(FollowAll(t, es[..|es| - 1]), es[|es| - 1]))
  }

  lemma {:induction false} TailPrefix(t: Track, es: seq<Event>, k: nat)
    requires Tail(t, es) && k <= |es|
    ensures Tail(t, es[..k])
    decreases |es|
  {
    if k < |es| {
      TailPrefix(t, es[..|es| - 1], k);
      assert es[..|es| - 1][..k] == es[..k];
    } else {
      assert es[..k] == es;
    }
  }

  lemma {:induction false} FollowAllConcat(t: Track, a: seq<Event>, b: seq<Event>)
    ensures FollowAll(t, a + b) == FollowAll(FollowAll(t, a), b)
    decreases |b|
  {
    if b == [] {
      assert a + b == a;
    } else {
      assert (a + b)[..|a + b| - 1] == a + b[..|b| - 1];
      FollowAllConcat(t, a, b[..|b| - 1]);
    }
  }

  lemma {:induction false} FollowAllSplit(t: Track, es: seq<Event>)
    requires es != []
    ensures FollowAll(t, es) == FollowAll(Follow(t, es[0]), es[1..])
    decreases |es|
  {
    if |es| > 1 {
      FollowAllSplit(t, es[..|es| - 1]);
      assert es[..|es| - 1][1..] == es[1..][..|es| - 2];
    } else {
      assert es[..0] == [];
    }
  }

  /** In a transfer of a file every packet that is taken brings the next bytes up to any moment. */
  lemma {:induction false} TransfersPrefix(t: Track, es: seq<Event>, f: seq<byte>, k: nat)
    requires Transfers(t, es, f) && k <= |es|
    ensures Transfers(t, es[..k], f)
    decreases |es|
  {
    if k < |es| {
      TransfersPrefix(t, es[..|es| - 1], f, k);
      assert es[..|es| - 1][..k] == es[..k];
    } else {
      assert es[..k] == es;
    }
  }
}
