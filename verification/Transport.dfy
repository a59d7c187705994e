/**
  The device's serial transport: a 512-slot ring buffer that holds at most 511
  bytes, framed packets sent over the wire, and the receiver that reads them back.
 */
module Transport {
  import opened Basics

  const RX_BUF_SIZE: nat := 512
  const SYNC_WORD: Bytes := [0x55, 0xAA, 0x55, 0xAA]
  const TYPE_WAL: Byte := 0x03
  const TYPE_SEARCH: Byte := 0x04
  const TYPE_INFER: Byte := 0x06

  datatype PacketKind = Wal | Search | Infer | Unknown

  datatype Received = Packet(kind: PacketKind, payload: Bytes) | BadSync | Overflow

  function KindOf(t: Byte): PacketKind {
    if t == TYPE_WAL then Wal else if t == TYPE_SEARCH then Search else if t == TYPE_INFER then Infer else Unknown
  }

  // ---- the wire -----------------------------------------------------------

  /** The serial port: bytes still to arrive, and bytes written. */
  class Uart {
    var incoming: Bytes
    var written: Bytes

    method WriteByte(b: Byte)
      modifies this`written
      ensures written == old(written) + [b]
    {
      written := written + [b];
    }

    /** Reading blocks until a byte arrives. */
    method ReadByte() returns (b: Byte)
      requires incoming != []
      modifies this`incoming
      ensures b == old(incoming)[0] && incoming == old(incoming)[1..]
    {
      b, incoming := incoming[0], incoming[1..];
    }

    method WriteAll(data: Bytes)
      modifies this`written
      ensures written == old(written) + data
    {
      for i := 0 to |data|
        invariant written == old(written) + data[..i]
      {
        WriteByte(data[i]);
      }
    }
  }

  /** A frame on the wire: sync word, type, length, payload. */
  function Frame(t: Byte, data: Bytes): Bytes {
    SYNC_WORD + [t] + ToLe(|data|) + data
  }

  method SendFramed(uart: Uart, t: Byte, data: Bytes)
    modifies uart`written
    ensures uart.written == old(uart.written) + Frame(t, data)
  {
    uart.WriteAll(SYNC_WORD);
    uart.WriteByte(t);
    uart.WriteAll(ToLe(|data|));
    uart.WriteAll(data);
  }

  // ---- the ring -----------------------------------------------------------

  /** The slots of `a` from `tail` round to `head`. */
  function Ring<T>(a: seq<T>, head: nat, tail: nat): (s: seq<T>)
    requires head < |a| && tail < |a|
    ensures |s| == if tail <= head then head - tail else head + |a| - tail
  {
    if tail <= head then a[tail..head] else a[tail..] + a[..head]
  }

  function After<T>(a: seq<T>, i: nat): (j: nat)
    requires i < |a|
    ensures j < |a|
  {
    if i + 1 == |a| then 0 else i + 1
  }

  lemma {:induction false} RingPush<T>(a: seq<T>, head: nat, tail: nat, b: T)
    requires head < |a| && tail < |a| && After(a, head) != tail
    ensures Ring(a[head := b], After(a, head), tail) == Ring(a, head, tail) + [b]
  {
    if head + 1 == |a| {
      assert a[head := b][tail..] == a[tail..head] + [b];
    } else if tail <= head {
      assert a[head := b][tail..head + 1] == a[tail..head] + [b];
    } else {
      assert a[head := b][..head + 1] == a[..head] + [b] && a[head := b][tail..] == a[tail..];
    }
  }

  lemma {:induction false} RingPop<T>(a: seq<T>, head: nat, tail: nat)
    requires head < |a| && tail < |a| && head != tail
    ensures Ring(a, head, tail) == [a[tail]] + Ring(a, head, After(a, tail))
  {
    if tail < head {
      assert a[tail..head] == [a[tail]] + a[tail + 1..head];
    } else if tail + 1 == |a| {
      assert a[tail..] == [a[tail]] && a[0..head] == a[..head];
    } else {
      assert a[tail..] == [a[tail]] + a[tail + 1..];
      assert [a[tail]] + a[tail + 1..] + a[..head] == [a[tail]] + (a[tail + 1..] + a[..head]);
    }
  }

  class RxBuf {
    const buf: array<Byte>
    var head: nat
    var tail: nat

    ghost predicate Valid() reads this {
      buf.Length == RX_BUF_SIZE && head < RX_BUF_SIZE && tail < RX_BUF_SIZE
    }

    function Len(): (n: nat)
      requires Valid()
      reads this
      ensures n == if tail <= head then head - tail else head + RX_BUF_SIZE - tail
    {
      (head + RX_BUF_SIZE - tail) % RX_BUF_SIZE
    }

    /** The bytes held, oldest first. */
    ghost function Contents(): (s: Bytes)
      requires Valid()
      reads this, buf
      ensures |s| == Len()
    {
      Ring(buf[..], head, tail)
    }

    constructor ()
      ensures Valid() && Contents() == [] && fresh(buf)
    {
      buf := new Byte[RX_BUF_SIZE](_ => 0);
      head, tail := 0, 0;
    }

    /** A FIFO of 511 bytes: a push beyond that is dropped. */
    method Push(b: Byte)
      requires Valid()
      modifies this`head, buf
      ensures Valid()
      ensures Contents() == if |old(Contents())| < RX_BUF_SIZE - 1 then old(Contents()) + [b] else old(Contents())
    {
      hide Ring;
      var next := (head + 1) % RX_BUF_SIZE;
      assert next == After(buf[..], head);
      if next != tail {
        RingPush(buf[..], head, tail, b);
        ghost var was := buf[..];
        buf[head] := b;
        assert buf[..] == was[head := b];
        head := next;
      }
    }

    method Pop() returns (b: Option<Byte>)
      requires Valid()
      modifies this`tail
      ensures Valid()
      ensures old(Contents()) == [] ==> b == None && Contents() == []
      ensures old(Contents()) != [] ==> b == Some(old(Contents())[0]) && Contents() == old(Contents())[1..]
    {
      hide Ring;
      if head == tail { return None; }
      RingPop(buf[..], head, tail);
      b := Some(buf[tail]);
      assert (tail + 1) % RX_BUF_SIZE == After(buf[..], tail);
      tail := (tail + 1) % RX_BUF_SIZE;
    }
  }

  // ---- receiving ----------------------------------------------------------

  /** Everything the receiver will see: what is buffered, then what is to arrive. */
  ghost function Stream(rx: RxBuf, uart: Uart): Bytes
    requires rx.Valid()
    reads rx, rx.buf, uart
  {
    rx.Contents() + uart.incoming
  }

  /** `n` up to 511: the ring can never hold more, and the source would wait forever. */
  method RecvInto(rx: RxBuf, uart: Uart, n: nat)
    requires rx.Valid() && n < RX_BUF_SIZE && |Stream(rx, uart)| >= n
    modifies rx`head, rx.buf, uart`incoming
    ensures rx.Valid() && Stream(rx, uart) == old(Stream(rx, uart)) && rx.Len() >= n
  {
    hide Ring;
    while rx.Len() < n
      invariant rx.Valid() && Stream(rx, uart) == old(Stream(rx, uart))
      decreases |uart.incoming|
    {
      assert |rx.Contents()| < n;
      var b := uart.ReadByte();
      rx.Push(b);
    }
  }

  function Zeros(n: nat): Bytes {
    seq(n, _ => 0)
  }

  /** Takes the next `n` bytes; where the ring runs out, the source fills in zeros. */
  method DrainInto(rx: RxBuf, n: nat) returns (dst: Bytes)
    requires rx.Valid()
    modifies rx`tail
    ensures rx.Valid()
    ensures n <= |old(rx.Contents())| ==> dst == old(rx.Contents())[..n] && rx.Contents() == old(rx.Contents())[n..]
    ensures n > |old(rx.Contents())| ==> dst == old(rx.Contents()) + Zeros(n - |old(rx.Contents())|) && rx.Contents() == []
  {
    hide Ring;
    dst := [];
    ghost var held := rx.Contents();
    for i := 0 to n
      invariant rx.Valid() && held == old(rx.Contents())
      invariant i <= |held| ==> dst == held[..i] && rx.Contents() == held[i..]
      invariant i > |held| ==> dst == held + Zeros(i - |held|) && rx.Contents() == []
    {
      var b := rx.Pop();
      dst := dst + [if b.Some? then b.value else 0];
    }
  }

  /** Wait for `n` bytes and take them. */
  method Recv(rx: RxBuf, uart: Uart, n: nat) returns (dst: Bytes)
    requires rx.Valid() && n < RX_BUF_SIZE && |Stream(rx, uart)| >= n
    modifies rx`head, rx`tail, rx.buf, uart`incoming
    ensures rx.Valid() && dst == old(Stream(rx, uart))[..n] && Stream(rx, uart) == old(Stream(rx, uart))[n..]
  {
    RecvInto(rx, uart, n);
    ghost var s, held := Stream(rx, uart), rx.Contents();
    dst := DrainInto(rx, n);
    assert s[..n] == held[..n] && s[n..] == held[n..] + uart.incoming;
  }

  /** What the receiver makes of a stream, and what it leaves of it. */
  function Parse(s: Bytes, capacity: nat): (Received, Bytes)
    requires Ready(s, capacity)
  {
    if s[..4] != SYNC_WORD then (BadSync, s[4..]) else ParseBody(s[4..], capacity)
  }

  /** The rest of a frame: type, length, payload. */
  function ParseBody(s: Bytes, capacity: nat): (Received, Bytes)
    requires BodyReady(s, capacity)
  {
    var len := FromLe(s[1..5]);
    if len > capacity then (Overflow, s[5..]) else (Packet(KindOf(s[0]), s[5..5 + len]), s[5 + len..])
  }

  /** Enough bytes are on their way for the receiver not to wait forever. */
  predicate Ready(s: Bytes, capacity: nat) {
    |s| >= 4 && (s[..4] == SYNC_WORD ==> BodyReady(s[4..], capacity))
  }

  predicate BodyReady(s: Bytes, capacity: nat) {
    |s| >= 5 && (FromLe(s[1..5]) <= capacity ==> FromLe(s[1..5]) < RX_BUF_SIZE && |s| >= 5 + FromLe(s[1..5]))
  }

  method RecvPacket(rx: RxBuf, uart: Uart, capacity: nat) returns (r: Received)
    requires rx.Valid() && Ready(Stream(rx, uart), capacity)
    modifies rx`head, rx`tail, rx.buf, uart`incoming
    ensures rx.Valid() && (r, Stream(rx, uart)) == Parse(old(Stream(rx, uart)), capacity)
  {
    hide Stream, ParseBody, BodyReady;
    var sync := Recv(rx, uart, 4);
    if sync != SYNC_WORD { return BadSync; }
    r := RecvBody(rx, uart, capacity);
  }

  method RecvBody(rx: RxBuf, uart: Uart, capacity: nat) returns (r: Received)
    requires rx.Valid() && BodyReady(Stream(rx, uart), capacity)
    modifies rx`head, rx`tail, rx.buf, uart`incoming
    ensures rx.Valid() && (r, Stream(rx, uart)) == ParseBody(old(Stream(rx, uart)), capacity)
  {
    hide Stream, FromLe, KindOf;
    ghost var s := Stream(rx, uart);
    var t := Recv(rx, uart, 1);
    var lb := Recv(rx, uart, 4);
    Slices(s, 1, 4);
    assert t[0] == s[0];
    var len := FromLe(lb);
    if len > capacity { return Overflow; }
    var payload := Recv(rx, uart, len);
    Slices(s, 5, len);
    return Packet(KindOf(t[0]), payload);
  }

  lemma {:induction false} Slices(s: Bytes, a: nat, n: nat)
    requires a + n <= |s|
    ensures s[a..][..n] == s[a..a + n] && s[a..][n..] == s[a + n..]
  {
  }

  /** A 32-bit number from the four bytes that start at `i`, the lowest first. */
  function Le32(s: Bytes, i: nat): nat
    requires i + 4 <= |s|
  {
    s[i] as int + 0x100 * (s[i + 1] as int + 0x100 * (s[i + 2] as int + 0x100 * (s[i + 3] as int)))
  }

  lemma {:induction false} FromLeIs(s: Bytes, i: nat)
    requires i + 4 <= |s|
    ensures FromLe(s[i..i + 4]) == Le32(s, i)
  {
  }

  /** What the receiver makes of a stream, byte by byte: four bytes that are not the sync
      word are thrown away; a length above the capacity is an overflow and the payload
      is left on the stream; otherwise the type byte gives the kind and the payload is
      the next bytes, as many as the length says. */
  lemma {:induction false} ParseIs(s: Bytes, capacity: nat)
    requires Ready(s, capacity)
    ensures var (r, rest) := Parse(s, capacity);
      if !(s[0] == 0x55 && s[1] == 0xAA && s[2] == 0x55 && s[3] == 0xAA) then r == BadSync && rest == s[4..]
      else if Le32(s, 5) > capacity then r == Overflow && rest == s[9..]
      else
        && r.Packet? && |s| >= 9 + Le32(s, 5) && r.payload == s[9..9 + Le32(s, 5)] && rest == s[9 + Le32(s, 5)..]
        && (r.kind.Wal? <==> s[4] == 0x03) && (r.kind.Search? <==> s[4] == 0x04) && (r.kind.Infer? <==> s[4] == 0x06)
  {
    assert s[..4] == SYNC_WORD <==> s[0] == 0x55 && s[1] == 0xAA && s[2] == 0x55 && s[3] == 0xAA;
    if s[..4] == SYNC_WORD {
      var body := s[4..];
      assert body[1..5] == s[5..9] && body[5..] == s[9..];
      FromLeIs(s, 5);
      hide FromLe, Le32;
      var n := FromLe(body[1..5]);
      if n <= capacity { assert body[5..5 + n] == s[9..9 + n] && body[5 + n..] == s[9 + n..]; }
    }
  }

  /** A frame on the wire, byte by byte. */
  lemma {:induction false} FrameIs(t: Byte, data: Bytes)
    requires |data| < 0x1_0000_0000
    ensures var f := Frame(t, data);
      && |f| == 9 + |data| && f[0] == 0x55 && f[1] == 0xAA && f[2] == 0x55 && f[3] == 0xAA
      && f[4] == t && Le32(f, 5) == |data| && f[9..] == data
  {
    var f := Frame(t, data);
    LeRoundTrip(|data|);
    assert f[5..9] == ToLe(|data|);
    FromLeIs(f, 5);
    hide FromLe, ToLe, Le32;
    assert f[9..] == data;
  }

  // ---- round trip ---------------------------------------------------------

  /** A frame that fits comes back as the packet that was sent, and nothing else is consumed. */
  lemma {:induction false} FrameRoundTrip(t: Byte, data: Bytes, rest: Bytes, capacity: nat)
    requires |data| < RX_BUF_SIZE && |data| <= capacity
    ensures Ready(Frame(t, data) + rest, capacity)
    ensures Parse(Frame(t, data) + rest, capacity) == (Packet(KindOf(t), data), rest)
  {
    var body := [t] + ToLe(|data|) + data + rest;
    assert Frame(t, data) + rest == SYNC_WORD + body;
    assert (SYNC_WORD + body)[..4] == SYNC_WORD && (SYNC_WORD + body)[4..] == body;
    BodyRoundTrip(t, data, rest, capacity);
    hide Frame, ToLe, ParseBody, BodyReady;
  }

  lemma {:induction false} BodyRoundTrip(t: Byte, data: Bytes, rest: Bytes, capacity: nat)
    requires |data| < RX_BUF_SIZE && |data| <= capacity
    ensures var body := [t] + ToLe(|data|) + data + rest;
      BodyReady(body, capacity) && ParseBody(body, capacity) == (Packet(KindOf(t), data), rest)
  {
    var body := [t] + ToLe(|data|) + data + rest;
    LeRoundTrip(|data|);
    hide ToLe, FromLe;
    assert body[0] == t && body[1..5] == ToLe(|data|);
    assert body[5..5 + |data|] == data && body[5 + |data|..] == rest;
  }

  datatype Message = Message(t: Byte, data: Bytes)

  function Wire(messages: seq<Message>): Bytes {
    if messages == [] then [] else Frame(messages[0].t, messages[0].data) + Wire(messages[1..])
  }

  /** Receive as many packets as were sent: they are the ones sent, in order. */
  method RecvAll(rx: RxBuf, uart: Uart, messages: seq<Message>, capacity: nat) returns (got: seq<Received>)
    requires rx.Valid() && Stream(rx, uart) == Wire(messages)
    requires forall k :: 0 <= k < |messages| ==> |messages[k].data| < RX_BUF_SIZE && |messages[k].data| <= capacity
    modifies rx`head, rx`tail, rx.buf, uart`incoming
    ensures rx.Valid() && Stream(rx, uart) == []
    ensures |got| == |messages| && forall k :: 0 <= k < |messages| ==> got[k] == Packet(KindOf(messages[k].t), messages[k].data)
  {
    hide Parse, Frame, KindOf;
    got := [];
    for i := 0 to |messages|
      invariant rx.Valid() && Stream(rx, uart) == Wire(messages[i..]) && |got| == i
      invariant forall k :: 0 <= k < i ==> got[k] == Packet(KindOf(messages[k].t), messages[k].data)
    {
      var m, rest := messages[i], messages[i + 1..];
      assert messages[i..][1..] == rest;
      FrameRoundTrip(m.t, m.data, Wire(rest), capacity);
      var r := RecvPacket(rx, uart, capacity);
      got := got + [r];
    }
  }
}
