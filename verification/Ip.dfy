/** src/network/ip.c: what is put on the wire, and what a receiver makes of it. */
module Ip {
  import opened Checksum
  import opened Machine
  import opened Options
  import F = Format
  import H = Http
  import T = TcpSockets

  const NET_BUF_SIZE: nat := 2048
  const ETH_HDR_LEN: nat := 14
  const IP_HDR_LEN: nat := 20
  const ETHERTYPE_IP: nat := 0x0800
  const PROTO_ICMP: byte := 1
  const PROTO_TCP: byte := 6
  const MAX_TCP_PAYLOAD: nat := NET_BUF_SIZE - ETH_HDR_LEN - IP_HDR_LEN - T.TCP_HDR_LEN

  type half = x: int | 0 <= x < 0x1_0000

  type mac = m: seq<byte> | |m| == 6 witness [0, 0, 0, 0, 0, 0]

  const OUR_MAC: seq<byte> := [0x52, 0x54, 0x00, 0x12, 0x34, 0x56]

  /** The k-th byte of a 16- or 32-bit value in network order. */
  function B2(v: half, k: nat): byte { if k == 0 then v / 0x100 else v % 0x100 }

  function B4(v: word, k: nat): byte {
    if k == 0 then v / 0x100_0000 else if k == 1 then v / 0x1_0000 % 0x100
    else if k == 2 then v / 0x100 % 0x100 else v % 0x100
  }

  // ---------------------------------------------------------------- formats

  /** sum is stored as the machine stores it, low byte first. */
  function IpHeader(total: half, id: half, proto: byte, src: word, dst: word, sum: half): seq<byte> {
    [0x45, 0, B2(total, 0), B2(total, 1), B2(id, 0), B2(id, 1), 0, 0, 64, proto, sum % 0x100, sum / 0x100,
     B4(src, 0), B4(src, 1), B4(src, 2), B4(src, 3), B4(dst, 0), B4(dst, 1), B4(dst, 2), B4(dst, 3)]
  }

  function IpPacket(id: half, proto: byte, dst: word, payload: seq<byte>): seq<byte>
    requires IP_HDR_LEN + |payload| < 0x1_0000
  {
    var total := IP_HDR_LEN + |payload|;
    var sum := IpChecksum(IpHeader(total, id, proto, T.NET_IP_ADDR, dst, 0));
    IpHeader(total, id, proto, T.NET_IP_ADDR, dst, sum) + payload
  }

  /** The TCP pseudo-header of section 3.1 of RFC 9293. */
  function Pseudo(src: word, dst: word, len: half): seq<byte> {
    [B4(src, 0), B4(src, 1), B4(src, 2), B4(src, 3), B4(dst, 0), B4(dst, 1), B4(dst, 2), B4(dst, 3),
     0, PROTO_TCP, B2(len, 0), B2(len, 1)]
  }

  function TcpHeader(src: half, dst: half, seqNo: word, ackNo: word, flags: byte, sum: half): seq<byte> {
    [B2(src, 0), B2(src, 1), B2(dst, 0), B2(dst, 1), B4(seqNo, 0), B4(seqNo, 1), B4(seqNo, 2), B4(seqNo, 3),
     B4(ackNo, 0), B4(ackNo, 1), B4(ackNo, 2), B4(ackNo, 3), 0x50, flags, B2(4096, 0), B2(4096, 1),
     sum % 0x100, sum / 0x100, 0, 0]
  }

  function TcpSum(ip: word, seg: seq<byte>): half
    requires |seg| < 0x1_0000
  {
    IpChecksum(Pseudo(T.NET_IP_ADDR, ip, |seg|) + seg)
  }

  function TcpSegment(src: half, dst: half, ip: word, seqNo: word, ackNo: word, flags: byte, payload: seq<byte>)
    : seq<byte>
    requires |payload| <= MAX_TCP_PAYLOAD
  {
    var sum := TcpSum(ip, TcpHeader(src, dst, seqNo, ackNo, flags, 0) + payload);
    TcpHeader(src, dst, seqNo, ackNo, flags, sum) + payload
  }

  function Frame(to: mac, etherType: half, payload: seq<byte>): seq<byte> {
    to + OUR_MAC + [B2(etherType, 0), B2(etherType, 1)] + payload
  }

  // ---------------------------------------------------------------- receiving

  /** What ip_receive does with a packet. */
  datatype Action = Ignored | Echo(src: word, message: seq<byte>) | ToTcp(src: word, segment: seq<byte>)

  /** ip_receive of a machine with address me. */
  function Dispatch(p: seq<byte>, me: word): Action {
    if |p| < IP_HDR_LEN then Ignored
    else
      var first: int, proto: int := p[0], p[9];
      var ihl := first % 0x10 * 4;
      if first / 0x10 != 4 || ihl < IP_HDR_LEN || |p| < ihl || T.Be32(p, 16) != me then Ignored
      else
        var payload := p[ihl..];
        var src := T.Be32(p, 12);
        if proto == PROTO_ICMP then
          if |payload| >= 8 && payload[0] == 8 then Echo(src, payload) else Ignored
        else if proto == PROTO_TCP then ToTcp(src, payload)
        else Ignored
  }

  /** The ICMP message sent back: an echo reply with a checksum of its own. */
  function EchoReply(message: seq<byte>): seq<byte>
    requires |message| >= 8
  {
    var zeroed := message[0 := 0][2 := 0][3 := 0];
    Stored(zeroed, 2, IpChecksum(zeroed))
  }

  // ---------------------------------------------------------------- the checksums check

  lemma HeaderStored(total: half, id: half, proto: byte, src: word, dst: word, sum: half)
    ensures Half(IpHeader(total, id, proto, src, dst, 0), 10) == 0
    ensures IpHeader(total, id, proto, src, dst, sum) == Stored(IpHeader(total, id, proto, src, dst, 0), 10, sum)
  {
  }

  /** The header of every packet sent sums to checksum 0. */
  lemma PacketChecks(id: half, proto: byte, dst: word, payload: seq<byte>)
    requires IP_HDR_LEN + |payload| < 0x1_0000
    ensures IpChecksum(IpPacket(id, proto, dst, payload)[..IP_HDR_LEN]) == 0
  {
    hide IpChecksum;
    var total := IP_HDR_LEN + |payload|;
    var blank := IpHeader(total, id, proto, T.NET_IP_ADDR, dst, 0);
    HeaderStored(total, id, proto, T.NET_IP_ADDR, dst, IpChecksum(blank));
    InsertedChecks(blank, 10);
  }

  lemma TcpStored(ps: seq<byte>, src: half, dst: half, seqNo: word, ackNo: word, flags: byte, payload: seq<byte>,
                  sum: half)
    requires |ps| == 12
    ensures Half(ps + (TcpHeader(src, dst, seqNo, ackNo, flags, 0) + payload), 28) == 0
    ensures ps + (TcpHeader(src, dst, seqNo, ackNo, flags, sum) + payload)
         == Stored(ps + (TcpHeader(src, dst, seqNo, ackNo, flags, 0) + payload), 28, sum)
  {
  }

  /** Every TCP segment sent, behind its pseudo-header, sums to checksum 0. */
  lemma SegmentChecks(src: half, dst: half, ip: word, seqNo: word, ackNo: word, flags: byte, payload: seq<byte>)
    requires |payload| <= MAX_TCP_PAYLOAD
    ensures TcpSum(ip, TcpSegment(src, dst, ip, seqNo, ackNo, flags, payload)) == 0
  {
    hide IpChecksum, TcpHeader, Pseudo;
    HeaderSize(src, dst, seqNo, ackNo, flags, 0);
    var blank := TcpHeader(src, dst, seqNo, ackNo, flags, 0) + payload;
    var sum := TcpSum(ip, blank);
    HeaderSize(src, dst, seqNo, ackNo, flags, sum);
    PseudoSize(T.NET_IP_ADDR, ip, |blank|);
    var ps := Pseudo(T.NET_IP_ADDR, ip, |blank|);
    TcpStored(ps, src, dst, seqNo, ackNo, flags, payload, sum);
    InsertedChecks(ps + blank, 28);
  }

  lemma HeaderSize(src: half, dst: half, seqNo: word, ackNo: word, flags: byte, sum: half)
    ensures |TcpHeader(src, dst, seqNo, ackNo, flags, sum)| == 20
  {
  }

  lemma PseudoSize(src: word, dst: word, len: half)
    ensures |Pseudo(src, dst, len)| == 12
  {
  }

  /** An echo reply checks to 0 and differs from the request in its type and its checksum only. */
  lemma EchoChecks(message: seq<byte>)
    requires 8 <= |message| <= NET_BUF_SIZE
    ensures IpChecksum(EchoReply(message)) == 0
    ensures |EchoReply(message)| == |message| && EchoReply(message)[0] == 0
    ensures forall i :: 0 <= i < |message| && i !in {0, 2, 3} ==> EchoReply(message)[i] == message[i]
  {
    hide IpChecksum;
    var zeroed := message[0 := 0][2 := 0][3 := 0];
    assert Half(zeroed, 2) == 0;
    InsertedChecks(zeroed, 2);
  }

  /** tcp_checksum sums the pseudo-header and the segment apart; that is ip_checksum of the two joined. */
  lemma TcpSumSplits(src: word, dst: word, seg: seq<byte>)
    requires |seg| < 0x1_0000
    ensures IpChecksum(Pseudo(src, dst, |seg|) + seg) == Complement(Words(Pseudo(src, dst, |seg|)) + Words(seg))
  {
    hide Complement, Pseudo, Words;
    PseudoSize(src, dst, |seg|);
    WordsConcat(Pseudo(src, dst, |seg|), seg);
  }

  // ---------------------------------------------------------------- what is sent is what is received

  lemma Be16B2(p: seq<byte>, i: nat, v: half)
    requires i + 2 <= |p| && p[i] == B2(v, 0) && p[i + 1] == B2(v, 1)
    ensures T.Be16(p, i) == v
  {
  }

  lemma Be32B4(p: seq<byte>, i: nat, v: word)
    requires i + 4 <= |p| && p[i] == B4(v, 0) && p[i + 1] == B4(v, 1) && p[i + 2] == B4(v, 2) && p[i + 3] == B4(v, 3)
    ensures T.Be32(p, i) == v
  {
    SplitWord(v);
  }

  lemma SplitWord(v: word)
    ensures v == 0x100_0000 * (v / 0x100_0000) + 0x1_0000 * (v / 0x1_0000 % 0x100)
                 + 0x100 * (v / 0x100 % 0x100) + v % 0x100
  {
    var a, b := v / 0x100, v / 0x1_0000;
    assert v == 0x100 * a + v % 0x100;
    assert a == 0x100 * b + a % 0x100;
    assert b == 0x100 * (v / 0x100_0000) + b % 0x100;
  }

  /** A packet reaches the machine with its destination address, and no other. The length field is not looked at,
      so padding behind the packet becomes part of the segment. */
  lemma PacketArrives(id: half, dst: word, segment: seq<byte>, padding: seq<byte>, me: word)
    requires IP_HDR_LEN + |segment| < 0x1_0000
    ensures Dispatch(IpPacket(id, PROTO_TCP, dst, segment) + padding, me)
         == if me == dst then ToTcp(T.NET_IP_ADDR, segment + padding) else Ignored
  {
    hide IpChecksum, B4, B2, T.Be32;
    var p := IpPacket(id, PROTO_TCP, dst, segment) + padding;
    Be32B4(p, 12, T.NET_IP_ADDR);
    Be32B4(p, 16, dst);
    assert p[IP_HDR_LEN..] == segment + padding;
    assert p[0] == 0x45 && p[9] == PROTO_TCP;
  }

  lemma HeaderFields(src: half, dst: half, seqNo: word, ackNo: word, flags: byte, sum: half)
    ensures var h := TcpHeader(src, dst, seqNo, ackNo, flags, sum);
      && |h| == 20 && h[12] == 0x50 && h[13] == flags
      && T.Be16(h, 0) == src && T.Be16(h, 2) == dst && T.Be32(h, 4) == seqNo && T.Be32(h, 8) == ackNo
  {
    hide B4, B2, T.Be32, T.Be16;
    var h := TcpHeader(src, dst, seqNo, ackNo, flags, sum);
    Be16B2(h, 0, src);
    Be16B2(h, 2, dst);
    Be32B4(h, 4, seqNo);
    Be32B4(h, 8, ackNo);
  }

  lemma Prefixed(h: seq<byte>, rest: seq<byte>)
    requires |h| == 20
    ensures forall i :: 0 <= i <= 16 ==> T.Be32(h + rest, i) == T.Be32(h, i) && T.Be16(h + rest, i) == T.Be16(h, i)
    ensures (h + rest)[20..] == rest
  {
  }

  lemma HeaderDecodes(src: half, dst: half, seqNo: word, ackNo: word, flags: byte, sum: half, rest: seq<byte>)
    ensures T.Decode(TcpHeader(src, dst, seqNo, ackNo, flags, sum) + rest)
         == Some(T.Header(src, dst, seqNo, ackNo, flags, rest))
  {
    hide TcpHeader, T.Be32, T.Be16;
    HeaderFields(src, dst, seqNo, ackNo, flags, sum);
    Prefixed(TcpHeader(src, dst, seqNo, ackNo, flags, sum), rest);
  }

  /** The segment that net_send_tcp builds is decoded by tcp_receive to the fields it was given, and padding
      behind it to payload. */
  lemma SegmentDecodes(src: half, dst: half, ip: word, seqNo: word, ackNo: word, flags: byte,
                       payload: seq<byte>, padding: seq<byte>)
    requires |payload| <= MAX_TCP_PAYLOAD
    ensures T.Decode(TcpSegment(src, dst, ip, seqNo, ackNo, flags, payload) + padding)
         == Some(T.Header(src, dst, seqNo, ackNo, flags, payload + padding))
  {
    hide TcpHeader, TcpSum, T.Decode;
    HeaderSize(src, dst, seqNo, ackNo, flags, 0);
    var sum := TcpSum(ip, TcpHeader(src, dst, seqNo, ackNo, flags, 0) + payload);
    var h := TcpHeader(src, dst, seqNo, ackNo, flags, sum);
    assert h + payload + padding == h + (payload + padding);
    HeaderDecodes(src, dst, seqNo, ackNo, flags, sum, payload + padding);
  }

  // ---------------------------------------------------------------- exchanges on the wire

  /** What the driver is given for one call of net_send_tcp, when the next identification is id. */
  function TcpFrame(src: half, dst: half, ip: word, seqNo: word, ackNo: word, flags: byte, payload: seq<byte>,
                    id: half, hop: Option<mac>): Option<seq<byte>> {
    if |payload| > MAX_TCP_PAYLOAD || hop == None then None
    else
      var segment := TcpSegment(src, dst, ip, seqNo, ackNo, flags, payload);
      Some(Frame(hop.value, ETHERTYPE_IP, IpPacket(id, PROTO_TCP, ip, segment)))
  }

  /** The identification after that call. */
  function NextId(payload: seq<byte>, id: half): half {
    if |payload| > MAX_TCP_PAYLOAD then id else (id + 1) % 0x1_0000
  }

  /** The fields of an emitted segment have the widths of the arguments of net_send_tcp. */
  predicate Typed(o: T.Output) {
    && o.Emit? && 0 <= o.src < 0x1_0000 && 0 <= o.dst < 0x1_0000 && 0 <= o.ip < 0x1_0000_0000
    && 0 <= o.seqNo < 0x1_0000_0000 && 0 <= o.ackNo < 0x1_0000_0000 && 0 <= o.flags < 0x100
  }

  /** The frames that the calls of net_send_tcp among some outputs give the driver, in order. */
  function Frames(out: seq<T.Output>, id: half, hop: Option<mac>): seq<seq<byte>>
    requires TypedAll(out)
  {
    if out == [] then []
    else if out[0].Handed? then Frames(out[1..], id, hop)
    else
      var o := out[0];
      assert Typed(o);
      FrameList(o, id, hop) + Frames(out[1..], NextId(o.data, id), hop)
  }

  /** The TCP segment in a frame, as its receiver decodes it. */
  function Carried(frame: seq<byte>): Option<T.Header> {
    if |frame| < ETH_HDR_LEN + IP_HDR_LEN then None else T.Decode(frame[ETH_HDR_LEN + IP_HDR_LEN..])
  }

  lemma FrameCarries(src: half, dst: half, ip: word, seqNo: word, ackNo: word, flags: byte, payload: seq<byte>,
                     id: half, hop: mac)
    requires |payload| <= MAX_TCP_PAYLOAD
    ensures Carried(TcpFrame(src, dst, ip, seqNo, ackNo, flags, payload, id, Some(hop)).value)
         == Some(T.Header(src, dst, seqNo, ackNo, flags, payload))
  {
    hide IpChecksum, TcpSegment, T.Decode;
    var seg := TcpSegment(src, dst, ip, seqNo, ackNo, flags, payload);
    var f := TcpFrame(src, dst, ip, seqNo, ackNo, flags, payload, id, Some(hop)).value;
    assert f[ETH_HDR_LEN + IP_HDR_LEN..] == seg;
    SegmentDecodes(src, dst, ip, seqNo, ackNo, flags, payload, []);
    assert seg + [] == seg && payload + [] == payload;
  }

  predicate TypedSocket(s: T.Socket) {
    Typed(T.Ctrl(s, T.ACK))
  }

  predicate TypedAll(out: seq<T.Output>) {
    forall i :: 0 <= i < |out| ==> out[i].Handed? || Typed(out[i])
  }

  predicate TypedTable(ss: seq<T.Socket>) {
    forall i :: 0 <= i < |ss| ==> TypedSocket(ss[i])
  }

  predicate TypedHeader(h: T.Header) {
    && 0 <= h.src < 0x1_0000 && 0 <= h.dst < 0x1_0000
    && 0 <= h.seqNo < 0x1_0000_0000 && 0 <= h.ackNo < 0x1_0000_0000
  }

  lemma DecodeTyped(p: seq<byte>)
    ensures T.Decode(p).Some? ==> TypedHeader(T.Decode(p).value)
  {
  }

  lemma DrainedTyped(s: T.Socket, reply: Option<seq<byte>>)
    requires TypedSocket(s)
    ensures var (t, out) := T.Drained(s, reply);
      TypedSocket(t) && TypedAll(out)
  {
    hide T.Head;
  }

  lemma OnDataTyped(s: T.Socket, h: T.Header, reply: Option<seq<byte>>)
    requires TypedSocket(s) && TypedHeader(h)
    ensures var (t, out) := T.OnData(s, h, reply);
      TypedSocket(t) && TypedAll(out)
  {
    hide T.Drained, T.Buffered, T.Has;
    DrainedTyped(s.(ackNo := T.Wrap(h.seqNo + |h.payload|), rx := T.Buffered(s.rx, h.payload)), reply);
  }

  lemma HandledTyped(s: T.Socket, h: T.Header, ip: word, now: int, reply: Option<seq<byte>>)
    requires TypedSocket(s) && TypedHeader(h)
    ensures var (t, out) := T.Handled(s, h, ip, now, reply);
      TypedSocket(t) && TypedAll(out)
  {
    hide T.OnData, T.Has;
    OnDataTyped(T.Touched(s, ip, now), h, reply);
  }

  lemma OpenedTyped(k: nat, h: T.Header, ip: word, now: int)
    requires TypedHeader(h)
    ensures TypedSocket(T.Opened(k, h, ip, now))
  {
  }

  lemma RefusalTyped(h: T.Header, ip: word)
    requires TypedHeader(h)
    ensures TypedAll(T.Refusal(h, ip))
  {
  }

  lemma {:induction false} RetriedTyped(ss: seq<T.Socket>, now: int, i: nat)
    requires TypedTable(ss) && i <= |ss|
    ensures TypedTable(T.RetriedUpTo(ss, now, i).0) && TypedAll(T.RetriedUpTo(ss, now, i).1)
  {
    if i > 0 { RetriedTyped(ss, now, i - 1); }
  }

  lemma StepTyped(st: T.Stack, e: T.Event)
    requires TypedTable(st.sockets)
    ensures TypedTable(T.Step(st, e).sockets) && TypedAll(T.StepOut(st, e).1)
  {
    hide TypedSocket, Typed, T.Handled, T.Decode, T.Opens, T.RetriedUpTo, T.Opened, T.Refusal;
    if e.Tick? {
      RetriedTyped(st.sockets, T.Wrap(st.now + 1), |st.sockets|);
    } else if T.Decode(e.bytes).Some? {
      DecodeTyped(e.bytes);
      var h := T.Decode(e.bytes).value;
      RefusalTyped(h, e.ip);
      if T.Slot(st, e.ip, h).Some? {
        var k := T.Slot(st, e.ip, h).value;
        OpenedTyped(k, h, e.ip, st.now);
        HandledTyped(T.Found(st, e.ip, h, k), h, e.ip, st.now, e.reply);
      }
    }
  }

  /** In every run the fields of every socket, and of everything sent, have the widths that net_send_tcp takes. */
  lemma {:induction false} RunTyped(es: seq<T.Event>)
    ensures TypedTable(T.Run(T.BOOT, es).sockets)
    ensures forall e :: TypedAll(T.StepOut(T.Run(T.BOOT, es), e).1)
  {
    hide T.Step, T.StepOut, TypedAll;
    if es == [] {
    } else {
      var n := |es| - 1;
      RunTyped(es[..n]);
      StepTyped(T.Run(T.BOOT, es[..n]), es[n]);
    }
    forall e ensures TypedAll(T.StepOut(T.Run(T.BOOT, es), e).1) {
      StepTyped(T.Run(T.BOOT, es), e);
    }
  }

  lemma ServeTyped(s: T.Socket, end: nat, reply: seq<byte>)
    requires end <= |s.rx| && TypedSocket(s)
    ensures var out := T.Serve(s, end, Some(reply)).1;
      && |out| == 3 && out[0].Handed? && Typed(out[1]) && Typed(out[2])
      && out[1] == T.Sent(s, T.ACK + T.PSH, reply)
      && out[2] == T.Ctrl(s.(seqNo := T.Wrap(s.seqNo + |reply|)), T.FIN + T.ACK)
  {
  }

  /** The frames of an exchange: response and FIN, or the FIN alone, or nothing. */
  lemma ExchangeFrames(s: T.Socket, end: nat, reply: seq<byte>, id: half, hop: Option<mac>)
    requires end <= |s.rx| && TypedSocket(s)
    ensures var out := T.Serve(s, end, Some(reply)).1;
            var f := Frames(out, id, hop);
      if hop == None then f == []
      else if |reply| > MAX_TCP_PAYLOAD then f == [FrameOf(out[2], id, hop).value]
      else f == [FrameOf(out[1], id, hop).value, FrameOf(out[2], (id + 1) % 0x1_0000, hop).value]
  {
    hide T.Serve, TcpFrame, Typed;
    ServeTyped(s, end, reply);
    var out := T.Serve(s, end, Some(reply)).1;
    var a, b := out[1], out[2];
    assert out[1..] == [a, b] && [a, b][1..] == [b] && [b][1..] == [];
    FrameSent(a, id, hop);
    FrameSent(b, NextId(reply, id), hop);
    assert Frames([b], NextId(reply, id), hop) == FrameList(b, NextId(reply, id), hop) + [];
    assert Frames([a, b], id, hop) == FrameList(a, id, hop) + Frames([b], NextId(reply, id), hop);
  }

  function FrameOf(o: T.Output, id: half, hop: Option<mac>): Option<seq<byte>>
    requires Typed(o)
  {
    TcpFrame(o.src, o.dst, o.ip, o.seqNo, o.ackNo, o.flags, o.data, id, hop)
  }

  /** The frame of one call, if there is one. */
  function FrameList(o: T.Output, id: half, hop: Option<mac>): seq<seq<byte>>
    requires Typed(o)
  {
    match FrameOf(o, id, hop) case None => [] case Some(f) => [f]
  }

  lemma FrameSent(o: T.Output, id: half, hop: Option<mac>)
    requires Typed(o)
    ensures FrameOf(o, id, hop).Some? <==> |o.data| <= MAX_TCP_PAYLOAD && hop.Some?
  {
    hide IpPacket, TcpSegment, Frame;
  }

  /** The response reaches the driver if and only if it has at most 1994 bytes and the peer's hardware address is
      known; the FIN behind it is numbered as if it had been sent in any case. */
  lemma ResponseSent(s: T.Socket, end: nat, reply: seq<byte>, id: half, hop: Option<mac>)
    requires end <= |s.rx| && TypedSocket(s)
    ensures var f := Frames(T.Serve(s, end, Some(reply)).1, id, hop);
      && var response := T.Header(s.localPort, s.remotePort, s.seqNo, s.ackNo, T.ACK + T.PSH, reply);
      && ((exists i :: 0 <= i < |f| && Carried(f[i]) == Some(response)) <==> |reply| <= MAX_TCP_PAYLOAD && hop.Some?)
      && var fin := T.Header(s.localPort, s.remotePort, T.Wrap(s.seqNo + |reply|), s.ackNo, T.FIN + T.ACK, []);
      (hop.Some? ==> f != [] && Carried(f[|f| - 1]) == Some(fin))
  {
    hide T.Serve, TcpFrame, Carried, Frames;
    ServeTyped(s, end, reply);
    ExchangeFrames(s, end, reply, id, hop);
    var out := T.Serve(s, end, Some(reply)).1;
    if hop.Some? {
      var k: half := if |reply| > MAX_TCP_PAYLOAD then id else (id + 1) % 0x1_0000;
      FrameCarries(out[2].src, out[2].dst, out[2].ip, out[2].seqNo, out[2].ackNo, T.FIN + T.ACK, [], k, hop.value);
      if |reply| <= MAX_TCP_PAYLOAD {
        var f := Frames(out, id, hop);
        FrameSent(out[1], id, hop);
        assert f[0] == FrameOf(out[1], id, hop).value;
        FrameCarries(out[1].src, out[1].dst, out[1].ip, out[1].seqNo, out[1].ackNo, T.ACK + T.PSH, reply,
                     id, hop.value);
      }
    }
  }

  const RESPONSE_BUF_SIZE: nat := 16384 + 256

  /** There are responses that http_generate_response accepts for the receiver's buffer and that no segment can hold. */
  lemma LongResponse(n: nat)
    requires MAX_TCP_PAYLOAD <= n <= 16384
    ensures var r := H.Response(200, "", seq(n, _ => 'a'));
      F.CString(r.headers) && MAX_TCP_PAYLOAD < |H.Message(r)| < RESPONSE_BUF_SIZE
  {
    hide F.Digits, H.NulPadded;
    F.Digits32(n, 10, false);
  }

  // ---------------------------------------------------------------- the code

  method PutBe16(a: array<byte>, i: nat, v: half)
    requires i + 2 <= a.Length
    modifies a
    ensures a[i] == B2(v, 0) && a[i + 1] == B2(v, 1)
    ensures forall j :: 0 <= j < a.Length && !(i <= j < i + 2) ==> a[j] == old(a[j])
  {
    var swapped := v / 0x100 + v % 0x100 * 0x100;
    a[i] := swapped % 0x100;
    a[i + 1] := swapped / 0x100;
  }

  method PutBe32(a: array<byte>, i: nat, v: word)
    requires i + 4 <= a.Length
    modifies a
    ensures a[i] == B4(v, 0) && a[i + 1] == B4(v, 1) && a[i + 2] == B4(v, 2) && a[i + 3] == B4(v, 3)
    ensures forall j :: 0 <= j < a.Length && !(i <= j < i + 4) ==> a[j] == old(a[j])
  {
    a[i] := v / 0x100_0000 % 0x100;
    a[i + 1] := v / 0x1_0000 % 0x100;
    a[i + 2] := v / 0x100 % 0x100;
    a[i + 3] := v % 0x100;
  }

  method PutSum(a: array<byte>, i: nat, v: half)
    requires i + 2 <= a.Length
    modifies a
    ensures a[i] == v % 0x100 && a[i + 1] == v / 0x100
    ensures forall j :: 0 <= j < a.Length && !(i <= j < i + 2) ==> a[j] == old(a[j])
  {
    a[i] := v % 0x100;
    a[i + 1] := v / 0x100;
  }

  method CopyIn(a: array<byte>, i: nat, data: seq<byte>)
    requires i + |data| <= a.Length
    modifies a
    ensures a[i..i + |data|] == data
    ensures forall j :: 0 <= j < a.Length && !(i <= j < i + |data|) ==> a[j] == old(a[j])
  {
    for k := 0 to |data|
      invariant forall j :: 0 <= j < k ==> a[i + j] == data[j]
      invariant forall j :: 0 <= j < a.Length && !(i <= j < i + k) ==> a[j] == old(a[j])
    {
      a[i + k] := data[k];
    }
  }

  method ComputeTcpChecksum(src: word, dst: word, seg: seq<byte>) returns (r: nat)
    requires |seg| < 0x1_0000
    ensures r == IpChecksum(Pseudo(src, dst, |seg|) + seg)
  {
    hide Fold, Complement, Wrap32, Pseudo, Half, IpChecksum;
    var ph := Pseudo(src, dst, |seg|);
    PseudoSize(src, dst, |seg|);
    var sum: nat, i := 0, 0;
    while i + 1 < 12
      invariant 0 <= i <= 12 && i % 2 == 0 && sum < 0x1_0000_0000
      invariant Wrap32(sum + Words(ph[i..])) == Wrap32(Words(ph))
    {
      TailStep(ph, i);
      HalfBound(ph, i);
      WrapAdd(sum, Half(ph, i), Words(ph[i + 2..]));
      sum := (sum + Half(ph, i)) % 0x1_0000_0000;
      i := i + 2;
    }
    WrapMore(sum, Words(ph), Words(seg));
    assert seg[0..] == seg;
    var k := 0;
    while |seg| - k > 1
      invariant 0 <= k <= |seg| && sum < 0x1_0000_0000
      invariant Wrap32(sum + Words(seg[k..])) == Wrap32(Words(ph) + Words(seg))
    {
      TailStep(seg, k);
      HalfBound(seg, k);
      WrapAdd(sum, Half(seg, k), Words(seg[k + 2..]));
      sum := (sum + Half(seg, k)) % 0x1_0000_0000;
      k := k + 2;
    }
    if |seg| - k > 0 {
      WrapAdd(sum, seg[k], 0);
      sum := (sum + seg[k]) % 0x1_0000_0000;
    }
    TcpSumSplits(src, dst, seg);
    SameComplement(sum, Words(ph) + Words(seg));
    r := FoldAndComplement(sum);
  }

  lemma TailStep(p: seq<byte>, i: nat)
    requires i + 2 <= |p|
    ensures Words(p[i..]) == Half(p, i) + Words(p[i + 2..])
  {
    assert p[i..][2..] == p[i + 2..];
  }

  lemma WrapMore(a: nat, b: nat, c: nat)
    requires Wrap32(a) == Wrap32(b)
    ensures Wrap32(a + c) == Wrap32(b + c)
  {
  }

  class Sender {
    var ipId: half
    var icmpId: half

    constructor ()
      ensures ipId == 1 && icmpId == 1
    {
      ipId, icmpId := 1, 1;
    }

    /** net_send_eth: sent is the frame given to the driver, if any, and driver the driver's answer to it. */
    method SendEth(etherType: half, to: mac, payload: seq<byte>, driver: int) returns (r: int, sent: Option<seq<byte>>)
      ensures if |payload| > NET_BUF_SIZE - ETH_HDR_LEN then r == -1 && sent == None
              else r == driver && sent == Some(Frame(to, etherType, payload))
    {
      if |payload| > NET_BUF_SIZE - ETH_HDR_LEN { return -1, None; }
      var frame := new byte[NET_BUF_SIZE];
      CopyIn(frame, 0, to);
      CopyIn(frame, 6, OUR_MAC);
      PutBe16(frame, 12, etherType);
      CopyIn(frame, ETH_HDR_LEN, payload);
      assert frame[..6] == to && frame[6..12] == OUR_MAC;
      assert frame[12..14] == [B2(etherType, 0), B2(etherType, 1)];
      ghost var end := ETH_HDR_LEN + |payload|;
      assert frame[..end] == frame[..6] + frame[6..12] + frame[12..14] + frame[14..end];
      return driver, Some(frame[..ETH_HDR_LEN + |payload|]);
    }

    /** The header fields, the checksum still zero. */
    method PutIpFields(a: array<byte>, total: half, id: half, proto: byte, dst: word)
      requires a.Length == NET_BUF_SIZE
      modifies a
      ensures a[..IP_HDR_LEN] == IpHeader(total, id, proto, T.NET_IP_ADDR, dst, 0)
      ensures forall j :: IP_HDR_LEN <= j < a.Length ==> a[j] == old(a[j])
    {
      hide B2, B4;
      PutIpFront(a, total, id, proto);
      ghost var front := a[..10];
      PutSum(a, 10, 0);
      PutBe32(a, 12, T.NET_IP_ADDR);
      PutBe32(a, 16, dst);
      assert a[..10] == front && a[..IP_HDR_LEN] == front + a[10..IP_HDR_LEN];
    }

    method PutIpFront(a: array<byte>, total: half, id: half, proto: byte)
      requires a.Length == NET_BUF_SIZE
      modifies a
      ensures a[..10] == [0x45, 0, B2(total, 0), B2(total, 1), B2(id, 0), B2(id, 1), 0, 0, 64, proto]
      ensures forall j :: 10 <= j < a.Length ==> a[j] == old(a[j])
    {
      hide B2;
      a[0] := 0x45;
      a[1] := 0;
      PutBe16(a, 2, total);
      PutBe16(a, 4, id);
      a[6], a[7] := 0, 0;
      a[8] := 64;
      a[9] := proto;
    }

    /** The header and its checksum; shared by the two places that build a packet. */
    method PutIpHeader(a: array<byte>, total: half, id: half, proto: byte, dst: word)
      requires a.Length == NET_BUF_SIZE
      modifies a
      ensures a[..IP_HDR_LEN] == IpHeader(total, id, proto, T.NET_IP_ADDR, dst,
                                          IpChecksum(IpHeader(total, id, proto, T.NET_IP_ADDR, dst, 0)))
      ensures forall j :: IP_HDR_LEN <= j < a.Length ==> a[j] == old(a[j])
    {
      hide IpChecksum, IpHeader;
      PutIpFields(a, total, id, proto, dst);
      var sum := ComputeIpChecksum(a[..IP_HDR_LEN]);
      PutSum(a, 10, sum);
      IpSumStored(total, id, proto, dst, sum);
      assert a[..IP_HDR_LEN] == IpHeader(total, id, proto, T.NET_IP_ADDR, dst, sum);
    }

    static lemma IpSumStored(total: half, id: half, proto: byte, dst: word, sum: half)
      ensures var z := IpHeader(total, id, proto, T.NET_IP_ADDR, dst, 0);
              var h := IpHeader(total, id, proto, T.NET_IP_ADDR, dst, sum);
        && |z| == |h| == IP_HDR_LEN && h[10] == sum % 0x100 && h[11] == sum / 0x100
        && forall j :: 0 <= j < IP_HDR_LEN && j != 10 && j != 11 ==> h[j] == z[j]
    {
    }

    /** net_send_ip; hop is what arp_resolve finds for the destination. */
    method SendIp(proto: byte, dst: word, payload: seq<byte>, hop: Option<mac>, driver: int)
      returns (r: int, sent: Option<seq<byte>>)
      modifies `ipId
      ensures if |payload| > NET_BUF_SIZE - ETH_HDR_LEN - IP_HDR_LEN then r == -1 && sent == None && ipId == old(ipId)
              else && ipId == (old(ipId) + 1) % 0x1_0000
                   && if hop == None then r == -1 && sent == None
                      else
                        && r == driver
                        && sent == Some(Frame(hop.value, ETHERTYPE_IP, IpPacket(old(ipId), proto, dst, payload)))
    {
      if |payload| > NET_BUF_SIZE - ETH_HDR_LEN - IP_HDR_LEN { return -1, None; }
      hide IpChecksum, IpHeader, Frame;
      var packet := new byte[NET_BUF_SIZE];
      PutIpHeader(packet, IP_HDR_LEN + |payload|, ipId, proto, dst);
      ipId := (ipId + 1) % 0x1_0000;
      CopyIn(packet, IP_HDR_LEN, payload);
      ghost var total := IP_HDR_LEN + |payload|;
      assert packet[..total] == packet[..IP_HDR_LEN] + packet[IP_HDR_LEN..total];
      assert packet[..total] == IpPacket(old(ipId), proto, dst, payload);
      match hop {
        case None => return -1, None;
        case Some(to) => r, sent := SendEth(ETHERTYPE_IP, to, packet[..IP_HDR_LEN + |payload|], driver);
      }
    }

    /** net_send_tcp. */
    method SendTcp(src: half, dst: half, ip: word, seqNo: word, ackNo: word, flags: byte, payload: seq<byte>,
                   hop: Option<mac>, driver: int) returns (r: int, sent: Option<seq<byte>>)
      modifies `ipId
      ensures sent == TcpFrame(src, dst, ip, seqNo, ackNo, flags, payload, old(ipId), hop)
      ensures ipId == NextId(payload, old(ipId))
      ensures r == if sent == None then -1 else driver
    {
      if |payload| > MAX_TCP_PAYLOAD { return -1, None; }
      hide IpChecksum, IpPacket, Frame, TcpSegment;
      var seg := BuildSegment(src, dst, ip, seqNo, ackNo, flags, payload);
      r, sent := SendIp(PROTO_TCP, ip, seg, hop, driver);
    }

    method BuildSegment(src: half, dst: half, ip: word, seqNo: word, ackNo: word, flags: byte, payload: seq<byte>)
      returns (seg: seq<byte>)
      requires |payload| <= MAX_TCP_PAYLOAD
      ensures |seg| == T.TCP_HDR_LEN + |payload| && seg == TcpSegment(src, dst, ip, seqNo, ackNo, flags, payload)
    {
      hide IpChecksum, Pseudo, TcpHeader;
      var buf := new byte[NET_BUF_SIZE];
      var len := T.TCP_HDR_LEN + |payload|;
      PutTcpHeader(buf, src, dst, seqNo, ackNo, flags);
      CopyIn(buf, T.TCP_HDR_LEN, payload);
      ghost var blank := TcpHeader(src, dst, seqNo, ackNo, flags, 0) + payload;
      assert buf[..len] == buf[..20] + buf[20..len] == blank;
      var sum := ComputeTcpChecksum(T.NET_IP_ADDR, ip, buf[..len]);
      PutSum(buf, 16, sum);
      SumStored(src, dst, seqNo, ackNo, flags, sum);
      assert sum == TcpSum(ip, blank) && buf[20..len] == payload;
      assert buf[..20] == TcpHeader(src, dst, seqNo, ackNo, flags, sum);
      assert buf[..len] == buf[..20] + buf[20..len];
      seg := buf[..len];
    }

    static lemma SumStored(src: half, dst: half, seqNo: word, ackNo: word, flags: byte, sum: half)
      ensures var z, h := TcpHeader(src, dst, seqNo, ackNo, flags, 0), TcpHeader(src, dst, seqNo, ackNo, flags, sum);
        && |z| == |h| == 20 && h[16] == sum % 0x100 && h[17] == sum / 0x100
        && forall j :: 0 <= j < 20 && j != 16 && j != 17 ==> h[j] == z[j]
    {
    }

    method PutTcpHeader(a: array<byte>, src: half, dst: half, seqNo: word, ackNo: word, flags: byte)
      requires a.Length == NET_BUF_SIZE
      modifies a
      ensures a[..20] == TcpHeader(src, dst, seqNo, ackNo, flags, 0)
    {
      hide B2, B4;
      PutBe16(a, 0, src);
      PutBe16(a, 2, dst);
      PutBe32(a, 4, seqNo);
      PutBe32(a, 8, ackNo);
      a[12] := 0x50;
      a[13] := flags;
      PutBe16(a, 14, 4096);
      PutSum(a, 16, 0);
      a[18], a[19] := 0, 0;
    }

    /** ip_receive, on a packet that fits a receive buffer; the segment for tcp_receive, if any, is returned. */
    method Receive(packet: seq<byte>, hop: Option<mac>, driver: int)
      returns (sent: Option<seq<byte>>, segment: Option<(word, seq<byte>)>)
      requires |packet| <= NET_BUF_SIZE - ETH_HDR_LEN
      modifies `icmpId
      ensures match Dispatch(packet, T.NET_IP_ADDR)
              case Ignored => sent == None && segment == None && icmpId == old(icmpId)
              case ToTcp(src, seg) => sent == None && segment == Some((src, seg)) && icmpId == old(icmpId)
              case Echo(src, message) =>
                && segment == None && icmpId == (old(icmpId) + 1) % 0x1_0000
                && sent == if hop == None then None
                           else Some(Frame(hop.value, ETHERTYPE_IP, EchoPacket(old(icmpId), src, message)))
    {
      sent, segment := None, None;
      if |packet| < IP_HDR_LEN { return; }
      var first: int, proto: int := packet[0], packet[9];
      if first / 0x10 != 4 { return; }
      var ihl := first % 0x10 * 4;
      if ihl < IP_HDR_LEN || |packet| < ihl { return; }
      if T.Be32(packet, 16) != T.NET_IP_ADDR { return; }
      var payload := packet[ihl..];
      var src := T.Be32(packet, 12);
      if proto == PROTO_ICMP {
        if |payload| >= 8 && payload[0] == 8 {
          var reply := BuildEcho(src, payload);
          if hop.Some? {
            var r;
            r, sent := SendEth(ETHERTYPE_IP, hop.value, reply, driver);
          }
        }
      } else if proto == PROTO_TCP {
        segment := Some((src, payload));
      }
    }

    method BuildEcho(src: word, message: seq<byte>) returns (packet: seq<byte>)
      requires 8 <= |message| <= NET_BUF_SIZE - ETH_HDR_LEN - IP_HDR_LEN
      modifies `icmpId
      ensures icmpId == (old(icmpId) + 1) % 0x1_0000
      ensures packet == EchoPacket(old(icmpId), src, message)
    {
      hide IpChecksum, IpHeader, EchoReply;
      var reply := new byte[NET_BUF_SIZE];
      var total := IP_HDR_LEN + |message|;
      PutIpHeader(reply, total, icmpId, PROTO_ICMP, src);
      icmpId := (icmpId + 1) % 0x1_0000;
      CopyIn(reply, IP_HDR_LEN, message);
      reply[IP_HDR_LEN] := 0;
      reply[IP_HDR_LEN + 2] := 0;
      reply[IP_HDR_LEN + 3] := 0;
      ghost var zeroed := message[0 := 0][2 := 0][3 := 0];
      assert forall j :: 0 <= j < |message| ==> reply[IP_HDR_LEN..total][j] == zeroed[j];
      assert reply[IP_HDR_LEN..total] == zeroed;
      var sum := ComputeIpChecksum(reply[IP_HDR_LEN..total]);
      PutSum(reply, IP_HDR_LEN + 2, sum);
      EchoBytes(message, sum);
      assert forall j :: 0 <= j < |message| ==> reply[IP_HDR_LEN..total][j] == EchoReply(message)[j];
      assert reply[IP_HDR_LEN..total] == EchoReply(message);
      assert reply[..total] == reply[..IP_HDR_LEN] + reply[IP_HDR_LEN..total];
      packet := reply[..total];
    }
  }

  lemma EchoBytes(message: seq<byte>, sum: half)
    requires |message| >= 8 && sum == IpChecksum(message[0 := 0][2 := 0][3 := 0])
    ensures var e := EchoReply(message);
      && |e| == |message| && e[0] == 0 && e[2] == sum % 0x100 && e[3] == sum / 0x100
      && forall j :: 0 <= j < |message| && j !in {0, 2, 3} ==> e[j] == message[j]
  {
    hide IpChecksum;
  }

  /** The packet of an echo reply. */
  function EchoPacket(id: half, to: word, message: seq<byte>): seq<byte>
    requires 8 <= |message| <= NET_BUF_SIZE - ETH_HDR_LEN - IP_HDR_LEN
  {
    IpPacket(id, PROTO_ICMP, to, EchoReply(message))
  }
}
