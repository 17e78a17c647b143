/** The formats of src/network/ip.c, byte by byte, and where a frame of a run goes. */
module IpFields {
  import opened Checksum
  import opened Ip
  import opened Machine
  import opened Options
  import T = TcpSockets

  /** Two and four bytes at a place, the most significant one first. */
  predicate Is16(p: seq<byte>, i: nat, v: int) { i + 2 <= |p| && p[i] as int * 0x100 + p[i + 1] as int == v }

  predicate Is32(p: seq<byte>, i: nat, v: int) {
    && i + 4 <= |p|
    && p[i] as int * 0x100_0000 + p[i + 1] as int * 0x1_0000 + p[i + 2] as int * 0x100 + p[i + 3] as int == v
  }

  lemma Half16(p: seq<byte>, i: nat, v: half)
    requires i + 2 <= |p| && p[i] == B2(v, 0) && p[i + 1] == B2(v, 1)
    ensures Is16(p, i, v)
  {
  }

  lemma Word32(p: seq<byte>, i: nat, v: word)
    requires i + 4 <= |p| && p[i] == B4(v, 0) && p[i + 1] == B4(v, 1) && p[i + 2] == B4(v, 2) && p[i + 3] == B4(v, 3)
    ensures Is32(p, i, v)
  {
    hide B4;
    Be32B4(p, i, v);
  }

  // ---------------------------------------------------------------- what is sent

  /** A frame: destination, source, type, payload. */
  lemma FrameFields(to: mac, etherType: half, payload: seq<byte>)
    ensures var f := Frame(to, etherType, payload);
      && |f| == 14 + |payload| && f[..6] == to && f[6..12] == [0x52, 0x54, 0x00, 0x12, 0x34, 0x56]
      && Is16(f, 12, etherType) && f[14..] == payload
  {
    hide B2;
    Half16(Frame(to, etherType, payload), 12, etherType);
  }

  /** A packet: version 4 and a header of five words, its whole length, the identification, no fragments, 64 hops, the
      protocol, a header that checks to 0, the server's address and the destination. */
  lemma PacketFields(id: half, proto: byte, dst: word, payload: seq<byte>)
    requires 20 + |payload| < 0x1_0000
    ensures var p := IpPacket(id, proto, dst, payload);
      && |p| == 20 + |payload| && p[20..] == payload
      && p[0] == 0x45 && p[1] == 0 && Is16(p, 2, 20 + |payload|) && Is16(p, 4, id) && p[6] == p[7] == 0
      && p[8] == 64 && p[9] == proto && IpChecksum(p[..20]) == 0
      && p[12] == 10 && p[13] == 0 && p[14] == 2 && p[15] == 15 && Is32(p, 16, dst)
  {
    OurAddress();
    PacketChecks(id, proto, dst, payload);
    hide B2, B4, IpChecksum;
    var p := IpPacket(id, proto, dst, payload);
    Half16(p, 2, 20 + |payload|);
    Half16(p, 4, id);
    Word32(p, 16, dst);
  }

  lemma OurAddress()
    ensures B4(T.NET_IP_ADDR, 0) == 10 && B4(T.NET_IP_ADDR, 1) == 0
    ensures B4(T.NET_IP_ADDR, 2) == 2 && B4(T.NET_IP_ADDR, 3) == 15
  {
  }

  /** A segment: ports, numbers, a header of five words, the flags, a window of 4096 bytes, no urgent pointer; with its
      checksum it checks to 0 behind the pseudo-header, as SegmentChecks says. */
  lemma SegmentFields(src: half, dst: half, ip: word, seqNo: word, ackNo: word, flags: byte, payload: seq<byte>)
    requires |payload| <= 1994
    ensures var s := TcpSegment(src, dst, ip, seqNo, ackNo, flags, payload);
      && |s| == 20 + |payload| && s[20..] == payload
      && Is16(s, 0, src) && Is16(s, 2, dst) && Is32(s, 4, seqNo) && Is32(s, 8, ackNo)
      && s[12] == 0x50 && s[13] == flags && Is16(s, 14, 4096) && s[18] == s[19] == 0
  {
    hide B2, B4, TcpSum;
    var s := TcpSegment(src, dst, ip, seqNo, ackNo, flags, payload);
    Half16(s, 0, src);
    Half16(s, 2, dst);
    Word32(s, 4, seqNo);
    Word32(s, 8, ackNo);
    Half16(s, 14, 4096);
  }

  /** The pseudo-header: both addresses, a zero, protocol 6 and the length. */
  lemma PseudoFields(src: word, dst: word, len: half)
    ensures var p := Pseudo(src, dst, len);
      |p| == 12 && Is32(p, 0, src) && Is32(p, 4, dst) && p[8] == 0 && p[9] == 6 && Is16(p, 10, len)
  {
    hide B2, B4;
    Word32(Pseudo(src, dst, len), 0, src);
    Word32(Pseudo(src, dst, len), 4, dst);
    Half16(Pseudo(src, dst, len), 10, len);
  }

  /** The example of section 3 of RFC 1071: the bytes 00 01 F2 03 F4 F5 F6 F7 have the checksum 22 0D, stored in this
      order. */
  lemma ChecksumExample()
    ensures var sum := IpChecksum([0x00, 0x01, 0xF2, 0x03, 0xF4, 0xF5, 0xF6, 0xF7]);
      sum % 0x100 == 0x22 && sum / 0x100 == 0x0D
  {
    var s: seq<byte> := [0x00, 0x01, 0xF2, 0x03, 0xF4, 0xF5, 0xF6, 0xF7];
    ExampleWords(s);
  }

  lemma ExampleWords(s: seq<byte>)
    requires s == [0x00, 0x01, 0xF2, 0x03, 0xF4, 0xF5, 0xF6, 0xF7]
    ensures Words(s) == 0x1_F2DC
  {
    var a, b, c: seq<byte> := [0xF2, 0x03, 0xF4, 0xF5, 0xF6, 0xF7], [0xF4, 0xF5, 0xF6, 0xF7], [0xF6, 0xF7];
    assert s[2..] == a && a[2..] == b && b[2..] == c && c[2..] == [];
    assert Words(c) == 0xF7F6;
    assert Words(b) == 0xF5F4 + 0xF7F6;
    assert Words(a) == 0x03F2 + 0xF5F4 + 0xF7F6;
  }

  // ---------------------------------------------------------------- what is received

  /** A packet goes to TCP or is answered as an echo request exactly if its version is 4, its header is whole and at
      least five words long, it is addressed to me and its protocol is 6, or 1 with an echo request of 8 bytes or more
      behind the header. */
  lemma DispatchIs(p: seq<byte>, me: word)
    ensures var a, header := Dispatch(p, me), if p == [] then 0 else p[0] as int % 0x10 * 4;
            var mine := |p| >= 20 && 0x40 <= p[0] < 0x50 && 20 <= header <= |p| && Is32(p, 16, me);
      && (a.ToTcp? <==> mine && p[9] == 6)
      && (a.Echo? <==> mine && p[9] == 1 && |p| >= header + 8 && p[header] == 8)
      && (a.ToTcp? ==> a.segment == p[header..] && Is32(p, 12, a.src))
      && (a.Echo? ==> a.message == p[header..] && Is32(p, 12, a.src))
  {
    hide T.Be32, Is32;
    if |p| >= 20 {
      BeIs(p, 12);
      BeIs(p, 16);
    }
  }

  lemma BeIs(p: seq<byte>, i: nat)
    requires i + 4 <= |p|
    ensures forall v :: Is32(p, i, v) <==> T.Be32(p, i) == v
  {
  }

  // ---------------------------------------------------------------- where frames go

  /** The frame is sent by this machine to a hardware address, and the machine with an IP address takes from it a
      segment with this header and payload, from 10.0.2.15. */
  predicate Reaches(f: seq<byte>, to: mac, ip: word, h: T.Header) {
    && |f| >= 14 && f[..6] == to && f[6..12] == [0x52, 0x54, 0x00, 0x12, 0x34, 0x56] && Is16(f, 12, 0x0800)
    && var a := Dispatch(f[14..], ip);
    a.ToTcp? && a.src == 0x0A00_020F && T.Decode(a.segment) == Some(h)
  }

  lemma FrameReaches(src: half, dst: half, ip: word, seqNo: word, ackNo: word, flags: byte, payload: seq<byte>,
                     id: half, to: mac)
    requires |payload| <= 1994
    ensures Reaches(TcpFrame(src, dst, ip, seqNo, ackNo, flags, payload, id, Some(to)).value, to, ip,
                    T.Header(src, dst, seqNo, ackNo, flags, payload))
  {
    hide Frame, IpPacket, TcpSegment, T.Decode, Dispatch, Is16;
    var seg := TcpSegment(src, dst, ip, seqNo, ackNo, flags, payload);
    SegmentSize(src, dst, ip, seqNo, ackNo, flags, payload);
    FrameFields(to, ETHERTYPE_IP, IpPacket(id, PROTO_TCP, ip, seg));
    PacketArrives(id, ip, seg, [], ip);
    SegmentDecodes(src, dst, ip, seqNo, ackNo, flags, payload, []);
    assert seg + [] == seg && payload + [] == payload;
    assert IpPacket(id, PROTO_TCP, ip, seg) + [] == IpPacket(id, PROTO_TCP, ip, seg);
  }

  lemma SegmentSize(src: half, dst: half, ip: word, seqNo: word, ackNo: word, flags: byte, payload: seq<byte>)
    requires |payload| <= 1994
    ensures |TcpSegment(src, dst, ip, seqNo, ackNo, flags, payload)| == 20 + |payload|
  {
  }

  function HeaderOf(o: T.Output): T.Header
    requires o.Emit?
  {
    T.Header(o.src, o.dst, o.seqNo, o.ackNo, o.flags, o.data)
  }

  /** The segments among some outputs that fit a frame, in order. */
  function Fitting(out: seq<T.Output>): (r: seq<T.Output>)
    ensures forall i :: 0 <= i < |r| ==> r[i] in out && r[i].Emit? && |r[i].data| <= 1994
  {
    if out == [] then []
    else (if out[0].Emit? && |out[0].data| <= 1994 then [out[0]] else []) + Fitting(out[1..])
  }

  /** Each of the frames carries the segment at the same place, whole and to its peer. */
  ghost predicate Carry(f: seq<seq<byte>>, o: seq<T.Output>, to: mac) {
    |f| == |o| && forall i :: 0 <= i < |f| ==> Typed(o[i]) && Reaches(f[i], to, o[i].ip, HeaderOf(o[i]))
  }

  lemma CarryConcat(f: seq<seq<byte>>, o: seq<T.Output>, g: seq<seq<byte>>, q: seq<T.Output>, to: mac)
    requires Carry(f, o, to) && Carry(g, q, to)
    ensures Carry(f + g, o + q, to)
  {
    hide Reaches, Typed, HeaderOf;
  }

  /** The frames given to the driver carry exactly those segments, in order, if the hardware address is known, and there
      are none if it is not. */
  lemma {:induction false} FramesCarry(out: seq<T.Output>, id: half, hop: Option<mac>)
    requires TypedAll(out)
    ensures hop == None ==> Frames(out, id, hop) == []
    ensures hop.Some? ==> Carry(Frames(out, id, hop), Fitting(out), hop.value)
  {
    hide TcpFrame, Carry, Typed, FrameList, NextId;
    if out == [] {
      NoneCarried(hop);
    } else {
      var o := out[0];
      if o.Handed? {
        FramesCarry(out[1..], id, hop);
        assert [] + Fitting(out[1..]) == Fitting(out[1..]);
      } else {
        assert Typed(o);
        FrameListReaches(o, id, hop);
        FramesCarry(out[1..], NextId(o.data, id), hop);
        if hop.Some? {
          CarryConcat(FrameList(o, id, hop), if |o.data| <= 1994 then [o] else [],
                      Frames(out[1..], NextId(o.data, id), hop), Fitting(out[1..]), hop.value);
          TypedEmits(o);
        }
      }
    }
  }

  lemma TypedEmits(o: T.Output)
    ensures Typed(o) ==> o.Emit?
  {
  }

  lemma NoneCarried(hop: Option<mac>)
    ensures hop.Some? ==> Carry([], [], hop.value)
  {
  }

  lemma FrameListReaches(o: T.Output, id: half, hop: Option<mac>)
    requires Typed(o)
    ensures hop == None ==> FrameList(o, id, hop) == []
    ensures hop.Some? ==> Carry(FrameList(o, id, hop), if |o.data| <= 1994 then [o] else [], hop.value)
  {
    hide TcpFrame, Reaches;
    FrameSent(o, id, hop);
    if hop.Some? && |o.data| <= 1994 {
      FrameReaches(o.src, o.dst, o.ip, o.seqNo, o.ackNo, o.flags, o.data, id, hop.value);
    }
  }

  /** In every run what is sent in answer to an event reaches the driver so. */
  lemma RunCarries(es: seq<T.Event>, e: T.Event, id: half, hop: Option<mac>)
    ensures var out := T.StepOut(T.Run(T.BOOT, es), e).1;
      && TypedAll(out)
      && (hop == None ==> Frames(out, id, hop) == [])
      && (hop.Some? ==> Carry(Frames(out, id, hop), Fitting(out), hop.value))
  {
    hide TypedAll, T.StepOut, T.Run, Carry, Frames, Fitting, Typed;
    RunTyped(es);
    FramesCarry(T.StepOut(T.Run(T.BOOT, es), e).1, id, hop);
  }
}
