/** src/network/tcp.c: the receiver itself, over four sockets that it updates in place. */
module Tcp {
  import opened Framing
  import opened Machine
  import opened Options
  import opened TcpSockets

  class TcpSocket {
    var phase: Phase
    var localIp: int
    var localPort: int
    var remoteIp: int
    var remotePort: int
    var seqNo: int
    var ackNo: int
    const rxBuf: array<byte>
    var rxLen: nat
    var lastActivity: int

    ghost predicate Valid()
      reads this
    {
      rxBuf.Length == RX_BUF_SIZE && rxLen <= RX_BUF_SIZE
    }

    ghost function View(): Socket
      requires Valid()
      reads this, rxBuf
    {
      Socket(phase, localIp, localPort, remoteIp, remotePort, seqNo, ackNo, rxBuf[..rxLen], lastActivity)
    }

    constructor ()
      ensures Valid() && fresh(rxBuf) && View() == ZERO
    {
      phase, rxLen, lastActivity := Closed, 0, 0;
      localIp, localPort, remoteIp, remotePort, seqNo, ackNo := 0, 0, 0, 0, 0, 0;
      rxBuf := new byte[RX_BUF_SIZE](_ => 0);
    }

    /** memset of the whole socket. */
    method Zero()
      requires Valid()
      modifies this, rxBuf
      ensures Valid() && View() == ZERO
    {
      phase, rxLen, lastActivity := Closed, 0, 0;
      localIp, localPort, remoteIp, remotePort, seqNo, ackNo := 0, 0, 0, 0, 0, 0;
      forall i | 0 <= i < RX_BUF_SIZE { rxBuf[i] := 0; }
    }

    method Close()
      requires Valid()
      modifies this
      ensures Valid() && View() == Shut(old(View()))
    {
      phase, rxLen := Closed, 0;
    }

    method SendCtrl(flags: int) returns (o: Output)
      requires Valid()
      ensures o == Ctrl(View(), flags)
    {
      o := Emit(localPort, remotePort, remoteIp, seqNo, ackNo, flags, []);
    }

    method SendData(data: seq<byte>) returns (o: Output)
      requires Valid()
      modifies `seqNo
      ensures Valid() && o == Sent(old(View()), ACK + PSH, data)
      ensures View() == old(View()).(seqNo := Wrap(old(seqNo) + |data|))
    {
      o := Emit(localPort, remotePort, remoteIp, seqNo, ackNo, ACK + PSH, data);
      seqNo := (seqNo + |data|) % 0x1_0000_0000;
    }

    /** memcpy of the payload behind what is buffered. */
    method Append(payload: seq<byte>)
      requires Valid() && rxLen + |payload| < RX_BUF_SIZE
      modifies `rxLen, rxBuf
      ensures Valid() && View() == old(View()).(rx := old(View().rx) + payload)
    {
      ghost var before := rxBuf[..rxLen];
      for i := 0 to |payload|
        invariant Valid() && rxLen == old(rxLen)
        invariant rxBuf[..rxLen + i] == before + payload[..i]
      {
        rxBuf[rxLen + i] := payload[i];
        assert payload[..i + 1] == payload[..i] + [payload[i]];
        assert rxBuf[..rxLen + i + 1] == rxBuf[..rxLen + i] + [payload[i]];
      }
      rxLen := rxLen + |payload|;
      assert payload[..|payload|] == payload;
    }

    /** The scan for the blank line: just past it, or None. */
    method FindEnd() returns (end: Option<nat>)
      requires Valid()
      ensures end == Head(rxBuf[..rxLen])
    {
      var i := 0;
      while i + 3 < rxLen
        invariant 0 <= i
        invariant forall k :: 0 <= k < i ==> !BlankAt(rxBuf[..rxLen], k, CR, LF)
      {
        if rxBuf[i] == CR && rxBuf[i + 1] == LF && rxBuf[i + 2] == CR && rxBuf[i + 3] == LF {
          HeadEndIs(rxBuf[..rxLen], 0, i + 4, CR, LF);
          return Some(i + 4);
        }
        i := i + 1;
      }
      assert forall k :: 0 <= k ==> !BlankAt(rxBuf[..rxLen], k, CR, LF);
      return None;
    }

    /** What tcp_init does to the socket it allocates. */
    method StartListening()
      requires Valid()
      modifies this
      ensures Valid() && View() == old(View()).(phase := Listen, localPort := HTTP_PORT, localIp := NET_IP_ADDR)
    {
      phase, localPort, localIp := Listen, HTTP_PORT, NET_IP_ADDR;
    }

    /** What a SYN does to the socket allocated for it. */
    method Open(i: nat, h: Header, ip: int, now: int)
      requires Valid() && View() == ZERO
      modifies this
      ensures Valid() && View() == Opened(i, h, ip, now)
    {
      phase := SynReceived;
      localPort := h.dst;
      remotePort := h.src;
      remoteIp := ip;
      seqNo := (1000 + i * 100 + now % 0x1_0000) % 0x1_0000_0000;
    }

    method Touch(ip: int, now: int)
      requires Valid()
      modifies this
      ensures Valid() && View() == Touched(old(View()), ip, now)
    {
      if remoteIp == 0 {
        remoteIp := ip;
      }
      lastActivity := now;
    }

    method Retry(now: int) returns (out: seq<Output>)
      requires Valid()
      modifies this
      ensures Valid() && (View(), out) == Retried(old(View()), now)
    {
      out := [];
      if phase == SynReceived && (now - lastActivity) % 0x1_0000_0000 > 1 {
        var o := SendCtrl(SYN + ACK);
        out := [o];
        lastActivity := now;
      }
    }

    /** The branch for SYN_RECEIVED. */
    method Shake(h: Header) returns (out: seq<Output>)
      requires Valid()
      modifies this
      ensures Valid() && (View(), out) == OnHandshake(old(View()), h)
    {
      ackNo := (h.seqNo + 1) % 0x1_0000_0000;
      if Has(h.flags, ACK) {
        phase := Established;
        seqNo := h.ackNo;
        var o := SendCtrl(ACK);
        out := [o];
      } else {
        var o := SendCtrl(SYN + ACK);
        out := [o];
      }
    }

    /** The branch for ESTABLISHED and CLOSE_WAIT. */
    method TakeData(h: Header, reply: Option<seq<byte>>) returns (out: seq<Output>)
      requires Valid()
      modifies this, rxBuf
      ensures Valid() && (View(), out) == OnData(old(View()), h, reply)
    {
      hide HeadEnd, Has;
      out := [];
      if Has(h.flags, SYN) {
        return;
      }
      ackNo := (h.seqNo + |h.payload|) % 0x1_0000_0000;
      if Has(h.flags, FIN) {
        ackNo := (ackNo + 1) % 0x1_0000_0000;
        WrapTwice(h.seqNo + |h.payload|);
        var o := SendCtrl(ACK);
        out := [o];
        phase := if phase == Established then CloseWait else LastAck;
        if phase == LastAck {
          Close();
        }
        return;
      }
      if !Has(h.flags, ACK) {
        return;
      }
      if |h.payload| > 0 && rxLen + |h.payload| < RX_BUF_SIZE {
        Append(h.payload);
      }
      assert View().rx == Buffered(old(View().rx), h.payload) by { AppendNothing(old(View().rx), h.payload); }
      if |h.payload| > 0 {
        var o := SendCtrl(ACK);
        out := [o];
      }
      var more := Drain(reply);
      out := out + more;
    }

    static lemma AppendNothing(rx: seq<byte>, payload: seq<byte>)
      ensures payload == [] ==> Buffered(rx, payload) == rx
    {
    }

    static lemma WrapTwice(x: int)
      ensures Wrap(Wrap(x) + 1) == Wrap(x + 1)
    {
    }

    /** The request, if it is complete, and the response to it. */
    method Drain(reply: Option<seq<byte>>) returns (out: seq<Output>)
      requires Valid()
      modifies this, rxBuf
      ensures Valid() && (View(), out) == Drained(old(View()), reply)
    {
      hide HeadEnd;
      out := [];
      if rxLen > 0 {
        var end := FindEnd();
        if end.Some? {
          out := [Handed(rxBuf[..end.value])];
          assert rxBuf[..rxLen][..end.value] == rxBuf[..end.value];
          if reply.Some? {
            var o := SendData(reply.value);
            out := out + [o];
          }
          rxLen := 0;
          phase := FinWait1;
          var fin := SendCtrl(FIN + ACK);
          out := out + [fin];
          assert out == Serve(old(View()), end.value, reply).1;
        }
      } else {
        var o := SendCtrl(ACK);
        out := [o];
      }
    }

    /** The switch on the state. */
    method Advance(h: Header, reply: Option<seq<byte>>) returns (out: seq<Output>)
      requires Valid()
      modifies this, rxBuf
      ensures Valid() && (View(), out) == Advanced(old(View()), h, reply)
    {
      hide HeadEnd, Has, OnData, OnHandshake;
      out := [];
      match phase {
        case SynReceived => out := Shake(h);
        case Established => out := TakeData(h, reply);
        case CloseWait => out := TakeData(h, reply);
        case FinWait1 =>
          if Has(h.flags, FIN) {
            ackNo := (ackNo + 1) % 0x1_0000_0000;
            phase := TimeWait;
          } else if Has(h.flags, ACK) {
            phase := FinWait2;
          }
        case FinWait2 =>
          if Has(h.flags, FIN) {
            ackNo := (ackNo + 1) % 0x1_0000_0000;
            var o := SendCtrl(ACK);
            out := [o];
            phase := TimeWait;
            Close();
          }
        case LastAck =>
          if Has(h.flags, ACK) { Close(); }
        case _ =>
      }
    }
  }

  class Receiver {
    const sockets: seq<TcpSocket>
    var now: word

    ghost predicate Valid()
      reads this, sockets
    {
      && |sockets| == MAX_SOCKETS
      && (forall i :: 0 <= i < MAX_SOCKETS ==> sockets[i].Valid())
      && Separate()
    }

    ghost predicate Separate() {
      forall i, j :: 0 <= i < j < |sockets| ==> sockets[i] != sockets[j] && sockets[i].rxBuf != sockets[j].rxBuf
    }

    ghost function Buffers(): set<object> {
      set s | s in sockets :: s.rxBuf
    }

    ghost function Table(): (ss: seq<Socket>)
      requires Valid()
      reads this, sockets, Buffers()
      ensures |ss| == MAX_SOCKETS
      ensures forall i :: 0 <= i < MAX_SOCKETS ==> ss[i] == sockets[i].View()
    {
      [sockets[0].View(), sockets[1].View(), sockets[2].View(), sockets[3].View()]
    }

    ghost function View(): Stack
      requires Valid()
      reads this, sockets, Buffers()
    {
      Stack(Table(), now)
    }

    static lemma FreeFirst(ss: seq<Socket>)
      requires ss != [] && ss[0].phase == Closed
      ensures Free(ss) == Some(0)
    {
    }

    /** An update of one socket. */
    twostate lemma Updated(i: nat)
      requires old(Valid()) && i < MAX_SOCKETS && sockets[i].Valid()
      requires forall j :: 0 <= j < MAX_SOCKETS && j != i ==> unchanged(sockets[j]) && unchanged(sockets[j].rxBuf)
      ensures Valid() && Table() == old(Table())[i := sockets[i].View()]
    {
    }

    constructor ()
      ensures Valid() && fresh(sockets) && fresh(Buffers()) && now == 0
    {
      hide TcpSocket.View;
      var a := new TcpSocket();
      var b := new TcpSocket();
      var c := new TcpSocket();
      var d := new TcpSocket();
      sockets := [a, b, c, d];
      now := 0;
    }

    /** tcp_init. */
    method Init()
      requires Valid()
      modifies sockets, Buffers()
      ensures Valid() && now == old(now) && Table() == BOOT.sockets
    {
      hide TcpSocket.View, First;
      for i := 0 to MAX_SOCKETS
        invariant Valid() && now == old(now)
        invariant forall j :: 0 <= j < i ==> Table()[j] == ZERO
      {
        label L:
        sockets[i].Zero();
        Updated@L(i);
      }
      FreeFirst(Table());
      var l := SocketAlloc();
      if l >= 0 {
        label M:
        sockets[l].StartListening();
        Updated@M(l);
      }
    }

    method SocketAlloc() returns (i: int)
      requires Valid()
      modifies sockets, Buffers()
      ensures Valid() && -1 <= i < MAX_SOCKETS
      ensures Free(old(Table())) == if i < 0 then None else Some(i)
      ensures Table() == if i < 0 then old(Table()) else old(Table())[i := ZERO]
    {
      i := 0;
      while i < MAX_SOCKETS
        invariant 0 <= i <= MAX_SOCKETS && Valid() && Table() == old(Table())
        invariant forall j :: 0 <= j < i ==> sockets[j].View().phase != Closed
      {
        if sockets[i].phase == Closed {
          label L:
          sockets[i].Zero();
          Updated@L(i);
          return;
        }
        i := i + 1;
      }
      i := -1;
    }

    method SocketLookup(ip: int, remotePort: int, localPort: int) returns (i: int)
      requires Valid()
      ensures -1 <= i < MAX_SOCKETS
      ensures Lookup(Table(), ip, remotePort, localPort) == if i < 0 then None else Some(i)
    {
      i := 0;
      while i < MAX_SOCKETS
        invariant 0 <= i <= MAX_SOCKETS
        invariant forall j :: 0 <= j < i ==> !Matches(sockets[j].View(), ip, remotePort, localPort)
      {
        var s := sockets[i];
        if s.phase != Closed && s.localPort == localPort && s.remotePort == remotePort
           && (s.remoteIp == 0 || s.remoteIp == ip) {
          return;
        }
        i := i + 1;
      }
      i := -1;
    }

    method ListenerLookup(localPort: int) returns (i: int)
      requires Valid()
      ensures -1 <= i < MAX_SOCKETS
      ensures Listener(Table(), localPort) == if i < 0 then None else Some(i)
    {
      i := 0;
      while i < MAX_SOCKETS
        invariant 0 <= i <= MAX_SOCKETS
        invariant forall j :: 0 <= j < i ==> !Listening(sockets[j].View(), localPort)
      {
        if sockets[i].phase == Listen && sockets[i].localPort == localPort {
          return;
        }
        i := i + 1;
      }
      i := -1;
    }

    /** The slot for a segment, opened for it if need be, or -1. */
    method Place(h: Header, ip: word) returns (i: int)
      requires Valid()
      modifies sockets, Buffers()
      ensures Valid() && -1 <= i < MAX_SOCKETS && now == old(now)
      ensures Slot(old(View()), ip, h) == if i < 0 then None else Some(i)
      ensures Table() == if i < 0 then old(Table()) else old(Table())[i := Found(old(View()), ip, h, i)]
    {
      hide TcpSocket.View, Table, First, Has, Opened, Matches, Listening;
      i := SocketLookup(ip, h.src, h.dst);
      if i < 0 && Has(h.flags, SYN) {
        var l := ListenerLookup(h.dst);
        if l >= 0 {
          i := SocketAlloc();
          if i >= 0 {
            label L:
            sockets[i].Open(i, h, ip, now);
            Updated@L(i);
          }
        }
      }
    }

    /** tcp_receive, from the given source address; reply is what the HTTP layer answers. */
    method Receive(packet: seq<byte>, ip: word, reply: Option<seq<byte>>) returns (out: seq<Output>)
      requires Valid()
      modifies sockets, Buffers()
      ensures Valid()
      ensures (View(), out) == StepOut(old(View()), Packet(ip, packet, reply))
    {
      hide Decode, Advanced, Opens, First, TcpSocket.View, Table, Found;
      out := [];
      var d := Decode(packet);
      if d.None? { return; }
      var h := d.value;
      var i := Place(h, ip);
      if i < 0 {
        if !Has(h.flags, RST) {
          var ack := (h.seqNo + 1 + if Has(h.flags, SYN) then 1 else 0) % 0x1_0000_0000;
          out := [Emit(h.dst, h.src, ip, 0, ack, RST, [])];
        }
        return;
      }
      label L:
      assert sockets[i].View() == Found(old(View()), ip, h, i);
      sockets[i].Touch(ip, now);
      out := sockets[i].Advance(h, reply);
      Updated@L(i);
      assert Table() == old(Table())[i := sockets[i].View()];
    }

    /** tcp_periodic. */
    method Periodic() returns (out: seq<Output>)
      requires Valid()
      modifies this, sockets
      ensures Valid()
      ensures (View(), out) == StepOut(old(View()), Tick)
    {
      hide TcpSocket.View, Retried;
      now := (now + 1) % 0x1_0000_0000;
      out := [];
      for i := 0 to MAX_SOCKETS
        invariant Valid() && now == Wrap(old(now) + 1)
        invariant (Table(), out) == RetriedUpTo(old(Table()), now, i)
      {
        label L:
        var more := sockets[i].Retry(now);
        out := out + more;
        Updated@L(i);
      }
    }
  }
}
