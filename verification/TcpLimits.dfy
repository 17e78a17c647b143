/** Two promises the TCP receiver does not keep, and what each takes. */
module TcpLimits {
  import opened Framing
  import opened Machine
  import opened Options
  import opened TcpRuns
  import opened TcpSockets

  lemma RunSnoc(st: Stack, es: seq<Event>, e: Event)
    ensures Run(st, es + [e]) == Step(Run(st, es), e)
  {
    assert (es + [e])[..|es|] == es;
  }

  lemma {:induction false} RunConcat(st: Stack, a: seq<Event>, b: seq<Event>)
    ensures Run(st, a + b) == Run(Run(st, a), b)
  {
    if b == [] {
      assert a + b == a;
    } else {
      RunConcat(st, a, b[..|b| - 1]);
      assert (a + b)[..|a + b| - 1] == a + b[..|b| - 1];
    }
  }

  lemma FourSteps(st: Stack, es: seq<Event>, a: Stack, b: Stack, c: Stack)
    requires |es| == 4 && a == Step(st, es[0]) && b == Step(a, es[1]) && c == Step(b, es[2])
    ensures Run(st, es) == Step(c, es[3])
  {
    hide Step;
    RunSnoc(st, [], es[0]);
    RunSnoc(st, es[..1], es[1]);
    RunSnoc(st, es[..2], es[2]);
    RunSnoc(st, es[..3], es[3]);
    assert es[..1] == [] + [es[0]];
    assert es[..2] == es[..1] + [es[1]];
    assert es[..3] == es[..2] + [es[2]];
    assert es == es[..3] + [es[3]];
  }

  /** A segment that names the peer of the live socket in slot k changes that socket and no other. */
  lemma Delivered(st: Stack, e: Event, k: nat)
    requires Shape(st) && Distinct(st.sockets) && k < MAX_SOCKETS && Live(st.sockets[k]) && Addressed(st.sockets[k], e)
    ensures var t := Handled(st.sockets[k], Decode(e.bytes).value, e.ip, st.now, e.reply).0;
      Step(st, e).sockets == st.sockets[k := t]
  {
    hide HeadEnd, Handled;
    var h := Decode(e.bytes).value;
    OnlyMatch(st.sockets, e.ip, h, Lookup(st.sockets, e.ip, h.src, h.dst).value, k);
  }

  /** A SYN from a peer the table does not know takes the first free slot. */
  lemma Accepted(st: Stack, e: Event, k: nat)
    requires Shape(st) && e.Packet? && Decode(e.bytes).Some?
    requires var h := Decode(e.bytes).value;
      && h.dst == HTTP_PORT && Has(h.flags, SYN)
      && Lookup(st.sockets, e.ip, h.src, h.dst).None? && Free(st.sockets) == Some(k)
    ensures k < MAX_SOCKETS
    ensures var h := Decode(e.bytes).value;
      Step(st, e).sockets == st.sockets[k := Handled(Opened(k, h, e.ip, st.now), h, e.ip, st.now, e.reply).0]
  {
    hide HeadEnd, Handled;
    assert Listening(st.sockets[0], HTTP_PORT);
  }

  // ---------------------------------------------------------------- a source address of zero

  /** A bare segment to port 8080, sequence and acknowledgement number 1. */
  function Bytes(src: word, flags: byte): seq<byte>
    requires src < 0x1_0000
  {
    [src / 0x100, src % 0x100, 0x1F, 0x90, 0, 0, 0, 1, 0, 0, 0, 1, 0x50, flags, 0, 0, 0, 0, 0, 0]
  }

  function Probe(ip: word, src: word, flags: byte): Event
    requires src < 0x1_0000
  {
    Packet(ip, Bytes(src, flags), None)
  }

  lemma BytesDecode(src: word, flags: byte)
    requires src < 0x1_0000
    ensures Decode(Bytes(src, flags)) == Some(Header(src, HTTP_PORT, 1, 1, flags, []))
  {
    var b := Bytes(src, flags);
    assert b[12] == 0x50 && b[13] == flags && |b| == TCP_HDR_LEN;
    assert Be16(b, 0) == src && Be16(b, 2) == HTTP_PORT && Be16(b, 4) == 0 && Be16(b, 8) == 0;
    assert Be32(b, 4) == 1 && Be32(b, 8) == 1;
  }

  /** A table whose first free slot lies below the slot of a peer: a SYN from address 0 with that peer's port
      takes it, and the peer's next segment makes that socket its own as well. */
  lemma ZeroSourceTakesOver(st: Stack, i: nat, j: nat)
    requires Shape(st) && Distinct(st.sockets) && 1 <= i < j < MAX_SOCKETS && Free(st.sockets) == Some(i)
    requires Live(st.sockets[j]) && 0 <= st.sockets[j].remotePort < 0x1_0000 && 0 < st.sockets[j].remoteIp <= SIZE_MAX
    requires Lookup(st.sockets, 0, st.sockets[j].remotePort, HTTP_PORT).None?
    ensures var s := st.sockets[j];
            var ss := Step(Step(st, Probe(0, s.remotePort, SYN)), Probe(s.remoteIp, s.remotePort, ACK)).sockets;
      && |ss| == MAX_SOCKETS && Live(ss[i]) && ss[j] == s
      && ss[i].remoteIp == s.remoteIp && ss[i].remotePort == s.remotePort
  {
    hide HeadEnd, Bytes, Handled;
    var s := st.sockets[j];
    var syn := Header(s.remotePort, HTTP_PORT, 1, 1, SYN, []);
    var ack := Header(s.remotePort, HTTP_PORT, 1, 1, ACK, []);
    BytesDecode(s.remotePort, SYN);
    BytesDecode(s.remotePort, ACK);
    Accepted(st, Probe(0, s.remotePort, SYN), i);
    StaysLive(Opened(i, syn, 0, st.now), syn, 0, st.now);
    var mid := Step(st, Probe(0, s.remotePort, SYN));
    FirstAt(st.sockets, mid.sockets, s.remoteIp, s.remotePort, i, j);
    StaysLive(mid.sockets[i], ack, s.remoteIp, mid.now);
  }

  /** A segment without FIN closes no connection that has not yet handed on a request. */
  lemma StaysLive(s: Socket, h: Header, ip: int, now: int)
    requires !Has(h.flags, FIN)
    ensures var t := Handled(s, h, ip, now, None).0;
      && (Rank(s.phase) in {1, 2, 3} ==> Live(t))
      && (Rank(s.phase) == 1 ==> Rank(t.phase) in {1, 2})
      && t.localPort == s.localPort && t.remotePort == s.remotePort && t.remoteIp == Touched(s, ip, now).remoteIp
  {
    hide HeadEnd, Has;
  }

  lemma FreeIs(ss: seq<Socket>, k: nat)
    requires k < |ss| && ss[k].phase == Closed && forall j :: 0 <= j < k ==> ss[j].phase != Closed
    ensures Free(ss) == Some(k)
  {
  }

  lemma FirstAt(ss: seq<Socket>, ts: seq<Socket>, ip: int, port: int, i: nat, j: nat)
    requires Distinct(ss) && i < j < |ss| && |ts| == |ss| && Matches(ss[j], ip, port, HTTP_PORT)
    requires forall m :: 0 <= m < |ss| && m != i ==> ts[m] == ss[m]
    requires Matches(ts[i], ip, port, HTTP_PORT)
    ensures Lookup(ts, ip, port, HTTP_PORT) == Some(i)
  {
    var m := Lookup(ts, ip, port, HTTP_PORT).value;
    assert m < i ==> Clash(ts[m], ts[j]);
  }

  const PEER: word := 0x0A00_0202
  const OTHER: word := 0x0A00_0203

  /** One connection opened and closed, one open, then a SYN from address 0. */
  const OPENING: seq<Event> :=
    [Probe(OTHER, 7, SYN + ACK), Probe(PEER, 9, SYN), Probe(OTHER, 7, FIN), Probe(OTHER, 7, FIN)]

  predicate PeerIs(s: Socket, p: Phase, ip: int, port: int) {
    s.phase == p && s.remoteIp == ip && s.remotePort == port && s.localPort == HTTP_PORT
  }

  lemma SynHandled(k: nat, ip: word, src: word, flags: byte, now: int)
    requires 0 < ip && flags in {SYN, SYN + ACK}
    ensures var h := Header(src, HTTP_PORT, 1, 1, flags, []);
      PeerIs(Handled(Opened(k, h, ip, now), h, ip, now, None).0,
             if flags == SYN then SynReceived else Established, ip, src)
  {
  }

  lemma FinHandled(s: Socket, ip: word, src: word, now: int)
    requires 0 < ip && (PeerIs(s, Established, ip, src) || PeerIs(s, CloseWait, ip, src))
    ensures var h := Header(src, HTTP_PORT, 1, 1, FIN, []);
      PeerIs(Handled(s, h, ip, now, None).0, if s.phase == Established then CloseWait else Closed, ip, src)
  {
    hide Head;
  }

  lemma OpenedBy(st: Stack, k: nat, ip: word, src: word, flags: byte)
    requires Keyed(st) && 0 < ip && src < 0x1_0000 && flags in {SYN, SYN + ACK}
    requires Lookup(st.sockets, ip, src, HTTP_PORT).None? && Free(st.sockets) == Some(k)
    ensures k < MAX_SOCKETS && |Step(st, Probe(ip, src, flags)).sockets| == MAX_SOCKETS
    ensures var ts := Step(st, Probe(ip, src, flags)).sockets;
      && PeerIs(ts[k], if flags == SYN then SynReceived else Established, ip, src)
      && forall j :: 0 <= j < MAX_SOCKETS && j != k ==> ts[j] == st.sockets[j]
    ensures Keyed(Step(st, Probe(ip, src, flags)))
  {
    hide HeadEnd, Step, Handled, Decode, Bytes;
    SynHandled(k, ip, src, flags, st.now);
    BytesDecode(src, flags);
    StepKeyed(st, Probe(ip, src, flags));
    Accepted(st, Probe(ip, src, flags), k);
  }

  lemma FinMoves(st: Stack, k: nat, ip: word, src: word)
    requires Keyed(st) && k < MAX_SOCKETS && 0 < ip && src < 0x1_0000
    requires PeerIs(st.sockets[k], Established, ip, src) || PeerIs(st.sockets[k], CloseWait, ip, src)
    ensures |Step(st, Probe(ip, src, FIN)).sockets| == MAX_SOCKETS
    ensures var ts := Step(st, Probe(ip, src, FIN)).sockets;
      && PeerIs(ts[k], if st.sockets[k].phase == Established then CloseWait else Closed, ip, src)
      && forall j :: 0 <= j < MAX_SOCKETS && j != k ==> ts[j] == st.sockets[j]
    ensures Keyed(Step(st, Probe(ip, src, FIN)))
  {
    hide HeadEnd, Step, Handled, Decode, Bytes;
    FinHandled(st.sockets[k], ip, src, st.now);
    BytesDecode(src, FIN);
    StepKeyed(st, Probe(ip, src, FIN));
    Delivered(st, Probe(ip, src, FIN), k);
  }

  lemma OpeningRuns()
    ensures var st := Run(BOOT, OPENING);
      && Keyed(st) && Free(st.sockets) == Some(1) && Live(st.sockets[2])
      && st.sockets[2].remoteIp == PEER && st.sockets[2].remotePort == 9
      && Lookup(st.sockets, 0, 9, HTTP_PORT).None?
  {
    hide HeadEnd, Step, Run, Has, Bytes;
    var a := Step(BOOT, OPENING[0]);
    var b := Step(a, OPENING[1]);
    var c := Step(b, OPENING[2]);
    FourSteps(BOOT, OPENING, a, b, c);
    BootKeyed();
    FreeIs(BOOT.sockets, 1);
    OpenedBy(BOOT, 1, OTHER, 7, SYN + ACK);
    FreeIs(a.sockets, 2);
    OpenedBy(a, 2, PEER, 9, SYN);
    FinMoves(b, 1, OTHER, 7);
    FinMoves(c, 1, OTHER, 7);
    FreeIs(Step(c, OPENING[3]).sockets, 1);
  }

  /** A run, with one packet from address 0 in it, after which two live sockets have the same peer. */
  lemma ZeroSourceClash()
    ensures var ss := Run(BOOT, OPENING + [Probe(0, 9, SYN)] + [Probe(PEER, 9, ACK)]).sockets;
      && |ss| == MAX_SOCKETS && Live(ss[1]) && Live(ss[2])
      && ss[1].remoteIp == ss[2].remoteIp && ss[1].remotePort == ss[2].remotePort
  {
    hide HeadEnd, Step, Run;
    OpeningRuns();
    RunSnoc(BOOT, OPENING, Probe(0, 9, SYN));
    RunSnoc(BOOT, OPENING + [Probe(0, 9, SYN)], Probe(PEER, 9, ACK));
    ZeroSourceTakesOver(Run(BOOT, OPENING), 1, 2);
  }

  // ---------------------------------------------------------------- closing with FIN and ACK in one segment

  /** A data segment that holds a whole request. */
  predicate Asks(h: Header) {
    && Has(h.flags, ACK) && !Has(h.flags, SYN) && !Has(h.flags, FIN)
    && |h.payload| < RX_BUF_SIZE && Head(h.payload).Some?
  }

  /** SYN; ACK; a whole request in one segment; a segment with FIN: what a client does that closes as soon as
      it has the response. */
  predicate Visit(es: seq<Event>, ip: word, port: int) {
    && ip != 0 && port != 0 && |es| == 4
    && (forall i :: 0 <= i < 4 ==> From(ip, port, es[i]))
    && var f := (i: int) requires 0 <= i < 4 => Decode(es[i].bytes).value;
    && Has(f(0).flags, SYN) && !Has(f(0).flags, ACK)
    && Has(f(1).flags, ACK)
    && Asks(f(2))
    && Has(f(3).flags, FIN)
  }

  /** A data segment whose payload is a blank line. */
  function Asking(src: word): seq<byte>
    requires src < 0x1_0000
  {
    Bytes(src, ACK) + [CR, LF, CR, LF]
  }

  function VisitOf(ip: word, port: word): seq<Event>
    requires port < 0x1_0000
  {
    [Probe(ip, port, SYN), Probe(ip, port, ACK), Packet(ip, Asking(port), None), Probe(ip, port, FIN)]
  }

  /** Every peer can make such a visit. */
  lemma VisitExists(ip: word, port: word)
    requires ip != 0 && 0 < port < 0x1_0000
    ensures Visit(VisitOf(ip, port), ip, port)
  {
    hide Bytes, Decode, HeadEnd, Asking;
    BytesDecode(port, SYN);
    BytesDecode(port, ACK);
    BytesDecode(port, FIN);
    AskingDecodes(port);
    var es := VisitOf(ip, port);
    assert From(ip, port, es[0]) && From(ip, port, es[1]) && From(ip, port, es[2]) && From(ip, port, es[3]);
  }

  lemma AskingDecodes(src: word)
    requires src < 0x1_0000
    ensures Decode(Asking(src)) == Some(Header(src, HTTP_PORT, 1, 1, ACK, [CR, LF, CR, LF]))
    ensures Asks(Header(src, HTTP_PORT, 1, 1, ACK, [CR, LF, CR, LF]))
  {
    var a, b, blank: seq<byte> := Asking(src), Bytes(src, ACK), [CR, LF, CR, LF];
    BytesDecode(src, ACK);
    assert a[20..] == blank;
    assert a[12] == 0x50 && a[13] == ACK;
    assert Be16(a, 0) == Be16(b, 0) && Be16(a, 2) == Be16(b, 2);
    assert Be32(a, 4) == Be32(b, 4) && Be32(a, 8) == Be32(b, 8);
    assert BlankAt(blank, 0, CR, LF);
    HeadEndIs(blank, 0, 4, CR, LF);
  }

  lemma VisitPeer(es: seq<Event>, ip: word, port: int)
    requires Visit(es, ip, port)
    ensures ip != 0 && port != 0
  {
  }

  /** Such a visit ends with its slot in TIME_WAIT, and changes nothing else. */
  lemma VisitSticks(st: Stack, es: seq<Event>, ip: word, port: int, k: nat)
    requires Shape(st) && Distinct(st.sockets) && Visit(es, ip, port)
    requires Lookup(st.sockets, ip, port, HTTP_PORT).None? && Free(st.sockets) == Some(k)
    ensures Shape(Run(st, es)) && Distinct(Run(st, es).sockets) && (Keyed(st) ==> Keyed(Run(st, es)))
    ensures k < MAX_SOCKETS && PeerIs(Run(st, es).sockets[k], TimeWait, ip, port)
    ensures forall j :: 0 <= j < MAX_SOCKETS && j != k ==> Run(st, es).sockets[j] == st.sockets[j]
  {
    hide HeadEnd, Step, Run, Handled, Has, Decode;
    var a := Step(st, es[0]);
    var b := Step(a, es[1]);
    var c := Step(b, es[2]);
    FourSteps(st, es, a, b, c);
    StepsOn(st, es[0]);
    Accepted(st, es[0], k);
    VisitOpens(es[0], k, st.now);
    StepsOn(a, es[1]);
    Delivered(a, es[1], k);
    VisitMoves(a.sockets[k], es[1], a.now);
    StepsOn(b, es[2]);
    Delivered(b, es[2], k);
    VisitMoves(b.sockets[k], es[2], b.now);
    StepsOn(c, es[3]);
    Delivered(c, es[3], k);
    VisitMoves(c.sockets[k], es[3], c.now);
  }

  lemma StepsOn(st: Stack, e: Event)
    requires Shape(st) && Distinct(st.sockets) && e.Packet? && e.ip != 0
    ensures Shape(Step(st, e)) && Distinct(Step(st, e).sockets)
  {
    hide Step, HeadEnd, Decode;
    StepShape(st, e);
    StepDistinct(st, e);
  }

  lemma VisitOpens(e: Event, k: nat, now: int)
    requires e.Packet? && e.ip != 0 && Decode(e.bytes).Some? && !Has(Decode(e.bytes).value.flags, ACK)
    requires Decode(e.bytes).value.dst == HTTP_PORT
    ensures var h := Decode(e.bytes).value;
      PeerIs(Handled(Opened(k, h, e.ip, now), h, e.ip, now, e.reply).0, SynReceived, e.ip, h.src)
  {
  }

  /** The stages of a visit after its SYN. */
  lemma VisitMoves(s: Socket, e: Event, now: int)
    requires e.Packet? && Decode(e.bytes).Some? && s.remoteIp != 0
    ensures var h := Decode(e.bytes).value;
            var t := Handled(s, h, e.ip, now, e.reply).0;
      && t.remoteIp == s.remoteIp && t.remotePort == s.remotePort && t.localPort == s.localPort
      && (s.phase == SynReceived && Has(h.flags, ACK) ==> t.phase == Established && t.rx == s.rx)
      && (s.phase == Established && s.rx == [] && Asks(h) ==> t.phase == FinWait1)
      && (s.phase == FinWait1 && Has(h.flags, FIN) ==> t.phase == TimeWait)
  {
    hide HeadEnd, Has, Asks, OnData;
    var h := Decode(e.bytes).value;
    if s.phase == Established && s.rx == [] && Asks(h) { AskServed(Touched(s, e.ip, now), h, e.reply); }
    if s.phase in {Established, CloseWait} { OnDataPeer(Touched(s, e.ip, now), h, e.reply); }
  }

  lemma OnDataPeer(s: Socket, h: Header, reply: Option<seq<byte>>)
    ensures var t := OnData(s, h, reply).0;
      t.remoteIp == s.remoteIp && t.remotePort == s.remotePort && t.localPort == s.localPort
  {
    hide HeadEnd, Has;
  }

  lemma AskServed(s: Socket, h: Header, reply: Option<seq<byte>>)
    requires s.rx == [] && Asks(h)
    ensures OnData(s, h, reply).0.phase == FinWait1
  {
    EmptyHead();
    hide HeadEnd, Has;
    assert [] + h.payload == h.payload;
  }

  /** Three such visits from different peers to a freshly started server use it up: in every run that follows
      every SYN from another peer is answered with a reset. */
  lemma ThreeVisitsExhaust(a: seq<Event>, b: seq<Event>, c: seq<Event>, ips: seq<word>, ports: seq<int>)
    requires |ips| == |ports| == 3
    requires Visit(a, ips[0], ports[0]) && Visit(b, ips[1], ports[1]) && Visit(c, ips[2], ports[2])
    requires forall i, j :: 0 <= i < j < 3 ==> ips[i] != ips[j] || ports[i] != ports[j]
    ensures Keyed(Run(BOOT, a + b + c)) && Exhausted(Run(BOOT, a + b + c))
  {
    hide HeadEnd, Run, Handled, Visit, Step, Decode;
    BootKeyed();
    VisitPeer(a, ips[0], ports[0]);
    VisitPeer(b, ips[1], ports[1]);
    VisitPeer(c, ips[2], ports[2]);
    var x := Run(BOOT, a);
    var y := Run(x, b);
    FreeIs(BOOT.sockets, 1);
    VisitSticks(BOOT, a, ips[0], ports[0], 1);
    FreeIs(x.sockets, 2);
    VisitSticks(x, b, ips[1], ports[1], 2);
    FreeIs(y.sockets, 3);
    VisitSticks(y, c, ips[2], ports[2], 3);
    RunConcat(BOOT, a, b);
    RunConcat(BOOT, a + b, c);
  }

  /** Any three peers can do so. */
  lemma AnyThreeExhaust(ips: seq<word>, ports: seq<word>)
    requires |ips| == |ports| == 3 && forall i :: 0 <= i < 3 ==> ips[i] != 0 && 0 < ports[i] < 0x1_0000
    requires forall i, j :: 0 <= i < j < 3 ==> ips[i] != ips[j] || ports[i] != ports[j]
    ensures Exhausted(Run(BOOT, VisitOf(ips[0], ports[0]) + VisitOf(ips[1], ports[1]) + VisitOf(ips[2], ports[2])))
  {
    hide Visit, VisitOf, Run, Exhausted;
    VisitExists(ips[0], ports[0]);
    VisitExists(ips[1], ports[1]);
    VisitExists(ips[2], ports[2]);
    var ps: seq<int> := [ports[0], ports[1], ports[2]];
    ThreeVisitsExhaust(VisitOf(ips[0], ports[0]), VisitOf(ips[1], ports[1]), VisitOf(ips[2], ports[2]), ips, ps);
  }
}
