/** What every event does to a connection, field by field, and the ordinary course of one: opened, served, closed. */
module TcpEvents {
  import opened Framing
  import opened Machine
  import opened Options
  import opened TcpLimits
  import opened TcpRuns
  import opened TcpSockets
  import opened TcpStreams

  const MODULUS: int := 0x1_0000_0000

  // ---------------------------------------------------------------- segments

  predicate Fin(h: Header) { h.flags % 2 == 1 }
  predicate Syn(h: Header) { h.flags / 2 % 2 == 1 }
  predicate Rst(h: Header) { h.flags / 4 % 2 == 1 }
  predicate Ack(h: Header) { h.flags / 16 % 2 == 1 }

  /** A segment without data from a socket to its peer. */
  function Bare(s: Socket, peer: int, seqNo: int, ackNo: int, flags: int): Output {
    Emit(s.localPort, s.remotePort, peer, seqNo, ackNo, flags, [])
  }

  function Joined(a: int, b: int, c: int, d: int): int { a * 0x100_0000 + b * 0x1_0000 + c * 0x100 + d }

  /** A segment is read from its first 14 bytes, most significant byte first; its header is as long as the upper half
      of byte 12 says, in words, and what lies behind it is payload. */
  lemma SegmentRead(p: seq<byte>)
    ensures Decode(p).None? <==> |p| < 20
    ensures |p| >= 20 ==>
              var h := Decode(p).value;
              && h.src == Joined(0, 0, p[0], p[1]) && h.dst == Joined(0, 0, p[2], p[3])
              && h.seqNo == Joined(p[4], p[5], p[6], p[7])
              && h.ackNo == Joined(p[8], p[9], p[10], p[11])
              && h.flags == p[13]
              && forall words: nat :: 16 * words <= p[12] < 16 * words + 16 ==>
                   h.payload == if 4 * words < |p| then p[4 * words..] else []
  {
  }

  // ---------------------------------------------------------------- one segment

  /** A segment h from ip takes a live socket from s to t, and this is what is sent. */
  predicate Moves(s: Socket, h: Header, ip: int, now: int, reply: Option<seq<byte>>, t: Socket, out: seq<Output>) {
    var peer := if s.remoteIp == 0 then ip else s.remoteIp;
    && t.localIp == s.localIp && t.localPort == s.localPort && t.remotePort == s.remotePort
    && t.remoteIp == peer && t.lastActivity == now
    && match s.phase
       case SynReceived =>
         && t.rx == [] && t.ackNo == (h.seqNo + 1) % MODULUS
         && if Ack(h) then
              t.phase == Established && t.seqNo == h.ackNo && out == [Bare(s, peer, h.ackNo, t.ackNo, 0x10)]
            else
              t.phase == SynReceived && t.seqNo == s.seqNo && out == [Bare(s, peer, s.seqNo, t.ackNo, 0x12)]
       case Established => DataMoves(s, h, peer, reply, t, out)
       case CloseWait => DataMoves(s, h, peer, reply, t, out)
       case FinWait1 =>
         && out == [] && t.rx == [] && t.seqNo == s.seqNo
         && (if Fin(h) then t.phase == TimeWait && t.ackNo == (s.ackNo + 1) % MODULUS
             else t.phase == (if Ack(h) then FinWait2 else FinWait1) && t.ackNo == s.ackNo)
       case FinWait2 =>
         && t.rx == [] && t.seqNo == s.seqNo
         && (if Fin(h) then
               && t.phase == Closed && t.ackNo == (s.ackNo + 1) % MODULUS
               && out == [Bare(s, peer, s.seqNo, t.ackNo, 0x10)]
             else t.phase == FinWait2 && t.ackNo == s.ackNo && out == [])
       case _ => t.phase == s.phase && t.rx == s.rx && t.seqNo == s.seqNo && t.ackNo == s.ackNo && out == []
  }

  /** The same for a socket that takes data. */
  predicate DataMoves(s: Socket, h: Header, peer: int, reply: Option<seq<byte>>, t: Socket, out: seq<Output>) {
    if Syn(h) then
      t.phase == s.phase && t.rx == s.rx && t.seqNo == s.seqNo && t.ackNo == s.ackNo && out == []
    else if Fin(h) then
      && t.ackNo == (h.seqNo + |h.payload| + 1) % MODULUS && t.seqNo == s.seqNo
      && out == [Bare(s, peer, s.seqNo, t.ackNo, 0x10)]
      && if s.phase == Established then t.phase == CloseWait && t.rx == s.rx else t.phase == Closed && t.rx == []
    else
      && t.ackNo == (h.seqNo + |h.payload|) % MODULUS
      && var all := if |s.rx| + |h.payload| < 2048 then s.rx + h.payload else s.rx;
      && var taken := if h.payload == [] then [] else [Bare(s, peer, s.seqNo, t.ackNo, 0x10)];
      if !Ack(h) then
        t.phase == s.phase && t.rx == s.rx && t.seqNo == s.seqNo && out == []
      else if all == [] then
        && t.phase == s.phase && t.rx == [] && t.seqNo == s.seqNo
        && out == taken + [Bare(s, peer, s.seqNo, t.ackNo, 0x10)]
      else if Head(all).None? then
        t.phase == s.phase && t.rx == all && t.seqNo == s.seqNo && out == taken
      else
        && t.phase == FinWait1 && t.rx == []
        && match reply
           case None =>
             && t.seqNo == s.seqNo
             && out == taken + [Handed(all[..Head(all).value]), Bare(s, peer, s.seqNo, t.ackNo, 0x11)]
           case Some(r) =>
             && t.seqNo == (s.seqNo + |r|) % MODULUS
             && out == taken + [Handed(all[..Head(all).value]),
                                Emit(s.localPort, s.remotePort, peer, s.seqNo, t.ackNo, 0x18, r),
                                Bare(s, peer, t.seqNo, t.ackNo, 0x11)]
  }

  lemma FlagBits(h: Header)
    ensures Has(h.flags, FIN) == Fin(h) && Has(h.flags, SYN) == Syn(h)
    ensures Has(h.flags, RST) == Rst(h) && Has(h.flags, ACK) == Ack(h)
  {
  }

  /** Serving a request, or not. */
  lemma DrainedDoes(s: Socket, reply: Option<seq<byte>>)
    ensures var (t, out) := Drained(s, reply);
            var bare := (seqNo: int, flags: int) => Bare(s, s.remoteIp, seqNo, s.ackNo, flags);
      if s.rx == [] then t == s && out == [bare(s.seqNo, 0x10)]
      else if Head(s.rx).None? then t == s && out == []
      else
        var after := match reply case None => s.seqNo case Some(r) => (s.seqNo + |r|) % MODULUS;
        && t == s.(phase := FinWait1, rx := [], seqNo := after)
        && out == [Handed(s.rx[..Head(s.rx).value])]
                  + (match reply
                     case None => []
                     case Some(r) => [Emit(s.localPort, s.remotePort, s.remoteIp, s.seqNo, s.ackNo, 0x18, r)])
                  + [bare(after, 0x11)]
  {
    hide HeadEnd;
  }

  lemma DataDoes(s: Socket, h: Header, ip: int, now: int, reply: Option<seq<byte>>)
    requires s.phase in {Established, CloseWait} && |s.rx| < 2048
    ensures var u := Touched(s, ip, now);
            var (t, out) := OnData(u, h, reply);
      && t.localIp == s.localIp && t.localPort == s.localPort && t.remotePort == s.remotePort
      && t.remoteIp == u.remoteIp && t.lastActivity == now
      && DataMoves(s, h, u.remoteIp, reply, t, out)
  {
    hide Head, Has, Fin, Syn, Rst, Ack, Drained;
    FlagBits(h);
    var u := Touched(s, ip, now);
    DrainedDoes(u.(ackNo := Wrap(h.seqNo + |h.payload|), rx := Buffered(u.rx, h.payload)), reply);
  }

  lemma HandledMoves(s: Socket, h: Header, ip: int, now: int, reply: Option<seq<byte>>)
    requires Resting(s) && Live(s)
    ensures var (t, out) := Handled(s, h, ip, now, reply);
      Moves(s, h, ip, now, reply, t, out)
  {
    hide HeadEnd, Has, OnData, DataMoves, Fin, Syn, Rst, Ack;
    FlagBits(h);
    if s.phase in {Established, CloseWait} { DataDoes(s, h, ip, now, reply); }
  }

  /** What a segment that the table gives to a live slot does to it. */
  lemma SegmentMoves(st: Stack, e: Event, k: nat)
    requires Shape(st) && 1 <= k < MAX_SOCKETS && Live(st.sockets[k]) && Reaches(st, e, k)
    ensures k < |Step(st, e).sockets|
    ensures Moves(st.sockets[k], Decode(e.bytes).value, e.ip, st.now, e.reply, Step(st, e).sockets[k], Said(st, e, k))
  {
    hide HeadEnd, Handled, Moves, Decode;
    HandledMoves(st.sockets[k], Decode(e.bytes).value, e.ip, st.now, e.reply);
  }

  /** The four bytes before e are CR LF CR LF. */
  predicate BlankBefore(rx: seq<byte>, e: int) {
    4 <= e <= |rx| && rx[e - 4] == 13 && rx[e - 3] == 10 && rx[e - 2] == 13 && rx[e - 1] == 10
  }

  /** The head of a request ends behind the first such four bytes. */
  lemma HeadIs(rx: seq<byte>, e: nat)
    ensures Head(rx) == Some(e) <==> BlankBefore(rx, e) && forall j :: j < e ==> !BlankBefore(rx, j)
  {
    assert forall j :: BlankAt(rx, j, CR, LF) == BlankBefore(rx, j + 4);
    if Head(rx) == Some(e) {
      forall j | j < e ensures !BlankBefore(rx, j) { assert BlankAt(rx, j - 4, CR, LF) == BlankBefore(rx, j); }
    } else if BlankBefore(rx, e) {
      assert BlankAt(rx, e - 4, CR, LF);
      assert Head(rx).Some? && BlankBefore(rx, Head(rx).value);
    }
  }

  /** A live slot is closed by an event if and only if the event is a segment with FIN that the table gives to it, in
      FIN_WAIT_2, or in CLOSE_WAIT and without SYN. */
  lemma ClosesExactly(st: Stack, e: Event, k: nat)
    requires Shape(st) && 1 <= k < MAX_SOCKETS && Live(st.sockets[k])
    ensures k < |Step(st, e).sockets|
    ensures !Live(Step(st, e).sockets[k]) <==>
            && Reaches(st, e, k)
            && var h := Decode(e.bytes).value;
            Fin(h) && (st.sockets[k].phase == FinWait2 || (st.sockets[k].phase == CloseWait && !Syn(h)))
  {
    hide HeadEnd, Handled, Decode, Step, Fin, Syn, Ack;
    StepLive(st, e, k);
    if Reaches(st, e, k) { SegmentMoves(st, e, k); }
  }

  // ---------------------------------------------------------------- segments that no socket takes

  /** A segment that matches no socket opens one if and only if it has SYN, is for port 8080 and a slot is closed: the
      first such slot, which then sends one segment, a SYN-ACK, or an ACK if the SYN came with one. */
  lemma StrangerOpens(st: Stack, ip: word, bytes: seq<byte>, reply: Option<seq<byte>>, k: nat)
    requires Shape(st) && Decode(bytes).Some? && 1 <= k < MAX_SOCKETS && !Live(st.sockets[k])
    requires forall j :: 1 <= j < k ==> Live(st.sockets[j])
    requires var h := Decode(bytes).value;
      Syn(h) && h.dst == 8080 && Lookup(st.sockets, ip, h.src, 8080).None?
    ensures var h := Decode(bytes).value;
            var (next, out) := StepOut(st, Packet(ip, bytes, reply));
            var iss, ackNo := 1000 + 100 * k + st.now % 0x1_0000, (h.seqNo + 1) % MODULUS;
            var seqNo := if Ack(h) then h.ackNo else iss;
      && next == st.(sockets := st.sockets[k := Socket(if Ack(h) then Established else SynReceived, 0, 8080, ip, h.src,
                                                       seqNo, ackNo, [], st.now)])
      && out == [Emit(8080, h.src, ip, seqNo, ackNo, if Ack(h) then 0x10 else 0x12, [])]
  {
    hide HeadEnd, Decode, OnData, Syn, Ack, Has;
    var h := Decode(bytes).value;
    FlagBits(h);
    FreeIs(st.sockets, k);
    assert Listening(st.sockets[0], 8080);
  }

  /** In every other case it changes nothing, and is answered with a reset unless it is one. */
  lemma StrangerRefused(st: Stack, ip: word, bytes: seq<byte>, reply: Option<seq<byte>>)
    requires Shape(st) && Decode(bytes).Some?
    requires var h := Decode(bytes).value;
      && Lookup(st.sockets, ip, h.src, h.dst).None?
      && (Syn(h) && h.dst == 8080 ==> forall k :: 1 <= k < MAX_SOCKETS ==> Live(st.sockets[k]))
    ensures var h := Decode(bytes).value;
            var (next, out) := StepOut(st, Packet(ip, bytes, reply));
      && next == st
      && out == if Rst(h) then []
                else [Emit(h.dst, h.src, ip, 0, (h.seqNo + if Syn(h) then 2 else 1) % MODULUS, 0x04, [])]
  {
    hide HeadEnd, Decode, Handled, Syn, Rst, Has;
    var h := Decode(bytes).value;
    FlagBits(h);
    if h.dst != 8080 { ShapePorts(st, h.dst); }
  }

  // ---------------------------------------------------------------- ticks

  /** A tick sends a SYN-ACK again for every socket in SYN_RECEIVED that was last active more than one tick ago, and
      does nothing else. */
  lemma TickSays(st: Stack, k: nat)
    requires Shape(st) && k < MAX_SOCKETS
    ensures Step(st, Tick).now == (st.now + 1) % MODULUS
    ensures var s, now := st.sockets[k], (st.now + 1) % MODULUS;
            var due := s.phase == SynReceived && (now - s.lastActivity) % MODULUS > 1;
      && Step(st, Tick).sockets[k] == (if due then s.(lastActivity := now) else s)
      && Said(st, Tick, k) ==
         if due then [Emit(s.localPort, s.remotePort, s.remoteIp, s.seqNo, s.ackNo, 0x12, [])] else []
  {
    hide HeadEnd;
  }

  /** n ticks one after the other. */
  function Ticks(n: nat): seq<Event> {
    seq(n, _ => Tick)
  }

  /** When a socket last active at `now` sent its last SYN-ACK, n ticks later. */
  function LastSent(now: word, n: nat): int { (now + n - n % 2) % MODULUS }

  /** A peer that stays silent after its SYN is sent the SYN-ACK again with every second tick, and nothing else. */
  lemma {:induction false} SilentPeer(st: Stack, k: nat, n: nat)
    requires Shape(st) && 1 <= k < MAX_SOCKETS
    requires st.sockets[k].phase == SynReceived && st.sockets[k].lastActivity == st.now
    ensures Shape(Run(st, Ticks(n)))
    ensures var s, r := st.sockets[k], Run(st, Ticks(n));
      && r.now == (st.now + n) % MODULUS
      && r.sockets[k] == s.(lastActivity := LastSent(st.now, n))
      && SaidIn(st, Ticks(n), k) ==
         seq(n / 2, _ => Emit(s.localPort, s.remotePort, s.remoteIp, s.seqNo, s.ackNo, 0x12, []))
  {
    hide HeadEnd, Step, Said, LastSent;
    var o := Ctrl(st.sockets[k], SYN + ACK);
    if n > 0 {
      assert Ticks(n)[..n - 1] == Ticks(n - 1);
      SilentPeer(st, k, n - 1);
      var r := Run(st, Ticks(n - 1));
      StepShape(r, Tick);
      TickSays(r, k);
      TickCounts(st.now, n);
      assert seq(n / 2, _ => o) == seq((n - 1) / 2, _ => o) + if n % 2 == 0 then [o] else [];
    } else {
      NotYet(st.now);
    }
  }

  lemma NotYet(now: word)
    ensures LastSent(now, 0) == now
  {
  }

  lemma TickCounts(now: word, n: nat)
    requires n > 0
    ensures var last, next := LastSent(now, n - 1), (now + n) % MODULUS;
      && ((now + n - 1) % MODULUS + 1) % MODULUS == next
      && ((next - last) % MODULUS > 1 <==> n % 2 == 0)
      && LastSent(now, n) == if n % 2 == 0 then next else last
  {
    Parity(n);
    NextTick(now + n - 1);
    ModDiff(now + n, now + n - 1 - (n - 1) % 2);
  }

  lemma Parity(n: nat)
    requires n > 0
    ensures n - n % 2 == if n % 2 == 0 then n else n - 1
    ensures n - 1 - (n - 1) % 2 == if n % 2 == 0 then n - 2 else n - 1
  {
  }

  lemma NextTick(x: int)
    ensures (x % MODULUS + 1) % MODULUS == (x + 1) % MODULUS
  {
  }

  lemma ModDiff(x: int, y: int)
    requires 0 <= x - y < MODULUS
    ensures (x % MODULUS - y % MODULUS) % MODULUS == x - y
  {
  }

  // ---------------------------------------------------------------- an ordinary connection

  /** SYN; ACK; a whole request in one segment; an ACK of the response; a FIN. */
  predicate Orderly(es: seq<Event>, ip: word, port: int) {
    && ip != 0 && port != 0 && |es| == 5
    && (forall i :: 0 <= i < 5 ==> From(ip, port, es[i]))
    && var h := (i: int) requires 0 <= i < 5 => Decode(es[i].bytes).value;
    && Syn(h(0)) && !Ack(h(0))
    && Ack(h(1))
    && Asks(h(2))
    && Ack(h(3)) && !Fin(h(3))
    && Fin(h(4))
  }

  /** The sequence number behind the response. */
  function After(seqNo: int, reply: Option<seq<byte>>): int {
    match reply case None => seqNo case Some(r) => (seqNo + |r|) % MODULUS
  }

  /** What a request q is answered with: an ACK, the request to the HTTP parser, the response if there is one, a FIN. */
  function Exchanged(port: int, ip: int, seqNo: int, q: Header, reply: Option<seq<byte>>): seq<Output>
    requires Head(q.payload).Some?
  {
    var ackNo := (q.seqNo + |q.payload|) % MODULUS;
    [Emit(8080, port, ip, seqNo, ackNo, 0x10, []), Handed(q.payload[..Head(q.payload).value])]
    + (match reply case None => [] case Some(r) => [Emit(8080, port, ip, seqNo, ackNo, 0x18, r)])
    + [Emit(8080, port, ip, After(seqNo, reply), ackNo, 0x11, [])]
  }

  /** All that the server says: a SYN-ACK, an ACK, the answer to the request, and an ACK of the client's FIN. */
  function Transcript(es: seq<Event>, ip: word, port: int, iss: int): seq<Output>
    requires Orderly(es, ip, port)
  {
    assert From(ip, port, es[0]) && From(ip, port, es[1]) && From(ip, port, es[2]);
    var h, a, q := Decode(es[0].bytes).value, Decode(es[1].bytes).value, Decode(es[2].bytes).value;
    [Emit(8080, port, ip, iss, (h.seqNo + 1) % MODULUS, 0x12, [])]
    + [Emit(8080, port, ip, a.ackNo, (a.seqNo + 1) % MODULUS, 0x10, [])]
    + Exchanged(port, ip, a.ackNo, q, es[2].reply)
    + []
    + [Emit(8080, port, ip, After(a.ackNo, es[2].reply),
            ((q.seqNo + |q.payload|) % MODULUS + 1) % MODULUS, 0x10, [])]
  }

  /** A segment from the peer of a live slot among distinct peers. */
  lemma Delivers(st: Stack, e: Event, k: nat, ip: word, port: int)
    requires Shape(st) && Distinct(st.sockets) && 1 <= k < MAX_SOCKETS && Live(st.sockets[k]) && ip != 0
    requires PeerIs(st.sockets[k], st.sockets[k].phase, ip, port) && From(ip, port, e)
    ensures var u := Step(st, e);
      && Shape(u) && |u.sockets| == MAX_SOCKETS && Distinct(u.sockets) && u.now == st.now
      && (forall j :: 0 <= j < MAX_SOCKETS && j != k ==> u.sockets[j] == st.sockets[j])
      && PeerIs(u.sockets[k], u.sockets[k].phase, ip, port)
      && Moves(st.sockets[k], Decode(e.bytes).value, ip, st.now, e.reply, u.sockets[k], Said(st, e, k))
  {
    hide HeadEnd, Step, Handled, Decode, Moves, Said, Distinct, Shape;
    ShapeSize(st);
    StepsOn(st, e);
    Delivered(st, e, k);
    ReachesPeer(st, e, k, ip, port);
    SegmentMoves(st, e, k);
    KeepsPeer(st.sockets[k], Decode(e.bytes).value, ip, st.now, e.reply, Step(st, e).sockets[k], Said(st, e, k));
    SameTime(st, e);
    ShapeSize(Step(st, e));
  }

  lemma ShapeSize(st: Stack)
    requires Shape(st)
    ensures |st.sockets| == MAX_SOCKETS
  {
  }

  lemma SameTime(st: Stack, e: Event)
    requires e.Packet?
    ensures Step(st, e).now == st.now
  {
    hide HeadEnd, Decode, Handled;
  }

  lemma ReachesPeer(st: Stack, e: Event, k: nat, ip: word, port: int)
    requires |st.sockets| == MAX_SOCKETS && Distinct(st.sockets) && k < MAX_SOCKETS && Live(st.sockets[k])
    requires PeerIs(st.sockets[k], st.sockets[k].phase, ip, port) && From(ip, port, e)
    ensures Reaches(st, e, k)
  {
    hide Decode, Distinct;
    var h := Decode(e.bytes).value;
    assert Matches(st.sockets[k], ip, h.src, h.dst);
    OnlyMatch(st.sockets, ip, h, Lookup(st.sockets, ip, h.src, h.dst).value, k);
  }

  lemma KeepsPeer(s: Socket, h: Header, ip: int, now: int, reply: Option<seq<byte>>, t: Socket, out: seq<Output>)
    requires Moves(s, h, ip, now, reply, t, out)
    ensures t.localPort == s.localPort && t.remotePort == s.remotePort
    ensures s.remoteIp != 0 ==> t.remoteIp == s.remoteIp
  {
    hide DataMoves, Fin, Syn, Rst, Ack;
  }

  lemma AskFlags(h: Header)
    requires Asks(h)
    ensures Ack(h) && !Syn(h) && !Fin(h) && |h.payload| < 2048 && Head(h.payload).Some? && h.payload != []
  {
    EmptyHead();
    FlagBits(h);
  }

  /** A whole request, as the first data that a connection gets. */
  lemma RequestMoves(s: Socket, h: Header, ip: int, port: int, reply: Option<seq<byte>>, t: Socket, out: seq<Output>)
    requires DataMoves(s, h, ip, reply, t, out) && PeerIs(s, Established, ip, port) && s.rx == [] && Asks(h)
    ensures Head(h.payload).Some? && t.phase == FinWait1 && t.rx == []
    ensures t.seqNo == After(s.seqNo, reply) && t.ackNo == (h.seqNo + |h.payload|) % MODULUS
    ensures out == Exchanged(port, ip, s.seqNo, h, reply)
  {
    AskFlags(h);
    hide Asks, Fin, Syn, Ack, Head;
    assert [] + h.payload == h.payload;
  }

  /** SYN from a new peer, among distinct peers. */
  lemma Opening(st: Stack, e: Event, k: nat, ip: word, port: int)
    requires Shape(st) && Distinct(st.sockets) && ip != 0 && From(ip, port, e)
    requires Lookup(st.sockets, ip, port, HTTP_PORT).None? && Free(st.sockets) == Some(k)
    requires Syn(Decode(e.bytes).value) && !Ack(Decode(e.bytes).value)
    ensures 1 <= k < MAX_SOCKETS
    ensures var u, ackNo := Step(st, e), (Decode(e.bytes).value.seqNo + 1) % MODULUS;
      && Shape(u) && |u.sockets| == MAX_SOCKETS && Distinct(u.sockets) && u.now == st.now
      && (forall j :: 0 <= j < MAX_SOCKETS && j != k ==> u.sockets[j] == st.sockets[j])
      && PeerIs(u.sockets[k], SynReceived, ip, port) && u.sockets[k].rx == []
      && Said(st, e, k) == [Emit(8080, port, ip, 1000 + 100 * k + st.now % 0x1_0000, ackNo, 0x12, [])]
  {
    hide HeadEnd, Step, Handled, Decode, Syn, Ack, Distinct;
    StepsOn(st, e);
    StrangerOpens(st, ip, e.bytes, e.reply, k);
    OpeningSaid(st, e, k, ip, port);
    StepIs(st, e);
  }

  lemma StepIs(st: Stack, e: Event)
    ensures Step(st, e) == StepOut(st, e).0
  {
  }

  lemma OpeningSaid(st: Stack, e: Event, k: nat, ip: word, port: int)
    requires Shape(st) && From(ip, port, e) && Syn(Decode(e.bytes).value)
    requires Lookup(st.sockets, ip, port, HTTP_PORT).None? && Free(st.sockets) == Some(k)
    ensures Said(st, e, k) == StepOut(st, e).1
  {
    hide HeadEnd, Handled, Decode, Syn, Has;
    FlagBits(Decode(e.bytes).value);
    assert Listening(st.sockets[0], HTTP_PORT);
  }

  lemma OrderlyParts(es: seq<Event>, ip: word, port: int)
    requires Orderly(es, ip, port)
    ensures |es| == 5 && ip != 0
    ensures forall i :: 0 <= i < 5 ==> From(ip, port, es[i]) && es[i].Packet? && es[i].ip == ip
    ensures forall i :: 0 <= i < 5 ==> Decode(es[i].bytes).Some?
    ensures var h, a, q := Decode(es[0].bytes).value, Decode(es[1].bytes).value, Decode(es[2].bytes).value;
            var b, f := Decode(es[3].bytes).value, Decode(es[4].bytes).value;
      Syn(h) && !Ack(h) && Ack(a) && Asks(q) && Ack(b) && !Fin(b) && Fin(f)
  {
    hide Decode, Syn, Ack, Asks, Fin;
  }

  /** An orderly connection from a new peer is served, says exactly what it should, and leaves its slot closed and the
      rest of the table as it was. */
  lemma OrderlyVisit(st: Stack, es: seq<Event>, ip: word, port: int, k: nat)
    requires Shape(st) && Distinct(st.sockets) && Orderly(es, ip, port)
    requires Lookup(st.sockets, ip, port, HTTP_PORT).None? && Free(st.sockets) == Some(k)
    ensures 1 <= k < MAX_SOCKETS && Shape(Run(st, es)) && Distinct(Run(st, es).sockets)
    ensures Run(st, es).sockets[k].phase == Closed && Run(st, es).now == st.now
    ensures forall j :: 0 <= j < MAX_SOCKETS && j != k ==> Run(st, es).sockets[j] == st.sockets[j]
    ensures SaidIn(st, es, k) == Transcript(es, ip, port, 1000 + 100 * k + st.now % 0x1_0000)
  {
    hide HeadEnd, Step, Run, Said, SaidIn, Shape, Distinct, Decode, Asks, Syn, Ack, Fin, From, DataMoves, Orderly;
    hide Moves, Exchanged, Head, After;
    OrderlyParts(es, ip, port);
    var a := Step(st, es[0]);
    var b := Step(a, es[1]);
    var c := Step(b, es[2]);
    var d := Step(c, es[3]);
    FiveSteps(st, es, a, b, c, d, k);
    Opening(st, es[0], k, ip, port);
    Confirming(a, es[1], k, ip, port);
    Requesting(b, es[2], k, ip, port);
    Finishing(c, es[3], es[4], k, ip, port);
  }

  /** Everything but slot k is as it was, and slot k is in this phase with this peer. */
  ghost predicate OnlySlot(st: Stack, u: Stack, k: nat, p: Phase, ip: int, port: int) {
    && Shape(u) && |u.sockets| == MAX_SOCKETS == |st.sockets| && k < MAX_SOCKETS
    && Distinct(u.sockets) && u.now == st.now
    && (forall j :: 0 <= j < MAX_SOCKETS && j != k ==> u.sockets[j] == st.sockets[j])
    && PeerIs(u.sockets[k], p, ip, port)
  }

  lemma Confirming(st: Stack, e: Event, k: nat, ip: word, port: int)
    requires Shape(st) && Distinct(st.sockets) && 1 <= k < MAX_SOCKETS && ip != 0 && From(ip, port, e)
    requires PeerIs(st.sockets[k], SynReceived, ip, port) && Ack(Decode(e.bytes).value)
    ensures var u, a := Step(st, e), Decode(e.bytes).value;
      && OnlySlot(st, u, k, Established, ip, port)
      && u.sockets[k].rx == [] && u.sockets[k].seqNo == a.ackNo
      && Said(st, e, k) == [Emit(8080, port, ip, a.ackNo, (a.seqNo + 1) % MODULUS, 0x10, [])]
  {
    hide Step, Said, Shape, Distinct, Decode, Syn, Ack, Fin, DataMoves;
    ShapeSize(st);
    Delivers(st, e, k, ip, port);
  }

  lemma Requesting(st: Stack, e: Event, k: nat, ip: word, port: int)
    requires Shape(st) && Distinct(st.sockets) && 1 <= k < MAX_SOCKETS && ip != 0 && From(ip, port, e)
    requires PeerIs(st.sockets[k], Established, ip, port) && st.sockets[k].rx == [] && Asks(Decode(e.bytes).value)
    ensures var s, t, q := st.sockets[k], Step(st, e).sockets[k], Decode(e.bytes).value;
      && OnlySlot(st, Step(st, e), k, FinWait1, ip, port) && Head(q.payload).Some?
      && t.ackNo == (q.seqNo + |q.payload|) % MODULUS && t.seqNo == After(s.seqNo, e.reply)
      && Said(st, e, k) == Exchanged(port, ip, s.seqNo, q, e.reply)
  {
    hide HeadEnd, Step, Said, Shape, Distinct, Decode, Syn, Ack, Fin, DataMoves, Asks, Exchanged, Head;
    ShapeSize(st);
    Delivers(st, e, k, ip, port);
    RequestMoves(st.sockets[k], Decode(e.bytes).value, ip, port, e.reply, Step(st, e).sockets[k], Said(st, e, k));
  }

  /** The client's ACK and then its FIN take a slot from FIN_WAIT_1 over FIN_WAIT_2 to CLOSED. */
  lemma Finishing(st: Stack, e: Event, f: Event, k: nat, ip: word, port: int)
    requires Shape(st) && Distinct(st.sockets) && 1 <= k < MAX_SOCKETS && ip != 0
    requires From(ip, port, e) && From(ip, port, f) && PeerIs(st.sockets[k], FinWait1, ip, port)
    requires Ack(Decode(e.bytes).value) && !Fin(Decode(e.bytes).value) && Fin(Decode(f.bytes).value)
    ensures var s, u := st.sockets[k], Step(st, e);
      && OnlySlot(st, u, k, FinWait2, ip, port) && Said(st, e, k) == []
      && OnlySlot(st, Step(u, f), k, Closed, ip, port)
      && Said(u, f, k) == [Emit(8080, port, ip, s.seqNo, (s.ackNo + 1) % MODULUS, 0x10, [])]
  {
    hide Step, Said, Shape, Distinct, Decode, Syn, Ack, Fin, DataMoves;
    ShapeSize(st);
    Delivers(st, e, k, ip, port);
    Delivers(Step(st, e), f, k, ip, port);
  }

  lemma FiveSteps(st: Stack, es: seq<Event>, a: Stack, b: Stack, c: Stack, d: Stack, k: nat)
    requires |es| == 5 && a == Step(st, es[0]) && b == Step(a, es[1]) && c == Step(b, es[2]) && d == Step(c, es[3])
    ensures Run(st, es) == Step(d, es[4])
    ensures SaidIn(st, es, k) ==
            Said(st, es[0], k) + Said(a, es[1], k) + Said(b, es[2], k) + Said(c, es[3], k) + Said(d, es[4], k)
  {
    hide Step, Said;
    Snoc(st, es, 1, k);
    Snoc(st, es, 2, k);
    Snoc(st, es, 3, k);
    Snoc(st, es, 4, k);
    Snoc(st, es, 5, k);
    assert es[..0] == [] && es[..5] == es;
  }

  lemma Snoc(st: Stack, es: seq<Event>, n: nat, k: nat)
    requires 0 < n <= |es|
    ensures Run(st, es[..n]) == Step(Run(st, es[..n - 1]), es[n - 1])
    ensures SaidIn(st, es[..n], k) == SaidIn(st, es[..n - 1], k) + Said(Run(st, es[..n - 1]), es[n - 1], k)
  {
    assert es[..n][..n - 1] == es[..n - 1];
  }

  /** SYN, ACK, a blank line as the request, ACK, FIN. */
  function OrderlyOf(ip: word, port: word): seq<Event>
    requires port < 0x1_0000
  {
    var v := VisitOf(ip, port);
    v[..3] + [Probe(ip, port, ACK)] + v[3..]
  }

  /** Every peer can make such a connection. */
  lemma OrderlyExists(ip: word, port: word)
    requires ip != 0 && 0 < port < 0x1_0000
    ensures Orderly(OrderlyOf(ip, port), ip, port)
  {
    hide Bytes, Decode, HeadEnd, Asking;
    BytesDecode(port, SYN);
    BytesDecode(port, ACK);
    BytesDecode(port, FIN);
    AskingDecodes(port);
    var es := OrderlyOf(ip, port);
    assert From(ip, port, es[0]) && From(ip, port, es[1]) && From(ip, port, es[2]) && From(ip, port, es[3]);
    assert From(ip, port, es[4]);
  }

  // ---------------------------------------------------------------- any number of them

  datatype Client = Client(es: seq<Event>, ip: word, port: int)

  /** The events of one client after the other. */
  function InTurn(clients: seq<Client>): seq<Event> {
    if clients == [] then [] else InTurn(clients[..|clients| - 1]) + clients[|clients| - 1].es
  }

  function Transcripts(clients: seq<Client>): seq<Output>
    requires forall c :: c in clients ==> Orderly(c.es, c.ip, c.port)
  {
    if clients == [] then []
    else
      var c := clients[|clients| - 1];
      Transcripts(clients[..|clients| - 1]) + Transcript(c.es, c.ip, c.port, 1100)
  }

  lemma {:induction false} SaidConcat(st: Stack, a: seq<Event>, b: seq<Event>, k: nat)
    ensures SaidIn(st, a + b, k) == SaidIn(st, a, k) + SaidIn(Run(st, a), b, k)
  {
    hide Said, Step;
    if b == [] {
      assert a + b == a;
    } else {
      var n := |b| - 1;
      assert (a + b)[..|a| + n] == a + b[..n];
      SaidConcat(st, a, b[..n], k);
      RunConcat(st, a, b[..n]);
    }
  }

  /** All slots but the listener's are closed. */
  ghost predicate Idle(st: Stack) {
    && Shape(st) && st.now == 0 && st.sockets[0] == BOOT.sockets[0]
    && forall k :: 1 <= k < MAX_SOCKETS ==> st.sockets[k].phase == Closed
  }

  lemma IdleDistinct(st: Stack, ip: word, port: int)
    requires Idle(st) && port != 0
    ensures Distinct(st.sockets) && Lookup(st.sockets, ip, port, HTTP_PORT).None? && Free(st.sockets) == Some(1)
  {
    FreeIs(st.sockets, 1);
  }

  lemma OneServed(st: Stack, c: Client)
    requires Idle(st) && Orderly(c.es, c.ip, c.port)
    ensures Idle(Run(st, c.es)) && SaidIn(st, c.es, 1) == Transcript(c.es, c.ip, c.port, 1100)
  {
    hide Orderly, Transcript, Distinct, Said, Step, Lookup, Free, HeadEnd, Run, SaidIn;
    OrderlyPort(c);
    IdleDistinct(st, c.ip, c.port);
    OrderlyVisit(st, c.es, c.ip, c.port, 1);
  }

  /** However many clients come one after the other, each is served in full from slot 1, and afterwards every slot is
      free. */
  lemma {:induction false} AllServed(clients: seq<Client>)
    requires forall c :: c in clients ==> Orderly(c.es, c.ip, c.port)
    ensures Idle(Run(BOOT, InTurn(clients)))
    ensures SaidIn(BOOT, InTurn(clients), 1) == Transcripts(clients)
  {
    hide Orderly, Transcript, Idle, Run, SaidIn, HeadEnd;
    if clients == [] {
      NobodyServed();
    } else {
      var n := |clients| - 1;
      var c, before := clients[n], InTurn(clients[..n]);
      AllServed(clients[..n]);
      OneServed(Run(BOOT, before), c);
      RunConcat(BOOT, before, c.es);
      SaidConcat(BOOT, before, c.es, 1);
    }
  }

  lemma NobodyServed()
    ensures Idle(Run(BOOT, [])) && SaidIn(BOOT, [], 1) == []
  {
    BootKeyed();
  }

  lemma OrderlyPort(c: Client)
    requires Orderly(c.es, c.ip, c.port)
    ensures c.port != 0
  {
  }
}
