/** What every run of the TCP receiver keeps. */
module TcpRuns {
  import opened Framing
  import opened Machine
  import opened Options
  import opened TcpSockets

  // ---------------------------------------------------------------- the table in every run

  /** A slot other than the listener's, between two events. */
  predicate Resting(s: Socket) {
    && s.phase in {Closed, SynReceived, Established, CloseWait, FinWait1, FinWait2, TimeWait}
    && (s.phase != Closed ==> s.localPort == HTTP_PORT)
    && |s.rx| < RX_BUF_SIZE
    && Head(s.rx).None?
    && (s.rx != [] ==> s.phase in {Established, CloseWait})
  }

  predicate Listens(s: Socket) {
    s.phase == Listen && s.localPort == HTTP_PORT && s.remotePort == 0 && s.rx == []
  }

  predicate Shape(st: Stack) {
    && |st.sockets| == MAX_SOCKETS
    && Listens(st.sockets[0])
    && forall i :: 1 <= i < MAX_SOCKETS ==> Resting(st.sockets[i])
  }

  lemma ShapePorts(st: Stack, port: int)
    requires Shape(st) && port != HTTP_PORT
    ensures Listener(st.sockets, port).None?
    ensures forall ip, remotePort :: Lookup(st.sockets, ip, remotePort, port).None?
  {
  }

  lemma HandledKeeps(s: Socket, h: Header, ip: int, now: int, reply: Option<seq<byte>>)
    requires Resting(s)
    ensures Resting(Handled(s, h, ip, now, reply).0)
  {
    hide HeadEnd;
    assert Head([]).None? by { EmptyHead(); }
  }

  lemma EmptyHead()
    ensures Head([]).None?
  {
  }

  lemma StepShape(st: Stack, e: Event)
    requires Shape(st)
    ensures Shape(Step(st, e))
  {
    hide HeadEnd;
    EmptyHead();
    if e.Packet? && Decode(e.bytes).Some? {
      var h := Decode(e.bytes).value;
      if Slot(st, e.ip, h).Some? {
        var i := Slot(st, e.ip, h).value;
        if Opens(st, e.ip, h) && h.dst != HTTP_PORT { ShapePorts(st, h.dst); }
        if i > 0 { HandledKeeps(Found(st, e.ip, h, i), h, e.ip, st.now, e.reply); }
      }
    }
  }

  /** In every run, whatever arrives, the listener stays in LISTEN on port 8080, every live socket has
      that local port, no socket rests in SYN_SENT, CLOSING or LAST_ACK, every receive buffer has room
      left and none holds a complete request head. */
  lemma {:induction false} RunShape(es: seq<Event>)
    ensures Shape(Run(BOOT, es))
  {
    if es == [] {
      EmptyHead();
    } else {
      RunShape(es[..|es| - 1]);
      StepShape(Run(BOOT, es[..|es| - 1]), es[|es| - 1]);
    }
  }

  // ---------------------------------------------------------------- peers

  predicate Live(s: Socket) { s.phase != Closed }

  /** Whether one segment could match both. */
  predicate Clash(a: Socket, b: Socket) {
    && Live(a) && Live(b) && a.localPort == b.localPort && a.remotePort == b.remotePort
    && (a.remoteIp == 0 || b.remoteIp == 0 || a.remoteIp == b.remoteIp)
  }

  predicate Distinct(ss: seq<Socket>) {
    forall i, j :: 0 <= i < j < |ss| ==> !Clash(ss[i], ss[j])
  }

  predicate Known(ss: seq<Socket>) {
    forall i :: 1 <= i < |ss| && Live(ss[i]) ==> ss[i].remoteIp != 0
  }

  predicate Keyed(st: Stack) {
    Shape(st) && Distinct(st.sockets) && Known(st.sockets)
  }

  /** Where a segment finds its socket, the peer's address and port are the segment's from then on. */
  lemma HandledPeer(s: Socket, h: Header, ip: int, now: int, reply: Option<seq<byte>>)
    ensures var t := Handled(s, h, ip, now, reply).0;
      && t.localPort == s.localPort && t.remotePort == s.remotePort
      && t.remoteIp == Touched(s, ip, now).remoteIp
      && (s.phase == Closed ==> t.phase == Closed)
      && (s.phase in {Listen, SynReceived} ==> Live(t))
  {
  }

  /** A known peer survives an event exactly if the event is not a SYN from address 0 that opens a socket. */
  lemma StepKeyed(st: Stack, e: Event)
    requires Keyed(st)
    ensures Keyed(Step(st, e)) <==>
            !(e.Packet? && e.ip == 0 && Decode(e.bytes).Some? && Opens(st, 0, Decode(e.bytes).value))
  {
    hide HeadEnd;
    StepShape(st, e);
    if e.Packet? && Decode(e.bytes).Some? {
      var h := Decode(e.bytes).value;
      if Slot(st, e.ip, h).Some? {
        var i := Slot(st, e.ip, h).value;
        var s := Found(st, e.ip, h, i);
        HandledPeer(s, h, e.ip, st.now, e.reply);
        ReplacedDistinct(st, e.ip, h, i, Handled(s, h, e.ip, st.now, e.reply).0);
      }
    }
  }

  lemma ReplacedDistinct(st: Stack, ip: int, h: Header, i: nat, t: Socket)
    requires Shape(st) && Distinct(st.sockets) && Slot(st, ip, h) == Some(i)
    requires var s := Found(st, ip, h, i);
      t.localPort == s.localPort && t.remotePort == s.remotePort && t.remoteIp == Touched(s, ip, st.now).remoteIp
    requires Opens(st, ip, h) ==> Live(t)
    ensures !(Opens(st, ip, h) && ip == 0) ==> Distinct(st.sockets[i := t])
    ensures Known(st.sockets) ==> (Known(st.sockets[i := t]) <==> !(Opens(st, ip, h) && ip == 0))
  {
    hide HeadEnd;
    var ss, ts := st.sockets, st.sockets[i := t];
    if Opens(st, ip, h) {
      assert i > 0 && ts[i] == t && Live(t);
    } else {
      forall j | 0 <= j < |ss| && Clash(ts[j], ts[i]) ensures Clash(ss[j], ss[i]) {
        assert Live(ss[i]);
      }
    }
  }

  /** A SYN from address 0 that opens a socket while another live socket has its port. */
  predicate ClashingSyn(st: Stack, e: Event) {
    && e.Packet? && e.ip == 0 && Decode(e.bytes).Some?
    && var h := Decode(e.bytes).value;
    && Opens(st, 0, h)
    && exists j :: 0 <= j < |st.sockets| && Live(st.sockets[j]) && st.sockets[j].remotePort == h.src
  }

  /** Whatever addresses its peers have, a table of distinct ones stays so exactly if the event is no such SYN. */
  lemma StepDistinct(st: Stack, e: Event)
    requires Shape(st) && Distinct(st.sockets)
    ensures Distinct(Step(st, e).sockets) <==> !ClashingSyn(st, e)
  {
    hide HeadEnd, Handled, Decode;
    if e.Packet? && Decode(e.bytes).Some? {
      var h := Decode(e.bytes).value;
      if e.ip == 0 && Opens(st, 0, h) {
        OpenedDistinct(st, h, e.reply);
      } else if Slot(st, e.ip, h).Some? {
        var i := Slot(st, e.ip, h).value;
        var s := Found(st, e.ip, h, i);
        HandledPeer(s, h, e.ip, st.now, e.reply);
        ReplacedDistinct(st, e.ip, h, i, Handled(s, h, e.ip, st.now, e.reply).0);
      }
    }
  }

  predicate DistinctAt(st: Stack, es: seq<Event>, n: nat)
    requires n <= |es|
  {
    Distinct(Run(st, es[..n]).sockets)
  }

  predicate ClashesAt(st: Stack, es: seq<Event>, n: nat)
    requires n < |es|
  {
    ClashingSyn(Run(st, es[..n]), es[n])
  }

  /** No event of the run is such a SYN. */
  predicate Unclashed(st: Stack, es: seq<Event>) {
    forall n :: 0 <= n < |es| ==> !ClashesAt(st, es, n)
  }

  lemma PrefixAt(st: Stack, es: seq<Event>, m: nat, n: nat)
    requires n <= m <= |es|
    ensures DistinctAt(st, es[..m], n) == DistinctAt(st, es, n)
    ensures n < m ==> ClashesAt(st, es[..m], n) == ClashesAt(st, es, n)
  {
    assert es[..m][..n] == es[..n];
  }

  /** At every point of a run the peers are distinct if and only if no event of it is such a SYN. */
  lemma {:induction false} RunDistinct(st: Stack, es: seq<Event>)
    requires Shape(st) && Distinct(st.sockets)
    ensures Shape(Run(st, es))
    ensures (forall n :: 0 <= n <= |es| ==> DistinctAt(st, es, n)) <==> Unclashed(st, es)
  {
    hide DistinctAt, ClashesAt, Step;
    if es == [] {
      FirstDistinct(st, es);
    } else {
      var m := |es| - 1;
      RunDistinct(st, es[..m]);
      StepShape(Run(st, es[..m]), es[m]);
      LastDistinct(st, es);
      forall n | 0 <= n <= m
        ensures DistinctAt(st, es[..m], n) == DistinctAt(st, es, n)
        ensures n < m ==> ClashesAt(st, es[..m], n) == ClashesAt(st, es, n)
      {
        PrefixAt(st, es, m, n);
      }
    }
  }

  lemma FirstDistinct(st: Stack, es: seq<Event>)
    ensures DistinctAt(st, es, 0) == Distinct(st.sockets)
  {
    assert es[..0] == [];
  }

  lemma LastDistinct(st: Stack, es: seq<Event>)
    requires es != [] && Shape(Run(st, es[..|es| - 1]))
    ensures DistinctAt(st, es, |es| - 1) ==> (DistinctAt(st, es, |es|) <==> !ClashesAt(st, es, |es| - 1))
  {
    hide HeadEnd, Step, ClashingSyn, Shape, Distinct;
    var m := |es| - 1;
    assert es[..|es|] == es;
    if DistinctAt(st, es, m) { StepDistinct(Run(st, es[..m]), es[m]); }
  }

  /** Every run starts from such a table. */
  lemma BootKeyed()
    ensures Keyed(BOOT)
  {
    EmptyHead();
  }

  lemma OpenedDistinct(st: Stack, h: Header, reply: Option<seq<byte>>)
    requires Shape(st) && Distinct(st.sockets) && Opens(st, 0, h)
    ensures Distinct(Received(st, 0, h, reply).0.sockets) <==>
            !exists j :: 0 <= j < MAX_SOCKETS && Live(st.sockets[j]) && st.sockets[j].remotePort == h.src
  {
    hide HeadEnd, Handled;
    if h.dst != HTTP_PORT { ShapePorts(st, h.dst); }
    var k := Free(st.sockets).value;
    var s := Opened(k, h, 0, st.now);
    HandledPeer(s, h, 0, st.now, reply);
    var t := Handled(s, h, 0, st.now, reply).0;
    var ss, ts := st.sockets, st.sockets[k := t];
    assert Received(st, 0, h, reply).0.sockets == ts;
    forall j | 0 <= j < MAX_SOCKETS && j != k && Live(ss[j])
      ensures Clash(ts[j], t) <==> ss[j].remotePort == h.src
      ensures Clash(t, ts[j]) <==> ss[j].remotePort == h.src
    {
      assert ss[j].localPort == HTTP_PORT;
    }
    if j :| 0 <= j < MAX_SOCKETS && Live(ss[j]) && ss[j].remotePort == h.src {
      assert j < k ==> Clash(ts[j], ts[k]);
      assert k < j ==> Clash(ts[k], ts[j]);
    } else {
      forall i, j | 0 <= i < j < MAX_SOCKETS ensures !Clash(ts[i], ts[j]) {
        assert i != k && j != k ==> !Clash(ss[i], ss[j]);
      }
    }
  }

  /** In every run of packets with non-zero source addresses, no two live sockets could match one segment:
      in particular their remote addresses and ports differ. */
  lemma {:induction false} RunKeyed(st: Stack, es: seq<Event>)
    requires Keyed(st) && Sourced(es)
    ensures Keyed(Run(st, es))
  {
    hide Step, Keyed;
    if es != [] {
      RunKeyed(st, es[..|es| - 1]);
      StepKeyed(Run(st, es[..|es| - 1]), es[|es| - 1]);
    }
  }

  // ---------------------------------------------------------------- connections do not interfere

  predicate Addressed(s: Socket, e: Event) {
    && e.Packet? && Decode(e.bytes).Some?
    && var h := Decode(e.bytes).value;
    Matches(s, e.ip, h.src, h.dst)
  }

  /** A segment to the server's port from this address and port. */
  predicate From(ip: int, port: int, e: Event) {
    e.Packet? && e.ip == ip && Decode(e.bytes).Some?
    && Decode(e.bytes).value.src == port && Decode(e.bytes).value.dst == HTTP_PORT
  }

  function Alone(s: Socket, now: int, e: Event): (Socket, seq<Output>) {
    if e.Tick? then Retried(s, Wrap(now + 1))
    else if Addressed(s, e) then Handled(s, Decode(e.bytes).value, e.ip, now, e.reply)
    else (s, [])
  }

  /** What an event makes slot k say. */
  function Said(st: Stack, e: Event, k: nat): seq<Output> {
    match e
    case Tick => if k < |st.sockets| then Retried(st.sockets[k], Wrap(st.now + 1)).1 else []
    case Packet(ip, bytes, reply) =>
      match Decode(bytes)
      case None => []
      case Some(h) => if Slot(st, ip, h) == Some(k) then Received(st, ip, h, reply).1 else []
  }

  lemma OnlyMatch(ss: seq<Socket>, ip: int, h: Header, i: nat, k: nat)
    requires Distinct(ss) && i < |ss| && k < |ss|
    requires Matches(ss[i], ip, h.src, h.dst) && Matches(ss[k], ip, h.src, h.dst)
    ensures i == k
  {
    assert Clash(ss[i], ss[k]) && Clash(ss[k], ss[i]);
  }

  /** What distinct peers are for: in a table of them, and in no other, every segment finds every live socket that it
      names. */
  lemma DistinctFinds(ss: seq<Socket>)
    ensures Distinct(ss) <==>
            forall ip, remotePort, localPort, k :: 0 <= k < |ss| && Matches(ss[k], ip, remotePort, localPort) ==>
              Lookup(ss, ip, remotePort, localPort) == Some(k)
  {
    if Distinct(ss) {
      forall ip, remotePort, localPort, k | 0 <= k < |ss| && Matches(ss[k], ip, remotePort, localPort)
        ensures Lookup(ss, ip, remotePort, localPort) == Some(k)
      {
        var i := Lookup(ss, ip, remotePort, localPort).value;
        assert i < k ==> Clash(ss[i], ss[k]);
      }
    } else {
      var i, j :| 0 <= i < j < |ss| && Clash(ss[i], ss[j]);
      var ip := if ss[i].remoteIp == 0 then ss[j].remoteIp else ss[i].remoteIp;
      assert Matches(ss[i], ip, ss[i].remotePort, ss[i].localPort);
      assert Matches(ss[j], ip, ss[i].remotePort, ss[i].localPort);
      assert Lookup(ss, ip, ss[i].remotePort, ss[i].localPort) != Some(j);
    }
  }

  /** Among distinct peers a live socket sees exactly the segments that name its peer: no other traffic changes it. */
  lemma Isolated(st: Stack, e: Event, k: nat)
    requires Shape(st) && Distinct(st.sockets) && k < MAX_SOCKETS && Live(st.sockets[k])
    ensures Step(st, e).sockets[k] == Alone(st.sockets[k], st.now, e).0
    ensures Said(st, e, k) == Alone(st.sockets[k], st.now, e).1
  {
    hide HeadEnd;
    if e.Packet? && Decode(e.bytes).Some? {
      var h := Decode(e.bytes).value;
      if Matches(st.sockets[k], e.ip, h.src, h.dst) {
        var i := Lookup(st.sockets, e.ip, h.src, h.dst).value;
        OnlyMatch(st.sockets, e.ip, h, i, k);
      }
    }
  }

  // ---------------------------------------------------------------- phases

  /** Higher means later; Closed and Listen are not stages of a connection. */
  function Rank(p: Phase): int {
    match p
    case SynReceived => 1
    case Established => 2
    case CloseWait => 3
    case FinWait1 => 4
    case FinWait2 => 5
    case TimeWait => 6
    case _ => 0
  }

  /** An event opens a closed slot at the first or second stage, or leaves it closed; it moves a live one
      upward, or closes it, and never changes a peer that is known. */
  lemma StepRises(st: Stack, e: Event, k: nat)
    requires Shape(st) && 1 <= k < MAX_SOCKETS
    ensures k < |Step(st, e).sockets|
    ensures var s, t := st.sockets[k], Step(st, e).sockets[k];
      if Live(s) then Live(t) ==> Risen(s, t) else Rank(t.phase) <= 2
  {
    hide HeadEnd, Step, Handled, Decode, Risen;
    StepShape(st, e);
    var s := st.sockets[k];
    if Live(s) {
      StepLive(st, e, k);
      StaysRisen(s, st.now);
      if e.Packet? && Decode(e.bytes).Some? { HandledRises(s, Decode(e.bytes).value, e.ip, st.now, e.reply); }
    } else {
      ClosedOpens(st, e, k);
    }
  }

  /** The same connection, no earlier. */
  predicate Risen(s: Socket, t: Socket) {
    && Rank(s.phase) <= Rank(t.phase) && t.remotePort == s.remotePort && t.localPort == s.localPort
    && (s.remoteIp != 0 ==> t.remoteIp == s.remoteIp)
  }

  /** What an event does to a live socket, whatever the other slots hold. */
  lemma StepLive(st: Stack, e: Event, k: nat)
    requires Shape(st) && k < MAX_SOCKETS && Live(st.sockets[k])
    ensures k < |Step(st, e).sockets|
    ensures var s, t := st.sockets[k], Step(st, e).sockets[k];
      if e.Tick? then t == Retried(s, Wrap(st.now + 1)).0
      else if Decode(e.bytes).Some? && Slot(st, e.ip, Decode(e.bytes).value) == Some(k) then
        t == Handled(s, Decode(e.bytes).value, e.ip, st.now, e.reply).0
      else t == s
  {
    hide HeadEnd, Handled, Decode;
  }

  lemma StaysRisen(s: Socket, now: int)
    ensures Risen(s, s) && Risen(s, Retried(s, Wrap(now + 1)).0)
  {
  }

  lemma HandledRises(s: Socket, h: Header, ip: int, now: int, reply: Option<seq<byte>>)
    requires Resting(s) && Live(s)
    ensures var t := Handled(s, h, ip, now, reply).0;
      Live(t) ==> Risen(s, t)
  {
    hide HeadEnd;
  }

  lemma ClosedOpens(st: Stack, e: Event, k: nat)
    requires Shape(st) && k < MAX_SOCKETS && !Live(st.sockets[k])
    ensures Rank(Step(st, e).sockets[k].phase) <= 2
  {
    hide HeadEnd;
  }

  predicate LiveThroughout(st: Stack, es: seq<Event>, k: nat) {
    forall n :: 0 <= n <= |es| ==> k < |Run(st, es[..n]).sockets| && Live(Run(st, es[..n]).sockets[k])
  }

  /** In every run, whatever arrives, a slot that is not closed in it only rises. */
  lemma {:induction false} RunRises(st: Stack, es: seq<Event>, k: nat)
    requires Shape(st) && 1 <= k < MAX_SOCKETS && LiveThroughout(st, es, k)
    ensures Shape(Run(st, es)) && Risen(st.sockets[k], Run(st, es).sockets[k])
  {
    hide Step;
    if es != [] {
      var n := |es| - 1;
      assert LiveThroughout(st, es[..n], k) by {
        assert forall m :: 0 <= m <= n ==> es[..n][..m] == es[..m];
      }
      RunRises(st, es[..n], k);
      StepShape(Run(st, es[..n]), es[n]);
      StepRises(Run(st, es[..n]), es[n], k);
      assert es[..|es|] == es && es[..n + 1] == es;
    }
  }

  // ---------------------------------------------------------------- one request, one response, one FIN

  /** A segment with neither data nor FIN. */
  predicate Bare(o: Output) {
    o.Emit? && o.data == [] && !Has(o.flags, FIN)
  }

  predicate Plain(out: seq<Output>) {
    forall i :: 0 <= i < |out| ==> Bare(out[i])
  }

  predicate Finishes(o: Output) {
    o.Emit? && o.data == [] && o.flags == FIN + ACK
  }

  predicate Answers(o: Output) {
    o.Emit? && o.flags == ACK + PSH
  }

  /** One request at c, then at most one response, then one FIN numbered right after it; nothing else
      but bare segments. */
  predicate ExchangeAt(out: seq<Output>, c: nat) {
    && c + 1 < |out|
    && Plain(out[..c])
    && out[c].Handed?
    && if Answers(out[c + 1]) then
         c + 2 < |out| && Finishes(out[c + 2]) && Plain(out[c + 3..])
         && out[c + 2].seqNo == Wrap(out[c + 1].seqNo + |out[c + 1].data|)
       else
         Finishes(out[c + 1]) && Plain(out[c + 2..])
  }

  ghost predicate Exchange(out: seq<Output>) {
    exists c: nat :: ExchangeAt(out, c)
  }

  ghost predicate Spoken(p: Phase, out: seq<Output>) {
    match p
    case Listen => out == []
    case Closed => Plain(out) || Exchange(out)
    case SynReceived => Plain(out)
    case Established => Plain(out)
    case CloseWait => Plain(out)
    case FinWait1 => Exchange(out)
    case FinWait2 => Exchange(out)
    case TimeWait => Exchange(out)
    case _ => false
  }

  lemma ExchangeThenPlain(a: seq<Output>, b: seq<Output>)
    requires Exchange(a) && Plain(b)
    ensures Exchange(a + b)
  {
    var c: nat :| ExchangeAt(a, c);
    assert (a + b)[..c] == a[..c];
    assert (a + b)[c + 2..] == a[c + 2..] + b;
    if Answers(a[c + 1]) { assert (a + b)[c + 3..] == a[c + 3..] + b; }
    assert ExchangeAt(a + b, c);
  }

  lemma PlainThenExchange(a: seq<Output>, b: seq<Output>)
    requires Plain(a) && Exchange(b)
    ensures Exchange(a + b)
  {
    var c: nat :| ExchangeAt(b, c);
    var d := |a| + c;
    assert (a + b)[..d] == a + b[..c];
    assert (a + b)[d + 2..] == b[c + 2..];
    if Answers(b[c + 1]) { assert (a + b)[d + 3..] == b[c + 3..]; }
    assert ExchangeAt(a + b, d);
  }

  lemma ServeExchanges(s: Socket, end: nat, reply: Option<seq<byte>>)
    requires end <= |s.rx|
    ensures Exchange(Serve(s, end, reply).1)
  {
    assert ExchangeAt(Serve(s, end, reply).1, 0);
  }

  /** What one segment makes a socket say: bare segments, or one whole exchange after at most one of them. */
  lemma HandledSays(s: Socket, h: Header, ip: int, now: int, reply: Option<seq<byte>>)
    requires Resting(s)
    ensures var (t, out) := Handled(s, h, ip, now, reply);
      && (Rank(s.phase) >= 4 ==> Rank(t.phase) >= 4 || t.phase == Closed)
      && if Rank(s.phase) < 4 <= Rank(t.phase) then Exchange(out) else Plain(out)
  {
    hide HeadEnd, Exchange, Plain;
    var u := Touched(s, ip, now);
    if s.phase in {Established, CloseWait} {
      DataSays(u, h, reply);
    } else {
      PlainOne(Advanced(u, h, reply).1);
    }
  }

  lemma PlainOne(out: seq<Output>)
    requires out == [] || (|out| == 1 && Bare(out[0]))
    ensures Plain(out)
  {
  }

  lemma CtrlBare(s: Socket)
    ensures Plain([Ctrl(s, ACK)])
  {
  }

  lemma DataSays(s: Socket, h: Header, reply: Option<seq<byte>>)
    requires s.phase in {Established, CloseWait}
    ensures var (t, out) := OnData(s, h, reply);
      if t.phase == FinWait1 then Exchange(out) else t.phase in {Closed, s.phase, CloseWait} && Plain(out)
  {
    hide HeadEnd, Has, Exchange, Plain, Ctrl, Drained, Buffered;
    PlainOne([]);
    if Has(h.flags, SYN) {
    } else if Has(h.flags, FIN) {
      CtrlBare(s.(ackNo := Wrap(h.seqNo + |h.payload| + 1)));
    } else if Has(h.flags, ACK) {
      var u := s.(ackNo := Wrap(h.seqNo + |h.payload|), rx := Buffered(s.rx, h.payload));
      CtrlBare(u);
      DrainedSays(u, reply);
      Continues(if h.payload != [] then [Ctrl(u, ACK)] else [], Drained(u, reply).1);
    }
  }

  lemma DrainedSays(s: Socket, reply: Option<seq<byte>>)
    requires s.phase in {Established, CloseWait}
    ensures var (t, out) := Drained(s, reply);
      if t.phase == FinWait1 then Exchange(out) else t.phase == s.phase && Plain(out)
  {
    hide HeadEnd;
    if Head(s.rx).Some? { ServeExchanges(s, Head(s.rx).value, reply); }
  }

  predicate OpensIn(st: Stack, e: Event, k: nat) {
    e.Packet? && Decode(e.bytes).Some? && Opens(st, e.ip, Decode(e.bytes).value) && Free(st.sockets) == Some(k)
  }

  /** All that the latest connection in slot k has said, since it was opened. */
  function Life(es: seq<Event>, k: nat): seq<Output> {
    if es == [] then []
    else
      var n := |es| - 1;
      var st := Run(BOOT, es[..n]);
      (if OpensIn(st, es[n], k) then [] else Life(es[..n], k)) + Said(st, es[n], k)
  }

  lemma StepSpoken(st: Stack, e: Event, k: nat, before: seq<Output>)
    requires Shape(st) && k < MAX_SOCKETS && Spoken(st.sockets[k].phase, before)
    ensures Spoken(Step(st, e).sockets[k].phase, (if OpensIn(st, e, k) then [] else before) + Said(st, e, k))
  {
    hide HeadEnd, Exchange, Plain;
    var past := if OpensIn(st, e, k) then [] else before;
    PlainOne([]);
    assert past + [] == past;
    if e.Tick? {
      var out := Retried(st.sockets[k], Wrap(st.now + 1)).1;
      PlainOne(out);
      Continues(before, out);
    } else if Decode(e.bytes).Some? && Slot(st, e.ip, Decode(e.bytes).value) == Some(k) {
      var h := Decode(e.bytes).value;
      var s := Found(st, e.ip, h, k);
      var (t, out) := Handled(s, h, e.ip, st.now, e.reply);
      if k == 0 {
      } else {
        if OpensIn(st, e, k) { OpenedRests(st, e.ip, h, k); }
        HandledSays(s, h, e.ip, st.now, e.reply);
        HandledKeeps(s, h, e.ip, st.now, e.reply);
        Continues(past, out);
      }
    }
  }

  lemma OpenedRests(st: Stack, ip: int, h: Header, k: nat)
    requires Shape(st) && Opens(st, ip, h)
    ensures Resting(Opened(k, h, ip, st.now))
  {
    EmptyHead();
    hide HeadEnd;
    if h.dst != HTTP_PORT { ShapePorts(st, h.dst); }
  }

  lemma Continues(a: seq<Output>, b: seq<Output>)
    ensures Plain(a) && Plain(b) ==> Plain(a + b)
    ensures Plain(a) && Exchange(b) ==> Exchange(a + b)
    ensures Exchange(a) && Plain(b) ==> Exchange(a + b)
  {
    hide Exchange;
    if Plain(a) && Exchange(b) { PlainThenExchange(a, b); }
    if Exchange(a) && Plain(b) { ExchangeThenPlain(a, b); }
  }

  /** In every run, whatever arrives, each connection routes at most one request, sends at most one
      response, and sends nothing but bare segments after its one FIN; it has done exactly one exchange
      when it is in FIN_WAIT_1, FIN_WAIT_2 or TIME_WAIT and none before. */
  lemma {:induction false} RunSpoken(es: seq<Event>, k: nat)
    requires k < MAX_SOCKETS
    ensures Shape(Run(BOOT, es)) && Spoken(Run(BOOT, es).sockets[k].phase, Life(es, k))
  {
    RunShape(es);
    if es == [] {
    } else {
      var n := |es| - 1;
      RunSpoken(es[..n], k);
      StepSpoken(Run(BOOT, es[..n]), es[n], k, Life(es[..n], k));
    }
  }

  // ---------------------------------------------------------------- TIME_WAIT

  /** A segment goes to slot k. */
  predicate Reaches(st: Stack, e: Event, k: nat) {
    e.Packet? && Decode(e.bytes).Some? && Slot(st, e.ip, Decode(e.bytes).value) == Some(k)
  }

  /** A slot comes to rest in TIME_WAIT exactly if it was there or took a FIN in FIN_WAIT_1. */
  lemma EntersTimeWait(st: Stack, e: Event, k: nat)
    requires Shape(st) && 1 <= k < MAX_SOCKETS
    ensures k < |Step(st, e).sockets|
    ensures var s := st.sockets[k];
      Step(st, e).sockets[k].phase == TimeWait <==>
      s.phase == TimeWait || (s.phase == FinWait1 && Reaches(st, e, k) && Has(Decode(e.bytes).value.flags, FIN))
  {
    hide HeadEnd, Step, Exchange, Plain, Has, OnData;
    var s := st.sockets[k];
    StepShape(st, e);
    if Live(s) {
      StepLive(st, e, k);
      if s.phase in {Established, CloseWait} && Reaches(st, e, k) {
        DataSays(Touched(s, e.ip, st.now), Decode(e.bytes).value, e.reply);
      }
    } else {
      ClosedOpens(st, e, k);
    }
  }

  /** And there it stays, with the same peer, in every run, whatever arrives. */
  lemma {:induction false} TimeWaitForever(st: Stack, es: seq<Event>, k: nat)
    requires Shape(st) && 1 <= k < MAX_SOCKETS && st.sockets[k].phase == TimeWait
    ensures Shape(Run(st, es))
    ensures var s, t := st.sockets[k], Run(st, es).sockets[k];
      && t.phase == TimeWait && t.remotePort == s.remotePort && t.localPort == s.localPort
      && (s.remoteIp != 0 ==> t.remoteIp == s.remoteIp)
  {
    hide HeadEnd, Step;
    if es != [] {
      var n := |es| - 1;
      TimeWaitForever(st, es[..n], k);
      StepShape(Run(st, es[..n]), es[n]);
      TimeWaitStays(Run(st, es[..n]), es[n], k);
    }
  }

  lemma TimeWaitStays(st: Stack, e: Event, k: nat)
    requires Shape(st) && k < MAX_SOCKETS && st.sockets[k].phase == TimeWait
    ensures k < |Step(st, e).sockets|
    ensures var s, t := st.sockets[k], Step(st, e).sockets[k];
      && t.phase == TimeWait && t.remotePort == s.remotePort && t.localPort == s.localPort
      && (s.remoteIp != 0 ==> t.remoteIp == s.remoteIp)
  {
    hide HeadEnd, OnData, OnHandshake;
  }

  predicate Exhausted(st: Stack) {
    Shape(st) && forall k :: 1 <= k < MAX_SOCKETS ==> st.sockets[k].phase == TimeWait
  }

  /** Once the three slots are in TIME_WAIT they stay there in every run, and every segment that none of the
      table's peers sent is answered with a reset or, if it is a reset, not at all. */
  lemma {:induction false} ExhaustedForever(st: Stack, es: seq<Event>, ip: word, bytes: seq<byte>,
                                            reply: Option<seq<byte>>)
    requires Exhausted(st)
    ensures var r := Run(st, es);
            var next := StepOut(r, Packet(ip, bytes, reply));
      && Exhausted(r)
      && match Decode(bytes)
         case None => next == (r, [])
         case Some(h) => Lookup(r.sockets, ip, h.src, h.dst).None? ==> next == (r, Refusal(h, ip))
  {
    hide HeadEnd, Step;
    if es != [] {
      var n := |es| - 1;
      ExhaustedForever(st, es[..n], ip, bytes, reply);
      var r := Run(st, es[..n]);
      StepShape(r, es[n]);
      forall k | 1 <= k < MAX_SOCKETS ensures Step(r, es[n]).sockets[k].phase == TimeWait {
        TimeWaitStays(r, es[n], k);
      }
    }
  }
}
