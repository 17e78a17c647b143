/** src/network/tcp.c as functions: one socket, the table of four, and what arriving segments and ticks do to them. */
module TcpSockets {
  import opened Framing
  import opened Machine
  import opened Options

  const MAX_SOCKETS: nat := 4
  const RX_BUF_SIZE: nat := 2048
  const HTTP_PORT: int := 8080
  const NET_IP_ADDR: word := 0x0A00_020F
  const TCP_HDR_LEN: nat := 20

  const FIN := 0x01
  const SYN := 0x02
  const RST := 0x04
  const PSH := 0x08
  const ACK := 0x10

  const CR: byte := 13
  const LF: byte := 10

  /** Whether the flag byte has this bit; flag is one of the powers of two above. */
  predicate Has(flags: int, flag: int)
    requires flag > 0
  {
    flags / flag % 2 == 1
  }

  function Wrap(x: int): word { x % 0x1_0000_0000 }

  // ---------------------------------------------------------------- segments

  datatype Header = Header(src: int, dst: int, seqNo: int, ackNo: int, flags: int, payload: seq<byte>)

  function Be16(p: seq<byte>, i: nat): int
    requires i + 2 <= |p|
  {
    var hi: int, lo: int := p[i], p[i + 1];
    0x100 * hi + lo
  }

  function Be32(p: seq<byte>, i: nat): int
    requires i + 4 <= |p|
  {
    0x1_0000 * Be16(p, i) + Be16(p, i + 2)
  }

  /** Bytes past the claimed header are payload; a header that claims more than was received leaves none. */
  function Decode(p: seq<byte>): Option<Header> {
    if |p| < TCP_HDR_LEN then None
    else
      var offset: int := p[12];
      var headerLen := offset / 16 * 4;
      var payload := if |p| > headerLen then p[headerLen..] else [];
      Some(Header(Be16(p, 0), Be16(p, 2), Be32(p, 4), Be32(p, 8), p[13], payload))
  }

  /** In order: the segments passed to net_send_tcp and the bytes passed to http_parse_request. */
  datatype Output =
    | Emit(src: int, dst: int, ip: int, seqNo: int, ackNo: int, flags: int, data: seq<byte>)
    | Handed(request: seq<byte>)

  // ---------------------------------------------------------------- one socket

  datatype Phase =
    | Closed | Listen | SynSent | SynReceived | Established | FinWait1 | FinWait2
    | CloseWait | Closing | LastAck | TimeWait

  /** rx is the receive buffer up to rx_len. */
  datatype Socket = Socket(
    phase: Phase, localIp: int, localPort: int, remoteIp: int, remotePort: int,
    seqNo: int, ackNo: int, rx: seq<byte>, lastActivity: int)

  const ZERO: Socket := Socket(Closed, 0, 0, 0, 0, 0, 0, [], 0)

  /** The arguments that tcp_send_ctrl and tcp_send_data pass on. */
  function Sent(s: Socket, flags: int, data: seq<byte>): Output {
    Emit(s.localPort, s.remotePort, s.remoteIp, s.seqNo, s.ackNo, flags, data)
  }

  function Ctrl(s: Socket, flags: int): Output { Sent(s, flags, []) }

  function Shut(s: Socket): Socket {
    s.(phase := Closed, rx := [])
  }

  function Head(rx: seq<byte>): Option<nat> {
    HeadEnd(rx, 0, CR, LF)
  }

  /** The payload, appended if it leaves a byte of the buffer free. */
  function Buffered(rx: seq<byte>, payload: seq<byte>): seq<byte> {
    if |rx| + |payload| < RX_BUF_SIZE then rx + payload else rx
  }

  /** A complete head: hand it over, send the reply if one could be built, then a FIN. */
  function Serve(s: Socket, end: nat, reply: Option<seq<byte>>): (Socket, seq<Output>)
    requires end <= |s.rx|
  {
    var sent := if reply.Some? then [Sent(s, ACK + PSH, reply.value)] else [];
    var t := s.(phase := FinWait1, rx := [], seqNo := if reply.Some? then Wrap(s.seqNo + |reply.value|) else s.seqNo);
    (t, [Handed(s.rx[..end])] + sent + [Ctrl(t, FIN + ACK)])
  }

  /** The buffered bytes, once a segment has been taken in: serve them, or acknowledge if there are none. */
  function Drained(s: Socket, reply: Option<seq<byte>>): (Socket, seq<Output>) {
    if s.rx == [] then (s, [Ctrl(s, ACK)])
    else match Head(s.rx)
      case Some(end) => Serve(s, end, reply)
      case None => (s, [])
  }

  function OnData(s: Socket, h: Header, reply: Option<seq<byte>>): (Socket, seq<Output>) {
    if Has(h.flags, SYN) then (s, [])
    else if Has(h.flags, FIN) then
      var t := s.(ackNo := Wrap(h.seqNo + |h.payload| + 1));
      (if s.phase == Established then t.(phase := CloseWait) else Shut(t), [Ctrl(t, ACK)])
    else
      var t := s.(ackNo := Wrap(h.seqNo + |h.payload|));
      if !Has(h.flags, ACK) then (t, [])
      else
        var u := t.(rx := Buffered(t.rx, h.payload));
        var (v, out) := Drained(u, reply);
        (v, (if h.payload != [] then [Ctrl(u, ACK)] else []) + out)
  }

  function OnHandshake(s: Socket, h: Header): (Socket, seq<Output>) {
    var t := s.(ackNo := Wrap(h.seqNo + 1));
    if Has(h.flags, ACK) then
      var u := t.(phase := Established, seqNo := h.ackNo);
      (u, [Ctrl(u, ACK)])
    else
      (t, [Ctrl(t, SYN + ACK)])
  }

  function Touched(s: Socket, ip: int, now: int): Socket {
    s.(remoteIp := if s.remoteIp == 0 then ip else s.remoteIp, lastActivity := now)
  }

  /** The state machine. */
  function Advanced(s: Socket, h: Header, reply: Option<seq<byte>>): (Socket, seq<Output>) {
    match s.phase
    case SynReceived => OnHandshake(s, h)
    case Established => OnData(s, h, reply)
    case CloseWait => OnData(s, h, reply)
    case FinWait1 =>
      if Has(h.flags, FIN) then (s.(ackNo := Wrap(s.ackNo + 1), phase := TimeWait), [])
      else if Has(h.flags, ACK) then (s.(phase := FinWait2), [])
      else (s, [])
    case FinWait2 =>
      var t := s.(ackNo := Wrap(s.ackNo + 1));
      if Has(h.flags, FIN) then (Shut(t), [Ctrl(t, ACK)]) else (s, [])
    case LastAck => (if Has(h.flags, ACK) then Shut(s) else s, [])
    case _ => (s, [])
  }

  /** reply is what the request handler and http_generate_response make of a request handed over, None on failure. */
  function Handled(s: Socket, h: Header, ip: int, now: int, reply: Option<seq<byte>>): (Socket, seq<Output>) {
    Advanced(Touched(s, ip, now), h, reply)
  }

  /** The half of tcp_periodic that concerns one socket. */
  predicate Due(s: Socket, now: int) {
    s.phase == SynReceived && Wrap(now - s.lastActivity) > 1
  }

  function Retried(s: Socket, now: int): (Socket, seq<Output>) {
    if Due(s, now) then (s.(lastActivity := now), [Ctrl(s, SYN + ACK)]) else (s, [])
  }

  // ---------------------------------------------------------------- the table

  datatype Stack = Stack(sockets: seq<Socket>, now: word)

  const BOOT: Stack :=
    Stack([ZERO.(phase := Listen, localPort := HTTP_PORT, localIp := NET_IP_ADDR), ZERO, ZERO, ZERO], 0)

  predicate Matches(s: Socket, ip: int, remotePort: int, localPort: int) {
    s.phase != Closed && s.localPort == localPort && s.remotePort == remotePort && (s.remoteIp == 0 || s.remoteIp == ip)
  }

  predicate Listening(s: Socket, localPort: int) {
    s.phase == Listen && s.localPort == localPort
  }

  /** The first socket from slot i on that a test accepts. */
  function First(ss: seq<Socket>, i: nat, test: Socket -> bool): (r: Option<nat>)
    ensures r.Some? ==> i <= r.value < |ss| && test(ss[r.value])
    ensures r.Some? ==> forall j :: i <= j < r.value ==> !test(ss[j])
    ensures r.None? ==> forall j :: i <= j < |ss| ==> !test(ss[j])
    decreases |ss| - i
  {
    if i >= |ss| then None else if test(ss[i]) then Some(i) else First(ss, i + 1, test)
  }

  function Lookup(ss: seq<Socket>, ip: int, remotePort: int, localPort: int): (r: Option<nat>)
    ensures r.Some? ==> r.value < |ss| && Matches(ss[r.value], ip, remotePort, localPort)
    ensures r.Some? ==> forall j :: 0 <= j < r.value ==> !Matches(ss[j], ip, remotePort, localPort)
    ensures r.None? ==> forall j :: 0 <= j < |ss| ==> !Matches(ss[j], ip, remotePort, localPort)
  {
    First(ss, 0, s => Matches(s, ip, remotePort, localPort))
  }

  function Listener(ss: seq<Socket>, localPort: int): (r: Option<nat>)
    ensures r.Some? ==> r.value < |ss| && Listening(ss[r.value], localPort)
    ensures r.Some? ==> forall j :: 0 <= j < r.value ==> !Listening(ss[j], localPort)
    ensures r.None? ==> forall j :: 0 <= j < |ss| ==> !Listening(ss[j], localPort)
  {
    First(ss, 0, s => Listening(s, localPort))
  }

  function Free(ss: seq<Socket>): (r: Option<nat>)
    ensures r.Some? ==> r.value < |ss| && ss[r.value].phase == Closed
    ensures r.Some? ==> forall j :: 0 <= j < r.value ==> ss[j].phase != Closed
    ensures r.None? ==> forall j :: 0 <= j < |ss| ==> ss[j].phase != Closed
  {
    First(ss, 0, (s: Socket) => s.phase == Closed)
  }

  /** A socket just opened in slot i for a SYN. */
  function Opened(i: nat, h: Header, ip: int, now: int): Socket {
    ZERO.(phase := SynReceived, localPort := h.dst, remotePort := h.src, remoteIp := ip,
          seqNo := Wrap(1000 + i * 100 + now % 0x1_0000))
  }

  /** Whether a segment makes the table open a socket. */
  predicate Opens(st: Stack, ip: int, h: Header) {
    && Lookup(st.sockets, ip, h.src, h.dst).None?
    && Has(h.flags, SYN)
    && Listener(st.sockets, h.dst).Some?
    && Free(st.sockets).Some?
  }

  /** The slot a segment goes to. */
  function Slot(st: Stack, ip: int, h: Header): (r: Option<nat>)
    ensures r.Some? ==> r.value < |st.sockets|
  {
    if Opens(st, ip, h) then Free(st.sockets) else Lookup(st.sockets, ip, h.src, h.dst)
  }

  function Refusal(h: Header, ip: int): seq<Output> {
    if Has(h.flags, RST) then []
    else [Emit(h.dst, h.src, ip, 0, Wrap(h.seqNo + 1 + if Has(h.flags, SYN) then 1 else 0), RST, [])]
  }

  /** The socket in slot i as a segment finds it. */
  function Found(st: Stack, ip: int, h: Header, i: nat): Socket
    requires i < |st.sockets|
  {
    if Opens(st, ip, h) then Opened(i, h, ip, st.now) else st.sockets[i]
  }

  function Received(st: Stack, ip: int, h: Header, reply: Option<seq<byte>>): (Stack, seq<Output>) {
    match Slot(st, ip, h)
    case None => (st, Refusal(h, ip))
    case Some(i) =>
      var (t, out) := Handled(Found(st, ip, h, i), h, ip, st.now, reply);
      (st.(sockets := st.sockets[i := t]), out)
  }

  /** Slots below i retried, the others as they were. */
  function RetriedUpTo(ss: seq<Socket>, now: int, i: nat): (r: (seq<Socket>, seq<Output>))
    requires i <= |ss|
    ensures |r.0| == |ss|
    ensures forall j :: 0 <= j < |ss| ==> r.0[j] == if j < i then Retried(ss[j], now).0 else ss[j]
  {
    if i == 0 then (ss, [])
    else
      var (before, out) := RetriedUpTo(ss, now, i - 1);
      var (t, more) := Retried(ss[i - 1], now);
      (before[i - 1 := t], out + more)
  }

  function Ticked(st: Stack): (Stack, seq<Output>) {
    var now := Wrap(st.now + 1);
    var (ss, out) := RetriedUpTo(st.sockets, now, |st.sockets|);
    (Stack(ss, now), out)
  }

  // ---------------------------------------------------------------- runs

  /** A packet from an address, with the reply that its request would get; or a call of tcp_periodic. */
  datatype Event = Packet(ip: word, bytes: seq<byte>, reply: Option<seq<byte>>) | Tick

  function StepOut(st: Stack, e: Event): (Stack, seq<Output>) {
    match e
    case Tick => Ticked(st)
    case Packet(ip, bytes, reply) =>
      match Decode(bytes)
      case None => (st, [])
      case Some(h) => Received(st, ip, h, reply)
  }

  function Step(st: Stack, e: Event): Stack { StepOut(st, e).0 }

  function Run(st: Stack, es: seq<Event>): Stack {
    if es == [] then st else Step(Run(st, es[..|es| - 1]), es[|es| - 1])
  }

  /** No packet claims to come from address 0. */
  predicate Sourced(es: seq<Event>) {
    forall i :: 0 <= i < |es| && es[i].Packet? ==> es[i].ip != 0
  }
}
