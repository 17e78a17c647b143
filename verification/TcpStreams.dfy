/** However a request is cut into segments, the receiver hands on the same bytes. */
module TcpStreams {
  import opened Framing
  import opened Machine
  import opened Options
  import opened TcpRuns
  import opened TcpSockets

  // ---------------------------------------------------------------- one socket, many segments

  predicate IsData(h: Header) {
    Has(h.flags, ACK) && !Has(h.flags, SYN) && !Has(h.flags, FIN)
  }

  datatype Arrival = Arrival(h: Header, ip: int, now: int, reply: Option<seq<byte>>)

  predicate AllData(arrivals: seq<Arrival>) {
    forall i :: 0 <= i < |arrivals| ==> IsData(arrivals[i].h)
  }

  function Feed(s: Socket, arrivals: seq<Arrival>): (Socket, seq<Output>) {
    if arrivals == [] then (s, [])
    else
      var (t, out) := Feed(s, arrivals[..|arrivals| - 1]);
      var a := arrivals[|arrivals| - 1];
      var (u, more) := Handled(t, a.h, a.ip, a.now, a.reply);
      (u, out + more)
  }

  function Stream(arrivals: seq<Arrival>): seq<byte> {
    if arrivals == [] then [] else Stream(arrivals[..|arrivals| - 1]) + arrivals[|arrivals| - 1].h.payload
  }

  /** The byte strings handed to http_parse_request, in order. */
  function Requests(out: seq<Output>): seq<seq<byte>> {
    if out == [] then []
    else Requests(out[..|out| - 1]) + if out[|out| - 1].Handed? then [out[|out| - 1].request] else []
  }

  /** What a stream should hand on: its shortest prefix that ends in a blank line. */
  function Wanted(stream: seq<byte>): seq<seq<byte>> {
    match Head(stream)
    case None => []
    case Some(end) => [stream[..end]]
  }

  lemma {:induction false} RequestsAppend(a: seq<Output>, b: seq<Output>)
    ensures Requests(a + b) == Requests(a) + Requests(b)
  {
    if b == [] {
      assert a + b == a;
    } else {
      RequestsAppend(a, b[..|b| - 1]);
      assert (a + b)[..|a + b| - 1] == a + b[..|b| - 1];
    }
  }

  lemma {:induction false} NoRequests(out: seq<Output>)
    requires forall i :: 0 <= i < |out| ==> !out[i].Handed?
    ensures Requests(out) == []
  {
    if out != [] { NoRequests(out[..|out| - 1]); }
  }

  /** A head that is complete stays where it is. */
  lemma HeadPrefix(a: seq<byte>, b: seq<byte>)
    requires Head(a).Some?
    ensures Head(a + b) == Head(a)
  {
    var e := Head(a).value;
    forall k | 0 <= k <= e - 4 ensures BlankAt(a + b, k, CR, LF) == BlankAt(a, k, CR, LF) {
    }
    HeadEndIs(a + b, 0, e, CR, LF);
  }

  lemma HeadGrows(a: seq<byte>, b: seq<byte>)
    requires Head(a).None? && Head(a + b).Some?
    ensures Head(a + b).value > |a|
  {
    var e := Head(a + b).value;
    assert e <= |a| ==> BlankAt(a + b, e - 4, CR, LF) == BlankAt(a, e - 4, CR, LF);
  }

  predicate Reading(s: Socket) {
    s.phase in {Established, CloseWait} && Head(s.rx).None? && |s.rx| < RX_BUF_SIZE
  }

  /** One data segment: the head is handed on if it is now complete, and otherwise the buffer goes on growing. */
  lemma Taken(s: Socket, a: Arrival)
    requires Reading(s) && IsData(a.h)
    ensures var (t, out) := Handled(s, a.h, a.ip, a.now, a.reply);
            var rx := Buffered(s.rx, a.h.payload);
      && Requests(out) == Wanted(rx)
      && (Head(rx).None? ==> Reading(t) && t.rx == rx && t.phase == s.phase)
      && (Head(rx).Some? ==> t.phase == FinWait1)
  {
    hide HeadEnd, Has, Buffered, Drained, Requests, Wanted;
    var rx := Buffered(s.rx, a.h.payload);
    var u := Touched(s, a.ip, a.now).(ackNo := Wrap(a.h.seqNo + |a.h.payload|), rx := rx);
    var first := if a.h.payload != [] then [Ctrl(u, ACK)] else [];
    NoRequests(first);
    DrainedTakes(u, a.reply);
    RequestsAppend(first, Drained(u, a.reply).1);
    assert |rx| < RX_BUF_SIZE by { BufferedFits(s.rx, a.h.payload); }
  }

  lemma BufferedFits(rx: seq<byte>, payload: seq<byte>)
    requires |rx| < RX_BUF_SIZE
    ensures |Buffered(rx, payload)| < RX_BUF_SIZE
  {
  }

  lemma DrainedTakes(s: Socket, reply: Option<seq<byte>>)
    ensures var (t, out) := Drained(s, reply);
      && Requests(out) == Wanted(s.rx)
      && (Head(s.rx).None? ==> t == s)
      && (Head(s.rx).Some? ==> t.phase == FinWait1)
  {
    EmptyHead();
    hide HeadEnd;
    if Head(s.rx).Some? {
      ServeRequests(s, Head(s.rx).value, reply);
    } else {
      NoRequests(Drained(s, reply).1);
    }
  }

  lemma ServeRequests(s: Socket, end: nat, reply: Option<seq<byte>>)
    requires end <= |s.rx|
    ensures Requests(Serve(s, end, reply).1) == [s.rx[..end]]
  {
    var out := Serve(s, end, reply).1;
    NoRequests(out[1..]);
    RequestsAppend(out[..1], out[1..]);
    assert out[..1] + out[1..] == out;
    assert out[..1][..0] == [];
  }

  /** Once a request is handed on, no segment makes the socket hand on another. */
  lemma Finished(s: Socket, a: Arrival)
    requires Rank(s.phase) >= 4 && IsData(a.h)
    ensures var (t, out) := Handled(s, a.h, a.ip, a.now, a.reply); Rank(t.phase) >= 4 && Requests(out) == []
  {
  }

  lemma NothingYet()
    ensures Requests([]) == Wanted([]) && Head([]).None?
  {
  }

  lemma NothingWanted(stream: seq<byte>)
    requires Head(stream).None?
    ensures Wanted(stream) == []
  {
  }

  lemma WantedPrefix(a: seq<byte>, b: seq<byte>)
    requires Head(a).Some?
    ensures Head(a + b).Some? && Wanted(a + b) == Wanted(a)
  {
    HeadPrefix(a, b);
    assert (a + b)[..Head(a).value] == a[..Head(a).value];
  }

  /** Segments that fit the buffer together, on a socket that has read nothing: at every point what has been
      handed on is what the bytes so far call for, the shortest prefix ending in a blank line, once and as soon
      as it is there. */
  lemma {:induction false} AnyCut(s: Socket, arrivals: seq<Arrival>)
    requires Reading(s) && s.rx == [] && AllData(arrivals)
    requires |Stream(arrivals)| < RX_BUF_SIZE
    ensures var (t, out) := Feed(s, arrivals);
      && Requests(out) == Wanted(Stream(arrivals))
      && if Head(Stream(arrivals)).Some? then Rank(t.phase) >= 4
         else Reading(t) && t.phase == s.phase && t.rx == Stream(arrivals)
  {
    hide HeadEnd, Handled, Requests, Wanted, Head;
    if arrivals == [] {
      NothingYet();
    } else {
      var n := |arrivals| - 1;
      var a, before := arrivals[n], Stream(arrivals[..n]);
      AnyCut(s, arrivals[..n]);
      var (t, out) := Feed(s, arrivals[..n]);
      RequestsAppend(out, Handled(t, a.h, a.ip, a.now, a.reply).1);
      if Head(before).None? {
        Taken(t, a);
        NothingWanted(before);
      } else {
        WantedPrefix(before, a.h.payload);
        Finished(t, a);
      }
    }
  }

  /** Two ways to cut one stream are told apart by nothing that reaches the HTTP parser. */
  lemma CutsAgree(s: Socket, a: seq<Arrival>, b: seq<Arrival>)
    requires Reading(s) && s.rx == [] && AllData(a) && AllData(b)
    requires Stream(a) == Stream(b) && |Stream(a)| < RX_BUF_SIZE
    ensures Requests(Feed(s, a).1) == Requests(Feed(s, b).1)
  {
    AnyCut(s, a);
    AnyCut(s, b);
  }

  /** Nothing longer than the buffer is ever handed on. */
  lemma {:induction false} RequestsFit(s: Socket, arrivals: seq<Arrival>)
    requires Reading(s) && AllData(arrivals)
    ensures Reading(Feed(s, arrivals).0) || Rank(Feed(s, arrivals).0.phase) >= 4
    ensures forall i :: 0 <= i < |Requests(Feed(s, arrivals).1)| ==> |Requests(Feed(s, arrivals).1)[i]| < RX_BUF_SIZE
  {
    hide HeadEnd;
    if arrivals != [] {
      var n := |arrivals| - 1;
      var a := arrivals[n];
      RequestsFit(s, arrivals[..n]);
      var (t, out) := Feed(s, arrivals[..n]);
      RequestsAppend(out, Handled(t, a.h, a.ip, a.now, a.reply).1);
      if Reading(t) { Taken(t, a); } else { Finished(t, a); }
    }
  }

  /** The exact limit: the segment that completes the head gets exactly that head handed on if and only if all
      the bytes up to the end of that segment leave room in the buffer. */
  lemma CutLimit(s: Socket, arrivals: seq<Arrival>)
    requires Reading(s) && s.rx == [] && AllData(arrivals) && arrivals != []
    requires Head(Stream(arrivals[..|arrivals| - 1])).None? && Head(Stream(arrivals)).Some?
    ensures Requests(Feed(s, arrivals).1) == Wanted(Stream(arrivals)) <==> |Stream(arrivals)| < RX_BUF_SIZE
  {
    hide HeadEnd, Handled;
    var n := |arrivals| - 1;
    var a, before := arrivals[n], Stream(arrivals[..n]);
    HeadGrows(before, a.h.payload);
    if |Stream(arrivals)| < RX_BUF_SIZE {
      AnyCut(s, arrivals);
    } else if |before| < RX_BUF_SIZE {
      AnyCut(s, arrivals[..n]);
      var (t, out) := Feed(s, arrivals[..n]);
      Taken(t, a);
      RequestsAppend(out, Handled(t, a.h, a.ip, a.now, a.reply).1);
      assert Wanted(before) == [] && |Wanted(Stream(arrivals))| == 1;
    } else {
      RequestsFit(s, arrivals);
      assert |Wanted(Stream(arrivals))[0]| >= RX_BUF_SIZE;
    }
  }

  /** A segment that does not fit is dropped, yet the sender is told that every byte of it arrived. */
  lemma DroppedButAcknowledged(s: Socket, a: Arrival)
    requires Reading(s) && IsData(a.h) && |s.rx| + |a.h.payload| >= RX_BUF_SIZE
    ensures var (t, out) := Handled(s, a.h, a.ip, a.now, a.reply);
      && t.rx == s.rx && Requests(out) == []
      && out != [] && out[0].Emit? && out[0].ackNo == Wrap(a.h.seqNo + |a.h.payload|)
  {
    hide HeadEnd;
    Taken(s, a);
  }

  // ---------------------------------------------------------------- sequence numbers

  /** A SYN is answered with one SYN-ACK that acknowledges it; the peer's ACK then fixes the server's next
      sequence number, is itself answered with an acknowledgement one too high, and data it carries is lost. */
  lemma Handshake(k: nat, syn: Header, ack: Header, ip: int, t0: int, t1: int, reply: Option<seq<byte>>)
    requires Has(syn.flags, SYN) && !Has(syn.flags, ACK) && Has(ack.flags, ACK)
    requires ack.src == syn.src && ack.dst == syn.dst && ack.seqNo == Wrap(syn.seqNo + 1)
    ensures var s := Opened(k, syn, ip, t0);
            var (mid, first) := Handled(s, syn, ip, t0, reply);
            var (end, second) := Handled(mid, ack, ip, t1, reply);
      && first == [Emit(syn.dst, syn.src, ip, s.seqNo, Wrap(syn.seqNo + 1), SYN + ACK, [])]
      && second == [Emit(syn.dst, syn.src, ip, ack.ackNo, Wrap(syn.seqNo + 2), ACK, [])]
      && end.phase == Established && end.seqNo == ack.ackNo && end.rx == []
  {
    hide HeadEnd, Has;
  }

  /** Segments numbered one behind the other, from q on. */
  predicate InOrder(arrivals: seq<Arrival>, q: int) {
    forall i :: 0 <= i < |arrivals| ==> arrivals[i].h.seqNo == Wrap(q + |Stream(arrivals[..i])|)
  }

  /** Of an in-order stream, all that is sent in answer to the latest segment, the response and the FIN
      included, acknowledges exactly the bytes so far. */
  lemma Acknowledged(s: Socket, arrivals: seq<Arrival>, q: int)
    requires AllData(arrivals) && InOrder(arrivals, q) && arrivals != []
    requires Reading(Feed(s, arrivals[..|arrivals| - 1]).0)
    ensures var a := arrivals[|arrivals| - 1];
            var (t, out) := Handled(Feed(s, arrivals[..|arrivals| - 1]).0, a.h, a.ip, a.now, a.reply);
      && t.ackNo == Wrap(q + |Stream(arrivals)|)
      && forall i :: 0 <= i < |out| && out[i].Emit? ==> out[i].ackNo == t.ackNo
  {
    hide HeadEnd, Feed, Stream;
    var n := |arrivals| - 1;
    var a, before := arrivals[n], Feed(s, arrivals[..n]).0;
    StreamLast(arrivals);
    WrapSum(q + |Stream(arrivals[..n])|, |a.h.payload|);
    AckedData(Touched(before, a.ip, a.now), a.h, a.reply);
  }

  lemma StreamLast(arrivals: seq<Arrival>)
    requires arrivals != []
    ensures |Stream(arrivals)| == |Stream(arrivals[..|arrivals| - 1])| + |arrivals[|arrivals| - 1].h.payload|
  {
  }

  lemma WrapSum(x: int, y: int)
    ensures Wrap(Wrap(x) + y) == Wrap(x + y)
  {
  }

  lemma AckedData(s: Socket, h: Header, reply: Option<seq<byte>>)
    requires IsData(h)
    ensures var (t, out) := OnData(s, h, reply);
      && t.ackNo == Wrap(h.seqNo + |h.payload|)
      && forall i :: 0 <= i < |out| && out[i].Emit? ==> out[i].ackNo == t.ackNo
  {
    hide HeadEnd, Has, Buffered;
  }

  // ---------------------------------------------------------------- whole runs

  /** Of a run that starts in st, the segments from one peer. */
  function Arrivals(st: Stack, es: seq<Event>, ip: int, port: int): seq<Arrival> {
    if es == [] then []
    else
      var e := es[|es| - 1];
      Arrivals(st, es[..|es| - 1], ip, port)
      + if From(ip, port, e) then [Arrival(Decode(e.bytes).value, ip, Run(st, es[..|es| - 1]).now, e.reply)] else []
  }

  /** All that slot k says in a run that starts in st. */
  function SaidIn(st: Stack, es: seq<Event>, k: nat): seq<Output> {
    if es == [] then [] else SaidIn(st, es[..|es| - 1], k) + Said(Run(st, es[..|es| - 1]), es[|es| - 1], k)
  }

  lemma FedPeer(s: Socket, a: Arrival)
    requires Rank(s.phase) >= 2 && IsData(a.h) && s.remoteIp != 0
    ensures var t := Handled(s, a.h, a.ip, a.now, a.reply).0;
      Rank(t.phase) >= 2 && t.remoteIp == s.remoteIp && t.remotePort == s.remotePort && t.localPort == s.localPort
  {
    hide HeadEnd;
  }

  /** In a run from distinct peers without a clashing SYN from address 0, where its peer sends only data segments, a
      connection does what those segments alone would make it do; segments from others and timer ticks, in any order
      between them, make no difference. */
  lemma {:induction false} Projected(st: Stack, es: seq<Event>, k: nat)
    requires Shape(st) && Distinct(st.sockets) && Unclashed(st, es)
    requires 1 <= k < MAX_SOCKETS && Rank(st.sockets[k].phase) >= 2 && st.sockets[k].remoteIp != 0
    requires AllData(Arrivals(st, es, st.sockets[k].remoteIp, st.sockets[k].remotePort))
    ensures var s := st.sockets[k];
            var t := Feed(s, Arrivals(st, es, s.remoteIp, s.remotePort)).0;
      && Shape(Run(st, es)) && Distinct(Run(st, es).sockets) && Run(st, es).sockets[k] == t
      && Rank(t.phase) >= 2 && t.remoteIp == s.remoteIp && t.remotePort == s.remotePort && t.localPort == HTTP_PORT
    ensures var s := st.sockets[k];
      SaidIn(st, es, k) == Feed(s, Arrivals(st, es, s.remoteIp, s.remotePort)).1
  {
    hide HeadEnd, Step;
    var s := st.sockets[k];
    if es == [] {
    } else {
      var n := |es| - 1;
      var before := Arrivals(st, es[..n], s.remoteIp, s.remotePort);
      var all := Arrivals(st, es, s.remoteIp, s.remotePort);
      assert forall i :: 0 <= i < |before| ==> before[i] == all[i];
      forall m | 0 <= m < n ensures !ClashesAt(st, es[..n], m) { PrefixAt(st, es, n, m); }
      Projected(st, es[..n], k);
      var r := Run(st, es[..n]);
      assert !ClashesAt(st, es, n);
      StepShape(r, es[n]);
      StepDistinct(r, es[n]);
      Isolated(r, es[n], k);
      if From(s.remoteIp, s.remotePort, es[n]) {
        assert all[..|all| - 1] == before;
        FedPeer(r.sockets[k], all[|all| - 1]);
      } else {
        assert all == before;
      }
    }
  }

  /** In every such run, whatever else the other peers do, a connection that has read nothing and whose peer then sends
      only data segments, less than a buffer of them, hands on exactly what their bytes call for. */
  lemma RunServes(st: Stack, es: seq<Event>, k: nat)
    requires Shape(st) && Distinct(st.sockets) && Unclashed(st, es)
    requires 1 <= k < MAX_SOCKETS && st.sockets[k].remoteIp != 0
    requires st.sockets[k].phase in {Established, CloseWait} && st.sockets[k].rx == []
    requires AllData(Arrivals(st, es, st.sockets[k].remoteIp, st.sockets[k].remotePort))
    requires |Stream(Arrivals(st, es, st.sockets[k].remoteIp, st.sockets[k].remotePort))| < RX_BUF_SIZE
    ensures var s := st.sockets[k];
      Requests(SaidIn(st, es, k)) == Wanted(Stream(Arrivals(st, es, s.remoteIp, s.remotePort)))
  {
    hide HeadEnd;
    Projected(st, es, k);
    AnyCut(st.sockets[k], Arrivals(st, es, st.sockets[k].remoteIp, st.sockets[k].remotePort));
  }
}
