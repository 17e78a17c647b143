/** The transmit ring of src/network/e1000.c. Between any two accesses of the driver to shared memory the
    hardware takes any number of steps. */
module E1000Tx {
  import opened Machine
  import opened Rings

  /** EOP, IFCS and RS. */
  const SEND_COMMAND: nat := 0x01 + 0x02 + 0x08
  const POLLS: nat := 1000

  /** Returns of 0 stay trustworthy as long as of any 32 calls in a row one returns 0: given what Send says of the lag
      before and after each call, no call then finds a lag of 32. */
  lemma {:induction false} LagStaysShort(zero: seq<bool>, lag: seq<nat>, n: nat)
    requires |lag| == |zero| + 1 && lag[0] == 0 && n <= |zero|
    requires forall i :: 0 <= i < |zero| ==> Promised(zero, lag, i)
    requires forall i :: 0 <= i <= |zero| - RING ==> !Silent(zero, i)
    ensures lag[n] < RING && Quiet(zero, n, lag[n])
  {
    if n > 0 {
      LagStaysShort(zero, lag, n - 1);
      assert Promised(zero, lag, n - 1);
      if !zero[n - 1] && lag[n] == RING {
        assert Silent(zero, n - RING);
      }
    }
  }

  /** What Send promises of the lag around its i-th call. */
  predicate Promised(zero: seq<bool>, lag: seq<nat>, i: nat)
    requires i < |zero| && |lag| == |zero| + 1
  {
    lag[i + 1] <= lag[i] + 1 && (zero[i] && lag[i] < RING ==> lag[i + 1] == 0)
  }

  /** The 32 calls from i on all returned -1. */
  predicate Silent(zero: seq<bool>, i: nat) {
    forall j :: i <= j < i + RING && j < |zero| ==> !zero[j]
  }

  /** The last k of the first n calls did. */
  predicate Quiet(zero: seq<bool>, n: nat, k: nat) {
    k <= n <= |zero| && forall j :: n - k <= j < n ==> !zero[j]
  }

  /** One call of the transmit function: whether it returned 0, and whether every frame queued was sent by then. */
  datatype Call = Call(zero: bool, allSent: bool)

  class TxRing {
    const status: array<nat>
    const length: array<nat>
    const command: array<nat>
    const buffers: array2<byte>
    /** TDH, TDT and the driver's tx_tail. */
    var tdh: nat
    var tdt: nat
    var tail: nat
    /** Every frame the driver queued through TDT, and every frame the hardware sent, in order. */
    ghost var queued: seq<seq<byte>>
    ghost var sent: seq<seq<byte>>
    /** The hardware's own counts: of the frames it sent, and of those whose descriptors it has marked done since, in
        order too but perhaps long after. */
    var fetched: nat
    var marked: nat
    /** What every call so far returned, and how the ring stood then. */
    ghost var calls: seq<Call>
    /** For each queued frame, whether no mark of an earlier frame was outstanding for its slot when the driver
        cleared the status. */
    ghost var clean: seq<bool>

    ghost predicate Shape() {
      status.Length == RING && length.Length == RING && command.Length == RING
      && status != length && status != command && length != command
      && buffers.Length0 == RING && buffers.Length1 == BUFFER_SIZE
    }

    /** What the hardware sends from slot i. */
    ghost function Bytes(i: nat): (s: seq<byte>)
      requires Shape() && i < RING
      reads length, buffers
    {
      seq(if length[i] > BUFFER_SIZE then BUFFER_SIZE else length[i],
          j requires 0 <= j < BUFFER_SIZE reads buffers => buffers[i, j])
    }

    /** Slot i asks for exactly this frame. */
    ghost predicate Asks(i: nat, frame: seq<byte>)
      requires Shape() && i < RING
      reads length, command, buffers
    {
      length[i] <= BUFFER_SIZE && Bytes(i) == frame && command[i] == 0x0B
    }

    /** Holds at every moment. */
    ghost predicate Safe()
      reads `tdh, `tdt, `queued, `sent, `fetched, `marked, `clean, status, length, command, buffers
    {
      && Shape()
      && tdh == At(|sent|) && tdt == At(|queued|)
      && fetched == |sent| && marked <= |sent| <= |queued| <= |sent| + 31
      && sent == queued[..|sent|] && |clean| == |queued|
      && (forall a :: |sent| <= a < |queued| ==> Asks(At(a), queued[a]))
      && forall a :: marked <= a < |queued| && clean[a] ==> a < marked + RING && !Done(status[At(a)])
    }

    /** Frames queued whose descriptors are not marked yet. */
    ghost function Lag(): nat
      requires Safe()
      reads `tdh, `tdt, `queued, `sent, `fetched, `marked, `clean, status, length, command, buffers
    {
      |queued| - marked
    }

    /** Holds between calls of the driver. */
    ghost predicate Valid()
      reads this, status, length, command, buffers
    {
      Safe() && tail == At(|queued|)
    }

    /** The ring set-up of e1000_init. */
    constructor ()
      ensures Valid() && fresh(status) && fresh(length) && fresh(command) && fresh(buffers)
      ensures queued == [] && sent == [] && marked == 0 && calls == []
    {
      status := new nat[RING](_ => 0);
      length := new nat[RING](_ => 0);
      command := new nat[RING](_ => 0);
      buffers := new byte[RING, BUFFER_SIZE];
      tdh, tdt, tail := 0, 0, 0;
      queued, sent, fetched, marked, calls, clean := [], [], 0, 0, [], [];
    }

    /** In terms of the registers: the hardware owns exactly the slots from TDH up to TDT, those of the frames
        not yet sent, and never the slot at tx_tail, the only one the driver writes. */
    lemma OwnedExactly(i: nat)
      requires Valid() && i < RING
      ensures Within(i, tdh, tdt) <==> exists a :: |sent| <= a < |queued| && At(a) == i
      ensures !Within(tail, tdh, tdt)
    {
      WithinIs(i, |sent|, |queued|);
      WithinIs(tail, |sent|, |queued|);
      forall a | |sent| <= a < |queued| ensures At(a) != At(|queued|) { AtApart(a, |queued|); }
    }

    /** One step of the hardware: send the frame at TDH, unless TDH has reached TDT, or mark the next descriptor. */
    method HardwareStep()
      requires Safe()
      modifies `tdh, `sent, `fetched, `marked, status
      ensures Safe() && old(sent) <= sent && old(marked) <= marked
      ensures |queued| < old(marked) + RING ==> status[At(|queued|)] == old(status[At(|queued|)])
    {
      if * {
        Transmit();
      } else {
        Mark();
      }
    }

    method Transmit()
      requires Safe()
      modifies `tdh, `sent, `fetched
      ensures Safe() && old(sent) <= sent
      ensures |sent| == |old(sent)| + if |old(sent)| < |queued| then 1 else 0
    {
      hide At, Bytes;
      ghost var q, s := |queued|, |sent|;
      if s < q { AtApart(s, q); }
      if tdh != tdt {
        AtNext(s);
        assert Asks(At(s), queued[s]);
        sent := sent + [Bytes(tdh)];
        fetched := fetched + 1;
        tdh := (tdh + 1) % RING;
      }
    }

    method Mark()
      requires Safe()
      modifies `marked, status
      ensures Safe() && old(marked) <= marked
      ensures old(marked) < |sent| ==> marked == old(marked) + 1 && Done(status[At(old(marked))])
      ensures |queued| < old(marked) + RING ==> status[At(|queued|)] == old(status[At(|queued|)])
    {
      hide At, Bytes, Asks;
      var v: int := *;
      if marked < fetched {
        ghost var m := marked;
        var i := At(marked);
        status[i] := if v >= 0 && Done(v) then v else DD;
        marked := marked + 1;
        forall a | m < a < m + RING ensures At(a) != At(m) { AtApart(m, a); }
      }
    }

    /** Any number of steps of the hardware. */
    method Hardware()
      requires Safe()
      modifies `tdh, `sent, `fetched, `marked, status
      ensures Safe() && old(sent) <= sent && old(marked) <= marked
      ensures |queued| < old(marked) + RING ==> status[At(|queued|)] == old(status[At(|queued|)])
    {
      hide At, Asks;
      var n: int := *;
      while n > 0
        invariant Safe() && old(sent) <= sent && old(marked) <= marked
        invariant |queued| < old(marked) + RING ==> status[At(|queued|)] == old(status[At(|queued|)])
      {
        HardwareStep();
        n := n - 1;
      }
    }

    /** e1000_send_packet. */
    method Send(data: seq<byte>) returns (r: int)
      requires Valid() && |data| <= BUFFER_SIZE
      modifies this, status, length, command, buffers
      ensures Valid() && old(sent) <= sent && Lag() <= old(Lag()) + 1
      ensures r == 0 && old(Lag()) < RING ==> sent == queued && Lag() == 0
      ensures calls == old(calls) + [Call(r == 0, sent == queued)]
      ensures if r == 0 then queued == old(queued) + [data]
              else && r == -1
                   && (queued == old(queued) + [data] || (queued == old(queued) && |queued| == |old(sent)| + 31))
    {
      hide At, Safe;
      Room(|queued|, |sent|);
      Hardware();
      var head := tdh;
      ghost var pending := |queued| - |sent|;
      Room(|queued|, |sent|);
      Hardware();
      var next := (tail + 1) % RING;
      if next == head {
        calls := calls + [Call(false, sent == queued)];
        return -1;
      }
      assert |queued| < |sent| + 31;
      Fill(data);
      Enqueue(data, next);
      r := Poll();
      calls := calls + [Call(r == 0, sent == queued)];
    }

    /** The registers say the ring is full exactly if 31 frames are pending. */
    lemma Room(q: nat, s: nat)
      requires Safe() && q == |queued| && s == |sent|
      ensures s <= q <= s + 31
      ensures (At(q) + 1) % RING == tdh <==> q - s == 31
    {
      AtNext(q);
      if q - s == 31 { AtNext(s); } else { AtApart(s, q + 1); }
    }

    twostate predicate SameSlot(i: nat)
      requires Shape() && i < RING
      reads status, length, command, buffers
    {
      && length[i] == old(length[i]) && command[i] == old(command[i]) && status[i] == old(status[i])
      && forall j :: 0 <= j < BUFFER_SIZE ==> buffers[i, j] == old(buffers[i, j])
    }

    /** Only the slot at tx_tail was stored to. */
    twostate predicate TailOnly()
      requires Shape()
      reads this, status, length, command, buffers
    {
      && tdh == old(tdh) && tdt == old(tdt) && tail == old(tail) && queued == old(queued) && sent == old(sent)
      && fetched == old(fetched) && marked == old(marked) && clean == old(clean)
      && (forall i: nat :: i == tail && i < RING ==> status[i] == old(status[i]) || status[i] == 0)
      && forall i :: 0 <= i < RING && i != tail ==> SameSlot(i)
    }

    /** Such stores leave everything the hardware owns as it was. */
    twostate lemma TailFree()
      requires old(Valid()) && Shape() && TailOnly()
      ensures Valid()
    {
      forall a: nat | |sent| <= a < |queued| ensures Asks(At(a), queued[a]) {
        OwnedKept(a);
      }
      forall a: nat | marked <= a < |queued| && clean[a] ensures !Done(status[At(a)]) {
        CleanKept(a);
      }
    }

    twostate lemma CleanKept(a: nat)
      requires old(Valid()) && Shape() && TailOnly() && marked <= a < |queued| && clean[a]
      ensures !Done(status[At(a)])
    {
      assert old(!Done(status[At(a)]));
      if At(a) != tail { assert SameSlot(At(a)); }
    }

    twostate lemma OwnedKept(a: nat)
      requires old(Valid()) && Shape() && TailOnly() && |sent| <= a < |queued|
      ensures Asks(At(a), queued[a])
    {
      AtApart(a, |queued|);
      assert SameSlot(At(a));
      assert old(Asks(At(a), queued[a]));
      assert Bytes(At(a)) == old(Bytes(At(a)));
    }

    lemma Sized()
      requires Valid()
      ensures Shape() && tail < RING
    {
    }

    /** memcpy of the frame and the stores to its descriptor. */
    method Fill(data: seq<byte>)
      requires Valid() && |data| <= BUFFER_SIZE
      modifies `tdh, `sent, `fetched, `marked, status, length, command, buffers
      ensures Valid() && old(sent) <= sent && old(marked) <= marked
      ensures Asks(tail, data) && !Done(status[tail])
    {
      hide At, Safe, Asks;
      Sized();
      CopyIn(data);
      Hardware();
      label L:
      length[tail] := |data|;
      TailFree@L();
      Hardware();
      label M:
      command[tail] := SEND_COMMAND;
      TailFree@M();
      Hardware();
      label N:
      status[tail] := 0;
      TailFree@N();
      assert Bytes(tail) == data;
      assert Asks(tail, data) by { Asked(data); }
    }

    lemma Asked(data: seq<byte>)
      requires Valid() && |data| <= BUFFER_SIZE
      requires length[tail] == |data| && command[tail] == SEND_COMMAND && Bytes(tail) == data
      ensures Asks(tail, data)
    {
    }

    /** The hardware at work between any two bytes. */
    method CopyIn(data: seq<byte>)
      requires Valid() && |data| <= BUFFER_SIZE
      modifies `tdh, `sent, `fetched, `marked, status, buffers
      ensures Valid() && old(sent) <= sent && old(marked) <= marked
      ensures forall j :: 0 <= j < |data| ==> buffers[tail, j] == data[j]
    {
      hide At, Safe, Asks;
      Sized();
      for k := 0 to |data|
        invariant Valid() && old(sent) <= sent && old(marked) <= marked
        invariant forall j :: 0 <= j < k ==> buffers[tail, j] == data[j]
      {
        Hardware();
        label L:
        buffers[tail, k] := data[k];
        TailFree@L();
      }
    }

    /** tx_tail, then TDT. */
    method Enqueue(data: seq<byte>, next: nat)
      requires Valid() && |data| <= BUFFER_SIZE && Asks(tail, data) && !Done(status[tail])
      requires |queued| < |sent| + 31 && next == (tail + 1) % RING
      modifies `tdh, `tdt, `tail, `queued, `clean, `sent, `fetched, `marked, status
      ensures Valid() && old(sent) <= sent && old(marked) <= marked
      ensures queued == old(queued) + [data]
      ensures |clean| == |queued| && clean == old(clean) + [old(|queued| < marked + RING)]
    {
      hide At, Bytes, Asks;
      ghost var q, unmarked := |queued|, |queued| < marked + RING;
      AtNext(q);
      tail := next;
      Hardware();
      tdt := tail;
      queued, clean := queued + [data], clean + [unmarked];
    }

    method Poll() returns (r: int)
      requires Valid() && queued != []
      modifies `tdh, `sent, `fetched, `marked, status
      ensures Valid() && old(sent) <= sent && old(marked) <= marked
      ensures r == 0 || r == -1
      ensures r == 0 && clean[|queued| - 1] ==> sent == queued && marked == |queued|
    {
      hide At, Asks;
      ghost var last := |queued| - 1;
      AtNext(last);
      AtNext(last + 1);
      for i := 0 to POLLS
        invariant Valid() && old(sent) <= sent && old(marked) <= marked
      {
        Hardware();
        assert (tail + RING - 1) % RING == At(last);
        if Done(status[(tail + RING - 1) % RING]) {
          return 0;
        }
      }
      r := -1;
    }

    /** The stores of a call that finds room, the hardware idle. */
    method Store(data: seq<byte>)
      requires Valid() && |data| <= BUFFER_SIZE && |queued| < |sent| + 31
      modifies `tail, `tdt, `queued, `clean, status, length, command, buffers
      ensures Valid() && queued == old(queued) + [data]
    {
      hide At, Safe, Asks;
      Sized();
      for k := 0 to |data|
        invariant Valid() && queued == old(queued) && tail == old(tail) && clean == old(clean) && tdt == old(tdt)
        invariant forall j :: 0 <= j < k ==> buffers[tail, j] == data[j]
      {
        label K:
        buffers[tail, k] := data[k];
        TailFree@K();
      }
      label L:
      length[tail], command[tail] := |data|, SEND_COMMAND;
      status[tail] := 0;
      TailFree@L();
      assert Bytes(tail) == data;
      Asked(data);
      Publish(data);
    }

    /** tx_tail and TDT, the hardware idle. */
    method Publish(data: seq<byte>)
      requires Valid() && |data| <= BUFFER_SIZE && Asks(tail, data) && !Done(status[tail])
      requires |queued| < |sent| + 31
      modifies `tail, `tdt, `queued, `clean
      ensures Valid() && queued == old(queued) + [data]
    {
      hide At, Bytes, Asks;
      ghost var unmarked := |queued| < marked + RING;
      AtNext(|queued|);
      tail := (tail + 1) % RING;
      tdt := tail;
      queued, clean := queued + [data], clean + [unmarked];
    }

    /** With more than 32 frames unmarked, the last of them unsent, late marks of earlier frames make the descriptor of
        that last one look done to the polling loop. */
    method LateMark()
      requires Valid() && marked + RING < |queued| && |sent| < |queued|
      modifies `marked, status
      ensures Valid() && Done(status[(tail + RING - 1) % RING])
    {
      hide At, Asks;
      Distance(|sent|, |queued|);
      var q := fetched + (tdt + RING - tdh) % RING;
      assert q == |queued|;
      while marked < q - RING
        invariant Valid() && marked <= q - RING
        invariant old(marked) < marked ==> Done(status[At(marked - 1)])
      {
        Mark();
      }
      AtNext(q - 1);
      AtNext(q);
      AtNext(q - 1 - RING);
    }

    /** The bound in Send's contract is exact: in every state with room and a lag of 32 or more there is a course of
        events in which the call's own descriptor looks done, so that it returns 0, with its frame unsent. */
    method Misled(data: seq<byte>)
      requires Valid() && |data| <= BUFFER_SIZE && |queued| < |sent| + 31 && Lag() >= RING
      modifies `tail, `tdt, `queued, `clean, `marked, status, length, command, buffers
      ensures Valid() && queued == old(queued) + [data] && |sent| < |queued|
      ensures Done(status[(tail + RING - 1) % RING])
    {
      hide At, Asks;
      Store(data);
      LateMark();
    }

    /** Calls one after the other, hardware steps between them: if no 32 of them in a row return -1, each 0 means that
        all frames queued were sent. */
    method SendAll(frames: seq<seq<byte>>) returns (zero: seq<bool>)
      requires Valid() && Lag() == 0 && forall i :: 0 <= i < |frames| ==> |frames[i]| <= BUFFER_SIZE
      modifies this, status, length, command, buffers
      ensures Valid() && |zero| == |frames| && |calls| == |old(calls)| + |frames|
      ensures old(calls) <= calls && forall i :: 0 <= i < |frames| ==> calls[|old(calls)| + i].zero == zero[i]
      ensures (forall i :: 0 <= i <= |zero| - RING ==> !Silent(zero, i))
              ==> forall i :: |old(calls)| <= i < |calls| && calls[i].zero ==> calls[i].allSent
    {
      hide At, Safe, Silent, Quiet;
      zero := [];
      ghost var lag: seq<nat> := [0];
      ghost var before := |calls|;
      LagCounts();
      for n := 0 to |frames|
        invariant Valid() && |zero| == n && |lag| == n + 1 && lag[0] == 0 && lag[n] >= Lag()
        invariant old(calls) <= calls && |calls| == before + n
        invariant forall i :: 0 <= i < n ==> calls[before + i].zero == zero[i] && Promised(zero, lag, i)
        invariant forall i :: 0 <= i < n && lag[i] < RING && zero[i] ==> calls[before + i].allSent
      {
        LagCounts();
        Hardware();
        LagCounts();
        ghost var zeroed, lagged := zero, lag;
        var r := Send(frames[n]);
        LagCounts();
        zero := zero + [r == 0];
        lag := lag + [if r == 0 && lag[n] < RING then 0 else lag[n] + 1];
        forall i | 0 <= i <= n ensures Promised(zero, lag, i) {
          assert i < n ==> Promised(zeroed, lagged, i);
        }
      }
      if forall i :: 0 <= i <= |zero| - RING ==> !Silent(zero, i) {
        forall i | before <= i < |calls| && calls[i].zero ensures calls[i].allSent {
          LagStaysShort(zero, lag, i - before);
        }
      }
    }

    lemma LagCounts()
      requires Valid()
      ensures Lag() >= 0
    {
    }
  }

  /** A run from the start in which that happens: 32 calls whose frames are sent but not marked while they poll, and
      one more. */
  method TimeoutsMislead(data: seq<byte>) returns (t: TxRing)
    requires |data| <= BUFFER_SIZE
    ensures fresh(t) && t.Valid() && |t.queued| == 33 && |t.sent| == 32
    ensures Done(t.status[(t.tail + RING - 1) % RING])
  {
    hide At;
    t := new TxRing();
    for i := 0 to RING
      invariant fresh(t) && fresh(t.status) && fresh(t.length) && fresh(t.command) && fresh(t.buffers)
      invariant t.Valid() && |t.queued| == |t.sent| == i && t.marked == 0
    {
      t.Store(data);
      t.Transmit();
    }
    t.Misled(data);
  }

  /** Whether copying len bytes into the buffer of slot i touches that of slot j, or the memory behind the buffers if
      j is 32. */
  predicate Spills(i: nat, j: nat, len: nat) {
    i * BUFFER_SIZE < (j + 1) * BUFFER_SIZE && j * BUFFER_SIZE < i * BUFFER_SIZE + len
  }

  /** memcpy stays in its slot's buffer, for every slot, exactly for lengths up to 2048. */
  lemma LengthLimit(len: nat)
    ensures (forall i, j :: 0 <= i < RING && 0 <= j <= RING && i != j ==> !Spills(i, j, len)) <==> len <= BUFFER_SIZE
  {
    assert len > BUFFER_SIZE ==> Spills(0, 1, len);
  }
}
