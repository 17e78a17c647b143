/** The receive ring of src/network/e1000.c. Between any two accesses of the driver to shared memory the
    hardware takes any number of steps. */
module E1000Rx {
  import opened Machine
  import opened Rings

  class RxRing {
    const status: array<nat>
    const length: array<nat>
    const buffers: array2<byte>
    /** RDH, RDT and the driver's rx_head. */
    var rdh: nat
    var rdt: nat
    var head: nat
    /** Every frame the hardware completed, and every frame the driver returned, in order. */
    ghost var written: seq<seq<byte>>
    ghost var delivered: seq<seq<byte>>
    /** The driver has cleared a status it has not yet handed back through RDT. */
    ghost var cleared: bool

    ghost predicate Shape() {
      status.Length == RING && length.Length == RING && status != length
      && buffers.Length0 == RING && buffers.Length1 == BUFFER_SIZE
    }

    static function Clamped(n: nat): nat { if n > BUFFER_SIZE then BUFFER_SIZE else n }

    /** The bytes the driver takes from slot i: the length field, clamped to the buffer. */
    ghost function Bytes(i: nat): (s: seq<byte>)
      requires Shape() && i < RING
      reads length, buffers
    {
      seq(Clamped(length[i]), j requires 0 <= j < BUFFER_SIZE reads buffers => buffers[i, j])
    }

    /** Holds at every moment. */
    ghost predicate Safe()
      reads `rdh, `rdt, `written, `delivered, `cleared, status, length, buffers
    {
      var w, d := |written|, |delivered|;
      && Shape()
      && rdh == At(w) && rdt == At(d + 31)
      && d <= w <= d + 31 && (cleared ==> d < w && !Done(status[At(d)]))
      && delivered == written[..d]
      && (forall a :: d <= a < w ==> Bytes(At(a)) == written[a])
      && (forall a :: (if cleared then d + 1 else d) <= a < w ==> Done(status[At(a)]))
      && (forall a :: w <= a < d + RING ==> !Done(status[At(a)]))
    }

    /** Holds between calls of the driver. */
    ghost predicate Valid()
      reads this, status, length, buffers
    {
      Safe() && !cleared && head == At(|delivered|)
    }

    /** The ring set-up of e1000_init. */
    constructor ()
      ensures Valid() && fresh(status) && fresh(length) && fresh(buffers)
      ensures written == [] && delivered == []
    {
      status := new nat[RING](_ => 0);
      length := new nat[RING](_ => 0);
      buffers := new byte[RING, BUFFER_SIZE];
      rdh, rdt, head := 0, RING - 1, 0;
      written, delivered, cleared := [], [], false;
    }

    /** In terms of the registers: done is set exactly from rx_head up to RDH, and no slot the hardware may
        still write, from RDH up to RDT, holds a frame that is waiting. */
    lemma DoneExactly(i: nat)
      requires Valid() && i < RING
      ensures Done(status[i]) <==> Within(i, head, rdh)
      ensures !(Within(i, head, rdh) && Within(i, rdh, rdt))
    {
      var w, d := |written|, |delivered|;
      WithinIs(i, d, w);
      WithinIs(i, w, d + 31);
      Covered(i, d);
      forall a, b | d <= a < w <= b < d + 31 ensures At(a) != At(b) { AtApart(a, b); }
    }

    static lemma Covered(i: nat, d: nat)
      requires i < RING
      ensures exists a :: d <= a < d + RING && At(a) == i
    {
      var a := if i >= At(d) then d + (i - At(d)) else d + (i + RING - At(d));
      assert At(a) == i;
    }

    /** One step of the hardware: while it owns buffers it may write anywhere in them, and may complete the
        frame at RDH with any length field; when RDH reaches RDT it owns none. */
    method HardwareStep()
      requires Safe()
      modifies `rdh, `written, status, length, buffers
      ensures Safe() && old(written) <= written
    {
      if * {
        Scribble();
      } else {
        Complete();
      }
    }

    twostate lemma SameBytes(i: nat)
      requires Shape() && i < RING
      requires length[i] == old(length[i]) && forall j :: 0 <= j < BUFFER_SIZE ==> buffers[i, j] == old(buffers[i, j])
      ensures Bytes(i) == old(Bytes(i))
    {
    }

    method Scribble()
      requires Safe()
      modifies buffers
      ensures Safe()
    {
      hide At;
      var offset: nat, j: nat, b: byte := *, *, *;
      if offset < (rdt + RING - rdh) % RING && j < BUFFER_SIZE {
        ghost var w, d := |written|, |delivered|;
        Distance(w, d + 31);
        AtShift(w, offset);
        buffers[(rdh + offset) % RING, j] := b;
        forall a | d <= a < w ensures Bytes(At(a)) == old(Bytes(At(a))) {
          AtApart(a, w + offset);
          SameBytes(At(a));
        }
      }
    }

    method Complete()
      requires Safe()
      modifies `rdh, `written, status, length
      ensures Safe() && old(written) <= written
    {
      hide At;
      if rdh != rdt {
        var n: nat, s: nat := *, *;
        if Done(s) {
          ghost var w, d := |written|, |delivered|;
          Distance(w, d + 31);
          AtNext(w);
          length[rdh], status[rdh] := n, s;
          written := written + [Bytes(rdh)];
          forall a | d <= a < w ensures Bytes(At(a)) == old(Bytes(At(a))) && At(a) != At(w) {
            AtApart(a, w);
            SameBytes(At(a));
          }
          forall a | w < a < d + RING ensures At(a) != At(w) { AtApart(w, a); }
          rdh := (rdh + 1) % RING;
        }
      }
    }

    /** Any number of steps of the hardware. */
    method Hardware()
      requires Safe()
      modifies `rdh, `written, status, length, buffers
      ensures Safe() && old(written) <= written
    {
      var n: int := *;
      while n > 0
        invariant Safe() && old(written) <= written
      {
        HardwareStep();
        n := n - 1;
      }
    }

    /** e1000_receive_packet. */
    method Receive(buffer: array<byte>) returns (r: int, len: nat)
      requires Valid() && buffer.Length >= BUFFER_SIZE
      modifies this, status, length, buffers, buffer
      ensures Valid() && old(written) <= written
      ensures len <= BUFFER_SIZE
      ensures if r == 0 then delivered == old(delivered) + [buffer[..len]]
              else r == -1 && delivered == old(delivered) && old(|written|) == |delivered|
    {
      hide At, Bytes, Done, Safe;
      len := 0;
      Waits();
      Hardware();
      Waits();
      if !Done(status[head]) {
        return -1, 0;
      }
      ghost var d := |delivered|;
      ghost var frame := written[d];
      Hardware();
      Waits();
      len := length[head];
      if len > BUFFER_SIZE {
        len := BUFFER_SIZE;
      }
      Waiting();
      Copy(buffer, len, frame);
      HandBack();
      r := 0;
    }

    /** The descriptor goes back to the hardware: status, rx_head, RDT. */
    method HandBack()
      requires Valid() && |delivered| < |written|
      modifies this, status, length, buffers
      ensures Valid() && old(written) <= written
      ensures delivered == old(delivered) + [old(written)[old(|delivered|)]]
    {
      hide At, Bytes, Safe, Done;
      Waits();
      Hardware();
      Clear();
      Hardware();
      head := (head + 1) % RING;
      Hardware();
      Return();
    }

    lemma Waits()
      requires Valid()
      ensures Shape() && head < RING && |delivered| <= |written|
      ensures Done(status[head]) <==> |delivered| < |written|
    {
      AtNext(|delivered|);
    }

    /** The slot the driver looks at holds the first frame it has not taken. */
    lemma Waiting()
      requires Valid() && |delivered| < |written|
      ensures head < RING && Bytes(head) == written[|delivered|] && |Bytes(head)| == Clamped(length[head])
      ensures forall k :: 0 <= k < |Bytes(head)| ==> Bytes(head)[k] == buffers[head, k]
    {
    }

    /** memcpy of a frame out of its buffer, the hardware at work between any two bytes. */
    method Copy(buffer: array<byte>, len: nat, ghost frame: seq<byte>)
      requires Valid() && |delivered| < |written| && written[|delivered|] == frame
      requires len == |frame| <= BUFFER_SIZE <= buffer.Length
      modifies `rdh, `written, status, length, buffers, buffer
      ensures Valid() && old(written) <= written
      ensures buffer[..len] == frame
    {
      hide At, Bytes;
      for k := 0 to len
        invariant Valid() && old(written) <= written
        invariant forall j :: 0 <= j < k ==> buffer[j] == frame[j]
      {
        Hardware();
        Waiting();
        buffer[k] := buffers[head, k];
      }
    }

    /** The store to the status of the frame just copied. */
    method Clear()
      requires Valid() && |delivered| < |written|
      modifies `cleared, status
      ensures Safe() && cleared
    {
      ghost var d := |delivered|;
      status[head] := 0;
      cleared := true;
      forall a | d < a < d + RING ensures At(a) != At(d) { AtApart(d, a); }
    }

    /** The store to RDT. */
    method Return()
      requires Safe() && cleared && head == (At(|delivered|) + 1) % RING
      modifies `rdt, `delivered, `cleared
      ensures Valid() && delivered == old(delivered) + [written[|old(delivered)|]]
    {
      ghost var d := |delivered|;
      AtNext(d);
      AtNext(d + 1);
      rdt := (head + RING - 1) % RING;
      delivered := delivered + [written[d]];
      cleared := false;
    }
  }
}
