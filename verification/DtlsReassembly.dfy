// Receiving: the abstract reassembly queue, step by step as the receiver takes them.
module DtlsReassembly {
  import opened Wrappers
  import opened DtlsWire

  // SSL_MAX_HANDSHAKE_FLIGHT
  const MAX_FLIGHT: nat := 7

  // A message being put together: the bytes so far, and which of them have arrived.
  datatype Slot = Slot(typ: byte, seqno: int, body: seq<byte>, got: seq<bool>)

  ghost predicate Complete(s: Slot) { forall i :: 0 <= i < |s.got| ==> s.got[i] }

  function NewSlot(h: Header): (s: Slot)
    requires h.msgLen >= 0
    ensures |s.body| == |s.got| == h.msgLen
  {
    Slot(h.typ, h.seqno, seq(h.msgLen, _ => 0), seq(h.msgLen, _ => false))
  }

  // Put a piece of the body in its place, unless the message is complete already.
  ghost function Merge(s: Slot, off: nat, piece: seq<byte>): (t: Slot)
    requires |s.body| == |s.got| && off + |piece| <= |s.body|
    ensures |t.body| == |t.got| == |s.body| && t.typ == s.typ && t.seqno == s.seqno
  {
    if Complete(s) then s else
    s.(body := s.body[..off] + piece + s.body[off + |piece|..],
       got := s.got[..off] + seq(|piece|, _ => true) + s.got[off + |piece|..])
  }

  // The ring of messages; the next one to hand up is number readSeq.
  datatype Receiver = Receiver(readSeq: int, slots: seq<Option<Slot>>)

  datatype Limits = Limits(maxMessageLen: nat, readEpoch: nat)

  ghost predicate SlotShape(s: Slot) { |s.body| == |s.got| && IsU16(s.seqno) && IsU24(|s.body|) }

  // An occupied slot i holds a message of the current window whose number falls on i.
  ghost predicate RingInvariant(r: Receiver) {
    && |r.slots| == MAX_FLIGHT && IsU16(r.readSeq)
    && forall i :: 0 <= i < MAX_FLIGHT && r.slots[i].Some? ==>
         && SlotShape(r.slots[i].value)
         && r.slots[i].value.seqno % MAX_FLIGHT == i
         && r.readSeq <= r.slots[i].value.seqno < r.readSeq + MAX_FLIGHT
  }

  lemma RingKeptBySlot(r: Receiver, i: nat, s: Slot)
    requires RingInvariant(r) && i < MAX_FLIGHT && r.slots[i].Some? && SlotShape(s)
    requires s.seqno == r.slots[i].value.seqno
    ensures RingInvariant(r.(slots := r.slots[i := Some(s)]))
  {
  }

  lemma SlotOfRing(r: Receiver, i: nat)
    requires RingInvariant(r) && i < MAX_FLIGHT && r.slots[i].Some?
    ensures SlotShape(r.slots[i].value)
  {
  }

  function EmptyReceiver(): Receiver { Receiver(0, seq(MAX_FLIGHT, _ => None)) }

  predicate BadRange(h: Header, limits: Limits) {
    h.fragOff > h.msgLen || h.fragOff + h.fragLen > h.msgLen || h.msgLen > limits.maxMessageLen
  }

  // Fragments this far from the window are skipped without an error. A fragment exactly
  // one window ahead is not skipped: looking up its message fails.
  predicate Skipped(r: Receiver, h: Header) {
    h.seqno < r.readSeq || h.seqno > r.readSeq + MAX_FLIGHT
  }

  predicate OutsideWindow(r: Receiver, h: Header) {
    h.seqno < r.readSeq || h.seqno - r.readSeq >= MAX_FLIGHT
  }

  predicate Mismatch(s: Slot, h: Header) { s.typ != h.typ || |s.body| != h.msgLen }

  lemma RingKeptByNew(r: Receiver, h: Header)
    requires RingInvariant(r) && HeaderFits(h) && !OutsideWindow(r, h)
    ensures RingInvariant(r.(slots := r.slots[h.seqno % MAX_FLIGHT := Some(NewSlot(h))]))
  {
  }

  // One fragment. The flag says whether reading goes on.
  ghost function ReceiveFragment(r: Receiver, h: Header, piece: seq<byte>, limits: Limits): (Receiver, bool)
    requires RingInvariant(r) && HeaderFits(h) && |piece| == h.fragLen
  {
    var i := h.seqno % MAX_FLIGHT;
    if BadRange(h, limits) then (r, false) else
    if limits.readEpoch == 1 && h.seqno != r.readSeq then (r, false) else
    if Skipped(r, h) then (r, true) else
    if OutsideWindow(r, h) then (r, false) else
    if r.slots[i].Some? && Mismatch(r.slots[i].value, h) then (r, false) else
    var s := if r.slots[i].Some? then r.slots[i].value else NewSlot(h);
    (r.(slots := r.slots[i := Some(Merge(s, h.fragOff, piece))]), true)
  }

  lemma ReceiveFragmentKeepsRing(r: Receiver, h: Header, piece: seq<byte>, limits: Limits)
    requires RingInvariant(r) && HeaderFits(h) && |piece| == h.fragLen
    ensures RingInvariant(ReceiveFragment(r, h, piece, limits).0)
    ensures ReceiveFragment(r, h, piece, limits).0.readSeq == r.readSeq
  {
    hide Complete;
  }

  // One record: fragment after fragment.
  ghost function ReceiveRecord(r: Receiver, cbs: seq<byte>, limits: Limits): (Receiver, bool)
    requires RingInvariant(r)
    decreases |cbs|
  {
    if cbs == [] then (r, true) else
    var p := ParseFragment(cbs);
    if p.None? then (r, false) else
    var next := ReceiveFragment(r, p.value.header, p.value.body, limits);
    ReceiveFragmentKeepsRing(r, p.value.header, p.value.body, limits);
    if !next.1 then next else ReceiveRecord(next.0, p.value.rest, limits)
  }

  lemma {:induction false} ReceiveRecordKeepsRing(r: Receiver, cbs: seq<byte>, limits: Limits)
    requires RingInvariant(r)
    ensures RingInvariant(ReceiveRecord(r, cbs, limits).0)
    ensures ReceiveRecord(r, cbs, limits).0.readSeq == r.readSeq
    decreases |cbs|
  {
    hide RingInvariant, ReceiveFragment;
    if cbs != [] && ParseFragment(cbs).Some? {
      var p := ParseFragment(cbs).value;
      ReceiveFragmentKeepsRing(r, p.header, p.body, limits);
      ReceiveRecordKeepsRing(ReceiveFragment(r, p.header, p.body, limits).0, p.rest, limits);
    }
  }

  // One record of either kind. A ChangeCipherSpec passes by the queue; it is an error when
  // records are encrypted, or with another body.
  ghost function ReadRecord(r: Receiver, rec: Record, limits: Limits): (Receiver, bool)
    requires RingInvariant(r)
  {
    if rec.isCcs then (r, limits.readEpoch == 0 && rec.plaintext == CCS_BODY) else ReceiveRecord(r, rec.plaintext, limits)
  }

  // A ChangeCipherSpec changes nothing, and is read exactly if it is the one byte one and
  // records are not encrypted.
  lemma CcsIsRead(r: Receiver, body: seq<byte>, limits: Limits)
    requires RingInvariant(r)
    ensures ReadRecord(r, Record(true, body), limits) == (r, limits.readEpoch == 0 && body == [1])
  {
    hide RingInvariant;
  }

  // The queue, and the record that is being read. When none is its plaintext is empty.
  datatype Reader = Reader(queue: Receiver, record: Record)

  const NO_RECORD := Record(false, [])

  // One call to read. The record that a failed call has left is read again; only
  // otherwise the next one is taken, if the network has one.
  ghost function ReadMessage(q: Reader, next: Option<Record>, limits: Limits): (Reader, bool)
    requires RingInvariant(q.queue)
  {
    var rec := if q.record.plaintext != [] then Some(q.record) else next;
    if rec.None? then (q, false) else
    var t := ReadRecord(q.queue, rec.value, limits);
    (Reader(t.0, if t.1 then rec.value.(plaintext := []) else rec.value), t.1)
  }

  lemma ReadMessageKeepsRing(q: Reader, next: Option<Record>, limits: Limits)
    requires RingInvariant(q.queue)
    ensures RingInvariant(ReadMessage(q, next, limits).0.queue)
    ensures ReadMessage(q, next, limits).0.queue.readSeq == q.queue.readSeq
  {
    hide RingInvariant, ReceiveRecord;
    ReceiveRecordKeepsRing(q.queue, q.record.plaintext, limits);
    if next.Some? {
      ReceiveRecordKeepsRing(q.queue, next.value.plaintext, limits);
    }
  }

  // The current message, when all of it has arrived.
  ghost function GetMessage(r: Receiver): Option<Message>
    requires RingInvariant(r)
  {
    var s := r.slots[r.readSeq % MAX_FLIGHT];
    if s.Some? && Complete(s.value) then Some(Message(s.value.typ, s.value.seqno, s.value.body)) else None
  }

  // Drop the current message and move on; the sixteen-bit counter wraps.
  ghost function NextMessage(r: Receiver): Receiver
    requires RingInvariant(r)
  {
    Receiver((r.readSeq + 1) % 0x1_0000, r.slots[r.readSeq % MAX_FLIGHT := None])
  }

  // The ring invariant survives moving on, even when the counter wraps: at the last
  // number no slot but the current one can be occupied.
  lemma NextMessageKeepsRing(r: Receiver)
    requires RingInvariant(r)
    ensures RingInvariant(NextMessage(r))
  {
    var r' := NextMessage(r);
    forall i | 0 <= i < MAX_FLIGHT && r'.slots[i].Some?
      ensures r'.readSeq <= r'.slots[i].value.seqno < r'.readSeq + MAX_FLIGHT
    {
      assert r.slots[i] == r'.slots[i];
    }
  }

  // The message handed up is the one whose number is next.
  lemma GetMessageIsNext(r: Receiver)
    requires RingInvariant(r) && GetMessage(r).Some?
    ensures GetMessage(r).value.seqno == r.readSeq && MessageFits(GetMessage(r).value)
  {
    var s := r.slots[r.readSeq % MAX_FLIGHT].value.seqno;
    SameSlot(s, r.readSeq);
  }

  lemma SameSlot(s: int, t: int)
    requires 0 <= t <= s < t + MAX_FLIGHT && s % MAX_FLIGHT == t % MAX_FLIGHT
    ensures s == t
  {
  }

  // In a slot reached by number, the message found has that number: the assertion in
  // the lookup never fails.
  lemma LookupFindsNumber(r: Receiver, h: Header)
    requires RingInvariant(r) && IsU16(h.seqno) && !OutsideWindow(r, h)
    requires r.slots[h.seqno % MAX_FLIGHT].Some?
    ensures r.slots[h.seqno % MAX_FLIGHT].value.seqno == h.seqno
  {
    var s := r.slots[h.seqno % MAX_FLIGHT].value.seqno;
    if s <= h.seqno { SameSlot(h.seqno, s); } else { SameSlot(s, h.seqno); }
  }

  // Merging unites the received set with exactly the piece's range, and leaves all
  // other bytes alone.
  lemma MergeUnites(s: Slot, off: nat, piece: seq<byte>, i: nat)
    requires |s.body| == |s.got| && off + |piece| <= |s.body| && i < |s.body|
    ensures
      var t := Merge(s, off, piece);
      && (t.got[i] <==> s.got[i] || off <= i < off + |piece|)
      && t.body[i] == if !Complete(s) && off <= i < off + |piece| then piece[i - off] else s.body[i]
  {
  }

  // A fragment fails to be read exactly when it runs over the end of its message, the
  // message is too long or not the one of the encrypted epoch, it is exactly seven ahead,
  // or it disagrees with what has come of the message before. It then changes nothing. One
  // that is not of the next seven messages changes nothing either.
  lemma FragmentFails(r: Receiver, h: Header, piece: seq<byte>, limits: Limits)
    requires RingInvariant(r) && HeaderFits(h) && |piece| == h.fragLen
    ensures
      var t := ReceiveFragment(r, h, piece, limits);
      && (!t.1 <==>
            || h.fragOff + h.fragLen > h.msgLen || h.msgLen > limits.maxMessageLen
            || (limits.readEpoch == 1 && h.seqno != r.readSeq)
            || h.seqno == r.readSeq + 7
            || exists s :: Some(s) in r.slots && s.seqno == h.seqno && (s.typ != h.typ || |s.body| != h.msgLen))
      && (!t.1 || h.seqno < r.readSeq || h.seqno >= r.readSeq + 7 ==> t.0 == r)
  {
    hide Merge;
    if !OutsideWindow(r, h) {
      var i := h.seqno % MAX_FLIGHT;
      forall s | Some(s) in r.slots && s.seqno == h.seqno ensures r.slots[i] == Some(s) {
        var j :| 0 <= j < |r.slots| && r.slots[j] == Some(s);
      }
      if r.slots[i].Some? {
        LookupFindsNumber(r, h);
        assert r.slots[i] in r.slots;
      }
    } else {
      forall s | Some(s) in r.slots ensures s.seqno != h.seqno {
        var j :| 0 <= j < |r.slots| && r.slots[j] == Some(s);
      }
    }
  }

  // A complete message never changes again, whatever arrives for it.
  lemma CompleteIsFinal(r: Receiver, h: Header, piece: seq<byte>, limits: Limits, k: nat)
    requires RingInvariant(r) && HeaderFits(h) && |piece| == h.fragLen
    requires k < MAX_FLIGHT && r.slots[k].Some? && Complete(r.slots[k].value)
    ensures ReceiveFragment(r, h, piece, limits).0.slots[k] == r.slots[k]
  {
  }

  // The two window tests differ by one: of the fragments outside the window all are
  // skipped, but the one that is exactly a window ahead fails the read. None changes the
  // queue.
  lemma OutsideTheWindow(r: Receiver, h: Header, piece: seq<byte>, limits: Limits)
    requires RingInvariant(r) && HeaderFits(h) && |piece| == h.fragLen && OutsideWindow(r, h)
    requires !BadRange(h, limits) && limits.readEpoch != 1
    ensures ReceiveFragment(r, h, piece, limits) == (r, h.seqno != r.readSeq + MAX_FLIGHT)
  {
  }
}
