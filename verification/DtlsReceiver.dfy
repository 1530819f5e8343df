// Receiving: the message buffers, their bitmaps, and the ring that holds them.
module DtlsReceiver {
  import opened Wrappers
  import opened DtlsWire
  import opened DtlsBitmap
  import opened DtlsReassembly

  // An incoming message, possibly not yet assembled: its bytes behind a header, and a
  // bitmap of what has arrived until everything has.
  class HmFragment {
    const typ: byte
    const seqno: int
    const msgLen: nat
    const data: array<byte>
    var reassembly: array?<bv8>
    // The message as far as it has arrived. Bytes that have not are whatever the
    // allocation left in data; here they are zero.
    ghost var view: Slot

    ghost function Repr(): set<object>
      reads this
    {
      {this, data} + if reassembly == null then {} else {reassembly}
    }

    ghost predicate Valid()
      reads this, data, reassembly
    {
      && (reassembly != null ==> (reassembly as object) != (data as object))
      && IsU24(msgLen) && IsU16(seqno)
      && view.typ == typ && view.seqno == seqno && |view.body| == |view.got| == msgLen
      && HeaderInPlace()
      && (reassembly != null ==> Bounded(reassembly[..], msgLen) && !Complete(view))
      && (forall i :: 0 <= i < msgLen ==> view.got[i] == (reassembly == null || Marked(reassembly[..], i)))
      && (forall i :: 0 <= i < msgLen ==> view.body[i] == if view.got[i] then data[HM_HEADER_LENGTH + i] else 0)
    }

    ghost predicate HeaderInPlace()
      requires IsU24(msgLen) && IsU16(seqno)
      reads data
    {
      && data.Length == HM_HEADER_LENGTH + msgLen
      && (var header := HeaderBytes(Header(typ, msgLen, seqno, 0, msgLen));
          forall i :: 0 <= i < HM_HEADER_LENGTH ==> data[i] == header[i])
    }

    constructor (h: Header)
      requires HeaderFits(h)
      ensures Valid() && fresh(Repr())
      ensures view == NewSlot(h) && typ == h.typ && seqno == h.seqno && msgLen == h.msgLen
      ensures if h.msgLen == 0 then reassembly == null else reassembly != null && reassembly.Length == (h.msgLen + 7) / 8
    {
      typ, seqno, msgLen := h.typ, h.seqno, h.msgLen;
      var bytes := new byte[HM_HEADER_LENGTH + h.msgLen];
      var header := HeaderBytes(Header(h.typ, h.msgLen, h.seqno, 0, h.msgLen));
      forall i | 0 <= i < HM_HEADER_LENGTH {
        bytes[i] := header[i];
      }
      data := bytes;
      reassembly := null;
      view := NewSlot(h);
      new;
      if h.msgLen > 0 {
        reassembly := new bv8[BitmaskLength(h.msgLen)](_ => 0);
        ZeroBitmap(reassembly[..]);
        assert !view.got[0];
      }
    }

    lemma ViewMatches()
      requires Valid()
      ensures view.typ == typ && view.seqno == seqno && |view.body| == |view.got| == msgLen
    {
    }

    lemma WholeMessage()
      requires Valid()
      ensures reassembly == null <==> Complete(view)
      ensures reassembly == null ==> data[..] == MessageBytes(Message(typ, seqno, view.body)) && data[HM_HEADER_LENGTH..] == view.body
    {
      if reassembly == null {
        assert data[HM_HEADER_LENGTH..] == view.body;
        assert data[..HM_HEADER_LENGTH] == HeaderBytes(Header(typ, msgLen, seqno, 0, msgLen));
        assert data[..] == data[..HM_HEADER_LENGTH] + data[HM_HEADER_LENGTH..];
      }
    }

    // Mark a range of the body as received. When that was the last of it, the bitmap
    // goes away.
    method Mark(start: nat, end: nat)
      requires reassembly != null && start <= end <= msgLen && Bounded(reassembly[..], msgLen)
      requires !AllMarked(reassembly[..], msgLen)
      modifies this`reassembly, reassembly
      ensures reassembly == null || (reassembly == old(reassembly) && Bounded(reassembly[..], msgLen))
      ensures reassembly == null <==> forall i: nat :: i < msgLen ==> Marked(old(reassembly[..]), i) || start <= i < end
      ensures reassembly != null ==>
        forall i: nat :: Marked(reassembly[..], i) <==> Marked(old(reassembly[..]), i) || start <= i < end
    {
      hide Marked;
      if start < end {
        SetRange(reassembly, start, end);
        var complete := IsComplete(reassembly, msgLen);
        if complete {
          assert forall i: nat :: i < msgLen ==> Marked(reassembly[..], i);
          reassembly := null;
        } else {
          ghost var i: nat :| i < msgLen && !Marked(reassembly[..], i);
          assert !(Marked(old(reassembly[..]), i) || start <= i < end);
        }
      }
    }

    method CopyBody(off: nat, piece: seq<byte>)
      requires IsU24(msgLen) && IsU16(seqno) && HeaderInPlace() && off + |piece| <= msgLen
      modifies data
      ensures HeaderInPlace()
      ensures forall k :: 0 <= k < data.Length ==>
        data[k] == if HM_HEADER_LENGTH + off <= k < HM_HEADER_LENGTH + off + |piece|
                   then piece[k - HM_HEADER_LENGTH - off] else old(data[k])
    {
      forall i | 0 <= i < |piece| {
        data[HM_HEADER_LENGTH + off + i] := piece[i];
      }
    }

    // After the bytes bodyWas and the marks was, a piece has been copied and marked.
    ghost predicate StoredSince(bodyWas: seq<byte>, was: seq<bv8>, off: nat, piece: seq<byte>)
      reads this, data, reassembly
    {
      && IsU24(msgLen) && IsU16(seqno) && HeaderInPlace()
      && data.Length == HM_HEADER_LENGTH + msgLen && |bodyWas| == msgLen && off + |piece| <= msgLen
      && (reassembly != null ==> (reassembly as object) != (data as object) && Bounded(reassembly[..], msgLen))
      && (reassembly == null <==> forall i: nat :: i < msgLen ==> Marked(was, i) || off <= i < off + |piece|)
      && (reassembly != null ==> forall i: nat :: Marked(reassembly[..], i) <==> Marked(was, i) || off <= i < off + |piece|)
      && (forall k :: HM_HEADER_LENGTH <= k < data.Length ==>
            data[k] == if HM_HEADER_LENGTH + off <= k < HM_HEADER_LENGTH + off + |piece|
                       then piece[k - HM_HEADER_LENGTH - off] else bodyWas[k - HM_HEADER_LENGTH])
    }

    lemma StoredIsMerged(v: Slot, bodyWas: seq<byte>, was: seq<bv8>, off: nat, piece: seq<byte>)
      requires v.typ == typ && v.seqno == seqno && |v.body| == |v.got| == msgLen && !Complete(v)
      requires StoredSince(bodyWas, was, off, piece) && off + |piece| <= msgLen && view == Merge(v, off, piece)
      requires forall i :: 0 <= i < msgLen ==> v.got[i] == Marked(was, i) && v.body[i] == if v.got[i] then bodyWas[i] else 0
      ensures Valid()
    {
      hide Marked, Bounded, Complete, Merge, HmFragment.HeaderInPlace;
      MergeUnitesAll(v, off, piece);
      AnyMissing(view);
      forall i | 0 <= i < msgLen ensures view.body[i] == if view.got[i] then data[HM_HEADER_LENGTH + i] else 0 {
        assert view.got[i] <==> v.got[i] || off <= i < off + |piece|;
      }
      if reassembly == null {
        forall i | 0 <= i < msgLen ensures view.got[i] {
          assert Marked(was, i) || off <= i < off + |piece|;
        }
      } else {
        var i: nat :| i < msgLen && !(Marked(was, i) || off <= i < off + |piece|);
        assert !view.got[i];
      }
    }

    // Copy a piece of the body into its place and mark it, unless the message is
    // complete already.
    method Store(off: nat, piece: seq<byte>)
      requires Valid() && off + |piece| <= msgLen
      modifies this`reassembly, this`view, reassembly, data
      ensures Valid()
      ensures reassembly == null || reassembly == old(reassembly)
      ensures view == Merge(old(view), off, piece)
    {
      if reassembly != null {
        hide Marked, Bounded, Complete, Merge, HeaderBytes;
        ghost var was, bodyWas, v := reassembly[..], data[HM_HEADER_LENGTH..], view;
        AnyMissing(v);
        CopyBody(off, piece);
        assert reassembly[..] == was;
        Mark(off, off + |piece|);
        view := Merge(v, off, piece);
        StoredIsMerged(v, bodyWas, was, off, piece);
      }
    }
  }

  lemma MergeUnitesAll(s: Slot, off: nat, piece: seq<byte>)
    requires |s.body| == |s.got| && off + |piece| <= |s.body| && !Complete(s)
    ensures
      var t := Merge(s, off, piece);
      && t.typ == s.typ && t.seqno == s.seqno && |t.body| == |s.body| && |t.got| == |s.got|
      && (forall i :: 0 <= i < |s.got| ==> (t.got[i] <==> s.got[i] || off <= i < off + |piece|))
      && (forall i :: 0 <= i < |s.body| ==> t.body[i] == if off <= i < off + |piece| then piece[i - off] else s.body[i])
  {
  }

  // The receiver: the ring of messages and the number of the next one.
  class Dtls1Receiver {
    const limits: Limits
    var incomingMessages: array<HmFragment?>
    var handshakeReadSeq: int
    var hasMessage: bool
    var hasChangeCipherSpec: bool
    // The record being read; when none is, its plaintext is empty.
    var rrec: Record
    // The abstract queue.
    ghost var queue: Receiver

    // The messages in the ring and their buffers, by the slot they belong to. No object
    // belongs to two slots.
    ghost var owner: map<object, int>

    ghost function Reading(): Reader
      reads this`queue, this`rrec
    {
      Reader(queue, rrec)
    }

    ghost predicate SlotIs(f: HmFragment?, s: Option<Slot>)
      reads if f == null then {} else {f, f.data, f.reassembly}
    {
      if f == null then s.None? else f.Valid() && s == Some(f.view)
    }

    ghost predicate OwnedBy(f: HmFragment, i: int)
      reads this`owner, owner.Keys
    {
      && f in owner && owner[f] == i
      && f.data in owner && owner[f.data] == i
      && (f.reassembly != null ==> f.reassembly in owner && owner[f.reassembly] == i)
    }

    ghost predicate Valid()
      reads this`incomingMessages, this`handshakeReadSeq, this`queue, this`owner, incomingMessages, owner.Keys
    {
      && incomingMessages.Length == MAX_FLIGHT
      && RingInvariant(queue) && queue.readSeq == handshakeReadSeq
      && (forall i :: 0 <= i < MAX_FLIGHT && incomingMessages[i] != null ==> OwnedBy(incomingMessages[i], i))
      && (forall i :: 0 <= i < MAX_FLIGHT ==> SlotIs(incomingMessages[i], queue.slots[i]))
      && (incomingMessages as object) !in owner && (this as object) !in owner
    }

    constructor (limits: Limits)
      ensures Valid() && fresh(incomingMessages) && owner == map[] && queue == EmptyReceiver() && this.limits == limits
      ensures !hasMessage && !hasChangeCipherSpec && Reading() == Reader(EmptyReceiver(), NO_RECORD)
    {
      this.limits := limits;
      incomingMessages := new HmFragment?[MAX_FLIGHT](_ => null);
      handshakeReadSeq, hasMessage, hasChangeCipherSpec, rrec := 0, false, false, NO_RECORD;
      queue, owner := EmptyReceiver(), map[];
    }

    lemma InRing()
      requires Valid()
      ensures RingInvariant(queue) && queue.readSeq == handshakeReadSeq && |queue.slots| == MAX_FLIGHT == incomingMessages.Length
      ensures (this as object) !in owner && (incomingMessages as object) !in owner
    {
    }

    lemma InSlot(i: nat)
      requires Valid() && i < MAX_FLIGHT == |queue.slots|
      ensures SlotIs(incomingMessages[i], queue.slots[i])
      ensures incomingMessages[i] != null ==>
        queue.slots[i].Some? && incomingMessages[i].Valid() && incomingMessages[i].view == queue.slots[i].value
      ensures incomingMessages[i] == null ==> queue.slots[i].None?
    {
    }

    // Put a new message, which owns its buffers, into an empty slot.
    method PutInSlot(i: nat, frag: HmFragment)
      requires Valid() && i < MAX_FLIGHT && frag.Valid() && frag.Repr() !! owner.Keys
      requires (this as object) !in frag.Repr() && (incomingMessages as object) !in frag.Repr()
      requires |queue.slots| == MAX_FLIGHT && RingInvariant(queue.(slots := queue.slots[i := Some(frag.view)]))
      modifies this`queue, this`owner, incomingMessages
      ensures Valid() && owner.Keys == old(owner.Keys) + frag.Repr()
      ensures incomingMessages[i] == frag
      ensures queue == old(queue).(slots := old(queue).slots[i := Some(frag.view)])
    {
      hide HmFragment.Valid, HmFragment.HeaderInPlace, RingInvariant;
      incomingMessages[i] := frag;
      owner := owner + map o | o in frag.Repr() :: i;
      queue := queue.(slots := queue.slots[i := Some(frag.view)]);
    }

    // Start the message of a fragment in its empty slot.
    method StartMessage(h: Header)
      requires Valid() && HeaderFits(h) && !OutsideWindow(queue, h)
      requires queue.slots[h.seqno % MAX_FLIGHT].None?
      modifies this`queue, this`owner, incomingMessages
      ensures Valid() && fresh(owner.Keys - old(owner.Keys))
      ensures incomingMessages[h.seqno % MAX_FLIGHT] != null
      ensures queue == old(queue).(slots := old(queue).slots[h.seqno % MAX_FLIGHT := Some(NewSlot(h))])
    {
      InRing();
      RingKeptByNew(queue, h);
      hide HmFragment.Valid, HmFragment.HeaderInPlace, RingInvariant, NewSlot, Dtls1Receiver.Valid;
      var idx := h.seqno % MAX_FLIGHT;
      var frag := new HmFragment(h);
      PutInSlot(idx, frag);
    }

    // Find the message of a fragment, or start it. None is the error return.
    method GetIncomingMessage(h: Header) returns (frag: HmFragment?)
      requires Valid() && HeaderFits(h)
      modifies this`queue, this`owner, incomingMessages
      ensures Valid() && fresh(owner.Keys - old(owner.Keys))
      ensures
        var i := h.seqno % MAX_FLIGHT;
        if OutsideWindow(old(queue), h) || (old(queue).slots[i].Some? && Mismatch(old(queue).slots[i].value, h))
        then frag == null && queue == old(queue)
        else frag != null && frag == incomingMessages[i]
             && queue == old(queue).(slots := old(queue).slots[i := Some(if old(queue).slots[i].Some? then old(queue).slots[i].value else NewSlot(h))])
    {
      InRing();
      hide Dtls1Receiver.Valid, HmFragment.Valid, HmFragment.HeaderInPlace, RingInvariant, NewSlot;
      frag := null;
      if !(h.seqno < handshakeReadSeq || h.seqno - handshakeReadSeq >= MAX_FLIGHT) {
        var idx := h.seqno % MAX_FLIGHT;
        InSlot(idx);
        if incomingMessages[idx] != null {
          var pending := incomingMessages[idx];
          LookupFindsNumber(queue, h);
          pending.ViewMatches();
          assert pending.seqno == h.seqno;
          if !(pending.typ != h.typ || pending.msgLen != h.msgLen) {
            frag := pending;
          }
        } else {
          StartMessage(h);
          frag := incomingMessages[idx];
        }
      }
    }

    // Store a piece of the message in slot i.
    method StoreInSlot(i: nat, off: nat, piece: seq<byte>)
      requires Valid() && i < MAX_FLIGHT == |queue.slots| && queue.slots[i].Some? && off + |piece| <= |queue.slots[i].value.body|
      modifies this`queue, owner.Keys
      ensures Valid() && owner == old(owner)
      ensures queue == old(queue).(slots := old(queue).slots[i := Some(Merge(old(queue).slots[i].value, off, piece))])
    {
      SlotOfRing(queue, i);
      hide HmFragment.Valid, HmFragment.HeaderInPlace, Complete, Merge, RingInvariant;
      var frag := incomingMessages[i];
      assert SlotIs(frag, queue.slots[i]);
      frag.ViewMatches();
      frag.Store(off, piece);
      RingKeptBySlot(queue, i, frag.view);
      queue := queue.(slots := queue.slots[i := Some(frag.view)]);
    }

    // A fragment of the window: find or start its message, and store the piece.
    method ReadInWindow(h: Header, body: seq<byte>) returns (ok: bool)
      requires Valid() && HeaderFits(h) && |body| == h.fragLen && h.fragOff + h.fragLen <= h.msgLen
      modifies this`queue, this`owner, incomingMessages, owner.Keys
      ensures Valid() && fresh(owner.Keys - old(owner.Keys))
      ensures
        var i, r := h.seqno % MAX_FLIGHT, old(queue);
        if OutsideWindow(r, h) || (r.slots[i].Some? && Mismatch(r.slots[i].value, h)) then !ok && queue == r
        else ok && queue == r.(slots := r.slots[i := Some(Merge(if r.slots[i].Some? then r.slots[i].value else NewSlot(h), h.fragOff, body))])
    {
      hide Dtls1Receiver.Valid, Complete, Merge;
      InRing();
      var frag := GetIncomingMessage(h);
      ok := frag != null;
      if ok {
        InRing();
        ghost var found := queue.slots[h.seqno % MAX_FLIGHT].value;
        StoreInSlot(h.seqno % MAX_FLIGHT, h.fragOff, body);
        assert queue.slots == old(queue).slots[h.seqno % MAX_FLIGHT := Some(Merge(found, h.fragOff, body))];
      }
    }

    // One fragment of a record. The flag says whether reading goes on.
    method ReadFragment(h: Header, body: seq<byte>) returns (ok: bool)
      requires Valid() && HeaderFits(h) && |body| == h.fragLen
      modifies this`queue, this`owner, incomingMessages, owner.Keys
      ensures Valid() && fresh(owner.Keys - old(owner.Keys))
      ensures (queue, ok) == ReceiveFragment(old(queue), h, body, limits)
    {
      hide Dtls1Receiver.Valid, Complete, Merge, NewSlot;
      InRing();
      if h.fragOff > h.msgLen || h.fragOff + h.fragLen > h.msgLen || h.msgLen > limits.maxMessageLen {
        ok := false;
      } else if limits.readEpoch == 1 && h.seqno != handshakeReadSeq {
        ok := false;
      } else if h.seqno < handshakeReadSeq || h.seqno > handshakeReadSeq + MAX_FLIGHT {
        ok := true;
      } else {
        ok := ReadInWindow(h, body);
      }
    }

    // Read the fragments of one handshake record. False is the error return.
    method ReadFragments(record: seq<byte>) returns (ok: bool)
      requires Valid()
      modifies this`queue, this`owner, incomingMessages, owner.Keys
      ensures Valid() && fresh(owner.Keys - old(owner.Keys))
      ensures (queue, ok) == ReceiveRecord(old(queue), record, limits)
    {
      hide RingInvariant, ReceiveFragment, SlotIs;
      var cbs := record;
      while |cbs| > 0
        invariant Valid() && fresh(owner.Keys - old(owner.Keys))
        invariant RingInvariant(queue)
        invariant ReceiveRecord(old(queue), record, limits) == ReceiveRecord(queue, cbs, limits)
        decreases |cbs|
      {
        var p := ParseFragment(cbs);
        if p.None? {
          return false;
        }
        var goesOn := ReadFragment(p.value.header, p.value.body);
        if !goesOn {
          return false;
        }
        cbs := p.value.rest;
      }
      return true;
    }

    // Read a record: the one that a failed call has left, or else the next one. It is left
    // again unless all of it is read without an error.
    method ReadMessage(next: Option<Record>) returns (ok: bool)
      requires Valid()
      modifies this`queue, this`owner, this`rrec, this`hasChangeCipherSpec, incomingMessages, owner.Keys
      ensures Valid() && fresh(owner.Keys - old(owner.Keys))
      ensures (Reading(), ok) == DtlsReassembly.ReadMessage(old(Reading()), next, limits)
      ensures hasChangeCipherSpec == (old(hasChangeCipherSpec) || (ok && rrec.isCcs))
    {
      InRing();
      hide Dtls1Receiver.Valid, RingInvariant, ReadRecord;
      if |rrec.plaintext| == 0 {
        if next.None? {
          return false;
        }
        rrec := next.value;
      }
      ok := ReadCurrent();
      if ok {
        rrec := rrec.(plaintext := []);
      }
    }

    // Read the record that is there.
    method ReadCurrent() returns (ok: bool)
      requires Valid()
      modifies this`queue, this`owner, this`hasChangeCipherSpec, incomingMessages, owner.Keys
      ensures Valid() && fresh(owner.Keys - old(owner.Keys))
      ensures RingInvariant(old(queue)) && (queue, ok) == ReadRecord(old(queue), rrec, limits)
      ensures hasChangeCipherSpec == (old(hasChangeCipherSpec) || (ok && rrec.isCcs))
    {
      InRing();
      hide Dtls1Receiver.Valid, RingInvariant, ReceiveRecord;
      if rrec.isCcs {
        ok := limits.readEpoch == 0 && rrec.plaintext == CCS_BODY;
        hasChangeCipherSpec := hasChangeCipherSpec || ok;
      } else {
        ok := ReadFragments(rrec.plaintext);
      }
    }

    // The current message and its raw bytes, when all of it has arrived.
    method GetCurrentMessage() returns (message: Option<Message>, raw: seq<byte>)
      requires Valid()
      modifies this`hasMessage
      ensures Valid()
      ensures message == GetMessage(queue)
      ensures message.Some? ==> MessageFits(message.value) && raw == MessageBytes(message.value) && hasMessage
      ensures message.None? ==> hasMessage == old(hasMessage)
    {
      var i := handshakeReadSeq % MAX_FLIGHT;
      var frag := incomingMessages[i];
      assert SlotIs(frag, queue.slots[i]);
      raw := [];
      hide RingInvariant, HmFragment.HeaderInPlace, HmFragment.Valid, Complete, MessageBytes;
      if frag != null {
        frag.WholeMessage();
        frag.ViewMatches();
      }
      if frag == null || frag.reassembly != null {
        return None, raw;
      }
      GetMessageIsNext(queue);
      raw := frag.data[..];
      message := Some(Message(frag.typ, frag.seqno, raw[HM_HEADER_LENGTH..]));
      hasMessage := true;
    }

    method NextMessageUp()
      requires Valid() && hasMessage && GetMessage(queue).Some?
      modifies this`queue, this`handshakeReadSeq, this`hasMessage, incomingMessages
      ensures Valid() && !hasMessage
      ensures queue == NextMessage(old(queue))
    {
      NextMessageKeepsRing(queue);
      var index := handshakeReadSeq % MAX_FLIGHT;
      incomingMessages[index] := null;
      handshakeReadSeq := (handshakeReadSeq + 1) % 0x1_0000;
      queue := NextMessage(queue);
      hasMessage := false;
    }
  }

  lemma AnyMissing(s: Slot)
    ensures Complete(s) <==> !exists i :: 0 <= i < |s.got| && !s.got[i]
  {
  }

  lemma ZeroBitmap(bitmap: seq<bv8>)
    requires forall k :: 0 <= k < |bitmap| ==> bitmap[k] == 0
    ensures forall i: nat :: !Marked(bitmap, i)
  {
    forall i: nat ensures !Marked(bitmap, i) {
      if i / 8 < |bitmap| {
        BitOfLow(0, i % 8);
      }
    }
  }
}
