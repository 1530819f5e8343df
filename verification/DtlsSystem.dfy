// The two ends and a network that may drop, duplicate and reorder what is written.
module DtlsSystem {
  import opened Wrappers
  import opened DtlsWire
  import opened DtlsReassembly
  import opened DtlsFlight

  // The messages of the sender by number. One more would let the sixteen-bit counter of
  // the receiver come round to the number of the first.
  const MAX_MESSAGES := 0xffff

  ghost predicate IsHistory(history: seq<Message>) {
    |history| <= MAX_MESSAGES && forall k :: 0 <= k < |history| ==> history[k].seqno == k && MessageFits(history[k])
  }

  // What has arrived of a message agrees with the sender's message of that number.
  ghost predicate Agrees(history: seq<Message>, s: Slot) {
    && 0 <= s.seqno < |history|
    && var m := history[s.seqno];
       s.typ == m.typ && |s.body| == |s.got| == |m.body|
       && forall j :: 0 <= j < |s.got| && s.got[j] ==> s.body[j] == m.body[j]
  }

  ghost predicate RingAgrees(history: seq<Message>, r: Receiver) {
    && RingInvariant(r)
    && forall i :: 0 <= i < MAX_FLIGHT && r.slots[i].Some? ==> Agrees(history, r.slots[i].value)
  }

  // A record with one piece is one fragment.
  lemma RecordOfPiece(r: Receiver, m: Message, off: nat, len: nat, limits: Limits)
    requires RingInvariant(r) && MessageFits(m) && off + len <= |m.body|
    ensures ReceiveRecord(r, PieceBytes(m, off, len), limits) ==
            ReceiveFragment(r, PieceHeader(m, off, len), m.body[off..off + len], limits)
  {
    hide RingInvariant, ReceiveFragment, ParseFragment, FragmentBytes;
    var h, piece := PieceHeader(m, off, len), m.body[off..off + len];
    FragmentRoundTrip(h, piece, []);
    assert FragmentBytes(h, piece) + [] == FragmentBytes(h, piece);
    ReceiveFragmentKeepsRing(r, h, piece, limits);
  }

  // A piece of the sender's message never mismatches what has arrived of it.
  lemma PieceNeverMismatches(history: seq<Message>, r: Receiver, k: nat, off: nat, len: nat)
    requires IsHistory(history) && RingAgrees(history, r) && k < |history| && off + len <= |history[k].body|
    requires !OutsideWindow(r, PieceHeader(history[k], off, len)) && r.slots[k % MAX_FLIGHT].Some?
    ensures r.slots[k % MAX_FLIGHT].value.seqno == k
    ensures !Mismatch(r.slots[k % MAX_FLIGHT].value, PieceHeader(history[k], off, len))
  {
    LookupFindsNumber(r, PieceHeader(history[k], off, len));
  }

  lemma MergeAgrees(history: seq<Message>, s: Slot, off: nat, len: nat)
    requires Agrees(history, s) && off + len <= |s.body|
    ensures Agrees(history, Merge(s, off, history[s.seqno].body[off..off + len]))
  {
    var piece := history[s.seqno].body[off..off + len];
    var t := Merge(s, off, piece);
    forall j | 0 <= j < |t.got| && t.got[j] ensures t.body[j] == history[s.seqno].body[j] {
      MergeUnites(s, off, piece, j);
    }
  }

  lemma PieceKeepsRingAgreeing(history: seq<Message>, r: Receiver, k: nat, off: nat, len: nat, limits: Limits)
    requires IsHistory(history) && RingAgrees(history, r) && k < |history| && off + len <= |history[k].body|
    ensures RingAgrees(history, ReceiveFragment(r, PieceHeader(history[k], off, len), history[k].body[off..off + len], limits).0)
  {
    hide Merge;
    var h, piece := PieceHeader(history[k], off, len), history[k].body[off..off + len];
    ReceiveFragmentKeepsRing(r, h, piece, limits);
    if !OutsideWindow(r, h) {
      var i := k % MAX_FLIGHT;
      if r.slots[i].Some? {
        PieceNeverMismatches(history, r, k, off, len);
        MergeAgrees(history, r.slots[i].value, off, len);
      } else {
        MergeAgrees(history, NewSlot(h), off, len);
      }
    }
  }

  // What the receiver has got of message k, byte by byte.
  ghost predicate Has(r: Receiver, k: nat, j: nat)
    requires RingInvariant(r)
  {
    && r.slots[k % MAX_FLIGHT].Some?
    && var s := r.slots[k % MAX_FLIGHT].value;
       s.seqno == k && j < |s.got| && s.got[j]
  }

  ghost predicate Started(r: Receiver, k: nat)
    requires RingInvariant(r)
  {
    r.slots[k % MAX_FLIGHT].Some? && r.slots[k % MAX_FLIGHT].value.seqno == k
  }

  // The receiver takes pieces of message k.
  predicate Accepts(readSeq: int, k: nat, m: Message, limits: Limits) {
    && readSeq <= k < readSeq + MAX_FLIGHT && |m.body| <= limits.maxMessageLen
    && (limits.readEpoch == 1 ==> k == readSeq)
  }

  // Reading a piece adds exactly what it carries, if its message is accepted, and
  // otherwise nothing.
  lemma PieceAdds(history: seq<Message>, r: Receiver, k: nat, off: nat, len: nat, limits: Limits, k': nat, j: nat)
    requires IsHistory(history) && RingAgrees(history, r) && k < |history| && off + len <= |history[k].body|
    ensures
      var t := ReceiveFragment(r, PieceHeader(history[k], off, len), history[k].body[off..off + len], limits).0;
      && RingInvariant(t) && t.readSeq == r.readSeq
      && (Has(t, k', j) <==> Has(r, k', j) || (k' == k && off <= j < off + len && Accepts(r.readSeq, k, history[k], limits)))
      && (Started(t, k') <==> Started(r, k') || (k' == k && Accepts(r.readSeq, k, history[k], limits)))
  {
    hide Merge;
    var h, piece := PieceHeader(history[k], off, len), history[k].body[off..off + len];
    ReceiveFragmentKeepsRing(r, h, piece, limits);
    if Accepts(r.readSeq, k, history[k], limits) {
      var i := k % MAX_FLIGHT;
      if r.slots[i].Some? {
        PieceNeverMismatches(history, r, k, off, len);
      }
      var s := if r.slots[i].Some? then r.slots[i].value else NewSlot(h);
      if j < |s.got| {
        MergeUnites(s, off, piece, j);
      }
    }
  }

  ghost predicate Carries(history: seq<Message>, rec: Record, k: nat, j: nat) {
    !rec.isCcs && exists off: nat, len: nat :: IsPiece(history, rec.plaintext, k, off, len) && off <= j < off + len
  }

  ghost predicate CarriesAny(history: seq<Message>, rec: Record, k: nat) {
    !rec.isCcs && exists off: nat, len: nat :: IsPiece(history, rec.plaintext, k, off, len)
  }

  lemma RingOf(history: seq<Message>, r: Receiver)
    requires RingAgrees(history, r)
    ensures RingInvariant(r) && r.readSeq >= 0
  {
  }

  lemma RecordKeepsRingAgreeing(history: seq<Message>, r: Receiver, rec: Record, limits: Limits)
    requires IsHistory(history) && RingAgrees(history, r) && Genuine(history, rec)
    ensures RingInvariant(r)
    ensures RingAgrees(history, ReadRecord(r, rec, limits).0)
    ensures ReadRecord(r, rec, limits).0.readSeq == r.readSeq
  {
    RingOf(history, r);
    hide RingAgrees, PieceBytes, ReceiveFragment, ReceiveRecord;
    if !rec.isCcs {
      var k: nat, off: nat, len: nat :| IsPiece(history, rec.plaintext, k, off, len);
      ReceiveRecordKeepsRing(r, rec.plaintext, limits);
      RecordOfPiece(r, history[k], off, len, limits);
      PieceKeepsRingAgreeing(history, r, k, off, len, limits);
    }
  }

  // The pieces of message k are refused with an error: it is too long, or not the one
  // message of the encrypted epoch, or exactly one window ahead.
  predicate Refused(readSeq: int, k: nat, m: Message, limits: Limits) {
    |m.body| > limits.maxMessageLen || (limits.readEpoch == 1 && k != readSeq) || k == readSeq + MAX_FLIGHT
  }

  lemma PieceFails(history: seq<Message>, r: Receiver, k: nat, off: nat, len: nat, limits: Limits)
    requires IsHistory(history) && RingAgrees(history, r) && k < |history| && off + len <= |history[k].body|
    ensures
      var t := ReceiveFragment(r, PieceHeader(history[k], off, len), history[k].body[off..off + len], limits);
      if Refused(r.readSeq, k, history[k], limits) then t == (r, false) else t.1
  {
    hide Merge;
    var h := PieceHeader(history[k], off, len);
    if !OutsideWindow(r, h) && r.slots[k % MAX_FLIGHT].Some? {
      PieceNeverMismatches(history, r, k, off, len);
    }
  }

  // Reading a record fails.
  ghost predicate Fails(history: seq<Message>, readSeq: int, rec: Record, limits: Limits) {
    if rec.isCcs then limits.readEpoch != 0 else
    exists k: nat, off: nat, len: nat :: IsPiece(history, rec.plaintext, k, off, len) && Refused(readSeq, k, history[k], limits)
  }

  // Of the records of the sender, reading fails exactly on those of a message that is
  // refused, and on a ChangeCipherSpec among encrypted records. It then changes nothing.
  lemma GenuineFails(history: seq<Message>, r: Receiver, rec: Record, limits: Limits)
    requires IsHistory(history) && RingAgrees(history, r) && Genuine(history, rec)
    ensures RingInvariant(r)
    ensures if Fails(history, r.readSeq, rec, limits) then ReadRecord(r, rec, limits) == (r, false) else ReadRecord(r, rec, limits).1
  {
    RingOf(history, r);
    hide RingAgrees, PieceBytes, ReceiveFragment, ReceiveRecord, Refused;
    if !rec.isCcs {
      var k: nat, off: nat, len: nat :| IsPiece(history, rec.plaintext, k, off, len);
      RecordOfPiece(r, history[k], off, len, limits);
      PieceFails(history, r, k, off, len, limits);
      if Fails(history, r.readSeq, rec, limits) {
        var k': nat, off': nat, len': nat :| IsPiece(history, rec.plaintext, k', off', len') && Refused(r.readSeq, k', history[k'], limits);
        RecordOfPiece(r, history[k'], off', len', limits);
        PieceFails(history, r, k', off', len', limits);
      }
    }
  }

  // Reading a genuine record adds exactly the bytes it carries, if its message is
  // accepted.
  lemma RecordAdds(history: seq<Message>, r: Receiver, rec: Record, limits: Limits, k: nat, j: nat)
    requires IsHistory(history) && RingAgrees(history, r) && Genuine(history, rec) && k < |history|
    ensures
      var t := ReadRecord(r, rec, limits).0;
      && RingInvariant(t) && t.readSeq == r.readSeq
      && (Has(t, k, j) <==> Has(r, k, j) || (Carries(history, rec, k, j) && Accepts(r.readSeq, k, history[k], limits)))
      && (Started(t, k) <==> Started(r, k) || (CarriesAny(history, rec, k) && Accepts(r.readSeq, k, history[k], limits)))
  {
    RingOf(history, r);
    hide RingAgrees, PieceBytes, ReceiveFragment, ReceiveRecord, Has, Started, Accepts;
    if !rec.isCcs {
      var k0: nat, off0: nat, len0: nat :| IsPiece(history, rec.plaintext, k0, off0, len0);
      RecordOfPiece(r, history[k0], off0, len0, limits);
      PieceAdds(history, r, k0, off0, len0, limits, k, j);
    }
    if CarriesAny(history, rec, k) {
      var off: nat, len: nat :| IsPiece(history, rec.plaintext, k, off, len);
      RecordOfPiece(r, history[k], off, len, limits);
      PieceAdds(history, r, k, off, len, limits, k, j);
    }
    if Carries(history, rec, k, j) {
      var off: nat, len: nat :| IsPiece(history, rec.plaintext, k, off, len) && off <= j < off + len;
      RecordOfPiece(r, history[k], off, len, limits);
      PieceAdds(history, r, k, off, len, limits, k, j);
    }
  }

  ghost predicate AllGenuine(history: seq<Message>, recs: seq<Record>) {
    forall i :: 0 <= i < |recs| ==> Genuine(history, recs[i])
  }

  // The current message is handed up exactly when all of it is there, and it is the
  // sender's.
  lemma HandedUpIsTheSenders(history: seq<Message>, r: Receiver)
    requires IsHistory(history) && RingAgrees(history, r) && r.readSeq < |history|
    ensures
      var k := r.readSeq;
      if Started(r, k) && forall j: nat :: j < |history[k].body| ==> Has(r, k, j)
      then GetMessage(r) == Some(history[k]) else GetMessage(r).None?
  {
    var k := r.readSeq;
    var slot := r.slots[k % MAX_FLIGHT];
    if slot.Some? {
      SameSlot(slot.value.seqno, k);
      var s := slot.value;
      assert (forall j: nat :: j < |s.got| ==> Has(r, k, j)) <==> Complete(s) by {
        assert forall j: nat :: j < |s.got| ==> (Has(r, k, j) <==> s.got[j]);
      }
      if Complete(s) {
        assert s.body == history[k].body;
      }
    }
  }

  // The queue agrees with the sender, and a record left unread is one of the sender's.
  ghost predicate ReaderAgrees(history: seq<Message>, q: Reader) {
    && RingAgrees(history, q.queue)
    && (q.record.plaintext != [] ==> Genuine(history, q.record))
  }

  lemma RingOfReader(history: seq<Message>, q: Reader)
    requires ReaderAgrees(history, q)
    ensures RingInvariant(q.queue) && q.queue.readSeq >= 0
  {
  }

  lemma CallKeepsReaderAgreeing(history: seq<Message>, q: Reader, next: Option<Record>, limits: Limits)
    requires IsHistory(history) && ReaderAgrees(history, q) && (next.Some? ==> Genuine(history, next.value))
    ensures RingInvariant(q.queue)
    ensures ReaderAgrees(history, ReadMessage(q, next, limits).0)
    ensures ReadMessage(q, next, limits).0.queue.readSeq == q.queue.readSeq
  {
    RingOf(history, q.queue);
    hide RingAgrees, Genuine, ReadRecord, IsHistory;
    if q.record.plaintext != [] {
      RecordKeepsRingAgreeing(history, q.queue, q.record, limits);
    } else if next.Some? {
      RecordKeepsRingAgreeing(history, q.queue, next.value, limits);
    }
  }

  // Runs: what may happen at either end. The network keeps every record ever written,
  // and has any of them for the receiver when it reads, or none.
  datatype Event =
    | Added(m: Message)
    | Wrote(rec: Record)
    | Read(next: Option<nat>)
    | HandedUp

  datatype System = System(history: seq<Message>, wire: seq<Record>, receiver: Reader, delivered: seq<Message>)

  function Start(): System { System([], [], Reader(EmptyReceiver(), NO_RECORD), []) }

  ghost predicate Possible(s: System, e: Event)
    requires RingInvariant(s.receiver.queue)
  {
    match e
    case Added(m) => |s.history| < MAX_MESSAGES && m.seqno == |s.history| && MessageFits(m)
    case Wrote(rec) => Genuine(s.history, rec)
    case Read(next) => next.Some? ==> next.value < |s.wire|
    case HandedUp => GetMessage(s.receiver.queue).Some?
  }

  ghost function After(s: System, e: Event, limits: Limits): System
    requires RingInvariant(s.receiver.queue) && Possible(s, e)
  {
    match e
    case Added(m) => s.(history := s.history + [m])
    case Wrote(rec) => s.(wire := s.wire + [rec])
    case Read(next) =>
      var rec := if next.Some? then Some(s.wire[next.value]) else None;
      s.(receiver := ReadMessage(s.receiver, rec, limits).0)
    case HandedUp =>
      s.(receiver := s.receiver.(queue := NextMessage(s.receiver.queue)), delivered := s.delivered + [GetMessage(s.receiver.queue).value])
  }

  // The states of a run, each reached from the one before.
  ghost predicate IsRun(run: seq<System>, limits: Limits) {
    && run != [] && run[0] == Start()
    && forall n :: 0 <= n < |run| - 1 ==> Follows(run[n], run[n + 1], limits)
  }

  ghost predicate Follows(s: System, t: System, limits: Limits) {
    RingInvariant(s.receiver.queue) && exists e :: Possible(s, e) && t == After(s, e, limits)
  }

  ghost predicate Safe(s: System) {
    && IsHistory(s.history) && AllGenuine(s.history, s.wire) && ReaderAgrees(s.history, s.receiver)
    && s.delivered <= s.history && s.receiver.queue.readSeq == |s.delivered|
  }

  lemma AgreesLater(history: seq<Message>, m: Message, q: Reader)
    requires ReaderAgrees(history, q)
    ensures ReaderAgrees(history + [m], q)
  {
    hide Genuine;
    if q.record.plaintext != [] {
      GenuineLater(history, m, q.record);
    }
  }

  // Handing up the current message: it is the next one of the sender.
  lemma HandingUpIsSafe(s: System)
    requires Safe(s) && RingInvariant(s.receiver.queue) && GetMessage(s.receiver.queue).Some?
    ensures |s.delivered| < |s.history| && GetMessage(s.receiver.queue) == Some(s.history[|s.delivered|])
    ensures RingAgrees(s.history, NextMessage(s.receiver.queue))
    ensures NextMessage(s.receiver.queue).readSeq == |s.delivered| + 1
  {
    GetMessageIsNext(s.receiver.queue);
    NextMessageKeepsRing(s.receiver.queue);
    HandedUpIsTheSenders(s.history, s.receiver.queue);
  }

  lemma StepIsSafe(s: System, e: Event, limits: Limits)
    requires Safe(s)
    ensures RingInvariant(s.receiver.queue)
    ensures Possible(s, e) ==> Safe(After(s, e, limits))
  {
    RingOfReader(s.history, s.receiver);
    if Possible(s, e) {
      match e
      case Added(m) =>
        hide RingAgrees, Genuine, MessageFits;
        AllGenuineLater(s.history, m, s.wire);
        AgreesLater(s.history, m, s.receiver);
      case Wrote(rec) =>
        hide RingAgrees, Genuine;
      case Read(next) =>
        hide ReaderAgrees, Genuine;
        CallKeepsReaderAgreeing(s.history, s.receiver, if next.Some? then Some(s.wire[next.value]) else None, limits);
      case HandedUp =>
        HandingUpIsSafe(s);
        hide RingAgrees, Genuine, GetMessage;
    }
  }

  // In every state of every run, what has been handed up is what the sender made, each
  // message once and in order; and a run never stops for want of the ring's invariant.
  lemma {:induction false} RunIsSafe(run: seq<System>, limits: Limits)
    requires IsRun(run, limits)
    ensures forall n :: 0 <= n < |run| ==> Safe(run[n]) && run[n].delivered <= run[n].history
    decreases |run|
  {
    hide Safe, Follows, Start;
    var last := |run| - 1;
    if last == 0 {
      StartIsSafe();
    } else {
      var before := run[..last];
      RunIsSafe(before, limits);
      assert Safe(before[last - 1]);
      assert Follows(run[last - 1], run[last], limits);
      FollowsIsSafe(run[last - 1], run[last], limits);
    }
    SafePrefix(run[last]);
  }

  lemma StartIsSafe()
    ensures Safe(Start())
  {
  }

  lemma FollowsIsSafe(s: System, t: System, limits: Limits)
    requires Safe(s) && Follows(s, t, limits)
    ensures Safe(t)
  {
    hide Safe, Possible, After;
    var e :| Possible(s, e) && t == After(s, e, limits);
    StepIsSafe(s, e, limits);
  }

  lemma SafePrefix(s: System)
    requires Safe(s)
    ensures s.delivered <= s.history
  {
  }
}
