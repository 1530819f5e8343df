// What the receiver makes of the records that reach it, call by call.
module DtlsDelivery {
  import opened Wrappers
  import opened DtlsWire
  import opened DtlsReassembly
  import opened DtlsFlight
  import opened DtlsSystem

  ghost predicate AnyCarries(history: seq<Message>, recs: seq<Record>, k: nat, j: nat) {
    exists i :: 0 <= i < |recs| && Carries(history, recs[i], k, j)
  }

  ghost predicate AnyCarriesAny(history: seq<Message>, recs: seq<Record>, k: nat) {
    exists i :: 0 <= i < |recs| && CarriesAny(history, recs[i], k)
  }

  ghost predicate NoneFails(history: seq<Message>, readSeq: int, recs: seq<Record>, limits: Limits) {
    forall i :: 0 <= i < |recs| ==> !Fails(history, readSeq, recs[i], limits)
  }

  lemma CarriesFirstOrRest(history: seq<Message>, recs: seq<Record>, k: nat, j: nat)
    requires recs != []
    ensures AnyCarries(history, recs, k, j) <==> Carries(history, recs[0], k, j) || AnyCarries(history, recs[1..], k, j)
    ensures AnyCarriesAny(history, recs, k) <==> CarriesAny(history, recs[0], k) || AnyCarriesAny(history, recs[1..], k)
  {
    hide Carries, CarriesAny;
    assert forall i :: 0 <= i < |recs| - 1 ==> recs[1..][i] == recs[i + 1];
    assert forall i :: 1 <= i < |recs| ==> recs[i] == recs[1..][i - 1];
  }

  // One call to read, while the network has these records to supply.
  ghost function Call(q: Reader, supply: seq<Record>, limits: Limits): (Reader, seq<Record>)
    requires RingInvariant(q.queue)
  {
    var next := if supply == [] then None else Some(supply[0]);
    (ReadMessage(q, next, limits).0, if q.record.plaintext == [] && supply != [] then supply[1..] else supply)
  }

  // Reading n times, whatever becomes of each call.
  ghost function Calls(q: Reader, supply: seq<Record>, n: nat, limits: Limits): Reader
    requires RingInvariant(q.queue)
    decreases n
  {
    if n == 0 then q else
    var t := Call(q, supply, limits);
    ReadMessageKeepsRing(q, if supply == [] then None else Some(supply[0]), limits);
    Calls(t.0, t.1, n - 1, limits)
  }

  // The records yet to be read: one left unread, and those of the network.
  function Pending(q: Reader, supply: seq<Record>): seq<Record> {
    if q.record.plaintext != [] then [q.record] + supply else supply
  }

  // How many of the pending records n calls take in: they stop for good at the first on
  // which reading fails.
  ghost function Taken(history: seq<Message>, readSeq: int, recs: seq<Record>, n: nat, limits: Limits): (c: nat)
    ensures c <= n && c <= |recs| && NoneFails(history, readSeq, recs[..c], limits)
    ensures c < n && c < |recs| ==> Fails(history, readSeq, recs[c], limits)
    decreases n
  {
    hide Fails;
    if n == 0 || recs == [] || Fails(history, readSeq, recs[0], limits) then 0 else
    1 + Taken(history, readSeq, recs[1..], n - 1, limits)
  }

  lemma GenuineIsNotEmpty(history: seq<Message>, rec: Record)
    requires Genuine(history, rec)
    ensures rec.plaintext != []
  {
    if !rec.isCcs {
      var k: nat, off: nat, len: nat :| IsPiece(history, rec.plaintext, k, off, len);
    }
  }

  lemma RingOfQueue(history: seq<Message>, q: Reader)
    requires ReaderAgrees(history, q)
    ensures RingAgrees(history, q.queue)
  {
  }

  // A call reads the first of the pending records, and leaves it pending if that fails.
  lemma CallReadsPending(history: seq<Message>, q: Reader, supply: seq<Record>, limits: Limits)
    requires IsHistory(history) && ReaderAgrees(history, q) && AllGenuine(history, supply)
    ensures RingInvariant(q.queue)
    ensures
      var t, pending := Call(q, supply, limits), Pending(q, supply);
      && ReaderAgrees(history, t.0) && AllGenuine(history, t.1) && t.0.queue.readSeq == q.queue.readSeq
      && (pending == [] ==> t.0.queue == q.queue && Pending(t.0, t.1) == [])
      && (pending != [] ==>
            && Genuine(history, pending[0])
            && t.0.queue == ReadRecord(q.queue, pending[0], limits).0
            && Pending(t.0, t.1) == if Fails(history, q.queue.readSeq, pending[0], limits) then pending else pending[1..])
  {
    RingOfReader(history, q);
    var next := if supply == [] then None else Some(supply[0]);
    CallKeepsReaderAgreeing(history, q, next, limits);
    var pending := Pending(q, supply);
    hide Genuine, Fails, ReadRecord, IsHistory, RingAgrees, RingInvariant;
    if pending != [] {
      RingOfQueue(history, q);
      GenuineIsNotEmpty(history, pending[0]);
      GenuineFails(history, q.queue, pending[0], limits);
    }
  }

  // From r to t the receiver has got exactly what these records carry of an accepted
  // message.
  ghost predicate Adds(history: seq<Message>, r: Receiver, t: Receiver, recs: seq<Record>, limits: Limits, k: nat, j: nat)
    requires RingInvariant(r) && k < |history|
  {
    && RingInvariant(t) && t.readSeq == r.readSeq
    && (Has(t, k, j) <==> Has(r, k, j) || (AnyCarries(history, recs, k, j) && Accepts(r.readSeq, k, history[k], limits)))
    && (Started(t, k) <==> Started(r, k) || (AnyCarriesAny(history, recs, k) && Accepts(r.readSeq, k, history[k], limits)))
  }

  lemma FirstAdds(history: seq<Message>, r: Receiver, r': Receiver, t: Receiver, recs: seq<Record>, limits: Limits, k: nat, j: nat)
    requires IsHistory(history) && RingAgrees(history, r) && k < |history| && RingInvariant(r) && RingInvariant(r')
    requires recs != [] && Genuine(history, recs[0]) && r' == ReadRecord(r, recs[0], limits).0
    requires Adds(history, r', t, recs[1..], limits, k, j)
    ensures Adds(history, r, t, recs, limits, k, j)
  {
    RecordAdds(history, r, recs[0], limits, k, j);
    CarriesFirstOrRest(history, recs, k, j);
    hide RingAgrees, ReadRecord, Has, Started, Accepts, AnyCarries, AnyCarriesAny, Carries, CarriesAny, IsHistory, Genuine;
  }

  // After any number of calls, the receiver has exactly the bytes that it had, or that
  // one of the records carried that were taken in: those before the first that fails.
  // They may come in any order and any number of times over.
  lemma {:induction false} RecordsAdd(history: seq<Message>, q: Reader, supply: seq<Record>, n: nat, limits: Limits, k: nat, j: nat)
    requires IsHistory(history) && ReaderAgrees(history, q) && AllGenuine(history, supply) && k < |history|
    ensures RingInvariant(q.queue)
    ensures
      var recs := Pending(q, supply);
      var taken := recs[..Taken(history, q.queue.readSeq, recs, n, limits)];
      Adds(history, q.queue, Calls(q, supply, n, limits).queue, taken, limits, k, j)
    decreases n
  {
    hide *;
    RingOfReader(history, q);
    var r, recs := q.queue, Pending(q, supply);
    if n == 0 {
      NoCall(history, q, supply, limits, k, j);
    } else {
      var t := Call(q, supply, limits);
      CallReadsPending(history, q, supply, limits);
      RingOfReader(history, t.0);
      OneCall(q, supply, n, limits);
      RecordsAdd(history, t.0, t.1, n - 1, limits, k, j);
      TakenFirst(history, r.readSeq, recs, n, limits);
      if recs != [] {
        RingOfQueue(history, q);
        GenuineFails(history, r, recs[0], limits);
        var c := Taken(history, r.readSeq, recs, n, limits);
        if c > 0 {
          assert recs[..c][1..] == recs[1..][..c - 1] && recs[..c][0] == recs[0];
          FirstAdds(history, r, t.0.queue, Calls(q, supply, n, limits).queue, recs[..c], limits, k, j);
        }
      }
    }
  }

  lemma NoCall(history: seq<Message>, q: Reader, supply: seq<Record>, limits: Limits, k: nat, j: nat)
    requires RingInvariant(q.queue) && k < |history|
    ensures Calls(q, supply, 0, limits) == q && Taken(history, q.queue.readSeq, Pending(q, supply), 0, limits) == 0
    ensures Adds(history, q.queue, q.queue, Pending(q, supply)[..0], limits, k, j)
  {
    NothingCarries(history, k, j);
    hide RingInvariant, Has, Started, Accepts, AnyCarries, AnyCarriesAny;
  }

  lemma OneCall(q: Reader, supply: seq<Record>, n: nat, limits: Limits)
    requires RingInvariant(q.queue) && n > 0
    ensures
      var t := Call(q, supply, limits);
      RingInvariant(t.0.queue) && Calls(q, supply, n, limits) == Calls(t.0, t.1, n - 1, limits)
  {
    ReadMessageKeepsRing(q, if supply == [] then None else Some(supply[0]), limits);
    hide RingInvariant, ReadMessage;
  }

  lemma TakenFirst(history: seq<Message>, readSeq: int, recs: seq<Record>, n: nat, limits: Limits)
    requires n > 0
    ensures recs == [] || Fails(history, readSeq, recs[0], limits) ==>
              Taken(history, readSeq, recs, n, limits) == 0 == Taken(history, readSeq, recs, n - 1, limits)
    ensures recs != [] && !Fails(history, readSeq, recs[0], limits) ==>
              Taken(history, readSeq, recs, n, limits) == 1 + Taken(history, readSeq, recs[1..], n - 1, limits)
  {
    hide Fails;
  }

  lemma NothingCarries(history: seq<Message>, k: nat, j: nat)
    ensures !AnyCarries(history, [], k, j) && !AnyCarriesAny(history, [], k)
  {
  }

  lemma CallsKeepReaderAgreeing(history: seq<Message>, q: Reader, supply: seq<Record>, n: nat, limits: Limits)
    requires IsHistory(history) && ReaderAgrees(history, q) && AllGenuine(history, supply)
    ensures RingInvariant(q.queue)
    ensures var t := Calls(q, supply, n, limits); ReaderAgrees(history, t) && t.queue.readSeq == q.queue.readSeq
    decreases n
  {
    RingOfReader(history, q);
    if n > 0 {
      var t := Call(q, supply, limits);
      CallReadsPending(history, q, supply, limits);
      CallsKeepReaderAgreeing(history, t.0, t.1, n - 1, limits);
    }
  }

  // When reading the first pending record fails, every later call fails on it again, and
  // nothing behind it is ever read.
  lemma {:induction false} ReadingIsStuck(history: seq<Message>, q: Reader, supply: seq<Record>, n: nat, limits: Limits)
    requires IsHistory(history) && ReaderAgrees(history, q) && AllGenuine(history, supply)
    requires Pending(q, supply) != [] && Fails(history, q.queue.readSeq, Pending(q, supply)[0], limits)
    ensures RingInvariant(q.queue) && Calls(q, supply, n, limits).queue == q.queue
    decreases n
  {
    RingOfReader(history, q);
    if n > 0 {
      var t := Call(q, supply, limits);
      CallReadsPending(history, q, supply, limits);
      GenuineFails(history, q.queue, Pending(q, supply)[0], limits);
      ReadingIsStuck(history, t.0, t.1, n - 1, limits);
    }
  }

  // A message of the window whose pieces are taken in is accepted.
  lemma TakenIsAccepted(history: seq<Message>, readSeq: nat, recs: seq<Record>, limits: Limits, k: nat)
    requires NoneFails(history, readSeq, recs, limits) && AnyCarriesAny(history, recs, k) && k < |history|
    ensures k != readSeq + MAX_FLIGHT
    ensures readSeq <= k < readSeq + MAX_FLIGHT ==> Accepts(readSeq, k, history[k], limits)
  {
    hide IsPiece;
    var i :| 0 <= i < |recs| && CarriesAny(history, recs[i], k);
    var off: nat, len: nat :| IsPiece(history, recs[i].plaintext, k, off, len);
    assert !Fails(history, readSeq, recs[i], limits);
  }

  lemma CarriesSome(history: seq<Message>, recs: seq<Record>, k: nat, j: nat)
    requires AnyCarries(history, recs, k, j)
    ensures AnyCarriesAny(history, recs, k)
  {
    hide IsPiece;
    var i :| 0 <= i < |recs| && Carries(history, recs[i], k, j);
    assert CarriesAny(history, recs[i], k);
  }

  // Of a message of the window, what is there is what was there or was carried.
  lemma AddsInWindow(history: seq<Message>, r: Receiver, t: Receiver, recs: seq<Record>, limits: Limits, k: nat, j: nat)
    requires RingInvariant(r) && k < |history| && Adds(history, r, t, recs, limits, k, j) && NoneFails(history, r.readSeq, recs, limits)
    requires 0 <= r.readSeq <= k < r.readSeq + MAX_FLIGHT
    ensures RingInvariant(t) && (Has(t, k, j) <==> Has(r, k, j) || AnyCarries(history, recs, k, j))
    ensures Started(t, k) <==> Started(r, k) || AnyCarriesAny(history, recs, k)
  {
    hide RingInvariant, Has, Started, AnyCarries, AnyCarriesAny, Accepts, NoneFails;
    if AnyCarries(history, recs, k, j) {
      CarriesSome(history, recs, k, j);
    }
    if AnyCarriesAny(history, recs, k) {
      TakenIsAccepted(history, r.readSeq, recs, limits, k);
    }
  }

  // Whatever order the records come in, and however often: after any number of calls the
  // current message is handed up exactly when each of its bytes was there or has been
  // carried by a record taken in.
  lemma MessageArrives(history: seq<Message>, q: Reader, supply: seq<Record>, n: nat, limits: Limits)
    requires IsHistory(history) && ReaderAgrees(history, q) && AllGenuine(history, supply) && q.queue.readSeq < |history|
    ensures RingInvariant(q.queue)
    ensures
      var r, k, t := q.queue, q.queue.readSeq, Calls(q, supply, n, limits).queue;
      var recs := Pending(q, supply);
      var taken := recs[..Taken(history, k, recs, n, limits)];
      && RingInvariant(t)
      && if (Started(r, k) || AnyCarriesAny(history, taken, k))
            && forall j: nat :: j < |history[k].body| ==> Has(r, k, j) || AnyCarries(history, taken, k, j)
         then GetMessage(t) == Some(history[k]) else GetMessage(t).None?
  {
    hide RingInvariant, RingAgrees, ReaderAgrees, Genuine, AllGenuine, IsHistory, Calls, Taken, Adds, Has, Started, AnyCarries,
         AnyCarriesAny, NoneFails, GetMessage;
    RingOfReader(history, q);
    var r, k, t := q.queue, q.queue.readSeq, Calls(q, supply, n, limits).queue;
    var recs := Pending(q, supply);
    var taken := recs[..Taken(history, k, recs, n, limits)];
    CallsKeepReaderAgreeing(history, q, supply, n, limits);
    RingOfQueue(history, Calls(q, supply, n, limits));
    RingOf(history, t);
    forall j: nat
      ensures Has(t, k, j) <==> Has(r, k, j) || AnyCarries(history, taken, k, j)
      ensures Started(t, k) <==> Started(r, k) || AnyCarriesAny(history, taken, k)
    {
      RecordsAdd(history, q, supply, n, limits, k, j);
      AddsInWindow(history, r, t, taken, limits, k, j);
    }
    assert Has(t, k, 0) <==> Has(r, k, 0) || AnyCarries(history, taken, k, 0);
    HandedUpIsTheSenders(history, t);
  }

  // A walk past message i of a flight carries each byte of it, and at least a fragment.
  lemma {:induction false} WalkCarries(history: seq<Message>, msgs: seq<Outgoing>, at: Cursor, recs: seq<Record>, i: nat, j: nat)
    requires FlightOf(history, msgs) && Walk(msgs, at, recs).Some? && i < |msgs| && !msgs[i].isCcs
    requires at.written <= i < Walk(msgs, at, recs).value.written
    ensures
      var k := AsMessage(msgs[i]).value.seqno;
      && AnyCarriesAny(history, recs, k)
      && (j < BodyLength(msgs, i) && (at.written == i ==> at.offset <= j) ==> AnyCarries(history, recs, k, j))
    decreases |recs|
  {
    var next := Step(msgs, at, recs[0]).value;
    StepMovesOn(msgs, at, recs[0]);
    var k := AsMessage(msgs[i]).value.seqno;
    CarriesFirstOrRest(history, recs, k, j);
    if at.written == i {
      StepCarries(history, msgs, at, recs[0], j);
    }
    hide Step, AsMessage, FlightOf, Carries, CarriesAny, AnyCarries, AnyCarriesAny;
    if next.written <= i {
      WalkCarries(history, msgs, next, recs[1..], i, j);
    }
  }

  lemma StepCarries(history: seq<Message>, msgs: seq<Outgoing>, at: Cursor, rec: Record, j: nat)
    requires FlightOf(history, msgs) && Step(msgs, at, rec).Some? && !msgs[at.written].isCcs
    ensures
      var k := AsMessage(msgs[at.written]).value.seqno;
      var next := Step(msgs, at, rec).value;
      && CarriesAny(history, rec, k)
      && (at.offset <= j && j < (if next.written > at.written then BodyLength(msgs, at.written) else next.offset) ==> Carries(history, rec, k, j))
  {
    hide PieceBytes, AsMessage;
    var m := AsMessage(msgs[at.written]).value;
    assert IsPiece(history, rec.plaintext, m.seqno, at.offset, |rec.plaintext| - HM_HEADER_LENGTH);
  }

  // The messages that the receiver hands up one after the other, n of them if so many are
  // complete.
  ghost function HandUp(r: Receiver, n: nat): seq<Message>
    requires RingInvariant(r)
    decreases n
  {
    if n == 0 || GetMessage(r).None? then [] else
    NextMessageKeepsRing(r);
    [GetMessage(r).value] + HandUp(NextMessage(r), n - 1)
  }

  // All of message k is there.
  ghost predicate HasAll(history: seq<Message>, r: Receiver, k: nat)
    requires RingInvariant(r) && k < |history|
  {
    Started(r, k) && forall j: nat :: j < |history[k].body| ==> Has(r, k, j)
  }

  lemma HandingUpKeeps(history: seq<Message>, r: Receiver, k: nat)
    requires IsHistory(history) && RingAgrees(history, r) && r.readSeq < k < |history| && k < r.readSeq + MAX_FLIGHT
    requires HasAll(history, r, k)
    ensures RingInvariant(NextMessage(r)) && HasAll(history, NextMessage(r), k)
  {
    NextMessageKeepsRing(r);
    if r.readSeq % MAX_FLIGHT == k % MAX_FLIGHT {
      SameSlot(k, r.readSeq);
      assert false;
    }
    forall j: nat | j < |history[k].body| ensures Has(NextMessage(r), k, j) {
      assert Has(r, k, j);
    }
  }

  lemma HandingUpAgrees(history: seq<Message>, r: Receiver)
    requires IsHistory(history) && RingAgrees(history, r) && r.readSeq < |history|
    ensures RingAgrees(history, NextMessage(r)) && NextMessage(r).readSeq == r.readSeq + 1
  {
    NextMessageKeepsRing(r);
  }

  // Messages that are all there are handed up, one after the other.
  lemma {:induction false} AllAreHandedUp(history: seq<Message>, r: Receiver, n: nat)
    requires IsHistory(history) && RingAgrees(history, r) && r.readSeq + n <= |history| && n <= MAX_FLIGHT
    requires forall k: nat :: r.readSeq <= k < r.readSeq + n ==> HasAll(history, r, k)
    ensures HandUp(r, n) == history[r.readSeq..r.readSeq + n]
    decreases n
  {
    hide *;
    RingOf(history, r);
    if n == 0 {
      HandUpNone(r);
    } else {
      var k0 := r.readSeq;
      HandUpFirst(history, r, n);
      HandingUpAgrees(history, r);
      forall k: nat | k0 < k < k0 + n ensures HasAll(history, NextMessage(r), k) {
        HandingUpKeeps(history, r, k);
      }
      AllAreHandedUp(history, NextMessage(r), n - 1);
      assert history[k0..k0 + n] == [history[k0]] + history[k0 + 1..k0 + n];
    }
  }

  lemma HandUpNone(r: Receiver)
    requires RingInvariant(r)
    ensures HandUp(r, 0) == []
  {
  }

  lemma HandUpFirst(history: seq<Message>, r: Receiver, n: nat)
    requires IsHistory(history) && RingAgrees(history, r) && n > 0 && RingInvariant(r)
    requires r.readSeq < |history| && HasAll(history, r, r.readSeq)
    ensures RingInvariant(NextMessage(r)) && HandUp(r, n) == [history[r.readSeq]] + HandUp(NextMessage(r), n - 1)
  {
    hide IsHistory, RingAgrees, RingInvariant, GetMessage, NextMessage, Has, Started;
    HandedUpIsTheSenders(history, r);
    NextMessageKeepsRing(r);
  }

  // A message of a flight lies somewhere in it.
  lemma {:induction false} MessageOfFlight(msgs: seq<Outgoing>, x: nat) returns (i: nat)
    requires x < |MessagesOf(msgs)|
    ensures i < |msgs| && !msgs[i].isCcs && AsMessage(msgs[i]) == Some(MessagesOf(msgs)[x])
  {
    hide AsMessage;
    i := |msgs| - 1;
    var before := MessagesOf(msgs[..i]);
    if x < |before| {
      i := MessageOfFlight(msgs[..i], x);
    } else {
      CcsIsNone(msgs[i]);
    }
  }

  lemma CarriesNoCcs(history: seq<Message>, rec: Record, k: nat, j: nat)
    ensures CarriesAny(history, rec, k) || Carries(history, rec, k, j) ==> !rec.isCcs
  {
  }

  lemma TakenCarries(history: seq<Message>, sent: seq<Record>, recs: seq<Record>, k: nat, j: nat)
    requires forall s :: s in sent && !s.isCcs ==> s in recs
    ensures AnyCarriesAny(history, sent, k) ==> AnyCarriesAny(history, recs, k)
    ensures AnyCarries(history, sent, k, j) ==> AnyCarries(history, recs, k, j)
  {
    hide Carries, CarriesAny;
    if AnyCarriesAny(history, sent, k) {
      var i :| 0 <= i < |sent| && CarriesAny(history, sent[i], k);
      CarriesNoCcs(history, sent[i], k, j);
      assert sent[i] in recs;
    }
    if AnyCarries(history, sent, k, j) {
      var i :| 0 <= i < |sent| && Carries(history, sent[i], k, j);
      CarriesNoCcs(history, sent[i], k, j);
      assert sent[i] in recs;
    }
  }

  // And every one of its handshake messages is counted.
  lemma {:induction false} EachOfFlight(msgs: seq<Outgoing>, i: nat)
    requires i < |msgs| && AsMessage(msgs[i]).Some?
    ensures AsMessage(msgs[i]).value in MessagesOf(msgs)
  {
    hide AsMessage;
    var last := |msgs| - 1;
    if i < last {
      EachOfFlight(msgs[..last], i);
    }
  }

  lemma NumberInHistory(history: seq<Message>, first: nat, end: nat, k0: nat, m: Message)
    requires IsHistory(history) && first <= k0 <= end <= |history| && m in history[first..end] && m.seqno >= k0
    ensures m in history[k0..end]
  {
    hide MessageFits;
    var k :| 0 <= k < end - first && history[first..end][k] == m;
    assert history[first + k] == m && first + k == m.seqno;
    assert history[k0..end][m.seqno - k0] == m;
  }

  // The records of a whole flight carry all of each of its messages.
  lemma FlightCarries(history: seq<Message>, msgs: seq<Outgoing>, sent: seq<Record>, first: nat, end: nat, k: nat)
    requires IsHistory(history) && FlightOf(history, msgs) && Walk(msgs, START, sent) == Some(Cursor(|msgs|, 0))
    requires first <= k < end <= |history| && MessagesOf(msgs) == history[first..end]
    ensures AnyCarriesAny(history, sent, k)
    ensures forall j: nat :: j < |history[k].body| ==> AnyCarries(history, sent, k, j)
  {
    hide AsMessage, Walk, AnyCarries, AnyCarriesAny, MessagesOf, FlightOf;
    var i := MessageOfFlight(msgs, k - first);
    assert AsMessage(msgs[i]) == Some(history[k]);
    hide IsHistory;
    WalkCarries(history, msgs, START, sent, i, 0);
    forall j: nat | j < |history[k].body| ensures AnyCarries(history, sent, k, j) {
      WalkCarries(history, msgs, START, sent, i, j);
    }
  }

  // A message of the window that is carried by the pending records, none of which fails,
  // is all there when they have been read.
  lemma CarriedIsThere(history: seq<Message>, q: Reader, supply: seq<Record>, n: nat, limits: Limits, k: nat)
    requires IsHistory(history) && ReaderAgrees(history, q) && AllGenuine(history, supply) && k < |history|
    requires NoneFails(history, q.queue.readSeq, Pending(q, supply), limits) && |Pending(q, supply)| <= n
    requires q.queue.readSeq <= k < q.queue.readSeq + MAX_FLIGHT
    requires AnyCarriesAny(history, Pending(q, supply), k)
    requires forall j: nat :: j < |history[k].body| ==> AnyCarries(history, Pending(q, supply), k, j)
    ensures RingInvariant(q.queue) && RingInvariant(Calls(q, supply, n, limits).queue)
    ensures HasAll(history, Calls(q, supply, n, limits).queue, k)
  {
    hide *;
    RingOfReader(history, q);
    var recs, t := Pending(q, supply), Calls(q, supply, n, limits).queue;
    TakenAll(history, q.queue.readSeq, recs, n, limits);
    RecordsAdd(history, q, supply, n, limits, k, 0);
    AddsInWindow(history, q.queue, t, recs, limits, k, 0);
    forall j: nat | j < |history[k].body| ensures Has(t, k, j) {
      RecordsAdd(history, q, supply, n, limits, k, j);
      AddsInWindow(history, q.queue, t, recs, limits, k, j);
    }
    HasEach(history, t, k);
  }

  lemma HasEach(history: seq<Message>, t: Receiver, k: nat)
    requires RingInvariant(t) && k < |history| && Started(t, k)
    requires forall j: nat :: j < |history[k].body| ==> Has(t, k, j)
    ensures HasAll(history, t, k)
  {
    hide RingInvariant, Started, Has;
  }

  lemma TakenAll(history: seq<Message>, readSeq: int, recs: seq<Record>, n: nat, limits: Limits)
    requires NoneFails(history, readSeq, recs, limits) && |recs| <= n
    ensures recs[..Taken(history, readSeq, recs, n, limits)] == recs
  {
    hide Fails;
  }

  lemma AllIsCarried(history: seq<Message>, msgs: seq<Outgoing>, sent: seq<Record>, first: nat, end: nat, k0: nat, recs: seq<Record>, limits: Limits)
    requires IsHistory(history) && FlightOf(history, msgs) && Walk(msgs, START, sent) == Some(Cursor(|msgs|, 0))
    requires first <= k0 <= end <= |history| && MessagesOf(msgs) == history[first..end]
    requires (forall s :: s in sent && !s.isCcs ==> s in recs) && NoneFails(history, k0, recs, limits)
    ensures end <= k0 + MAX_FLIGHT
    ensures forall k: nat :: k0 <= k < end ==> AnyCarriesAny(history, recs, k)
    ensures forall k: nat, j: nat :: k0 <= k < end && j < |history[k].body| ==> AnyCarries(history, recs, k, j)
  {
    hide *;
    if end > k0 + MAX_FLIGHT {
      FlightCarries(history, msgs, sent, first, end, k0 + MAX_FLIGHT);
      TakenCarries(history, sent, recs, k0 + MAX_FLIGHT, 0);
      TakenIsAccepted(history, k0, recs, limits, k0 + MAX_FLIGHT);
    }
    forall k: nat | k0 <= k < end ensures AnyCarriesAny(history, recs, k) {
      FlightCarries(history, msgs, sent, first, end, k);
      TakenCarries(history, sent, recs, k, 0);
    }
    forall k: nat, j: nat | k0 <= k < end && j < |history[k].body| ensures AnyCarries(history, recs, k, j) {
      FlightCarries(history, msgs, sent, first, end, k);
      TakenCarries(history, sent, recs, k, j);
    }
  }

  // The two ends together: a flight was cut to its end, and its handshake records are among
  // those that the receiver reads, in any order and any number of times over, and none of
  // those fails. Then it hands up all messages of the flight that it has not handed up
  // before, one after the other.
  lemma FlightArrives(history: seq<Message>, msgs: seq<Outgoing>, sent: seq<Record>, first: nat, end: nat,
                      q: Reader, supply: seq<Record>, n: nat, limits: Limits)
    requires IsHistory(history) && ReaderAgrees(history, q) && AllGenuine(history, supply)
    requires FlightOf(history, msgs) && Walk(msgs, START, sent) == Some(Cursor(|msgs|, 0))
    requires first <= q.queue.readSeq <= end <= |history| && MessagesOf(msgs) == history[first..end]
    requires (forall s :: s in sent && !s.isCcs ==> s in Pending(q, supply)) && |Pending(q, supply)| <= n
    requires NoneFails(history, q.queue.readSeq, Pending(q, supply), limits)
    ensures RingInvariant(q.queue) && RingInvariant(Calls(q, supply, n, limits).queue)
    ensures HandUp(Calls(q, supply, n, limits).queue, end - q.queue.readSeq) == history[q.queue.readSeq..end]
    ensures forall i :: 0 <= i < |msgs| && AsMessage(msgs[i]).Some? && AsMessage(msgs[i]).value.seqno >= q.queue.readSeq ==>
      AsMessage(msgs[i]).value in HandUp(Calls(q, supply, n, limits).queue, end - q.queue.readSeq)
  {
    hide *;
    RingOfReader(history, q);
    var k0, t := q.queue.readSeq, Calls(q, supply, n, limits).queue;
    CallsKeepReaderAgreeing(history, q, supply, n, limits);
    RingOf(history, t);
    AllIsCarried(history, msgs, sent, first, end, k0, Pending(q, supply), limits);
    forall k: nat | k0 <= k < end ensures HasAll(history, t, k) {
      CarriedIsThere(history, q, supply, n, limits, k);
    }
    AllAreHandedUp(history, t, end - k0);
    forall i | 0 <= i < |msgs| && AsMessage(msgs[i]).Some? && AsMessage(msgs[i]).value.seqno >= k0
      ensures AsMessage(msgs[i]).value in history[k0..end]
    {
      EachOfFlight(msgs, i);
      NumberInHistory(history, first, end, k0, AsMessage(msgs[i]).value);
    }
  }

  // What the sender says, eight empty messages, and the records of the last and of the
  // first of them, in this order.
  function EightMessages(): (r: seq<Message>)
    ensures |r| == 8 && forall k :: 0 <= k < 8 ==> r[k] == Message(1, k, [])
  {
    seq(8, k => Message(1, k, []))
  }

  function LastAndFirst(): seq<Record> {
    [Record(false, PieceBytes(EightMessages()[7], 0, 0)), Record(false, PieceBytes(EightMessages()[0], 0, 0))]
  }

  // Both are the sender's, and the second is all of the message that a new receiver waits
  // for; but it is never handed up, whatever comes behind and however often the receiver
  // reads.
  lemma LastFirstIsStuck(more: seq<Record>, n: nat, limits: Limits)
    requires AllGenuine(EightMessages(), more)
    ensures
      var history, recs, q := EightMessages(), LastAndFirst() + more, Reader(EmptyReceiver(), NO_RECORD);
      && IsHistory(history) && AllGenuine(history, recs) && ReaderAgrees(history, q)
      && AnyCarriesAny(history, recs, 0) && history[0].body == [] && RingInvariant(q.queue)
      && RingInvariant(Calls(q, recs, n, limits).queue) && GetMessage(Calls(q, recs, n, limits).queue).None?
  {
    var history, recs, q := EightMessages(), LastAndFirst() + more, Reader(EmptyReceiver(), NO_RECORD);
    hide PieceBytes;
    assert IsPiece(history, recs[0].plaintext, 7, 0, 0) && IsPiece(history, recs[1].plaintext, 0, 0, 0);
    assert CarriesAny(history, recs[1], 0);
    assert Fails(history, 0, recs[0], limits);
    ReadingIsStuck(history, q, recs, n, limits);
  }
}
