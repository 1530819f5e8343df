// A sender and a receiver at the two ends of a bad network, as their methods are called.
module DtlsSession {
  import opened Wrappers
  import opened DtlsWire
  import opened DtlsReassembly
  import opened DtlsFlight
  import opened DtlsSender
  import opened DtlsReceiver
  import opened DtlsSystem
  import opened DtlsDelivery

  // What the sending application does.
  datatype Saying =
    | Say(typ: byte, body: seq<byte>)
    | ChangeCipherSpec
    | Flush
    | Retransmit
    | SetMtu(mtu: nat)

  // What happens, in any order: the sender acts, the network hands over any record ever
  // written, or the receiving application asks for the next message.
  datatype Action = Speak(saying: Saying) | Carry(i: nat) | Listen

  datatype Delivery = Delivery(message: Message, raw: seq<byte>)

  // Everything handed up is the sender's, with its raw bytes, once each and in order.
  ghost predicate Faithful(history: seq<Message>, delivered: seq<Delivery>) {
    && |delivered| <= |history|
    && forall i :: 0 <= i < |delivered| ==>
         MessageFits(history[i]) && delivered[i] == Delivery(history[i], MessageBytes(history[i]))
  }

  // The messages said, how many there are in the flight, and whether it is complete.
  datatype Talk = Talk(said: seq<Message>, flight: nat, complete: bool)

  predicate HasRoomForMore(t: Talk) { t.complete || t.flight < MAX_FLIGHT }

  // A message is refused when its body is too long, the flight is full, or the numbers
  // are used up. All others are said in order and numbered.
  function SayNext(t: Talk, saying: Saying): Talk {
    match saying
    case Say(typ, body) =>
      if |t.said| < MAX_MESSAGES && IsU24(|body|) && HasRoomForMore(t)
      then Talk(t.said + [Message(typ, |t.said|, body)], if t.complete then 1 else t.flight + 1, false) else t
    case ChangeCipherSpec =>
      if HasRoomForMore(t) then Talk(t.said, if t.complete then 1 else t.flight + 1, false) else t
    case Flush => t.(complete := true)
    case Retransmit => t
    case SetMtu(_) => t
  }

  function TalkOf(plan: seq<Action>): Talk {
    if plan == [] then Talk([], 0, false) else
    var before, last := TalkOf(plan[..|plan| - 1]), plan[|plan| - 1];
    if last.Speak? then SayNext(before, last.saying) else before
  }

  // What the receiver has read, and what it has handed up.
  datatype Hearing = Hearing(reader: Reader, delivered: seq<Message>)

  // Carrying is one call to read, of the record that is asked for if it was ever written;
  // listening hands up the current message if all of it has come. Speaking is not heard.
  ghost function HearNext(h: Hearing, action: Action, network: seq<Record>, limits: Limits): Hearing {
    if !RingInvariant(h.reader.queue) then h else
    match action
    case Speak(_) => h
    case Carry(i) => h.(reader := ReadMessage(h.reader, if i < |network| then Some(network[i]) else None, limits).0)
    case Listen =>
      var message := GetMessage(h.reader.queue);
      if message.None? then h else
      Hearing(h.reader.(queue := NextMessage(h.reader.queue)), h.delivered + [message.value])
  }

  // The n-th action meets the n-th of these networks.
  ghost function HearingOf(plan: seq<Action>, networks: seq<seq<Record>>, limits: Limits): Hearing
    requires |networks| >= |plan|
  {
    if plan == [] then Hearing(Reader(EmptyReceiver(), NO_RECORD), []) else
    var last := |plan| - 1;
    HearNext(HearingOf(plan[..last], networks, limits), plan[last], networks[last], limits)
  }

  lemma HearingNext(plan: seq<Action>, networks: seq<seq<Record>>, network: seq<Record>, n: nat, limits: Limits)
    requires n < |plan| && |networks| == n
    ensures HearingOf(plan[..n + 1], networks + [network], limits) == HearNext(HearingOf(plan[..n], networks, limits), plan[n], network, limits)
  {
    assert plan[..n + 1][..n] == plan[..n];
    HearingOfMore(plan[..n], networks, network, limits);
    hide HearNext;
  }

  lemma {:induction false} HearingOfMore(plan: seq<Action>, networks: seq<seq<Record>>, network: seq<Record>, limits: Limits)
    requires |networks| >= |plan|
    ensures HearingOf(plan, networks + [network], limits) == HearingOf(plan, networks, limits)
  {
    hide HearNext;
    if plan != [] {
      HearingOfMore(plan[..|plan| - 1], networks, network, limits);
    }
  }

  function MessagesIn(delivered: seq<Delivery>): (r: seq<Message>)
    ensures |r| == |delivered|
  {
    seq(|delivered|, i requires 0 <= i < |delivered| => delivered[i].message)
  }

  // Where the receiver has got to after a plan, over networks that only grow.
  ghost predicate Heard(plan: seq<Action>, networks: seq<seq<Record>>, limits: Limits, q: Reader, delivered: seq<Delivery>) {
    && |networks| == |plan| && HearingOf(plan, networks, limits) == Hearing(q, MessagesIn(delivered))
    && forall n :: 0 < n < |networks| ==> networks[n - 1] <= networks[n]
  }

  lemma HeardNext(plan: seq<Action>, n: nat, networks: seq<seq<Record>>, network: seq<Record>, limits: Limits, q: Reader,
                  delivered: seq<Delivery>, next: Reader, heard: Option<Delivery>)
    requires n < |plan| && Heard(plan[..n], networks, limits, q, delivered) && (n > 0 ==> networks[n - 1] <= network)
    requires HearNext(Hearing(q, MessagesIn(delivered)), plan[n], network, limits)
             == Hearing(next, MessagesIn(delivered) + if heard.Some? then [heard.value.message] else [])
    ensures Heard(plan[..n + 1], networks + [network], limits, next, delivered + if heard.Some? then [heard.value] else [])
  {
    HearingNext(plan, networks, network, n, limits);
    hide HearNext, HearingOf;
    assert MessagesIn(delivered + if heard.Some? then [heard.value] else [])
           == MessagesIn(delivered) + if heard.Some? then [heard.value.message] else [];
  }

  lemma HistoryAgreesLater(history: seq<Message>, later: seq<Message>, q: Reader)
    requires ReaderAgrees(history, q) && history <= later
    ensures ReaderAgrees(later, q)
  {
    hide PieceBytes;
    if q.record.plaintext != [] && !q.record.isCcs {
      var k: nat, off: nat, len: nat :| IsPiece(history, q.record.plaintext, k, off, len);
      assert IsPiece(later, q.record.plaintext, k, off, len);
    }
  }

  // The sender is where its talk has led.
  ghost predicate IsTalk(sender: DtlsSender, t: Talk)
    reads sender`history, sender`outgoingMessages, sender`outgoingMessagesComplete
  {
    t == Talk(sender.history, |sender.outgoingMessages|, sender.outgoingMessagesComplete)
  }

  lemma HistoryNext(said: seq<Message>, typ: byte, body: seq<byte>)
    requires IsHistory(said) && |said| < MAX_MESSAGES && IsU24(|body|)
    ensures IsHistory(said + [Message(typ, |said|, body)])
  {
  }

  method SpeakTo(sender: DtlsSender, saying: Saying, noQueryMtu: bool, said: seq<Message>, ghost talk: Talk)
    returns (more: seq<Message>, written: seq<Record>)
    requires sender.Valid() && IsHistory(sender.history) && said == sender.history && IsTalk(sender, talk)
    modifies sender
    ensures sender.Valid() && IsHistory(sender.history) && more == sender.history
    ensures IsTalk(sender, SayNext(talk, saying)) && said <= more
    ensures sender.wire == old(sender.wire) + written
  {
    hide DtlsSender.Valid, IsHistory, MessageBytes, DtlsSender.AllWritten, AdvancedBy, PacketsFrom, DtlsSender.PacketsFull,
      DtlsSender.SealsSucceed, DtlsSender.StuckAt, DtlsSender.UnknownEpochAt, DtlsSender.WrittenOnce;
    more, written := said, [];
    match saying
    case Say(typ, body) =>
      if |said| < MAX_MESSAGES {
        var ok := sender.AddMessage(typ, body);
        if ok {
          HistoryNext(said, typ, body);
          more := said + [Message(typ, |said|, body)];
        }
      }
    case ChangeCipherSpec =>
      var ok := sender.AddChangeCipherSpec();
    case Flush =>
      ghost var lost;
      var result;
      result, written, lost := sender.FlushFlight(noQueryMtu);
    case Retransmit =>
      ghost var lost;
      var result;
      result, written, lost := sender.RetransmitOutgoingMessages(noQueryMtu);
    case SetMtu(mtu) =>
      var ok := sender.SetMtu(mtu);
  }

  method ReadAt(receiver: Dtls1Receiver, next: Option<Record>, ghost history: seq<Message>)
    requires receiver.Valid() && IsHistory(history) && ReaderAgrees(history, receiver.Reading())
    requires next.Some? ==> Genuine(history, next.value)
    modifies receiver, receiver.incomingMessages, receiver.owner.Keys
    ensures receiver.Valid() && ReaderAgrees(history, receiver.Reading())
    ensures receiver.queue.readSeq == old(receiver.queue.readSeq) && receiver.incomingMessages == old(receiver.incomingMessages)
    ensures fresh(receiver.owner.Keys - old(receiver.owner.Keys))
    ensures RingInvariant(old(receiver.queue)) && receiver.Reading() == ReadMessage(old(receiver.Reading()), next, receiver.limits).0
  {
    receiver.InRing();
    hide Dtls1Receiver.Valid, ReaderAgrees, Genuine, IsHistory, ReadRecord;
    CallKeepsReaderAgreeing(history, receiver.Reading(), next, receiver.limits);
    var ok := receiver.ReadMessage(next);
  }

  method ListenTo(receiver: Dtls1Receiver, ghost history: seq<Message>) returns (heard: Option<Delivery>)
    requires receiver.Valid() && IsHistory(history) && ReaderAgrees(history, receiver.Reading()) && receiver.queue.readSeq <= |history|
    modifies receiver, receiver.incomingMessages
    ensures receiver.Valid() && ReaderAgrees(history, receiver.Reading())
    ensures receiver.incomingMessages == old(receiver.incomingMessages) && receiver.owner == old(receiver.owner)
    ensures heard.None? ==> receiver.queue == old(receiver.queue)
    ensures heard.Some? ==>
      var k := old(receiver.queue.readSeq);
      && 0 <= k < |history| && MessageFits(history[k]) && heard.value == Delivery(history[k], MessageBytes(history[k]))
      && receiver.queue.readSeq == k + 1
    ensures
      && RingInvariant(old(receiver.queue)) && (heard.Some? <==> GetMessage(old(receiver.queue)).Some?)
      && (heard.Some? ==> GetMessage(old(receiver.queue)) == Some(heard.value.message))
      && receiver.Reading() == if heard.None? then old(receiver.Reading()) else old(receiver.Reading()).(queue := NextMessage(old(receiver.queue)))
  {
    receiver.InRing();
    hide Dtls1Receiver.Valid, IsHistory, GetMessage, MessageBytes, Genuine;
    var message, raw := receiver.GetCurrentMessage();
    heard := None;
    if message.Some? {
      heard := Some(Delivery(message.value, raw));
      NextIsTheSenders(history, receiver.queue);
      hide RingAgrees;
      receiver.NextMessageUp();
    }
  }

  lemma NextIsTheSenders(history: seq<Message>, r: Receiver)
    requires IsHistory(history) && RingAgrees(history, r) && r.readSeq <= |history| && GetMessage(r).Some?
    ensures r.readSeq < |history| && GetMessage(r) == Some(history[r.readSeq]) && MessageFits(history[r.readSeq])
    ensures RingAgrees(history, NextMessage(r)) && NextMessage(r).readSeq == r.readSeq + 1
  {
    hide MessageBytes;
    GetMessageIsNext(r);
    NextMessageKeepsRing(r);
    HandedUpIsTheSenders(history, r);
  }

  lemma TalkNext(plan: seq<Action>, n: nat)
    requires n < |plan|
    ensures
      var before := TalkOf(plan[..n]);
      TalkOf(plan[..n + 1]) == if plan[n].Speak? then SayNext(before, plan[n].saying) else before
  {
    assert plan[..n + 1][..n] == plan[..n];
  }

  lemma StillFaithful(before: seq<Message>, said: seq<Message>, delivered: seq<Delivery>)
    requires Faithful(before, delivered) && before <= said
    ensures Faithful(said, delivered)
  {
    hide MessageBytes, MessageFits;
  }

  lemma FaithfulNext(said: seq<Message>, delivered: seq<Delivery>, heard: Delivery)
    requires Faithful(said, delivered) && |delivered| < |said| && MessageFits(said[|delivered|])
    requires heard == Delivery(said[|delivered|], MessageBytes(said[|delivered|]))
    ensures Faithful(said, delivered + [heard])
  {
    hide MessageBytes, MessageFits;
  }

  lemma TalkIsHistory(sender: DtlsSender, t: Talk)
    requires IsTalk(sender, t)
    ensures t.said == sender.history
  {
  }

  lemma NothingYet(sender: DtlsSender)
    requires sender.history == [] && sender.outgoingMessages == [] && !sender.outgoingMessagesComplete
    ensures IsTalk(sender, Talk([], 0, false))
  {
  }

  lemma SpeakingIsNotHeard(q: Reader, done: seq<Message>, action: Action, network: seq<Record>, limits: Limits)
    requires action.Speak?
    ensures HearNext(Hearing(q, done), action, network, limits) == Hearing(q, done + [])
  {
    assert done + [] == done;
  }

  lemma CarryingIsReading(q: Reader, done: seq<Message>, i: nat, network: seq<Record>, limits: Limits)
    requires RingInvariant(q.queue)
    ensures
      HearNext(Hearing(q, done), Carry(i), network, limits)
      == Hearing(ReadMessage(q, if i < |network| then Some(network[i]) else None, limits).0, done + [])
  {
    hide RingInvariant, ReadMessage;
    assert done + [] == done;
  }

  lemma ListeningHandsUp(q: Reader, done: seq<Message>, network: seq<Record>, limits: Limits)
    requires RingInvariant(q.queue)
    ensures
      var message := GetMessage(q.queue);
      HearNext(Hearing(q, done), Listen, network, limits) ==
      if message.None? then Hearing(q, done + []) else Hearing(q.(queue := NextMessage(q.queue)), done + [message.value])
  {
    hide RingInvariant, GetMessage, NextMessage;
    assert done + [] == done;
  }

  lemma SameReading(receiver: Dtls1Receiver, q: Reader)
    requires receiver.Reading() == q
    ensures receiver.queue == q.queue
  {
  }

  // One action, at whichever end it happens.
  method Act(sender: DtlsSender, receiver: Dtls1Receiver, action: Action, noQueryMtu: bool, said: seq<Message>, network: seq<Record>,
             ghost talk: Talk, ghost done: seq<Message>)
    returns (more: seq<Message>, written: seq<Record>, heard: Option<Delivery>)
    requires sender.Valid() && receiver.Valid() && sender !in receiver.owner
    requires IsHistory(said) && said == sender.history && network == sender.wire && IsTalk(sender, talk)
    requires ReaderAgrees(said, receiver.Reading()) && receiver.queue.readSeq <= |said|
    modifies sender, receiver, receiver.incomingMessages, receiver.owner.Keys
    ensures sender.Valid() && receiver.Valid() && sender !in receiver.owner
    ensures receiver.incomingMessages == old(receiver.incomingMessages) && fresh(receiver.owner.Keys - old(receiver.owner.Keys))
    ensures IsHistory(more) && more == sender.history && network + written == sender.wire
    ensures ReaderAgrees(more, receiver.Reading())
    ensures IsTalk(sender, if action.Speak? then SayNext(talk, action.saying) else talk) && said <= more
    ensures
      HearNext(Hearing(old(receiver.Reading()), done), action, network, receiver.limits)
      == Hearing(receiver.Reading(), done + if heard.Some? then [heard.value.message] else [])
    ensures
      var k := old(receiver.queue.readSeq);
      if heard.None? then receiver.queue.readSeq == k else
      && 0 <= k < |said| && more == said && MessageFits(said[k]) && heard.value == Delivery(said[k], MessageBytes(said[k]))
      && receiver.queue.readSeq == k + 1
  {
    hide *;
    more, written, heard := said, [], None;
    ghost var was := receiver.Reading();
    SameReading(receiver, was);
    match action
    case Speak(saying) =>
      more, written := SpeakTo(sender, saying, noQueryMtu, said, talk);
      HistoryAgreesLater(said, more, receiver.Reading());
      SpeakingIsNotHeard(was, done, action, network, receiver.limits);
    case Carry(i) =>
      if i < |network| {
        sender.WireIsGenuine(i);
      }
      ReadAt(receiver, if i < |network| then Some(network[i]) else None, said);
      CarryingIsReading(was, done, i, network, receiver.limits);
    case Listen =>
      heard := ListenTo(receiver, said);
      ListeningHandsUp(was, done, network, receiver.limits);
  }

  // Any course of events, with any answers from outside: what the sender says is what it
  // was told to say and could, and what the receiver hands up is the first of that, as much
  // as the records that it read have made complete. The networks say what had been written
  // when each action came.
  method Session(current: Sealing, previous: Sealing, mtu: nat, outside: Outside, noQueryMtu: bool, limits: Limits, plan: seq<Action>)
    returns (said: seq<Message>, delivered: seq<Delivery>, ghost networks: seq<seq<Record>>)
    requires current.prefix <= current.overhead && previous.prefix <= previous.overhead
    ensures said == TalkOf(plan).said && Faithful(said, delivered)
    ensures exists q :: Heard(plan, networks, limits, q, delivered)
  {
    hide *;
    Beginning(plan, limits);
    networks := [];
    var sender := new DtlsSender(current, previous, mtu, outside);
    var receiver := new Dtls1Receiver(limits);
    var network: seq<Record> := [];
    said, delivered := [], [];
    NothingYet(sender);
    for n := 0 to |plan|
      invariant fresh(sender) && fresh(receiver) && fresh(receiver.incomingMessages) && fresh(receiver.owner.Keys)
      invariant sender.Valid() && receiver.Valid() && sender !in receiver.owner
      invariant IsHistory(said) && said == sender.history && network == sender.wire
      invariant ReaderAgrees(said, receiver.Reading()) && receiver.queue.readSeq == |delivered| <= |said|
      invariant IsTalk(sender, TalkOf(plan[..n])) && Faithful(said, delivered)
      invariant receiver.limits == limits && Heard(plan[..n], networks, limits, receiver.Reading(), delivered)
      invariant |networks| == n && (n > 0 ==> networks[n - 1] <= network)
    {
      ghost var q := receiver.Reading();
      var more, written, heard := Act(sender, receiver, plan[n], noQueryMtu, said, network, TalkOf(plan[..n]), MessagesIn(delivered));
      HeardNext(plan, n, networks, network, limits, q, delivered, receiver.Reading(), heard);
      TalkNext(plan, n);
      StillFaithful(said, more, delivered);
      if heard.Some? {
        FaithfulNext(said, delivered, heard.value);
      } else {
        assert delivered + [] == delivered;
      }
      networks := networks + [network];
      said, network := more, network + written;
      delivered := delivered + if heard.Some? then [heard.value] else [];
    }
    assert plan[..|plan|] == plan;
    assert Heard(plan, networks, limits, receiver.Reading(), delivered);
    TalkIsHistory(sender, TalkOf(plan));
  }

  lemma Beginning(plan: seq<Action>, limits: Limits)
    ensures IsHistory([]) && ReaderAgrees([], Reader(EmptyReceiver(), NO_RECORD)) && EmptyReceiver().readSeq == 0
    ensures TalkOf(plan[..0]) == Talk([], 0, false) && Faithful([], [])
    ensures Heard(plan[..0], [], limits, Reader(EmptyReceiver(), NO_RECORD), [])
  {
    assert plan[..0] == [];
  }

  // The sender has come to the end of its flight and lost nothing of it. A receiver that
  // waits for one of the flight's messages, and reads what was sent among other records of
  // the sender, none of which fails, hands up all the rest of the flight.
  lemma FlushedFlightIsHeard(sender: DtlsSender, q: Reader, supply: seq<Record>, n: nat, limits: Limits)
    requires sender.Valid() && sender.AllWritten() && sender.At() == Cursor(|sender.outgoingMessages|, 0)
    requires IsHistory(sender.history) && ReaderAgrees(sender.history, q)
    requires |sender.history| - |MessagesOf(sender.outgoingMessages)| <= q.queue.readSeq <= |sender.history|
    requires forall s :: s in supply ==> s in sender.wire
    requires (forall s :: s in sender.sent ==> s in Pending(q, supply)) && |Pending(q, supply)| <= n
    requires NoneFails(sender.history, q.queue.readSeq, Pending(q, supply), limits)
    ensures RingInvariant(q.queue) && RingInvariant(Calls(q, supply, n, limits).queue)
    ensures
      HandUp(Calls(q, supply, n, limits).queue, |sender.history| - q.queue.readSeq) == sender.history[q.queue.readSeq..]
    ensures forall i :: 0 <= i < |sender.outgoingMessages| ==>
      var m := AsMessage(sender.outgoingMessages[i]);
      m.Some? && m.value.seqno >= q.queue.readSeq ==> m.value in sender.history[q.queue.readSeq..]
  {
    hide DtlsSender.Valid, DtlsSender.AllWritten, IsHistory, Genuine, ReaderAgrees, NoneFails, Calls, HandUp, Walk, FlightOf, MessagesOf,
      RingInvariant;
    var history, msgs := sender.history, sender.outgoingMessages;
    sender.FlightAtEnd();
    assert AllGenuine(history, supply) by {
      forall i | 0 <= i < |supply| ensures Genuine(history, supply[i]) {
        assert supply[i] in sender.wire;
        var w :| 0 <= w < |sender.wire| && sender.wire[w] == supply[i];
        sender.WireIsGenuine(w);
      }
    }
    hide AllGenuine;
    RingOfReader(history, q);
    FlightArrives(history, msgs, sender.passed, |history| - |MessagesOf(msgs)|, |history|, q, supply, n, limits);
    assert history[q.queue.readSeq..|history|] == history[q.queue.readSeq..];
  }
}
