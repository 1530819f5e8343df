// Sending: cutting a flight into packets, with failing writes and rewinds.
module DtlsSender {
  import opened Wrappers
  import opened DtlsWire
  import opened DtlsReassembly
  import opened DtlsFlight
  import opened DtlsLoss

  const MIN_MTU: nat := 256 - 28
  const DEFAULT_MTU: nat := 1500 - 28

  // What sealing a record may add, and where the plaintext starts in the output.
  datatype Sealing = Sealing(overhead: nat, prefix: nat)

  datatype SealResult = SealError | SealNoProgress | SealPartial | SealSuccess

  datatype PacketResult = PacketSealed | PacketError | MtuTooSmall

  datatype FlightResult = FlightSent | WriteBlocked | FlushBlocked | SealFailed | MtuFailed

  // A packet given to the transport: its size, the MTU it was cut for, where in the flight
  // it starts and the records in it.
  datatype Packet = Packet(size: nat, mtu: nat, from: Cursor, recs: seq<Record>)

  // The answers of what is outside this model, call by call: sealing a record fails or
  // adds some bytes to it, and the transport answers a number.
  datatype Outside = Outside(seals: nat -> Option<nat>, answers: nat -> int)

  // Room for a fragment header and one byte, with the overhead, and for the prefix.
  predicate FragmentHasRoom(maxOut: nat, s: Sealing) {
    maxOut >= HM_HEADER_LENGTH + 1 + s.overhead && maxOut >= s.prefix
  }

  predicate HasRoom(msg: Outgoing, maxOut: nat, s: Sealing) {
    if msg.isCcs then maxOut >= |CCS_BODY| + s.overhead else FragmentHasRoom(maxOut, s)
  }

  // The most that some records can be when sealed.
  function SizeAtMost(recs: seq<Record>, overhead: nat): nat {
    if recs == [] then 0 else
    SizeAtMost(recs[..|recs| - 1], overhead) + |recs[|recs| - 1].plaintext| + overhead
  }

  lemma SizeAtMostNext(recs: seq<Record>, rec: Record, overhead: nat)
    ensures SizeAtMost(recs + [rec], overhead) == SizeAtMost(recs, overhead) + |rec.plaintext| + overhead
  {
    assert (recs + [rec])[..|recs|] == recs;
  }

  // A position in a flight, and what has become of the records before it.
  ghost predicate Placed(msgs: seq<Outgoing>, at: Cursor, passed: seq<Record>, wrote: seq<bool>, sent: seq<Record>) {
    && |wrote| == |passed| && sent == Kept(passed, wrote)
    && Walk(msgs, START, passed) == Some(at) && WellPlaced(msgs, at)
  }

  // Facts about records for the methods below, which see the flight only through them.
  lemma NoRecords(msgs: seq<Outgoing>, at: Cursor, overhead: nat)
    ensures Walk(msgs, at, []) == Some(at) && All(0, false) == [] && SizeAtMost([], overhead) == 0
  {
  }

  lemma NoRecordsPass(msgs: seq<Outgoing>, at: Cursor, wrote: seq<bool>)
    ensures Walk(msgs, at, []) == Some(at) && wrote + All(0, false) == wrote
  {
  }

  lemma WalkStep(msgs: seq<Outgoing>, passed: seq<Record>, at: Cursor, rec: Record)
    requires Walk(msgs, START, passed) == Some(at) && Step(msgs, at, rec).Some?
    ensures Walk(msgs, START, passed + [rec]) == Step(msgs, at, rec)
  {
    hide Step;
    WalkAppend(msgs, START, passed, [rec]);
  }

  lemma WalkNext(msgs: seq<Outgoing>, from: Cursor, recs: seq<Record>, at: Cursor, rec: Record)
    requires Walk(msgs, from, recs) == Some(at) && Step(msgs, at, rec).Some?
    ensures Walk(msgs, from, recs + [rec]) == Step(msgs, at, rec) && Later(Step(msgs, at, rec).value, from)
  {
    hide Step, Later;
    WalkAppend(msgs, from, recs, [rec]);
    WalkMovesOn(msgs, from, recs + [rec]);
  }

  lemma NothingSent()
    ensures Walk([], START, []) == Some(START) && WellPlaced([], START) && Kept([], []) == [] && NoneLost([], [])
  {
  }

  lemma LaterDiffers(a: Cursor, b: Cursor)
    ensures Later(a, b) ==> a != b
  {
  }

  lemma NotKept(rec: Record)
    ensures Kept([rec], [false]) == []
  {
  }

  lemma AllNext(n: nat, written: bool)
    ensures All(n, written) + [written] == All(n + 1, written)
  {
  }

  // From one position to another some records were written, and then others lost. None
  // were lost exactly if what was written leads all the way.
  ghost predicate AdvancedBy(msgs: seq<Outgoing>, from: Cursor, to: Cursor, passed: seq<Record>, passedTo: seq<Record>,
                             wrote: seq<bool>, wroteTo: seq<bool>, written: seq<Record>, lost: seq<Record>) {
    && passedTo == passed + written + lost
    && wroteTo == wrote + All(|written|, true) + All(|lost|, false)
    && Walk(msgs, from, written + lost) == Some(to)
    && (lost == [] <==> Walk(msgs, from, written) == Some(to))
  }

  lemma NotAdvanced(msgs: seq<Outgoing>, at: Cursor, passed: seq<Record>, wrote: seq<bool>)
    ensures AdvancedBy(msgs, at, at, passed, passed, wrote, wrote, [], [])
  {
    BehindNothing(passed, []);
    BehindNothing(wrote, []);
    var none: seq<Record> := [];
    assert none + none == none;
  }

  lemma AdvancedWriting(msgs: seq<Outgoing>, from: Cursor, at: Cursor, to: Cursor, passed: seq<Record>, passedAt: seq<Record>,
                        wrote: seq<bool>, wroteAt: seq<bool>, written: seq<Record>, recs: seq<Record>)
    requires AdvancedBy(msgs, from, at, passed, passedAt, wrote, wroteAt, written, []) && Walk(msgs, at, recs) == Some(to)
    ensures AdvancedBy(msgs, from, to, passed, passedAt + recs, wrote, wroteAt + All(|recs|, true), written + recs, [])
  {
    hide Walk;
    WalkAppend(msgs, from, written, recs);
    BehindNothing(written, []);
    BehindNothing(written + recs, []);
    assert passed + written + [] + recs == passed + (written + recs) + [];
    assert wrote + All(|written|, true) + All(0, false) + All(|recs|, true) == wrote + All(|written + recs|, true) + All(0, false);
  }

  lemma AdvancedLosing(msgs: seq<Outgoing>, from: Cursor, at: Cursor, to: Cursor, passed: seq<Record>, passedAt: seq<Record>,
                       wrote: seq<bool>, wroteAt: seq<bool>, written: seq<Record>, recs: seq<Record>)
    requires AdvancedBy(msgs, from, at, passed, passedAt, wrote, wroteAt, written, []) && Walk(msgs, at, recs) == Some(to)
    requires recs == [] <==> to == at
    ensures AdvancedBy(msgs, from, to, passed, passedAt + recs, wrote, wroteAt + All(|recs|, false), written, recs)
  {
    hide Walk;
    WalkAppend(msgs, from, written, recs);
    BehindNothing(written, []);
    assert passed + written + [] + recs == passed + written + recs;
    assert wrote + All(|written|, true) + All(0, false) + All(|recs|, false) == wrote + All(|written|, true) + All(|recs|, false);
  }

  // What was written went in packets, the first of them from the given position.
  ghost predicate PacketsFrom(packets: seq<Packet>, packetsTo: seq<Packet>, from: Cursor, written: seq<Record>) {
    && packets <= packetsTo && (written == [] <==> packetsTo == packets)
    && (|packetsTo| > |packets| ==> packetsTo[|packets|].from == from && packetsTo[|packets|].recs <= written)
  }

  lemma NoPackets(packets: seq<Packet>, from: Cursor)
    ensures PacketsFrom(packets, packets, from, [])
  {
  }

  lemma PacketsFromNext(packets: seq<Packet>, packetsAt: seq<Packet>, packetsTo: seq<Packet>, from: Cursor, written: seq<Record>, recs: seq<Record>)
    requires PacketsFrom(packets, packetsAt, from, written) && recs != []
    requires |packetsTo| == |packetsAt| + 1 && packetsAt <= packetsTo && packetsTo[|packetsAt|].recs == recs
    requires written == [] ==> packetsTo[|packetsAt|].from == from
    ensures PacketsFrom(packets, packetsTo, from, written + recs)
  {
    if written == [] {
      assert [] + recs == recs;
    }
  }

  // What was written and then lost, from the start of a flight.
  lemma AfterNone(written: seq<Record>, lost: seq<Record>)
    ensures [] + written + lost == written + lost && written + [] == written
    ensures [] + All(|written|, true) + All(|lost|, false) == All(|written|, true) + All(|lost|, false)
    ensures Kept(written + lost, All(|written|, true) + All(|lost|, false)) == written
    ensures lost == [] ==> NoneLost(written + lost, All(|written|, true) + All(|lost|, false))
  {
    hide *;
    BehindNothing(written, lost);
    BehindNothing(All(|written|, true), All(|lost|, false));
    KeptAppend(written, All(|written|, true), lost, All(|lost|, false));
    KeptAll(written, true);
    KeptAll(lost, false);
    if lost == [] {
      WrittenIsNotLost(written);
    }
  }

  lemma BehindNothing<T>(a: seq<T>, b: seq<T>)
    ensures [] + a + b == a + b && a + [] == a && (b == [] ==> a + b == a)
  {
  }

  lemma WrittenIsNotLost(written: seq<Record>)
    ensures NoneLost(written, All(|written|, true))
  {
  }

  class DtlsSender {
    const current: Sealing
    const previous: Sealing
    const outside: Outside
    // How many records were sealed, and how often the transport was called.
    var sealed: nat
    var asked: nat
    var wEpoch: int
    var mtu: nat
    var handshakeWriteSeq: int
    var outgoingMessages: seq<Outgoing>
    var outgoingWritten: nat
    var outgoingOffset: nat
    var outgoingMessagesComplete: bool

    // Every handshake message ever added, by number.
    ghost var history: seq<Message>
    // The records passed over in this flight, whether each of them was written, and those
    // that were.
    ghost var passed: seq<Record>
    ghost var wrote: seq<bool>
    ghost var sent: seq<Record>
    // Every record, and every packet, ever written.
    ghost var wire: seq<Record>
    ghost var packets: seq<Packet>

    ghost function At(): Cursor
      reads this`outgoingWritten, this`outgoingOffset
    {
      Cursor(outgoingWritten, outgoingOffset)
    }

    // The position is what the records passed over lead to.
    ghost predicate Valid()
      reads this`handshakeWriteSeq, this`outgoingMessages, this`outgoingWritten, this`outgoingOffset
      reads this`history, this`passed, this`wrote, this`sent, this`wire, this`packets
    {
      && current.prefix <= current.overhead && previous.prefix <= previous.overhead
      && |history| <= 0x1_0000 && handshakeWriteSeq == |history| % 0x1_0000
      && (forall k :: 0 <= k < |history| ==> history[k].seqno == k && MessageFits(history[k]))
      && |outgoingMessages| <= MAX_FLIGHT
      && FlightOf(history, outgoingMessages) && Numbered(outgoingMessages) && TailOf(history, outgoingMessages)
      && |wrote| == |passed| && sent == Kept(passed, wrote)
      && Walk(outgoingMessages, START, passed) == Some(At())
      && WellPlaced(outgoingMessages, At())
      && (forall i :: 0 <= i < |wire| ==> Genuine(history, wire[i]))
      && (forall i :: 0 <= i < |packets| ==> packets[i].size <= packets[i].mtu)
    }

    // No handshake record of this flight was passed over without being written.
    ghost predicate AllWritten()
      reads this`passed, this`wrote
      requires |wrote| == |passed|
    {
      NoneLost(passed, wrote)
    }

    constructor (current: Sealing, previous: Sealing, mtu: nat, outside: Outside)
      requires current.prefix <= current.overhead && previous.prefix <= previous.overhead
      ensures Valid() && AllWritten() && history == [] && wire == [] && packets == []
      ensures this.current == current && this.previous == previous && this.mtu == mtu && this.outside == outside
      ensures outgoingMessages == [] && At() == START && passed == [] && wrote == [] && !outgoingMessagesComplete
      ensures sealed == 0 && asked == 0 && wEpoch == 0
    {
      hide AsMessage, FlightOf, Genuine, Walk, WellPlaced, Numbered, TailOf, Kept, NoneLost, DtlsSender.Valid, DtlsSender.AllWritten;
      this.current, this.previous, this.mtu, this.outside := current, previous, mtu, outside;
      sealed, asked, wEpoch, handshakeWriteSeq := 0, 0, 0, 0;
      outgoingMessages, outgoingWritten, outgoingOffset, outgoingMessagesComplete := [], 0, 0, false;
      history, passed, wrote, sent, wire, packets := [], [], [], [], [], [];
      new;
      NewIsValid();
    }

    lemma NewIsValid()
      requires current.prefix <= current.overhead && previous.prefix <= previous.overhead
      requires handshakeWriteSeq == 0 && outgoingMessages == [] && At() == START
      requires history == [] && passed == [] && wrote == [] && sent == [] && wire == [] && packets == []
      ensures Valid() && AllWritten()
    {
      hide AsMessage, FlightOf, Genuine, Walk, WellPlaced, Numbered, TailOf, Kept, NoneLost;
      NoFlight([]);
      NothingSent();
    }

    method ClearOutgoing()
      requires Valid()
      modifies this`outgoingMessages, this`outgoingWritten, this`outgoingOffset, this`outgoingMessagesComplete,
               this`passed, this`wrote, this`sent
      ensures Valid() && passed == [] && AllWritten() && outgoingMessages == [] && At() == START && !outgoingMessagesComplete
    {
      hide AsMessage, FlightOf, Genuine, Walk, WellPlaced, Numbered, TailOf, Kept, NoneLost;
      NoFlight(history);
      NothingSent();
      outgoingMessages, outgoingWritten, outgoingOffset, outgoingMessagesComplete := [], 0, 0, false;
      passed, wrote, sent := [], [], [];
    }

    // Add a message to the flight; a flight that was complete is dropped first.
    method AddOutgoing(msg: Outgoing, ghost m: Option<Message>) returns (ok: bool)
      requires Valid()
      requires msg.isCcs == m.None?
      requires m.Some? ==> |history| < 0x1_0000 && AsMessage(msg) == m && m.value.seqno == |history|
      modifies this`outgoingMessages, this`outgoingWritten, this`outgoingOffset, this`outgoingMessagesComplete,
               this`handshakeWriteSeq, this`history, this`passed, this`wrote, this`sent
      ensures Valid() && (old(AllWritten()) ==> AllWritten())
      ensures ok <==> old(outgoingMessagesComplete) || |old(outgoingMessages)| < MAX_FLIGHT
      ensures ok ==>
        && outgoingMessages == (if old(outgoingMessagesComplete) then [] else old(outgoingMessages)) + [msg]
        && history == old(history) + (if m.Some? then [m.value] else [])
        && !outgoingMessagesComplete
        && (old(outgoingMessagesComplete) ==> At() == START && passed == [])
        && (!old(outgoingMessagesComplete) ==> At() == old(At()) && passed == old(passed) && wrote == old(wrote))
      ensures !ok ==>
        && history == old(history)
        && outgoingMessages == old(outgoingMessages) && outgoingMessagesComplete == old(outgoingMessagesComplete)
    {
      hide AsMessage, FlightOf, Genuine, BodyLength, Numbered, TailOf, Walk, Kept, WellPlaced, NoneLost, DtlsSender.Valid;
      SentIsKept();
      if outgoingMessagesComplete {
        ClearOutgoing();
      }
      ok := |outgoingMessages| < MAX_FLIGHT;
      if ok {
        Append(msg, m);
      }
    }

    // Put a message at the end of the flight; a handshake message takes the next number.
    method Append(msg: Outgoing, ghost m: Option<Message>)
      requires Valid() && |outgoingMessages| < MAX_FLIGHT
      requires msg.isCcs == m.None?
      requires m.Some? ==> |history| < 0x1_0000 && AsMessage(msg) == m && m.value.seqno == |history|
      modifies this`outgoingMessages, this`handshakeWriteSeq, this`history
      ensures Valid() && outgoingMessages == old(outgoingMessages) + [msg]
      ensures history == old(history) + (if m.Some? then [m.value] else [])
    {
      hide AsMessage, FlightOf, Genuine, BodyLength, Numbered, TailOf, Walk, Kept, WellPlaced;
      CcsIsNone(msg);
      NumberedWith(history, outgoingMessages, msg);
      if msg.isCcs {
        FlightOfCcs(history, outgoingMessages, msg);
        TailWithCcs(history, outgoingMessages, msg);
        assert history + [] == history;
      } else {
        MessageOfSize(msg);
        handshakeWriteSeq := (handshakeWriteSeq + 1) % 0x1_0000;
        AllGenuineLater(history, m.value, wire);
        FlightOfMessage(history, outgoingMessages, msg, m.value);
        TailWithMessage(history, outgoingMessages, msg, m.value);
        history := history + [m.value];
      }
      WalkOfLongerFlight(outgoingMessages, msg, START, passed);
      WellPlacedInLonger(outgoingMessages, msg, At());
      outgoingMessages := outgoingMessages + [msg];
    }

    lemma MessageOfSize(msg: Outgoing)
      ensures AsMessage(msg).Some? ==> MessageFits(AsMessage(msg).value)
    {
    }

    // Build a handshake message with the next number and add it. It fails when the body
    // is too long for its length field or the flight is full.
    method AddMessage(typ: byte, body: seq<byte>) returns (ok: bool)
      requires Valid() && |history| < 0x1_0000
      modifies this`outgoingMessages, this`outgoingWritten, this`outgoingOffset, this`outgoingMessagesComplete,
               this`handshakeWriteSeq, this`history, this`passed, this`wrote, this`sent
      ensures Valid() && (old(AllWritten()) ==> AllWritten())
      ensures ok <==> IsU24(|body|) && (old(outgoingMessagesComplete) || |old(outgoingMessages)| < MAX_FLIGHT)
      ensures ok ==>
        && history == old(history) + [Message(typ, |old(history)|, body)]
        && outgoingMessages == (if old(outgoingMessagesComplete) then [] else old(outgoingMessages)) +
                               [Outgoing(MessageBytes(Message(typ, |old(history)|, body)), wEpoch, false)]
        && !outgoingMessagesComplete
        && (if old(outgoingMessagesComplete) then At() == START && passed == []
            else At() == old(At()) && passed == old(passed) && wrote == old(wrote))
      ensures !ok ==>
        && history == old(history)
        && outgoingMessages == old(outgoingMessages) && outgoingMessagesComplete == old(outgoingMessagesComplete)
    {
      hide AsMessage, MessageBytes, NoneLost;
      var data := InitAndFinishMessage(typ, handshakeWriteSeq, body);
      if data.None? {
        return false;
      }
      ghost var m := Message(typ, handshakeWriteSeq, body);
      FinishedMessageIsWhole(typ, handshakeWriteSeq, body);
      WholeMessageIsMessage(m, wEpoch);
      ok := AddOutgoing(Outgoing(data.value, wEpoch, false), Some(m));
    }

    method AddChangeCipherSpec() returns (ok: bool)
      requires Valid()
      modifies this`outgoingMessages, this`outgoingWritten, this`outgoingOffset, this`outgoingMessagesComplete,
               this`handshakeWriteSeq, this`history, this`passed, this`wrote, this`sent
      ensures Valid() && (old(AllWritten()) ==> AllWritten()) && history == old(history)
      ensures ok <==> old(outgoingMessagesComplete) || |old(outgoingMessages)| < MAX_FLIGHT
      ensures ok ==>
        && outgoingMessages == (if old(outgoingMessagesComplete) then [] else old(outgoingMessages)) + [Outgoing([], wEpoch, true)]
        && !outgoingMessagesComplete
        && (if old(outgoingMessagesComplete) then At() == START && passed == []
            else At() == old(At()) && passed == old(passed) && wrote == old(wrote))
      ensures !ok ==> outgoingMessages == old(outgoingMessages) && outgoingMessagesComplete == old(outgoingMessagesComplete)
    {
      hide NoneLost, FlightOf, Numbered, TailOf, Genuine;
      ok := AddOutgoing(Outgoing([], wEpoch, true), None);
    }

    // The sealing parameters of a message's epoch, if it is the current or the one
    // before.
    function SealingOf(msg: Outgoing): Option<Sealing>
      reads this`wEpoch
    {
      if wEpoch >= 1 && msg.epoch == wEpoch - 1 then Some(previous) else
      if msg.epoch == wEpoch then Some(current) else None
    }

    // Seal a record. It is outside this model what comes out, but for its length.
    method SealRecord(length: nat, s: Sealing) returns (out: Option<nat>)
      modifies this`sealed
      ensures sealed == old(sealed) + 1
      ensures out.Some? <==> outside.seals(old(sealed)).Some?
      ensures out.Some? ==> length <= out.value <= length + s.overhead
    {
      var answer := outside.seals(sealed);
      sealed := sealed + 1;
      out := if answer.None? then None else Some(length + if answer.value <= s.overhead then answer.value else s.overhead);
    }

    // Sealing succeeded n times from the given call on.
    ghost predicate SealsSucceed(from: nat, n: nat) {
      forall i :: from <= i < from + n ==> outside.seals(i).Some?
    }

    lemma SealsSucceedNext(from: nat, n: nat, m: nat)
      requires SealsSucceed(from, n) && SealsSucceed(from + n, m)
      ensures SealsSucceed(from, n + m)
    {
    }

    method Ask() returns (answer: int)
      modifies this`asked
      ensures asked == old(asked) + 1 && answer == outside.answers(old(asked))
    {
      answer := outside.answers(asked);
      asked := asked + 1;
    }

    // Seal the next piece of a handshake message: as much of the body as there is room
    // for.
    method SealPiece(m: Message, maxOut: nat, s: Sealing) returns (result: SealResult, outLen: nat, rec: Record)
      requires MessageFits(m) && outgoingOffset <= |m.body| && s.prefix <= s.overhead
      requires outgoingOffset == 0 || outgoingOffset < |m.body|
      modifies this`outgoingOffset, this`sealed
      ensures result.SealError? || result.SealNoProgress? ==> outgoingOffset == old(outgoingOffset)
      ensures result.SealNoProgress? <==> !FragmentHasRoom(maxOut, s)
      ensures result.SealError? <==> FragmentHasRoom(maxOut, s) && outside.seals(old(sealed)).None?
      ensures sealed == old(sealed) + if FragmentHasRoom(maxOut, s) then 1 else 0
      ensures result.SealPartial? || result.SealSuccess? ==>
        && outLen <= maxOut && !rec.isCcs
        && (var left, room := |m.body| - old(outgoingOffset), maxOut - HM_HEADER_LENGTH - s.overhead;
            var len := if left <= room then left else room;
            && rec.plaintext == PieceBytes(m, old(outgoingOffset), len) && (len == 0 ==> m.body == [])
            && |rec.plaintext| <= outLen <= |rec.plaintext| + s.overhead
            && (result.SealSuccess? <==> left <= room)
            && outgoingOffset == if result.SealSuccess? then 0 else old(outgoingOffset) + len)
    {
      hide FragmentBytes;
      outLen, rec := 0, Record(false, []);
      if maxOut < HM_HEADER_LENGTH + 1 + s.overhead || maxOut < s.prefix {
        return SealNoProgress, outLen, rec;
      }
      var todo := |m.body| - outgoingOffset;
      if todo > maxOut - HM_HEADER_LENGTH - s.overhead {
        todo := maxOut - HM_HEADER_LENGTH - s.overhead;
      }
      var frag := PieceBytes(m, outgoingOffset, todo);
      assert |frag| <= maxOut - s.prefix;
      var out := SealRecord(|frag|, s);
      if out.None? {
        return SealError, outLen, rec;
      }
      rec, outLen := Record(false, frag), out.value;
      if todo == |m.body| - outgoingOffset {
        outgoingOffset, result := 0, SealSuccess;
      } else {
        outgoingOffset, result := outgoingOffset + todo, SealPartial;
      }
    }

    // The most that sealing adds to a record of the message at a position.
    function OverheadAt(at: Cursor): nat
      reads this`outgoingMessages, this`wEpoch
    {
      if at.written < |outgoingMessages| && SealingOf(outgoingMessages[at.written]).Some?
      then SealingOf(outgoingMessages[at.written]).value.overhead else 0
    }

    // The message at a position belongs to an epoch that is neither the current nor the
    // one before.
    ghost predicate UnknownEpochAt(at: Cursor)
      reads this`outgoingMessages, this`wEpoch
    {
      at.written < |outgoingMessages| && SealingOf(outgoingMessages[at.written]).None?
    }

    // The given room is too small for anything of the message at a position.
    ghost predicate StuckAt(at: Cursor, room: int)
      reads this`outgoingMessages, this`wEpoch
    {
      && at.written < |outgoingMessages| && 0 <= room
      && var msg := outgoingMessages[at.written];
         SealingOf(msg).Some? && !HasRoom(msg, room, SealingOf(msg).value)
    }

    // A packet that leads to a position and leaves some room is full: it is the last one,
    // or it has room for nothing of the next message, or it ends inside of a message with
    // a record as long as its room allowed.
    ghost predicate FullAt(at: Cursor, room: int)
      reads this`outgoingMessages, this`wEpoch
    {
      || at.written == |outgoingMessages|
      || (at.offset == 0 && StuckAt(at, room))
      || (at.offset > 0 && room <= OverheadAt(at))
    }

    // Seal as much of the next message as fits. It fails only for an unknown epoch or
    // when sealing does.
    method SealNextMessage(maxOut: nat) returns (result: SealResult, outLen: nat, rec: Record)
      requires Valid() && outgoingWritten < |outgoingMessages|
      modifies this`outgoingOffset, this`sealed
      ensures result.SealError? || result.SealNoProgress? ==> outgoingOffset == old(outgoingOffset)
      ensures result.SealNoProgress? <==> StuckAt(old(At()), maxOut)
      ensures result.SealError? <==>
        UnknownEpochAt(old(At())) || (!StuckAt(old(At()), maxOut) && outside.seals(old(sealed)).None?)
      ensures sealed == old(sealed) + if UnknownEpochAt(old(At())) || StuckAt(old(At()), maxOut) then 0 else 1
      ensures result.SealPartial? || result.SealSuccess? ==>
        outLen <= maxOut && outLen <= |rec.plaintext| + OverheadAt(old(At()))
      ensures result.SealPartial? ==>
        && Step(outgoingMessages, old(At()), rec) == Some(At()) && outgoingOffset > 0
        && |rec.plaintext| + OverheadAt(old(At())) == maxOut && outLen >= |rec.plaintext|
      ensures result.SealSuccess? ==>
        outgoingOffset == 0 && Step(outgoingMessages, old(At()), rec) == Some(Cursor(outgoingWritten + 1, 0))
      ensures
        var msg := outgoingMessages[outgoingWritten];
        var s := if msg.epoch == wEpoch then current else previous;
        if msg.epoch != wEpoch && (wEpoch < 1 || msg.epoch != wEpoch - 1) then result.SealError?
        else result.SealNoProgress? <==>
          if msg.isCcs then 1 + s.overhead > maxOut else 12 + 1 + s.overhead > maxOut || s.prefix > maxOut
      ensures (result.SealSuccess? || result.SealPartial?) && outgoingMessages[outgoingWritten].isCcs ==> rec == Record(true, [1])
    {
      hide PieceBytes, Genuine, AsMessage, Numbered, TailOf, Walk;
      result, outLen, rec := SealError, 0, Record(true, []);
      var msg := outgoingMessages[outgoingWritten];
      var sealing := SealingOf(msg);
      if sealing.Some? {
        if msg.isCcs {
          if maxOut < |CCS_BODY| + sealing.value.overhead {
            result := SealNoProgress;
          } else {
            var out := SealRecord(|CCS_BODY|, sealing.value);
            if out.Some? {
              result, outLen, rec := SealSuccess, out.value, Record(true, CCS_BODY);
            }
          }
        } else {
          var parsed := AsMessage(msg);
          if parsed.Some? && outgoingOffset <= |parsed.value.body| {
            result, outLen, rec := SealPiece(parsed.value, maxOut, sealing.value);
          }
        }
      }
    }

    ghost function MaxOverhead(): nat {
      if current.overhead >= previous.overhead then current.overhead else previous.overhead
    }

    // Seal the next record and move on behind it. The record is passed over, not yet
    // written.
    method SealNextRecord(maxOut: nat) returns (result: SealResult, outLen: nat, rec: Record)
      requires Valid() && outgoingWritten < |outgoingMessages|
      modifies this`outgoingWritten, this`outgoingOffset, this`passed, this`wrote, this`sealed
      ensures Valid()
      ensures result.SealNoProgress? <==> StuckAt(old(At()), maxOut)
      ensures result.SealError? <==>
        UnknownEpochAt(old(At())) || (!StuckAt(old(At()), maxOut) && outside.seals(old(sealed)).None?)
      ensures sealed == old(sealed) + if UnknownEpochAt(old(At())) || StuckAt(old(At()), maxOut) then 0 else 1
      ensures result.SealError? || result.SealNoProgress? ==> At() == old(At()) && passed == old(passed) && wrote == old(wrote)
      ensures result.SealPartial? || result.SealSuccess? ==>
        && Step(outgoingMessages, old(At()), rec) == Some(At())
        && passed == old(passed) + [rec] && wrote == old(wrote) + [false]
        && outLen <= maxOut && outLen <= |rec.plaintext| + MaxOverhead()
      ensures result.SealPartial? ==> outgoingOffset > 0 && outgoingWritten == old(outgoingWritten) && FullAt(At(), maxOut - outLen)
      ensures result.SealSuccess? ==> outgoingOffset == 0 && outgoingWritten == old(outgoingWritten) + 1
    {
      hide AsMessage, FlightOf, Genuine, Step, BodyLength, WellPlaced, Numbered, TailOf, HasRoom, Kept;
      ghost var before := At();
      result, outLen, rec := SealNextMessage(maxOut);
      if result.SealSuccess? {
        outgoingWritten := outgoingWritten + 1;
      }
      if result.SealSuccess? || result.SealPartial? {
        StepWellPlaced(outgoingMessages, before, rec);
        WalkStep(outgoingMessages, passed, before, rec);
        KeptAppend(passed, wrote, [rec], [false]);
        NotKept(rec);
        assert sent + [] == sent;
        passed, wrote := passed + [rec], wrote + [false];
      }
    }

    // Fill a packet with as much of the flight as possible. On an error, what was sealed
    // so far is passed over unwritten.
    method SealNextPacket(maxOut: nat) returns (result: PacketResult, outLen: nat, recs: seq<Record>)
      requires Valid() && outgoingWritten < |outgoingMessages|
      modifies this`outgoingWritten, this`outgoingOffset, this`passed, this`wrote, this`sealed
      ensures Valid() && passed == old(passed) + recs && wrote == old(wrote) + All(|recs|, false)
      ensures Walk(outgoingMessages, old(At()), recs) == Some(At())
      ensures recs == [] <==> At() == old(At())
      ensures SealsSucceed(old(sealed), |recs|)
      ensures sealed == old(sealed) + |recs| + if result.PacketError? && !UnknownEpochAt(At()) then 1 else 0
      ensures result.PacketSealed? ==>
        recs != [] && outLen <= maxOut && outLen <= SizeAtMost(recs, MaxOverhead()) && FullAt(At(), maxOut - outLen)
      ensures result.MtuTooSmall? ==> recs == [] && StuckAt(At(), maxOut)
      ensures result.PacketError? ==> UnknownEpochAt(At()) || outside.seals(old(sealed) + |recs|).None?
    {
      hide AsMessage, FlightOf, Genuine, Step, BodyLength, Walk, WellPlaced, Numbered, TailOf, Kept, All, SizeAtMost, NoneLost, Later,
        DtlsSender.Valid, DtlsSender.StuckAt, DtlsSender.FullAt, DtlsSender.UnknownEpochAt, DtlsSender.MaxOverhead;
      var room := maxOut;
      outLen, recs := 0, [];
      result := PacketSealed;
      var full := false;
      NoRecords(outgoingMessages, At(), MaxOverhead());
      assert passed + [] == passed && wrote + All(0, false) == wrote;
      while outgoingWritten < |outgoingMessages| && !full
        invariant Valid() && passed == old(passed) + recs && wrote == old(wrote) + All(|recs|, false)
        invariant Walk(outgoingMessages, old(At()), recs) == Some(At())
        invariant outLen + room == maxOut && outLen <= SizeAtMost(recs, MaxOverhead())
        invariant if recs == [] then At() == old(At()) && room == maxOut else Later(At(), old(At())) && (full || outgoingOffset == 0)
        invariant SealsSucceed(old(sealed), |recs|)
        invariant sealed == old(sealed) + |recs|
        invariant outgoingWritten <= |outgoingMessages|
        invariant full ==> if recs == [] then StuckAt(At(), room) else FullAt(At(), room)
        decreases |outgoingMessages| - outgoingWritten, !full
      {
        ghost var before := At();
        var progress, len, rec := SealNextRecord(room);
        if progress.SealError? {
          LaterDiffers(At(), old(At()));
          return PacketError, outLen, recs;
        }
        if progress.SealNoProgress? {
          full := true;
          StuckIsFull(At(), room);
        } else {
          room, outLen := room - len, outLen + len;
          full := progress.SealPartial?;
          WalkNext(outgoingMessages, old(At()), recs, before, rec);
          SizeAtMostNext(recs, rec, MaxOverhead());
          AllNext(|recs|, false);
          assert old(passed) + recs + [rec] == old(passed) + (recs + [rec]);
          assert old(wrote) + All(|recs|, false) + [false] == old(wrote) + (All(|recs|, false) + [false]);
          recs := recs + [rec];
        }
      }
      LaterDiffers(At(), old(At()));
      if recs == [] {
        result := MtuTooSmall;
      } else {
        EndIsFull(At(), room);
      }
    }

    lemma StuckIsFull(at: Cursor, room: int)
      ensures at.offset == 0 && StuckAt(at, room) ==> FullAt(at, room)
    {
    }

    lemma EndIsFull(at: Cursor, room: int)
      ensures at.written >= |outgoingMessages| && at.written <= |outgoingMessages| ==> FullAt(at, room)
    {
    }

    lemma WireIsGenuine(i: nat)
      requires Valid() && i < |wire|
      ensures Genuine(history, wire[i])
    {
    }

    // The application's choice of MTU; one too small is refused.
    method SetMtu(mtu: nat) returns (ok: bool)
      requires Valid()
      modifies this`mtu
      ensures Valid() && ok == (mtu >= 228) && this.mtu == if ok then mtu else old(this.mtu)
    {
      ok := mtu >= MIN_MTU;
      if ok {
        this.mtu := mtu;
      }
    }

    // Ask the transport for the MTU when the one in use is too small. Afterwards it is
    // large enough unless the application forbade the question.
    method UpdateMtu(noQueryMtu: bool)
      modifies this`mtu, this`asked
      ensures mtu >= 228 <==> !noQueryMtu || old(mtu) >= 228
      ensures old(mtu) >= 228 || noQueryMtu ==> mtu == old(mtu) && asked == old(asked)
      ensures old(mtu) < 228 && !noQueryMtu ==>
        && asked == old(asked) + 1
        && var answer := outside.answers(old(asked));
           mtu == if 228 <= answer <= 0x4000_0000 then answer else 1472
    {
      if mtu < MIN_MTU && !noQueryMtu {
        var answer := Ask();
        mtu := if MIN_MTU <= answer <= 0x4000_0000 then answer else DEFAULT_MTU;
      }
    }

    // A packet of this flight that was written: its records, and that it was full.
    ghost predicate PacketFull(p: Packet)
      reads this`outgoingMessages, this`wEpoch
    {
      var end := Walk(outgoingMessages, p.from, p.recs);
      p.recs != [] && end.Some? && p.size <= p.mtu && p.size <= SizeAtMost(p.recs, MaxOverhead()) && FullAt(end.value, p.mtu - p.size)
    }

    // In numbers: whatever is left of such a packet is too small. Where it ends between two
    // messages, not even one byte of the next one fits, behind a header of twelve and with
    // the most that sealing adds; where it ends inside of one, less than that is left.
    lemma PacketHasNoRoom(p: Packet)
      requires PacketFull(p) && Walk(outgoingMessages, p.from, p.recs).value.written < |outgoingMessages|
      ensures
        var end := Walk(outgoingMessages, p.from, p.recs).value;
        var msg := outgoingMessages[end.written];
        var s := if msg.epoch == wEpoch then current else previous;
        if end.offset > 0 then p.mtu <= p.size + s.overhead
        else if msg.isCcs then p.size + 1 + s.overhead > p.mtu
        else p.size + 12 + 1 + s.overhead > p.mtu || p.size + s.prefix > p.mtu
    {
      hide Walk, SizeAtMost;
    }

    // The packets from the k-th on were cut for an MTU, and full.
    ghost predicate PacketsFull(packets: seq<Packet>, k: nat, mtu: nat)
      reads this`outgoingMessages, this`wEpoch
    {
      forall i :: k <= i < |packets| ==> packets[i].mtu == mtu && PacketFull(packets[i])
    }

    lemma PacketsFullNext(packets: seq<Packet>, later: seq<Packet>, k: nat, mtu: nat)
      requires PacketsFull(packets, k, mtu) && packets <= later && |later| == |packets| + 1
      requires later[|packets|].mtu == mtu && PacketFull(later[|packets|])
      ensures PacketsFull(later, k, mtu)
    {
      hide DtlsSender.PacketFull;
    }

    lemma NothingYet(packets: seq<Packet>, sealed: nat, mtu: nat)
      ensures PacketsFull(packets, |packets|, mtu) && SealsSucceed(sealed, 0)
    {
    }

    lemma ValidPlaced()
      requires Valid()
      ensures Placed(outgoingMessages, At(), passed, wrote, sent)
    {
    }

    lemma PositionBounds()
      requires Valid()
      ensures outgoingWritten <= |outgoingMessages| && outgoingOffset <= BodyLength(outgoingMessages, outgoingWritten)
      ensures outgoingWritten == |outgoingMessages| ==> outgoingOffset == 0
    {
      hide AsMessage;
    }

    // Take the position back to where it was.
    method GoBack(written: nat, offset: nat, ghost passedThen: seq<Record>, ghost wroteThen: seq<bool>)
      requires Valid() && Placed(outgoingMessages, Cursor(written, offset), passedThen, wroteThen, sent)
      modifies this`outgoingWritten, this`outgoingOffset, this`passed, this`wrote
      ensures Valid() && At() == Cursor(written, offset) && passed == passedThen && wrote == wroteThen
    {
      hide FlightOf, Genuine, Walk, WellPlaced, Numbered, TailOf, Kept;
      outgoingWritten, outgoingOffset := written, offset;
      passed, wrote := passedThen, wroteThen;
    }

    // The transport has taken a packet: its records are written.
    ghost method MarkWritten(p: Packet, passedThen: seq<Record>, wroteThen: seq<bool>)
      requires Valid() && Placed(outgoingMessages, p.from, passedThen, wroteThen, sent) && p.size <= p.mtu
      requires passed == passedThen + p.recs && Walk(outgoingMessages, p.from, p.recs) == Some(At())
      modifies this`wrote, this`sent, this`wire, this`packets
      ensures Valid() && wrote == wroteThen + All(|p.recs|, true)
      ensures wire == old(wire) + p.recs && packets == old(packets) + [p]
    {
      hide FlightOf, Genuine, Walk, WellPlaced, Numbered, TailOf, Kept, All;
      WalkIsGenuine(history, outgoingMessages, p.from, p.recs);
      KeptAppend(passedThen, wroteThen, p.recs, All(|p.recs|, true));
      KeptAll(p.recs, true);
      wrote := wroteThen + All(|p.recs|, true);
      sent, wire, packets := sent + p.recs, wire + p.recs, packets + [p];
    }

    // Cut one packet and write it. A packet that cannot be written is cut again the next
    // time; one whose sealing fails half-way is lost: the position stays after the
    // records sealed into it.
    method SendPacket() returns (result: FlightResult, recs: seq<Record>)
      requires Valid() && outgoingWritten < |outgoingMessages|
      modifies this`outgoingWritten, this`outgoingOffset, this`passed, this`wrote, this`sent, this`wire, this`packets, this`sealed, this`asked
      ensures Valid() && !result.FlushBlocked? && passed == old(passed) + recs
      ensures wrote == old(wrote) + All(|recs|, result.FlightSent?)
      ensures Walk(outgoingMessages, old(At()), recs) == Some(At())
      ensures recs == [] <==> At() == old(At())
      ensures SealsSucceed(old(sealed), |recs|)
      ensures result.FlightSent? ==>
        && recs != [] && Later(At(), old(At())) && wire == old(wire) + recs
        && |packets| == |old(packets)| + 1 && old(packets) <= packets
        && (var p := packets[|old(packets)|];
            p.mtu == mtu && p.from == old(At()) && p.recs == recs && PacketFull(p))
        && sealed == old(sealed) + |recs|
      ensures !result.FlightSent? ==> wire == old(wire) && packets == old(packets)
      ensures asked == old(asked) + if result.FlightSent? || result.WriteBlocked? then 1 else 0
      ensures result.FlightSent? ==> outside.answers(asked - 1) > 0
      ensures result.WriteBlocked? ==> recs == [] && outside.answers(asked - 1) <= 0
      ensures result.MtuFailed? ==> recs == [] && StuckAt(At(), mtu)
      ensures result.SealFailed? ==>
        if UnknownEpochAt(At()) then sealed == old(sealed) + |recs|
        else sealed == old(sealed) + |recs| + 1 && outside.seals(sealed - 1).None?
    {
      hide AsMessage, FlightOf, Genuine, Step, BodyLength, Walk, WellPlaced, Numbered, TailOf, Kept, All, SizeAtMost, NoneLost, Later,
        Placed, DtlsSender.Valid, DtlsSender.StuckAt, DtlsSender.FullAt, DtlsSender.UnknownEpochAt, DtlsSender.MaxOverhead;
      var oldWritten, oldOffset := outgoingWritten, outgoingOffset;
      ValidPlaced();
      var packed, packetLen, sealedRecs := SealNextPacket(mtu);
      recs := sealedRecs;
      if !packed.PacketSealed? {
        result := if packed.PacketError? then SealFailed else MtuFailed;
      } else {
        var n := Ask();
        if n <= 0 {
          GoBack(oldWritten, oldOffset, old(passed), old(wrote));
          NoRecordsPass(outgoingMessages, At(), wrote);
          recs := [];
          result := WriteBlocked;
        } else {
          WalkMovesOn(outgoingMessages, old(At()), recs);
          MarkWritten(Packet(packetLen, mtu, old(At()), recs), old(passed), old(wrote));
          result := FlightSent;
        }
      }
    }

    // The transport was asked for the MTU if it had to be, and then once for each packet
    // that it took; it is asked again at the end, and refuses unless all has been sent.
    ghost predicate Answered(from: nat, packets: nat, to: nat, result: FlightResult) {
      && (forall i :: from <= i < from + packets ==> outside.answers(i) > 0)
      && match result
         case FlightSent => to == from + packets + 1 && outside.answers(from + packets) > 0
         case WriteBlocked => to == from + packets + 1 && outside.answers(from + packets) <= 0
         case FlushBlocked => to == from + packets + 1 && outside.answers(from + packets) <= 0
         case SealFailed => to == from + packets
         case MtuFailed => to == from + packets
    }

    ghost predicate Taken(from: nat, packets: nat) {
      forall i :: from <= i < from + packets ==> outside.answers(i) > 0
    }

    lemma TakenNext(from: nat, packets: nat)
      requires Taken(from, packets) && outside.answers(from + packets) > 0
      ensures Taken(from, packets + 1)
    {
    }

    lemma TakenNone(from: nat)
      ensures Taken(from, 0)
    {
    }

    lemma AnsweredIs(from: nat, packets: nat, to: nat, result: FlightResult)
      requires Taken(from, packets)
      requires to == from + packets + if result.SealFailed? || result.MtuFailed? then 0 else 1
      requires result.FlightSent? ==> outside.answers(from + packets) > 0
      requires result.WriteBlocked? || result.FlushBlocked? ==> outside.answers(from + packets) <= 0
      ensures Answered(from, packets, to, result)
    {
    }

    // Write packets until the flight is at its end or something fails.
    method WritePackets() returns (result: FlightResult, written: seq<Record>, ghost lost: seq<Record>)
      requires Valid()
      modifies this`outgoingWritten, this`outgoingOffset, this`passed, this`wrote, this`sent, this`wire, this`packets, this`sealed, this`asked
      ensures Valid() && wire == old(wire) + written && !result.FlushBlocked?
      ensures AdvancedBy(outgoingMessages, old(At()), At(), old(passed), passed, old(wrote), wrote, written, lost)
      ensures PacketsFull(packets, |old(packets)|, mtu) && PacketsFrom(old(packets), packets, old(At()), written)
      ensures SealsSucceed(old(sealed), |written| + |lost|)
      ensures !result.SealFailed? ==> lost == []
      ensures if result.FlightSent? then At() == Cursor(|outgoingMessages|, 0) else old(outgoingWritten) < |outgoingMessages|
      ensures |packets| >= |old(packets)| && Taken(old(asked), |packets| - |old(packets)|)
      ensures asked == old(asked) + |packets| - |old(packets)| + if result.WriteBlocked? then 1 else 0
      ensures result.WriteBlocked? ==> outside.answers(asked - 1) <= 0
      ensures result.MtuFailed? ==> StuckAt(At(), mtu)
      ensures result.SealFailed? ==>
        if UnknownEpochAt(At()) then sealed == old(sealed) + |written| + |lost|
        else sealed == old(sealed) + |written| + |lost| + 1 && outside.seals(sealed - 1).None?
    {
      hide DtlsSender.Answered, DtlsSender.Taken;
      hide AsMessage, FlightOf, Genuine, Step, BodyLength, Walk, WellPlaced, Numbered, TailOf, Kept, All, SizeAtMost, NoneLost,
        AdvancedBy, PacketsFrom, DtlsSender.Valid, DtlsSender.StuckAt, DtlsSender.FullAt, DtlsSender.UnknownEpochAt,
        DtlsSender.MaxOverhead, DtlsSender.PacketFull, DtlsSender.PacketsFull, DtlsSender.SealsSucceed;
      written, lost, result := [], [], FlightSent;
      NotAdvanced(outgoingMessages, At(), passed, wrote);
      NoPackets(packets, At());
      PositionBounds();
      NothingYet(packets, sealed, mtu);
      TakenNone(asked);
      while outgoingWritten < |outgoingMessages| && result.FlightSent?
        invariant outgoingWritten <= |outgoingMessages| && outgoingOffset <= BodyLength(outgoingMessages, outgoingWritten)
        invariant Valid() && wire == old(wire) + written
        invariant AdvancedBy(outgoingMessages, old(At()), At(), old(passed), passed, old(wrote), wrote, written, lost)
        invariant PacketsFull(packets, |old(packets)|, mtu) && PacketsFrom(old(packets), packets, old(At()), written)
        invariant SealsSucceed(old(sealed), |written| + |lost|)
        invariant !result.SealFailed? ==> lost == []
        invariant written == [] && result.FlightSent? ==> At() == old(At())
        invariant !result.FlightSent? ==> old(outgoingWritten) < |outgoingMessages| && !result.FlushBlocked?
        invariant result.FlightSent? ==> sealed == old(sealed) + |written|
        invariant |packets| >= |old(packets)| && Taken(old(asked), |packets| - |old(packets)|)
        invariant asked == old(asked) + |packets| - |old(packets)| + if result.WriteBlocked? then 1 else 0
        invariant result.WriteBlocked? ==> outside.answers(asked - 1) <= 0
        invariant result.MtuFailed? ==> StuckAt(At(), mtu)
        invariant result.SealFailed? ==>
          if UnknownEpochAt(At()) then sealed == old(sealed) + |written| + |lost|
          else sealed == old(sealed) + |written| + |lost| + 1 && outside.seals(sealed - 1).None?
        decreases result.FlightSent?, |outgoingMessages| - outgoingWritten, BodyLength(outgoingMessages, outgoingWritten) - outgoingOffset
      {
        ghost var before, passedBefore, wroteBefore, packetsBefore := At(), passed, wrote, packets;
        var recs;
        result, recs := SendPacket();
        PositionBounds();
        SealsSucceedNext(old(sealed), |written|, |recs|);
        if result.FlightSent? {
          TakenNext(old(asked), |packetsBefore| - |old(packets)|);
          PacketsFullNext(packetsBefore, packets, |old(packets)|, mtu);
          PacketsFromNext(old(packets), packetsBefore, packets, old(At()), written, recs);
          AdvancedWriting(outgoingMessages, old(At()), before, At(), old(passed), passedBefore, old(wrote), wroteBefore, written, recs);
          written := written + recs;
        } else {
          AdvancedLosing(outgoingMessages, old(At()), before, At(), old(passed), passedBefore, old(wrote), wroteBefore, written, recs);
          lost := recs;
        }
      }
      PositionBounds();
    }

    // Write the rest of the flight, packet by packet.
    method SendFlight(noQueryMtu: bool) returns (result: FlightResult, written: seq<Record>, ghost lost: seq<Record>)
      requires Valid()
      modifies this`mtu, this`outgoingWritten, this`outgoingOffset, this`passed, this`wrote, this`sent, this`wire, this`packets,
               this`sealed, this`asked
      ensures Valid() && wire == old(wire) + written
      ensures AdvancedBy(outgoingMessages, old(At()), At(), old(passed), passed, old(wrote), wrote, written, lost)
      ensures PacketsFull(packets, |old(packets)|, mtu) && PacketsFrom(old(packets), packets, old(At()), written)
      ensures SealsSucceed(old(sealed), |written| + |lost|)
      ensures old(mtu) >= MIN_MTU ==> mtu == old(mtu)
      ensures !result.SealFailed? ==> lost == []
      ensures result.FlightSent? || result.FlushBlocked? ==> At() == Cursor(|outgoingMessages|, 0)
      ensures result.WriteBlocked? || result.SealFailed? || result.MtuFailed? ==> old(outgoingWritten) < |outgoingMessages|
      ensures result.WriteBlocked? || result.FlushBlocked? ==> asked > old(asked) && outside.answers(asked - 1) <= 0
      ensures result.MtuFailed? ==> StuckAt(At(), mtu)
      ensures result.SealFailed? ==>
        if UnknownEpochAt(At()) then sealed == old(sealed) + |written| + |lost|
        else sealed == old(sealed) + |written| + |lost| + 1 && outside.seals(sealed - 1).None?
      ensures |packets| >= |old(packets)|
      ensures Answered(old(asked) + if old(mtu) < 228 && !noQueryMtu then 1 else 0, |packets| - |old(packets)|, asked, result)
    {
      hide DtlsSender.Answered, DtlsSender.Taken;
      hide AsMessage, FlightOf, Genuine, Step, BodyLength, Walk, WellPlaced, Numbered, TailOf, Kept, All, SizeAtMost, NoneLost,
        AdvancedBy, PacketsFrom, DtlsSender.Valid, DtlsSender.StuckAt, DtlsSender.FullAt, DtlsSender.UnknownEpochAt,
        DtlsSender.MaxOverhead, DtlsSender.PacketFull, DtlsSender.PacketsFull, DtlsSender.SealsSucceed;
      UpdateMtu(noQueryMtu);
      ghost var from := asked;
      result, written, lost := WritePackets();
      if result.FlightSent? {
        var n := Ask();
        if n <= 0 {
          result := FlushBlocked;
        }
      }
      AnsweredIs(from, |packets| - |old(packets)|, asked, result);
    }

    // The flight is complete: write it. Once it has been written to its end, possibly over
    // several calls, each byte of each message is on the wire exactly once if and only if
    // no record of it was lost.
    method FlushFlight(noQueryMtu: bool) returns (result: FlightResult, written: seq<Record>, ghost lost: seq<Record>)
      requires Valid()
      modifies this`mtu, this`outgoingWritten, this`outgoingOffset, this`outgoingMessagesComplete,
               this`passed, this`wrote, this`sent, this`wire, this`packets, this`sealed, this`asked
      ensures Valid() && outgoingMessagesComplete
      ensures wire == old(wire) + written
      ensures AdvancedBy(outgoingMessages, old(At()), At(), old(passed), passed, old(wrote), wrote, written, lost)
      ensures PacketsFull(packets, |old(packets)|, mtu) && PacketsFrom(old(packets), packets, old(At()), written)
      ensures SealsSucceed(old(sealed), |written| + |lost|)
      ensures old(mtu) >= MIN_MTU ==> mtu == old(mtu)
      ensures !result.SealFailed? ==> lost == []
      ensures result.FlightSent? || result.FlushBlocked? ==> At() == Cursor(|outgoingMessages|, 0)
      ensures result.WriteBlocked? || result.FlushBlocked? ==> asked > old(asked) && outside.answers(asked - 1) <= 0
      ensures result.MtuFailed? ==> StuckAt(At(), mtu)
      ensures result.SealFailed? ==>
        if UnknownEpochAt(At()) then sealed == old(sealed) + |written| + |lost|
        else sealed == old(sealed) + |written| + |lost| + 1 && outside.seals(sealed - 1).None?
      ensures result.FlightSent? ==> (WrittenOnce() <==> AllWritten())
      ensures |packets| >= |old(packets)|
      ensures Answered(old(asked) + if old(mtu) < 228 && !noQueryMtu then 1 else 0, |packets| - |old(packets)|, asked, result)
    {
      hide DtlsSender.Answered;
      hide AsMessage, FlightOf, Genuine, Step, BodyLength, Walk, WellPlaced, Numbered, TailOf, Kept, All, SizeAtMost, NoneLost, EachOnce,
        DtlsSender.Valid, DtlsSender.StuckAt, DtlsSender.FullAt, DtlsSender.UnknownEpochAt, DtlsSender.MaxOverhead,
        DtlsSender.PacketFull;
      outgoingMessagesComplete := true;
      result, written, lost := SendFlight(noQueryMtu);
      SentIsKept();
      if result.FlightSent? {
        SentOnce();
      }
    }

    // Rewind to the start of the flight and write it again.
    method RetransmitOutgoingMessages(noQueryMtu: bool) returns (result: FlightResult, written: seq<Record>, ghost lost: seq<Record>)
      requires Valid()
      modifies this`mtu, this`outgoingWritten, this`outgoingOffset, this`passed, this`wrote, this`sent, this`wire, this`packets,
               this`sealed, this`asked
      ensures Valid() && passed == written + lost && wire == old(wire) + written && sent == written
      ensures wrote == All(|written|, true) + All(|lost|, false)
      ensures !result.SealFailed? ==> AllWritten()
      ensures result.FlightSent? ==> WrittenOnce()
      ensures |packets| >= |old(packets)|
      ensures Answered(old(asked) + if old(mtu) < 228 && !noQueryMtu then 1 else 0, |packets| - |old(packets)|, asked, result)
    {
      hide DtlsSender.Answered;
      hide AsMessage, FlightOf, Genuine, Step, BodyLength, Walk, WellPlaced, Numbered, TailOf, Kept, All, SizeAtMost, NoneLost, EachOnce,
        DtlsSender.Valid, DtlsSender.StuckAt, DtlsSender.FullAt, DtlsSender.UnknownEpochAt, DtlsSender.MaxOverhead,
        DtlsSender.PacketFull;
      Rewind();
      result, written, lost := SendFlight(noQueryMtu);
      AfterNone(written, lost);
      SentIsKept();
      if result.FlightSent? {
        SentOnce();
      }
    }

    method Rewind()
      requires Valid()
      modifies this`outgoingWritten, this`outgoingOffset, this`passed, this`wrote, this`sent
      ensures Valid() && At() == START && passed == [] && wrote == [] && sent == []
    {
      hide AsMessage, FlightOf, Genuine, Numbered, TailOf;
      outgoingWritten, outgoingOffset := 0, 0;
      passed, wrote, sent := [], [], [];
    }

    lemma SentOnce()
      requires Valid() && At() == Cursor(|outgoingMessages|, 0)
      ensures WrittenOnce() <==> AllWritten()
    {
      hide AsMessage, FlightOf, Genuine, Walk, WellPlaced, Numbered, TailOf, Kept, NoneLost, EachOnce;
      OnceIfNoneLost(outgoingMessages, passed, wrote);
    }

    // A flight at its end, all of it written: its messages are the last of the history, and
    // each of its handshake records has been sent.
    lemma FlightAtEnd()
      requires Valid() && AllWritten() && At() == Cursor(|outgoingMessages|, 0)
      ensures FlightOf(history, outgoingMessages) && TailOf(history, outgoingMessages)
      ensures Walk(outgoingMessages, START, passed) == Some(Cursor(|outgoingMessages|, 0))
      ensures forall s :: s in passed && !s.isCcs ==> s in sent
    {
      hide AsMessage, FlightOf, Genuine, Walk, WellPlaced, Numbered, TailOf, Kept, NoneLost;
      NoneLostIsKept(passed, wrote);
    }

    lemma SentIsKept()
      requires Valid()
      ensures |wrote| == |passed| && sent == Kept(passed, wrote)
    {
      hide AsMessage, FlightOf, Genuine, Walk, WellPlaced, Numbered, TailOf, Kept;
    }

    // What is on the wire of this flight has each of its messages exactly once.
    ghost predicate WrittenOnce()
      reads this
    {
      EachOnce(outgoingMessages, sent)
    }
  }

  // With every message in the current epoch and nothing added by sealing, thirteen bytes
  // are room enough.
  lemma RoomForAll(sender: DtlsSender, at: Cursor, room: nat)
    requires sender.current == Sealing(0, 0) && sender.wEpoch == 0 && room >= HM_HEADER_LENGTH + 1
    requires forall i :: 0 <= i < |sender.outgoingMessages| ==> sender.outgoingMessages[i].epoch == 0
    ensures !sender.StuckAt(at, room) && !sender.UnknownEpochAt(at)
  {
  }

  lemma {:induction false} WalkIsNoLonger(msgs: seq<Outgoing>, at: Cursor, recs: seq<Record>)
    requires Walk(msgs, at, recs).Some?
    ensures Walk(msgs, at, recs).value.written <= at.written + |recs|
    decreases |recs|
  {
    if recs != [] {
      StepIsOne(msgs, at, recs[0]);
      hide Step;
      WalkIsNoLonger(msgs, Step(msgs, at, recs[0]).value, recs[1..]);
    }
  }

  lemma StepIsOne(msgs: seq<Outgoing>, at: Cursor, rec: Record)
    requires Step(msgs, at, rec).Some?
    ensures Step(msgs, at, rec).value.written <= at.written + 1
  {
    hide AsMessage, PieceBytes;
  }

  // The one record of an empty message.
  lemma EmptyMessageStep(m: Message, msgs: seq<Outgoing>, recs: seq<Record>)
    requires MessageFits(m) && m.body == [] && |msgs| > 0 && msgs[0] == Outgoing(MessageBytes(m), 0, false)
    requires Walk(msgs, START, recs).Some? && |recs| == 1
    ensures Walk(msgs, START, recs) == Some(Cursor(1, 0)) && !recs[0].isCcs && |recs[0].plaintext| == HM_HEADER_LENGTH
    ensures SizeAtMost(recs, 0) == HM_HEADER_LENGTH
  {
    WholeMessageIsMessage(m, 0);
    hide AsMessage, MessageBytes;
    assert recs[1..] == [] && recs[..0] == [];
  }

  // With sealing failing on the second call, one record was sealed: into a packet that
  // was not written, since one with it alone would not have been full.
  lemma FirstIsLost(sender: DtlsSender, at: Cursor, passed: seq<Record>, wrote: seq<bool>, packets: seq<Packet>,
                    written: seq<Record>, lost: seq<Record>)
    requires sender.current == Sealing(0, 0) && sender.previous == Sealing(0, 0) && sender.wEpoch == 0
    requires sender.outgoingMessages == [Outgoing(MessageBytes(Message(0, 0, [])), 0, false), Outgoing([], 0, true)]
    requires AdvancedBy(sender.outgoingMessages, START, at, [], passed, [], wrote, written, lost) && |written| + |lost| == 1
    requires sender.PacketsFull(packets, 0, DEFAULT_MTU) && PacketsFrom([], packets, START, written)
    ensures at == Cursor(1, 0) && |passed| == 1 && !passed[0].isCcs && wrote == [false]
  {
    hide Walk, MessageBytes, DtlsSender.StuckAt, DtlsSender.UnknownEpochAt, SizeAtMost;
    var msgs := sender.outgoingMessages;
    assert [] + written + lost == written + lost;
    EmptyMessageStep(Message(0, 0, []), msgs, written + lost);
    if written != [] {
      assert written + [] == written && packets[0].recs == written;
      assert sender.PacketFull(packets[0]);
      RoomForAll(sender, at, DEFAULT_MTU - packets[0].size);
      assert false;
    }
    assert [] + All(0, true) + All(1, false) == [false];
  }

  // A run that loses a record. The flight is an empty message and a ChangeCipherSpec,
  // and sealing fails the second time: the first record has been sealed into the packet
  // by then, and the position stays behind it. Flushing again writes the rest and
  // succeeds, but the message is not on the wire.
  method LosingRun() returns (first: FlightResult, second: FlightResult, sender: DtlsSender)
    ensures first.SealFailed? && second.FlightSent? && sender.Valid() && !sender.WrittenOnce()
  {
    hide AsMessage, MessageBytes, FlightOf, Genuine, Step, BodyLength, Walk, WellPlaced, Numbered, TailOf, Kept, All, SizeAtMost,
      NoneLost, EachOnce, AdvancedBy, PacketsFrom, DtlsSender.Valid, DtlsSender.WrittenOnce, DtlsSender.StuckAt,
      DtlsSender.FullAt, DtlsSender.UnknownEpochAt, DtlsSender.PacketFull, DtlsSender.PacketsFull, DtlsSender.SealsSucceed;
    var outside := Outside(i => if i == 1 then None else Some(0), i => 1);
    sender := new DtlsSender(Sealing(0, 0), Sealing(0, 0), DEFAULT_MTU, outside);
    var added := sender.AddMessage(0, []);
    added := sender.AddChangeCipherSpec();
    ghost var lost;
    var written;
    first, written, lost := sender.FlushFlight(false);
    ghost var at, passed, wrote := sender.At(), sender.passed, sender.wrote;
    RoomForAll(sender, at, DEFAULT_MTU);
    OneSealed(sender, at, passed, wrote, written, lost);
    FirstIsLost(sender, at, passed, wrote, sender.packets, written, lost);
    second, written, lost := sender.FlushFlight(false);
    RoomForAll(sender, sender.At(), DEFAULT_MTU);
    StillLost(sender.outgoingMessages, at, sender.At(), passed, sender.passed, wrote, sender.wrote, written, lost);
  }

  lemma OneSealed(sender: DtlsSender, at: Cursor, passed: seq<Record>, wrote: seq<bool>, written: seq<Record>, lost: seq<Record>)
    requires sender.outside.seals(1).None? && sender.SealsSucceed(0, |written| + |lost|)
    requires AdvancedBy(sender.outgoingMessages, START, at, [], passed, [], wrote, written, lost)
    ensures |written| + |lost| <= 1 && at.written <= 1
  {
    hide Walk;
    WalkIsNoLonger(sender.outgoingMessages, START, written + lost);
  }

  lemma StillLost(msgs: seq<Outgoing>, from: Cursor, to: Cursor, passed: seq<Record>, passedTo: seq<Record>,
                  wrote: seq<bool>, wroteTo: seq<bool>, written: seq<Record>, lost: seq<Record>)
    requires AdvancedBy(msgs, from, to, passed, passedTo, wrote, wroteTo, written, lost)
    requires |passed| == |wrote| > 0 && !wrote[0] && !passed[0].isCcs
    ensures |passedTo| == |wroteTo| && !NoneLost(passedTo, wroteTo)
  {
    hide Walk;
    assert !wroteTo[0] && passedTo[0] == passed[0];
  }
}
