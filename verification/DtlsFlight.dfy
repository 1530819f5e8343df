// Sending: a flight of messages, and the records that carry it.
module DtlsFlight {
  import opened Wrappers
  import opened DtlsWire

  datatype Outgoing = Outgoing(data: seq<byte>, epoch: int, isCcs: bool)

  // The next message, and how much of its body has been written.
  datatype Cursor = Cursor(written: nat, offset: nat)

  const START := Cursor(0, 0)

  // The message that an outgoing buffer is the one-fragment serialization of.
  function AsMessage(o: Outgoing): (r: Option<Message>)
    ensures r.Some? ==> MessageFits(r.value) && o.data == MessageBytes(r.value)
  {
    if o.isCcs then None else
    var p := ParseFragment(o.data);
    if p.Some? && p.value.header.fragOff == 0 && p.value.header.msgLen == |p.value.body| && p.value.rest == [] then
      assert o.data == FragmentBytes(p.value.header, p.value.body);
      Some(Message(p.value.header.typ, p.value.header.seqno, p.value.body))
    else None
  }

  lemma WholeMessageIsMessage(m: Message, epoch: int)
    requires MessageFits(m)
    ensures AsMessage(Outgoing(MessageBytes(m), epoch, false)) == Some(m)
  {
    hide FragmentBytes, HeaderBytes, ParseFragment;
    FragmentRoundTrip(Whole(m), m.body, []);
    assert MessageBytes(m) + [] == MessageBytes(m);
  }

  lemma CcsIsNone(msg: Outgoing)
    ensures msg.isCcs ==> AsMessage(msg).None?
  {
  }

  // The handshake messages of a flight.
  function MessagesOf(msgs: seq<Outgoing>): seq<Message> {
    if msgs == [] then [] else
    var before, last := MessagesOf(msgs[..|msgs| - 1]), AsMessage(msgs[|msgs| - 1]);
    if last.Some? then before + [last.value] else before
  }

  // What one record does to the position in the flight. It must be exactly the next
  // piece of the next message.
  function Step(msgs: seq<Outgoing>, at: Cursor, rec: Record): Option<Cursor> {
    if at.written >= |msgs| then None else
    var msg := msgs[at.written];
    if msg.isCcs then
      if rec == Record(true, CCS_BODY) && at.offset == 0 then Some(Cursor(at.written + 1, 0)) else None
    else
      var m := AsMessage(msg);
      if m.None? || rec.isCcs || |rec.plaintext| < HM_HEADER_LENGTH then None else
      var len := |rec.plaintext| - HM_HEADER_LENGTH;
      var body := m.value.body;
      if at.offset + len > |body| || (len == 0 && body != []) then None else
      if rec.plaintext != PieceBytes(m.value, at.offset, len) then None else
      Some(if at.offset + len == |body| then Cursor(at.written + 1, 0) else Cursor(at.written, at.offset + len))
  }

  function Walk(msgs: seq<Outgoing>, at: Cursor, recs: seq<Record>): Option<Cursor>
    decreases |recs|
  {
    if recs == [] then Some(at) else
    var next := Step(msgs, at, recs[0]);
    if next.None? then None else Walk(msgs, next.value, recs[1..])
  }

  lemma {:induction false} WalkAppend(msgs: seq<Outgoing>, at: Cursor, recs: seq<Record>, more: seq<Record>)
    ensures
      Walk(msgs, at, recs + more) ==
      if Walk(msgs, at, recs).None? then None else Walk(msgs, Walk(msgs, at, recs).value, more)
    decreases |recs|
  {
    hide Step;
    if recs == [] {
      assert recs + more == more;
    } else {
      assert (recs + more)[0] == recs[0] && (recs + more)[1..] == recs[1..] + more;
      var next := Step(msgs, at, recs[0]);
      if next.Some? {
        WalkAppend(msgs, next.value, recs[1..], more);
      }
    }
  }

  lemma {:induction false} WalkOfLongerFlight(msgs: seq<Outgoing>, m: Outgoing, at: Cursor, recs: seq<Record>)
    requires Walk(msgs, at, recs).Some?
    ensures Walk(msgs + [m], at, recs) == Walk(msgs, at, recs)
    decreases |recs|
  {
    if recs != [] {
      StepOfLongerFlight(msgs, m, at, recs[0]);
      hide Step;
      WalkOfLongerFlight(msgs, m, Step(msgs, at, recs[0]).value, recs[1..]);
    }
  }

  lemma StepOfLongerFlight(msgs: seq<Outgoing>, m: Outgoing, at: Cursor, rec: Record)
    requires Step(msgs, at, rec).Some?
    ensures Step(msgs + [m], at, rec) == Step(msgs, at, rec)
  {
    hide PieceBytes, AsMessage;
  }

  // A position in a flight: inside the next message, or at its start.
  predicate WellPlaced(msgs: seq<Outgoing>, at: Cursor) {
    && at.written <= |msgs|
    && (at.offset == 0 || (at.written < |msgs| && !msgs[at.written].isCcs && at.offset < BodyLength(msgs, at.written)))
  }

  lemma StepWellPlaced(msgs: seq<Outgoing>, at: Cursor, rec: Record)
    requires Step(msgs, at, rec).Some?
    ensures WellPlaced(msgs, Step(msgs, at, rec).value)
  {
    hide PieceBytes, AsMessage;
  }

  lemma WellPlacedInLonger(msgs: seq<Outgoing>, m: Outgoing, at: Cursor)
    requires WellPlaced(msgs, at)
    ensures WellPlaced(msgs + [m], at)
  {
    hide AsMessage;
  }

  function BodyLength(msgs: seq<Outgoing>, k: nat): nat {
    if k < |msgs| && AsMessage(msgs[k]).Some? then |AsMessage(msgs[k]).value.body| else 0
  }

  ghost predicate Later(a: Cursor, b: Cursor) {
    a.written > b.written || (a.written == b.written && a.offset > b.offset)
  }

  // Every record moves the position on.
  lemma {:induction false} WalkMovesOn(msgs: seq<Outgoing>, at: Cursor, recs: seq<Record>)
    requires Walk(msgs, at, recs).Some? && recs != []
    ensures Later(Walk(msgs, at, recs).value, at)
    decreases |recs|
  {
    StepMovesOn(msgs, at, recs[0]);
    hide Step;
    if |recs| > 1 {
      WalkMovesOn(msgs, Step(msgs, at, recs[0]).value, recs[1..]);
    }
  }

  lemma StepMovesOn(msgs: seq<Outgoing>, at: Cursor, rec: Record)
    requires Step(msgs, at, rec).Some?
    ensures Later(Step(msgs, at, rec).value, at)
    ensures Step(msgs, at, rec).value.written <= |msgs|
  {
    hide PieceBytes, AsMessage;
  }

  // The pieces of message k among the records of a walk.
  datatype Piece = Piece(off: nat, len: nat)

  function Pieces(msgs: seq<Outgoing>, at: Cursor, recs: seq<Record>, k: nat): seq<Piece>
    requires Walk(msgs, at, recs).Some?
    decreases |recs|
  {
    if recs == [] then [] else
    var rest := Pieces(msgs, Step(msgs, at, recs[0]).value, recs[1..], k);
    if at.written == k && |recs[0].plaintext| >= HM_HEADER_LENGTH
    then [Piece(at.offset, |recs[0].plaintext| - HM_HEADER_LENGTH)] + rest else rest
  }

  // The pieces follow one another from position from to position to.
  ghost predicate Tiles(pieces: seq<Piece>, from: nat, to: nat) {
    if pieces == [] then from == to else pieces[0].off == from && Tiles(pieces[1..], from + pieces[0].len, to)
  }

  // Message k has been passed over, or is being written, or is not reached yet.
  lemma {:induction false} PiecesTile(msgs: seq<Outgoing>, at: Cursor, recs: seq<Record>, k: nat)
    requires k < |msgs| && AsMessage(msgs[k]).Some? && Walk(msgs, at, recs).Some?
    requires at.written <= k && (at.written == k ==> at.offset <= BodyLength(msgs, k))
    ensures
      var end := Walk(msgs, at, recs).value;
      var from := if at.written == k then at.offset else 0;
      && (end.written > k ==> Tiles(Pieces(msgs, at, recs, k), from, BodyLength(msgs, k)))
      && (end.written > k && BodyLength(msgs, k) == 0 ==> |Pieces(msgs, at, recs, k)| == 1)
      && (end.written == k ==> Tiles(Pieces(msgs, at, recs, k), from, end.offset))
      && (end.written < k ==> Pieces(msgs, at, recs, k) == [])
    decreases |recs|
  {
    if recs != [] {
      StepTiles(msgs, at, recs[0], k);
      hide Step, AsMessage, BodyLength;
      var next := Step(msgs, at, recs[0]).value;
      PassedPieces(msgs, next, recs[1..], k);
      if next.written <= k {
        PiecesTile(msgs, next, recs[1..], k);
      }
    }
  }

  // One record of message k goes on where the position is, and ends the message when it
  // comes to the end of the body.
  lemma StepTiles(msgs: seq<Outgoing>, at: Cursor, rec: Record, k: nat)
    requires k < |msgs| && AsMessage(msgs[k]).Some? && Step(msgs, at, rec).Some? && at.written <= k
    ensures
      var next := Step(msgs, at, rec).value;
      && (at.written < k ==> next.written <= k && (next.written == k ==> next.offset == 0))
      && (at.written == k ==>
            && |rec.plaintext| >= HM_HEADER_LENGTH
            && (var end := at.offset + |rec.plaintext| - HM_HEADER_LENGTH;
                && end <= BodyLength(msgs, k)
                && next == if end == BodyLength(msgs, k) then Cursor(k + 1, 0) else Cursor(k, end)))
  {
    hide PieceBytes;
  }

  lemma {:induction false} PassedPieces(msgs: seq<Outgoing>, at: Cursor, recs: seq<Record>, k: nat)
    requires Walk(msgs, at, recs).Some?
    ensures at.written > k ==> Pieces(msgs, at, recs, k) == [] && Walk(msgs, at, recs).value.written > k
    decreases |recs|
  {
    if recs != [] {
      StepMovesOn(msgs, at, recs[0]);
      hide Step;
      PassedPieces(msgs, Step(msgs, at, recs[0]).value, recs[1..], k);
    }
  }

  function Covering(pieces: seq<Piece>, i: nat): nat {
    if pieces == [] then 0 else
    (if pieces[0].off <= i < pieces[0].off + pieces[0].len then 1 else 0) + Covering(pieces[1..], i)
  }

  lemma {:induction false} TilesCoverOnce(pieces: seq<Piece>, from: nat, to: nat, i: nat)
    requires Tiles(pieces, from, to)
    ensures from <= to && Covering(pieces, i) == if from <= i < to then 1 else 0
  {
    if pieces != [] {
      TilesCoverOnce(pieces[1..], from + pieces[0].len, to, i);
    }
  }

  // The pieces follow one another from the start of a body to its end, so that each of
  // its bytes lies in exactly one of them; an empty body has one piece.
  ghost predicate PartitionOf(pieces: seq<Piece>, bodyLength: nat) {
    && Tiles(pieces, 0, bodyLength)
    && (forall i: nat :: Covering(pieces, i) == if i < bodyLength then 1 else 0)
    && (bodyLength == 0 ==> |pieces| == 1)
  }

  // A flight that has been written to its end: each byte of each message lies in exactly
  // one of the fragments, which follow one another in order, and an empty message has
  // one fragment.
  lemma FlightPartitions(msgs: seq<Outgoing>, recs: seq<Record>, k: nat)
    requires Walk(msgs, START, recs) == Some(Cursor(|msgs|, 0))
    requires k < |msgs| && AsMessage(msgs[k]).Some?
    ensures PartitionOf(Pieces(msgs, START, recs, k), BodyLength(msgs, k))
  {
    PiecesTile(msgs, START, recs, k);
    forall i: nat ensures Covering(Pieces(msgs, START, recs, k), i) == if i < BodyLength(msgs, k) then 1 else 0 {
      TilesCoverOnce(Pieces(msgs, START, recs, k), 0, BodyLength(msgs, k), i);
    }
  }

  // A ChangeCipherSpec, or a record that carries a piece of one of the given messages,
  // number k at place k.
  ghost predicate Genuine(history: seq<Message>, rec: Record) {
    if rec.isCcs then rec.plaintext == CCS_BODY
    else exists k: nat, off: nat, len: nat :: IsPiece(history, rec.plaintext, k, off, len)
  }

  ghost predicate IsPiece(history: seq<Message>, bytes: seq<byte>, k: nat, off: nat, len: nat) {
    k < |history| && MessageFits(history[k]) && off + len <= |history[k].body| && bytes == PieceBytes(history[k], off, len)
  }

  lemma GenuineLater(history: seq<Message>, m: Message, rec: Record)
    requires Genuine(history, rec)
    ensures Genuine(history + [m], rec)
  {
    hide PieceBytes;
    if !rec.isCcs {
      var k: nat, off: nat, len: nat :| IsPiece(history, rec.plaintext, k, off, len);
      assert IsPiece(history + [m], rec.plaintext, k, off, len);
    }
  }

  // The messages of a flight come from the history.
  ghost predicate FlightOf(history: seq<Message>, msgs: seq<Outgoing>) {
    forall i :: 0 <= i < |msgs| && !msgs[i].isCcs ==>
      AsMessage(msgs[i]).Some? && var m := AsMessage(msgs[i]).value; m.seqno < |history| && history[m.seqno] == m
  }

  // The messages of a flight have different numbers.
  ghost predicate Numbered(msgs: seq<Outgoing>) {
    forall i, j :: 0 <= i < j < |msgs| && AsMessage(msgs[i]).Some? && AsMessage(msgs[j]).Some? ==>
      AsMessage(msgs[i]).value.seqno < AsMessage(msgs[j]).value.seqno
  }

  lemma NumberedWith(history: seq<Message>, msgs: seq<Outgoing>, msg: Outgoing)
    requires Numbered(msgs) && FlightOf(history, msgs)
    requires AsMessage(msg).Some? ==> AsMessage(msg).value.seqno >= |history|
    ensures Numbered(msgs + [msg])
  {
    forall i | 0 <= i < |msgs| && AsMessage(msgs[i]).Some? ensures !msgs[i].isCcs {}
    hide AsMessage;
  }

  lemma FlightOfCcs(history: seq<Message>, msgs: seq<Outgoing>, msg: Outgoing)
    requires FlightOf(history, msgs) && msg.isCcs
    ensures FlightOf(history, msgs + [msg])
  {
    hide AsMessage;
  }

  lemma FlightOfMessage(history: seq<Message>, msgs: seq<Outgoing>, msg: Outgoing, m: Message)
    requires FlightOf(history, msgs) && AsMessage(msg) == Some(m) && m.seqno == |history|
    ensures FlightOf(history + [m], msgs + [msg])
  {
    hide AsMessage;
  }

  // The messages of a flight are the last ones of the history.
  ghost predicate TailOf(history: seq<Message>, msgs: seq<Outgoing>) {
    |MessagesOf(msgs)| <= |history| && MessagesOf(msgs) == history[|history| - |MessagesOf(msgs)|..]
  }

  lemma NoFlight(history: seq<Message>)
    ensures FlightOf(history, []) && Numbered([]) && TailOf(history, [])
  {
  }

  lemma TailWithCcs(history: seq<Message>, msgs: seq<Outgoing>, msg: Outgoing)
    requires TailOf(history, msgs) && AsMessage(msg).None?
    ensures TailOf(history, msgs + [msg])
  {
    hide AsMessage;
    assert (msgs + [msg])[..|msgs|] == msgs;
  }

  lemma TailWithMessage(history: seq<Message>, msgs: seq<Outgoing>, msg: Outgoing, m: Message)
    requires TailOf(history, msgs) && AsMessage(msg) == Some(m)
    ensures TailOf(history + [m], msgs + [msg])
  {
    hide AsMessage;
    assert (msgs + [msg])[..|msgs|] == msgs;
  }

  lemma AllGenuineLater(history: seq<Message>, m: Message, wire: seq<Record>)
    requires forall i :: 0 <= i < |wire| ==> Genuine(history, wire[i])
    ensures forall i :: 0 <= i < |wire| ==> Genuine(history + [m], wire[i])
  {
    hide Genuine;
    forall i | 0 <= i < |wire| ensures Genuine(history + [m], wire[i]) {
      GenuineLater(history, m, wire[i]);
    }
  }

  // Every record of a walk is genuine.
  lemma {:induction false} WalkIsGenuine(history: seq<Message>, msgs: seq<Outgoing>, at: Cursor, recs: seq<Record>)
    requires FlightOf(history, msgs) && Walk(msgs, at, recs).Some?
    ensures forall i :: 0 <= i < |recs| ==> Genuine(history, recs[i])
    decreases |recs|
  {
    if recs != [] {
      StepIsGenuine(history, msgs, at, recs[0]);
      hide Step, Genuine, FlightOf;
      WalkIsGenuine(history, msgs, Step(msgs, at, recs[0]).value, recs[1..]);
    }
  }

  lemma StepIsGenuine(history: seq<Message>, msgs: seq<Outgoing>, at: Cursor, rec: Record)
    requires FlightOf(history, msgs) && Step(msgs, at, rec).Some?
    ensures Genuine(history, rec)
  {
    hide PieceBytes, AsMessage;
    if !msgs[at.written].isCcs {
      var m := AsMessage(msgs[at.written]).value;
      assert IsPiece(history, rec.plaintext, m.seqno, at.offset, |rec.plaintext| - HM_HEADER_LENGTH);
    }
  }
}
