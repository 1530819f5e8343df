// What reaches the wire when some of a flight's records are passed over unwritten.
module DtlsLoss {
  import opened Wrappers
  import opened DtlsWire
  import opened DtlsFlight

  // The records that were written.
  function Kept(recs: seq<Record>, wrote: seq<bool>): seq<Record>
    requires |recs| == |wrote|
  {
    if recs == [] then [] else (if wrote[0] then [recs[0]] else []) + Kept(recs[1..], wrote[1..])
  }

  lemma {:induction false} KeptAppend(recs: seq<Record>, wrote: seq<bool>, more: seq<Record>, moreWrote: seq<bool>)
    requires |recs| == |wrote| && |more| == |moreWrote|
    ensures Kept(recs + more, wrote + moreWrote) == Kept(recs, wrote) + Kept(more, moreWrote)
  {
    if recs == [] {
      assert recs + more == more && wrote + moreWrote == moreWrote;
    } else {
      KeptAppend(recs[1..], wrote[1..], more, moreWrote);
      TailOfSum(recs, more);
      TailOfSum(wrote, moreWrote);
      KeptIs(recs, wrote);
      KeptIs(recs + more, wrote + moreWrote);
      hide Kept;
      var first := if wrote[0] then [recs[0]] else [];
      assert first + (Kept(recs[1..], wrote[1..]) + Kept(more, moreWrote)) == first + Kept(recs[1..], wrote[1..]) + Kept(more, moreWrote);
    }
  }

  lemma KeptIs(recs: seq<Record>, wrote: seq<bool>)
    requires |recs| == |wrote| && recs != []
    ensures Kept(recs, wrote) == (if wrote[0] then [recs[0]] else []) + Kept(recs[1..], wrote[1..])
  {
  }

  lemma TailOfSum<T>(a: seq<T>, b: seq<T>)
    requires a != []
    ensures (a + b)[0] == a[0] && (a + b)[1..] == a[1..] + b
  {
  }

  function All(n: nat, written: bool): (r: seq<bool>)
    ensures |r| == n
  {
    seq(n, _ => written)
  }

  lemma {:induction false} KeptAll(recs: seq<Record>, written: bool)
    ensures Kept(recs, All(|recs|, written)) == if written then recs else []
  {
    if recs != [] {
      KeptAll(recs[1..], written);
      assert All(|recs|, written)[1..] == All(|recs| - 1, written);
    }
  }

  // The pieces of message number seqno that the records carry, as their headers say.
  function CarriedPieces(recs: seq<Record>, seqno: int): seq<Piece> {
    if recs == [] then [] else CarriedPiece(recs[0], seqno) + CarriedPieces(recs[1..], seqno)
  }

  function CarriedPiece(rec: Record, seqno: int): seq<Piece> {
    if rec.isCcs then [] else
    var p := ParseFragment(rec.plaintext);
    if p.Some? && p.value.header.seqno == seqno then [Piece(p.value.header.fragOff, p.value.header.fragLen)] else []
  }

  lemma PieceIsCarried(m: Message, off: nat, len: nat, seqno: int)
    requires MessageFits(m) && off + len <= |m.body|
    ensures CarriedPiece(Record(false, PieceBytes(m, off, len)), seqno) == if m.seqno == seqno then [Piece(off, len)] else []
  {
    hide ParseFragment, FragmentBytes;
    FragmentRoundTrip(PieceHeader(m, off, len), m.body[off..off + len], []);
    assert PieceBytes(m, off, len) + [] == PieceBytes(m, off, len);
  }

  // The records of a walk carry just the pieces that the walk cuts.
  lemma {:induction false} CarriedAreCut(msgs: seq<Outgoing>, at: Cursor, recs: seq<Record>, k: nat, seqno: int)
    requires Numbered(msgs) && k < |msgs| && AsMessage(msgs[k]).Some? && seqno == AsMessage(msgs[k]).value.seqno
    requires Walk(msgs, at, recs).Some?
    ensures CarriedPieces(recs, seqno) == Pieces(msgs, at, recs, k)
    decreases |recs|
  {
    if recs != [] {
      hide Walk, Step, Pieces, CarriedPiece, AsMessage, Numbered;
      PiecesAre(msgs, at, recs, k);
      StepCarries(msgs, at, recs[0], k);
      CarriedAreCut(msgs, Step(msgs, at, recs[0]).value, recs[1..], k, seqno);
    }
  }

  lemma PiecesAre(msgs: seq<Outgoing>, at: Cursor, recs: seq<Record>, k: nat)
    requires Walk(msgs, at, recs).Some? && recs != []
    ensures Step(msgs, at, recs[0]).Some? && Walk(msgs, Step(msgs, at, recs[0]).value, recs[1..]).Some?
    ensures
      Pieces(msgs, at, recs, k) ==
      (if at.written == k && |recs[0].plaintext| >= HM_HEADER_LENGTH then [Piece(at.offset, |recs[0].plaintext| - HM_HEADER_LENGTH)] else [])
      + Pieces(msgs, Step(msgs, at, recs[0]).value, recs[1..], k)
  {
    hide Step;
    var rest := Pieces(msgs, Step(msgs, at, recs[0]).value, recs[1..], k);
    assert [] + rest == rest;
  }

  lemma StepCarries(msgs: seq<Outgoing>, at: Cursor, rec: Record, k: nat)
    requires Numbered(msgs) && k < |msgs| && AsMessage(msgs[k]).Some? && Step(msgs, at, rec).Some?
    ensures
      CarriedPiece(rec, AsMessage(msgs[k]).value.seqno) ==
      if at.written == k && |rec.plaintext| >= HM_HEADER_LENGTH then [Piece(at.offset, |rec.plaintext| - HM_HEADER_LENGTH)] else []
  {
    hide PieceBytes, ParseFragment, AsMessage;
    var msg := msgs[at.written];
    if msg.isCcs {
      CcsIsNoMessage(msg);
    } else {
      PieceIsCarried(AsMessage(msg).value, at.offset, |rec.plaintext| - HM_HEADER_LENGTH, AsMessage(msgs[k]).value.seqno);
    }
  }

  lemma CcsIsNoMessage(msg: Outgoing)
    requires msg.isCcs
    ensures AsMessage(msg).None?
  {
  }

  // A record of a walk carries at least one byte of a message of the flight, or is all
  // there is of an empty one.
  ghost predicate CarriesOf(msgs: seq<Outgoing>, rec: Record, k: nat, piece: Piece) {
    && k < |msgs| && AsMessage(msgs[k]).Some?
    && CarriedPiece(rec, AsMessage(msgs[k]).value.seqno) == [piece]
    && piece.off + piece.len <= BodyLength(msgs, k) && (piece.len == 0 ==> BodyLength(msgs, k) == 0)
  }

  lemma {:induction false} WalkCarries(msgs: seq<Outgoing>, at: Cursor, recs: seq<Record>, i: nat) returns (k: nat, piece: Piece)
    requires Numbered(msgs) && Walk(msgs, at, recs).Some? && i < |recs| && !recs[i].isCcs
    ensures CarriesOf(msgs, recs[i], k, piece)
    decreases |recs|
  {
    if i == 0 {
      k, piece := StepCarriesOf(msgs, at, recs[0]);
    } else {
      hide Step, CarriedPiece, AsMessage;
      k, piece := WalkCarries(msgs, Step(msgs, at, recs[0]).value, recs[1..], i - 1);
    }
  }

  lemma StepCarriesOf(msgs: seq<Outgoing>, at: Cursor, rec: Record) returns (k: nat, piece: Piece)
    requires Numbered(msgs) && Step(msgs, at, rec).Some? && !rec.isCcs
    ensures CarriesOf(msgs, rec, k, piece)
  {
    hide PieceBytes, ParseFragment, AsMessage, CarriedPiece;
    k, piece := at.written, Piece(at.offset, |rec.plaintext| - HM_HEADER_LENGTH);
    StepCarries(msgs, at, rec, k);
  }

  function Opposite(wrote: seq<bool>): (r: seq<bool>)
    ensures |r| == |wrote|
  {
    seq(|wrote|, i requires 0 <= i < |wrote| => !wrote[i])
  }

  // What was written and what was lost together carry what was passed over.
  lemma {:induction false} PiecesConserved(recs: seq<Record>, wrote: seq<bool>, seqno: int, i: nat)
    requires |recs| == |wrote|
    ensures
      var kept := CarriedPieces(Kept(recs, wrote), seqno);
      var lost := CarriedPieces(Kept(recs, Opposite(wrote)), seqno);
      && |kept| + |lost| == |CarriedPieces(recs, seqno)|
      && Covering(kept, i) + Covering(lost, i) == Covering(CarriedPieces(recs, seqno), i)
  {
    if recs != [] {
      hide CarriedPiece, Kept, Covering;
      PiecesConserved(recs[1..], wrote[1..], seqno, i);
      assert Opposite(wrote)[1..] == Opposite(wrote[1..]);
      KeptCarries(recs, wrote, seqno, i);
      KeptCarries(recs, Opposite(wrote), seqno, i);
      CoveringAppend(CarriedPiece(recs[0], seqno), CarriedPieces(recs[1..], seqno), i);
    }
  }

  lemma KeptCarries(recs: seq<Record>, wrote: seq<bool>, seqno: int, i: nat)
    requires |recs| == |wrote| && recs != []
    ensures
      var first := if wrote[0] then CarriedPiece(recs[0], seqno) else [];
      var rest := CarriedPieces(Kept(recs[1..], wrote[1..]), seqno);
      && CarriedPieces(Kept(recs, wrote), seqno) == first + rest
      && Covering(CarriedPieces(Kept(recs, wrote), seqno), i) == (if wrote[0] then Covering(first, i) else 0) + Covering(rest, i)
  {
    hide CarriedPiece;
    var first, rest := CarriedPiece(recs[0], seqno), Kept(recs[1..], wrote[1..]);
    if wrote[0] {
      assert ([recs[0]] + rest)[1..] == rest;
      CoveringAppend(first, CarriedPieces(rest, seqno), i);
    } else {
      assert [] + rest == rest;
      assert [] + CarriedPieces(rest, seqno) == CarriedPieces(rest, seqno);
    }
  }

  lemma {:induction false} CoveringAppend(a: seq<Piece>, b: seq<Piece>, i: nat)
    ensures Covering(a + b, i) == Covering(a, i) + Covering(b, i)
  {
    if a == [] {
      assert a + b == b;
    } else {
      CoveringAppend(a[1..], b, i);
      assert (a + b)[1..] == a[1..] + b;
    }
  }

  // A lost record's piece is among the lost pieces.
  lemma {:induction false} LostIsThere(recs: seq<Record>, wrote: seq<bool>, seqno: int, j: nat, piece: Piece, i: nat)
    requires |recs| == |wrote| && j < |recs| && !wrote[j] && CarriedPiece(recs[j], seqno) == [piece]
    ensures
      var lost := CarriedPieces(Kept(recs, Opposite(wrote)), seqno);
      |lost| >= 1 && (piece.off <= i < piece.off + piece.len ==> Covering(lost, i) >= 1)
    decreases |recs|
  {
    hide CarriedPiece;
    assert Opposite(wrote)[1..] == Opposite(wrote[1..]);
    KeptCarries(recs, Opposite(wrote), seqno, i);
    if j > 0 {
      LostIsThere(recs[1..], wrote[1..], seqno, j - 1, piece, i);
    }
  }

  // Every handshake record that was passed over was written.
  ghost predicate NoneLost(recs: seq<Record>, wrote: seq<bool>)
    requires |recs| == |wrote|
  {
    forall i :: 0 <= i < |recs| && !wrote[i] ==> recs[i].isCcs
  }

  lemma {:induction false} NoneLostIsKept(recs: seq<Record>, wrote: seq<bool>)
    requires |recs| == |wrote| && NoneLost(recs, wrote)
    ensures forall s :: s in recs && !s.isCcs ==> s in Kept(recs, wrote)
  {
    if recs != [] {
      NoneLostIsKept(recs[1..], wrote[1..]);
    }
  }

  lemma {:induction false} NoneLostCarriesAll(recs: seq<Record>, wrote: seq<bool>, seqno: int)
    requires |recs| == |wrote| && NoneLost(recs, wrote)
    ensures CarriedPieces(Kept(recs, wrote), seqno) == CarriedPieces(recs, seqno)
  {
    if recs != [] {
      NoneLostCarriesAll(recs[1..], wrote[1..], seqno);
      KeptCarries(recs, wrote, seqno, 0);
    }
  }

  // The records cut each message of the flight into consecutive pieces: each byte of
  // each body is in exactly one of them, and an empty body has one as well.
  ghost predicate EachOnce(msgs: seq<Outgoing>, recs: seq<Record>) {
    forall k: nat :: k < |msgs| && AsMessage(msgs[k]).Some? ==>
      PartitionOf(CarriedPieces(recs, AsMessage(msgs[k]).value.seqno), BodyLength(msgs, k))
  }

  // When the position has come to the end of the flight, what was written has every
  // message exactly once if and only if no handshake record was lost on the way.
  lemma OnceIfNoneLost(msgs: seq<Outgoing>, recs: seq<Record>, wrote: seq<bool>)
    requires Numbered(msgs) && Walk(msgs, START, recs) == Some(Cursor(|msgs|, 0)) && |recs| == |wrote|
    ensures EachOnce(msgs, Kept(recs, wrote)) <==> NoneLost(recs, wrote)
  {
    hide AsMessage, PartitionOf, Walk, CarriedPiece;
    if NoneLost(recs, wrote) {
      forall k: nat | k < |msgs| && AsMessage(msgs[k]).Some?
        ensures PartitionOf(CarriedPieces(Kept(recs, wrote), AsMessage(msgs[k]).value.seqno), BodyLength(msgs, k))
      {
        NoneLostCarriesAll(recs, wrote, AsMessage(msgs[k]).value.seqno);
        CarriedAreCut(msgs, START, recs, k, AsMessage(msgs[k]).value.seqno);
        FlightPartitions(msgs, recs, k);
      }
    } else {
      var j :| 0 <= j < |recs| && !wrote[j] && !recs[j].isCcs;
      LostIsMissed(msgs, recs, wrote, j);
    }
  }

  lemma LostIsMissed(msgs: seq<Outgoing>, recs: seq<Record>, wrote: seq<bool>, j: nat)
    requires Numbered(msgs) && Walk(msgs, START, recs) == Some(Cursor(|msgs|, 0)) && |recs| == |wrote|
    requires j < |recs| && !wrote[j] && !recs[j].isCcs
    ensures !EachOnce(msgs, Kept(recs, wrote))
  {
    hide AsMessage, Walk, CarriedPiece, CarriedPieces, Kept, Opposite, Tiles, Covering, Numbered, BodyLength;
    var k, piece := WalkCarries(msgs, START, recs, j);
    var seqno := AsMessage(msgs[k]).value.seqno;
    CarriedAreCut(msgs, START, recs, k, AsMessage(msgs[k]).value.seqno);
    FlightPartitions(msgs, recs, k);
    PiecesConserved(recs, wrote, seqno, piece.off);
    LostIsThere(recs, wrote, seqno, j, piece, piece.off);
  }
}
