// DTLS handshake fragments on the wire (section 4.2.2 of RFC 6347).
module DtlsWire {
  import opened Wrappers

  const HM_HEADER_LENGTH := 12

  predicate IsU16(n: int) { 0 <= n < 0x1_0000 }

  predicate IsU24(n: int) { 0 <= n < 0x100_0000 }

  function U16(n: int): (r: seq<byte>)
    requires IsU16(n)
    ensures |r| == 2
  {
    [n / 256, n % 256]
  }

  function U24(n: int): (r: seq<byte>)
    requires IsU24(n)
    ensures |r| == 3
  {
    [n / 65536, n / 256 % 256, n % 256]
  }

  function FromU16(b: seq<byte>): (n: int)
    requires |b| == 2
    ensures IsU16(n)
  {
    (b[0] as int) * 256 + b[1] as int
  }

  function FromU24(b: seq<byte>): (n: int)
    requires |b| == 3
    ensures IsU24(n)
  {
    (b[0] as int) * 65536 + (b[1] as int) * 256 + b[2] as int
  }

  lemma U16RoundTrip(n: int)
    requires IsU16(n)
    ensures FromU16(U16(n)) == n
  {
  }

  lemma U24RoundTrip(n: int)
    requires IsU24(n)
    ensures FromU24(U24(n)) == n
  {
  }

  // A record before it is sealed, and after it has been opened.
  datatype Record = Record(isCcs: bool, plaintext: seq<byte>)

  const CCS_BODY: seq<byte> := [1]

  // The header of a fragment: the message it belongs to, and the part of its body.
  datatype Header = Header(typ: byte, msgLen: int, seqno: int, fragOff: int, fragLen: int)

  predicate HeaderFits(h: Header) {
    IsU24(h.msgLen) && IsU16(h.seqno) && IsU24(h.fragOff) && IsU24(h.fragLen)
  }

  function HeaderBytes(h: Header): (r: seq<byte>)
    requires HeaderFits(h)
    ensures |r| == HM_HEADER_LENGTH
  {
    [h.typ] + U24(h.msgLen) + U16(h.seqno) + U24(h.fragOff) + U24(h.fragLen)
  }

  // Where the parts of a header are: the type, then three bytes of the message's length, two
  // of its number, and three each of the fragment's place and length, the highest first.
  lemma HeaderLayout(h: Header)
    requires HeaderFits(h)
    ensures
      var b := HeaderBytes(h);
      && |b| == 12 && b[0] == h.typ
      && 0x1_0000 * (b[1] as int) + 0x100 * (b[2] as int) + b[3] as int == h.msgLen
      && 0x100 * (b[4] as int) + b[5] as int == h.seqno
      && 0x1_0000 * (b[6] as int) + 0x100 * (b[7] as int) + b[8] as int == h.fragOff
      && 0x1_0000 * (b[9] as int) + 0x100 * (b[10] as int) + b[11] as int == h.fragLen
  {
  }

  function FragmentBytes(h: Header, body: seq<byte>): (r: seq<byte>)
    requires HeaderFits(h)
    ensures |r| == HM_HEADER_LENGTH + |body|
  {
    HeaderBytes(h) + body
  }

  datatype Parsed = Parsed(header: Header, body: seq<byte>, rest: seq<byte>)

  // Read a fragment off the front of the bytes. It fails on a short header or body.
  function ParseFragment(cbs: seq<byte>): (r: Option<Parsed>)
    ensures r.Some? ==>
      && HeaderFits(r.value.header) && |r.value.body| == r.value.header.fragLen
      && cbs == FragmentBytes(r.value.header, r.value.body) + r.value.rest
  {
    if |cbs| < HM_HEADER_LENGTH then None else
    var h := Header(cbs[0], FromU24(cbs[1..4]), FromU16(cbs[4..6]), FromU24(cbs[6..9]), FromU24(cbs[9..12]));
    if |cbs| < HM_HEADER_LENGTH + h.fragLen then None else
    HeaderOfBytes(cbs[..HM_HEADER_LENGTH]);
    assert cbs == cbs[..HM_HEADER_LENGTH] + cbs[HM_HEADER_LENGTH..HM_HEADER_LENGTH + h.fragLen] + cbs[HM_HEADER_LENGTH + h.fragLen..];
    Some(Parsed(h, cbs[HM_HEADER_LENGTH..HM_HEADER_LENGTH + h.fragLen], cbs[HM_HEADER_LENGTH + h.fragLen..]))
  }

  lemma U16OfBytes(b: seq<byte>)
    requires |b| == 2
    ensures U16(FromU16(b)) == b
  {
  }

  lemma U24OfBytes(b: seq<byte>)
    requires |b| == 3
    ensures U24(FromU24(b)) == b
  {
    var n := FromU24(b);
    assert n / 256 == (b[0] as int) * 256 + b[1] as int;
  }

  lemma HeaderOfBytes(b: seq<byte>)
    requires |b| == HM_HEADER_LENGTH
    ensures
      HeaderBytes(Header(b[0], FromU24(b[1..4]), FromU16(b[4..6]), FromU24(b[6..9]), FromU24(b[9..12]))) == b
  {
    hide U24, FromU24, U16, FromU16;
    U24OfBytes(b[1..4]);
    U16OfBytes(b[4..6]);
    U24OfBytes(b[6..9]);
    U24OfBytes(b[9..12]);
  }

  // A serialized fragment, whatever follows it, parses back to its header and body.
  lemma FragmentRoundTrip(h: Header, body: seq<byte>, rest: seq<byte>)
    requires HeaderFits(h) && |body| == h.fragLen
    ensures ParseFragment(FragmentBytes(h, body) + rest) == Some(Parsed(h, body, rest))
  {
    hide U24, FromU24, U16, FromU16;
    var cbs := FragmentBytes(h, body) + rest;
    U24RoundTrip(h.msgLen);
    U16RoundTrip(h.seqno);
    U24RoundTrip(h.fragOff);
    U24RoundTrip(h.fragLen);
    assert cbs[1..4] == U24(h.msgLen) && cbs[4..6] == U16(h.seqno);
    assert cbs[6..9] == U24(h.fragOff) && cbs[9..12] == U24(h.fragLen);
    assert cbs[HM_HEADER_LENGTH..HM_HEADER_LENGTH + h.fragLen] == body;
    assert cbs[HM_HEADER_LENGTH + h.fragLen..] == rest;
  }

  // A handshake message, and its own serialization: one fragment that is all of it.
  datatype Message = Message(typ: byte, seqno: int, body: seq<byte>)

  predicate MessageFits(m: Message) { IsU24(|m.body|) && IsU16(m.seqno) }

  function Whole(m: Message): Header { Header(m.typ, |m.body|, m.seqno, 0, |m.body|) }

  function MessageBytes(m: Message): (r: seq<byte>)
    requires MessageFits(m)
    ensures |r| == HM_HEADER_LENGTH + |m.body|
  {
    FragmentBytes(Whole(m), m.body)
  }

  // Starting a message leaves its length zero; finishing it copies the fragment length
  // over it. The body cannot be longer than its length prefix can say.
  function InitAndFinishMessage(typ: byte, seqno: int, body: seq<byte>): Option<seq<byte>>
    requires IsU16(seqno)
  {
    if !IsU24(|body|) then None else
    var started := [typ] + U24(0) + U16(seqno) + U24(0) + U24(|body|) + body;
    Some(started[..1] + started[HM_HEADER_LENGTH - 3..HM_HEADER_LENGTH] + started[4..])
  }

  lemma FinishedMessageIsWhole(typ: byte, seqno: int, body: seq<byte>)
    requires IsU16(seqno) && IsU24(|body|)
    ensures InitAndFinishMessage(typ, seqno, body) == Some(MessageBytes(Message(typ, seqno, body)))
  {
    hide U24, U16;
    var started := [typ] + U24(0) + U16(seqno) + U24(0) + U24(|body|) + body;
    assert started[..1] == [typ];
    assert started[9..12] == U24(|body|);
    assert started[4..] == U16(seqno) + U24(0) + U24(|body|) + body;
    var h := [typ] + U24(|body|) + U16(seqno) + U24(0) + U24(|body|);
    assert started[..1] + started[9..12] + started[4..] == h + body;
  }

  // The part of a message's body from off, len bytes long.
  function PieceHeader(m: Message, off: nat, len: nat): Header {
    Header(m.typ, |m.body|, m.seqno, off, len)
  }

  function PieceBytes(m: Message, off: nat, len: nat): (r: seq<byte>)
    requires MessageFits(m) && off + len <= |m.body|
    ensures |r| == HM_HEADER_LENGTH + len
  {
    FragmentBytes(PieceHeader(m, off, len), m.body[off..off + len])
  }
}
