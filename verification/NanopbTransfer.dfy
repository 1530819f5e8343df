// A message through the encoder and the decoder.
module NanopbTransfer {
  import opened Wrappers
  import opened NanopbFields
  import opened NanopbEncoding
  import opened NanopbRoundTrip
  import opened NanopbEncoder
  import opened NanopbDecoder
  import opened PowersOfTwo

  // Size a message, encode it into a buffer of just that size, and decode the buffer:
  // the message comes back, with its unset optional fields at their defaults.
  method Transfer(fields: seq<Field>, members: seq<Member>) returns (back: Option<seq<Member>>)
    requires WellFormed(fields) && Decodable(fields) && Fits(fields, members) && TypedMembers(fields, members)
    requires Encode(fields, members).Some? ==> |Encode(fields, members).value| < TWO_32
    ensures |members| == |fields| && back == Some(Settled(fields, members))
  {
    RoundTrip(fields, members);
    assert |members| == |fields|;
    DecodableCount(fields);
    hide *;
    var size := GetEncodedSize(fields, members);
    var buf := new byte[size.value];
    var written := EncodeToBuffer(buf, fields, members);
    assert buf[..] == buf[..written.value];
    back := DecodeFrom(buf[..], fields);
  }
}
