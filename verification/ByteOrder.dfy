// Numbers of fixed width as bytes, least significant first.
module ByteOrder {
  import opened Wrappers

  // The n low bytes of u.
  function LittleEndian(u: nat, n: nat): (r: seq<byte>)
    ensures |r| == n
    decreases n
  {
    if n == 0 then [] else [u % 256] + LittleEndian(u / 256, n - 1)
  }

  function FromLittleEndian(b: seq<byte>): (u: nat) {
    if b == [] then 0 else b[0] as int + 256 * FromLittleEndian(b[1..])
  }

  function Power256(n: nat): nat {
    if n == 0 then 1 else 256 * Power256(n - 1)
  }

  lemma {:induction false} LittleEndianRoundTrip(u: nat, n: nat)
    requires u < Power256(n)
    ensures FromLittleEndian(LittleEndian(u, n)) == u
    decreases n
  {
    if n > 0 {
      LittleEndianRoundTrip(u / 256, n - 1);
    }
  }

  lemma {:induction false} FromLittleEndianRange(b: seq<byte>)
    ensures FromLittleEndian(b) < Power256(|b|)
  {
    if b != [] {
      FromLittleEndianRange(b[1..]);
    }
  }
}
