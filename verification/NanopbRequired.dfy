// The record of required fields seen: two words of bits, one bit for each required field.
module NanopbRequired {
  const ALL_BITS: bv32 := 0xffff_ffff

  predicate Bit(w: bv32, k: bv32)
    requires k < 32
  {
    w & (1 << k) != 0
  }

  lemma OrBit(w: bv32, k: bv32, j: bv32)
    requires k < 32 && j < 32
    ensures Bit(w | (1 << k), j) <==> Bit(w, j) || j == k
  {
  }

  lemma NoBits(j: bv32)
    requires j < 32
    ensures !Bit(0, j)
  {
  }

  lemma LowBits(r: bv32, k: bv32)
    requires 0 < r < 32 && k < 32
    ensures Bit(ALL_BITS >> (32 - r), k) <==> k < r
  {
  }

  lemma AllBits(k: bv32)
    requires k < 32
    ensures Bit(ALL_BITS, k)
  {
  }

  lemma XorBit(w: bv32, u: bv32, k: bv32)
    requires k < 32
    ensures Bit(!(w ^ u), k) <==> (Bit(w, k) <==> Bit(u, k))
  {
  }

  lemma FullWord(w: bv32)
    requires forall k: bv32 :: k < 32 ==> Bit(w, k)
    ensures w == ALL_BITS
  {
    assert Bit(w, 0) && Bit(w, 1) && Bit(w, 2) && Bit(w, 3) && Bit(w, 4) && Bit(w, 5) && Bit(w, 6) && Bit(w, 7);
    assert Bit(w, 8) && Bit(w, 9) && Bit(w, 10) && Bit(w, 11) && Bit(w, 12) && Bit(w, 13) && Bit(w, 14) && Bit(w, 15);
    assert Bit(w, 16) && Bit(w, 17) && Bit(w, 18) && Bit(w, 19) && Bit(w, 20) && Bit(w, 21) && Bit(w, 22) && Bit(w, 23);
    assert Bit(w, 24) && Bit(w, 25) && Bit(w, 26) && Bit(w, 27) && Bit(w, 28) && Bit(w, 29) && Bit(w, 30) && Bit(w, 31);
  }

  lemma XorOfSame(w: bv32, u: bv32)
    requires !(w ^ u) == ALL_BITS
    ensures w == u
  {
  }

  // A word is determined by its bits.
  lemma SameBits(w: bv32, u: bv32)
    requires forall k: bv32 :: k < 32 ==> (Bit(w, k) <==> Bit(u, k))
    ensures w == u
  {
    hide Bit;
    var same := !(w ^ u);
    forall k: bv32 | k < 32 ensures Bit(same, k) {
      XorBit(w, u, k);
    }
    FullWord(same);
    XorOfSame(w, u);
  }

  // The low five bits of an index.
  function Low5(n: nat): (r: bv32)
    ensures r < 32 && r as nat == n % 32
  {
    ToWord(n % 32)
  }

  function ToWord(n: nat): (r: bv32)
    requires n < 32
    ensures r < 32 && r as nat == n
  {
    if n == 0 then 0 else AfterWord(ToWord(n - 1))
  }

  function AfterWord(r: bv32): (s: bv32)
    requires r < 31
    ensures s < 32 && s as nat == r as nat + 1
  {
    r + 1
  }

  // Whether required field number r has been seen.
  predicate Marked(words: seq<bv32>, r: nat)
    requires |words| == 2 && r < 64
  {
    Bit(words[r / 32], Low5(r))
  }

  lemma NoneMarked(r: nat)
    requires r < 64
    ensures !Marked([0, 0], r)
  {
    hide Bit;
    NoBits(Low5(r));
  }

  lemma SameWord(a: bv32, b: bv32)
    requires a < 32 && b < 32 && a as nat == b as nat
    ensures a == b
  {
  }

  lemma Low5Same(r: nat, s: nat)
    ensures Low5(r) == Low5(s) <==> r % 32 == s % 32
  {
    hide ToWord;
    if r % 32 == s % 32 { SameWord(Low5(r), Low5(s)); }
  }

  // Setting the bit of a required field marks it and no other.
  lemma MarkOne(words: seq<bv32>, r: nat, s: nat)
    requires |words| == 2 && r < 64 && s < 64
    ensures Marked(words[r / 32 := words[r / 32] | (1 << Low5(r))], s) <==> Marked(words, s) || s == r
  {
    Low5Same(r, s);
    hide Bit, Low5;
    if r / 32 == s / 32 {
      OrBit(words[r / 32], Low5(r), Low5(s));
    }
  }

  // Bit number k of word i belongs to the required field with this number.
  lemma MarkedBit(words: seq<bv32>, i: nat, k: bv32)
    requires |words| == 2 && i < 2 && k < 32
    ensures (k as nat) < 32 && (Marked(words, 32 * i + k as nat) <==> Bit(words[i], k))
  {
    SmallWord(k);
    var r := 32 * i + k as nat;
    assert r / 32 == i && r % 32 == k as nat;
    hide Bit, ToWord;
    SameWord(Low5(r), k);
  }

  lemma SmallWord(k: bv32)
    requires k < 32
    ensures (k as nat) < 32
  {
  }

  lemma WordOrder(a: bv32, b: bv32)
    requires a < 32 && b < 32
    ensures (a as nat) < (b as nat) <==> a < b
  {
  }

  // A word is full exactly when all of its fields have been seen.
  lemma WholeWord(words: seq<bv32>, i: nat)
    requires |words| == 2 && i < 2
    ensures words[i] == ALL_BITS <==> forall r :: 32 * i <= r < 32 * i + 32 ==> Marked(words, r)
  {
    hide Bit, Marked;
    if words[i] == ALL_BITS {
      forall r | 32 * i <= r < 32 * i + 32 ensures Marked(words, r) {
        AllBits(Low5(r));
        MarkedBit(words, i, Low5(r));
      }
    } else if forall r :: 32 * i <= r < 32 * i + 32 ==> Marked(words, r) {
      forall k: bv32 | k < 32 ensures Bit(words[i], k) {
        MarkedBit(words, i, k);
      }
      FullWord(words[i]);
    }
  }

  // All bits shifted down to the given number.
  function LowWord(rest: nat): bv32
    requires 0 < rest < 32
  {
    ALL_BITS >> (32 - Low5(rest))
  }

  lemma BitOfLowWord(rest: nat, k: bv32)
    requires 0 < rest < 32 && k < 32
    ensures Bit(LowWord(rest), k) <==> (k as nat) < rest
  {
    hide Bit, ToWord;
    WordOrder(k, Low5(rest));
    Low5Zero(rest);
    LowBits(Low5(rest), k);
  }

  lemma Low5Zero(rest: nat)
    requires 0 < rest < 32
    ensures Low5(rest) > 0
  {
    hide ToWord;
    WordOrder(0, Low5(rest));
  }

  // The last word holds exactly the remaining bits when all of their fields have been
  // seen, and no others have.
  lemma PartWord(words: seq<bv32>, i: nat, rest: nat)
    requires |words| == 2 && i < 2 && 0 < rest < 32
    requires forall r :: 32 * i + rest <= r < 32 * i + 32 ==> !Marked(words, r)
    ensures words[i] == LowWord(rest) <==> forall r :: 32 * i <= r < 32 * i + rest ==> Marked(words, r)
  {
    hide Bit, Marked, ToWord, LowWord;
    if words[i] == LowWord(rest) {
      forall r | 32 * i <= r < 32 * i + rest ensures Marked(words, r) {
        BitOfLowWord(rest, Low5(r));
        MarkedBit(words, i, Low5(r));
      }
    } else if forall r :: 32 * i <= r < 32 * i + rest ==> Marked(words, r) {
      forall k: bv32 | k < 32 ensures Bit(words[i], k) <==> Bit(LowWord(rest), k) {
        MarkedBit(words, i, k);
        BitOfLowWord(rest, k);
      }
      SameBits(words[i], LowWord(rest));
    }
  }

  // Check the whole words, and then the remaining bits. With none remaining the shift
  // would be by the width of a word, which is why their number must not be zero unless
  // nothing is required.
  method CheckRequired(words: seq<bv32>, count: nat) returns (ok: bool)
    requires |words| == 2 && count < 64 && (count == 0 || count % 32 != 0)
    requires forall r :: count <= r < 64 ==> !Marked(words, r)
    ensures ok <==> forall r :: 0 <= r < count ==> Marked(words, r)
  {
    hide Bit, Marked, LowWord;
    if count == 0 {
      return true;
    }
    for i := 0 to count / 32
      invariant forall r :: 0 <= r < 32 * i ==> Marked(words, r)
    {
      WholeWord(words, i);
      if words[i] != ALL_BITS {
        return false;
      }
    }
    PartWord(words, count / 32, count % 32);
    ok := words[count / 32] == LowWord(count % 32);
  }
}
