/** The bit string that a QR Code segment is built in (BitBuffer of
    external/qrcodegen/QrCode.cpp), and numbers as bit strings. */
module BitStrings {
  import opened Bitwise

  /** The len lowest bits of val, highest first. */
  function ToBits(val: nat, len: nat): (s: seq<bool>)
    ensures |s| == len
  {
    if len == 0 then [] else ToBits(val / 2, len - 1) + [val % 2 == 1]
  }

  function FromBits(s: seq<bool>): nat {
    if s == [] then 0 else 2 * FromBits(s[..|s| - 1]) + if s[|s| - 1] then 1 else 0
  }

  lemma {:induction false} FromToBits(val: nat, len: nat)
    requires val < Pow2(len)
    ensures FromBits(ToBits(val, len)) == val
  {
    if len > 0 {
      FromToBits(val / 2, len - 1);
      assert ToBits(val, len)[..len - 1] == ToBits(val / 2, len - 1);
    }
  }

  lemma {:induction false} ToFromBits(s: seq<bool>)
    ensures FromBits(s) < Pow2(|s|)
    ensures ToBits(FromBits(s), |s|) == s
  {
    if s != [] {
      ToFromBits(s[..|s| - 1]);
      assert s == s[..|s| - 1] + [s[|s| - 1]];
    }
  }

  /** Bit k from the left of a len-bit string is bit len - 1 - k of the number. */
  lemma {:induction false} ToBitsAt(val: nat, len: nat, k: nat)
    requires k < len
    ensures ToBits(val, len)[k] == (Shr(val, len - 1 - k) % 2 == 1)
    decreases len
  {
    if k < len - 1 {
      ToBitsAt(val / 2, len - 1, k);
    }
  }

  /** A value fits a field of len bits; len is the source's int. */
  predicate Fits(val: nat, len: int) {
    0 <= len <= 31 && val < Pow2(len)
  }

  class BitBuffer {
    var bits: seq<bool>

    constructor ()
      ensures bits == []
    {
      bits := [];
    }

    method AppendBits(val: nat, len: int) returns (ok: bool)
      modifies this
      ensures ok <==> Fits(val, len)
      ensures bits == if ok then old(bits) + ToBits(val, len) else old(bits)
    {
      if len < 0 || len > 31 {
        return false;
      }
      ShrZero(val, len);
      if Shr(val, len) != 0 {
        return false;
      }
      var i := len;
      while i > 0
        invariant 0 <= i <= len
        invariant bits == old(bits) + ToBits(Shr(val, i), len - i)
      {
        i := i - 1;
        ShrHalf(val, i);
        bits := bits + [Shr(val, i) % 2 != 0];
      }
      ok := true;
    }
  }

  lemma {:induction false} ShrHalf(a: nat, n: nat)
    ensures Shr(a, n + 1) == Shr(a, n) / 2
    decreases n
  {
    if n > 0 {
      ShrHalf(a / 2, n - 1);
    }
  }
}
