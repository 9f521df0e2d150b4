/** encodeSegments of external/qrcodegen/QrCode.cpp: choosing version and level, and turning
    segments into data codewords that fill the symbol exactly. */
module SegmentEncoder {
  import opened Bitwise
  import opened GF256
  import opened BitStrings
  import opened Segments
  import opened QrTables
  import opened Symbol
  import opened Basics

  // ---- Codewords and their bits ----

  function CodewordBits(data: seq<Byte>): (s: seq<bool>)
    ensures |s| == 8 * |data|
  {
    seq(8 * |data|, i requires 0 <= i < 8 * |data| => CodeBit(data, i))
  }

  /** x | (1 << s) for a byte. */
  function SetBit(x: nat, s: nat): nat {
    if Bit(x, s) then x else x + Pow2(s)
  }

  /** The bits of codeword j that have been written once i bits are packed. */
  function Written(i: nat, j: nat): (n: nat)
    ensures n <= 8
  {
    if i <= 8 * j then 0 else if i < 8 * j + 8 then i - 8 * j else 8
  }

  /** Codeword j once i bits are packed. */
  function Partial(bits: seq<bool>, i: nat, j: nat): nat
    requires i <= |bits| && 8 * j + 8 <= |bits|
  {
    FromBits(bits[8 * j..8 * j + Written(i, j)]) * Pow2(8 - Written(i, j))
  }

  lemma {:induction false} ShrMultiple(q: nat, m: nat, k: nat)
    requires k <= m
    ensures Shr(q * Pow2(m), k) == q * Pow2(m - k)
    decreases k
  {
    hide Pow2, Shr;
    if k == 0 {
      ShrNothing(q * Pow2(m));
    } else {
      PowStep(m - 1);
      TwiceProduct(q, Pow2(m - 1));
      ShrTwice(q * Pow2(m - 1), k - 1);
      ShrMultiple(q, m - 1, k - 1);
    }
  }

  lemma ShrNothing(a: nat)
    ensures Shr(a, 0) == a
  {
  }

  lemma ShrTwice(a: nat, k: nat)
    ensures Shr(2 * a, k + 1) == Shr(a, k)
  {
    assert 2 * a / 2 == a;
  }

  lemma TwiceProduct(q: nat, w: nat)
    ensures q * (2 * w) == 2 * (q * w)
  {
  }

  lemma EvenMultiple(q: nat, n: nat)
    requires n < 8
    ensures q * Pow2(8 - n) == 2 * (q * Pow2(7 - n))
    ensures !Bit(q * Pow2(8 - n), 7 - n)
  {
    hide Pow2, Shr;
    ShrMultiple(q, 8 - n, 7 - n);
    PowStep(0);
    PowStep(7 - n);
    var w := Pow2(7 - n);
    assert q * (2 * w) == 2 * (q * w);
  }

  lemma PowStep(n: nat)
    ensures Pow2(0) == 1
    ensures Pow2(n + 1) == 2 * Pow2(n)
  {
  }

  lemma FromBitsAppend(b: seq<bool>, x: bool)
    ensures FromBits([]) == 0
    ensures FromBits(b + [x]) == 2 * FromBits(b) + if x then 1 else 0
  {
    assert (b + [x])[..|b|] == b;
  }

  lemma PartialStep(b: seq<bool>, x: bool, n: nat)
    requires |b| == n < 8
    ensures FromBits(b + [x]) * Pow2(7 - n) ==
            if x then SetBit(FromBits(b) * Pow2(8 - n), 7 - n) else FromBits(b) * Pow2(8 - n)
  {
    hide Pow2, FromBits, Bit;
    var q, w := FromBits(b), Pow2(7 - n);
    FromBitsAppend(b, x);
    EvenMultiple(q, n);
    assert (2 * q + 1) * w == 2 * (q * w) + w;
    assert (2 * q) * w == 2 * (q * w);
  }

  lemma WholeByte(b: seq<bool>, k: nat)
    requires |b| == 8 && k < 8
    ensures FromBits(b) < 256
    ensures Bit(FromBits(b), 7 - k) == b[k]
  {
    hide FromBits, ToBits, Shr, Pow2;
    ToFromBits(b);
    ToBitsAt(FromBits(b), 8, k);
    ByteFits();
  }

  lemma PartialEnds(bits: seq<bool>, j: nat)
    requires 8 * j + 8 <= |bits|
    ensures Partial(bits, 0, j) == 0
    ensures Partial(bits, |bits|, j) == FromBits(bits[8 * j..8 * j + 8]) < 256
  {
    assert bits[8 * j..8 * j] == [];
    WholeByte(bits[8 * j..8 * j + 8], 0);
  }

  lemma PartialNext(bits: seq<bool>, i: nat, k: nat)
    requires i < |bits| && 8 * k + 8 <= |bits|
    ensures Partial(bits, i + 1, k) ==
            if k == i / 8 && bits[i] then SetBit(Partial(bits, i, k), 7 - i % 8) else Partial(bits, i, k)
  {
    hide FromBits, Pow2, SetBit;
    if k == i / 8 {
      var done := bits[8 * k..i];
      assert bits[8 * k..i + 1] == done + [bits[i]];
      PartialStep(done, bits[i], i % 8);
    } else {
      assert Written(i + 1, k) == Written(i, k);
    }
  }

  lemma BytesCarryBits(bits: seq<bool>, data: seq<Byte>)
    requires |bits| == 8 * |data|
    requires forall j :: 0 <= j < |data| ==> data[j] == FromBits(bits[8 * j..8 * j + 8])
    ensures CodewordBits(data) == bits
  {
    hide FromBits, Bit;
    forall k | 0 <= k < |bits|
      ensures CodewordBits(data)[k] == bits[k]
    {
      WholeByte(bits[8 * (k / 8)..8 * (k / 8) + 8], k % 8);
    }
  }

  method PackCodewords(bits: seq<bool>) returns (data: seq<Byte>)
    requires |bits| % 8 == 0
    ensures CodewordBits(data) == bits
  {
    hide Partial, SetBit, CodewordBits;
    var n := |bits| / 8;
    var words := new nat[n](i => 0);
    forall j | 0 <= j < n
      ensures Partial(bits, 0, j) == 0 && Partial(bits, |bits|, j) == FromBits(bits[8 * j..8 * j + 8]) < 256
    {
      PartialEnds(bits, j);
    }
    hide FromBits;
    var i := 0;
    while i < |bits|
      invariant 0 <= i <= |bits|
      invariant forall j :: 0 <= j < n ==> words[j] == Partial(bits, i, j)
    {
      forall j | 0 <= j < n
        ensures Partial(bits, i + 1, j) ==
                if j == i / 8 && bits[i] then SetBit(Partial(bits, i, j), 7 - i % 8) else Partial(bits, i, j)
      {
        PartialNext(bits, i, j);
      }
      if bits[i] {
        words[i / 8] := SetBit(words[i / 8], 7 - i % 8);
      }
      i := i + 1;
    }
    data := words[..];
    BytesCarryBits(bits, data);
  }

  // ---- Terminator and padding ----

  function Align(n: nat): nat {
    (8 - n % 8) % 8
  }

  /** Alternating pad bytes 0xEC and 0x11. */
  function PadBytes(k: nat): (s: seq<bool>)
    ensures |s| == 8 * k
  {
    if k == 0 then [] else PadBytes(k - 1) + ToBits(if k % 2 == 1 then 0xEC else 0x11, 8)
  }

  /** What follows used bits of segments in a symbol of cap bits. */
  function Filling(used: nat, cap: nat): (s: seq<bool>)
    requires used <= cap && cap % 8 == 0
    ensures |s| == cap - used
  {
    var t := Min(4, cap - used);
    var a := Align(used + t);
    FillingSizes(used, cap, t, a);
    ToBits(0, t) + ToBits(0, a) + PadBytes((cap - used - t - a) / 8)
  }

  lemma FillingSizes(used: nat, cap: nat, t: nat, a: nat)
    requires used <= cap && cap % 8 == 0 && t == Min(4, cap - used) && a == Align(used + t)
    ensures used + t + a <= cap && 8 * ((cap - used - t - a) / 8) == cap - used - t - a
  {
    AlignReaches(used + t);
    EightFold(used + t, a, (used + t + a) / 8, cap / 8);
  }

  lemma EightFold(m: nat, a: nat, n: nat, c: nat)
    requires m + a == 8 * n && m <= 8 * c && a < 8
    ensures n <= c && 8 * ((8 * c - m - a) / 8) == 8 * c - m - a
  {
    assert 8 * c - m - a == 8 * (c - n);
  }

  lemma AlignReaches(n: nat)
    ensures (n + Align(n)) % 8 == 0 && Align(n) < 8
  {
  }

  /** The filling starts with the terminator, as far as there is room for one. */
  lemma FillingTerminates(used: nat, cap: nat)
    requires used <= cap && cap % 8 == 0
    ensures Terminated(Filling(used, cap))
  {
    hide ToBits, PadBytes, Align;
    ZeroBits(Min(4, cap - used));
  }

  lemma {:induction false} ZeroBits(n: nat)
    ensures forall k :: 0 <= k < n ==> !ToBits(0, n)[k]
  {
    if n > 0 {
      ZeroBits(n - 1);
    }
  }

  lemma NothingFits(n: nat)
    requires n <= 31
    ensures Fits(0, n)
  {
  }

  method FillCapacity(bb: BitBuffer, cap: nat)
    requires |bb.bits| <= cap && cap % 8 == 0
    modifies bb
    ensures bb.bits == old(bb.bits) + Filling(|old(bb.bits)|, cap)
  {
    hide ToBits, PadBytes, Align, Fits, Filling;
    ghost var start := bb.bits;
    var t := Min(4, cap - |bb.bits|);
    NothingFits(t);
    var _ := bb.AppendBits(0, t);
    var a := Align(|bb.bits|);
    AlignReaches(|start| + t);
    FillingSizes(|start|, cap, t, a);
    NothingFits(a);
    var _ := bb.AppendBits(0, a);
    FillingIs(start, cap, t, a, (cap - |bb.bits|) / 8);
    AppendPadBytes(bb, cap);
  }

  lemma FillingIs(start: seq<bool>, cap: nat, t: nat, a: nat, n: nat)
    requires |start| <= cap && cap % 8 == 0 && t == Min(4, cap - |start|) && a == Align(|start| + t)
    requires n == (cap - (|start| + t + a)) / 8 && |start| + t + a <= cap
    ensures start + ToBits(0, t) + ToBits(0, a) + PadBytes(n) == start + Filling(|start|, cap)
  {
    hide ToBits, PadBytes, Align, Filling;
    FillingUnfold(|start|, cap, t, a, n);
    FourParts(start, ToBits(0, t), ToBits(0, a), PadBytes(n));
  }

  lemma FillingUnfold(used: nat, cap: nat, t: nat, a: nat, n: nat)
    requires used <= cap && cap % 8 == 0 && t == Min(4, cap - used) && a == Align(used + t)
    requires n == (cap - (used + t + a)) / 8
    ensures Filling(used, cap) == ToBits(0, t) + ToBits(0, a) + PadBytes(n)
  {
    hide ToBits, PadBytes, Align;
    assert cap - (used + t + a) == cap - used - t - a;
  }

  lemma FourParts(a: seq<bool>, b: seq<bool>, c: seq<bool>, d: seq<bool>)
    ensures a + b + c + d == a + (b + c + d)
  {
  }

  method AppendPadBytes(bb: BitBuffer, cap: nat)
    requires |bb.bits| <= cap && cap % 8 == 0 && |bb.bits| % 8 == 0
    modifies bb
    ensures bb.bits == old(bb.bits) + PadBytes((cap - |old(bb.bits)|) / 8)
  {
    hide ToBits, Pow2, Xor;
    ghost var start, k := bb.bits, 0;
    var padByte := 0xEC;
    ByteFits();
    Toggle();
    while |bb.bits| < cap
      invariant bb.bits == start + PadBytes(k) && |start| + 8 * k <= cap
      invariant padByte == if k % 2 == 0 then 0xEC else 0x11
      decreases cap - |bb.bits|
    {
      var _ := bb.AppendBits(padByte, 8);
      padByte := Xor(padByte, Xor(0xEC, 0x11));
      k := k + 1;
    }
  }

  lemma Toggle()
    ensures Xor(0xEC, Xor(0xEC, 0x11)) == 0x11
    ensures Xor(0x11, Xor(0xEC, 0x11)) == 0xEC
  {
    hide Xor;
    XorCancel(0xEC, 0x11);
    XorCancel(0x11, 0xEC);
    XorCommutative(0xEC, 0x11);
  }

  lemma ByteFits()
    ensures Pow2(8) == 256
  {
  }

  // ---- Choosing version and level ----

  ghost predicate FitsSymbol(segs: seq<Segment>, level: nat, version: nat)
    requires level < LEVELS && 1 <= version <= 40
  {
    Measurable(segs, version) && TotalBits(segs, version) <= 8 * Capacity(level, version)
  }

  datatype Outcome = InvalidValue | DataTooLong | Encoded(version: nat, level: nat, codewords: seq<Byte>)

  /** The smallest version in the range that holds the segments, at a level at least as high as
      asked for and as high as that version allows when boosting. */
  ghost predicate WellChosen(segs: seq<Segment>, level: nat, minVersion: nat, boost: bool, version: nat, level': nat)
    requires level < LEVELS && 1 <= minVersion <= version <= 40
  {
    && level <= level' < LEVELS && FitsSymbol(segs, level, version) && FitsSymbol(segs, level', version)
    && (forall v :: minVersion <= v < version ==> !FitsSymbol(segs, level, v))
    && (!boost ==> level' == level)
    && (boost ==> forall l :: level' < l < LEVELS ==> !FitsSymbol(segs, l, version))
  }

  /** The codewords hold the segments, a terminator and padding, and fill the symbol. */
  ghost predicate Filled(segs: seq<Segment>, level: nat, version: nat, codewords: seq<Byte>)
    requires level < LEVELS && 1 <= version <= 40
  {
    && |codewords| == Capacity(level, version)
    && |AllBits(segs, version)| <= 8 * |codewords|
    && CodewordBits(codewords) == AllBits(segs, version) + Filling(|AllBits(segs, version)|, 8 * |codewords|)
  }

  method EncodeSegments(segs: seq<Segment>, level: nat, minVersion: int, maxVersion: int, mask: int, boost: bool)
    returns (r: Outcome)
    requires level < LEVELS
    ensures r.InvalidValue? <==> !(1 <= minVersion <= maxVersion <= 40) || mask < -1 || mask > 7
    ensures !r.InvalidValue? ==>
      (r.DataTooLong? <==> forall v :: minVersion <= v <= maxVersion ==> !FitsSymbol(segs, level, v))
    ensures r.Encoded? ==>
      && minVersion <= r.version <= maxVersion
      && WellChosen(segs, level, minVersion, boost, r.version, r.level)
      && Filled(segs, r.level, r.version, r.codewords)
  {
    hide FitsSymbol, Capacity, TotalBits, AllBits, Filling;
    if !(1 <= minVersion <= maxVersion <= 40) || mask < -1 || mask > 7 {
      return InvalidValue;
    }
    var version, dataUsedBits := ChooseVersion(segs, level, minVersion, maxVersion);
    if dataUsedBits == -1 {
      return DataTooLong;
    }
    var ecl := BoostLevel(segs, level, version, dataUsedBits, boost);
    var bb := new BitBuffer();
    FitsMeans(segs, ecl, version);
    AppendSegments(bb, segs, version);
    TotalBitsIsLength(segs, version);
    FillCapacity(bb, Capacity(ecl, version) * 8);
    var dataCodewords := PackCodewords(bb.bits);
    return Encoded(version, ecl, dataCodewords);
  }

  lemma FitsMeans(segs: seq<Segment>, level: nat, version: nat)
    requires level < LEVELS && 1 <= version <= 40 && FitsSymbol(segs, level, version)
    ensures Measurable(segs, version) && TotalBits(segs, version) <= 8 * Capacity(level, version)
  {
  }

  /** The search for the smallest version; -1 bits when there is none. */
  method ChooseVersion(segs: seq<Segment>, level: nat, minVersion: nat, maxVersion: nat)
    returns (version: nat, dataUsedBits: int)
    requires level < LEVELS && 1 <= minVersion <= maxVersion <= 40
    ensures minVersion <= version <= maxVersion
    ensures forall v :: minVersion <= v < version ==> !FitsSymbol(segs, level, v)
    ensures if dataUsedBits == -1 then version == maxVersion && !FitsSymbol(segs, level, version)
            else FitsSymbol(segs, level, version) && dataUsedBits == TotalBits(segs, version)
  {
    hide Capacity, TotalBits;
    version := minVersion;
    while true
      invariant minVersion <= version <= maxVersion
      invariant forall v :: minVersion <= v < version ==> !FitsSymbol(segs, level, v)
      decreases maxVersion - version
    {
      var dataCapacityBits := Capacity(level, version) * 8;
      dataUsedBits := GetTotalBits(segs, version);
      if dataUsedBits != -1 && dataUsedBits <= dataCapacityBits {
        return;
      }
      if version >= maxVersion {
        return version, -1;
      }
      version := version + 1;
    }
  }

  /** Raising the level while the data still fits. */
  method BoostLevel(segs: seq<Segment>, level: nat, version: nat, dataUsedBits: nat, boost: bool) returns (ecl: nat)
    requires level < LEVELS && 1 <= version <= 40
    requires FitsSymbol(segs, level, version) && dataUsedBits == TotalBits(segs, version)
    ensures level <= ecl < LEVELS && FitsSymbol(segs, ecl, version)
    ensures !boost ==> ecl == level
    ensures boost ==> forall l :: ecl < l < LEVELS ==> !FitsSymbol(segs, l, version)
  {
    hide Capacity, TotalBits;
    ecl := level;
    var newEcl := 1;
    while newEcl < LEVELS
      invariant 1 <= newEcl <= LEVELS && ecl < LEVELS
      invariant FitsSymbol(segs, ecl, version)
      invariant !boost ==> ecl == level
      invariant level < newEcl ==> level <= ecl
      invariant ecl == level || ecl < newEcl
      invariant boost ==> forall l :: ecl < l < newEcl && level < l ==> !FitsSymbol(segs, l, version)
    {
      if boost && dataUsedBits <= Capacity(newEcl, version) * 8 {
        ecl := newEcl;
      }
      newEcl := newEcl + 1;
    }
  }

  lemma AllBitsNone(version: nat)
    requires 1 <= version <= 40
    ensures AllBits([], version) == []
  {
  }

  method AppendSegments(bb: BitBuffer, segs: seq<Segment>, version: nat)
    requires 1 <= version <= 40 && bb.bits == []
    requires forall i :: 0 <= i < |segs| ==> CountFits(segs[i], version)
    modifies bb
    ensures bb.bits == AllBits(segs, version)
  {
    hide ToBits, SegmentBits, AllBits, CountFits, Fits;
    var k := 0;
    AllBitsNone(version);
    assert segs[..0] == [];
    while k < |segs|
      invariant 0 <= k <= |segs| && bb.bits == AllBits(segs[..k], version)
    {
      var seg := segs[k];
      HeaderFits(seg, version);
      AllBitsStep(segs, k, version);
      AppendedSegment(bb.bits, seg, version);
      var _ := bb.AppendBits(seg.mode.ModeBits(), 4);
      var _ := bb.AppendBits(seg.numChars, seg.mode.CharCountBits(version));
      bb.bits := bb.bits + seg.data;
      k := k + 1;
    }
    assert segs[..|segs|] == segs;
  }

  // ---- Reading the codewords ----

  lemma CountsFitOfMeasurable(ps: seq<Payload>, version: nat)
    requires 1 <= version <= 40 && forall i :: 0 <= i < |ps| ==> Encodable(ps[i])
    requires Measurable(ToSegments(ps), version)
    ensures Writable(ps, version)
  {
    hide ToSegment, CountFits, Encodable, TotalBits;
    forall i | 0 <= i < |ps|
      ensures CountFits(ToSegment(ps[i]), version)
    {
      assert ToSegments(ps)[i] == ToSegment(ps[i]);
    }
  }

  /** The data codewords of a symbol read back as the payloads of its segments. */
  lemma CodewordsReadBack(ps: seq<Payload>, level: nat, version: nat, codewords: seq<Byte>)
    requires level < LEVELS && 1 <= version <= 40 && forall i :: 0 <= i < |ps| ==> Encodable(ps[i])
    requires Measurable(ToSegments(ps), version)
    requires Filled(ToSegments(ps), level, version, codewords)
    ensures ReadAll(CodewordBits(codewords), version) == Some(ps)
  {
    hide ToSegment, CountFits, Encodable, ReadAll, TotalBits, Capacity, CodewordBits, AllBits, Filling, Measurable, Terminated;
    hide ToSegments, Writable;
    var segs := ToSegments(ps);
    CountsFitOfMeasurable(ps, version);
    FillingTerminates(|AllBits(segs, version)|, 8 * |codewords|);
    ReadAllRoundTrip(ps, version, Filling(|AllBits(segs, version)|, 8 * |codewords|));
  }
}
