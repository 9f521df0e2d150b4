/** The segment factories of external/qrcodegen/QrCode.cpp and a reader for the bits they make,
    after section 7.4 of ISO/IEC 18004. */
module Segments {
  import opened Bitwise
  import opened BitStrings
  import opened Positional
  import opened Basics

  datatype Mode = NUMERIC | ALPHANUMERIC | BYTE | KANJI | ECI {
    function ModeBits(): nat {
      match this
      case NUMERIC => 0x1
      case ALPHANUMERIC => 0x2
      case BYTE => 0x4
      case KANJI => 0x8
      case ECI => 0x7
    }

    /** Width of the character count field in a symbol of the given version. */
    function CharCountBits(version: nat): nat
      requires 1 <= version <= 40
    {
      var i := (version + 7) / 17;
      match this
      case NUMERIC => if i == 0 then 10 else if i == 1 then 12 else 14
      case ALPHANUMERIC => if i == 0 then 9 else if i == 1 then 11 else 13
      case BYTE => if i == 0 then 8 else 16
      case KANJI => if i == 0 then 8 else if i == 1 then 10 else 12
      case ECI => 0
    }
  }

  datatype Segment = Segment(mode: Mode, numChars: nat, data: seq<bool>)

  // ---- Packing characters in groups ----

  /** Groups of at most `group` digits in base `base`; k digits take slope * k + 1 bits. */
  datatype Packing = Packing(base: nat, group: nat, slope: nat) {
    function Width(k: nat): nat {
      slope * k + 1
    }

    predicate Known() {
      this == Packing(10, 3, 3) || this == Packing(45, 2, 5)
    }
  }

  const DIGITS := Packing(10, 3, 3)
  const PAIRS := Packing(45, 2, 5)

  function Min(a: nat, b: nat): nat {
    if a < b then a else b
  }

  function Pack(p: Packing, vals: seq<nat>): seq<bool>
    requires p.Known()
  {
    if vals == [] then []
    else
      var k := Min(p.group, |vals|);
      ToBits(Num(p.base, vals[..k]), p.Width(k)) + Pack(p, vals[k..])
  }

  function PackedSize(p: Packing, n: nat): nat
    requires p.Known()
  {
    if n == 0 then 0 else var k := Min(p.group, n); p.Width(k) + PackedSize(p, n - k)
  }

  function Unpack(p: Packing, bits: seq<bool>, n: nat): (vals: seq<nat>)
    requires p.Known() && |bits| == PackedSize(p, n)
    ensures |vals| == n && AllBelow(vals, p.base)
    decreases n
  {
    if n == 0 then []
    else
      var k := Min(p.group, n);
      Digits(p.base, FromBits(bits[..p.Width(k)]), k) + Unpack(p, bits[p.Width(k)..], n - k)
  }

  lemma ValueFits(p: Packing, vals: seq<nat>)
    requires p.Known() && AllBelow(vals, p.base) && 0 < |vals| <= p.group
    ensures Fits(Num(p.base, vals), p.Width(|vals|))
  {
    Value3(p.base, vals);
    assert Pow2(4) == 16;
    assert Pow2(6) == 64;
    assert Pow2(7) == 128;
    assert Pow2(10) == 1024;
    assert Pow2(11) == 2048;
  }

  lemma Value3(base: nat, vals: seq<nat>)
    ensures |vals| == 1 ==> Num(base, vals) == vals[0]
    ensures |vals| == 2 ==> Num(base, vals) == base * vals[0] + vals[1]
    ensures |vals| == 3 ==> Num(base, vals) == base * (base * vals[0] + vals[1]) + vals[2]
  {
    if |vals| == 3 {
      assert vals[..2][..1] == [vals[0]];
    }
  }

  /** Packing loses nothing. */
  lemma {:induction false} UnpackPack(p: Packing, vals: seq<nat>)
    requires p.Known() && AllBelow(vals, p.base)
    ensures |Pack(p, vals)| == PackedSize(p, |vals|)
    ensures Unpack(p, Pack(p, vals), |vals|) == vals
    decreases |vals|
  {
    hide ToBits, FromBits, Num, Digits, Fits, Pack, Unpack;
    if vals == [] {
      PackNothing(p);
      UnpackNothing(p);
    } else {
      var k := Min(p.group, |vals|);
      var head, tail := vals[..k], vals[k..];
      UnpackPack(p, tail);
      ValueFits(p, head);
      FromToBits(Num(p.base, head), p.Width(k));
      DigitsNum(p.base, head);
      PackGroup(p, vals, k);
      UnpackGroup(p, ToBits(Num(p.base, head), p.Width(k)), Pack(p, tail), |vals|, k);
      assert vals == head + tail;
    }
  }

  lemma UnpackNothing(p: Packing)
    requires p.Known()
    ensures PackedSize(p, 0) == 0 && Unpack(p, [], 0) == []
  {
  }

  lemma UnpackGroup(p: Packing, first: seq<bool>, rest: seq<bool>, n: nat, k: nat)
    requires p.Known() && 0 < k == Min(p.group, n) && |first| == p.Width(k) && |rest| == PackedSize(p, n - k)
    ensures |first + rest| == PackedSize(p, n)
    ensures Unpack(p, first + rest, n) == Digits(p.base, FromBits(first), k) + Unpack(p, rest, n - k)
  {
    hide Digits, FromBits;
    var bits := first + rest;
    assert bits[..|first|] == first && bits[|first|..] == rest;
  }

  lemma PackGroup(p: Packing, vals: seq<nat>, k: nat)
    requires p.Known() && 0 < k == Min(p.group, |vals|)
    ensures Pack(p, vals) == ToBits(Num(p.base, vals[..k]), p.Width(k)) + Pack(p, vals[k..])
  {
  }

  /** A full group that starts at start is packed by itself. */
  lemma FullGroup(p: Packing, vals: seq<nat>, start: nat)
    requires p.Known() && AllBelow(vals, p.base) && start + p.group <= |vals|
    ensures var v := Num(p.base, vals[start..start + p.group]);
      Fits(v, p.Width(p.group)) && Pack(p, vals[start..]) == ToBits(v, p.Width(p.group)) + Pack(p, vals[start + p.group..])
  {
    hide Pack, ToBits, Fits, Num;
    var rest := vals[start..];
    assert rest[..p.group] == vals[start..start + p.group] && rest[p.group..] == vals[start + p.group..];
    PackGroup(p, rest, p.group);
    ValueFits(p, vals[start..start + p.group]);
  }

  /** What is left after the last full group is packed as a shorter one. */
  lemma LastGroup(p: Packing, vals: seq<nat>, start: nat)
    requires p.Known() && AllBelow(vals, p.base) && start < |vals| < start + p.group
    ensures var v := Num(p.base, vals[start..]);
      Fits(v, p.Width(|vals| - start)) && Pack(p, vals[start..]) == ToBits(v, p.Width(|vals| - start))
  {
    hide Pack, ToBits, Fits, Num;
    var rest := vals[start..];
    assert rest[..|rest|] == rest && rest[|rest|..] == [];
    PackGroup(p, rest, |rest|);
    ValueFits(p, rest);
    PackNothing(p);
  }

  /** The accumulator loop shared by makeNumeric and makeAlphanumeric. */
  method PackGroups(p: Packing, vals: seq<nat>) returns (bits: seq<bool>)
    requires p.Known() && AllBelow(vals, p.base)
    ensures bits == Pack(p, vals)
  {
    hide Pack, ToBits, Fits, Num, AllBelow;
    var bb := new BitBuffer();
    var accumData, accumCount, i := 0, 0, 0;
    ValueAppend(p.base, [], 0);
    PackNothing(p);
    assert vals[0..] == vals && vals[0..0] == [];
    while i < |vals|
      invariant 0 <= accumCount <= i <= |vals| && accumCount < p.group
      invariant accumData == Num(p.base, vals[i - accumCount..i])
      invariant bb.bits + Pack(p, vals[i - accumCount..]) == Pack(p, vals)
    {
      ghost var start := i - accumCount;
      assert vals[start..i + 1] == vals[start..i] + [vals[i]];
      ValueAppend(p.base, vals[start..i], vals[i]);
      accumData := accumData * p.base + vals[i];
      accumCount := accumCount + 1;
      if accumCount == p.group {
        FullGroup(p, vals, start);
        ghost var before := bb.bits;
        var _ := bb.AppendBits(accumData, p.Width(p.group));
        assert before + (ToBits(accumData, p.Width(p.group)) + Pack(p, vals[i + 1..])) == bb.bits + Pack(p, vals[i + 1..]);
        accumData, accumCount := 0, 0;
        assert vals[i + 1..i + 1] == [];
      }
      i := i + 1;
    }
    ghost var start := i - accumCount;
    assert vals[start..i] == vals[start..];
    if accumCount > 0 {
      LastGroup(p, vals, start);
      var _ := bb.AppendBits(accumData, p.Width(accumCount));
    } else {
      assert vals[start..] == [];
    }
    bits := bb.bits;
  }

  lemma ValueAppend(base: nat, vals: seq<nat>, v: nat)
    ensures Num(base, []) == 0
    ensures Num(base, vals + [v]) == base * Num(base, vals) + v
  {
    assert (vals + [v])[..|vals|] == vals;
  }

  lemma PackNothing(p: Packing)
    requires p.Known()
    ensures Pack(p, []) == []
  {
  }

  // ---- Characters ----

  const CHARSET: string := "0123456789ABCDEFGHIJKLMNOPQRSTUVWXYZ $%*+-./:"

  /** strchr: the place of the first c in the character set from index i on, if there is one. */
  function Find(c: char, i: nat): (r: Option<nat>)
    requires i <= 45
    ensures r.Some? ==> r.value < 45 && CHARSET[r.value] == c
    ensures r.None? ==> forall k :: i <= k < 45 ==> CHARSET[k] != c
    decreases 45 - i
  {
    if i == 45 then None else if CHARSET[i] == c then Some(i) else Find(c, i + 1)
  }

  predicate IsDigit(c: char) {
    '0' <= c <= '9'
  }

  predicate IsNumeric(text: string) {
    forall i :: 0 <= i < |text| ==> IsDigit(text[i])
  }

  predicate IsAlphanumeric(text: string) {
    forall i :: 0 <= i < |text| ==> Find(text[i], 0).Some?
  }

  function DigitValues(text: string): (r: seq<nat>)
    requires IsNumeric(text)
    ensures |r| == |text| && AllBelow(r, 10)
  {
    seq<nat>(|text|, i requires 0 <= i < |text| => text[i] as int - '0' as int)
  }

  function CharsetValues(text: string): (r: seq<nat>)
    requires IsAlphanumeric(text)
    ensures |r| == |text| && AllBelow(r, 45)
  {
    seq<nat>(|text|, i requires 0 <= i < |text| => Find(text[i], 0).value)
  }

  function DigitText(vals: seq<nat>): string
    requires AllBelow(vals, 10)
  {
    seq(|vals|, i requires 0 <= i < |vals| => (vals[i] + '0' as int) as char)
  }

  function CharsetText(vals: seq<nat>): string
    requires AllBelow(vals, 45)
  {
    seq(|vals|, i requires 0 <= i < |vals| => CHARSET[vals[i]])
  }

  // ---- What a segment stands for ----

  datatype Payload = Numeric(digits: string) | Alphanumeric(text: string) | Bytes(bytes: seq<nat>) | Eci(value: nat)

  /** The factories accept this payload. */
  predicate Encodable(p: Payload) {
    match p
    case Numeric(digits) => IsNumeric(digits)
    case Alphanumeric(text) => IsAlphanumeric(text)
    case Bytes(bytes) => AllBelow(bytes, 256) && |bytes| <= INT_MAX
    case Eci(value) => value < 1000000
  }

  const INT_MAX: nat := 0x7fff_ffff

  function PackBytes(bytes: seq<nat>): seq<bool> {
    if bytes == [] then [] else PackBytes(bytes[..|bytes| - 1]) + ToBits(bytes[|bytes| - 1], 8)
  }

  function PackEci(value: nat): seq<bool> {
    if value < 128 then ToBits(value, 8)
    else if value < 16384 then ToBits(2, 2) + ToBits(value, 14)
    else ToBits(6, 3) + ToBits(value, 21)
  }

  function ToSegment(p: Payload): Segment
    requires Encodable(p)
  {
    match p
    case Numeric(digits) => Segment(NUMERIC, |digits|, Pack(DIGITS, DigitValues(digits)))
    case Alphanumeric(text) => Segment(ALPHANUMERIC, |text|, Pack(PAIRS, CharsetValues(text)))
    case Bytes(bytes) => Segment(BYTE, |bytes|, PackBytes(bytes))
    case Eci(value) => Segment(ECI, 0, PackEci(value))
  }

  // ---- The factories ----

  method MakeBytes(data: seq<nat>) returns (res: Option<Segment>)
    requires AllBelow(data, 256)
    ensures res == if Encodable(Bytes(data)) then Some(ToSegment(Bytes(data))) else None
  {
    if |data| > INT_MAX {
      return None;
    }
    var bb := new BitBuffer();
    var i := 0;
    assert Pow2(8) == 256;
    while i < |data|
      invariant 0 <= i <= |data|
      invariant bb.bits == PackBytes(data[..i])
    {
      assert data[..i + 1][..i] == data[..i];
      var ok := bb.AppendBits(data[i], 8);
      i := i + 1;
    }
    assert data[..|data|] == data;
    return Some(Segment(BYTE, |data|, bb.bits));
  }

  method MakeNumeric(digits: string) returns (res: Option<Segment>)
    ensures res == if Encodable(Numeric(digits)) then Some(ToSegment(Numeric(digits))) else None
  {
    hide Pack;
    var vals: seq<nat> := [];
    var i := 0;
    while i < |digits|
      invariant 0 <= i == |vals| <= |digits|
      invariant forall k :: 0 <= k < i ==> IsDigit(digits[k]) && vals[k] == digits[k] as int - '0' as int
    {
      if !IsDigit(digits[i]) {
        return None;
      }
      vals := vals + [digits[i] as int - '0' as int];
      i := i + 1;
    }
    assert vals == DigitValues(digits);
    var bits := PackGroups(DIGITS, vals);
    return Some(Segment(NUMERIC, |digits|, bits));
  }

  method MakeAlphanumeric(text: string) returns (res: Option<Segment>)
    ensures res == if Encodable(Alphanumeric(text)) then Some(ToSegment(Alphanumeric(text))) else None
  {
    hide Pack, Find;
    var vals: seq<nat> := [];
    var i := 0;
    while i < |text|
      invariant 0 <= i == |vals| <= |text|
      invariant forall k :: 0 <= k < i ==> Find(text[k], 0) == Some(vals[k])
    {
      var found := Find(text[i], 0);
      if found.None? {
        return None;
      }
      vals := vals + [found.value];
      i := i + 1;
    }
    assert vals == CharsetValues(text);
    var bits := PackGroups(PAIRS, vals);
    return Some(Segment(ALPHANUMERIC, |text|, bits));
  }

  method MakeEci(assignVal: int) returns (res: Option<Segment>)
    ensures res == if 0 <= assignVal && Encodable(Eci(assignVal)) then Some(ToSegment(Eci(assignVal))) else None
  {
    EciFits();
    var bb := new BitBuffer();
    if assignVal < 0 {
      return None;
    } else if assignVal < 128 {
      var _ := bb.AppendBits(assignVal, 8);
    } else if assignVal < 16384 {
      var _ := bb.AppendBits(2, 2);
      var _ := bb.AppendBits(assignVal, 14);
    } else if assignVal < 1000000 {
      var _ := bb.AppendBits(6, 3);
      var _ := bb.AppendBits(assignVal, 21);
    } else {
      return None;
    }
    assert bb.bits == PackEci(assignVal);
    return Some(Segment(ECI, 0, bb.bits));
  }

  lemma EciFits()
    ensures Pow2(2) == 4 && Pow2(3) == 8 && Pow2(8) == 256
    ensures Pow2(14) == 16384 && Pow2(21) == 2097152
  {
    assert Pow2(7) == 128;
    assert Pow2(14) == 128 * Pow2(7);
    assert Pow2(18) == 16 * Pow2(14);
  }

  // ---- The bits of a segment list ----

  function SegmentBits(seg: Segment, version: nat): seq<bool>
    requires 1 <= version <= 40
  {
    ToBits(seg.mode.ModeBits(), 4) + (ToBits(seg.numChars, seg.mode.CharCountBits(version)) + seg.data)
  }

  function AllBits(segs: seq<Segment>, version: nat): seq<bool>
    requires 1 <= version <= 40
  {
    if segs == [] then [] else AllBits(segs[..|segs| - 1], version) + SegmentBits(segs[|segs| - 1], version)
  }

  predicate CountFits(seg: Segment, version: nat)
    requires 1 <= version <= 40
  {
    seg.numChars < Pow2(seg.mode.CharCountBits(version))
  }

  // ---- A reader ----

  datatype Parsed = Parsed(payload: Payload, rest: seq<bool>)

  function UnpackBytes(bits: seq<bool>, n: nat): (r: seq<nat>)
    requires |bits| == 8 * n
  {
    if n == 0 then [] else UnpackBytes(bits[..8 * n - 8], n - 1) + [FromBits(bits[8 * n - 8..])]
  }

  function ReadEci(body: seq<bool>): Option<Parsed> {
    if |body| >= 8 && !body[0] then Some(Parsed(Eci(FromBits(body[..8])), body[8..]))
    else if |body| >= 16 && body[0] && !body[1] then Some(Parsed(Eci(FromBits(body[2..16])), body[16..]))
    else if |body| >= 24 && body[0] && body[1] && !body[2] then Some(Parsed(Eci(FromBits(body[3..24])), body[24..]))
    else None
  }

  /** Reads the count and the data of one segment; the mode indicator is already consumed. */
  function ReadBody(mode: nat, body: seq<bool>, version: nat): (r: Option<Parsed>)
    requires 1 <= version <= 40
    ensures r.Some? ==> |r.value.rest| <= |body|
  {
    if mode == NUMERIC.ModeBits() then
      var cc := NUMERIC.CharCountBits(version);
      if |body| < cc then None else
      var n := FromBits(body[..cc]);
      var end := cc + PackedSize(DIGITS, n);
      if |body| < end then None
      else Some(Parsed(Numeric(DigitText(Unpack(DIGITS, body[cc..end], n))), body[end..]))
    else if mode == ALPHANUMERIC.ModeBits() then
      var cc := ALPHANUMERIC.CharCountBits(version);
      if |body| < cc then None else
      var n := FromBits(body[..cc]);
      var end := cc + PackedSize(PAIRS, n);
      if |body| < end then None
      else Some(Parsed(Alphanumeric(CharsetText(Unpack(PAIRS, body[cc..end], n))), body[end..]))
    else if mode == BYTE.ModeBits() then
      var cc := BYTE.CharCountBits(version);
      if |body| < cc then None else
      var n := FromBits(body[..cc]);
      var end := cc + 8 * n;
      if |body| < end then None
      else Some(Parsed(Bytes(UnpackBytes(body[cc..end], n)), body[end..]))
    else if mode == ECI.ModeBits() then ReadEci(body)
    else None
  }

  /** Reads segments until the terminator or the end of the bits; None when malformed. */
  function ReadAll(bits: seq<bool>, version: nat): Option<seq<Payload>>
    requires 1 <= version <= 40
    decreases |bits|
  {
    if |bits| < 4 || FromBits(bits[..4]) == 0 then Some([])
    else
      var one := ReadBody(FromBits(bits[..4]), bits[4..], version);
      if one.None? then None
      else
        var others := ReadAll(one.value.rest, version);
        if others.None? then None else Some([one.value.payload] + others.value)
  }

  // ---- Reading undoes writing ----

  lemma FieldThen(v: nat, len: nat, tail: seq<bool>)
    requires v < Pow2(len)
    ensures FromBits((ToBits(v, len) + tail)[..len]) == v
    ensures (ToBits(v, len) + tail)[len..] == tail
  {
    FromToBits(v, len);
    assert (ToBits(v, len) + tail)[..len] == ToBits(v, len);
  }

  lemma DigitTextValues(text: string)
    requires IsNumeric(text)
    ensures DigitText(DigitValues(text)) == text
  {
  }

  lemma CharsetTextValues(text: string)
    requires IsAlphanumeric(text)
    ensures CharsetText(CharsetValues(text)) == text
  {
    hide Find;
  }

  lemma {:induction false} UnpackPackBytes(bytes: seq<nat>)
    requires AllBelow(bytes, 256)
    ensures |PackBytes(bytes)| == 8 * |bytes|
    ensures UnpackBytes(PackBytes(bytes), |bytes|) == bytes
  {
    if bytes != [] {
      var init, last := bytes[..|bytes| - 1], bytes[|bytes| - 1];
      UnpackPackBytes(init);
      EciFits();
      FromToBits(last, 8);
      hide ToBits, FromBits;
      var bits := PackBytes(bytes);
      assert bits[..|bits| - 8] == PackBytes(init) && bits[|bits| - 8..] == ToBits(last, 8);
      assert bytes == init + [last];
    }
  }

  lemma ReadEciRoundTrip(value: nat, tail: seq<bool>)
    requires value < 1000000
    ensures ReadEci(PackEci(value) + tail) == Some(Parsed(Eci(value), tail))
  {
    hide ToBits, FromBits;
    EciFits();
    var body := PackEci(value) + tail;
    if value < 128 {
      FieldThen(value, 8, tail);
      assert !ToBits(value, 8)[0] by { ToBitsAt(value, 8, 0); ShrZero(value, 7); assert Pow2(7) == 128; }
    } else if value < 16384 {
      Literals();
      assert body == ToBits(2, 2) + (ToBits(value, 14) + tail);
      FieldThen(value, 14, tail);
      assert body[2..16] == (ToBits(value, 14) + tail)[..14];
      assert body[16..] == tail;
    } else {
      Literals();
      assert body == ToBits(6, 3) + (ToBits(value, 21) + tail);
      FieldThen(value, 21, tail);
      assert body[3..24] == (ToBits(value, 21) + tail)[..21];
      assert body[24..] == tail;
    }
  }

  lemma Literals()
    ensures ToBits(2, 2) == [true, false]
    ensures ToBits(6, 3) == [true, true, false]
  {
    assert ToBits(1, 1) == [true];
    assert ToBits(3, 2) == [true, true];
  }

  /** One segment, followed by anything, reads back as its payload and leaves the rest. */
  lemma ReadBodyRoundTrip(p: Payload, version: nat, tail: seq<bool>)
    requires 1 <= version <= 40 && Encodable(p) && CountFits(ToSegment(p), version)
    ensures ReadBody(ToSegment(p).mode.ModeBits(), SegmentBody(ToSegment(p), version) + tail, version)
            == Some(Parsed(p, tail))
  {
    hide ToBits, FromBits, Pack, Unpack, PackedSize, ReadEci, PackEci, PackBytes, UnpackBytes, Find;
    var seg := ToSegment(p);
    var cc := seg.mode.CharCountBits(version);
    var n := seg.numChars;
    var body := ToBits(n, cc) + seg.data + tail;
    assert body == ToBits(n, cc) + (seg.data + tail);
    FieldThen(n, cc, seg.data + tail);
    var end := cc + |seg.data|;
    assert body[cc..end] == seg.data && body[end..] == tail;
    match p
    case Numeric(digits) =>
      UnpackPack(DIGITS, DigitValues(digits));
      DigitTextValues(digits);
    case Alphanumeric(text) =>
      UnpackPack(PAIRS, CharsetValues(text));
      CharsetTextValues(text);
    case Bytes(bytes) =>
      UnpackPackBytes(bytes);
    case Eci(value) =>
      assert body == seg.data + tail by { NoBits(n); }
      ReadEciRoundTrip(value, tail);
  }

  lemma NoBits(n: nat)
    ensures ToBits(n, 0) == []
  {
  }

  lemma ModeField(mode: Mode, tail: seq<bool>)
    ensures |ToBits(mode.ModeBits(), 4) + tail| >= 4
    ensures FromBits((ToBits(mode.ModeBits(), 4) + tail)[..4]) == mode.ModeBits() != 0
    ensures (ToBits(mode.ModeBits(), 4) + tail)[4..] == tail
  {
    assert Pow2(4) == 16;
    FieldThen(mode.ModeBits(), 4, tail);
  }

  function ToSegments(ps: seq<Payload>): (r: seq<Segment>)
    requires forall i :: 0 <= i < |ps| ==> Encodable(ps[i])
    ensures |r| == |ps|
    ensures forall i :: 0 <= i < |ps| ==> r[i] == ToSegment(ps[i])
  {
    seq(|ps|, i requires 0 <= i < |ps| => ToSegment(ps[i]))
  }

  lemma {:induction false} AllBitsFirst(segs: seq<Segment>, version: nat)
    requires 1 <= version <= 40 && segs != []
    ensures AllBits(segs, version) == SegmentBits(segs[0], version) + AllBits(segs[1..], version)
    decreases |segs|
  {
    hide SegmentBits;
    if |segs| > 1 {
      var init := segs[..|segs| - 1];
      AllBitsFirst(init, version);
      assert init[1..] == segs[1..][..|segs| - 2];
    }
  }

  /** What ends the segments: fewer than four bits, or four zero bits. */
  predicate Terminated(tail: seq<bool>) {
    |tail| < 4 || (!tail[0] && !tail[1] && !tail[2] && !tail[3])
  }

  lemma FourZeros(tail: seq<bool>)
    requires |tail| >= 4 && Terminated(tail)
    ensures FromBits(tail[..4]) == 0
  {
    var t := tail[..4];
    assert t[..3][..2][..1] == [false];
    assert FromBits([false]) == 0;
    assert FromBits(t[..3][..2]) == 0;
    assert FromBits(t[..3]) == 0;
  }

  lemma ReadAllStep(bits: seq<bool>, version: nat, p: Payload, rest: seq<bool>, others: seq<Payload>)
    requires 1 <= version <= 40 && |bits| >= 4 && FromBits(bits[..4]) != 0
    requires ReadBody(FromBits(bits[..4]), bits[4..], version) == Some(Parsed(p, rest))
    requires ReadAll(rest, version) == Some(others)
    ensures ReadAll(bits, version) == Some([p] + others)
  {
    hide FromBits, ReadBody;
  }

  lemma ReadNothing(tail: seq<bool>, version: nat)
    requires 1 <= version <= 40 && Terminated(tail)
    ensures ReadAll(tail, version) == Some([])
  {
    hide FromBits, ReadBody;
    if |tail| >= 4 { FourZeros(tail); }
  }

  lemma ReadFirst(p: Payload, version: nat, rest: seq<bool>, others: seq<Payload>)
    requires 1 <= version <= 40 && Encodable(p) && CountFits(ToSegment(p), version)
    requires ReadAll(rest, version) == Some(others)
    ensures ReadAll(SegmentBits(ToSegment(p), version) + rest, version) == Some([p] + others)
  {
    hide *;
    var seg := ToSegment(p);
    var body := SegmentBody(seg, version) + rest;
    SegmentBitsSplit(seg, version);
    var bits := SegmentBits(seg, version) + rest;
    assert bits == ToBits(seg.mode.ModeBits(), 4) + body;
    ModeField(seg.mode, body);
    ReadBodyRoundTrip(p, version, rest);
    ReadAllStep(bits, version, p, rest, others);
  }

  ghost predicate Writable(ps: seq<Payload>, version: nat) {
    && 1 <= version <= 40
    && forall i :: 0 <= i < |ps| ==> Encodable(ps[i]) && CountFits(ToSegment(ps[i]), version)
  }

  /** The written segments, followed by a terminator, read back as the payloads they were made from. */
  lemma {:induction false} ReadAllRoundTrip(ps: seq<Payload>, version: nat, tail: seq<bool>)
    requires Writable(ps, version) && Terminated(tail)
    ensures ReadAll(AllBits(ToSegments(ps), version) + tail, version) == Some(ps)
    decreases |ps|
  {
    hide ToSegment, Encodable, CountFits, SegmentBits, ReadAll;
    if ps == [] {
      assert AllBits(ToSegments(ps), version) + tail == tail;
      ReadNothing(tail, version);
    } else {
      var others := ps[1..];
      ReadAllRoundTrip(others, version, tail);
      var segs := ToSegments(ps);
      assert segs[1..] == ToSegments(others);
      AllBitsFirst(segs, version);
      hide AllBits;
      var rest := AllBits(ToSegments(others), version) + tail;
      assert AllBits(segs, version) + tail == SegmentBits(segs[0], version) + rest;
      ReadFirst(ps[0], version, rest, others);
      assert ps == [ps[0]] + others;
    }
  }

  function SegmentBody(seg: Segment, version: nat): seq<bool>
    requires 1 <= version <= 40
  {
    ToBits(seg.numChars, seg.mode.CharCountBits(version)) + seg.data
  }

  lemma AllBitsStep(segs: seq<Segment>, k: nat, version: nat)
    requires 1 <= version <= 40 && k < |segs|
    ensures AllBits(segs[..k + 1], version) == AllBits(segs[..k], version) + SegmentBits(segs[k], version)
  {
    hide SegmentBits;
    assert segs[..k + 1][..k] == segs[..k];
  }

  lemma AppendedSegment(before: seq<bool>, seg: Segment, version: nat)
    requires 1 <= version <= 40
    ensures before + ToBits(seg.mode.ModeBits(), 4) + ToBits(seg.numChars, seg.mode.CharCountBits(version)) + seg.data
         == before + SegmentBits(seg, version)
  {
    hide ToBits;
  }

  /** The two header fields of a segment fit the widths they are written with. */
  lemma HeaderFits(seg: Segment, version: nat)
    requires 1 <= version <= 40 && CountFits(seg, version)
    ensures Fits(seg.mode.ModeBits(), 4) && Fits(seg.numChars, seg.mode.CharCountBits(version))
  {
    assert Pow2(4) == 16;
    hide Pow2;
  }

  lemma SegmentBitsSplit(seg: Segment, version: nat)
    requires 1 <= version <= 40
    ensures SegmentBits(seg, version) == ToBits(seg.mode.ModeBits(), 4) + SegmentBody(seg, version)
  {
  }

  // ---- getTotalBits ----

  function TotalBits(segs: seq<Segment>, version: nat): nat
    requires 1 <= version <= 40
  {
    if segs == [] then 0
    else
      var seg := segs[|segs| - 1];
      TotalBits(segs[..|segs| - 1], version) + 4 + seg.mode.CharCountBits(version) + |seg.data|
  }

  lemma {:induction false} TotalBitsIsLength(segs: seq<Segment>, version: nat)
    requires 1 <= version <= 40
    ensures |AllBits(segs, version)| == TotalBits(segs, version)
  {
    if segs != [] {
      TotalBitsIsLength(segs[..|segs| - 1], version);
    }
  }

  lemma {:induction false} TotalBitsMonotone(segs: seq<Segment>, version: nat, k: nat)
    requires 1 <= version <= 40 && k <= |segs|
    ensures TotalBits(segs[..k], version) <= TotalBits(segs, version)
    decreases |segs|
  {
    if k == |segs| {
      assert segs[..k] == segs;
    } else {
      TotalBitsMonotone(segs[..|segs| - 1], version, k);
      assert segs[..|segs| - 1][..k] == segs[..k];
    }
  }

  /** Every count fits its field and the sum fits an int. */
  ghost predicate Measurable(segs: seq<Segment>, version: nat)
    requires 1 <= version <= 40
  {
    TotalBits(segs, version) <= INT_MAX && forall i :: 0 <= i < |segs| ==> CountFits(segs[i], version)
  }

  method GetTotalBits(segs: seq<Segment>, version: nat) returns (result: int)
    requires 1 <= version <= 40
    ensures result == if Measurable(segs, version) then TotalBits(segs, version) else -1
  {
    result := 0;
    var k := 0;
    while k < |segs|
      invariant 0 <= k <= |segs| && result == TotalBits(segs[..k], version) <= INT_MAX
      invariant forall i :: 0 <= i < k ==> CountFits(segs[i], version)
    {
      var seg := segs[k];
      TotalBitsMonotone(segs, version, k + 1);
      assert segs[..k + 1][..k] == segs[..k];
      var ccbits := seg.mode.CharCountBits(version);
      if seg.numChars >= Pow2(ccbits) {
        return -1;
      }
      if 4 + ccbits > INT_MAX - result {
        return -1;
      }
      result := result + 4 + ccbits;
      if |seg.data| > INT_MAX - result {
        return -1;
      }
      result := result + |seg.data|;
      k := k + 1;
    }
    assert segs[..|segs|] == segs;
  }
}
