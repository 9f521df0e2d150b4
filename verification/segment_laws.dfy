/**
 * What a segment and the codewords made of segments look like, bit by bit, after section 7.4 of ISO/IEC 18004 and
 * without the definitions that build them (external/qrcodegen/QrCode.cpp).
 */
module SegmentLaws {
  import opened Arith
  import opened Basics
  import opened Bitwise
  import opened BitStrings
  import opened Positional
  import opened Symbol
  import opened QrTables
  import opened Segments
  import opened SegmentEncoder

  // ---- Headers ----

  /** A width that depends on the range the version lies in. */
  function ByRange(version: nat, small: nat, medium: nat, large: nat): nat {
    if version <= 9 then small else if version <= 26 then medium else large
  }

  lemma CountWidths(version: nat)
    requires 1 <= version <= 40
    ensures NUMERIC.CharCountBits(version) == ByRange(version, 10, 12, 14)
    ensures ALPHANUMERIC.CharCountBits(version) == ByRange(version, 9, 11, 13)
    ensures BYTE.CharCountBits(version) == ByRange(version, 8, 16, 16)
    ensures ECI.CharCountBits(version) == 0
  {
  }

  lemma Indicators()
    ensures ToBits(NUMERIC.ModeBits(), 4) == [false, false, false, true]
    ensures ToBits(ALPHANUMERIC.ModeBits(), 4) == [false, false, true, false]
    ensures ToBits(BYTE.ModeBits(), 4) == [false, true, false, false]
    ensures ToBits(ECI.ModeBits(), 4) == [false, true, true, true]
  {
  }

  /** A segment starts with 0001, 0010, 0100 or 0111, then its count in the width of the version, then its data. */
  lemma SegmentHeader(p: Payload, version: nat)
    requires Encodable(p) && 1 <= version <= 40
    ensures var bits, data := SegmentBits(ToSegment(p), version), ToSegment(p).data;
      match p
      case Numeric(digits) =>
        bits == [false, false, false, true] + (ToBits(|digits|, ByRange(version, 10, 12, 14)) + data)
      case Alphanumeric(text) =>
        bits == [false, false, true, false] + (ToBits(|text|, ByRange(version, 9, 11, 13)) + data)
      case Bytes(bytes) =>
        bits == [false, true, false, false] + (ToBits(|bytes|, ByRange(version, 8, 16, 16)) + data)
      case Eci(value) =>
        bits == [false, true, true, true] + data
  {
    hide ByRange, Pack, PackBytes, PackEci, Encodable;
    CountWidths(version);
    Indicators();
    assert ToBits(0, 0) == [];
    hide ToBits;
  }

  // ---- Digits and characters ----

  lemma TimesStep(a: nat, g: nat)
    requires g > 0
    ensures a * g == a + a * (g - 1)
  {
  }

  /** The groups are packed one after the other, each in its own bits. */
  lemma {:induction false} PackSplit(p: Packing, vals: seq<nat>, g: nat)
    requires p.Known() && p.group * g <= |vals|
    ensures |Pack(p, vals[..p.group * g])| == p.Width(p.group) * g
    ensures Pack(p, vals) == Pack(p, vals[..p.group * g]) + Pack(p, vals[p.group * g..])
    decreases g
  {
    hide Pack, ToBits, Num;
    var n := p.group * g;
    if g == 0 {
      PackNothing(p);
      assert vals[..n] == [] && vals[n..] == vals;
    } else {
      TimesStep(p.group, g);
      TimesStep(p.Width(p.group), g);
      var rest := vals[p.group..];
      PackSplit(p, rest, g - 1);
      assert vals[..n][..p.group] == vals[..p.group] && vals[..n][p.group..] == rest[..p.group * (g - 1)];
      assert vals[n..] == rest[p.group * (g - 1)..];
      PackGroup(p, vals, p.group);
      PackGroup(p, vals[..n], p.group);
    }
  }

  /** Group g of the values is found, as a number, in the bits that are its own. */
  lemma PackedGroup(p: Packing, vals: seq<nat>, g: nat)
    requires p.Known() && p.group * g + p.group <= |vals|
    ensures var from, w := p.group * g, p.Width(p.group);
      && w * g + w <= |Pack(p, vals)|
      && Pack(p, vals)[w * g..w * g + w] == ToBits(Num(p.base, vals[from..from + p.group]), w)
  {
    hide Pack, ToBits, Num;
    var from, w := p.group * g, p.Width(p.group);
    PackSplit(p, vals, g);
    var tail := vals[from..];
    PackGroup(p, tail, p.group);
    assert tail[..p.group] == vals[from..from + p.group];
  }

  /** What is left after g full groups takes the last bits. */
  lemma PackedRest(p: Packing, vals: seq<nat>, g: nat)
    requires p.Known() && p.group * g <= |vals| < p.group * g + p.group
    ensures var from, w := p.group * g, p.Width(p.group);
      && w * g <= |Pack(p, vals)|
      && Pack(p, vals)[w * g..] ==
         if from == |vals| then [] else ToBits(Num(p.base, vals[from..]), p.Width(|vals| - from))
  {
    hide Pack, ToBits, Num;
    var from := p.group * g;
    PackSplit(p, vals, g);
    var tail := vals[from..];
    PackNothing(p);
    if tail != [] {
      PackGroup(p, tail, |tail|);
      assert tail[..|tail|] == tail && tail[|tail|..] == [];
    }
  }

  function Digit(c: char): nat
    requires '0' <= c <= '9'
  {
    c as int - '0' as int
  }

  /** Three digits abc are the number 100a + 10b + c in ten bits. */
  lemma DigitGroups(text: string, g: nat)
    requires IsNumeric(text) && 3 * g + 3 <= |text|
    ensures var data := ToSegment(Numeric(text)).data;
      && 10 * g + 10 <= |data|
      && data[10 * g..10 * g + 10] ==
         ToBits(100 * Digit(text[3 * g]) + 10 * Digit(text[3 * g + 1]) + Digit(text[3 * g + 2]), 10)
  {
    hide Pack, ToBits, Num;
    var vals := DigitValues(text);
    PackedGroup(DIGITS, vals, g);
    Value3(10, vals[3 * g..3 * g + 3]);
  }

  /** Two digits that are left over take seven bits, one takes four. */
  lemma DigitRest(text: string, g: nat)
    requires IsNumeric(text) && 3 * g <= |text| < 3 * g + 3
    ensures var data := ToSegment(Numeric(text)).data;
      && 10 * g <= |data|
      && data[10 * g..] ==
         if |text| == 3 * g then []
         else if |text| == 3 * g + 1 then ToBits(Digit(text[3 * g]), 4)
         else ToBits(10 * Digit(text[3 * g]) + Digit(text[3 * g + 1]), 7)
  {
    hide Pack, ToBits, Num;
    var vals := DigitValues(text);
    PackedRest(DIGITS, vals, g);
    Value3(10, vals[3 * g..]);
  }

  /** The number of a character in alphanumeric mode. */
  function CharNumber(c: char): Option<nat> {
    if '0' <= c <= '9' then Some(c as int - '0' as int)
    else if 'A' <= c <= 'Z' then Some(c as int - 'A' as int + 10)
    else match c
      case ' ' => Some(36)
      case '$' => Some(37)
      case '%' => Some(38)
      case '*' => Some(39)
      case '+' => Some(40)
      case '-' => Some(41)
      case '.' => Some(42)
      case '/' => Some(43)
      case ':' => Some(44)
      case _ => None
  }

  lemma CharsetAt(k: nat)
    requires k < 45
    ensures k < 36 ==> CHARSET[k] as int == if k < 10 then k + 48 else k + 55
    ensures k >= 36 ==> CHARSET[k] == " $%*+-./:"[k - 36]
  {
    if k < 10 { CharsetDigits(k); } else if k < 23 { CharsetLetters(k); } else if k < 36 { CharsetMore(k); } else { CharsetSigns(k); }
  }

  lemma CharsetDigits(k: nat)
    requires k < 10
    ensures CHARSET[k] as int == k + 48
  {
    assert CHARSET[k] == "0123456789"[k];
  }

  lemma CharsetLetters(k: nat)
    requires 10 <= k < 23
    ensures CHARSET[k] as int == k + 55
  {
  }

  lemma CharsetMore(k: nat)
    requires 23 <= k < 36
    ensures CHARSET[k] as int == k + 55
  {
  }

  lemma CharsetSigns(k: nat)
    requires 36 <= k < 45
    ensures CHARSET[k] == " $%*+-./:"[k - 36]
  {
  }

  lemma SignNumbers(k: nat)
    requires k < 9
    ensures CharNumber(" $%*+-./:"[k]) == Some(36 + k)
  {
  }

  lemma CharsetNumbers(k: nat)
    requires k < 45
    ensures CharNumber(CHARSET[k]) == Some(k)
  {
    hide CHARSET;
    CharsetAt(k);
    if k >= 36 {
      SignNumbers(k - 36);
    }
  }

  lemma CharsetHas(c: char)
    requires CharNumber(c).Some?
    ensures CharNumber(c).value < 45 && CHARSET[CharNumber(c).value] == c
  {
    hide CHARSET;
    CharsetAt(CharNumber(c).value);
  }

  /** The character set holds the digits, the capital letters and nine signs, in this order. */
  lemma CharsetOrder(c: char)
    ensures Find(c, 0) == CharNumber(c)
  {
    hide CharNumber, CHARSET;
    if Find(c, 0).Some? {
      CharsetNumbers(Find(c, 0).value);
    }
    if CharNumber(c).Some? {
      CharsetHas(c);
    }
  }

  lemma CharsetValue(text: string, i: nat)
    requires IsAlphanumeric(text) && i < |text|
    ensures CharNumber(text[i]) == Some(CharsetValues(text)[i])
  {
    hide CharNumber, Find;
    CharsetOrder(text[i]);
  }

  /** Two characters with the numbers a and b are the number 45a + b in eleven bits. */
  lemma CharacterPairs(text: string, g: nat)
    requires IsAlphanumeric(text) && 2 * g + 2 <= |text|
    ensures var data, a, b := ToSegment(Alphanumeric(text)).data, CharNumber(text[2 * g]), CharNumber(text[2 * g + 1]);
      && 11 * g + 11 <= |data| && a.Some? && b.Some?
      && data[11 * g..11 * g + 11] == ToBits(45 * a.value + b.value, 11)
  {
    hide Pack, ToBits, Num, CharNumber, Find;
    var vals := CharsetValues(text);
    PackedGroup(PAIRS, vals, g);
    Value3(45, vals[2 * g..2 * g + 2]);
    CharsetValue(text, 2 * g);
    CharsetValue(text, 2 * g + 1);
  }

  /** A character that is left over takes six bits. */
  lemma CharacterRest(text: string, g: nat)
    requires IsAlphanumeric(text) && 2 * g <= |text| < 2 * g + 2
    ensures var data := ToSegment(Alphanumeric(text)).data;
      && 11 * g <= |data|
      && (|text| == 2 * g ==> data[11 * g..] == [])
      && (|text| == 2 * g + 1 ==>
           CharNumber(text[2 * g]).Some? && data[11 * g..] == ToBits(CharNumber(text[2 * g]).value, 6))
  {
    hide Pack, ToBits, Num, CharNumber, Find;
    var vals := CharsetValues(text);
    PackedRest(PAIRS, vals, g);
    Value3(45, vals[2 * g..]);
    if |text| == 2 * g + 1 {
      CharsetValue(text, 2 * g);
    }
  }

  // ---- Bytes and ECI ----

  /** Every byte stands in eight bits of its own. */
  lemma {:induction false} BytesInOrder(bytes: seq<nat>, i: nat)
    requires AllBelow(bytes, 256) && i < |bytes|
    ensures |PackBytes(bytes)| == 8 * |bytes| && PackBytes(bytes)[8 * i..8 * i + 8] == ToBits(bytes[i], 8)
    decreases |bytes|
  {
    hide ToBits, UnpackBytes;
    var init := bytes[..|bytes| - 1];
    UnpackPackBytes(init);
    if i < |init| {
      BytesInOrder(init, i);
      assert PackBytes(bytes)[8 * i..8 * i + 8] == PackBytes(init)[8 * i..8 * i + 8];
    }
  }

  lemma Joined(a: nat, b: nat, m: nat, n: nat)
    requires a < Pow2(m) && b < Pow2(n)
    ensures FromBits(ToBits(a, m) + ToBits(b, n)) == a * Pow2(n) + b
    decreases n
  {
    hide ToBits, FromBits;
    if n == 0 {
      assert ToBits(a, m) + ToBits(b, 0) == ToBits(a, m);
      FromToBits(a, m);
    } else {
      Joined(a, b / 2, m, n - 1);
      LastBit(ToBits(a, m), b, n);
      Doubled(a, Pow2(n - 1));
    }
  }

  lemma Doubled(a: nat, p: nat)
    ensures 2 * (a * p) == a * (2 * p)
  {
  }

  lemma LastBit(s: seq<bool>, b: nat, n: nat)
    requires n > 0
    ensures FromBits(s + ToBits(b, n)) == 2 * FromBits(s + ToBits(b / 2, n - 1)) + b % 2
  {
    var all := s + ToBits(b, n);
    assert all[..|all| - 1] == s + ToBits(b / 2, n - 1);
  }

  /** An ECI designator takes one, two or three bytes, whose first bits say which. */
  lemma EciForms(value: nat)
    requires value < 1000000
    ensures
      if value < 0x80 then |PackEci(value)| == 8 && FromBits(PackEci(value)) == value
      else if value < 0x4000 then |PackEci(value)| == 16 && FromBits(PackEci(value)) == 0x8000 + value
      else |PackEci(value)| == 24 && FromBits(PackEci(value)) == 0xC0_0000 + value
  {
    hide ToBits, FromBits, Pow2;
    EciPowers();
    if value < 0x80 {
      FromToBits(value, 8);
    } else if value < 0x4000 {
      Joined(2, value, 2, 14);
    } else {
      Joined(6, value, 3, 21);
    }
  }

  lemma EciPowers()
    ensures Pow2(2) == 4 && Pow2(3) == 8 && Pow2(8) == 256 && Pow2(14) == 0x4000 && Pow2(21) == 0x20_0000
  {
    assert Pow2(11) == 2048;
  }

  // ---- Codewords ----

  lemma WordBits(data: seq<Byte>, i: nat)
    requires i < |data|
    ensures CodewordBits(data)[8 * i..8 * i + 8] == ToBits(data[i], 8)
  {
    hide ToBits, Shr;
    var bits := CodewordBits(data)[8 * i..8 * i + 8];
    forall k | 0 <= k < 8
      ensures bits[k] == ToBits(data[i], 8)[k]
    {
      ToBitsAt(data[i], 8, k);
      DivModUnique(8, i, k);
      assert bits[k] == CodeBit(data, 8 * i + k);
    }
  }

  lemma CodewordByte(data: seq<Byte>, i: nat, v: Byte)
    requires i < |data| && CodewordBits(data)[8 * i..8 * i + 8] == ToBits(v, 8)
    ensures data[i] == v
  {
    hide ToBits, CodewordBits, FromBits;
    WordBits(data, i);
    ByteFits();
    FromToBits(v, 8);
    FromToBits(data[i], 8);
  }

  lemma {:induction false} PadByteAt(n: nat, i: nat)
    requires i < n
    ensures PadBytes(n)[8 * i..8 * i + 8] == ToBits(if i % 2 == 0 then 0xEC else 0x11, 8)
    decreases n
  {
    hide ToBits;
    if i < n - 1 {
      PadByteAt(n - 1, i);
      assert PadBytes(n)[8 * i..8 * i + 8] == PadBytes(n - 1)[8 * i..8 * i + 8];
    }
  }

  /** The first codeword that is padding throughout: the terminator takes four bits, and the rest of its byte. */
  function FirstPad(used: nat): nat {
    (used + 11) / 8
  }

  lemma FirstPadIs(used: nat, cap: nat)
    requires used <= cap && cap % 8 == 0
    ensures var t := Min(4, cap - used); var start := used + t + Align(used + t);
      start == if 8 * FirstPad(used) <= cap then 8 * FirstPad(used) else cap
  {
    hide Align;
    var c := cap / 8;
    AlignedUp(used + 4);
    AlignedUp(cap);
    Quotients(used, c);
  }

  lemma AlignedUp(n: nat)
    ensures n + Align(n) == 8 * ((n + 7) / 8)
    ensures n % 8 == 0 ==> Align(n) == 0
  {
    var q, r := n / 8, n % 8;
    assert n == 8 * q + r;
    if r == 0 {
      DivModUnique(8, q, 7);
    } else {
      DivModUnique(8, q + 1, r - 1);
    }
  }

  lemma Quotients(used: nat, c: nat)
    ensures used + 4 <= 8 * c <==> (used + 11) / 8 <= c
  {
  }

  lemma FillingParts(used: nat, cap: nat)
    requires used <= cap && cap % 8 == 0
    ensures forall k :: 0 <= k < cap - used && used + k < 8 * FirstPad(used) ==> !Filling(used, cap)[k]
    ensures 8 * FirstPad(used) <= cap ==>
      8 * FirstPad(used) >= used && Filling(used, cap)[8 * FirstPad(used) - used..] == PadBytes(cap / 8 - FirstPad(used))
  {
    hide ToBits, PadBytes, Align, FirstPad;
    var t := Min(4, cap - used);
    var a := Align(used + t);
    FillingSizes(used, cap, t, a);
    FirstPadIs(used, cap);
    ZeroBits(t);
    ZeroBits(a);
  }

  /** A codeword that is padding throughout is 0xEC or 0x11, in turn. */
  lemma PadCodeword(segs: seq<Segment>, level: nat, version: nat, words: seq<Byte>, i: nat)
    requires level < LEVELS && 1 <= version <= 40 && Filled(segs, level, version, words)
    requires FirstPad(|AllBits(segs, version)|) <= i < |words|
    ensures words[i] == if (i - FirstPad(|AllBits(segs, version)|)) % 2 == 0 then 0xEC else 0x11
  {
    hide ToBits, PadBytes, Filling, FirstPad, CodewordBits, AllBits, Capacity;
    var used, cap := |AllBits(segs, version)|, 8 * |words|;
    var first := FirstPad(used);
    FillingParts(used, cap);
    var bits := CodewordBits(words);
    assert bits[8 * first..] == PadBytes(|words| - first);
    PadByteAt(|words| - first, i - first);
    assert bits[8 * i..8 * i + 8] == bits[8 * first..][8 * (i - first)..8 * (i - first) + 8];
    CodewordByte(words, i, if (i - first) % 2 == 0 then 0xEC else 0x11);
  }

  /**
   * The codewords of a symbol: the bits of the segments, zeros to the end of the byte that the four-bit terminator
   * ends in, as far as there is room, and then 0xEC and 0x11 in turn.
   */
  lemma CodewordsShow(segs: seq<Segment>, level: nat, version: nat, words: seq<Byte>)
    requires level < LEVELS && 1 <= version <= 40 && Filled(segs, level, version, words)
    ensures var used, first, bits := |AllBits(segs, version)|, FirstPad(|AllBits(segs, version)|), CodewordBits(words);
      && used <= |bits| && bits[..used] == AllBits(segs, version)
      && (forall k :: used <= k < |bits| && k < 8 * first ==> !bits[k])
      && forall i :: first <= i < |words| ==> words[i] == if (i - first) % 2 == 0 then 0xEC else 0x11
  {
    hide ToBits, PadBytes, Filling, FirstPad, CodewordBits, AllBits, Capacity;
    var used, cap, bits := |AllBits(segs, version)|, 8 * |words|, CodewordBits(words);
    FillingParts(used, cap);
    forall k | used <= k < |bits| && k < 8 * FirstPad(used)
      ensures !bits[k]
    {
      assert bits[k] == Filling(used, cap)[k - used];
    }
    forall i | FirstPad(used) <= i < |words|
      ensures words[i] == if (i - FirstPad(used)) % 2 == 0 then 0xEC else 0x11
    {
      PadCodeword(segs, level, version, words, i);
    }
  }
}
