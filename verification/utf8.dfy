/** Sanitising of log lines (external/easylogging++/easylogging++.cc, utf8canonical and sanitize). */
module Utf8 {
  import opened Basics
  import Positional

  const LAST_CODE_POINT := 0x10ffff
  const QUESTION_MARK := 0x3f

  // ---- One code point ----

  datatype Decoded = Decoded(cp: nat, width: nat)

  /** The bytes that the lead byte announces, 0 when it is none. */
  function LeadWidth(b: Byte): nat {
    if b < 0x80 then 1
    else if 0xc0 <= b < 0xe0 then 2
    else if 0xe0 <= b < 0xf0 then 3
    else if 0xf0 <= b < 0xf8 then 4
    else 0
  }

  /** The low six bits of a continuation byte; its high bits are not looked at. */
  function Low(b: Byte): nat {
    b % 64
  }

  function DecodeFirst(s: seq<Byte>): Option<Decoded>
    requires s != []
  {
    var width := LeadWidth(s[0]);
    if width == 0 || width > |s| then None
    else if width == 1 then Some(Decoded(s[0], 1))
    else if width == 2 then Some(Decoded((s[0] - 0xc0) * 64 + Low(s[1]), 2))
    else if width == 3 then Some(Decoded((s[0] - 0xe0) * 4096 + Low(s[1]) * 64 + Low(s[2]), 3))
    else Some(Decoded((s[0] - 0xf0) * 262144 + Low(s[1]) * 4096 + Low(s[2]) * 64 + Low(s[3]), 4))
  }

  function Size(cp: nat): nat {
    if cp <= 0x7f then 1 else if cp <= 0x7ff then 2 else if cp <= 0xffff then 3 else 4
  }

  function Encode(cp: nat): (r: seq<Byte>)
    requires cp <= LAST_CODE_POINT
    ensures |r| == Size(cp)
  {
    if cp <= 0x7f then [cp]
    else if cp <= 0x7ff then [0xc0 + cp / 64, 0x80 + cp % 64]
    else if cp <= 0xffff then [0xe0 + cp / 4096, 0x80 + (cp / 64) % 64, 0x80 + cp % 64]
    else [0xf0 + cp / 262144, 0x80 + (cp / 4096) % 64, 0x80 + (cp / 64) % 64, 0x80 + cp % 64]
  }

  lemma SixBits(x: nat)
    requires x < 64
    ensures (0x80 + x) % 64 == x
  {
  }

  lemma TwoDigits(cp: nat)
    ensures cp == cp / 64 * 64 + cp % 64 && cp % 64 < 64
  {
  }

  lemma ThreeDigits(cp: nat)
    ensures cp == cp / 4096 * 4096 + (cp / 64) % 64 * 64 + cp % 64
  {
    TwoDigits(cp);
    TwoDigits(cp / 64);
    assert cp / 64 / 64 == cp / 4096;
  }

  lemma FourDigits(cp: nat)
    ensures cp == cp / 262144 * 262144 + (cp / 4096) % 64 * 4096 + (cp / 64) % 64 * 64 + cp % 64
  {
    ThreeDigits(cp);
    TwoDigits(cp / 4096);
    assert cp / 4096 / 64 == cp / 262144;
  }

  /** An encoded code point is read back, whatever follows it. */
  lemma DecodeEncoded(cp: nat, rest: seq<Byte>)
    requires cp <= LAST_CODE_POINT
    ensures DecodeFirst(Encode(cp) + rest) == Some(Decoded(cp, Size(cp)))
  {
    if cp <= 0x7f {
    } else if cp <= 0x7ff {
      DecodeTwo(cp, rest);
    } else if cp <= 0xffff {
      DecodeThree(cp, rest);
    } else {
      DecodeFour(cp, rest);
    }
  }

  lemma DecodeTwo(cp: nat, rest: seq<Byte>)
    requires 0x7f < cp <= 0x7ff
    ensures DecodeFirst(Encode(cp) + rest) == Some(Decoded(cp, 2))
  {
    SixBits(cp % 64);
    TwoDigits(cp);
  }

  lemma DecodeThree(cp: nat, rest: seq<Byte>)
    requires 0x7ff < cp <= 0xffff
    ensures DecodeFirst(Encode(cp) + rest) == Some(Decoded(cp, 3))
  {
    SixBits(cp % 64);
    SixBits(cp / 64 % 64);
    ThreeDigits(cp);
  }

  lemma DecodeFour(cp: nat, rest: seq<Byte>)
    requires 0xffff < cp <= LAST_CODE_POINT
    ensures DecodeFirst(Encode(cp) + rest) == Some(Decoded(cp, 4))
  {
    SixBits(cp % 64);
    SixBits(cp / 64 % 64);
    SixBits(cp / 4096 % 64);
    FourDigits(cp);
  }

  /** No encoding of a code point is shorter than the one Encode chooses. */
  lemma SizeIsLeast(s: seq<Byte>)
    requires s != [] && DecodeFirst(s).Some?
    ensures Size(DecodeFirst(s).value.cp) <= DecodeFirst(s).value.width <= |s| && 0 < DecodeFirst(s).value.width
  {
  }

  /** Two numbers compare as their quotients by 64 do, or as the remainders where those are equal. */
  lemma SixtyFours(a: nat, b: nat)
    requires a < b
    ensures a / 64 < b / 64 || (a / 64 == b / 64 && a % 64 < b % 64)
  {
  }

  lemma LessStep(a: nat, s: seq<nat>, b: nat, t: seq<nat>)
    ensures Positional.Less([a] + s, [b] + t) <==> a < b || (a == b && Positional.Less(s, t))
  {
    assert ([a] + s)[1..] == s && ([b] + t)[1..] == t;
  }

  lemma TwoOrder(a: nat, b: nat)
    requires 0x7f < a < b <= 0x7ff
    ensures Positional.Less(Encode(a), Encode(b))
  {
    SixtyFours(a, b);
    LessStep(0xc0 + a / 64, [0x80 + a % 64], 0xc0 + b / 64, [0x80 + b % 64]);
    assert Encode(a) == [0xc0 + a / 64] + [0x80 + a % 64];
    assert Encode(b) == [0xc0 + b / 64] + [0x80 + b % 64];
  }

  lemma ThreeOrder(a: nat, b: nat)
    requires 0x7ff < a < b <= 0xffff
    ensures Positional.Less(Encode(a), Encode(b))
  {
    var a', b' := a / 64, b / 64;
    SixtyFours(a, b);
    if a' < b' {
      SixtyFours(a', b');
    }
    ThreeBytes(a, a');
    ThreeBytes(b, b');
    hide Encode;
    LessStep(0x80 + a' % 64, [0x80 + a % 64], 0x80 + b' % 64, [0x80 + b % 64]);
    LessStep(0xe0 + a' / 64, [0x80 + a' % 64] + [0x80 + a % 64], 0xe0 + b' / 64, [0x80 + b' % 64] + [0x80 + b % 64]);
  }

  lemma ThreeBytes(cp: nat, q: nat)
    requires 0x7ff < cp <= 0xffff && q == cp / 64
    ensures Encode(cp) == [0xe0 + q / 64] + ([0x80 + q % 64] + [0x80 + cp % 64])
  {
    assert cp / 4096 == q / 64;
  }

  lemma FourOrder(a: nat, b: nat)
    requires 0xffff < a < b <= LAST_CODE_POINT
    ensures Positional.Less(Encode(a), Encode(b))
  {
    var a', b' := a / 64, b / 64;
    var a'', b'' := a' / 64, b' / 64;
    SixtyFours(a, b);
    if a' < b' {
      SixtyFours(a', b');
      if a'' < b'' {
        SixtyFours(a'', b'');
      }
    }
    FourBytes(a, a', a'');
    FourBytes(b, b', b'');
    hide Encode;
    LessStep(0x80 + a' % 64, [0x80 + a % 64], 0x80 + b' % 64, [0x80 + b % 64]);
    var s, t := [0x80 + a' % 64] + [0x80 + a % 64], [0x80 + b' % 64] + [0x80 + b % 64];
    LessStep(0x80 + a'' % 64, s, 0x80 + b'' % 64, t);
    LessStep(0xf0 + a'' / 64, [0x80 + a'' % 64] + s, 0xf0 + b'' / 64, [0x80 + b'' % 64] + t);
  }

  lemma FourBytes(cp: nat, q: nat, p: nat)
    requires 0xffff < cp <= LAST_CODE_POINT && q == cp / 64 && p == q / 64
    ensures Encode(cp) == [0xf0 + p / 64] + ([0x80 + p % 64] + ([0x80 + q % 64] + [0x80 + cp % 64]))
  {
    assert cp / 4096 == p && cp / 262144 == p / 64;
  }

  lemma WiderFollows(a: nat, b: nat)
    requires a <= b <= LAST_CODE_POINT && Size(a) < Size(b)
    ensures Encode(a)[0] < Encode(b)[0]
  {
  }

  /** Bytes compare as the code points do, the order that section 1 of RFC 3629 promises. */
  lemma EncodeOrder(a: nat, b: nat)
    requires a < b <= LAST_CODE_POINT
    ensures Positional.Less(Encode(a), Encode(b))
  {
    if Size(a) < Size(b) {
      WiderFollows(a, b);
      hide Encode;
    } else if b <= 0x7f {
    } else if b <= 0x7ff {
      TwoOrder(a, b);
    } else if b <= 0xffff {
      ThreeOrder(a, b);
    } else {
      FourOrder(a, b);
    }
  }

  // ---- Whole texts ----

  /** The code points of s, None where a lead byte is wrong or the text is cut off. */
  function DecodeAll(s: seq<Byte>): Option<seq<nat>>
    decreases |s|
  {
    if s == [] then Some([])
    else
      var d := DecodeFirst(s);
      if d.None? then None
      else
        SizeIsLeast(s);
        var rest := DecodeAll(s[d.value.width..]);
        if rest.None? then None else Some([d.value.cp] + rest.value)
  }

  predicate InRange(cps: seq<nat>) {
    forall i :: 0 <= i < |cps| ==> cps[i] <= LAST_CODE_POINT
  }

  function EncodeAll(cps: seq<nat>): seq<Byte>
    requires InRange(cps)
  {
    if cps == [] then [] else Encode(cps[0]) + EncodeAll(cps[1..])
  }

  /** Decoding reads back every encoded text. */
  lemma {:induction false} DecodeEncodedAll(cps: seq<nat>)
    requires InRange(cps)
    ensures DecodeAll(EncodeAll(cps)) == Some(cps)
  {
    hide Encode, DecodeFirst;
    if cps != [] {
      var rest := EncodeAll(cps[1..]);
      DecodeEncoded(cps[0], rest);
      DecodeEncodedAll(cps[1..]);
      assert (Encode(cps[0]) + rest)[Size(cps[0])..] == rest;
      assert cps == [cps[0]] + cps[1..];
    }
  }

  /** EncodeAll gives the shortest text with these code points. */
  lemma {:induction false} EncodedIsShortest(s: seq<Byte>)
    requires DecodeAll(s).Some? && InRange(DecodeAll(s).value)
    ensures |EncodeAll(DecodeAll(s).value)| <= |s|
    decreases |s|
  {
    hide Encode, DecodeFirst;
    if s != [] {
      SizeIsLeast(s);
      var d, cps := DecodeFirst(s).value, DecodeAll(s).value;
      assert cps[1..] == DecodeAll(s[d.width..]).value;
      EncodedIsShortest(s[d.width..]);
    }
  }

  // ---- The one-pass rewrite ----

  datatype Outcome = Done(text: seq<Byte>) | InvalidUtf8 | InvalidCodePoint | NeedsMoreSpace

  function Prepend(head: seq<Byte>, o: Outcome): Outcome {
    if o.Done? then Done(head + o.text) else o
  }

  /** What the loop makes of s, one code point at a time. */
  function Canonical(s: seq<Byte>, t: nat -> nat): Outcome
    decreases |s|
  {
    if s == [] then Done([])
    else
      var d := DecodeFirst(s);
      if d.None? then InvalidUtf8
      else
        SizeIsLeast(s);
        var cp := t(d.value.cp);
        if cp > LAST_CODE_POINT then InvalidCodePoint
        else if Size(cp) > d.value.width then NeedsMoreSpace
        else Prepend(Encode(cp), Canonical(s[d.value.width..], t))
  }

  function Mapped(cps: seq<nat>, t: nat -> nat): seq<nat> {
    seq(|cps|, i requires 0 <= i < |cps| => t(cps[i]))
  }

  lemma MappedFirst(cp: nat, cps: seq<nat>, t: nat -> nat)
    ensures Mapped([cp] + cps, t) == [t(cp)] + Mapped(cps, t)
  {
  }

  /** A finished rewrite is decode, transform, encode. */
  lemma {:induction false} CanonicalIsComposed(s: seq<Byte>, t: nat -> nat)
    requires Canonical(s, t).Done?
    ensures DecodeAll(s).Some? && InRange(Mapped(DecodeAll(s).value, t))
    ensures Canonical(s, t).text == EncodeAll(Mapped(DecodeAll(s).value, t))
    ensures |Canonical(s, t).text| <= |s|
    decreases |s|
  {
    hide Encode, DecodeFirst, Mapped;
    if s == [] {
      assert Mapped([], t) == [] by {
        MappedEmpty(t);
      }
    } else {
      SizeIsLeast(s);
      var d := DecodeFirst(s).value;
      var rest := s[d.width..];
      CanonicalIsComposed(rest, t);
      var cps := DecodeAll(rest).value;
      MappedFirst(d.cp, cps, t);
      InRangeFirst(t(d.cp), Mapped(cps, t));
      assert ([t(d.cp)] + Mapped(cps, t))[1..] == Mapped(cps, t);
    }
  }

  lemma MappedEmpty(t: nat -> nat)
    ensures Mapped([], t) == []
  {
  }

  lemma InRangeFirst(cp: nat, cps: seq<nat>)
    ensures InRange([cp] + cps) <==> cp <= LAST_CODE_POINT && InRange(cps)
  {
    assert forall i :: 0 <= i < |cps| ==> ([cp] + cps)[i + 1] == cps[i];
    if InRange([cp] + cps) {
      assert ([cp] + cps)[0] <= LAST_CODE_POINT;
    }
  }

  // ---- Sanitising ----

  /** Control characters other than tab and line ends. */
  predicate Control(cp: nat) {
    (cp < 0x20 && cp != 9 && cp != 10 && cp != 13) || 0x7f <= cp <= 0x9f
  }

  function Clean(cp: nat): nat {
    if cp == 9 || cp == 10 || cp == 13 then cp
    else if cp < 0x20 then QUESTION_MARK
    else if cp == 0x7f then QUESTION_MARK
    else if 0x80 <= cp <= 0x9f then QUESTION_MARK
    else cp
  }

  predicate CleanText(cps: seq<nat>) {
    InRange(cps) && forall i :: 0 <= i < |cps| ==> !Control(cps[i])
  }

  lemma CleanedIsClean(cps: seq<nat>)
    requires InRange(Mapped(cps, Clean))
    ensures CleanText(Mapped(cps, Clean))
    ensures CleanText(cps) ==> Mapped(cps, Clean) == cps
  {
    forall i | 0 <= i < |cps|
      ensures !Control(Mapped(cps, Clean)[i]) && (Control(cps[i]) || Mapped(cps, Clean)[i] == cps[i])
    {
      assert Mapped(cps, Clean)[i] == Clean(cps[i]);
    }
  }

  /** Sanitising is stopped by a wrong lead byte, a cut-off text or a code point out of range, and by nothing else. */
  lemma {:induction false} SanitizeAccepts(s: seq<Byte>)
    ensures Canonical(s, Clean).Done? <==> DecodeAll(s).Some? && InRange(DecodeAll(s).value)
    ensures Canonical(s, Clean) != NeedsMoreSpace
    decreases |s|
  {
    hide Encode, DecodeFirst;
    if s != [] && DecodeFirst(s).Some? {
      SizeIsLeast(s);
      var d := DecodeFirst(s).value;
      SanitizeAccepts(s[d.width..]);
      if DecodeAll(s[d.width..]).Some? {
        InRangeFirst(d.cp, DecodeAll(s[d.width..]).value);
      }
    }
  }

  /** The result holds no control characters, is shortest-form text, and is not longer than the input. */
  lemma SanitizedText(s: seq<Byte>)
    requires Canonical(s, Clean).Done?
    ensures var r := Canonical(s, Clean).text;
      && DecodeAll(r).Some? && CleanText(DecodeAll(r).value)
      && r == EncodeAll(DecodeAll(r).value)
      && DecodeAll(s).Some? && DecodeAll(r).value == Mapped(DecodeAll(s).value, Clean)
      && |r| <= |s|
  {
    hide Canonical, DecodeAll, EncodeAll, Mapped;
    CanonicalIsComposed(s, Clean);
    var cps := Mapped(DecodeAll(s).value, Clean);
    CleanedIsClean(DecodeAll(s).value);
    DecodeEncodedAll(cps);
  }

  /** Code point by code point: a control character becomes a question mark, anything else is kept. */
  lemma SanitizedPlaces(s: seq<Byte>)
    requires Canonical(s, Clean).Done?
    ensures var r := Canonical(s, Clean).text;
      && DecodeAll(s).Some? && DecodeAll(r).Some? && |DecodeAll(r).value| == |DecodeAll(s).value|
      && forall i :: 0 <= i < |DecodeAll(s).value| ==>
           var cp := DecodeAll(s).value[i];
           DecodeAll(r).value[i] == if (cp < 0x20 && cp !in {9, 10, 13}) || 0x7f <= cp <= 0x9f then 0x3f else cp
  {
    hide Canonical, DecodeAll, EncodeAll;
    SanitizedText(s);
    var cps := DecodeAll(s).value;
    forall i | 0 <= i < |cps|
      ensures Mapped(cps, Clean)[i] ==
              if (cps[i] < 0x20 && cps[i] !in {9, 10, 13}) || 0x7f <= cps[i] <= 0x9f then 0x3f else cps[i]
    {
      assert Mapped(cps, Clean)[i] == Clean(cps[i]);
    }
  }

  /** Exactly the shortest-form texts without control characters are left as they are. */
  lemma UnchangedExactly(s: seq<Byte>)
    ensures Canonical(s, Clean) == Done(s) <==>
      DecodeAll(s).Some? && CleanText(DecodeAll(s).value) && s == EncodeAll(DecodeAll(s).value)
  {
    hide Canonical, DecodeAll, EncodeAll, Mapped, Clean;
    SanitizeAccepts(s);
    if Canonical(s, Clean).Done? {
      SanitizedText(s);
      CanonicalIsComposed(s, Clean);
      CleanedIsClean(DecodeAll(s).value);
    }
  }

  /** Sanitising a second time changes nothing. */
  lemma SanitizeTwice(s: seq<Byte>)
    requires Canonical(s, Clean).Done?
    ensures Canonical(Canonical(s, Clean).text, Clean) == Canonical(s, Clean)
  {
    hide Canonical, DecodeAll, EncodeAll, Mapped, Clean;
    SanitizedText(s);
    UnchangedExactly(Canonical(s, Clean).text);
  }

  /** The high bits of continuation bytes are not checked: this text is not UTF-8, and is accepted. */
  lemma LooseContinuation()
    ensures Canonical([0xc3, 0x41], Clean) == Done([0xc3, 0x81])
    ensures !WellFormed([0xc3, 0x41])
  {
    var s: seq<Byte> := [0xc3, 0x41];
    assert DecodeFirst(s) == Some(Decoded(0xc1, 2));
    assert s[2..] == [];
    assert s[..2] == s;
    WellFormedStep(s);
  }

  /** The code points that are no characters, the halves of UTF-16 pairs. */
  predicate Surrogate(cp: nat) {
    0xd800 <= cp <= 0xdfff
  }

  predicate NoSurrogates(cps: seq<nat>) {
    forall i :: 0 <= i < |cps| ==> !Surrogate(cps[i])
  }

  /** An encoded surrogate passes through, so the output need not be UTF-8. */
  lemma SurrogateKept()
    ensures Canonical([0xed, 0xa0, 0x80], Clean) == Done([0xed, 0xa0, 0x80])
    ensures !WellFormed([0xed, 0xa0, 0x80])
  {
    var s: seq<Byte> := [0xed, 0xa0, 0x80];
    assert DecodeFirst(s) == Some(Decoded(0xd800, 3));
    assert s[3..] == [];
    assert s[..3] == s;
    WellFormedStep(s);
  }

  // ---- Valid UTF-8, after the syntax of section 4 of RFC 3629 ----

  predicate Tail(b: Byte) {
    0x80 <= b <= 0xbf
  }

  predicate WellFormedChar(c: seq<Byte>) {
    || (|c| == 1 && c[0] <= 0x7f)
    || (|c| == 2 && 0xc2 <= c[0] <= 0xdf && Tail(c[1]))
    || (|c| == 3 && Tail(c[2])
        && (|| (c[0] == 0xe0 && 0xa0 <= c[1] <= 0xbf)
            || (0xe1 <= c[0] <= 0xec && Tail(c[1]))
            || (c[0] == 0xed && 0x80 <= c[1] <= 0x9f)
            || (0xee <= c[0] <= 0xef && Tail(c[1]))))
    || (|c| == 4 && Tail(c[2]) && Tail(c[3])
        && (|| (c[0] == 0xf0 && 0x90 <= c[1] <= 0xbf)
            || (0xf1 <= c[0] <= 0xf3 && Tail(c[1]))
            || (c[0] == 0xf4 && 0x80 <= c[1] <= 0x8f)))
  }

  predicate WellFormed(s: seq<Byte>)
    decreases |s|
  {
    s == [] || exists w: nat :: 0 < w <= |s| && WellFormedChar(s[..w]) && WellFormed(s[w..])
  }

  /** A code point whose encoding is UTF-8. */
  predicate Scalar(cp: nat) {
    cp <= LAST_CODE_POINT && !Surrogate(cp)
  }

  lemma OneChar(a: Byte)
    requires LeadWidth(a) == 1
    ensures WellFormedChar([a]) && Scalar(a) && [a] == Encode(a)
  {
  }

  lemma TwoChar(a: Byte, b: Byte)
    requires LeadWidth(a) == 2
    ensures var cp := (a - 0xc0) * 64 + Low(b);
      WellFormedChar([a, b]) <==> Scalar(cp) && [a, b] == Encode(cp)
  {
    var cp := (a - 0xc0) * 64 + Low(b);
    assert cp / 64 == a - 0xc0 && cp % 64 == Low(b);
    LowTail(b);
  }

  lemma ThreeChar(a: Byte, b: Byte, c: Byte)
    requires LeadWidth(a) == 3
    ensures var cp := (a - 0xe0) * 4096 + Low(b) * 64 + Low(c);
      WellFormedChar([a, b, c]) <==> Scalar(cp) && [a, b, c] == Encode(cp)
  {
    hide Low;
    var x, y, z := a - 0xe0, Low(b), Low(c);
    LowTail(b);
    LowTail(c);
    ThreeParts(x, y, z);
  }

  lemma ThreeParts(x: nat, y: nat, z: nat)
    requires y < 64 && z < 64
    ensures var cp := x * 4096 + y * 64 + z; cp / 4096 == x && (cp / 64) % 64 == y && cp % 64 == z
  {
    var cp := x * 4096 + y * 64 + z;
    assert cp / 64 == x * 64 + y;
  }

  lemma FourChar(a: Byte, b: Byte, c: Byte, d: Byte)
    requires LeadWidth(a) == 4
    ensures var cp := (a - 0xf0) * 262144 + Low(b) * 4096 + Low(c) * 64 + Low(d);
      WellFormedChar([a, b, c, d]) <==> Scalar(cp) && [a, b, c, d] == Encode(cp)
  {
    hide Low;
    var w, x, y, z := a - 0xf0, Low(b), Low(c), Low(d);
    LowTail(b);
    LowTail(c);
    LowTail(d);
    ThreeParts(w * 64 + x, y, z);
    assert (w * 64 + x) / 64 == w && (w * 64 + x) % 64 == x;
    FourthPart(w * 64 + x, y, z);
  }

  lemma FourthPart(x: nat, y: nat, z: nat)
    requires y < 64 && z < 64
    ensures (x * 4096 + y * 64 + z) / 262144 == x / 64
  {
    ThreeParts(x, y, z);
    var cp := x * 4096 + y * 64 + z;
    assert cp / 4096 / 64 == cp / 262144;
  }

  lemma LowTail(b: Byte)
    ensures Low(b) < 64 && (Tail(b) <==> b == 0x80 + Low(b))
  {
  }

  /** The first character is UTF-8 exactly when it is the encoding of the code point read, no surrogate. */
  lemma FirstChar(s: seq<Byte>)
    requires s != [] && DecodeFirst(s).Some?
    ensures var d := DecodeFirst(s).value;
      && 0 < d.width <= |s|
      && (WellFormedChar(s[..d.width]) <==> Scalar(d.cp) && s[..d.width] == Encode(d.cp))
  {
    hide WellFormedChar, Encode, Scalar;
    var width := LeadWidth(s[0]);
    if width == 1 {
      OneChar(s[0]);
      assert s[..1] == [s[0]];
    } else if width == 2 {
      TwoChar(s[0], s[1]);
      assert s[..2] == [s[0], s[1]];
    } else if width == 3 {
      ThreeChar(s[0], s[1], s[2]);
      assert s[..3] == [s[0], s[1], s[2]];
    } else {
      FourChar(s[0], s[1], s[2], s[3]);
      assert s[..4] == [s[0], s[1], s[2], s[3]];
    }
  }

  /** A UTF-8 character is as long as its lead byte says. */
  lemma CharWidth(c: seq<Byte>)
    requires WellFormedChar(c)
    ensures c != [] && |c| == LeadWidth(c[0])
  {
  }

  /** A text is UTF-8 when its first character is and the rest is. */
  lemma WellFormedStep(s: seq<Byte>)
    requires s != []
    ensures WellFormed(s) <==>
      && DecodeFirst(s).Some?
      && 0 < DecodeFirst(s).value.width <= |s|
      && WellFormedChar(s[..DecodeFirst(s).value.width])
      && WellFormed(s[DecodeFirst(s).value.width..])
  {
    hide WellFormedChar;
    if WellFormed(s) {
      var w: nat :| 0 < w <= |s| && WellFormedChar(s[..w]) && WellFormed(s[w..]);
      CharWidth(s[..w]);
      assert s[..w][0] == s[0];
    }
  }

  lemma NoSurrogatesFirst(cp: nat, cps: seq<nat>)
    ensures NoSurrogates([cp] + cps) <==> !Surrogate(cp) && NoSurrogates(cps)
  {
    assert forall i :: 0 <= i < |cps| ==> ([cp] + cps)[i + 1] == cps[i];
    if NoSurrogates([cp] + cps) {
      assert !Surrogate(([cp] + cps)[0]);
    }
  }

  /** The shortest-form text of these code points. */
  predicate Shortest(s: seq<Byte>, cps: seq<nat>) {
    InRange(cps) && s == EncodeAll(cps)
  }

  lemma ShortestFirst(s: seq<Byte>, cp: nat, width: nat, cps: seq<nat>)
    requires 0 < width <= |s| && DecodeAll(s[width..]) == Some(cps) && (cp <= LAST_CODE_POINT ==> Size(cp) <= width)
    ensures Shortest(s, [cp] + cps) <==>
      cp <= LAST_CODE_POINT && s[..width] == Encode(cp) && Shortest(s[width..], cps)
  {
    hide Encode, Size, InRange;
    InRangeFirst(cp, cps);
    assert ([cp] + cps)[1..] == cps;
    if cp <= LAST_CODE_POINT && InRange(cps) {
      EncodedIsShortest(s[width..]);
      assert s == s[..width] + s[width..];
    }
  }

  /**
   * Valid UTF-8 is what this decoder accepts, in shortest form and without surrogates. An accepted text is
   * therefore UTF-8 if and only if it is the encoding of its own code points and none of them is a surrogate.
   */
  lemma {:induction false} WellFormedExactly(s: seq<Byte>)
    ensures WellFormed(s) <==>
      DecodeAll(s).Some? && Shortest(s, DecodeAll(s).value) && NoSurrogates(DecodeAll(s).value)
    decreases |s|
  {
    hide WellFormedChar, Encode, DecodeFirst, Shortest, NoSurrogates, Surrogate, WellFormed;
    if s == [] {
      NothingWellFormed();
    } else {
      WellFormedStep(s);
      if DecodeFirst(s).Some? {
        SizeIsLeast(s);
        FirstChar(s);
        var d := DecodeFirst(s).value;
        var rest := s[d.width..];
        WellFormedExactly(rest);
        if DecodeAll(rest).Some? {
          ShortestFirst(s, d.cp, d.width, DecodeAll(rest).value);
          NoSurrogatesFirst(d.cp, DecodeAll(rest).value);
        }
      }
    }
  }

  lemma NothingWellFormed()
    ensures WellFormed([]) && Shortest([], []) && NoSurrogates([])
  {
  }

  /** The sanitised text is UTF-8 if and only if no code point of the input is a surrogate. */
  lemma SanitizedIsUtf8Exactly(s: seq<Byte>)
    requires Canonical(s, Clean).Done?
    ensures DecodeAll(s).Some?
    ensures WellFormed(Canonical(s, Clean).text) <==> NoSurrogates(DecodeAll(s).value)
  {
    hide Canonical, DecodeAll, EncodeAll, WellFormed, InRange;
    SanitizedText(s);
    WellFormedExactly(Canonical(s, Clean).text);
    var cps := DecodeAll(s).value;
    CleanKeepsSurrogates(cps);
  }

  lemma CleanKeepsSurrogates(cps: seq<nat>)
    ensures NoSurrogates(Mapped(cps, Clean)) <==> NoSurrogates(cps)
  {
    forall i | 0 <= i < |cps|
      ensures Surrogate(Mapped(cps, Clean)[i]) <==> Surrogate(cps[i])
    {
      assert Mapped(cps, Clean)[i] == Clean(cps[i]);
    }
    if NoSurrogates(Mapped(cps, Clean)) {
      forall i | 0 <= i < |cps|
        ensures !Surrogate(cps[i])
      {
        assert !Surrogate(Mapped(cps, Clean)[i]);
      }
    }
  }

  /** A rejected text is not UTF-8: sanitising never turns valid UTF-8 away, and keeps it valid. */
  lemma Utf8Accepted(s: seq<Byte>)
    requires WellFormed(s)
    ensures Canonical(s, Clean).Done? && WellFormed(Canonical(s, Clean).text)
  {
    hide Canonical, DecodeAll, EncodeAll, WellFormed, NoSurrogates;
    WellFormedExactly(s);
    SanitizeAccepts(s);
    SanitizedIsUtf8Exactly(s);
  }

  // ---- The loop itself ----

  method WriteAt(a: array<Byte>, w: nat, code: seq<Byte>)
    requires w + |code| <= a.Length
    modifies a
    ensures a[..] == old(a[..w]) + code + old(a[w + |code|..])
  {
    for k := 0 to |code|
      invariant forall j :: 0 <= j < a.Length ==> a[j] == if w <= j < w + k then code[j - w] else old(a[j])
    {
      a[w + k] := code[k];
    }
  }

  /** Rewrites the text in place; the first n bytes are the result. */
  method Utf8Canonical(a: array<Byte>, t: nat -> nat) returns (o: Outcome, n: nat)
    modifies a
    ensures o == Canonical(old(a[..]), t)
    ensures o.Done? ==> n <= a.Length && a[..n] == o.text
  {
    hide Encode, DecodeFirst, Size, Canonical;
    ghost var s := a[..];
    var i := 0;
    n := 0;
    assert s[0..] == s;
    PrependNone(Canonical(s, t));
    while i < a.Length
      invariant 0 <= n <= i <= a.Length
      invariant a[i..] == s[i..]
      invariant Prepend(a[..n], Canonical(s[i..], t)) == Canonical(s, t)
    {
      CanonicalStep(s[i..], t);
      var d := DecodeFirst(a[i..]);
      if d.None? {
        return InvalidUtf8, 0;
      }
      SizeIsLeast(a[i..]);
      var cp := t(d.value.cp);
      if cp > LAST_CODE_POINT {
        return InvalidCodePoint, 0;
      }
      var code := Encode(cp);
      if |code| > d.value.width {
        return NeedsMoreSpace, 0;
      }
      ghost var before := a[..];
      var width := d.value.width;
      WriteAt(a, n, code);
      WriteKeeps(before, n, code, i + width, a[..]);
      PrependTwice(before[..n], code, Canonical(s[i + width..], t));
      assert s[i..][width..] == s[i + width..];
      assert before[i + width..] == before[i..][width..];
      n, i := n + |code|, i + width;
    }
    assert s[i..] == [];
    CanonicalStep([], t);
    assert a[..n] + [] == a[..n];
    o := Done(a[..n]);
  }

  lemma CanonicalStep(s: seq<Byte>, t: nat -> nat)
    ensures s == [] ==> Canonical(s, t) == Done([])
    ensures s != [] && DecodeFirst(s).None? ==> Canonical(s, t) == InvalidUtf8
    ensures s != [] && DecodeFirst(s).Some? ==>
      var d := DecodeFirst(s).value;
      var cp := t(d.cp);
      && 0 < d.width <= |s|
      && (cp > LAST_CODE_POINT ==> Canonical(s, t) == InvalidCodePoint)
      && (cp <= LAST_CODE_POINT && Size(cp) > d.width ==> Canonical(s, t) == NeedsMoreSpace)
      && (cp <= LAST_CODE_POINT && Size(cp) <= d.width ==>
            Canonical(s, t) == Prepend(Encode(cp), Canonical(s[d.width..], t)))
  {
    hide Encode, DecodeFirst, Size;
    if s != [] && DecodeFirst(s).Some? {
      SizeIsLeast(s);
    }
  }

  lemma PrependNone(o: Outcome)
    ensures Prepend([], o) == o
  {
    assert o.Done? ==> [] + o.text == o.text;
  }

  lemma PrependTwice(a: seq<Byte>, b: seq<Byte>, o: Outcome)
    ensures Prepend(a, Prepend(b, o)) == Prepend(a + b, o)
  {
    assert o.Done? ==> a + (b + o.text) == a + b + o.text;
  }

  lemma WriteKeeps(before: seq<Byte>, w: nat, code: seq<Byte>, i: nat, after: seq<Byte>)
    requires w + |code| <= i <= |before| && after == before[..w] + code + before[w + |code|..]
    ensures after[..w + |code|] == before[..w] + code && after[i..] == before[i..]
  {
  }
}
