/** The variable-length integers of src/common/varint.h, seven bits to a byte, for 64-bit values. */
module Varint {
  import opened Basics
  import opened Arith

  datatype Read = Overflow | Unrepresentable | Value(value: nat, read: nat)

  function Write(i: nat): (s: seq<Byte>)
    ensures |s| > 0
  {
    if i < 128 then [i] else [i % 128 + 128] + Write(i / 128)
  }

  /** 2^(64 - 7k), what a value must stay below when its first k groups are already read. */
  function Room(k: nat): nat
    requires k <= 9
  {
    if k == 0 then TWO64 else Room(k - 1) / 128
  }

  lemma RoomValues()
    ensures Room(9) == 2
    ensures forall k :: 0 <= k < 9 ==> Room(k) == 128 * Room(k + 1)
  {
    assert Room(1) == 0x200_0000_0000_0000;
    assert Room(2) == 0x4_0000_0000_0000;
    assert Room(3) == 0x800_0000_0000;
    assert Room(4) == 0x10_0000_0000;
    assert Room(5) == 0x2000_0000;
    assert Room(6) == 0x40_0000;
    assert Room(7) == 0x8000;
    assert Room(8) == 0x100;
  }

  /** Reading with k groups already behind; the value does not include those groups. */
  function ReadFrom(s: seq<Byte>, k: nat): (r: Read)
    requires k <= 9
    ensures r.Value? ==> r.read <= |s| && (s != [] ==> r.read > 0)
    decreases 9 - k
  {
    if s == [] then Value(0, 0)
    else if k == 9 && s[0] >= 2 then Overflow
    else if s[0] == 0 && k != 0 then Unrepresentable
    else if s[0] < 128 then Value(s[0], 1)
    else
      var r := ReadFrom(s[1..], k + 1);
      if r.Value? then Value(s[0] % 128 + 128 * r.value, 1 + r.read) else r
  }

  lemma {:induction false} ReadBound(s: seq<Byte>, k: nat)
    requires k <= 9 && ReadFrom(s, k).Value?
    ensures ReadFrom(s, k).value < Room(k)
    decreases 9 - k
  {
    RoomValues();
    if k < 9 { RoomLarge(k); }
    if s != [] && s[0] >= 128 {
      ReadBound(s[1..], k + 1);
    }
  }

  lemma RoomLarge(k: nat)
    requires k < 9
    ensures Room(k) >= 128
  {
    RoomValues();
    RoomPositive(k + 1);
  }

  lemma {:induction false} RoomPositive(k: nat)
    requires k <= 9
    ensures Room(k) >= 2
    decreases 9 - k
  {
    RoomValues();
    if k < 9 { RoomPositive(k + 1); }
  }

  /** Reading undoes writing, whatever follows. */
  lemma {:induction false} ReadWrite(i: nat, rest: seq<Byte>, k: nat)
    requires k <= 9 && i < Room(k) && (k > 0 ==> i > 0)
    ensures ReadFrom(Write(i) + rest, k) == Value(i, |Write(i)|)
    decreases 9 - k
  {
    RoomValues();
    if i >= 128 {
      var s := Write(i) + rest;
      assert s[1..] == Write(i / 128) + rest;
      ReadWrite(i / 128, rest, k + 1);
      assert i == i % 128 + 128 * (i / 128);
    }
  }

  /** What is read was written in that form, or is cut off: then every byte asks for another. */
  lemma {:induction false} WriteRead(s: seq<Byte>, k: nat)
    requires k <= 9 && ReadFrom(s, k).Value? && s != []
    ensures var r := ReadFrom(s, k);
      if s[r.read - 1] < 128 then s[..r.read] == Write(r.value) && (k > 0 ==> r.value > 0)
      else r.read == |s| && forall j :: 0 <= j < |s| ==> s[j] >= 128
    decreases 9 - k
  {
    if s[0] >= 128 && |s| > 1 {
      var t := s[1..];
      WriteRead(t, k + 1);
      var r := ReadFrom(t, k + 1);
      DivModUnique(128, r.value, s[0] % 128);
      if t[r.read - 1] < 128 {
        assert s[..r.read + 1] == [s[0]] + t[..r.read];
      }
    }
  }

  /** The groups of seven bits as a number, lowest group first. */
  function Sevens(s: seq<Byte>): nat {
    if s == [] then 0 else Sevens(s[..|s| - 1]) + s[|s| - 1] % 128 * Pow128(|s| - 1)
  }

  function Pow128(n: nat): nat {
    if n == 0 then 1 else 128 * Pow128(n - 1)
  }

  lemma {:induction false} SevensFirst(b: Byte, s: seq<Byte>)
    ensures Sevens([b] + s) == b % 128 + 128 * Sevens(s)
    decreases |s|
  {
    if s == [] {
      assert [b] + s == [b] && [b][..0] == [];
    } else {
      var init, last := s[..|s| - 1], s[|s| - 1];
      SevensFirst(b, init);
      assert ([b] + s)[..|s|] == [b] + init && ([b] + s)[|s|] == last;
      Times128(last % 128, Pow128(|s| - 1));
    }
  }

  lemma Times128(d: nat, p: nat)
    ensures d * (128 * p) == 128 * (d * p)
  {
  }

  /**
   * A written value: group i counts 128 to the power of i, all bytes but the last have their high bit set, and the
   * last byte is not 0 unless it is the only one.
   */
  lemma {:induction false} WrittenGroups(i: nat)
    ensures Sevens(Write(i)) == i
    ensures forall k :: 0 <= k < |Write(i)| ==> (Write(i)[k] >= 128 <==> k < |Write(i)| - 1)
    ensures |Write(i)| > 1 ==> Write(i)[|Write(i)| - 1] > 0
  {
    hide Sevens;
    if i < 128 {
      SevensFirst(i, []);
      SevensNone();
      assert [i] + [] == [i];
    } else {
      WrittenGroups(i / 128);
      SevensFirst(i % 128 + 128, Write(i / 128));
      assert (i % 128 + 128) % 128 == i % 128;
    }
  }

  lemma SevensNone()
    ensures Sevens([]) == 0
  {
  }

  method WriteVarint(v: nat) returns (dest: seq<Byte>)
    requires v < TWO64
    ensures dest == Write(v)
  {
    dest := [];
    var i := v;
    while i >= 0x80
      invariant dest + Write(i) == Write(v)
    {
      ghost var tail := Write(i / 128);
      dest := dest + [i % 128 + 0x80];
      i := i / 128;
    }
    dest := dest + [i];
  }

  /** The groups read so far, put below what the rest reads as. */
  function Above(write: nat, scale: nat, read: nat, r: Read): Read {
    if r.Value? then Value(write + scale * r.value, read + r.read) else r
  }

  lemma AboveStep(write: nat, scale: nat, read: nat, b: nat, r: Read)
    ensures Above(write, scale, read, if r.Value? then Value(b + 128 * r.value, 1 + r.read) else r)
            == Above(write + b * scale, scale * 128, read + 1, r)
  {
    if r.Value? {
      assert scale * (b + 128 * r.value) == b * scale + (scale * 128) * r.value;
    }
  }

  method ReadVarint(s: seq<Byte>) returns (r: Read)
    ensures r == ReadFrom(s, 0)
  {
    hide ReadFrom;
    var write: nat, read: nat, scale: nat := 0, 0, 1;
    assert s[0..] == s;
    while true
      invariant 0 <= read <= |s| && read <= 9
      invariant ReadFrom(s, 0) == Above(write, scale, read, ReadFrom(s[read..], read))
      decreases |s| - read
    {
      ReadFromCases(s[read..], read);
      if read == |s| {
        return Value(write, read);
      }
      var byte: nat := s[read];
      if read == 9 && byte >= 2 {
        return Overflow;
      }
      if byte == 0 && read != 0 {
        return Unrepresentable;
      }
      assert s[read..][1..] == s[read + 1..];
      if byte >= 128 { AboveStep(write, scale, read, byte % 128, ReadFrom(s[read + 1..], read + 1)); }
      write := write + byte % 128 * scale;
      read := read + 1;
      if byte < 0x80 {
        return Value(write, read);
      }
      scale := scale * 128;
    }
  }

  lemma ReadFromCases(s: seq<Byte>, k: nat)
    requires k <= 9
    ensures s == [] ==> ReadFrom(s, k) == Value(0, 0)
    ensures s != [] && k == 9 && s[0] >= 2 ==> ReadFrom(s, k) == Overflow
    ensures s != [] && !(k == 9 && s[0] >= 2) && s[0] == 0 && k != 0 ==> ReadFrom(s, k) == Unrepresentable
    ensures s != [] && !(k == 9 && s[0] >= 2) && !(s[0] == 0 && k != 0) && s[0] < 128 ==> ReadFrom(s, k) == Value(s[0], 1)
    ensures s != [] && k < 9 && s[0] >= 128 ==>
      var r := ReadFrom(s[1..], k + 1);
      ReadFrom(s, k) == if r.Value? then Value(s[0] % 128 + 128 * r.value, 1 + r.read) else r
  {
  }
}
