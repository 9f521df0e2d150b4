/** The block codec of src/common/base58.cpp: 8-byte blocks become 11 symbols. */
module Base58 {
  import opened Positional
  import Varint
  import opened Basics

  const ALPHABET: string := "123456789" + "ABCDEFGH" + "JKLMN" + "PQRSTUVWXYZ" + "abcdefghijk" + "mnopqrstuvwxyz"
  const ENCODED_SIZES: seq<nat> := [0, 2, 3, 5, 6, 7, 9, 10, 11]
  const DECODED_SIZES: seq<int> := [0, -1, 1, 2, -1, 3, 4, 5, -1, 6, 7, 8]

  lemma SizesInverse(n: nat)
    ensures n <= 8 ==> ENCODED_SIZES[n] <= 11 && DECODED_SIZES[ENCODED_SIZES[n]] == n
    ensures n <= 11 && DECODED_SIZES[n] >= 0 ==> DECODED_SIZES[n] <= 8 && ENCODED_SIZES[DECODED_SIZES[n]] == n
  {
  }

  /** Every value of n bytes has a representation in ENCODED_SIZES[n] symbols. */
  lemma BlockFits(n: nat)
    requires n <= 8
    ensures Pow(256, n) <= Pow(58, ENCODED_SIZES[n])
  {
    BytePowers();
    SymbolPowers();
  }

  /** And in no fewer: it is the least number of symbols that has room for every value of n bytes. */
  lemma SymbolsLeast(n: nat, k: nat)
    requires n <= 8
    ensures Pow(256, n) <= Pow(58, k) <==> ENCODED_SIZES[n] <= k
  {
    BlockFits(n);
    OneSymbolLess(n);
    hide ENCODED_SIZES, Pow;
    if ENCODED_SIZES[n] <= k {
      PowMonotone(58, ENCODED_SIZES[n], k);
    } else {
      PowMonotone(58, k, ENCODED_SIZES[n] - 1);
    }
  }

  lemma OneSymbolLess(n: nat)
    requires n <= 8
    ensures ENCODED_SIZES[n] > 0 ==> Pow(58, ENCODED_SIZES[n] - 1) < Pow(256, n)
  {
    hide Pow;
    BytePowers();
    SymbolPowers();
  }

  lemma BytePowers()
    ensures Pow(256, 0) == 1 && Pow(256, 1) == 256 && Pow(256, 2) == 65536 && Pow(256, 3) == 0x100_0000
    ensures Pow(256, 4) == 0x1_0000_0000 && Pow(256, 5) == 0x100_0000_0000 && Pow(256, 6) == 0x1_0000_0000_0000
    ensures Pow(256, 7) == 0x100_0000_0000_0000 && Pow(256, 8) == TWO64
  {
  }

  lemma SymbolPowers()
    ensures Pow(58, 0) == 1 && Pow(58, 1) == 58 && Pow(58, 2) == 3364 && Pow(58, 3) == 195112 && Pow(58, 5) == 656356768
    ensures Pow(58, 6) == 38068692544 && Pow(58, 7) == 2207984167552 && Pow(58, 9) == 7427658739644928
    ensures Pow(58, 10) == 430804206899405824 && Pow(58, 11) == 24986644000165537792
    ensures Pow(58, 4) == 11316496 && Pow(58, 8) == 128063081718016
  {
    assert Pow(58, 4) == 11316496;
    assert Pow(58, 8) == 128063081718016;
  }

  // ---- The alphabet ----

  function Find(c: char, i: nat): (d: int)
    requires i <= 58
    ensures d >= 0 ==> d < 58 && ALPHABET[d] == c
    ensures d < 0 ==> d == -1 && forall k :: i <= k < 58 ==> ALPHABET[k] != c
    decreases 58 - i
  {
    if i == 58 then -1 else if ALPHABET[i] == c then i else Find(c, i + 1)
  }

  /** The value of a symbol, or -1. */
  function DigitOf(c: char): (d: int)
    ensures -1 <= d < 58
  {
    Find(c, 0)
  }

  /** How far symbol i is from the i-th character, stretch by stretch. */
  function Gap(i: nat): nat {
    if i < 9 then 49 else if i < 17 then 56 else if i < 22 then 57 else if i < 33 then 58 else if i < 44 then 64 else 65
  }

  lemma AlphabetAt(i: nat)
    requires i < 58
    ensures ALPHABET[i] as int == i + Gap(i)
  {
    hide ALPHABET;
    if i < 22 { AlphabetStart(i); } else if i < 44 { AlphabetMiddle(i); } else { AlphabetEnd(i); }
  }

  lemma AlphabetStart(i: nat)
    requires i < 22
    ensures ALPHABET[i] as int == i + Gap(i)
  {
    if i < 9 {
      assert ALPHABET[i] == "123456789"[i];
    } else if i < 17 {
      assert ALPHABET[i] == "ABCDEFGH"[i - 9];
    } else {
      assert ALPHABET[i] == "JKLMN"[i - 17];
    }
  }

  lemma AlphabetMiddle(i: nat)
    requires 22 <= i < 44
    ensures ALPHABET[i] as int == i + Gap(i)
  {
    if i < 33 {
      assert ALPHABET[i] == "PQRSTUVWXYZ"[i - 22];
    } else {
      assert ALPHABET[i] == "abcdefghijk"[i - 33];
    }
  }

  lemma AlphabetEnd(i: nat)
    requires 44 <= i < 58
    ensures ALPHABET[i] as int == i + Gap(i)
  {
    assert ALPHABET[i] == "mnopqrstuvwxyz"[i - 44];
  }

  lemma AlphabetAscends(i: nat, j: nat)
    requires i < j < 58
    ensures ALPHABET[i] < ALPHABET[j]
  {
    AlphabetAt(i);
    AlphabetAt(j);
  }

  /** The symbols are the digits and letters without 0, O, I and l; AlphabetAscends gives their order. */
  lemma AlphabetHas(c: char)
    ensures c in ALPHABET <==>
      ('0' <= c <= '9' || 'A' <= c <= 'Z' || 'a' <= c <= 'z') && c != '0' && c != 'O' && c != 'I' && c != 'l'
  {
    hide ALPHABET;
    AlphabetSize();
    if c in ALPHABET {
      var i :| 0 <= i < |ALPHABET| && ALPHABET[i] == c;
      AlphabetAt(i);
    }
    if ('0' <= c <= '9' || 'A' <= c <= 'Z' || 'a' <= c <= 'z') && c != '0' && c != 'O' && c != 'I' && c != 'l' {
      var v := c as int;
      var i := v - (if v < 58 then 49 else if v < 73 then 56 else if v < 79 then 57 else if v < 91 then 58
                    else if v < 108 then 64 else 65);
      AlphabetAt(i);
    }
  }

  lemma AlphabetSize()
    ensures |ALPHABET| == 58
  {
  }

  lemma DigitOfSymbol(d: nat)
    requires d < 58
    ensures DigitOf(ALPHABET[d]) == d
  {
    var e := DigitOf(ALPHABET[d]);
    if e < d && e >= 0 { AlphabetAscends(e, d); }
    if d < e { AlphabetAscends(d, e); }
  }

  function Lookup(table: seq<int>, c: char): int {
    var idx := c as int - 49;
    if 0 <= idx < |table| then table[idx] else -1
  }

  /** The first n symbols have their values in the table, and nothing else does. */
  ghost predicate TableUpTo(table: seq<int>, n: nat) {
    && |table| == 74 && n <= 58
    && (forall k :: 0 <= k < n ==> Lookup(table, ALPHABET[k]) == k)
    && (forall j :: 0 <= j < 74 ==> table[j] == -1 || (0 <= table[j] < n && ALPHABET[table[j]] as int == j + 49))
  }

  lemma TableStep(table: seq<int>, n: nat)
    requires n < 58 && TableUpTo(table, n)
    ensures 0 <= ALPHABET[n] as int - 49 < 74 && TableUpTo(table[ALPHABET[n] as int - 49 := n], n + 1)
  {
    AlphabetAt(n);
    forall k | 0 <= k < n
      ensures ALPHABET[k] != ALPHABET[n]
    {
      AlphabetAscends(k, n);
    }
    hide ALPHABET;
  }

  lemma TableComplete(table: seq<int>, c: char)
    requires TableUpTo(table, 58)
    ensures Lookup(table, c) == DigitOf(c)
  {
    hide ALPHABET, Find;
    var j := c as int - 49;
    if 0 <= j < 74 && table[j] >= 0 {
      DigitOfSymbol(table[j]);
    }
  }

  /** The constructor of the reverse alphabet. */
  method BuildReverseAlphabet() returns (table: seq<int>)
    ensures forall c: char :: Lookup(table, c) == DigitOf(c)
  {
    hide TableUpTo, Lookup, DigitOf;
    table := seq(74, i => -1);
    TableStart(table);
    var i := 0;
    while i < 58
      invariant 0 <= i <= 58 && TableUpTo(table, i)
    {
      TableStep(table, i);
      TableSize(table, i);
      table := table[ALPHABET[i] as int - 49 := i];
      i := i + 1;
    }
    forall c: char
      ensures Lookup(table, c) == DigitOf(c)
    {
      TableComplete(table, c);
    }
  }

  lemma TableStart(table: seq<int>)
    requires table == seq(74, i => -1)
    ensures TableUpTo(table, 0)
  {
  }

  lemma TableSize(table: seq<int>, n: nat)
    requires TableUpTo(table, n)
    ensures |table| == 74
  {
  }

  // ---- One block ----

  function Symbol(d: nat): char
    requires d < 58
  {
    ALPHABET[d]
  }

  function Symbols(ds: seq<nat>): (s: string)
    requires AllBelow(ds, 58)
    ensures |s| == |ds|
  {
    seq(|ds|, i requires 0 <= i < |ds| => Symbol(ds[i]))
  }

  ghost predicate AllSymbols(s: string) {
    forall i :: 0 <= i < |s| ==> DigitOf(s[i]) >= 0
  }

  function Values(s: string): (ds: seq<nat>)
    requires AllSymbols(s)
    ensures |ds| == |s| && AllBelow(ds, 58)
  {
    seq<nat>(|s|, i requires 0 <= i < |s| => DigitOf(s[i]))
  }

  /** A block of up to 8 bytes is one number, written with ENCODED_SIZES symbols. */
  function BlockText(block: seq<Byte>): (s: string)
    requires |block| <= 8
    ensures |s| == ENCODED_SIZES[|block|]
  {
    Symbols(Digits(58, Num(256, block), ENCODED_SIZES[|block|]))
  }

  /** What a block of symbols stands for, if it stands for anything. */
  ghost function BlockBytes(s: string): Option<seq<nat>>
    requires 1 <= |s| <= 11
  {
    var n := DECODED_SIZES[|s|];
    if n <= 0 || !AllSymbols(s) || Num(58, Values(s)) >= Pow(256, n) then None
    else Some(Digits(256, Num(58, Values(s)), n))
  }

  lemma ValuesOfSymbols(ds: seq<nat>)
    requires AllBelow(ds, 58)
    ensures AllSymbols(Symbols(ds)) && Values(Symbols(ds)) == ds
  {
    hide ALPHABET, Find;
    forall i | 0 <= i < |ds|
      ensures DigitOf(Symbols(ds)[i]) == ds[i]
    {
      DigitOfSymbol(ds[i]);
    }
  }

  lemma SymbolsOfValues(s: string)
    requires AllSymbols(s)
    ensures Symbols(Values(s)) == s
  {
    hide ALPHABET, Find;
  }

  lemma DecodeEncodedBlock(block: seq<Byte>)
    requires 1 <= |block| <= 8
    ensures BlockBytes(BlockText(block)) == Some(block)
  {
    hide Num, Pow, Digits, Symbols, Values, AllSymbols;
    var n, v := |block|, Num(256, block);
    SizesInverse(n);
    NumBound(256, block);
    BlockFits(n);
    var ds := Digits(58, v, ENCODED_SIZES[n]);
    ValuesOfSymbols(ds);
    NumDigits(58, v, ENCODED_SIZES[n]);
    DigitsNum(256, block);
  }

  lemma EncodeDecodedBlock(s: string)
    requires 1 <= |s| <= 11 && BlockBytes(s).Some?
    ensures var b := BlockBytes(s).value;
      1 <= |b| <= 8 && AllBelow(b, 256) && BlockText(b) == s
  {
    hide Num, Pow, Digits, Symbols, Values, AllSymbols;
    var n, ds := DECODED_SIZES[|s|], Values(s);
    SizesInverse(|s|);
    NumDigits(256, Num(58, ds), n);
    DigitsNum(58, ds);
    SymbolsOfValues(s);
  }

  /** The division loop of encode_block; res holds alphabet[0] where it writes. */
  method EncodeBlock(block: seq<Byte>, res: array<char>, offset: nat)
    requires 1 <= |block| <= 8 && offset + ENCODED_SIZES[|block|] <= res.Length
    requires forall k :: offset <= k < offset + ENCODED_SIZES[|block|] ==> res[k] == Symbol(0)
    modifies res
    ensures res[..] == old(res[..offset]) + BlockText(block) + old(res[offset + ENCODED_SIZES[|block|]..])
  {
    hide Num, Pow, Digits, Symbol;
    var num := Num(256, block);
    var size := ENCODED_SIZES[|block|];
    var i: int := size - 1;
    NumBound(256, block);
    BlockFits(|block|);
    ghost var ds := Digits(58, num, size);
    assert ds[..size] == ds;
    while 0 < num
      invariant -1 <= i < size && 0 <= num < Pow(58, i + 1)
      invariant ds[..i + 1] == Digits(58, num, i + 1)
      invariant forall k :: offset <= k <= offset + i ==> res[k] == Symbol(0)
      invariant forall k :: offset + i < k < offset + size ==> res[k] == Symbol(ds[k - offset])
      invariant forall k :: 0 <= k < res.Length && !(offset <= k < offset + size) ==> res[k] == old(res[k])
      decreases num
    {
      var remainder := num % 58;
      LastDigit(ds, num, i);
      num := num / 58;
      res[offset + i] := Symbol(remainder);
      i := i - 1;
    }
    ZeroDigits(i + 1);
    forall k | 0 <= k <= i
      ensures ds[k] == 0
    {
      assert ds[k] == ds[..i + 1][k];
    }
    Assembled(old(res[..]), res[..], offset, Symbols(ds));
  }

  /** A stretch replaced and the rest as it was. */
  lemma Assembled(was: string, now: string, offset: nat, mid: string)
    requires |now| == |was| && offset + |mid| <= |was|
    requires forall k :: offset <= k < offset + |mid| ==> now[k] == mid[k - offset]
    requires forall k :: 0 <= k < |now| && !(offset <= k < offset + |mid|) ==> now[k] == was[k]
    ensures now == was[..offset] + mid + was[offset + |mid|..]
  {
  }

  lemma LastDigit(ds: seq<nat>, num: nat, i: int)
    requires 0 < num && -1 <= i < |ds| && num < Pow(58, i + 1) && ds[..i + 1] == Digits(58, num, i + 1)
    ensures i >= 0 && ds[i] == num % 58 && ds[..i] == Digits(58, num / 58, i) && num / 58 < Pow(58, i)
  {
    if i >= 0 {
      assert ds[..i + 1][i] == num % 58;
      assert ds[..i + 1][..i] == ds[..i];
      assert num == 58 * (num / 58) + num % 58;
    }
  }

  lemma {:induction false} ZeroDigits(n: nat)
    ensures forall k :: 0 <= k < n ==> Digits(58, 0, n)[k] == 0
  {
    if n > 0 {
      ZeroDigits(n - 1);
    }
  }

  /** mul128 and the wrapping sum of decode_block: the low word, and whether the true sum overflows. */
  method AddProduct(resNum: nat, order: nat, digit: nat) returns (tmp: nat, overflow: bool)
    requires resNum < TWO64 && order < TWO64 && digit < TWO64
    ensures overflow <==> resNum + order * digit >= TWO64
    ensures !overflow ==> tmp == resNum + order * digit
  {
    var productHi, productLo := order * digit / TWO64, order * digit % TWO64;
    tmp := (resNum + productLo) % TWO64;
    overflow := tmp < resNum || productHi != 0;
  }

  lemma NoSymbols()
    ensures Pow(58, 0) == 1 && AllSymbols("") && Num(58, Values("")) == 0
  {
  }

  lemma SuffixStep(block: string, i: nat)
    requires i < |block| && AllSymbols(block[i + 1..]) && DigitOf(block[i]) >= 0
    ensures AllSymbols(block[i..])
    ensures Num(58, Values(block[i..])) == Num(58, Values(block[i + 1..])) + Pow(58, |block| - 1 - i) * DigitOf(block[i])
  {
    hide Num, Pow, DigitOf;
    var s := block[i..];
    forall k | 0 <= k < |s|
      ensures DigitOf(s[k]) >= 0
    {
      if k > 0 { assert s[k] == block[i + 1..][k - 1]; }
    }
    assert Values(s)[1..] == Values(block[i + 1..]);
    NumFirst(58, Values(s));
  }

  lemma {:induction false} SuffixBelow(block: string, i: nat)
    requires AllSymbols(block) && i <= |block|
    ensures AllSymbols(block[i..]) && Num(58, Values(block[i..])) <= Num(58, Values(block))
  {
    hide Num, DigitOf;
    if i == 0 {
      assert block[0..] == block;
    } else {
      SuffixBelow(block, i - 1);
      assert AllSymbols(block[i..]);
      SuffixStep(block, i - 1);
    }
  }

  lemma TooLarge(block: string, i: nat)
    requires 1 <= |block| <= 11 && i <= |block| && DECODED_SIZES[|block|] > 0
    requires AllSymbols(block[i..]) && Num(58, Values(block[i..])) >= TWO64
    ensures BlockBytes(block) == None
  {
    hide Num, DigitOf;
    if AllSymbols(block) {
      SuffixBelow(block, i);
      SizesInverse(|block|);
      PowMonotone(256, DECODED_SIZES[|block|], 8);
      BytePowers();
    }
  }

  /** The running power is exact at every use: a multiplication wraps if and only if it is the one
      after the last use in an 11-symbol block. */
  lemma OrderStep(size: nat, i: nat)
    requires i < size <= 11
    ensures Pow(58, size - 1 - i) * 58 == Pow(58, size - i)
    ensures Pow(58, size - i) < TWO64 <==> i > 0 || size < 11
  {
    SymbolPowers();
    if i > 0 || size < 11 {
      PowMonotone(58, size - i, 10);
    }
  }

  lemma NoSymbol(block: string, i: nat)
    requires i < |block| && DigitOf(block[i]) < 0
    ensures !AllSymbols(block)
  {
    hide DigitOf;
  }

  /** The multiplication of order, which wraps. */
  function NextOrder(order: nat): (r: nat)
    ensures r < TWO64 && (order * 58 < TWO64 ==> r == order * 58)
  {
    order * 58 % TWO64
  }

  /** decode_block, with the source's 64-bit wrap-around. */
  method DecodeBlock(block: string, table: seq<int>) returns (res: Option<seq<nat>>)
    requires 1 <= |block| <= 11
    requires forall c: char :: Lookup(table, c) == DigitOf(c)
    ensures res == BlockBytes(block)
  {
    hide ALPHABET, Find, Lookup, DigitOf, Num, Pow, Values, Digits, AllSymbols;
    var size := |block|;
    NoSymbols();
    var resSize := DECODED_SIZES[size];
    if resSize <= 0 {
      return None;
    }
    var resNum, order, i := 0, 1, size;
    assert block[size..] == "";
    while i > 0
      invariant 0 <= i <= size && order < TWO64
      invariant i > 0 ==> order == Pow(58, size - i)
      invariant AllSymbols(block[i..]) && resNum == Num(58, Values(block[i..])) < TWO64
    {
      i := i - 1;
      var digit := Lookup(table, block[i]);
      if digit < 0 {
        NoSymbol(block, i);
        return None;
      }
      SuffixStep(block, i);
      var tmp, overflow := AddProduct(resNum, order, digit);
      if overflow {
        TooLarge(block, i);
        return None;
      }
      resNum := tmp;
      OrderStep(size, i);
      order := NextOrder(order);
    }
    assert block[0..] == block;
    BytePowers();
    if resSize < 8 && Pow(256, resSize) <= resNum {
      return None;
    }
    res := Some(Digits(256, resNum, resSize));
  }

  // ---- Whole strings ----

  /** encode: full blocks, then a shorter last block. */
  function Text(data: seq<Byte>): string {
    if |data| < 8 then BlockText(data) else BlockText(data[..8]) + Text(data[8..])
  }

  /** decode: None where the source returns false. */
  ghost function Data(enc: string): Option<seq<nat>> {
    if |enc| == 0 then Some([])
    else if |enc| < 11 then BlockBytes(enc)
    else
      var first, rest := BlockBytes(enc[..11]), Data(enc[11..]);
      if first.None? || rest.None? then None else Some(first.value + rest.value)
  }

  lemma BlockTextEmpty()
    ensures BlockText([]) == ""
  {
  }

  /** decode(encode(d)) == d for every byte string. */
  lemma {:induction false} DecodeEncode(data: seq<Byte>)
    ensures Data(Text(data)) == Some(data)
    decreases |data|
  {
    hide BlockText, BlockBytes;
    if |data| == 0 {
      BlockTextEmpty();
    } else if |data| < 8 {
      DecodeEncodedBlock(data);
      assert 0 < ENCODED_SIZES[|data|] < 11;
    } else {
      DecodeEncodedBlock(data[..8]);
      DecodeEncode(data[8..]);
      var first := BlockText(data[..8]);
      assert (first + Text(data[8..]))[..11] == first && (first + Text(data[8..]))[11..] == Text(data[8..]);
      assert data == data[..8] + data[8..];
    }
  }

  /** Whatever decode accepts is the encoding of what it returns. */
  lemma {:induction false} EncodeDecode(enc: string)
    requires Data(enc).Some?
    ensures AllBelow(Data(enc).value, 256) && Text(Data(enc).value) == enc
    decreases |enc|
  {
    hide BlockText, BlockBytes;
    if |enc| == 0 {
      BlockTextEmpty();
    } else if |enc| < 11 {
      EncodeDecodedBlock(enc);
      FullBlock(enc);
    } else {
      EncodeDecodedBlock(enc[..11]);
      FullBlock(enc[..11]);
      EncodeDecode(enc[11..]);
      var b, rest := BlockBytes(enc[..11]).value, Data(enc[11..]).value;
      assert (b + rest)[..8] == b && (b + rest)[8..] == rest;
      assert enc == enc[..11] + enc[11..];
    }
  }

  lemma FullBlock(s: string)
    requires 1 <= |s| <= 11 && BlockBytes(s).Some?
    ensures |BlockBytes(s).value| == 8 <==> |s| == 11
    ensures |BlockBytes(s).value| <= 8
  {
    hide Num, Digits, AllSymbols, Values;
  }

  /** encode(a + b) == encode(a) + encode(b) when a is made of full blocks. */
  lemma {:induction false} TextConcat(a: seq<Byte>, b: seq<Byte>)
    requires |a| % 8 == 0
    ensures Text(a + b) == Text(a) + Text(b)
    decreases |a|
  {
    hide BlockText;
    if |a| == 0 {
      BlockTextEmpty();
      assert a + b == b;
    } else {
      assert (a + b)[..8] == a[..8] && (a + b)[8..] == a[8..] + b;
      TextConcat(a[8..], b);
    }
  }

  // ---- Order ----

  /** The characters of a string as numbers. */
  function Codes(s: string): (r: seq<nat>)
    ensures |r| == |s|
  {
    seq<nat>(|s|, i requires 0 <= i < |s| => s[i] as nat)
  }

  lemma SymbolOrder(d: nat, e: nat)
    requires d < 58 && e < 58
    ensures Symbol(d) as nat < Symbol(e) as nat <==> d < e
    ensures Symbol(d) == Symbol(e) <==> d == e
  {
    if d < e { AlphabetAscends(d, e); } else if e < d { AlphabetAscends(e, d); }
    hide ALPHABET;
  }

  lemma {:induction false} SymbolsOrder(a: seq<nat>, b: seq<nat>)
    requires |a| == |b| && AllBelow(a, 58) && AllBelow(b, 58)
    ensures Less(Codes(Symbols(a)), Codes(Symbols(b))) <==> Less(a, b)
    decreases |a|
  {
    hide Symbol;
    if a != [] {
      SymbolOrder(a[0], b[0]);
      SymbolsOrder(a[1..], b[1..]);
      assert Codes(Symbols(a))[1..] == Codes(Symbols(a[1..]));
      assert Codes(Symbols(b))[1..] == Codes(Symbols(b[1..]));
    }
  }

  lemma BlockOrder(a: seq<Byte>, b: seq<Byte>)
    requires |a| == |b| <= 8
    ensures Less(Codes(BlockText(a)), Codes(BlockText(b))) <==> Less(a, b)
    ensures BlockText(a) == BlockText(b) <==> a == b
  {
    hide Num, Digits, Pow, Less, Symbols, Codes;
    var n := ENCODED_SIZES[|a|];
    NumBound(256, a);
    NumBound(256, b);
    BlockFits(|a|);
    var d, e := Digits(58, Num(256, a), n), Digits(58, Num(256, b), n);
    SymbolsOrder(d, e);
    NumOrder(58, d, e);
    NumDigits(58, Num(256, a), n);
    NumDigits(58, Num(256, b), n);
    NumOrder(256, a, b);
    ValuesOfSymbols(d);
    ValuesOfSymbols(e);
    DigitsNum(256, a);
    DigitsNum(256, b);
  }

  /** On byte strings of one length, encode preserves and reflects lexicographic order. */
  lemma {:induction false} TextOrder(a: seq<Byte>, b: seq<Byte>)
    requires |a| == |b|
    ensures Less(Codes(Text(a)), Codes(Text(b))) <==> Less(a, b)
    decreases |a|
  {
    hide BlockText, Less, Codes;
    if |a| < 8 {
      BlockOrder(a, b);
    } else {
      var x, y, u, v := BlockText(a[..8]), Text(a[8..]), BlockText(b[..8]), Text(b[8..]);
      BlockOrder(a[..8], b[..8]);
      TextOrder(a[8..], b[8..]);
      LessConcat(a[..8], a[8..], b[..8], b[8..]);
      assert a == a[..8] + a[8..] && b == b[..8] + b[8..];
      CodesConcat(x, y);
      CodesConcat(u, v);
      CodesInjective(x, u);
      LessConcat(Codes(x), Codes(y), Codes(u), Codes(v));
    }
  }

  lemma CodesConcat(s: string, t: string)
    ensures Codes(s + t) == Codes(s) + Codes(t)
  {
  }

  lemma CodesInjective(s: string, t: string)
    requires |s| == |t|
    ensures Codes(s) == Codes(t) <==> s == t
  {
    if Codes(s) == Codes(t) {
      forall i | 0 <= i < |s|
        ensures s[i] == t[i]
      {
        assert Codes(s)[i] == Codes(t)[i];
      }
    }
  }

  // ---- The source's loops over blocks ----

  lemma {:induction false} TextLength(data: seq<Byte>)
    ensures |Text(data)| == |data| / 8 * 11 + ENCODED_SIZES[|data| % 8]
    decreases |data|
  {
    hide BlockText, ENCODED_SIZES;
    if |data| >= 8 {
      TextLength(data[8..]);
      assert |BlockText(data[..8])| == 11 by { FullBlockSize(); }
      assert (|data| - 8) / 8 == |data| / 8 - 1 && (|data| - 8) % 8 == |data| % 8;
    }
  }

  /** An encoding is as short as blocks allow: 11 symbols for every 8 bytes, and the fewest that hold the rest. */
  lemma EncodedLength(data: seq<Byte>, k: nat)
    ensures |Text(data)| <= 11 * (|data| / 8) + k <==> Pow(256, |data| % 8) <= Pow(58, k)
  {
    hide Text, Pow, ENCODED_SIZES;
    TextLength(data);
    SymbolsLeast(|data| % 8, k);
  }

  lemma FullBlockSize()
    ensures ENCODED_SIZES[8] == 11
  {
  }

  lemma TextOneBlock(block: seq<Byte>)
    requires 1 <= |block| <= 8
    ensures Text(block) == BlockText(block)
  {
    BlockTextEmpty();
    hide BlockText;
    if |block| == 8 {
      assert block[..8] == block && block[8..] == [];
    }
  }

  method Encode(data: seq<Byte>) returns (enc: string)
    ensures enc == Text(data)
  {
    hide Text, BlockText, Symbol;
    var full, last := |data| / 8, |data| % 8;
    var res := new char[full * 11 + ENCODED_SIZES[last]](i => Symbol(0));
    TextLength(data);
    assert data[..0] == [];
    assert Text([]) == [] by { TextLength([]); }
    var i := 0;
    while i < full
      invariant 0 <= i <= full
      invariant res[..11 * i] == Text(data[..8 * i])
      invariant forall k :: 11 * i <= k < res.Length ==> res[k] == Symbol(0)
    {
      var block := data[8 * i..8 * i + 8];
      TextConcat(data[..8 * i], block);
      TextOneBlock(block);
      assert data[..8 * (i + 1)] == data[..8 * i] + block;
      EncodeBlock(block, res, 11 * i);
      i := i + 1;
    }
    if 0 < last {
      var block := data[8 * full..];
      TextConcat(data[..8 * full], block);
      TextOneBlock(block);
      assert data == data[..8 * full] + block;
      EncodeBlock(block, res, 11 * full);
    } else {
      assert data[..8 * full] == data;
    }
    enc := res[..];
  }

  ghost function Join(a: Option<seq<nat>>, b: Option<seq<nat>>): Option<seq<nat>> {
    if a.None? || b.None? then None else Some(a.value + b.value)
  }

  lemma {:induction false} DataConcat(a: string, b: string)
    requires |a| % 11 == 0
    ensures Data(a + b) == Join(Data(a), Data(b))
    decreases |a|
  {
    hide BlockBytes;
    if |a| == 0 {
      assert a + b == b;
      if Data(b).Some? { assert [] + Data(b).value == Data(b).value; }
    } else {
      assert (a + b)[..11] == a[..11] && (a + b)[11..] == a[11..] + b;
      DataConcat(a[11..], b);
      if Data(a).Some? && Data(b).Some? {
        var x, y, z := BlockBytes(a[..11]).value, Data(a[11..]).value, Data(b).value;
        assert x + y + z == x + (y + z);
      }
    }
  }

  lemma DataOneBlock(s: string)
    requires 1 <= |s| <= 11
    ensures Data(s) == BlockBytes(s)
  {
    hide BlockBytes;
    if |s| == 11 {
      assert s[..11] == s && s[11..] == "";
      if BlockBytes(s).Some? { assert BlockBytes(s).value + [] == BlockBytes(s).value; }
    }
  }

  /** A length that no data has is refused. */
  lemma BadLength(enc: string)
    requires DECODED_SIZES[|enc| % 11] < 0
    ensures Data(enc) == None
  {
    hide BlockBytes;
    var full := |enc| / 11;
    var a, b := enc[..11 * full], enc[11 * full..];
    assert enc == a + b && |b| == |enc| % 11;
    DataConcat(a, b);
    assert 1 <= |b|;
    BadBlockLength(b);
  }

  lemma BadBlockLength(s: string)
    requires 1 <= |s| <= 11 && DECODED_SIZES[|s|] < 0
    ensures BlockBytes(s) == None
  {
  }

  method Decode(enc: string, table: seq<int>) returns (res: Option<seq<nat>>)
    requires forall c: char :: Lookup(table, c) == DigitOf(c)
    ensures res == Data(enc)
  {
    hide Data, BlockBytes, DigitOf, Lookup;
    DataEmpty();
    if |enc| == 0 {
      return Some([]);
    }
    var full, last := |enc| / 11, |enc| % 11;
    var lastSize := DECODED_SIZES[last];
    if lastSize < 0 {
      BadLength(enc);
      return None;
    }
    var data: seq<nat> := [];
    var i := 0;
    assert enc[..0] == "";
    while i < full
      invariant 0 <= i <= full
      invariant Data(enc[..11 * i]) == Some(data)
    {
      var block := enc[11 * i..11 * i + 11];
      var r := DecodeBlock(block, table);
      var next := 11 * (i + 1);
      DataOneBlock(block);
      DataConcat(enc[..11 * i], block);
      assert enc[..next] == enc[..11 * i] + block && enc == enc[..next] + enc[next..];
      DataConcat(enc[..next], enc[next..]);
      if r.None? {
        return None;
      }
      data := data + r.value;
      i := i + 1;
    }
    if 0 < last {
      var block := enc[11 * full..];
      var r := DecodeBlock(block, table);
      DataOneBlock(block);
      DataConcat(enc[..11 * full], block);
      assert enc == enc[..11 * full] + block;
      if r.None? {
        return None;
      }
      data := data + r.value;
    } else {
      assert enc[..11 * full] == enc;
    }
    return Some(data);
  }

  lemma DataEmpty()
    ensures Data("") == Some([])
  {
  }

  // ---- Addresses ----

  /** encode_addr: tag, data and the first four bytes of the hash of both. */
  function AddressText(tag: nat, data: seq<Byte>, hash: seq<Byte> -> seq<Byte>): string
    requires forall s :: |hash(s)| >= 4
  {
    var buf := Varint.Write(tag) + data;
    Text(buf + hash(buf)[..4])
  }

  datatype Address = Address(tag: nat, data: seq<Byte>)

  /** The bytes of an accepted address without its checksum. */
  ghost function CheckedBody(addr: string, hash: seq<Byte> -> seq<Byte>): (r: Option<seq<Byte>>)
    requires forall s :: |hash(s)| >= 4
    ensures r.Some? ==> r.value != [] && Text(r.value + hash(r.value)[..4]) == addr
  {
    var all := Data(addr);
    if all.None? || |all.value| <= 4 then None
    else
      EncodeDecode(addr);
      var body: seq<Byte> := all.value[..|all.value| - 4];
      if hash(body)[..4] != all.value[|all.value| - 4..] then None
      else
        assert all.value == body + all.value[|all.value| - 4..];
        Some(body)
  }

  /** decode_addr. */
  ghost function ReadAddress(addr: string, hash: seq<Byte> -> seq<Byte>): Option<Address>
    requires forall s :: |hash(s)| >= 4
  {
    var body := CheckedBody(addr, hash);
    if body.None? then None
    else
      var r := Varint.ReadFrom(body.value, 0);
      if r.Value? then Some(Address(r.value, body.value[r.read..])) else None
  }

  /** A standard address, one byte of tag and two keys of 32 bytes, has 95 symbols. */
  lemma AddressLength(tag: nat, data: seq<Byte>, hash: seq<Byte> -> seq<Byte>)
    requires forall s :: |hash(s)| >= 4
    requires tag < 128 && |data| == 64
    ensures |AddressText(tag, data, hash)| == 95
  {
    hide Text;
    var buf := Varint.Write(tag) + data;
    assert |buf| == 65;
    TextLength(buf + hash(buf)[..4]);
  }

  /** decode_addr undoes encode_addr for every 64-bit tag. */
  lemma AddressRoundTrip(tag: nat, data: seq<Byte>, hash: seq<Byte> -> seq<Byte>)
    requires forall s :: |hash(s)| >= 4
    requires tag < TWO64
    ensures ReadAddress(AddressText(tag, data, hash), hash) == Some(Address(tag, data))
  {
    hide Text, Data;
    var buf := Varint.Write(tag) + data;
    var all := buf + hash(buf)[..4];
    DecodeEncode(all);
    assert all[..|all| - 4] == buf && all[|all| - 4..] == hash(buf)[..4];
    Varint.ReadWrite(tag, data, 0);
  }

  /** The tag is cut off: every byte of the body asks for another one. */
  predicate TagCutOff(body: seq<Byte>) {
    forall j :: 0 <= j < |body| ==> body[j] >= 128
  }

  /** An accepted address is the encoding of what it stands for, exactly when its tag is not cut off. */
  lemma AddressCanonical(addr: string, hash: seq<Byte> -> seq<Byte>)
    requires forall s :: |hash(s)| >= 4
    requires ReadAddress(addr, hash).Some?
    ensures var r := ReadAddress(addr, hash).value;
      AddressText(r.tag, r.data, hash) == addr <==> !TagCutOff(CheckedBody(addr, hash).value)
  {
    hide *;
    AddressParts(addr, hash);
    var body := CheckedBody(addr, hash).value;
    var v := Varint.ReadFrom(body, 0);
    var buf := Varint.Write(v.value) + body[v.read..];
    BodyRewritten(body);
    if Text(buf + hash(buf)[..4]) == Text(body + hash(body)[..4]) {
      SameBody(buf, body, hash);
    }
    AddressTextIs(v.value, body[v.read..], hash);
  }

  /** An accepted address, taken apart. */
  lemma AddressParts(addr: string, hash: seq<Byte> -> seq<Byte>)
    requires forall s :: |hash(s)| >= 4
    requires ReadAddress(addr, hash).Some?
    ensures CheckedBody(addr, hash).Some?
    ensures var body := CheckedBody(addr, hash).value;
      var v := Varint.ReadFrom(body, 0);
      && body != [] && Text(body + hash(body)[..4]) == addr && v.Value? && v.read <= |body|
      && ReadAddress(addr, hash).value == Address(v.value, body[v.read..])
  {
    hide Text, CheckedBody, Varint.ReadFrom;
  }

  lemma AddressTextIs(tag: nat, data: seq<Byte>, hash: seq<Byte> -> seq<Byte>)
    requires forall s :: |hash(s)| >= 4
    ensures var buf := Varint.Write(tag) + data;
      AddressText(tag, data, hash) == Text(buf + hash(buf)[..4])
  {
    hide Text;
  }

  /** The tag is written back as it was read, unless it is cut off. */
  lemma BodyRewritten(body: seq<Byte>)
    requires body != [] && Varint.ReadFrom(body, 0).Value?
    ensures var v := Varint.ReadFrom(body, 0);
      Varint.Write(v.value) + body[v.read..] == body <==> !TagCutOff(body)
  {
    hide Varint.Write, Varint.ReadFrom;
    var v := Varint.ReadFrom(body, 0);
    var w := Varint.Write(v.value);
    Varint.WriteRead(body, 0);
    assert body == body[..v.read] + body[v.read..];
    LastByteOfVarint(v.value);
    if body[v.read - 1] >= 128 {
      assert w + body[v.read..] == w;
    }
  }

  /** A body is determined by its text. */
  lemma SameBody(a: seq<Byte>, b: seq<Byte>, hash: seq<Byte> -> seq<Byte>)
    requires forall s :: |hash(s)| >= 4
    requires Text(a + hash(a)[..4]) == Text(b + hash(b)[..4])
    ensures a == b
  {
    hide Text;
    var x, y := a + hash(a)[..4], b + hash(b)[..4];
    DecodeEncode(x);
    DecodeEncode(y);
    assert a == x[..|x| - 4] && b == y[..|y| - 4];
  }

  lemma {:induction false} LastByteOfVarint(i: nat)
    ensures var w := Varint.Write(i); w[|w| - 1] < 128
  {
    if i >= 128 {
      LastByteOfVarint(i / 128);
    }
  }

  /** Such an address exists: a body of the single byte 0x80 is accepted with tag 0. */
  lemma CutOffTagAccepted(hash: seq<Byte> -> seq<Byte>)
    requires forall s :: |hash(s)| >= 4
    ensures var addr := Text([0x80] + hash([0x80])[..4]);
      ReadAddress(addr, hash) == Some(Address(0, [])) && AddressText(0, [], hash) != addr
  {
    hide Text, Data;
    var all := [0x80] + hash([0x80])[..4];
    DecodeEncode(all);
    assert all[..1] == [0x80] && all[1..] == hash([0x80])[..4];
    var buf := Varint.Write(0) + [];
    assert buf == [0];
    DecodeEncode(buf + hash(buf)[..4]);
    assert (buf + hash(buf)[..4])[0] == 0 && all[0] == 0x80;
  }
}
