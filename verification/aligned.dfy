/** The aligned allocator of src/common/aligned.c over a raw heap whose blocks do not overlap. */
module Aligned {
  import opened Basics
  import opened Bitwise
  import opened Arith

  const SIZE_MAX: nat := 0xffff_ffff_ffff_ffff
  const HEADER: nat := 32
  const MAGIC: nat := 0xaa08_1716_1500_ff81
  const MAGIC_FREED: nat := 0xaa08_1716_1500_ff82

  datatype Control = Control(magic: nat, raw: nat, bytes: nat, align: nat)

  // ---- Powers of two ----

  /** Bitwise and. */
  function And(x: nat, y: nat): nat {
    if x == 0 then 0 else 2 * And(x / 2, y / 2) + (if x % 2 == 1 && y % 2 == 1 then 1 else 0)
  }

  /** Bitwise and with the complement of y. */
  function AndNot(x: nat, y: nat): nat {
    if x == 0 then 0 else 2 * AndNot(x / 2, y / 2) + (if x % 2 == 1 && y % 2 == 0 then 1 else 0)
  }

  function IsPowerOf2(n: nat): bool {
    n != 0 && And(n, n - 1) == 0
  }

  lemma AndBits(h: nat, b: nat, l: nat, c: nat)
    requires b < 2 && c < 2
    ensures And(2 * h + b, 2 * l + c) == 2 * And(h, l) + if b == 1 && c == 1 then 1 else 0
  {
    Halves(h, b);
    Halves(l, c);
  }

  lemma AndNotBits(h: nat, b: nat, l: nat, c: nat)
    requires b < 2 && c < 2
    ensures AndNot(2 * h + b, 2 * l + c) == 2 * AndNot(h, l) + if b == 1 && c == 0 then 1 else 0
  {
    Halves(h, b);
    Halves(l, c);
  }

  lemma {:induction false} AndSelf(x: nat)
    ensures And(x, x) == x
  {
    if x > 0 {
      AndSelf(x / 2);
    }
  }

  lemma Pow2Odd(k: nat, h: nat)
    requires Pow2(k) == 2 * h + 1
    ensures h == 0
  {
  }

  /** The test n & (n - 1) accepts exactly the powers of two. */
  lemma {:induction false} PowerOf2Exactly(n: nat)
    ensures IsPowerOf2(n) <==> exists k: nat :: n == Pow2(k)
  {
    hide And, Pow2;
    var h := n / 2;
    if n % 2 == 1 {
      assert n == 2 * h + 1;
      AndBits(h, 1, h, 0);
      AndSelf(h);
      Pow2Start();
      forall k: nat | n == Pow2(k)
        ensures h == 0
      {
        Pow2Odd(k, h);
      }
    } else if n > 0 {
      assert n == 2 * h && n - 1 == 2 * (h - 1) + 1;
      AndBits(h, 0, h - 1, 1);
      PowerOf2Exactly(h);
      PowersOfTwice(h);
    }
  }

  lemma Pow2Start()
    ensures Pow2(0) == 1
  {
  }

  lemma PowersOfTwice(h: nat)
    requires h > 0
    ensures (exists k: nat :: 2 * h == Pow2(k)) <==> exists k: nat :: h == Pow2(k)
  {
    hide Pow2;
    Pow2Start();
    if exists k: nat :: 2 * h == Pow2(k) {
      var k: nat :| 2 * h == Pow2(k);
      Pow2Twice(k);
    }
    if exists k: nat :: h == Pow2(k) {
      var k: nat :| h == Pow2(k);
      Pow2Twice(k + 1);
    }
  }

  /** Clearing the low bits rounds down to a multiple. */
  lemma {:induction false} ClearsLowBits(x: nat, k: nat)
    ensures AndNot(x, Pow2(k) - 1) == x - x % Pow2(k)
    decreases k
  {
    hide AndNot, Pow2;
    if k == 0 {
      Pow2Start();
      AndNotZero(x);
    } else {
      var h, b, m := x / 2, x % 2, Pow2(k - 1);
      ClearsLowBits(h, k - 1);
      Pow2Twice(k);
      ClearsOneMore(x, h, b, m);
    }
  }

  lemma ClearsOneMore(x: nat, h: nat, b: nat, m: nat)
    requires m > 0 && h == x / 2 && b == x % 2 && AndNot(h, m - 1) == h - h % m
    ensures AndNot(x, 2 * m - 1) == x - x % (2 * m)
  {
    hide AndNot;
    AndNotBits(h, b, m - 1, 1);
    HalvedRemainder(x, m);
    assert x == 2 * h + b && 2 * m - 1 == 2 * (m - 1) + 1;
  }

  lemma Pow2Twice(k: nat)
    requires k > 0
    ensures Pow2(k) == 2 * Pow2(k - 1)
  {
  }

  lemma {:induction false} AndNotZero(x: nat)
    ensures AndNot(x, 0) == x
  {
    if x > 0 {
      AndNotZero(x / 2);
    }
  }

  lemma HalvedRemainder(x: nat, m: nat)
    requires m > 0
    ensures x % (2 * m) == 2 * (x / 2 % m) + x % 2
  {
    var h, b := x / 2, x % 2;
    var q, r := h / m, h % m;
    assert x == 2 * h + b && h == m * q + r;
    assert x == 2 * m * q + (2 * r + b) by {
      Regroup(m, q, r, b, h, x);
    }
    DivModUnique(2 * m, q, 2 * r + b);
  }

  lemma Regroup(m: nat, q: nat, r: nat, b: nat, h: nat, x: nat)
    requires h == m * q + r && x == 2 * h + b
    ensures x == 2 * m * q + (2 * r + b)
  {
  }

  /** The address handed out for a raw block. */
  function Place(raw: nat, align: nat): nat
    requires align > 0
  {
    AndNot(raw + align + HEADER - 1, align - 1)
  }

  /** It is aligned, leaves room for the header, and wastes less than align bytes. */
  lemma PlaceFits(raw: nat, align: nat)
    requires IsPowerOf2(align)
    ensures Place(raw, align) % align == 0 && raw + HEADER <= Place(raw, align) < raw + HEADER + align
  {
    PowerOf2Exactly(align);
    var k: nat :| align == Pow2(k);
    var x := raw + align + HEADER - 1;
    ClearsLowBits(x, k);
    hide IsPowerOf2, AndNot, Pow2;
    MultipleBelow(x, align);
  }

  lemma MultipleBelow(x: nat, m: nat)
    requires m > 0
    ensures (x - x % m) % m == 0 && x - m < x - x % m <= x
  {
    assert x == m * (x / m) + x % m;
    DivModUnique(m, x / m, 0);
  }

  // ---- The heap ----

  /** Control blocks, each under the pointer in front of which it is stored. */
  type Headers = map<nat, Control>

  /** p was handed out and has not been freed. */
  predicate Live(headers: Headers, p: nat) {
    p in headers && headers[p].magic == MAGIC
  }

  predicate Apart(a: nat, m: nat, b: nat, n: nat) {
    a + m <= b || b + n <= a
  }

  /** The pointer is aligned, and header and payload lie in its raw block. */
  predicate Placed(raws: map<nat, nat>, c: Control, p: nat) {
    && IsPowerOf2(c.align) && p % c.align == 0
    && c.raw in raws && raws[c.raw] == c.bytes + HEADER + c.align
    && c.raw + HEADER <= p && p + c.bytes <= c.raw + raws[c.raw]
  }

  /** Raw blocks do not overlap. */
  ghost predicate Regions(raws: map<nat, nat>) {
    && (forall r :: r in raws ==> 0 < r && 0 < raws[r] && r + raws[r] <= SIZE_MAX + 1)
    && forall a, b :: a in raws && b in raws && a != b ==> Apart(a, raws[a], b, raws[b])
  }

  /** Live pointers lie in raw blocks of their own. */
  ghost predicate Housed(raws: map<nat, nat>, headers: Headers) {
    && (forall p :: p in headers ==> p >= HEADER)
    && (forall p: nat :: Live(headers, p) ==> Placed(raws, headers[p], p))
    && forall p: nat, q: nat :: Live(headers, p) && Live(headers, q) && p != q ==> headers[p].raw != headers[q].raw
  }

  /** Every raw block belongs to a live pointer. */
  ghost predicate NoLeak(raws: map<nat, nat>, headers: Headers) {
    forall r :: r in raws ==> exists p: nat :: Live(headers, p) && headers[p].raw == r
  }

  ghost predicate Sound(raws: map<nat, nat>, headers: Headers) {
    Regions(raws) && Housed(raws, headers) && NoLeak(raws, headers)
  }

  /** What malloc promises about a block it returns. */
  ghost predicate Fresh(raws: map<nat, nat>, raw: nat, size: nat) {
    0 < raw && raw + size <= SIZE_MAX + 1 && forall r :: r in raws ==> Apart(r, raws[r], raw, size)
  }

  /** Headers and payloads of different live pointers do not overlap. */
  lemma LiveApart(raws: map<nat, nat>, headers: Headers, p: nat, q: nat)
    requires Sound(raws, headers) && Live(headers, p) && Live(headers, q) && p != q
    ensures p >= HEADER && q >= HEADER
    ensures Apart(p - HEADER, HEADER + headers[p].bytes, q - HEADER, HEADER + headers[q].bytes)
  {
    hide IsPowerOf2, NoLeak;
    var c, d := headers[p], headers[q];
    assert Placed(raws, c, p) && Placed(raws, d, q);
    assert Apart(c.raw, raws[c.raw], d.raw, raws[d.raw]);
  }

  /** A block that malloc hands out again may be overwritten, so what was there is no header any more. */
  function Outside(headers: Headers, raw: nat, size: nat): Headers {
    map p | p in headers && Apart(p, 0, raw, size + HEADER) :: headers[p]
  }

  /** The live pointers after are those before and p, with the control blocks they had. */
  ghost predicate Gains(before: Headers, after: Headers, p: nat, c: Control) {
    && c.magic == MAGIC && p in after && after[p] == c && !Live(before, p)
    && (forall q: nat :: Live(after, q) <==> Live(before, q) || q == p)
    && forall q: nat :: Live(before, q) ==> after[q] == before[q]
  }

  ghost predicate Loses(before: Headers, after: Headers, p: nat) {
    && Live(before, p) && p in after && after[p] == before[p].(magic := MAGIC_FREED)
    && (forall q: nat :: Live(after, q) <==> Live(before, q) && q != p)
    && forall q: nat :: Live(before, q) && q != p ==> after[q] == before[q]
  }

  lemma StoreGains(raws: map<nat, nat>, headers: Headers, p: nat, c: Control)
    requires Sound(raws, headers) && Fresh(raws, c.raw, c.bytes + HEADER + c.align) && c.magic == MAGIC
    requires c.raw + HEADER <= p < c.raw + HEADER + c.align
    ensures Gains(headers, Outside(headers, c.raw, c.bytes + HEADER + c.align)[p := c], p, c)
  {
    hide IsPowerOf2, NoLeak;
    var size := c.bytes + HEADER + c.align;
    forall q: nat | Live(headers, q)
      ensures Apart(q, 0, c.raw, size + HEADER) && q != p
    {
      assert Placed(raws, headers[q], q);
      assert Apart(headers[q].raw, raws[headers[q].raw], c.raw, size);
    }
  }

  lemma GainHoused(raws: map<nat, nat>, before: Headers, after: Headers, p: nat, c: Control)
    requires Housed(raws, before) && Gains(before, after, p, c) && c.raw !in raws
    requires forall q :: q in after ==> q in before || q == p
    requires p >= HEADER && Placed(raws[c.raw := c.bytes + HEADER + c.align], c, p)
    ensures Housed(raws[c.raw := c.bytes + HEADER + c.align], after)
  {
    hide IsPowerOf2;
    forall q: nat | Live(after, q)
      ensures Placed(raws[c.raw := c.bytes + HEADER + c.align], after[q], q)
      ensures q != p ==> after[q].raw != c.raw
    {
      if q != p {
        assert Placed(raws, before[q], q);
      }
    }
  }

  lemma GainNoLeak(raws: map<nat, nat>, before: Headers, after: Headers, p: nat, c: Control)
    requires NoLeak(raws, before) && Gains(before, after, p, c)
    ensures NoLeak(raws[c.raw := c.bytes + HEADER + c.align], after)
  {
    forall r | r in raws && r != c.raw
      ensures exists q: nat :: Live(after, q) && after[q].raw == r
    {
      var q: nat :| Live(before, q) && before[q].raw == r;
      assert Live(after, q) && after[q].raw == r;
    }
    assert Live(after, p) && after[p].raw == c.raw;
  }

  lemma FreshRegions(raws: map<nat, nat>, raw: nat, size: nat)
    requires Regions(raws) && Fresh(raws, raw, size) && size > 0
    ensures raw !in raws && Regions(raws[raw := size])
  {
    assert raw in raws ==> Apart(raw, raws[raw], raw, size);
  }

  /** Adding a fresh block keeps the heap sound. */
  lemma StoreSound(raws: map<nat, nat>, headers: Headers, p: nat, c: Control)
    requires Sound(raws, headers) && Fresh(raws, c.raw, c.bytes + HEADER + c.align) && c.magic == MAGIC
    requires IsPowerOf2(c.align) && p % c.align == 0 && c.raw + HEADER <= p < c.raw + HEADER + c.align
    ensures Sound(raws[c.raw := c.bytes + HEADER + c.align], Outside(headers, c.raw, c.bytes + HEADER + c.align)[p := c])
  {
    hide IsPowerOf2, Housed, NoLeak, Gains, Regions, Fresh, Outside, Placed;
    var size := c.bytes + HEADER + c.align;
    var after := Outside(headers, c.raw, size)[p := c];
    StoreGains(raws, headers, p, c);
    FreshRegions(raws, c.raw, size);
    OutsideKeys(headers, c.raw, size);
    NewPlaced(raws, p, c);
    GainHoused(raws, headers, after, p, c);
    GainNoLeak(raws, headers, after, p, c);
  }

  lemma OutsideKeys(headers: Headers, raw: nat, size: nat)
    ensures forall q :: q in Outside(headers, raw, size) ==> q in headers
  {
  }

  lemma NewPlaced(raws: map<nat, nat>, p: nat, c: Control)
    requires IsPowerOf2(c.align) && p % c.align == 0 && c.raw + HEADER <= p < c.raw + HEADER + c.align
    ensures Placed(raws[c.raw := c.bytes + HEADER + c.align], c, p)
  {
    hide IsPowerOf2;
  }

  lemma FreeLoses(headers: Headers, p: nat)
    requires Live(headers, p)
    ensures Loses(headers, headers[p := headers[p].(magic := MAGIC_FREED)], p)
  {
  }

  /** Giving a block back keeps the heap sound. */
  lemma FreeSound(raws: map<nat, nat>, headers: Headers, p: nat)
    requires Sound(raws, headers) && Live(headers, p)
    ensures Sound(raws - {headers[p].raw}, headers[p := headers[p].(magic := MAGIC_FREED)])
  {
    var c := headers[p];
    var after := headers[p := c.(magic := MAGIC_FREED)];
    FreeLoses(headers, p);
    LoseHoused(raws, headers, after, p);
    LoseNoLeak(raws, headers, after, p);
    hide Housed, NoLeak, Loses;
  }

  lemma LoseHoused(raws: map<nat, nat>, before: Headers, after: Headers, p: nat)
    requires Housed(raws, before) && Loses(before, after, p) && after.Keys == before.Keys
    ensures Housed(raws - {before[p].raw}, after)
  {
    hide IsPowerOf2;
    forall q: nat | Live(after, q)
      ensures Placed(raws - {before[p].raw}, after[q], q)
    {
      assert Placed(raws, before[q], q);
    }
  }

  lemma LoseNoLeak(raws: map<nat, nat>, before: Headers, after: Headers, p: nat)
    requires NoLeak(raws, before) && Loses(before, after, p)
    ensures NoLeak(raws - {before[p].raw}, after)
  {
    forall r | r in raws && r != before[p].raw
      ensures exists q: nat :: Live(after, q) && after[q].raw == r
    {
      var q: nat :| Live(before, q) && before[q].raw == r;
      assert Live(after, q) && after[q].raw == r;
    }
  }

  // ---- The three operations ----

  /** Undefined: C says nothing about what happens; the model stops there with nothing changed. */
  datatype Outcome = Null | Aborted | Undefined | At(ptr: nat)

  /** The control block in front of ptr; other is what memory holds where this allocator has written none. */
  function ControlAt(headers: Headers, ptr: nat, other: Control): Control {
    if ptr in headers then headers[ptr] else other
  }

  /** Memory that this allocator has not written looks like one of its control blocks. */
  predicate Forged(headers: Headers, ptr: nat, other: Control) {
    ptr !in headers && other.magic == MAGIC
  }

  /** The size that is asked of malloc, in size_t. */
  function Asked(bytes: nat, align: nat): nat {
    (bytes + HEADER + align) % (SIZE_MAX + 1)
  }

  /** The block asked for has room for the payload if and only if size, header and alignment together do not wrap. */
  lemma AskedExactly(bytes: nat, align: nat)
    requires bytes <= SIZE_MAX && 0 < align <= SIZE_MAX - HEADER
    ensures bytes <= Asked(bytes, align) <==> bytes + HEADER + align <= SIZE_MAX
    ensures bytes <= Asked(bytes, align) <==> Asked(bytes, align) == bytes + HEADER + align
  {
  }

  /** The block has to grow, the old size passes the tests, malloc gives a block, and the size asked for has wrapped. */
  predicate Wraps(c: Control, bytes: nat, align: nat, raw: nat) {
    && c.align == align && c.bytes < bytes && c.bytes + align + HEADER <= SIZE_MAX
    && raw != 0 && bytes + HEADER + align > SIZE_MAX
  }

  /** n bytes at p and at q are the same. */
  ghost predicate Same(m1: nat -> Byte, p: nat, m2: nat -> Byte, q: nat, n: nat) {
    forall a: nat :: p <= a < p + n ==> m1(a) == m2(q + (a - p))
  }

  /** memcpy of n bytes. */
  function Copied(m: nat -> Byte, from: nat, to: nat, n: nat): nat -> Byte {
    (a: nat) => if to <= a < to + n then m(from + (a - to)) else m(a)
  }

  /** Copying into the payload of p2 leaves every other payload alone. */
  lemma CopyKeeps(raws: map<nat, nat>, headers: Headers, m: nat -> Byte, p: nat, p2: nat, n: nat)
    requires Sound(raws, headers) && Live(headers, p2) && n <= headers[p2].bytes
    ensures Same(Copied(m, p, p2, n), p2, m, p, n)
    ensures forall q: nat :: Live(headers, q) && q != p2 ==> Same(Copied(m, p, p2, n), q, m, q, headers[q].bytes)
  {
    hide Sound;
    forall q: nat | Live(headers, q) && q != p2
      ensures Same(Copied(m, p, p2, n), q, m, q, headers[q].bytes)
    {
      LiveApart(raws, headers, q, p2);
    }
  }

  /** A block of 16 bytes grown to SIZE_MAX bytes: malloc is asked for 47 bytes. */
  lemma GrownTooFar()
    ensures IsPowerOf2(16) && Wraps(Control(MAGIC, 4096, 16, 16), SIZE_MAX, 16, 8192)
    ensures Asked(SIZE_MAX, 16) == 47 < SIZE_MAX
  {
    assert And(16, 15) == 2 * And(8, 7);
    assert And(8, 7) == 2 * And(4, 3);
    assert And(4, 3) == 2 * And(2, 1);
    assert And(2, 1) == 2 * And(1, 0);
    assert And(1, 0) == 0;
  }

  /** The block has to grow, and the old size does not pass the tests or malloc refuses. */
  predicate NoRoom(c: Control, bytes: nat, raw: nat) {
    c.bytes < bytes && (c.bytes + c.align + HEADER > SIZE_MAX || raw == 0)
  }

  class Heap {
    var raws: map<nat, nat>
    var headers: Headers
    var mem: nat -> Byte

    ghost predicate Valid()
      reads this`raws, this`headers
    {
      Sound(raws, headers)
    }

    constructor (contents: nat -> Byte)
      ensures Valid() && raws == map[] && mem == contents
    {
      raws, headers, mem := map[], map[], contents;
    }

    /** raw is what malloc answers, 0 for NULL. */
    method AlignedMalloc(bytes: nat, align: nat, raw: nat) returns (r: Outcome)
      requires Valid() && bytes <= SIZE_MAX && align <= SIZE_MAX
      requires raw != 0 ==> Fresh(raws, raw, Asked(bytes, align))
      modifies this`raws, this`headers
      ensures Valid() && (r.Null? || r.At?)
      ensures r.Null? <==> !IsPowerOf2(align) || bytes + align + HEADER > SIZE_MAX || raw == 0
      ensures r.Null? ==> raws == old(raws) && headers == old(headers)
      ensures r.At? ==>
        && align > 0 && r.ptr % align == 0
        && Gains(old(headers), headers, r.ptr, Control(MAGIC, raw, bytes, align))
        && raws == old(raws)[raw := bytes + HEADER + align]
    {
      hide IsPowerOf2, Sound, Place, Gains, Asked, Fresh;
      if !IsPowerOf2(align) {
        return Null;
      }
      if bytes > SIZE_MAX - align {
        return Null;
      }
      if bytes + align > SIZE_MAX - HEADER {
        return Null;
      }
      if raw == 0 {
        return Null;
      }
      PositiveAlign(align);
      AskedExactly(bytes, align);
      PlaceFits(raw, align);
      var ptr, size := Place(raw, align), bytes + HEADER + align;
      var ctrl := Control(MAGIC, raw, bytes, align);
      StoreGains(raws, headers, ptr, ctrl);
      StoreSound(raws, headers, ptr, ctrl);
      raws := raws[raw := size];
      headers := Outside(headers, raw, size)[ptr := ctrl];
      r := At(ptr);
    }

    /**
     * Aborts on a control block that says freed, or that this allocator did not write, unless memory that
     * it did not write looks like a control block of its own.
     */
    method AlignedFree(ptr: nat, other: Control) returns (r: Outcome)
      requires Valid()
      modifies this`raws, this`headers
      ensures Valid() && !r.At?
      ensures r.Undefined? <==> ptr != 0 && Forged(old(headers), ptr, other)
      ensures r.Aborted? <==> ptr != 0 && !old(Live(headers, ptr)) && !r.Undefined?
      ensures !r.Null? || ptr == 0 ==> raws == old(raws) && headers == old(headers)
      ensures r.Null? && ptr != 0 ==> Loses(old(headers), headers, ptr) && raws == old(raws) - {old(headers)[ptr].raw}
    {
      hide Sound, Loses;
      if ptr == 0 {
        return Null;
      }
      var c := ControlAt(headers, ptr, other);
      if c.magic != MAGIC {
        return Aborted;
      }
      if ptr !in headers {
        return Undefined;
      }
      FreeLoses(headers, ptr);
      FreeSound(raws, headers, ptr);
      headers := headers[ptr := c.(magic := MAGIC_FREED)];
      raws := raws - {c.raw};
      r := Null;
    }

    /**
     * The two tests on the old size do not see to it that the new size fits, so the size asked of malloc may
     * wrap; the block is then smaller than the payload.
     */
    method AlignedRealloc(ptr: nat, bytes: nat, align: nat, raw: nat, other: Control) returns (r: Outcome)
      requires Valid() && bytes <= SIZE_MAX && align <= SIZE_MAX
      requires raw != 0 ==> Fresh(raws, raw, Asked(bytes, align))
      modifies this
      ensures Valid()
      ensures ptr == 0 ==>
        && (r.Null? <==> !IsPowerOf2(align) || bytes + align + HEADER > SIZE_MAX || raw == 0)
        && (r.At? ==> Gains(old(headers), headers, r.ptr, Control(MAGIC, raw, bytes, align)))
      ensures r.Aborted? <==>
        && ptr != 0 && (bytes == 0 || IsPowerOf2(align))
        && !old(Live(headers, ptr)) && !Forged(old(headers), ptr, other)
      ensures r.Undefined? <==>
        && ptr != 0 && (bytes == 0 || IsPowerOf2(align))
        && (|| Forged(old(headers), ptr, other)
            || (bytes != 0 && old(Live(headers, ptr)) && Wraps(old(headers)[ptr], bytes, align, raw)))
      ensures r.Undefined? && !Forged(old(headers), ptr, other) ==> Asked(bytes, align) < bytes
      ensures ptr != 0 && bytes == 0 && r.Null? ==> Loses(old(headers), headers, ptr)
      ensures ptr != 0 && bytes != 0 && (r.Null? || r.At?) ==>
        var c := ControlAt(old(headers), ptr, other);
        r.Null? <==> !IsPowerOf2(align) || c.align != align || NoRoom(c, bytes, raw)
      ensures r.At? && ptr != 0 ==> old(Live(headers, ptr))
      ensures r.At? && ptr != 0 && old(headers)[ptr].bytes >= bytes ==> r.ptr == ptr && headers == old(headers)
      ensures r.At? && ptr != 0 ==>
        && Moves(old(headers), headers, ptr, r.ptr)
        && align > 0 && r.ptr % align == 0 && headers[r.ptr].bytes >= bytes
        && Same(mem, r.ptr, old(mem), ptr, old(headers)[ptr].bytes)
        && forall q: nat :: Live(headers, q) && q != r.ptr ==> Same(mem, q, old(mem), q, headers[q].bytes)
      ensures !r.At? ==> mem == old(mem)
      ensures !r.At? && bytes != 0 ==> headers == old(headers)
    {
      hide IsPowerOf2, Sound, Place, Gains, Loses, Moves, Asked, Fresh;
      if ptr == 0 {
        r := AlignedMalloc(bytes, align, raw);
        return;
      }
      if bytes == 0 {
        r := AlignedFree(ptr, other);
        return;
      }
      if !IsPowerOf2(align) {
        return Null;
      }
      var c := ControlAt(headers, ptr, other);
      if c.magic != MAGIC {
        return Aborted;
      }
      if ptr !in headers {
        return Undefined;
      }
      if c.align != align {
        return Null;
      }
      PositiveAlign(align);
      if c.bytes >= bytes {
        LivePlaced(raws, headers, ptr);
        StaysPut(headers, ptr);
        return At(ptr);
      }
      if c.bytes > SIZE_MAX - c.align || c.bytes + c.align > SIZE_MAX - HEADER {
        return Null;
      }
      AskedExactly(bytes, align);
      if raw != 0 && Asked(bytes, align) < bytes {
        return Undefined;
      }
      r := Grow(ptr, bytes, align, raw);
    }

    /** A new block, the old contents copied to it, and the old block given back. */
    method Grow(ptr: nat, bytes: nat, align: nat, raw: nat) returns (r: Outcome)
      requires Valid() && Live(headers, ptr) && headers[ptr].bytes < bytes && IsPowerOf2(align)
      requires bytes <= SIZE_MAX && align <= SIZE_MAX - HEADER
      requires raw != 0 ==> bytes + HEADER + align <= SIZE_MAX && Fresh(raws, raw, Asked(bytes, align))
      modifies this
      ensures Valid() && (r.Null? <==> raw == 0) && (r.Null? || r.At?)
      ensures r.Null? ==> headers == old(headers) && mem == old(mem)
      ensures r.At? ==>
        && Moves(old(headers), headers, ptr, r.ptr)
        && align > 0 && r.ptr % align == 0 && headers[r.ptr].bytes == bytes
        && Same(mem, r.ptr, old(mem), ptr, old(headers)[ptr].bytes)
        && forall q: nat :: Live(headers, q) && q != r.ptr ==> Same(mem, q, old(mem), q, headers[q].bytes)
    {
      hide IsPowerOf2, Sound, Place, Gains, Loses, Moves, Same, Copied, Asked, Fresh;
      LivePlaced(raws, headers, ptr);
      var n := headers[ptr].bytes;
      r := AlignedMalloc(bytes, align, raw);
      if r.Null? {
        return;
      }
      ghost var mid, raws1 := headers, raws;
      GainMeans(old(headers), mid, r.ptr, Control(MAGIC, raw, bytes, align), ptr);
      CopyKeeps(raws1, mid, mem, ptr, r.ptr, n);
      mem := Copied(mem, ptr, r.ptr, n);
      var _ := AlignedFree(ptr, headers[ptr]);
      GainLose(old(headers), mid, headers, ptr, r.ptr, Control(MAGIC, raw, bytes, align));
    }
  }

  /** The live pointers after are those before with p2 in place of p; the others keep their control blocks. */
  ghost predicate Moves(before: Headers, after: Headers, p: nat, p2: nat) {
    && Live(before, p) && Live(after, p2)
    && (forall q: nat :: Live(after, q) <==> (Live(before, q) && q != p) || q == p2)
    && forall q: nat :: Live(after, q) && q != p2 ==> after[q] == before[q]
  }

  lemma StaysPut(headers: Headers, p: nat)
    requires Live(headers, p)
    ensures Moves(headers, headers, p, p)
  {
  }

  lemma GainMeans(before: Headers, after: Headers, p2: nat, c: Control, p: nat)
    requires Gains(before, after, p2, c) && Live(before, p)
    ensures Live(after, p) && after[p] == before[p] && p != p2 && Live(after, p2) && after[p2] == c
  {
  }

  lemma GainLose(before: Headers, mid: Headers, after: Headers, p: nat, p2: nat, c: Control)
    requires Gains(before, mid, p2, c) && Loses(mid, after, p) && Live(before, p)
    ensures Moves(before, after, p, p2) && after[p2] == c
    ensures forall q: nat :: Live(after, q) ==> Live(mid, q) && after[q] == mid[q]
  {
  }

  /** For a live pointer the two tests of aligned_realloc on the old size never fail. */
  lemma OldSizeFits(raws: map<nat, nat>, headers: Headers, p: nat)
    requires Sound(raws, headers) && Live(headers, p)
    ensures headers[p].bytes + headers[p].align + HEADER <= SIZE_MAX + 1 - headers[p].raw <= SIZE_MAX
  {
    hide IsPowerOf2, NoLeak;
    LivePlaced(raws, headers, p);
  }

  lemma PositiveAlign(align: nat)
    requires IsPowerOf2(align)
    ensures align > 0
  {
  }

  lemma LivePlaced(raws: map<nat, nat>, headers: Headers, p: nat)
    requires Sound(raws, headers) && Live(headers, p)
    ensures Placed(raws, headers[p], p)
  {
  }
}
