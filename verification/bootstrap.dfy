/** The framed export file of src/blockchain_utilities/bootstrap_file.cpp and the seek of the importer. */
module Bootstrap {
  import opened Basics
  import opened Positional

  const BUFFER_SIZE: nat := 2 * 1024 * 1024
  const PROGRESS_INTERVAL: nat := 10

  // ---- Frames ----

  /** The four bytes of a chunk size, lowest first. */
  function SizeBytes(n: nat): (r: seq<Byte>)
    ensures |r| == 4
  {
    var ds := Digits(256, n, 4);
    seq<Byte>(4, i requires 0 <= i < 4 => ds[3 - i])
  }

  function SizeOf(s: seq<Byte>): nat {
    Num(256, Reversed(s))
  }

  lemma SizeRead(n: nat)
    requires n < Pow(256, 4)
    ensures SizeOf(SizeBytes(n)) == n
  {
    NumDigits(256, n, 4);
    assert Reversed(SizeBytes(n)) == Digits(256, n, 4);
  }

  /** Four bytes of a little-endian number. */
  lemma SizeWritten(n: nat)
    ensures SizeBytes(n) == [n % 0x100, n / 0x100 % 0x100, n / 0x1_0000 % 0x100, n / 0x100_0000 % 0x100]
  {
    var d := Digits(256, n, 4);
    assert d[3] == n % 256;
    assert d[..3] == Digits(256, n / 256, 3);
    assert d[..2] == Digits(256, n / 256 / 256, 2) == d[..3][..2];
    assert d[..1] == Digits(256, n / 256 / 256 / 256, 1) == d[..2][..1];
  }

  /** A chunk that a reader accepts. */
  predicate Good(chunk: seq<Byte>) {
    0 < |chunk| <= BUFFER_SIZE
  }

  function Frame(chunk: seq<Byte>): seq<Byte> {
    SizeBytes(|chunk|) + chunk
  }

  function Frames(cs: seq<seq<Byte>>): seq<Byte> {
    if cs == [] then [] else Frames(cs[..|cs| - 1]) + Frame(cs[|cs| - 1])
  }

  ghost predicate AllGood(cs: seq<seq<Byte>>) {
    forall i :: 0 <= i < |cs| ==> Good(cs[i])
  }

  /** Where chunk i starts. */
  ghost function Offset(cs: seq<seq<Byte>>, i: nat): nat
    requires i <= |cs|
  {
    |Frames(cs[..i])|
  }

  lemma {:induction false} FramesJoin(a: seq<seq<Byte>>, b: seq<seq<Byte>>)
    ensures Frames(a + b) == Frames(a) + Frames(b)
    decreases |b|
  {
    hide Frame;
    if b == [] {
      assert a + b == a;
    } else {
      var init := b[..|b| - 1];
      assert (a + b)[..|a + b| - 1] == a + init;
      FramesJoin(a, init);
    }
  }

  lemma OffsetNext(cs: seq<seq<Byte>>, i: nat)
    requires i < |cs|
    ensures Offset(cs, i + 1) == Offset(cs, i) + 4 + |cs[i]|
  {
    assert cs[..i + 1][..i] == cs[..i];
  }

  /** The file from chunk i on. */
  lemma FramesAt(cs: seq<seq<Byte>>, i: nat)
    requires i <= |cs|
    ensures Offset(cs, i) <= |Frames(cs)| && Frames(cs)[Offset(cs, i)..] == Frames(cs[i..])
    ensures i == |cs| ==> Offset(cs, i) == |Frames(cs)|
  {
    assert cs == cs[..i] + cs[i..];
    FramesJoin(cs[..i], cs[i..]);
    if i == |cs| {
      assert cs[..i] == cs;
    }
  }

  lemma FramesFirst(c: seq<Byte>, cs: seq<seq<Byte>>)
    ensures Frames([c] + cs) == Frame(c) + Frames(cs)
  {
    hide Frame;
    FramesJoin([c], cs);
    assert [c][..0] == [];
  }

  // ---- Reading sizes ----

  datatype Step = EndOfFile | BadSize | Chunk(next: nat)

  /** The size at pos, and where the chunk after it ends, be it past the end of the file. */
  function ReadStep(body: seq<Byte>, pos: nat): Step {
    if pos + 4 > |body| then EndOfFile
    else
      var size := SizeOf(body[pos..pos + 4]);
      if size > BUFFER_SIZE || size == 0 then BadSize else Chunk(pos + 4 + size)
  }

  /** A frame at pos is read as a chunk, or refused. */
  lemma ReadFrame(body: seq<Byte>, pos: nat, c: seq<Byte>, rest: seq<Byte>)
    requires |c| < Pow(256, 4) && pos <= |body| && body[pos..] == Frame(c) + rest
    ensures ReadStep(body, pos) == if Good(c) then Chunk(pos + 4 + |c|) else BadSize
  {
    hide SizeOf, SizeBytes, Pow;
    assert |body| - pos == 4 + |c| + |rest|;
    assert body[pos..pos + 4] == body[pos..][..4] == SizeBytes(|c|);
    SizeRead(|c|);
  }

  /** How many of the chunks a file cut off after n bytes still shows the size of. */
  ghost function Seen(cs: seq<seq<Byte>>, n: nat): nat {
    if cs == [] then 0
    else if Offset(cs, |cs| - 1) + 4 <= n then |cs|
    else Seen(cs[..|cs| - 1], n)
  }

  /** The sizes that a cut-off file shows are those of its first Seen chunks. */
  lemma {:induction false} SeenAt(cs: seq<seq<Byte>>, n: nat, i: nat)
    requires i < |cs|
    ensures Seen(cs, n) <= |cs| && (Offset(cs, i) + 4 <= n <==> i < Seen(cs, n))
    decreases |cs|
  {
    hide Seen, Offset;
    var last := |cs| - 1;
    var init := cs[..last];
    SeenInit(cs, n);
    SeenMost(init, n);
    InitOffset(cs, i);
    if Offset(cs, last) + 4 <= n {
      OffsetOrder(cs, i, last);
    } else if i < last {
      SeenAt(init, n, i);
    }
  }

  lemma SeenInit(cs: seq<seq<Byte>>, n: nat)
    requires cs != []
    ensures Seen(cs, n) == if Offset(cs, |cs| - 1) + 4 <= n then |cs| else Seen(cs[..|cs| - 1], n)
  {
  }

  lemma {:induction false} SeenMost(cs: seq<seq<Byte>>, n: nat)
    ensures Seen(cs, n) <= |cs|
    decreases |cs|
  {
    if cs != [] {
      SeenMost(cs[..|cs| - 1], n);
    }
  }

  lemma InitOffset(cs: seq<seq<Byte>>, i: nat)
    requires i < |cs|
    ensures Offset(cs, i) == Offset(cs[..|cs| - 1], i)
  {
    assert cs[..|cs| - 1][..i] == cs[..i];
  }

  lemma OffsetOrder(cs: seq<seq<Byte>>, i: nat, j: nat)
    requires i <= j <= |cs|
    ensures Offset(cs, i) <= Offset(cs, j)
  {
    if i < j {
      OffsetGrows(cs, i, j);
    }
  }

  /** A whole file shows all its chunks. */
  lemma SeenAll(cs: seq<seq<Byte>>)
    ensures Seen(cs, |Frames(cs)|) == |cs|
  {
    if cs != [] {
      OffsetNext(cs, |cs| - 1);
      FramesAt(cs, |cs|);
    }
  }

  /** The sizes fit in four bytes. */
  ghost predicate AllFit(cs: seq<seq<Byte>>) {
    forall i :: 0 <= i < |cs| ==> |cs[i]| < Pow(256, 4)
  }

  /** The first n bytes of the file of the chunks cs. */
  ghost predicate Cut(body: seq<Byte>, cs: seq<seq<Byte>>, n: nat) {
    AllFit(cs) && n <= |Frames(cs)| && body == Frames(cs)[..n]
  }

  /** And the chunks whose size it shows are such as a reader accepts. */
  ghost predicate Shows(body: seq<Byte>, cs: seq<seq<Byte>>, n: nat) {
    Cut(body, cs, n) && forall i :: 0 <= i < |cs| && i < Seen(cs, n) ==> Good(cs[i])
  }

  /** A size that the file still shows is read as it was written, even if its chunk is cut off. */
  lemma ReadStepAt(body: seq<Byte>, cs: seq<seq<Byte>>, n: nat, i: nat)
    requires Cut(body, cs, n) && i <= Seen(cs, n) <= |cs|
    ensures ReadStep(body, Offset(cs, i)) ==
      if i == Seen(cs, n) then EndOfFile else if Good(cs[i]) then Chunk(Offset(cs, i + 1)) else BadSize
  {
    hide Seen, SizeBytes, SizeOf, Frames, Good, Pow;
    FramesAt(cs, i);
    if i < |cs| {
      SeenAt(cs, n, i);
      OffsetNext(cs, i);
      FramesFrom(cs, i);
      ReadFrame(Frames(cs), Offset(cs, i), cs[i], Frames(cs[i + 1..]));
      if i < Seen(cs, n) {
        ReadCut(Frames(cs), n, Offset(cs, i));
      } else {
        ReadPast(body, Offset(cs, i));
      }
    } else {
      ReadPast(body, Offset(cs, i));
    }
  }

  lemma ReadCut(body: seq<Byte>, n: nat, pos: nat)
    requires pos + 4 <= n <= |body|
    ensures ReadStep(body[..n], pos) == ReadStep(body, pos)
  {
    hide SizeOf;
    assert body[..n][pos..pos + 4] == body[pos..pos + 4];
  }

  lemma FramesFrom(cs: seq<seq<Byte>>, i: nat)
    requires i < |cs|
    ensures Frames(cs[i..]) == Frame(cs[i]) + Frames(cs[i + 1..])
  {
    hide Frames, Frame;
    assert cs[i..] == [cs[i]] + cs[i + 1..];
    FramesFirst(cs[i], cs[i + 1..]);
  }

  lemma ReadPast(body: seq<Byte>, pos: nat)
    requires |body| < pos + 4
    ensures ReadStep(body, pos) == EndOfFile
  {
  }

  lemma BufferFits()
    ensures BUFFER_SIZE < Pow(256, 4)
  {
    assert Pow(256, 2) == 65536;
    assert Pow(256, 3) == 256 * 65536;
    assert Pow(256, 4) == 256 * Pow(256, 3);
  }

  datatype Skipped = Failed | Skipped(pos: nat, blocks: nat, quit: bool)

  /** Reading sizes until h reaches blocks, but at least one. */
  function Skip(body: seq<Byte>, pos: nat, blocks: nat, h: nat): Skipped
    decreases |body| - pos
  {
    match ReadStep(body, pos)
    case EndOfFile => Skipped(pos, h, true)
    case BadSize => Failed
    case Chunk(next) => if h + 1 >= blocks then Skipped(next, h + 1, false) else Skip(body, next, blocks, h + 1)
  }

  method CountBytes(body: seq<Byte>, pos: nat, blocks: nat) returns (r: Skipped, bytesRead: nat)
    ensures r == Skip(body, pos, blocks, 0)
    ensures r.Skipped? ==> r.pos == pos + bytesRead
  {
    hide SizeOf;
    var p, h := pos, 0;
    bytesRead := 0;
    while true
      invariant p == pos + bytesRead && Skip(body, p, blocks, h) == Skip(body, pos, blocks, 0)
      decreases |body| - p
    {
      if p + 4 > |body| {
        return Skipped(p, h, true), bytesRead;
      }
      var chunkSize := SizeOf(body[p..p + 4]);
      bytesRead := bytesRead + 4;
      if chunkSize > BUFFER_SIZE || chunkSize == 0 {
        return Failed, bytesRead;
      }
      bytesRead := bytesRead + chunkSize;
      p := p + 4 + chunkSize;
      h := h + 1;
      if h >= blocks {
        return Skipped(p, h, false), bytesRead;
      }
    }
  }

  /** The chunks that one call passes over: blocks of them, at least one, as far as the file shows them. */
  lemma {:induction false} SkipChunks(body: seq<Byte>, cs: seq<seq<Byte>>, n: nat, i: nat, blocks: nat, h: nat, left: nat)
    requires Shows(body, cs, n) && i <= Seen(cs, n) <= |cs|
    requires left > 0 && (left == blocks - h || (left == 1 && blocks <= h))
    ensures Skip(body, Offset(cs, i), blocks, h) ==
      if i + left <= Seen(cs, n) then Skipped(Offset(cs, i + left), h + left, false)
      else Skipped(Offset(cs, Seen(cs, n)), h + (Seen(cs, n) - i), true)
    decreases |cs| - i
  {
    hide ReadStep, Cut, Offset, Seen, Good;
    ReadStepAt(body, cs, n, i);
    if i < Seen(cs, n) && left > 1 {
      SkipChunks(body, cs, n, i + 1, blocks, h + 1, left - 1);
    }
  }

  /** One call that meets a chunk that no reader accepts. */
  lemma {:induction false} SkipBad(body: seq<Byte>, cs: seq<seq<Byte>>, n: nat, i: nat, b: nat, blocks: nat, h: nat, left: nat)
    requires Cut(body, cs, n) && i <= b < Seen(cs, n) <= |cs|
    requires !Good(cs[b]) && forall k :: i <= k < b ==> Good(cs[k])
    requires left > 0 && (left == blocks - h || (left == 1 && blocks <= h))
    ensures Skip(body, Offset(cs, i), blocks, h) ==
      if i + left <= b then Skipped(Offset(cs, i + left), h + left, false) else Failed
    decreases |cs| - i
  {
    hide ReadStep, Cut, Offset, Seen, Good;
    ReadStepAt(body, cs, n, i);
    if i < b && left > 1 {
      SkipBad(body, cs, n, i + 1, b, blocks, h + 1, left - 1);
    }
  }

  // ---- Counting blocks and finding a place to start ----

  datatype Seek = Seek(pos: nat, height: nat)

  datatype Counted = Broken | Counted(blocks: nat, seek: Option<Seek>)

  /** Unsigned 64-bit arithmetic. */
  function Wrap(n: int): nat {
    n % TWO64
  }

  function Excess(size: nat, pos: nat): nat {
    if pos < size then size - pos else 0
  }

  lemma SkipAdvances(body: seq<Byte>, pos: nat, blocks: nat, h: nat)
    requires Skip(body, pos, blocks, h).Skipped? && !Skip(body, pos, blocks, h).quit
    ensures Excess(|body|, Skip(body, pos, blocks, h).pos) < Excess(|body|, pos)
    decreases |body| - pos
  {
    hide SizeOf;
    match ReadStep(body, pos)
    case Chunk(next) =>
      if h + 1 < blocks {
        SkipAdvances(body, next, blocks, h + 1);
      }
    case _ =>
  }

  /** The scan from pos, with h blocks seen; start is 0 once a place to start has been noted. */
  function CountFrom(body: seq<Byte>, pos: nat, h: nat, first: nat, start: nat, seek: Option<Seek>): Counted
    decreases Excess(|body|, pos)
  {
    var hit := start > 0 && Wrap(h + first + PROGRESS_INTERVAL) >= start - 1;
    var start', seek' := if hit then 0 else start, if hit then Some(Seek(pos, Wrap(h + first))) else seek;
    var s := Skip(body, pos, PROGRESS_INTERVAL, 0);
    if s.Failed? then Broken
    else if s.quit then Counted(h + s.blocks, seek')
    else
      SkipAdvances(body, pos, PROGRESS_INTERVAL, 0);
      CountFrom(body, s.pos, h + s.blocks, first, start', seek')
  }

  method CountBlocks(body: seq<Byte>, first: nat, seekHeight: nat) returns (r: Counted)
    ensures r == CountFrom(body, 0, 0, first, seekHeight, None)
  {
    var startHeight: nat, h: nat, pos: nat := seekHeight, 0, 0;
    var seek: Option<Seek> := None;
    var quit := false;
    while !quit
      invariant !quit ==> CountFrom(body, pos, h, first, startHeight, seek) == CountFrom(body, 0, 0, first, seekHeight, None)
      invariant quit ==> Counted(h, seek) == CountFrom(body, 0, 0, first, seekHeight, None)
      decreases !quit, Excess(|body|, pos)
    {
      if startHeight > 0 && Wrap(h + first + PROGRESS_INTERVAL) >= startHeight - 1 {
        startHeight := 0;
        seek := Some(Seek(pos, Wrap(h + first)));
      }
      var s, _ := CountBytes(body, pos, PROGRESS_INTERVAL);
      if s.Failed? {
        return Broken;
      }
      if !s.quit {
        SkipAdvances(body, pos, PROGRESS_INTERVAL, 0);
      }
      pos, h, quit := s.pos, h + s.blocks, s.quit;
    }
    r := Counted(h, seek);
  }

  /** The blocks counted are the chunks whose size the file shows: a last chunk that is cut off counts. */
  lemma {:induction false} CountsAll(body: seq<Byte>, cs: seq<seq<Byte>>, n: nat, i: nat, first: nat, start: nat,
                                     seek: Option<Seek>)
    requires Shows(body, cs, n) && i <= Seen(cs, n) <= |cs|
    ensures var r := CountFrom(body, Offset(cs, i), i, first, start, seek);
      r.Counted? && r.blocks == Seen(cs, n) && (start == 0 ==> r.seek == seek)
    decreases |cs| - i
  {
    hide Skip, Shows, Offset, Excess, Wrap, Seen;
    SkipChunks(body, cs, n, i, PROGRESS_INTERVAL, 0, PROGRESS_INTERVAL);
    if i + PROGRESS_INTERVAL <= Seen(cs, n) {
      var hit := start > 0 && Wrap(i + first + PROGRESS_INTERVAL) >= start - 1;
      CountsAll(body, cs, n, i + PROGRESS_INTERVAL, first, if hit then 0 else start,
                if hit then Some(Seek(Offset(cs, i), Wrap(i + first))) else seek);
    }
  }

  lemma {:induction false} CountBad(body: seq<Byte>, cs: seq<seq<Byte>>, n: nat, i: nat, b: nat, first: nat, start: nat,
                                    seek: Option<Seek>)
    requires Cut(body, cs, n) && i <= b < Seen(cs, n) <= |cs|
    requires !Good(cs[b]) && forall k :: i <= k < b ==> Good(cs[k])
    ensures CountFrom(body, Offset(cs, i), i, first, start, seek) == Broken
    decreases |cs| - i
  {
    hide Skip, Cut, Offset, Excess, Wrap, Seen, Good;
    SkipBad(body, cs, n, i, b, PROGRESS_INTERVAL, 0, PROGRESS_INTERVAL);
    if i + PROGRESS_INTERVAL <= b {
      var hit := start > 0 && Wrap(i + first + PROGRESS_INTERVAL) >= start - 1;
      CountBad(body, cs, n, i + PROGRESS_INTERVAL, b, first, if hit then 0 else start,
               if hit then Some(Seek(Offset(cs, i), Wrap(i + first))) else seek);
    }
  }

  /** The count aborts exactly when the file shows the size of a chunk that no reader accepts. */
  lemma CountsExactly(body: seq<Byte>, cs: seq<seq<Byte>>, n: nat, first: nat, start: nat)
    requires Cut(body, cs, n)
    ensures CountFrom(body, 0, 0, first, start, None).Counted? <==> Shows(body, cs, n)
  {
    hide CountFrom, Cut, Offset, Seen, Good;
    SeenMost(cs, n);
    OffsetZero(cs);
    if Shows(body, cs, n) {
      CountsAll(body, cs, n, 0, first, start, None);
    } else {
      var b := FirstBad(cs, Seen(cs, n));
      CountBad(body, cs, n, 0, b, first, start, None);
    }
  }

  lemma {:induction false} FirstBad(cs: seq<seq<Byte>>, v: nat) returns (b: nat)
    requires v <= |cs| && exists i :: 0 <= i < v && !Good(cs[i])
    ensures b < v && !Good(cs[b]) && forall k :: 0 <= k < b ==> Good(cs[k])
    decreases v
  {
    hide Good;
    if exists i :: 0 <= i < v - 1 && !Good(cs[i]) {
      b := FirstBad(cs, v - 1);
    } else {
      b := v - 1;
    }
  }

  lemma WrapSmall(n: nat)
    requires n < TWO64
    ensures Wrap(n) == n
  {
  }

  /** The place noted is at chunk j: the first of the file, or one below the height looked for. */
  lemma {:induction false} SeekNoted(body: seq<Byte>, cs: seq<seq<Byte>>, n: nat, i: nat, first: nat, start: nat)
    returns (noted: bool, j: nat)
    requires Shows(body, cs, n) && i <= Seen(cs, n) <= |cs| && 0 < start
    requires first + Seen(cs, n) + PROGRESS_INTERVAL < TWO64
    requires i == 0 || i + first < start - 1
    ensures j <= Seen(cs, n) && CountFrom(body, Offset(cs, i), i, first, start, None)
      == Counted(Seen(cs, n), if noted then Some(Seek(Offset(cs, j), first + j)) else None)
    ensures noted ==> start - 1 <= first + j + PROGRESS_INTERVAL && (j == 0 || first + j < start - 1)
    ensures !noted ==> first + Seen(cs, n) + 1 < start - 1
    ensures start - 1 <= i + first + PROGRESS_INTERVAL ==> noted && j == i
    decreases |cs| - i
  {
    hide Skip, Shows, Offset, Excess, Wrap, Seen;
    SkipChunks(body, cs, n, i, PROGRESS_INTERVAL, 0, PROGRESS_INTERVAL);
    WrapSmall(i + first + PROGRESS_INTERVAL);
    WrapSmall(i + first);
    if i + first + PROGRESS_INTERVAL >= start - 1 {
      noted, j := true, i;
      if i + PROGRESS_INTERVAL <= Seen(cs, n) {
        CountsAll(body, cs, n, i + PROGRESS_INTERVAL, first, 0, Some(Seek(Offset(cs, i), i + first)));
      }
    } else if i + PROGRESS_INTERVAL <= Seen(cs, n) {
      noted, j := SeekNoted(body, cs, n, i + PROGRESS_INTERVAL, first, start);
    } else {
      noted, j := false, 0;
    }
  }

  /** The place noted lies above the height looked for exactly when the file begins above it. */
  lemma NotedAbove(body: seq<Byte>, cs: seq<seq<Byte>>, n: nat, first: nat, start: nat)
    requires Shows(body, cs, n) && 0 < start && first + Seen(cs, n) + PROGRESS_INTERVAL < TWO64
    ensures var r := CountFrom(body, 0, 0, first, start, None);
      && r.Counted? && (start <= first + Seen(cs, n) + 2 ==> r.seek.Some?)
      && (r.seek.Some? ==> (r.seek.value.height > start <==> first > start))
  {
    hide Shows, CountFrom, Offset, Seen;
    SeenMost(cs, n);
    OffsetZero(cs);
    var noted, j := SeekNoted(body, cs, n, 0, first, start);
  }

  /** A file of block 5 alone, in which block 3 is looked for: the place noted is that of block 5. */
  lemma NotedTooHigh()
    ensures CountFrom(Frames([[7]]), 0, 0, 5, 3, None) == Counted(1, Some(Seek(0, 5)))
  {
    hide CountFrom, Frames, Offset, Seen;
    var one: seq<seq<Byte>> := [[7]];
    WholeFile(one);
    OffsetZero(one);
    var noted, j := SeekNoted(Frames(one), one, |Frames(one)|, 0, 5, 3);
  }

  lemma {:induction false} OffsetGrows(cs: seq<seq<Byte>>, i: nat, j: nat)
    requires i < j <= |cs|
    ensures Offset(cs, i) < Offset(cs, j)
    decreases j
  {
    OffsetNext(cs, j - 1);
    hide Offset;
    if i < j - 1 {
      OffsetGrows(cs, i, j - 1);
    }
  }

  lemma OffsetZero(cs: seq<seq<Byte>>)
    ensures Offset(cs, 0) == 0
  {
  }

  // ---- Where the importer starts ----

  /** The first four bytes of a file, which a scan from its very beginning takes for a chunk size. */
  const MAGIC: nat := 0x28721586

  /** Refused: nothing to import. Aborted: an exception. GaveUp: the end of the file came first. From: reading starts. */
  datatype Start = Refused | Aborted | GaveUp | From(pos: nat)

  function SkipTo(body: seq<Byte>, seek: Seek, start: nat): Start {
    var s := Skip(body, seek.pos, Wrap(start - seek.height), 0);
    if s.Failed? then Aborted else if s.quit then GaveUp else From(s.pos)
  }

  function StartOf(body: seq<Byte>, first: nat, start: nat): Start {
    match CountFrom(body, 0, 0, first, start, None)
    case Broken => Aborted
    case Counted(total, seek) =>
      if Wrap(total + first - 1) <= start then Refused
      else if seek.None? then Aborted
      else SkipTo(body, seek.value, start)
  }

  /**
   * Where an import that wants to go on at start begins reading a file whose first block is first
   * and which shows v chunks.
   */
  ghost function Landing(cs: seq<seq<Byte>>, v: nat, first: nat, start: nat): Start
    requires v <= |cs|
  {
    var last := if first + v > 0 then first + v - 1 else TWO64 - 1;
    if last <= start then Refused
    else if start == 0 || (v == 0 && first == 0 && start > PROGRESS_INTERVAL + 1) then Aborted
    else if start < first || v == 0 then GaveUp
    else From(Offset(cs, if start == first then 1 else start - first))
  }

  /** Counting, the test for something to import, and the skip to the height to start from. */
  method ImportStart(body: seq<Byte>, first: nat, startHeight: nat) returns (r: Start)
    requires startHeight < TWO64
    ensures r == StartOf(body, first, startHeight)
    ensures forall cs: seq<seq<Byte>>, n: nat ::
      Shows(body, cs, n) && first + |cs| + PROGRESS_INTERVAL < TWO64 ==>
        Seen(cs, n) <= |cs| && r == Landing(cs, Seen(cs, n), first, startHeight)
  {
    hide CountFrom, Skip, Shows, Seen, Offset, Wrap;
    forall cs: seq<seq<Byte>>, n: nat | Shows(body, cs, n) && first + |cs| + PROGRESS_INTERVAL < TWO64
      ensures Seen(cs, n) <= |cs| && StartOf(body, first, startHeight) == Landing(cs, Seen(cs, n), first, startHeight)
    {
      ImportLands(body, cs, n, first, startHeight);
    }
    var c := CountBlocks(body, first, startHeight);
    if c.Broken? {
      return Aborted;
    }
    if Wrap(c.blocks + first - 1) <= startHeight {
      return Refused;
    }
    if c.seek.None? {
      // The skip begins at the magic number, which is no chunk size.
      assert MAGIC > BUFFER_SIZE;
      return Aborted;
    }
    var s, _ := CountBytes(body, c.seek.value.pos, Wrap(startHeight - c.seek.value.height));
    r := if s.Failed? then Aborted else if s.quit then GaveUp else From(s.pos);
  }

  lemma ImportLands(body: seq<Byte>, cs: seq<seq<Byte>>, n: nat, first: nat, start: nat)
    requires Shows(body, cs, n) && first + |cs| + PROGRESS_INTERVAL < TWO64 && start < TWO64
    ensures Seen(cs, n) <= |cs| && StartOf(body, first, start) == Landing(cs, Seen(cs, n), first, start)
  {
    hide Shows, CountFrom, Offset, Seen, Wrap, Skip;
    SeenMost(cs, n);
    OffsetZero(cs);
    var v := Seen(cs, n);
    LastHeight(v + first);
    if start == 0 {
      CountsAll(body, cs, n, 0, first, 0, None);
    } else {
      var noted, j := SeekNoted(body, cs, n, 0, first, start);
      if noted && Wrap(v + first - 1) > start {
        SkipLands(body, cs, n, j, first, start);
      }
    }
  }

  lemma LastHeight(n: nat)
    requires n < TWO64
    ensures Wrap(n - 1) == if n > 0 then n - 1 else TWO64 - 1
  {
  }

  lemma Apart(start: nat, height: nat)
    requires start < TWO64 && height < TWO64
    ensures Wrap(start - height) == if height <= start then start - height else start - height + TWO64
  {
  }

  lemma SkipLands(body: seq<Byte>, cs: seq<seq<Byte>>, n: nat, j: nat, first: nat, start: nat)
    requires Shows(body, cs, n) && j <= Seen(cs, n) <= |cs| && first + |cs| < TWO64 && start < TWO64
    requires j == 0 || first + j < start
    ensures SkipTo(body, Seek(Offset(cs, j), first + j), start) ==
      if start < first || Seen(cs, n) == 0 then GaveUp
      else if start == first then From(Offset(cs, 1))
      else if start - first <= Seen(cs, n) then From(Offset(cs, start - first))
      else GaveUp
  {
    hide Shows, Offset, Seen, Wrap, Skip;
    Apart(start, first + j);
    var blocks := Wrap(start - (first + j));
    SkipChunks(body, cs, n, j, blocks, 0, if blocks == 0 then 1 else blocks);
  }

  /**
   * The importer starts reading at the chunk of the height it wants to go on at if and only if that
   * chunk is neither the first nor the last that the file shows.
   */
  lemma ImportStartsAt(body: seq<Byte>, cs: seq<seq<Byte>>, n: nat, first: nat, start: nat)
    requires Shows(body, cs, n) && first + |cs| + PROGRESS_INTERVAL < TWO64 && 0 < start < TWO64
    ensures first <= start <= first + Seen(cs, n) && Seen(cs, n) <= |cs|
      && StartOf(body, first, start) == From(Offset(cs, start - first))
      <==> first < start < first + Seen(cs, n) - 1
  {
    hide Shows, StartOf, Offset, Seen;
    ImportLands(body, cs, n, first, start);
    if start == first && Seen(cs, n) > 0 {
      OffsetGrows(cs, 0, 1);
    }
  }

  /** The last height of a file is refused, as in a file of the blocks 1 and 2 for a chain that wants block 2. */
  lemma LastHeightRefused(cs: seq<seq<Byte>>, first: nat)
    requires AllGood(cs) && cs != [] && first + |cs| + PROGRESS_INTERVAL < TWO64
    ensures StartOf(Frames(cs), first, first + |cs| - 1) == Refused
    ensures StartOf(Frames([[7], [7]]), 1, 2) == Refused
  {
    hide StartOf, Frames, Seen;
    WholeFile(cs);
    ImportLands(Frames(cs), cs, |Frames(cs)|, first, first + |cs| - 1);
    var two: seq<seq<Byte>> := [[7], [7]];
    WholeFile(two);
    ImportLands(Frames(two), two, |Frames(two)|, 1, 2);
  }

  /** The first height of a file is missed, as block 1 in a file of the blocks 1 to 3: reading starts at block 2. */
  lemma FirstHeightMissed(cs: seq<seq<Byte>>, first: nat)
    requires AllGood(cs) && |cs| > 1 && 0 < first && first + |cs| + PROGRESS_INTERVAL < TWO64
    ensures StartOf(Frames(cs), first, first) == From(Offset(cs, 1)) && Offset(cs, 1) != Offset(cs, 0)
    ensures StartOf(Frames([[7], [7], [7]]), 1, 1) == From(5)
  {
    hide StartOf, Frames, Seen;
    WholeFile(cs);
    ImportLands(Frames(cs), cs, |Frames(cs)|, first, first);
    OffsetGrows(cs, 0, 1);
    var three: seq<seq<Byte>> := [[7], [7], [7]];
    WholeFile(three);
    ImportLands(Frames(three), three, |Frames(three)|, 1, 1);
    OffsetZero(three);
    OffsetNext(three, 0);
  }

  lemma WholeFile(cs: seq<seq<Byte>>)
    requires AllGood(cs)
    ensures Shows(Frames(cs), cs, |Frames(cs)|) && Seen(cs, |Frames(cs)|) == |cs|
  {
    hide Frames, Seen;
    SeenAll(cs);
    BufferFits();
    assert Frames(cs)[..|Frames(cs)|] == Frames(cs);
  }

  // ---- Exporting, and exporting again ----

  datatype File = File(first: nat, last: nat, body: seq<Byte>)

  /** The chunks of the blocks from, ..., end - 1. */
  function Chunks(serial: nat -> seq<Byte>, from: nat, end: nat): seq<seq<Byte>> {
    if end <= from then [] else Chunks(serial, from, end - 1) + [serial(end - 1)]
  }

  lemma {:induction false} ChunksCount(serial: nat -> seq<Byte>, from: nat, end: nat)
    ensures |Chunks(serial, from, end)| == if end <= from then 0 else end - from
    decreases end
  {
    if end > from {
      ChunksCount(serial, from, end - 1);
    }
  }

  lemma {:induction false} ChunksJoin(serial: nat -> seq<Byte>, from: nat, mid: nat, end: nat)
    requires from <= mid <= end
    ensures Chunks(serial, from, end) == Chunks(serial, from, mid) + Chunks(serial, mid, end)
    decreases end
  {
    if mid < end {
      ChunksJoin(serial, from, mid, end - 1);
    }
  }

  lemma {:induction false} ChunksGood(serial: nat -> seq<Byte>, from: nat, end: nat)
    requires forall h: nat :: Good(serial(h))
    ensures AllGood(Chunks(serial, from, end))
    decreases end
  {
    hide Good;
    if end > from {
      ChunksGood(serial, from, end - 1);
    }
  }

  /** block_stop: the requested height if the chain has it, otherwise the top. */
  function StopBlock(requested: nat, chainHeight: nat): nat
    requires chainHeight > 0
  {
    if 0 < requested < chainHeight then requested else chainHeight - 1
  }

  class BootstrapFile {
    var file: Option<File>

    constructor ()
      ensures file == None
    {
      file := None;
    }

    /** The height after the last block in the file, 0 for a new one. */
    method OpenWriter(startBlock: nat, stopBlock: nat) returns (height: Option<nat>)
      modifies this
      ensures old(file).None? ==> height == Some(0) && file == Some(File(startBlock, stopBlock, []))
      ensures old(file).Some? ==>
        var r := CountFrom(old(file).value.body, 0, 0, old(file).value.first, 0, None);
        file == old(file) && height == if r.Broken? then None else Some(Wrap(r.blocks + file.value.first))
    {
      hide CountFrom;
      if file.None? {
        file := Some(File(startBlock, stopBlock, []));
        return Some(0);
      }
      var r := CountBlocks(file.value.body, file.value.first, 0);
      height := if r.Broken? then None else Some(Wrap(r.blocks + file.value.first));
    }

    method FlushChunk(buffer: seq<Byte>)
      requires file.Some?
      modifies this
      ensures file == Some(old(file).value.(body := old(file).value.body + Frame(buffer)))
    {
      file := Some(file.value.(body := file.value.body + SizeBytes(|buffer|) + buffer));
      assert file.value.body == old(file).value.body + Frame(buffer);
    }

    /** Appends the blocks from the next one after those counted up to the block to stop at; not ok if counting aborts. */
    method StoreBlockchainRaw(serial: nat -> seq<Byte>, chainHeight: nat, startBlock: nat, requestedStop: nat)
      returns (ok: bool)
      requires chainHeight > 0 && startBlock < TWO64
      modifies this
      ensures var stop := StopBlock(requestedStop, chainHeight);
        var was := if old(file).None? then File(startBlock, stop, []) else old(file).value;
        var body := Exported(serial, was.body, was.first, startBlock, stop);
        && ok == body.Some?
        && file == if ok then Some(was.(body := body.value)) else old(file)
    {
      hide Frames, CountFrom, Frame, Wrap;
      var stop := StopBlock(requestedStop, chainHeight);
      CountNothing(startBlock);
      WrapSmall(startBlock);
      var height := OpenWriter(startBlock, stop);
      if height.None? {
        return false;
      }
      ghost var was := file.value;
      var blockStart := if height.value > 0 then height.value else startBlock;
      var cur := blockStart;
      FramesNone();
      NoChunks(serial, blockStart, blockStart);
      assert was.body + [] == was.body;
      while cur <= stop
        invariant blockStart <= cur && (cur <= stop + 1 || cur == blockStart)
        invariant file == Some(was.(body := was.body + Frames(Chunks(serial, blockStart, cur))))
      {
        FlushChunk(serial(cur));
        var done := Chunks(serial, blockStart, cur);
        FramesOneMore(done, serial(cur));
        assert was.body + (Frames(done) + Frame(serial(cur))) == was.body + Frames(done) + Frame(serial(cur));
        cur := cur + 1;
      }
      if cur > stop + 1 {
        NoChunks(serial, blockStart, cur);
        NoChunks(serial, blockStart, stop + 1);
      }
      ok := true;
    }
  }

  lemma CountNothing(first: nat)
    ensures CountFrom([], 0, 0, first, 0, None) == Counted(0, None)
  {
    assert ReadStep([], 0) == EndOfFile;
  }

  lemma FramesNone()
    ensures Frames([]) == []
  {
  }

  lemma NoChunks(serial: nat -> seq<Byte>, from: nat, end: nat)
    requires end <= from
    ensures Chunks(serial, from, end) == []
  {
  }

  lemma FramesOneMore(cs: seq<seq<Byte>>, c: seq<Byte>)
    ensures Frames(cs + [c]) == Frames(cs) + Frame(c)
  {
    assert (cs + [c])[..|cs|] == cs;
  }

  /** What an export to stop makes of a file; None if counting its blocks aborts. A new file has no bytes. */
  function Exported(serial: nat -> seq<Byte>, body: seq<Byte>, first: nat, start: nat, stop: nat): Option<seq<Byte>> {
    var r := CountFrom(body, 0, 0, first, 0, None);
    if r.Broken? then None
    else
      var next := Wrap(r.blocks + first);
      Some(body + Frames(Chunks(serial, if next > 0 then next else start, stop + 1)))
  }

  /** A first export writes the frames of the blocks from start to stop. */
  lemma ExportNew(serial: nat -> seq<Byte>, start: nat, stop: nat)
    requires start < TWO64
    ensures Exported(serial, [], start, start, stop) == Some(Frames(Chunks(serial, start, stop + 1)))
  {
    hide CountFrom, Frames, Chunks, Wrap;
    CountNothing(start);
    WrapSmall(start);
    assert [] + Frames(Chunks(serial, start, stop + 1)) == Frames(Chunks(serial, start, stop + 1));
  }

  /** What an export adds to a file that shows some chunks. */
  lemma ExportShown(serial: nat -> seq<Byte>, body: seq<Byte>, cs: seq<seq<Byte>>, n: nat, start: nat, stop: nat)
    requires Shows(body, cs, n) && start + |cs| < TWO64
    ensures Exported(serial, body, start, start, stop)
      == Some(body + Frames(Chunks(serial, start + Seen(cs, n), stop + 1)))
  {
    hide CountFrom, Frames, Chunks, Wrap, Shows, Seen, Offset;
    SeenMost(cs, n);
    OffsetZero(cs);
    CountsAll(body, cs, n, 0, start, 0, None);
    WrapSmall(start + Seen(cs, n));
  }

  lemma CutAt(cs: seq<seq<Byte>>, i: nat)
    requires i <= |cs|
    ensures Offset(cs, i) <= |Frames(cs)| && Frames(cs)[..Offset(cs, i)] == Frames(cs[..i])
  {
    assert cs == cs[..i] + cs[i..];
    FramesJoin(cs[..i], cs[i..]);
  }

  /** At a chunk boundary the file shows exactly the chunks before it. */
  lemma SeenBoundary(cs: seq<seq<Byte>>, i: nat)
    requires i <= |cs|
    ensures Seen(cs, Offset(cs, i)) == i
  {
    hide Seen, Offset;
    var n := Offset(cs, i);
    SeenMost(cs, n);
    if i < |cs| {
      SeenAt(cs, n, i);
    }
    if i > 0 {
      SeenAt(cs, n, i - 1);
      OffsetNext(cs, i - 1);
    }
  }

  /**
   * An export to s1 of which only the first n bytes reached the file, followed by an export to s2,
   * leaves the file of one export to s2 if and only if the cut is at a chunk boundary and every
   * chunk before it is such as a reader accepts.
   */
  lemma ResumeExactly(serial: nat -> seq<Byte>, start: nat, s1: nat, s2: nat, n: nat)
    requires s1 <= s2 && start < TWO64 && s2 + 1 < TWO64
    requires n <= |Frames(Chunks(serial, start, s1 + 1))|
    requires AllFit(Chunks(serial, start, s1 + 1))
    ensures var cs := Chunks(serial, start, s1 + 1);
      Exported(serial, Frames(cs)[..n], start, start, s2) == Exported(serial, [], start, start, s2)
      <==> exists i: nat :: i <= |cs| && n == Offset(cs, i) && AllGood(cs[..i])
  {
    hide CountFrom, Frames, Chunks, Seen, Exported, Offset, Good, Pow;
    var cs := Chunks(serial, start, s1 + 1);
    ChunksCount(serial, start, s1 + 1);
    SeenMost(cs, n);
    var v := Seen(cs, n);
    var body := Frames(cs)[..n];
    ExportNew(serial, start, s2);
    if Shows(body, cs, n) {
      ExportShown(serial, body, cs, n, start, s2);
      Parts(serial, start, s1, s2, v);
      assert AllGood(cs[..v]);
    } else {
      CountsExactly(body, cs, n, start, 0);
      ExportAborts(serial, body, start, s2);
    }
    forall i: nat | i <= |cs| && n == Offset(cs, i)
      ensures v == i && body == Frames(cs[..i])
    {
      SeenBoundary(cs, i);
      CutAt(cs, i);
    }
  }

  /**
   * Block 0, a chunk of one byte, is cut off after its size. The count takes it for written, and the next export
   * goes on with block 1 behind the four bytes that are left.
   */
  lemma ResumedAfterCut(serial: nat -> seq<Byte>)
    requires forall h: nat :: serial(h) == [7]
    ensures |Frames(Chunks(serial, 0, 1))| == 5
    ensures Exported(serial, Frames(Chunks(serial, 0, 1))[..4], 0, 0, 1)
      == Some(Frames(Chunks(serial, 0, 1))[..4] + Frames(Chunks(serial, 1, 2)))
    ensures Exported(serial, Frames(Chunks(serial, 0, 1))[..4], 0, 0, 1) != Exported(serial, [], 0, 0, 1)
  {
    hide CountFrom, Frames, Seen, Exported, Good, Pow;
    ChunksOne(serial, 0);
    var cs := Chunks(serial, 0, 1);
    BufferFits();
    OffsetZero(cs);
    OffsetNext(cs, 0);
    FramesAt(cs, 1);
    SeenAt(cs, 4, 0);
    GoodByte();
    ExportShown(serial, Frames(cs)[..4], cs, 4, 0, 1);
    ResumeExactly(serial, 0, 0, 1, 4);
  }

  lemma GoodByte()
    ensures Good([7])
  {
  }

  lemma ChunksOne(serial: nat -> seq<Byte>, h: nat)
    ensures Chunks(serial, h, h + 1) == [serial(h)]
  {
    NoChunks(serial, h, h);
  }

  /** An empty chunk is written, and no later export can read the file. */
  lemma EmptyChunkWritten(serial: nat -> seq<Byte>)
    requires forall h: nat :: serial(h) == []
    ensures Exported(serial, [], 0, 0, 0) == Some(Frames([[]]))
    ensures Exported(serial, Frames([[]]), 0, 0, 1) == None
  {
    hide CountFrom, Frames, Seen, Exported, Pow, Offset;
    ChunksOne(serial, 0);
    ExportNew(serial, 0, 0);
    var cs: seq<seq<Byte>> := [[]];
    BufferFits();
    SeenAll(cs);
    assert Frames(cs)[..|Frames(cs)|] == Frames(cs);
    assert !Good(cs[0]);
    CountsExactly(Frames(cs), cs, |Frames(cs)|, 0, 0);
    ExportAborts(serial, Frames(cs), 0, 1);
  }

  lemma ExportAborts(serial: nat -> seq<Byte>, body: seq<Byte>, start: nat, stop: nat)
    requires CountFrom(body, 0, 0, start, 0, None) == Broken
    ensures Exported(serial, body, start, start, stop) == None
  {
    hide CountFrom;
  }

  /** In particular an export to s1 that ended, followed by one to s2, leaves the file of one export to s2. */
  lemma ExportResumes(serial: nat -> seq<Byte>, start: nat, s1: nat, s2: nat)
    requires s1 <= s2 && start < TWO64 && s2 + 1 < TWO64
    requires forall h: nat :: Good(serial(h))
    ensures var r := Exported(serial, [], start, start, s1);
      r.Some? && Exported(serial, r.value, start, start, s2) == Exported(serial, [], start, start, s2)
  {
    hide CountFrom, Frames, Chunks, Exported, Offset, Pow;
    var cs := Chunks(serial, start, s1 + 1);
    ChunksGood(serial, start, s1 + 1);
    BufferFits();
    assert cs[..|cs|] == cs;
    ExportNew(serial, start, s1);
    FramesAt(cs, |cs|);
    ResumeExactly(serial, start, s1, s2, |Frames(cs)|);
    assert Frames(cs)[..|Frames(cs)|] == Frames(cs);
  }

  /** The file to s2 is that of the first v chunks followed by that of the rest. */
  lemma Parts(serial: nat -> seq<Byte>, start: nat, s1: nat, s2: nat, v: nat)
    requires s1 <= s2 && v <= |Chunks(serial, start, s1 + 1)|
    ensures var cs := Chunks(serial, start, s1 + 1);
      && Frames(Chunks(serial, start, s2 + 1)) == Frames(cs[..v]) + Frames(Chunks(serial, start + v, s2 + 1))
      && |Frames(cs[..v])| == Offset(cs, v)
  {
    hide Frames;
    ChunksCount(serial, start, s1 + 1);
    if v > 0 {
      ChunksJoin(serial, start, start + v, s1 + 1);
      ChunksCount(serial, start, start + v);
      ChunksJoin(serial, start, start + v, s2 + 1);
      FramesJoin(Chunks(serial, start, start + v), Chunks(serial, start + v, s2 + 1));
      assert Chunks(serial, start, s1 + 1)[..v] == Chunks(serial, start, start + v);
    } else {
      FramesNone();
      assert Chunks(serial, start, s1 + 1)[..0] == [];
    }
  }
}
