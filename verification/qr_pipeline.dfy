/** A whole QR Code, from text to modules and back (external/qrcodegen/QrCode.cpp). */
module QrPipeline {
  import opened GF256
  import opened ReedSolomon
  import opened CodeDistance
  import opened Zigzag
  import opened MaskPenalty
  import opened Grids
  import opened Symbol
  import Interleave
  import Segments
  import opened QrTables
  import opened SegmentEncoder
  import opened FunctionModules
  import opened FunctionPatterns
  import opened PatternDrawing
  import opened Basics

  /** getFormatBits: the two bits that stand for a level in the format information. */
  function FormatLevel(level: nat): (r: nat)
    requires level < LEVELS
    ensures r < 4
  {
    match level
    case 0 => 1
    case 1 => 0
    case 2 => 3
    case _ => 2
  }

  function LevelOfFormat(bits: nat): (r: nat)
    requires bits < 4
    ensures r < LEVELS
  {
    match bits
    case 0 => 1
    case 1 => 0
    case 2 => 3
    case _ => 2
  }

  /** The data codewords of a symbol whose blocks are laid out as l says. */
  function ReadCodewords(g: Grid, f: Grid, l: Interleave.Layout): Poly
    requires |g| >= 21 && |g| % 2 == 1 && Square(g, |g|) && Square(f, |g|)
    requires l.Valid() && 8 * l.raw <= |FreeCells(|g|, f)|
  {
    Interleave.ReadAll(l, ReadSymbol(g, f, l.raw), l.numBlocks)
  }

  /** A reader of finished symbols: format, mask, zigzag, blocks, segments. */
  function ReadMessage(g: Grid, f: Grid, version: nat): Option<seq<Segments.Payload>>
    requires 1 <= version <= 40 && Square(g, |g|) && |g| == Size(version) && Square(f, |g|)
  {
    var format := FormatData(ReadFormat(g, 0, 15));
    if format >= 32 then None
    else
      var l := SymbolLayout(LevelOfFormat(format / 8), version);
      if 8 * l.raw > |FreeCells(Size(version), f)| then None
      else
        Segments.ReadAll(CodewordBits(ReadCodewords(g, f, l)), version)
  }

  /** data are the codewords that encodeSegments makes for the message. */
  ghost predicate Encodes(ps: seq<Segments.Payload>, level: nat, version: nat, data: Poly) {
    && level < LEVELS && 1 <= version <= 40
    && (forall i :: 0 <= i < |ps| ==> Segments.Encodable(ps[i]))
    && Segments.Measurable(Segments.ToSegments(ps), version)
    && Filled(Segments.ToSegments(ps), level, version, data)
  }

  /** g' is g with the codewords drawn into it, clear of the format bits. */
  ghost predicate Painted(g: Grid, g': Grid, f: Grid, all: Poly) {
    && |g| % 2 == 1 && |g'| == |g| == |f| && Square(g', |g'|) && Reserved(f)
    && 8 * |all| <= |FreeCells(|g|, f)|
    && Drawn(g, g', FreeCells(|g|, f), all, 8 * |all|)
  }

  /** The symbol that the encoder finishes for any one mask reads back as the message. */
  lemma MessageRoundTrip(ps: seq<Segments.Payload>, level: nat, version: nat, data: Poly, all: Poly,
                         g: Grid, g': Grid, f: Grid, m: nat)
    requires Encodes(ps, level, version, data) && m < 8
    requires Interleave.Carries(SymbolLayout(level, version), data, all)
    requires Painted(g, g', f, all) && |g| == Size(version)
    ensures ReadMessage(Candidate(g', f, FormatLevel(level), m), f, version) == Some(ps)
  {
    ReadPainted(level, g, g', f, all, m);
    ReadCarried(SymbolLayout(level, version), data, all);
    ReadEncoded(ps, level, version, data);
    hide *;
    ReadCodewordsIs(Candidate(g', f, FormatLevel(level), m), f, SymbolLayout(level, version), all, data);
    ReadMessageUnfold(Candidate(g', f, FormatLevel(level), m), f, version, level, m, data);
  }

  lemma ReadPainted(level: nat, g: Grid, g': Grid, f: Grid, all: Poly, m: nat)
    requires Painted(g, g', f, all) && level < LEVELS && m < 8
    ensures var s := Candidate(g', f, FormatLevel(level), m);
      && FormatData(ReadFormat(s, 0, 15)) == FormatLevel(level) * 8 + m
      && LevelOfFormat(FormatLevel(level)) == level
      && ReadSymbol(s, f, |all|) == all
  {
    hide Candidate, Drawn, FreeCells, FormatData, ReadFormat, ReadSymbol;
    FormatOfCandidate(g', f, level, m);
    SymbolRoundTrip(g, g', f, FormatLevel(level), m, all);
  }

  lemma ReadCarried(l: Interleave.Layout, data: Poly, all: Poly)
    requires Interleave.Carries(l, data, all)
    ensures |all| == l.raw && l.Valid()
    ensures Interleave.ReadAll(l, all, l.numBlocks) == data
  {
    l.StartTotal();
    Interleave.CarriesAll(l, data, all, l.numBlocks);
    assert data[..|data|] == data;
  }

  lemma ReadEncoded(ps: seq<Segments.Payload>, level: nat, version: nat, data: Poly)
    requires Encodes(ps, level, version, data)
    ensures Segments.ReadAll(CodewordBits(data), version) == Some(ps)
  {
    hide Filled;
    CodewordsReadBack(ps, level, version, data);
  }

  lemma FormatOfCandidate(g: Grid, f: Grid, level: nat, m: nat)
    requires |g| >= 21 && Square(g, |g|) && Square(f, |g|) && level < LEVELS && m < 8
    ensures FormatData(ReadFormat(Candidate(g, f, FormatLevel(level), m), 0, 15)) == FormatLevel(level) * 8 + m
    ensures LevelOfFormat(FormatLevel(level)) == level
  {
    hide Masked, Formatted, FormatBits, FormatData, ReadFormat;
    FormatNamesMask(Masked(g, f, m), FormatLevel(level), m, 0);
  }

  lemma ReadMessageUnfold(s: Grid, f: Grid, version: nat, level: nat, m: nat, data: Poly)
    requires 1 <= version <= 40 && Square(s, |s|) && |s| == Size(version) && Square(f, |s|) && level < LEVELS && m < 8
    requires FormatData(ReadFormat(s, 0, 15)) == FormatLevel(level) * 8 + m
    requires LevelOfFormat(FormatLevel(level)) == level
    requires 8 * SymbolLayout(level, version).raw <= |FreeCells(|s|, f)|
    requires ReadCodewords(s, f, SymbolLayout(level, version)) == data
    ensures ReadMessage(s, f, version) == Segments.ReadAll(CodewordBits(data), version)
  {
    hide FormatData, ReadFormat, SymbolLayout, FreeCells, ReadCodewords, Segments.ReadAll, CodewordBits;
    assert (FormatLevel(level) * 8 + m) / 8 == FormatLevel(level);
  }

  lemma ReadCodewordsIs(s: Grid, f: Grid, l: Interleave.Layout, all: Poly, data: Poly)
    requires |s| >= 21 && |s| % 2 == 1 && Square(s, |s|) && Square(f, |s|)
    requires l.Valid() && |all| == l.raw && 8 * |all| <= |FreeCells(|s|, f)|
    requires ReadSymbol(s, f, |all|) == all && Interleave.ReadAll(l, all, l.numBlocks) == data
    ensures ReadCodewords(s, f, l) == data
  {
    hide ReadSymbol, Interleave.ReadAll, FreeCells;
  }

  // ---- Damage ----

  /** Block j as a reader of the symbol sees it. */
  function SentBlock(l: Interleave.Layout, all: Poly, j: nat): Poly
    requires Interleave.Fits(l, all) && j < l.numBlocks
  {
    Interleave.ReadData(l, all, j) + Interleave.ReadEcc(l, all, j)
  }

  /** A block of which at most half as many bytes are damaged as it has error correction bytes
      determines the block that was sent. */
  lemma DamagedBlockDetermined(level: nat, version: nat, data: Poly, all: Poly, j: nat, received: Poly, c: Poly)
    requires level < LEVELS && 1 <= version <= 40
    requires Interleave.Carries(SymbolLayout(level, version), data, all) && j < SymbolLayout(level, version).numBlocks
    requires |received| == |c| == |SentBlock(SymbolLayout(level, version), all, j)|
    requires 2 * |Differ(SentBlock(SymbolLayout(level, version), all, j), received)| <= SymbolLayout(level, version).eccLen
    requires 2 * |Differ(received, c)| <= SymbolLayout(level, version).eccLen
    requires IsCodeword(c, SymbolLayout(level, version).eccLen)
    ensures c == SentBlock(SymbolLayout(level, version), all, j)
  {
    var l := SymbolLayout(level, version);
    hide SymbolLayout, Differ, Generator, Remainder, Eval, Exp;
    Interleave.CarriesBlock(l, data, all, j);
    var sent := SentBlock(l, all, j);
    forall i | 0 <= i < l.eccLen
      ensures Eval(sent, Exp(i)) == 0
    {
      CodewordRoots(Interleave.Block(l, data, j), l.eccLen, i);
    }
    UniqueDecoding(received, sent, c, l.eccLen);
  }

  // ---- The finished symbol ----

  /** The finished symbol with mask m exchanged for mask i. */
  function Remasked(s: Grid, f: Grid, level: nat, m: nat, i: nat): (r: Grid)
    requires |s| >= 21 && Square(s, |s|) && Square(f, |s|) && level < 4 && m < 8 && i < 8
    ensures |r| == |s| && Square(r, |r|)
  {
    Candidate(Masked(s, f, m), f, level, i)
  }

  /** No other mask would give the symbol a smaller penalty, and no earlier one an equal penalty. */
  ghost predicate BestMask(s: Grid, f: Grid, level: nat, m: nat)
    requires |s| >= 21 && Square(s, |s|) && Square(f, |s|) && level < 4 && m < 8
  {
    && (forall i :: 0 <= i < 8 ==> PenaltyScore(s) <= PenaltyScore(Remasked(s, f, level, m, i)))
    && (forall i :: 0 <= i < m ==> PenaltyScore(s) < PenaltyScore(Remasked(s, f, level, m, i)))
  }

  /** The finished symbols for the other masks can be had from the one for mask m. */
  lemma RemaskedIs(g: Grid, f: Grid, level: nat, m: nat, i: nat)
    requires |g| >= 21 && Square(g, |g|) && Square(f, |g|) && level < 4 && m < 8 && i < 8
    ensures Remasked(Candidate(g, f, level, m), f, level, m, i) == Candidate(g, f, level, i)
  {
    hide Masked, Formatted, FormatBits, AgreeOutsideFormat;
    TrialUndone(g, f, level, m);
    CandidateIs(g, f, level, m);
    TrialCandidate(g, Masked(Candidate(g, f, level, m), f, m), f, level, i);
  }

  lemma LeastIsBest(g: Grid, f: Grid, level: nat, m: nat)
    requires |g| >= 21 && Square(g, |g|) && Square(f, |g|) && level < 4 && m < 8 && LeastPenalty(g, f, level, m)
    ensures BestMask(Candidate(g, f, level, m), f, level, m)
  {
    hide Candidate, Remasked, PenaltyScore;
    forall i | 0 <= i < 8
      ensures PenaltyScore(Remasked(Candidate(g, f, level, m), f, level, m, i)) == Penalty(g, f, level, i)
    {
      RemaskedIs(g, f, level, m, i);
    }
  }

  ghost function DataModules(f: Grid): set<Pos>
    requires Square(f, |f|)
  {
    set p | p in Rect(0, 0, |f|, |f|) && Inside(p, |f|) && !Grids.At(f, p)
  }

  /** Codewords and mask change data modules, and the format bits their own modules. */
  lemma FunctionModulesKept(g: Grid, g': Grid, f: Grid, all: Poly, level: nat, m: nat)
    requires Painted(g, g', f, all) && level < 4 && m < 8
    ensures SameElsewhere(g, Candidate(g', f, level, m), DataModules(f) + FormatCells(|g|))
    ensures FormatShown(Candidate(g', f, level, m), FormatBits(level, m))
  {
    hide Masked, Formatted, FormatBits, FreeCells, FormatCells, Inverts, FormatShown, CodeBit, FormatCell;
    var h, bits := Masked(g', f, m), FormatBits(level, m);
    FormattedSame(h, bits);
    CandidateIs(g', f, level, m);
    forall p | Inside(p, |g|) && p !in DataModules(f) + FormatCells(|g|)
      ensures Grids.At(Candidate(g', f, level, m), p) == Grids.At(g, p)
    {
      InRect(|f|, p);
      assert Grids.At(f, p);
      assert p !in FreeCells(|g|, f);
      assert Grids.At(g', p) == Grids.At(g, p);
    }
  }

  lemma InRect(n: nat, p: Pos)
    requires Inside(p, n)
    ensures p in Rect(0, 0, n, n)
  {
  }

  lemma MarkedCells(f: Grid, version: nat)
    requires 1 <= version <= 40 && |f| == Size(version) && Square(f, |f|) && |f| >= 21
    requires forall p :: Inside(p, |f|) ==> (Grids.At(f, p) <==> IsFunctionModule(version, p))
    ensures forall p :: p in DataModules(f) + FormatCells(|f|) && Inside(p, |f|) ==>
      !IsFunctionModule(version, p) || p in FormatCells(|f|)
  {
    hide Rect, IsFunctionModule, FormatCells;
  }

  // ---- The encoder ----

  datatype Result = Refused(why: Outcome) | Made(version: nat, level: nat, mask: nat, code: QrCode)

  /** The constructor once the function patterns are there: the codewords, then the mask. */
  method DrawMessage(code: QrCode, ghost ps: seq<Segments.Payload>, level: nat, version: nat, data: Poly, mask: int)
    returns (ok: bool, chosen: nat)
    requires level < LEVELS && 1 <= version <= 40 && Encodes(ps, level, version, data)
    requires code.Valid() && code.size == Size(version) && code.level == FormatLevel(level) && Reserved(code.isFunction)
    requires -1 <= mask <= 7
    modifies code
    ensures code.Valid() && code.isFunction == old(code.isFunction) && chosen < 8
    ensures ok <==> |FreeCells(Size(version), code.isFunction)| >= 8 * SymbolLayout(level, version).raw
    ensures ok && mask >= 0 ==> chosen == mask
    ensures ok && mask == -1 ==> BestMask(code.modules, code.isFunction, code.level, chosen)
    ensures ok ==> ReadMessage(code.modules, code.isFunction, version) == Some(ps)
    ensures ok ==> SameElsewhere(old(code.modules), code.modules, DataModules(code.isFunction) + FormatCells(code.size))
    ensures ok ==> FormatShown(code.modules, FormatBits(code.level, chosen))
  {
    hide ReadMessage, SymbolLayout, Filled, FreeCells, Drawn, Candidate, Interleave.Carries, Segments.Encodable;
    hide SameElsewhere, FormatShown, LeastPenalty, BestMask, DataModules, FormatCells, FormatBits;
    var l := SymbolLayout(level, version);
    FilledLength(Segments.ToSegments(ps), level, version, data);
    var all := Interleave.AddEccAndInterleave(l, data);
    ReadCarried(l, data, all.value);
    ghost var g, f := code.modules, code.isFunction;
    ok := code.DrawCodewords(all.value);
    chosen := 0;
    if !ok {
      return;
    }
    ghost var g' := code.modules;
    chosen := code.ChooseMask(mask);
    MessageRoundTrip(ps, level, version, data, all.value, g, g', f, chosen);
    FunctionModulesKept(g, g', f, all.value, code.level, chosen);
    if mask == -1 {
      LeastIsBest(g', f, code.level, chosen);
    }
  }

  /** A symbol made for the message, version and level as asked, with all its patterns in place. */
  ghost predicate WellMade(r: Result, ps: seq<Segments.Payload>, mask: int)
    requires r.Made?
    reads r.code
  {
    && 1 <= r.version <= 40 && r.level < LEVELS && r.mask < 8
    && r.code.Valid() && r.code.size == Size(r.version) && r.code.level == FormatLevel(r.level)
    && (mask >= 0 ==> r.mask == mask)
    && (mask == -1 ==> BestMask(r.code.modules, r.code.isFunction, r.code.level, r.mask))
    && ReadMessage(r.code.modules, r.code.isFunction, r.version) == Some(ps)
    && (forall p :: Inside(p, r.code.size) ==> (Grids.At(r.code.isFunction, p) <==> IsFunctionModule(r.version, p)))
    && PatternsShown(r.code.modules, r.version)
    && FormatShown(r.code.modules, FormatBits(r.code.level, r.mask))
  }

  /** encodeSegments and the constructor it calls. No assertion of either fires. */
  method EncodeMessage(ps: seq<Segments.Payload>, level: nat, minVersion: int, maxVersion: int, mask: int, boost: bool)
    returns (r: Result)
    requires level < LEVELS
    requires forall i :: 0 <= i < |ps| ==> Segments.Encodable(ps[i])
    ensures r.Refused? <==>
      !(1 <= minVersion <= maxVersion <= 40) || mask < -1 || mask > 7
      || forall v :: minVersion <= v <= maxVersion ==> !FitsSymbol(Segments.ToSegments(ps), level, v)
    ensures r.Made? ==>
      && WellMade(r, ps, mask) && 1 <= minVersion <= r.version <= maxVersion
      && WellChosen(Segments.ToSegments(ps), level, minVersion, boost, r.version, r.level)
  {
    hide ReadMessage, Filled, WellChosen, Encodes, FitsSymbol, SymbolLayout, RawDataModules, FreeCells, Reserved;
    hide Segments.Encodable, IsFunctionModule, ShowsVersion, Blank, PatternsShown, SameElsewhere, FormatShown, BestMask;
    hide DataModules, FormatCells, FormatBits;
    var segs := Segments.ToSegments(ps);
    var o := EncodeSegments(segs, level, minVersion, maxVersion, mask, boost);
    if !o.Encoded? {
      return Refused(o);
    }
    WellEncoded(ps, level, minVersion, boost, o.level, o.version, o.codewords);
    var size := Size(o.version);
    var code := new QrCode(size, FormatLevel(o.level), Blank(size), Blank(size));
    DrawFunctionPatterns(code, o.version);
    PatternsReserve(code.isFunction, o.version);
    FreeModules(o.version, code.isFunction);
    LayoutRaw(o.level, o.version);
    ghost var g := code.modules;
    MarkedCells(code.isFunction, o.version);
    var ok, chosen := DrawMessage(code, ps, o.level, o.version, o.codewords, mask);
    assert ok;
    PatternsKept(g, code.modules, DataModules(code.isFunction) + FormatCells(size), o.version);
    return Made(o.version, o.level, chosen, code);
  }

  lemma PatternsReserve(f: Grid, version: nat)
    requires 1 <= version <= 40 && |f| == Size(version) && Square(f, |f|)
    requires forall p :: Inside(p, |f|) ==> (Grids.At(f, p) <==> IsFunctionModule(version, p))
    ensures Reserved(f)
  {
    hide FormatCell, Dist, OnAlignment;
  }

  lemma WellEncoded(ps: seq<Segments.Payload>, level: nat, minVersion: int, boost: bool, level': nat, version: nat, data: Poly)
    requires level < LEVELS && 1 <= minVersion <= version <= 40
    requires forall i :: 0 <= i < |ps| ==> Segments.Encodable(ps[i])
    requires WellChosen(Segments.ToSegments(ps), level, minVersion, boost, version, level')
    requires Filled(Segments.ToSegments(ps), level', version, data)
    ensures level' < LEVELS && Encodes(ps, level', version, data)
  {
    hide Filled, Segments.Encodable;
    FitsMeans(Segments.ToSegments(ps), level', version);
  }

  lemma LayoutRaw(level: nat, version: nat)
    requires level < LEVELS && 1 <= version <= 40
    ensures 8 * SymbolLayout(level, version).raw <= RawDataModules(version)
  {
    hide SymbolLayout, RawDataModules;
  }

  lemma FilledLength(segs: seq<Segments.Segment>, level: nat, version: nat, codewords: seq<Byte>)
    requires level < LEVELS && 1 <= version <= 40 && Filled(segs, level, version, codewords)
    ensures |codewords| == SymbolLayout(level, version).DataTotal()
  {
  }
}
