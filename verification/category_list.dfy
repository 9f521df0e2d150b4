/**
 * The text form of the log categories, "name:LEVEL,name:LEVEL", and the scanner that
 * VRegistry::setCategories runs over it (external/easylogging++/easylogging++.cc).
 */
module CategoryList {

  datatype Level = Global | Trace | Debug | Fatal | Error | Warning | Verbose | Info | Unknown

  datatype Category = Category(name: string, level: Level)

  function LevelName(level: Level): string {
    match level
    case Global => "GLOBAL"
    case Debug => "DEBUG"
    case Info => "INFO"
    case Warning => "WARNING"
    case Error => "ERROR"
    case Fatal => "FATAL"
    case Verbose => "VERBOSE"
    case Trace => "TRACE"
    case Unknown => "UNKNOWN"
  }

  function SmallName(level: Level): string {
    match level
    case Global => "global"
    case Debug => "debug"
    case Info => "info"
    case Warning => "warning"
    case Error => "error"
    case Fatal => "fatal"
    case Verbose => "verbose"
    case Trace => "trace"
    case Unknown => "unknown"
  }

  predicate Names(text: string, level: Level) {
    LevelName(level) <= text || SmallName(level) <= text
  }

  /** The level whose name the text starts with, in capitals or in small letters. */
  function LevelPrefix(text: string): Level {
    if Names(text, Global) then Global
    else if Names(text, Debug) then Debug
    else if Names(text, Info) then Info
    else if Names(text, Warning) then Warning
    else if Names(text, Error) then Error
    else if Names(text, Fatal) then Fatal
    else if Names(text, Verbose) then Verbose
    else if Names(text, Trace) then Trace
    else Unknown
  }

  lemma NameSizes(level: Level)
    ensures 0 < |LevelName(level)| == |SmallName(level)|
  {
  }

  lemma PrefixNames(text: string)
    ensures LevelPrefix(text) != Unknown ==> Names(text, LevelPrefix(text))
  {
    hide Names;
  }

  /** The characters consumed in a level: a level name, or one character that starts none. */
  function LevelWidth(text: string): (w: nat)
    requires text != ""
    ensures 0 < w <= |text|
  {
    var level := LevelPrefix(text);
    NameSizes(level);
    PrefixNames(text);
    if level == Unknown then 1 else |LevelName(level)|
  }

  // ---- The scanner ----

  datatype Scan = Scan(name: string, level: Level, inLevel: bool, found: seq<Category>)

  const START := Scan("", Unknown, false, [])

  predicate Complete(st: Scan) {
    st.name != "" && st.level != Unknown
  }

  /** At a comma: a complete entry is recorded; anything else stays pending. */
  function Comma(st: Scan): Scan {
    if Complete(st) then Scan("", Unknown, false, st.found + [Category(st.name, st.level)]) else st.(inLevel := false)
  }

  /** The state after text. */
  function Run(text: string, st: Scan): Scan
    decreases |text|
  {
    if text == "" then st
    else if text[0] == ':' then Run(text[1..], st.(inLevel := true))
    else if text[0] == ',' then Run(text[1..], Comma(st))
    else if !st.inLevel then Run(text[1..], st.(name := st.name + [text[0]]))
    else Run(text[LevelWidth(text)..], st.(level := LevelPrefix(text)))
  }

  function Parse(text: string): seq<Category> {
    Comma(Run(text, START)).found
  }

  // ---- Reading back what was written ----

  predicate Writable(c: Category) {
    c.name != "" && ':' !in c.name && ',' !in c.name && c.level != Unknown
  }

  function Write(c: Category): string {
    c.name + ":" + LevelName(c.level)
  }

  function WriteAll(cs: seq<Category>): string {
    if cs == [] then ""
    else if |cs| == 1 then Write(cs[0])
    else Write(cs[0]) + "," + WriteAll(cs[1..])
  }

  lemma {:induction false} RunName(name: string, rest: string, st: Scan)
    requires ':' !in name && ',' !in name && !st.inLevel
    ensures Run(name + rest, st) == Run(rest, st.(name := st.name + name))
  {
    if name == "" {
      assert name + rest == rest && st.name + name == st.name;
    } else {
      assert (name + rest)[1..] == name[1..] + rest;
      RunName(name[1..], rest, st.(name := st.name + [name[0]]));
      assert st.name + [name[0]] + name[1..] == st.name + name;
      hide LevelPrefix, LevelWidth, Comma;
    }
  }

  /** No text starts with the names of two levels. */
  lemma NamesOnce(text: string, l1: Level, l2: Level)
    requires Names(text, l1) && Names(text, l2)
    ensures l1 == l2
  {
    Initials(l1);
    Initials(l2);
    hide LevelName, SmallName;
    assert text[0] == LevelName(l1)[0] || text[0] == SmallName(l1)[0];
    assert text[0] == LevelName(l2)[0] || text[0] == SmallName(l2)[0];
  }

  function Initial(level: Level): (char, char) {
    match level
    case Global => ('G', 'g')
    case Debug => ('D', 'd')
    case Info => ('I', 'i')
    case Warning => ('W', 'w')
    case Error => ('E', 'e')
    case Fatal => ('F', 'f')
    case Verbose => ('V', 'v')
    case Trace => ('T', 't')
    case Unknown => ('U', 'u')
  }

  lemma Initials(level: Level)
    ensures LevelName(level) != "" && LevelName(level)[0] == Initial(level).0
    ensures SmallName(level) != "" && SmallName(level)[0] == Initial(level).1
  {
  }

  lemma LevelRead(level: Level, rest: string)
    requires level != Unknown
    ensures LevelPrefix(LevelName(level) + rest) == level
  {
    var text := LevelName(level) + rest;
    assert Names(text, level);
    forall l | Names(text, l)
      ensures l == level
    {
      NamesOnce(text, l, level);
    }
    PrefixIs(text, level);
    hide LevelPrefix, LevelName, Names;
  }

  lemma PrefixIs(text: string, level: Level)
    requires level != Unknown && Names(text, level)
    requires forall l :: Names(text, l) ==> l == level
    ensures LevelPrefix(text) == level
  {
    hide Names;
  }

  lemma PrefixSame(t1: string, t2: string)
    requires forall l :: Names(t1, l) <==> Names(t2, l)
    ensures LevelPrefix(t1) == LevelPrefix(t2)
  {
    hide Names;
  }

  lemma SmallRead(level: Level, rest: string)
    requires level != Unknown
    ensures LevelPrefix(SmallName(level) + rest) == level
  {
    var text := SmallName(level) + rest;
    assert Names(text, level);
    forall l | Names(text, l)
      ensures l == level
    {
      NamesOnce(text, l, level);
    }
    PrefixIs(text, level);
    hide LevelPrefix, SmallName, Names;
  }

  /** The words that are read as levels, whatever follows them. */
  lemma LevelWords(rest: string)
    ensures LevelPrefix("FATAL" + rest) == LevelPrefix("fatal" + rest) == Fatal
    ensures LevelPrefix("ERROR" + rest) == LevelPrefix("error" + rest) == Error
    ensures LevelPrefix("WARNING" + rest) == LevelPrefix("warning" + rest) == Warning
    ensures LevelPrefix("INFO" + rest) == LevelPrefix("info" + rest) == Info
    ensures LevelPrefix("DEBUG" + rest) == LevelPrefix("debug" + rest) == Debug
    ensures LevelPrefix("VERBOSE" + rest) == LevelPrefix("verbose" + rest) == Verbose
    ensures LevelPrefix("TRACE" + rest) == LevelPrefix("trace" + rest) == Trace
    ensures LevelPrefix("GLOBAL" + rest) == LevelPrefix("global" + rest) == Global
  {
    hide LevelPrefix;
    forall level | level != Unknown
      ensures LevelPrefix(LevelName(level) + rest) == LevelPrefix(SmallName(level) + rest) == level
    {
      LevelRead(level, rest);
      SmallRead(level, rest);
    }
    assert LevelName(Fatal) == "FATAL" && SmallName(Fatal) == "fatal";
    assert LevelName(Error) == "ERROR" && SmallName(Error) == "error";
    assert LevelName(Warning) == "WARNING" && SmallName(Warning) == "warning";
    assert LevelName(Info) == "INFO" && SmallName(Info) == "info";
    assert LevelName(Debug) == "DEBUG" && SmallName(Debug) == "debug";
    assert LevelName(Verbose) == "VERBOSE" && SmallName(Verbose) == "verbose";
    assert LevelName(Trace) == "TRACE" && SmallName(Trace) == "trace";
    assert LevelName(Global) == "GLOBAL" && SmallName(Global) == "global";
  }

  lemma RunLevel(text: string, level: Level, st: Scan)
    requires st.inLevel && level != Unknown && text == LevelName(level) && LevelPrefix(text) == level
    ensures Run(text, st) == st.(level := level)
  {
    Initials(level);
    assert text[LevelWidth(text)..] == "";
    hide LevelPrefix, LevelName;
  }

  /** One written entry leaves the scanner with exactly that name and level pending. */
  lemma RunEntry(c: Category, found: seq<Category>)
    requires Writable(c)
    ensures Run(Write(c), Scan("", Unknown, false, found)) == Scan(c.name, c.level, true, found)
  {
    var st := Scan("", Unknown, false, found);
    var level := LevelName(c.level);
    RunName(c.name, ":" + level, st);
    assert Write(c) == c.name + (":" + level);
    assert (":" + level)[1..] == level;
    LevelRead(c.level, "");
    assert level + "" == level;
    assert level[|level|..] == "";
    assert "" + c.name == c.name;
    RunLevel(level, c.level, st.(name := c.name, inLevel := true));
    hide LevelPrefix, LevelName;
  }

  // ---- Commas separate ----

  /** A level name holds no comma, so a level is not read across one. */
  lemma NoLevelAcross(a: string, b: string)
    requires a != ""
    ensures LevelPrefix(a + "," + b) == LevelPrefix(a)
  {
    forall level
      ensures Names(a + "," + b, level) <==> Names(a, level)
    {
      NoComma(level);
      PrefixBeforeComma(LevelName(level), a, b);
      PrefixBeforeComma(SmallName(level), a, b);
    }
    PrefixSame(a + "," + b, a);
    hide LevelPrefix, Names;
  }

  lemma NoComma(level: Level)
    ensures ',' !in LevelName(level) && ',' !in SmallName(level)
  {
  }

  lemma PrefixBeforeComma(name: string, a: string, b: string)
    requires ',' !in name
    ensures name <= a + "," + b <==> name <= a
  {
    var text := a + "," + b;
    assert text[|a|] == ',';
    assert text[..|a|] == a;
    assert |name| > |a| ==> name[|a|] in name;
  }

  /** Scanning past a comma: what follows starts from what the comma left pending. */
  lemma {:induction false} RunComma(a: string, b: string, st: Scan)
    ensures Run(a + "," + b, st) == Run(b, Comma(Run(a, st)))
    decreases |a|
  {
    hide LevelPrefix, LevelName, Comma;
    var text := a + "," + b;
    if a == "" {
      assert text[1..] == b;
    } else {
      NoLevelAcross(a, b);
      var w := LevelWidth(a);
      assert text[1..] == a[1..] + "," + b;
      assert text[w..] == a[w..] + "," + b;
      if a[0] == ':' {
        RunComma(a[1..], b, st.(inLevel := true));
      } else if a[0] == ',' {
        RunComma(a[1..], b, Comma(st));
      } else if !st.inLevel {
        RunComma(a[1..], b, st.(name := st.name + [a[0]]));
      } else {
        RunComma(a[w..], b, st.(level := LevelPrefix(a)));
      }
    }
  }

  /** Entries found earlier have no part in what is found next. */
  lemma {:induction false} RunFound(text: string, st: Scan, found: seq<Category>)
    ensures Run(text, st.(found := found + st.found)) == Run(text, st).(found := found + Run(text, st).found)
    decreases |text|
  {
    hide LevelPrefix, LevelName;
    if text != "" {
      if text[0] == ':' {
        RunFound(text[1..], st.(inLevel := true), found);
      } else if text[0] == ',' {
        assert Complete(st) ==> found + st.found + [Category(st.name, st.level)] == found + (st.found + [Category(st.name, st.level)]);
        RunFound(text[1..], Comma(st), found);
      } else if !st.inLevel {
        RunFound(text[1..], st.(name := st.name + [text[0]]), found);
      } else {
        RunFound(text[LevelWidth(text)..], st.(level := LevelPrefix(text)), found);
      }
    }
  }

  /** The text ends with a complete entry or with nothing pending. */
  predicate Settled(text: string) {
    var st := Run(text, START);
    (st.name == "") == (st.level == Unknown)
  }

  lemma ParseJoined(a: string, b: string)
    requires Settled(a)
    ensures Parse(a + "," + b) == Parse(a) + Parse(b)
  {
    RunComma(a, b, START);
    var st := Comma(Run(a, START));
    assert st == START.(found := st.found + START.found);
    RunFound(b, START, st.found);
    hide Run;
  }

  /** Two lists can be joined with a comma, whatever the second is, if and only if the first is settled. */
  lemma JoinExactly(a: string)
    ensures (forall b :: Parse(a + "," + b) == Parse(a) + Parse(b)) <==> Settled(a)
  {
    if Settled(a) {
      forall b
        ensures Parse(a + "," + b) == Parse(a) + Parse(b)
      {
        ParseJoined(a, b);
      }
    } else {
      Unsettled(a);
    }
  }

  /** What is left pending becomes part of the next entry. */
  lemma Unsettled(a: string)
    requires !Settled(a)
    ensures var b := if Run(a, START).name == "" then "x" else "x:INFO";
      Parse(a + "," + b) != Parse(a) + Parse(b)
  {
    var st := Run(a, START);
    var pending := st.(inLevel := false);
    if st.name == "" {
      RunComma(a, "x", START);
      RunName("x", "", pending);
      RunName("x", "", START);
      assert "x" + "" == "x";
    } else {
      RunComma(a, "x:INFO", START);
      PendingEntry(pending);
      PendingEntry(START);
      LongerName(st.name);
      LastDiffers(st.found, Category(st.name + "x", Info), Category("x", Info));
    }
  }

  /** A category without a level: the two entries are read as one. */
  lemma TwoReadAsOne()
    ensures !Settled("x") && Parse("x" + "," + "x:INFO") == [Category("xx", Info)]
    ensures Parse("x") == [] && Parse("x:INFO") == [Category("x", Info)]
  {
    RunName("x", "", START);
    assert "x" + "" == "x" && "" + "x" == "x" && "x" + "x" == "xx";
    RunComma("x", "x:INFO", START);
    PendingEntry(START.(name := "x"));
    PendingEntry(START);
    assert [] + [Category("x", Info)] == [Category("x", Info)];
    assert [] + [Category("xx", Info)] == [Category("xx", Info)];
  }

  lemma LastDiffers(cs: seq<Category>, c1: Category, c2: Category)
    requires c1 != c2
    ensures cs + [c1] != cs + [c2]
  {
    assert (cs + [c1])[|cs|] == c1 && (cs + [c2])[|cs|] == c2;
  }

  lemma LongerName(name: string)
    requires name != ""
    ensures name + "x" != "x" && "" + "x" == "x"
  {
    assert |name + "x"| > |"x"|;
  }

  lemma PendingEntry(st: Scan)
    requires !st.inLevel
    ensures Run("x:INFO", st) == Scan(st.name + "x", Info, true, st.found)
  {
    RunName("x", ":INFO", st);
    assert "x" + ":INFO" == "x:INFO";
    assert ":INFO"[1..] == "INFO";
    LevelRead(Info, "");
    assert "INFO" + "" == "INFO";
    RunLevel("INFO", Info, st.(name := st.name + "x", inLevel := true));
    hide LevelPrefix, LevelWidth;
  }

  lemma ParseOne(c: Category)
    requires Writable(c)
    ensures Parse(Write(c)) == [c] && Settled(Write(c))
  {
    RunEntry(c, []);
    hide Run, Write;
  }

  /** Reading a written list gives the list back. */
  lemma {:induction false} ParseWritten(cs: seq<Category>)
    requires forall i :: 0 <= i < |cs| ==> Writable(cs[i])
    ensures Parse(WriteAll(cs)) == cs
  {
    if cs == [] {
    } else {
      hide Settled, Write, Writable;
      ParseOne(cs[0]);
      if |cs| > 1 {
        ParseWritten(cs[1..]);
        ParseJoined(Write(cs[0]), WriteAll(cs[1..]));
        assert cs == [cs[0]] + cs[1..];
      }
    }
  }
}
