/** The category filter of the logger (external/easylogging++/easylogging++.cc, VRegistry). */
module LogFilter {
  import opened CategoryList
  import opened Wildcard
  import opened Basics

  const INT_MAX := 0x7fff_ffff

  function Priority(level: Level): (p: int)
    ensures 0 <= p <= 7
  {
    match level
    case Fatal => 0
    case Error => 1
    case Warning => 2
    case Info => 3
    case Debug => 4
    case Verbose => 5
    case Trace => 6
    case Global => 7
    case Unknown => 7
  }

  // ---- What the filter means ----

  /** Entry k is the last one whose pattern matches the category. */
  ghost predicate Governs(cs: seq<Category>, category: string, k: int) {
    && 0 <= k < |cs|
    && Matches(category, cs[k].name)
    && forall j :: k < j < |cs| ==> !Matches(category, cs[j].name)
  }

  /** The last matching entry lets messages of this priority through. */
  ghost predicate Permits(cs: seq<Category>, pri: int, category: string) {
    exists k :: Governs(cs, category, k) && pri <= Priority(cs[k].level)
  }

  /** p is the priority of the last matching entry, -1 when there is none. */
  ghost predicate Verdict(cs: seq<Category>, category: string, p: int) {
    || (exists k :: Governs(cs, category, k) && p == Priority(cs[k].level))
    || (p == -1 && forall k :: 0 <= k < |cs| ==> !Matches(category, cs[k].name))
  }

  lemma GovernsOnce(cs: seq<Category>, category: string, j: int, k: int)
    requires Governs(cs, category, j) && Governs(cs, category, k)
    ensures j == k
  {
  }

  lemma VerdictPermits(cs: seq<Category>, category: string, p: int, pri: int)
    requires Verdict(cs, category, p) && 0 <= pri
    ensures Permits(cs, pri, category) <==> pri <= p
  {
    if Permits(cs, pri, category) {
      var j :| Governs(cs, category, j) && pri <= Priority(cs[j].level);
      forall k | Governs(cs, category, k)
        ensures k == j
      {
        GovernsOnce(cs, category, j, k);
      }
      hide Matches;
    }
  }

  /** The levels of messages from the most to the least severe. */
  const BY_SEVERITY := [Fatal, Error, Warning, Info, Debug, Verbose, Trace]

  /** The last matching entry lets through the levels that are at least as severe as its own, and no others. */
  lemma LevelLetsThrough(cs: seq<Category>, category: string, k: int, i: nat, j: nat)
    requires Governs(cs, category, k) && i < 7 && j < 7 && cs[k].level == BY_SEVERITY[j]
    ensures Permits(cs, Priority(BY_SEVERITY[i]), category) <==> i <= j
  {
    hide Matches;
    assert Priority(BY_SEVERITY[i]) == i && Priority(BY_SEVERITY[j]) == j;
    assert Verdict(cs, category, j);
    VerdictPermits(cs, category, j, i);
  }

  /** An entry of the level Global lets everything through. */
  lemma GlobalLetsThrough(cs: seq<Category>, category: string, k: int, level: Level)
    requires Governs(cs, category, k) && cs[k].level == Global
    ensures Permits(cs, Priority(level), category)
  {
    hide Matches;
  }

  class VRegistry {
    var categories: seq<Category>
    var cache: map<string, int>
    var text: string
    var lowest: int

    /** Every cached answer is still the right one, and no entry is above the bound. */
    ghost predicate Valid()
      reads this
    {
      && (forall category :: category in cache ==> Verdict(categories, category, cache[category]))
      && forall k :: 0 <= k < |categories| ==> Priority(categories[k].level) <= lowest
    }

    /** The text describes the entries. */
    ghost predicate Described()
      reads this
    {
      Parse(text) == categories && Settled(text)
    }

    constructor ()
      ensures Valid() && Described() && categories == []
    {
      categories, cache, text, lowest := [], map[], "", INT_MAX;
    }

    /** The text is kept, so that a text that described the entries goes on doing so exactly when there were none. */
    method ClearCategories()
      requires Valid()
      modifies this
      ensures Valid() && categories == [] && text == old(text)
      ensures old(Described()) ==> (Described() <==> old(categories) == [])
    {
      categories, cache, lowest := [], map[], INT_MAX;
    }

    /** After setting "x:INFO" and clearing, the text names an entry that is gone. */
    static method ClearLosesEntry() returns (r: VRegistry)
      ensures fresh(r) && r.Valid()
      ensures r.categories == [] && r.text == "x:INFO" && Parse(r.text) == [Category("x", Info)]
      ensures !r.Described()
    {
      hide Run;
      PendingEntry(START);
      assert "" + "x" == "x";
      assert [] + [Category("x", Info)] == [Category("x", Info)];
      r := new VRegistry();
      r.SetCategories(Some("x:INFO"), true);
      r.ClearCategories();
    }

    method Insert(name: string, level: Level)
      requires Valid()
      modifies this`categories, this`cache, this`lowest
      ensures Valid() && categories == old(categories) + [Category(name, level)]
    {
      categories := categories + [Category(name, level)];
      cache := map[];
      var pri := Priority(level);
      if pri > lowest {
        lowest := pri;
      }
    }

    /** The scanner loop: everything the text names is appended. */
    method InsertAll(categoryText: string)
      requires Valid()
      modifies this`categories, this`cache, this`lowest
      ensures Valid() && categories == old(categories) + Parse(categoryText)
    {
      hide LevelPrefix, LevelName, Valid;
      ghost var before := categories;
      var name, level, inLevel := "", Unknown, false;
      ghost var found: seq<Category> := [];
      var i := 0;
      assert categoryText[0..] == categoryText;
      assert before + [] == before;
      while i < |categoryText|
        invariant 0 <= i <= |categoryText| && Valid()
        invariant categories == before + found
        invariant Run(categoryText[i..], Scan(name, level, inLevel, found)) == Run(categoryText, START)
      {
        var c := categoryText[i];
        assert categoryText[i..][0] == c && categoryText[i..][1..] == categoryText[i + 1..];
        if c == ':' {
          inLevel := true;
          i := i + 1;
        } else if c == ',' {
          inLevel := false;
          if name != "" && level != Unknown {
            Insert(name, level);
            found := found + [Category(name, level)];
            name, level := "", Unknown;
          }
          i := i + 1;
        } else if !inLevel {
          name := name + [c];
          i := i + 1;
        } else {
          var rest := categoryText[i..];
          assert rest[LevelWidth(rest)..] == categoryText[i + LevelWidth(rest)..];
          level := LevelPrefix(rest);
          i := i + LevelWidth(rest);
        }
      }
      assert categoryText[i..] == "";
      if name != "" && level != Unknown {
        Insert(name, level);
      }
    }

    /** Entries are replaced or extended; a text that described them goes on doing so exactly when the new one is settled. */
    method SetCategories(categoryText: Option<string>, clear: bool)
      requires Valid()
      modifies this
      ensures Valid()
      ensures var kept := if clear then [] else old(categories);
        categories == if categoryText.None? then kept else kept + Parse(categoryText.value)
      ensures var kept := if clear then "" else old(text);
        text == if categoryText.None? then kept else if kept == "" then categoryText.value else kept + "," + categoryText.value
      ensures clear || old(Described()) ==> (Described() <==> categoryText.None? || Settled(categoryText.value))
    {
      hide LevelPrefix, LevelName, Run, Parse, Settled;
      EmptyText();
      if clear {
        lowest, categories, cache, text := 0, [], map[], "";
      }
      if categoryText.None? {
        return;
      }
      var added := categoryText.value;
      if text != "" {
        JoinSettled(text, added);
        text := text + ",";
      }
      assert "" + added == added;
      text := text + added;
      InsertAll(added);
    }

    static lemma EmptyText()
      ensures Parse("") == [] && Settled("")
    {
    }

    static lemma JoinSettled(a: string, b: string)
      ensures Settled(a) ==>
        && (Settled(a + "," + b) <==> Settled(b))
        && Parse(a + "," + b) == Parse(a) + Parse(b)
    {
      if Settled(a) {
        ParseJoined(a, b);
        RunComma(a, b, START);
        var st := Comma(Run(a, START));
        assert st == START.(found := st.found + START.found);
        RunFound(b, START, st.found);
      }
      hide Run;
    }

    /** The answer of the reference, and the entries are left alone. */
    method PriorityAllowed(pri: int, category: string) returns (r: bool)
      requires Valid() && 0 <= pri
      modifies this`cache
      ensures Valid()
      ensures r == Permits(categories, pri, category)
    {
      hide Matches;
      if category in cache {
        VerdictPermits(categories, category, cache[category], pri);
        return pri <= cache[category];
      }
      if categories == [] {
        return false;
      }
      for i := |categories| downto 0
        invariant forall k :: i <= k < |categories| ==> !Matches(category, categories[k].name)
        invariant Valid() && cache == old(cache)
      {
        var matched := WildCardMatch(category, categories[i].name);
        if matched {
          var p := Priority(categories[i].level);
          assert Governs(categories, category, i);
          VerdictPermits(categories, category, p, pri);
          cache := cache[category := p];
          return pri <= p;
        }
      }
      VerdictPermits(categories, category, -1, pri);
      cache := cache[category := -1];
      r := false;
    }

    /** Loggers::allowed: the early test against the bound never changes the answer. */
    method Allowed(level: Level, category: string) returns (r: bool)
      requires Valid()
      modifies this`cache
      ensures Valid()
      ensures r == Permits(categories, Priority(level), category)
    {
      hide Matches;
      var pri := Priority(level);
      if pri > lowest {
        return false;
      }
      r := PriorityAllowed(pri, category);
    }
  }
}
