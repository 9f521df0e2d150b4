/** Wildcard patterns of the log filter (external/easylogging++/easylogging++.cc, Str::wildCardMatch). */
module Wildcard {

  /** pieces cuts str up so that each character of the pattern gets what it stands for. */
  ghost predicate Covers(pieces: seq<string>, str: string, pattern: string)
    decreases |pieces|
  {
    && |pieces| == |pattern|
    && if pieces == [] then str == []
       else
         && pieces[0] <= str
         && Fits(pieces[0], pattern[0])
         && Covers(pieces[1..], str[|pieces[0]|..], pattern[1..])
  }

  /** '?' stands for any one character, '*' for any text, anything else for itself. */
  predicate Fits(piece: string, c: char) {
    c == '*' || (|piece| == 1 && (c == '?' || piece[0] == c))
  }

  ghost predicate Matches(str: string, pattern: string) {
    exists pieces :: Covers(pieces, str, pattern)
  }

  lemma MatchesNone(str: string)
    ensures Matches(str, "") <==> str == ""
  {
    if str == "" {
      assert Covers([], str, "");
    }
  }

  lemma CoversFirst(pieces: seq<string>, piece: string, str: string, pattern: string)
    requires pattern != "" && piece <= str && Fits(piece, pattern[0])
    requires Covers(pieces, str[|piece|..], pattern[1..])
    ensures Covers([piece] + pieces, str, pattern)
  {
    assert ([piece] + pieces)[1..] == pieces;
  }

  lemma MatchesFirst(str: string, pattern: string, piece: string)
    requires pattern != "" && piece <= str && Fits(piece, pattern[0])
    requires Matches(str[|piece|..], pattern[1..])
    ensures Matches(str, pattern)
  {
    var pieces :| Covers(pieces, str[|piece|..], pattern[1..]);
    CoversFirst(pieces, piece, str, pattern);
  }

  /** A pattern that starts with one fixed character or '?' takes one character of the text. */
  lemma MatchesOne(str: string, pattern: string)
    requires pattern != "" && pattern[0] != '*'
    ensures Matches(str, pattern) <==>
      str != "" && (pattern[0] == '?' || str[0] == pattern[0]) && Matches(str[1..], pattern[1..])
  {
    if Matches(str, pattern) {
      var pieces :| Covers(pieces, str, pattern);
      assert Covers(pieces[1..], str[1..], pattern[1..]);
    } else if str != "" && (pattern[0] == '?' || str[0] == pattern[0]) && Matches(str[1..], pattern[1..]) {
      MatchesFirst(str, pattern, str[..1]);
    }
  }

  lemma StarGivesUpOne(pieces: seq<string>, str: string, pattern: string)
    requires pattern != "" && pattern[0] == '*' && Covers(pieces, str, pattern)
    ensures Matches(str, pattern[1..]) || (str != "" && Matches(str[1..], pattern))
  {
    var piece := pieces[0];
    if piece == "" {
      assert str[|piece|..] == str;
    } else {
      assert str[|piece|..] == str[1..][|piece[1..]|..];
      CoversFirst(pieces[1..], piece[1..], str[1..], pattern);
    }
  }

  lemma StarTakesOneMore(pieces: seq<string>, str: string, pattern: string)
    requires pattern != "" && pattern[0] == '*' && str != "" && Covers(pieces, str[1..], pattern)
    ensures Matches(str, pattern)
  {
    var piece := str[..1] + pieces[0];
    assert str[|piece|..] == str[1..][|pieces[0]|..];
    assert piece <= str;
    CoversFirst(pieces[1..], piece, str, pattern);
  }

  /** A star takes nothing, or one character and then what a star takes. */
  lemma MatchesStar(str: string, pattern: string)
    requires pattern != "" && pattern[0] == '*'
    ensures Matches(str, pattern) <==> Matches(str, pattern[1..]) || (str != "" && Matches(str[1..], pattern))
  {
    hide Covers;
    if Matches(str, pattern) {
      var pieces :| Covers(pieces, str, pattern);
      StarGivesUpOne(pieces, str, pattern);
    }
    if Matches(str, pattern[1..]) {
      assert str[0..] == str;
      MatchesFirst(str, pattern, "");
    }
    if str != "" && Matches(str[1..], pattern) {
      var pieces :| Covers(pieces, str[1..], pattern);
      StarTakesOneMore(pieces, str, pattern);
    }
  }

  method WildCardMatch(str: string, pattern: string) returns (r: bool)
    ensures r == Matches(str, pattern)
    decreases |str| + |pattern|
  {
    hide Matches;
    var s, p := str, pattern;
    while p != ""
      invariant |s| <= |str| && |p| <= |pattern|
      invariant Matches(s, p) == Matches(str, pattern)
      decreases |p|
    {
      if p[0] == '*' {
        MatchesStar(s, p);
        r := WildCardMatch(s, p[1..]);
        if !r && s != "" {
          r := WildCardMatch(s[1..], p);
        }
        return;
      }
      MatchesOne(s, p);
      if s == "" || (p[0] != '?' && s[0] != p[0]) {
        return false;
      }
      s, p := s[1..], p[1..];
    }
    MatchesNone(s);
    r := s == "";
  }
}
