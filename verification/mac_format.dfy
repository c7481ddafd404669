/** The MAC address syntax check of `get_args`: the regular expression
      [a-fA-F0-9]{2}([-:]?)[a-fA-F0-9]{2}(\1[a-fA-F0-9]{2}){4}$
    applied with `re.match`, so anchored at the start. The optional capture
    picks the separator (nothing, `:` or `-`) once and the backreference `\1`
    repeats it between every later pair of groups. Without MULTILINE, `$`
    matches at the end of the string and also just before one final newline. */
module MacFormat {
  import opened HexText

  /** A one-character separator the capture `([-:]?)` can take. */
  predicate IsSeparatorChar(c: char) {
    c == ':' || c == '-'
  }

  /** Everything the capture `([-:]?)` can take. */
  predicate IsSeparator(sep: string) {
    sep == "" || sep == ":" || sep == "-"
  }

  /** Hand-coded reading of the pattern before its `$`: twelve hex digits, or
      seventeen characters whose every third character is one and the same
      separator and whose other characters are hex digits. */
  predicate MacShape(s: string) {
    || (|s| == 12 && forall i :: 0 <= i < 12 ==> IsHexDigit(s[i]))
    || (|s| == 17 && IsSeparatorChar(s[2]) &&
        forall i :: 0 <= i < 17 ==> if i % 3 == 2 then s[i] == s[2] else IsHexDigit(s[i]))
  }

  /** `re.match(pattern, s)` returns a match object: the shape, possibly
      followed by exactly one newline that `$` skips. An accepted string is
      12 or 17 characters long, plus that newline, starts with a hex digit,
      and holds only hex digits and separators apart from the newline. */
  predicate MatchesMacPattern(s: string): (matched: bool)
    ensures matched ==> |s| == 12 || |s| == 13 || |s| == 17 || |s| == 18
    ensures matched ==> IsHexDigit(s[0])
    ensures matched ==> forall i :: 0 <= i < |s| ==>
      IsHexDigit(s[i]) || IsSeparatorChar(s[i]) || (i == |s| - 1 && s[i] == '\n')
  {
    || MacShape(s)
    || (|s| > 0 && s[|s| - 1] == '\n' && MacShape(s[..|s| - 1]))
  }

  predicate AllHexPairs(groups: seq<string>) {
    forall k :: 0 <= k < |groups| ==> IsHexPair(groups[k])
  }

  /** The structural reading of the pattern: six hex pairs joined by one
      separator chosen from nothing, `:` and `-`. */
  ghost predicate IsJoinedMac(s: string) {
    exists groups: seq<string>, sep: string ::
      |groups| == 6 && AllHexPairs(groups) && IsSeparator(sep) && s == Join(groups, sep)
  }

  /** The language of the whole pattern including `$`. */
  ghost predicate InPatternLanguage(s: string) {
    || IsJoinedMac(s)
    || (|s| > 0 && s[|s| - 1] == '\n' && IsJoinedMac(s[..|s| - 1]))
  }

  /** The six groups of a string of the right shape. */
  function GroupsOf(s: string): (groups: seq<string>)
    requires |s| == 12 || |s| == 17
  {
    var w := if |s| == 12 then 2 else 3;
    seq(6, k requires 0 <= k < 6 => s[w * k .. w * k + 2])
  }

  /** Any join of hex pairs with a separator of the pattern is laid out as
      the hand-coded shape describes, whatever the number of groups. */
  lemma JoinedLayout(groups: seq<string>, sep: string)
    requires |groups| >= 1 && AllHexPairs(groups) && IsSeparator(sep)
    ensures sep == "" ==> |Join(groups, sep)| == 2 * |groups|
    ensures sep == "" ==> forall i :: 0 <= i < 2 * |groups| ==> IsHexDigit(Join(groups, sep)[i])
    ensures sep != "" ==> |Join(groups, sep)| == 3 * |groups| - 1
    ensures sep != "" ==> forall i :: 0 <= i < 3 * |groups| - 1 ==>
      Join(groups, sep)[i] == if i % 3 == 2 then sep[0] else groups[i / 3][i % 3]
    ensures IsHexDigit(Join(groups, sep)[|Join(groups, sep)| - 1])
  {
    if sep == "" {
      JoinPairsTight(groups);
      forall i | 0 <= i < 2 * |groups| ensures IsHexDigit(Join(groups, sep)[i]) {
        assert IsHexPair(groups[i / 2]);
      }
    } else {
      JoinPairsSeparated(groups, sep);
      var n := 3 * |groups| - 1;
      assert (n - 1) % 3 == 1 && (n - 1) / 3 == |groups| - 1;
      assert IsHexPair(groups[|groups| - 1]);
    }
  }

  /** Twelve hex digits are six pairs joined with no separator. */
  lemma TightShapeIsJoined(s: string)
    requires |s| == 12 && forall i :: 0 <= i < 12 ==> IsHexDigit(s[i])
    ensures IsJoinedMac(s)
  {
    var groups := GroupsOf(s);
    assert AllHexPairs(groups) by {
      forall k | 0 <= k < 6 ensures IsHexPair(groups[k]) {
        assert groups[k] == s[2 * k .. 2 * k + 2];
        assert IsHexDigit(s[2 * k]) && IsHexDigit(s[2 * k + 1]);
      }
    }
    JoinPairsTight(groups);
    forall i | 0 <= i < 12 ensures Join(groups, "")[i] == s[i] {
      assert groups[i / 2] == s[2 * (i / 2) .. 2 * (i / 2) + 2];
    }
    assert s == Join(groups, "");
  }

  /** Seventeen characters with one separator at every third place are six
      pairs joined with that separator. */
  lemma SeparatedShapeIsJoined(s: string)
    requires |s| == 17 && IsSeparatorChar(s[2])
    requires forall i :: 0 <= i < 17 ==> if i % 3 == 2 then s[i] == s[2] else IsHexDigit(s[i])
    ensures IsJoinedMac(s)
  {
    var groups := GroupsOf(s);
    var sep := [s[2]];
    assert AllHexPairs(groups) by {
      forall k | 0 <= k < 6 ensures IsHexPair(groups[k]) {
        assert groups[k] == s[3 * k .. 3 * k + 2];
        assert (3 * k) % 3 == 0 && (3 * k + 1) % 3 == 1;
        assert IsHexDigit(s[3 * k]) && IsHexDigit(s[3 * k + 1]);
      }
    }
    JoinPairsSeparated(groups, sep);
    forall i | 0 <= i < 17 ensures Join(groups, sep)[i] == s[i] {
      if i % 3 != 2 {
        assert groups[i / 3] == s[3 * (i / 3) .. 3 * (i / 3) + 2];
      }
    }
    assert s == Join(groups, sep);
  }

  /** Six hex pairs joined by an allowed separator have the hand-coded shape. */
  lemma JoinedIsShape(s: string)
    requires IsJoinedMac(s)
    ensures MacShape(s)
  {
    var groups: seq<string>, sep: string :|
      |groups| == 6 && AllHexPairs(groups) && IsSeparator(sep) && s == Join(groups, sep);
    JoinedLayout(groups, sep);
    if sep != "" {
      forall i | 0 <= i < 17 ensures if i % 3 == 2 then s[i] == s[2] else IsHexDigit(s[i]) {
        if i % 3 != 2 {
          assert IsHexPair(groups[i / 3]);
        }
      }
    }
  }

  /** The hand-coded predicate and the structural form agree on every string. */
  lemma MacShapeIsJoined(s: string)
    ensures MacShape(s) <==> IsJoinedMac(s)
  {
    if MacShape(s) {
      if |s| == 12 {
        TightShapeIsJoined(s);
      } else {
        SeparatedShapeIsJoined(s);
      }
    }
    if IsJoinedMac(s) {
      JoinedIsShape(s);
    }
  }

  /** The hand-coded match and the pattern's language (with `$`) agree. */
  lemma MatchesMacPatternIsLanguage(s: string)
    ensures MatchesMacPattern(s) <==> InPatternLanguage(s)
  {
    MacShapeIsJoined(s);
    if |s| > 0 {
      MacShapeIsJoined(s[..|s| - 1]);
    }
  }

  /** Six hex pairs and a separator from the pattern are always accepted,
      with or without one trailing newline. */
  lemma JoinedMacAccepted(groups: seq<string>, sep: string)
    requires |groups| == 6 && AllHexPairs(groups) && IsSeparator(sep)
    ensures MatchesMacPattern(Join(groups, sep))
    ensures MatchesMacPattern(Join(groups, sep) + "\n")
  {
    var s := Join(groups, sep);
    MacShapeIsJoined(s);
    assert (s + "\n")[..|s + "\n"| - 1] == s;
  }

  /** A join of any other number of hex pairs is rejected, e.g. none, five
      or seven groups, with or without one trailing newline. */
  lemma {:induction false} WrongGroupCountRejected(groups: seq<string>, sep: string)
    requires |groups| != 6 && AllHexPairs(groups) && IsSeparator(sep)
    ensures !MatchesMacPattern(Join(groups, sep))
    ensures !MatchesMacPattern(Join(groups, sep) + "\n")
  {
    var s := Join(groups, sep);
    if |groups| >= 1 {
      JoinedLayout(groups, sep);
      if MacShape(s) {
        MacShapeIsJoined(s);
        var groups': seq<string>, sep': string :|
          |groups'| == 6 && AllHexPairs(groups') && IsSeparator(sep') && s == Join(groups', sep');
        JoinedLayout(groups', sep');
        assert false;
      }
    }
    assert (s + "\n")[..|s|] == s;
  }

  /** Two separator positions holding different characters (for instance
      `aa:bb-cc:dd:ee:ff`) make the backreference fail, with or without one
      trailing newline. */
  lemma MixedSeparatorsRejected(s: string, j: int)
    requires |s| == 17 && 0 <= j < 17 && j % 3 == 2 && s[j] != s[2]
    ensures !MatchesMacPattern(s)
    ensures !MatchesMacPattern(s + "\n")
  {
    assert (s + "\n")[..17] == s;
  }

  /** Accepted and rejected strings from both the structural and the
      hand-coded side of the pattern. */
  lemma PatternExamples()
    ensures !MatchesMacPattern("aa:bb-cc:dd:ee:ff")
    ensures MatchesMacPattern("aa:bb:cc:dd:ee:ff") && MatchesMacPattern("AA-BB-CC-DD-EE-FF")
    ensures MatchesMacPattern("aabbccddeeff") && MatchesMacPattern("aa:bb:cc:dd:ee:ff\n")
    ensures !MatchesMacPattern("aa:bb:cc:dd:ee") && !MatchesMacPattern("aa:bb:cc:dd:ee:ff:00")
    ensures !MatchesMacPattern("not-a-mac") && !MatchesMacPattern("")
  {
    MixedSeparatorsRejected("aa:bb-cc:dd:ee:ff", 5);
    var plain := "aa:bb:cc:dd:ee:ff";
    assert plain[2] == ':';
    assert forall i :: 0 <= i < 17 ==> if i % 3 == 2 then plain[i] == plain[2] else IsHexDigit(plain[i]);
    var dashed := "AA-BB-CC-DD-EE-FF";
    assert forall i :: 0 <= i < 17 ==> if i % 3 == 2 then dashed[i] == dashed[2] else IsHexDigit(dashed[i]);
    assert ("aa:bb:cc:dd:ee:ff\n")[..17] == plain;
  }

  /** A character that is neither a hex digit nor a separator rejects the
      string, unless it is the single newline `$` allows at the very end. */
  lemma NonHexRejected(s: string, i: int)
    requires 0 <= i < |s| && !IsHexDigit(s[i]) && !IsSeparatorChar(s[i])
    requires !(i == |s| - 1 && s[i] == '\n')
    ensures !MatchesMacPattern(s)
  {
    if |s| > 0 && s[|s| - 1] == '\n' {
      var t := s[..|s| - 1];
      assert i < |t| && t[i] == s[i];
    }
  }

  /** The check is case-insensitive: lower-casing never changes the verdict. */
  lemma MatchIgnoresCase(s: string)
    ensures MatchesMacPattern(s) <==> MatchesMacPattern(Lower(s))
  {
    LowerKeepsShape(s);
    if |s| > 0 {
      var t := s[..|s| - 1];
      assert Lower(s)[..|s| - 1] == Lower(t);
      LowerKeepsShape(t);
    }
  }

  lemma LowerKeepsShape(s: string)
    ensures MacShape(s) <==> MacShape(Lower(s))
  {
    var l := Lower(s);
    forall i | 0 <= i < |s| ensures IsHexDigit(s[i]) <==> IsHexDigit(l[i]) {}
    forall i | 0 <= i < |s| ensures IsSeparatorChar(s[i]) <==> IsSeparatorChar(l[i]) {}
    forall i, j | 0 <= i < |s| && 0 <= j < |s| && IsSeparatorChar(s[j])
      ensures s[i] == s[j] <==> l[i] == l[j]
    {}
    if |s| == 17 && MacShape(l) {
      forall i | 0 <= i < 17 ensures if i % 3 == 2 then s[i] == s[2] else IsHexDigit(s[i]) {
        if i % 3 == 2 {
          assert l[i] == l[2];
        }
      }
    }
  }

  /** The matcher as code: strip the one newline `$` tolerates, then walk the
      six groups, fixing the separator at the first gap and demanding it at
      every later one. */
  method MatchMac(s: string) returns (matched: bool)
    ensures matched <==> MatchesMacPattern(s)
    ensures matched <==> InPatternLanguage(s)
  {
    MatchesMacPatternIsLanguage(s);
    var body := s;
    if |s| > 0 && s[|s| - 1] == '\n' {
      body := s[..|s| - 1];
    }
    assert MatchesMacPattern(s) <==> MacShape(body);
    if |body| != 12 && |body| != 17 {
      return false;
    }
    var w := if |body| == 12 then 2 else 3;
    if w == 3 && !IsSeparatorChar(body[2]) {
      return false;
    }
    var k := 0;
    while k < 6
      invariant 0 <= k <= 6
      invariant forall i :: 0 <= i < w * k && i < |body| ==>
        if w == 3 && i % 3 == 2 then body[i] == body[2] else IsHexDigit(body[i])
    {
      var at := w * k;
      if !IsHexDigit(body[at]) || !IsHexDigit(body[at + 1]) {
        assert !MacShape(body) by {
          if w == 3 {
            assert at % 3 == 0 && (at + 1) % 3 == 1;
          }
        }
        return false;
      }
      if w == 3 && k < 5 && body[at + 2] != body[2] {
        assert (at + 2) % 3 == 2;
        return false;
      }
      k := k + 1;
      assert forall i :: w * (k - 1) <= i < w * k && i < |body| ==>
        if w == 3 && i % 3 == 2 then body[i] == body[2] else IsHexDigit(body[i]);
    }
    assert w * 6 >= |body|;
    return true;
  }
}
