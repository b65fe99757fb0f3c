/**
 A task log that pvesh proxies arrives as one JSON string, a streamed one as it is. The
 streamed one is stripped of white space, the string is not: when that makes a difference.
 */
module ProxiedLog {
  import opened Text
  import opened Wrappers
  import Json
  import opened Upid

  lemma SpaceIsNothing(l: string, isData: string -> bool)
    requires |l| <= 1 && forall c | c in l :: IsSpace(c)
    ensures LineUpid(l, isData).None?
  {
    if l != "" {
      assert l[0] in l && IsSpace(l[0]) && l[1..] == "";
      assert StripLeft(l) == StripLeft("") == "";
    }
    assert Strip(l) == "";
  }

  lemma {:induction false} LastLineHead(first: string, rest: seq<string>, isData: string -> bool)
    ensures LastLineUpid([first] + rest, isData) ==
            if LastLineUpid(rest, isData).Some? then LastLineUpid(rest, isData) else LineUpid(first, isData)
  {
    var all := [first] + rest;
    if rest == [] {
      assert all == [first] && all[..0] == [];
    } else {
      assert all[..|all| - 1] == [first] + rest[..|rest| - 1];
      LastLineHead(first, rest[..|rest| - 1], isData);
    }
  }

  /** White space in front of a text shows in no line's value. */
  lemma SpaceInFront(c: char, s: string, isData: string -> bool)
    requires IsSpace(c)
    ensures LastLineUpid(SplitLines([c] + s), isData) == LastLineUpid(SplitLines(s), isData)
  {
    var all := [c] + s;
    assert all[1..] == s;
    if IsBreak(c) {
      var next := NextLine(all, 0);
      assert all[..0] == "";
      LastLineHead("", SplitLines(all[next..]), isData);
      SpaceIsNothing("", isData);
      if next == 2 {
        assert s[0] == '\n' && s[..0] == "" && s[1..] == all[2..];
      }
    } else if s == "" {
      assert SplitLines(all) == [all] && [all][..0] == [];
      SpaceIsNothing(all, isData);
    } else {
      SpaceInFrontOfLine(c, s, isData);
    }
  }

  /** The lines after the first. */
  function LaterLines(s: string): seq<string> {
    var k := FirstBreak(s);
    if k == |s| then [] else SplitLines(s[NextLine(s, k)..])
  }

  lemma FirstAndLater(s: string)
    requires s != ""
    ensures SplitLines(s) == [s[..FirstBreak(s)]] + LaterLines(s)
  {
    assert s[..|s|] == s;
  }

  lemma BreakMovesOn(c: char, s: string)
    requires !IsBreak(c)
    ensures FirstBreak([c] + s) == FirstBreak(s) + 1
  {
    assert ([c] + s)[1..] == s;
  }

  /** The second line starts one later. */
  lemma NextMovesOn(c: char, s: string, k: nat)
    requires k < |s|
    ensures NextLine([c] + s, k + 1) == NextLine(s, k) + 1
    ensures ([c] + s)[NextLine(s, k) + 1..] == s[NextLine(s, k)..]
  {
    var all := [c] + s;
    assert all[k + 1] == s[k] && (k + 1 < |s| ==> all[k + 2] == s[k + 1]);
  }

  lemma FirstLineGrows(c: char, s: string)
    requires !IsBreak(c)
    ensures ([c] + s)[..FirstBreak(s) + 1] == [c] + s[..FirstBreak(s)]
    ensures LaterLines([c] + s) == LaterLines(s)
  {
    BreakMovesOn(c, s);
    if FirstBreak(s) < |s| {
      NextMovesOn(c, s, FirstBreak(s));
    }
  }

  lemma SpaceInFrontOfLine(c: char, s: string, isData: string -> bool)
    requires IsSpace(c) && !IsBreak(c) && s != ""
    ensures LastLineUpid(SplitLines([c] + s), isData) == LastLineUpid(SplitLines(s), isData)
  {
    var first := s[..FirstBreak(s)];
    BreakMovesOn(c, s);
    FirstLineGrows(c, s);
    FirstAndLater(s);
    FirstAndLater([c] + s);
    LastLineHead([c] + first, LaterLines(s), isData);
    LastLineHead(first, LaterLines(s), isData);
    assert ([c] + first)[1..] == first;
    assert Strip([c] + first) == Strip(first);
  }

  lemma {:induction false} StripSnoc(s: string, c: char)
    requires IsSpace(c)
    ensures Strip(s + [c]) == Strip(s)
  {
    if s == "" {
      assert s + [c] == [c] && [c][1..] == "";
    } else {
      assert (s + [c])[1..] == s[1..] + [c];
      if IsSpace(s[0]) {
        StripSnoc(s[1..], c);
      } else {
        assert StripLeft(s + [c]) == s + [c] && (s + [c])[..|s|] == s;
      }
    }
  }

  /** Nor does white space behind it. */
  lemma {:induction false} SpaceBehind(s: string, c: char, isData: string -> bool)
    requires IsSpace(c)
    ensures LastLineUpid(SplitLines(s + [c]), isData) == LastLineUpid(SplitLines(s), isData)
    decreases |s|
  {
    var all, k := s + [c], FirstBreak(s);
    if s == "" {
      assert all == [c] && [c][..0] == "" && [""][..0] == [] && [[c]][..0] == [];
      SpaceIsNothing([c], isData);
      SpaceIsNothing("", isData);
    } else if k < |s| {
      FirstBreakStays(s, [c]);
      LaterSpaceBehind(s, c, k, isData);
    } else {
      assert s[..|s|] == s && !HasBreak(s);
      if IsBreak(c) {
        FirstBreakAfter(s, [c]);
        assert all[..|s|] == s;
      } else {
        LinesJoinSpace(s, c);
        StripSnoc(s, c);
        assert [all][..0] == [] && [s][..0] == [];
      }
    }
  }

  lemma LinesJoinSpace(s: string, c: char)
    requires s != "" && !HasBreak(s) && !IsBreak(c)
    ensures SplitLines(s + [c]) == [s + [c]] && SplitLines(s) == [s]
  {
    SplitLinesLast(s);
    SplitLinesLast(s + [c]);
  }

  lemma {:induction false} FirstBreakStays(s: string, more: string)
    requires FirstBreak(s) < |s|
    ensures FirstBreak(s + more) == FirstBreak(s)
  {
    assert (s + more)[0] == s[0];
    if !IsBreak(s[0]) {
      assert (s + more)[1..] == s[1..] + more;
      FirstBreakStays(s[1..], more);
    }
  }

  lemma LaterSpaceBehind(s: string, c: char, k: nat, isData: string -> bool)
    requires IsSpace(c) && k == FirstBreak(s) < |s| && FirstBreak(s + [c]) == k
    ensures LastLineUpid(SplitLines(s + [c]), isData) == LastLineUpid(SplitLines(s), isData)
    decreases |s|, 1
  {
    FirstAndLater(s);
    FirstAndLater(s + [c]);
    assert (s + [c])[..k] == s[..k];
    LastLineHead(s[..k], LaterLines(s), isData);
    LastLineHead(s[..k], LaterLines(s + [c]), isData);
    LaterLinesBehind(s, c, k, isData);
  }

  /** Where the second line starts does not change, unless the new character ends a CR LF pair. */
  lemma NextLineBehind(s: string, c: char, k: nat)
    requires k < |s|
    ensures var all := s + [c];
            if NextLine(all, k) == NextLine(s, k) then all[NextLine(all, k)..] == s[NextLine(s, k)..] + [c]
            else all[NextLine(all, k)..] == "" && s[NextLine(s, k)..] == ""
  {
    var all := s + [c];
    assert all[k] == s[k] && (k + 1 < |s| ==> all[k + 1] == s[k + 1]);
  }

  lemma LaterLinesBehind(s: string, c: char, k: nat, isData: string -> bool)
    requires IsSpace(c) && k == FirstBreak(s) < |s| && FirstBreak(s + [c]) == k
    ensures LastLineUpid(LaterLines(s + [c]), isData) == LastLineUpid(LaterLines(s), isData)
    decreases |s|, 0
  {
    var all, tail := s + [c], s[NextLine(s, k)..];
    assert LaterLines(s) == SplitLines(tail);
    NextLineBehind(s, c, k);
    if NextLine(all, k) == NextLine(s, k) {
      assert LaterLines(all) == SplitLines(tail + [c]);
      SpaceBehind(tail, c, isData);
    }
  }

  lemma TokensAfterSpace(c: char, s: string)
    requires IsSpace(c)
    ensures Tokens([c] + s) == Tokens(s)
  {
    assert ([c] + s)[1..] == s;
    assert !StartsWith([c] + s, MARK) by {
      assert ([c] + s)[0] != 'U';
    }
  }

  lemma {:induction false} TokensBeforeSpace(s: string, c: char)
    requires IsSpace(c)
    ensures Tokens(s + [c]) == Tokens(s)
    decreases |s|
  {
    var all := s + [c];
    if s == "" {
      assert all == [c] + "";
      TokensAfterSpace(c, "");
    } else if TokenStarts(s) {
      TokenStaysInFront(s, [c]);
      var n := 5 + RunLength(s[5..]);
      assert all[5..] == s[5..] + [c];
      RunBeforeStop(s[5..], c);
      assert all[..n] == s[..n] && all[n..] == s[n..] + [c];
      TokensBeforeSpace(s[n..], c);
    } else {
      assert !TokenStarts(all) by {
        if |s| > 5 {
          assert all[..5] == s[..5] && all[5] == s[5];
        }
      }
      assert all[1..] == s[1..] + [c];
      TokensBeforeSpace(s[1..], c);
    }
  }

  lemma {:induction false} RunBeforeStop(s: string, c: char)
    requires IsStop(c)
    ensures RunLength(s + [c]) == RunLength(s)
  {
    if s == "" {
      assert s + [c] == [c];
    } else {
      assert (s + [c])[0] == s[0] && (s + [c])[1..] == s[1..] + [c];
      if !IsStop(s[0]) {
        RunBeforeStop(s[1..], c);
      }
    }
  }

  /** What the two searches find, white space at a text's ends does not change. */
  lemma {:induction false} StripKeepsFinds(s: string, isData: string -> bool)
    ensures LastLineUpid(SplitLines(Strip(s)), isData) == LastLineUpid(SplitLines(s), isData)
    ensures Tokens(Strip(s)) == Tokens(s)
  {
    StripLeftKeepsFinds(s, isData);
    StripRightKeepsFinds(StripLeft(s), isData);
  }

  lemma {:induction false} StripLeftKeepsFinds(s: string, isData: string -> bool)
    ensures LastLineUpid(SplitLines(StripLeft(s)), isData) == LastLineUpid(SplitLines(s), isData)
    ensures Tokens(StripLeft(s)) == Tokens(s)
  {
    if s != "" && IsSpace(s[0]) {
      assert s == [s[0]] + s[1..];
      SpaceInFront(s[0], s[1..], isData);
      TokensAfterSpace(s[0], s[1..]);
      StripLeftKeepsFinds(s[1..], isData);
    }
  }

  lemma {:induction false} StripRightKeepsFinds(s: string, isData: string -> bool)
    ensures LastLineUpid(SplitLines(StripRight(s)), isData) == LastLineUpid(SplitLines(s), isData)
    ensures Tokens(StripRight(s)) == Tokens(s)
  {
    if s != "" && IsSpace(s[|s| - 1]) {
      assert s == s[..|s| - 1] + [s[|s| - 1]];
      SpaceBehind(s[..|s| - 1], s[|s| - 1], isData);
      TokensBeforeSpace(s[..|s| - 1], s[|s| - 1]);
      StripRightKeepsFinds(s[..|s| - 1], isData);
    }
  }

  /** A quoted id on a line is shorter than the text. */
  lemma LineValueIsShorter(s: string, isData: string -> bool)
    requires LastLineUpid(SplitLines(s), isData).Some?
    ensures |LastLineUpid(SplitLines(s), isData).value| < |s|
  {
    LastLineIsOne(SplitLines(s), isData);
    var l :| l in SplitLines(s) && LineUpid(l, isData) == LastLineUpid(SplitLines(s), isData);
    LinesAreShorter(s);
    StripIsShorter(l);
    Json.BodyIsShorter(Strip(l)[1..]);
  }

  lemma {:induction false} LastLineIsOne(lines: seq<string>, isData: string -> bool)
    requires LastLineUpid(lines, isData).Some?
    ensures exists l | l in lines :: LineUpid(l, isData) == LastLineUpid(lines, isData)
  {
    var n := |lines| - 1;
    assert lines[n] in lines;
    if LineUpid(lines[n], isData).None? {
      LastLineIsOne(lines[..n], isData);
    }
  }

  lemma {:induction false} LinesAreShorter(s: string)
    ensures forall l | l in SplitLines(s) :: |l| <= |s|
    decreases |s|
  {
    var k := FirstBreak(s);
    if k < |s| {
      LinesAreShorter(s[NextLine(s, k)..]);
    }
  }

  lemma {:induction false} StripIsShorter(s: string)
    ensures |StripLeft(s)| <= |s| && |StripRight(s)| <= |s| && |Strip(s)| <= |s|
  {
    LeftIsShorter(s);
    RightIsShorter(s);
    RightIsShorter(StripLeft(s));
  }

  lemma {:induction false} LeftIsShorter(s: string)
    ensures |StripLeft(s)| <= |s|
    ensures s != "" && IsSpace(s[0]) ==> |StripLeft(s)| < |s|
  {
    if s != "" && IsSpace(s[0]) {
      LeftIsShorter(s[1..]);
    }
  }

  lemma {:induction false} RightIsShorter(s: string)
    ensures StripRight(s) <= s
    ensures s != "" && IsSpace(s[|s| - 1]) ==> |StripRight(s)| < |s|
  {
    if s != "" && IsSpace(s[|s| - 1]) {
      RightIsShorter(s[..|s| - 1]);
    }
  }

  /** A marked text is its own only token exactly if it is an id. */
  lemma MarkedAndFound(s: string, isData: string -> bool)
    requires IsMarked(s)
    ensures var found := Tokens(s);
            IsUpid(s) <==> LastLineUpid(SplitLines(s), isData).None? && found != [] && found[|found| - 1] == s
  {
    if IsUpid(s) {
      assert s + "" == s;
      TokensOfUpid(s, "");
      assert !HasBreak(s) by {
        assert forall k | 0 <= k < |s| :: !IsStop(s[k]) && !IsBreak(s[k]);
      }
      SplitLinesLast(s);
      assert [s][..0] == [];
      assert s[0] == MARK[0] == 'U' && !IsStop(s[|s| - 1]) && Strip(s) == s;
      UnquotedLine(s, isData);
    }
    TokensAreMarked(s);
  }

  /** A log shown with other white space around it is searched alike, if this holds. */
  predicate SpaceDoesNotShow(log: string, isData: string -> bool) {
    var bare := Strip(log);
    if IsMarked(bare) then IsUpid(bare) && IsSpace(log[0]) else IsMarked(FromText(bare, isData))
  }

  lemma MarkedOnlyBare(log: string)
    requires IsMarked(log)
    ensures IsMarked(Strip(log))
  {
    assert log[0] == MARK[0] == 'U' && StripLeft(log) == log;
    assert !IsSpace(log[4]) by {
      assert log[4] == MARK[4] == ':';
    }
    MarkSurvives(log);
  }

  lemma {:induction false} MarkSurvives(s: string)
    requires IsMarked(s)
    ensures IsMarked(StripRight(s))
  {
    assert s[4] == MARK[4] == ':';
    if IsSpace(s[|s| - 1]) {
      assert s[..|s| - 1][..5] == s[..5];
      MarkSurvives(s[..|s| - 1]);
    }
  }

  lemma BareEnds(log: string)
    ensures Strip(log) == log || |Strip(log)| < |log|
    ensures log != "" && !IsSpace(log[0]) ==> Strip(log) <= log
  {
    LeftIsShorter(log);
    RightIsShorter(log);
    RightIsShorter(StripLeft(log));
  }

  /**
   The white space around a log makes no difference to what comes of it exactly if there is
   none, or an id is found in the log, other than one the log starts with; that one only
   counts alone, behind white space.
   */
  lemma SpaceAroundLog(log: string, isData: string -> bool)
    requires Strip(log) != ""
    ensures FromText(log, isData) == FromText(Strip(log), isData) <==>
            Strip(log) == log || SpaceDoesNotShow(log, isData)
  {
    var bare := Strip(log);
    StripKeepsFinds(log, isData);
    BareEnds(log);
    if bare != log {
      if IsMarked(bare) {
        MarkedAndFound(bare, isData);
        MarkedLogWithSpace(log, isData);
      } else {
        if IsMarked(log) {
          MarkedOnlyBare(log);
        }
        LastLineFound(SplitLines(bare), isData);
        TokensAreMarked(bare);
      }
    }
  }

  lemma MarkedLogWithSpace(log: string, isData: string -> bool)
    requires IsMarked(Strip(log)) && Strip(log) != log
    ensures FromText(log, isData) == Strip(log) <==> IsUpid(Strip(log)) && IsSpace(log[0])
  {
    var bare := Strip(log);
    StripKeepsFinds(log, isData);
    BareEnds(log);
    MarkedAndFound(bare, isData);
    if IsSpace(log[0]) {
      assert !IsMarked(log) by {
        assert MARK[0] == 'U' && !IsSpace('U');
      }
      if LastLineUpid(SplitLines(bare), isData).Some? {
        LineValueIsShorter(bare, isData);
      }
    } else {
      assert bare <= log && log[..5] == bare[..5];
    }
  }

  /**
   Whether pvesh streams a log or proxies it as one JSON string, the same comes out, exactly if
   the log has no white space at its ends or none that shows: a streamed log is stripped, a
   proxied one is not. A log that is itself a JSON string is decoded once more when streamed,
   and one that is other JSON is not searched at all.
   */
  lemma ProxiedLogReadsTheSame(stdout: string, log: string, isData: string -> bool)
    requires Json.Loads(Strip(stdout), isData) == Json.Text(log)
    ensures FromOutput(stdout, isData) == FromOutput(log, isData) <==>
            && Strip(log) != ""
            && match Json.Loads(Strip(log), isData)
               case Malformed => Strip(log) == log || SpaceDoesNotShow(log, isData)
               case Text(inner) => FromText(log, isData) == FromText(inner, isData)
               case Data => false
  {
    AnyStringOfTheLog(stdout, log, isData);
    if Strip(log) != "" {
      SpaceAroundLog(log, isData);
    }
  }

  /** A log of more than one line is no JSON string, so for one that is no other JSON only its ends count. */
  lemma ProxiedLinesReadTheSame(stdout: string, log: string, isData: string -> bool)
    requires Json.Loads(Strip(stdout), isData) == Json.Text(log)
    requires '\n' in Strip(log) && !Json.Loads(Strip(log), isData).Data?
    ensures FromOutput(stdout, isData) == FromOutput(log, isData) <==> Strip(log) == log || SpaceDoesNotShow(log, isData)
  {
    if Json.Loads(Strip(log), isData).Text? {
      StringsAreOneLine(Strip(log), isData);
    }
    ProxiedLogReadsTheSame(stdout, log, isData);
  }

  /** A proxied log that is an id and a line feed comes out with the line feed. */
  lemma ProxiedIdKeepsItsLineFeed(stdout: string, u: string, isData: string -> bool)
    requires IsUpid(u) && Json.Loads(Strip(stdout), isData) == Json.Text(u + "\n")
    ensures FromOutput(stdout, isData) == Reply(u + "\n")
    ensures FromOutput(u + "\n", isData) == Reply(u)
  {
    AnyStringOfTheLog(stdout, u + "\n", isData);
    assert (u + "\n")[..5] == u[..5];
    StripSnoc(u, '\n');
    BareId(u, isData);
  }

  /** All this is so of the log written as section 7 of RFC 8259 has it, with the fewest escapes. */
  lemma QuotedLogReadsTheSame(log: string, isData: string -> bool)
    requires Json.Loads(Strip(log), isData).Malformed?
    ensures FromOutput(Json.Quote(log), isData) == FromOutput(log, isData) <==>
            Strip(log) != "" && (Strip(log) == log || SpaceDoesNotShow(log, isData))
  {
    QuotedLogIsAString(log, isData);
    ProxiedLogReadsTheSame(Json.Quote(log), log, isData);
  }

  lemma QuotedLogIsAString(log: string, isData: string -> bool)
    ensures Json.Loads(Strip(Json.Quote(log)), isData) == Json.Text(log)
  {
    StripQuoted(log);
    Json.QuoteReads(log, isData);
  }
}
