/**
 Finding the task id in what pvesh prints. The id may come bare, quoted on the last line,
 glued to a warning, or inside one JSON string that holds the whole log.
 */
module Upid {
  import opened Text
  import opened Wrappers
  import Json

  datatype Output = Nothing | Data | Reply(text: string)

  const MARK := "UPID:"

  /** What ends a task id wherever one appears. */
  predicate IsStop(c: char) {
    IsSpace(c) || c == '"' || c == '\''
  }

  predicate IsMarked(s: string) {
    StartsWith(s, MARK)
  }

  // ----- the pattern UPID:[^\s"']+

  function RunLength(s: string): (n: nat)
    ensures n <= |s| && (n < |s| ==> IsStop(s[n]))
    ensures forall k | 0 <= k < n :: !IsStop(s[k])
  {
    if s == "" || IsStop(s[0]) then 0 else 1 + RunLength(s[1..])
  }

  predicate TokenStarts(s: string) {
    IsMarked(s) && |s| > 5 && !IsStop(s[5])
  }

  /** UPID_RE.findall(s): leftmost matches, each as long as it can be. */
  function Tokens(s: string): seq<string>
    decreases |s|
  {
    if s == "" then []
    else if TokenStarts(s) then
      var n := 5 + RunLength(s[5..]);
      [s[..n]] + Tokens(s[n..])
    else Tokens(s[1..])
  }

  /** The string a line holds as JSON, if it is one and is marked. */
  function LineUpid(line: string, isData: string -> bool): Option<string> {
    match Json.Loads(Strip(line), isData)
    case Text(v) => if IsMarked(v) then Some(v) else None
    case _ => None
  }

  function LastLineUpid(lines: seq<string>, isData: string -> bool): Option<string> {
    if lines == [] then None
    else
      var last := LineUpid(lines[|lines| - 1], isData);
      if last.Some? then last else LastLineUpid(lines[..|lines| - 1], isData)
  }

  function FromText(text: string, isData: string -> bool): string {
    if IsMarked(text) then text
    else
      match LastLineUpid(SplitLines(text), isData)
      case Some(v) => v
      case None =>
        var found := Tokens(text);
        if found != [] then found[|found| - 1] else text
  }

  function FromOutput(stdout: string, isData: string -> bool): Output {
    var out := Strip(stdout);
    if out == "" then Nothing
    else match Json.Loads(out, isData)
      case Data => Data
      case Text(v) => Reply(FromText(v, isData))
      case Malformed => Reply(FromText(out, isData))
  }

  /** PVE._run, from the point where pvesh has exited 0. */
  method Read(stdout: string, isData: string -> bool) returns (r: Output)
    ensures r == FromOutput(stdout, isData)
  {
    var out := Strip(stdout);
    if out == "" {
      return Nothing;
    }
    var decoded := Json.Loads(out, isData);
    if decoded.Data? {
      return Data;
    }
    var text := Search(if decoded.Text? then decoded.text else out, isData);
    return Reply(text);
  }

  method Search(text: string, isData: string -> bool) returns (r: string)
    ensures r == FromText(text, isData)
  {
    if IsMarked(text) {
      return text;
    }
    var lines := SplitLines(text);
    var i := |lines|;
    assert lines[..i] == lines;
    while i > 0
      invariant 0 <= i <= |lines|
      invariant LastLineUpid(lines, isData) == LastLineUpid(lines[..i], isData)
    {
      assert lines[..i][..i - 1] == lines[..i - 1];
      i := i - 1;
      var value := Json.Loads(Strip(lines[i]), isData);
      if value.Text? && IsMarked(value.text) {
        return value.text;
      }
    }
    var found := Tokens(text);
    return if found != [] then found[|found| - 1] else text;
  }

  // ----- completeness

  ghost predicate TokenAt(s: string, k: nat) {
    k + 5 < |s| && s[k..k + 5] == MARK && !IsStop(s[k + 5])
  }

  ghost predicate HasToken(s: string) {
    exists k :: TokenAt(s, k)
  }

  lemma {:induction false} TokensAreFound(s: string)
    ensures Tokens(s) != [] <==> HasToken(s)
    decreases |s|
  {
    if s != "" {
      if TokenStarts(s) {
        assert TokenAt(s, 0);
      } else {
        TokensAreFound(s[1..]);
        if HasToken(s) {
          var k: nat :| TokenAt(s, k);
          assert s[0..5] == s[..5];
          assert s[1..][k - 1..k - 1 + 5] == s[k..k + 5];
          assert TokenAt(s[1..], k - 1);
        }
        if HasToken(s[1..]) {
          var k: nat :| TokenAt(s[1..], k);
          assert s[1..][k..k + 5] == s[k + 1..k + 1 + 5];
          assert TokenAt(s, k + 1);
        }
      }
    }
  }

  lemma {:induction false} TokensAreMarked(s: string)
    ensures forall t | t in Tokens(s) :: IsMarked(t) && |t| > 5 && RunLength(t) == |t|
    decreases |s|
  {
    if s != "" {
      if TokenStarts(s) {
        var n := 5 + RunLength(s[5..]);
        TokensAreMarked(s[n..]);
        assert forall k | 5 <= k < n :: s[k] == s[5..][k - 5];
        assert forall k | 0 <= k < 5 :: s[k] == MARK[k] && !IsStop(MARK[k]);
        WholeRun(s[..n]);
        assert s[..n][..5] == MARK;
      } else {
        TokensAreMarked(s[1..]);
      }
    }
  }

  lemma WholeRun(t: string)
    requires forall k | 0 <= k < |t| :: !IsStop(t[k])
    ensures RunLength(t) == |t|
  {
  }

  lemma {:induction false} LastLineFound(lines: seq<string>, isData: string -> bool)
    ensures LastLineUpid(lines, isData).Some? <==> exists l | l in lines :: LineUpid(l, isData).Some?
    ensures LastLineUpid(lines, isData).Some? ==> IsMarked(LastLineUpid(lines, isData).value)
  {
    if lines != [] {
      LastLineFound(lines[..|lines| - 1], isData);
      assert lines == lines[..|lines| - 1] + [lines[|lines| - 1]];
    }
  }

  /** A text yields a marked string exactly when it holds one in any of the shapes looked for. */
  lemma TextYieldsUpid(text: string, isData: string -> bool)
    ensures IsMarked(FromText(text, isData)) <==>
            || IsMarked(text)
            || (exists l | l in SplitLines(text) :: LineUpid(l, isData).Some?)
            || HasToken(text)
  {
    LastLineFound(SplitLines(text), isData);
    TokensAreFound(text);
    TokensAreMarked(text);
  }

  // ----- exactness

  /** A token at the front of a text ends before the first stop, wherever the text goes on. */
  lemma TokenCut(a: string, rest: string) returns (n: nat)
    requires a != "" && IsStop(a[|a| - 1]) && TokenStarts(a + rest)
    ensures TokenStarts(a) && 5 < n < |a|
    ensures n == 5 + RunLength((a + rest)[5..]) == 5 + RunLength(a[5..])
    ensures (a + rest)[..n] == a[..n] && (a + rest)[n..] == a[n..] + rest
  {
    var s := a + rest;
    n := 5 + RunLength(s[5..]);
    assert forall k | 0 <= k < 5 :: s[k] == MARK[k] && !IsStop(s[k]);
    assert forall k | 5 <= k < n :: s[k] == s[5..][k - 5];
    assert s[|a| - 1] == a[|a| - 1];
    assert a[..5] == s[..5] && a[5] == s[5];
    assert s[5..] == a[5..] + rest;
    RunCut(a[5..], rest);
  }

  /** A scan that is at a stop has nothing of an earlier token left. */
  lemma {:induction false} TokensAfterStop(a: string, rest: string)
    requires a != "" && IsStop(a[|a| - 1])
    ensures Tokens(a + rest) == Tokens(a) + Tokens(rest)
    decreases |a|
  {
    var s := a + rest;
    if TokenStarts(s) {
      var n := TokenCut(a, rest);
      TokensAfterStop(a[n..], rest);
      assert [a[..n]] + (Tokens(a[n..]) + Tokens(rest)) == [a[..n]] + Tokens(a[n..]) + Tokens(rest);
    } else {
      assert s[1..] == a[1..] + rest;
      TokenStaysInFront(a, rest);
      if |a| > 1 {
        TokensAfterStop(a[1..], rest);
      } else {
        assert s[1..] == rest;
        assert Tokens(a) == [];
      }
    }
  }

  lemma {:induction false} RunCut(a: string, rest: string)
    requires RunLength(a + rest) < |a|
    ensures RunLength(a) == RunLength(a + rest)
  {
    assert (a + rest)[0] == a[0];
    if !IsStop(a[0]) {
      assert (a + rest)[1..] == a[1..] + rest;
      RunCut(a[1..], rest);
    }
  }

  lemma TokenStaysInFront(a: string, rest: string)
    ensures TokenStarts(a) ==> TokenStarts(a + rest)
  {
    if TokenStarts(a) {
      assert (a + rest)[..5] == a[..5] && (a + rest)[5] == a[5];
    }
  }

  /** A task id: marked, and free of what would end it. */
  predicate IsUpid(u: string) {
    IsMarked(u) && |u| > 5 && forall k | 0 <= k < |u| :: !IsStop(u[k])
  }

  lemma TokensOfUpid(u: string, rest: string)
    requires IsUpid(u) && (rest == "" || IsStop(rest[0]))
    ensures Tokens(u + rest) == [u] + Tokens(rest)
  {
    var s := u + rest;
    assert s[..5] == u[..5] && s[5] == u[5];
    assert s[5..] == u[5..] + rest;
    RunStops(u[5..], rest);
    assert s[..|u|] == u && s[|u|..] == rest;
  }

  lemma {:induction false} RunStops(a: string, rest: string)
    requires (forall k | 0 <= k < |a| :: !IsStop(a[k])) && (rest == "" || IsStop(rest[0]))
    ensures RunLength(a + rest) == |a|
  {
    if a == "" {
      assert a + rest == rest;
    } else {
      assert !IsStop(a[0]) && (a + rest)[1..] == a[1..] + rest;
      assert forall k | 0 <= k < |a[1..]| :: a[1..][k] == a[k + 1];
      RunStops(a[1..], rest);
    }
  }

  /** The last line of a text is what follows its last line feed. */
  lemma {:induction false} LastLine(pre: string, q: string)
    requires q != "" && !HasBreak(q)
    ensures var lines := SplitLines(pre + "\n" + q);
            lines != [] && lines[|lines| - 1] == q
    decreases |pre|
  {
    var s := pre + "\n" + q;
    var k := FirstBreak(s);
    assert s[|pre|] == '\n';
    FirstBreakIsFirst(s, |pre|);
    var next := NextLine(s, k);
    if next <= |pre| {
      assert s[next..] == pre[next..] + "\n" + q;
      LastLine(pre[next..], q);
    } else {
      assert s[next..] == q;
      SplitLinesLast(q);
    }
  }

  lemma {:induction false} FirstBreakIsFirst(s: string, b: nat)
    requires b < |s| && IsBreak(s[b])
    ensures FirstBreak(s) <= b
  {
    if b > 0 && !IsBreak(s[0]) {
      FirstBreakIsFirst(s[1..], b - 1);
    }
  }

  lemma StripQuoted(s: string)
    ensures Strip(Json.Quote(s)) == Json.Quote(s)
  {
    var q := Json.Quote(s);
    assert q[0] == '"' && q[|q| - 1] == '"';
  }

  lemma HexDigitIsNoBreak(n: nat)
    requires n < 16
    ensures !IsBreak(Json.HexDigit(n))
  {
    var digits := "0123456789abcdef";
    assert digits[n] >= '0';
  }

  lemma EncodedCharHasNoBreak(c: char)
    requires !IsBreak(c)
    ensures !HasBreak(Json.EncodeChar(c))
  {
    if c < ' ' && c != '"' && c != '\\' {
      var a, b := c as int / 16, c as int % 16;
      HexDigitIsNoBreak(a);
      HexDigitIsNoBreak(b);
      assert Json.EncodeChar(c) == ['\\', 'u', '0', '0', Json.HexDigit(a), Json.HexDigit(b)];
    }
  }

  lemma NoBreakTogether(a: string, b: string, s: string)
    requires !HasBreak(a) && !HasBreak(b) && s == a + b
    ensures !HasBreak(s)
  {
  }

  lemma {:induction false} EncodedHasNoBreak(s: string)
    requires forall k | 0 <= k < |s| :: !IsBreak(s[k])
    ensures !HasBreak(Json.EncodeBody(s))
  {
    if s != "" {
      EncodedCharHasNoBreak(s[0]);
      EncodedHasNoBreak(s[1..]);
      NoBreakTogether(Json.EncodeChar(s[0]), Json.EncodeBody(s[1..]), Json.EncodeBody(s));
    }
  }

  lemma QuotedHasNoBreak(u: string)
    requires IsUpid(u)
    ensures !HasBreak(Json.Quote(u))
  {
    assert forall k | 0 <= k < |u| :: !IsStop(u[k]) && !IsBreak(u[k]);
    EncodedHasNoBreak(u);
    NoBreakTogether("\"", Json.EncodeBody(u), "\"" + Json.EncodeBody(u));
    NoBreakTogether("\"" + Json.EncodeBody(u), "\"", Json.Quote(u));
  }

  lemma QuotedLine(u: string, isData: string -> bool)
    requires IsMarked(u)
    ensures LineUpid(Json.Quote(u), isData) == Some(u)
  {
    StripQuoted(u);
    Json.QuoteReads(u, isData);
  }

  /** Shape one: the id quoted on the last line, whatever the log before it says. */
  lemma QuotedOnLastLine(pre: string, u: string, isData: string -> bool)
    requires IsUpid(u) && !IsMarked(pre + "\n" + Json.Quote(u))
    ensures FromText(pre + "\n" + Json.Quote(u), isData) == u
  {
    var lines := SplitLines(pre + "\n" + Json.Quote(u));
    QuotedHasNoBreak(u);
    LastLine(pre, Json.Quote(u));
    QuotedLine(u, isData);
    assert LastLineUpid(lines, isData) == Some(u);
  }

  /** What holds no start of a token is passed over. */
  lemma {:induction false} NoTokenPassedOver(pre: string, rest: string)
    requires forall k | 0 <= k < |pre| :: !TokenAt(pre + rest, k)
    ensures Tokens(pre + rest) == Tokens(rest)
    decreases |pre|
  {
    var s := pre + rest;
    if pre == "" {
      assert s == rest;
    } else {
      assert s[1..] == pre[1..] + rest;
      assert !TokenStarts(s) by {
        assert !TokenAt(s, 0);
        assert |s| > 5 ==> s[0..0 + 5] == s[..5];
      }
      forall k | 0 <= k < |pre[1..]| ensures !TokenAt(pre[1..] + rest, k) {
        if TokenAt(pre[1..] + rest, k) {
          assert s[k + 1..k + 1 + 5] == s[1..][k..k + 5];
          assert TokenAt(s, k + 1);
        }
      }
      NoTokenPassedOver(pre[1..], rest);
    }
  }

  /** Up to n the text ends at a quote or at white space, or is empty, and from n to its end no token starts. */
  ghost predicate NoneRunsInto(pre: string, rest: string, n: nat) {
    && n <= |pre| && (n == 0 || IsStop(pre[n - 1]))
    && forall k | n <= k < |pre| :: !TokenAt(pre + rest, k)
  }

  lemma TokensBehind(pre: string, rest: string, n: nat)
    requires NoneRunsInto(pre, rest, n)
    ensures exists earlier: seq<string> :: Tokens(pre + rest) == earlier + Tokens(rest)
  {
    var a, b := pre[..n], pre[n..];
    assert pre + rest == a + (b + rest) && b + rest == (pre + rest)[n..];
    forall k | 0 <= k < |b| ensures !TokenAt(b + rest, k) {
      if TokenAt(b + rest, k) {
        assert (pre + rest)[k + n..k + n + 5] == (b + rest)[k..k + 5];
        assert TokenAt(pre + rest, k + n);
      }
    }
    NoTokenPassedOver(b, rest);
    if n == 0 {
      assert a + (b + rest) == b + rest && [] + Tokens(rest) == Tokens(rest);
    } else {
      TokensAfterStop(a, b + rest);
    }
  }

  /**
   Shapes two and three: the id anywhere after the start, glued to a warning or in a line of
   its own, where no earlier token runs into it, with no later id after it and no line that is
   itself a quoted id.
   */
  lemma SetOffInLog(pre: string, u: string, post: string, n: nat, isData: string -> bool)
    requires IsUpid(u) && NoneRunsInto(pre, u + post, n) && !IsMarked(pre + u + post)
    requires post == "" || IsStop(post[0])
    requires !HasToken(post)
    requires forall l | l in SplitLines(pre + u + post) :: LineUpid(l, isData).None?
    ensures FromText(pre + u + post, isData) == u
  {
    var text := pre + u + post;
    assert text == pre + (u + post);
    LastLineFound(SplitLines(text), isData);
    TokensBehind(pre, u + post, n);
    TokensOfUpid(u, post);
    TokensAreFound(post);
  }

  /** A line is no quoted id unless it starts with a quote. */
  lemma UnquotedLine(line: string, isData: string -> bool)
    requires Strip(line) == "" || Strip(line)[0] != '"'
    ensures LineUpid(line, isData).None?
  {
  }

  /** In a log whose lines start with no quote, the last id comes out, set off or glued to what is no id. */
  lemma SetOffInPlainLog(pre: string, u: string, post: string, n: nat, isData: string -> bool)
    requires IsUpid(u) && NoneRunsInto(pre, u + post, n) && !IsMarked(pre + u + post)
    requires post == "" || IsStop(post[0])
    requires !HasToken(post)
    requires forall l | l in SplitLines(pre + u + post) :: Strip(l) == "" || Strip(l)[0] != '"'
    ensures FromText(pre + u + post, isData) == u
  {
    forall l | l in SplitLines(pre + u + post) ensures LineUpid(l, isData).None? {
      UnquotedLine(l, isData);
    }
    SetOffInLog(pre, u, post, n, isData);
  }

  /** A text that starts with an id is returned whole: the id alone only if there is no more. */
  lemma MarkedTextReturnedWhole(u: string, post: string, isData: string -> bool)
    requires IsUpid(u)
    ensures FromText(u + post, isData) == u <==> post == ""
  {
    assert (u + post)[..5] == u[..5];
    assert |u + post| == |u| + |post|;
    assert u + "" == u;
  }

  /** However the proxy escapes the log, the log is what is searched. */
  lemma AnyStringOfTheLog(stdout: string, log: string, isData: string -> bool)
    requires Json.Loads(Strip(stdout), isData) == Json.Text(log)
    ensures FromOutput(stdout, isData) == Reply(FromText(log, isData))
  {
  }

  /** A log of several lines is never mistaken for a JSON string. */
  lemma StringsAreOneLine(log: string, isData: string -> bool)
    requires Json.Loads(log, isData).Text?
    ensures '\n' !in log
  {
    Json.NoRawControl(log[1..]);
    assert log == [log[0]] + log[1..];
  }

  /** A quoted id on a log's last line comes out of the whole output, not just of its text. */
  lemma OutputEndingInQuotedId(stdout: string, pre: string, u: string, isData: string -> bool)
    requires IsUpid(u) && Strip(stdout) == pre + "\n" + Json.Quote(u)
    requires !IsMarked(pre + "\n" + Json.Quote(u)) && !Json.Loads(Strip(stdout), isData).Data?
    ensures FromOutput(stdout, isData) == Reply(u)
  {
    var out := Strip(stdout);
    assert out[|pre|] == '\n';
    if Json.Loads(out, isData).Text? {
      StringsAreOneLine(out, isData);
    }
    QuotedOnLastLine(pre, u, isData);
  }

  /** A bare id comes out as it is. */
  lemma BareId(u: string, isData: string -> bool)
    requires IsUpid(u)
    ensures FromOutput(u, isData) == Reply(u)
  {
    assert !IsStop(u[0]) && !IsStop(u[|u| - 1]);
    assert u[0] == MARK[0] == 'U' && StripLeft(u) == u && StripRight(u) == u;
  }

  // ----- whose task it is

  /** parts[1] if there are more than two parts and it is not empty, else the local node. */
  function TaskNode(upid: string, local: string): string {
    var parts := Split(upid, ':');
    if |parts| > 2 && parts[1] != "" then parts[1] else local
  }

  /** An id names the node its task runs on. */
  lemma TaskNodeOfUpid(node: string, rest: string, local: string)
    requires ':' !in node && node != ""
    ensures TaskNode(MARK + node + ":" + rest, local) == node
  {
    SplitHead("UPID", ':', node + ":" + rest);
    SplitHead(node, ':', rest);
    assert MARK + node + ":" + rest == "UPID" + [':'] + (node + ":" + rest);
    assert node + ":" + rest == node + [':'] + rest;
  }
}
