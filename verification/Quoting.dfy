/**
 Quoting an argument list for a remote shell, and what the shell makes of it: token
 recognition and quoting, sections 2.2.2, 2.2.3 and 2.3 of the Shell Command Language volume
 of IEEE Std 1003.1-2017. Splitting refuses any text that would do more than give words.
 */
module Quoting {
  import opened Text
  import opened Wrappers

  // ----- shlex.quote

  /** The characters shlex.quote leaves bare: [a-zA-Z0-9@%+=:,./_-]. */
  predicate IsSafe(c: char) {
    || 'a' <= c <= 'z' || 'A' <= c <= 'Z' || IsDigit(c)
    || c == '@' || c == '%' || c == '+' || c == '=' || c == ':'
    || c == ',' || c == '.' || c == '/' || c == '_' || c == '-'
  }

  predicate AllSafe(s: string) {
    forall k | 0 <= k < |s| :: IsSafe(s[k])
  }

  /** s.replace("'", "'\"'\"'"). */
  function EscapeQuotes(s: string): string {
    if s == "" then ""
    else (if s[0] == '\'' then "'\"'\"'" else [s[0]]) + EscapeQuotes(s[1..])
  }

  function Quote(s: string): string {
    if s == "" then "''"
    else if AllSafe(s) then s
    else "'" + EscapeQuotes(s) + "'"
  }

  /** " ".join(shlex.quote(a) for a in args). */
  function QuoteAll(args: seq<string>): string {
    if args == [] then ""
    else if |args| == 1 then Quote(args[0])
    else Quote(args[0]) + " " + QuoteAll(args[1..])
  }

  // ----- the shell

  /** Between words, or inside one: unquoted, in single quotes, in double quotes. */
  datatype Mode = Between | Bare | Single | Double

  predicate IsBlank(c: char) {
    c == ' ' || c == '\t'
  }

  /**
   Characters that do not stand for themselves outside quotes: operators, the newline, quotes,
   the backslash, expansions, patterns, a comment sign, and NUL, which no argument can hold.
   */
  predicate IsSpecial(c: char) {
    || c == '|' || c == '&' || c == ';' || c == '<' || c == '>' || c == '(' || c == ')'
    || c == '$' || c == '`' || c == '\\' || c == '"' || c == '\''
    || c == '*' || c == '?' || c == '[' || c == ']' || c == '#' || c == '~'
    || c == '{' || c == '}' || c == '!' || c == '^' || c == '\n' || c == '\0'
  }

  /** The words of a command line, given the word so far; None if it is more than plain words. */
  function Words(s: string, mode: Mode, word: string): Option<seq<string>>
    decreases |s|
  {
    if s == "" then
      match mode
      case Between => Some([])
      case Bare => Some([word])
      case _ => None
    else
      var c, rest := s[0], s[1..];
      match mode
      case Single =>
        if c == '\'' then Words(rest, Bare, word)
        else if c == '\0' then None
        else Words(rest, Single, word + [c])
      case Double =>
        if c == '"' then Words(rest, Bare, word)
        else if c == '$' || c == '`' || c == '\\' || c == '\0' then None
        else Words(rest, Double, word + [c])
      case _ =>
        if IsBlank(c) then
          if mode.Between? then Words(rest, Between, "")
          else Prepend(word, Words(rest, Between, ""))
        else if c == '\'' then Words(rest, Single, word)
        else if c == '"' then Words(rest, Double, word)
        else if IsSpecial(c) then None
        else Words(rest, Bare, word + [c])
  }

  function Prepend(word: string, words: Option<seq<string>>): Option<seq<string>> {
    match words case None => None case Some(ws) => Some([word] + ws)
  }

  function ShellWords(s: string): Option<seq<string>> {
    Words(s, Between, "")
  }

  // ----- one argument

  lemma SafeIsPlain(c: char)
    requires IsSafe(c)
    ensures !IsBlank(c) && !IsSpecial(c) && c != '\'' && c != '"'
  {
  }

  lemma PlainStep(c: char, rest: string, mode: Mode, word: string)
    requires IsSafe(c) && (mode.Bare? || mode.Between?)
    ensures Words([c] + rest, mode, word) == Words(rest, Bare, word + [c])
  {
    SafeIsPlain(c);
    assert ([c] + rest)[1..] == rest;
  }

  lemma {:induction false} SafeIsRead(s: string, rest: string, mode: Mode, word: string)
    requires AllSafe(s) && (mode.Bare? || (mode.Between? && s != ""))
    ensures Words(s + rest, mode, word) == Words(rest, Bare, word + s)
  {
    if s == "" {
      assert s + rest == rest && word + s == word;
    } else {
      assert s + rest == [s[0]] + (s[1..] + rest);
      PlainStep(s[0], s[1..] + rest, mode, word);
      SafeIsRead(s[1..], rest, Bare, word + [s[0]]);
      assert word + [s[0]] + s[1..] == word + s;
    }
  }

  /** Inside single quotes, the escaped argument and its closing quote. */
  lemma {:induction false} EscapedIsRead(s: string, rest: string, word: string)
    requires '\0' !in s
    ensures Words(EscapeQuotes(s) + "'" + rest, Single, word) == Words(rest, Bare, word + s)
  {
    if s == "" {
      assert EscapeQuotes(s) + "'" + rest == "'" + rest;
      assert word + s == word;
    } else {
      var tail := EscapeQuotes(s[1..]) + "'" + rest;
      EscapedIsRead(s[1..], rest, word + [s[0]]);
      assert word + [s[0]] + s[1..] == word + s;
      if s[0] == '\'' {
        assert EscapeQuotes(s) + "'" + rest == "'\"'\"'" + tail;
        QuoteInQuotes(tail, word);
      } else {
        assert EscapeQuotes(s) + "'" + rest == [s[0]] + tail;
      }
    }
  }

  /** '"'"' closes, gives one single quote, and opens again. */
  lemma QuoteInQuotes(tail: string, word: string)
    ensures Words("'\"'\"'" + tail, Single, word) == Words(tail, Single, word + ['\''])
  {
    var s := "'\"'\"'" + tail;
    assert s[1..] == "\"'\"'" + tail;
    assert s[1..][1..] == "'\"'" + tail;
    assert s[1..][1..][1..] == "\"'" + tail;
    assert s[1..][1..][1..][1..] == "'" + tail;
    assert s[1..][1..][1..][1..][1..] == tail;
    assert Words(s, Single, word) == Words("\"'\"'" + tail, Bare, word);
    assert Words("\"'\"'" + tail, Bare, word) == Words("'\"'" + tail, Double, word);
    assert Words("'\"'" + tail, Double, word) == Words("\"'" + tail, Double, word + ['\'']);
    assert Words("\"'" + tail, Double, word + ['\'']) == Words("'" + tail, Bare, word + ['\'']);
  }

  lemma EmptyIsRead(rest: string)
    ensures Words("''" + rest, Between, "") == Words(rest, Bare, "")
  {
    var s := "''" + rest;
    assert s[1..] == "'" + rest && s[1..][1..] == rest;
  }

  lemma QuoteOpens(s: string)
    ensures Words("'" + s, Between, "") == Words(s, Single, "")
  {
    assert ("'" + s)[1..] == s;
  }

  lemma QuotedIsRead(arg: string, rest: string)
    requires '\0' !in arg
    ensures Words(Quote(arg) + rest, Between, "") == Words(rest, Bare, arg)
  {
    assert "" + arg == arg;
    if arg == "" {
      EmptyIsRead(rest);
    } else if AllSafe(arg) {
      SafeIsRead(arg, rest, Between, "");
    } else {
      assert Quote(arg) + rest == "'" + (EscapeQuotes(arg) + "'" + rest);
      QuoteOpens(EscapeQuotes(arg) + "'" + rest);
      EscapedIsRead(arg, rest, "");
    }
  }

  // ----- argument lists

  lemma WordThen(arg: string, more: string)
    requires '\0' !in arg
    ensures Words(Quote(arg) + (" " + more), Between, "") == Prepend(arg, ShellWords(more))
  {
    QuotedIsRead(arg, " " + more);
    assert (" " + more)[1..] == more;
  }

  lemma BlankFirst(rest: string)
    ensures ShellWords(" " + rest) == ShellWords(rest)
  {
    assert (" " + rest)[1..] == rest;
  }

  function PrependAll(words: seq<string>, more: Option<seq<string>>): Option<seq<string>> {
    match more case None => None case Some(ws) => Some(words + ws)
  }

  lemma PrependTwice(args: seq<string>, more: Option<seq<string>>)
    requires args != []
    ensures PrependAll(args, more) ==
            Prepend(args[0], if |args| == 1 then more else PrependAll(args[1..], more))
  {
    assert args == [args[0]] + args[1..];
    if more.Some? {
      assert [args[0]] + (args[1..] + more.value) == args + more.value;
    }
    assert |args| == 1 ==> args == [args[0]];
  }

  /** What follows a list of arguments on the line is read as if it stood alone. */
  lemma {:induction false} ListIsRead(args: seq<string>, rest: string)
    requires forall a | a in args :: '\0' !in a
    ensures ShellWords(QuoteAll(args) + " " + rest) == PrependAll(args, ShellWords(rest))
  {
    if args == [] {
      BlankFirst(rest);
      assert QuoteAll(args) + " " + rest == " " + rest;
      assert ShellWords(rest).Some? ==> args + ShellWords(rest).value == ShellWords(rest).value;
    } else {
      assert args[0] in args && args == [args[0]] + args[1..];
      var more := if |args| == 1 then rest else QuoteAll(args[1..]) + " " + rest;
      assert QuoteAll(args) + " " + rest == Quote(args[0]) + (" " + more);
      WordThen(args[0], more);
      if |args| > 1 {
        ListIsRead(args[1..], rest);
      }
      PrependTwice(args, ShellWords(rest));
    }
  }

  lemma {:induction false} ListAloneIsRead(args: seq<string>)
    requires forall a | a in args :: '\0' !in a
    ensures ShellWords(QuoteAll(args)) == Some(args)
  {
    if args != [] {
      assert args[0] in args && args == [args[0]] + args[1..];
      if |args| == 1 {
        assert args == [args[0]];
        assert QuoteAll(args) == Quote(args[0]) + "";
        QuotedIsRead(args[0], "");
      } else {
        var more := QuoteAll(args[1..]);
        assert QuoteAll(args) == Quote(args[0]) + (" " + more);
        WordThen(args[0], more);
        ListAloneIsRead(args[1..]);
      }
    }
  }

  /** No word the shell gives holds a NUL. */
  lemma {:induction false} WordsHaveNoNul(s: string, mode: Mode, word: string)
    requires '\0' !in word
    ensures Words(s, mode, word).Some? ==> forall w | w in Words(s, mode, word).value :: '\0' !in w
    decreases |s|
  {
    if s != "" {
      var c, rest := s[0], s[1..];
      if !IsSpecial(c) || c != '\0' {
        WordsHaveNoNul(rest, Between, "");
        WordsHaveNoNul(rest, Bare, word);
        WordsHaveNoNul(rest, Single, word);
        WordsHaveNoNul(rest, Double, word);
        WordsHaveNoNul(rest, Bare, word + [c]);
        WordsHaveNoNul(rest, Single, word + [c]);
        WordsHaveNoNul(rest, Double, word + [c]);
      }
    }
  }

  /** The remote shell gets back exactly the list, whatever is in it but NUL. */
  lemma QuotingRoundTrip(args: seq<string>)
    ensures ShellWords(QuoteAll(args)) == Some(args) <==> forall a | a in args :: '\0' !in a
  {
    if forall a | a in args :: '\0' !in a {
      ListAloneIsRead(args);
    } else {
      WordsHaveNoNul(QuoteAll(args), Between, "");
    }
  }

  // ----- the command lines made this way

  /** guest._wrap_for_node: what is run here, or the ssh command whose last argument is the line. */
  function WrapForNode(node: Option<string>, local: string, argv: seq<string>): seq<string> {
    match node
    case None => argv
    case Some(n) =>
      if n == local then argv
      else ["ssh", "-n", "-o", "StrictHostKeyChecking=no", "-o", "BatchMode=yes", n, QuoteAll(argv)]
  }

  /** What stands before the first blank. */
  function FirstRun(line: string): string {
    if line == "" || IsBlank(line[0]) then "" else [line[0]] + FirstRun(line[1..])
  }

  predicate IsNameStart(c: char) {
    'a' <= c <= 'z' || 'A' <= c <= 'Z' || c == '_'
  }

  /** A name and an equals sign, unquoted: section 2.10.2, rule 7. */
  predicate IsAssignment(s: string) {
    s != "" && IsNameStart(s[0]) && NameThenEquals(s)
  }

  predicate NameThenEquals(s: string) {
    s != "" && (s[0] == '=' || ((IsNameStart(s[0]) || IsDigit(s[0])) && NameThenEquals(s[1..])))
  }

  /** A line whose first word the shell takes for something else than a command's name. */
  predicate StartsOtherwise(line: string, reserved: string -> bool) {
    var first := FirstRun(line);
    IsAssignment(first) || (first != "" && AllSafe(first) && reserved(first))
  }

  /** The command a line runs with its arguments, if all it does is run one; `reserved` has the reserved words. */
  function Runs(line: string, reserved: string -> bool): Option<seq<string>> {
    if StartsOtherwise(line, reserved) then None else ShellWords(line)
  }

  lemma {:induction false} FirstRunOf(s: string, rest: string)
    requires AllSafe(s) && (rest == "" || IsBlank(rest[0]))
    ensures FirstRun(s + rest) == s
  {
    if s == "" {
      assert s + rest == rest;
    } else {
      SafeIsPlain(s[0]);
      assert (s + rest)[1..] == s[1..] + rest;
      FirstRunOf(s[1..], rest);
    }
  }

  /** A first argument that is read as something else: shlex.quote leaves it bare. */
  predicate IsMistaken(argv: seq<string>, reserved: string -> bool) {
    argv != [] && argv[0] != "" && AllSafe(argv[0]) && (IsAssignment(argv[0]) || reserved(argv[0]))
  }

  lemma QuotedStart(argv: seq<string>, reserved: string -> bool)
    ensures StartsOtherwise(QuoteAll(argv), reserved) <==> IsMistaken(argv, reserved)
  {
    if argv != [] {
      var rest := if |argv| == 1 then "" else " " + QuoteAll(argv[1..]);
      assert QuoteAll(argv) == Quote(argv[0]) + rest;
      if argv[0] != "" && AllSafe(argv[0]) {
        FirstRunOf(argv[0], rest);
      } else {
        assert QuoteAll(argv)[0] == '\'';
        assert FirstRun(QuoteAll(argv))[0] == '\'';
      }
    }
  }

  /** The argv that starts on the node in the end: as given, or what its shell runs for the line. */
  function StartsThere(wrapped: seq<string>, node: Option<string>, local: string, reserved: string -> bool): Option<seq<string>> {
    if node.None? || node.value == local then Some(wrapped)
    else if wrapped == [] then None
    else Runs(wrapped[|wrapped| - 1], reserved)
  }

  /**
   Wherever the guest is, the same command runs there, exactly if it is local, or no argument
   has a NUL and the first is none that a shell takes for an assignment or a reserved word.
   */
  lemma WrapRunsTheSame(node: Option<string>, local: string, argv: seq<string>, reserved: string -> bool)
    ensures StartsThere(WrapForNode(node, local, argv), node, local, reserved) == Some(argv) <==>
            || node.None? || node.value == local
            || ((forall a | a in argv :: '\0' !in a) && !IsMistaken(argv, reserved))
  {
    QuotingRoundTrip(argv);
    QuotedStart(argv, reserved);
  }

  /** ssh.run_script: "bash {remote} {quoted}". */
  function ScriptLine(remote: string, args: seq<string>): string {
    "bash " + remote + " " + QuoteAll(args)
  }

  lemma ScriptLineWords(remote: string, args: seq<string>)
    requires remote != "" && AllSafe(remote) && forall a | a in args :: '\0' !in a
    ensures ShellWords(ScriptLine(remote, args)) == Some(["bash", remote] + args)
  {
    var head := ["bash", remote];
    SafeHasNoNul(remote);
    SafeHasNoNul("bash");
    assert head[1..] == [remote];
    assert QuoteAll(head) == "bash " + remote;
    assert forall a | a in head :: '\0' !in a;
    ListIsRead(head, QuoteAll(args));
    ListAloneIsRead(args);
  }

  /** A script gets its arguments as they were given, also when there are none, whatever they look like. */
  lemma ScriptGetsItsArguments(remote: string, args: seq<string>, reserved: string -> bool)
    requires remote != "" && AllSafe(remote) && (forall a | a in args :: '\0' !in a) && !reserved("bash")
    ensures Runs(ScriptLine(remote, args), reserved) == Some(["bash", remote] + args)
  {
    var bash := "bash";
    assert ScriptLine(remote, args) == bash + (" " + remote + " " + QuoteAll(args));
    FirstRunOf(bash, " " + remote + " " + QuoteAll(args));
    NoEqualsNoAssignment(bash);
    ScriptLineWords(remote, args);
  }

  lemma {:induction false} NoEqualsNoAssignment(s: string)
    requires '=' !in s
    ensures !NameThenEquals(s)
  {
    if s != "" {
      NoEqualsNoAssignment(s[1..]);
    }
  }

  lemma SafeHasNoNul(s: string)
    requires AllSafe(s)
    ensures '\0' !in s
  {
  }

  lemma {:induction false} SafeListIsItself(words: seq<string>)
    requires forall w | w in words :: w != "" && AllSafe(w)
    ensures QuoteAll(words) == Join(words, ' ')
  {
    if words != [] {
      assert words[0] in words;
      if |words| > 1 {
        assert forall w | w in words[1..] :: w in words;
        SafeListIsItself(words[1..]);
      }
    }
  }

  lemma {:induction false} NothingToEscape(s: string)
    requires '\'' !in s
    ensures EscapeQuotes(s) == s
  {
    if s != "" {
      NothingToEscape(s[1..]);
      assert s == [s[0]] + s[1..];
    }
  }

  /** How a line may spell a fixed word: in single quotes, if it has none, or bare, if all its characters are safe. */
  predicate IsSpelling(spelling: string, word: string) {
    || (spelling == "'" + word + "'" && '\'' !in word && '\0' !in word)
    || (spelling == word && word != "" && AllSafe(word))
  }

  lemma SpellingIsRead(spelling: string, word: string, more: string)
    requires IsSpelling(spelling, word)
    ensures ShellWords(spelling + " " + more) == Prepend(word, ShellWords(more))
  {
    assert (" " + more)[1..] == more && "" + word == word;
    if spelling == word && word != "" && AllSafe(word) {
      SafeIsRead(word, " " + more, Between, "");
      assert spelling + " " + more == word + (" " + more);
    } else {
      NothingToEscape(word);
      assert spelling + " " + more == "'" + (EscapeQuotes(word) + "'" + (" " + more));
      QuoteOpens(EscapeQuotes(word) + "'" + (" " + more));
      EscapedIsRead(word, " " + more, "");
    }
  }

  /**
   The line run_suites gives a node for one test file: fixed bare words, the caller's options,
   -m with an expression, and the file. The expression is quoted for a profile's run, 'not
   crossstorage', and bare for the cross pass.
   */
  function PytestLine(head: seq<string>, extra: seq<string>, option: string, spelling: string, path: string): string {
    Join(head, ' ') + " " + (QuoteAll(extra) + " " + (option + " " + (spelling + " " + Quote(path))))
  }

  /** Whatever options the caller adds, the expression stays one word and the file comes last. */
  lemma PytestLineIsRead(head: seq<string>, extra: seq<string>, option: string, spelling: string, expression: string, path: string)
    requires forall w | w in head :: w != "" && AllSafe(w)
    requires forall a | a in extra :: '\0' !in a
    requires option != "" && AllSafe(option) && '\0' !in path && IsSpelling(spelling, expression)
    ensures ShellWords(PytestLine(head, extra, option, spelling, path)) ==
            Some(head + (extra + ([option] + ([expression] + [path]))))
  {
    SafeListIsItself(head);
    forall w | w in head ensures '\0' !in w {
      SafeHasNoNul(w);
    }
    var last := spelling + " " + Quote(path);
    assert QuoteAll([path]) == Quote(path);
    ListAloneIsRead([path]);
    SpellingIsRead(spelling, expression, Quote(path));
    SpellingIsRead(option, option, last);
    assert option + " " + last == option + " " + (spelling + " " + Quote(path));
    ListIsRead(extra, option + " " + last);
    ListIsRead(head, QuoteAll(extra) + " " + (option + " " + last));
  }

  /** Both of the expressions there are are spelled so. */
  lemma BothMarkersAreSpelled(bare: string, quoted: string)
    requires bare == "crossstorage" && quoted == "not crossstorage"
    ensures IsSpelling(bare, bare) && IsSpelling("'" + quoted + "'", quoted)
  {
  }
}
