/**
 Reading a JSON string (section 7 of RFC 8259) the way json.loads does, and writing one.
 Of the other JSON values only the first character is looked at here.
 */
module Json {
  import opened Text
  import opened Wrappers

  function HexValue(c: char): (r: Option<nat>)
    ensures r.Some? ==> r.value < 16
  {
    if '0' <= c <= '9' then Some(c as int - '0' as int)
    else if 'a' <= c <= 'f' then Some(c as int - 'a' as int + 10)
    else if 'A' <= c <= 'F' then Some(c as int - 'A' as int + 10)
    else None
  }

  function HexQuad(s: string): (r: Option<nat>)
    ensures r.Some? ==> |s| >= 4 && r.value < 0x10000
  {
    if |s| < 4 then None
    else match (HexValue(s[0]), HexValue(s[1]), HexValue(s[2]), HexValue(s[3]))
      case (Some(a), Some(b), Some(c), Some(d)) => Some(((a * 16 + b) * 16 + c) * 16 + d)
      case _ => None
  }

  const LONE_SURROGATE := '\U{fffd}'

  /** The character after a backslash, and how much of the text spells it. */
  function Escape(s: string): (r: Option<(char, nat)>)
    ensures r.Some? ==> 1 <= r.value.1 <= |s|
  {
    if s == "" then None
    else if s[0] == '"' || s[0] == '\\' || s[0] == '/' then Some((s[0], 1))
    else if s[0] == 'b' then Some(('\U{8}', 1))
    else if s[0] == 'f' then Some(('\U{c}', 1))
    else if s[0] == 'n' then Some(('\n', 1))
    else if s[0] == 'r' then Some(('\r', 1))
    else if s[0] == 't' then Some(('\t', 1))
    else if s[0] == 'u' then
      match HexQuad(s[1..])
      case None => None
      case Some(h) =>
        if h < 0xd800 || h >= 0xe000 then Some((h as char, 5))
        else if h < 0xdc00 && |s| > 7 && s[5..7] == "\\u" then
          match HexQuad(s[7..])
          case Some(l) =>
            if 0xdc00 <= l < 0xe000 then Some(((0x10000 + (h - 0xd800) * 0x400 + (l - 0xdc00)) as char, 11))
            else Some((LONE_SURROGATE, 5))
          case None => Some((LONE_SURROGATE, 5))
        else Some((LONE_SURROGATE, 5))
    else None
  }

  /** What follows the opening quote, up to a closing quote with nothing after it. */
  function Body(s: string): Option<string>
    decreases |s|
  {
    if s == "" || s[0] < ' ' then None
    else if s[0] == '"' then if |s| == 1 then Some("") else None
    else if s[0] == '\\' then
      match Escape(s[1..])
      case None => None
      case Some((c, n)) =>
        match Body(s[1 + n..]) case None => None case Some(rest) => Some([c] + rest)
    else
      match Body(s[1..]) case None => None case Some(rest) => Some([s[0]] + rest)
  }

  datatype Value = Text(text: string) | Data | Malformed

  /** The characters an object, array, number or literal can start with. */
  predicate StartsData(c: char) {
    c in "{[-0123456789tfnNI"
  }

  /**
   json.loads of a text with no white space around it. `isData` decides whether a text that
   starts like a value other than a string is one.
   */
  function Loads(s: string, isData: string -> bool): Value {
    if s == "" then Malformed
    else if s[0] == '"' then match Body(s[1..]) case None => Malformed case Some(v) => Text(v)
    else if StartsData(s[0]) && isData(s) then Data
    else Malformed
  }

  // ----- writing

  function HexDigit(n: nat): char
    requires n < 16
  {
    "0123456789abcdef"[n]
  }

  function EncodeChar(c: char): string {
    if c == '"' || c == '\\' then ['\\', c]
    else if c < ' ' then "\\u00" + [HexDigit(c as int / 16), HexDigit(c as int % 16)]
    else [c]
  }

  function EncodeBody(s: string): string {
    if s == "" then "" else EncodeChar(s[0]) + EncodeBody(s[1..])
  }

  function Quote(s: string): string {
    "\"" + EncodeBody(s) + "\""
  }

  /** A character spelled after a backslash is read as one. */
  lemma SpelledReads(spelling: string, c: char, rest: string)
    requires Escape(spelling + rest) == Some((c, |spelling|))
    ensures Body(['\\'] + spelling + rest) == match Body(rest) case None => None case Some(v) => Some([c] + v)
  {
    var s := ['\\'] + spelling + rest;
    assert s[1..] == spelling + rest && s[1 + |spelling|..] == rest;
  }

  lemma HexDigitReads(n: nat)
    requires n < 16
    ensures HexValue(HexDigit(n)) == Some(n)
  {
  }

  lemma ControlIsSpelled(c: char, rest: string)
    requires c < ' '
    ensures Escape("u00" + [HexDigit(c as int / 16), HexDigit(c as int % 16)] + rest) == Some((c, 5))
  {
    var a, b := c as int / 16, c as int % 16;
    var s := "u00" + [HexDigit(a), HexDigit(b)] + rest;
    HexDigitReads(a);
    HexDigitReads(b);
    var quad := s[1..];
    assert quad[0] == '0' && quad[1] == '0' && quad[2] == HexDigit(a) && quad[3] == HexDigit(b);
    assert HexQuad(quad) == Some(a * 16 + b);
  }

  lemma EncodedCharReads(c: char, rest: string)
    ensures Body(EncodeChar(c) + rest) == match Body(rest) case None => None case Some(v) => Some([c] + v)
  {
    if c == '"' || c == '\\' {
      SpelledReads([c], c, rest);
      assert EncodeChar(c) == ['\\'] + [c];
    } else if c < ' ' {
      var spelling := "u00" + [HexDigit(c as int / 16), HexDigit(c as int % 16)];
      ControlIsSpelled(c, rest);
      SpelledReads(spelling, c, rest);
      assert EncodeChar(c) == ['\\'] + spelling;
    } else {
      assert (EncodeChar(c) + rest)[1..] == rest;
    }
  }

  lemma {:induction false} EncodedBodyReads(s: string)
    ensures Body(EncodeBody(s) + "\"") == Some(s)
  {
    if s == "" {
      assert EncodeBody(s) + "\"" == "\"";
    } else {
      EncodedBodyReads(s[1..]);
      EncodedCharReads(s[0], EncodeBody(s[1..]) + "\"");
      assert EncodeBody(s) + "\"" == EncodeChar(s[0]) + (EncodeBody(s[1..]) + "\"");
      assert s == [s[0]] + s[1..];
    }
  }

  /** Every text, quoted, reads back as itself. */
  lemma QuoteReads(s: string, isData: string -> bool)
    ensures Loads(Quote(s), isData) == Text(s)
  {
    EncodedBodyReads(s);
    assert Quote(s)[1..] == EncodeBody(s) + "\"";
  }

  /** A string is no longer than what spells it. */
  lemma {:induction false} BodyIsShorter(s: string)
    requires Body(s).Some?
    ensures |Body(s).value| < |s|
    decreases |s|
  {
    if s[0] == '\\' {
      BodyIsShorter(s[1 + Escape(s[1..]).value.1..]);
    } else if s[0] != '"' {
      BodyIsShorter(s[1..]);
    }
  }

  predicate NoControl(s: string) {
    forall k | 0 <= k < |s| :: s[k] >= ' '
  }

  lemma EscapeHasNoControl(s: string)
    requires Escape(s).Some?
    ensures NoControl(s[..Escape(s).value.1])
  {
    if s[0] == 'u' {
      var quad := s[1..];
      assert forall k | 0 <= k < 4 :: HexValue(quad[k]).Some? && s[k + 1] == quad[k];
      if Escape(s).value.1 == 11 {
        var low := s[7..];
        assert forall k | 0 <= k < 4 :: HexValue(low[k]).Some? && s[k + 7] == low[k];
        assert s[5] == s[5..7][0] && s[6] == s[5..7][1];
      }
    }
  }

  lemma CleanTogether(a: string, b: string, s: string)
    requires NoControl(a) && NoControl(b) && s == a + b
    ensures NoControl(s)
  {
  }

  /** A JSON string holds no raw control character: in particular no line break. */
  lemma {:induction false} NoRawControl(s: string)
    requires Body(s).Some?
    ensures NoControl(s)
    decreases |s|
  {
    if s[0] == '\\' {
      var n := Escape(s[1..]).value.1;
      EscapeHasNoControl(s[1..]);
      NoRawControl(s[1 + n..]);
      CleanTogether([s[0]], s[1..][..n], s[..1 + n]);
      CleanTogether(s[..1 + n], s[1 + n..], s);
    } else if s[0] != '"' {
      NoRawControl(s[1..]);
      CleanTogether([s[0]], s[1..], s);
    }
  }
}
