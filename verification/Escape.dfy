// Output escaping for Cypher literals and XML text: crates/habitat-graph-export/src/escape.rs.

module Escape {
  import opened Lists
  import opened Schema

  // ---------------------------------------------------------------- Cypher

  function CypherEscapeChar(c: char): string {
    if c == '\\' then ['\\', '\\']
    else if c == '\'' then ['\\', '\'']
    else if c == '\n' then ['\\', 'n']
    else if c == '\r' then ['\\', 'r']
    else if c == '\t' then ['\\', 't']
    else if c as int < 0x20 then []
    else [c]
  }

  function CypherEscaped(s: string): string {
    FlatMap(CypherEscapeChar, s)
  }

  method CypherEscape(input: string) returns (out: string)
    ensures out == CypherEscaped(input)
  {
    out := "";
    for i := 0 to |input|
      invariant out == CypherEscaped(input[..i])
    {
      var c := input[i];
      assert input[..i + 1] == input[..i] + [c];
      Snoc(input[..i], c);
      if c == '\\' { out := out + ['\\', '\\']; }
      else if c == '\'' { out := out + ['\\', '\'']; }
      else if c == '\n' { out := out + ['\\', 'n']; }
      else if c == '\r' { out := out + ['\\', 'r']; }
      else if c == '\t' { out := out + ['\\', 't']; }
      else if c as int < 0x20 { out := out + []; }
      else { out := out + [c]; }
    }
    assert input[..|input|] == input;
  }

  /** The characters a Cypher literal keeps. */
  predicate CypherKept(c: char) {
    c as int >= 0x20 || c == '\n' || c == '\r' || c == '\t'
  }

  function CypherClean(s: string): string {
    Filter(CypherKept, s)
  }

  /** What a quoted literal whose opening quote was read says, and what follows its closing quote. */
  datatype Literal = Unterminated | Literal(text: string, rest: string)

  function Unescaped(c: char): Option<char> {
    if c == '\\' then Some('\\')
    else if c == '\'' then Some('\'')
    else if c == 'n' then Some('\n')
    else if c == 'r' then Some('\r')
    else if c == 't' then Some('\t')
    else None
  }

  function WithChar(c: char, l: Literal): Literal {
    if l.Unterminated? then Unterminated else Literal([c] + l.text, l.rest)
  }

  function ReadLiteral(s: string): Literal {
    if s == [] then Unterminated
    else if s[0] == '\'' then Literal([], s[1..])
    else if s[0] == '\\' then
      if |s| < 2 || Unescaped(s[1]).None? then Unterminated
      else WithChar(Unescaped(s[1]).value, ReadLiteral(s[2..]))
    else WithChar(s[0], ReadLiteral(s[1..]))
  }

  /** An escaped string in quotes ends where it was closed and reads back as the original minus
      the dropped control characters: it cannot end the literal early. */
  lemma {:induction false} CypherReadBack(s: string, rest: string)
    ensures ReadLiteral(CypherEscaped(s) + ['\''] + rest) == Literal(CypherClean(s), rest)
  {
    if s == [] {
      assert CypherEscaped(s) + ['\''] + rest == ['\''] + rest;
    } else {
      var c, tail := s[0], CypherEscaped(s[1..]) + ['\''] + rest;
      assert s == [c] + s[1..];
      CypherReadBack(s[1..], rest);
      FlatMapCons(CypherEscapeChar, c, s[1..]);
      FilterCons(CypherKept, c, s[1..]);
      assert CypherEscaped(s) + ['\''] + rest == CypherEscapeChar(c) + tail;
      OneCharBack(c, tail);
    }
  }

  lemma OneCharBack(c: char, tail: string)
    ensures ReadLiteral(CypherEscapeChar(c) + tail) ==
            if CypherKept(c) then WithChar(c, ReadLiteral(tail)) else ReadLiteral(tail)
  {
    var e := CypherEscapeChar(c);
    if e == [] {
      assert e + tail == tail;
    } else if |e| == 2 {
      assert (e + tail)[2..] == tail;
    } else {
      assert (e + tail)[1..] == tail;
    }
  }

  lemma {:induction false} CypherEscapedHasNoControl(s: string)
    ensures forall c :: c in CypherEscaped(s) ==> c as int >= 0x20
  {
    if s == [] {
      assert CypherEscaped(s) == [];
    } else {
      CypherEscapedHasNoControl(Init(s));
      assert CypherEscaped(s) == CypherEscaped(Init(s)) + CypherEscapeChar(Last(s));
    }
  }

  lemma {:induction false} CleanWithoutControls(s: string)
    requires forall c :: c in s ==> c as int >= 0x20
    ensures CypherClean(s) == s
  {
    if s != [] {
      assert s == Init(s) + [Last(s)];
      assert forall c :: c in Init(s) ==> c in s;
      CleanWithoutControls(Init(s));
      assert Last(s) in s;
      assert CypherClean(s) == CypherClean(Init(s)) + [Last(s)];
    }
  }

  // ---------------------------------------------------------------- XML

  function XmlEscapeChar(c: char): string {
    if c == '&' then "&amp;"
    else if c == '<' then "&lt;"
    else if c == '>' then "&gt;"
    else if c == '"' then "&quot;"
    else if c == '\'' then "&apos;"
    else if c == '\t' || c == '\n' || c == '\r' then [c]
    else if c as int < 0x20 then []
    else if c as int == 0xFFFE || c as int == 0xFFFF then []
    else [c]
  }

  function XmlEscaped(s: string): string {
    FlatMap(XmlEscapeChar, s)
  }

  method XmlEscape(input: string) returns (out: string)
    ensures out == XmlEscaped(input)
  {
    out := "";
    for i := 0 to |input|
      invariant out == XmlEscaped(input[..i])
    {
      var c := input[i];
      assert input[..i + 1] == input[..i] + [c];
      Snoc(input[..i], c);
      if c == '&' { out := out + "&amp;"; }
      else if c == '<' { out := out + "&lt;"; }
      else if c == '>' { out := out + "&gt;"; }
      else if c == '"' { out := out + "&quot;"; }
      else if c == '\'' { out := out + "&apos;"; }
      else if c == '\t' || c == '\n' || c == '\r' { out := out + [c]; }
      else if c as int < 0x20 { out := out + []; }
      else if c as int == 0xFFFE || c as int == 0xFFFF { out := out + []; }
      else { out := out + [c]; }
    }
    assert input[..|input|] == input;
  }

  /** The Char production of section 2.2 of XML 1.0. */
  predicate XmlChar(c: char) {
    var n := c as int;
    n == 0x9 || n == 0xA || n == 0xD || 0x20 <= n <= 0xD7FF || 0xE000 <= n <= 0xFFFD || 0x10000 <= n <= 0x10FFFF
  }

  /** The predefined entities of section 4.6 of XML 1.0, and the characters they stand for. */
  const ENTITIES: seq<(string, char)> :=
    [("&amp;", '&'), ("&lt;", '<'), ("&gt;", '>'), ("&quot;", '"'), ("&apos;", '\'')]

  function EntityAt(s: string, i: nat): Option<(string, char)>
    requires i <= |ENTITIES|
    decreases |ENTITIES| - i
  {
    if i == |ENTITIES| then None
    else if ENTITIES[i].0 <= s then Some(ENTITIES[i])
    else EntityAt(s, i + 1)
  }

  /** Character data read back; None where the text is not well formed (section 2.4). */
  function XmlDecode(s: string): Option<string> {
    if s == [] then Some([])
    else if s[0] == '&' then
      var e := EntityAt(s, 0);
      if e.None? || |e.value.0| == 0 || |e.value.0| > |s| then None
      else
        var rest := XmlDecode(s[|e.value.0|..]);
        if rest.None? then None else Some([e.value.1] + rest.value)
    else if s[0] == '<' || s[0] == '>' || s[0] == '"' || s[0] == '\'' || !XmlChar(s[0]) then None
    else
      var rest := XmlDecode(s[1..]);
      if rest.None? then None else Some([s[0]] + rest.value)
  }

  function WithDecoded(c: char, r: Option<string>): Option<string> {
    if r.None? then None else Some([c] + r.value)
  }

  lemma EntityBack(c: char, tail: string)
    requires c == '&' || c == '<' || c == '>' || c == '"' || c == '\''
    ensures XmlDecode(XmlEscapeChar(c) + tail) == WithDecoded(c, XmlDecode(tail))
  {
    var e := XmlEscapeChar(c);
    var s := e + tail;
    assert e <= s && s[|e|..] == tail && s[0] == '&' && s[1] == e[1] && s[2] == e[2];
    assert EntityAt(s, 5).None?;
    assert !("&lt;" <= s) || e == "&lt;" by { assert "&lt;"[1] == 'l' && "&lt;"[2] == 't'; }
    assert EntityAt(s, 0) == Some((e, c)) by {
      if c == '&' { assert "&amp;" <= s; }
      else {
        assert !("&amp;" <= s) by { assert "&amp;"[1] == 'a' && "&amp;"[2] == 'm'; }
        if c == '<' { assert "&lt;" <= s; }
        else {
          assert !("&lt;" <= s);
          if c == '>' { assert "&gt;" <= s; }
          else {
            assert !("&gt;" <= s) by { assert "&gt;"[1] == 'g'; }
            if c == '"' { assert "&quot;" <= s; }
            else { assert !("&quot;" <= s) by { assert "&quot;"[1] == 'q'; } }
          }
        }
      }
    }
  }

  lemma XmlCharBack(c: char, tail: string)
    ensures XmlDecode(XmlEscapeChar(c) + tail) ==
            if XmlChar(c) then WithDecoded(c, XmlDecode(tail)) else XmlDecode(tail)
  {
    if c == '&' || c == '<' || c == '>' || c == '"' || c == '\'' {
      EntityBack(c, tail);
    } else if XmlEscapeChar(c) == [] {
      assert [] + tail == tail;
    } else {
      assert ([c] + tail)[1..] == tail;
    }
  }

  /** Escaped text is well-formed character data and reads back as the input restricted to the
      characters XML 1.0 allows. */
  lemma {:induction false} XmlReadBack(s: string)
    ensures XmlDecode(XmlEscaped(s)) == Some(Filter(XmlChar, s))
  {
    if s == [] {
      assert XmlEscaped(s) == [] && Filter(XmlChar, s) == [];
    } else {
      assert s == [s[0]] + s[1..];
      XmlReadBack(s[1..]);
      FlatMapCons(XmlEscapeChar, s[0], s[1..]);
      FilterCons(XmlChar, s[0], s[1..]);
      XmlCharBack(s[0], XmlEscaped(s[1..]));
      assert XmlEscaped(s) == XmlEscapeChar(s[0]) + XmlEscaped(s[1..]);
      assert Filter(XmlChar, s) == if XmlChar(s[0]) then [s[0]] + Filter(XmlChar, s[1..]) else Filter(XmlChar, s[1..]);
    }
  }

  /** No markup character survives, and every character is legal in XML 1.0. */
  lemma {:induction false} XmlEscapedIsLegal(s: string)
    ensures forall c :: c in XmlEscaped(s) ==> XmlChar(c) && c != '<' && c != '>' && c != '"' && c != '\''
  {
    if s == [] {
      assert XmlEscaped(s) == [];
    } else {
      XmlEscapedIsLegal(Init(s));
      assert XmlEscaped(s) == XmlEscaped(Init(s)) + XmlEscapeChar(Last(s));
    }
  }
}
