/**
 * HTML escaping and its inverse (base/escape.cc), on strings of characters. Only ASCII characters are
 * looked at, so the width of the others does not matter.
 */
module EscapeHtml {

  datatype Entity = Entity(code: string, c: char)

  /** kCharsToEscape and kEscapeToChars. */
  const ENTITIES := [Entity("&lt;", '<'), Entity("&gt;", '>'), Entity("&amp;", '&'), Entity("&quot;", '"'),
                     Entity("&#39;", '\'')]

  /** Position in the table of the character c; the table length if it has none. */
  function EntityOf(c: char, k: nat := 0): (r: nat)
    requires k <= |ENTITIES|
    ensures k <= r <= |ENTITIES|
    ensures r < |ENTITIES| ==> ENTITIES[r].c == c
    ensures r == |ENTITIES| ==> forall j :: k <= j < |ENTITIES| ==> ENTITIES[j].c != c
    decreases |ENTITIES| - k
  {
    if k == |ENTITIES| || ENTITIES[k].c == c then k else EntityOf(c, k + 1)
  }

  function EscapedChar(c: char): string {
    if EntityOf(c) < |ENTITIES| then ENTITIES[EntityOf(c)].code else [c]
  }

  function Escaped(s: string): string {
    if s == [] then [] else EscapedChar(s[0]) + Escaped(s[1..])
  }

  method AppendEscapedCharForHTML(c: char, output: string) returns (output': string)
    ensures output' == output + EscapedChar(c)
  {
    var k := 0;
    while k < |ENTITIES|
      invariant 0 <= k <= |ENTITIES| && EntityOf(c) >= k
    {
      if c == ENTITIES[k].c {
        assert EntityOf(c) == k by { FirstEntity(c, k); }
        return output + ENTITIES[k].code;
      }
      assert EntityOf(c) > k by { assert EntityOf(c) != k; }
      k := k + 1;
    }
    output' := output + [c];
  }

  /** The characters of the table are distinct. */
  lemma FirstEntity(c: char, k: nat)
    requires k < |ENTITIES| && ENTITIES[k].c == c
    ensures EntityOf(c) == k
  {
    assert ENTITIES[0].c == '<' && ENTITIES[1].c == '>' && ENTITIES[2].c == '&' &&
           ENTITIES[3].c == '"' && ENTITIES[4].c == '\'';
  }

  method EscapeForHTML(input: string) returns (result: string)
    ensures result == Escaped(input)
  {
    result := [];
    assert input[0..] == input;
    for i := 0 to |input|
      invariant Escaping(input, i, result)
    {
      EscapingStep(input, i, result);
      result := AppendEscapedCharForHTML(input[i], result);
    }
    assert input[|input|..] == [];
  }

  ghost predicate Escaping(input: string, i: nat, result: string) {
    i <= |input| && result + Escaped(input[i..]) == Escaped(input)
  }

  lemma EscapingStep(input: string, i: nat, result: string)
    requires Escaping(input, i, result) && i < |input|
    ensures Escaping(input, i + 1, result + EscapedChar(input[i]))
  {
    var first, rest := EscapedChar(input[i]), Escaped(input[i + 1..]);
    assert input[i..][1..] == input[i + 1..];
    assert result + (first + rest) == (result + first) + rest;
  }

  // ---- unescaping ----

  /** The first entity of the table, from k on, whose code starts s; the table length if none does. */
  function CodeAt(s: string, k: nat := 0): (r: nat)
    requires k <= |ENTITIES|
    ensures k <= r <= |ENTITIES|
    ensures r < |ENTITIES| ==> ENTITIES[r].code <= s
    ensures forall j :: k <= j < r ==> !(ENTITIES[j].code <= s)
    decreases |ENTITIES| - k
  {
    if k == |ENTITIES| || ENTITIES[k].code <= s then k else CodeAt(s, k + 1)
  }

  function UnescapedFirst(s: string): (r: (char, nat))
    requires s != []
    ensures 0 < r.1 <= |s|
  {
    var k := CodeAt(s);
    if k < |ENTITIES| then
      assert |ENTITIES[k].code| > 0 by { CodesNonEmpty(k); }
      (ENTITIES[k].c, |ENTITIES[k].code|)
    else (s[0], 1)
  }

  lemma CodesNonEmpty(k: nat)
    requires k < |ENTITIES|
    ensures |ENTITIES[k].code| >= 4 && ENTITIES[k].code[0] == '&' && '&' !in ENTITIES[k].code[1..]
  {
    assert ENTITIES[0].code == "&lt;" && ENTITIES[1].code == "&gt;" && ENTITIES[2].code == "&amp;";
    assert ENTITIES[3].code == "&quot;" && ENTITIES[4].code == "&#39;";
  }

  function Unescaped(s: string): string
    decreases |s|
  {
    if s == [] then [] else [UnescapedFirst(s).0] + Unescaped(s[UnescapedFirst(s).1..])
  }

  /** Replaces, in place, the code that starts at index i, if one does. */
  method ReplaceAt(text: string, i: nat) returns (text': string)
    requires i < |text| && text[i] == '&'
    ensures var (c, n) := UnescapedFirst(text[i..]);
      text' == text[..i] + [c] + text[i + n..]
  {
    var k := 0;
    while k < |ENTITIES|
      invariant 0 <= k <= |ENTITIES| && CodeAt(text[i..]) >= k
    {
      var code := ENTITIES[k].code;
      PrefixAt(text, i, code);
      if i + |code| <= |text| && text[i..i + |code|] == code {
        return text[..i] + [ENTITIES[k].c] + text[i + |code|..];
      }
      k := k + 1;
    }
    text' := text;
    assert text == text[..i] + [text[i]] + text[i + 1..];
  }

  lemma PrefixAt(text: string, i: nat, code: string)
    requires i <= |text|
    ensures code <= text[i..] <==> i + |code| <= |text| && text[i..i + |code|] == code
  {
    assert i + |code| <= |text| ==> text[i..][..|code|] == text[i..i + |code|];
  }

  method UnescapeForHTML(input: string) returns (text: string)
    ensures text == Unescaped(input)
  {
    if '&' !in input {
      PlainStays(input);
      return input;
    }
    hide *;
    text := input;
    var iter := 0;
    UnescapingStart(input);
    while iter != |text|
      invariant iter <= |text| && Unescaping(input, text, iter)
      decreases |text| - iter
    {
      ghost var was := text;
      if text[iter] == '&' {
        text := ReplaceAt(text, iter);
      } else {
        Unchanged(text, iter);
        NoCode(text[iter..]);
      }
      StepForward(input, was, iter, text);
      iter := iter + 1;
    }
    UnescapingEnd(input, text);
  }

  /** Loop state: the text before iter is final, the rest is still to be unescaped. */
  ghost predicate Unescaping(input: string, text: string, iter: nat) {
    iter <= |text| && text[..iter] + Unescaped(text[iter..]) == Unescaped(input)
  }

  lemma UnescapingStart(input: string)
    ensures Unescaping(input, input, 0)
  {
    assert input[0..] == input && input[..0] == [];
  }

  lemma UnescapingEnd(input: string, text: string)
    requires Unescaping(input, text, |text|)
    ensures text == Unescaped(input)
  {
    assert text[..|text|] == text && text[|text|..] == [];
  }

  lemma NothingUnescaped()
    ensures Unescaped([]) == []
  {
  }

  lemma Unchanged(text: string, i: nat)
    requires i < |text|
    ensures text == text[..i] + [text[i]] + text[i + 1..] && text[i..] != [] && text[i..][0] == text[i]
  {
  }

  lemma StepForward(input: string, was: string, i: nat, text: string)
    requires Unescaping(input, was, i) && i < |was|
    requires var (c, n) := UnescapedFirst(was[i..]); text == was[..i] + [c] + was[i + n..]
    ensures Unescaping(input, text, i + 1) && i + 1 <= |text| && |text| - (i + 1) < |was| - i
  {
    hide UnescapedFirst;
    var (c, n) := UnescapedFirst(was[i..]);
    assert was[i..][n..] == was[i + n..];
    assert text[..i + 1] == was[..i] + [c] && text[i + 1..] == was[i + n..];
    var tail := Unescaped(text[i + 1..]);
    assert (was[..i] + [c]) + tail == was[..i] + ([c] + tail);
  }

  /** Only '&' starts a code. */
  lemma NoCode(s: string)
    requires s != [] && s[0] != '&'
    ensures UnescapedFirst(s) == (s[0], 1)
  {
    forall k | 0 <= k < |ENTITIES| ensures !(ENTITIES[k].code <= s) {
      CodesNonEmpty(k);
    }
  }

  lemma {:induction false} PlainStays(s: string)
    requires '&' !in s
    ensures Unescaped(s) == s
    decreases |s|
  {
    hide UnescapedFirst;
    if s != [] {
      NoCode(s);
      PlainStays(s[1..]);
      assert s == [s[0]] + s[1..];
    }
  }

  // ---- the pair ----

  /** No code of the table is a prefix of another. */
  lemma CodeDecided(k: nat, rest: string)
    requires k < |ENTITIES|
    ensures CodeAt(ENTITIES[k].code + rest) == k
  {
    var s := ENTITIES[k].code + rest;
    assert s[1] == ENTITIES[k].code[1] && s[2] == ENTITIES[k].code[2];
    assert ENTITIES[k].code <= s;
    assert ENTITIES[0].code[1] == 'l' && ENTITIES[1].code[1] == 'g' && ENTITIES[2].code[1] == 'a' &&
           ENTITIES[3].code[1] == 'q' && ENTITIES[4].code[1] == '#';
    var r := CodeAt(s);
    assert r < |ENTITIES| ==> ENTITIES[r].code[1] == s[1];
  }

  /** Unescaping inverts escaping on every string. */
  lemma {:induction false} HtmlRoundTrip(s: string)
    ensures Unescaped(Escaped(s)) == s
  {
    hide Unescaped, EscapedChar;
    if s == [] {
      assert Unescaped([]) == [] by { NothingUnescaped(); }
    } else {
      HtmlRoundTrip(s[1..]);
      FirstComesBack(s[0], Escaped(s[1..]));
      assert s == [s[0]] + s[1..];
    }
  }

  lemma FirstComesBack(c: char, rest: string)
    ensures Unescaped(EscapedChar(c) + rest) == [c] + Unescaped(rest)
  {
    var first, k := EscapedChar(c), EntityOf(c);
    if k < |ENTITIES| {
      CodeDecided(k, rest);
    } else {
      assert ENTITIES[2].c == '&';
      NoCode(first + rest);
    }
    assert (first + rest)[|first|..] == rest;
  }

  /** Nothing the escaper emits can open or close a tag or an attribute value. */
  lemma {:induction false} EscapedIsInert(s: string)
    ensures forall c :: c in {'<', '>', '"', '\''} ==> c !in Escaped(s)
  {
    if s != [] {
      EscapedIsInert(s[1..]);
      CharIsInert(s[0]);
    }
  }

  lemma CharIsInert(c: char)
    ensures forall d :: d in {'<', '>', '"', '\''} ==> d !in EscapedChar(c)
  {
    assert ENTITIES[0].code == "&lt;" && ENTITIES[1].code == "&gt;" && ENTITIES[2].code == "&amp;";
    assert ENTITIES[3].code == "&quot;" && ENTITIES[4].code == "&#39;";
    assert ENTITIES[0].c == '<' && ENTITIES[1].c == '>' && ENTITIES[3].c == '"' && ENTITIES[4].c == '\'';
  }
}
