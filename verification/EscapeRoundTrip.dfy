/** When unescaping inverts escaping, and when escaping twice is escaping once (base/escape.cc). */
module EscapeRoundTrip {
  import opened Basics
  import opened EscapeUrl
  import opened EscapeCharmaps

  lemma HexRoundTrip(c: Byte)
    ensures IsEscape(EscapedByte(c)) && Decoded(EscapedByte(c)) == c
  {
  }

  /** Every byte may be unescaped under the four rules that inversion needs. */
  lemma AllMayUnescape(b: Byte, rules: Rules)
    requires InvertsEscapes(rules)
    ensures MayUnescape(b, rules)
  {
  }

  // ---- which texts come back ----

  /** '%' and two hex digits, none of which Escape replaces. */
  predicate BareEscape(t: seq<Byte>, charmap: Charmap) {
    IsEscape(t) && !charmap.Contains(t[0]) && !charmap.Contains(t[1]) && !charmap.Contains(t[2])
  }

  /** What becomes of a byte: a space may come back as '+' and a '+' as a space. */
  function ComesBack(c: Byte, charmap: Charmap, usePlus: bool, rules: Rules): Byte {
    if c == SPACE && usePlus && !rules.plus then PLUS
    else if c == PLUS && !charmap.Contains(PLUS) && rules.plus then SPACE
    else c
  }

  predicate SurvivesHere(t: seq<Byte>, charmap: Charmap, usePlus: bool, rules: Rules)
    requires t != []
  {
    !BareEscape(t, charmap) && ComesBack(t[0], charmap, usePlus, rules) == t[0]
  }

  /** No bare escape anywhere, and no byte that the treatment of plus signs changes. */
  predicate Survives(t: seq<Byte>, charmap: Charmap, usePlus: bool, rules: Rules) {
    forall i :: 0 <= i < |t| ==> SurvivesHere(t[i..], charmap, usePlus, rules)
  }

  lemma NothingSurvives(charmap: Charmap, usePlus: bool, rules: Rules)
    ensures Survives([], charmap, usePlus, rules)
  {
  }

  lemma SurvivesStep(t: seq<Byte>, charmap: Charmap, usePlus: bool, rules: Rules)
    requires t != []
    ensures Survives(t, charmap, usePlus, rules) <==>
      SurvivesHere(t, charmap, usePlus, rules) && Survives(t[1..], charmap, usePlus, rules)
  {
    assert t[0..] == t;
    forall i | 0 <= i < |t| - 1 ensures t[1..][i..] == t[i + 1..] {
    }
    if SurvivesHere(t, charmap, usePlus, rules) && Survives(t[1..], charmap, usePlus, rules) {
      forall i | 0 <= i < |t| ensures SurvivesHere(t[i..], charmap, usePlus, rules) {
        if i > 0 {
          assert SurvivesHere(t[1..][i - 1..], charmap, usePlus, rules);
        }
      }
    }
    if Survives(t, charmap, usePlus, rules) {
      forall i | 0 <= i < |t| - 1 ensures SurvivesHere(t[1..][i..], charmap, usePlus, rules) {
        assert SurvivesHere(t[i + 1..], charmap, usePlus, rules);
      }
    }
  }

  /** A hex digit at the start of escaped text was there before. */
  lemma HexIsRaw(t: seq<Byte>, charmap: Charmap, usePlus: bool)
    ensures var e := Escaped(t, charmap, usePlus, false);
      e != [] && IsHexDigit(e[0]) ==>
        t[0] == e[0] && !charmap.Contains(t[0]) && e[1..] == Escaped(t[1..], charmap, usePlus, false)
    ensures t != [] && IsHexDigit(t[0]) && !charmap.Contains(t[0]) ==>
      Escaped(t, charmap, usePlus, false) == [t[0]] + Escaped(t[1..], charmap, usePlus, false)
  {
  }

  /** Escaped text starts with an escape that Escape did not write exactly for a bare escape. */
  lemma BareEscapeStays(t: seq<Byte>, charmap: Charmap, usePlus: bool)
    requires t != [] && t[0] == PERCENT && !charmap.Contains(PERCENT)
    ensures var e := Escaped(t, charmap, usePlus, false);
      (IsEscape(e) <==> BareEscape(t, charmap)) &&
      (IsEscape(e) ==> Decoded(e) == Decoded(t) && e[3..] == Escaped(t[3..], charmap, usePlus, false))
  {
    var e := Escaped(t, charmap, usePlus, false);
    var e1 := Escaped(t[1..], charmap, usePlus, false);
    assert e == [PERCENT] + e1 && e[1..] == e1;
    HexIsRaw(t[1..], charmap, usePlus);
    if |t| > 1 {
      assert t[1..][1..] == t[2..];
      HexIsRaw(t[2..], charmap, usePlus);
      if |t| > 2 {
        assert t[2..][1..] == t[3..];
      }
    }
  }

  /** The unescaper takes an escape that Escape wrote back to the byte. */
  lemma HeadEscaped(c: Byte, rest: seq<Byte>, rules: Rules)
    requires InvertsEscapes(rules)
    ensures Unescaped(EscapedByte(c) + rest, rules) == [c] + Unescaped(rest, rules)
  {
    hide MayUnescape;
    var e := EscapedByte(c) + rest;
    HexRoundTrip(c);
    AllMayUnescape(c, rules);
    assert IsEscape(e) && Decoded(e) == c && e[3..] == rest;
  }

  /** A byte that starts no escape is copied, but for a plus sign that is replaced. */
  lemma HeadCopied(c: Byte, rest: seq<Byte>, rules: Rules)
    requires !IsEscape([c] + rest)
    ensures Unescaped([c] + rest, rules) == [if rules.plus && c == PLUS then SPACE else c] + Unescaped(rest, rules)
  {
    assert ([c] + rest)[1..] == rest;
  }

  lemma HeadBare(t: seq<Byte>, charmap: Charmap, usePlus: bool, rules: Rules)
    requires InvertsEscapes(rules) && BareEscape(t, charmap)
    ensures Unescaped(Escaped(t, charmap, usePlus, false), rules) ==
      [Decoded(t)] + Unescaped(Escaped(t[3..], charmap, usePlus, false), rules)
  {
    hide MayUnescape, HasBit;
    BareEscapeStays(t, charmap, usePlus);
    AllMayUnescape(Decoded(t), rules);
  }

  /** Unescaping what a byte was escaped to. */
  lemma Head(t: seq<Byte>, charmap: Charmap, usePlus: bool, rules: Rules)
    requires t != [] && InvertsEscapes(rules)
    ensures BareEscape(t, charmap) ==>
      Unescaped(Escaped(t, charmap, usePlus, false), rules) ==
      [Decoded(t)] + Unescaped(Escaped(t[3..], charmap, usePlus, false), rules)
    ensures !BareEscape(t, charmap) ==>
      Unescaped(Escaped(t, charmap, usePlus, false), rules) ==
      [ComesBack(t[0], charmap, usePlus, rules)] + Unescaped(Escaped(t[1..], charmap, usePlus, false), rules)
  {
    hide HasBit, FirstRound, IsEscape, Unescaped;
    var first, rest := EscapeFirst(t, charmap, usePlus, false), Escaped(t[1..], charmap, usePlus, false);
    if BareEscape(t, charmap) {
      HeadBare(t, charmap, usePlus, rules);
    } else if first == EscapedByte(t[0]) {
      HeadEscaped(t[0], rest, rules);
    } else {
      if first == [PERCENT] {
        BareEscapeStays(t, charmap, usePlus);
      } else {
        StartsNoEscape(first[0], rest);
      }
      HeadCopied(first[0], rest, rules);
    }
  }

  lemma StartsNoEscape(c: Byte, rest: seq<Byte>)
    requires c != PERCENT
    ensures !IsEscape([c] + rest)
  {
  }

  lemma {:induction false} NoLonger(t: seq<Byte>, charmap: Charmap, usePlus: bool, rules: Rules)
    requires InvertsEscapes(rules)
    ensures |Unescaped(Escaped(t, charmap, usePlus, false), rules)| <= |t|
    decreases |t|
  {
    if t != [] {
      Head(t, charmap, usePlus, rules);
      if BareEscape(t, charmap) {
        NoLonger(t[3..], charmap, usePlus, rules);
      } else {
        NoLonger(t[1..], charmap, usePlus, rules);
      }
    }
  }

  /** For every text, character set and flags: the text comes back exactly when it survives. */
  lemma {:induction false} RoundTripIff(t: seq<Byte>, charmap: Charmap, usePlus: bool, rules: Rules)
    requires InvertsEscapes(rules)
    ensures Unescape(Escaped(t, charmap, usePlus, false), rules) == t <==> Survives(t, charmap, usePlus, rules)
  {
    hide HasBit, FirstRound, EscapeFirst, Survives;
    if t == [] {
      NothingSurvives(charmap, usePlus, rules);
    } else {
      Head(t, charmap, usePlus, rules);
      SurvivesStep(t, charmap, usePlus, rules);
      RoundTripIff(t[1..], charmap, usePlus, rules);
      assert t == [t[0]] + t[1..];
      if BareEscape(t, charmap) {
        NoLonger(t[3..], charmap, usePlus, rules);
      }
    }
  }

  // ---- which character sets bring every text back ----

  /** No '%' that Escape lets through can be followed by two hex digits. */
  predicate PercentSafe(charmap: Charmap) {
    charmap.Contains(PERCENT) || forall c: Byte :: IsHexDigit(c) ==> charmap.Contains(c)
  }

  predicate Invertible(charmap: Charmap, usePlus: bool, rules: Rules) {
    PercentSafe(charmap) && (rules.plus ==> charmap.Contains(PLUS)) && (usePlus ==> rules.plus)
  }

  ghost predicate AlwaysRoundTrips(charmap: Charmap, usePlus: bool, rules: Rules) {
    forall t: seq<Byte> :: Unescape(Escaped(t, charmap, usePlus, false), rules) == t
  }

  lemma RoundTrip(t: seq<Byte>, charmap: Charmap, usePlus: bool, rules: Rules)
    requires InvertsEscapes(rules) && Invertible(charmap, usePlus, rules)
    ensures Unescape(Escaped(t, charmap, usePlus, false), rules) == t
  {
    RoundTripIff(t, charmap, usePlus, rules);
  }

  /** With the four rules, unescaping inverts escaping on all texts if and only if character set and flags fit. */
  lemma AlwaysRoundTripsIff(charmap: Charmap, usePlus: bool, rules: Rules)
    requires InvertsEscapes(rules)
    ensures AlwaysRoundTrips(charmap, usePlus, rules) <==> Invertible(charmap, usePlus, rules)
  {
    if Invertible(charmap, usePlus, rules) {
      forall t: seq<Byte> ensures Unescape(Escaped(t, charmap, usePlus, false), rules) == t {
        RoundTrip(t, charmap, usePlus, rules);
      }
    } else {
      var t := Victim(charmap, usePlus, rules);
      RoundTripIff(t, charmap, usePlus, rules);
    }
  }

  /** A text that does not come back. */
  lemma Victim(charmap: Charmap, usePlus: bool, rules: Rules) returns (t: seq<Byte>)
    requires !Invertible(charmap, usePlus, rules)
    ensures !Survives(t, charmap, usePlus, rules)
  {
    if usePlus && !rules.plus {
      t := [SPACE];
    } else if rules.plus && !charmap.Contains(PLUS) {
      t := [PLUS];
    } else {
      var h: Byte :| IsHexDigit(h) && !charmap.Contains(h);
      t := [PERCENT, h, h];
    }
    assert t[0..] == t && !SurvivesHere(t[0..], charmap, usePlus, rules);
  }

  /** EscapeQueryParamValue, EscapePath and EscapeUrlEncodedData are inverted on every byte string. */
  lemma EscapersRoundTrip(t: seq<Byte>, rules: Rules)
    requires InvertsEscapes(rules)
    ensures Unescape(Escaped(t, QUERY_CHARMAP, false, false), rules) == t
    ensures Unescape(Escaped(t, URL_ESCAPE, false, false), rules) == t
    ensures !rules.plus ==> Unescape(Escaped(t, PATH_CHARMAP, false, false), rules) == t
    ensures rules.plus ==> Unescape(Escaped(t, QUERY_CHARMAP, true, false), rules) == t
    ensures rules.plus ==> Unescape(Escaped(t, URL_ESCAPE, true, false), rules) == t
  {
    PercentAndPlus();
    RoundTrip(t, QUERY_CHARMAP, false, rules);
    RoundTrip(t, URL_ESCAPE, false, rules);
    if rules.plus {
      RoundTrip(t, QUERY_CHARMAP, true, rules);
      RoundTrip(t, URL_ESCAPE, true, rules);
    } else {
      RoundTrip(t, PATH_CHARMAP, false, rules);
    }
  }

  lemma PercentAndPlus()
    ensures QUERY_CHARMAP.Contains(PERCENT) && PATH_CHARMAP.Contains(PERCENT) && URL_ESCAPE.Contains(PERCENT)
    ensures QUERY_CHARMAP.Contains(PLUS) && URL_ESCAPE.Contains(PLUS)
  {
    QueryContents(PERCENT);
    QueryContents(PLUS);
    PathContents(PERCENT);
    UrlContents(PERCENT);
    UrlContents(PLUS);
  }

  /** EscapePath lets '+' through, so with the plus rule exactly the paths without '+' come back. */
  lemma PathWithPlusRule(t: seq<Byte>, rules: Rules)
    requires InvertsEscapes(rules) && rules.plus
    ensures Unescape(Escaped(t, PATH_CHARMAP, false, false), rules) == t <==> PLUS !in t
  {
    hide HasBit, Unescape, Escaped;
    RoundTripIff(t, PATH_CHARMAP, false, rules);
    PathContents(PERCENT);
    PathContents(PLUS);
    forall i | 0 <= i < |t| ensures SurvivesHere(t[i..], PATH_CHARMAP, false, rules) <==> t[i] != PLUS {
    }
    if PLUS in t {
      var i :| 0 <= i < |t| && t[i] == PLUS;
      assert !SurvivesHere(t[i..], PATH_CHARMAP, false, rules);
    }
  }

  /** EscapeNonASCII lets all of ASCII through, so exactly the texts without an escape (or '+') come back. */
  lemma NonAsciiRoundTripIff(t: seq<Byte>, rules: Rules)
    requires InvertsEscapes(rules)
    ensures Unescape(Escaped(t, NON_ASCII_CHARMAP, false, false), rules) == t <==>
      (forall i :: 0 <= i < |t| ==> !IsEscape(t[i..])) && (rules.plus ==> PLUS !in t)
  {
    hide HasBit, Unescape, Escaped;
    RoundTripIff(t, NON_ASCII_CHARMAP, false, rules);
    forall c: Byte ensures NON_ASCII_CHARMAP.Contains(c) <==> c >= 0x80 {
      NonAsciiContents(c);
    }
    forall i | 0 <= i < |t|
      ensures SurvivesHere(t[i..], NON_ASCII_CHARMAP, false, rules) <==>
        !IsEscape(t[i..]) && !(rules.plus && t[i] == PLUS)
    {
    }
    if rules.plus && PLUS in t {
      var i :| 0 <= i < |t| && t[i] == PLUS;
      assert !SurvivesHere(t[i..], NON_ASCII_CHARMAP, false, rules);
    }
  }

  /** "%41" comes back as "A". */
  lemma NonAsciiExample(rules: Rules)
    requires InvertsEscapes(rules)
    ensures Unescape(Escaped([PERCENT, 0x34, 0x31], NON_ASCII_CHARMAP, false, false), rules) != [PERCENT, 0x34, 0x31]
  {
    var t: seq<Byte> := [PERCENT, 0x34, 0x31];
    assert t[0..] == t && IsEscape(t);
    NonAsciiRoundTripIff(t, rules);
  }

  // ---- keeping valid escapes ----

  /** With keep_escaped, a charmap that has '%' but no hex digit makes escaping idempotent. */
  lemma {:induction false} KeepEscapedIdempotent(t: seq<Byte>, charmap: Charmap)
    requires charmap.Contains(PERCENT) && NoHexDigits(charmap)
    ensures Escaped(Escaped(t, charmap, false, true), charmap, false, true) == Escaped(t, charmap, false, true)
  {
    if t != [] {
      var rest := Escaped(t[1..], charmap, false, true);
      KeepEscapedIdempotent(t[1..], charmap);
      if IsEscape(t) {
        HexStays(t[1..], charmap);
        HexStays(t[2..], charmap);
        assert t[1..][1..] == t[2..];
        KeepOne(PERCENT, rest, charmap);
      } else if charmap.Contains(t[0]) {
        KeepEscapedByte(t[0], rest, charmap);
      } else {
        KeepOne(t[0], rest, charmap);
      }
    }
  }

  predicate NoHexDigits(charmap: Charmap) {
    forall c: Byte :: IsHexDigit(c) ==> !charmap.Contains(c)
  }

  lemma KeepEscapedByte(c: Byte, rest: seq<Byte>, charmap: Charmap)
    requires NoHexDigits(charmap)
    ensures Escaped(EscapedByte(c) + rest, charmap, false, true) == EscapedByte(c) + Escaped(rest, charmap, false, true)
  {
    hide HasBit, Escaped;
    HexRoundTrip(c);
    var a, b := IntToHex(c / 16), IntToHex(c % 16);
    var tail := Escaped(rest, charmap, false, true);
    var s2, s3 := [b] + rest, [a] + ([b] + rest);
    assert IsHexDigit(a) && IsHexDigit(b);
    KeepOne(b, rest, charmap);
    KeepOne(a, s2, charmap);
    assert IsEscape([PERCENT] + s3) by { assert ([PERCENT] + s3)[1] == a && ([PERCENT] + s3)[2] == b; }
    KeepOne(PERCENT, s3, charmap);
    assert EscapedByte(c) + rest == [PERCENT] + s3;
    assert EscapedByte(c) + tail == [PERCENT] + ([a] + ([b] + tail));
  }

  /** EscapeExternalHandlerValue applied twice is EscapeExternalHandlerValue applied once. */
  lemma ExternalHandlerIdempotent(t: seq<Byte>)
    ensures var once := Escaped(t, EXTERNAL_HANDLER_CHARMAP, false, true);
      Escaped(once, EXTERNAL_HANDLER_CHARMAP, false, true) == once
  {
    ExternalContents(PERCENT);
    forall c: Byte | IsHexDigit(c) ensures !EXTERNAL_HANDLER_CHARMAP.Contains(c) {
      ExternalContents(c);
    }
    KeepEscapedIdempotent(t, EXTERNAL_HANDLER_CHARMAP);
  }

  lemma HexStays(t: seq<Byte>, charmap: Charmap)
    requires t != [] && IsHexDigit(t[0]) && !charmap.Contains(t[0])
    ensures Escaped(t, charmap, false, true) == [t[0]] + Escaped(t[1..], charmap, false, true)
  {
  }

  lemma KeepOne(c: Byte, rest: seq<Byte>, charmap: Charmap)
    requires IsEscape([c] + rest) || !charmap.Contains(c)
    ensures Escaped([c] + rest, charmap, false, true) == [c] + Escaped(rest, charmap, false, true)
  {
    assert ([c] + rest)[1..] == rest;
  }

  // ---- what keeping valid escapes does to the meaning ----

  /** A valid escape is kept, with its two digits. */
  lemma EscapeKept(t: seq<Byte>, charmap: Charmap)
    requires IsEscape(t) && NoHexDigits(charmap)
    ensures Escaped(t, charmap, false, true) == t[..3] + Escaped(t[3..], charmap, false, true)
  {
    hide HasBit;
    HexStays(t[1..], charmap);
    HexStays(t[2..], charmap);
    assert t[1..][1..] == t[2..] && t[2..][1..] == t[3..];
    assert t[..3] == [t[0]] + ([t[1]] + [t[2]]);
  }

  lemma EscapeDecoded(t: seq<Byte>, rest: seq<Byte>, rules: Rules)
    requires IsEscape(t) && InvertsEscapes(rules)
    ensures Unescaped(t[..3] + rest, rules) == [Decoded(t)] + Unescaped(rest, rules)
  {
    hide MayUnescape;
    var e := t[..3] + rest;
    AllMayUnescape(Decoded(t), rules);
    assert IsEscape(e) && Decoded(e) == Decoded(t) && e[3..] == rest;
  }

  /** The first byte, with and without escaping it: they differ exactly for a plus sign that the rules replace. */
  lemma KeptHead(t: seq<Byte>, charmap: Charmap, rules: Rules)
    requires t != [] && !IsEscape(t) && InvertsEscapes(rules) && charmap.Contains(PERCENT)
    ensures Unescaped(t, rules) == [if rules.plus && t[0] == PLUS then SPACE else t[0]] + Unescaped(t[1..], rules)
    ensures Unescaped(Escaped(t, charmap, false, true), rules) ==
      [if rules.plus && t[0] == PLUS && !charmap.Contains(PLUS) then SPACE else t[0]] +
      Unescaped(Escaped(t[1..], charmap, false, true), rules)
  {
    hide HasBit, Unescaped;
    var rest := Escaped(t[1..], charmap, false, true);
    assert t == [t[0]] + t[1..];
    HeadCopied(t[0], t[1..], rules);
    if charmap.Contains(t[0]) {
      HeadEscaped(t[0], rest, rules);
    } else {
      StartsNoEscape(t[0], rest);
      HeadCopied(t[0], rest, rules);
    }
  }

  /**
   * With keep_escaped, escaping does not change what a text stands for, exactly unless a plus sign is
   * escaped that the rules would have replaced.
   */
  lemma {:induction false} KeepEscapedMeaning(t: seq<Byte>, charmap: Charmap, rules: Rules)
    requires InvertsEscapes(rules) && charmap.Contains(PERCENT) && NoHexDigits(charmap)
    ensures Unescape(Escaped(t, charmap, false, true), rules) == Unescape(t, rules) <==>
      !(rules.plus && charmap.Contains(PLUS) && PLUS in t)
    decreases |t|
  {
    hide HasBit, FirstRound, IsEscape, Decoded, Unescaped;
    if t != [] {
      if IsEscape(t) {
        EscapeHasNoPlus(t);
        var rest := Escaped(t[3..], charmap, false, true);
        EscapeKept(t, charmap);
        EscapeDecoded(t, rest, rules);
        EscapeDecoded(t, t[3..], rules);
        KeepEscapedMeaning(t[3..], charmap, rules);
        ConsEqual(Decoded(t), Unescaped(rest, rules), Decoded(t), Unescaped(t[3..], rules));
      } else {
        var rest := Escaped(t[1..], charmap, false, true);
        KeptHead(t, charmap, rules);
        KeepEscapedMeaning(t[1..], charmap, rules);
        ConsEqual(if rules.plus && t[0] == PLUS && !charmap.Contains(PLUS) then SPACE else t[0], Unescaped(rest, rules),
                  if rules.plus && t[0] == PLUS then SPACE else t[0], Unescaped(t[1..], rules));
        assert t == [t[0]] + t[1..];
      }
    }
  }

  lemma ConsEqual(a: Byte, x: seq<Byte>, b: Byte, y: seq<Byte>)
    ensures [a] + x == [b] + y <==> a == b && x == y
  {
    assert ([a] + x)[0] == a && ([a] + x)[1..] == x && ([b] + y)[0] == b && ([b] + y)[1..] == y;
  }

  lemma EscapeHasNoPlus(t: seq<Byte>)
    requires IsEscape(t)
    ensures |t| >= 3 && t == t[..3] + t[3..] && (PLUS in t <==> PLUS in t[3..])
  {
    assert t[0] != PLUS && t[1] != PLUS && t[2] != PLUS;
  }

  /** EscapeExternalHandlerValue does not change what any text stands for. */
  lemma ExternalHandlerKeepsMeaning(t: seq<Byte>, rules: Rules)
    requires InvertsEscapes(rules)
    ensures Unescape(Escaped(t, EXTERNAL_HANDLER_CHARMAP, false, true), rules) == Unescape(t, rules)
  {
    ExternalContents(PERCENT);
    ExternalContents(PLUS);
    forall c: Byte | IsHexDigit(c) ensures !EXTERNAL_HANDLER_CHARMAP.Contains(c) {
      ExternalContents(c);
    }
    KeepEscapedMeaning(t, EXTERNAL_HANDLER_CHARMAP, rules);
  }
}
