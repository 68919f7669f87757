/** Percent-escaping and unescaping of byte strings (base/escape.cc). */
module EscapeUrl {
  import opened Basics

  const PERCENT: Byte := 0x25
  const PLUS: Byte := 0x2B
  const SPACE: Byte := 0x20
  const SLASH: Byte := 0x2F
  const BACKSLASH: Byte := 0x5C

  // ---- hex digits ----

  function IntToHex(i: nat): Byte
    requires i < 16
  {
    if i < 10 then 0x30 + i else 0x41 + (i - 10)
  }

  predicate IsHexDigit(c: Byte) {
    0x30 <= c <= 0x39 || 0x41 <= c <= 0x46 || 0x61 <= c <= 0x66
  }

  function HexDigitToInt(c: Byte): (i: nat)
    requires IsHexDigit(c)
    ensures i < 16
  {
    if c <= 0x39 then c - 0x30 else if c <= 0x46 then c - 0x41 + 10 else c - 0x61 + 10
  }

  /** IsEscape(t): t starts with '%' and two hex digits; Decoded is the byte they stand for. */
  predicate IsEscape(t: seq<Byte>) {
    |t| >= 3 && t[0] == PERCENT && IsHexDigit(t[1]) && IsHexDigit(t[2])
  }

  function Decoded(t: seq<Byte>): Byte
    requires IsEscape(t)
  {
    HexDigitToInt(t[1]) * 16 + HexDigitToInt(t[2])
  }

  // ---- escaping ----

  /** A set of bytes as 256 bits in eight 32-bit words. */
  datatype Charmap = Charmap(words: seq<bv32>) {
    predicate Contains(c: Byte) {
      c / 32 < |words| && HasBit(words[c / 32], c % 32)
    }
  }

  /** word & (1 << k) is not zero. */
  predicate HasBit(word: bv32, k: nat) {
    (k == 0 && word & 0x1 != 0) || (k == 1 && word & 0x2 != 0) || (k == 2 && word & 0x4 != 0) ||
    (k == 3 && word & 0x8 != 0) || (k == 4 && word & 0x10 != 0) || (k == 5 && word & 0x20 != 0) ||
    (k == 6 && word & 0x40 != 0) || (k == 7 && word & 0x80 != 0) || (k == 8 && word & 0x100 != 0) ||
    (k == 9 && word & 0x200 != 0) || (k == 10 && word & 0x400 != 0) || (k == 11 && word & 0x800 != 0) ||
    (k == 12 && word & 0x1000 != 0) || (k == 13 && word & 0x2000 != 0) || (k == 14 && word & 0x4000 != 0) ||
    (k == 15 && word & 0x8000 != 0) || (k == 16 && word & 0x10000 != 0) || (k == 17 && word & 0x20000 != 0) ||
    (k == 18 && word & 0x40000 != 0) || (k == 19 && word & 0x80000 != 0) || (k == 20 && word & 0x100000 != 0) ||
    (k == 21 && word & 0x200000 != 0) || (k == 22 && word & 0x400000 != 0) || (k == 23 && word & 0x800000 != 0) ||
    (k == 24 && word & 0x1000000 != 0) || (k == 25 && word & 0x2000000 != 0) || (k == 26 && word & 0x4000000 != 0) ||
    (k == 27 && word & 0x8000000 != 0) || (k == 28 && word & 0x10000000 != 0) || (k == 29 && word & 0x20000000 != 0) ||
    (k == 30 && word & 0x40000000 != 0) || (k == 31 && word & 0x80000000 != 0)
  }

  const QUERY_CHARMAP := Charmap([0xffff_ffff, 0xfc00_987d, 0x7800_0001, 0xb800_0001,
                                  0xffff_ffff, 0xffff_ffff, 0xffff_ffff, 0xffff_ffff])
  const PATH_CHARMAP := Charmap([0xffff_ffff, 0xd400_002d, 0x7800_0000, 0xb800_0001,
                                 0xffff_ffff, 0xffff_ffff, 0xffff_ffff, 0xffff_ffff])
  const URL_ESCAPE := Charmap([0xffff_ffff, 0xf800_08fd, 0x7800_0001, 0xb800_0001,
                               0xffff_ffff, 0xffff_ffff, 0xffff_ffff, 0xffff_ffff])
  const NON_ASCII_CHARMAP := Charmap([0, 0, 0, 0,
                                      0xffff_ffff, 0xffff_ffff, 0xffff_ffff, 0xffff_ffff])
  const EXTERNAL_HANDLER_CHARMAP := Charmap([0xffff_ffff, 0x5000_0025, 0x5000_0000, 0xb800_0001,
                                             0xffff_ffff, 0xffff_ffff, 0xffff_ffff, 0xffff_ffff])

  function EscapedByte(c: Byte): seq<Byte> {
    [PERCENT, IntToHex(c / 16), IntToHex(c % 16)]
  }

  /** What Escape appends for the first byte of t. */
  function EscapeFirst(t: seq<Byte>, charmap: Charmap, usePlus: bool, keepEscaped: bool): seq<Byte>
    requires t != []
  {
    if usePlus && t[0] == SPACE then [PLUS]
    else if keepEscaped && IsEscape(t) then [PERCENT]
    else if charmap.Contains(t[0]) then EscapedByte(t[0])
    else [t[0]]
  }

  function Escaped(t: seq<Byte>, charmap: Charmap, usePlus: bool, keepEscaped: bool): seq<Byte> {
    if t == [] then []
    else EscapeFirst(t, charmap, usePlus, keepEscaped) + Escaped(t[1..], charmap, usePlus, keepEscaped)
  }

  /** The body of Escape's loop: what is pushed for the byte at i. */
  method EscapeAt(text: seq<Byte>, i: nat, charmap: Charmap, usePlus: bool, keepEscaped: bool)
    returns (piece: seq<Byte>)
    requires i < |text|
    ensures piece == EscapeFirst(text[i..], charmap, usePlus, keepEscaped)
  {
    var c := text[i];
    if usePlus && c == SPACE {
      piece := [PLUS];
    } else if keepEscaped && c == PERCENT && i + 2 < |text| && IsHexDigit(text[i + 1]) && IsHexDigit(text[i + 2]) {
      piece := [PERCENT];
    } else if charmap.Contains(c) {
      piece := [PERCENT, IntToHex(c / 16), IntToHex(c % 16)];
    } else {
      piece := [c];
    }
  }

  method Escape(text: seq<Byte>, charmap: Charmap, usePlus: bool, keepEscaped: bool) returns (escaped: seq<Byte>)
    ensures escaped == Escaped(text, charmap, usePlus, keepEscaped)
  {
    escaped := [];
    assert text[0..] == text;
    for i := 0 to |text|
      invariant escaped + Escaped(text[i..], charmap, usePlus, keepEscaped) ==
        Escaped(text, charmap, usePlus, keepEscaped)
    {
      var piece := EscapeAt(text, i, charmap, usePlus, keepEscaped);
      assert text[i..][1..] == text[i + 1..];
      Reassociate(escaped, piece, Escaped(text[i + 1..], charmap, usePlus, keepEscaped));
      escaped := escaped + piece;
    }
    assert text[|text|..] == [];
  }

  lemma Reassociate<T>(a: seq<T>, b: seq<T>, c: seq<T>)
    ensures a + (b + c) == (a + b) + c
  {
  }

  // ---- unescaping ----

  /** The flags of UnescapeRule; NONE is no flag at all. */
  datatype Rules = Rules(normal: bool, spaces: bool, pathSeparators: bool, urlSpecial: bool, spoofing: bool, plus: bool)

  const NO_RULES := Rules(false, false, false, false, false, false)

  predicate InvertsEscapes(rules: Rules) {
    rules.spaces && rules.pathSeparators && rules.urlSpecial && rules.spoofing
  }

  /** The table kUrlUnescape: letters, digits and "-<>_~ are always unescaped. */
  predicate AlwaysUnescaped(c: Byte) {
    0x30 <= c <= 0x39 || 0x41 <= c <= 0x5A || 0x61 <= c <= 0x7A || c in {0x22, 0x2D, 0x3C, 0x3E, 0x5F, 0x7E}
  }

  predicate MayUnescape(b: Byte, rules: Rules) {
    b >= 0x80 || AlwaysUnescaped(b) ||
    (b == SPACE && rules.spaces) ||
    ((b == SLASH || b == BACKSLASH) && rules.pathSeparators) ||
    (b > SPACE && b != SLASH && b != BACKSLASH && rules.urlSpecial) ||
    (b < SPACE && rules.spoofing)
  }

  /** The k-th escape of a run of escapes at the start of t is present and stands for a byte in s. */
  predicate EscapeIn(t: seq<Byte>, k: nat, s: set<int>) {
    |t| >= 3 * k && IsEscape(t[3 * k..]) && Decoded(t[3 * k..]) in s
  }

  predicate HasArabicLanguageMark(t: seq<Byte>) {
    EscapeIn(t, 0, {0xD8}) && EscapeIn(t, 1, {0x9C})
  }

  predicate HasThreeByteBidiControl(t: seq<Byte>) {
    EscapeIn(t, 0, {0xE2}) &&
    ((EscapeIn(t, 1, {0x80}) && EscapeIn(t, 2, {0x8E, 0x8F, 0xAA, 0xAB, 0xAC, 0xAD, 0xAE})) ||
     (EscapeIn(t, 1, {0x81}) && EscapeIn(t, 2, {0xA6, 0xA7, 0xA8, 0xA9})))
  }

  predicate HasFourByteBanned(t: seq<Byte>) {
    EscapeIn(t, 0, {0xF0}) && EscapeIn(t, 1, {0x9F}) && EscapeIn(t, 2, {0x94}) &&
    EscapeIn(t, 3, {0x8F, 0x90, 0x92, 0x93})
  }

  /** One round of the loop at the start of t: what is appended, how much is consumed. */
  datatype Round = Round(emitted: seq<Byte>, consumed: nat, unescaped: bool)

  function FirstRound(t: seq<Byte>, rules: Rules): (r: Round)
    requires t != []
    ensures 0 < r.consumed <= |t|
  {
    if t[0] >= 0x80 then Round([t[0]], 1, false)
    else if IsEscape(t) then
      if !rules.spoofing && HasArabicLanguageMark(t) then Round(t[..6], 6, false)
      else if !rules.spoofing && HasThreeByteBidiControl(t) then Round(t[..9], 9, false)
      else if !rules.spoofing && HasFourByteBanned(t) then Round(t[..12], 12, false)
      else if MayUnescape(Decoded(t), rules) then Round([Decoded(t)], 3, true)
      else Round([PERCENT], 1, false)
    else if rules.plus && t[0] == PLUS then Round([SPACE], 1, false)
    else Round([t[0]], 1, false)
  }

  function Unescaped(t: seq<Byte>, rules: Rules): seq<Byte>
    decreases |t|
  {
    if t == [] then []
    else var r := FirstRound(t, rules); r.emitted + Unescaped(t[r.consumed..], rules)
  }

  /** Positions, counted from base, of the escapes replaced: the adjustments (i, 3, 1). */
  function Adjusted(t: seq<Byte>, rules: Rules, base: nat): seq<nat>
    decreases |t|
  {
    if t == [] then []
    else
      var r := FirstRound(t, rules);
      (if r.unescaped then [base] else []) + Adjusted(t[r.consumed..], rules, base + r.consumed)
  }

  method UnescapeUnsignedCharAtIndex(text: seq<Byte>, index: nat) returns (ok: bool, value: Byte)
    ensures ok <==> index <= |text| && IsEscape(text[index..])
    ensures ok ==> value == Decoded(text[index..])
  {
    value := 0;
    if index + 2 >= |text| {
      return false, value;
    }
    if text[index] != PERCENT {
      return false, value;
    }
    var most, least := text[index + 1], text[index + 2];
    if IsHexDigit(most) && IsHexDigit(least) {
      return true, HexDigitToInt(most) * 16 + HexDigitToInt(least);
    }
    ok := false;
  }

  /** The escape k places after index, decided the way the HasXxxAtIndex helpers do. */
  method EscapeAtIndexIn(text: seq<Byte>, index: nat, k: nat, s: set<int>) returns (r: bool)
    requires index <= |text|
    ensures r <==> EscapeIn(text[index..], k, s)
  {
    var ok, value := UnescapeUnsignedCharAtIndex(text, index + 3 * k);
    r := ok && value in s;
    if |text| >= index + 3 * k {
      assert text[index..][3 * k..] == text[index + 3 * k..];
    }
  }

  method HasArabicLanguageMarkAtIndex(text: seq<Byte>, firstByte: Byte, index: nat) returns (r: bool)
    requires index <= |text| && IsEscape(text[index..]) && firstByte == Decoded(text[index..])
    ensures r <==> HasArabicLanguageMark(text[index..])
  {
    assert text[index..][0..] == text[index..];
    if firstByte != 0xD8 {
      return false;
    }
    r := EscapeAtIndexIn(text, index, 1, {0x9C});
  }

  method HasThreeByteBidiControlCharAtIndex(text: seq<Byte>, firstByte: Byte, index: nat) returns (r: bool)
    requires index <= |text| && IsEscape(text[index..]) && firstByte == Decoded(text[index..])
    ensures r <==> HasThreeByteBidiControl(text[index..])
  {
    assert text[index..][0..] == text[index..];
    if firstByte != 0xE2 {
      return false;
    }
    var is80 := EscapeAtIndexIn(text, index, 1, {0x80});
    var is81 := EscapeAtIndexIn(text, index, 1, {0x81});
    if !is80 && !is81 {
      return false;
    }
    if is80 {
      r := EscapeAtIndexIn(text, index, 2, {0x8E, 0x8F, 0xAA, 0xAB, 0xAC, 0xAD, 0xAE});
    } else {
      r := EscapeAtIndexIn(text, index, 2, {0xA6, 0xA7, 0xA8, 0xA9});
    }
  }

  method HasFourByteBannedCharAtIndex(text: seq<Byte>, firstByte: Byte, index: nat) returns (r: bool)
    requires index <= |text| && IsEscape(text[index..]) && firstByte == Decoded(text[index..])
    ensures r <==> HasFourByteBanned(text[index..])
  {
    assert text[index..][0..] == text[index..];
    if firstByte != 0xF0 {
      return false;
    }
    var second := EscapeAtIndexIn(text, index, 1, {0x9F});
    if !second {
      return false;
    }
    var third := EscapeAtIndexIn(text, index, 2, {0x94});
    if !third {
      return false;
    }
    r := EscapeAtIndexIn(text, index, 3, {0x8F, 0x90, 0x92, 0x93});
  }

  /** The body of the unescaping loop at index i. */
  method UnescapeAt(text: seq<Byte>, i: nat, rules: Rules) returns (r: Round)
    requires i < |text|
    ensures r == FirstRound(text[i..], rules)
  {
    if text[i] >= 128 {
      return Round([text[i]], 1, false);
    }
    var ok, firstByte := UnescapeUnsignedCharAtIndex(text, i);
    if ok {
      if !rules.spoofing {
        r := KeepBanned(text, i, firstByte);
        if r.consumed > 0 {
          return;
        }
      }
      if MayUnescape(firstByte, rules) {
        r := Round([firstByte], 3, true);
      } else {
        r := Round([PERCENT], 1, false);
      }
    } else if rules.plus && text[i] == PLUS {
      r := Round([SPACE], 1, false);
    } else {
      r := Round([text[i]], 1, false);
    }
  }

  /** The three checks for sequences that stay escaped; consumes nothing if none applies. */
  method KeepBanned(text: seq<Byte>, i: nat, firstByte: Byte) returns (r: Round)
    requires i < |text| && IsEscape(text[i..]) && firstByte == Decoded(text[i..])
    ensures var t := text[i..];
      r == if HasArabicLanguageMark(t) then Round(t[..6], 6, false)
           else if HasThreeByteBidiControl(t) then Round(t[..9], 9, false)
           else if HasFourByteBanned(t) then Round(t[..12], 12, false)
           else Round([], 0, false)
  {
    var banned := HasArabicLanguageMarkAtIndex(text, firstByte, i);
    if banned {
      return Round(text[i..i + 6], 6, false);
    }
    banned := HasThreeByteBidiControlCharAtIndex(text, firstByte, i);
    if banned {
      return Round(text[i..i + 9], 9, false);
    }
    banned := HasFourByteBannedCharAtIndex(text, firstByte, i);
    if banned {
      return Round(text[i..i + 12], 12, false);
    }
    r := Round([], 0, false);
  }

  /** What UnescapeURLWithAdjustmentsImpl returns and reports, NONE included. */
  function Unescape(text: seq<Byte>, rules: Rules): seq<Byte> {
    if rules == NO_RULES then text else Unescaped(text, rules)
  }

  function Adjustments(text: seq<Byte>, rules: Rules): seq<nat> {
    if rules == NO_RULES then [] else Adjusted(text, rules, 0)
  }

  /** Loop state of the unescaper: what has been produced, followed by what text[i..] will produce. */
  ghost predicate Unescaping(text: seq<Byte>, rules: Rules, i: nat, result: seq<Byte>, adjustments: seq<nat>) {
    i <= |text| &&
    result + Unescaped(text[i..], rules) == Unescaped(text, rules) &&
    adjustments + Adjusted(text[i..], rules, i) == Adjusted(text, rules, 0)
  }

  lemma UnescapingStart(text: seq<Byte>, rules: Rules)
    ensures Unescaping(text, rules, 0, [], [])
  {
    assert text[0..] == text;
  }

  lemma UnescapingStep(text: seq<Byte>, rules: Rules, i: nat, result: seq<Byte>, adjustments: seq<nat>, r: Round)
    requires Unescaping(text, rules, i, result, adjustments) && i < |text| && r == FirstRound(text[i..], rules)
    ensures i < i + r.consumed <= |text|
    ensures Unescaping(text, rules, i + r.consumed, result + r.emitted,
                       if r.unescaped then adjustments + [i] else adjustments)
  {
    hide FirstRound;
    assert text[i..][r.consumed..] == text[i + r.consumed..];
    var replaced: seq<nat> := if r.unescaped then [i] else [];
    Reassociate(result, r.emitted, Unescaped(text[i + r.consumed..], rules));
    Reassociate(adjustments, replaced, Adjusted(text[i + r.consumed..], rules, i + r.consumed));
    assert adjustments + [] == adjustments;
  }

  lemma UnescapingEnd(text: seq<Byte>, rules: Rules, result: seq<Byte>, adjustments: seq<nat>)
    requires Unescaping(text, rules, |text|, result, adjustments)
    ensures result == Unescaped(text, rules) && adjustments == Adjusted(text, rules, 0)
  {
    assert text[|text|..] == [];
  }

  method UnescapeURLWithAdjustments(text: seq<Byte>, rules: Rules) returns (result: seq<Byte>, adjustments: seq<nat>)
    ensures result == Unescape(text, rules) && adjustments == Adjustments(text, rules)
  {
    hide Unescaping, Unescaped, Adjusted, FirstRound;
    result, adjustments := [], [];
    if rules == NO_RULES {
      return text, [];
    }
    var i := 0;
    UnescapingStart(text, rules);
    while i < |text|
      invariant 0 <= i <= |text| && Unescaping(text, rules, i, result, adjustments)
    {
      var r := UnescapeAt(text, i, rules);
      UnescapingStep(text, rules, i, result, adjustments, r);
      result := result + r.emitted;
      if r.unescaped {
        adjustments := adjustments + [i];
      }
      i := i + r.consumed;
    }
    UnescapingEnd(text, rules, result, adjustments);
  }
}
