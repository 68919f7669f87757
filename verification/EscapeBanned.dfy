/** Which texts the URL unescaper turns into a BiDi control or a lock (section 4.1 of RFC 3987). */
module EscapeBanned {
  import opened Basics
  import opened EscapeUrl

  const ARABIC_LETTER_MARK: seq<set<int>> := [{0xD8}, {0x9C}]
  const BIDI_MARKS: seq<set<int>> := [{0xE2}, {0x80}, {0x8E, 0x8F, 0xAA, 0xAB, 0xAC, 0xAD, 0xAE}]
  const BIDI_ISOLATES: seq<set<int>> := [{0xE2}, {0x81}, {0xA6, 0xA7, 0xA8, 0xA9}]
  const LOCKS: seq<set<int>> := [{0xF0}, {0x9F}, {0x94}, {0x8F, 0x90, 0x92, 0x93}]
  const BANNED := {ARABIC_LETTER_MARK, BIDI_MARKS, BIDI_ISOLATES, LOCKS}

  /** s starts with one byte out of each of the given sets. */
  predicate HasBytes(s: seq<Byte>, bytes: seq<set<int>>)
    decreases |bytes|
  {
    bytes == [] || (s != [] && s[0] in bytes[0] && HasBytes(s[1..], bytes[1..]))
  }

  /** One of the listed BiDi controls or locks, in UTF-8, starts at k. */
  predicate BannedAt(s: seq<Byte>, k: nat) {
    k <= |s| && exists bytes :: bytes in BANNED && HasBytes(s[k..], bytes)
  }

  /**
   * t starts with one token for each of the given sets, a token being a raw byte in the set or an
   * escape that stands for one; unless free, at least one token is raw.
   */
  predicate Spelled(t: seq<Byte>, bytes: seq<set<int>>, free: bool)
    decreases |bytes|
  {
    if bytes == [] then free
    else
      (t != [] && t[0] in bytes[0] && Spelled(t[1..], bytes[1..], true)) ||
      (IsEscape(t) && Decoded(t) in bytes[0] && Spelled(t[3..], bytes[1..], free))
  }

  /** A BiDi control or lock is spelled at i, in part by raw bytes unless free. */
  predicate SpelledAt(text: seq<Byte>, i: nat, free: bool) {
    i <= |text| && exists bytes :: bytes in BANNED && Spelled(text[i..], bytes, free)
  }

  predicate AllHigh(bytes: seq<set<int>>) {
    forall j, b :: 0 <= j < |bytes| && b in bytes[j] ==> b >= 0x80
  }

  /** The bytes with which a listed character starts. */
  const LEADS: set<int> := {0xD8, 0xE2, 0xF0}

  predicate NoLeads(bytes: seq<set<int>>) {
    forall j, b :: 0 <= j < |bytes| && b in bytes[j] ==> b !in LEADS
  }

  /** Listed characters are made of high bytes, and only the first one is a lead byte. */
  lemma BannedShape(bytes: seq<set<int>>)
    requires bytes in BANNED
    ensures bytes != [] && AllHigh(bytes) && bytes[0] <= LEADS && NoLeads(bytes[1..])
    ensures |bytes| == if 0xD8 in bytes[0] then 2 else if 0xE2 in bytes[0] then 3 else 4
  {
  }

  /** Escapes of a listed character that are left as they are. */
  predicate Kept(t: seq<Byte>) {
    HasArabicLanguageMark(t) || HasThreeByteBidiControl(t) || HasFourByteBanned(t)
  }

  // ---- the unescaper, one high byte at a time ----

  lemma FirstEscapeIn(t: seq<Byte>, s: set<int>)
    ensures EscapeIn(t, 0, s) <==> IsEscape(t) && Decoded(t) in s
  {
    assert t[0..] == t;
  }

  lemma KeptStart(t: seq<Byte>)
    requires Kept(t)
    ensures IsEscape(t) && Decoded(t) in LEADS
  {
    FirstEscapeIn(t, {0xD8});
    FirstEscapeIn(t, {0xE2});
    FirstEscapeIn(t, {0xF0});
  }

  lemma RawStep(t: seq<Byte>, rules: Rules)
    requires t != [] && t[0] >= 0x80
    ensures Unescaped(t, rules) == [t[0]] + Unescaped(t[1..], rules)
  {
  }

  lemma EscapeStep(t: seq<Byte>, rules: Rules)
    requires IsEscape(t) && Decoded(t) >= 0x80 && (rules.spoofing || !Kept(t))
    ensures Unescaped(t, rules) == [Decoded(t)] + Unescaped(t[3..], rules)
  {
    assert FirstRound(t, rules) == Round([Decoded(t)], 3, true);
  }

  /** A high byte at the start of the output is a raw byte or an escape that was not kept. */
  lemma HighByteIsToken(t: seq<Byte>, rules: Rules)
    requires Unescaped(t, rules) != [] && Unescaped(t, rules)[0] >= 0x80
    ensures t != []
    ensures t[0] >= 0x80 || (IsEscape(t) && Decoded(t) >= 0x80 && (rules.spoofing || !Kept(t)))
  {
    var r := FirstRound(t, rules);
    assert Unescaped(t, rules)[0] == r.emitted[0];
  }

  // ---- from the output to the text ----

  /** High bytes at the start of the output come from tokens at the start of the text. */
  lemma {:induction false} OutputIsSpelled(t: seq<Byte>, rules: Rules, bytes: seq<set<int>>)
    requires AllHigh(bytes) && HasBytes(Unescaped(t, rules), bytes)
    ensures Spelled(t, bytes, true)
    decreases |bytes|
  {
    if bytes != [] {
      HighByteIsToken(t, rules);
      if t[0] >= 0x80 {
        RawStep(t, rules);
        OutputIsSpelled(t[1..], rules, bytes[1..]);
      } else {
        EscapeStep(t, rules);
        OutputIsSpelled(t[3..], rules, bytes[1..]);
      }
    }
  }

  lemma EscapeInLater(t: seq<Byte>, j: nat, s: set<int>)
    requires j > 0 && |t| >= 3
    ensures EscapeIn(t[3..], j - 1, s) <==> EscapeIn(t, j, s)
  {
    if |t| >= 3 * j {
      assert t[3..][3 * (j - 1)..] == t[3 * j..];
    }
  }

  /** Tokens none of which is raw are escapes, one after the other. */
  lemma {:induction false} OnlyEscapes(t: seq<Byte>, bytes: seq<set<int>>)
    requires Spelled(t, bytes, true) && !Spelled(t, bytes, false)
    ensures forall j :: 0 <= j < |bytes| ==> EscapeIn(t, j, bytes[j])
    decreases |bytes|
  {
    if bytes != [] {
      OnlyEscapes(t[3..], bytes[1..]);
      forall j | 0 <= j < |bytes| ensures EscapeIn(t, j, bytes[j]) {
        if j == 0 {
          FirstEscapeIn(t, bytes[0]);
        } else {
          EscapeInLater(t, j, bytes[j]);
        }
      }
    }
  }

  lemma EscapesAreKept(t: seq<Byte>, bytes: seq<set<int>>)
    requires bytes in BANNED && forall j :: 0 <= j < |bytes| ==> EscapeIn(t, j, bytes[j])
    ensures Kept(t)
  {
    assert EscapeIn(t, 0, bytes[0]) && EscapeIn(t, 1, bytes[1]);
    assert |bytes| > 2 ==> EscapeIn(t, 2, bytes[2]);
    assert |bytes| > 3 ==> EscapeIn(t, 3, bytes[3]);
  }

  /** A listed character at the start of the output is spelled at the start of the text. */
  lemma BannedStart(t: seq<Byte>, rules: Rules, bytes: seq<set<int>>)
    requires bytes in BANNED && HasBytes(Unescaped(t, rules), bytes)
    ensures Spelled(t, bytes, rules.spoofing)
  {
    BannedShape(bytes);
    HighByteIsToken(t, rules);
    OutputIsSpelled(t, rules, bytes);
    if !rules.spoofing && !Spelled(t, bytes, false) {
      OnlyEscapes(t, bytes);
      EscapesAreKept(t, bytes);
      KeptStart(t);
    }
  }

  lemma {:induction false} RunIsAscii(t: seq<Byte>, n: nat)
    requires |t| >= 3 * n && forall j :: 0 <= j < n ==> IsEscape(t[3 * j..])
    ensures forall k :: 0 <= k < 3 * n ==> t[k] < 0x80
    ensures forall k :: 0 <= k < 3 * n && k % 3 != 0 ==> t[k] != PERCENT
  {
    if n > 0 {
      RunIsAscii(t, n - 1);
      assert IsEscape(t[3 * (n - 1)..]);
    }
  }

  /** How many escapes the unescaper keeps at the start of t. */
  function KeptCount(t: seq<Byte>): nat {
    if HasArabicLanguageMark(t) then 2 else if HasThreeByteBidiControl(t) then 3
    else if HasFourByteBanned(t) then 4 else 0
  }

  lemma KeptRun(t: seq<Byte>)
    requires Kept(t)
    ensures var n := KeptCount(t);
      n > 1 && |t| >= 3 * n && (forall j :: 0 <= j < n ==> IsEscape(t[3 * j..])) &&
      (forall j :: 0 < j < n ==> Decoded(t[3 * j..]) !in LEADS)
  {
    forall j | 0 <= j < KeptCount(t)
      ensures |t| >= 3 * j && IsEscape(t[3 * j..]) && (j > 0 ==> Decoded(t[3 * j..]) !in LEADS)
    {
      assert j == 0 || j == 1 || j == 2 || j == 3;
    }
  }

  /** A round that emits a high byte emits nothing else. */
  lemma HighEmitted(t: seq<Byte>, rules: Rules, k: nat)
    requires t != [] && k < |FirstRound(t, rules).emitted| && FirstRound(t, rules).emitted[k] >= 0x80
    ensures k == 0
  {
    if Kept(t) {
      KeptRun(t);
      RunIsAscii(t, KeptCount(t));
    }
  }

  /** Every listed character in the output is spelled somewhere in the text. */
  lemma {:induction false} OutputToText(t: seq<Byte>, rules: Rules, k: nat) returns (i: nat)
    requires BannedAt(Unescaped(t, rules), k)
    ensures SpelledAt(t, i, rules.spoofing)
    decreases |t|
  {
    var out := Unescaped(t, rules);
    var bytes :| bytes in BANNED && HasBytes(out[k..], bytes);
    BannedShape(bytes);
    var r := FirstRound(t, rules);
    if k < |r.emitted| {
      assert out[k..][0] == r.emitted[k];
      HighEmitted(t, rules, k);
      assert out[0..] == out && t[0..] == t;
      BannedStart(t, rules, bytes);
      i := 0;
    } else {
      var rest, k' := t[r.consumed..], k - |r.emitted|;
      assert out[k..] == Unescaped(rest, rules)[k'..];
      assert BannedAt(Unescaped(rest, rules), k');
      var i' := OutputToText(rest, rules, k');
      i := r.consumed + i';
      assert t[i..] == rest[i'..];
    }
  }

  // ---- from the text to the output ----

  /** Tokens for bytes that start no listed character come out one by one. */
  lemma {:induction false} TailComesOut(t: seq<Byte>, rules: Rules, bytes: seq<set<int>>, free: bool)
    requires AllHigh(bytes) && NoLeads(bytes) && Spelled(t, bytes, free)
    ensures HasBytes(Unescaped(t, rules), bytes)
    decreases |bytes|
  {
    if bytes != [] {
      if t[0] in bytes[0] && Spelled(t[1..], bytes[1..], true) {
        RawStep(t, rules);
        TailComesOut(t[1..], rules, bytes[1..], true);
      } else {
        if Kept(t) {
          KeptStart(t);
        }
        EscapeStep(t, rules);
        TailComesOut(t[3..], rules, bytes[1..], free);
      }
    }
  }

  lemma {:induction false} EscapesHaveNoRaw(t: seq<Byte>, bytes: seq<set<int>>)
    requires AllHigh(bytes) && |t| >= 3 * |bytes| && forall j :: 0 <= j < |bytes| ==> IsEscape(t[3 * j..])
    ensures !Spelled(t, bytes, false)
    decreases |bytes|
  {
    if bytes != [] {
      assert t[0..] == t && IsEscape(t[3 * 0..]);
      forall j | 0 <= j < |bytes| - 1 ensures IsEscape(t[3..][3 * j..]) {
        assert t[3..][3 * j..] == t[3 * (j + 1)..];
      }
      EscapesHaveNoRaw(t[3..], bytes[1..]);
    }
  }

  lemma KeptIsNotSpelled(t: seq<Byte>, bytes: seq<set<int>>)
    requires Kept(t) && bytes in BANNED && Decoded(t) in bytes[0]
    requires IsEscape(t)
    ensures !Spelled(t, bytes, false)
  {
    BannedShape(bytes);
    KeptRun(t);
    FirstEscapeIn(t, {0xD8});
    FirstEscapeIn(t, {0xE2});
    FirstEscapeIn(t, {0xF0});
    EscapesHaveNoRaw(t, bytes);
  }

  lemma StartComesOut(t: seq<Byte>, rules: Rules, bytes: seq<set<int>>)
    requires bytes in BANNED && Spelled(t, bytes, rules.spoofing)
    ensures HasBytes(Unescaped(t, rules), bytes)
  {
    BannedShape(bytes);
    if t[0] in bytes[0] && Spelled(t[1..], bytes[1..], true) {
      RawStep(t, rules);
      TailComesOut(t[1..], rules, bytes[1..], true);
    } else {
      if !rules.spoofing && Kept(t) {
        KeptIsNotSpelled(t, bytes);
      }
      EscapeStep(t, rules);
      TailComesOut(t[3..], rules, bytes[1..], rules.spoofing);
    }
  }

  /** Nothing is spelled from inside a round: there are only digits, and escapes for bytes that are no leads. */
  lemma NotInside(t: seq<Byte>, rules: Rules, i: nat, free: bool)
    requires t != [] && 0 < i < FirstRound(t, rules).consumed
    ensures !SpelledAt(t, i, free)
  {
    hide FirstRound;
    InsideRound(t, rules, i);
    forall bytes | bytes in BANNED ensures !Spelled(t[i..], bytes, free) {
      BannedShape(bytes);
    }
  }

  lemma InsideRound(t: seq<Byte>, rules: Rules, i: nat)
    requires t != [] && 0 < i < FirstRound(t, rules).consumed
    ensures t[i] < 0x80 && (IsEscape(t[i..]) ==> Decoded(t[i..]) !in LEADS)
  {
    if Kept(t) {
      KeptRun(t);
      RunIsAscii(t, KeptCount(t));
      assert i % 3 == 0 ==> t[3 * (i / 3)..] == t[i..];
    }
  }

  /** Every listed character spelled in the text comes out. */
  lemma {:induction false} TextToOutput(t: seq<Byte>, rules: Rules, i: nat) returns (k: nat)
    requires SpelledAt(t, i, rules.spoofing)
    ensures BannedAt(Unescaped(t, rules), k)
    decreases |t|
  {
    var bytes :| bytes in BANNED && Spelled(t[i..], bytes, rules.spoofing);
    var out := Unescaped(t, rules);
    if i == 0 {
      assert t[0..] == t && out[0..] == out;
      StartComesOut(t, rules, bytes);
      k := 0;
    } else {
      var r := FirstRound(t, rules);
      if i < r.consumed {
        NotInside(t, rules, i, rules.spoofing);
      }
      var rest, i' := t[r.consumed..], i - r.consumed;
      assert rest[i'..] == t[i..];
      var k' := TextToOutput(rest, rules, i');
      k := |r.emitted| + k';
      assert out[k..] == Unescaped(rest, rules)[k'..];
    }
  }

  // ---- the exact condition ----

  /**
   * The output of unescaping contains a listed BiDi control or lock exactly when the text spells one, in
   * part by raw bytes unless the spoofing rule is given. Without any rule the text is not touched.
   */
  lemma BannedIff(text: seq<Byte>, rules: Rules)
    ensures rules != NO_RULES ==>
      ((exists k: nat :: BannedAt(Unescape(text, rules), k)) <==> (exists i: nat :: SpelledAt(text, i, rules.spoofing)))
    ensures rules == NO_RULES ==> forall k: nat :: BannedAt(Unescape(text, rules), k) <==> BannedAt(text, k)
  {
    if rules != NO_RULES {
      if k: nat :| BannedAt(Unescape(text, rules), k) {
        var i := OutputToText(text, rules, k);
      }
      if i: nat :| SpelledAt(text, i, rules.spoofing) {
        var k := TextToOutput(text, rules, i);
      }
    }
  }

  predicate IsAscii(t: seq<Byte>) {
    forall i :: 0 <= i < |t| ==> t[i] < 0x80
  }

  lemma {:induction false} AsciiHasNoRaw(t: seq<Byte>, bytes: seq<set<int>>)
    requires IsAscii(t) && AllHigh(bytes)
    ensures !Spelled(t, bytes, false)
    decreases |bytes|
  {
    if bytes != [] && IsEscape(t) {
      AsciiHasNoRaw(t[3..], bytes[1..]);
    }
  }

  /** In particular ASCII text never gives one, under any rules without spoofing. */
  lemma NoBannedCharacters(text: seq<Byte>, rules: Rules)
    requires IsAscii(text) && !rules.spoofing
    ensures forall k: nat :: !BannedAt(Unescape(text, rules), k)
  {
    BannedIff(text, rules);
    forall i: nat, bytes | i <= |text| && bytes in BANNED ensures !Spelled(text[i..], bytes, false) {
      BannedShape(bytes);
      AsciiHasNoRaw(text[i..], bytes);
    }
    forall k: nat ensures !BannedAt(text, k) {
      forall bytes | bytes in BANNED && k <= |text| ensures !HasBytes(text[k..], bytes) {
        BannedShape(bytes);
      }
    }
  }

  /** A raw high byte in front of an escape completes a listed character. */
  lemma BannedFromMixedText(rules: Rules)
    requires rules != NO_RULES && !rules.spoofing
    ensures exists k: nat :: BannedAt(Unescape([0xD8, PERCENT, 0x39, 0x43], rules), k)
  {
    var t: seq<Byte> := [0xD8, PERCENT, 0x39, 0x43];
    assert t[0..] == t && t[1..] == [PERCENT, 0x39, 0x43];
    assert IsEscape(t[1..]) && Decoded(t[1..]) == 0x9C;
    assert Spelled(t[1..], ARABIC_LETTER_MARK[1..], true);
    assert Spelled(t[0..], ARABIC_LETTER_MARK, false);
    assert SpelledAt(t, 0, false);
    BannedIff(t, rules);
  }
}
