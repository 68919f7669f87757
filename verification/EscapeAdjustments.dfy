/** What the adjustments that the URL unescaper reports say about its output. */
module EscapeAdjustments {
  import opened Basics
  import opened EscapeUrl

  /** What an input byte outside every replaced escape looks like in the output. */
  function Shown(c: Byte, rules: Rules): Byte {
    if rules.plus && c == PLUS then SPACE else c
  }

  lemma RoundShape(t: seq<Byte>, rules: Rules)
    requires t != []
    ensures var r := FirstRound(t, rules);
      if r.unescaped then
        r.consumed == 3 && IsEscape(t) && MayUnescape(Decoded(t), rules) && r.emitted == [Decoded(t)]
      else |r.emitted| == r.consumed && forall k :: 0 <= k < r.consumed ==> r.emitted[k] == Shown(t[k], rules)
  {
    hide MayUnescape;
    if t[0] < 0x80 && IsEscape(t) && !rules.spoofing {
      if HasArabicLanguageMark(t) {
        NoPlus(t, 2);
      } else if HasThreeByteBidiControl(t) {
        NoPlus(t, 3);
      } else if HasFourByteBanned(t) {
        NoPlus(t, 4);
      }
    }
  }

  /** Inside a run of n escapes there is no plus sign. */
  lemma {:induction false} NoPlus(t: seq<Byte>, n: nat)
    requires |t| >= 3 * n && forall k :: 0 <= k < n ==> IsEscape(t[3 * k..])
    ensures forall k :: 0 <= k < 3 * n ==> t[k] != PLUS
  {
    if n > 0 {
      NoPlus(t, n - 1);
      assert IsEscape(t[3 * (n - 1)..]);
    }
  }

  /** A run of the unescaper: bytes copied, and escapes replaced by the byte they stand for. */
  datatype Trace = Done | Copy(bytes: seq<Byte>, rest: Trace) | Replace(b: Byte, rest: Trace) {
    function Output(): seq<Byte> {
      match this
      case Done => []
      case Copy(bytes, rest) => bytes + rest.Output()
      case Replace(b, rest) => [b] + rest.Output()
    }

    /** Positions of the escapes replaced, the input starting at base. */
    function Replaced(base: nat): seq<nat> {
      match this
      case Done => []
      case Copy(bytes, rest) => rest.Replaced(base + |bytes|)
      case Replace(_, rest) => [base] + rest.Replaced(base + 3)
    }

    function Width(): nat {
      match this
      case Done => 0
      case Copy(bytes, rest) => |bytes| + rest.Width()
      case Replace(_, rest) => 3 + rest.Width()
    }

    /** Where the input byte at p ends up in the output; None inside a replaced escape. */
    function Where(p: nat): Option<nat> {
      match this
      case Done => None
      case Copy(bytes, rest) => if p < |bytes| then Some(p) else Later(|bytes|, rest.Where(p - |bytes|))
      case Replace(_, rest) => if p < 3 then None else Later(1, rest.Where(p - 3))
    }

    /** Input and output position of the k-th replaced escape. */
    function Nth(k: nat): Option<(nat, nat)> {
      match this
      case Done => None
      case Copy(bytes, rest) => Shift(|bytes|, |bytes|, rest.Nth(k))
      case Replace(_, rest) => if k == 0 then Some((0, 0)) else Shift(3, 1, rest.Nth(k - 1))
    }
  }

  function Shift(n: nat, m: nat, w: Option<(nat, nat)>): Option<(nat, nat)> {
    if w.None? then None else Some((n + w.value.0, m + w.value.1))
  }

  function Later(n: nat, w: Option<nat>): Option<nat> {
    if w.None? then None else Some(n + w.value)
  }

  predicate GoodEscape(t: seq<Byte>, b: Byte, rules: Rules) {
    IsEscape(t) && MayUnescape(Decoded(t), rules) && b == Decoded(t)
  }

  predicate CopiesStart(bytes: seq<Byte>, t: seq<Byte>, rules: Rules) {
    0 < |bytes| <= |t| && forall k :: 0 <= k < |bytes| ==> bytes[k] == Shown(t[k], rules)
  }

  /** The trace reads exactly t: it replaces only escapes it may, and copies bytes as they are shown. */
  predicate Reads(trace: Trace, t: seq<Byte>, rules: Rules) {
    match trace
    case Done => t == []
    case Copy(bytes, rest) => CopiesStart(bytes, t, rules) && Reads(rest, t[|bytes|..], rules)
    case Replace(b, rest) => GoodEscape(t, b, rules) && Reads(rest, t[3..], rules)
  }

  /** The trace is the run of the unescaper on t, which starts at base of the input. */
  ghost predicate Explains(trace: Trace, t: seq<Byte>, rules: Rules, base: nat) {
    Reads(trace, t, rules) && Unescaped(t, rules) == trace.Output() && Adjusted(t, rules, base) == trace.Replaced(base)
  }

  /** Unescaping is such a run. */
  lemma {:induction false} TraceOf(t: seq<Byte>, rules: Rules, base: nat) returns (trace: Trace)
    ensures Explains(trace, t, rules, base)
    decreases |t|
  {
    hide FirstRound;
    if t == [] {
      trace := Done;
    } else {
      var r := FirstRound(t, rules);
      var rest := TraceOf(t[r.consumed..], rules, base + r.consumed);
      trace := OneRound(t, rules, base, r, rest);
    }
  }

  lemma OneRound(t: seq<Byte>, rules: Rules, base: nat, r: Round, rest: Trace) returns (trace: Trace)
    requires t != [] && r == FirstRound(t, rules) && Explains(rest, t[r.consumed..], rules, base + r.consumed)
    ensures Explains(trace, t, rules, base)
  {
    hide FirstRound, IsEscape, Decoded, MayUnescape, Shown;
    RoundShape(t, rules);
    if r.unescaped {
      trace := Replace(r.emitted[0], rest);
    } else {
      trace := Copy(r.emitted, rest);
    }
  }

  predicate Untouched(adj: seq<nat>, p: nat) {
    forall i :: 0 <= i < |adj| ==> !(adj[i] <= p < adj[i] + 3)
  }

  function CountBelow(adj: seq<nat>, p: nat): nat {
    if adj == [] then 0 else (if adj[0] < p then 1 else 0) + CountBelow(adj[1..], p)
  }

  /** Increasing, not overlapping, and inside [base, end). */
  predicate Increasing(adj: seq<nat>, base: nat, end: nat) {
    (forall i :: 0 <= i < |adj| ==> base <= adj[i] && adj[i] + 3 <= end) &&
    (forall i, j :: 0 <= i < j < |adj| ==> adj[i] + 3 <= adj[j])
  }

  lemma {:induction false} ReplacedIncrease(trace: Trace, base: nat)
    ensures Increasing(trace.Replaced(base), base, base + trace.Width())
    ensures |trace.Output()| == trace.Width() - 2 * |trace.Replaced(base)|
  {
    match trace
    case Done =>
    case Copy(bytes, rest) => ReplacedIncrease(rest, base + |bytes|);
    case Replace(b, rest) => ReplacedIncrease(rest, base + 3);
  }

  lemma {:induction false} ReadsWidth(trace: Trace, t: seq<Byte>, rules: Rules)
    requires Reads(trace, t, rules)
    ensures trace.Width() == |t|
  {
    match trace
    case Done =>
    case Copy(bytes, rest) => ReadsWidth(rest, t[|bytes|..], rules);
    case Replace(b, rest) => ReadsWidth(rest, t[3..], rules);
  }

  /** A byte that ends up somewhere is found there as it is shown. */
  lemma {:induction false} WhereShown(trace: Trace, t: seq<Byte>, rules: Rules, p: nat)
    requires Reads(trace, t, rules) && trace.Where(p).Some?
    ensures p < |t| && trace.Where(p).value < |trace.Output()|
    ensures trace.Output()[trace.Where(p).value] == Shown(t[p], rules)
  {
    match trace
    case Copy(bytes, rest) =>
      if p >= |bytes| { WhereShown(rest, t[|bytes|..], rules, p - |bytes|); }
    case Replace(b, rest) =>
      WhereShown(rest, t[3..], rules, p - 3);
  }

  lemma {:induction false} NoneBelow(adj: seq<nat>, p: nat)
    requires forall i :: 0 <= i < |adj| ==> p <= adj[i]
    ensures CountBelow(adj, p) == 0
  {
    if adj != [] {
      NoneBelow(adj[1..], p);
    }
  }

  lemma NoneReplacedBelow(trace: Trace, base: nat, p: nat)
    requires p <= base
    ensures CountBelow(trace.Replaced(base), p) == 0
  {
    ReplacedIncrease(trace, base);
    NoneBelow(trace.Replaced(base), p);
  }

  /** Past the first adjustment, the counts differ by one. */
  lemma UntouchedTail(adj: seq<nat>, base: nat, p: nat)
    requires Untouched([base] + adj, p) && base <= p
    ensures Untouched(adj, p) && CountBelow([base] + adj, p) == 1 + CountBelow(adj, p) && p >= base + 3
  {
    var all := [base] + adj;
    assert all[0] == base && all[1..] == adj;
    forall i | 0 <= i < |adj| ensures !(adj[i] <= p < adj[i] + 3) {
      assert all[i + 1] == adj[i];
    }
  }

  /** Outside every replaced escape, a byte moves back by two for each adjustment before it. */
  lemma {:induction false} UntouchedWhere(trace: Trace, base: nat, p: nat)
    requires p < trace.Width() && Untouched(trace.Replaced(base), base + p)
    ensures trace.Where(p).Some? && trace.Where(p).value == p - 2 * CountBelow(trace.Replaced(base), base + p)
  {
    hide Untouched, CountBelow;
    match trace
    case Copy(bytes, rest) =>
      if p < |bytes| {
        NoneReplacedBelow(rest, base + |bytes|, base + p);
      } else {
        UntouchedWhere(rest, base + |bytes|, p - |bytes|);
      }
    case Replace(b, rest) =>
      UntouchedTail(rest.Replaced(base + 3), base, base + p);
      UntouchedWhere(rest, base + 3, p - 3);
  }

  /** The escape at i of the input is good, and its byte is at `at` of the output. */
  predicate ReplacedAt(text: seq<Byte>, out: seq<Byte>, rules: Rules, i: int, at: int) {
    0 <= i <= |text| && 0 <= at < |out| && GoodEscape(text[i..], out[at], rules)
  }

  lemma ReplacedLater(text: seq<Byte>, n: nat, emitted: seq<Byte>, out: seq<Byte>, rules: Rules, i: int, at: int)
    requires n <= |text| && ReplacedAt(text[n..], out, rules, i, at)
    ensures ReplacedAt(text, emitted + out, rules, n + i, |emitted| + at)
  {
    assert text[n..][i..] == text[n + i..];
  }

  lemma ReplacedFirst(text: seq<Byte>, b: Byte, out: seq<Byte>, rules: Rules)
    requires GoodEscape(text, b, rules)
    ensures ReplacedAt(text, [b] + out, rules, 0, 0)
  {
    assert text[0..] == text;
  }

  lemma {:induction false} NthIsGood(trace: Trace, t: seq<Byte>, rules: Rules, k: nat)
    requires Reads(trace, t, rules) && trace.Nth(k).Some?
    ensures ReplacedAt(t, trace.Output(), rules, trace.Nth(k).value.0, trace.Nth(k).value.1)
  {
    match trace
    case Copy(bytes, rest) =>
      var (i, at) := rest.Nth(k).value;
      NthIsGood(rest, t[|bytes|..], rules, k);
      ReplacedLater(t, |bytes|, bytes, rest.Output(), rules, i, at);
    case Replace(b, rest) =>
      if k == 0 {
        ReplacedFirst(t, b, rest.Output(), rules);
      } else {
        var (i, at) := rest.Nth(k - 1).value;
        NthIsGood(rest, t[3..], rules, k - 1);
        ReplacedLater(t, 3, [b], rest.Output(), rules, i, at);
      }
  }

  lemma {:induction false} NthPosition(trace: Trace, base: nat, k: nat)
    requires k < |trace.Replaced(base)|
    ensures trace.Nth(k).Some? && trace.Nth(k).value.0 == trace.Replaced(base)[k] - base
    ensures trace.Nth(k).value.1 == trace.Replaced(base)[k] - base - 2 * k
  {
    match trace
    case Copy(bytes, rest) => NthPosition(rest, base + |bytes|, k);
    case Replace(b, rest) => if k > 0 { NthPosition(rest, base + 3, k - 1); }
  }

  /**
   * adj describes how out came from text: increasing (i, 3, 1) triples that do not overlap; each
   * shortens the output by two; a replaced escape is a valid one whose byte is in the output
   * where the earlier adjustments put it; and so is every byte outside them.
   */
  ghost predicate Describes(adj: seq<nat>, text: seq<Byte>, out: seq<Byte>, rules: Rules) {
    Increasing(adj, 0, |text|) &&
    |out| == |text| - 2 * |adj| &&
    (forall k :: 0 <= k < |adj| ==> ReplacedAt(text, out, rules, adj[k], adj[k] - 2 * k)) &&
    (forall p :: 0 <= p < |text| && Untouched(adj, p) ==> ShownAt(text, out, rules, p, p - 2 * CountBelow(adj, p)))
  }

  predicate ShownAt(text: seq<Byte>, out: seq<Byte>, rules: Rules, p: nat, at: int) {
    p < |text| && 0 <= at < |out| && out[at] == Shown(text[p], rules)
  }

  lemma TraceDescribes(trace: Trace, text: seq<Byte>, rules: Rules, adj: seq<nat>, out: seq<Byte>)
    requires Reads(trace, text, rules) && adj == trace.Replaced(0) && out == trace.Output()
    ensures Describes(adj, text, out, rules)
  {
    ReadsWidth(trace, text, rules);
    ReplacedIncrease(trace, 0);
    AllReplaced(trace, text, rules, adj, out);
    AllShown(trace, text, rules, adj, out);
    Assemble(adj, text, out, rules);
  }

  lemma Assemble(adj: seq<nat>, text: seq<Byte>, out: seq<Byte>, rules: Rules)
    requires Increasing(adj, 0, |text|) && |out| == |text| - 2 * |adj|
    requires forall k :: 0 <= k < |adj| ==> ReplacedAt(text, out, rules, adj[k], adj[k] - 2 * k)
    requires forall p :: 0 <= p < |text| && Untouched(adj, p) ==>
      ShownAt(text, out, rules, p, p - 2 * CountBelow(adj, p))
    ensures Describes(adj, text, out, rules)
  {
  }

  lemma AllReplaced(trace: Trace, text: seq<Byte>, rules: Rules, adj: seq<nat>, out: seq<Byte>)
    requires Reads(trace, text, rules) && adj == trace.Replaced(0) && out == trace.Output()
    ensures forall k :: 0 <= k < |adj| ==> ReplacedAt(text, out, rules, adj[k], adj[k] - 2 * k)
  {
    forall k | 0 <= k < |adj| ensures ReplacedAt(text, out, rules, adj[k], adj[k] - 2 * k) {
      NthPosition(trace, 0, k);
      NthIsGood(trace, text, rules, k);
    }
  }

  lemma AllShown(trace: Trace, text: seq<Byte>, rules: Rules, adj: seq<nat>, out: seq<Byte>)
    requires Reads(trace, text, rules) && adj == trace.Replaced(0) && out == trace.Output()
    ensures forall p :: 0 <= p < |text| && Untouched(adj, p) ==>
      ShownAt(text, out, rules, p, p - 2 * CountBelow(adj, p))
  {
    ReadsWidth(trace, text, rules);
    forall p | 0 <= p < |text| && Untouched(adj, p) ensures ShownAt(text, out, rules, p, p - 2 * CountBelow(adj, p)) {
      UntouchedWhere(trace, 0, p);
      WhereShown(trace, text, rules, p);
    }
  }

  /** For every text and rule set, the adjustments reported describe the output. */
  lemma AdjustmentsDescribeOutput(text: seq<Byte>, rules: Rules)
    ensures Describes(Adjustments(text, rules), text, Unescape(text, rules), rules)
  {
    if rules != NO_RULES {
      var trace := TraceOf(text, rules, 0);
      TraceDescribes(trace, text, rules, trace.Replaced(0), trace.Output());
    }
  }
}
