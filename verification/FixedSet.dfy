/**
 * Incremental lookup in a packed DAFSA (base/lookup_string_in_fixed_set.cc). Masks of a byte are
 * written as arithmetic: the two bits 0x60 are b / 32 % 4, the bit 0x80 is b >= 128, the low
 * seven bits are b % 128, and the low five bits are b % 32.
 */
module FixedSets {
  import opened Basics

  const NOT_FOUND := -1      // kDafsaNotFound

  // ---- the encoding ----

  /** Byte is the last one of a label. */
  predicate IsEol(b: Byte) {
    b >= 128
  }

  predicate IsMatch(b: Byte, key: int) {
    b % 128 == key
  }

  /** Bytes 0x80 to 0x9F are return values. */
  predicate IsReturnValue(b: Byte) {
    b / 32 == 4
  }

  function EntrySize(b: Byte): nat {
    if b / 32 % 4 == 3 then 3 else if b / 32 % 4 == 2 then 2 else 1
  }

  /** The offset list at p lies inside the graph. */
  predicate ListInBounds(graph: seq<Byte>, p: nat)
    decreases |graph| - p
  {
    p < |graph| && p + EntrySize(graph[p]) <= |graph| &&
    (graph[p] >= 128 || ListInBounds(graph, p + EntrySize(graph[p])))
  }

  function ThreeBytes(a: nat, b: nat, c: nat): nat {
    a % 32 * 0x1_0000 + b * 0x100 + c
  }

  function TwoBytes(a: nat, b: nat): nat {
    a % 32 * 0x100 + b
  }

  function EntryOffset(graph: seq<Byte>, p: nat): nat
    requires p < |graph| && p + EntrySize(graph[p]) <= |graph|
  {
    if EntrySize(graph[p]) == 3 then ThreeBytes(graph[p], graph[p + 1], graph[p + 2])
    else if EntrySize(graph[p]) == 2 then TwoBytes(graph[p], graph[p + 1])
    else graph[p] % 64
  }

  /** The child nodes listed from p on, each offset counted from the previous child. */
  function Children(graph: seq<Byte>, p: nat, base: nat): (kids: seq<nat>)
    requires ListInBounds(graph, p)
    ensures kids != []
    decreases |graph| - p
  {
    var kid := base + EntryOffset(graph, p);
    if graph[p] >= 128 then [kid] else [kid] + Children(graph, p + EntrySize(graph[p]), kid)
  }

  // ---- the language a graph spells ----

  /** Where a walk stands: inside a label, at an offset list, or off the graph. */
  datatype Place = Label(pos: nat) | Offsets(pos: nat) | Exhausted

  function AfterChar(graph: seq<Byte>, p: nat): Place
    requires p < |graph|
  {
    if IsEol(graph[p]) then Offsets(p + 1) else Label(p + 1)
  }

  /**
   * From place, the graph spells word followed by return value v: some way of choosing a child at
   * every offset list reads the characters of word and then the byte of v.
   */
  ghost predicate Spells(graph: seq<Byte>, place: Place, word: seq<int>, v: nat)
    decreases |word|, if place.Offsets? then 1 else 0
  {
    match place
    case Exhausted => false
    case Label(p) =>
      p < |graph| &&
      if word == [] then IsReturnValue(graph[p]) && v == graph[p] % 32
      else word[0] >= 0x20 && IsMatch(graph[p], word[0]) && Spells(graph, AfterChar(graph, p), word[1..], v)
    case Offsets(p) =>
      ListInBounds(graph, p) &&
      exists kid :: kid in Children(graph, p, p) && Spells(graph, Label(kid), word, v)
  }

  /** Two children that Advance or GetResultForCurrentSequence could confuse. */
  ghost predicate Clash(a: Byte, b: Byte) {
    (a % 128 == b % 128 && a % 128 >= 0x20) || (IsReturnValue(a) && IsReturnValue(b))
  }

  /** At this place reads stay inside the graph, lead to known places, and siblings do not clash. */
  ghost predicate PlaceOk(graph: seq<Byte>, nodes: set<Place>, place: Place) {
    match place
    case Exhausted => false
    case Label(p) => p < |graph| && (graph[p] % 128 >= 0x20 ==> AfterChar(graph, p) in nodes)
    case Offsets(p) =>
      ListInBounds(graph, p) &&
      var kids := Children(graph, p, p);
      (forall i :: 0 <= i < |kids| ==> kids[i] < |graph| && Label(kids[i]) in nodes) &&
      (forall i, j :: 0 <= i < j < |kids| ==> !Clash(graph[kids[i]], graph[kids[j]]))
  }

  /** A graph whose reachable places, all of them among nodes, are well formed. */
  ghost predicate WellFormed(graph: seq<Byte>, nodes: set<Place>) {
    Offsets(0) in nodes && forall place :: place in nodes ==> PlaceOk(graph, nodes, place)
  }

  lemma SpellsChild(graph: seq<Byte>, p: nat, word: seq<int>, v: nat, i: nat)
    requires ListInBounds(graph, p) && i < |Children(graph, p, p)|
    requires Spells(graph, Label(Children(graph, p, p)[i]), word, v)
    ensures Spells(graph, Offsets(p), word, v)
  {
    assert Children(graph, p, p)[i] in Children(graph, p, p);
  }

  lemma OnlyChild(graph: seq<Byte>, nodes: set<Place>, p: nat, i: nat, j: nat)
    requires PlaceOk(graph, nodes, Offsets(p)) && i < |Children(graph, p, p)| && j < |Children(graph, p, p)|
    requires Clash(graph[Children(graph, p, p)[i]], graph[Children(graph, p, p)[j]])
    ensures i == j
  {
  }

  /** Committing to the first child that matches the next character loses nothing. */
  lemma CommitChar(graph: seq<Byte>, nodes: set<Place>, p: nat, i: nat, input: int, word: seq<int>, v: nat)
    requires PlaceOk(graph, nodes, Offsets(p)) && i < |Children(graph, p, p)|
    requires input >= 0x20 && IsMatch(graph[Children(graph, p, p)[i]], input)
    ensures Spells(graph, Offsets(p), [input] + word, v) <==>
      Spells(graph, AfterChar(graph, Children(graph, p, p)[i]), word, v)
  {
    var kids, full := Children(graph, p, p), [input] + word;
    assert full[1..] == word;
    assert Spells(graph, Label(kids[i]), full, v) <==> Spells(graph, AfterChar(graph, kids[i]), word, v);
    if Spells(graph, Offsets(p), full, v) {
      var kid :| kid in kids && Spells(graph, Label(kid), full, v);
      var j :| 0 <= j < |kids| && kids[j] == kid;
      OnlyChild(graph, nodes, p, i, j);
    } else if Spells(graph, Label(kids[i]), full, v) {
      SpellsChild(graph, p, full, v, i);
    }
  }

  /** If no child matches the next character, no word starts with it. */
  lemma NoChar(graph: seq<Byte>, p: nat, input: int, word: seq<int>, v: nat)
    requires ListInBounds(graph, p)
    requires forall i :: 0 <= i < |Children(graph, p, p)| && Children(graph, p, p)[i] < |graph| ==>
      !(input >= 0x20 && IsMatch(graph[Children(graph, p, p)[i]], input))
    ensures !Spells(graph, Offsets(p), [input] + word, v)
  {
    var kids, full := Children(graph, p, p), [input] + word;
    forall kid | kid in kids ensures !Spells(graph, Label(kid), full, v) {
      var i :| 0 <= i < |kids| && kids[i] == kid;
    }
  }

  // ---- reading the list ----

  /** What is left of the offset list at q after k entries. */
  ghost predicate AtEntry(graph: seq<Byte>, q: nat, k: nat, pos: Option<nat>, offset: nat) {
    ListInBounds(graph, q) && k <= |Children(graph, q, q)| &&
    offset == (if k == 0 then q else Children(graph, q, q)[k - 1]) &&
    match pos
    case None => k == |Children(graph, q, q)|
    case Some(p) => ListInBounds(graph, p) && Children(graph, q, q)[k..] == Children(graph, p, offset)
  }

  method GetNextOffset(graph: seq<Byte>, pos: Option<nat>, offset: nat, ghost q: nat, ghost k: nat)
    returns (ok: bool, pos': Option<nat>, offset': nat)
    requires AtEntry(graph, q, k, pos, offset)
    ensures ok <==> k < |Children(graph, q, q)|
    ensures ok ==> AtEntry(graph, q, k + 1, pos', offset') && offset' == Children(graph, q, q)[k]
    ensures pos.Some? && pos'.Some? ==> pos'.value > pos.value
  {
    hide AtEntry, ListInBounds, Children;
    AtEnd(graph, q, k, pos, offset);
    if pos.None? {
      return false, pos, offset;
    }
    var p := pos.value;
    NextEntry(graph, q, k, p, offset);
    var bytesConsumed;
    bytesConsumed, offset' := ReadEntry(graph, p, offset);
    if graph[p] >= 128 {
      pos' := None;
    } else {
      pos' := Some(p + bytesConsumed);
    }
    ok := true;
  }

  /** Decodes the entry at p: its size and the offset it leads to. */
  method ReadEntry(graph: seq<Byte>, p: nat, offset: nat) returns (bytesConsumed: nat, offset': nat)
    requires p < |graph| && p + EntrySize(graph[p]) <= |graph|
    ensures bytesConsumed == EntrySize(graph[p]) && offset' == offset + EntryOffset(graph, p)
  {
    if graph[p] / 32 % 4 == 3 {
      offset' := offset + ThreeBytes(graph[p], graph[p + 1], graph[p + 2]);
      bytesConsumed := 3;
    } else if graph[p] / 32 % 4 == 2 {
      offset' := offset + TwoBytes(graph[p], graph[p + 1]);
      bytesConsumed := 2;
    } else {
      offset' := offset + graph[p] % 64;
      bytesConsumed := 1;
    }
  }

  lemma AtEnd(graph: seq<Byte>, q: nat, k: nat, pos: Option<nat>, offset: nat)
    requires AtEntry(graph, q, k, pos, offset)
    ensures ListInBounds(graph, q)
    ensures pos.None? <==> k == |Children(graph, q, q)|
  {
  }

  /** Reading the entry at p yields the k-th child and leads to the next entry, or to the end. */
  lemma NextEntry(graph: seq<Byte>, q: nat, k: nat, p: nat, offset: nat)
    requires AtEntry(graph, q, k, Some(p), offset)
    ensures p < |graph| && p + EntrySize(graph[p]) <= |graph| && EntrySize(graph[p]) > 0
    ensures ListInBounds(graph, q) && k < |Children(graph, q, q)|
    ensures Children(graph, q, q)[k] == offset + EntryOffset(graph, p)
    ensures var next := if graph[p] >= 128 then None else Some(p + EntrySize(graph[p]));
      AtEntry(graph, q, k + 1, next, offset + EntryOffset(graph, p))
  {
    hide EntryOffset, ThreeBytes, TwoBytes;
    var kids := Children(graph, q, q);
    assert kids[k..][0] == kids[k] && kids[k..][1..] == kids[k + 1..];
  }

  class IncrementalLookup {
    const graph: seq<Byte>
    ghost const nodes: set<Place>
    var pos: Option<nat>
    var posIsLabelCharacter: bool

    ghost function Where(): Place
      reads this
    {
      if pos.None? then Exhausted else if posIsLabelCharacter then Label(pos.value) else Offsets(pos.value)
    }

    ghost predicate Valid()
      reads this
    {
      WellFormed(graph, nodes) && (pos.Some? ==> Where() in nodes) && (pos.None? ==> !posIsLabelCharacter)
    }

    constructor (graph: seq<Byte>, ghost nodes: set<Place>)
      requires WellFormed(graph, nodes)
      ensures Valid() && this.graph == graph && this.nodes == nodes && Where() == Offsets(0)
    {
      this.graph := graph;
      this.nodes := nodes;
      pos, posIsLabelCharacter := Some(0), false;
    }

    /** The child at the offset list q whose first character is input, if there is one. */
    method FindChild(q: nat, input: int) returns (child: Option<nat>, ghost i: nat)
      requires WellFormed(graph, nodes) && Offsets(q) in nodes
      ensures child.Some? ==> i < |Children(graph, q, q)| && Children(graph, q, q)[i] == child.value
      ensures child.Some? ==> child.value < |graph| && IsMatch(graph[child.value], input)
      ensures child.None? ==> forall j :: 0 <= j < |Children(graph, q, q)| ==>
        !IsMatch(graph[Children(graph, q, q)[j]], input)
    {
      assert PlaceOk(graph, nodes, Offsets(q));
      ghost var kids := Children(graph, q, q);
      var p, offset := Some(q), q;
      i := 0;
      while true
        invariant PlaceOk(graph, nodes, Offsets(q)) && AtEntry(graph, q, i, p, offset)
        invariant forall j :: 0 <= j < i ==> !IsMatch(graph[kids[j]], input)
        decreases |kids| - i
      {
        var ok;
        ok, p, offset := GetNextOffset(graph, p, offset, q, i);
        if !ok {
          return None, i;
        }
        if IsMatch(graph[offset], input) {
          return Some(offset), i;
        }
        i := i + 1;
      }
    }

    /**
     * Adds a character to the input. What can follow is exactly what could follow the longer
     * input before; once exhausted, nothing changes any more.
     */
    method Advance(input: int) returns (r: bool)
      requires Valid()
      modifies this
      ensures Valid()
      ensures r <==> Where() != Exhausted
      ensures old(Where()) == Exhausted ==> Where() == Exhausted
      ensures forall word, v :: Spells(graph, Where(), word, v) <==> Spells(graph, old(Where()), [input] + word, v)
    {
      if pos.None? {
        return false;
      }
      ghost var here := Where();
      assert PlaceOk(graph, nodes, here);
      if input >= 0x20 {
        if posIsLabelCharacter {
          if IsMatch(graph[pos.value], input) {
            StepInLabel(graph, pos.value, input);
            posIsLabelCharacter := !IsEol(graph[pos.value]);
            pos := Some(pos.value + 1);
            return true;
          }
        } else {
          ghost var i;
          var child;
          child, i := FindChild(pos.value, input);
          if child.Some? {
            StepToChild(graph, nodes, pos.value, i, input);
            assert PlaceOk(graph, nodes, Label(child.value));
            posIsLabelCharacter := !IsEol(graph[child.value]);
            pos := Some(child.value + 1);
            return true;
          }
        }
      }
      StepNowhere(graph, here, input);
      pos := None;
      posIsLabelCharacter := false;
      r := false;
    }

    /** The return value of the input read so far, or NOT_FOUND. */
    method GetResultForCurrentSequence() returns (value: int)
      requires Valid()
      ensures forall v: nat :: Spells(graph, Where(), [], v) <==> value == v
      ensures value == NOT_FOUND || 0 <= value < 32
    {
      value := NOT_FOUND;
      if posIsLabelCharacter {
        assert PlaceOk(graph, nodes, Where());
        if IsReturnValue(graph[pos.value]) {
          value := graph[pos.value] % 32;
        }
      } else if pos.Some? {
        value := FindReturnValue(pos.value);
      }
    }

    method FindReturnValue(q: nat) returns (value: int)
      requires WellFormed(graph, nodes) && Offsets(q) in nodes
      ensures forall v: nat :: Spells(graph, Offsets(q), [], v) <==> value == v
      ensures value == NOT_FOUND || 0 <= value < 32
    {
      assert PlaceOk(graph, nodes, Offsets(q));
      ghost var kids, i := Children(graph, q, q), 0;
      var p, offset := Some(q), q;
      while true
        invariant PlaceOk(graph, nodes, Offsets(q)) && AtEntry(graph, q, i, p, offset)
        invariant forall j :: 0 <= j < i ==> !IsReturnValue(graph[kids[j]])
        decreases |kids| - i
      {
        var ok;
        ok, p, offset := GetNextOffset(graph, p, offset, q, i);
        if !ok {
          NoReturn(graph, q);
          return NOT_FOUND;
        }
        if IsReturnValue(graph[offset]) {
          OneReturn(graph, nodes, q, i);
          return graph[offset] % 32;
        }
        i := i + 1;
      }
    }
  }

  lemma StepInLabel(graph: seq<Byte>, p: nat, input: int)
    requires p < |graph| && input >= 0x20 && IsMatch(graph[p], input)
    ensures forall word, v :: Spells(graph, AfterChar(graph, p), word, v) <==>
      Spells(graph, Label(p), [input] + word, v)
  {
    forall word, v ensures Spells(graph, AfterChar(graph, p), word, v) <==> Spells(graph, Label(p), [input] + word, v) {
      assert ([input] + word)[1..] == word;
    }
  }

  lemma StepToChild(graph: seq<Byte>, nodes: set<Place>, p: nat, i: nat, input: int)
    requires PlaceOk(graph, nodes, Offsets(p)) && i < |Children(graph, p, p)|
    requires input >= 0x20 && IsMatch(graph[Children(graph, p, p)[i]], input)
    ensures var next := AfterChar(graph, Children(graph, p, p)[i]);
      forall word, v :: Spells(graph, next, word, v) <==> Spells(graph, Offsets(p), [input] + word, v)
  {
    var next := AfterChar(graph, Children(graph, p, p)[i]);
    forall word, v ensures Spells(graph, next, word, v) <==> Spells(graph, Offsets(p), [input] + word, v) {
      CommitChar(graph, nodes, p, i, input, word, v);
    }
  }

  /** Nothing here matches the input, so no word of this place starts with it. */
  lemma StepNowhere(graph: seq<Byte>, place: Place, input: int)
    requires place.Label? ==> place.pos < |graph| && !(input >= 0x20 && IsMatch(graph[place.pos], input))
    requires place.Offsets? ==> ListInBounds(graph, place.pos)
    requires place.Offsets? ==>
      var kids := Children(graph, place.pos, place.pos);
      forall i :: 0 <= i < |kids| && kids[i] < |graph| ==> !(input >= 0x20 && IsMatch(graph[kids[i]], input))
    ensures forall word, v :: !Spells(graph, place, [input] + word, v)
  {
    forall word, v ensures !Spells(graph, place, [input] + word, v) {
      if place.Offsets? {
        NoChar(graph, place.pos, input, word, v);
      }
    }
  }

  lemma NoReturn(graph: seq<Byte>, q: nat)
    requires ListInBounds(graph, q)
    requires forall j :: 0 <= j < |Children(graph, q, q)| && Children(graph, q, q)[j] < |graph| ==>
      !IsReturnValue(graph[Children(graph, q, q)[j]])
    ensures forall v :: !Spells(graph, Offsets(q), [], v)
  {
    forall v ensures !Spells(graph, Offsets(q), [], v) {
      forall kid | kid in Children(graph, q, q) ensures !Spells(graph, Label(kid), [], v) {
        var j :| 0 <= j < |Children(graph, q, q)| && Children(graph, q, q)[j] == kid;
      }
    }
  }

  lemma OneReturn(graph: seq<Byte>, nodes: set<Place>, q: nat, i: nat)
    requires PlaceOk(graph, nodes, Offsets(q)) && i < |Children(graph, q, q)|
    requires IsReturnValue(graph[Children(graph, q, q)[i]])
    ensures forall v :: Spells(graph, Offsets(q), [], v) <==> v == graph[Children(graph, q, q)[i]] % 32
  {
    var kids := Children(graph, q, q);
    forall v: nat ensures Spells(graph, Offsets(q), [], v) <==> v == graph[kids[i]] % 32 {
      if Spells(graph, Offsets(q), [], v) {
        var kid :| kid in kids && Spells(graph, Label(kid), [], v);
        var j :| 0 <= j < |kids| && kids[j] == kid;
        OnlyChild(graph, nodes, q, i, j);
      } else if v == graph[kids[i]] % 32 {
        SpellsChild(graph, q, [], v, i);
      }
    }
  }

  /** The result is v exactly when the graph spells key followed by return value v. */
  method LookupStringInFixedSet(graph: seq<Byte>, ghost nodes: set<Place>, key: seq<int>) returns (result: int)
    requires WellFormed(graph, nodes)
    ensures forall v: nat :: Spells(graph, Offsets(0), key, v) <==> result == v
    ensures result == NOT_FOUND || 0 <= result < 32
  {
    var lookup := new IncrementalLookup(graph, nodes);
    var i := 0;
    assert key[0..] == key;
    while i != |key|
      invariant i <= |key| && lookup.Valid() && fresh(lookup) && lookup.graph == graph
      invariant forall v: nat :: Spells(graph, lookup.Where(), key[i..], v) <==> Spells(graph, Offsets(0), key, v)
    {
      assert key[i..] == [key[i]] + key[i + 1..];
      var more := lookup.Advance(key[i]);
      i := i + 1;
      if !more {
        return NOT_FOUND;
      }
    }
    assert key[i..] == [];
    ghost var place := lookup.Where();
    result := lookup.GetResultForCurrentSequence();
    assert lookup.Where() == place;
    forall v: nat ensures Spells(graph, Offsets(0), key, v) <==> result == v {
      assert Spells(graph, place, [], v) <==> result == v;
      assert Spells(graph, place, key[i..], v) <==> result == v;
    }
  }

  // ---- prefix queries ----

  /** Not a dead end: children lie ahead, and a label byte is a character or a return value. */
  ghost predicate LeadsOn(graph: seq<Byte>, nodes: set<Place>, place: Place)
    requires PlaceOk(graph, nodes, place)
  {
    (place.Label? ==> graph[place.pos] % 128 >= 0x20 || IsReturnValue(graph[place.pos])) &&
    (place.Offsets? ==> forall kid :: kid in Children(graph, place.pos, place.pos) ==> kid > place.pos)
  }

  ghost predicate Productive(graph: seq<Byte>, nodes: set<Place>) {
    forall place :: place in nodes && PlaceOk(graph, nodes, place) ==> LeadsOn(graph, nodes, place)
  }

  /** In such a graph a place that is not exhausted always leads to a word of the set. */
  lemma {:induction false} LeadsToWord(graph: seq<Byte>, nodes: set<Place>, place: Place)
    returns (word: seq<int>, v: nat)
    requires WellFormed(graph, nodes) && Productive(graph, nodes) && place in nodes
    ensures Spells(graph, place, word, v)
    decreases |graph| + 1 - place.pos
  {
    assert PlaceOk(graph, nodes, place) && LeadsOn(graph, nodes, place);
    match place {
      case Label(p) =>
        if IsReturnValue(graph[p]) {
          word, v := [], graph[p] % 32;
        } else {
          word, v := LeadsToWord(graph, nodes, AfterChar(graph, p));
          var c: int := graph[p] % 128;
          assert ([c] + word)[1..] == word;
          word := [c] + word;
        }
      case Offsets(p) =>
        var kid := Children(graph, p, p)[0];
        assert kid in Children(graph, p, p);
        word, v := LeadsToWord(graph, nodes, Label(kid));
        SpellsChild(graph, p, word, v, 0);
      case Exhausted =>
        assert false;
    }
  }

  /** Hence Advance returns true exactly when the input so far is a prefix of a word in the set. */
  lemma ExhaustedIffNoWord(graph: seq<Byte>, nodes: set<Place>, place: Place)
    requires WellFormed(graph, nodes) && Productive(graph, nodes) && (place in nodes || place == Exhausted)
    ensures place == Exhausted <==> forall word, v :: !Spells(graph, place, word, v)
  {
    if place != Exhausted {
      var word, v := LeadsToWord(graph, nodes, place);
      assert Spells(graph, place, word, v);
    }
  }
}
