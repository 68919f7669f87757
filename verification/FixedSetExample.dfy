/** The set with the one word "a", whose value is 0, as a packed graph. */
module FixedSetExample {
  import opened Basics
  import opened FixedSets

  const GRAPH: seq<Byte> := [0x81, 0xE1, 0x81, 0x80]
  const NODES := {Offsets(0), Label(1), Offsets(2), Label(3)}

  lemma Lists()
    ensures ListInBounds(GRAPH, 0) && Children(GRAPH, 0, 0) == [1]
    ensures ListInBounds(GRAPH, 2) && Children(GRAPH, 2, 2) == [3]
  {
  }

  lemma ListsOk()
    ensures PlaceOk(GRAPH, NODES, Offsets(0)) && LeadsOn(GRAPH, NODES, Offsets(0))
    ensures PlaceOk(GRAPH, NODES, Offsets(2)) && LeadsOn(GRAPH, NODES, Offsets(2))
  {
    Lists();
  }

  lemma LabelsOk()
    ensures PlaceOk(GRAPH, NODES, Label(1)) && LeadsOn(GRAPH, NODES, Label(1))
    ensures PlaceOk(GRAPH, NODES, Label(3)) && LeadsOn(GRAPH, NODES, Label(3))
  {
    assert AfterChar(GRAPH, 1) == Offsets(2);
  }

  /** The graph meets everything lookups ask of it. */
  lemma IsWellFormed()
    ensures WellFormed(GRAPH, NODES) && Productive(GRAPH, NODES)
  {
    ghost var nodes := NODES;
    forall place | place in nodes ensures PlaceOk(GRAPH, NODES, place) && LeadsOn(GRAPH, NODES, place) {
      NodeOk(place);
    }
  }

  lemma NodeOk(place: Place)
    requires place in NODES
    ensures PlaceOk(GRAPH, NODES, place) && LeadsOn(GRAPH, NODES, place)
  {
    if place == Offsets(0) || place == Offsets(2) {
      ListsOk();
    } else {
      LabelsOk();
    }
  }

  lemma SpellsA()
    ensures Spells(GRAPH, Offsets(0), [0x61], 0)
  {
    Lists();
    assert Spells(GRAPH, Label(3), [], 0);
    SpellsChild(GRAPH, 2, [], 0, 0);
    var word: seq<int> := [0x61];
    assert word[1..] == [] && AfterChar(GRAPH, 1) == Offsets(2);
    assert Spells(GRAPH, Label(1), word, 0);
    SpellsChild(GRAPH, 0, word, 0, 0);
  }

  /** Looking up the word finds its value. */
  method LookUp(key: seq<int>) returns (result: int)
    ensures key == [0x61] ==> result == 0
  {
    IsWellFormed();
    SpellsA();
    result := LookupStringInFixedSet(GRAPH, NODES, key);
  }
}
