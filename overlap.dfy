/**
 * The overlap engine: per-cell counts over the loaded participants, the number
 * of participants, and the cells where the count reaches that number.
 * Counts are taken over each participant's list of cells, so a cell listed
 * twice in one file counts twice.
 */
module Overlap {
  import opened Grid

  /** One loaded participant: the registry key and the cells read from the file, in file order. */
  datatype Participant = Participant(name: string, slots: seq<Cell>)

  /** How often `c` occurs across all the participants' lists. */
  function Occurrences(reg: seq<Participant>, c: Cell): nat
    decreases |reg|
  {
    if reg == [] then 0
    else Occurrences(reg[..|reg| - 1], c) + multiset(reg[|reg| - 1].slots)[c]
  }

  /** Every cell some participant lists. */
  function Listed(reg: seq<Participant>): set<Cell> {
    set p, c | p in reg && c in p.slots :: c
  }

  /** The overlap counts: a key for each listed cell, holding its number of occurrences. */
  function Tally(reg: seq<Participant>): (r: map<Cell, nat>)
    ensures forall c :: c in r ==> r[c] > 0
  {
    assert forall c :: c in Listed(reg) ==> Occurrences(reg, c) > 0 by {
      forall c | c in Listed(reg) {
        ListedIffOccurs(reg, c);
      }
    }
    map c | c in Listed(reg) :: Occurrences(reg, c)
  }

  lemma {:induction false} ListedIffOccurs(reg: seq<Participant>, c: Cell)
    ensures c in Listed(reg) <==> Occurrences(reg, c) > 0
    decreases |reg|
  {
    if reg != [] {
      var init, last := reg[..|reg| - 1], reg[|reg| - 1];
      ListedIffOccurs(init, c);
      assert reg == init + [last];
      if c in Listed(reg) {
        var p :| p in reg && c in p.slots;
        if p != last { assert c in Listed(init); }
      }
      if c in last.slots { assert c in Listed(reg); }
      if c in Listed(init) {
        var p :| p in init && c in p.slots;
        assert p in reg;
      }
    }
  }

  /** A cell has a tally entry exactly when it occurs somewhere, and the entry is its occurrence count. */
  lemma TallyCounts(reg: seq<Participant>, c: Cell)
    ensures c in Tally(reg) <==> Occurrences(reg, c) > 0
    ensures c in Tally(reg) ==> Tally(reg)[c] == Occurrences(reg, c)
  {
    ListedIffOccurs(reg, c);
  }

  lemma OccurrencesOfPrefix(reg: seq<Participant>, i: int, c: Cell)
    requires 0 <= i < |reg|
    ensures Occurrences(reg[..i + 1], c) == Occurrences(reg[..i], c) + multiset(reg[i].slots)[c]
  {
    assert reg[..i + 1][..i] == reg[..i];
  }

  /** Equal keys and equal entries: the map is the tally. */
  lemma TallyByEntries(reg: seq<Participant>, counts: map<Cell, nat>)
    requires forall c :: c in counts <==> Occurrences(reg, c) > 0
    requires forall c :: c in counts ==> counts[c] == Occurrences(reg, c)
    ensures counts == Tally(reg)
  {
    forall c ensures c in counts <==> c in Tally(reg) {
      TallyCounts(reg, c);
    }
    assert counts.Keys == Tally(reg).Keys;
  }

  /** The counting loops of update_overlaps and export_analysis. */
  method ComputeTally(reg: seq<Participant>) returns (counts: map<Cell, nat>)
    ensures counts == Tally(reg)
  {
    counts := map[];
    var i := 0;
    while i < |reg|
      invariant 0 <= i <= |reg|
      invariant forall c :: (c in counts <==> Occurrences(reg[..i], c) > 0)
      invariant forall c :: c in counts ==> counts[c] == Occurrences(reg[..i], c)
    {
      var slots := reg[i].slots;
      var j := 0;
      while j < |slots|
        invariant 0 <= j <= |slots|
        invariant forall c :: (c in counts <==> Occurrences(reg[..i], c) + multiset(slots[..j])[c] > 0)
        invariant forall c :: c in counts ==> counts[c] == Occurrences(reg[..i], c) + multiset(slots[..j])[c]
      {
        var cell := slots[j];
        assert slots[..j + 1] == slots[..j] + [cell];
        counts := counts[cell := (if cell in counts then counts[cell] else 0) + 1];
        j := j + 1;
      }
      assert slots[..j] == slots;
      forall c ensures Occurrences(reg[..i + 1], c) == Occurrences(reg[..i], c) + multiset(slots)[c] {
        OccurrencesOfPrefix(reg, i, c);
      }
      i := i + 1;
    }
    assert reg[..i] == reg;
    TallyByEntries(reg, counts);
  }

  /** The cells whose count equals `total`, ascending (the full-overlap list). */
  function FullMatches(counts: map<Cell, nat>, total: nat): (r: seq<Cell>)
    ensures StrictlyAscending(r)
    ensures forall c :: c in r <==> c in counts && counts[c] == total
  {
    SortedCells(set c | c in counts && counts[c] == total)
  }

  /** With at least one participant, a cell is a full match exactly when it occurs once per participant on average: count == total. */
  lemma FullMatchIffCountIsTotal(reg: seq<Participant>, c: Cell)
    requires |reg| > 0
    ensures c in FullMatches(Tally(reg), |reg|) <==> Occurrences(reg, c) == |reg|
  {
    TallyCounts(reg, c);
  }

  predicate NoRepeats(s: seq<Cell>) {
    forall i, j :: 0 <= i < j < |s| ==> s[i] != s[j]
  }

  lemma {:induction false} NoRepeatsOccursAtMostOnce(s: seq<Cell>, c: Cell)
    requires NoRepeats(s)
    ensures multiset(s)[c] == if c in s then 1 else 0
    decreases |s|
  {
    if s != [] {
      var init := s[..|s| - 1];
      assert s == init + [s[|s| - 1]];
      assert NoRepeats(init);
      NoRepeatsOccursAtMostOnce(init, c);
      if s[|s| - 1] == c {
        assert c !in init;
      }
    }
  }

  /** A listing from get_schedule_data (and so every exported file) has no repeats. */
  lemma AscendingHasNoRepeats(s: seq<Cell>)
    requires StrictlyAscending(s)
    ensures NoRepeats(s)
  {
  }

  /**
   * When no participant lists a cell twice (every exported file), count ==
   * total means that every participant is available there.
   */
  lemma {:induction false} FullCountIsEveryone(reg: seq<Participant>, c: Cell)
    requires forall p :: p in reg ==> NoRepeats(p.slots)
    ensures Occurrences(reg, c) <= |reg|
    ensures Occurrences(reg, c) == |reg| <==> forall p :: p in reg ==> c in p.slots
    decreases |reg|
  {
    if reg != [] {
      var init, last := reg[..|reg| - 1], reg[|reg| - 1];
      assert reg == init + [last];
      FullCountIsEveryone(init, c);
      NoRepeatsOccursAtMostOnce(last.slots, c);
      if Occurrences(reg, c) == |reg| {
        assert Occurrences(init, c) == |init| && c in last.slots;
        forall p | p in reg ensures c in p.slots {
          if p != last { assert p in init; }
        }
      }
    }
  }

  /** A file that repeats a row makes a cell a full match although another participant is absent there. */
  lemma RepeatedRowGivesFalseFullMatch()
    ensures var reg := [Participant("A", [Cell(0, 9), Cell(0, 9)]), Participant("B", [Cell(1, 9)])];
      Cell(0, 9) in FullMatches(Tally(reg), |reg|) && Cell(0, 9) !in reg[1].slots
  {
    var reg := [Participant("A", [Cell(0, 9), Cell(0, 9)]), Participant("B", [Cell(1, 9)])];
    assert reg[..1][..0] == [];
    assert multiset(reg[0].slots)[Cell(0, 9)] == 2;
    assert Occurrences(reg, Cell(0, 9)) == 2;
    FullMatchIffCountIsTotal(reg, Cell(0, 9));
  }

  lemma OccurrencesOfTwo(a: Participant, b: Participant, c: Cell)
    requires NoRepeats(a.slots) && NoRepeats(b.slots)
    ensures Occurrences([a, b], c) == (if c in a.slots then 1 else 0) + (if c in b.slots then 1 else 0)
  {
    assert [a, b][..1] == [a] && [a][..0] == [];
    assert Occurrences([a], c) == multiset(a.slots)[c];
    assert Occurrences([a, b], c) == Occurrences([a], c) + multiset(b.slots)[c];
    NoRepeatsOccursAtMostOnce(a.slots, c);
    NoRepeatsOccursAtMostOnce(b.slots, c);
  }

  /** Two participants, three cells each, sharing (0, 9) and (1, 9): the counts. */
  lemma TwoParticipantTally()
    ensures Tally([Participant("A", [Cell(0, 9), Cell(0, 10), Cell(1, 9)]),
                   Participant("B", [Cell(0, 9), Cell(1, 9), Cell(1, 10)])])
         == map[Cell(0, 9) := 2, Cell(0, 10) := 1, Cell(1, 9) := 2, Cell(1, 10) := 1]
  {
    var a := Participant("A", [Cell(0, 9), Cell(0, 10), Cell(1, 9)]);
    var b := Participant("B", [Cell(0, 9), Cell(1, 9), Cell(1, 10)]);
    var expected := map[Cell(0, 9) := 2, Cell(0, 10) := 1, Cell(1, 9) := 2, Cell(1, 10) := 1];
    assert NoRepeats(a.slots) && NoRepeats(b.slots);
    forall c ensures (c in expected <==> Occurrences([a, b], c) > 0) && (c in expected ==> expected[c] == Occurrences([a, b], c)) {
      OccurrencesOfTwo(a, b, c);
    }
    TallyByEntries([a, b], expected);
  }

  /** Both lists are the full-match list when they hold the same cells in ascending order. */
  lemma FullMatchesAre(counts: map<Cell, nat>, total: nat, r: seq<Cell>)
    requires StrictlyAscending(r)
    requires forall c :: c in r <==> c in counts && counts[c] == total
    ensures FullMatches(counts, total) == r
  {
    AscendingListingIsUnique(FullMatches(counts, total), r);
  }

  /** The same two participants: both are available at (0, 9) and (1, 9) only. */
  lemma TwoParticipantFullMatches()
    ensures FullMatches(Tally([Participant("A", [Cell(0, 9), Cell(0, 10), Cell(1, 9)]),
                               Participant("B", [Cell(0, 9), Cell(1, 9), Cell(1, 10)])]), 2)
         == [Cell(0, 9), Cell(1, 9)]
  {
    TwoParticipantTally();
    var expected := map[Cell(0, 9) := 2, Cell(0, 10) := 1, Cell(1, 9) := 2, Cell(1, 10) := 1];
    FullMatchesAre(expected, 2, [Cell(0, 9), Cell(1, 9)]);
  }
}
