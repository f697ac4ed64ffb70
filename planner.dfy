/**
 * The application state behind the overlap tab: the registry of loaded
 * participants, the overlap canvas's counts and total, and the dashboard (the
 * two counters and the list of perfect-overlap times).
 */
module Planner {
  import opened Wrappers
  import opened Grid
  import opened Overlap
  import opened Loading

  /**
   * The perfect-overlap list as the source fills it: row by row until a day
   * the day list cannot index raises, so the longest prefix whose days all
   * have a name.
   */
  function NamedPrefix(cells: seq<Cell>): (r: seq<Cell>)
    ensures |r| <= |cells| && r == cells[..|r|]
    ensures forall i :: 0 <= i < |r| ==> DayName(r[i].day).Some?
    ensures |r| < |cells| ==> DayName(cells[|r|].day).None?
  {
    if cells == [] || DayName(cells[0].day).None? then []
    else [cells[0]] + NamedPrefix(cells[1..])
  }

  /** A prefix that stops at the end or at the first unnamed day is the named prefix. */
  lemma NamedPrefixAt(cells: seq<Cell>, k: int)
    requires 0 <= k <= |cells|
    requires forall i :: 0 <= i < k ==> DayName(cells[i].day).Some?
    requires k == |cells| || DayName(cells[k].day).None?
    ensures NamedPrefix(cells) == cells[..k]
  {
  }

  /** When every loaded cell lies in the grid, the list shows all full matches. */
  lemma InGridMatchesAreAllListed(reg: seq<Participant>)
    requires forall p, c :: p in reg && c in p.slots ==> InGrid(c)
    ensures NamedPrefix(FullMatches(Tally(reg), |reg|)) == FullMatches(Tally(reg), |reg|)
  {
    var full := FullMatches(Tally(reg), |reg|);
    forall i | 0 <= i < |full|
      ensures DayName(full[i].day).Some?
    {
      assert full[i] in full;
      assert full[i] in Tally(reg);
      assert full[i] in Listed(reg);
      var p :| p in reg && full[i] in p.slots;
      assert InGrid(full[i]);
    }
    NamedPrefixAt(full, |full|);
  }

  /** One participant listing day 7: a full match, counted, but the list stays empty. */
  lemma OutOfGridMatchStopsList()
    ensures FullMatches(Tally([Participant("A", [Cell(7, 9)])]), 1) == [Cell(7, 9)]
    ensures NamedPrefix([Cell(7, 9)]) == []
  {
    var reg := [Participant("A", [Cell(7, 9)])];
    assert Listed(reg) == {Cell(7, 9)} by {
      forall c | c in Listed(reg) ensures c == Cell(7, 9) {
        var p :| p in reg && c in p.slots;
      }
      assert Cell(7, 9) in reg[0].slots;
    }
    assert Occurrences(reg, Cell(7, 9)) == 1 by {
      assert reg[..0] == [];
      assert multiset(reg[0].slots)[Cell(7, 9)] == 1;
    }
    FullMatchesAre(Tally(reg), 1, [Cell(7, 9)]);
  }

  /**
   * The tree-filling loop of update_overlaps: insert a row per cell, looking
   * its day up in the day list, until the lookup raises. `completed` says
   * whether every cell got its row.
   */
  method FillOverlapList(cells: seq<Cell>) returns (rows: seq<Cell>, completed: bool)
    ensures rows == NamedPrefix(cells)
    ensures completed <==> rows == cells
  {
    rows := [];
    var i := 0;
    while i < |cells| && DayName(cells[i].day).Some?
      invariant 0 <= i <= |cells|
      invariant forall j :: 0 <= j < i ==> DayName(cells[j].day).Some?
      invariant rows == cells[..i]
    {
      rows := rows + [cells[i]];
      i := i + 1;
    }
    NamedPrefixAt(cells, i);
    completed := i == |cells|;
    assert cells[..|cells|] == cells;
  }

  class OverlapCanvas {
    var overlapCounts: map<Cell, nat>
    var totalParticipants: nat

    constructor ()
      ensures overlapCounts == map[] && totalParticipants == 0
    {
      overlapCounts := map[];
      totalParticipants := 0;
    }

    method SetOverlaps(counts: map<Cell, nat>, total: nat)
      modifies this
      ensures overlapCounts == counts && totalParticipants == total
    {
      overlapCounts := counts;
      totalParticipants := total;
    }
  }

  class GroupSchedulerApp {
    /** Participants in load order; the names are the dictionary's keys. */
    var loadedSchedules: seq<Participant>
    const overlapCanvas: OverlapCanvas
    /** The "Participants" and "Perfect Matches" counters. */
    var participantCount: nat
    var matchCount: nat
    /** The rows of the perfect-overlap list, in order. */
    var perfectOverlaps: seq<Cell>

    /**
     * The canvas and the dashboard show the analysis of the loaded registry,
     * and show nothing while the registry is empty. The match counter counts
     * every full match; the list holds them up to the first unnamed day.
     */
    ghost predicate ShowsAnalysis()
      reads this, overlapCanvas
    {
      if loadedSchedules == [] then
        overlapCanvas.overlapCounts == map[] && overlapCanvas.totalParticipants == 0 &&
        participantCount == 0 && matchCount == 0 && perfectOverlaps == []
      else
        var counts := Tally(loadedSchedules);
        overlapCanvas.overlapCounts == counts && overlapCanvas.totalParticipants == |loadedSchedules| &&
        participantCount == |loadedSchedules| &&
        var full := FullMatches(counts, |loadedSchedules|);
        matchCount == |full| && perfectOverlaps == NamedPrefix(full)
    }

    ghost predicate Valid()
      reads this, overlapCanvas
    {
      RegistryValid(loadedSchedules) && ShowsAnalysis()
    }

    constructor ()
      ensures Valid() && loadedSchedules == [] && fresh(overlapCanvas)
    {
      loadedSchedules := [];
      overlapCanvas := new OverlapCanvas();
      participantCount, matchCount := 0, 0;
      perfectOverlaps := [];
    }

    /** One file of load_schedules: read it, and insert it under a fresh name if it contributes. */
    method LoadFile(f: ImportFile)
      requires RegistryValid(loadedSchedules)
      modifies this
      ensures loadedSchedules == Register(old(loadedSchedules), f)
      ensures RegistryValid(loadedSchedules)
      ensures participantCount == old(participantCount) && matchCount == old(matchCount)
      ensures perfectOverlaps == old(perfectOverlaps)
    {
      var participant := ReadFile(f);
      if participant.Some? {
        var username := Disambiguate(Names(loadedSchedules), participant.value.name);
        loadedSchedules := loadedSchedules + [Participant(username, participant.value.slots)];
      }
    }

    /** The loop of load_schedules over the chosen files, in order; the dashboard is not touched. */
    method LoadFiles(files: seq<ImportFile>)
      requires RegistryValid(loadedSchedules)
      modifies this
      ensures loadedSchedules == RegisterAll(old(loadedSchedules), files)
      ensures RegistryValid(loadedSchedules)
      ensures participantCount == old(participantCount) && matchCount == old(matchCount)
      ensures perfectOverlaps == old(perfectOverlaps)
    {
      var i := 0;
      while i < |files|
        invariant 0 <= i <= |files|
        invariant loadedSchedules == RegisterAll(old(loadedSchedules), files[..i])
        invariant RegistryValid(loadedSchedules)
        invariant participantCount == old(participantCount) && matchCount == old(matchCount)
        invariant perfectOverlaps == old(perfectOverlaps)
      {
        assert files[..i + 1][..i] == files[..i];
        LoadFile(files[i]);
        i := i + 1;
      }
      assert files[..i] == files;
    }

    /** Load the chosen files in order, then recompute the overlaps; choosing no file does nothing. */
    method LoadSchedules(files: seq<ImportFile>) returns (completed: bool)
      requires Valid()
      modifies this, overlapCanvas
      ensures Valid()
      ensures loadedSchedules == RegisterAll(old(loadedSchedules), files)
      ensures files == [] ==> unchanged(this, overlapCanvas) && completed
      ensures files != [] ==> (completed <==> (loadedSchedules == [] ||
        perfectOverlaps == FullMatches(Tally(loadedSchedules), |loadedSchedules|)))
    {
      if files == [] { return true; }
      LoadFiles(files);
      completed := UpdateOverlaps();
    }

    /** Clear the registry, the canvas and the dashboard. */
    method ClearLoadedSchedules()
      modifies this, overlapCanvas
      ensures Valid() && loadedSchedules == []
    {
      loadedSchedules := [];
      overlapCanvas.SetOverlaps(map[], 0);
      participantCount := 0;
      matchCount := 0;
      perfectOverlaps := [];
    }

    /**
     * Recount from scratch: the tally, the total, and the cells every
     * participant shares. With nothing loaded it returns at once. The list is
     * filled row by row; a full match whose day the day list cannot index
     * raises there, which ends the update with the counters already set and
     * the list cut short. `completed` is false exactly then.
     */
    method UpdateOverlaps() returns (completed: bool)
      modifies this, overlapCanvas
      ensures loadedSchedules == old(loadedSchedules)
      ensures old(loadedSchedules) == [] ==> unchanged(this, overlapCanvas)
      ensures loadedSchedules != [] ==> ShowsAnalysis()
      ensures completed <==> (loadedSchedules == [] ||
        perfectOverlaps == FullMatches(Tally(loadedSchedules), |loadedSchedules|))
    {
      if loadedSchedules == [] { return true; }
      var overlapCounts := ComputeTally(loadedSchedules);
      var total := |loadedSchedules|;
      overlapCanvas.SetOverlaps(overlapCounts, total);
      var fullOverlapSlots := FullMatches(overlapCounts, total);
      participantCount := total;
      matchCount := |fullOverlapSlots|;
      perfectOverlaps, completed := FillOverlapList(fullOverlapSlots);
    }
  }

  /** Loading the same-named file twice keeps both, under Alice and Alice_1. */
  method LoadAliceTwice(app: GroupSchedulerApp)
    requires app.Valid() && app.loadedSchedules == []
    modifies app, app.overlapCanvas
    ensures app.Valid() && |app.loadedSchedules| == 2
    ensures app.loadedSchedules[0].name == "Alice" && app.loadedSchedules[1].name == "Alice_1"
    ensures app.participantCount == 2
  {
    var alice := ImportFile("alice.tsv", true, [ImportRow(Some("Alice"), Some(0), Some(9))]);
    OneRowFile("alice.tsv", "Alice", 0, 9);
    var completed := app.LoadSchedules([alice, alice]);
    SameNameTwice(alice, alice);
  }
}
