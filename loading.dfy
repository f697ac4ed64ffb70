/**
 * Turning one imported file into a participant, and inserting it into the
 * registry under a name no other participant has: the base name, or the base
 * name with `_1`, `_2`, ... appended, whichever comes first.
 */
module Loading {
  import opened Wrappers
  import opened Grid
  import opened Decimal
  import opened Overlap

  /**
   * One data row as the delimited-text reader hands it over. `username` is the
   * row's value in the username column (None when the row is too short to
   * reach it); `day` and `hour` are None when the value is missing or is not
   * an integer, which makes the whole file fail.
   */
  datatype ImportRow = ImportRow(username: Option<string>, day: Option<int>, hour: Option<int>)

  /** A file: the base name of its path, whether its header has a username column, and its data rows. */
  datatype ImportFile = ImportFile(baseName: string, hasUsernameColumn: bool, rows: seq<ImportRow>)

  /** The name a row proposes: its username value, or the file's base name when there is no such column. */
  function NameField(f: ImportFile, row: ImportRow): (r: Option<string>)
    ensures !f.hasUsernameColumn ==> r == Some(f.baseName)
    ensures r.None? ==> f.hasUsernameColumn && row.username.None?
  {
    if f.hasUsernameColumn then row.username else Some(f.baseName)
  }

  /** The first name a row proposes; later rows do not change it. */
  function FirstName(f: ImportFile, rows: seq<ImportRow>): Option<string>
    decreases |rows|
  {
    if rows == [] then None
    else
      var earlier := FirstName(f, rows[..|rows| - 1]);
      if earlier.Some? then earlier else NameField(f, rows[|rows| - 1])
  }

  /** The file's name is the one proposed by the first row that proposes any; there is none when no row does. */
  lemma {:induction false} FirstNameIsFirstProposed(f: ImportFile, rows: seq<ImportRow>)
    ensures FirstName(f, rows).None? <==> forall i :: 0 <= i < |rows| ==> NameField(f, rows[i]).None?
    ensures FirstName(f, rows).Some? ==> exists i :: (0 <= i < |rows| && FirstName(f, rows) == NameField(f, rows[i]) &&
      forall j :: 0 <= j < i ==> NameField(f, rows[j]).None?)
    decreases |rows|
  {
    if rows != [] {
      var init := rows[..|rows| - 1];
      FirstNameIsFirstProposed(f, init);
      assert forall i :: 0 <= i < |init| ==> init[i] == rows[i];
      if FirstName(f, init).Some? {
        var i :| 0 <= i < |init| && FirstName(f, init) == NameField(f, init[i]) &&
          forall j :: 0 <= j < i ==> NameField(f, init[j]).None?;
        assert FirstName(f, rows) == NameField(f, rows[i]);
      } else {
        assert FirstName(f, rows) == NameField(f, rows[|rows| - 1]);
      }
    }
  }

  predicate Parses(row: ImportRow) {
    row.day.Some? && row.hour.Some?
  }

  function RowCell(row: ImportRow): Cell
    requires Parses(row)
  {
    Cell(row.day.value, row.hour.value)
  }

  /** The cells of the rows, one per row, in file order, repeats kept. */
  function CellsOf(rows: seq<ImportRow>): (cells: seq<Cell>)
    requires forall i :: 0 <= i < |rows| ==> Parses(rows[i])
    ensures |cells| == |rows|
    ensures forall i :: 0 <= i < |rows| ==> cells[i] == RowCell(rows[i])
    decreases |rows|
  {
    if rows == [] then [] else CellsOf(rows[..|rows| - 1]) + [RowCell(rows[|rows| - 1])]
  }

  predicate AllRowsParse(f: ImportFile) {
    forall i :: 0 <= i < |f.rows| ==> Parses(f.rows[i])
  }

  /** What a file contributes: nothing unless every row parses, it has rows and its name is non-empty. */
  function FileParticipant(f: ImportFile): (p: Option<Participant>)
    ensures p.Some? <==> AllRowsParse(f) && f.rows != [] && FirstName(f, f.rows).Some? && FirstName(f, f.rows).value != []
    ensures p.Some? ==> p.value.name != [] && Some(p.value.name) == FirstName(f, f.rows)
    ensures p.Some? ==> (|p.value.slots| == |f.rows| &&
      forall i :: 0 <= i < |f.rows| ==> p.value.slots[i] == Cell(f.rows[i].day.value, f.rows[i].hour.value))
  {
    if !AllRowsParse(f) then None
    else
      var name := FirstName(f, f.rows);
      if name.Some? && name.value != [] && f.rows != [] then Some(Participant(name.value, CellsOf(f.rows))) else None
  }

  /** The row loop of load_schedules: collect the cells, remember the first proposed name, give up on a bad row. */
  method ReadFile(f: ImportFile) returns (p: Option<Participant>)
    ensures p == FileParticipant(f)
  {
    var username: Option<string> := None;
    var schedule: seq<Cell> := [];
    var i := 0;
    while i < |f.rows|
      invariant 0 <= i <= |f.rows|
      invariant forall k :: 0 <= k < i ==> Parses(f.rows[k])
      invariant username == FirstName(f, f.rows[..i])
      invariant schedule == CellsOf(f.rows[..i])
    {
      var row := f.rows[i];
      assert f.rows[..i + 1][..i] == f.rows[..i];
      if username.None? {
        username := NameField(f, row);
      }
      if row.day.None? || row.hour.None? {
        return None;
      }
      schedule := schedule + [Cell(row.day.value, row.hour.value)];
      i := i + 1;
    }
    assert f.rows[..i] == f.rows;
    if username.Some? && username.value != [] && schedule != [] {
      p := Some(Participant(username.value, schedule));
    } else {
      p := None;
    }
  }

  /** The k-th name tried for `base`: `base` itself, then `base_1`, `base_2`, ... */
  function Candidate(base: string, k: nat): (r: string)
    ensures |base| <= |r| && r[..|base|] == base
    ensures r == base <==> k == 0
  {
    if k == 0 then base else base + "_" + NatToString(k)
  }

  lemma CandidateInjective(base: string, j: nat, k: nat)
    requires Candidate(base, j) == Candidate(base, k)
    ensures j == k
  {
    if j != 0 && k != 0 {
      var sj, sk := NatToString(j), NatToString(k);
      assert Candidate(base, j)[|base| + 1..] == sj;
      assert Candidate(base, k)[|base| + 1..] == sk;
      NatToStringInjective(j, k);
    }
  }

  function CandidatesBelow(base: string, k: nat): set<string> {
    set j | 0 <= j < k :: Candidate(base, j)
  }

  lemma {:induction false} CandidatesBelowSize(base: string, k: nat)
    ensures |CandidatesBelow(base, k)| == k
    decreases k
  {
    if k > 0 {
      CandidatesBelowSize(base, k - 1);
      assert CandidatesBelow(base, k) == CandidatesBelow(base, k - 1) + {Candidate(base, k - 1)};
      if Candidate(base, k - 1) in CandidatesBelow(base, k - 1) {
        var j :| 0 <= j < k - 1 && Candidate(base, j) == Candidate(base, k - 1);
        CandidateInjective(base, j, k - 1);
      }
    }
  }

  lemma {:induction false} SubsetSize(a: set<string>, b: set<string>)
    requires a <= b
    ensures |a| <= |b|
    decreases |a|
  {
    if a != {} {
      var x :| x in a;
      SubsetSize(a - {x}, b - {x});
    }
  }

  /** Only finitely many names are taken, so the search for a free one ends: at most |taken| are tried in vain. */
  lemma TakenCandidatesBound(taken: set<string>, base: string, k: nat)
    requires forall j :: 0 <= j < k ==> Candidate(base, j) in taken
    ensures k <= |taken|
  {
    CandidatesBelowSize(base, k);
    SubsetSize(CandidatesBelow(base, k), taken);
  }

  /** The first k, from `from` on, whose candidate is free; all earlier ones are taken. */
  function FirstFree(taken: set<string>, base: string, from: nat): (k: nat)
    requires forall j :: 0 <= j < from ==> Candidate(base, j) in taken
    ensures from <= k && Candidate(base, k) !in taken
    ensures forall j :: 0 <= j < k ==> Candidate(base, j) in taken
    decreases |taken| - from
  {
    TakenCandidatesBound(taken, base, from);
    if Candidate(base, from) !in taken then from
    else
      TakenCandidatesBound(taken, base, from + 1);
      FirstFree(taken, base, from + 1)
  }

  /** The name a participant called `base` is registered under. */
  function FreshName(taken: set<string>, base: string): (r: string)
    ensures r !in taken
    ensures base !in taken ==> r == base
    ensures |base| <= |r| && r[..|base|] == base
  {
    Candidate(base, FirstFree(taken, base, 0))
  }

  /** The while loop of load_schedules that bumps `counter` until the name is free. */
  method Disambiguate(taken: set<string>, base: string) returns (name: string)
    ensures name !in taken
    ensures base !in taken ==> name == base
    ensures base in taken ==> exists k :: (1 <= k && name == base + "_" + NatToString(k) &&
      forall j :: 1 <= j < k ==> base + "_" + NatToString(j) in taken)
    ensures name == FreshName(taken, base)
  {
    name := base;
    var counter := 1;
    while name in taken
      invariant 1 <= counter
      invariant name == Candidate(base, counter - 1)
      invariant forall j :: 0 <= j < counter - 1 ==> Candidate(base, j) in taken
      invariant counter - 1 <= |taken|
      decreases |taken| - (counter - 1)
    {
      TakenCandidatesBound(taken, base, counter);
      name := base + "_" + NatToString(counter);
      counter := counter + 1;
    }
    ghost var k := counter - 1;
    assert name == Candidate(base, k);
    FirstFreeIsLeast(taken, base, k);
    if base in taken {
      assert k >= 1;
      assert forall j :: 1 <= j < k ==> base + "_" + NatToString(j) == Candidate(base, j);
    }
  }

  /** A free candidate preceded only by taken ones is the one FirstFree finds. */
  lemma FirstFreeIsLeast(taken: set<string>, base: string, k: nat)
    requires Candidate(base, k) !in taken
    requires forall j :: 0 <= j < k ==> Candidate(base, j) in taken
    ensures FirstFree(taken, base, 0) == k
  {
  }

  function Names(reg: seq<Participant>): set<string> {
    set p | p in reg :: p.name
  }

  /** Registry keys are distinct and, as only non-empty names and schedules are inserted, non-empty. */
  predicate RegistryValid(reg: seq<Participant>) {
    (forall i, j :: 0 <= i < j < |reg| ==> reg[i].name != reg[j].name) &&
    (forall i :: 0 <= i < |reg| ==> reg[i].name != [] && reg[i].slots != [])
  }

  /** One file's effect on the registry: appended under a fresh name, or nothing. */
  function Register(reg: seq<Participant>, f: ImportFile): (r: seq<Participant>)
    ensures FileParticipant(f).None? ==> r == reg
    ensures FileParticipant(f).Some? ==>
      var p := FileParticipant(f).value;
      |r| == |reg| + 1 && r[..|reg|] == reg &&
      r[|reg|].slots == p.slots && r[|reg|].name !in Names(reg) &&
      (p.name !in Names(reg) ==> r[|reg|].name == p.name)
    ensures RegistryValid(reg) ==> RegistryValid(r)
  {
    match FileParticipant(f)
    case None => reg
    case Some(p) =>
      var name := FreshName(Names(reg), p.name);
      var r := reg + [Participant(name, p.slots)];
      assert r[..|reg|] == reg;
      assert forall i :: 0 <= i < |reg| ==> reg[i] in reg;
      r
  }

  /** Files are registered one after another, in the order they were chosen. */
  function RegisterAll(reg: seq<Participant>, files: seq<ImportFile>): (r: seq<Participant>)
    ensures |reg| <= |r| <= |reg| + |files| && r[..|reg|] == reg
    ensures RegistryValid(reg) ==> RegistryValid(r)
    decreases |files|
  {
    if files == [] then reg
    else
      var before := RegisterAll(reg, files[..|files| - 1]);
      var r := Register(before, files[|files| - 1]);
      assert r[..|before|] == before;
      assert r[..|reg|] == before[..|reg|];
      r
  }

  /** A one-row file with a username column proposes that username. */
  lemma OneRowFile(baseName: string, name: string, day: int, hour: int)
    requires name != []
    ensures FileParticipant(ImportFile(baseName, true, [ImportRow(Some(name), Some(day), Some(hour))]))
         == Some(Participant(name, [Cell(day, hour)]))
  {
    var f := ImportFile(baseName, true, [ImportRow(Some(name), Some(day), Some(hour))]);
    assert f.rows[..0] == [];
    assert FirstName(f, f.rows) == Some(name);
    assert AllRowsParse(f);
    assert CellsOf(f.rows) == [Cell(day, hour)];
  }

  /** Two files that both name Alice: the first keeps the name, the second is registered as Alice_1. */
  lemma SameNameTwice(f: ImportFile, g: ImportFile)
    requires FileParticipant(f).Some? && FileParticipant(f).value.name == "Alice"
    requires FileParticipant(g).Some? && FileParticipant(g).value.name == "Alice"
    ensures var reg := RegisterAll([], [f, g]);
      |reg| == 2 && reg[0].name == "Alice" && reg[1].name == "Alice_1"
  {
    assert [f, g][..1] == [f] && [f][..0] == [];
    var one := RegisterAll([], [f]);
    assert one == Register([], f);
    assert Names([]) == {};
    FirstFreeIsLeast({}, "Alice", 0);
    assert one[0].name == "Alice";
    assert Names(one) == {"Alice"};
    FirstFreeIsLeast({"Alice"}, "Alice", 1);
    assert NatToString(1) == "1";
  }
}
