/**
 * The weekly grid shared by every schedule: seven days (Monday = 0) and the
 * one-hour slots starting at 9:00 up to the last one starting at 19:00.
 * A schedule is listed in the order of Python's tuple comparison on (day, hour).
 */
module Grid {
  import opened Wrappers

  const Days: seq<string> := ["Monday", "Tuesday", "Wednesday", "Thursday", "Friday", "Saturday", "Sunday"]
  const StartHour: int := 9
  /** Exclusive: the last slot is 19:00-20:00. */
  const EndHour: int := 20
  const HoursPerDay: int := EndHour - StartHour

  /** A (day, hour) key. Imported files may carry any integers, so the type does not restrict them. */
  datatype Cell = Cell(day: int, hour: int)

  predicate InGrid(c: Cell) {
    0 <= c.day < |Days| && StartHour <= c.hour < EndHour
  }

  /** Python's `<` on the tuples (day, hour). */
  predicate CellLt(a: Cell, b: Cell) {
    a.day < b.day || (a.day == b.day && a.hour < b.hour)
  }

  predicate StrictlyAscending(s: seq<Cell>) {
    forall i, j :: 0 <= i < j < |s| ==> CellLt(s[i], s[j])
  }

  /** `DAYS[d]` with Python's list indexing: negative indexes count from the end; otherwise IndexError. */
  function DayName(d: int): (r: Option<string>)
    ensures r.Some? <==> -|Days| <= d < |Days|
    ensures 0 <= d < |Days| ==> r == Some(Days[d])
  {
    if 0 <= d < |Days| then Some(Days[d])
    else if -|Days| <= d < 0 then Some(Days[d + |Days|])
    else None
  }

  lemma CellLtTransitive(a: Cell, b: Cell, c: Cell)
    requires CellLt(a, b) && CellLt(b, c)
    ensures CellLt(a, c)
  {
  }

  lemma {:induction false} MinimumExists(s: set<Cell>)
    requires s != {}
    ensures exists m :: m in s && forall c :: c in s && c != m ==> CellLt(m, c)
  {
    var x :| x in s;
    if s == {x} {
      assert forall c :: c in s && c != x ==> CellLt(x, c);
    } else {
      var rest := s - {x};
      MinimumExists(rest);
      var m :| m in rest && forall c :: c in rest && c != m ==> CellLt(m, c);
      if CellLt(x, m) {
        forall c | c in s && c != x
          ensures CellLt(x, c)
        {
          if c != m {
            assert c in rest;
            CellLtTransitive(x, m, c);
          }
        }
      } else {
        assert CellLt(m, x);
        forall c | c in s && c != m
          ensures CellLt(m, c)
        {
          if c != x { assert c in rest; }
        }
      }
    }
  }

  /** The least cell of a non-empty set; it is unique because CellLt is a strict total order. */
  function MinCell(s: set<Cell>): (m: Cell)
    requires s != {}
    ensures m in s && forall c :: c in s && c != m ==> CellLt(m, c)
  {
    MinimumExists(s);
    var m :| m in s && forall c :: c in s && c != m ==> CellLt(m, c); m
  }

  /** Python's `sorted` applied to distinct keys: the cells of `s`, ascending. */
  function SortedCells(s: set<Cell>): (r: seq<Cell>)
    ensures StrictlyAscending(r)
    ensures forall c :: c in r <==> c in s
    ensures |r| == |s|
    decreases |s|
  {
    if s == {} then []
    else
      var m := MinCell(s);
      var rest := SortedCells(s - {m});
      assert forall c :: c in rest ==> CellLt(m, c);
      [m] + rest
  }

  /** Any strictly ascending listing of the same cells is the sorted listing: the order is determined. */
  lemma {:induction false} AscendingListingIsUnique(a: seq<Cell>, b: seq<Cell>)
    requires StrictlyAscending(a) && StrictlyAscending(b)
    requires forall c :: c in a <==> c in b
    ensures a == b
  {
    if a == [] {
      HeadIsElement(b);
    } else {
      assert b != [] by { assert a[0] in b; }
      assert a[0] == b[0] by { assert b[0] in a && a[0] in b; }
      forall c ensures c in a[1..] <==> c in b[1..] {
        if c in a[1..] {
          var i :| 1 <= i < |a| && a[i] == c;
          assert CellLt(a[0], c);
          assert c in b;
        }
        if c in b[1..] {
          var j :| 1 <= j < |b| && b[j] == c;
          assert CellLt(b[0], c);
          assert c in a;
        }
      }
      AscendingListingIsUnique(a[1..], b[1..]);
      assert a == [a[0]] + a[1..] && b == [b[0]] + b[1..];
    }
  }

  lemma HeadIsElement(s: seq<Cell>)
    ensures s != [] ==> s[0] in s
  {
  }

  /** SortedCells is the only strictly ascending listing of a set. */
  lemma SortedCellsIsTheListing(s: set<Cell>, r: seq<Cell>)
    requires StrictlyAscending(r) && forall c :: c in r <==> c in s
    ensures r == SortedCells(s)
  {
    AscendingListingIsUnique(r, SortedCells(s));
  }
}
