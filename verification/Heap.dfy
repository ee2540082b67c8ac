/** The open-set priority queue. Python's `heapq` keeps `(f, (row, col))`
    tuples in a list; all the search observes is that `heappop` returns the
    least tuple in Python's lexicographic order and `heappush` adds one. The
    list's internal heap layout is not modelled: entries are kept in a plain
    sequence and popping removes a least one. */
module Heap {
  import opened Grid

  /** One `(f, cell)` tuple. */
  datatype Entry = Entry(key: int, cell: Cell)

  /** Python's `<=` on `(key, (row, col))`: key first, then row, then column. */
  predicate AtMost(a: Entry, b: Entry) {
    || a.key < b.key
    || (a.key == b.key && a.cell.row < b.cell.row)
    || (a.key == b.key && a.cell.row == b.cell.row && a.cell.col <= b.cell.col)
  }

  /** The cells present in the queue. */
  function CellsOf(h: seq<Entry>): set<Cell> {
    set i | 0 <= i < |h| :: h[i].cell
  }

  /** No cell is queued twice. */
  predicate Distinct(h: seq<Entry>) {
    forall i, j :: 0 <= i < j < |h| ==> h[i].cell != h[j].cell
  }

  /** Position of a least entry. */
  function MinIndex(h: seq<Entry>): (i: nat)
    requires |h| > 0
    ensures i < |h|
    ensures forall j :: 0 <= j < |h| ==> AtMost(h[i], h[j])
  {
    if |h| == 1 then 0
    else
      var k := MinIndex(h[1..]) + 1;
      assert forall j :: 1 <= j < |h| ==> h[j] == h[1..][j - 1];
      if AtMost(h[0], h[k]) then 0 else k
  }

  function RemoveAt(h: seq<Entry>, i: nat): (r: seq<Entry>)
    requires i < |h|
    ensures |r| == |h| - 1
    ensures multiset(r) + multiset{h[i]} == multiset(h)
  {
    assert h == h[..i] + [h[i]] + h[i + 1..];
    h[..i] + h[i + 1..]
  }

  /** `heapq.heappop`: the least entry and the queue without it. */
  function Pop(h: seq<Entry>): (r: (Entry, seq<Entry>))
    requires |h| > 0
    ensures r.0 in h
    ensures forall e :: e in h ==> AtMost(r.0, e)
    ensures multiset(r.1) + multiset{r.0} == multiset(h)
  {
    var i := MinIndex(h);
    (h[i], RemoveAt(h, i))
  }

  /** `heapq.heappush`. */
  function Push(h: seq<Entry>, e: Entry): (r: seq<Entry>)
    ensures multiset(r) == multiset(h) + multiset{e}
    ensures CellsOf(r) == CellsOf(h) + {e.cell}
  {
    assert forall i :: 0 <= i < |h| ==> (h + [e])[i] == h[i];
    assert (h + [e])[|h|] == e;
    h + [e]
  }

  /** Popping from a queue without repeated cells removes exactly the popped
      cell from the queued cells and keeps the rest distinct. */
  lemma PopCells(h: seq<Entry>)
    requires |h| > 0 && Distinct(h)
    ensures Pop(h).0.cell in CellsOf(h)
    ensures CellsOf(Pop(h).1) == CellsOf(h) - {Pop(h).0.cell}
    ensures Distinct(Pop(h).1)
    ensures forall e :: e in Pop(h).1 ==> e in h
  {
    var i := MinIndex(h);
    var r := RemoveAt(h, i);
    assert Pop(h) == (h[i], r);
    assert forall j :: 0 <= j < i ==> r[j] == h[j];
    assert forall j :: i <= j < |r| ==> r[j] == h[j + 1];
    forall c | c in CellsOf(h) - {h[i].cell}
      ensures c in CellsOf(r)
    {
      var j :| 0 <= j < |h| && h[j].cell == c;
      if j < i {
        assert r[j].cell == c;
      } else {
        assert j > i;
        assert r[j - 1].cell == c;
      }
    }
    forall c | c in CellsOf(r)
      ensures c in CellsOf(h) - {h[i].cell}
    {
      var j :| 0 <= j < |r| && r[j].cell == c;
      if j < i {
        assert h[j].cell == c;
      } else {
        assert h[j + 1].cell == c;
      }
    }
  }

  /** Pushing a cell that is not yet queued keeps the queue free of repeats. */
  lemma PushDistinct(h: seq<Entry>, e: Entry)
    requires Distinct(h) && e.cell !in CellsOf(h)
    ensures Distinct(Push(h, e))
  {
    var r := Push(h, e);
    forall i, j | 0 <= i < j < |r|
      ensures r[i].cell != r[j].cell
    {
      if j == |h| {
        assert r[i].cell in CellsOf(h);
      }
    }
  }

  /** With no cell queued twice the least entry is unique: ties on the key are
      settled by the smaller (row, col), never by insertion order. */
  lemma MinUnique(h: seq<Entry>, e: Entry)
    requires |h| > 0 && Distinct(h)
    requires e in h && forall x :: x in h ==> AtMost(e, x)
    ensures e == Pop(h).0
  {
    var p := Pop(h).0;
    assert AtMost(e, p) && AtMost(p, e);
    var i :| 0 <= i < |h| && h[i] == e;
    var j :| 0 <= j < |h| && h[j] == p;
    if i != j {
      assert h[i].cell != h[j].cell;
    }
  }
}
