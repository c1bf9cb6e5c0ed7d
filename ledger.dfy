/**
 * The verdict ledger: an append-only table of (filename, label, score) rows.
 * The table lives in a store that does not exist until the first verdict is
 * written; its first line is a header naming the three columns, and every
 * later line is one record. Reading a missing store gives an empty history.
 */
module VerdictLedger {
  import opened Wrappers

  /** One stored verdict. The label is kept as the text the table holds. */
  datatype Row = Row(filename: string, labelName: string, score: int)

  /** The column names the header line carries. */
  const Columns: seq<string> := ["filename", "label", "score"]

  /** A line of the table: the header, or one record. */
  datatype Line = Header(columns: seq<string>) | Record(row: Row)

  /** A table as the ledger writes it: exactly one header line, first, then records. */
  predicate WellFormed(lines: seq<Line>)
  {
    && |lines| >= 1
    && lines[0] == Header(Columns)
    && forall i :: 1 <= i < |lines| ==> lines[i].Record?
  }

  /** The records of a table in order; reading skips the header. */
  function Records(lines: seq<Line>): (rows: seq<Row>)
    requires WellFormed(lines)
    ensures |rows| == |lines| - 1
    ensures forall i :: 0 <= i < |rows| ==> lines[i + 1] == Record(rows[i])
  {
    seq(|lines| - 1, i requires 0 <= i < |lines| - 1 => lines[i + 1].row)
  }

  /** The history held by a store that may not exist. */
  function ReadAll(store: Option<seq<Line>>): (rows: seq<Row>)
    requires store.Some? ==> WellFormed(store.value)
    ensures store.None? ==> rows == []
    ensures store.Some? ==> |rows| == |store.value| - 1
  {
    match store
    case None => []
    case Some(lines) => Records(lines)
  }

  /** Appending a record to a table adds its row at the end of what reading gives. */
  lemma RecordsAppend(lines: seq<Line>, row: Row)
    requires WellFormed(lines)
    ensures WellFormed(lines + [Record(row)])
    ensures Records(lines + [Record(row)]) == Records(lines) + [row]
  {
    var lines' := lines + [Record(row)];
    assert WellFormed(lines');
    var r, r' := Records(lines), Records(lines');
    forall i | 0 <= i < |r'|
      ensures r'[i] == (r + [row])[i]
    {
      assert lines'[i + 1] == Record(r'[i]);
      if i < |r| {
        assert lines[i + 1] == Record(r[i]);
      }
    }
  }

  /** How many rows display on the dashboard. */
  const DisplayLimit: nat := 10

  /**
   * `s[start:]` with Python's slice rules: a negative start counts back from
   * the end, and a start outside the sequence is clamped to it.
   */
  function SliceFrom<T>(s: seq<T>, start: int): (r: seq<T>)
    ensures |r| <= |s| && r == s[|s| - |r|..]
    ensures 0 <= start ==> |r| == if start < |s| then |s| - start else 0
    ensures start < 0 ==> |r| == if -start < |s| then -start else |s|
  {
    var k := if start < 0 then |s| + start else start;
    var k' := if k < 0 then 0 else if k > |s| then |s| else k;
    s[k'..]
  }

  /** The rows displayed: `history[-10:]`, the last ten in insertion order, or all when fewer. */
  function Recent(h: seq<Row>): (r: seq<Row>)
    ensures |r| == if |h| < DisplayLimit then |h| else DisplayLimit
    ensures forall i :: 0 <= i < |r| ==> r[i] == h[|h| - |r| + i]
  {
    SliceFrom(h, -(DisplayLimit as int))
  }

  /** The number of rows whose label is `name`, scanning the history. */
  function CountLabel(h: seq<Row>, name: string): (n: nat)
    ensures n <= |h|
  {
    if h == [] then 0
    else (if h[0].labelName == name then 1 else 0) + CountLabel(h[1..], name)
  }

  /** A new row adds one to the count of its own label and nothing to any other. */
  lemma {:induction false} CountAppend(h: seq<Row>, row: Row, name: string)
    ensures CountLabel(h + [row], name) == CountLabel(h, name) + (if row.labelName == name then 1 else 0)
    decreases |h|
  {
    if h == [] {
      assert [row][1..] == [];
    } else {
      assert (h + [row])[1..] == h[1..] + [row];
      CountAppend(h[1..], row, name);
    }
  }

  /** Two different labels are counted on disjoint rows, and cover them all when every row has one of the two. */
  lemma {:induction false} CountsPartition(h: seq<Row>, a: string, b: string)
    requires a != b
    ensures CountLabel(h, a) + CountLabel(h, b) <= |h|
    ensures (forall i :: 0 <= i < |h| ==> h[i].labelName == a || h[i].labelName == b)
            ==> CountLabel(h, a) + CountLabel(h, b) == |h|
    decreases |h|
  {
    if h != [] {
      CountsPartition(h[1..], a, b);
      if forall i :: 0 <= i < |h| ==> h[i].labelName == a || h[i].labelName == b {
        assert forall i :: 0 <= i < |h| - 1 ==> h[1..][i] == h[i + 1];
      }
    }
  }

  /** What the dashboard shows: the recent rows and the two label counts. */
  datatype View = View(recent: seq<Row>, phishCount: nat, safeCount: nat)

  /** The dashboard for a history. */
  function Dashboard(h: seq<Row>): (v: View)
    ensures |v.recent| <= DisplayLimit && |v.recent| <= |h|
    ensures v.phishCount + v.safeCount <= |h|
    ensures (forall i :: 0 <= i < |h| ==> h[i].labelName == "phishing" || h[i].labelName == "safe")
            ==> v.phishCount + v.safeCount == |h|
  {
    CountsPartition(h, "phishing", "safe");
    View(Recent(h), CountLabel(h, "phishing"), CountLabel(h, "safe"))
  }

  /** Fifteen rows show as the last ten, oldest first. */
  lemma RecentOfFifteen(h: seq<Row>)
    requires |h| == 15
    ensures Recent(h) == h[5..]
  {
  }

  /** A missing store shows an empty history and zero counts. */
  lemma EmptyDashboard()
    ensures Dashboard(ReadAll(None)) == View([], 0, 0)
  {
  }

  /** The store of verdicts, written in place. */
  class Ledger {
    /** The table, or None while the store does not exist. */
    var store: Option<seq<Line>>

    ghost predicate Valid()
      reads this
    {
      store.Some? ==> WellFormed(store.value)
    }

    /** The rows the store holds, in insertion order. */
    function History(): seq<Row>
      reads this
      requires Valid()
    {
      ReadAll(store)
    }

    /** Opens the ledger over a store that is missing or was written by a ledger. */
    constructor (existing: Option<seq<Line>>)
      requires existing.Some? ==> WellFormed(existing.value)
      ensures Valid() && store == existing
    {
      store := existing;
    }

    /**
     * Stores one row: a missing store is created with the header and the row;
     * an existing one gets the row added after its last line, header and
     * earlier rows untouched.
     */
    method Append(row: Row)
      requires Valid()
      modifies this
      ensures Valid()
      ensures History() == old(History()) + [row]
      ensures old(store).None? ==> store == Some([Header(Columns), Record(row)])
      ensures old(store).Some? ==> store == Some(old(store).value + [Record(row)])
    {
      match store
      case None =>
        store := Some([Header(Columns), Record(row)]);
        assert Records(store.value) == [row];
      case Some(lines) =>
        RecordsAppend(lines, row);
        store := Some(lines + [Record(row)]);
    }
  }

  /** Rows appended to a fresh ledger read back in the order they were appended. */
  method AppendOrderScenario(v1: Row, v2: Row, v3: Row) returns (rows: seq<Row>)
    ensures rows == [v1, v2, v3]
  {
    var ledger := new Ledger(None);
    ledger.Append(v1);
    ledger.Append(v2);
    ledger.Append(v3);
    rows := ledger.History();
  }
}
