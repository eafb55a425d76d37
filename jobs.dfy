/** The session's job table: an ordered sequence of records that an upload
    replaces, the add-job form extends and the update form edits one row of. */
module JobTable {
  import opened Schema

  /** What the add-job form submits: the five descriptive fields of a new row. */
  datatype Entry = Entry(id: string, title: string, company: string, status: AppStatus, date: Date)

  /** How an upload ended: the rows were taken, or these required headers were absent. */
  datatype UploadOutcome = Loaded | MissingHeaders(headers: seq<string>)

  /** The "ID" column of the table, top to bottom. */
  function IdColumn(rows: seq<Record>): (ids: seq<string>)
    ensures |ids| == |rows|
    ensures forall i :: 0 <= i < |rows| ==> ids[i] == rows[i].id
  {
    seq(|rows|, i requires 0 <= i < |rows| => rows[i].id)
  }

  /** No two rows share an ID. */
  ghost predicate UniqueIds(rows: seq<Record>)
  {
    forall i, j :: 0 <= i < j < |rows| ==> rows[i].id != rows[j].id
  }

  /** The row the add-job form creates: the entry's fields and every checklist flag off. */
  function NewRow(e: Entry): (r: Record)
    ensures r.checks == NoChecks
    ensures r.id == e.id && r.title == e.title && r.company == e.company
    ensures r.status == e.status && r.date == e.date
  {
    Record(e.id, e.title, e.company, e.status, e.date, NoChecks)
  }

  /** The position of the first row whose ID is `id`: the row the update form edits. */
  function FirstIndexOf(rows: seq<Record>, id: string): (i: nat)
    requires id in IdColumn(rows)
    ensures i < |rows| && rows[i].id == id
    ensures forall j :: 0 <= j < i ==> rows[j].id != id
  {
    if rows[0].id == id then 0
    else
      assert id in IdColumn(rows[1..]) by {
        var k :| 0 <= k < |rows| && IdColumn(rows)[k] == id;
        assert k != 0 && IdColumn(rows[1..])[k - 1] == id;
      }
      1 + FirstIndexOf(rows[1..], id)
  }

  /** The table after the update form writes `c` into the first row with ID `id`:
      that row gets the nine flags and keeps its descriptive fields, every other
      row is untouched, and the ID column, hence the row count, stays as it was. */
  function WithChecks(rows: seq<Record>, id: string, c: Checks): (r: seq<Record>)
    requires id in IdColumn(rows)
    ensures |r| == |rows|
    ensures r[FirstIndexOf(rows, id)].checks == c
    ensures r[FirstIndexOf(rows, id)].(checks := rows[FirstIndexOf(rows, id)].checks) == rows[FirstIndexOf(rows, id)]
    ensures forall k :: 0 <= k < |rows| && k != FirstIndexOf(rows, id) ==> r[k] == rows[k]
    ensures IdColumn(r) == IdColumn(rows)
  {
    var i := FirstIndexOf(rows, id);
    rows[i := rows[i].(checks := c)]
  }

  /** Two tables with the same ID column agree on which row an ID selects. */
  lemma {:induction false} FirstIndexFollowsIds(a: seq<Record>, b: seq<Record>, id: string)
    requires IdColumn(a) == IdColumn(b)
    requires id in IdColumn(a)
    ensures FirstIndexOf(a, id) == FirstIndexOf(b, id)
  {
    assert forall k :: 0 <= k < |a| ==> a[k].id == IdColumn(a)[k] == IdColumn(b)[k] == b[k].id;
  }

  /** A second update of the same ID overrides the first: only the last flags submitted survive. */
  lemma {:induction false} UpdateLastWins(rows: seq<Record>, id: string, c1: Checks, c2: Checks)
    requires id in IdColumn(rows)
    ensures id in IdColumn(WithChecks(rows, id, c1))
    ensures WithChecks(WithChecks(rows, id, c1), id, c2) == WithChecks(rows, id, c2)
  {
    var once := WithChecks(rows, id, c1);
    FirstIndexFollowsIds(rows, once, id);
  }

  /** Resubmitting a row's own flags leaves the table as it was. */
  lemma UpdateWithCurrentFlagsIsIdentity(rows: seq<Record>, id: string)
    requires id in IdColumn(rows)
    ensures WithChecks(rows, id, rows[FirstIndexOf(rows, id)].checks) == rows
  {
  }

  /** An update keeps the IDs unique when they were unique before. */
  lemma UpdateKeepsIdsUnique(rows: seq<Record>, id: string, c: Checks)
    requires id in IdColumn(rows)
    requires UniqueIds(rows)
    ensures UniqueIds(WithChecks(rows, id, c))
  {
  }

  /** Appending the row of an entry whose ID is new keeps the IDs unique. */
  lemma AddKeepsIdsUnique(rows: seq<Record>, e: Entry)
    requires UniqueIds(rows)
    requires e.id !in IdColumn(rows)
    ensures UniqueIds(rows + [NewRow(e)])
  {
    var r := rows + [NewRow(e)];
    forall i, j | 0 <= i < j < |r| ensures r[i].id != r[j].id {
      if j == |rows| {
        assert IdColumn(rows)[i] == rows[i].id;
      }
    }
  }

  /** After an add, the new ID selects the new last row, and every ID that was
      already present still selects the row it selected before. */
  lemma AddThenSelect(rows: seq<Record>, e: Entry, id: string)
    requires e.id !in IdColumn(rows)
    ensures e.id in IdColumn(rows + [NewRow(e)])
    ensures FirstIndexOf(rows + [NewRow(e)], e.id) == |rows|
    ensures id in IdColumn(rows) ==>
              id in IdColumn(rows + [NewRow(e)]) &&
              FirstIndexOf(rows + [NewRow(e)], id) == FirstIndexOf(rows, id)
  {
    var r := rows + [NewRow(e)];
    assert IdColumn(r)[|rows|] == e.id;
    assert forall m :: 0 <= m < |rows| ==> r[m] == rows[m] && IdColumn(rows)[m] == rows[m].id;
    if id in IdColumn(rows) {
      var k :| 0 <= k < |rows| && IdColumn(rows)[k] == id;
      assert IdColumn(r)[k] == id;
    }
  }

  /** The job table held in session state. */
  class Table {
    /** The rows, in insertion order. */
    var rows: seq<Record>

    /** A new session starts with an empty table that has the schema's columns. */
    constructor ()
      ensures rows == []
    {
      rows := [];
    }

    /** Take the rows of an uploaded file when its header row `columns` names every
        required column; otherwise report the missing ones and keep the table. */
    method Upload(columns: seq<string>, uploaded: seq<Record>) returns (outcome: UploadOutcome)
      modifies this
      ensures outcome == Loaded <==> HasHeaders(RequiredHeaders, columns)
      ensures outcome.MissingHeaders? ==> outcome.headers == Missing(RequiredHeaders, columns) != []
      ensures rows == if outcome == Loaded then uploaded else old(rows)
    {
      if HasHeaders(RequiredHeaders, columns) {
        rows := uploaded;
        outcome := Loaded;
      } else {
        outcome := MissingHeaders(Missing(RequiredHeaders, columns));
      }
    }

    /** Append the row of `e` unless some row already carries its ID; `added` says which. */
    method AddJob(e: Entry) returns (added: bool)
      modifies this
      ensures added <==> e.id !in IdColumn(old(rows))
      ensures rows == if added then old(rows) + [NewRow(e)] else old(rows)
    {
      if e.id in IdColumn(rows) {
        added := false;
      } else {
        rows := rows + [NewRow(e)];
        added := true;
      }
    }

    /** Overwrite the nine flags of the first row whose ID is `id` with `c`. */
    method UpdateJob(id: string, c: Checks)
      requires id in IdColumn(rows)
      modifies this
      ensures rows == WithChecks(old(rows), id, c)
    {
      var i := FirstIndexOf(rows, id);
      var row := rows[i];
      rows := rows[i := row.(checks := c)];
    }
  }
}
