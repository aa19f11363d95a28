/**
 * Classification of a candidate row by which of its trailing cells are null, and the loop
 * that issues one delete call per classified row.
 */
module Deletion {
  import opened Wrappers
  import opened Rows
  import opened Seqs

  /**
   * What a row asks for. Both labels null: the subject has no sessions. Session label
   * present, acquisition label null: the session has no acquisitions. Both labels present,
   * file name null: the acquisition has no files. The file name is consulted only in the
   * last case, and a row with an acquisition label but no session label asks for nothing.
   */
  function Classify(row: Row): (a: Option<Action>)
    ensures a == Some(DeleteSubject(row.subjectId))
        <==> row.sessionLabel.None? && row.acquisitionLabel.None?
    ensures a == Some(DeleteSession(row.sessionId))
        <==> row.sessionLabel.Some? && row.acquisitionLabel.None?
    ensures a == Some(DeleteAcquisition(row.acquisitionId))
        <==> row.sessionLabel.Some? && row.acquisitionLabel.Some? && row.fileName.None?
    ensures a == None
        <==> row.acquisitionLabel.Some? && (row.sessionLabel.None? || row.fileName.Some?)
  {
    var nullAcq := row.acquisitionLabel.None?;
    var nullSes := row.sessionLabel.None?;
    var nullFile := row.fileName.None?;
    if nullSes && nullAcq then Some(DeleteSubject(row.subjectId))
    else if !nullSes && nullAcq then Some(DeleteSession(row.sessionId))
    else if !nullSes && !nullAcq && nullFile then Some(DeleteAcquisition(row.acquisitionId))
    else None
  }

  function Issued(a: Option<Action>): seq<Action> {
    if a.Some? then [a.value] else []
  }

  /**
   * The deletes for a table: each row's classification, in row order. A row contributes
   * at most one delete, so there are never more deletes than rows.
   */
  function Deletes(rows: seq<Row>): (r: seq<Action>)
    ensures |r| <= |rows|
  {
    if rows == [] then [] else Deletes(DropLast(rows)) + Issued(Classify(Last(rows)))
  }

  /** The deletes of a concatenation are the concatenation of the deletes. */
  lemma {:induction false} DeletesAppend(a: seq<Row>, b: seq<Row>)
    ensures Deletes(a + b) == Deletes(a) + Deletes(b)
    decreases |b|
  {
    if b != [] {
      var front, y := DropLast(b), Last(b);
      assert b == front + [y];
      assert a + b == (a + front) + [y];
      assert DropLast(a + b) == a + front;
      DeletesAppend(a, front);
    } else {
      assert a + b == a;
    }
  }

  /** Every delete comes from a row of the table, and every row that asks for one gets it. */
  lemma {:induction false} DeletesSources(rows: seq<Row>)
    ensures forall d :: d in Deletes(rows) <==> exists row :: row in rows && Classify(row) == Some(d)
  {
    if rows != [] {
      var front, y := DropLast(rows), Last(rows);
      assert rows == front + [y];
      DeletesSources(front);
      forall d
        ensures d in Deletes(rows) <==> exists row :: row in rows && Classify(row) == Some(d)
      {
        if d in Deletes(front) {
          var row :| row in front && Classify(row) == Some(d);
          assert row in rows;
        }
      }
    }
  }

  /**
   * The platform client: each delete call is recorded, in call order, in `log`.
   * The calls are fire-and-forget; their outcome is not observed.
   */
  class Client {
    var log: seq<Action>

    constructor ()
      ensures log == []
    {
      log := [];
    }

    method DeleteSubject(id: Option<Id>)
      modifies this
      ensures log == old(log) + [Action.DeleteSubject(id)]
    {
      log := log + [Action.DeleteSubject(id)];
    }

    method DeleteSession(id: Option<Id>)
      modifies this
      ensures log == old(log) + [Action.DeleteSession(id)]
    {
      log := log + [Action.DeleteSession(id)];
    }

    method DeleteAcquisition(id: Option<Id>)
      modifies this
      ensures log == old(log) + [Action.DeleteAcquisition(id)]
    {
      log := log + [Action.DeleteAcquisition(id)];
    }
  }

  /** Walks the table row by row, setting the three null flags and issuing the delete. */
  method DeleteEmptyContainers(fw: Client, df: seq<Row>)
    modifies fw
    ensures fw.log == old(fw.log) + Deletes(df)
  {
    for i := 0 to |df|
      invariant fw.log == old(fw.log) + Deletes(df[..i])
    {
      var row := df[i];
      var nullAcq, nullSes, nullFile := 0, 0, 0;
      if row.acquisitionLabel.None? {
        nullAcq := 1;
      }
      if row.sessionLabel.None? {
        nullSes := 1;
      }
      if row.fileName.None? {
        nullFile := 1;
      }
      if nullSes == 1 && nullAcq == 1 {
        fw.DeleteSubject(row.subjectId);
      } else if nullSes == 0 && nullAcq == 1 {
        fw.DeleteSession(row.sessionId);
      } else if nullSes == 0 && nullAcq == 0 && nullFile == 1 {
        fw.DeleteAcquisition(row.acquisitionId);
      }
      assert DropLast(df[..i + 1]) == df[..i];
    }
    assert df[..|df|] == df;
  }
}
