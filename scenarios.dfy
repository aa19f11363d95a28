/**
 * Concrete projects run through the model: a project with an old empty session and one with a
 * recent one, a project without rows, and the two projects whose tables lack a column the
 * masks read, both as the routine handles them and as the intended plan would.
 */
module Scenarios {
  import opened Wrappers
  import opened Rows
  import opened Seqs
  import opened Recency
  import opened Selection
  import opened Deletion
  import opened Routine

  const TWO_DAYS: int := 2 * SECONDS_PER_DAY
  const ONE_HOUR: int := 60 * 60

  /** A subject with no session: the session, acquisition and file cells are null. */
  function EmptySubjectRow(subjectCreated: Time): Row {
    Row(Some("p1"), Some("Project"), Some("sub1"), Some("Subject"), Some(subjectCreated),
        None, None, None, None, None, None, None, None, None)
  }

  /** Session `ses1` of subject `sub1`, without acquisitions: the trailing cells are null. */
  function EmptySessionRow(subjectCreated: Time, sessionCreated: Time): Row {
    Row(Some("p1"), Some("Project"), Some("sub1"), Some("Subject"), Some(subjectCreated),
        Some("ses1"), Some("Session 1"), Some(sessionCreated), None, None, None, None, None, None)
  }

  /** Session `ses2` of subject `sub1`, with one acquisition holding one file. */
  function FileRow(created: Time): Row {
    Row(Some("p1"), Some("Project"), Some("sub1"), Some("Subject"), Some(created),
        Some("ses2"), Some("Session 2"), Some(created), Some("acq2"), Some("Scan"),
        Some("scan.dcm"), Some("f2"), Some(created), Some("dicom"))
  }

  /** A single file-less row with no recent timestamp is sent on as it is. */
  lemma SelectOne(r: Row, lastDay: Time)
    requires Eligible(r, lastDay) && r.fileName.None?
    ensures EmptyContainers(RecencyFilter([r], lastDay)) == [r]
  {
    RecencyFilterIsSinglePass([r], lastDay);
    assert DropLast([r]) == [];
    assert KeepEligible([r], lastDay) == [r];
    assert FileLess([r]) == [r];
    assert DropDuplicates([r]) == [r];
  }

  /**
   * Of a row with a file name followed by a file-less row, both old enough, the file-less
   * row alone is sent on.
   */
  lemma SelectSecond(full: Row, r: Row, lastDay: Time)
    requires Eligible(full, lastDay) && full.fileName.Some?
    requires Eligible(r, lastDay) && r.fileName.None?
    ensures EmptyContainers(RecencyFilter([full, r], lastDay)) == [r]
  {
    RecencyFilterIsSinglePass([full, r], lastDay);
    assert DropLast([full, r]) == [full];
    assert DropLast([full]) == [];
    assert KeepEligible([full], lastDay) == [full];
    assert KeepEligible([full, r], lastDay) == [full, r];
    assert FileLess([full]) == [];
    assert FileLess([full, r]) == [r];
    assert DropDuplicates([r]) == [r];
  }

  lemma RunOne(v: Views, lastDay: Time)
    ensures RunDeletes([v], lastDay) == PlanDeletes(PlanProject(v, lastDay))
  {
    assert DropLast([v]) == [];
  }

  lemma DeletesOne(r: Row)
    ensures Deletes([r]) == Issued(Classify(r))
  {
    assert DropLast([r]) == [];
  }

  /**
   * An old subject with one old session that holds a file and one old session without
   * acquisitions: exactly the empty session is deleted, and not the subject.
   */
  lemma OldEmptySession(now: Time)
    ensures var v := Views(false, false, false,
                           [FileRow(now - TWO_DAYS), EmptySessionRow(now - TWO_DAYS, now - TWO_DAYS)]);
      RunDeletes([v], Cutoff(now)) == [DeleteSession(Some("ses1"))]
  {
    var full, empty := FileRow(now - TWO_DAYS), EmptySessionRow(now - TWO_DAYS, now - TWO_DAYS);
    var v := Views(false, false, false, [full, empty]);
    SelectSecond(full, empty, Cutoff(now));
    assert PlanProject(v, Cutoff(now)) == Delete([empty]);
    RunOne(v, Cutoff(now));
    DeletesOne(empty);
  }

  /** The same project with the empty session created an hour ago: nothing is deleted. */
  lemma RecentEmptySession(now: Time)
    ensures var v := Views(false, false, false,
                           [FileRow(now - TWO_DAYS), EmptySessionRow(now - TWO_DAYS, now - ONE_HOUR)]);
      RunDeletes([v], Cutoff(now)) == []
  {
    var full, recent := FileRow(now - TWO_DAYS), EmptySessionRow(now - TWO_DAYS, now - ONE_HOUR);
    RecencyFilterIsSinglePass([full, recent], Cutoff(now));
    assert DropLast([full, recent]) == [full];
    assert KeepEligible([full, recent], Cutoff(now)) == [full];
  }

  /** A project whose three views are empty is skipped and deletes nothing. */
  lemma EmptyProject(joined: seq<Row>, lastDay: Time)
    ensures PlanProject(Views(true, true, true, joined), lastDay) == Skip
    ensures RunDeletes([Views(true, true, true, joined)], lastDay) == []
  {
  }

  /**
   * As written: an old subject with one old session without acquisitions, in a project
   * without files, stops the run on the missing `file.created` column, and the empty session
   * is not deleted.
   */
  lemma NoFileViewStops(now: Time)
    ensures var v := Views(false, false, true, [EmptySessionRow(now - TWO_DAYS, now - TWO_DAYS)]);
      && PlanProject(v, Cutoff(now)) == MissingColumn("file.created")
      && RunDeletes([v], Cutoff(now)) == []
  {
  }

  /** As written: the run over that one project stops at it and issues no delete. */
  method NoFileViewRun(now: Time) returns (crashedAt: Option<nat>, log: seq<Action>)
    ensures crashedAt == Some(0)
    ensures log == []
  {
    var fw := new Client();
    crashedAt := Run(fw, [Views(false, false, true, [EmptySessionRow(now - TWO_DAYS, now - TWO_DAYS)])], now);
    log := fw.log;
  }

  /**
   * As written: an old subject without sessions, in a project without sessions and files,
   * stops the run on the missing `session.created` column, and the empty subject is not
   * deleted.
   */
  lemma SubjectOnlyStops(now: Time)
    ensures var v := Views(false, true, true, [EmptySubjectRow(now - TWO_DAYS)]);
      && PlanProject(v, Cutoff(now)) == MissingColumn("session.created")
      && RunDeletes([v], Cutoff(now)) == []
  {
  }

  /** Intended: the project without files would have its empty session deleted. */
  lemma IntendedNoFileView(now: Time)
    ensures var v := Views(false, false, true, [EmptySessionRow(now - TWO_DAYS, now - TWO_DAYS)]);
      PlanDeletes(IntendedPlan(v, Cutoff(now))) == [DeleteSession(Some("ses1"))]
  {
    var empty := EmptySessionRow(now - TWO_DAYS, now - TWO_DAYS);
    SelectOne(empty, Cutoff(now));
    assert Deletes([empty]) == [DeleteSession(Some("ses1"))];
  }

  /** Intended: the project with only a subject would have the empty subject deleted. */
  lemma IntendedSubjectOnly(now: Time)
    ensures var v := Views(false, true, true, [EmptySubjectRow(now - TWO_DAYS)]);
      PlanDeletes(IntendedPlan(v, Cutoff(now))) == [DeleteSubject(Some("sub1"))]
  {
    var empty := EmptySubjectRow(now - TWO_DAYS);
    SelectOne(empty, Cutoff(now));
    assert Deletes([empty]) == [DeleteSubject(Some("sub1"))];
  }
}
