/**
 * The routine's main loop: one cutoff for the whole run, then for every project the choice
 * between skipping it, failing on a missing column, or filtering, selecting and deleting.
 */
module Routine {
  import opened Wrappers
  import opened Rows
  import opened Seqs
  import opened Recency
  import opened Selection
  import opened Deletion

  /**
   * What the platform returned for one project: whether each of the subject, session and
   * file views is empty, and the outer join of the non-empty ones.
   */
  datatype Views = Views(
    subjectsEmpty: bool,
    sessionsEmpty: bool,
    filesEmpty: bool,
    joined: seq<Row>)

  /** What happens to one project. */
  datatype Plan =
    | Skip                           // all three views empty: nothing is filtered or deleted
    | MissingColumn(column: string)  // the table lacks a column a mask reads; the run stops
    | Delete(rows: seq<Row>)         // these rows go to the delete routine

  predicate AllEmpty(v: Views) {
    v.subjectsEmpty && v.sessionsEmpty && v.filesEmpty
  }

  /** Only the subject view has rows, so the table is the subject view alone. */
  predicate SubjectsOnly(v: Views) {
    v.sessionsEmpty && v.filesEmpty && !v.subjectsEmpty
  }

  /**
   * Subjects and sessions have rows but the file view is empty, so the table is the join of
   * the session and subject views alone and has none of the acquisition and file columns.
   */
  predicate NoFileView(v: Views) {
    !v.sessionsEmpty && v.filesEmpty && !v.subjectsEmpty
  }

  /**
   * The project's table lacks a column the masks read: `session.created` for a subject-only
   * table, `file.created` for a table without the file view.
   */
  predicate StopsRun(v: Views) {
    SubjectsOnly(v) || NoFileView(v)
  }

  /** No project of `projects` stops the run. */
  predicate RunsThrough(projects: seq<Views>) {
    projects == [] || (RunsThrough(DropLast(projects)) && !StopsRun(Last(projects)))
  }

  /**
   * A run goes through exactly when no project has a non-empty subject view together with
   * an empty file view.
   */
  lemma {:induction false} RunsThroughAll(projects: seq<Views>)
    ensures RunsThrough(projects) <==>
      forall k :: 0 <= k < |projects| ==>
        !(projects[k].filesEmpty && !projects[k].subjectsEmpty)
  {
    if projects != [] {
      RunsThroughAll(DropLast(projects));
      assert forall k :: 0 <= k < |projects| - 1 ==> DropLast(projects)[k] == projects[k];
    }
  }

  /**
   * The plan the routine is meant to follow: skip a project without rows, and otherwise
   * filter its table and select its empty containers, whichever views have rows.
   */
  function IntendedPlan(v: Views, lastDay: Time): Plan {
    if AllEmpty(v) then Skip
    else Delete(EmptyContainers(RecencyFilter(v.joined, lastDay)))
  }

  /**
   * The plan the routine follows for one project at cutoff `lastDay`: the intended plan,
   * except where the table lacks a column the masks read.
   */
  function PlanProject(v: Views, lastDay: Time): Plan {
    if SubjectsOnly(v) then MissingColumn("session.created")
    else if NoFileView(v) then MissingColumn("file.created")
    else IntendedPlan(v, lastDay)
  }

  /**
   * The intended plan never fails: it skips exactly the projects without rows, and
   * otherwise sends to the delete routine exactly the distinct rows of the joined table that
   * carry no file name and have no timestamp at or after the cutoff, each once. It is the
   * plan the routine follows wherever no column is missing.
   */
  lemma IntendedPlanSpec(v: Views, lastDay: Time)
    ensures var p := IntendedPlan(v, lastDay);
      && !p.MissingColumn?
      && (p.Skip? <==> AllEmpty(v))
      && (p.Delete? ==> NoDuplicates(p.rows))
      && (p.Delete? ==>
            forall row :: (row in p.rows
                           <==> row in v.joined && row.fileName.None? && Eligible(row, lastDay)))
      && (!StopsRun(v) ==> PlanProject(v, lastDay) == p)
  {
    if !AllEmpty(v) {
      var filtered := RecencyFilter(v.joined, lastDay);
      RecencyFilterMembers(v.joined, lastDay);
      EmptyContainersSpec(filtered);
      assert forall row ::
        (row in EmptyContainers(filtered) <==> multiset(EmptyContainers(filtered))[row] > 0);
    }
  }

  /**
   * A project is skipped exactly when its three views are empty. It stops the run on the
   * missing `session.created` column exactly when only its subject view has rows, and on the
   * missing `file.created` column exactly when its subject and session views have rows and
   * its file view has none. Otherwise the rows sent to the delete routine are
   * exactly the distinct rows of the joined table that carry no file name and have no
   * timestamp at or after the cutoff, each once.
   */
  lemma PlanProjectSpec(v: Views, lastDay: Time)
    ensures var p := PlanProject(v, lastDay);
      && (p.Skip? <==> AllEmpty(v))
      && (p.MissingColumn? <==> StopsRun(v))
      && (p == MissingColumn("session.created") <==> SubjectsOnly(v))
      && (p == MissingColumn("file.created") <==> NoFileView(v))
      && (p.Delete? ==> NoDuplicates(p.rows))
      && (p.Delete? ==>
            forall row :: (row in p.rows
                           <==> row in v.joined && row.fileName.None? && Eligible(row, lastDay)))
  {
    IntendedPlanSpec(v, lastDay);
  }

  function PlanDeletes(p: Plan): seq<Action> {
    if p.Delete? then Deletes(p.rows) else []
  }

  /** The deletes of a run over `projects` in which no project stops it, in project order. */
  function RunDeletes(projects: seq<Views>, lastDay: Time): seq<Action> {
    if projects == [] then []
    else RunDeletes(DropLast(projects), lastDay) + PlanDeletes(PlanProject(Last(projects), lastDay))
  }

  /**
   * A project's deletes are exactly the classifications of its file-less, old-enough rows;
   * in particular no row carrying a file name and no row with a recent timestamp causes a
   * delete, and a skipped or failing project causes none.
   */
  lemma ProjectDeletesJustified(v: Views, lastDay: Time)
    ensures forall d ::
      (d in PlanDeletes(PlanProject(v, lastDay))
       <==> !AllEmpty(v) && !StopsRun(v)
            && exists row :: (row in v.joined && row.fileName.None? && Eligible(row, lastDay)
                              && Classify(row) == Some(d)))
  {
    var p := PlanProject(v, lastDay);
    PlanProjectSpec(v, lastDay);
    if p.Delete? {
      DeletesSources(p.rows);
    }
  }

  /** Every delete of a run comes from a file-less, old-enough row of one of its projects. */
  lemma {:induction false} RunDeletesJustified(projects: seq<Views>, lastDay: Time)
    ensures forall d :: d in RunDeletes(projects, lastDay) ==>
      exists k, row ::
        (0 <= k < |projects| && row in projects[k].joined
         && row.fileName.None? && Eligible(row, lastDay) && Classify(row) == Some(d))
  {
    if projects != [] {
      var front, v := DropLast(projects), Last(projects);
      RunDeletesJustified(front, lastDay);
      ProjectDeletesJustified(v, lastDay);
      forall d | d in RunDeletes(projects, lastDay)
        ensures exists k, row ::
          (0 <= k < |projects| && row in projects[k].joined
           && row.fileName.None? && Eligible(row, lastDay) && Classify(row) == Some(d))
      {
        if d in RunDeletes(front, lastDay) {
          var k, row :| 0 <= k < |front| && row in front[k].joined
            && row.fileName.None? && Eligible(row, lastDay) && Classify(row) == Some(d);
          assert projects[k] == front[k];
        } else {
          var row :| row in v.joined && row.fileName.None? && Eligible(row, lastDay)
            && Classify(row) == Some(d);
          assert projects[|projects| - 1] == v;
        }
      }
    }
  }

  lemma RunDeletesSnoc(projects: seq<Views>, i: nat, lastDay: Time)
    requires i < |projects|
    ensures RunDeletes(projects[..i + 1], lastDay)
         == RunDeletes(projects[..i], lastDay) + PlanDeletes(PlanProject(projects[i], lastDay))
  {
    assert DropLast(projects[..i + 1]) == projects[..i];
  }

  /**
   * The body of the main loop for one project. Returns true when the project stops the run
   * because a mask finds no column to read; nothing is deleted for that project.
   */
  method ProcessProject(fw: Client, v: Views, lastDay: Time) returns (crashed: bool)
    modifies fw
    ensures crashed <==> StopsRun(v)
    ensures crashed ==> fw.log == old(fw.log)
    ensures fw.log == old(fw.log) + PlanDeletes(PlanProject(v, lastDay))
  {
    var stopProcessing := 0;
    var fullDf: seq<Row> := [];
    if v.sessionsEmpty && v.filesEmpty && v.subjectsEmpty {
      stopProcessing := 1;
    } else if v.sessionsEmpty && v.filesEmpty && !v.subjectsEmpty {
      // The table is the subject view alone: the session mask has no column to read.
      return true;
    } else if !v.sessionsEmpty && v.filesEmpty && !v.subjectsEmpty {
      // The table joins the session and subject views only: the file mask has no column.
      return true;
    } else {
      fullDf := v.joined;
    }
    if stopProcessing == 0 {
      fullDf := KeepOlder(fullDf, SubjectLevel, lastDay);
      fullDf := KeepOlder(fullDf, SessionLevel, lastDay);
      fullDf := KeepOlder(fullDf, FileLevel, lastDay);
      var emptyContainers := EmptyContainers(fullDf);
      assert PlanProject(v, lastDay) == Delete(emptyContainers);
      if emptyContainers != [] {
        DeleteEmptyContainers(fw, emptyContainers);
      }
    }
    return false;
  }

  /**
   * The whole run. The cutoff is taken once from `now` before the first project, so every
   * project is filtered against the same cutoff. The first project whose table lacks a
   * column the masks read makes the run stop there; the deletes of the projects before it
   * stand. `crashedAt` is the index of that project, if any.
   */
  method Run(fw: Client, projects: seq<Views>, now: Time) returns (crashedAt: Option<nat>)
    modifies fw
    ensures crashedAt.None? ==>
      && RunsThrough(projects)
      && fw.log == old(fw.log) + RunDeletes(projects, Cutoff(now))
    ensures crashedAt.Some? ==>
      && crashedAt.value < |projects|
      && StopsRun(projects[crashedAt.value])
      && RunsThrough(projects[..crashedAt.value])
      && fw.log == old(fw.log) + RunDeletes(projects[..crashedAt.value], Cutoff(now))
  {
    var lastDay := Cutoff(now);
    for i := 0 to |projects|
      invariant RunsThrough(projects[..i])
      invariant fw.log == old(fw.log) + RunDeletes(projects[..i], lastDay)
    {
      var crashed := ProcessProject(fw, projects[i], lastDay);
      if crashed {
        return Some(i);
      }
      RunDeletesSnoc(projects, i, lastDay);
      AppendAssoc(old(fw.log), RunDeletes(projects[..i], lastDay),
                  PlanDeletes(PlanProject(projects[i], lastDay)));
      assert DropLast(projects[..i + 1]) == projects[..i];
    }
    assert projects[..|projects|] == projects;
    return None;
  }
}
