/**
 * The recency filter: three successive row masks that drop every row whose subject,
 * session or file creation time is present and not strictly earlier than the cutoff.
 */
module Recency {
  import opened Wrappers
  import opened Rows
  import opened Seqs

  const SECONDS_PER_DAY: int := 24 * 60 * 60

  /** The cutoff `last_day`: the moment 24 hours before `now`. */
  function Cutoff(now: Time): (lastDay: Time)
    ensures lastDay < now && now - lastDay == SECONDS_PER_DAY
  {
    now - SECONDS_PER_DAY
  }

  /** The three timestamp columns the filter looks at. */
  datatype Level = SubjectLevel | SessionLevel | FileLevel

  function Created(row: Row, level: Level): Option<Time> {
    match level
    case SubjectLevel => row.subjectCreated
    case SessionLevel => row.sessionCreated
    case FileLevel => row.fileCreated
  }

  /** One mask: a null timestamp passes; a present one passes only if strictly earlier. */
  predicate Passes(t: Option<Time>, lastDay: Time) {
    t.None? || t.value < lastDay
  }

  /** A timestamp that makes the row too recent to touch. */
  predicate TooRecent(t: Option<Time>, lastDay: Time) {
    t.Some? && t.value >= lastDay
  }

  /** A row survives all three masks. */
  predicate Eligible(row: Row, lastDay: Time) {
    Passes(row.subjectCreated, lastDay) && Passes(row.sessionCreated, lastDay)
    && Passes(row.fileCreated, lastDay)
  }

  /** One mask line: keep, in order, the rows whose `level` timestamp passes. */
  function KeepOlder(rows: seq<Row>, level: Level, lastDay: Time): (r: seq<Row>)
    ensures |r| <= |rows|
    ensures forall row :: row in r ==> row in rows && Passes(Created(row, level), lastDay)
  {
    if rows == [] then []
    else
      KeepOlder(DropLast(rows), level, lastDay)
      + (if Passes(Created(Last(rows), level), lastDay) then [Last(rows)] else [])
  }

  /** The three mask lines applied one after another, subject, session, then file. */
  function RecencyFilter(rows: seq<Row>, lastDay: Time): seq<Row> {
    KeepOlder(KeepOlder(KeepOlder(rows, SubjectLevel, lastDay), SessionLevel, lastDay),
              FileLevel, lastDay)
  }

  /** Reference definition: one pass keeping the rows that pass every mask. */
  function KeepEligible(rows: seq<Row>, lastDay: Time): seq<Row> {
    if rows == [] then []
    else
      KeepEligible(DropLast(rows), lastDay)
      + (if Eligible(Last(rows), lastDay) then [Last(rows)] else [])
  }

  lemma KeepOlderSnoc(rows: seq<Row>, y: Row, level: Level, lastDay: Time)
    ensures KeepOlder(rows + [y], level, lastDay)
         == KeepOlder(rows, level, lastDay)
            + (if Passes(Created(y, level), lastDay) then [y] else [])
  {
  }

  lemma KeepEligibleSnoc(rows: seq<Row>, y: Row, lastDay: Time)
    ensures KeepEligible(rows + [y], lastDay)
         == KeepEligible(rows, lastDay) + (if Eligible(y, lastDay) then [y] else [])
  {
  }

  /** The three successive masks keep exactly the rows one combined mask keeps, in order. */
  lemma {:induction false} RecencyFilterIsSinglePass(rows: seq<Row>, lastDay: Time)
    ensures RecencyFilter(rows, lastDay) == KeepEligible(rows, lastDay)
  {
    if rows != [] {
      var front, y := DropLast(rows), Last(rows);
      assert rows == front + [y];
      RecencyFilterIsSinglePass(front, lastDay);
      var s1 := KeepOlder(front, SubjectLevel, lastDay);
      var s2 := KeepOlder(s1, SessionLevel, lastDay);
      assert RecencyFilter(front, lastDay) == KeepOlder(s2, FileLevel, lastDay);
      KeepOlderSnoc(front, y, SubjectLevel, lastDay);
      KeepEligibleSnoc(front, y, lastDay);
      if !Passes(y.subjectCreated, lastDay) {
        assert KeepOlder(rows, SubjectLevel, lastDay) == s1;
      } else {
        assert KeepOlder(rows, SubjectLevel, lastDay) == s1 + [y];
        KeepOlderSnoc(s1, y, SessionLevel, lastDay);
        if !Passes(y.sessionCreated, lastDay) {
          assert KeepOlder(s1 + [y], SessionLevel, lastDay) == s2;
        } else {
          assert KeepOlder(s1 + [y], SessionLevel, lastDay) == s2 + [y];
          KeepOlderSnoc(s2, y, FileLevel, lastDay);
        }
      }
    }
  }

  /** Multiplicity of every row under the one-pass reference filter. */
  lemma {:induction false} KeepEligibleCount(rows: seq<Row>, lastDay: Time, x: Row)
    ensures multiset(KeepEligible(rows, lastDay))[x]
         == if Eligible(x, lastDay) then multiset(rows)[x] else 0
  {
    if rows != [] {
      var front, y := DropLast(rows), Last(rows);
      assert rows == front + [y];
      KeepEligibleCount(front, lastDay, x);
      assert multiset(rows) == multiset(front) + multiset{y};
    }
  }

  /** The one-pass reference filter keeps relative order. */
  lemma {:induction false} KeepEligibleOrder(rows: seq<Row>, lastDay: Time)
    ensures IsSubseq(KeepEligible(rows, lastDay), rows)
  {
    if rows != [] {
      var front, y := DropLast(rows), Last(rows);
      assert rows == front + [y];
      KeepEligibleOrder(front, lastDay);
      KeepEligibleSnoc(front, y, lastDay);
      if Eligible(y, lastDay) {
        SubseqAppend(KeepEligible(front, lastDay), front, y);
      } else {
        SubseqExtend(KeepEligible(front, lastDay), front, y);
        assert KeepEligible(rows, lastDay) == KeepEligible(front, lastDay);
        assert IsSubseq(KeepEligible(front, lastDay), front + [y]);
      }
    }
  }

  /** Every row the one-pass reference filter keeps passes it. */
  lemma {:induction false} KeepEligibleSound(rows: seq<Row>, lastDay: Time)
    ensures forall row :: row in KeepEligible(rows, lastDay) ==> Eligible(row, lastDay)
  {
    if rows != [] {
      KeepEligibleSound(DropLast(rows), lastDay);
    }
  }

  /**
   * A row is removed exactly when one of its three timestamps is present and not earlier
   * than the cutoff; every other row keeps all of its copies.
   */
  lemma RecencyFilterRemovesExactlyRecent(rows: seq<Row>, lastDay: Time, x: Row)
    ensures multiset(RecencyFilter(rows, lastDay))[x]
         == if (exists level :: TooRecent(Created(x, level), lastDay)) then 0
            else multiset(rows)[x]
  {
    RecencyFilterIsSinglePass(rows, lastDay);
    KeepEligibleCount(rows, lastDay, x);
    if !Eligible(x, lastDay) {
      if !Passes(x.subjectCreated, lastDay) {
        assert TooRecent(Created(x, SubjectLevel), lastDay);
      } else if !Passes(x.sessionCreated, lastDay) {
        assert TooRecent(Created(x, SessionLevel), lastDay);
      } else {
        assert TooRecent(Created(x, FileLevel), lastDay);
      }
    }
  }

  /**
   * Every surviving row has each of its three timestamps missing or strictly earlier than
   * the cutoff, and a row survives exactly when it is in the input and passes all three.
   */
  lemma RecencyFilterMembers(rows: seq<Row>, lastDay: Time)
    ensures forall row :: row in RecencyFilter(rows, lastDay) <==> row in rows && Eligible(row, lastDay)
  {
    RecencyFilterIsSinglePass(rows, lastDay);
    forall row
      ensures row in KeepEligible(rows, lastDay) <==> row in rows && Eligible(row, lastDay)
    {
      KeepEligibleCount(rows, lastDay, row);
    }
  }

  /** The filter keeps the relative order of the rows it keeps. */
  lemma RecencyFilterOrder(rows: seq<Row>, lastDay: Time)
    ensures IsSubseq(RecencyFilter(rows, lastDay), rows)
  {
    RecencyFilterIsSinglePass(rows, lastDay);
    KeepEligibleOrder(rows, lastDay);
  }

  /** One-pass reference filter applied to its own output changes nothing. */
  lemma {:induction false} KeepEligibleIdempotent(rows: seq<Row>, lastDay: Time)
    ensures KeepEligible(KeepEligible(rows, lastDay), lastDay) == KeepEligible(rows, lastDay)
  {
    if rows != [] {
      var front, y := DropLast(rows), Last(rows);
      assert rows == front + [y];
      KeepEligibleIdempotent(front, lastDay);
      KeepEligibleSnoc(front, y, lastDay);
      if Eligible(y, lastDay) {
        assert KeepEligible(rows, lastDay) == KeepEligible(front, lastDay) + [y];
        KeepEligibleSnoc(KeepEligible(front, lastDay), y, lastDay);
      } else {
        assert KeepEligible(rows, lastDay) == KeepEligible(front, lastDay);
      }
    }
  }

  /** Filtering a second time with the same cutoff removes nothing more. */
  lemma RecencyFilterIdempotent(rows: seq<Row>, lastDay: Time)
    ensures RecencyFilter(RecencyFilter(rows, lastDay), lastDay) == RecencyFilter(rows, lastDay)
  {
    RecencyFilterIsSinglePass(rows, lastDay);
    RecencyFilterIsSinglePass(KeepEligible(rows, lastDay), lastDay);
    KeepEligibleIdempotent(rows, lastDay);
  }
}
