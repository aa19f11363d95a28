/**
 * Pre-selection of candidate rows: keep the rows whose file name is null, then drop exact
 * duplicate rows, keeping the first copy of each.
 */
module Selection {
  import opened Wrappers
  import opened Rows
  import opened Seqs

  /** The mask `file.name` is null, keeping order. */
  function FileLess(rows: seq<Row>): (r: seq<Row>)
    ensures |r| <= |rows|
    ensures forall row :: row in r ==> row in rows && row.fileName.None?
  {
    if rows == [] then []
    else FileLess(DropLast(rows)) + (if Last(rows).fileName.None? then [Last(rows)] else [])
  }

  /** Exact-duplicate removal: a row is kept only if no identical row came before it. */
  function DropDuplicates(rows: seq<Row>): (r: seq<Row>)
    ensures |r| <= |rows|
    ensures forall row :: row in r <==> row in rows
  {
    if rows == [] then []
    else
      var kept := DropDuplicates(DropLast(rows));
      if Last(rows) in kept then kept else kept + [Last(rows)]
  }

  /**
   * Reference definition of keeping first copies, by position: of the first `n` rows, the
   * row at position `i` is kept exactly when no identical row stands at a position before `i`.
   */
  function FirstCopiesUpTo(rows: seq<Row>, n: nat): seq<Row>
    requires n <= |rows|
  {
    if n == 0 then []
    else FirstCopiesUpTo(rows, n - 1) + (if rows[n - 1] !in rows[..n - 1] then [rows[n - 1]] else [])
  }

  function FirstCopies(rows: seq<Row>): seq<Row> {
    FirstCopiesUpTo(rows, |rows|)
  }

  /** The rows handed to the delete routine. */
  function EmptyContainers(rows: seq<Row>): seq<Row> {
    DropDuplicates(FileLess(rows))
  }

  /** Multiplicity of every row under the file-name mask. */
  lemma {:induction false} FileLessCount(rows: seq<Row>, x: Row)
    ensures multiset(FileLess(rows))[x] == if x.fileName.None? then multiset(rows)[x] else 0
  {
    if rows != [] {
      var front, y := DropLast(rows), Last(rows);
      assert rows == front + [y];
      FileLessCount(front, x);
      assert multiset(rows) == multiset(front) + multiset{y};
    }
  }

  /** The file-name mask keeps relative order. */
  lemma {:induction false} FileLessOrder(rows: seq<Row>)
    ensures IsSubseq(FileLess(rows), rows)
  {
    if rows != [] {
      var front, y := DropLast(rows), Last(rows);
      assert rows == front + [y];
      FileLessOrder(front);
      if y.fileName.None? {
        SubseqAppend(FileLess(front), front, y);
      } else {
        SubseqExtend(FileLess(front), front, y);
        assert FileLess(rows) == FileLess(front);
        assert IsSubseq(FileLess(front), front + [y]);
      }
    }
  }

  /** No two positions of the deduplicated table hold identical rows. */
  lemma {:induction false} DropDuplicatesDistinct(rows: seq<Row>)
    ensures NoDuplicates(DropDuplicates(rows))
  {
    if rows != [] {
      var front, y := DropLast(rows), Last(rows);
      DropDuplicatesDistinct(front);
      var kept := DropDuplicates(front);
      if y !in kept {
        var r := kept + [y];
        forall i, j | 0 <= i < j < |r| ensures r[i] != r[j] {
          if j == |kept| {
            assert r[i] == kept[i] && kept[i] in kept;
          } else {
            assert r[i] == kept[i] && r[j] == kept[j];
          }
        }
        assert DropDuplicates(rows) == r;
      }
    }
  }

  /** Every row of the input appears exactly once after deduplication. */
  lemma {:induction false} DropDuplicatesCount(rows: seq<Row>, x: Row)
    ensures multiset(DropDuplicates(rows))[x] == if x in rows then 1 else 0
  {
    if rows != [] {
      var front, y := DropLast(rows), Last(rows);
      assert rows == front + [y];
      DropDuplicatesCount(front, x);
      var kept := DropDuplicates(front);
      if y !in kept {
        assert multiset(kept + [y]) == multiset(kept) + multiset{y};
      }
    }
  }

  /** Deduplication keeps the relative order of the first copies. */
  lemma {:induction false} DropDuplicatesOrder(rows: seq<Row>)
    ensures IsSubseq(DropDuplicates(rows), rows)
  {
    if rows != [] {
      var front, y := DropLast(rows), Last(rows);
      assert rows == front + [y];
      DropDuplicatesOrder(front);
      var kept := DropDuplicates(front);
      if y in kept {
        SubseqExtend(kept, front, y);
        assert IsSubseq(kept, front + [y]);
      } else {
        SubseqAppend(kept, front, y);
        assert IsSubseq(kept + [y], front + [y]);
      }
    }
  }

  lemma {:induction false} DropDuplicatesPrefix(rows: seq<Row>, n: nat)
    requires n <= |rows|
    ensures DropDuplicates(rows[..n]) == FirstCopiesUpTo(rows, n)
  {
    if n > 0 {
      DropDuplicatesPrefix(rows, n - 1);
      assert DropLast(rows[..n]) == rows[..n - 1];
      assert Last(rows[..n]) == rows[n - 1];
    }
  }

  /**
   * Deduplication keeps, of each group of identical rows, the copy at the earliest position
   * and drops every later one, in input order.
   */
  lemma DropDuplicatesKeepsFirstCopies(rows: seq<Row>)
    ensures DropDuplicates(rows) == FirstCopies(rows)
  {
    DropDuplicatesPrefix(rows, |rows|);
    assert rows[..|rows|] == rows;
  }

  /**
   * The rows passed on are exactly the distinct file-less rows of the input, each once, in
   * the order of their first occurrence, and none of them carries a file name: of identical
   * file-less rows the first copy is the one kept.
   */
  lemma EmptyContainersSpec(rows: seq<Row>)
    ensures var r := EmptyContainers(rows);
      && (forall row :: row in r ==> row.fileName.None?)
      && (forall x :: multiset(r)[x] == if x in rows && x.fileName.None? then 1 else 0)
      && NoDuplicates(r)
      && IsSubseq(r, rows)
      && r == FirstCopies(FileLess(rows))
  {
    var f := FileLess(rows);
    forall x
      ensures multiset(EmptyContainers(rows))[x] == if x in rows && x.fileName.None? then 1 else 0
    {
      DropDuplicatesCount(f, x);
      FileLessCount(rows, x);
    }
    DropDuplicatesDistinct(f);
    FileLessOrder(rows);
    DropDuplicatesOrder(f);
    SubseqTransitive(DropDuplicates(f), f, rows);
    DropDuplicatesKeepsFirstCopies(f);
  }
}
