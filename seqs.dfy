/** Order-preservation for sequences, used to say that a row filter keeps relative order. */
module Seqs {

  function Last<T>(s: seq<T>): T
    requires |s| > 0
  {
    s[|s| - 1]
  }

  function DropLast<T>(s: seq<T>): seq<T>
    requires |s| > 0
  {
    s[..|s| - 1]
  }

  lemma AppendAssoc<T>(a: seq<T>, b: seq<T>, c: seq<T>)
    ensures (a + b) + c == a + (b + c)
  {
  }

  /** No two positions of `s` hold equal elements. */
  predicate NoDuplicates<T(==)>(s: seq<T>) {
    forall i, j :: 0 <= i < j < |s| ==> s[i] != s[j]
  }

  /** The elements of `a` occur in `b` in the same relative order, possibly with gaps. */
  predicate IsSubseq<T(==)>(a: seq<T>, b: seq<T>)
    decreases |b|
  {
    if a == [] then true
    else if b == [] then false
    else if Last(a) == Last(b) then IsSubseq(DropLast(a), DropLast(b))
    else IsSubseq(a, DropLast(b))
  }

  /** Dropping the last element of a subsequence leaves a subsequence. */
  lemma {:induction false} SubseqDropLast<T>(a: seq<T>, b: seq<T>)
    requires |a| > 0 && IsSubseq(a, b)
    ensures IsSubseq(DropLast(a), b)
    decreases |b|, 0
  {
    if Last(a) == Last(b) {
      SubseqExtend(DropLast(a), DropLast(b), Last(b));
      assert DropLast(b) + [Last(b)] == b;
    } else {
      SubseqDropLast(a, DropLast(b));
      SubseqExtend(DropLast(a), DropLast(b), Last(b));
      assert DropLast(b) + [Last(b)] == b;
    }
  }

  /** A subsequence of `b` is a subsequence of any extension of `b`. */
  lemma {:induction false} SubseqExtend<T>(a: seq<T>, b: seq<T>, y: T)
    requires IsSubseq(a, b)
    ensures IsSubseq(a, b + [y])
    decreases |b|, 1
  {
    assert DropLast(b + [y]) == b;
    if a != [] && Last(a) == y {
      SubseqDropLast(a, b);
    }
  }

  /** Appending the same element to both sides keeps the relation. */
  lemma SubseqAppend<T>(a: seq<T>, b: seq<T>, y: T)
    requires IsSubseq(a, b)
    ensures IsSubseq(a + [y], b + [y])
  {
  }

  /** Being a subsequence is transitive. */
  lemma {:induction false} SubseqTransitive<T>(a: seq<T>, b: seq<T>, c: seq<T>)
    requires IsSubseq(a, b) && IsSubseq(b, c)
    ensures IsSubseq(a, c)
    decreases |c|
  {
    if a != [] {
      if Last(b) == Last(c) {
        if Last(a) == Last(b) {
          SubseqTransitive(DropLast(a), DropLast(b), DropLast(c));
        } else {
          SubseqTransitive(a, DropLast(b), DropLast(c));
          SubseqExtend(a, DropLast(c), Last(c));
          assert DropLast(c) + [Last(c)] == c;
        }
      } else {
        SubseqTransitive(a, b, DropLast(c));
        SubseqExtend(a, DropLast(c), Last(c));
        assert DropLast(c) + [Last(c)] == c;
      }
    }
  }
}
