/** nlargest(n, col) with keep='first' on a stretch table: the n rows with the
    largest totals, largest first, and of equal totals at the cut the ones the
    table has first. Ties inside the result are put in table order. */
module Ranking {
  import opened Tables

  /** The number of stretches reported. */
  const TopCount: nat := 30

  /** A row tagged with its position in the table being ranked. */
  datatype Ranked = Ranked(pos: nat, row: StretchRow)

  /** The ranking order: larger total first, and for equal totals the row seen
      first. */
  predicate Before(a: Ranked, b: Ranked)
  {
    a.row.total > b.row.total || (a.row.total == b.row.total && a.pos < b.pos)
  }

  predicate RankSorted(s: seq<Ranked>)
  {
    forall i, j :: 0 <= i < j < |s| ==> Before(s[i], s[j])
  }

  predicate DistinctPositions(s: seq<Ranked>)
  {
    forall i, j :: 0 <= i < j < |s| ==> s[i].pos != s[j].pos
  }

  function Tag(t: seq<StretchRow>): seq<Ranked>
  {
    seq(|t|, i requires 0 <= i < |t| => Ranked(i, t[i]))
  }

  function Insert(x: Ranked, s: seq<Ranked>): seq<Ranked>
  {
    if s == [] then [x]
    else if Before(x, s[0]) then [x] + s
    else [s[0]] + Insert(x, s[1..])
  }

  function RankSort(s: seq<Ranked>): seq<Ranked>
  {
    if s == [] then [] else Insert(s[0], RankSort(s[1..]))
  }

  function Take<T>(s: seq<T>, n: nat): seq<T>
  {
    if |s| <= n then s else s[..n]
  }

  /** The selected rows, tagged with their positions in the input. */
  function Selection(n: nat, t: seq<StretchRow>): seq<Ranked>
  {
    Take(RankSort(Tag(t)), n)
  }

  /** table.nlargest(n, 'total'): min(n, |t|) rows of the table, largest
      total first. */
  function NLargest(n: nat, t: seq<StretchRow>): (r: seq<StretchRow>)
    ensures |r| == if |t| < n then |t| else n
    ensures forall i :: 0 <= i < |r| ==> r[i] in t
    ensures forall i, j :: 0 <= i < j < |r| ==> r[i].total >= r[j].total
  {
    SortedTagged(t);
    var sel := Selection(n, t);
    assert forall i :: 0 <= i < |sel| ==> sel[i] == RankSort(Tag(t))[i] && sel[i] in RankSort(Tag(t));
    seq(|sel|, i requires 0 <= i < |sel| => sel[i].row)
  }

  /** The positions in the input of the rows NLargest selects, in rank order. */
  function NLargestPositions(n: nat, t: seq<StretchRow>): seq<nat>
  {
    var sel := Selection(n, t);
    seq(|sel|, i requires 0 <= i < |sel| => sel[i].pos)
  }

  lemma {:induction false} InsertMultiset(x: Ranked, s: seq<Ranked>)
    ensures multiset(Insert(x, s)) == multiset(s) + multiset{x}
    decreases |s|
  {
    if s != [] && !Before(x, s[0]) {
      InsertMultiset(x, s[1..]);
      assert s == [s[0]] + s[1..];
    }
  }

  lemma {:induction false} InsertSpec(x: Ranked, s: seq<Ranked>)
    requires RankSorted(s)
    requires forall i :: 0 <= i < |s| ==> s[i].pos != x.pos
    ensures RankSorted(Insert(x, s))
    ensures multiset(Insert(x, s)) == multiset(s) + multiset{x}
    decreases |s|
  {
    InsertMultiset(x, s);
    if s != [] && !Before(x, s[0]) {
      var t := s[1..];
      InsertSpec(x, t);
      var r := Insert(x, t);
      InsertFirst(x, s, r);
    } else if s != [] {
      forall j | 0 < j < |s| + 1
        ensures Before(x, ([x] + s)[j])
      {
        assert ([x] + s)[j] == s[j - 1];
        if j > 1 { assert Before(s[0], s[j - 1]); }
      }
    }
  }

  /** The step of InsertSpec where x goes after the head of s. */
  lemma InsertFirst(x: Ranked, s: seq<Ranked>, r: seq<Ranked>)
    requires s != [] && RankSorted(s) && !Before(x, s[0]) && x.pos != s[0].pos
    requires RankSorted(r) && multiset(r) == multiset(s[1..]) + multiset{x}
    ensures RankSorted([s[0]] + r)
  {
    var t := s[1..];
    forall e | e in r
      ensures Before(s[0], e)
    {
      assert e in multiset(t) + multiset{x};
      if e != x {
        var k :| 0 <= k < |t| && t[k] == e;
        assert s[k + 1] == e;
      }
    }
    var out := [s[0]] + r;
    forall i, j | 0 <= i < j < |out|
      ensures Before(out[i], out[j])
    {
      if i == 0 {
        assert out[j] == r[j - 1];
        assert out[j] in r;
      } else {
        assert out[i] == r[i - 1] && out[j] == r[j - 1];
      }
    }
  }

  lemma {:induction false} RankSortSpec(s: seq<Ranked>)
    requires DistinctPositions(s)
    ensures RankSorted(RankSort(s))
    ensures multiset(RankSort(s)) == multiset(s)
    decreases |s|
  {
    if s != [] {
      var t := s[1..];
      assert DistinctPositions(t) by {
        assert forall i :: 0 <= i < |t| ==> t[i] == s[i + 1];
      }
      assert forall k :: 0 <= k < |t| ==> t[k].pos != s[0].pos by {
        assert forall k :: 0 <= k < |t| ==> t[k] == s[k + 1];
      }
      RankSortSpec(t);
      var r := RankSort(t);
      PositionAbsent(t, r, s[0].pos);
      InsertSpec(s[0], r);
      assert s == [s[0]] + t;
    }
  }

  /** A position absent from a list is absent from any permutation of it. */
  lemma PositionAbsent(t: seq<Ranked>, r: seq<Ranked>, p: nat)
    requires multiset(r) == multiset(t)
    requires forall k :: 0 <= k < |t| ==> t[k].pos != p
    ensures forall i :: 0 <= i < |r| ==> r[i].pos != p
  {
    forall i | 0 <= i < |r|
      ensures r[i].pos != p
    {
      assert r[i] in multiset(t);
    }
  }

  /** Ranking a list already in ranking order leaves it as it is. */
  lemma {:induction false} RankSortSorted(s: seq<Ranked>)
    requires RankSorted(s)
    ensures RankSort(s) == s
    decreases |s|
  {
    if s != [] {
      var t := s[1..];
      assert forall i, j :: 0 <= i < j < |t| ==> t[i] == s[i + 1] && t[j] == s[j + 1];
      RankSortSorted(t);
      assert s == [s[0]] + t;
    }
  }

  lemma TagFacts(t: seq<StretchRow>)
    ensures |Tag(t)| == |t| && DistinctPositions(Tag(t))
    ensures forall i :: 0 <= i < |t| ==> Tag(t)[i] == Ranked(i, t[i])
  {
  }

  /** Properties of the ranked tagged table used by the lemmas below. */
  lemma {:induction false} SortedTagged(t: seq<StretchRow>)
    ensures |RankSort(Tag(t))| == |t|
    ensures RankSorted(RankSort(Tag(t)))
    ensures forall i :: 0 <= i < |t| ==> Ranked(i, t[i]) in RankSort(Tag(t))
    ensures forall e :: e in RankSort(Tag(t)) ==> e.pos < |t| && e.row == t[e.pos]
    ensures DistinctPositions(RankSort(Tag(t)))
  {
    var tg := Tag(t);
    TagFacts(t);
    RankSortSpec(tg);
    var r := RankSort(tg);
    assert |r| == |multiset(r)| == |multiset(tg)| == |tg|;
    forall i | 0 <= i < |t|
      ensures Ranked(i, t[i]) in r
    {
      assert tg[i] in multiset(tg);
    }
    forall e | e in r
      ensures e.pos < |t| && e.row == t[e.pos]
    {
      assert e in multiset(tg);
    }
    forall i, j | 0 <= i < j < |r|
      ensures r[i].pos != r[j].pos
    {
      assert Before(r[i], r[j]);
    }
  }

  /** A row that is not among the first k of a ranked list ranks below each
      of them. */
  lemma LeftOutRanksLower(r: seq<Ranked>, k: nat, e: Ranked)
    requires RankSorted(r) && e in r
    requires forall m :: 0 <= m < |r| && m < k ==> r[m] != e
    ensures forall i :: 0 <= i < |r| && i < k ==> Before(r[i], e)
  {
    var m :| 0 <= m < |r| && r[m] == e;
    assert forall i :: 0 <= i < |r| && i < k ==> Before(r[i], r[m]);
  }

  /** nlargest(n, col) returns min(n, |t|) rows, each a row of the table
      taken once. */
  lemma NLargestRows(n: nat, t: seq<StretchRow>)
    ensures |NLargest(n, t)| == |NLargestPositions(n, t)| == (if |t| < n then |t| else n)
    ensures forall i :: 0 <= i < |NLargest(n, t)| ==>
      NLargestPositions(n, t)[i] < |t| && NLargest(n, t)[i] == t[NLargestPositions(n, t)[i]]
    ensures forall i, j :: 0 <= i < j < |NLargest(n, t)| ==>
      NLargestPositions(n, t)[i] != NLargestPositions(n, t)[j]
  {
    SortedTagged(t);
    var r := RankSort(Tag(t));
    var sel := Selection(n, t);
    assert forall i :: 0 <= i < |sel| ==> sel[i] == r[i] && r[i] in r;
  }

  /** The rows come largest total first, and equal totals in table order. */
  lemma NLargestOrder(n: nat, t: seq<StretchRow>)
    ensures forall i, j :: 0 <= i < j < |NLargest(n, t)| ==>
      NLargest(n, t)[i].total >= NLargest(n, t)[j].total
    ensures forall i, j :: 0 <= i < j < |NLargest(n, t)| && NLargest(n, t)[i].total == NLargest(n, t)[j].total ==>
      NLargestPositions(n, t)[i] < NLargestPositions(n, t)[j]
  {
    SortedTagged(t);
    var r := RankSort(Tag(t));
    var sel := Selection(n, t);
    assert forall i, j :: 0 <= i < j < |sel| ==> Before(sel[i], sel[j]);
  }

  /** No row left out has a larger total than a selected row, nor an equal
      total at an earlier position (keep='first'). */
  lemma NLargestLeftOut(n: nat, t: seq<StretchRow>, p: nat)
    requires p < |t| && p !in NLargestPositions(n, t)
    ensures forall i :: 0 <= i < |NLargest(n, t)| ==>
      NLargest(n, t)[i].total >= t[p].total &&
      (NLargest(n, t)[i].total == t[p].total ==> NLargestPositions(n, t)[i] < p)
  {
    SortedTagged(t);
    var r := RankSort(Tag(t));
    var sel := Selection(n, t);
    var pos := NLargestPositions(n, t);
    assert forall m :: 0 <= m < |sel| ==> sel[m] == r[m] && pos[m] == r[m].pos;
    LeftOutRanksLower(r, |sel|, Ranked(p, t[p]));
  }

  /** Ranking the top rows again gives them back unchanged, under the model's
      order of equal totals (table order). */
  lemma NLargestIdempotent(n: nat, t: seq<StretchRow>)
    ensures NLargest(n, NLargest(n, t)) == NLargest(n, t)
  {
    var top := NLargest(n, t);
    NLargestRows(n, t);
    NLargestOrder(n, t);
    TagFacts(top);
    var tg := Tag(top);
    assert RankSorted(tg) by {
      forall i, j | 0 <= i < j < |tg|
        ensures Before(tg[i], tg[j])
      {
        assert tg[i] == Ranked(i, top[i]) && tg[j] == Ranked(j, top[j]);
      }
    }
    RankSortSorted(tg);
    assert Selection(n, top) == tg;
  }
}
