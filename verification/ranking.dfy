/**
 Ranking of catalog entries by their fused score: the stable descending sort
 of `enumerate(combined_scores)` and the cut to the first `k` pairs.

 Python's `sorted(..., reverse=True)` is stable, so entries with equal scores
 keep the order they had in the input, which for `enumerate` is ascending
 catalog index. `Before` states that order directly; `StableSortDescending`
 is an insertion sort that realises it, and `RankedUnique` shows there is
 only one arrangement of the entries that respects it.
 */
module Ranking {

  /** One `(index, score)` pair of `enumerate(combined_scores)`. */
  datatype Match = Match(index: nat, score: real)

  /** `a` comes before `b` in the ranking: a higher score, or an equal score
      and a lower catalog index. */
  predicate Before(a: Match, b: Match) {
    a.score > b.score || (a.score == b.score && a.index < b.index)
  }

  /** Every entry comes strictly before every later entry. */
  predicate Ranked(s: seq<Match>) {
    forall i, j :: 0 <= i < j < |s| ==> Before(s[i], s[j])
  }

  /** Scores are non-increasing along `s`. */
  predicate Descending(s: seq<Match>) {
    forall i, j :: 0 <= i < j < |s| ==> s[i].score >= s[j].score
  }

  /** Catalog indices strictly increase along `s`, as they do in `enumerate`. */
  predicate IndexOrdered(s: seq<Match>) {
    forall i, j :: 0 <= i < j < |s| ==> s[i].index < s[j].index
  }

  /** Python's `enumerate(scores)`. */
  function Enumerate(scores: seq<real>): (r: seq<Match>)
    ensures |r| == |scores|
    ensures forall i :: 0 <= i < |r| ==> r[i].index == i && r[i].score == scores[i]
    ensures IndexOrdered(r)
  {
    seq(|scores|, i requires 0 <= i < |scores| => Match(i, scores[i]))
  }

  /** Insert `m` into a descending sequence, in front of the first entry whose
      score does not exceed that of `m`: `m` goes ahead of entries with an
      equal score, as `m` came first in the input. */
  function Insert(m: Match, s: seq<Match>): (r: seq<Match>)
    ensures |r| == |s| + 1
    ensures multiset(r) == multiset(s) + multiset{m}
    ensures forall x :: x in r <==> x == m || x in s
  {
    if s == [] || m.score >= s[0].score then [m] + s
    else
      assert s == [s[0]] + s[1..];
      [s[0]] + Insert(m, s[1..])
  }

  /** The stable descending sort of `sorted(s, key=lambda x: x[1], reverse=True)`. */
  function StableSortDescending(s: seq<Match>): (r: seq<Match>)
    ensures |r| == |s|
    ensures multiset(r) == multiset(s)
    ensures forall x :: x in r <==> x in s
  {
    if s == [] then []
    else
      assert s == [s[0]] + s[1..];
      Insert(s[0], StableSortDescending(s[1..]))
  }

  /** Inserting keeps a descending sequence descending. */
  lemma {:induction false} InsertDescending(m: Match, s: seq<Match>)
    requires Descending(s)
    ensures Descending(Insert(m, s))
    decreases |s|
  {
    if s == [] || m.score >= s[0].score {
    } else {
      InsertDescending(m, s[1..]);
      var t := Insert(m, s[1..]);
      forall j | 0 <= j < |t| ensures s[0].score >= t[j].score {
        assert t[j] in t;
      }
    }
  }

  /** The sort leaves the scores non-increasing, whatever the input. */
  lemma {:induction false} SortDescending(s: seq<Match>)
    ensures Descending(StableSortDescending(s))
    decreases |s|
  {
    if s != [] {
      SortDescending(s[1..]);
      InsertDescending(s[0], StableSortDescending(s[1..]));
    }
  }

  /** Inserting an entry whose index is below every index already present
      keeps a ranked sequence ranked. */
  lemma {:induction false} InsertRanked(m: Match, s: seq<Match>)
    requires Ranked(s)
    requires forall x :: x in s ==> m.index < x.index
    ensures Ranked(Insert(m, s))
    decreases |s|
  {
    if s == [] || m.score >= s[0].score {
      assert Insert(m, s) == [m] + s;
      forall j | 0 <= j < |s| ensures Before(m, s[j]) {
        assert s[j] in s;
        if j > 0 { assert Before(s[0], s[j]); }
      }
    } else {
      InsertRanked(m, s[1..]);
      var t := Insert(m, s[1..]);
      forall j | 0 <= j < |t| ensures Before(s[0], t[j]) {
        assert t[j] in t;
        if t[j] != m {
          var p :| 0 <= p < |s[1..]| && s[1..][p] == t[j];
          assert Before(s[0], s[p + 1]);
        }
      }
    }
  }

  /** Stability: when the input lists entries in increasing index order, as
      `enumerate` does, the sorted sequence lists higher scores first and,
      among equal scores, lower indices first. */
  lemma {:induction false} SortRanked(s: seq<Match>)
    requires IndexOrdered(s)
    ensures Ranked(StableSortDescending(s))
    decreases |s|
  {
    if s != [] {
      var rest := StableSortDescending(s[1..]);
      SortRanked(s[1..]);
      forall x | x in rest ensures s[0].index < x.index {
        var p :| 0 <= p < |s[1..]| && s[1..][p] == x;
        assert s[p + 1] == x;
      }
      InsertRanked(s[0], rest);
    }
  }

  /** Dropping the head of a sequence drops one occurrence of it from the multiset. */
  lemma TailMultiset(s: seq<Match>)
    requires |s| > 0
    ensures multiset(s[1..]) == multiset(s) - multiset{s[0]}
  {
    assert s == [s[0]] + s[1..];
  }

  /** Two ranked sequences holding the same entries start with the same entry:
      the one that comes before all others. */
  lemma RankedSameHead(a: seq<Match>, b: seq<Match>)
    requires Ranked(a) && Ranked(b)
    requires |a| > 0 && multiset(a) == multiset(b)
    ensures |b| > 0 && a[0] == b[0]
  {
    assert a[0] in multiset(b);
    assert b[0] in multiset(a);
    var p :| 0 <= p < |b| && b[p] == a[0];
    var q :| 0 <= q < |a| && a[q] == b[0];
  }

  /** There is only one ranked arrangement of a collection of entries: two
      ranked sequences holding the same entries are equal. */
  lemma {:induction false} RankedUnique(a: seq<Match>, b: seq<Match>)
    requires Ranked(a) && Ranked(b)
    requires multiset(a) == multiset(b)
    ensures a == b
    decreases |a|
  {
    if a == [] {
      assert |b| == |multiset(b)| == 0;
    } else {
      RankedSameHead(a, b);
      TailMultiset(a);
      TailMultiset(b);
      RankedUnique(a[1..], b[1..]);
      assert a == [a[0]] + a[1..] && b == [b[0]] + b[1..];
    }
  }

  /** Position of the first maximal score: a left-to-right scan that only
      moves on a strictly greater score. */
  function BestIndex(scores: seq<real>): (b: nat)
    requires |scores| > 0
    ensures b < |scores|
    ensures forall i :: 0 <= i < |scores| ==> scores[i] <= scores[b]
    ensures forall i :: 0 <= i < b ==> scores[i] < scores[b]
  {
    if |scores| == 1 then 0
    else
      var b := BestIndex(scores[..|scores| - 1]);
      assert forall i :: 0 <= i < |scores| - 1 ==> scores[i] == scores[..|scores| - 1][i];
      if scores[|scores| - 1] > scores[b] then |scores| - 1 else b
  }

  /** `b` is the first position holding the highest score. */
  predicate FirstMax(scores: seq<real>, b: int) {
    && 0 <= b < |scores|
    && (forall i :: 0 <= i < |scores| ==> scores[i] <= scores[b])
    && (forall i :: 0 <= i < b ==> scores[i] < scores[b])
  }

  /** The scan finds the first maximum, and there is no other. */
  lemma FirstMaxIsBest(scores: seq<real>, b: int)
    requires |scores| > 0
    ensures FirstMax(scores, b) <==> b == BestIndex(scores)
  {
  }

  /** All `(index, score)` pairs in ranking order. Each catalog entry appears
      exactly once, with its own score, and the sequence is ranked. */
  function Rank(scores: seq<real>): (r: seq<Match>)
    ensures |r| == |scores|
    ensures Ranked(r)
    ensures multiset(r) == multiset(Enumerate(scores))
    ensures forall k :: 0 <= k < |r| ==> r[k].index < |scores| && r[k].score == scores[r[k].index]
    ensures forall i :: 0 <= i < |scores| ==> Match(i, scores[i]) in r
  {
    var e := Enumerate(scores);
    var r := StableSortDescending(e);
    SortRanked(e);
    assert forall k :: 0 <= k < |r| ==> r[k] in e;
    assert forall i :: 0 <= i < |scores| ==> e[i] == Match(i, scores[i]) && e[i] in r;
    r
  }

  /** Any ranked arrangement of the enumerated scores is the one `Rank` returns. */
  lemma RankCanonical(scores: seq<real>, r: seq<Match>)
    requires Ranked(r)
    requires multiset(r) == multiset(Enumerate(scores))
    ensures r == Rank(scores)
  {
    RankedUnique(r, Rank(scores));
  }

  /** The first entry of the ranking is the first entry with the highest score. */
  lemma RankHead(scores: seq<real>)
    requires |scores| > 0
    ensures Rank(scores)[0] == Match(BestIndex(scores), scores[BestIndex(scores)])
  {
    var r := Rank(scores);
    var b := BestIndex(scores);
    var m := Match(b, scores[b]);
    var j := r[0].index;
    assert r[0] == Match(j, scores[j]);
    assert !Before(r[0], m) by {
      assert scores[j] <= scores[b];
      assert j < b ==> scores[j] < scores[b];
    }
    assert m in r;
    var p :| 0 <= p < |r| && r[p] == m;
    assert p == 0;
  }

  /** A prefix of the ranking is ranked, carries valid indices with their own
      scores, and every entry left out of it ranks below every entry kept. */
  lemma PrefixDominates(scores: seq<real>, n: nat)
    requires n <= |scores|
    ensures var r := Rank(scores)[..n];
            && Ranked(r)
            && (forall j :: 0 <= j < n ==> r[j].index < |scores| && r[j].score == scores[r[j].index])
            && (forall j, i :: 0 <= j < n && 0 <= i < |scores| && Match(i, scores[i]) !in r ==>
                  Before(r[j], Match(i, scores[i])))
  {
    var all := Rank(scores);
    var r := all[..n];
    assert forall j :: 0 <= j < n ==> r[j] == all[j];
    forall j, i | 0 <= j < n && 0 <= i < |scores| && Match(i, scores[i]) !in r
      ensures Before(r[j], Match(i, scores[i]))
    {
      var p :| 0 <= p < |all| && all[p] == Match(i, scores[i]);
      assert n <= p;
    }
  }

  /** `sorted(...)[:k]`: the first `min(k, |scores|)` pairs of the ranking. */
  function TopMatches(scores: seq<real>, k: nat): (r: seq<Match>)
    ensures |r| == if k <= |scores| then k else |scores|
    ensures Ranked(r)
    ensures forall j :: 0 <= j < |r| ==> r[j].index < |scores| && r[j].score == scores[r[j].index]
    ensures forall i, j :: 0 <= i < j < |r| ==> r[i].index != r[j].index
    ensures forall j, i :: 0 <= j < |r| && 0 <= i < |scores| && Match(i, scores[i]) !in r ==>
              Before(r[j], Match(i, scores[i]))
    ensures |r| > 0 ==> r[0] == Match(BestIndex(scores), scores[BestIndex(scores)])
  {
    var n := if k <= |scores| then k else |scores|;
    PrefixDominates(scores, n);
    if n > 0 then RankHead(scores); Rank(scores)[..n] else []
  }
}
