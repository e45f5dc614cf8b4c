/** Sorted result lists: top-k selection, shard merging, and ranks of scores.
    Every plan that the search components offer is compared through this file. */
module SearchResults {
  import opened Common
  import opened Sequences

  /** A single hit: a row and its distance to the query. */
  datatype SearchResult = SearchResult(rowId: int, score: real)

  ghost predicate SortedByScore(s: seq<SearchResult>) {
    forall i, j :: 0 <= i < j < |s| ==> s[i].score <= s[j].score
  }

  /** All that is known of the output of an unstable sort by score. */
  ghost predicate SortedPermutation(input: seq<SearchResult>, output: seq<SearchResult>) {
    multiset(input) == multiset(output) && SortedByScore(output)
  }

  /** The score sequence of a result list. */
  function Scores(s: seq<SearchResult>): (r: seq<real>)
    ensures |r| == |s| && forall i :: 0 <= i < |s| ==> r[i] == s[i].score
  {
    seq(|s|, i requires 0 <= i < |s| => s[i].score)
  }

  /** What TopK may return: the first k of some sorted permutation. */
  ghost predicate IsTopK(results: seq<SearchResult>, k: int, top: seq<SearchResult>) {
    if k <= 0 then top == []
    else exists sorted :: SortedPermutation(results, sorted) && top == sorted[..Min(k, |sorted|)]
  }

  /** What MergeTopK may return: like IsTopK, but a non-positive k keeps everything. */
  ghost predicate IsMerge(sources: seq<seq<SearchResult>>, k: int, merged: seq<SearchResult>) {
    exists sorted ::
      SortedPermutation(Flatten(sources), sorted) &&
      merged == if k > 0 then sorted[..Min(k, |sorted|)] else sorted
  }

  /** worse has no more results than better, and none of them ranks ahead of better's. */
  ghost predicate NeverBetter(worse: seq<SearchResult>, better: seq<SearchResult>) {
    |worse| <= |better| &&
    forall i :: 0 <= i < |worse| ==> better[i].score <= worse[i].score
  }

  // ---------- Counting: how many scores are at most x ----------

  function CountAtMost(s: seq<SearchResult>, x: real): nat {
    if s == [] then 0 else (if s[0].score <= x then 1 else 0) + CountAtMost(s[1..], x)
  }

  lemma {:induction false} CountAtMostConcat(a: seq<SearchResult>, b: seq<SearchResult>, x: real)
    ensures CountAtMost(a + b, x) == CountAtMost(a, x) + CountAtMost(b, x)
  {
    if a == [] {
      assert a + b == b;
    } else {
      CountAtMostConcat(a[1..], b, x);
      assert (a + b)[1..] == a[1..] + b;
    }
  }

  lemma {:induction false} CountAtMostLength(s: seq<SearchResult>, x: real)
    ensures CountAtMost(s, x) <= |s|
  {
    if s != [] {
      CountAtMostLength(s[1..], x);
    }
  }

  /** Taking one entry out of a list. */
  lemma WithoutEntry(b: seq<SearchResult>, j: nat, x: real) returns (rest: seq<SearchResult>)
    requires j < |b|
    ensures multiset(b) == multiset(rest) + multiset{b[j]}
    ensures CountAtMost(b, x) == CountAtMost(rest, x) + if b[j].score <= x then 1 else 0
  {
    rest := b[..j] + b[j + 1..];
    assert b == b[..j] + ([b[j]] + b[j + 1..]);
    CountAtMostConcat(b[..j], [b[j]] + b[j + 1..], x);
    CountAtMostConcat(b[..j], b[j + 1..], x);
    assert ([b[j]] + b[j + 1..])[1..] == b[j + 1..];
  }

  /** A part never counts more than the whole. */
  lemma {:induction false} CountAtMostMonotone(a: seq<SearchResult>, b: seq<SearchResult>, x: real)
    requires multiset(a) <= multiset(b)
    ensures CountAtMost(a, x) <= CountAtMost(b, x)
  {
    if a != [] {
      var head, tail := a[0], a[1..];
      assert a == [head] + tail;
      assert head in multiset(b) by {
        assert head in multiset(a);
      }
      var j :| 0 <= j < |b| && b[j] == head;
      var rest := WithoutEntry(b, j, x);
      assert multiset(a) == multiset{head} + multiset(tail);
      forall e ensures multiset(tail)[e] <= multiset(rest)[e] {
        assert multiset(a)[e] <= multiset(b)[e];
      }
      CountAtMostMonotone(tail, rest, x);
    }
  }

  /** In a sorted list the i-th score is at most x exactly when more than i scores are. */
  lemma {:induction false} RankByCount(s: seq<SearchResult>, i: nat, x: real)
    requires SortedByScore(s) && i < |s|
    ensures s[i].score <= x <==> CountAtMost(s, x) > i
  {
    if s[0].score <= x {
      if i > 0 {
        RankByCount(s[1..], i - 1, x);
      }
    } else {
      CountAtMostNone(s, x);
    }
  }

  lemma {:induction false} CountAtMostNone(s: seq<SearchResult>, x: real)
    requires forall i :: 0 <= i < |s| ==> x < s[i].score
    ensures CountAtMost(s, x) == 0
  {
    if s != [] {
      CountAtMostNone(s[1..], x);
    }
  }

  /** Cutting a sorted list to k entries caps its counts at k and changes nothing else. */
  lemma {:induction false} CountAtMostPrefix(s: seq<SearchResult>, k: nat, x: real)
    requires SortedByScore(s) && k <= |s|
    ensures CountAtMost(s[..k], x) == Min(k, CountAtMost(s, x))
  {
    if k > 0 {
      if s[0].score <= x {
        CountAtMostPrefix(s[1..], k - 1, x);
        assert s[..k][1..] == s[1..][..k - 1];
      } else {
        CountAtMostNone(s, x);
        CountAtMostNone(s[..k], x);
      }
    }
  }

  lemma PermutationCounts(a: seq<SearchResult>, b: seq<SearchResult>, x: real)
    requires multiset(a) == multiset(b)
    ensures CountAtMost(a, x) == CountAtMost(b, x)
  {
    CountAtMostMonotone(a, b, x);
    CountAtMostMonotone(b, a, x);
  }

  lemma SameLength(a: seq<SearchResult>, b: seq<SearchResult>)
    requires multiset(a) == multiset(b)
    ensures |a| == |b|
  {
    assert |multiset(a)| == |a| && |multiset(b)| == |b|;
  }

  // ---------- Top-k ----------

  lemma SortedPermutationOfTopK(results: seq<SearchResult>, k: int, top: seq<SearchResult>)
    returns (sorted: seq<SearchResult>)
    requires IsTopK(results, k, top) && k > 0
    ensures SortedPermutation(results, sorted) && top == sorted[..Min(k, |sorted|)]
    ensures |sorted| == |results|
  {
    sorted :| SortedPermutation(results, sorted) && top == sorted[..Min(k, |sorted|)];
    SameLength(results, sorted);
  }

  /** TopK's meaning without any sorting: for every threshold x the k best results hold
      exactly the scores at most x, up to k of them; and they come from the input. */
  lemma TopKCounts(results: seq<SearchResult>, k: int, top: seq<SearchResult>, x: real)
    requires IsTopK(results, k, top) && k > 0
    ensures CountAtMost(top, x) == Min(k, CountAtMost(results, x))
    ensures |top| == Min(k, |results|)
    ensures SortedByScore(top) && multiset(top) <= multiset(results)
  {
    var sorted := SortedPermutationOfTopK(results, k, top);
    CountAtMostPrefix(sorted, Min(k, |sorted|), x);
    PermutationCounts(results, sorted, x);
    CountAtMostLength(results, x);
    assert sorted == sorted[..Min(k, |sorted|)] + sorted[Min(k, |sorted|)..];
  }

  /** A sorted list is determined, as a score sequence, by its counts. */
  lemma CountsDetermineScores(a: seq<SearchResult>, b: seq<SearchResult>)
    requires SortedByScore(a) && SortedByScore(b) && |a| == |b|
    requires forall x :: CountAtMost(a, x) == CountAtMost(b, x)
    ensures Scores(a) == Scores(b)
  {
    forall i | 0 <= i < |a| ensures a[i].score == b[i].score {
      RankByCount(a, i, a[i].score);
      RankByCount(b, i, a[i].score);
      RankByCount(a, i, b[i].score);
      RankByCount(b, i, b[i].score);
    }
  }

  /** However an unstable sort breaks ties, the score sequence is the same. */
  lemma SortedScoresUnique(a: seq<SearchResult>, b: seq<SearchResult>)
    requires SortedByScore(a) && SortedByScore(b) && multiset(a) == multiset(b)
    ensures Scores(a) == Scores(b)
  {
    SameLength(a, b);
    forall x ensures CountAtMost(a, x) == CountAtMost(b, x) {
      PermutationCounts(a, b, x);
    }
    CountsDetermineScores(a, b);
  }

  /** Selecting from fewer results never gives a better i-th score. */
  lemma TopKOfPartDominated(
    part: seq<SearchResult>, whole: seq<SearchResult>, k: int,
    topPart: seq<SearchResult>, topWhole: seq<SearchResult>)
    requires multiset(part) <= multiset(whole)
    requires IsTopK(part, k, topPart) && IsTopK(whole, k, topWhole)
    ensures NeverBetter(topPart, topWhole)
  {
    if k > 0 {
      TopKCounts(part, k, topPart, 0.0);
      TopKCounts(whole, k, topWhole, 0.0);
      SubMultisetLength(part, whole);
      forall i | 0 <= i < |topPart| ensures topWhole[i].score <= topPart[i].score {
        var x := topPart[i].score;
        RankByCount(topPart, i, x);
        TopKCounts(part, k, topPart, x);
        TopKCounts(whole, k, topWhole, x);
        CountAtMostMonotone(part, whole, x);
        RankByCount(topWhole, i, x);
      }
    }
  }

  lemma SubMultisetLength(part: seq<SearchResult>, whole: seq<SearchResult>)
    requires multiset(part) <= multiset(whole)
    ensures |part| <= |whole|
  {
    var rest := multiset(whole) - multiset(part);
    assert multiset(whole) == multiset(part) + rest;
    assert |multiset(part)| == |part| && |multiset(whole)| == |whole|;
  }

  /** Two top-k selections from permutations of one list have the same score sequence. */
  lemma TopKScoresUnique(
    a: seq<SearchResult>, b: seq<SearchResult>, k: int,
    topA: seq<SearchResult>, topB: seq<SearchResult>)
    requires multiset(a) == multiset(b)
    requires IsTopK(a, k, topA) && IsTopK(b, k, topB)
    ensures Scores(topA) == Scores(topB)
  {
    TopKOfPartDominated(a, b, k, topA, topB);
    TopKOfPartDominated(b, a, k, topB, topA);
  }

  // ---------- Sharded top-k ----------

  /** The shard lists are top-k selections of the sources. */
  ghost predicate ShardsTop(sources: seq<seq<SearchResult>>, k: int, tops: seq<seq<SearchResult>>) {
    |tops| == |sources| && forall i :: 0 <= i < |sources| ==> IsTopK(sources[i], k, tops[i])
  }

  lemma {:induction false} ShardCounts(
    sources: seq<seq<SearchResult>>, k: int, tops: seq<seq<SearchResult>>, x: real)
    requires k > 0 && ShardsTop(sources, k, tops)
    ensures multiset(Flatten(tops)) <= multiset(Flatten(sources))
    ensures CountAtMost(Flatten(tops), x) >= Min(k, CountAtMost(Flatten(sources), x))
  {
    if sources != [] {
      var n := |sources| - 1;
      ShardCounts(sources[..n], k, tops[..n], x);
      TopKCounts(sources[n], k, tops[n], x);
      CountAtMostConcat(Flatten(sources[..n]), sources[n], x);
      CountAtMostConcat(Flatten(tops[..n]), tops[n], x);
    }
  }

  lemma MergeOfFlattened(sources: seq<seq<SearchResult>>, k: int, merged: seq<SearchResult>)
    requires k > 0 && IsMerge(sources, k, merged)
    ensures IsTopK(Flatten(sources), k, merged)
  {
  }

  /** A merge keeps k results, or all of them if k is not positive. */
  lemma MergeCounts(sources: seq<seq<SearchResult>>, k: int, merged: seq<SearchResult>, x: real)
    requires IsMerge(sources, k, merged)
    ensures SortedByScore(merged) && multiset(merged) <= multiset(Flatten(sources))
    ensures |merged| == if k > 0 then Min(k, |Flatten(sources)|) else |Flatten(sources)|
    ensures CountAtMost(merged, x) ==
            if k > 0 then Min(k, CountAtMost(Flatten(sources), x)) else CountAtMost(Flatten(sources), x)
  {
    var all := Flatten(sources);
    var sorted :|
      SortedPermutation(all, sorted) && merged == if k > 0 then sorted[..Min(k, |sorted|)] else sorted;
    assert |multiset(sorted)| == |multiset(all)|;
    assert sorted == sorted[..|merged|] + sorted[|merged|..];
    if k > 0 {
      TopKCounts(all, k, merged, x);
    } else {
      CountAtMostMonotone(all, sorted, x);
      CountAtMostMonotone(sorted, all, x);
    }
  }

  /** kept is part of all, and for every threshold holds as many scores as a top k of all. */
  ghost predicate KeepsTopK(kept: seq<SearchResult>, all: seq<SearchResult>, k: int) {
    multiset(kept) <= multiset(all) &&
    forall x :: CountAtMost(kept, x) >= Min(k, CountAtMost(all, x))
  }

  lemma KeptNotWorse(
    kept: seq<SearchResult>, all: seq<SearchResult>, k: int,
    merged: seq<SearchResult>, global: seq<SearchResult>, i: nat)
    requires k > 0 && KeepsTopK(kept, all, k) && i < |global|
    requires IsTopK(kept, k, merged) && IsTopK(all, k, global)
    ensures i < |merged| && merged[i].score <= global[i].score
  {
    var x := global[i].score;
    TopKCounts(all, k, global, x);
    RankByCount(global, i, x);
    TopKCounts(kept, k, merged, x);
    CountAtMostLength(merged, x);
    RankByCount(merged, i, x);
  }

  lemma KeptScores(
    kept: seq<SearchResult>, all: seq<SearchResult>, k: int,
    merged: seq<SearchResult>, global: seq<SearchResult>)
    requires k > 0 && KeepsTopK(kept, all, k)
    requires IsTopK(kept, k, merged) && IsTopK(all, k, global)
    ensures Scores(merged) == Scores(global)
  {
    TopKOfPartDominated(kept, all, k, merged, global);
    forall i: nat | i < |global| ensures i < |merged| && merged[i].score <= global[i].score {
      KeptNotWorse(kept, all, k, merged, global, i);
    }
    if |merged| < |global| {
      KeptNotWorse(kept, all, k, merged, global, |merged|);
    }
  }

  /** Taking the top k of each source and then merging gives the same score sequence as
      the top k of everything. */
  lemma ShardedTopK(
    sources: seq<seq<SearchResult>>, k: int, tops: seq<seq<SearchResult>>,
    merged: seq<SearchResult>, global: seq<SearchResult>)
    requires k > 0 && ShardsTop(sources, k, tops)
    requires IsMerge(tops, k, merged) && IsTopK(Flatten(sources), k, global)
    ensures Scores(merged) == Scores(global)
  {
    assert KeepsTopK(Flatten(tops), Flatten(sources), k) by {
      ShardCounts(sources, k, tops, 0.0);
      forall x ensures CountAtMost(Flatten(tops), x) >= Min(k, CountAtMost(Flatten(sources), x)) {
        ShardCounts(sources, k, tops, x);
      }
    }
    MergeOfFlattened(tops, k, merged);
    KeptScores(Flatten(tops), Flatten(sources), k, merged, global);
  }

  /** The merged list is a sub-multiset of what the sources held, ranked by score. */
  lemma ShardedTopKFromSources(
    sources: seq<seq<SearchResult>>, k: int, tops: seq<seq<SearchResult>>, merged: seq<SearchResult>)
    requires k > 0 && ShardsTop(sources, k, tops) && IsMerge(tops, k, merged)
    ensures multiset(merged) <= multiset(Flatten(sources)) && SortedByScore(merged)
  {
    MergeOfFlattened(tops, k, merged);
    ShardCounts(sources, k, tops, 0.0);
    TopKCounts(Flatten(tops), k, merged, 0.0);
  }

  // ---------- The operations ----------

  ghost predicate AllAtLeast(s: seq<SearchResult>, x: real) {
    forall i :: 0 <= i < |s| ==> x <= s[i].score
  }

  function InsertByScore(x: SearchResult, s: seq<SearchResult>): (r: seq<SearchResult>) {
    if s == [] || x.score <= s[0].score then [x] + s else [s[0]] + InsertByScore(x, s[1..])
  }

  lemma {:induction false} InsertKeepsBound(x: SearchResult, s: seq<SearchResult>, low: real)
    requires AllAtLeast(s, low) && low <= x.score
    ensures AllAtLeast(InsertByScore(x, s), low)
  {
    if s != [] && x.score > s[0].score {
      InsertKeepsBound(x, s[1..], low);
    }
  }

  lemma {:induction false} InsertIsSorted(x: SearchResult, s: seq<SearchResult>)
    requires SortedByScore(s)
    ensures SortedByScore(InsertByScore(x, s))
  {
    if s != [] && x.score > s[0].score {
      InsertIsSorted(x, s[1..]);
      InsertKeepsBound(x, s[1..], s[0].score);
    }
  }

  lemma {:induction false} InsertIsPermutation(x: SearchResult, s: seq<SearchResult>)
    ensures multiset(InsertByScore(x, s)) == multiset(s) + multiset{x}
  {
    if s != [] && x.score > s[0].score {
      InsertIsPermutation(x, s[1..]);
      assert s == [s[0]] + s[1..];
    }
  }

  function SortByScore(s: seq<SearchResult>): (r: seq<SearchResult>)
    ensures SortedPermutation(s, r)
  {
    if s == [] then []
    else
      assert s == [s[0]] + s[1..];
      var tail := SortByScore(s[1..]);
      InsertIsSorted(s[0], tail);
      InsertIsPermutation(s[0], tail);
      InsertByScore(s[0], tail)
  }

  /** sort.Slice by score, in place. Its contract says only "some sorted permutation". */
  method SortSlice(a: array<SearchResult>)
    modifies a
    ensures SortedPermutation(old(a[..]), a[..])
  {
    var sorted := SortByScore(a[..]);
    SameLength(a[..], sorted);
    forall i | 0 <= i < a.Length {
      a[i] := sorted[i];
    }
    assert a[..] == sorted;
  }

  /** Copies, sorts the copy and cuts it; the input is a value and stays as it was. */
  method TopK(results: seq<SearchResult>, k: int) returns (top: seq<SearchResult>)
    ensures IsTopK(results, k, top)
  {
    if k <= 0 || |results| == 0 {
      top := [];
      if k > 0 {
        assert SortedPermutation(results, []);
      }
      return;
    }
    var cp := new SearchResult[|results|](i requires 0 <= i < |results| => results[i]);
    assert cp[..] == results;
    SortSlice(cp);
    var kept := k;
    if kept > cp.Length {
      kept := cp.Length;
    }
    top := cp[..kept];
    ghost var sorted := cp[..];
    assert top == sorted[..kept];
  }

  /** Concatenates the sources, sorts in place and keeps the first k (all for k <= 0). */
  method MergeTopK(sources: seq<seq<SearchResult>>, k: int) returns (merged: seq<SearchResult>)
    ensures IsMerge(sources, k, merged)
  {
    var all: seq<SearchResult> := [];
    for i := 0 to |sources|
      invariant all == Flatten(sources[..i])
    {
      assert sources[..i + 1][..i] == sources[..i];
      all := all + sources[i];
    }
    assert sources[..|sources|] == sources;
    var buffer := new SearchResult[|all|](i requires 0 <= i < |all| => all[i]);
    assert buffer[..] == all;
    SortSlice(buffer);
    ghost var sorted := buffer[..];
    if k > 0 && k < buffer.Length {
      merged := buffer[..k];
      assert merged == sorted[..k];
    } else {
      merged := buffer[..];
      assert merged == sorted[..|sorted|];
    }
  }
}
