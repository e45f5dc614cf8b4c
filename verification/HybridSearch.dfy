/** Vector search combined with scalar filters: two plans, and why they agree. */
module HybridSearch {
  import opened Common
  import opened Sequences
  import opened ByteOrder
  import opened Store
  import opened Fragments
  import opened Metrics
  import opened SearchResults
  import opened ScanFilter
  import opened BruteForce
  import M = MiniBlock

  datatype Strategy = FilterFirst | SearchFirst

  datatype Query = Query(vector: Option<VectorQuery>, filter: Option<seq<Condition>>, limit: int)

  /** The two components of a hybrid search. */
  datatype Engine = Engine(num: Arithmetic, bruteForce: Source, scanFilter: Source)

  /** At most limit results; all of them for a limit that is not positive. */
  function ApplyLimit(results: seq<SearchResult>, limit: int): (r: seq<SearchResult>)
    ensures r <= results && |r| == if limit > 0 then Min(limit, |results|) else |results|
  {
    if limit > 0 && limit < |results| then results[..limit] else results
  }

  ghost function MatchingIds(h: Engine, fragments: seq<Fragment>, filter: Option<seq<Condition>>): set<int> {
    set id | id in Selected(h.num, h.scanFilter, fragments, filter)
  }

  function InRows(ids: set<int>): SearchResult -> bool {
    (r: SearchResult) => r.rowId in ids
  }

  // ---------- What the plans compute ----------

  ghost predicate SearchFirstSucceeds(
    h: Engine, fragments: seq<Fragment>, q: VectorQuery, filter: Option<seq<Condition>>)
    requires IsSqrt(h.num.sqrt)
  {
    && ScanSucceeds(h.num, h.bruteForce, q, fragments, AllRows)
    && FilterSucceeds(h.scanFilter, fragments, filter)
  }

  /** Filters the sorted results of the full scan, then cuts. */
  ghost predicate IsSearchFirst(
    h: Engine, fragments: seq<Fragment>, q: VectorQuery, filter: Option<seq<Condition>>, limit: int,
    results: seq<SearchResult>)
    requires IsSqrt(h.num.sqrt)
  {
    exists sorted ::
      && SortedPermutation(Candidates(h.num, h.bruteForce, q, fragments, AllRows), sorted)
      && results == ApplyLimit(Sequences.Filter(InRows(MatchingIds(h, fragments, filter)), sorted), limit)
  }

  ghost predicate FilterFirstSucceeds(
    h: Engine, fragments: seq<Fragment>, q: VectorQuery, filter: Option<seq<Condition>>)
    requires IsSqrt(h.num.sqrt)
  {
    && FilterSucceeds(h.scanFilter, fragments, filter)
    && var ids := MatchingIds(h, fragments, filter);
       ids == {} || ScanSucceeds(h.num, h.bruteForce, q, fragments, Only(ids))
  }

  /** Sorts the hits of the matching rows alone, then cuts. */
  ghost predicate IsFilterFirst(
    h: Engine, fragments: seq<Fragment>, q: VectorQuery, filter: Option<seq<Condition>>, limit: int,
    results: seq<SearchResult>)
    requires IsSqrt(h.num.sqrt)
  {
    exists sorted ::
      && SortedPermutation(
           Candidates(h.num, h.bruteForce, q, fragments, Only(MatchingIds(h, fragments, filter))), sorted)
      && results == ApplyLimit(sorted, limit)
  }

  // ---------- Filtering and sorting commute ----------

  lemma {:induction false} FilterKeepsOrder(keep: SearchResult -> bool, s: seq<SearchResult>)
    requires SortedByScore(s)
    ensures SortedByScore(Sequences.Filter(keep, s))
  {
    if s != [] {
      var n := |s| - 1;
      FilterKeepsOrder(keep, s[..n]);
      forall x | x in Sequences.Filter(keep, s[..n]) ensures x.score <= s[n].score {
        assert x in s[..n];
      }
    }
  }

  /** Scanning only the wanted rows gives the hits of the full scan that are wanted. */
  lemma {:induction false} FragmentHitsFiltered(
    num: Arithmetic, q: VectorQuery, words: seq<Word32>, offset: int, ids: set<int>, n: nat)
    requires IsSqrt(num.sqrt)
    ensures FragmentHits(num, q, words, offset, Only(ids), n)
         == Sequences.Filter(InRows(ids), FragmentHits(num, q, words, offset, AllRows, n))
  {
    hide IsSqrt, ScoreOf, HasVector, Sequences.Filter;
    if n == 0 {
      FilterNone(InRows(ids));
    } else {
      FragmentHitsFiltered(num, q, words, offset, ids, n - 1);
      var all := FragmentHits(num, q, words, offset, AllRows, n - 1);
      var wanted := FragmentHits(num, q, words, offset, Only(ids), n - 1);
      if HasVector(words, |q.vector|, n - 1) {
        var hit := SearchResult(offset + n - 1, ScoreOf(num, q, words, n - 1));
        FilterOneMore(InRows(ids), all, hit);
        assert FragmentHits(num, q, words, offset, Only(ids), n) == wanted + if hit.rowId in ids then [hit] else [];
      } else {
        assert FragmentHits(num, q, words, offset, AllRows, n) == all;
        assert FragmentHits(num, q, words, offset, Only(ids), n) == wanted;
      }
    }
  }

  lemma {:induction false} TableHitsFiltered(
    num: Arithmetic, src: Source, q: VectorQuery, columnId: int, fragments: seq<Fragment>, ids: set<int>)
    requires IsSqrt(num.sqrt)
    ensures TableHits(num, src, q, columnId, fragments, Only(ids))
         == Sequences.Filter(InRows(ids), TableHits(num, src, q, columnId, fragments, AllRows))
  {
    hide IsSqrt, FragmentHits, WordsOf;
    if fragments != [] {
      var n := |fragments| - 1;
      TableHitsFiltered(num, src, q, columnId, fragments[..n], ids);
      var words := WordsOf(src, fragments[n], columnId);
      FragmentHitsFiltered(num, q, words, RowOffset(fragments, n), ids, RowsOf(fragments[n]));
      FilterConcat(InRows(ids), TableHits(num, src, q, columnId, fragments[..n], AllRows),
                   FragmentHits(num, q, words, RowOffset(fragments, n), AllRows, RowsOf(fragments[n])));
    }
  }

  lemma CandidatesFiltered(num: Arithmetic, src: Source, q: VectorQuery, fragments: seq<Fragment>, ids: set<int>)
    requires IsSqrt(num.sqrt)
    ensures Candidates(num, src, q, fragments, Only(ids))
         == Sequences.Filter(InRows(ids), Candidates(num, src, q, fragments, AllRows))
  {
    hide IsSqrt;
    if VectorField(src.schema, q.column).Some? {
      TableHitsFiltered(num, src, q, VectorField(src.schema, q.column).value.id, fragments, ids);
    }
  }

  lemma NoCandidates(num: Arithmetic, src: Source, q: VectorQuery, fragments: seq<Fragment>)
    requires IsSqrt(num.sqrt)
    ensures Candidates(num, src, q, fragments, Only({})) == []
  {
    hide IsSqrt, Candidates;
    CandidatesFiltered(num, src, q, fragments, {});
    NothingPasses(InRows({}), Candidates(num, src, q, fragments, AllRows));
  }

  // ---------- The plans agree ----------

  /** Sorting and then filtering is sorting the filtered candidates: what search-first returns
      is a possible answer of filter-first. */
  lemma SearchFirstRefines(
    h: Engine, fragments: seq<Fragment>, q: VectorQuery, filter: Option<seq<Condition>>, limit: int,
    results: seq<SearchResult>)
    requires IsSqrt(h.num.sqrt) && IsSearchFirst(h, fragments, q, filter, limit, results)
    ensures IsFilterFirst(h, fragments, q, filter, limit, results)
  {
    hide IsSqrt, Candidates, Selected;
    var ids := MatchingIds(h, fragments, filter);
    var all := Candidates(h.num, h.bruteForce, q, fragments, AllRows);
    var sorted :| SortedPermutation(all, sorted) && results == ApplyLimit(Sequences.Filter(InRows(ids), sorted), limit);
    CandidatesFiltered(h.num, h.bruteForce, q, fragments, ids);
    FilterPermutation(InRows(ids), all, sorted);
    FilterKeepsOrder(InRows(ids), sorted);
    assert SortedPermutation(Candidates(h.num, h.bruteForce, q, fragments, Only(ids)),
                             Sequences.Filter(InRows(ids), sorted));
  }

  /** Any two answers of filter-first have the same scores at every limit, and without a
      limit the same results. */
  lemma FilterFirstUnique(
    h: Engine, fragments: seq<Fragment>, q: VectorQuery, filter: Option<seq<Condition>>, limit: int,
    a: seq<SearchResult>, b: seq<SearchResult>)
    requires IsSqrt(h.num.sqrt)
    requires IsFilterFirst(h, fragments, q, filter, limit, a) && IsFilterFirst(h, fragments, q, filter, limit, b)
    ensures Scores(a) == Scores(b)
    ensures limit <= 0 ==> multiset(a) == multiset(b)
  {
    hide IsSqrt, Candidates, MatchingIds, SortedByScore;
    var candidates := Candidates(h.num, h.bruteForce, q, fragments, Only(MatchingIds(h, fragments, filter)));
    var s :| SortedPermutation(candidates, s) && a == ApplyLimit(s, limit);
    var t :| SortedPermutation(candidates, t) && b == ApplyLimit(t, limit);
    SortedScoresUnique(s, t);
    SameLength(s, t);
    forall i | 0 <= i < |a| ensures Scores(a)[i] == Scores(b)[i] {
      assert Scores(s)[i] == Scores(t)[i];
    }
  }

  /** Plan equivalence: the two plans have the same score sequence at every limit, and with no
      limit the same results, although one stops early and sorts late. */
  lemma PlansAgree(
    h: Engine, fragments: seq<Fragment>, q: VectorQuery, filter: Option<seq<Condition>>, limit: int,
    fast: seq<SearchResult>, slow: seq<SearchResult>)
    requires IsSqrt(h.num.sqrt)
    requires IsFilterFirst(h, fragments, q, filter, limit, fast) && IsSearchFirst(h, fragments, q, filter, limit, slow)
    ensures Scores(fast) == Scores(slow)
    ensures limit <= 0 ==> multiset(fast) == multiset(slow)
  {
    hide *;
    SearchFirstRefines(h, fragments, q, filter, limit, slow);
    FilterFirstUnique(h, fragments, q, filter, limit, fast, slow);
  }

  /** Search-first succeeds exactly when filter-first and the full scan both do. */
  lemma SearchFirstSucceedsWhen(h: Engine, fragments: seq<Fragment>, q: VectorQuery, filter: Option<seq<Condition>>)
    requires IsSqrt(h.num.sqrt)
    ensures SearchFirstSucceeds(h, fragments, q, filter) <==>
            FilterFirstSucceeds(h, fragments, q, filter) && ScanSucceeds(h.num, h.bruteForce, q, fragments, AllRows)
  {
    hide IsSqrt, Selected, FilterSucceeds;
    if ScanSucceeds(h.num, h.bruteForce, q, fragments, AllRows) {
      FewerRowsSucceed(h.num, h.bruteForce, q, fragments, MatchingIds(h, fragments, filter));
    }
  }

  lemma FewerRowsSucceed(num: Arithmetic, src: Source, q: VectorQuery, fragments: seq<Fragment>, ids: set<int>)
    requires IsSqrt(num.sqrt) && ScanSucceeds(num, src, q, fragments, AllRows)
    ensures ScanSucceeds(num, src, q, fragments, Only(ids))
  {
    hide IsSqrt, HasVector, RowMeasurable, ReadsVectors, WordsOf, RowOffset, RowsOf, VectorField;
    var id := VectorField(src.schema, q.column).value.id;
    forall i | 0 <= i < |fragments|
      ensures ScansFragment(num, src, q, id, fragments[i], RowOffset(fragments, i), Only(ids))
    {
      assert ScansFragment(num, src, q, id, fragments[i], RowOffset(fragments, i), AllRows);
    }
  }

  /** Filter-first succeeds alone exactly when what stops the full scan is nothing that the
      matching rows need: no row matches, or only rows that do not match have no distance. */
  lemma FilterFirstSucceedsAlone(h: Engine, fragments: seq<Fragment>, q: VectorQuery, filter: Option<seq<Condition>>)
    requires IsSqrt(h.num.sqrt) && FilterFirstSucceeds(h, fragments, q, filter)
    requires MatchingIds(h, fragments, filter) != {}
    ensures var id := VectorField(h.bruteForce.schema, q.column).value.id;
      SearchFirstSucceeds(h, fragments, q, filter) <==>
        forall i :: 0 <= i < |fragments| ==>
          FragmentMeasurable(h.num, q, WordsOf(h.bruteForce, fragments[i], id), RowOffset(fragments, i), AllRows,
                             RowsOf(fragments[i]))
  {
    hide IsSqrt, Selected, FilterSucceeds, FragmentMeasurable, MatchingIds, WordsOf, RowOffset, RowsOf;
    var id := VectorField(h.bruteForce.schema, q.column).value.id;
    var ids := MatchingIds(h, fragments, filter);
    forall i | 0 <= i < |fragments| ensures ReadsVectors(h.bruteForce, fragments[i], id) {
      assert ScansFragment(h.num, h.bruteForce, q, id, fragments[i], RowOffset(fragments, i), Only(ids));
    }
    if SearchFirstSucceeds(h, fragments, q, filter) {
      forall i | 0 <= i < |fragments|
        ensures FragmentMeasurable(h.num, q, WordsOf(h.bruteForce, fragments[i], id), RowOffset(fragments, i), AllRows,
                                   RowsOf(fragments[i]))
      {
        assert ScansFragment(h.num, h.bruteForce, q, id, fragments[i], RowOffset(fragments, i), AllRows);
      }
    }
  }

  // ---------- The operations ----------

  /** The inner loop of filter-first: skips rows that do not match, and stops at the first
      matching row without a vector. */
  method ScanMatching(
    num: Arithmetic, q: VectorQuery, words: seq<Word32>, rowOffset: int, matching: set<int>, numRows: nat)
    returns (r: Option<seq<SearchResult>>)
    requires IsSqrt(num.sqrt)
    ensures r.Some? <==> FragmentMeasurable(num, q, words, rowOffset, Only(matching), numRows)
    ensures r.Some? ==> r.value == FragmentHits(num, q, words, rowOffset, Only(matching), numRows)
  {
    hide IsSqrt, Distance;
    var dim := |q.vector|;
    var hits: seq<SearchResult> := [];
    for i := 0 to numRows
      invariant FragmentMeasurable(num, q, words, rowOffset, Only(matching), i)
      invariant hits == FragmentHits(num, q, words, rowOffset, Only(matching), i)
    {
      var rowId := rowOffset + i;
      if rowId !in matching {
        continue;
      }
      var start := i * dim;
      var end := start + dim;
      if end > |words| {
        NothingAfterMissing(num, q, words, rowOffset, Only(matching), i, numRows);
        return Some(hits);
      }
      var d := Measure(num.sqrt, q.vector, VectorAt(num, words, dim, i), q.metric);
      if d.Failure? {
        assert HasVector(words, |q.vector|, i) && !RowMeasurable(num, q, words, i);
        return None;
      }
      hits := hits + [SearchResult(rowId, d.value)];
    }
    return Some(hits);
  }

  method RowSet(rowIds: seq<int>) returns (matching: set<int>)
    ensures matching == set id | id in rowIds
  {
    matching := {};
    for i := 0 to |rowIds|
      invariant matching == set id | id in rowIds[..i]
    {
      assert rowIds[..i + 1] == rowIds[..i] + [rowIds[i]];
      matching := matching + {rowIds[i]};
    }
    assert rowIds[..|rowIds|] == rowIds;
  }

  method RunFilterFirst(h: Engine, fragments: seq<Fragment>, q: VectorQuery, filter: Option<seq<Condition>>, limit: int)
    returns (r: M.Outcome<seq<SearchResult>>)
    requires IsSqrt(h.num.sqrt)
    ensures r.Value? <==> FilterFirstSucceeds(h, fragments, q, filter)
    ensures r.Panic? ==> ReadPanics(h.scanFilter, fragments) || ReadPanics(h.bruteForce, fragments)
    ensures r.Value? ==> IsFilterFirst(h, fragments, q, filter, limit, r.value)
  {
    hide IsSqrt, ScansTable, TableHits, FragmentHits, FragmentMeasurable, ReadsVectors, WordsOf, ReadPanics,
      FilterSucceeds, Selected, SortedPermutation, Candidates;
    var num, src := h.num, h.bruteForce;
    var rowIds := ScanFilter.Filter(num, h.scanFilter, fragments, filter);
    if !rowIds.Value? {
      return if rowIds.Panic? then M.Panic else M.Error;
    }
    var matching := RowSet(rowIds.value);
    assert matching == MatchingIds(h, fragments, filter);
    if |rowIds.value| == 0 {
      NoCandidates(num, src, q, fragments);
      assert SortedPermutation([], []) by { EmptySorted(); }
      assert [] == ApplyLimit([], limit);
      return M.Value([]);
    }
    assert rowIds.value[0] in matching;
    var field := VectorField(src.schema, q.column);
    if field.None? {
      return M.Error;
    }
    if |q.vector| != field.value.dimension {
      return M.Error;
    }
    var candidates := ScanFragments(num, src, fragments, q, field.value.id, matching);
    if !candidates.Value? {
      return if candidates.Panic? then M.Panic else M.Error;
    }
    CandidatesAre(num, src, q, fragments, Only(matching));
    var buffer := new SearchResult[|candidates.value|](i requires 0 <= i < |candidates.value| => candidates.value[i]);
    assert buffer[..] == candidates.value;
    SortSlice(buffer);
    return M.Value(ApplyLimit(buffer[..], limit));
  }

  lemma EmptySorted()
    ensures SortedPermutation([], [])
  {
  }

  lemma CandidatesAre(num: Arithmetic, src: Source, q: VectorQuery, fragments: seq<Fragment>, rows: Rows)
    requires IsSqrt(num.sqrt) && VectorField(src.schema, q.column).Some?
    ensures Candidates(num, src, q, fragments, rows) ==
            TableHits(num, src, q, VectorField(src.schema, q.column).value.id, fragments, rows)
  {
  }

  /** The fragment loop of filter-first. */
  method ScanFragments(
    num: Arithmetic, src: Source, fragments: seq<Fragment>, q: VectorQuery, id: int, matching: set<int>)
    returns (r: M.Outcome<seq<SearchResult>>)
    requires IsSqrt(num.sqrt)
    ensures r.Value? <==> ScansTable(num, src, q, id, fragments, Only(matching))
    ensures r.Panic? ==> ReadPanics(src, fragments)
    ensures r.Value? ==> r.value == TableHits(num, src, q, id, fragments, Only(matching))
  {
    hide IsSqrt, ScansTable, TableHits, FragmentHits, FragmentMeasurable, ReadsVectors, WordsOf, ReadPanics;
    var candidates: seq<SearchResult> := [];
    var rowOffset := 0;
    NothingScanned(num, src, q, id, Only(matching));
    for k := 0 to |fragments|
      invariant rowOffset == RowOffset(fragments, k)
      invariant ScansTable(num, src, q, id, fragments[..k], Only(matching))
      invariant candidates == TableHits(num, src, q, id, fragments[..k], Only(matching))
    {
      OneMoreFragment(num, src, q, id, fragments, Only(matching), k);
      var numRows := RowsOf(fragments[k]);
      var words := ReadVectors(src, fragments[k], id);
      if !words.Value? {
        FailsEarly(num, src, q, id, fragments, Only(matching), k);
        if words.Panic? {
          PanicIsHere(src, fragments, k);
          return M.Panic;
        }
        return M.Error;
      }
      var hits := ScanMatching(num, q, words.value, rowOffset, matching, numRows);
      if hits.None? {
        FailsEarly(num, src, q, id, fragments, Only(matching), k);
        return M.Error;
      }
      candidates := candidates + hits.value;
      rowOffset := rowOffset + numRows;
    }
    assert fragments[..|fragments|] == fragments;
    return M.Value(candidates);
  }

  /** Compacts the wanted results to the front of the array, over the results already looked at. */
  method Compact(results: array<SearchResult>, matching: set<int>) returns (kept: nat)
    modifies results
    ensures kept <= results.Length
    ensures results[..kept] == Sequences.Filter(InRows(matching), old(results[..]))
  {
    hide Sequences.Filter;
    ghost var was := results[..];
    kept := 0;
    FilterNone(InRows(matching));
    for i := 0 to results.Length
      invariant kept <= i
      invariant results[i..] == was[i..]
      invariant results[..kept] == Sequences.Filter(InRows(matching), was[..i])
    {
      var r := results[i];
      assert r == was[i] by {
        assert results[i..][0] == was[i..][0];
      }
      assert was[..i + 1] == was[..i] + [r];
      FilterOneMore(InRows(matching), was[..i], r);
      if r.rowId in matching {
        results[kept] := r;
        kept := kept + 1;
      }
    }
    assert was[..results.Length] == was;
  }

  method RunSearchFirst(h: Engine, fragments: seq<Fragment>, q: VectorQuery, filter: Option<seq<Condition>>, limit: int)
    returns (r: M.Outcome<seq<SearchResult>>)
    requires IsSqrt(h.num.sqrt)
    ensures r.Value? <==> SearchFirstSucceeds(h, fragments, q, filter)
    ensures r.Panic? ==> ReadPanics(h.scanFilter, fragments) || ReadPanics(h.bruteForce, fragments)
    ensures r.Value? ==> IsSearchFirst(h, fragments, q, filter, limit, r.value)
  {
    hide IsSqrt, ScanSucceeds, ReadPanics, FilterSucceeds, Selected, SortedPermutation, Candidates, Sequences.Filter;
    var results := Search(h.num, h.bruteForce, fragments, q);
    if !results.Value? {
      return if results.Panic? then M.Panic else M.Error;
    }
    ghost var sorted := results.value[..];
    var rowIds := ScanFilter.Filter(h.num, h.scanFilter, fragments, filter);
    if !rowIds.Value? {
      return if rowIds.Panic? then M.Panic else M.Error;
    }
    var matching := RowSet(rowIds.value);
    assert matching == MatchingIds(h, fragments, filter);
    var kept := Compact(results.value, matching);
    return M.Value(ApplyLimit(results.value[..kept], limit));
  }

  // ---------- SearchWithStrategy ----------

  ghost predicate Succeeds(h: Engine, fragments: seq<Fragment>, q: Query, strategy: Strategy)
    requires IsSqrt(h.num.sqrt)
  {
    if q.filter.None? then q.vector.Some? ==> ScanSucceeds(h.num, h.bruteForce, q.vector.value, fragments, AllRows)
    else if q.vector.None? then FilterSucceeds(h.scanFilter, fragments, q.filter)
    else if strategy.SearchFirst? then SearchFirstSucceeds(h, fragments, q.vector.value, q.filter)
    else FilterFirstSucceeds(h, fragments, q.vector.value, q.filter)
  }

  /** Rows without a vector to compare: all have score 0. */
  function Unscored(ids: seq<int>): (r: seq<SearchResult>)
    ensures |r| == |ids| && forall i :: 0 <= i < |ids| ==> r[i] == SearchResult(ids[i], 0.0)
  {
    seq(|ids|, i requires 0 <= i < |ids| => SearchResult(ids[i], 0.0))
  }

  /** results answers the query: the best rows that match, as far as the query asks for either. */
  ghost predicate IsAnswer(
    h: Engine, fragments: seq<Fragment>, q: Query, strategy: Strategy, results: seq<SearchResult>)
    requires IsSqrt(h.num.sqrt)
  {
    if q.vector.None? then
      results == ApplyLimit(Unscored(Selected(h.num, h.scanFilter, fragments, q.filter)), q.limit)
    else if q.filter.None? then
      exists sorted ::
        && SortedPermutation(Candidates(h.num, h.bruteForce, q.vector.value, fragments, AllRows), sorted)
        && results == ApplyLimit(sorted, q.limit)
    else if strategy.SearchFirst? then IsSearchFirst(h, fragments, q.vector.value, q.filter, q.limit, results)
    else IsFilterFirst(h, fragments, q.vector.value, q.filter, q.limit, results)
  }

  method SearchWithStrategy(h: Engine, fragments: seq<Fragment>, q: Query, strategy: Strategy)
    returns (r: M.Outcome<seq<SearchResult>>)
    requires IsSqrt(h.num.sqrt)
    ensures r.Value? <==> Succeeds(h, fragments, q, strategy)
    ensures r.Panic? ==> ReadPanics(h.scanFilter, fragments) || ReadPanics(h.bruteForce, fragments)
    ensures r.Value? ==> IsAnswer(h, fragments, q, strategy, r.value)
  {
    hide IsSqrt, ScanSucceeds, ReadPanics, FilterSucceeds, SortedPermutation, Candidates, IsSearchFirst, IsFilterFirst,
      SearchFirstSucceeds, FilterFirstSucceeds, MatchingRows;
    if q.vector.Some? && q.filter.None? {
      var results := Search(h.num, h.bruteForce, fragments, q.vector.value);
      if !results.Value? {
        return if results.Panic? then M.Panic else M.Error;
      }
      return M.Value(ApplyLimit(results.value[..], q.limit));
    }
    if q.vector.None? && q.filter.Some? {
      var rowIds := ScanFilter.Filter(h.num, h.scanFilter, fragments, q.filter);
      if !rowIds.Value? {
        return if rowIds.Panic? then M.Panic else M.Error;
      }
      var results := new SearchResult[|rowIds.value|](
        i requires 0 <= i < |rowIds.value| => SearchResult(rowIds.value[i], 0.0));
      assert results[..] == Unscored(rowIds.value);
      return M.Value(ApplyLimit(results[..], q.limit));
    }
    if q.vector.None? && q.filter.None? {
      return M.Value([]);
    }
    if strategy.SearchFirst? {
      r := RunSearchFirst(h, fragments, q.vector.value, q.filter, q.limit);
    } else {
      r := RunFilterFirst(h, fragments, q.vector.value, q.filter, q.limit);
    }
  }

  /** The strategy never shows in the answer: same scores at every limit, and the same results
      when there is no limit. */
  lemma StrategyInvisible(
    h: Engine, fragments: seq<Fragment>, q: Query, s: Strategy, t: Strategy, a: seq<SearchResult>, b: seq<SearchResult>)
    requires IsSqrt(h.num.sqrt) && IsAnswer(h, fragments, q, s, a) && IsAnswer(h, fragments, q, t, b)
    ensures Scores(a) == Scores(b)
    ensures q.limit <= 0 ==> multiset(a) == multiset(b)
  {
    hide IsSqrt, Candidates, IsSearchFirst, IsFilterFirst, Selected, SortedByScore;
    if q.vector.Some? && q.filter.Some? {
      var v := q.vector.value;
      if s.SearchFirst? {
        SearchFirstRefines(h, fragments, v, q.filter, q.limit, a);
      }
      if t.SearchFirst? {
        SearchFirstRefines(h, fragments, v, q.filter, q.limit, b);
      }
      FilterFirstUnique(h, fragments, v, q.filter, q.limit, a, b);
    } else if q.vector.Some? {
      var all := Candidates(h.num, h.bruteForce, q.vector.value, fragments, AllRows);
      var x :| SortedPermutation(all, x) && a == ApplyLimit(x, q.limit);
      var y :| SortedPermutation(all, y) && b == ApplyLimit(y, q.limit);
      CutScores(x, y, q.limit);
    }
  }

  lemma CutScores(x: seq<SearchResult>, y: seq<SearchResult>, limit: int)
    requires multiset(x) == multiset(y) && SortedByScore(x) && SortedByScore(y)
    ensures Scores(ApplyLimit(x, limit)) == Scores(ApplyLimit(y, limit))
    ensures limit <= 0 ==> multiset(ApplyLimit(x, limit)) == multiset(ApplyLimit(y, limit))
  {
    SortedScoresUnique(x, y);
    SameLength(x, y);
    forall i | 0 <= i < |ApplyLimit(x, limit)| ensures ApplyLimit(x, limit)[i].score == ApplyLimit(y, limit)[i].score {
      assert Scores(x)[i] == Scores(y)[i];
    }
  }
}
