/** A whole search: `search_index` followed by the result loop of `main`.
    The row limit is applied in one of two places — by SQLite's `LIMIT`
    when there is no body filter, by the loop when there is — and the two
    together return the first matches in `date_utc` order. */
module Search {
  import opened Common
  import opened Timestamp
  import opened Scanner
  import opened Query
  import opened Results
  import opened SqlLike

  /** Row `x` may precede row `y` under `ORDER BY date_utc DESC`: SQLite
      sorts NULL below every text, so NULLs come last, and texts compare
      by code point. */
  predicate DescBefore(x: Record, y: Record)
  {
    y.dateUtc.None? || (x.dateUtc.Some? && !StrLess(x.dateUtc.value, y.dateUtc.value))
  }

  predicate NewestFirst(rows: seq<Record>)
  {
    Pairwise(rows, DescBefore)
  }

  /** A row passes both the SQL filter and the body filter. */
  predicate Selects(a: SearchArgs, read: Reader, r: Record)
    requires WellFormedArgs(a)
  {
    EvalWhere(BuildQuery(a), r) && Keeps(a, read, r)
  }

  function SelectPred(a: SearchArgs, read: Reader): Record -> bool
    requires WellFormedArgs(a)
  {
    (r: Record) => Selects(a, read, r)
  }

  /** The reference meaning of a search on one row: it meets every given
      filter and, when a body needle is given, its body contains it. */
  predicate Wanted(a: SearchArgs, read: Reader, r: Record)
    requires WellFormedArgs(a)
  {
    RowMatches(a, r) && Keeps(a, read, r)
  }

  function WantedPred(a: SearchArgs, read: Reader): Record -> bool
    requires WellFormedArgs(a)
  {
    (r: Record) => Wanted(a, read, r)
  }

  /** The search pipeline over the table in `ORDER BY date_utc DESC` order.
      Counting gives the number of all matches whatever the limit. Otherwise
      the first `limit` matches are emitted — at least one when a body filter
      is given or the limit is negative (SQLite then has no limit and the
      loop stops after the first), none for a zero limit without a body
      filter (SQLite returns no row). */
  method RunSearch(ordered: seq<Record>, a: SearchArgs, read: Reader) returns (hits: seq<Hit>, found: nat)
    requires WellFormedArgs(a)
    ensures a.count ==> hits == [] && found == |Filter(ordered, SelectPred(a, read))|
    ensures !a.count && !(a.limit == 0 && !Given(a.body)) ==>
      && found == Min(Max(a.limit, 1), |Filter(ordered, SelectPred(a, read))|)
      && hits == HitsFor(a, read, Filter(ordered, SelectPred(a, read))[..found])
    ensures !a.count && a.limit == 0 && !Given(a.body) ==> hits == [] && found == 0
    ensures NewestFirst(ordered) ==> forall i, j :: 0 <= i < j < |hits| ==> DescBefore(hits[i].row, hits[j].row)
  {
    var rows := SearchIndex(ordered, a);
    hits, found := EmitResults(rows, a, read);
    PipelineCount(ordered, a, read, rows, found, hits);
    if NewestFirst(ordered) && !a.count && !(a.limit == 0 && !Given(a.body)) {
      FilterPairwise(ordered, SelectPred(a, read), DescBefore);
      HitsInOrder(Filter(ordered, SelectPred(a, read)), a, read, found);
    }
  }

  /** The two filters in a row are the combined filter. */
  lemma TwoFilters(ordered: seq<Record>, a: SearchArgs, read: Reader)
    requires WellFormedArgs(a)
    ensures Filter(Filter(ordered, WherePred(BuildQuery(a))), KeepPred(a, read)) == Filter(ordered, SelectPred(a, read))
  {
    FilterFilter(ordered, WherePred(BuildQuery(a)), KeepPred(a, read), SelectPred(a, read));
  }

  /** Without a body needle the body filter keeps every row. */
  lemma NoNeedleKeepsAll(rows: seq<Record>, a: SearchArgs, read: Reader)
    requires !Given(a.body)
    ensures Filter(rows, KeepPred(a, read)) == rows
  {
    FilterAll(rows, KeepPred(a, read));
  }

  /** The loop's account of the rows `search_index` returned, restated over
      the whole table. */
  lemma PipelineCount(ordered: seq<Record>, a: SearchArgs, read: Reader, rows: seq<Record>, found: nat, hits: seq<Hit>)
    requires WellFormedArgs(a)
    requires rows == SearchIndex(ordered, a)
    requires a.count ==> found == |Filter(rows, KeepPred(a, read))| && hits == []
    requires !a.count ==> found == Min(Max(a.limit, 1), |Filter(rows, KeepPred(a, read))|)
    requires !a.count ==> hits == HitsFor(a, read, Filter(rows, KeepPred(a, read))[..found])
    ensures a.count ==> hits == [] && found == |Filter(ordered, SelectPred(a, read))|
    ensures !a.count && !(a.limit == 0 && !Given(a.body)) ==>
      && found == Min(Max(a.limit, 1), |Filter(ordered, SelectPred(a, read))|)
      && hits == HitsFor(a, read, Filter(ordered, SelectPred(a, read))[..found])
    ensures !a.count && a.limit == 0 && !Given(a.body) ==> hits == [] && found == 0
  {
    var all := Filter(ordered, WherePred(BuildQuery(a)));
    var m := Filter(ordered, SelectPred(a, read));
    TwoFilters(ordered, a, read);
    if !a.count && !Given(a.body) {
      NoNeedleKeepsAll(rows, a, read);
      NoNeedleKeepsAll(all, a, read);
      if a.limit >= 0 {
        assert rows == all[..|rows|];
      }
    }
  }

  /** Hits emitted from a prefix of an ordered run keep its order. */
  lemma HitsInOrder(m: seq<Record>, a: SearchArgs, read: Reader, n: nat)
    requires NewestFirst(m) && n <= |m|
    ensures var hits := HitsFor(a, read, m[..n]);
      forall i, j :: 0 <= i < j < |hits| ==> DescBefore(hits[i].row, hits[j].row)
  {
    var hits := HitsFor(a, read, m[..n]);
    forall i, j | 0 <= i < j < |hits|
      ensures DescBefore(hits[i].row, hits[j].row)
    {
      assert hits[i].row == m[i] && hits[j].row == m[j];
    }
  }

  /** For queries whose text needles hold no `%` or `_`, over an index whose
      `date_utc` texts are well formed, the rows a search selects are exactly
      the rows meeting the reference meaning of its options, in table order. */
  lemma SearchMeansWanted(ordered: seq<Record>, a: SearchArgs, read: Reader)
    requires WellFormedArgs(a)
    requires Given(a.sender) ==> NoWildcards(a.sender.value)
    requires Given(a.subject) ==> NoWildcards(a.subject.value)
    requires forall i :: 0 <= i < |ordered| ==> WellFormedRow(ordered[i])
    ensures Filter(ordered, SelectPred(a, read)) == Filter(ordered, WantedPred(a, read))
  {
    forall i | 0 <= i < |ordered|
      ensures SelectPred(a, read)(ordered[i]) == WantedPred(a, read)(ordered[i])
    {
      WhereMeansRowMatches(a, ordered[i]);
    }
    FilterAgree(ordered, SelectPred(a, read), WantedPred(a, read));
  }

  /** Over any ordering of rows the index build wrote, the rows a search with
      wildcard-free needles selects are exactly the wanted ones. */
  lemma IndexSearchMeansWanted(lines: seq<Line>, parse: HeaderParser, ordered: seq<Record>, a: SearchArgs, read: Reader)
    requires WellFormedArgs(a)
    requires Given(a.sender) ==> NoWildcards(a.sender.value)
    requires Given(a.subject) ==> NoWildcards(a.subject.value)
    requires forall i :: 0 <= i < |ordered| ==> ordered[i] in Index(lines, parse)
    ensures Filter(ordered, SelectPred(a, read)) == Filter(ordered, WantedPred(a, read))
  {
    IndexWellFormed(lines, parse);
    SearchMeansWanted(ordered, a, read);
  }
}
