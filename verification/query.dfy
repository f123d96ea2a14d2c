/** `search_index`: the optional filters become a conjunction of SQL
    conditions with one bound parameter each, the rows come back newest
    first, and the row limit is left off when the count or the body filter
    needs every candidate. */
module Query {
  import opened Common
  import opened Timestamp
  import opened SqlLike
  import opened Scanner

  /** The search options, as the command line delivers them. */
  datatype SearchArgs = SearchArgs(
    dateFrom: Option<Date>,
    dateTo: Option<Date>,
    sender: Option<string>,
    subject: Option<string>,
    body: Option<string>,
    limit: int,
    count: bool,
    noBody: bool)

  /** Date bounds come from `strptime("%Y-%m-%d")`, so they are real days. */
  predicate WellFormedArgs(a: SearchArgs)
  {
    && (a.dateFrom.Some? ==> ValidDate(a.dateFrom.value))
    && (a.dateTo.Some? ==> ValidDate(a.dateTo.value))
  }

  /** Python truthiness of an optional text option: present and non-empty. */
  predicate Given(o: Option<string>)
  {
    o.Some? && |o.value| > 0
  }

  /** The four conditions `search_index` can emit, in their fixed order. */
  datatype Cond = DateFrom | DateTo | SenderLike | SubjectLike

  /** A condition together with the parameter bound to its `?`. */
  datatype Bound = Bound(cond: Cond, param: string)

  /** The composed query: its conditions with their parameters, and the
      `LIMIT` value when the clause is present. */
  datatype Query = Query(bounds: seq<Bound>, limit: Option<int>)

  /** A condition's SQL text, such as `sender LIKE ? COLLATE NOCASE`. */
  function CondText(c: Cond): string
  {
    CondHead(c) + "?" + CondTail(c)
  }

  /** The text of a condition before its placeholder. */
  function CondHead(c: Cond): string
  {
    match c
    case DateFrom => "date_utc >= "
    case DateTo => "date_utc < "
    case SenderLike => "sender LIKE "
    case SubjectLike => "subject LIKE "
  }

  /** The text of a condition after its placeholder. */
  function CondTail(c: Cond): string
  {
    if c.SenderLike? || c.SubjectLike? then " COLLATE NOCASE" else ""
  }

  /** Position of a condition in the fixed order. */
  function Rank(c: Cond): nat
  {
    match c
    case DateFrom => 0
    case DateTo => 1
    case SenderLike => 2
    case SubjectLike => 3
  }

  /** The bound text for a day: `strftime("%Y-%m-%d 00:00:00")`. */
  function DayBound(d: Date): string
    requires ValidDate(d)
  {
    Format(StartOfDay(d))
  }

  /** The `conditions` list. */
  function Conditions(q: Query): (cs: seq<string>)
    ensures |cs| == |q.bounds|
  {
    seq(|q.bounds|, i requires 0 <= i < |q.bounds| => CondText(q.bounds[i].cond))
  }

  /** The `params` list. */
  function Params(q: Query): (ps: seq<string>)
    ensures |ps| == |q.bounds|
  {
    seq(|q.bounds|, i requires 0 <= i < |q.bounds| => q.bounds[i].param)
  }

  function JoinAnd(texts: seq<string>): string
    requires |texts| > 0
  {
    if |texts| == 1 then texts[0] else texts[0] + " AND " + JoinAnd(texts[1..])
  }

  /** The WHERE clause text. */
  function WhereClause(q: Query): string
  {
    if |q.bounds| == 0 then "1=1" else JoinAnd(Conditions(q))
  }

  /** Condition `x` comes strictly before condition `y` in the fixed order. */
  predicate RankBefore(x: Bound, y: Bound)
  {
    Rank(x.cond) < Rank(y.cond)
  }

  /** Conditions in strictly increasing fixed order (hence no repeats). */
  predicate InOrder(bs: seq<Bound>)
  {
    Pairwise(bs, RankBefore)
  }

  /** The conditions among `bs`. */
  function CondsIn(bs: seq<Bound>): set<Cond>
  {
    set i | 0 <= i < |bs| :: bs[i].cond
  }

  /** The query has condition `c`. */
  predicate Has(q: Query, c: Cond)
  {
    c in CondsIn(q.bounds)
  }

  /** The parameter bound to a condition is the one its option dictates. */
  predicate ParamFits(a: SearchArgs, b: Bound)
    requires WellFormedArgs(a)
  {
    match b.cond
    case DateFrom => a.dateFrom.Some? && b.param == DayBound(a.dateFrom.value)
    case DateTo => a.dateTo.Some? && b.param == DayBound(a.dateTo.value)
    case SenderLike => Given(a.sender) && b.param == Wrap(a.sender.value)
    case SubjectLike => Given(a.subject) && b.param == Wrap(a.subject.value)
  }

  /** `search_index` emits condition `c` exactly when its option is set
      (Python truthiness for the text options). */
  predicate Selected(a: SearchArgs, c: Cond)
  {
    match c
    case DateFrom => a.dateFrom.Some?
    case DateTo => a.dateTo.Some?
    case SenderLike => Given(a.sender)
    case SubjectLike => Given(a.subject)
  }

  function SelectedIn(a: SearchArgs): Bound -> bool
  {
    (b: Bound) => Selected(a, b.cond)
  }

  /** The four `if args.X:` steps in source order, each with the parameter
      it would append. */
  function Candidates(a: SearchArgs): (cs: seq<Bound>)
    requires WellFormedArgs(a)
    ensures |cs| == 4 && forall i :: 0 <= i < 4 ==> Rank(cs[i].cond) == i
  {
    var cs := [
      Bound(DateFrom, if a.dateFrom.Some? then DayBound(a.dateFrom.value) else ""),
      Bound(DateTo, if a.dateTo.Some? then DayBound(a.dateTo.value) else ""),
      Bound(SenderLike, if a.sender.Some? then Wrap(a.sender.value) else ""),
      Bound(SubjectLike, if a.subject.Some? then Wrap(a.subject.value) else "")];
    cs
  }

  /** A candidate whose option is set carries the parameter it dictates. */
  lemma CandidateFits(a: SearchArgs, i: nat)
    requires WellFormedArgs(a) && i < 4 && Selected(a, Candidates(a)[i].cond)
    ensures ParamFits(a, Candidates(a)[i])
  {
  }

  /** Candidate `Rank(c)` is the one for condition `c`. */
  lemma CandidateAt(a: SearchArgs, c: Cond)
    requires WellFormedArgs(a)
    ensures Candidates(a)[Rank(c)].cond == c
  {
    match c
    case DateFrom =>
    case DateTo =>
    case SenderLike =>
    case SubjectLike =>
  }

  /** The conditions and parameters `search_index` composes, and whether it
      adds `LIMIT`: the clause is left off when counting or filtering on the
      body, since those need every candidate row. */
  function BuildQuery(a: SearchArgs): (q: Query)
    requires WellFormedArgs(a)
    ensures q.limit.None? <==> a.count || Given(a.body)
    ensures q.limit.Some? ==> q.limit.value == a.limit
  {
    Query(Filter(Candidates(a), SelectedIn(a)),
      if !a.count && !Given(a.body) then Some(a.limit) else None)
  }

  /** The conditions come in the fixed order date-from, date-to, sender,
      subject, with no condition twice. */
  lemma QueryInOrder(a: SearchArgs)
    requires WellFormedArgs(a)
    ensures InOrder(BuildQuery(a).bounds)
  {
    FilterPairwise(Candidates(a), SelectedIn(a), RankBefore);
  }

  /** A condition is emitted exactly when its option is given. */
  lemma QueryConditionsSelected(a: SearchArgs)
    requires WellFormedArgs(a)
    ensures Has(BuildQuery(a), DateFrom) <==> a.dateFrom.Some?
    ensures Has(BuildQuery(a), DateTo) <==> a.dateTo.Some?
    ensures Has(BuildQuery(a), SenderLike) <==> Given(a.sender)
    ensures Has(BuildQuery(a), SubjectLike) <==> Given(a.subject)
  {
    var bounds := BuildQuery(a).bounds;
    forall c ensures c in CondsIn(bounds) <==> Selected(a, c)
    {
      if Selected(a, c) {
        BoundOfSelected(a, c);
        var j :| 0 <= j < |bounds| && bounds[j] == Candidates(a)[Rank(c)];
      }
      if c in CondsIn(bounds) {
        var j :| 0 <= j < |bounds| && bounds[j].cond == c;
        SelectedOfBound(a, bounds[j]);
      }
    }
  }

  /** Each condition carries the parameter its option dictates: the day
      bound as `YYYY-MM-DD 00:00:00`, the needles wrapped in `%`. So the
      i-th `?` gets the i-th parameter. */
  lemma QueryParamsFit(a: SearchArgs)
    requires WellFormedArgs(a)
    ensures forall i :: 0 <= i < |BuildQuery(a).bounds| ==> ParamFits(a, BuildQuery(a).bounds[i])
  {
    var bounds := BuildQuery(a).bounds;
    forall i | 0 <= i < |bounds|
      ensures ParamFits(a, bounds[i])
    {
      SelectedOfBound(a, bounds[i]);
      CandidateFits(a, Rank(bounds[i].cond));
    }
  }

  /** SQL truth of one condition for a row; a NULL `date_utc` fails both
      date comparisons. */
  predicate EvalBound(b: Bound, r: Record)
  {
    match b.cond
    case DateFrom => r.dateUtc.Some? && !StrLess(r.dateUtc.value, b.param)
    case DateTo => r.dateUtc.Some? && StrLess(r.dateUtc.value, b.param)
    case SenderLike => Like(b.param, r.sender)
    case SubjectLike => Like(b.param, r.subject)
  }

  /** The WHERE clause holds of a row: every condition holds (none: `1=1`). */
  predicate EvalWhere(q: Query, r: Record)
  {
    forall i :: 0 <= i < |q.bounds| ==> EvalBound(q.bounds[i], r)
  }

  /** `LIMIT n` as SQLite applies it: a negative `n` means no limit. */
  function ApplyLimit(rows: seq<Record>, limit: Option<int>): (r: seq<Record>)
    ensures r <= rows
    ensures limit.None? || limit.value < 0 ==> r == rows
    ensures limit.Some? && limit.value >= 0 ==> |r| == Min(limit.value, |rows|)
  {
    if limit.None? || limit.value < 0 then rows else rows[..Min(limit.value, |rows|)]
  }

  /** The WHERE clause as a row predicate. */
  function WherePred(q: Query): Record -> bool
  {
    (r: Record) => EvalWhere(q, r)
  }

  /** The rows `search_index` returns; `ordered` is the table in the order
      `ORDER BY date_utc DESC` produces. They are the first rows of that
      order that pass the WHERE clause: all of them when counting or
      filtering on the body, else at most `limit` of them. */
  function SearchIndex(ordered: seq<Record>, a: SearchArgs): (rows: seq<Record>)
    requires WellFormedArgs(a)
    ensures rows <= Filter(ordered, WherePred(BuildQuery(a)))
    ensures a.count || Given(a.body) || a.limit < 0 ==> rows == Filter(ordered, WherePred(BuildQuery(a)))
    ensures !a.count && !Given(a.body) && a.limit >= 0 ==>
      |rows| == Min(a.limit, |Filter(ordered, WherePred(BuildQuery(a)))|)
  {
    var q := BuildQuery(a);
    ApplyLimit(Filter(ordered, WherePred(q)), q.limit)
  }

  /** The day bounds as instants: a row whose `date_utc` reads back as `t`. */
  function Instant(r: Record): Option<DateTime>
  {
    if r.dateUtc.Some? then ParseUtc(r.dateUtc.value) else None
  }

  /** What filter `c` asks of a record: dated on or after the start of
      `dateFrom`, dated strictly before the start of `dateTo`, and the sender
      or subject containing its needle ignoring case. */
  predicate Meets(a: SearchArgs, c: Cond, r: Record)
    requires WellFormedArgs(a)
  {
    match c
    case DateFrom =>
      a.dateFrom.Some? && Instant(r).Some? && !Before(Instant(r).value, StartOfDay(a.dateFrom.value))
    case DateTo =>
      a.dateTo.Some? && Instant(r).Some? && Before(Instant(r).value, StartOfDay(a.dateTo.value))
    case SenderLike => Given(a.sender) && ContainsNoCase(r.sender, a.sender.value)
    case SubjectLike => Given(a.subject) && ContainsNoCase(r.subject, a.subject.value)
  }

  /** Reference meaning of the search options on an in-memory record: it
      meets every filter that is given. */
  predicate RowMatches(a: SearchArgs, r: Record)
    requires WellFormedArgs(a)
  {
    forall c :: Selected(a, c) ==> Meets(a, c, r)
  }

  /** The `date_utc` column holds what the index build writes there: nothing,
      or a well-formed `YYYY-MM-DD HH:MM:SS` text. */
  predicate WellFormedRow(r: Record)
  {
    r.dateUtc.Some? ==> ParseUtc(r.dateUtc.value).Some?
  }

  /** Every row the index build writes has a well-formed `date_utc`. */
  lemma IndexWellFormed(lines: seq<Line>, parse: HeaderParser)
    ensures forall r :: r in Index(lines, parse) ==> WellFormedRow(r)
  {
    RecordsWellFormed(Raws(Split(lines)), parse);
  }

  lemma RecordsWellFormed(raws: seq<seq<byte>>, parse: HeaderParser)
    ensures forall r :: r in IndexRecords(raws, parse) ==> WellFormedRow(r)
  {
    forall r | r in IndexRecords(raws, parse)
      ensures WellFormedRow(r)
    {
      var k :| 0 <= k < |raws| && IndexRecords(raws, parse)[k] == r;
    }
  }

  /** The date bounds read chronologically: on or after the first day's
      midnight (inclusive), strictly before the second day's midnight
      (exclusive); a row without `date_utc` passes neither. */
  lemma DateBoundsChronological(r: Record, d: Date)
    requires ValidDate(d) && WellFormedRow(r)
    ensures EvalBound(Bound(DateFrom, DayBound(d)), r)
      <==> Instant(r).Some? && !Before(Instant(r).value, StartOfDay(d))
    ensures EvalBound(Bound(DateTo, DayBound(d)), r)
      <==> Instant(r).Some? && Before(Instant(r).value, StartOfDay(d))
    ensures r.dateUtc.None? ==>
      !EvalBound(Bound(DateFrom, DayBound(d)), r) && !EvalBound(Bound(DateTo, DayBound(d)), r)
  {
    if r.dateUtc.Some? {
      var t := ParseUtc(r.dateUtc.value).value;
      FormatParse(r.dateUtc.value);
      FormatOrder(t, StartOfDay(d));
    }
  }

  /** One candidate condition, when selected, means its filter. */
  lemma CandidateMeans(a: SearchArgs, r: Record, c: Cond)
    requires WellFormedArgs(a) && WellFormedRow(r) && Selected(a, c)
    requires Given(a.sender) ==> NoWildcards(a.sender.value)
    requires Given(a.subject) ==> NoWildcards(a.subject.value)
    ensures EvalBound(Candidates(a)[Rank(c)], r) <==> Meets(a, c, r)
  {
    match c
    case DateFrom => DateBoundsChronological(r, a.dateFrom.value);
    case DateTo => DateBoundsChronological(r, a.dateTo.value);
    case SenderLike => LikeIsSubstring(a.sender.value, r.sender);
    case SubjectLike => LikeIsSubstring(a.subject.value, r.subject);
  }

  /** A row passes the composed WHERE clause exactly when it meets every given
      filter, provided the needles hold no `%` or `_` (those act as wildcards). */
  lemma WhereMeansRowMatches(a: SearchArgs, r: Record)
    requires WellFormedArgs(a) && WellFormedRow(r)
    requires Given(a.sender) ==> NoWildcards(a.sender.value)
    requires Given(a.subject) ==> NoWildcards(a.subject.value)
    ensures EvalWhere(BuildQuery(a), r) <==> RowMatches(a, r)
  {
    WhereImpliesMatches(a, r);
    MatchesImpliesWhere(a, r);
  }

  /** The candidate for a given option is among the composed conditions. */
  lemma BoundOfSelected(a: SearchArgs, c: Cond)
    requires WellFormedArgs(a) && Selected(a, c)
    ensures Candidates(a)[Rank(c)].cond == c
    ensures Candidates(a)[Rank(c)] in BuildQuery(a).bounds
  {
    CandidateAt(a, c);
    FilterMembers(Candidates(a), SelectedIn(a));
  }

  /** Each composed condition is the candidate of a given option. */
  lemma SelectedOfBound(a: SearchArgs, b: Bound)
    requires WellFormedArgs(a) && b in BuildQuery(a).bounds
    ensures Selected(a, b.cond) && Candidates(a)[Rank(b.cond)] == b
  {
    var cs := Candidates(a);
    FilterMembers(cs, SelectedIn(a));
    var k :| 0 <= k < |cs| && cs[k] == b;
    assert Rank(cs[k].cond) == k;
  }

  lemma WhereImpliesMatches(a: SearchArgs, r: Record)
    requires WellFormedArgs(a) && WellFormedRow(r)
    requires Given(a.sender) ==> NoWildcards(a.sender.value)
    requires Given(a.subject) ==> NoWildcards(a.subject.value)
    ensures EvalWhere(BuildQuery(a), r) ==> RowMatches(a, r)
  {
    var bounds := BuildQuery(a).bounds;
    if EvalWhere(BuildQuery(a), r) {
      forall c | Selected(a, c)
        ensures Meets(a, c, r)
      {
        BoundOfSelected(a, c);
        var j :| 0 <= j < |bounds| && bounds[j] == Candidates(a)[Rank(c)];
        CandidateMeans(a, r, c);
      }
    }
  }

  lemma MatchesImpliesWhere(a: SearchArgs, r: Record)
    requires WellFormedArgs(a) && WellFormedRow(r)
    requires Given(a.sender) ==> NoWildcards(a.sender.value)
    requires Given(a.subject) ==> NoWildcards(a.subject.value)
    ensures RowMatches(a, r) ==> EvalWhere(BuildQuery(a), r)
  {
    var bounds := BuildQuery(a).bounds;
    if RowMatches(a, r) {
      forall j | 0 <= j < |bounds|
        ensures EvalBound(bounds[j], r)
      {
        SelectedOfBound(a, bounds[j]);
        CandidateMeans(a, r, bounds[j].cond);
      }
    }
  }

  /** With no filter given there is no condition, the clause is `1=1`, and
      every row passes. */
  lemma NoFiltersSelectAll(a: SearchArgs, ordered: seq<Record>)
    requires WellFormedArgs(a)
    requires a.dateFrom.None? && a.dateTo.None? && !Given(a.sender) && !Given(a.subject)
    ensures BuildQuery(a).bounds == []
    ensures WhereClause(BuildQuery(a)) == "1=1"
    ensures Filter(ordered, WherePred(BuildQuery(a))) == ordered
  {
    var q := BuildQuery(a);
    FilterMembers(Candidates(a), SelectedIn(a));
    if |q.bounds| > 0 {
      assert q.bounds[0] in q.bounds;
      match q.bounds[0].cond
      case DateFrom => assert false;
      case DateTo => assert false;
      case SenderLike => assert false;
      case SubjectLike => assert false;
    }
    FilterAll(ordered, WherePred(q));
  }

  /** Number of `?` placeholders in a text. */
  function Placeholders(s: string): nat
  {
    if |s| == 0 then 0 else (if s[0] == '?' then 1 else 0) + Placeholders(s[1..])
  }

  lemma {:induction false} PlaceholdersAppend(s: string, t: string)
    ensures Placeholders(s + t) == Placeholders(s) + Placeholders(t)
  {
    if |s| == 0 {
      assert s + t == t;
    } else {
      assert (s + t)[1..] == s[1..] + t;
      PlaceholdersAppend(s[1..], t);
    }
  }

  lemma {:induction false} PlaceholdersNone(s: string)
    requires '?' !in s
    ensures Placeholders(s) == 0
  {
    if |s| > 0 {
      assert s[0] in s;
      assert forall x :: x in s[1..] ==> x in s;
      PlaceholdersNone(s[1..]);
    }
  }

  lemma OnePlaceholder(head: string, tail: string)
    requires '?' !in head && '?' !in tail
    ensures Placeholders(head + "?" + tail) == 1
  {
    PlaceholdersNone(head);
    PlaceholdersNone(tail);
    PlaceholdersAppend(head, "?" + tail);
    assert head + "?" + tail == head + ("?" + tail);
    assert ("?" + tail)[1..] == tail;
  }

  /** Each condition text holds exactly one `?`. */
  lemma CondTextPlaceholder(c: Cond)
    ensures Placeholders(CondText(c)) == 1
  {
    OnePlaceholder(CondHead(c), CondTail(c));
  }

  lemma {:induction false} JoinAndPlaceholders(texts: seq<string>)
    requires |texts| > 0
    requires forall i :: 0 <= i < |texts| ==> Placeholders(texts[i]) == 1
    ensures Placeholders(JoinAnd(texts)) == |texts|
  {
    if |texts| > 1 {
      JoinAndPlaceholders(texts[1..]);
      PlaceholdersNone(" AND ");
      PlaceholdersAppend(texts[0], " AND ");
      PlaceholdersAppend(texts[0] + " AND ", JoinAnd(texts[1..]));
    }
  }

  /** The WHERE text has exactly one `?` per bound parameter, so SQLite's
      positional binding pairs each condition with its own parameter. */
  lemma WherePlaceholders(q: Query)
    ensures Placeholders(WhereClause(q)) == |Params(q)|
  {
    if |q.bounds| > 0 {
      forall i | 0 <= i < |q.bounds|
        ensures Placeholders(Conditions(q)[i]) == 1
      {
        CondTextPlaceholder(q.bounds[i].cond);
      }
      JoinAndPlaceholders(Conditions(q));
    } else {
      PlaceholdersNone("1=1");
    }
  }
}
