/** The `FullTextSearch` engine of search/full_text_search.py, without its database: the
    page arithmetic of `execute`, the crosswalk dispatch of `_transform`, and the statement
    `get_top_subjects_for_query` prepares. The counts and rows the database would return
    are parameters. */
module FullTextSearch {
  import opened Wrappers
  import opened Text
  import opened Json
  import opened Constants
  import opened SearchQuery
  import opened QueryInvariants
  import Rows
  import Crosswalks

  // ---------------------------------------------------------------------------
  // The engine
  // ---------------------------------------------------------------------------

  /** The engine's own state: the transformer `set_custom_transformer` installed, if any. */
  datatype Engine = Engine(custom: Option<Rows.Row -> Value>)

  const NewEngine: Engine := Engine(None)

  function SetCustomTransformer(e: Engine, fn: Rows.Row -> Value): (r: Engine)
    ensures r.custom.Some? && r.custom.value == fn
  {
    Engine(Some(fn))
  }

  /** The crosswalk `query()` uses when none is given; a bare `SearchQuery()` uses PG. */
  const DefaultCrosswalk: Crosswalk := Full

  /** `query(crosswalk)`: a fresh builder on the first page of 25, using `cw`. */
  function NewSearch(cw: Crosswalk): (q: Query)
    ensures WellFormed(q)
    ensures q.crosswalk == cw && q.page == 1 && q.pageSize == 25
    ensures q.searches == [] && q.filters == [] && Params(q) == []
  {
    NewQueryWellFormed(cw);
    NewQuery(cw)
  }

  // ---------------------------------------------------------------------------
  // Crosswalk dispatch
  // ---------------------------------------------------------------------------

  /** The error `CROSSWALK_MAP[CUSTOM]` raises when no custom transformer is installed. */
  const MissingTransformer := "KeyError: Crosswalk.CUSTOM"

  /** `_transform`: the custom transformer for CUSTOM when one is installed, the
      crosswalk's entry of `CROSSWALK_MAP` otherwise. */
  function Transform(e: Engine, row: Rows.Row, cw: Crosswalk, labels: map<string, string>): (r: Result<Value>)
    ensures r.Failure? <==> cw == Custom && e.custom.None?
    ensures r.Failure? ==> r.error == MissingTransformer
    ensures cw == Custom && e.custom.Some? ==> r == Success(e.custom.value(row))
    ensures cw != Custom ==> r.Success? && r.value.JDict?
  {
    if cw == Custom && e.custom.Some? then Success(e.custom.value(row))
    else
      match Crosswalks.CrosswalkMap(cw)
      case None => Failure(MissingTransformer)
      case Some(t) => Success(JDict(Crosswalks.ApplyTransformer(t, row, labels)))
  }

  /** The built-in crosswalks produce records with their documented keys. */
  lemma TransformKeys(e: Engine, row: Rows.Row, cw: Crosswalk, labels: map<string, string>)
    ensures cw == Full ==> Keys(Transform(e, row, cw, labels).value.entries) == Crosswalks.FullKeys
    ensures cw == Mini ==> Keys(Transform(e, row, cw, labels).value.entries) == ["id", "title", "author", "downloads"]
    ensures cw == Pg ==> Keys(Transform(e, row, cw, labels).value.entries) == Crosswalks.PgKeys
  {
  }

  /** Installing a custom transformer changes only what CUSTOM produces. */
  lemma CustomOnlyAffectsCustom(e: Engine, fn: Rows.Row -> Value, row: Rows.Row, cw: Crosswalk, labels: map<string, string>)
    ensures cw != Custom ==> Transform(SetCustomTransformer(e, fn), row, cw, labels) == Transform(e, row, cw, labels)
    ensures cw == Custom ==> Transform(SetCustomTransformer(e, fn), row, cw, labels) == Success(fn(row))
  {
  }

  /** `[self._transform(r, cw) for r in rows]`: raises, at the first row, exactly when
      there is a row and CUSTOM has no transformer. */
  function TransformAll(e: Engine, rows: seq<Rows.Row>, cw: Crosswalk, labels: map<string, string>): (r: Result<seq<Value>>)
    ensures r.Failure? <==> rows != [] && cw == Custom && e.custom.None?
    ensures r.Failure? ==> r == Transform(e, rows[0], cw, labels).PropagateFailure()
    ensures r.Success? ==> |r.value| == |rows|
    ensures r.Success? ==> forall i :: 0 <= i < |rows| ==> Transform(e, rows[i], cw, labels) == Success(r.value[i])
  {
    if rows != [] && cw == Custom && e.custom.None? then Failure(MissingTransformer)
    else Success(seq(|rows|, i requires 0 <= i < |rows| => Transform(e, rows[i], cw, labels).value))
  }

  // ---------------------------------------------------------------------------
  // Paging
  // ---------------------------------------------------------------------------

  /** `max(1, (total + page_size - 1) // page_size)`: the number of pages, at least one. */
  function TotalPages(total: nat, pageSize: int): (r: int)
    requires pageSize >= 1
    ensures r >= 1
    ensures total == 0 ==> r == 1
    ensures total > 0 ==> (r - 1) * pageSize < total <= r * pageSize
  {
    var n := total + pageSize - 1;
    var k := n / pageSize;
    assert n == k * pageSize + n % pageSize;
    assert (k - 1) * pageSize == k * pageSize - pageSize;
    if k > 1 then k else 1
  }

  /** Only one page count satisfies the ceiling bounds. */
  lemma TotalPagesUnique(total: nat, pageSize: int, m: int)
    requires pageSize >= 1 && total > 0
    requires (m - 1) * pageSize < total <= m * pageSize
    ensures m == TotalPages(total, pageSize)
  {
    var r := TotalPages(total, pageSize);
    if m < r {
      MulMonotone(m, r - 1, pageSize);
    } else if m > r {
      MulMonotone(r, m - 1, pageSize);
    }
  }

  lemma MulMonotone(a: int, b: int, c: int)
    requires a <= b && c >= 0
    ensures a * c <= b * c
  {
    assert b * c - a * c == (b - a) * c;
  }

  /** `max(1, min(page, total_pages))`. */
  function ClampPage(page: int, totalPages: int): (r: int)
    requires totalPages >= 1
    ensures 1 <= r <= totalPages
    ensures 1 <= page <= totalPages ==> r == page
    ensures page > totalPages ==> r == totalPages
    ensures page < 1 ==> r == 1
  {
    var m := if page < totalPages then page else totalPages;
    if m > 1 then m else 1
  }

  /** The query with its page clamped to the pages `total` rows fill, as `execute` leaves it. */
  function Settle(q: Query, total: nat): (r: Query)
    requires q.pageSize >= 1
    ensures r == q.(page := r.page)
    ensures 1 <= r.page <= TotalPages(total, q.pageSize)
    ensures 1 <= q.page <= TotalPages(total, q.pageSize) ==> r.page == q.page
  {
    q.(page := ClampPage(q.page, TotalPages(total, q.pageSize)))
  }

  lemma SettleKeepsWellFormed(q: Query, total: nat)
    requires WellFormed(q)
    ensures WellFormed(Settle(q, total))
  {
    assert Params(Settle(q, total)) == Params(q);
  }

  /** Settling twice against the same count changes nothing more. */
  lemma SettleIdempotent(q: Query, total: nat)
    requires q.pageSize >= 1
    ensures Settle(Settle(q, total), total) == Settle(q, total)
  {
  }

  /** The page statement `execute` sends starts inside the matching rows, or at the
      first row when nothing matches. */
  lemma SettledOffsetInRange(q: Query, total: nat)
    requires WellFormed(q)
    ensures total == 0 ==> Build(Settle(q, total)).statement.offset == 0
    ensures total > 0 ==> 0 <= Build(Settle(q, total)).statement.offset < total
  {
    var p := Settle(q, total).page;
    PageOffsetBelowTotal(p, TotalPages(total, q.pageSize), q.pageSize, total);
  }

  /** A page no later than the last one starts before the last matching row. */
  lemma PageOffsetBelowTotal(p: int, tp: int, size: int, total: nat)
    requires size >= 1 && 1 <= p <= tp
    requires total == 0 ==> tp == 1
    requires total > 0 ==> (tp - 1) * size < total
    ensures total == 0 ==> (p - 1) * size == 0
    ensures total > 0 ==> 0 <= (p - 1) * size < total
  {
    MulMonotone(0, p - 1, size);
    MulMonotone(p - 1, tp - 1, size);
  }

  /** The dict `execute` returns. */
  datatype Paged = Paged(results: seq<Value>, page: int, pageSize: int, total: nat, totalPages: int)

  /** One `execute`: the statements it sends, the query as it leaves it (the page is
      written back before rows are fetched), and its result or the error it raises. */
  datatype Execution = Execution(count: Built, pageQuery: Built, query: Query, outcome: Result<Paged>)

  /** `execute(q)`, given what the count statement returned (`None` when `scalar()` finds
      no row) and the rows the page statement returned. */
  function Execute(e: Engine, q: Query, count: Option<nat>, rows: seq<Rows.Row>, labels: map<string, string>): (r: Execution)
    requires WellFormed(q)
    ensures r.count == BuildCount(q) && r.pageQuery == Build(r.query)
    ensures r.query == q.(page := r.query.page) && WellFormed(r.query)
    ensures r.outcome.Failure? <==> rows != [] && q.crosswalk == Custom && e.custom.None?
    ensures r.outcome.Success? ==> (
      var p := r.outcome.value;
      && p.total == count.GetOr(0)
      && p.totalPages == TotalPages(p.total, q.pageSize)
      && p.page == r.query.page && 1 <= p.page <= p.totalPages
      && p.pageSize == q.pageSize
      && |p.results| == |rows|)
  {
    var total := count.GetOr(0);
    var tp := TotalPages(total, q.pageSize);
    var q' := Settle(q, total);
    SettleKeepsWellFormed(q, total);
    var outcome :=
      match TransformAll(e, rows, q'.crosswalk, labels)
      case Failure(err) => Failure(err)
      case Success(vs) => Success(Paged(vs, q'.page, q'.pageSize, total, tp));
    Execution(BuildCount(q), Build(q'), q', outcome)
  }

  // ---------------------------------------------------------------------------
  // Top subjects of a result set
  // ---------------------------------------------------------------------------

  const DefaultSubjectLimit := 15
  const DefaultMaxBooks := 1000

  /** The conditions the sampled books must meet: the " AND "-joined searches, then the
      " AND "-joined filters, each only when non-empty. */
  function SubjectConditions(q: Query): (r: seq<string>)
    ensures forall i :: 0 <= i < |r| ==> r[i] != ""
  {
    var s := Join(SearchSqls(q.searches), " AND ");
    var f := Join(FilterSqls(q.filters), " AND ");
    (if s != "" then [s] else []) + (if f != "" then [f] else [])
  }

  function WhereClause(parts: seq<string>): (r: string)
    ensures parts == [] <==> r == ""
  {
    if parts == [] then "" else "WHERE " + Join(parts, " AND ")
  }

  /** The statement `get_top_subjects_for_query` runs: the matched books (at most
      `maxBooks`, in the query's order) and the number of subjects to return. */
  datatype SubjectsStatement = SubjectsStatement(where: string, order: string, maxBooks: int, limit: int, params: Dict)

  function TopSubjects(q: Query, limit: int, maxBooks: int): (r: SubjectsStatement)
    ensures 1 <= r.maxBooks <= 5000 && 1 <= r.limit <= 100
    ensures 1 <= maxBooks <= 5000 ==> r.maxBooks == maxBooks
    ensures maxBooks < 1 ==> r.maxBooks == 1
    ensures maxBooks > 5000 ==> r.maxBooks == 5000
    ensures 1 <= limit <= 100 ==> r.limit == limit
    ensures limit < 1 ==> r.limit == 1
    ensures limit > 100 ==> r.limit == 100
    ensures r.order == OrderSql(q).sql
    ensures Lookup(r.params, "limit") == Some(PInt(r.limit))
    ensures Lookup(r.params, "max_books") == Some(PInt(r.maxBooks))
  {
    var mb := Clamp(1, 5000, maxBooks);
    var lim := Clamp(1, 100, limit);
    var o := OrderSql(q);
    var ranked := if o.rankQ.Some? then [Binding("rank_q", PStr(o.rankQ.value))] else [];
    var ps := Params(q) + ranked + [Binding("limit", PInt(lim)), Binding("max_books", PInt(mb))];
    LookupLastTwo(Params(q) + ranked, Binding("limit", PInt(lim)), Binding("max_books", PInt(mb)));
    SubjectsStatement(WhereClause(SubjectConditions(q)), o.sql, mb, lim, ps)
  }

  /** Every other parameter is bound as the page statement binds it. */
  lemma TopSubjectsParams(q: Query, limit: int, maxBooks: int, k: string)
    requires k != "limit" && k != "max_books"
    ensures Lookup(TopSubjects(q, limit, maxBooks).params, k) == Lookup(Build(q).params, k)
  {
    var r := TopSubjects(q, limit, maxBooks);
    var tail := [Binding("limit", PInt(r.limit)), Binding("max_books", PInt(r.maxBooks))];
    assert r.params == Build(q).params + tail;
    LookupUpdate(Build(q).params, tail, k);
    assert Lookup(tail, k).None?;
  }

  /** Joining two joins is joining the concatenation. */
  lemma {:induction false} JoinAppend(a: seq<string>, b: seq<string>, sep: string)
    requires a != [] && b != []
    ensures Join([Join(a, sep), Join(b, sep)], sep) == Join(a + b, sep)
    decreases |a|
  {
    if |a| == 1 {
      assert (a + b)[1..] == b;
    } else {
      assert (a + b)[1..] == a[1..] + b;
      JoinAppend(a[1..], b, sep);
      assert Join([Join(a[1..], sep), Join(b, sep)], sep) == Join(a[1..], sep) + sep + Join(b, sep);
    }
  }

  /** The books sampled for subjects meet exactly the conditions of the page query:
      the same conjunction, whether its searches nest in a sub-select or not. */
  lemma TopSubjectsSameConditions(q: Query)
    ensures Join(SubjectConditions(q), " AND ")
         == Join(SelectionOf(q).inner + SelectionOf(q).outer, " AND ")
  {
    var ss := SearchSqls(q.searches);
    var fs := FilterSqls(q.filters);
    var s := Join(ss, " AND ");
    var f := Join(fs, " AND ");
    if s != "" && f != "" {
      JoinAppend(ss, fs, " AND ");
    } else if s != "" {
      assert SelectionOf(q).inner + SelectionOf(q).outer == ss;
    } else if f != "" {
      assert SelectionOf(q).inner + SelectionOf(q).outer == fs;
    }
  }
}
