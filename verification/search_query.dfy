/** The `SearchQuery` builder of search/full_text_search.py: a value that accumulates
    search conditions, filter conditions, an ordering and a page window, and renders them
    as the SQL text and bound parameters the executor sends to PostgreSQL.

    The Python builder mutates itself and returns `self`; here every builder call is a
    function from one query value to the next. */
module SearchQuery {
  import opened Wrappers
  import opened Text
  import opened Constants

  // ---------------------------------------------------------------------------
  // Bound parameters
  // ---------------------------------------------------------------------------

  /** The values the builder binds: integers, strings and integer lists. */
  datatype Param = PInt(i: int) | PStr(s: string) | PInts(xs: seq<int>)

  datatype Binding = Binding(name: string, value: Param)

  /** A Python parameter dict, as the sequence of writes made to it; the value under a
      key is the last write, so `d.update(e)` is `d + e`. */
  type Dict = seq<Binding>

  /** `d.get(k)`. */
  function Lookup(d: Dict, k: string): (r: Option<Param>)
    ensures r.None? <==> forall i :: 0 <= i < |d| ==> d[i].name != k
    ensures r.Some? ==> exists i :: 0 <= i < |d| && d[i] == Binding(k, r.value)
    decreases |d|
  {
    if d == [] then None
    else if d[|d| - 1].name == k then Some(d[|d| - 1].value)
    else Lookup(d[..|d| - 1], k)
  }

  /** The last two writes to a dict are read back under their own names. */
  lemma LookupLastTwo(d: Dict, a: Binding, b: Binding)
    requires a.name != b.name
    ensures Lookup(d + [a, b], a.name) == Some(a.value)
    ensures Lookup(d + [a, b], b.name) == Some(b.value)
  {
    var e := d + [a, b];
    assert e[|e| - 1] == b;
    assert e[..|e| - 1] == d + [a];
  }

  /** `d.update(e)`: keys written by `e` take their value from `e`, the others keep theirs. */
  lemma {:induction false} LookupUpdate(d: Dict, e: Dict, k: string)
    ensures Lookup(d + e, k) == if Lookup(e, k).Some? then Lookup(e, k) else Lookup(d, k)
    decreases |e|
  {
    if e != [] {
      assert (d + e)[..|d + e| - 1] == d + e[..|e| - 1];
      LookupUpdate(d, e[..|e| - 1], k);
    } else {
      assert d + e == d;
    }
  }

  /** A key written exactly once is looked up to the value of that write. */
  lemma {:induction false} LookupSingleWrite(d: Dict, i: int)
    requires 0 <= i < |d|
    requires forall j :: 0 <= j < |d| && j != i ==> d[j].name != d[i].name
    ensures Lookup(d, d[i].name) == Some(d[i].value)
    decreases |d|
  {
    if i < |d| - 1 {
      var d' := d[..|d| - 1];
      assert d'[i] == d[i];
      assert forall j :: 0 <= j < |d'| && j != i ==> d'[j].name != d'[i].name by {
        forall j | 0 <= j < |d'| && j != i
          ensures d'[j].name != d'[i].name
        {
          assert d'[j] == d[j];
        }
      }
      LookupSingleWrite(d', i);
    }
  }

  // ---------------------------------------------------------------------------
  // `str.format` with automatic fields
  // ---------------------------------------------------------------------------

  /** Python's `template.format(*args)`, numbering `{}` fields from `next`; `{{` and `}}` are
      literal braces. */
  function FormatFrom(t: string, args: seq<string>, next: nat): (r: Result<string>)
    decreases |t|
  {
    if t == [] then Success("")
    else if t[0] == '{' then
      if |t| >= 2 && t[1] == '{' then
        var rest :- FormatFrom(t[2..], args, next);
        Success("{" + rest)
      else if |t| >= 2 && t[1] == '}' then
        if next < |args| then
          var rest :- FormatFrom(t[2..], args, next + 1);
          Success(args[next] + rest)
        else
          Failure("Replacement index " + NatToString(next) + " out of range for positional args tuple")
      else if |t| == 1 then Failure("Single '{' encountered in format string")
      else Failure("unsupported replacement field")
    else if t[0] == '}' then
      if |t| >= 2 && t[1] == '}' then
        var rest :- FormatFrom(t[2..], args, next);
        Success("}" + rest)
      else Failure("Single '}' encountered in format string")
    else
      var rest :- FormatFrom(t[1..], args, next);
      Success([t[0]] + rest)
  }

  function Format(t: string, args: seq<string>): Result<string> {
    FormatFrom(t, args, 0)
  }

  predicate BraceFree(s: string) {
    '{' !in s && '}' !in s
  }

  /** The reference meaning of a template: its brace-free pieces with the arguments between them. */
  function Interleave(pieces: seq<string>, args: seq<string>): string
    requires |pieces| >= 1 && |args| >= |pieces| - 1
    decreases |pieces|
  {
    if |pieces| == 1 then pieces[0]
    else pieces[0] + args[0] + Interleave(pieces[1..], args[1..])
  }

  lemma {:induction false} FormatPlainPrefix(p: string, rest: string, args: seq<string>, next: nat)
    requires BraceFree(p)
    ensures FormatFrom(p + rest, args, next)
         == if FormatFrom(rest, args, next).Success?
            then Success(p + FormatFrom(rest, args, next).value)
            else FormatFrom(rest, args, next)
    decreases |p|
  {
    if p != [] {
      assert p[0] in p;
      assert (p + rest)[1..] == p[1..] + rest;
      FormatPlainPrefix(p[1..], rest, args, next);
      var r := FormatFrom(rest, args, next);
      if r.Success? {
        assert [p[0]] + (p[1..] + r.value) == p + r.value;
      }
    } else {
      assert p + rest == rest;
      var r := FormatFrom(rest, args, next);
      if r.Success? {
        assert p + r.value == r.value;
      }
    }
  }

  /** Formatting `pieces` joined by `{}` succeeds exactly when there is an argument for
      every field, and then yields the pieces interleaved with the arguments. */
  lemma {:induction false} FormatJoined(pieces: seq<string>, args: seq<string>, next: nat)
    requires |pieces| >= 1 && next <= |args|
    requires forall i :: 0 <= i < |pieces| ==> BraceFree(pieces[i])
    ensures FormatFrom(Join(pieces, "{}"), args, next).Success? <==> next + |pieces| - 1 <= |args|
    ensures next + |pieces| - 1 <= |args| ==>
      FormatFrom(Join(pieces, "{}"), args, next) == Success(Interleave(pieces, args[next..]))
    decreases |pieces|
  {
    if |pieces| == 1 {
      FormatPlainPrefix(pieces[0], "", args, next);
      assert pieces[0] + "" == pieces[0];
    } else {
      var tail := Join(pieces[1..], "{}");
      assert Join(pieces, "{}") == pieces[0] + ("{}" + tail);
      FormatPlainPrefix(pieces[0], "{}" + tail, args, next);
      assert ("{}" + tail)[2..] == tail;
      if next < |args| {
        FormatJoined(pieces[1..], args, next + 1);
        if next + |pieces| - 1 <= |args| {
          assert args[next..][1..] == args[next + 1..];
          var i := Interleave(pieces[1..], args[next + 1..]);
          assert pieces[0] + (args[next] + i) == pieces[0] + args[next] + i;
        }
      }
    }
  }

  // ---------------------------------------------------------------------------
  // The query value
  // ---------------------------------------------------------------------------

  /** One `search()` condition: its SQL, the name and text it binds, and the column it ranks on. */
  datatype SearchClause = SearchClause(sql: string, name: string, text: string, column: string)

  /** One filter condition and the parameters it binds. */
  datatype FilterClause = FilterClause(sql: string, params: Dict)

  datatype Query = Query(
    searches: seq<SearchClause>,
    filters: seq<FilterClause>,
    order: OrderBy,
    sortDir: Option<SortDirection>,
    page: int,
    pageSize: int,
    crosswalk: Crosswalk,
    counter: nat)

  /** `SearchQuery()` with the given crosswalk (the dataclass defaults otherwise). */
  function NewQuery(cw: Crosswalk): (q: Query)
    ensures q.searches == [] && q.filters == [] && q.counter == 0
    ensures q.order == Downloads && q.sortDir.None?
    ensures q.page == 1 && q.pageSize == 25 && q.crosswalk == cw
  {
    Query([], [], Downloads, None, 1, 25, cw, 0)
  }

  /** The name `_new_param` gives its `k`-th parameter. */
  function ParamName(k: nat): (n: string)
    ensures StartsWith(n, "__p")
  {
    "__p" + NatToString(k)
  }

  lemma ParamNameInjective(a: nat, b: nat)
    requires ParamName(a) == ParamName(b)
    ensures a == b
  {
    assert ParamName(a)[3..] == NatToString(a);
    assert ParamName(b)[3..] == NatToString(b);
    NatToStringInjective(a, b);
  }

  // ---------------------------------------------------------------------------
  // Builder calls
  // ---------------------------------------------------------------------------

  /** Python's `max(lo, min(hi, x))`. */
  function Clamp(lo: int, hi: int, x: int): (r: int)
    requires lo <= hi
    ensures lo <= r <= hi
    ensures lo <= x <= hi ==> r == x
    ensures x < lo ==> r == lo
    ensures x > hi ==> r == hi
  {
    if x < lo then lo else if x > hi then hi else x
  }

  /** The key of `q[page]` or `q[page, page_size]`. */
  datatype PageKey = PageOnly(page: int) | PageAndSize(page: int, size: int)

  /** `__getitem__`: sets the page (at least 1) and, with a pair, the page size (1 to 100). */
  function GetItem(q: Query, key: PageKey): (r: Query)
    ensures r.page == (if key.page >= 1 then key.page else 1)
    ensures key.PageOnly? ==> r.pageSize == q.pageSize
    ensures key.PageAndSize? ==> 1 <= r.pageSize <= 100
    ensures key.PageAndSize? && 1 <= key.size <= 100 ==> r.pageSize == key.size
    ensures key.PageAndSize? && key.size < 1 ==> r.pageSize == 1
    ensures key.PageAndSize? && key.size > 100 ==> r.pageSize == 100
    ensures r.(page := q.page, pageSize := q.pageSize) == q
  {
    match key
    case PageOnly(p) => q.(page := if p > 1 then p else 1)
    case PageAndSize(p, s) => q.(page := if p > 1 then p else 1, pageSize := Clamp(1, 100, s))
  }

  /** Paging twice with the same key is paging once. */
  lemma GetItemIdempotent(q: Query, key: PageKey)
    ensures GetItem(GetItem(q, key), key) == GetItem(q, key)
  {
  }

  /** Reading the page and size back off a paged query and paging with them again
      changes nothing: `q[p, s]` followed by `q[q._page, q._page_size]`. The size
      starts at 25 and `__getitem__` only ever stores a clamped one, so it is in range. */
  lemma GetItemRoundTrip(q: Query, key: PageKey)
    requires 1 <= q.pageSize <= 100
    ensures var r := GetItem(q, key);
      GetItem(r, PageAndSize(r.page, r.pageSize)) == r
  {
  }

  /** `order_by(order, direction)`: the direction is reset when none is given. */
  function SetOrder(q: Query, order: OrderBy, dir: Option<SortDirection>): (r: Query)
    ensures r.order == order && r.sortDir == dir
    ensures r.(order := q.order, sortDir := q.sortDir) == q
  {
    q.(order := order, sortDir := dir)
  }

  function SetCrosswalk(q: Query, cw: Crosswalk): (r: Query)
    ensures r.crosswalk == cw && r.(crosswalk := q.crosswalk) == q
  {
    q.(crosswalk := cw)
  }

  /** The parameters a `filter()` call binds: one fresh `__pN` per value, numbered from the counter. */
  function FreshBindings(counter: nat, values: seq<Param>): (bs: Dict)
    ensures |bs| == |values|
    ensures forall i :: 0 <= i < |values| ==> bs[i] == Binding(ParamName(counter + i), values[i])
  {
    seq(|values|, i requires 0 <= i < |values| => Binding(ParamName(counter + i), values[i]))
  }

  function Placeholders(bs: Dict): (ps: seq<string>)
    ensures |ps| == |bs|
    ensures forall i :: 0 <= i < |bs| ==> ps[i] == ":" + bs[i].name
  {
    seq(|bs|, i requires 0 <= i < |bs| => ":" + bs[i].name)
  }

  /** `filter(template, *values)`: a failure where `str.format` raises. */
  function Filter(q: Query, template: string, values: seq<Param>): (r: Result<Query>)
    ensures r.Success? ==> r.value.searches == q.searches
    ensures r.Success? ==> |r.value.filters| == |q.filters| + 1 && r.value.filters[..|q.filters|] == q.filters
    ensures r.Success? ==> r.value.filters[|q.filters|].params == FreshBindings(q.counter, values)
    ensures r.Success? ==> r.value.counter == q.counter + |values|
    ensures r.Success? ==> r.value.(filters := q.filters, counter := q.counter) == q
  {
    var bs := FreshBindings(q.counter, values);
    var sql :- Format(template, Placeholders(bs));
    Success(q.(filters := q.filters + [FilterClause(sql, bs)], counter := q.counter + |values|))
  }

  const FtsColumn := "tsvec"
  const TextColumn := "book_text"

  function FtsSql(name: string): string {
    FtsColumn + " @@ websearch_to_tsquery('english', :" + name + ")"
  }

  function FuzzySql(name: string): string {
    ":" + name + " <% " + TextColumn
  }

  /** `search(txt, search_type=st)` on the book field: stripped text that is empty changes nothing. */
  function Search(q: Query, txt: string, st: SearchType): (r: Query)
    ensures Strip(txt) == "" ==> r == q
    ensures Strip(txt) != "" ==>
      && |r.searches| == |q.searches| + 1
      && r.searches[..|q.searches|] == q.searches
      && r.searches[|q.searches|].name == ParamName(q.counter)
      && r.searches[|q.searches|].text == Strip(txt)
      && r.counter == q.counter + 1
      && r.(searches := q.searches, counter := q.counter) == q
  {
    var t := Strip(txt);
    if t == "" then q
    else
      var name := ParamName(q.counter);
      var clause :=
        match st
        case Fts => SearchClause(FtsSql(name), name, t, FtsColumn)
        case Fuzzy => SearchClause(FuzzySql(name), name, t, TextColumn);
      q.(searches := q.searches + [clause], counter := q.counter + 1)
  }

  /** The filter methods of `SearchQuery`, one constructor each. A `member` flag says the
      argument was an enum member (used as is) rather than a string (case-folded). */
  datatype FilterCall =
    | Etext(nr: int)
    | Etexts(nrs: seq<int>)
    | DownloadsGte(n: int)
    | DownloadsLte(n: int)
    | PublicDomain
    | Copyrighted
    | Lang(code: string, member: bool)
    | TextOnly
    | Audiobook
    | AuthorBornAfter(year: int)
    | AuthorBornBefore(year: int)
    | AuthorDiedAfter(year: int)
    | AuthorDiedBefore(year: int)
    | ReleasedAfter(date: string)
    | ReleasedBefore(date: string)
    | Locc(code: string, member: bool)
    | ContributorRole(role: string)
    | FileType(mediatype: string)
    | AuthorId(id: int)
    | SubjectId(id: int)
    | BookshelfId(id: int)
    | Encoding(encoding: string)

  /** The SQL a filter method adds: a fixed condition, or a one-field template `before{}after`
      and the value bound to the field. */
  datatype Template = Fixed(sql: string) | OneField(before: string, after: string, value: Param)

  function TemplateOf(f: FilterCall): Template {
    match f
    case Etext(nr) => OneField("book_id = ", "", PInt(nr))
    case Etexts(nrs) => OneField("book_id = ANY(", ")", PInts(nrs))
    case DownloadsGte(n) => OneField("downloads >= ", "", PInt(n))
    case DownloadsLte(n) => OneField("downloads <= ", "", PInt(n))
    case PublicDomain => Fixed("copyrighted = 0")
    case Copyrighted => Fixed("copyrighted = 1")
    case Lang(code, member) =>
      OneField("lang_codes @> ARRAY[CAST(", " AS text)]", PStr(if member then code else Lower(code)))
    case TextOnly => Fixed("is_audio = false")
    case Audiobook => Fixed("is_audio = true")
    case AuthorBornAfter(y) => OneField("max_author_birthyear >= ", "", PInt(y))
    case AuthorBornBefore(y) => OneField("min_author_birthyear <= ", "", PInt(y))
    case AuthorDiedAfter(y) => OneField("max_author_deathyear >= ", "", PInt(y))
    case AuthorDiedBefore(y) => OneField("min_author_deathyear <= ", "", PInt(y))
    case ReleasedAfter(d) => OneField("CAST(release_date AS date) >= CAST(", " AS date)", PStr(d))
    case ReleasedBefore(d) => OneField("CAST(release_date AS date) <= CAST(", " AS date)", PStr(d))
    case Locc(code, member) =>
      OneField("EXISTS (SELECT 1 FROM mn_books_loccs mbl JOIN loccs lc ON lc.pk = mbl.fk_loccs "
               + "WHERE mbl.fk_books = book_id AND lc.pk LIKE ", ")",
               PStr((if member then code else Upper(code)) + "%"))
    case ContributorRole(role) =>
      OneField("EXISTS (SELECT 1 FROM mn_books_authors mba JOIN roles r ON mba.fk_roles = r.pk "
               + "WHERE mba.fk_books = book_id AND r.role = ", ")", PStr(role))
    case FileType(mt) =>
      OneField("EXISTS (SELECT 1 FROM files f JOIN filetypes ft ON f.fk_filetypes = ft.pk "
               + "WHERE f.fk_books = book_id AND f.obsoleted = 0 AND f.diskstatus = 0 "
               + "AND ft.mediatype = ", ")", PStr(mt))
    case AuthorId(id) =>
      OneField("EXISTS (SELECT 1 FROM mn_books_authors mba "
               + "WHERE mba.fk_books = book_id AND mba.fk_authors = ", ")", PInt(id))
    case SubjectId(id) =>
      OneField("EXISTS (SELECT 1 FROM mn_books_subjects mbs "
               + "WHERE mbs.fk_books = book_id AND mbs.fk_subjects = ", ")", PInt(id))
    case BookshelfId(id) =>
      OneField("EXISTS (SELECT 1 FROM mn_books_bookshelves mbb "
               + "WHERE mbb.fk_books = book_id AND mbb.fk_bookshelves = ", ")", PInt(id))
    case Encoding(enc) =>
      OneField("EXISTS (SELECT 1 FROM files f WHERE f.fk_books = book_id "
               + "AND f.obsoleted = 0 AND f.diskstatus = 0 AND f.fk_encodings = ", ")", PStr(enc))
  }

  /** The boolean-flag methods, which bind no parameter. */
  predicate IsFlag(f: FilterCall) {
    f.PublicDomain? || f.Copyrighted? || f.TextOnly? || f.Audiobook?
  }

  /** The filter method `f` applied to `q`: exactly one predicate appended, nothing else
      touched but the counter, which only the flag methods leave alone. */
  function ApplyFilter(q: Query, f: FilterCall): (r: Query)
    ensures |r.filters| == |q.filters| + 1 && r.filters[..|q.filters|] == q.filters
    ensures r.(filters := q.filters, counter := q.counter) == q
    ensures r.searches == q.searches && r.page == q.page && r.pageSize == q.pageSize
    ensures IsFlag(f) <==> r.counter == q.counter
    ensures IsFlag(f) ==> r.filters[|q.filters|].params == []
    ensures !IsFlag(f) ==> (r.counter == q.counter + 1 && |r.filters[|q.filters|].params| == 1
                            && r.filters[|q.filters|].params[0].name == ParamName(q.counter))
  {
    ApplyTemplate(q, TemplateOf(f))
  }

  /** A template's predicate appended to `q`; a field is bound under the next name. */
  function ApplyTemplate(q: Query, t: Template): Query {
    match t
    case Fixed(sql) => q.(filters := q.filters + [FilterClause(sql, [])])
    case OneField(before, after, v) =>
      var name := ParamName(q.counter);
      q.(filters := q.filters + [FilterClause(before + ":" + name + after, [Binding(name, v)])],
         counter := q.counter + 1)
  }

  /** The filter methods are `filter()` on their template `before{}after`; none of the
      source's templates has another brace, and with brace-free pieces formatting cannot fail. */
  lemma ApplyFilterIsFilter(q: Query, f: FilterCall)
    requires TemplateOf(f).OneField? ==> BraceFree(TemplateOf(f).before) && BraceFree(TemplateOf(f).after)
    ensures TemplateOf(f).Fixed? ==> ApplyFilter(q, f) == q.(filters := q.filters + [FilterClause(TemplateOf(f).sql, [])])
    ensures TemplateOf(f).OneField? ==>
      var t := TemplateOf(f);
      Filter(q, t.before + "{}" + t.after, [t.value]) == Success(ApplyFilter(q, f))
  {
    var t := TemplateOf(f);
    assert ApplyFilter(q, f) == ApplyTemplate(q, t);
    if t.OneField? {
      FilterOneField(q, t.before, t.after, t.value);
    }
  }

  /** `filter()` on a template with one field binds its value under the next name. */
  lemma FilterOneField(q: Query, before: string, after: string, v: Param)
    requires BraceFree(before) && BraceFree(after)
    ensures var name := ParamName(q.counter);
      Filter(q, before + "{}" + after, [v])
        == Success(q.(filters := q.filters + [FilterClause(before + ":" + name + after, [Binding(name, v)])],
                      counter := q.counter + 1))
  {
    var bs := FreshBindings(q.counter, [v]);
    assert bs == [Binding(ParamName(q.counter), v)];
    var ph := Placeholders(bs);
    assert ph == [":" + ParamName(q.counter)];
    assert Join([before, after], "{}") == before + "{}" + after;
    FormatJoined([before, after], ph, 0);
    assert ph[0..] == ph;
    assert [before, after][1..] == [after];
    assert Interleave([before, after], ph) == before + ph[0] + after;
    assert before + ph[0] + after == before + ":" + ParamName(q.counter) + after;
  }

  const ReservedPrefix := "__p"
  const ReservedMessage := "Parameter name reserved by search engine: starts with '__p'"

  /** `where(sql, **params)`: raw SQL, refused when a parameter name starts with `__p`. */
  function Where(q: Query, sql: string, params: Dict): (r: Result<Query>)
    ensures r.Failure? <==> exists i :: 0 <= i < |params| && StartsWith(params[i].name, ReservedPrefix)
    ensures r.Failure? ==> r.error == ReservedMessage
    ensures r.Success? ==> r.value == q.(filters := q.filters + [FilterClause(sql, params)])
  {
    if exists i :: 0 <= i < |params| && StartsWith(params[i].name, ReservedPrefix) then Failure(ReservedMessage)
    else Success(q.(filters := q.filters + [FilterClause(sql, params)]))
  }

  // ---------------------------------------------------------------------------
  // Rendering
  // ---------------------------------------------------------------------------

  function SearchBinding(s: SearchClause): Binding {
    Binding(s.name, PStr(s.text))
  }

  function SearchParams(ss: seq<SearchClause>): (d: Dict)
    ensures |d| == |ss|
    ensures forall i :: 0 <= i < |ss| ==> d[i] == SearchBinding(ss[i])
  {
    seq(|ss|, i requires 0 <= i < |ss| => SearchBinding(ss[i]))
  }

  function FilterParams(fs: seq<FilterClause>): Dict
    decreases |fs|
  {
    if fs == [] then [] else FilterParams(fs[..|fs| - 1]) + fs[|fs| - 1].params
  }

  /** `_params()`: every search's parameter, then every filter's, later writes winning. */
  function Params(q: Query): Dict {
    SearchParams(q.searches) + FilterParams(q.filters)
  }

  /** The ordering clause and, for relevance ordering, the `rank_q` value it binds. */
  datatype Ordering = Ordering(sql: string, rankQ: Option<string>)

  /** An `_ORDER_COLUMNS` entry: column, default direction, NULLS placement ("" for none). */
  datatype OrderColumn = OrderColumn(column: string, defaultDir: SortDirection, nulls: string)

  /** `_ORDER_COLUMNS` for the orderings that consult it; RANDOM's row is never reached,
      because `_order_sql` answers RANDOM first, and RELEVANCE has no row. */
  function OrderColumnOf(o: OrderBy): Option<OrderColumn> {
    match o
    case Downloads => Some(OrderColumn("downloads", Desc, ""))
    case Title => Some(OrderColumn("title", Asc, ""))
    case Author => Some(OrderColumn("all_authors", Asc, "LAST"))
    case ReleaseDate => Some(OrderColumn("CAST(release_date AS date)", Desc, "LAST"))
    case Random => None
    case Relevance => None
  }

  /** `_order_sql`: relevance ranks on the LAST search added. */
  function OrderSql(q: Query): (r: Ordering)
    ensures r.rankQ.Some? <==> q.order == Relevance && q.searches != []
    ensures r.rankQ.Some? ==> '%' !in r.rankQ.value
    ensures q.order == Relevance && q.searches == [] ==> r.sql == "downloads DESC"
  {
    if q.order == Relevance && q.searches != [] then RelevanceOrdering(q.searches[|q.searches| - 1])
    else if q.order == Random then Ordering("RANDOM()", None)
    else
      match OrderColumnOf(q.order)
      case None => Ordering("downloads DESC", None)
      case Some(c) => Ordering(ColumnOrderSql(c, q.sortDir), None)
  }

  /** Ranking on one search clause, binding its text without `%` as `rank_q`. */
  function RelevanceOrdering(last: SearchClause): (r: Ordering)
    ensures r.rankQ == Some(RemoveChar(last.text, '%'))
  {
    var rank := RemoveChar(last.text, '%');
    if Contains(last.sql, "<%") then
      Ordering("word_similarity(:rank_q, " + last.column + ") DESC, downloads DESC", Some(rank))
    else
      Ordering("ts_rank_cd(" + last.column + ", websearch_to_tsquery('english', :rank_q)) DESC, downloads DESC",
               Some(rank))
  }

  function ColumnOrderSql(c: OrderColumn, dir: Option<SortDirection>): string {
    var nulls := if c.nulls != "" then " NULLS " + c.nulls else "";
    c.column + " " + Upper(SortDirectionValue(dir.GetOr(c.defaultDir))) + nulls
  }

  /** The keyword a direction renders as. */
  function DirectionKeyword(d: SortDirection): string {
    match d
    case Asc => "ASC"
    case Desc => "DESC"
  }

  lemma UpperDirection(d: SortDirection)
    ensures Upper(SortDirectionValue(d)) == DirectionKeyword(d)
  {
    var u := Upper(SortDirectionValue(d));
    if d == Asc {
      assert u[0] == 'A' && u[1] == 'S' && u[2] == 'C';
    } else {
      assert u[0] == 'D' && u[1] == 'E' && u[2] == 'S' && u[3] == 'C';
    }
  }

  /** Column orderings use the explicit direction when one was given and the column's
      default otherwise (DESC for downloads and release date, ASC for title and author);
      only author and release date add NULLS LAST. RANDOM orders randomly. */
  lemma ColumnOrderings(q: Query)
    ensures q.order != Relevance ==> OrderSql(q).rankQ.None?
    ensures q.order == Random ==> OrderSql(q).sql == "RANDOM()"
    ensures q.order == Downloads ==> OrderSql(q).sql == "downloads " + DirectionKeyword(q.sortDir.GetOr(Desc))
    ensures q.order == Title ==> OrderSql(q).sql == "title " + DirectionKeyword(q.sortDir.GetOr(Asc))
    ensures q.order == Author ==>
      OrderSql(q).sql == "all_authors " + DirectionKeyword(q.sortDir.GetOr(Asc)) + " NULLS LAST"
    ensures q.order == ReleaseDate ==>
      OrderSql(q).sql == "CAST(release_date AS date) " + DirectionKeyword(q.sortDir.GetOr(Desc)) + " NULLS LAST"
  {
    var d := q.sortDir;
    match q.order
    case Relevance =>
    case Random =>
    case Downloads =>
      var c := OrderColumn("downloads", Desc, "");
      assert OrderSql(q).sql == ColumnOrderSql(c, d);
      assert c.column + " " == "downloads ";
      ColumnWithoutNulls(c.column, c.defaultDir, d);
    case Title =>
      var c := OrderColumn("title", Asc, "");
      assert OrderSql(q).sql == ColumnOrderSql(c, d);
      assert c.column + " " == "title ";
      ColumnWithoutNulls(c.column, c.defaultDir, d);
    case Author =>
      var c := OrderColumn("all_authors", Asc, "LAST");
      assert OrderSql(q).sql == ColumnOrderSql(c, d);
      assert c.column + " " == "all_authors ";
      ColumnNullsLast(c.column, c.defaultDir, d);
    case ReleaseDate =>
      var c := OrderColumn("CAST(release_date AS date)", Desc, "LAST");
      assert OrderSql(q).sql == ColumnOrderSql(c, d);
      assert c.column + " " == "CAST(release_date AS date) ";
      ColumnNullsLast(c.column, c.defaultDir, d);
  }

  lemma ColumnWithoutNulls(column: string, default: SortDirection, dir: Option<SortDirection>)
    ensures ColumnOrderSql(OrderColumn(column, default, ""), dir) == column + " " + DirectionKeyword(dir.GetOr(default))
  {
    ColumnSql(OrderColumn(column, default, ""), dir);
  }

  lemma ColumnNullsLast(column: string, default: SortDirection, dir: Option<SortDirection>)
    ensures ColumnOrderSql(OrderColumn(column, default, "LAST"), dir)
      == column + " " + DirectionKeyword(dir.GetOr(default)) + " NULLS LAST"
  {
    ColumnSql(OrderColumn(column, default, "LAST"), dir);
  }

  /** A column ordering: the column, its direction keyword, then any NULLS clause. */
  lemma ColumnSql(c: OrderColumn, dir: Option<SortDirection>)
    ensures ColumnOrderSql(c, dir)
      == c.column + " " + DirectionKeyword(dir.GetOr(c.defaultDir)) + (if c.nulls != "" then " NULLS " + c.nulls else "")
  {
    UpperDirection(dir.GetOr(c.defaultDir));
  }

  /** Where the rows come from: conditions applied inside the `t` sub-select, and
      conditions of the outer WHERE; each list is joined with " AND " when rendered. */
  datatype Selection = Selection(inner: seq<string>, outer: seq<string>)

  function SearchSqls(ss: seq<SearchClause>): (r: seq<string>)
    ensures |r| == |ss| && forall i :: 0 <= i < |ss| ==> r[i] == ss[i].sql
  {
    seq(|ss|, i requires 0 <= i < |ss| => ss[i].sql)
  }

  function FilterSqls(fs: seq<FilterClause>): (r: seq<string>)
    ensures |r| == |fs| && forall i :: 0 <= i < |fs| ==> r[i] == fs[i].sql
  {
    seq(|fs|, i requires 0 <= i < |fs| => fs[i].sql)
  }

  /** The four shapes `build` and `build_count` choose between: searches narrow a sub-select
      that filters then constrain, or whichever part is present forms the only WHERE. */
  function SelectionOf(q: Query): Selection {
    var ss := SearchSqls(q.searches);
    var fs := FilterSqls(q.filters);
    var s := Join(ss, " AND ");
    var f := Join(fs, " AND ");
    if s != "" && f != "" then Selection(ss, fs)
    else if s != "" then Selection([], ss)
    else if f != "" then Selection([], fs)
    else Selection([], [])
  }

  /** A statement: a page of rows (`count == false`, with ORDER BY/LIMIT/OFFSET) or the
      matching-row count. */
  datatype Statement = Statement(count: bool, selection: Selection, order: string, limit: int, offset: int)

  datatype Built = Built(statement: Statement, params: Dict)

  /** `build()`: the page of rows at `page`, with `rank_q` bound for relevance ordering. */
  function Build(q: Query): (b: Built)
    ensures !b.statement.count && b.statement.selection == SelectionOf(q)
    ensures b.statement.limit == q.pageSize && b.statement.offset == (q.page - 1) * q.pageSize
    ensures |b.params| >= |Params(q)| && b.params[..|Params(q)|] == Params(q)
  {
    var o := OrderSql(q);
    var extra := if o.rankQ.Some? then [Binding("rank_q", PStr(o.rankQ.value))] else [];
    Built(Statement(false, SelectionOf(q), o.sql, q.pageSize, (q.page - 1) * q.pageSize), Params(q) + extra)
  }

  /** The page query binds what `_params()` binds, except that relevance ordering writes
      `rank_q` last, over any `rank_q` a raw `where()` supplied. */
  lemma BuildParamsLookup(q: Query, k: string)
    ensures Lookup(Build(q).params, k)
      == if k == "rank_q" && OrderSql(q).rankQ.Some? then Some(PStr(OrderSql(q).rankQ.value)) else Lookup(Params(q), k)
  {
    var o := OrderSql(q);
    var extra := if o.rankQ.Some? then [Binding("rank_q", PStr(o.rankQ.value))] else [];
    LookupUpdate(Params(q), extra, k);
  }

  /** `build_count()`: the same rows counted, without ordering or window. */
  function BuildCount(q: Query): (b: Built)
    ensures b.statement.count && b.statement.selection == Build(q).statement.selection
    ensures b.params == Params(q)
  {
    Built(Statement(true, SelectionOf(q), "", 0, 0), Params(q))
  }

  const SelectColumns :=
    "book_id, title, all_authors, downloads, CAST(release_date AS text) AS release_date, copyrighted, lang_codes, "
    + "creator_ids, creator_names, creator_roles, "
    + "subject_ids, subject_names, bookshelf_ids, bookshelf_names, "
    + "locc_codes, is_audio, dcmitypes, publisher, summary, credits, "
    + "reading_level, coverpage, format_filenames, format_filetypes, "
    + "format_hr_filetypes, format_mediatypes, format_extents"

  /** The sub-select's column list (its line breaks are not modelled). */
  const SubqueryColumns :=
    "book_id, title, all_authors, downloads, CAST(release_date AS text) AS release_date, "
    + "copyrighted, lang_codes, is_audio, creator_ids, creator_names, creator_roles, "
    + "subject_ids, subject_names, bookshelf_ids, bookshelf_names, "
    + "dcmitypes, publisher, summary, credits, reading_level, "
    + "coverpage, format_filenames, format_filetypes, format_hr_filetypes, "
    + "format_mediatypes, format_extents, max_author_birthyear, min_author_birthyear, "
    + "max_author_deathyear, min_author_deathyear, locc_codes, tsvec, book_text"

  function RenderFrom(s: Selection): string {
    var source :=
      if s.inner != [] then "(SELECT " + SubqueryColumns + " FROM mv_books_dc WHERE " + Join(s.inner, " AND ") + ") t"
      else "mv_books_dc";
    source + (if s.outer != [] then " WHERE " + Join(s.outer, " AND ") else "")
  }

  /** The SQL text of a statement. */
  function Render(st: Statement): string {
    if st.count then "SELECT COUNT(*) FROM " + RenderFrom(st.selection)
    else
      "SELECT " + SelectColumns + " FROM " + RenderFrom(st.selection) + " ORDER BY " + st.order
      + " LIMIT " + IntToString(st.limit) + " OFFSET " + IntToString(st.offset)
  }

  // ---------------------------------------------------------------------------
  // Properties of rendering
  // ---------------------------------------------------------------------------

  predicate AllHold(cs: seq<string>, holds: string -> bool) {
    forall i :: 0 <= i < |cs| ==> holds(cs[i])
  }

  /** A row passes a selection when every condition, inner and outer, holds of it. */
  predicate Selects(s: Selection, holds: string -> bool) {
    AllHold(s.inner, holds) && AllHold(s.outer, holds)
  }

  lemma {:induction false} JoinEmpty(items: seq<string>, sep: string)
    requires sep != "" && Join(items, sep) == ""
    ensures forall i :: 0 <= i < |items| ==> items[i] == ""
  {
  }

  /** The statement selects exactly the rows satisfying every search and every filter
      condition (an empty condition being no constraint). */
  lemma SelectionConjoinsAll(q: Query, holds: string -> bool)
    requires holds("")
    ensures Selects(SelectionOf(q), holds)
        <==> AllHold(SearchSqls(q.searches), holds) && AllHold(FilterSqls(q.filters), holds)
  {
    var ss := SearchSqls(q.searches);
    var fs := FilterSqls(q.filters);
    if Join(ss, " AND ") == "" {
      JoinEmpty(ss, " AND ");
    }
    if Join(fs, " AND ") == "" {
      JoinEmpty(fs, " AND ");
    }
  }

  lemma FuzzySqlIsTrigram(name: string)
    ensures Contains(FuzzySql(name), "<%")
  {
    var t := FuzzySql(name);
    assert t == ":" + name + " <% " + TextColumn;
    assert t[2 + |name|..4 + |name|] == "<%";
    ContainsWitness(t, "<%", 2 + |name|);
  }

  lemma FtsSqlIsNotTrigram(k: nat)
    ensures !Contains(FtsSql(ParamName(k)), "<%")
  {
    var digits := NatToString(k);
    assert forall i :: 0 <= i < |digits| ==> IsDigit(digits[i]);
    assert '<' !in digits;
    assert '<' !in FtsColumn + " @@ websearch_to_tsquery('english', :" && '<' !in "__p" && '<' !in ")";
    assert FtsSql(ParamName(k)) == (FtsColumn + " @@ websearch_to_tsquery('english', :") + ("__p" + digits) + ")";
    NotContainsWithoutHead(FtsSql(ParamName(k)), "<%");
  }

  /** Relevance ordering follows the kind of the last search: trigram word similarity for
      a fuzzy search, full-text rank otherwise, and it binds the search text without `%`. */
  lemma RelevanceFollowsSearchType(q: Query, txt: string, st: SearchType)
    requires q.order == Relevance && Strip(txt) != ""
    ensures var r := OrderSql(Search(q, txt, st));
      && r.rankQ == Some(RemoveChar(Strip(txt), '%'))
      && (st == Fuzzy ==> r.sql == "word_similarity(:rank_q, " + TextColumn + ") DESC, downloads DESC")
      && (st == Fts ==> r.sql == "ts_rank_cd(" + FtsColumn + ", websearch_to_tsquery('english', :rank_q)) DESC, downloads DESC")
  {
    var q' := Search(q, txt, st);
    var last := q'.searches[|q'.searches| - 1];
    assert last == q'.searches[|q.searches|];
    if st == Fuzzy {
      FuzzySqlIsTrigram(ParamName(q.counter));
    } else {
      FtsSqlIsNotTrigram(q.counter);
    }
  }
}
