/** The pure helpers of the OPDS 2.0 feed layer (opds/opds.py): request-parameter
    parsing, facet and pagination links, query-string assembly, the filters and sort a
    feed request adds to a search, and the ordering and labelling of Library of Congress
    classification (LoCC) children. */
module OpdsFeed {
  import opened Wrappers
  import opened Text
  import opened Json
  import opened Constants
  import opened SearchQuery
  import opened QueryInvariants

  /** The media type of every navigation, facet and pagination link. */
  const OpdsJson := "application/opds+json"

  // ---------------------------------------------------------------------------
  // Request parameters
  // ---------------------------------------------------------------------------

  /** `_parse_search_type`: the field name only selects FTS or FUZZY. */
  function ParseSearchType(field: string): (r: SearchType)
    ensures r == Fts <==> field == "fts" || StartsWith(field, "fts_")
  {
    if StartsWith(field, "fts_") || field == "fts" then Fts
    else if StartsWith(field, "fuzzy_") || field == "fuzzy" then Fuzzy
    else Fuzzy
  }

  /** A request argument as the handler receives it: the keyword default, the query-string
      text, or `None`. */
  datatype Arg = IntArg(i: int) | StrArg(s: string) | NoArg

  /** Python's `int(x)`; `None` where it raises `ValueError` or `TypeError`. */
  function ToInt(a: Arg): (r: Option<int>)
    ensures a.IntArg? ==> r == Some(a.i)
    ensures a.NoArg? ==> r.None?
  {
    match a
    case IntArg(i) => Some(i)
    case StrArg(s) => ParseInt(s)
    case NoArg => None
  }

  /** Query-string text holding an integer's decimal form converts back to that integer. */
  lemma ToIntOfText(i: int)
    ensures ToInt(StrArg(IntToString(i))) == Some(i)
    ensures ToInt(StrArg(IntToString(i) + " ")) == Some(i)
  {
    ParseIntToString(i);
    StripAppendSpace(IntToString(i), ' ');
  }

  const DefaultLimit := 28

  /** `_parse_pagination`: the page is at least 1 and the limit between 1 and 100; when
      either fails to convert, both fall back to `(1, defaultLimit)`. */
  function ParsePagination(page: Arg, limit: Arg, defaultLimit: int): (r: (int, int))
    ensures r.0 >= 1
    ensures ToInt(page).None? || ToInt(limit).None? ==> r == (1, defaultLimit)
    ensures ToInt(page).Some? && ToInt(limit).Some? ==> (
      && r.0 == (if ToInt(page).value >= 1 then ToInt(page).value else 1)
      && 1 <= r.1 <= 100
      && (1 <= ToInt(limit).value <= 100 ==> r.1 == ToInt(limit).value)
      && (ToInt(limit).value < 1 ==> r.1 == 1)
      && (ToInt(limit).value > 100 ==> r.1 == 100))
  {
    match (ToInt(page), ToInt(limit))
    case (Some(p), Some(l)) => (if p > 1 then p else 1, Clamp(1, 100, l))
    case _ => (1, defaultLimit)
  }

  /** A page and limit already in range read back unchanged from their query-string text. */
  lemma ParsePaginationOfText(page: int, limit: int)
    requires page >= 1 && 1 <= limit <= 100
    ensures ParsePagination(StrArg(IntToString(page)), StrArg(IntToString(limit)), DefaultLimit) == (page, limit)
  {
    ParseIntToString(page);
    ParseIntToString(limit);
  }

  /** A page written with a digit-grouping underscore is read as `int()` reads it. */
  lemma ParsePaginationGroupedDigits()
    ensures ParsePagination(StrArg("1_0"), IntArg(28), DefaultLimit) == (10, 28)
  {
    ParseIntGroupedDigits();
  }

  // ---------------------------------------------------------------------------
  // Facet links
  // ---------------------------------------------------------------------------

  /** `_facet_link`: `rel: "self"` marks the active facet and only it. */
  function FacetLink(href: string, title: string, isActive: bool): (r: seq<Entry>)
    ensures Keys(r) == ["href", "type", "title"] + (if isActive then ["rel"] else [])
    ensures r[0].val == JStr(href) && r[1].val == JStr(OpdsJson) && r[2].val == JStr(title)
    ensures isActive ==> r[3].val == JStr("self")
  {
    var link := [Entry("href", JStr(href)), Entry("type", JStr(OpdsJson)), Entry("title", JStr(title))];
    if isActive then link + [Entry("rel", JStr("self"))] else link
  }

  /** Looked up as a dict, a facet link is marked `self` exactly when it is active. */
  lemma FacetLinkRel(href: string, title: string, isActive: bool)
    ensures Get(FacetLink(href, title, isActive), "rel").Some? <==> isActive
    ensures isActive ==> Get(FacetLink(href, title, isActive), "rel") == Some(JStr("self"))
  {
    var r := FacetLink(href, title, isActive);
    if isActive {
      assert "rel" != "href" && "rel" != "type" && "rel" != "title";
      GetFirst(r, 3);
    } else {
      assert "rel" !in Keys(r);
    }
  }

  // ---------------------------------------------------------------------------
  // Query strings
  // ---------------------------------------------------------------------------

  /** A query-string parameter value: text, a number, or `None`. */
  datatype UrlValue = UStr(s: string) | UInt(i: int) | UNone

  /** `v not in ("", None)`; a number is kept whatever its value. */
  predicate Kept(v: UrlValue) {
    v != UStr("") && v != UNone
  }

  /** The dict comprehension of `_url_with_params`: the parameters with a value, in order. */
  function Clean(params: seq<(string, UrlValue)>): (r: seq<(string, UrlValue)>)
    ensures |r| <= |params|
    ensures forall i :: 0 <= i < |r| ==> Kept(r[i].1)
    ensures forall p :: p in r <==> p in params && Kept(p.1)
    decreases |params|
  {
    if params == [] then []
    else (if Kept(params[0].1) then [params[0]] else []) + Clean(params[1..])
  }

  /** Cleaning keeps parameters that all have values exactly as they are. */
  lemma {:induction false} CleanKeepsValued(params: seq<(string, UrlValue)>)
    requires forall i :: 0 <= i < |params| ==> Kept(params[i].1)
    ensures Clean(params) == params
    decreases |params|
  {
    if params != [] {
      CleanKeepsValued(params[1..]);
    }
  }

  lemma CleanIdempotent(params: seq<(string, UrlValue)>)
    ensures Clean(Clean(params)) == Clean(params)
  {
    CleanKeepsValued(Clean(params));
  }

  function ValueText(v: UrlValue): string {
    match v
    case UStr(s) => s
    case UInt(i) => IntToString(i)
    case UNone => "None"
  }

  /** `urlencode(params)`: `key=value` pairs joined by `&`, each side passed through the
      percent-encoding `quote`, which is not modelled. */
  function UrlEncode(params: seq<(string, UrlValue)>, quote: string -> string): (r: string)
    ensures params == [] <==> r == ""
  {
    var pairs := seq(|params|, i requires 0 <= i < |params| => quote(params[i].0) + "=" + quote(ValueText(params[i].1)));
    assert pairs != [] ==> |Join(pairs, "&")| > 0 by {
      if pairs != [] { JoinLength(pairs, "&"); }
    }
    Join(pairs, "&")
  }

  lemma {:induction false} JoinLength(items: seq<string>, sep: string)
    requires items != []
    ensures |Join(items, sep)| >= |items[0]|
  {
  }

  /** `_url_with_params`: the path alone when no parameter has a value, else the path,
      `?` and the encoded parameters that have one. */
  function UrlWithParams(path: string, params: seq<(string, UrlValue)>, quote: string -> string): (r: string)
    ensures r == path <==> Clean(params) == []
    ensures Clean(params) != [] ==> r == path + "?" + UrlEncode(Clean(params), quote)
  {
    var qs := UrlEncode(Clean(params), quote);
    if qs != "" then
      assert |path + "?" + qs| > |path|;
      path + "?" + qs
    else path
  }

  // ---------------------------------------------------------------------------
  // Filters and sort
  // ---------------------------------------------------------------------------

  /** The builder calls `_apply_filters` makes, in order. */
  function FilterPlan(query: string, lang: string, copyrighted: string, audiobook: string): (r: seq<Call>)
    ensures |r| <= 4
  {
    SearchPiece(query) + LangPiece(lang) + RightsPiece(copyrighted) + AudioPiece(audiobook)
  }

  /** The plan searches, always in FUZZY mode, exactly when the query is not blank. */
  lemma FilterPlanSearch(query: string, lang: string, copyrighted: string, audiobook: string)
    ensures var r := FilterPlan(query, lang, copyrighted, audiobook);
      && ((exists i :: 0 <= i < |r| && r[i].SearchFor?) <==> Strip(query) != "")
      && forall i :: 0 <= i < |r| && r[i].SearchFor? ==> r[i] == SearchFor(query, Fuzzy)
  {
    var a, b, c, d := SearchPiece(query), LangPiece(lang), RightsPiece(copyrighted), AudioPiece(audiobook);
    var r := FilterPlan(query, lang, copyrighted, audiobook);
    assert r == a + b + c + d;
    assert forall i :: 0 <= i < |a| ==> a[i] == SearchFor(query, Fuzzy);
    SearchesLead(a, b, c, d, SearchFor(query, Fuzzy));
  }

  lemma SearchesLead(a: seq<Call>, b: seq<Call>, c: seq<Call>, d: seq<Call>, x: Call)
    requires x.SearchFor? && forall i :: 0 <= i < |a| ==> a[i] == x
    requires forall i :: 0 <= i < |b| ==> b[i].FilterBy?
    requires forall i :: 0 <= i < |c| ==> c[i].FilterBy?
    requires forall i :: 0 <= i < |d| ==> d[i].FilterBy?
    ensures var r := a + b + c + d;
      && ((exists i :: 0 <= i < |r| && r[i].SearchFor?) <==> a != [])
      && forall i :: 0 <= i < |r| && r[i].SearchFor? ==> r[i] == x
  {
    var r := a + b + c + d;
    assert a != [] ==> r[0].SearchFor?;
    forall i | |a| <= i < |r|
      ensures r[i].FilterBy?
    {
      var j := i - |a|;
      if j < |b| {
        assert r[i] == b[j];
      } else if j < |b| + |c| {
        assert r[i] == c[j - |b|];
      } else {
        assert r[i] == d[j - |b| - |c|];
      }
    }
    assert forall i :: 0 <= i < |a| ==> r[i] == a[i];
  }

  /** The plan filters on language exactly when one is given, and on rights and audio
      exactly for "true"/"false". */
  lemma FilterPlanFilters(query: string, lang: string, copyrighted: string, audiobook: string)
    ensures var r := FilterPlan(query, lang, copyrighted, audiobook);
      && (FilterBy(Lang(lang, false)) in r <==> lang != "")
      && (FilterBy(Copyrighted) in r <==> copyrighted == "true")
      && (FilterBy(PublicDomain) in r <==> copyrighted == "false")
      && (FilterBy(Audiobook) in r <==> audiobook == "true")
      && (FilterBy(TextOnly) in r <==> audiobook == "false")
  {
    var a, b, c, d := SearchPiece(query), LangPiece(lang), RightsPiece(copyrighted), AudioPiece(audiobook);
    assert FilterPlan(query, lang, copyrighted, audiobook) == a + b + c + d;
    InFour(a, b, c, d);
    assert forall x :: x in a ==> x.SearchFor?;
    assert forall x :: x in b ==> x == FilterBy(Lang(lang, false));
    assert forall x :: x in c ==> x == FilterBy(Copyrighted) || x == FilterBy(PublicDomain);
    assert forall x :: x in d ==> x == FilterBy(Audiobook) || x == FilterBy(TextOnly);
  }

  lemma InFour(a: seq<Call>, b: seq<Call>, c: seq<Call>, d: seq<Call>)
    ensures forall x :: x in a + b + c + d <==> x in a || x in b || x in c || x in d
  {
  }

  function SearchPiece(query: string): (r: seq<Call>)
    ensures |r| <= 1 && (r != [] <==> Strip(query) != "")
    ensures r != [] ==> r[0] == SearchFor(query, Fuzzy)
    ensures forall i :: 0 <= i < |r| ==> r[i].SearchFor?
  {
    KeywordIsFuzzy();
    if Strip(query) != "" then [SearchFor(query, ParseSearchType("keyword"))] else []
  }

  function LangPiece(lang: string): (r: seq<Call>)
    ensures |r| <= 1 && forall i :: 0 <= i < |r| ==> r[i] == FilterBy(Lang(lang, false))
    ensures FilterBy(Lang(lang, false)) in r <==> lang != ""
  {
    if lang != "" then [FilterBy(Lang(lang, false))] else []
  }

  function RightsPiece(copyrighted: string): (r: seq<Call>)
    ensures |r| <= 1 && forall i :: 0 <= i < |r| ==> r[i] in {FilterBy(Copyrighted), FilterBy(PublicDomain)}
    ensures FilterBy(Copyrighted) in r <==> copyrighted == "true"
    ensures FilterBy(PublicDomain) in r <==> copyrighted == "false"
  {
    if copyrighted == "true" then [FilterBy(Copyrighted)]
    else if copyrighted == "false" then [FilterBy(PublicDomain)]
    else []
  }

  function AudioPiece(audiobook: string): (r: seq<Call>)
    ensures |r| <= 1 && forall i :: 0 <= i < |r| ==> r[i] in {FilterBy(Audiobook), FilterBy(TextOnly)}
    ensures FilterBy(Audiobook) in r <==> audiobook == "true"
    ensures FilterBy(TextOnly) in r <==> audiobook == "false"
  {
    if audiobook == "true" then [FilterBy(Audiobook)]
    else if audiobook == "false" then [FilterBy(TextOnly)]
    else []
  }

  /** Any field name but `fts`/`fts_*`, `keyword` included, searches fuzzily. */
  lemma KeywordIsFuzzy()
    ensures ParseSearchType("keyword") == Fuzzy
  {
    assert "keyword"[0] == 'k';
  }

  /** `if query.strip(): q.search(query, search_type=_parse_search_type("keyword"))`. */
  function SearchStep(q: Query, query: string): (r: Query)
    ensures r.(searches := q.searches, counter := q.counter) == q
    ensures |r.searches| == |q.searches| + (if Strip(query) != "" then 1 else 0)
    ensures r.searches[..|q.searches|] == q.searches
  {
    if Strip(query) != "" then Search(q, query, Fuzzy) else q
  }

  /** The search step is what running the search piece of the plan gives. */
  lemma SearchStepRuns(q: Query, query: string)
    ensures Run(q, SearchPiece(query)) == Success(SearchStep(q, query))
  {
    var r := SearchStep(q, query);
    if Strip(query) != "" {
      assert SearchPiece(query) == [SearchFor(query, Fuzzy)];
      assert Apply(q, SearchFor(query, Fuzzy)) == Success(r);
    }
    RunStep(q, SearchPiece(query), r);
  }

  /** A filter call, appended to the filters only. */
  predicate Extends(q: Query, r: Query) {
    && r.(filters := q.filters, counter := q.counter) == q
    && |r.filters| >= |q.filters| && r.filters[..|q.filters|] == q.filters
  }

  function LangStep(q: Query, lang: string): (r: Query)
    ensures Run(q, LangPiece(lang)) == Success(r) && Extends(q, r)
  {
    var r := if lang != "" then ApplyFilter(q, Lang(lang, false)) else q;
    RunStep(q, LangPiece(lang), r);
    r
  }

  function RightsStep(q: Query, copyrighted: string): (r: Query)
    ensures Run(q, RightsPiece(copyrighted)) == Success(r) && Extends(q, r)
  {
    var r :=
      if copyrighted == "true" then ApplyFilter(q, Copyrighted)
      else if copyrighted == "false" then ApplyFilter(q, PublicDomain)
      else q;
    RunStep(q, RightsPiece(copyrighted), r);
    r
  }

  function AudioStep(q: Query, audiobook: string): (r: Query)
    ensures Run(q, AudioPiece(audiobook)) == Success(r) && Extends(q, r)
  {
    var r :=
      if audiobook == "true" then ApplyFilter(q, Audiobook)
      else if audiobook == "false" then ApplyFilter(q, TextOnly)
      else q;
    RunStep(q, AudioPiece(audiobook), r);
    r
  }

  lemma ExtendsTransitive(a: Query, b: Query, c: Query)
    requires Extends(a, b) && Extends(b, c)
    ensures Extends(a, c)
  {
    assert c.filters[..|a.filters|] == c.filters[..|b.filters|][..|a.filters|];
  }

  /** `_apply_filters`: a fuzzy search on a non-blank query, the language when one is
      given, and the rights and audio filters for "true"/"false"; only the searches, the
      filters and the parameter counter change. */
  function ApplyFilters(q: Query, query: string, lang: string, copyrighted: string, audiobook: string): (r: Query)
    ensures |r.searches| == |q.searches| + (if Strip(query) != "" then 1 else 0)
    ensures r.searches[..|q.searches|] == q.searches
    ensures |r.filters| >= |q.filters| && r.filters[..|q.filters|] == q.filters
    ensures r.(searches := q.searches, filters := q.filters, counter := q.counter) == q
  {
    var q1 := SearchStep(q, query);
    var q2 := LangStep(q1, lang);
    var q3 := RightsStep(q2, copyrighted);
    var r := AudioStep(q3, audiobook);
    ExtendsTransitive(q1, q2, q3);
    ExtendsTransitive(q1, q3, r);
    r
  }

  lemma RunSingle(q: Query, c: Call)
    ensures Run(q, [c]) == Apply(q, c)
  {
    assert [c][1..] == [];
  }

  lemma {:induction false} RunAppend(q: Query, a: seq<Call>, b: seq<Call>)
    ensures Run(q, a + b) == (match Run(q, a) case Failure(e) => Failure(e) case Success(q') => Run(q', b))
    decreases |a|
  {
    if a == [] {
      assert a + b == b;
    } else {
      assert (a + b)[0] == a[0] && (a + b)[1..] == a[1..] + b;
      match Apply(q, a[0])
      case Failure(_) =>
      case Success(q1) => RunAppend(q1, a[1..], b);
    }
  }

  /** `_apply_filters` is the chain of builder calls its plan lists. */
  lemma ApplyFiltersIsPlan(q: Query, query: string, lang: string, copyrighted: string, audiobook: string)
    ensures Run(q, FilterPlan(query, lang, copyrighted, audiobook)) == Success(ApplyFilters(q, query, lang, copyrighted, audiobook))
  {
    var p1, p2, p3, p4 := SearchPiece(query), LangPiece(lang), RightsPiece(copyrighted), AudioPiece(audiobook);
    var q1 := SearchStep(q, query);
    SearchStepRuns(q, query);
    var q2 := LangStep(q1, lang);
    var q3 := RightsStep(q2, copyrighted);
    RunFour(q, p1, p2, p3, p4, q1, q2, q3, AudioStep(q3, audiobook));
  }

  /** Four parts run one after another. */
  lemma RunFour(q: Query, p1: seq<Call>, p2: seq<Call>, p3: seq<Call>, p4: seq<Call>,
                q1: Query, q2: Query, q3: Query, r: Query)
    requires Run(q, p1) == Success(q1) && Run(q1, p2) == Success(q2)
    requires Run(q2, p3) == Success(q3) && Run(q3, p4) == Success(r)
    ensures Run(q, p1 + p2 + p3 + p4) == Success(r)
  {
    var s34 := p3 + p4;
    var s234 := p2 + s34;
    ConcatFour(p1, p2, p3, p4);
    RunThrough(q2, p3, q3, p4);
    RunThrough(q1, p2, q2, s34);
    RunThrough(q, p1, q1, s234);
  }

  lemma ConcatFour<T>(a: seq<T>, b: seq<T>, c: seq<T>, d: seq<T>)
    ensures a + b + c + d == a + (b + (c + d))
  {
  }

  /** A chain that starts with a part leading to `q'` continues from `q'`. */
  lemma RunThrough(q: Query, p: seq<Call>, q': Query, rest: seq<Call>)
    requires Run(q, p) == Success(q')
    ensures Run(q, p + rest) == Run(q', rest)
  {
    RunAppend(q, p, rest);
  }

  /** A plan step of at most one call that leads from `q` to `q'`. */
  lemma RunStep(q: Query, p: seq<Call>, q': Query)
    requires |p| <= 1
    requires p == [] ==> q' == q
    requires p != [] ==> Apply(q, p[0]) == Success(q')
    ensures Run(q, p) == Success(q')
  {
    if p != [] {
      RunSingle(q, p[0]);
      assert p == [p[0]];
    }
  }

  /** Filtering a well-formed query keeps it well-formed. */
  lemma ApplyFiltersKeepsWellFormed(q: Query, query: string, lang: string, copyrighted: string, audiobook: string)
    requires WellFormed(q)
    ensures WellFormed(ApplyFilters(q, query, lang, copyrighted, audiobook))
  {
    ApplyFiltersIsPlan(q, query, lang, copyrighted, audiobook);
    RunKeepsWellFormed(q, FilterPlan(query, lang, copyrighted, audiobook));
  }

  /** The direction `sort_order` selects: "asc", "desc", or the ordering's default. */
  function SortOrder(sortOrder: string): (r: Option<SortDirection>)
    ensures r.Some? <==> sortOrder == "asc" || sortOrder == "desc"
    ensures r.Some? ==> SortDirectionValue(r.value) == sortOrder
  {
    if sortOrder == "asc" then Some(Asc) else if sortOrder == "desc" then Some(Desc) else None
  }

  /** `_apply_sort`: a known sort value orders by that key; otherwise relevance when there
      is a query and downloads when there is none, in the ordering's default direction. */
  function ApplySort(q: Query, sort: string, sortOrder: string, hasQuery: bool): (r: Query)
    ensures r.(order := q.order, sortDir := q.sortDir) == q
    ensures sort in ValidSorts() ==> OrderByValue(r.order) == sort && r.sortDir == SortOrder(sortOrder)
    ensures sort !in ValidSorts() ==> r.order == (if hasQuery then Relevance else Downloads) && r.sortDir.None?
  {
    if sort in ValidSorts() then SetOrder(q, OrderByOf(sort).value, SortOrder(sortOrder))
    else if hasQuery then SetOrder(q, Relevance, None)
    else SetOrder(q, Downloads, None)
  }

  /** Every ordering key can be requested by its own name. */
  lemma ApplySortEveryKey(q: Query, o: OrderBy, sortOrder: string, hasQuery: bool)
    ensures ApplySort(q, OrderByValue(o), sortOrder, hasQuery).order == o
  {
    OrderByRoundTrip(o);
  }

  // ---------------------------------------------------------------------------
  // Pagination links
  // ---------------------------------------------------------------------------

  /** The pages the pagination links point at, with their relations. */
  function PagingTargets(page: int, totalPages: int): (r: seq<(string, int)>)
    ensures (exists i :: 0 <= i < |r| && r[i] == ("first", 1)) <==> page > 1
    ensures (exists i :: 0 <= i < |r| && r[i] == ("previous", page - 1)) <==> page > 1
    ensures (exists i :: 0 <= i < |r| && r[i] == ("next", page + 1)) <==> page < totalPages
    ensures (exists i :: 0 <= i < |r| && r[i] == ("last", totalPages)) <==> page < totalPages
    ensures |r| == (if page > 1 then 2 else 0) + (if page < totalPages then 2 else 0)
  {
    var back := if page > 1 then [("first", 1), ("previous", page - 1)] else [];
    var ahead := if page < totalPages then [("next", page + 1), ("last", totalPages)] else [];
    var r := back + ahead;
    assert page > 1 ==> r[0] == ("first", 1) && r[1] == ("previous", page - 1);
    assert page < totalPages ==> r[|back|] == ("next", page + 1) && r[|back| + 1] == ("last", totalPages);
    r
  }

  /** On a page inside the result, every link leads to another page inside it. */
  lemma PagingTargetsInRange(page: int, totalPages: int)
    requires 1 <= page <= totalPages
    ensures forall i :: 0 <= i < |PagingTargets(page, totalPages)| ==>
      var t := PagingTargets(page, totalPages)[i].1;
      1 <= t <= totalPages && (t == page <==> false)
  {
  }

  function PagingLink(rel: string, href: string): Value {
    JDict([Entry("rel", JStr(rel)), Entry("href", JStr(href)), Entry("type", JStr(OpdsJson))])
  }

  /** `_append_pagination_links`: the existing links stay first and unchanged; then come
      first/previous when there is an earlier page and next/last when there is a later one.
      `result` supplies `page` and `total_pages`, each 1 when absent. */
  function AppendPaginationLinks(links: seq<Value>, buildUrl: int -> string, page: Option<int>, totalPages: Option<int>): (r: seq<Value>)
    ensures |r| == |links| + |PagingTargets(page.GetOr(1), totalPages.GetOr(1))|
    ensures r[..|links|] == links
    ensures forall i :: 0 <= i < |PagingTargets(page.GetOr(1), totalPages.GetOr(1))| ==>
      var t := PagingTargets(page.GetOr(1), totalPages.GetOr(1))[i];
      r[|links| + i] == PagingLink(t.0, buildUrl(t.1))
  {
    var p := page.GetOr(1);
    var tp := totalPages.GetOr(1);
    var back :=
      if p > 1 then [PagingLink("first", buildUrl(1)), PagingLink("previous", buildUrl(p - 1))] else [];
    var ahead :=
      if p < tp then [PagingLink("next", buildUrl(p + 1)), PagingLink("last", buildUrl(tp))] else [];
    links + back + ahead
  }

  // ---------------------------------------------------------------------------
  // LoCC navigation
  // ---------------------------------------------------------------------------

  /** The `parent` argument of the LoCC feed: trimmed and upper-cased. */
  function ParentCode(parent: Option<string>): (r: string)
    ensures r == [] || (!IsSpace(r[0]) && !IsSpace(r[|r| - 1]))
    ensures forall i :: 0 <= i < |r| ==> !IsLowerAscii(r[i])
    ensures Lower(r) == Lower(Strip(parent.GetOr("")))
  {
    var t := Strip(parent.GetOr(""));
    UpperKeepsTrimmed(t);
    UpperMeaning(t);
    Upper(t)
  }

  /** Normalising a parent code again changes nothing. */
  lemma ParentCodeIdempotent(parent: Option<string>)
    ensures ParentCode(Some(ParentCode(parent))) == ParentCode(parent)
  {
    var r := ParentCode(parent);
    assert Strip(r) == r;
    assert Upper(r) == r;
  }

  /** A child of a LoCC class as `get_locc_children` lists it. */
  datatype LoccChild = LoccChild(code: string, labelText: Option<string>, hasChildren: bool)

  /** Python's `a < b` on strings: code point by code point, a proper prefix first. */
  predicate StrLess(a: string, b: string)
    decreases |a|
  {
    if a == [] then b != []
    else if b == [] then false
    else if a[0] != b[0] then a[0] < b[0]
    else StrLess(a[1..], b[1..])
  }

  lemma {:induction false} StrLessAsymmetric(a: string, b: string)
    requires StrLess(a, b)
    ensures !StrLess(b, a)
    decreases |a|
  {
    if a != [] && b != [] && a[0] == b[0] {
      StrLessAsymmetric(a[1..], b[1..]);
    }
  }

  lemma {:induction false} StrLessTotal(a: string, b: string)
    ensures a == b || StrLess(a, b) || StrLess(b, a)
    decreases |a|
  {
    if a != [] && b != [] && a[0] == b[0] {
      StrLessTotal(a[1..], b[1..]);
      if a[1..] == b[1..] {
        assert a == [a[0]] + a[1..] && b == [b[0]] + b[1..];
      }
    }
  }

  /** The sort key `(len(code), code)`, compared as a tuple. */
  predicate KeyLess(a: LoccChild, b: LoccChild) {
    |a.code| < |b.code| || (|a.code| == |b.code| && StrLess(a.code, b.code))
  }

  predicate Ordered(xs: seq<LoccChild>) {
    forall i :: 0 <= i < |xs| - 1 ==> !KeyLess(xs[i + 1], xs[i])
  }

  /** Places `x` before the first child whose key is not smaller, so equal keys keep
      their order. */
  function Insert(x: LoccChild, xs: seq<LoccChild>): (r: seq<LoccChild>)
    requires Ordered(xs)
    ensures Ordered(r) && multiset(r) == multiset(xs) + multiset{x}
    ensures r != [] && (r[0] == x || (xs != [] && r[0] == xs[0]))
    decreases |xs|
  {
    if xs == [] || !KeyLess(xs[0], x) then
      [x] + xs
    else
      var rest := Insert(x, xs[1..]);
      assert xs == [xs[0]] + xs[1..];
      KeyLessAsymmetric(xs[0], x);
      assert !KeyLess(rest[0], xs[0]) by {
        if rest[0] != x {
          assert rest[0] == xs[1];
        }
      }
      [xs[0]] + rest
  }

  lemma KeyLessAsymmetric(a: LoccChild, b: LoccChild)
    requires KeyLess(a, b)
    ensures !KeyLess(b, a)
  {
    if |a.code| == |b.code| {
      StrLessAsymmetric(a.code, b.code);
    }
  }

  /** `children.sort(key=lambda x: (len(x["code"]), x["code"]))`: shorter codes first, equal
      lengths in string order, the same children in a stable order. */
  function SortChildren(xs: seq<LoccChild>): (r: seq<LoccChild>)
    ensures Ordered(r) && multiset(r) == multiset(xs)
    decreases |xs|
  {
    if xs == [] then []
    else
      assert xs == [xs[0]] + xs[1..];
      Insert(xs[0], SortChildren(xs[1..]))
  }

  /** Sorted children never put a longer code before a shorter one. */
  lemma {:induction false} SortedByLength(xs: seq<LoccChild>, i: int, j: int)
    requires 0 <= i <= j < |SortChildren(xs)|
    ensures |SortChildren(xs)[i].code| <= |SortChildren(xs)[j].code|
    decreases j - i
  {
    var r := SortChildren(xs);
    if i < j {
      SortedByLength(xs, i, j - 1);
      assert !KeyLess(r[j], r[j - 1]);
    }
  }

  /** The label shown for a child: its label (its code when it has none), cut after the
      first `:` and trimmed. */
  function LoccLabel(c: LoccChild): (r: string)
    ensures ':' !in c.labelText.GetOr(c.code) ==> r == c.labelText.GetOr(c.code)
  {
    var raw := c.labelText.GetOr(c.code);
    var k := IndexOf(raw, ':');
    if k < |raw| then Strip(raw[k + 1..]) else raw
  }

  /** A label written as `CODE: Name` shows as `Name`. */
  lemma LoccLabelOfPrefixed(code: string, name: string, c: LoccChild)
    requires ':' !in code
    requires name == [] || (!IsSpace(name[0]) && !IsSpace(name[|name| - 1]))
    requires c.labelText == Some(code + ": " + name)
    ensures LoccLabel(c) == name
  {
    PrefixColonIndex(code, name);
    StripLeadingSpace(name);
  }

  /** In `CODE: Name` the first colon is the one after the code. */
  lemma PrefixColonIndex(code: string, name: string)
    requires ':' !in code
    ensures var raw := code + ": " + name;
      IndexOf(raw, ':') == |code| && raw[|code| + 1..] == " " + name
  {
    var raw := code + ": " + name;
    assert raw[|code|] == ':';
    forall i | 0 <= i < |code|
      ensures raw[i] != ':'
    {
      assert raw[i] == code[i];
    }
    assert raw[|code| + 1..] == " " + name;
  }

  /** The navigation entry for one child: sub-classes count their own children, leaves
      count their books. */
  function LoccEntry(c: LoccChild, childCounts: map<string, int>, bookCounts: map<string, int>): (r: seq<Entry>)
    ensures Keys(r) == ["href", "title", "type", "rel"]
    ensures Get(r, "href") == Some(JStr("/opds/loccs?parent=" + c.code))
    ensures Get(r, "title") == Some(JStr(LoccTitle(c, childCounts, bookCounts)))
    ensures Get(r, "rel") == Some(JStr("subsection"))
  {
    NavEntry("/opds/loccs?parent=" + c.code, LoccTitle(c, childCounts, bookCounts), "subsection")
  }

  /** A navigation link of an OPDS feed. */
  function NavEntry(href: string, title: string, rel: string): (r: seq<Entry>)
    ensures Keys(r) == ["href", "title", "type", "rel"]
    ensures Get(r, "href") == Some(JStr(href))
    ensures Get(r, "title") == Some(JStr(title))
    ensures Get(r, "rel") == Some(JStr(rel))
  {
    var r := [Entry("href", JStr(href)), Entry("title", JStr(title)), Entry("type", JStr(OpdsJson)), Entry("rel", JStr(rel))];
    GetFirst(r, 0);
    GetFirst(r, 1);
    GetFirst(r, 3);
    r
  }

  function LoccTitle(c: LoccChild, childCounts: map<string, int>, bookCounts: map<string, int>): string {
    var shown := LoccLabel(c);
    if c.hasChildren then
      shown + " (" + IntToString(if c.code in childCounts then childCounts[c.code] else 0) + " subcategories)"
    else
      shown + " (" + IntToString(if c.code in bookCounts then bookCounts[c.code] else 0) + " books)"
  }

  // ---------------------------------------------------------------------------
  // Facet order
  // ---------------------------------------------------------------------------

  /** Python's `xs.insert(i, x)` for `i >= 0`: past the end it appends. */
  function InsertAt<T>(xs: seq<T>, i: nat, x: T): (r: seq<T>)
    ensures |r| == |xs| + 1
    ensures var k := if i <= |xs| then i else |xs|; r[k] == x && r[..k] + r[k + 1..] == xs
  {
    var k := if i <= |xs| then i else |xs|;
    assert (xs[..k] + [x] + xs[k..])[k + 1..] == xs[k..];
    xs[..k] + [x] + xs[k..]
  }

  /** `facets.insert(2 if top_subjects else 1, locc_facet)`. */
  function WithGenreFacet<T>(facets: seq<T>, hasTopSubjects: bool, genre: T): (r: seq<T>)
    ensures |r| == |facets| + 1
  {
    InsertAt(facets, if hasTopSubjects then 2 else 1, genre)
  }

  /** `_build_common_facets` yields the sort facet, the top-subjects facet when there are
      top subjects, then the copyright, format and language facets. */
  function CommonFacets<T>(sortFacet: T, topSubjects: Option<T>, others: seq<T>): seq<T> {
    [sortFacet] + (if topSubjects.Some? then [topSubjects.value] else []) + others
  }

  /** The Broad Genre facet lands right after the sort facet and the top-subjects facet,
      ahead of all the others, which keep their order. */
  lemma GenreFollowsSortAndSubjects<T>(sortFacet: T, topSubjects: Option<T>, others: seq<T>, genre: T)
    ensures WithGenreFacet(CommonFacets(sortFacet, topSubjects, others), topSubjects.Some?, genre)
         == [sortFacet] + (if topSubjects.Some? then [topSubjects.value] else []) + [genre] + others
  {
    var facets := CommonFacets(sortFacet, topSubjects, others);
    var top := if topSubjects.Some? then [topSubjects.value] else [];
    var pos := |top| + 1;
    assert facets[..pos] == [sortFacet] + top;
    assert facets[pos..] == others;
  }
}
