/** What the builder calls of search/full_text_search.py keep true of a query: the page
    window stays clamped, and every `__pN` name the engine issues is bound exactly once,
    so no later write (a raw `where()` in particular) can replace an engine parameter. */
module QueryInvariants {
  import opened Wrappers
  import opened Text
  import opened Constants
  import opened SearchQuery

  predicate IsReserved(name: string) {
    StartsWith(name, ReservedPrefix)
  }

  /** `name` is one of the first `counter` names `_new_param` hands out. */
  predicate Issued(name: string, counter: nat) {
    exists k: nat :: k < counter && name == ParamName(k)
  }

  predicate ReservedIssued(d: Dict, counter: nat) {
    forall i :: 0 <= i < |d| && IsReserved(d[i].name) ==> Issued(d[i].name, counter)
  }

  /** No reserved name is written twice. */
  predicate ReservedOnce(d: Dict) {
    forall i, j :: 0 <= i < |d| && 0 <= j < |d| && i != j && IsReserved(d[i].name) ==> d[i].name != d[j].name
  }

  predicate WellFormed(q: Query) {
    && 1 <= q.page
    && 1 <= q.pageSize <= 100
    && (forall i :: 0 <= i < |q.searches| ==> IsReserved(q.searches[i].name))
    && ReservedIssued(Params(q), q.counter)
    && ReservedOnce(Params(q))
  }

  lemma FilterParamsSnoc(fs: seq<FilterClause>, f: FilterClause)
    ensures FilterParams(fs + [f]) == FilterParams(fs) + f.params
  {
    assert (fs + [f])[..|fs|] == fs;
  }

  /** The parameters of the first `n` filters come first in `_params()`. */
  lemma {:induction false} FilterParamsPrefix(fs: seq<FilterClause>, n: nat)
    requires n <= |fs|
    ensures |FilterParams(fs[..n])| <= |FilterParams(fs)|
    ensures FilterParams(fs)[..|FilterParams(fs[..n])|] == FilterParams(fs[..n])
    decreases |fs| - n
  {
    if n < |fs| {
      var init := fs[..|fs| - 1];
      assert init[..n] == fs[..n];
      FilterParamsPrefix(init, n);
      assert FilterParams(fs) == FilterParams(init) + fs[|fs| - 1].params;
    } else {
      assert fs[..n] == fs;
    }
  }

  /** Inserting the next issued name anywhere keeps reserved names issued and unique. */
  lemma InsertIssued(a: Dict, b: Binding, c: Dict, counter: nat)
    requires ReservedIssued(a + c, counter) && ReservedOnce(a + c)
    requires b.name == ParamName(counter)
    ensures ReservedIssued(a + [b] + c, counter + 1) && ReservedOnce(a + [b] + c)
  {
    var was := a + c;
    var now := a + [b] + c;
    assert forall i :: 0 <= i < |a| ==> now[i] == was[i];
    assert now[|a|] == b;
    assert forall i :: |a| < i < |now| ==> now[i] == was[i - 1];
    assert Issued(b.name, counter + 1);
    forall i | 0 <= i < |now| && IsReserved(now[i].name)
      ensures Issued(now[i].name, counter + 1)
    {
      if i != |a| {
        var o := if i < |a| then i else i - 1;
        assert now[i] == was[o];
        var k: nat :| k < counter && was[o].name == ParamName(k);
      }
    }
    forall i, j | 0 <= i < |now| && 0 <= j < |now| && i != j && IsReserved(now[i].name)
      ensures now[i].name != now[j].name
    {
      if i == |a| {
        if IsReserved(now[j].name) {
          var o := if j < |a| then j else j - 1;
          IssuedIsNotLater(was[o].name, counter, counter);
        }
      } else if j == |a| {
        var o := if i < |a| then i else i - 1;
        IssuedIsNotLater(was[o].name, counter, counter);
      } else {
        var oi := if i < |a| then i else i - 1;
        var oj := if j < |a| then j else j - 1;
        assert now[i] == was[oi] && now[j] == was[oj];
      }
    }
  }

  /** Appending writes of unreserved names keeps reserved names issued and unique. */
  lemma AppendUnreserved(d: Dict, e: Dict, counter: nat)
    requires ReservedIssued(d, counter) && ReservedOnce(d)
    requires forall i :: 0 <= i < |e| ==> !IsReserved(e[i].name)
    ensures ReservedIssued(d + e, counter) && ReservedOnce(d + e)
  {
    var n := d + e;
    assert forall i :: 0 <= i < |d| ==> n[i] == d[i];
    assert forall i :: |d| <= i < |n| ==> n[i] == e[i - |d|];
  }

  /** Appending the fresh names of one `filter()` call. */
  lemma AppendFresh(d: Dict, counter: nat, values: seq<Param>)
    requires ReservedIssued(d, counter) && ReservedOnce(d)
    ensures ReservedIssued(d + FreshBindings(counter, values), counter + |values|)
    ensures ReservedOnce(d + FreshBindings(counter, values))
  {
    AppendFreshIssued(d, counter, values);
    AppendFreshOnce(d, counter, values);
  }

  lemma AppendFreshIssued(d: Dict, counter: nat, values: seq<Param>)
    requires ReservedIssued(d, counter)
    ensures ReservedIssued(d + FreshBindings(counter, values), counter + |values|)
  {
    var e := FreshBindings(counter, values);
    var n := d + e;
    forall i | 0 <= i < |n| && IsReserved(n[i].name)
      ensures Issued(n[i].name, counter + |values|)
    {
      if i < |d| {
        assert n[i] == d[i];
        var k: nat :| k < counter && d[i].name == ParamName(k);
      } else {
        assert n[i] == e[i - |d|];
        assert n[i].name == ParamName(counter + (i - |d|));
      }
    }
  }

  lemma AppendFreshOnce(d: Dict, counter: nat, values: seq<Param>)
    requires ReservedIssued(d, counter) && ReservedOnce(d)
    ensures ReservedOnce(d + FreshBindings(counter, values))
  {
    var e := FreshBindings(counter, values);
    forall i, k | 0 <= i < |d| && 0 <= k < |e|
      ensures d[i].name != e[k].name
    {
      OldNotFresh(d, counter, values, i, k);
    }
    forall a, b | 0 <= a < |e| && 0 <= b < |e| && a != b
      ensures e[a].name != e[b].name
    {
      FreshNamesDistinct(counter, a, b);
    }
    ConcatOnce(d, e);
  }

  /** Appending distinct names, none already written, keeps reserved names written once. */
  lemma ConcatOnce(d: Dict, e: Dict)
    requires ReservedOnce(d)
    requires forall a, b :: 0 <= a < |e| && 0 <= b < |e| && a != b ==> e[a].name != e[b].name
    requires forall i, k :: 0 <= i < |d| && 0 <= k < |e| ==> d[i].name != e[k].name
    ensures ReservedOnce(d + e)
  {
    var n := d + e;
    forall i, j | 0 <= i < |n| && 0 <= j < |n| && i != j && IsReserved(n[i].name)
      ensures n[i].name != n[j].name
    {
      if i < |d| && j < |d| {
        assert n[i] == d[i] && n[j] == d[j];
      } else if i >= |d| && j >= |d| {
        assert n[i] == e[i - |d|] && n[j] == e[j - |d|];
      } else if i < |d| {
        assert n[i] == d[i] && n[j] == e[j - |d|];
      } else {
        assert n[j] == d[j] && n[i] == e[i - |d|];
      }
    }
  }

  /** A name written before the call differs from every name the call hands out. */
  lemma OldNotFresh(d: Dict, counter: nat, values: seq<Param>, i: nat, k: nat)
    requires ReservedIssued(d, counter)
    requires i < |d| && k < |values|
    ensures d[i].name != FreshBindings(counter, values)[k].name
  {
    if IsReserved(d[i].name) {
      IssuedIsNotLater(d[i].name, counter, counter + k);
    } else {
      assert IsReserved(ParamName(counter + k));
    }
  }

  lemma IssuedIsNotLater(name: string, counter: nat, m: nat)
    requires Issued(name, counter) && counter <= m
    ensures name != ParamName(m)
  {
    var k: nat :| k < counter && name == ParamName(k);
    if name == ParamName(m) {
      ParamNameInjective(k, m);
    }
  }

  lemma FreshNamesDistinct(counter: nat, a: nat, b: nat)
    requires a != b
    ensures ParamName(counter + a) != ParamName(counter + b)
  {
    if ParamName(counter + a) == ParamName(counter + b) {
      ParamNameInjective(counter + a, counter + b);
    }
  }

  // ---------------------------------------------------------------------------
  // Builder calls keep the query well formed
  // ---------------------------------------------------------------------------

  lemma NewQueryWellFormed(cw: Crosswalk)
    ensures WellFormed(NewQuery(cw))
  {
  }

  lemma SearchKeepsWellFormed(q: Query, txt: string, st: SearchType)
    requires WellFormed(q)
    ensures WellFormed(Search(q, txt, st))
  {
    if Strip(txt) != "" {
      var q' := Search(q, txt, st);
      var c := q'.searches[|q.searches|];
      assert q'.searches == q.searches + [c];
      assert SearchParams(q'.searches) == SearchParams(q.searches) + [SearchBinding(c)];
      InsertIssued(SearchParams(q.searches), SearchBinding(c), FilterParams(q.filters), q.counter);
      assert Params(q') == SearchParams(q.searches) + [SearchBinding(c)] + FilterParams(q.filters);
    }
  }

  lemma ApplyFilterKeepsWellFormed(q: Query, f: FilterCall)
    requires WellFormed(q)
    ensures WellFormed(ApplyFilter(q, f))
  {
    var q' := ApplyFilter(q, f);
    var fc := q'.filters[|q.filters|];
    assert q'.filters == q.filters + [fc];
    AppendClauseKeepsWellFormed(q, q', fc);
  }

  /** Appending a clause that binds nothing, or binds only the next issued name, keeps a
      query well formed. */
  lemma AppendClauseKeepsWellFormed(q: Query, q': Query, fc: FilterClause)
    requires WellFormed(q)
    requires q'.searches == q.searches && q'.page == q.page && q'.pageSize == q.pageSize
    requires q'.filters == q.filters + [fc]
    requires || (fc.params == [] && q'.counter == q.counter)
             || (|fc.params| == 1 && fc.params[0].name == ParamName(q.counter) && q'.counter == q.counter + 1)
    ensures WellFormed(q')
  {
    FilterParamsSnoc(q.filters, fc);
    assert Params(q') == Params(q) + fc.params;
    if fc.params == [] {
      assert Params(q') == Params(q);
    } else {
      var b := fc.params[0];
      assert fc.params == [b];
      assert Params(q) + [] == Params(q);
      InsertIssued(Params(q), b, [], q.counter);
      assert Params(q) + [b] + [] == Params(q');
    }
  }

  lemma FilterKeepsWellFormed(q: Query, template: string, values: seq<Param>)
    requires WellFormed(q) && Filter(q, template, values).Success?
    ensures WellFormed(Filter(q, template, values).value)
  {
    var q' := Filter(q, template, values).value;
    var fc := q'.filters[|q.filters|];
    assert q'.filters == q.filters + [fc];
    FilterParamsSnoc(q.filters, fc);
    assert fc.params == FreshBindings(q.counter, values);
    assert Params(q') == Params(q) + FreshBindings(q.counter, values);
    AppendFresh(Params(q), q.counter, values);
  }

  lemma WhereKeepsWellFormed(q: Query, sql: string, params: Dict)
    requires WellFormed(q) && Where(q, sql, params).Success?
    ensures WellFormed(Where(q, sql, params).value)
  {
    var q' := Where(q, sql, params).value;
    FilterParamsSnoc(q.filters, FilterClause(sql, params));
    assert Params(q') == Params(q) + params;
    AppendUnreserved(Params(q), params, q.counter);
  }

  // ---------------------------------------------------------------------------
  // Sequences of builder calls
  // ---------------------------------------------------------------------------

  /** One chained call on a `SearchQuery`. */
  datatype Call =
    | SearchFor(txt: string, searchType: SearchType)
    | FilterBy(f: FilterCall)
    | FilterTemplate(template: string, values: seq<Param>)
    | RawWhere(sql: string, params: Dict)
    | OrderCall(order: OrderBy, dir: Option<SortDirection>)
    | PageCall(key: PageKey)
    | CrosswalkCall(cw: Crosswalk)

  function Apply(q: Query, c: Call): Result<Query> {
    match c
    case SearchFor(txt, st) => Success(Search(q, txt, st))
    case FilterBy(f) => Success(ApplyFilter(q, f))
    case FilterTemplate(t, vs) => Filter(q, t, vs)
    case RawWhere(sql, ps) => Where(q, sql, ps)
    case OrderCall(o, d) => Success(SetOrder(q, o, d))
    case PageCall(k) => Success(GetItem(q, k))
    case CrosswalkCall(cw) => Success(SetCrosswalk(q, cw))
  }

  /** A chain of calls, stopping at the first that raises. */
  function Run(q: Query, cs: seq<Call>): Result<Query>
    decreases |cs|
  {
    if cs == [] then Success(q)
    else
      var q' :- Apply(q, cs[0]);
      Run(q', cs[1..])
  }

  lemma ApplyKeepsWellFormed(q: Query, c: Call)
    requires WellFormed(q) && Apply(q, c).Success?
    ensures WellFormed(Apply(q, c).value)
  {
    match c
    case SearchFor(txt, st) => SearchKeepsWellFormed(q, txt, st);
    case FilterBy(f) => ApplyFilterKeepsWellFormed(q, f);
    case FilterTemplate(t, vs) => FilterKeepsWellFormed(q, t, vs);
    case RawWhere(sql, ps) => WhereKeepsWellFormed(q, sql, ps);
    case OrderCall(o, d) => assert Params(SetOrder(q, o, d)) == Params(q);
    case PageCall(k) => assert Params(GetItem(q, k)) == Params(q);
    case CrosswalkCall(cw) => assert Params(SetCrosswalk(q, cw)) == Params(q);
  }

  /** Every chain of builder calls on a well-formed query yields a well-formed query. */
  lemma {:induction false} RunKeepsWellFormed(q: Query, cs: seq<Call>)
    requires WellFormed(q) && Run(q, cs).Success?
    ensures WellFormed(Run(q, cs).value)
    decreases |cs|
  {
    if cs != [] {
      ApplyKeepsWellFormed(q, cs[0]);
      RunKeepsWellFormed(Apply(q, cs[0]).value, cs[1..]);
    }
  }

  // ---------------------------------------------------------------------------
  // What the invariant buys
  // ---------------------------------------------------------------------------

  /** In a well-formed query every search text and every engine-issued filter value
      is what `_params()` binds under its name. */
  lemma EngineBindingsIntact(q: Query)
    requires WellFormed(q)
    ensures forall i :: 0 <= i < |q.searches| ==>
      Lookup(Params(q), q.searches[i].name) == Some(PStr(q.searches[i].text))
    ensures forall j, m :: 0 <= j < |q.filters| && 0 <= m < |q.filters[j].params| && IsReserved(q.filters[j].params[m].name) ==>
      Lookup(Params(q), q.filters[j].params[m].name) == Some(q.filters[j].params[m].value)
  {
    var p := Params(q);
    var sp := SearchParams(q.searches);
    forall i | 0 <= i < |q.searches|
      ensures Lookup(p, q.searches[i].name) == Some(PStr(q.searches[i].text))
    {
      assert p[i] == SearchBinding(q.searches[i]);
      LookupSingleWrite(p, i);
    }
    forall j, m | 0 <= j < |q.filters| && 0 <= m < |q.filters[j].params| && IsReserved(q.filters[j].params[m].name)
      ensures Lookup(p, q.filters[j].params[m].name) == Some(q.filters[j].params[m].value)
    {
      var fs := q.filters;
      FilterParamsPrefix(fs, j + 1);
      assert fs[..j + 1][..j] == fs[..j];
      assert FilterParams(fs[..j + 1]) == FilterParams(fs[..j]) + fs[j].params;
      var at := |sp| + |FilterParams(fs[..j])| + m;
      assert p[at] == fs[j].params[m];
      LookupSingleWrite(p, at);
    }
  }

  /** The same holds of the parameters `build()` sends, whatever the ordering: `rank_q` is
      not a reserved name. */
  lemma BuildKeepsEngineBindings(q: Query, name: string)
    requires IsReserved(name)
    ensures Lookup(Build(q).params, name) == Lookup(Params(q), name)
  {
    BuildParamsLookup(q, name);
    RankQNotReserved();
  }

  lemma RankQNotReserved()
    ensures !IsReserved("rank_q")
  {
    assert "rank_q"[0] != ReservedPrefix[0];
  }
}
