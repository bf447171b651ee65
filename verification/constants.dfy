/** The enumerations of search/constants.py that the query builder, the executor and the
    OPDS layer share, with the string values Python's `str` enums carry. */
module Constants {
  import opened Wrappers

  datatype SearchType = Fts | Fuzzy

  datatype OrderBy = Relevance | Downloads | Title | Author | ReleaseDate | Random

  datatype SortDirection = Asc | Desc

  datatype Crosswalk = Full | Pg | Opds | Custom | Mini

  function SearchTypeValue(t: SearchType): string {
    match t
    case Fts => "fts"
    case Fuzzy => "fuzzy"
  }

  function OrderByValue(o: OrderBy): string {
    match o
    case Relevance => "relevance"
    case Downloads => "downloads"
    case Title => "title"
    case Author => "author"
    case ReleaseDate => "release_date"
    case Random => "random"
  }

  function SortDirectionValue(d: SortDirection): string {
    match d
    case Asc => "asc"
    case Desc => "desc"
  }

  function CrosswalkValue(c: Crosswalk): string {
    match c
    case Full => "full"
    case Pg => "pg"
    case Opds => "opds"
    case Custom => "custom"
    case Mini => "mini"
  }

  /** `OrderBy(s)`: the member whose value is `s`, or `None` where Python raises. */
  function OrderByOf(s: string): (r: Option<OrderBy>)
    ensures r.Some? ==> OrderByValue(r.value) == s
    ensures r.None? ==> forall o: OrderBy :: OrderByValue(o) != s
  {
    if s == "relevance" then Some(Relevance)
    else if s == "downloads" then Some(Downloads)
    else if s == "title" then Some(Title)
    else if s == "author" then Some(Author)
    else if s == "release_date" then Some(ReleaseDate)
    else if s == "random" then Some(Random)
    else None
  }

  /** `Crosswalk(s)`: the member whose value is `s`, or `None` where Python raises. */
  function CrosswalkOf(s: string): (r: Option<Crosswalk>)
    ensures r.Some? ==> CrosswalkValue(r.value) == s
    ensures r.None? ==> forall c: Crosswalk :: CrosswalkValue(c) != s
  {
    if s == "full" then Some(Full)
    else if s == "pg" then Some(Pg)
    else if s == "opds" then Some(Opds)
    else if s == "custom" then Some(Custom)
    else if s == "mini" then Some(Mini)
    else None
  }

  /** The set of `OrderBy` values (`_VALID_SORTS` in the OPDS layer). */
  function ValidSorts(): (r: set<string>)
    ensures forall o: OrderBy :: OrderByValue(o) in r
    ensures forall s :: s in r ==> OrderByOf(s).Some?
  {
    {"relevance", "downloads", "title", "author", "release_date", "random"}
  }

  lemma OrderByRoundTrip(o: OrderBy)
    ensures OrderByOf(OrderByValue(o)) == Some(o)
  {
  }

  lemma CrosswalkRoundTrip(c: Crosswalk)
    ensures CrosswalkOf(CrosswalkValue(c)) == Some(c)
  {
  }
}
