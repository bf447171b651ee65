/** The crosswalks of search/crosswalks.py: a database row turned into the "full",
    "mini", "pg" and OPDS 2.0 publication shapes. Every crosswalk's dict goes through
    `format_dict` before it is returned. */
module Crosswalks {
  import opened Wrappers
  import opened Text
  import opened Json
  import opened Formatters
  import opened Rows
  import opened Html
  import Constants

  // ---------------------------------------------------------------------------
  // Shared pieces
  // ---------------------------------------------------------------------------

  const CopyrightedNotice: string := "Copyrighted. Read the copyright notice inside this book for details."
  const PublicDomainNotice: string := "Public domain in the USA."

  /** `_rights_text`: which notice a book carries, decided by the truthiness of its flag. */
  function RightsText(copyrighted: Option<int>): (r: string)
    ensures NonZero(copyrighted) <==> r == CopyrightedNotice
    ensures !NonZero(copyrighted) <==> r == PublicDomainNotice
  {
    if NonZero(copyrighted) then CopyrightedNotice else PublicDomainNotice
  }

  /** Python's `str(x)` of an `int | None`, as an f-string writes it. */
  function PyStr(o: Option<int>): (r: string)
    ensures o.None? <==> r == "None"
  {
    match o
    case Some(i) => IntToString(i)
    case None => "None"
  }

  /** The number reads back out of its text. */
  lemma PyStrRoundTrip(i: int)
    ensures ParseSigned(PyStr(Some(i))) == Some(i)
  {
    ParseSignedOfIntToString(i);
  }

  /** `LANGUAGE_LABELS.get(code, code)`; the label table is a parameter. */
  function Label(code: string, labels: map<string, string>): (r: string)
    ensures code in labels ==> r == labels[code]
    ensures code !in labels ==> r == code
  {
    if code in labels then labels[code] else code
  }

  function LanguageValues(codes: seq<string>, labels: map<string, string>): (r: seq<Value>)
    ensures |r| == |codes|
    ensures forall i :: 0 <= i < |codes| ==>
      r[i] == JDict([Entry("code", JStr(codes[i])), Entry("name", JStr(Label(codes[i], labels)))])
  {
    seq(|codes|, i requires 0 <= i < |codes| =>
      JDict([Entry("code", JStr(codes[i])), Entry("name", JStr(Label(codes[i], labels)))]))
  }

  function CreatorValues(cs: seq<Creator>): (r: seq<Value>)
    ensures |r| == |cs|
    ensures forall i :: 0 <= i < |cs| ==>
      r[i] == JDict([Entry("id", OptInt(cs[i].id)), Entry("name", JStr(cs[i].name)), Entry("role", JStr(cs[i].role))])
  {
    seq(|cs|, i requires 0 <= i < |cs| =>
      JDict([Entry("id", OptInt(cs[i].id)), Entry("name", JStr(cs[i].name)), Entry("role", JStr(cs[i].role))]))
  }

  /** Subjects under key "subject", bookshelves under key "bookshelf". */
  function NamedValues(key: string, ns: seq<Named>): (r: seq<Value>)
    ensures |r| == |ns|
    ensures forall i :: 0 <= i < |ns| ==> r[i] == JDict([Entry("id", OptInt(ns[i].id)), Entry(key, JStr(ns[i].name))])
  {
    seq(|ns|, i requires 0 <= i < |ns| => JDict([Entry("id", OptInt(ns[i].id)), Entry(key, JStr(ns[i].name))]))
  }

  function FormatValues(fs: seq<Format>): (r: seq<Value>)
    ensures |r| == |fs|
    ensures forall i :: 0 <= i < |fs| ==>
      (r[i].JDict? && |r[i].entries| == 5 && r[i].entries[0] == Entry("filename", JStr(fs[i].filename)))
  {
    seq(|fs|, i requires 0 <= i < |fs| =>
      JDict([Entry("filename", JStr(fs[i].filename)), Entry("filetype", OptStr(fs[i].filetype)),
             Entry("hr_filetype", OptStr(fs[i].hrFiletype)), Entry("mediatype", OptStr(fs[i].mediatype)),
             Entry("extent", OptInt(fs[i].extent))]))
  }

  /** A raw array (NULL elements kept) as a JSON list. */
  function OptStrs(xs: seq<Option<string>>): (r: seq<Value>)
    ensures |r| == |xs|
    ensures forall i :: 0 <= i < |xs| ==> r[i] == OptStr(xs[i])
  {
    seq(|xs|, i requires 0 <= i < |xs| => OptStr(xs[i]))
  }

  function TaggedValues(key: string, xs: seq<string>): (r: seq<Value>)
    ensures |r| == |xs|
    ensures forall i :: 0 <= i < |xs| ==> r[i] == JDict([Entry(key, JStr(xs[i]))])
  {
    seq(|xs|, i requires 0 <= i < |xs| => JDict([Entry(key, JStr(xs[i]))]))
  }

  function CoverageValues(codes: seq<string>): (r: seq<Value>)
    ensures |r| == |codes|
    ensures forall i :: 0 <= i < |codes| ==> r[i] == JDict([Entry("id", JStr(codes[i])), Entry("locc", JStr(codes[i]))])
  {
    seq(|codes|, i requires 0 <= i < |codes| => JDict([Entry("id", JStr(codes[i])), Entry("locc", JStr(codes[i]))]))
  }

  // ---------------------------------------------------------------------------
  // crosswalk_full
  // ---------------------------------------------------------------------------

  const FullKeys: seq<string> :=
    ["book_id", "title", "author", "downloads", "creators", "language", "subjects", "bookshelves",
     "date", "format", "coverpage", "summary", "credits", "type", "rights", "coverage", "publisher"]

  /** The dict `crosswalk_full` builds, before formatting. */
  function RawFull(row: Row, labels: map<string, string>): seq<Entry> {
    [Entry("book_id", JInt(row.bookId)),
     Entry("title", OptStr(row.title)),
     Entry("author", OptStr(row.allAuthors)),
     Entry("downloads", OptInt(row.downloads)),
     Entry("creators", JList(CreatorValues(BuildCreators(row)))),
     Entry("language", JList(LanguageValues(Texts(row.langCodes), labels))),
     Entry("subjects", JList(NamedValues("subject", BuildSubjects(row)))),
     Entry("bookshelves", JList(NamedValues("bookshelf", BuildBookshelves(row)))),
     Entry("date", OptStr(row.releaseDate)),
     Entry("format", JList(FormatValues(BuildFormats(row)))),
     Entry("coverpage", JList(OptStrs(row.coverpage))),
     Entry("summary", JList(OptStrs(row.summary))),
     Entry("credits", JList(OptStrs(row.credits))),
     Entry("type", JList(TaggedValues("dcmitype", Texts(row.dcmitypes)))),
     Entry("rights", JStr(RightsText(row.copyrighted))),
     Entry("coverage", JList(CoverageValues(Texts(row.loccCodes)))),
     Entry("publisher", if HasText(row.publisher) then JDict([Entry("raw", JStr(row.publisher.value))]) else JNull)]
  }

  /** `crosswalk_full`. */
  function CrosswalkFull(row: Row, labels: map<string, string>): (r: seq<Entry>)
    ensures Keys(r) == FullKeys
  {
    FormatDict(RawFull(row, labels))
  }

  /** The full record keeps the book id and the download count as they are. */
  lemma FullIdentity(row: Row, labels: map<string, string>)
    ensures CrosswalkFull(row, labels)[0].val == JInt(row.bookId)
    ensures CrosswalkFull(row, labels)[3].val == OptInt(row.downloads)
  {
    var raw := RawFull(row, labels);
    assert raw[0] == Entry("book_id", JInt(row.bookId));
    assert raw[3] == Entry("downloads", OptInt(row.downloads));
    FormatOptInt("book_id", Some(row.bookId));
    FormatOptInt("downloads", row.downloads);
  }

  /** The full record carries the rights notice its copyright flag selects. */
  lemma FullRights(row: Row, labels: map<string, string>)
    ensures CrosswalkFull(row, labels)[14].val == JStr(FormatField("rights", RightsText(row.copyrighted)))
  {
    var raw := RawFull(row, labels);
    assert raw[14] == Entry("rights", JStr(RightsText(row.copyrighted)));
    FormatString("rights", RightsText(row.copyrighted));
  }

  /** The full record has a publisher exactly when the row names one. */
  lemma FullPublisher(row: Row, labels: map<string, string>)
    ensures CrosswalkFull(row, labels)[16].val == JNull <==> !HasText(row.publisher)
  {
    var raw := RawFull(row, labels);
    FormatValueShape("publisher", raw[16].val);
  }

  /** The full record has one entry per named creator, per non-empty language code,
      per non-empty type and per non-empty classification code. */
  lemma FullLists(row: Row, labels: map<string, string>)
    ensures var v := CrosswalkFull(row, labels)[4].val; v.JList? && |v.items| == |Texts(row.creatorNames)|
    ensures var v := CrosswalkFull(row, labels)[5].val; v.JList? && |v.items| == |Texts(row.langCodes)|
    ensures var v := CrosswalkFull(row, labels)[13].val; v.JList? && |v.items| == |Texts(row.dcmitypes)|
    ensures var v := CrosswalkFull(row, labels)[15].val; v.JList? && |v.items| == |Texts(row.loccCodes)|
  {
    BuildCreatorsNames(row);
    FormatListValue("creators", CreatorValues(BuildCreators(row)));
    FormatListValue("language", LanguageValues(Texts(row.langCodes), labels));
    FormatListValue("type", TaggedValues("dcmitype", Texts(row.dcmitypes)));
    FormatListValue("coverage", CoverageValues(Texts(row.loccCodes)));
  }

  // ---------------------------------------------------------------------------
  // crosswalk_mini
  // ---------------------------------------------------------------------------

  function RawMini(row: Row): seq<Entry> {
    [Entry("id", JInt(row.bookId)), Entry("title", OptStr(row.title)),
     Entry("author", OptStr(row.allAuthors)), Entry("downloads", OptInt(row.downloads))]
  }

  /** `crosswalk_mini`. */
  function CrosswalkMini(row: Row): (r: seq<Entry>)
    ensures Keys(r) == ["id", "title", "author", "downloads"]
  {
    FormatDict(RawMini(row))
  }

  /** The mini record identifies the book and cleans its title and author line. */
  lemma MiniRecord(row: Row)
    ensures CrosswalkMini(row)[0].val == JInt(row.bookId)
    ensures CrosswalkMini(row)[1].val == (if row.title.Some? then JStr(FormatField("title", row.title.value)) else JNull)
    ensures CrosswalkMini(row)[2].val == (if row.allAuthors.Some? then JStr(Strip(row.allAuthors.value)) else JNull)
    ensures CrosswalkMini(row)[3].val == OptInt(row.downloads)
  {
    var raw := RawMini(row);
    assert raw[0] == Entry("id", JInt(row.bookId));
    assert raw[1] == Entry("title", OptStr(row.title));
    assert raw[2] == Entry("author", OptStr(row.allAuthors));
    assert raw[3] == Entry("downloads", OptInt(row.downloads));
    FormatOptInt("id", Some(row.bookId));
    FormatOptStr("title", row.title);
    FormatOptPlain("author", row.allAuthors);
    FormatOptInt("downloads", row.downloads);
  }

  // ---------------------------------------------------------------------------
  // crosswalk_pg
  // ---------------------------------------------------------------------------

  const PgKeys: seq<string> :=
    ["ebook_no", "title", "contributors", "language", "subjects", "bookshelves", "release_date",
     "downloads_last_30_days", "files", "cover_url"]

  function ContributorValues(cs: seq<Creator>): (r: seq<Value>)
    ensures |r| == |cs|
    ensures forall i :: 0 <= i < |cs| ==> r[i] == JDict([Entry("name", JStr(cs[i].name)), Entry("role", JStr(cs[i].role))])
  {
    seq(|cs|, i requires 0 <= i < |cs| => JDict([Entry("name", JStr(cs[i].name)), Entry("role", JStr(cs[i].role))]))
  }

  /** `[f for f in formats if f.get("filename")]`. */
  function WithFilename(fs: seq<Format>): (r: seq<Format>)
    ensures |r| <= |fs|
    ensures forall i :: 0 <= i < |r| ==> r[i].filename != ""
    ensures (forall i :: 0 <= i < |fs| ==> fs[i].filename != "") ==> r == fs
  {
    if fs == [] then []
    else WithFilename(fs[..|fs| - 1]) + (if fs[|fs| - 1].filename != "" then [fs[|fs| - 1]] else [])
  }

  function FileValues(fs: seq<Format>): (r: seq<Value>)
    ensures |r| == |fs|
    ensures forall i :: 0 <= i < |fs| ==>
      r[i] == JDict([Entry("filename", JStr(fs[i].filename)), Entry("type", OptStr(fs[i].mediatype)), Entry("size", OptInt(fs[i].extent))])
  {
    seq(|fs|, i requires 0 <= i < |fs| =>
      JDict([Entry("filename", JStr(fs[i].filename)), Entry("type", OptStr(fs[i].mediatype)), Entry("size", OptInt(fs[i].extent))]))
  }

  /** The dict `crosswalk_pg` builds, before formatting. */
  function RawPg(row: Row, labels: map<string, string>): seq<Entry> {
    [Entry("ebook_no", JInt(row.bookId)),
     Entry("title", OptStr(row.title)),
     Entry("contributors", JList(ContributorValues(BuildCreators(row)))),
     Entry("language", JList(LanguageValues(Texts(row.langCodes), labels))),
     Entry("subjects", JList(Strs(NamesOf(BuildSubjects(row))))),
     Entry("bookshelves", JList(Strs(NamesOf(BuildBookshelves(row))))),
     Entry("release_date", OptStr(row.releaseDate)),
     Entry("downloads_last_30_days", OptInt(row.downloads)),
     Entry("files", JList(FileValues(WithFilename(BuildFormats(row))))),
     Entry("cover_url", OptStr(At(row.coverpage, 0)))]
  }

  /** `crosswalk_pg`. */
  function CrosswalkPg(row: Row, labels: map<string, string>): (r: seq<Entry>)
    ensures Keys(r) == PgKeys
  {
    FormatDict(RawPg(row, labels))
  }

  /** The PG record lists the subjects and bookshelves as their formatted names. */
  lemma PgNames(row: Row, labels: map<string, string>)
    ensures CrosswalkPg(row, labels)[4].val == JList(FormatList("subjects", Strs(Texts(row.subjectNames))))
    ensures CrosswalkPg(row, labels)[5].val == JList(FormatList("bookshelves", Strs(Texts(row.bookshelfNames))))
  {
    BuildNamedNames(row.subjectNames, row.subjectIds);
    BuildNamedNames(row.bookshelfNames, row.bookshelfIds);
    FormatListValue("subjects", Strs(NamesOf(BuildSubjects(row))));
    FormatListValue("bookshelves", Strs(NamesOf(BuildBookshelves(row))));
  }

  /** The PG record lists one file per non-empty filename. */
  lemma PgFiles(row: Row, labels: map<string, string>)
    ensures var v := CrosswalkPg(row, labels)[8].val; v.JList? && |v.items| == |Texts(row.formatFilenames)|
  {
    BuildFormatsFilenames(row);
    FormatListValue("files", FileValues(WithFilename(BuildFormats(row))));
  }

  /** The PG record is keyed by the book id and takes its cover from the first
      coverpage slot, which may be empty. */
  lemma PgCover(row: Row, labels: map<string, string>)
    ensures CrosswalkPg(row, labels)[0].val == JInt(row.bookId)
    ensures CrosswalkPg(row, labels)[9].val
      == (if |row.coverpage| > 0 && row.coverpage[0].Some? then JStr(Strip(row.coverpage[0].value)) else JNull)
  {
    var raw := RawPg(row, labels);
    assert raw[0] == Entry("ebook_no", JInt(row.bookId));
    assert raw[9] == Entry("cover_url", OptStr(At(row.coverpage, 0)));
    FormatOptInt("ebook_no", Some(row.bookId));
    FormatOptPlain("cover_url", At(row.coverpage, 0));
  }

  // ---------------------------------------------------------------------------
  // crosswalk_opds: pieces
  // ---------------------------------------------------------------------------

  const GutenbergBase: string := "https://www.gutenberg.org/"

  predicate IsAbsolute(fn: string) {
    StartsWith(fn, "http://") || StartsWith(fn, "https://")
  }

  /** A file's URL: absolute filenames as they are, others under the Gutenberg site
      with their leading slashes removed. */
  function Href(fn: string): (r: string)
    ensures IsAbsolute(r)
    ensures IsAbsolute(fn) ==> r == fn
    ensures !IsAbsolute(fn) ==> |r| >= |GutenbergBase| && r[|GutenbergBase|..] == TrimStart(fn, {'/'})
  {
    if IsAbsolute(fn) then fn
    else
      assert (GutenbergBase + TrimStart(fn, {'/'}))[..8] == "https://";
      GutenbergBase + TrimStart(fn, {'/'})
  }

  /** `(f.get("filetype") or "").strip().lower()`. */
  function NormalizedType(f: Format): string {
    Lower(Strip(f.filetype.GetOr("")))
  }

  predicate Offers(f: Format, t: string) {
    f.filename != "" && NormalizedType(f) == t
  }

  /** The formats tried, best first: EPUB3 with images for text, the HTML index for audio. */
  function Preferences(isAudio: bool): (r: seq<string>)
    ensures |r| >= 2 && r[|r| - 1] == "html"
  {
    if isAudio then ["index", "html"]
    else ["epub3.images", "epub.images", "epub.noimages", "kindle.images", "pdf.images", "pdf.noimages", "html"]
  }

  /** What each format offers: its normalized type, or nothing without a filename. */
  function Kinds(fs: seq<Format>): (r: seq<Option<string>>)
    ensures |r| == |fs|
    ensures forall j :: 0 <= j < |fs| ==> (r[j].Some? <==> fs[j].filename != "")
    ensures forall j, t :: 0 <= j < |fs| ==> (r[j] == Some(t) <==> Offers(fs[j], t))
  {
    seq(|fs|, j requires 0 <= j < |fs| => if fs[j].filename != "" then Some(NormalizedType(fs[j])) else None)
  }

  /** The inner loop: the first format offering type `t`. */
  function FirstOffering(kinds: seq<Option<string>>, t: string): (r: Option<nat>)
    ensures r.Some? ==>
      (r.value < |kinds| && kinds[r.value] == Some(t) && forall j :: 0 <= j < r.value ==> kinds[j] != Some(t))
    ensures r.None? ==> forall j :: 0 <= j < |kinds| ==> kinds[j] != Some(t)
    decreases |kinds|
  {
    if kinds == [] then None
    else if kinds[0] == Some(t) then Some(0)
    else
      match FirstOffering(kinds[1..], t)
      case Some(j) => Some(j + 1)
      case None => None
  }

  /** The outer loop from preference `k` on: the preference that first finds a format,
      and that format. */
  function Preferred(kinds: seq<Option<string>>, prefs: seq<string>, k: nat): (r: Option<(nat, nat)>)
    requires k <= |prefs|
    ensures r.Some? ==>
      (k <= r.value.0 < |prefs| && r.value.1 < |kinds|
       && kinds[r.value.1] == Some(prefs[r.value.0])
       && (forall j :: 0 <= j < r.value.1 ==> kinds[j] != Some(prefs[r.value.0]))
       && (forall p, j :: k <= p < r.value.0 && 0 <= j < |kinds| ==> kinds[j] != Some(prefs[p])))
    ensures r.None? ==> forall p, j :: k <= p < |prefs| && 0 <= j < |kinds| ==> kinds[j] != Some(prefs[p])
    decreases |prefs| - k
  {
    if k == |prefs| then None
    else
      match FirstOffering(kinds, prefs[k])
      case Some(i) => Some((k, i))
      case None => Preferred(kinds, prefs, k + 1)
  }

  /** An acquisition link; the relation is always open access. */
  datatype Link = Link(href: string, mediaType: string, length: Option<int>, title: Option<string>)

  const OpenAccess: string := "http://opds-spec.org/acquisition/open-access"
  const DefaultMediaType: string := "application/epub+zip"

  function AcquisitionLink(f: Format): (r: Link)
    ensures r.href == Href(f.filename)
    ensures r.mediaType != ""
    ensures r.length.Some? <==> (f.extent.Some? && f.extent.value > 0)
    ensures r.length.Some? ==> r.length == f.extent
    ensures r.title.Some? <==> HasText(f.hrFiletype)
    ensures r.title.Some? ==> r.title == f.hrFiletype
  {
    var mtype := Strip(f.mediatype.GetOr(""));
    Link(Href(f.filename),
         if mtype == "" then DefaultMediaType else mtype,
         if f.extent.Some? && f.extent.value > 0 then f.extent else None,
         if HasText(f.hrFiletype) then f.hrFiletype else None)
  }

  /** The readable page every publication falls back to. */
  function FallbackLink(bookId: int): Link {
    Link(GutenbergBase + "ebooks/" + IntToString(bookId), "text/html", None, None)
  }

  function Links(fs: seq<Format>, isAudio: bool, bookId: int): (r: seq<Link>)
    ensures |r| == 1
  {
    match Preferred(Kinds(fs), Preferences(isAudio), 0)
    case Some((_, i)) => [AcquisitionLink(fs[i])]
    case None => [FallbackLink(bookId)]
  }

  /** The nested loops pick preference `p` and format `i` when `p` is the first
      preference any format offers and `i` the first format offering it. */
  lemma PreferredFinds(kinds: seq<Option<string>>, prefs: seq<string>, p: nat, i: nat)
    requires p < |prefs| && i < |kinds| && kinds[i] == Some(prefs[p])
    requires forall j :: 0 <= j < i ==> kinds[j] != Some(prefs[p])
    requires forall q, j :: 0 <= q < p && 0 <= j < |kinds| ==> kinds[j] != Some(prefs[q])
    ensures Preferred(kinds, prefs, 0) == Some((p, i))
  {
  }

  /** The publication gets exactly one link: to the first format of the most preferred
      type any format offers. */
  lemma LinkChoice(fs: seq<Format>, isAudio: bool, bookId: int, p: nat, i: nat)
    requires p < |Preferences(isAudio)| && i < |fs|
    requires Offers(fs[i], Preferences(isAudio)[p])
    requires forall j :: 0 <= j < i ==> !Offers(fs[j], Preferences(isAudio)[p])
    requires forall q, j :: 0 <= q < p && 0 <= j < |fs| ==> !Offers(fs[j], Preferences(isAudio)[q])
    ensures Links(fs, isAudio, bookId) == [AcquisitionLink(fs[i])]
  {
    var prefs := Preferences(isAudio);
    var kinds := Kinds(fs);
    assert kinds[i] == Some(prefs[p]);
    assert forall j :: 0 <= j < i ==> kinds[j] != Some(prefs[p]);
    assert forall q, j :: 0 <= q < p && 0 <= j < |kinds| ==> kinds[j] != Some(prefs[q]);
    PreferredFinds(kinds, prefs, p, i);
  }

  /** When no format offers any preferred type, the link is the book's HTML page. */
  lemma LinkFallback(fs: seq<Format>, isAudio: bool, bookId: int)
    requires forall q, j :: 0 <= q < |Preferences(isAudio)| && 0 <= j < |fs| ==> !Offers(fs[j], Preferences(isAudio)[q])
    ensures Links(fs, isAudio, bookId) == [FallbackLink(bookId)]
  {
    var prefs := Preferences(isAudio);
    var kinds := Kinds(fs);
    assert forall q, j :: 0 <= q < |prefs| && 0 <= j < |kinds| ==> kinds[j] != Some(prefs[q]);
  }

  /** A cover image; its type is always JPEG. */
  datatype Image = Image(href: string)

  predicate IsCover(f: Format) {
    f.filename != "" && Contains(f.filetype.GetOr(""), "cover")
  }

  predicate IsMediumCover(f: Format) {
    f.filename != "" && Contains(f.filetype.GetOr(""), "cover.medium")
  }

  /** The image loop: a medium cover is taken and ends the scan; any other cover is
      taken only while no image has been. */
  function ImagesFrom(fs: seq<Format>, images: seq<Image>): (r: seq<Image>)
    ensures images == [] ==> |r| <= 2
    ensures images != [] ==> |r| <= |images| + 1
    ensures |r| >= |images| && r[..|images|] == images
    decreases |fs|
  {
    if fs == [] then images
    else
      var f := fs[0];
      if IsMediumCover(f) then images + [Image(Href(f.filename))]
      else if IsCover(f) && images == [] then ImagesFrom(fs[1..], [Image(Href(f.filename))])
      else ImagesFrom(fs[1..], images)
  }

  lemma {:induction false} ContainsLonger(s: string, sub: string, p: string)
    requires Contains(s, sub) && StartsWith(sub, p)
    ensures Contains(s, p)
    decreases |s|
  {
    if StartsWith(s, sub) {
      assert s[..|p|] == sub[..|p|];
    } else {
      ContainsLonger(s[1..], sub, p);
    }
  }

  lemma MediumIsCover(f: Format)
    ensures IsMediumCover(f) ==> IsCover(f)
  {
    if IsMediumCover(f) {
      assert "cover.medium"[..5] == "cover";
      ContainsLonger(f.filetype.GetOr(""), "cover.medium", "cover");
    }
  }

  /** A book has images exactly when one of its files is a cover; the first image is
      the first cover, and the scan stops at the first medium cover. */
  lemma {:induction false} ImagesMeaning(fs: seq<Format>)
    ensures ImagesFrom(fs, []) == [] <==> forall j :: 0 <= j < |fs| ==> !IsCover(fs[j])
    ensures forall i :: 0 <= i < |fs| && IsCover(fs[i]) && (forall j :: 0 <= j < i ==> !IsCover(fs[j])) ==>
      ImagesFrom(fs, [])[0] == Image(Href(fs[i].filename))
    decreases |fs|
  {
    if fs != [] {
      var r := ImagesFrom(fs, []);
      if IsCover(fs[0]) {
        CoverFirst(fs);
        forall i | 0 <= i < |fs| && IsCover(fs[i]) && (forall j :: 0 <= j < i ==> !IsCover(fs[j]))
          ensures r[0] == Image(Href(fs[i].filename))
        {
          assert i == 0;
        }
      } else {
        var tail := fs[1..];
        MediumIsCover(fs[0]);
        assert r == ImagesFrom(tail, []);
        ImagesMeaning(tail);
        assert forall j :: 0 <= j < |tail| ==> tail[j] == fs[j + 1];
        forall i | 0 <= i < |fs| && IsCover(fs[i]) && (forall j :: 0 <= j < i ==> !IsCover(fs[j]))
          ensures r[0] == Image(Href(fs[i].filename))
        {
          assert i > 0 && tail[i - 1] == fs[i];
        }
      }
    }
  }

  /** A book whose first file is a cover shows that cover first. */
  lemma CoverFirst(fs: seq<Format>)
    requires fs != [] && IsCover(fs[0])
    ensures ImagesFrom(fs, []) != [] && ImagesFrom(fs, [])[0] == Image(Href(fs[0].filename))
  {
    var img := Image(Href(fs[0].filename));
    if IsMediumCover(fs[0]) {
      assert ImagesFrom(fs, []) == [] + [img];
    } else {
      var r := ImagesFrom(fs[1..], [img]);
      assert ImagesFrom(fs, []) == r;
      assert r[..1] == [img];
    }
  }

  // ---------------------------------------------------------------------------
  // crosswalk_opds: the publication
  // ---------------------------------------------------------------------------

  datatype Author = Author(name: string, identifier: Option<string>)
  datatype Collection = Collection(name: string, identifier: string)

  datatype Metadata = Metadata(
    identifier: string,
    title: Option<string>,
    language: string,
    author: Option<Author>,
    published: Option<string>,
    description: string,
    subject: seq<string>,
    publisher: Option<string>,
    collections: seq<Collection>)

  datatype Publication = Publication(metadata: Metadata, links: seq<Link>, images: seq<Image>)

  /** `(list(lang_codes) if lang_codes else ["en"])[0] or "en"`. */
  function PrimaryLanguage(codes: seq<Option<string>>): (r: string)
    ensures r != ""
    ensures |codes| > 0 && HasText(codes[0]) ==> r == codes[0].value
    ensures !(|codes| > 0 && HasText(codes[0])) ==> r == "en"
  {
    if |codes| > 0 && HasText(codes[0]) then codes[0].value else "en"
  }

  function AuthorOf(cs: seq<Creator>): (r: Option<Author>)
    ensures r.Some? <==> (|cs| > 0 && cs[0].name != "")
    ensures r.Some? ==> r.value.name == cs[0].name
    ensures r.Some? ==> (r.value.identifier.Some? <==> NonZero(cs[0].id))
  {
    if |cs| > 0 && cs[0].name != "" then
      Some(Author(cs[0].name,
                  if NonZero(cs[0].id) then Some(GutenbergBase + "ebooks/author/" + IntToString(cs[0].id.value)) else None))
    else None
  }

  /** The paragraphs of the description, in the order they are written. */
  function DescriptionParts(row: Row): (r: seq<string>)
    ensures 2 <= |r| <= 6
    ensures r[|r| - 2] == "Rights: " + RightsText(row.copyrighted)
    ensures r[|r| - 1] == "Downloads: " + PyStr(row.downloads)
    ensures HasText(At(row.summary, 0)) ==> r[0] == At(row.summary, 0).value
  {
    var summary := At(row.summary, 0);
    var credits := At(row.credits, 0);
    var types := Texts(row.dcmitypes);
    (if HasText(summary) then [summary.value] else [])
    + (if HasText(credits) then ["Credits: " + credits.value] else [])
    + (if HasText(row.readingLevel) then ["Reading Level: " + row.readingLevel.value] else [])
    + (if types != [] then ["Category: " + Join(types, ", ")] else [])
    + ["Rights: " + RightsText(row.copyrighted), "Downloads: " + PyStr(row.downloads)]
  }

  function CollectionsOf(shelves: seq<Named>, codes: seq<string>): (r: seq<Collection>)
    ensures |r| <= |shelves| + |codes|
    ensures (forall i :: 0 <= i < |shelves| ==> shelves[i].name != "") ==> |r| == |shelves| + |codes|
  {
    ShelfCollections(shelves) + LoccCollections(codes)
  }

  function ShelfCollections(shelves: seq<Named>): (r: seq<Collection>)
    ensures |r| <= |shelves|
    ensures (forall i :: 0 <= i < |shelves| ==> shelves[i].name != "") ==> |r| == |shelves|
  {
    if shelves == [] then []
    else
      var b := shelves[|shelves| - 1];
      ShelfCollections(shelves[..|shelves| - 1])
      + (if b.name != "" then [Collection(b.name, GutenbergBase + "ebooks/bookshelf/" + PyStr(b.id))] else [])
  }

  function LoccCollections(codes: seq<string>): (r: seq<Collection>)
    ensures |r| == |codes|
    ensures forall i :: 0 <= i < |codes| ==> r[i].name == codes[i]
  {
    seq(|codes|, i requires 0 <= i < |codes| => Collection(codes[i], GutenbergBase + "ebooks/locc/" + codes[i]))
  }

  /** The publication `crosswalk_opds` describes, before it is written out as a dict. */
  function OpdsPublication(row: Row): (p: Publication) {
    var creators := BuildCreators(row);
    var formats := BuildFormats(row);
    var codes := Texts(row.loccCodes);
    Publication(
      Metadata(
        "urn:gutenberg:" + IntToString(row.bookId),
        row.title,
        PrimaryLanguage(row.langCodes),
        AuthorOf(creators),
        if HasText(row.releaseDate) then row.releaseDate else None,
        Paragraphs(DescriptionParts(row)),
        NamesOf(BuildSubjects(row)) + codes,
        if HasText(row.publisher) then row.publisher else None,
        CollectionsOf(BuildBookshelves(row), codes)),
      Links(formats, row.isAudio, row.bookId),
      ImagesFrom(formats, []))
  }

  /** The description reads back as its paragraphs. */
  lemma OpdsDescription(row: Row)
    ensures ParseParagraphs(OpdsPublication(row).metadata.description) == Some(DescriptionParts(row))
  {
    ParagraphsRoundTrip(DescriptionParts(row));
  }

  /** The subjects are the row's subject names followed by its classification codes,
      and every bookshelf and code becomes a collection. */
  lemma OpdsSubjects(row: Row)
    ensures OpdsPublication(row).metadata.subject == Texts(row.subjectNames) + Texts(row.loccCodes)
    ensures |OpdsPublication(row).metadata.collections| == |Texts(row.bookshelfNames)| + |Texts(row.loccCodes)|
  {
    BuildNamedNames(row.subjectNames, row.subjectIds);
    BuildNamedNames(row.bookshelfNames, row.bookshelfIds);
  }

  /** The author is the first named creator, present whenever the row names one. */
  lemma OpdsAuthor(row: Row)
    ensures var a := OpdsPublication(row).metadata.author;
      (a.Some? <==> Texts(row.creatorNames) != [])
      && (a.Some? ==> a.value.name == Texts(row.creatorNames)[0])
  {
    BuildCreatorsNames(row);
  }

  /** A publication has exactly one link and at most two images. */
  lemma OpdsCounts(row: Row)
    ensures |OpdsPublication(row).links| == 1
    ensures |OpdsPublication(row).images| <= 2
  {
  }

  // ---------------------------------------------------------------------------
  // crosswalk_opds: the dict
  // ---------------------------------------------------------------------------

  function Optional(present: bool, e: Entry): (r: seq<Entry>)
    ensures present ==> r == [e]
    ensures !present ==> r == []
  {
    if present then [e] else []
  }

  function AuthorValue(a: Author): Value {
    JDict([Entry("name", JStr(a.name)), Entry("sortAs", JStr(a.name))]
          + Optional(a.identifier.Some?, Entry("identifier", JStr(a.identifier.GetOr("")))))
  }

  function CollectionValues(cs: seq<Collection>): (r: seq<Value>)
    ensures |r| == |cs|
  {
    seq(|cs|, i requires 0 <= i < |cs| => JDict([Entry("name", JStr(cs[i].name)), Entry("identifier", JStr(cs[i].identifier))]))
  }

  function MetadataEntries(m: Metadata): seq<Entry> {
    [Entry("@type", JStr("http://schema.org/Book")),
     Entry("identifier", JStr(m.identifier)),
     Entry("title", OptStr(m.title)),
     Entry("language", JStr(m.language))]
    + Optional(m.author.Some?, Entry("author", if m.author.Some? then AuthorValue(m.author.value) else JNull))
    + Optional(m.published.Some?, Entry("published", OptStr(m.published)))
    + [Entry("description", JStr(m.description))]
    + Optional(m.subject != [], Entry("subject", JList(Strs(m.subject))))
    + Optional(m.publisher.Some?, Entry("publisher", OptStr(m.publisher)))
    + Optional(m.collections != [], Entry("belongsTo", JDict([Entry("collection", JList(CollectionValues(m.collections)))])))
  }

  function LinkValue(l: Link): Value {
    JDict([Entry("rel", JStr(OpenAccess)), Entry("href", JStr(l.href)), Entry("type", JStr(l.mediaType))]
          + Optional(l.length.Some?, Entry("length", OptInt(l.length)))
          + Optional(l.title.Some?, Entry("title", OptStr(l.title))))
  }

  function LinkValues(ls: seq<Link>): (r: seq<Value>)
    ensures |r| == |ls|
  {
    seq(|ls|, i requires 0 <= i < |ls| => LinkValue(ls[i]))
  }

  function ImageValues(imgs: seq<Image>): (r: seq<Value>)
    ensures |r| == |imgs|
  {
    seq(|imgs|, i requires 0 <= i < |imgs| => JDict([Entry("href", JStr(imgs[i].href)), Entry("type", JStr("image/jpeg"))]))
  }

  function PublicationEntries(p: Publication): seq<Entry> {
    [Entry("metadata", JDict(MetadataEntries(p.metadata))), Entry("links", JList(LinkValues(p.links)))]
    + Optional(p.images != [], Entry("images", JList(ImageValues(p.images))))
  }

  /** `crosswalk_opds`. */
  function CrosswalkOpds(row: Row): seq<Entry> {
    FormatDict(PublicationEntries(OpdsPublication(row)))
  }

  /** A written-out publication has metadata and links, and images only when there are
      some; formatting keeps the number of links. */
  lemma PublicationShape(p: Publication)
    ensures Keys(FormatDict(PublicationEntries(p))) == ["metadata", "links"] + (if p.images != [] then ["images"] else [])
    ensures var v := FormatDict(PublicationEntries(p))[1].val; v.JList? && |v.items| == |p.links|
  {
    var raw := PublicationEntries(p);
    assert raw[1] == Entry("links", JList(LinkValues(p.links)));
    FormatListValue("links", LinkValues(p.links));
  }

  lemma KeysAppend(a: seq<Entry>, b: seq<Entry>)
    ensures Keys(a + b) == Keys(a) + Keys(b)
  {
  }

  lemma KeysOptional(present: bool, k: string, v: Value)
    ensures Keys(Optional(present, Entry(k, v))) == if present then [k] else []
  {
  }

  /** The metadata dict always names the book, its title, language and description;
      author, publication date, subjects, publisher and collections appear only when
      there is something to say, in that order. */
  lemma MetadataKeys(m: Metadata)
    ensures Keys(MetadataEntries(m))
      == ["@type", "identifier", "title", "language"]
         + (if m.author.Some? then ["author"] else [])
         + (if m.published.Some? then ["published"] else [])
         + ["description"]
         + (if m.subject != [] then ["subject"] else [])
         + (if m.publisher.Some? then ["publisher"] else [])
         + (if m.collections != [] then ["belongsTo"] else [])
  {
    var a := Optional(m.author.Some?, Entry("author", if m.author.Some? then AuthorValue(m.author.value) else JNull));
    var p := Optional(m.published.Some?, Entry("published", OptStr(m.published)));
    var s := Optional(m.subject != [], Entry("subject", JList(Strs(m.subject))));
    var u := Optional(m.publisher.Some?, Entry("publisher", OptStr(m.publisher)));
    var c := Optional(m.collections != [], Entry("belongsTo", JDict([Entry("collection", JList(CollectionValues(m.collections)))])));
    var head := [Entry("@type", JStr("http://schema.org/Book")), Entry("identifier", JStr(m.identifier)),
                 Entry("title", OptStr(m.title)), Entry("language", JStr(m.language))];
    var d := [Entry("description", JStr(m.description))];
    assert MetadataEntries(m) == head + a + p + d + s + u + c;
    KeysOptional(m.author.Some?, "author", if m.author.Some? then AuthorValue(m.author.value) else JNull);
    KeysOptional(m.published.Some?, "published", OptStr(m.published));
    KeysOptional(m.subject != [], "subject", JList(Strs(m.subject)));
    KeysOptional(m.publisher.Some?, "publisher", OptStr(m.publisher));
    KeysOptional(m.collections != [], "belongsTo", JDict([Entry("collection", JList(CollectionValues(m.collections)))]));
    var k := Keys(head);
    assert k == ["@type", "identifier", "title", "language"];
    assert Keys(d) == ["description"];
    KeysAppend(head, a);
    k := k + Keys(a);
    KeysAppend(head + a, p);
    k := k + Keys(p);
    KeysAppend(head + a + p, d);
    k := k + Keys(d);
    KeysAppend(head + a + p + d, s);
    k := k + Keys(s);
    KeysAppend(head + a + p + d + s, u);
    k := k + Keys(u);
    KeysAppend(head + a + p + d + s + u, c);
    k := k + Keys(c);
    assert Keys(MetadataEntries(m)) == k;
  }

  /** Which optional metadata a row's publication carries: a date and a publisher
      when the row has non-empty ones, subjects when it has subject names or
      classification codes, collections when it has bookshelves or codes. */
  lemma OpdsMetadataPresence(row: Row)
    ensures var m := OpdsPublication(row).metadata;
      && (m.published.Some? <==> HasText(row.releaseDate))
      && (m.publisher.Some? <==> HasText(row.publisher))
      && (m.subject != [] <==> Texts(row.subjectNames) != [] || Texts(row.loccCodes) != [])
      && (m.collections != [] <==> Texts(row.bookshelfNames) != [] || Texts(row.loccCodes) != [])
  {
    OpdsSubjects(row);
  }

  /** The identifier is the book's URN, and the book id reads back out of it. */
  lemma OpdsIdentifier(row: Row)
    ensures var id := OpdsPublication(row).metadata.identifier;
      |id| > 14 && id[..14] == "urn:gutenberg:" && ParseSigned(id[14..]) == Some(row.bookId)
  {
    var id := OpdsPublication(row).metadata.identifier;
    assert id[14..] == IntToString(row.bookId);
    ParseSignedOfIntToString(row.bookId);
  }

  /** A publication has images exactly when one of the row's files is a cover, the
      first image being the first cover. */
  lemma OpdsImages(row: Row)
    ensures OpdsPublication(row).images != [] <==>
      exists j :: 0 <= j < |BuildFormats(row)| && IsCover(BuildFormats(row)[j])
  {
    ImagesMeaning(BuildFormats(row));
  }

  // ---------------------------------------------------------------------------
  // CROSSWALK_MAP
  // ---------------------------------------------------------------------------

  /** The four crosswalk functions. */
  datatype Transformer = FullTransformer | MiniTransformer | PgTransformer | OpdsTransformer

  /** `CROSSWALK_MAP.get(cw)`: every crosswalk but the custom one has an entry. */
  function CrosswalkMap(cw: Constants.Crosswalk): (r: Option<Transformer>)
    ensures r.None? <==> cw == Constants.Custom
    ensures r.Some? ==> Constants.CrosswalkValue(cw) == TransformerName(r.value)
  {
    match cw
    case Full => Some(FullTransformer)
    case Mini => Some(MiniTransformer)
    case Pg => Some(PgTransformer)
    case Opds => Some(OpdsTransformer)
    case Custom => None
  }

  /** The crosswalk each transformer implements, by its value. */
  function TransformerName(t: Transformer): string {
    match t
    case FullTransformer => "full"
    case MiniTransformer => "mini"
    case PgTransformer => "pg"
    case OpdsTransformer => "opds"
  }

  /** Calls one crosswalk. */
  function ApplyTransformer(t: Transformer, row: Row, labels: map<string, string>): seq<Entry> {
    match t
    case FullTransformer => CrosswalkFull(row, labels)
    case MiniTransformer => CrosswalkMini(row)
    case PgTransformer => CrosswalkPg(row, labels)
    case OpdsTransformer => CrosswalkOpds(row)
  }
}
