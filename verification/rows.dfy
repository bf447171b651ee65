/** A row of the `mv_books_dc` view as the crosswalks of search/crosswalks.py read it,
    and the `_build_*` helpers that zip its parallel arrays into entries.

    A SQL NULL array is the empty sequence (every read is `list(x) if x else []`); array
    elements and scalar columns that can be NULL are `Option`s. */
module Rows {
  import opened Wrappers

  datatype Row = Row(
    bookId: int,
    title: Option<string>,
    allAuthors: Option<string>,
    downloads: Option<int>,
    releaseDate: Option<string>,
    copyrighted: Option<int>,
    langCodes: seq<Option<string>>,
    creatorIds: seq<Option<int>>,
    creatorNames: seq<Option<string>>,
    creatorRoles: seq<Option<string>>,
    subjectIds: seq<Option<int>>,
    subjectNames: seq<Option<string>>,
    bookshelfIds: seq<Option<int>>,
    bookshelfNames: seq<Option<string>>,
    loccCodes: seq<Option<string>>,
    isAudio: bool,
    dcmitypes: seq<Option<string>>,
    publisher: Option<string>,
    summary: seq<Option<string>>,
    credits: seq<Option<string>>,
    readingLevel: Option<string>,
    coverpage: seq<Option<string>>,
    formatFilenames: seq<Option<string>>,
    formatFiletypes: seq<Option<string>>,
    formatHrFiletypes: seq<Option<string>>,
    formatMediatypes: seq<Option<string>>,
    formatExtents: seq<Option<int>>)

  /** Python truthiness of a `str | None`. */
  predicate HasText(o: Option<string>) {
    o.Some? && o.value != ""
  }

  /** Python truthiness of an `int | None`. */
  predicate NonZero(o: Option<int>) {
    o.Some? && o.value != 0
  }

  /** Element `i` of an array padded with `None` (`zip_longest(..., fillvalue=None)`). */
  function At<T>(xs: seq<Option<T>>, i: int): (r: Option<T>)
    ensures (i < 0 || i >= |xs|) ==> r.None?
    ensures 0 <= i < |xs| ==> r == xs[i]
  {
    if 0 <= i < |xs| then xs[i] else None
  }

  function Max(a: nat, b: nat): nat {
    if a < b then b else a
  }

  /** `[x for x in xs[:k] if x]`. */
  function TextsBelow(xs: seq<Option<string>>, k: nat): seq<string>
    decreases k
  {
    if k == 0 then []
    else TextsBelow(xs, k - 1) + (if HasText(At(xs, k - 1)) then [At(xs, k - 1).value] else [])
  }

  /** `[x for x in xs if x]`: the non-empty strings of an array, in order. */
  function Texts(xs: seq<Option<string>>): seq<string> {
    TextsBelow(xs, |xs|)
  }

  /** Padding adds nothing: indexes past the end hold `None`. */
  lemma {:induction false} TextsBelowPadded(xs: seq<Option<string>>, k: nat)
    requires k >= |xs|
    ensures TextsBelow(xs, k) == Texts(xs)
    decreases k
  {
    if k > |xs| {
      TextsBelowPadded(xs, k - 1);
    }
  }

  lemma {:induction false} TextsBelowNonEmpty(xs: seq<Option<string>>, k: nat)
    ensures forall i :: 0 <= i < |TextsBelow(xs, k)| ==> TextsBelow(xs, k)[i] != ""
    decreases k
  {
    if k > 0 {
      TextsBelowNonEmpty(xs, k - 1);
    }
  }

  /** With no empty element, nothing is dropped. */
  lemma {:induction false} TextsOfPresent(xs: seq<Option<string>>, k: nat)
    requires k <= |xs|
    requires forall i :: 0 <= i < |xs| ==> xs[i].Some? && xs[i].value != ""
    ensures |TextsBelow(xs, k)| == k
    ensures forall i :: 0 <= i < k ==> TextsBelow(xs, k)[i] == xs[i].value
    decreases k
  {
    if k > 0 {
      TextsOfPresent(xs, k - 1);
    }
  }

  // ---------------------------------------------------------------------------
  // _build_creators
  // ---------------------------------------------------------------------------

  datatype Creator = Creator(id: Option<int>, name: string, role: string)

  /** `role or "Author"`. */
  function RoleOr(role: Option<string>): (r: string)
    ensures r != ""
    ensures HasText(role) ==> r == role.value
  {
    if HasText(role) then role.value else "Author"
  }

  function CreatorsBelow(names: seq<Option<string>>, roles: seq<Option<string>>, ids: seq<Option<int>>, k: nat)
    : seq<Creator>
    decreases k
  {
    if k == 0 then []
    else
      CreatorsBelow(names, roles, ids, k - 1)
      + (if HasText(At(names, k - 1)) then [Creator(At(ids, k - 1), At(names, k - 1).value, RoleOr(At(roles, k - 1)))]
         else [])
  }

  /** `_build_creators`: the three arrays zipped with padding, nameless slots dropped. */
  function BuildCreators(row: Row): seq<Creator> {
    CreatorsBelow(row.creatorNames, row.creatorRoles, row.creatorIds,
                  Max(|row.creatorNames|, Max(|row.creatorRoles|, |row.creatorIds|)))
  }

  function CreatorNames(cs: seq<Creator>): (r: seq<string>)
    ensures |r| == |cs| && forall i :: 0 <= i < |cs| ==> r[i] == cs[i].name
  {
    seq(|cs|, i requires 0 <= i < |cs| => cs[i].name)
  }

  lemma {:induction false} CreatorsBelowNames(names: seq<Option<string>>, roles: seq<Option<string>>, ids: seq<Option<int>>, k: nat)
    ensures CreatorNames(CreatorsBelow(names, roles, ids, k)) == TextsBelow(names, k)
    ensures forall i :: 0 <= i < |CreatorsBelow(names, roles, ids, k)| ==> CreatorsBelow(names, roles, ids, k)[i].role != ""
    decreases k
  {
    if k > 0 {
      CreatorsBelowNames(names, roles, ids, k - 1);
      var prev := CreatorsBelow(names, roles, ids, k - 1);
      var n := At(names, k - 1);
      var extra := if HasText(n) then [Creator(At(ids, k - 1), n.value, RoleOr(At(roles, k - 1)))] else [];
      assert CreatorsBelow(names, roles, ids, k) == prev + extra;
      assert CreatorNames(extra) == (if HasText(n) then [n.value] else []);
      CreatorNamesAppend(prev, extra);
    }
  }

  lemma CreatorNamesAppend(a: seq<Creator>, b: seq<Creator>)
    ensures CreatorNames(a + b) == CreatorNames(a) + CreatorNames(b)
  {
  }

  /** The creators are the row's non-empty names, in row order, each with a role. */
  lemma BuildCreatorsNames(row: Row)
    ensures CreatorNames(BuildCreators(row)) == Texts(row.creatorNames)
    ensures forall i :: 0 <= i < |BuildCreators(row)| ==> BuildCreators(row)[i].name != "" && BuildCreators(row)[i].role != ""
  {
    var n := Max(|row.creatorNames|, Max(|row.creatorRoles|, |row.creatorIds|));
    CreatorsBelowNames(row.creatorNames, row.creatorRoles, row.creatorIds, n);
    TextsBelowPadded(row.creatorNames, n);
    TextsBelowNonEmpty(row.creatorNames, |row.creatorNames|);
  }

  lemma {:induction false} CreatorsBelowAligned(names: seq<Option<string>>, roles: seq<Option<string>>, ids: seq<Option<int>>, k: nat)
    requires k <= |names| && |roles| == |names| && |ids| == |names|
    requires forall i :: 0 <= i < |names| ==> names[i].Some? && names[i].value != ""
    ensures |CreatorsBelow(names, roles, ids, k)| == k
    ensures forall i :: 0 <= i < k ==>
      CreatorsBelow(names, roles, ids, k)[i] == Creator(ids[i], names[i].value, RoleOr(roles[i]))
    decreases k
  {
    if k > 0 {
      CreatorsBelowAligned(names, roles, ids, k - 1);
    }
  }

  /** With aligned arrays and every name present, creator `i` is slot `i` of the row. */
  lemma BuildCreatorsAligned(row: Row)
    requires |row.creatorRoles| == |row.creatorNames| && |row.creatorIds| == |row.creatorNames|
    requires forall i :: 0 <= i < |row.creatorNames| ==> row.creatorNames[i].Some? && row.creatorNames[i].value != ""
    ensures |BuildCreators(row)| == |row.creatorNames|
    ensures forall i :: 0 <= i < |row.creatorNames| ==>
      BuildCreators(row)[i] == Creator(row.creatorIds[i], row.creatorNames[i].value, RoleOr(row.creatorRoles[i]))
  {
    CreatorsBelowAligned(row.creatorNames, row.creatorRoles, row.creatorIds, |row.creatorNames|);
  }

  // ---------------------------------------------------------------------------
  // _build_subjects, _build_bookshelves
  // ---------------------------------------------------------------------------

  /** A subject or a bookshelf: the two helpers differ only in the key they print. */
  datatype Named = Named(id: Option<int>, name: string)

  function NamedBelow(names: seq<Option<string>>, ids: seq<Option<int>>, k: nat): seq<Named>
    decreases k
  {
    if k == 0 then []
    else NamedBelow(names, ids, k - 1) + (if HasText(At(names, k - 1)) then [Named(At(ids, k - 1), At(names, k - 1).value)] else [])
  }

  function BuildNamed(names: seq<Option<string>>, ids: seq<Option<int>>): seq<Named> {
    NamedBelow(names, ids, Max(|names|, |ids|))
  }

  /** `_build_subjects`. */
  function BuildSubjects(row: Row): seq<Named> {
    BuildNamed(row.subjectNames, row.subjectIds)
  }

  /** `_build_bookshelves`. */
  function BuildBookshelves(row: Row): seq<Named> {
    BuildNamed(row.bookshelfNames, row.bookshelfIds)
  }

  function NamesOf(ns: seq<Named>): (r: seq<string>)
    ensures |r| == |ns| && forall i :: 0 <= i < |ns| ==> r[i] == ns[i].name
  {
    seq(|ns|, i requires 0 <= i < |ns| => ns[i].name)
  }

  lemma {:induction false} NamedBelowNames(names: seq<Option<string>>, ids: seq<Option<int>>, k: nat)
    ensures NamesOf(NamedBelow(names, ids, k)) == TextsBelow(names, k)
    decreases k
  {
    if k > 0 {
      NamedBelowNames(names, ids, k - 1);
    }
  }

  /** Subjects and bookshelves are the row's non-empty names, in row order. */
  lemma BuildNamedNames(names: seq<Option<string>>, ids: seq<Option<int>>)
    ensures NamesOf(BuildNamed(names, ids)) == Texts(names)
    ensures forall i :: 0 <= i < |BuildNamed(names, ids)| ==> BuildNamed(names, ids)[i].name != ""
  {
    NamedBelowNames(names, ids, Max(|names|, |ids|));
    TextsBelowPadded(names, Max(|names|, |ids|));
    TextsBelowNonEmpty(names, |names|);
  }

  lemma {:induction false} NamedBelowAligned(names: seq<Option<string>>, ids: seq<Option<int>>, k: nat)
    requires k <= |names| && |ids| == |names|
    requires forall i :: 0 <= i < |names| ==> names[i].Some? && names[i].value != ""
    ensures |NamedBelow(names, ids, k)| == k
    ensures forall i :: 0 <= i < k ==> NamedBelow(names, ids, k)[i] == Named(ids[i], names[i].value)
    decreases k
  {
    if k > 0 {
      NamedBelowAligned(names, ids, k - 1);
    }
  }

  /** With aligned arrays and every name present, entry `i` pairs name `i` with id `i`. */
  lemma BuildNamedAligned(names: seq<Option<string>>, ids: seq<Option<int>>)
    requires |ids| == |names|
    requires forall i :: 0 <= i < |names| ==> names[i].Some? && names[i].value != ""
    ensures |BuildNamed(names, ids)| == |names|
    ensures forall i :: 0 <= i < |names| ==> BuildNamed(names, ids)[i] == Named(ids[i], names[i].value)
  {
    NamedBelowAligned(names, ids, |names|);
  }

  // ---------------------------------------------------------------------------
  // _build_formats
  // ---------------------------------------------------------------------------

  datatype Format = Format(
    filename: string,
    filetype: Option<string>,
    hrFiletype: Option<string>,
    mediatype: Option<string>,
    extent: Option<int>)

  function FormatsBelow(row: Row, k: nat): seq<Format>
    decreases k
  {
    if k == 0 then []
    else
      var i := k - 1;
      FormatsBelow(row, i)
      + (if HasText(At(row.formatFilenames, i))
         then [Format(At(row.formatFilenames, i).value, At(row.formatFiletypes, i), At(row.formatHrFiletypes, i),
                      At(row.formatMediatypes, i), At(row.formatExtents, i))]
         else [])
  }

  function FormatSlots(row: Row): nat {
    Max(|row.formatFilenames|, Max(|row.formatFiletypes|, Max(|row.formatHrFiletypes|,
      Max(|row.formatMediatypes|, |row.formatExtents|))))
  }

  /** `_build_formats`: the five arrays zipped with padding, slots without a filename dropped. */
  function BuildFormats(row: Row): seq<Format> {
    FormatsBelow(row, FormatSlots(row))
  }

  function FilenamesOf(fs: seq<Format>): (r: seq<string>)
    ensures |r| == |fs| && forall i :: 0 <= i < |fs| ==> r[i] == fs[i].filename
  {
    seq(|fs|, i requires 0 <= i < |fs| => fs[i].filename)
  }

  lemma {:induction false} FormatsBelowFilenames(row: Row, k: nat)
    ensures FilenamesOf(FormatsBelow(row, k)) == TextsBelow(row.formatFilenames, k)
    decreases k
  {
    if k > 0 {
      FormatsBelowFilenames(row, k - 1);
    }
  }

  /** The formats are the row's non-empty filenames, in row order. */
  lemma BuildFormatsFilenames(row: Row)
    ensures FilenamesOf(BuildFormats(row)) == Texts(row.formatFilenames)
    ensures forall i :: 0 <= i < |BuildFormats(row)| ==> BuildFormats(row)[i].filename != ""
  {
    FormatsBelowFilenames(row, FormatSlots(row));
    TextsBelowPadded(row.formatFilenames, FormatSlots(row));
    TextsBelowNonEmpty(row.formatFilenames, |row.formatFilenames|);
  }
}
