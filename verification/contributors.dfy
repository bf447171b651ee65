/** Contributor display from search/formatters.py: life-date labels with
    uncertainty and BCE years, "Last, First" name reversal, the formal and
    pretty contributor styles, the Oxford-comma join and the `ContributorFormat`
    wrapper over a book's contributor list. */
module Contributors {
  import opened Wrappers
  import opened Text

  // ---------------------------------------------------------------------------
  // strunk
  // ---------------------------------------------------------------------------

  /** `strunk`: an English list with the Oxford comma. */
  function Strunk(items: seq<string>): (r: string)
    ensures items == [] ==> r == ""
    ensures |items| == 1 ==> r == items[0]
    ensures |items| == 2 ==> r == items[0] + " and " + items[1]
  {
    if items == [] then ""
    else if |items| == 1 then items[0]
    else if |items| == 2 then items[0] + " and " + items[1]
    else Join(items[..|items| - 1], ", ") + ", and " + items[|items| - 1]
  }

  /** From three items on, the list is the items separated by ", ", with "and "
      in front of the last one. */
  lemma StrunkIsOxfordList(items: seq<string>)
    requires |items| >= 3
    ensures Strunk(items) == Join(items[..|items| - 1] + ["and " + items[|items| - 1]], ", ")
  {
    var n := |items|;
    JoinSnoc(items[..n - 1], "and " + items[n - 1], ", ");
  }

  lemma StrunkExample()
    ensures Strunk(["Tom", "Dick", "Harry"]) == "Tom, Dick, and Harry"
  {
    var items := ["Tom", "Dick", "Harry"];
    assert items[..2] == ["Tom", "Dick"];
    assert Join(["Dick"], ", ") == "Dick";
    assert Join(["Tom", "Dick"], ", ") == "Tom, Dick";
  }

  // ---------------------------------------------------------------------------
  // _format_date_range
  // ---------------------------------------------------------------------------

  /** Python truthiness of an `int | None`: present and non-zero. */
  predicate Truthy(o: Option<int>) {
    o.Some? && o.value != 0
  }

  function Mark(uncertain: bool): string {
    if uncertain then "?" else ""
  }

  /** How one year is written: astronomical year `y <= 0` is the year `1 - y`
      BCE, and an uncertain year carries a question mark. */
  function YearLabel(y: int, uncertain: bool): (r: string)
    ensures r != ""
  {
    if y < 0 then NatToString(1 - y) + Mark(uncertain) + " BCE"
    else NatToString(y) + Mark(uncertain)
  }

  /** `_format_date_range`: the label of a birth or death date known to lie
      between `floor` and `ceil`, where missing and zero bounds count as unknown. */
  function FormatDateRange(floor: Option<int>, ceil: Option<int>): (r: string)
    ensures r == "" <==> !Truthy(floor) && !Truthy(ceil)
  {
    if Truthy(ceil) && !Truthy(floor) then YearLabel(ceil.value, true)
    else if !Truthy(floor) then ""
    else if Truthy(ceil) && floor.value != ceil.value then
      YearLabel(if floor.value >= ceil.value then floor.value else ceil.value, true)
    else YearLabel(floor.value, false)
  }

  /** Reads a year label back: the year and whether it was marked uncertain. */
  function ParseYearLabel(s: string): Option<(int, bool)> {
    if |s| >= 4 && s[|s| - 4..] == " BCE" then
      match ParseMarkedNumber(s[..|s| - 4])
      case Some((n, u)) => Some((1 - n, u))
      case None => None
    else ParseMarkedNumber(s)
  }

  /** A numeral with an optional trailing question mark. */
  function ParseMarkedNumber(s: string): Option<(nat, bool)> {
    var u := s != [] && s[|s| - 1] == '?';
    var digits := if u then s[..|s| - 1] else s;
    if digits != [] && AllDigits(digits) && !(|digits| > 1 && digits[0] == '0') then Some((DigitsValue(digits), u))
    else None
  }

  lemma ParseMarkedNumberOf(n: nat, u: bool)
    ensures ParseMarkedNumber(NatToString(n) + Mark(u)) == Some((n, u))
  {
    var d := NatToString(n);
    var s := d + Mark(u);
    assert s[|s| - 1] == '?' <==> u;
    if u {
      assert s[..|s| - 1] == d;
    } else {
      assert s == d;
    }
    DigitsValueOfNatToString(n);
  }

  /** Every year label reads back as the year it was made from (year 0 is never
      labelled: a zero bound counts as unknown). */
  lemma ParseYearLabelRoundTrip(y: int, u: bool)
    requires y != 0
    ensures ParseYearLabel(YearLabel(y, u)) == Some((y, u))
  {
    if y < 0 {
      var n: nat := 1 - y;
      assert YearLabel(y, u) == NatToString(n) + Mark(u) + " BCE";
      ParseBceLabel(n, u);
      assert 1 - n == y;
    } else {
      assert YearLabel(y, u) == NatToString(y) + Mark(u);
      ParseCeLabel(y, u);
    }
  }

  lemma ParseBceLabel(n: nat, u: bool)
    ensures ParseYearLabel(NatToString(n) + Mark(u) + " BCE") == Some((1 - n, u))
  {
    var body := NatToString(n) + Mark(u);
    ParseYearLabelOfBce(body);
    ParseMarkedNumberOf(n, u);
  }

  /** A label ending in " BCE" is read as the marked number before it, negated and
      shifted by one. */
  lemma ParseYearLabelOfBce(body: string)
    ensures ParseYearLabel(body + " BCE") ==
      match ParseMarkedNumber(body)
      case Some((n, u)) => Some((1 - n, u))
      case None => None
  {
    var s := body + " BCE";
    assert s[|s| - 4..] == " BCE";
    assert s[..|s| - 4] == body;
  }

  lemma ParseCeLabel(n: nat, u: bool)
    ensures ParseYearLabel(NatToString(n) + Mark(u)) == Some((n, u))
  {
    var s := NatToString(n) + Mark(u);
    assert s[|s| - 1] != 'E';
    ParseMarkedNumberOf(n, u);
  }

  /** What a date label says: a known floor equal to the ceiling (or with no
      ceiling) is shown as certain; otherwise the later bound is shown, marked
      uncertain. */
  lemma FormatDateRangeMeaning(floor: Option<int>, ceil: Option<int>)
    requires Truthy(floor) || Truthy(ceil)
    ensures ParseYearLabel(FormatDateRange(floor, ceil)).Some?
    ensures var (y, u) := ParseYearLabel(FormatDateRange(floor, ceil)).value;
      && (u <==> !(Truthy(floor) && (!Truthy(ceil) || ceil.value == floor.value)))
      && (Truthy(floor) ==> y >= floor.value && (y == floor.value || (Truthy(ceil) && y == ceil.value)))
      && (Truthy(ceil) ==> y >= ceil.value || (Truthy(floor) && !u && y == floor.value))
      && (!Truthy(floor) ==> y == ceil.value)
  {
    if Truthy(ceil) && !Truthy(floor) {
      ParseYearLabelRoundTrip(ceil.value, true);
    } else if Truthy(ceil) && floor.value != ceil.value {
      ParseYearLabelRoundTrip(if floor.value >= ceil.value then floor.value else ceil.value, true);
    } else {
      ParseYearLabelRoundTrip(floor.value, false);
    }
  }

  // ---------------------------------------------------------------------------
  // _reverse_name
  // ---------------------------------------------------------------------------

  /** Whether ", " occurs at index `i`. */
  predicate CommaSpaceAt(s: string, i: int) {
    0 <= i && i + 1 < |s| && s[i] == ',' && s[i + 1] == ' '
  }

  /** Index of the first ", " in `s`, or `|s|` when there is none. */
  function FindCommaSpace(s: string): (k: nat)
    ensures k == |s| || (k + 1 < |s| && CommaSpaceAt(s, k))
    ensures forall i :: 0 <= i < k ==> !CommaSpaceAt(s, i)
    decreases |s|
  {
    if |s| < 2 then |s|
    else if CommaSpaceAt(s, 0) then 0
    else
      var k := FindCommaSpace(s[1..]);
      assert forall i :: 1 <= i < k + 1 ==> (CommaSpaceAt(s, i) <==> CommaSpaceAt(s[1..], i - 1));
      1 + k
  }

  /** Python's `s.split(", ")`. */
  function SplitCommaSpace(s: string): (parts: seq<string>)
    ensures |parts| >= 1
    decreases |s|
  {
    var k := FindCommaSpace(s);
    if k == |s| then [s] else [s[..k]] + SplitCommaSpace(s[k + 2..])
  }

  /** Splitting on ", " and joining with ", " gives the text back. */
  lemma {:induction false} SplitCommaSpaceJoin(s: string)
    ensures Join(SplitCommaSpace(s), ", ") == s
    decreases |s|
  {
    var k := FindCommaSpace(s);
    if k < |s| {
      var tail := s[k + 2..];
      var rest := SplitCommaSpace(tail);
      assert SplitCommaSpace(s) == [s[..k]] + rest;
      JoinCons(s[..k], rest, ", ");
      SplitCommaSpaceJoin(tail);
      SplitAround(s, k);
    } else {
      assert SplitCommaSpace(s) == [s];
    }
  }

  lemma JoinCons(x: string, rest: seq<string>, sep: string)
    requires rest != []
    ensures Join([x] + rest, sep) == x + sep + Join(rest, sep)
  {
    assert ([x] + rest)[1..] == rest;
  }

  lemma SplitAround(s: string, k: nat)
    requires CommaSpaceAt(s, k)
    ensures s == s[..k] + ", " + s[k + 2..]
  {
    assert s[k..k + 2] == ", ";
    assert s == s[..k] + s[k..k + 2] + s[k + 2..];
  }

  /** No part of the split contains the separator. */
  lemma {:induction false} SplitCommaSpaceParts(s: string)
    ensures forall j, i :: 0 <= j < |SplitCommaSpace(s)| ==> !CommaSpaceAt(SplitCommaSpace(s)[j], i)
    decreases |s|
  {
    var k := FindCommaSpace(s);
    var parts := SplitCommaSpace(s);
    if k < |s| {
      SplitCommaSpaceParts(s[k + 2..]);
      assert parts == [s[..k]] + SplitCommaSpace(s[k + 2..]);
      forall i
        ensures !CommaSpaceAt(s[..k], i)
      {
        if CommaSpaceAt(s[..k], i) {
          assert CommaSpaceAt(s, i);
        }
      }
    } else {
      assert parts == [s];
    }
  }

  function Reverse<T>(xs: seq<T>): (r: seq<T>)
    ensures |r| == |xs|
    ensures forall i :: 0 <= i < |xs| ==> r[i] == xs[|xs| - 1 - i]
  {
    seq(|xs|, i requires 0 <= i < |xs| => xs[|xs| - 1 - i])
  }

  /** Index of the last `)` in `s`, if any. */
  function LastClose(s: string): (r: Option<nat>)
    ensures r.Some? ==> r.value < |s| && s[r.value] == ')'
    ensures r.Some? ==> forall i :: r.value < i < |s| ==> s[i] != ')'
    ensures r.None? ==> ')' !in s
    decreases |s|
  {
    if s == [] then None
    else if s[|s| - 1] == ')' then Some(|s| - 1)
    else
      var r := LastClose(s[..|s| - 1]);
      assert forall i :: 0 <= i < |s| - 1 ==> s[..|s| - 1][i] == s[i];
      r
  }

  /** `re.sub(r"\(.*\)", "", s)`: from an opening parenthesis to the last closing
      one on the same line (`.` does not cross a newline) everything is deleted;
      an opening parenthesis with no closing one after it on its line is kept. */
  function RemoveParenGroups(s: string): (r: string)
    ensures |r| <= |s|
    ensures '(' !in s ==> r == s
    ensures forall i :: 0 <= i < |r| ==> r[i] in s
    decreases |s|
  {
    if s == [] then []
    else if s[0] == '(' then
      var line := s[1..1 + IndexOf(s[1..], '\n')];
      match LastClose(line)
      case Some(k) => RemoveParenGroups(s[k + 2..])
      case None => ['('] + RemoveParenGroups(s[1..])
    else [s[0]] + RemoveParenGroups(s[1..])
  }

  /** `re.sub(r"\s+", " ", s)`: every run of whitespace becomes one space. */
  function CollapseWhitespace(s: string): (r: string)
    ensures forall i :: 0 <= i < |r| && IsSpace(r[i]) ==> r[i] == ' '
    ensures forall i :: 0 <= i < |r| - 1 ==> !(r[i] == ' ' && r[i + 1] == ' ')
    ensures s != [] && !IsSpace(s[0]) ==> r != [] && r[0] == s[0]
    ensures s != [] && IsSpace(s[0]) ==> r != [] && r[0] == ' '
    ensures NonSpace(r) == NonSpace(s)
    decreases |s|
  {
    if s == [] then []
    else if IsSpace(s[0]) then
      var t := TrimStart(s, Whitespace);
      NonSpaceSkipsSpace(s, |s| - |t|);
      var rest := CollapseWhitespace(t);
      assert ([' '] + rest)[1..] == rest;
      [' '] + rest
    else
      var rest := CollapseWhitespace(s[1..]);
      assert ([s[0]] + rest)[1..] == rest;
      [s[0]] + rest
  }

  /** The characters of `s` that are not whitespace, in order. */
  function NonSpace(s: string): (r: string)
    decreases |s|
  {
    if s == [] then []
    else if IsSpace(s[0]) then NonSpace(s[1..])
    else [s[0]] + NonSpace(s[1..])
  }

  /** Leading whitespace contributes nothing to `NonSpace`. */
  lemma {:induction false} NonSpaceSkipsSpace(s: string, k: nat)
    requires k <= |s| && forall i :: 0 <= i < k ==> IsSpace(s[i])
    ensures NonSpace(s[k..]) == NonSpace(s)
    decreases k
  {
    if k > 0 {
      var t := s[1..];
      assert forall i :: 0 <= i < k - 1 ==> t[i] == s[i + 1];
      NonSpaceSkipsSpace(t, k - 1);
      assert t[k - 1..] == s[k..];
    }
  }

  /** Text whose only whitespace is single spaces is left as it is. */
  lemma {:induction false} CollapseWhitespaceFixesSingleSpaces(s: string)
    requires forall i :: 0 <= i < |s| && IsSpace(s[i]) ==> s[i] == ' '
    requires forall i :: 0 <= i < |s| - 1 ==> !(IsSpace(s[i]) && IsSpace(s[i + 1]))
    ensures CollapseWhitespace(s) == s
    decreases |s|
  {
    if s != [] {
      var t := if IsSpace(s[0]) then TrimStart(s, Whitespace) else s[1..];
      if IsSpace(s[0]) {
        assert |s| > 1 ==> !IsSpace(s[1]);
        assert t == s[1..];
      }
      CollapseWhitespaceFixesSingleSpaces(s[1..]);
    }
  }

  /** `_reverse_name`: "Last, First" becomes "First Last" (the parts split on
      ", " in reverse order, joined by spaces), parenthesised asides are dropped,
      whitespace is collapsed and the result trimmed. */
  function ReverseName(name: string): (r: string)
    ensures r == [] || (!IsSpace(r[0]) && !IsSpace(r[|r| - 1]))
  {
    if name == "" then ""
    else Strip(CollapseWhitespace(RemoveParenGroups(Join(Reverse(SplitCommaSpace(name)), " "))))
  }

  /** A name word: non-empty, without whitespace, commas or parentheses. */
  predicate Word(w: string) {
    w != [] && forall i :: 0 <= i < |w| ==> !IsSpace(w[i]) && w[i] != ',' && w[i] != '(' && w[i] != ')'
  }

  /** "Last, First" reverses to "First Last". */
  lemma ReverseNameOfLastFirst(last: string, first: string)
    requires Word(last) && Word(first)
    ensures ReverseName(last + ", " + first) == first + " " + last
  {
    SplitOfLastFirst(last, first);
    assert Reverse([last, first]) == [first, last];
    assert Join([first, last], " ") == first + " " + last;
    TwoWordsClean(first, last);
  }

  lemma SplitOfLastFirst(last: string, first: string)
    requires Word(last) && Word(first)
    ensures SplitCommaSpace(last + ", " + first) == [last, first]
  {
    var name := last + ", " + first;
    assert FindCommaSpace(name) == |last| by {
      assert CommaSpaceAt(name, |last|);
      forall i | 0 <= i < |last|
        ensures !CommaSpaceAt(name, i)
      {
        assert name[i] == last[i];
      }
    }
    assert name[..|last|] == last;
    assert name[|last| + 2..] == first;
    assert FindCommaSpace(first) == |first| by {
      forall i | 0 <= i < |first|
        ensures !CommaSpaceAt(first, i)
      {
      }
    }
  }

  /** Two words and one space survive the clean-up steps unchanged. */
  lemma TwoWordsClean(first: string, last: string)
    requires Word(last) && Word(first)
    ensures Strip(CollapseWhitespace(RemoveParenGroups(first + " " + last))) == first + " " + last
  {
    var joined := first + " " + last;
    WordsSpacing(first, last);
    assert RemoveParenGroups(joined) == joined;
    CollapseWhitespaceFixesSingleSpaces(joined);
    assert Strip(joined) == joined;
  }

  /** Two words joined by a space: no parenthesis, one lone space, no whitespace at the ends. */
  lemma WordsSpacing(first: string, last: string)
    requires Word(last) && Word(first)
    ensures var j := first + " " + last;
      && '(' !in j
      && (forall i :: 0 <= i < |j| && IsSpace(j[i]) ==> i == |first|)
      && j[|first|] == ' '
      && !IsSpace(j[0]) && !IsSpace(j[|j| - 1])
  {
    var j := first + " " + last;
    forall i | 0 <= i < |j|
      ensures j[i] != '(' && (IsSpace(j[i]) ==> i == |first|)
    {
      if i < |first| {
        assert j[i] == first[i];
      } else if i > |first| {
        assert j[i] == last[i - |first| - 1];
      }
    }
    assert j[0] == first[0];
    assert j[|j| - 1] == last[|last| - 1];
  }

  // ---------------------------------------------------------------------------
  // format_contributor
  // ---------------------------------------------------------------------------

  /** A contributor as the crosswalks hand it over; an empty name stands for a
      missing one (both are falsy). */
  datatype Contributor = Contributor(
    name: string,
    role: Option<string>,
    bornFloor: Option<int>,
    bornCeil: Option<int>,
    diedFloor: Option<int>,
    diedCeil: Option<int>)

  /** The keyword switches of `format_contributor`. */
  datatype Style = Style(pretty: bool, dates: bool, showRole: bool)

  /** The defaults: formal style with dates and roles. */
  const DefaultStyle := Style(false, true, true)

  /** Roles not shown, compared after lower-casing. */
  const SilentRoles: set<string> := {"author", "creator", "aut", "cre"}

  /** The role shown in brackets, if any. */
  function ShownRole(role: Option<string>, showRole: bool): (r: Option<string>)
    ensures r.Some? <==> showRole && role.Some? && role.value != "" && Lower(role.value) !in SilentRoles
    ensures r.Some? ==> r.value == role.value
  {
    if showRole && role.Some? && role.value != "" && Lower(role.value) !in SilentRoles then role else None
  }

  /** The life dates: "born-died", "born-" or "d. died". */
  function LifeDates(c: Contributor): (r: string)
    ensures var b := FormatDateRange(c.bornFloor, c.bornCeil);
      var d := FormatDateRange(c.diedFloor, c.diedCeil);
      && (r == "" <==> b == "" && d == "")
      && (b != "" && d != "" ==> r == b + "-" + d)
      && (b != "" && d == "" ==> r == b + "-")
      && (b == "" && d != "" ==> r == "d. " + d)
  {
    var b := FormatDateRange(c.bornFloor, c.bornCeil);
    var d := FormatDateRange(c.diedFloor, c.diedCeil);
    if b != "" && d != "" then b + "-" + d
    else if b != "" then b + "-"
    else if d != "" then "d. " + d
    else ""
  }

  /** A year label is a numeral, perhaps marked and suffixed " BCE": it starts
      with a digit and has no `-`, so a `-` after it is where it ends. */
  lemma YearLabelHasNoDash(y: int, uncertain: bool)
    ensures var l := YearLabel(y, uncertain); IsDigit(l[0]) && '-' !in l
  {
    var n: nat := if y < 0 then 1 - y else y;
    var digits := NatToString(n);
    var tail := Mark(uncertain) + (if y < 0 then " BCE" else "");
    assert YearLabel(y, uncertain) == digits + tail;
    assert '-' !in tail;
    assert forall i :: 0 <= i < |digits| ==> digits[i] != '-' by {
      forall i | 0 <= i < |digits| ensures digits[i] != '-' {
        assert IsDigit(digits[i]);
      }
    }
  }

  /** A date label: empty, or a year label. */
  lemma DateRangeHasNoDash(floor: Option<int>, ceil: Option<int>)
    ensures var l := FormatDateRange(floor, ceil); l == "" || (IsDigit(l[0]) && '-' !in l)
  {
    if Truthy(ceil) && !Truthy(floor) {
      YearLabelHasNoDash(ceil.value, true);
    } else if !Truthy(floor) {
    } else if Truthy(ceil) && floor.value != ceil.value {
      YearLabelHasNoDash(if floor.value >= ceil.value then floor.value else ceil.value, true);
    } else {
      YearLabelHasNoDash(floor.value, false);
    }
  }

  /** Reads life dates back into the birth and death labels: "d. died" has no
      birth label; otherwise the birth label runs up to the first `-`. */
  function SplitLifeDates(r: string): (labels: (string, string))
    ensures |labels.0| + |labels.1| <= |r|
  {
    if StartsWith(r, "d. ") then ("", r[3..])
    else
      var k := IndexOf(r, '-');
      if k < |r| then (r[..k], r[k + 1..]) else (r, "")
  }

  /** The first `-` after a dash-free label is the one that follows it. */
  lemma IndexOfAfterLabel(b: string, d: string)
    requires '-' !in b
    ensures IndexOf(b + "-" + d, '-') == |b|
  {
    var s := b + "-" + d;
    assert s[|b|] == '-';
    forall i | 0 <= i < |b|
      ensures s[i] != '-'
    {
      assert s[i] == b[i];
      assert b[i] in b;
    }
  }

  /** The life dates read back as the two date labels they were built from, which
      ParseYearLabel reads back as years. */
  lemma LifeDatesReadBack(c: Contributor)
    ensures SplitLifeDates(LifeDates(c))
      == (FormatDateRange(c.bornFloor, c.bornCeil), FormatDateRange(c.diedFloor, c.diedCeil))
  {
    var b := FormatDateRange(c.bornFloor, c.bornCeil);
    var d := FormatDateRange(c.diedFloor, c.diedCeil);
    var r := LifeDates(c);
    DateRangeHasNoDash(c.bornFloor, c.bornCeil);
    if b != "" {
      var rest := if d != "" then d else "";
      assert r == b + "-" + rest;
      assert r[0] == b[0] && IsDigit(b[0]);
      assert !StartsWith(r, "d. ");
      IndexOfAfterLabel(b, rest);
      assert r[..|b|] == b;
      assert r[|b| + 1..] == rest;
    } else if d != "" {
      assert r == "d. " + d;
      assert r[..3] == "d. ";
      assert r[3..] == d;
    } else {
      assert r == "";
    }
  }

  /** The name as displayed: reversed in pretty style. */
  function DisplayName(name: string, pretty: bool): string {
    if pretty then ReverseName(name) else name
  }

  /** `format_contributor`: "" for a nameless contributor; otherwise the name
      (reversed in pretty style), the dates (in parentheses in pretty style,
      after a comma in formal style) and the role in brackets. */
  function FormatContributor(c: Contributor, st: Style): (r: string)
    ensures c.name == "" ==> r == ""
    ensures c.name != "" ==> r == Decorate(DisplayName(c.name, st.pretty), if st.dates then LifeDates(c) else "", st.pretty, ShownRole(c.role, st.showRole))
  {
    if c.name == "" then ""
    else Decorate(DisplayName(c.name, st.pretty), if st.dates then LifeDates(c) else "", st.pretty, ShownRole(c.role, st.showRole))
  }

  /** The display name followed by the dates and the role, as either style writes them. */
  function Decorate(display: string, dates: string, pretty: bool, role: Option<string>): (r: string)
    ensures r == display + DatesPart(dates, pretty) + RolePart(role)
    ensures StartsWith(r, display)
    ensures role.Some? ==> EndsWith(r, " [" + role.value + "]")
    ensures role.None? && dates == "" ==> r == display
    ensures dates != "" && pretty ==> StartsWith(r, display + " (" + dates + ")")
    ensures dates != "" && !pretty ==> StartsWith(r, display + ", " + dates)
  {
    var datesPart := DatesPart(dates, pretty);
    var rolePart := RolePart(role);
    ThreeParts(display, datesPart, rolePart);
    if dates != "" && pretty then
      assert display + datesPart == display + " (" + dates + ")";
      display + datesPart + rolePart
    else if dates != "" then
      assert display + datesPart == display + ", " + dates;
      display + datesPart + rolePart
    else
      assert display + datesPart == display;
      display + datesPart + rolePart
  }

  /** A text made of three parts starts with the first, starts with the first two,
      and ends with the last. */
  lemma ThreeParts(a: string, b: string, c: string)
    ensures StartsWith(a + b + c, a) && StartsWith(a + b + c, a + b) && EndsWith(a + b + c, c)
  {
    assert (a + b + c)[..|a|] == a;
    assert (a + b + c)[..|a + b|] == a + b;
    EndsWithAppend(a + b, c);
  }

  /** What follows the name for the dates: nothing, " (dates)" or ", dates". */
  function DatesPart(dates: string, pretty: bool): string {
    if dates == "" then "" else if pretty then " (" + dates + ")" else ", " + dates
  }

  /** What ends the text for the role: nothing, or " [role]". */
  function RolePart(role: Option<string>): string {
    if role.Some? then " [" + role.value + "]" else ""
  }

  /** `format_contributor` in either style: the name as given (formal) or reversed
      (pretty), then the life dates when asked for and known, then the shown role. */
  lemma FormatContributorShape(c: Contributor, st: Style)
    requires c.name != ""
    ensures var d := if st.dates then LifeDates(c) else "";
      var role := ShownRole(c.role, st.showRole);
      var tail := if role.Some? then " [" + c.role.value + "]" else "";
      && (!st.pretty ==> FormatContributor(c, st) == c.name + (if d == "" then "" else ", " + d) + tail)
      && (st.pretty ==> FormatContributor(c, st) == ReverseName(c.name) + (if d == "" then "" else " (" + d + ")") + tail)
  {
  }

  /** A date whose bounds agree is written as the plain year. */
  lemma ExactDate(y: int)
    requires y > 0
    ensures FormatDateRange(Some(y), Some(y)) == NatToString(y)
  {
    assert YearLabel(y, false) == NatToString(y) + "";
  }

  /** Twain's life dates, both known exactly. */
  lemma TwainDates(name: string, role: Option<string>)
    ensures LifeDates(Contributor(name, role, Some(1835), Some(1835), Some(1910), Some(1910))) == "1835-1910"
  {
    ExactDate(1835);
    ExactDate(1910);
    assert NatToString(1835) == "1835";
    assert NatToString(1910) == "1910";
  }

  /** "Author" is one of the silent roles, whatever its case. */
  lemma AuthorIsSilent()
    ensures ShownRole(Some("Author"), true) == None
  {
    assert Lower("Author") == "author";
  }

  lemma EditorIsShown()
    ensures ShownRole(Some("Editor"), true) == Some("Editor")
  {
    assert Lower("Editor") == "editor";
  }

  /** The docstring's formal example: dates follow a comma, the author role is
      silent. `Twain` stands for any name; the docstring's is "Twain, Mark". */
  lemma FormalExample(twain: string)
    requires twain != ""
    ensures FormatContributor(Contributor(twain, Some("Author"), Some(1835), Some(1835), Some(1910), Some(1910)), DefaultStyle)
      == twain + ", 1835-1910"
  {
    var c := Contributor(twain, Some("Author"), Some(1835), Some(1835), Some(1910), Some(1910));
    TwainDates(twain, Some("Author"));
    AuthorIsSilent();
    assert FormatContributor(c, DefaultStyle) == Decorate(twain, "1835-1910", false, None);
    FormalDecoration(twain);
  }

  lemma FormalDecoration(twain: string)
    ensures Decorate(twain, "1835-1910", false, None) == twain + ", 1835-1910"
  {
    var dates := DatesPart("1835-1910", false);
    assert dates == ", 1835-1910";
    assert RolePart(None) == "";
    assert twain + dates + "" == twain + ", 1835-1910";
  }

  /** The docstring's example with a shown role. */
  lemma EditorExample(twain: string)
    requires twain != ""
    ensures FormatContributor(Contributor(twain, Some("Editor"), Some(1835), Some(1835), Some(1910), Some(1910)), DefaultStyle)
      == twain + ", 1835-1910 [Editor]"
  {
    TwainDates(twain, Some("Editor"));
    EditorIsShown();
    EditorDecoration(twain);
  }

  lemma EditorDecoration(twain: string)
    ensures Decorate(twain, "1835-1910", false, Some("Editor")) == twain + ", 1835-1910 [Editor]"
  {
    var dates := DatesPart("1835-1910", false);
    var role := RolePart(Some("Editor"));
    assert dates == ", 1835-1910";
    assert role == " [Editor]";
    assert dates + role == ", 1835-1910 [Editor]";
    assert twain + dates + role == twain + (dates + role);
  }

  /** Pretty style on a "Last, First" name: the name reads "First Last", then
      the dates in parentheses, then the role in brackets, as in the docstring's
      "Mark Twain (1835-1910)" and "Mark Twain [Editor]". */
  lemma PrettyStyleOfLastFirst(c: Contributor, last: string, first: string, dates: bool, showRole: bool)
    requires Word(last) && Word(first) && c.name == last + ", " + first
    ensures var r := FormatContributor(c, Style(true, dates, showRole));
      var d := if dates then LifeDates(c) else "";
      var tail := if ShownRole(c.role, showRole).Some? then " [" + c.role.value + "]" else "";
      && (d != "" ==> r == first + " " + last + " (" + d + ")" + tail)
      && (d == "" ==> r == first + " " + last + tail)
  {
    ReverseNameOfLastFirst(last, first);
    FormatContributorShape(c, Style(true, dates, showRole));
  }

  // ---------------------------------------------------------------------------
  // ContributorFormat
  // ---------------------------------------------------------------------------

  /** The contributors that have a name, in order. */
  function Named(cs: seq<Contributor>): (r: seq<Contributor>)
    ensures |r| <= |cs|
    ensures forall i :: 0 <= i < |r| ==> r[i].name != "" && r[i] in cs
    ensures forall i :: 0 <= i < |cs| && cs[i].name != "" ==> cs[i] in r
    decreases |cs|
  {
    if cs == [] then []
    else if cs[0].name == "" then Named(cs[1..])
    else [cs[0]] + Named(cs[1..])
  }

  /** Keeping the named contributors commutes with concatenation, so they keep
      their order and every copy of a repeated contributor. */
  lemma {:induction false} NamedAppend(a: seq<Contributor>, b: seq<Contributor>)
    ensures Named(a + b) == Named(a) + Named(b)
    decreases |a|
  {
    if a == [] {
      assert a + b == b;
    } else {
      assert (a + b)[0] == a[0];
      assert (a + b)[1..] == a[1..] + b;
      NamedAppend(a[1..], b);
    }
  }

  /** One contributor is kept exactly when it has a name. */
  lemma NamedSingle(c: Contributor)
    ensures Named([c]) == (if c.name != "" then [c] else [])
  {
    assert [c][1..] == [];
  }

  function FormatAll(cs: seq<Contributor>, st: Style): (r: seq<string>)
    ensures |r| == |cs|
    ensures forall i :: 0 <= i < |cs| ==> r[i] == FormatContributor(cs[i], st)
  {
    seq(|cs|, i requires 0 <= i < |cs| => FormatContributor(cs[i], st))
  }

  /** `ContributorFormat.__call__`: with `all`, every named contributor formatted
      and joined by `sep` or by the Oxford-comma list; otherwise the first
      contributor alone, or "" when there is none. */
  function ContributorFormat(cs: seq<Contributor>, all: bool, sep: string, strunkJoin: bool, st: Style): (r: string)
    ensures !all && cs == [] ==> r == ""
    ensures !all && cs != [] ==> r == FormatContributor(cs[0], st)
    ensures all && Named(cs) == [] ==> r == ""
    ensures all && |Named(cs)| == 1 ==> r == FormatContributor(Named(cs)[0], st)
  {
    if all then
      var formatted := FormatAll(Named(cs), st);
      if strunkJoin then Strunk(formatted) else Join(formatted, sep)
    else if cs != [] then FormatContributor(cs[0], st)
    else ""
  }

  /** In the `all` form, a nameless contributor changes nothing. */
  lemma ContributorFormatSkipsNameless(cs: seq<Contributor>, k: nat, c: Contributor, sep: string, strunkJoin: bool, st: Style)
    requires k <= |cs| && c.name == ""
    ensures ContributorFormat(cs[..k] + [c] + cs[k..], true, sep, strunkJoin, st)
         == ContributorFormat(cs, true, sep, strunkJoin, st)
  {
    NamedSkips(cs[..k], c, cs[k..]);
    assert cs[..k] + cs[k..] == cs;
  }

  lemma {:induction false} NamedSkips(a: seq<Contributor>, c: Contributor, b: seq<Contributor>)
    requires c.name == ""
    ensures Named(a + [c] + b) == Named(a + b)
    decreases |a|
  {
    if a == [] {
      assert [c] + b == a + [c] + b;
      assert ([c] + b)[1..] == b;
      assert a + b == b;
    } else {
      assert (a + [c] + b)[1..] == a[1..] + [c] + b;
      assert (a + b)[1..] == a[1..] + b;
      NamedSkips(a[1..], c, b);
    }
  }
}
