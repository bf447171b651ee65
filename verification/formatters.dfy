/** Field normalisation from search/formatters.py: MARC subfield stripping,
    quote straightening, title-separator normalisation, the credits "Updated:"
    cut, and the recursive per-key formatting every crosswalk output goes through.

    Each regular expression of the source is modelled as a left-to-right scanner
    with the semantics of `re.sub`: the leftmost match wins, matches do not
    overlap, and the replacement text is never rescanned. */
module Formatters {
  import opened Wrappers
  import opened Text
  import opened Json

  // ---------------------------------------------------------------------------
  // strip_marc_subfields
  // ---------------------------------------------------------------------------

  /** `re.sub(r"\$[a-z]", "", s)`: every `$` followed by a lower-case letter is deleted. */
  function RemoveSubfieldMarkers(s: string): (r: string)
    ensures |r| <= |s|
    ensures '$' !in s ==> r == s
    decreases |s|
  {
    if |s| >= 2 && s[0] == '$' && IsLowerAscii(s[1]) then RemoveSubfieldMarkers(s[2..])
    else if s == [] then []
    else [s[0]] + RemoveSubfieldMarkers(s[1..])
  }

  /** One MARC subfield: a one-letter code and its text, written `$<code><text>`. */
  datatype Subfield = Subfield(code: char, text: string)

  predicate PlainSubfield(f: Subfield) {
    IsLowerAscii(f.code) && '$' !in f.text
  }

  function EncodeSubfields(fs: seq<Subfield>): string
    decreases |fs|
  {
    if fs == [] then "" else "$" + [fs[0].code] + fs[0].text + EncodeSubfields(fs[1..])
  }

  function SubfieldTexts(fs: seq<Subfield>): string
    decreases |fs|
  {
    if fs == [] then "" else fs[0].text + SubfieldTexts(fs[1..])
  }

  /** Text without `$` passes through the marker scanner unchanged, whatever follows it. */
  lemma {:induction false} RemoveMarkersSkipsPlainText(t: string, u: string)
    requires '$' !in t
    ensures RemoveSubfieldMarkers(t + u) == t + RemoveSubfieldMarkers(u)
    decreases |t|
  {
    if t != [] {
      var v := t + u;
      assert t == [t[0]] + t[1..];
      assert v[0] == t[0] && v[1..] == t[1..] + u;
      assert RemoveSubfieldMarkers(v) == [t[0]] + RemoveSubfieldMarkers(t[1..] + u);
      RemoveMarkersSkipsPlainText(t[1..], u);
    } else {
      assert t + u == u;
    }
  }

  /** Deleting the markers of an encoded field leaves its subfield texts run together,
      with nothing inserted at the subfield boundaries. */
  lemma {:induction false} RemoveMarkersOfEncoded(fs: seq<Subfield>)
    requires forall i :: 0 <= i < |fs| ==> PlainSubfield(fs[i])
    ensures RemoveSubfieldMarkers(EncodeSubfields(fs)) == SubfieldTexts(fs)
    decreases |fs|
  {
    if fs != [] {
      var f := fs[0];
      var tail := EncodeSubfields(fs[1..]);
      var s := EncodeSubfields(fs);
      assert s == "$" + [f.code] + (f.text + tail);
      assert s[2..] == f.text + tail;
      RemoveMarkersSkipsPlainText(f.text, tail);
      RemoveMarkersOfEncoded(fs[1..]);
    }
  }

  /** The pattern `[\n ](,|:)([A-Za-z0-9])` starting at index `i`. */
  predicate SpacedSeparatorAt(s: string, i: int) {
    0 <= i && i + 3 <= |s|
    && (s[i] == ' ' || s[i] == '\n')
    && (s[i + 1] == ',' || s[i + 1] == ':')
    && IsAsciiAlnum(s[i + 2])
  }

  /** `re.sub(r"[\n ](,|:)([A-Za-z0-9])", r"\1 \2", s)`: a separator written after
      a space or newline and glued to the next word is moved to "separator space word". */
  function FixSeparatorSpacing(s: string): (r: string)
    ensures |r| == |s|
    ensures s != [] && !SpacedSeparatorAt(s, 0) ==> r[0] == s[0]
    ensures SpacedSeparatorAt(s, 0) ==> r[0] == s[1] && r[1] == ' ' && r[2] == s[2]
    ensures |s| >= 2 && !SpacedSeparatorAt(s, 0) && !SpacedSeparatorAt(s, 1) ==> r[1] == s[1]
    ensures |s| >= 2 && !SpacedSeparatorAt(s, 0) && SpacedSeparatorAt(s, 1) ==> r[1] == s[2]
    decreases |s|
  {
    if SpacedSeparatorAt(s, 0) then [s[1], ' ', s[2]] + FixSeparatorSpacing(s[3..])
    else if s == [] then []
    else [s[0]] + FixSeparatorSpacing(s[1..])
  }

  /** After the rewrite no separator is left glued to a following word. */
  lemma {:induction false} FixSeparatorSpacingLeavesNone(s: string)
    ensures forall i :: !SpacedSeparatorAt(FixSeparatorSpacing(s), i)
    decreases |s|
  {
    var r := FixSeparatorSpacing(s);
    if SpacedSeparatorAt(s, 0) {
      var rest := FixSeparatorSpacing(s[3..]);
      FixSeparatorSpacingLeavesNone(s[3..]);
      assert r == [s[1], ' ', s[2]] + rest;
      forall i | 0 <= i
        ensures !SpacedSeparatorAt(r, i)
      {
        if i >= 3 {
          assert !SpacedSeparatorAt(rest, i - 3);
        }
      }
    } else if s != [] {
      var t := s[1..];
      var rest := FixSeparatorSpacing(t);
      FixSeparatorSpacingLeavesNone(t);
      assert r == [s[0]] + rest;
      forall i | 0 <= i
        ensures !SpacedSeparatorAt(r, i)
      {
        if i >= 1 {
          assert !SpacedSeparatorAt(rest, i - 1);
        }
      }
    }
  }

  /** Text with no glued separator is left as it is. */
  lemma {:induction false} FixSeparatorSpacingFixesClean(s: string)
    requires forall i :: !SpacedSeparatorAt(s, i)
    ensures FixSeparatorSpacing(s) == s
    decreases |s|
  {
    if s != [] {
      assert forall i :: !SpacedSeparatorAt(s[1..], i) by {
        forall i
          ensures !SpacedSeparatorAt(s[1..], i)
        {
          assert !SpacedSeparatorAt(s, i + 1);
        }
      }
      FixSeparatorSpacingFixesClean(s[1..]);
    }
  }

  /** `strip_marc_subfields`: "" for empty input, otherwise markers deleted,
      glued separators spaced, and the result trimmed. */
  function StripMarcSubfields(s: string): (r: string)
    ensures |r| <= |s|
    ensures r == [] || (!IsSpace(r[0]) && !IsSpace(r[|r| - 1]))
  {
    if s == "" then "" else Strip(FixSeparatorSpacing(RemoveSubfieldMarkers(s)))
  }

  /** A field made of plain subfields whose texts run together without glued
      separators or surrounding whitespace comes out as the bare texts, joined
      with no space in between. */
  lemma StripMarcOfEncoded(fs: seq<Subfield>)
    requires forall i :: 0 <= i < |fs| ==> PlainSubfield(fs[i])
    requires forall i :: !SpacedSeparatorAt(SubfieldTexts(fs), i)
    requires var t := SubfieldTexts(fs); t != [] && !IsSpace(t[0]) && !IsSpace(t[|t| - 1])
    ensures StripMarcSubfields(EncodeSubfields(fs)) == SubfieldTexts(fs)
  {
    RemoveMarkersOfEncoded(fs);
    FixSeparatorSpacingFixesClean(SubfieldTexts(fs));
  }

  /** The worked example: `$aSmith$bJohn` becomes `SmithJohn`. */
  /** Text without spaces or newlines has no separator to fix. */
  lemma NoSpaceNoSeparator(t: string)
    requires ' ' !in t && '\n' !in t
    ensures forall i :: !SpacedSeparatorAt(t, i)
  {
    forall i
      ensures !SpacedSeparatorAt(t, i)
    {
      if 0 <= i && i + 3 <= |t| {
        assert t[i] in t;
      }
    }
  }

  /** The subfields of `$aSmith$bJohn`. */
  lemma SmithJohn() returns (fs: seq<Subfield>)
    ensures forall i :: 0 <= i < |fs| ==> PlainSubfield(fs[i])
    ensures EncodeSubfields(fs) == "$aSmith$bJohn"
    ensures SubfieldTexts(fs) == "SmithJohn"
  {
    fs := [Subfield('a', "Smith"), Subfield('b', "John")];
    assert fs[1..] == [Subfield('b', "John")];
    assert EncodeSubfields(fs[1..]) == "$bJohn";
    assert SubfieldTexts(fs[1..]) == "John";
  }

  lemma StripMarcExample()
    ensures StripMarcSubfields("$aSmith$bJohn") == "SmithJohn"
  {
    var fs := SmithJohn();
    NoSpaceNoSeparator("SmithJohn");
    StripMarcOfEncoded(fs);
  }

  // ---------------------------------------------------------------------------
  // normalize_text
  // ---------------------------------------------------------------------------

  const CurlySingle: set<char> := {'\U{2018}', '\U{2019}'}
  const CurlyDouble: set<char> := {'\U{201C}', '\U{201D}'}

  predicate IsCurly(c: char) {
    c in CurlySingle || c in CurlyDouble
  }

  predicate NoCurly(s: string) {
    Avoids(s, CurlySingle + CurlyDouble)
  }

  function StraightenChar(c: char): char {
    if c in CurlySingle then '\'' else if c in CurlyDouble then '"' else c
  }

  /** The two curly-quote substitutions. */
  function StraightenQuotes(s: string): (r: string)
    ensures |r| == |s| && NoCurly(r)
    ensures forall i :: 0 <= i < |s| ==>
      && (s[i] in CurlySingle ==> r[i] == '\'')
      && (s[i] in CurlyDouble ==> r[i] == '"')
      && (!IsCurly(s[i]) ==> r[i] == s[i])
  {
    seq(|s|, i requires 0 <= i < |s| => StraightenChar(s[i]))
  }

  /** Text without curly quotes is left as it is, so straightening twice is
      straightening once. */
  lemma StraightenQuotesFixesStraight(s: string)
    ensures NoCurly(s) ==> StraightenQuotes(s) == s
    ensures StraightenQuotes(StraightenQuotes(s)) == StraightenQuotes(s)
  {
    var r := StraightenQuotes(s);
    assert forall i :: 0 <= i < |r| ==> !IsCurly(r[i]);
  }

  predicate IsTitleSeparator(c: char) {
    c == ';' || c == ':'
  }

  /** Every colon is followed by one space and then by the end of the text or a non-space. */
  predicate ColonsSpaced(r: string) {
    forall i :: 0 <= i < |r| && r[i] == ':' ==>
      i + 1 < |r| && r[i + 1] == ' ' && (i + 2 == |r| || !IsSpace(r[i + 2]))
  }

  predicate AllSpace(s: string) {
    forall i :: 0 <= i < |s| ==> IsSpace(s[i])
  }

  /** `re.sub(r"\s*[;:]\s*", ": ", s)`: each separator, with all the whitespace
      around it, becomes a colon and one space. */
  function SplitTitleSeparators(s: string): (r: string)
    ensures ColonsSpaced(r)
  {
    SeparatorScanColonsSpaced(s, "", false);
    SeparatorScan(s, "", false)
  }

  /** The scanner behind `SplitTitleSeparators`. `pending` holds the whitespace
      read since the last character written, which a following separator
      swallows; `afterSep` says a separator was just written, so whitespace is
      being skipped. */
  function SeparatorScan(s: string, pending: string, afterSep: bool): (r: string)
    requires AllSpace(pending)
    requires afterSep ==> pending == []
    ensures afterSep ==> r == [] || !IsSpace(r[0])
    decreases |s|
  {
    if s == [] then pending
    else
      var c := s[0];
      if IsSpace(c) then
        if afterSep then SeparatorScan(s[1..], [], true)
        else SeparatorScan(s[1..], pending + [c], false)
      else if IsTitleSeparator(c) then ": " + SeparatorScan(s[1..], [], true)
      else pending + [c] + SeparatorScan(s[1..], [], false)
  }

  /** Every colon the scanner writes is followed by exactly one space. */
  lemma {:induction false} SeparatorScanColonsSpaced(s: string, pending: string, afterSep: bool)
    requires AllSpace(pending)
    requires afterSep ==> pending == []
    ensures ColonsSpaced(SeparatorScan(s, pending, afterSep))
    decreases |s|
  {
    if s == [] {
      assert forall i :: 0 <= i < |pending| ==> pending[i] != ':';
    } else {
      var c := s[0];
      var t := s[1..];
      if IsSpace(c) {
        if afterSep {
          SeparatorScanColonsSpaced(t, [], true);
        } else {
          assert AllSpace(pending + [c]);
          SeparatorScanColonsSpaced(t, pending + [c], false);
        }
      } else if IsTitleSeparator(c) {
        SeparatorScanColonsSpaced(t, [], true);
        ColonsSpacedAfterSeparator(SeparatorScan(t, [], true));
      } else {
        SeparatorScanColonsSpaced(t, [], false);
        ColonsSpacedAfterWord(pending, c, SeparatorScan(t, [], false));
      }
    }
  }

  lemma ColonsSpacedAfterSeparator(rest: string)
    requires ColonsSpaced(rest) && (rest == [] || !IsSpace(rest[0]))
    ensures ColonsSpaced(": " + rest)
  {
    var r := ": " + rest;
    forall i | 0 <= i < |r| && r[i] == ':'
      ensures i + 1 < |r| && r[i + 1] == ' ' && (i + 2 == |r| || !IsSpace(r[i + 2]))
    {
      if i >= 2 {
        assert r[i] == rest[i - 2];
      }
    }
  }

  lemma ColonsSpacedAfterWord(pending: string, c: char, rest: string)
    requires AllSpace(pending) && c != ':' && ColonsSpaced(rest)
    ensures ColonsSpaced(pending + [c] + rest)
  {
    var r := pending + [c] + rest;
    var n := |pending| + 1;
    forall i | 0 <= i < |r| && r[i] == ':'
      ensures i + 1 < |r| && r[i + 1] == ' ' && (i + 2 == |r| || !IsSpace(r[i + 2]))
    {
      if i >= |pending| {
        assert r[i] == rest[i - n];
        assert i + 1 < |r| ==> r[i + 1] == rest[i + 1 - n];
        assert i + 2 < |r| ==> r[i + 2] == rest[i + 2 - n];
      }
    }
  }

  /** No `;` survives the rewrite, and no curly quote is brought in. */
  lemma SplitTitleSeparatorsClean(s: string)
    ensures ';' !in SplitTitleSeparators(s)
    ensures NoCurly(s) ==> NoCurly(SplitTitleSeparators(s))
  {
    SeparatorScanAvoids(s, "", false, {';'});
    if NoCurly(s) {
      SeparatorScanAvoids(s, "", false, CurlySingle + CurlyDouble);
    }
  }

  /** The scanner writes only colons, spaces and the characters of its input
      other than separators, so it avoids any set of characters, holding no colon
      or whitespace, that its input avoids apart from `;`. */
  lemma {:induction false} SeparatorScanAvoids(s: string, pending: string, afterSep: bool, cs: set<char>)
    requires AllSpace(pending)
    requires afterSep ==> pending == []
    requires ':' !in cs && ' ' !in cs && forall c :: c in cs ==> !IsSpace(c)
    requires Avoids(s, cs - {';'})
    ensures Avoids(SeparatorScan(s, pending, afterSep), cs)
    decreases |s|
  {
    if s == [] {
      assert Avoids(pending, cs);
    } else {
      var c := s[0];
      var t := s[1..];
      assert Avoids(t, cs - {';'}) && c !in cs - {';'};
      if IsSpace(c) {
        var p := if afterSep then [] else pending + [c];
        SeparatorScanAvoids(t, p, afterSep, cs);
      } else if IsTitleSeparator(c) {
        SeparatorScanAvoids(t, [], true, cs);
        AvoidsConcat(": ", SeparatorScan(t, [], true), cs);
      } else {
        SeparatorScanAvoids(t, [], false, cs);
        assert Avoids(pending, cs);
        AvoidsConcat(pending, [c], cs);
        AvoidsConcat(pending + [c], SeparatorScan(t, [], false), cs);
      }
    }
  }

  /** No `;` or `:` in the text. */
  predicate NoSeparator(s: string) {
    forall i :: 0 <= i < |s| ==> !IsTitleSeparator(s[i])
  }

  /** Text without separators is not touched by the rewrite. */
  lemma SplitTitleSeparatorsFixesPlain(s: string)
    requires NoSeparator(s)
    ensures SplitTitleSeparators(s) == s
  {
    SeparatorScanFixesPlain(s, "");
  }

  lemma {:induction false} SeparatorScanFixesPlain(s: string, pending: string)
    requires NoSeparator(s) && AllSpace(pending)
    ensures SeparatorScan(s, pending, false) == pending + s
    decreases |s|
  {
    if s != [] {
      var c := s[0];
      assert NoSeparator(s[1..]);
      if IsSpace(c) {
        SeparatorScanFixesPlain(s[1..], pending + [c]);
        assert pending + [c] + s[1..] == pending + s;
      } else {
        SeparatorScanFixesPlain(s[1..], []);
        assert pending + [c] + ([] + s[1..]) == pending + s;
      }
    }
  }

  /** A separator with the whitespace on both sides of it becomes exactly ": ",
      the text before it is kept, and the text after it is rewritten on its own. */
  lemma SplitTitleSeparatorsAtSeparator(x: string, w1: string, c: char, w2: string, y: string)
    requires NoSeparator(x) && (x == [] || !IsSpace(x[|x| - 1]))
    requires AllSpace(w1) && AllSpace(w2) && IsTitleSeparator(c)
    requires y == [] || !IsSpace(y[0])
    ensures SplitTitleSeparators(x + w1 + [c] + w2 + y) == x + ": " + SplitTitleSeparators(y)
  {
    var t := w1 + ([c] + (w2 + y));
    var rest := SeparatorScan(y, [], false);
    assert x + w1 + [c] + w2 + y == x + t;
    ScanAfterPlain(x, t);
    SeparatorRun(w1, c, w2, y);
    assert x + (": " + rest) == x + ": " + rest;
  }

  /** The whitespace before a separator goes too: "a ;b" becomes "a: b". */
  lemma SplitTitleSeparatorsExample()
    ensures SplitTitleSeparators("a ;b") == "a: b"
  {
    SplitTitleSeparatorsAtSeparator("a", " ", ';', "", "b");
    assert "a" + " " + [';'] + "" + "b" == "a ;b";
    SplitTitleSeparatorsFixesPlain("b");
    assert "a" + ": " + "b" == "a: b";
  }

  /** A separator with whitespace around it, seen while nothing is pending. */
  lemma SeparatorRun(w1: string, c: char, w2: string, y: string)
    requires AllSpace(w1) && AllSpace(w2) && IsTitleSeparator(c)
    requires y == [] || !IsSpace(y[0])
    ensures SeparatorScan(w1 + ([c] + (w2 + y)), [], false) == ": " + SeparatorScan(y, [], false)
  {
    var u := w2 + y;
    ScanThroughSpace(w1, [c] + u, []);
    assert [] + w1 == w1;
    ScanSeparatorStep(c, u, w1);
    SkipAfterSeparator(w2, y);
    AfterSeparatorSameAsFresh(y);
  }

  /** Text without separators that does not end in whitespace is written out as it is. */
  lemma ScanAfterPlain(x: string, t: string)
    requires NoSeparator(x) && (x == [] || !IsSpace(x[|x| - 1]))
    ensures SeparatorScan(x + t, [], false) == x + SeparatorScan(t, [], false)
  {
    if x == [] {
      assert x + t == t;
    } else {
      ScanThroughWord(x, t, []);
      assert [] + x == x;
    }
  }

  /** One step of the scanner on a separator. */
  lemma ScanSeparatorStep(c: char, u: string, pending: string)
    requires IsTitleSeparator(c) && AllSpace(pending)
    ensures SeparatorScan([c] + u, pending, false) == ": " + SeparatorScan(u, [], true)
  {
    assert ([c] + u)[0] == c && ([c] + u)[1..] == u;
  }

  /** One step of the scanner on whitespace while no separator is pending. */
  lemma ScanSpaceStep(c: char, u: string, pending: string)
    requires IsSpace(c) && AllSpace(pending)
    ensures AllSpace(pending + [c])
    ensures SeparatorScan([c] + u, pending, false) == SeparatorScan(u, pending + [c], false)
  {
    assert ([c] + u)[0] == c && ([c] + u)[1..] == u;
  }

  /** One step of the scanner on any other character. */
  lemma ScanWordStep(c: char, u: string, pending: string)
    requires !IsSpace(c) && !IsTitleSeparator(c) && AllSpace(pending)
    ensures SeparatorScan([c] + u, pending, false) == pending + [c] + SeparatorScan(u, [], false)
  {
    assert ([c] + u)[0] == c && ([c] + u)[1..] == u;
  }

  /** Text without separators that ends in a non-space is written out as it is,
      whitespace included, before the scan goes on. */
  lemma {:induction false} ScanThroughWord(x: string, t: string, pending: string)
    requires NoSeparator(x) && AllSpace(pending)
    requires x != [] && !IsSpace(x[|x| - 1])
    ensures SeparatorScan(x + t, pending, false) == pending + x + SeparatorScan(t, [], false)
    decreases |x|
  {
    var c := x[0];
    var rest := x[1..];
    var tail := SeparatorScan(t, [], false);
    assert x == [c] + rest;
    assert NoSeparator(rest) && !IsTitleSeparator(c);
    if IsSpace(c) {
      assert rest != [] && rest[|rest| - 1] == x[|x| - 1];
      assert AllSpace(pending + [c]);
      ScanThroughWord(rest, t, pending + [c]);
      SpaceHead(c, rest, t, pending, tail);
    } else if rest == [] {
      WordHead(c, rest, t, pending, tail);
    } else {
      assert rest[|rest| - 1] == x[|x| - 1];
      ScanThroughWord(rest, t, []);
      WordHead(c, rest, t, pending, tail);
    }
  }

  /** The step of `ScanThroughWord` for leading whitespace. */
  lemma SpaceHead(c: char, rest: string, t: string, pending: string, tail: string)
    requires IsSpace(c) && AllSpace(pending)
    requires SeparatorScan(rest + t, pending + [c], false) == pending + [c] + rest + tail
    ensures SeparatorScan([c] + rest + t, pending, false) == pending + ([c] + rest) + tail
  {
    var u := rest + t;
    assert [c] + rest + t == [c] + u;
    ScanSpaceStep(c, u, pending);
    assert pending + [c] + rest == pending + ([c] + rest);
  }

  /** The step of `ScanThroughWord` for a leading character that is neither
      whitespace nor a separator. */
  lemma WordHead(c: char, rest: string, t: string, pending: string, tail: string)
    requires !IsSpace(c) && !IsTitleSeparator(c) && AllSpace(pending)
    requires tail == SeparatorScan(t, [], false)
    requires rest != [] ==> SeparatorScan(rest + t, [], false) == [] + rest + tail
    ensures SeparatorScan([c] + rest + t, pending, false) == pending + ([c] + rest) + tail
  {
    var u := rest + t;
    assert [c] + rest + t == [c] + u;
    ScanWordStep(c, u, pending);
    if rest == [] {
      assert u == t;
    } else {
      assert [] + rest + tail == rest + tail;
    }
    assert pending + [c] + (rest + tail) == pending + ([c] + rest) + tail;
  }

  /** Whitespace is held back as pending while no separator has been seen. */
  lemma {:induction false} ScanThroughSpace(w: string, t: string, pending: string)
    requires AllSpace(w) && AllSpace(pending)
    ensures SeparatorScan(w + t, pending, false) == SeparatorScan(t, pending + w, false)
    decreases |w|
  {
    if w == [] {
      assert w + t == t && pending + w == pending;
    } else {
      assert (w + t)[0] == w[0] && (w + t)[1..] == w[1..] + t;
      assert AllSpace(pending + [w[0]]);
      ScanThroughSpace(w[1..], t, pending + [w[0]]);
      assert pending + [w[0]] + w[1..] == pending + w;
    }
  }

  /** Whitespace right after a separator is dropped. */
  lemma {:induction false} SkipAfterSeparator(w: string, t: string)
    requires AllSpace(w)
    ensures SeparatorScan(w + t, [], true) == SeparatorScan(t, [], true)
    decreases |w|
  {
    if w == [] {
      assert w + t == t;
    } else {
      assert (w + t)[0] == w[0] && (w + t)[1..] == w[1..] + t;
      SkipAfterSeparator(w[1..], t);
    }
  }

  /** Once the skipped whitespace has ended, the scan goes on as if from the start. */
  lemma AfterSeparatorSameAsFresh(y: string)
    requires y == [] || !IsSpace(y[0])
    ensures SeparatorScan(y, [], true) == SeparatorScan(y, [], false)
  {
  }

  const ColonSpace: set<char> := {':', ' '}

  /** Once the trailing colons and spaces of a text with spaced colons are gone,
      trimming the whitespace at both ends cannot expose a colon at the end. */
  lemma StripExposesNoColon(x: string, y: string)
    requires ColonsSpaced(x)
    requires |y| <= |x| && y == x[..|y|]
    requires y == [] || y[|y| - 1] !in ColonSpace
    ensures var z := Strip(y); z == [] || z[|z| - 1] != ':'
  {
    var z := Strip(y);
    var a := StripSlice(y);
    var e := a + |z|;
    if z != [] {
      assert z[|z| - 1] == y[e - 1] == x[e - 1];
      if e < |y| {
        assert IsSpace(y[e]) && y[e] == x[e];
        if e + 1 == |y| {
          assert x[e] != ' ';
        } else {
          assert IsSpace(y[e + 1]) && y[e + 1] == x[e + 1];
        }
      }
    }
  }

  /** `normalize_text`: "" for empty input; curly quotes straightened, each
      `;`/`:` with its surrounding whitespace replaced by ": ", trailing colons
      and spaces dropped, and the result trimmed. */
  function NormalizeText(s: string): (r: string)
    ensures r == [] || (!IsSpace(r[0]) && !IsSpace(r[|r| - 1]))
  {
    if s == "" then "" else Strip(TrimEnd(SplitTitleSeparators(StraightenQuotes(s)), ColonSpace))
  }

  /** The characters normalised text never contains. */
  const Normalised: set<char> := CurlySingle + CurlyDouble + {';'}

  /** What normalisation guarantees: no `;`, no curly quote, no colon at the end. */
  lemma NormalizeTextClean(s: string)
    ensures var r := NormalizeText(s);
      ';' !in r && NoCurly(r) && (r == [] || r[|r| - 1] != ':')
  {
    if s != "" {
      var x := SplitTitleSeparators(StraightenQuotes(s));
      var y := TrimEnd(x, ColonSpace);
      SplitTitleSeparatorsClean(StraightenQuotes(s));
      StripExposesNoColon(x, y);
      assert Avoids(y, Normalised) by {
        forall i | 0 <= i < |y|
          ensures y[i] !in Normalised
        {
          assert y[i] == x[i] && x[i] in x;
        }
      }
      StripAvoids(y, Normalised);
      var r := Strip(y);
      assert forall i :: 0 <= i < |r| ==> r[i] != ';' && r[i] !in CurlySingle + CurlyDouble;
    }
  }

  /** Text that is already clean (no separators, no curly quotes, no surrounding
      whitespace) is returned unchanged. */
  lemma NormalizeTextFixesClean(s: string)
    requires NoSeparator(s) && NoCurly(s)
    requires s == [] || (!IsSpace(s[0]) && !IsSpace(s[|s| - 1]))
    ensures NormalizeText(s) == s
  {
    if s != [] {
      assert StraightenQuotes(s) == s;
      SplitTitleSeparatorsFixesPlain(s);
      assert !IsTitleSeparator(s[|s| - 1]);
      assert TrimEnd(s, ColonSpace) == s;
    }
  }

  // ---------------------------------------------------------------------------
  // strip_updated
  // ---------------------------------------------------------------------------

  /** Length of a `[Uu]pdated?:` marker at the start of `s`, or 0 when there is none. */
  function MarkerLength(s: string): (n: nat)
    ensures n == 0 || n == 7 || n == 8
    ensures n > 0 ==> n <= |s| && s[n - 1] == ':' && (s[0] == 'U' || s[0] == 'u')
  {
    if |s| >= 7 && (s[0] == 'U' || s[0] == 'u') && s[1..6] == "pdate" then
      if |s| >= 8 && s[6] == 'd' && s[7] == ':' then 8
      else if s[6] == ':' then 7
      else 0
    else 0
  }

  function DropFinalNewline(s: string): string {
    if s != [] && s[|s| - 1] == '\n' then s[..|s| - 1] else s
  }

  /** Whether `\s*.*$` can match the whole of `rest` (up to an optional final
      newline): `.` stops at newlines and `$` matches at the end or just before
      a final newline, so no newline may follow the leading whitespace. */
  predicate TailMatches(rest: string) {
    '\n' !in TrimStart(DropFinalNewline(rest), Whitespace)
  }

  /** The whole pattern `[Uu]pdated?:\s*.*$` matches from index `j`. */
  predicate UpdatedMatchAt(s: string, j: nat) {
    j <= |s| && MarkerLength(s[j..]) > 0 && TailMatches(s[j + MarkerLength(s[j..])..])
  }

  /** The first index at or after `j` holding `true`. */
  function FirstTrue(bs: seq<bool>, j: nat): (r: Option<nat>)
    requires j <= |bs|
    ensures r.Some? ==> j <= r.value < |bs| && bs[r.value]
    ensures r.Some? ==> forall k :: j <= k < r.value ==> !bs[k]
    ensures r.None? ==> forall k :: j <= k < |bs| ==> !bs[k]
    decreases |bs| - j
  {
    if j == |bs| then None
    else if bs[j] then Some(j)
    else FirstTrue(bs, j + 1)
  }

  /** Which indices of `s` the pattern matches from. */
  function UpdatedMatches(s: string): (bs: seq<bool>)
    ensures |bs| == |s|
    ensures forall k :: 0 <= k < |s| ==> bs[k] == UpdatedMatchAt(s, k)
  {
    seq(|s|, k requires 0 <= k < |s| => UpdatedMatchAt(s, k))
  }

  /** The first index from which the pattern matches. */
  function FirstUpdatedMatch(s: string): (r: Option<nat>)
    ensures r.Some? ==> r.value < |s| && UpdatedMatchAt(s, r.value)
    ensures r.Some? ==> forall k :: 0 <= k < r.value ==> !UpdatedMatchAt(s, k)
    ensures r.None? ==> forall k :: 0 <= k < |s| ==> !UpdatedMatchAt(s, k)
  {
    FirstTrue(UpdatedMatches(s), 0)
  }

  /** Where the run of whitespace ending at `j` begins (the leading `\s*`). */
  function SpaceRunStart(s: string, j: nat): (i: nat)
    requires j <= |s|
    ensures i <= j
    ensures forall k :: i <= k < j ==> IsSpace(s[k])
    ensures i == 0 || !IsSpace(s[i - 1])
  {
    if j > 0 && IsSpace(s[j - 1]) then SpaceRunStart(s, j - 1) else j
  }

  /** `re.sub(r"\s*[Uu]pdated?:\s*.*$", "", s)`.  The leftmost match starts at
      the whitespace run before the first marker whose tail matches, and runs to
      the end of the text or to just before a final newline, which is kept. */
  function RemoveUpdated(s: string): (t: string)
    ensures |t| <= |s|
    ensures FirstUpdatedMatch(s).None? ==> t == s
  {
    var m := FirstUpdatedMatch(s);
    if m.None? then s
    else
      var j := m.value;
      assert MarkerLength(s[j..]) > 0 by {
        assert UpdatedMatchAt(s, j);
      }
      CutUpdated(s, j)
  }

  /** With a match, the text is cut before the whitespace run ahead of the first
      marker, keeping at most a final newline. */
  lemma RemoveUpdatedCut(s: string, j: nat)
    requires FirstUpdatedMatch(s) == Some(j)
    ensures j < |s| && MarkerLength(s[j..]) > 0
    ensures var i := SpaceRunStart(s, j);
      RemoveUpdated(s) == s[..i] || RemoveUpdated(s) == s[..i] + "\n"
  {
    assert UpdatedMatchAt(s, j);
    assert RemoveUpdated(s) == CutUpdated(s, j);
  }

  /** What `re.sub` leaves of `s` when the match covers the marker at `j`: the text
      before the whitespace run, and the final newline when the tail keeps one. */
  function CutUpdated(s: string, j: nat): (t: string)
    requires j < |s| && MarkerLength(s[j..]) > 0
    ensures t == s[..SpaceRunStart(s, j)] || t == s[..SpaceRunStart(s, j)] + "\n"
    ensures |t| <= |s|
  {
    var rest := s[j + MarkerLength(s[j..])..];
    var keepsNewline := rest != [] && rest[|rest| - 1] == '\n' && TrimStart(rest, Whitespace) != [];
    var cut := s[..SpaceRunStart(s, j)];
    if keepsNewline then cut + "\n" else cut
  }

  /** `strip_updated`: "" for empty input, otherwise the credit text with its
      "Updated:" tail removed, trimmed. */
  function StripUpdated(s: string): (r: string)
    ensures |r| <= |s|
    ensures r == [] || (!IsSpace(r[0]) && !IsSpace(r[|r| - 1]))
  {
    if s == "" then "" else Strip(RemoveUpdated(s))
  }

  /** Stripping ignores a run of whitespace at the end. */
  lemma {:induction false} StripDropsTrailingSpaces(s: string, i: nat, j: nat)
    requires i <= j <= |s|
    requires forall k :: i <= k < j ==> IsSpace(s[k])
    ensures Strip(s[..j]) == Strip(s[..i])
    decreases j - i
  {
    if i < j {
      assert s[..j] == s[..j - 1] + [s[j - 1]];
      StripAppendSpace(s[..j - 1], s[j - 1]);
      assert s[..j - 1] == s[..j - 1];
      StripDropsTrailingSpaces(s, i, j - 1);
    }
  }

  /** The text is cut just before the first matching marker: neither the
      whitespace before it nor the newline the match may leave changes the
      trimmed result. */
  lemma StripUpdatedCut(s: string)
    ensures FirstUpdatedMatch(s).None? ==> StripUpdated(s) == Strip(s)
    ensures FirstUpdatedMatch(s).Some? ==> StripUpdated(s) == Strip(s[..FirstUpdatedMatch(s).value])
  {
    if s != "" && FirstUpdatedMatch(s).Some? {
      var j := FirstUpdatedMatch(s).value;
      var i := SpaceRunStart(s, j);
      RemoveUpdatedCut(s, j);
      RemovedTail(s, j);
      StripDropsTrailingSpaces(s, i, j);
    }
  }

  /** What the match leaves is the text before the whitespace run, perhaps with a
      newline, which trimming drops. */
  lemma RemovedTail(s: string, j: nat)
    requires j < |s| && MarkerLength(s[j..]) > 0
    ensures Strip(CutUpdated(s, j)) == Strip(s[..SpaceRunStart(s, j)])
  {
    StripAppendSpace(s[..SpaceRunStart(s, j)], '\n');
  }

  /** A `[Uu]pdated?:` marker starts at index `j`. */
  predicate MarkerAt(s: string, j: nat) {
    j <= |s| && MarkerLength(s[j..]) > 0
  }

  /** On single-line text, the first marker, the whitespace before it and
      everything after it are removed, then the rest is trimmed. */
  lemma StripUpdatedSingleLine(s: string, j: nat)
    requires '\n' !in s
    requires j < |s| && MarkerAt(s, j)
    requires forall k :: 0 <= k < j ==> !MarkerAt(s, k)
    ensures StripUpdated(s) == Strip(s[..j])
  {
    SingleLineMatch(s, j);
    forall k | 0 <= k < j
      ensures !UpdatedMatchAt(s, k)
    {
      assert !MarkerAt(s, k);
    }
    FirstMatchIs(s, j);
    StripUpdatedCut(s);
  }

  /** A match with none before it is the first match. */
  lemma FirstMatchIs(s: string, j: nat)
    requires j < |s| && UpdatedMatchAt(s, j)
    requires forall k :: 0 <= k < j ==> !UpdatedMatchAt(s, k)
    ensures FirstUpdatedMatch(s) == Some(j)
  {
    FirstTrueIs(UpdatedMatches(s), j);
  }

  lemma FirstTrueIs(bs: seq<bool>, j: nat)
    requires j < |bs| && bs[j]
    requires forall k :: 0 <= k < j ==> !bs[k]
    ensures FirstTrue(bs, 0) == Some(j)
  {
    var r := FirstTrue(bs, 0);
    assert bs[j];
  }

  /** On single-line text every marker starts a match of the whole pattern. */
  lemma SingleLineMatch(s: string, j: nat)
    requires '\n' !in s
    requires j < |s| && MarkerAt(s, j)
    ensures UpdatedMatchAt(s, j)
  {
    var rest := s[j + MarkerLength(s[j..])..];
    assert '\n' !in rest by {
      forall k | 0 <= k < |rest|
        ensures rest[k] != '\n'
      {
        assert rest[k] == s[j + MarkerLength(s[j..]) + k];
      }
    }
    assert DropFinalNewline(rest) == rest;
    var w := TrimStart(rest, Whitespace);
    assert '\n' !in w by {
      forall k | 0 <= k < |w|
        ensures w[k] != '\n'
      {
        assert w[k] == rest[|rest| - |w| + k];
      }
    }
  }

  /** On text without a marker, only trimming happens. */
  lemma StripUpdatedNoMarker(s: string)
    requires forall k :: 0 <= k < |s| ==> !MarkerAt(s, k)
    ensures StripUpdated(s) == Strip(s)
  {
    forall k | 0 <= k < |s|
      ensures !UpdatedMatchAt(s, k)
    {
      assert !MarkerAt(s, k);
    }
    StripUpdatedCut(s);
  }

  /** Only the first letter of the marker is case-flexible: an upper-case
      "UPDATED:" is not a marker. */
  lemma UpperCaseMarkerIgnored()
    ensures MarkerLength("UPDATED: 2020") == 0
  {
    assert "UPDATED: 2020"[1..6] == "PDATE";
  }

  // ---------------------------------------------------------------------------
  // format_field / format_dict / format_list
  // ---------------------------------------------------------------------------

  /** `_FIELDS_TO_FORMAT`: the keys whose strings are treated as human text. */
  const FieldsToFormat: set<string> :=
    {"title", "name", "publisher", "summary", "credits", "reading_level",
     "subject", "subjects", "bookshelf", "bookshelves"}

  /** `format_field`: "" for empty input; MARC markers and separators cleaned in
      text fields; the "Updated:" tail cut from credits; always trimmed. */
  function FormatField(key: string, value: string): (r: string)
    ensures value == "" ==> r == ""
    ensures r == [] || (!IsSpace(r[0]) && !IsSpace(r[|r| - 1]))
    ensures key !in FieldsToFormat ==> r == Strip(value)
  {
    if value == "" then ""
    else if key !in FieldsToFormat then Strip(value)
    else if key == "credits" then StripUpdated(NormalizeText(StripMarcSubfields(value)))
    else NormalizeText(StripMarcSubfields(value))
  }

  /** A formatted text field other than credits carries no `;`, no curly quote
      and no trailing colon. */
  lemma FormatFieldClean(key: string, value: string)
    requires key in FieldsToFormat && key != "credits"
    ensures var r := FormatField(key, value);
      ';' !in r && NoCurly(r) && (r == [] || r[|r| - 1] != ':')
  {
    NormalizeTextClean(StripMarcSubfields(value));
  }

  /** Credits with no "Updated:" marker are formatted like any other text field. */
  lemma FormatCreditsWithoutMarker(value: string)
    requires var v := NormalizeText(StripMarcSubfields(value));
      forall k :: 0 <= k < |v| ==> !MarkerAt(v, k)
    ensures FormatField("credits", value) == FormatField("title", value)
  {
    var v := NormalizeText(StripMarcSubfields(value));
    StripUpdatedNoMarker(v);
  }

  /** A string under a key outside the text fields is only trimmed. */
  lemma FormatPlainString(key: string, s: string)
    requires key !in FieldsToFormat
    ensures FormatValue(key, JStr(s)) == JStr(Strip(s))
  {
  }

  /** A nullable string under a key outside the text fields is only trimmed. */
  lemma FormatOptPlain(key: string, o: Option<string>)
    requires key !in FieldsToFormat
    ensures FormatValue(key, OptStr(o)) == (if o.Some? then JStr(Strip(o.value)) else JNull)
  {
    if o.Some? {
      FormatPlainString(key, o.value);
    }
  }

  /** A string is formatted under its own key. */
  lemma FormatString(key: string, s: string)
    ensures FormatValue(key, JStr(s)) == JStr(FormatField(key, s))
  {
  }

  /** A nullable integer passes through untouched. */
  lemma FormatOptInt(key: string, o: Option<int>)
    ensures FormatValue(key, OptInt(o)) == OptInt(o)
  {
  }

  /** A nullable string: `None` passes through, a string is formatted under `key`. */
  lemma FormatOptStr(key: string, o: Option<string>)
    ensures FormatValue(key, OptStr(o)) == (if o.Some? then JStr(FormatField(key, o.value)) else JNull)
  {
  }

  /** `format_dict`: every value formatted under its own key. */
  function FormatDict(es: seq<Entry>): (r: seq<Entry>)
    ensures Keys(r) == Keys(es)
    decreases JDict(es), 0
  {
    seq(|es|, i requires 0 <= i < |es| => Entry(es[i].key, FormatValue(es[i].key, es[i].val)))
  }

  /** `format_list`: every item formatted under the key of the list. */
  function FormatList(parent: string, items: seq<Value>): (r: seq<Value>)
    ensures |r| == |items|
    ensures forall i :: 0 <= i < |items| && items[i].JStr? ==> r[i] == JStr(FormatField(parent, items[i].s))
    decreases JList(items), 0
  {
    seq(|items|, i requires 0 <= i < |items| => FormatValue(parent, items[i]))
  }

  /** One value of `format_dict` or `format_list`: strings formatted under `key`,
      dicts and lists recursed into, anything else passed through. */
  function FormatValue(key: string, v: Value): Value
    decreases v, 1
  {
    match v
    case JStr(s) => JStr(FormatField(key, s))
    case JDict(es) => JDict(FormatDict(es))
    case JList(items) => JList(FormatList(key, items))
    case _ => v
  }

  /** Two values with the same structure: same dict keys in the same order, same
      list lengths, strings where strings were, and identical non-string scalars. */
  predicate SameShape(a: Value, b: Value)
    decreases a
  {
    match a
    case JStr(_) => b.JStr?
    case JList(xs) =>
      b.JList? && |b.items| == |xs|
      && forall i :: 0 <= i < |xs| ==> SameShape(xs[i], b.items[i])
    case JDict(es) =>
      b.JDict? && |b.entries| == |es|
      && forall i :: 0 <= i < |es| ==> es[i].key == b.entries[i].key && SameShape(es[i].val, b.entries[i].val)
    case _ => b == a
  }

  /** Formatting keeps the shape of any value: dict keys, list lengths, and every
      non-string scalar. */
  lemma {:induction false} FormatValueShape(key: string, v: Value)
    ensures SameShape(v, FormatValue(key, v))
    decreases v
  {
    match v
    case JDict(es) =>
      var r := FormatDict(es);
      forall i | 0 <= i < |es|
        ensures es[i].key == r[i].key && SameShape(es[i].val, r[i].val)
      {
        FormatValueShape(es[i].key, es[i].val);
      }
    case JList(items) =>
      var r := FormatList(key, items);
      forall i | 0 <= i < |items|
        ensures SameShape(items[i], r[i])
      {
        FormatValueShape(key, items[i]);
      }
    case _ =>
  }

  /** A list is formatted item by item under the list's own key. */
  lemma FormatListValue(key: string, items: seq<Value>)
    ensures FormatValue(key, JList(items)) == JList(FormatList(key, items))
  {
  }
}
