/** `html.escape(s, quote=True)` and the paragraph markup the OPDS crosswalk wraps a
    description in, with their inverses. */
module Html {
  import opened Wrappers
  import opened Text

  /** The characters `html.escape` rewrites. */
  const Special: set<char> := {'&', '<', '>', '"', '\''}

  function EscapeChar(c: char): (r: string)
    ensures c !in Special ==> r == [c]
    ensures |r| >= 1 && r[0] == (if c in Special then '&' else c)
  {
    if c == '&' then "&amp;"
    else if c == '<' then "&lt;"
    else if c == '>' then "&gt;"
    else if c == '"' then "&quot;"
    else if c == '\'' then "&#x27;"
    else [c]
  }

  /** `html.escape(s)`: every special character replaced by its entity. */
  function Escape(s: string): (r: string)
    ensures |r| >= |s|
    decreases |s|
  {
    if s == [] then "" else EscapeChar(s[0]) + Escape(s[1..])
  }

  /** The entity `s` starts with, as the character it stands for and its length. */
  function EntityAt(s: string): (r: Option<(char, nat)>)
    ensures r.Some? ==> 1 <= r.value.1 <= |s| && s[0] == '&'
  {
    if StartsWith(s, "&amp;") then Some(('&', 5))
    else if StartsWith(s, "&lt;") then Some(('<', 4))
    else if StartsWith(s, "&gt;") then Some(('>', 4))
    else if StartsWith(s, "&quot;") then Some(('"', 6))
    else if StartsWith(s, "&#x27;") then Some(('\'', 6))
    else None
  }

  /** Reads back the five entities `Escape` writes; any other text is kept. */
  function Unescape(s: string): string
    decreases |s|
  {
    if s == [] then ""
    else
      match EntityAt(s)
      case Some((c, n)) => [c] + Unescape(s[n..])
      case None => [s[0]] + Unescape(s[1..])
  }

  lemma EntityAtEscapeChar(c: char, rest: string)
    requires c in Special
    ensures EntityAt(EscapeChar(c) + rest) == Some((c, |EscapeChar(c)|))
  {
    var s := EscapeChar(c) + rest;
    assert s[..|EscapeChar(c)|] == EscapeChar(c);
    assert s[1] == EscapeChar(c)[1];
    if c == '<' || c == '>' {
      assert s[1] != 'a';
    } else if c == '"' || c == '\'' {
      assert s[1] != 'a' && s[1] != 'l' && s[1] != 'g';
      if c == '\'' {
        assert s[1] != 'q';
      }
    }
  }

  lemma UnescapeEscapeChar(c: char, rest: string)
    ensures Unescape(EscapeChar(c) + rest) == [c] + Unescape(rest)
  {
    var s := EscapeChar(c) + rest;
    if c in Special {
      EntityAtEscapeChar(c, rest);
      assert s[|EscapeChar(c)|..] == rest;
    } else {
      assert s[0] == c && s[1..] == rest;
    }
  }

  /** Escaping loses nothing. */
  lemma {:induction false} UnescapeEscape(s: string)
    ensures Unescape(Escape(s)) == s
    decreases |s|
  {
    if s != [] {
      UnescapeEscapeChar(s[0], Escape(s[1..]));
      UnescapeEscape(s[1..]);
    }
  }

  /** The characters that would make escaped text markup again. */
  const Markup: set<char> := {'<', '>', '"', '\''}

  lemma EscapeCharIsInert(c: char)
    ensures Avoids(EscapeChar(c), Markup)
  {
  }

  /** Escaped text carries no markup character. */
  lemma {:induction false} EscapeIsInert(s: string)
    ensures Avoids(Escape(s), Markup)
    decreases |s|
  {
    if s != [] {
      EscapeIsInert(s[1..]);
      EscapeCharIsInert(s[0]);
      AvoidsConcat(EscapeChar(s[0]), Escape(s[1..]), Markup);
    }
  }

  // ---------------------------------------------------------------------------
  // Paragraphs
  // ---------------------------------------------------------------------------

  const Break: string := "</p><p>"

  function EscapeAll(parts: seq<string>): (r: seq<string>)
    ensures |r| == |parts| && forall i :: 0 <= i < |parts| ==> r[i] == Escape(parts[i])
  {
    seq(|parts|, i requires 0 <= i < |parts| => Escape(parts[i]))
  }

  function UnescapeAll(parts: seq<string>): (r: seq<string>)
    ensures |r| == |parts| && forall i :: 0 <= i < |parts| ==> r[i] == Unescape(parts[i])
  {
    seq(|parts|, i requires 0 <= i < |parts| => Unescape(parts[i]))
  }

  /** `"<p>" + "</p><p>".join(html.escape(p) for p in parts) + "</p>"`. */
  function Paragraphs(parts: seq<string>): (r: string)
    ensures |r| >= 7
    ensures r[..3] == "<p>" && r[|r| - 4..] == "</p>"
  {
    "<p>" + Join(EscapeAll(parts), Break) + "</p>"
  }

  /** Splits at every `<`, skipping the `</p><p>` that starts there. */
  function SplitBreaks(s: string): (r: seq<string>)
    ensures |r| >= 1
    decreases |s|
  {
    var k := IndexOf(s, '<');
    if k == |s| then [s]
    else if k + |Break| <= |s| then [s[..k]] + SplitBreaks(s[k + |Break|..])
    else [s[..k]]
  }

  /** Reads the paragraphs back out of `Paragraphs` markup. */
  function ParseParagraphs(s: string): (r: Option<seq<string>>)
  {
    if |s| >= 7 && s[..3] == "<p>" && s[|s| - 4..] == "</p>" then Some(UnescapeAll(SplitBreaks(s[3..|s| - 4])))
    else None
  }

  lemma {:induction false} SplitBreaksJoin(items: seq<string>)
    requires |items| >= 1
    requires forall i :: 0 <= i < |items| ==> '<' !in items[i]
    ensures SplitBreaks(Join(items, Break)) == items
    decreases |items|
  {
    if |items| > 1 {
      var s := Join(items, Break);
      var rest := Join(items[1..], Break);
      assert s == items[0] + Break + rest;
      assert s[|items[0]|] == '<';
      assert forall i :: 0 <= i < |items[0]| ==> s[i] == items[0][i];
      assert s[..|items[0]|] == items[0];
      assert s[|items[0]| + |Break|..] == rest;
      SplitBreaksJoin(items[1..]);
    } else {
      assert '<' !in items[0];
    }
  }

  /** A description in paragraphs reads back as exactly its parts. */
  lemma ParagraphsRoundTrip(parts: seq<string>)
    requires |parts| >= 1
    ensures ParseParagraphs(Paragraphs(parts)) == Some(parts)
  {
    var esc := EscapeAll(parts);
    forall i | 0 <= i < |esc|
      ensures '<' !in esc[i]
    {
      EscapeIsInert(parts[i]);
      assert Avoids(esc[i], Markup);
    }
    SplitBreaksJoin(esc);
    var s := Paragraphs(parts);
    assert s[3..|s| - 4] == Join(esc, Break);
    forall i | 0 <= i < |parts|
      ensures Unescape(esc[i]) == parts[i]
    {
      UnescapeEscape(parts[i]);
    }
    assert UnescapeAll(esc) == parts;
  }
}
