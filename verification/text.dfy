/** String primitives standing in for the Python built-ins the source leans on:
    `str.strip`/`lstrip`/`rstrip`, `startswith`, `in`, `join`, `lower`/`upper`,
    `str(int)` and `int(str)`.  Python's Unicode whitespace is approximated by
    the six ASCII whitespace characters and case mapping by ASCII case mapping. */
module Text {
  import opened Wrappers

  /** The characters `str.strip()` and the regex class `\s` remove here. */
  const Whitespace: set<char> := {' ', '\t', '\n', '\r', '\U{0B}', '\U{0C}'}

  predicate IsSpace(c: char) {
    c in Whitespace
  }

  predicate IsDigit(c: char) {
    '0' <= c <= '9'
  }

  predicate IsLowerAscii(c: char) {
    'a' <= c <= 'z'
  }

  predicate IsUpperAscii(c: char) {
    'A' <= c <= 'Z'
  }

  /** The regex class `[A-Za-z0-9]`. */
  predicate IsAsciiAlnum(c: char) {
    IsLowerAscii(c) || IsUpperAscii(c) || IsDigit(c)
  }

  predicate AllDigits(s: string) {
    forall i :: 0 <= i < |s| ==> IsDigit(s[i])
  }

  // ---------------------------------------------------------------------------
  // Trimming
  // ---------------------------------------------------------------------------

  /** Python's `s.lstrip(chars)`: the longest prefix made of characters of `cs` is dropped. */
  function TrimStart(s: string, cs: set<char>): (r: string)
    ensures |r| <= |s| && r == s[|s| - |r|..]
    ensures forall i :: 0 <= i < |s| - |r| ==> s[i] in cs
    ensures r == [] || r[0] !in cs
    decreases |s|
  {
    if s != [] && s[0] in cs then TrimStart(s[1..], cs) else s
  }

  /** Python's `s.rstrip(chars)`: the longest suffix made of characters of `cs` is dropped. */
  function TrimEnd(s: string, cs: set<char>): (r: string)
    ensures |r| <= |s| && r == s[..|r|]
    ensures forall i :: |r| <= i < |s| ==> s[i] in cs
    ensures r == [] || r[|r| - 1] !in cs
    decreases |s|
  {
    if s != [] && s[|s| - 1] in cs then TrimEnd(s[..|s| - 1], cs) else s
  }

  /** Python's `s.strip()`. */
  function Strip(s: string): (r: string)
    ensures |r| <= |s|
    ensures r == [] || (!IsSpace(r[0]) && !IsSpace(r[|r| - 1]))
    ensures (s == [] || (!IsSpace(s[0]) && !IsSpace(s[|s| - 1]))) ==> r == s
  {
    TrimEnd(TrimStart(s, Whitespace), Whitespace)
  }

  /** No character of `s` belongs to `cs`. */
  predicate Avoids(s: string, cs: set<char>) {
    forall i :: 0 <= i < |s| ==> s[i] !in cs
  }

  lemma AvoidsConcat(a: string, b: string, cs: set<char>)
    requires Avoids(a, cs) && Avoids(b, cs)
    ensures Avoids(a + b, cs)
  {
    forall i | 0 <= i < |a + b|
      ensures (a + b)[i] !in cs
    {
      if i >= |a| {
        assert (a + b)[i] == b[i - |a|];
      }
    }
  }

  /** Stripping brings in no character that was not already there. */
  lemma StripAvoids(s: string, cs: set<char>)
    requires Avoids(s, cs)
    ensures Avoids(Strip(s), cs)
  {
    var a := StripSlice(s);
    var r := Strip(s);
    forall i | 0 <= i < |r|
      ensures r[i] !in cs
    {
      assert r[i] == s[a + i];
    }
  }

  /** The stripped text is the slice of `s` from `a` on, and only whitespace follows it. */
  lemma StripSlice(s: string) returns (a: nat)
    ensures a + |Strip(s)| <= |s|
    ensures Strip(s) == s[a..a + |Strip(s)|]
    ensures forall k :: a + |Strip(s)| <= k < |s| ==> IsSpace(s[k])
  {
    var t := TrimStart(s, Whitespace);
    a := |s| - |t|;
    assert t == s[a..];
    assert Strip(s) == TrimEnd(t, Whitespace);
    TrimEndSlice(t, s, a);
  }

  /** `rstrip` of a suffix `t == s[a..]`, read back in `s`. */
  lemma TrimEndSlice(t: string, s: string, a: nat)
    requires a <= |s| && t == s[a..]
    ensures var r := TrimEnd(t, Whitespace);
      a + |r| <= |s| && r == s[a..a + |r|] && forall k :: a + |r| <= k < |s| ==> IsSpace(s[k])
  {
    var r := TrimEnd(t, Whitespace);
    assert r == t[..|r|];
    forall k | a + |r| <= k < |s|
      ensures IsSpace(s[k])
    {
      assert s[k] == t[k - a];
    }
  }

  /** Stripping ignores whitespace appended at the end. */
  lemma StripAppendSpace(s: string, c: char)
    requires IsSpace(c)
    ensures Strip(s + [c]) == Strip(s)
  {
    var t := TrimStart(s, Whitespace);
    var v := s + [c];
    if t == [] {
      assert TrimStart(v, Whitespace) == [] by {
        forall i | 0 <= i < |v|
          ensures v[i] in Whitespace
        {
          if i < |s| {
            assert v[i] == s[i];
          }
        }
        TrimStartAllIn(v, Whitespace);
      }
      assert Strip(v) == TrimEnd([], Whitespace) == Strip(s);
    } else {
      TrimStartAppend(s, [c], Whitespace);
      var w := t + [c];
      assert TrimStart(v, Whitespace) == w;
      assert w[|w| - 1] == c && w[..|w| - 1] == t;
      assert TrimEnd(w, Whitespace) == TrimEnd(t, Whitespace);
    }
  }

  lemma TrimStartAllIn(s: string, cs: set<char>)
    requires forall i :: 0 <= i < |s| ==> s[i] in cs
    ensures TrimStart(s, cs) == []
  {
  }

  /** When the prefix of `s` is not entirely trimmed, what follows is kept as is. */
  lemma {:induction false} TrimStartAppend(s: string, u: string, cs: set<char>)
    requires TrimStart(s, cs) != []
    ensures TrimStart(s + u, cs) == TrimStart(s, cs) + u
    decreases |s|
  {
    var v := s + u;
    assert v[0] == s[0];
    if s[0] in cs {
      assert v[1..] == s[1..] + u;
      assert TrimStart(v, cs) == TrimStart(s[1..] + u, cs);
      assert TrimStart(s, cs) == TrimStart(s[1..], cs);
      TrimStartAppend(s[1..], u, cs);
    } else {
      assert TrimStart(v, cs) == v;
      assert TrimStart(s, cs) == s;
    }
  }

  /** When every character of `s` belongs to `cs`, `lstrip` removes all of `s`. */
  lemma {:induction false} TrimStartSkips(s: string, u: string, cs: set<char>)
    requires forall i :: 0 <= i < |s| ==> s[i] in cs
    ensures TrimStart(s + u, cs) == TrimStart(u, cs)
    decreases |s|
  {
    if s != [] {
      assert (s + u)[1..] == s[1..] + u;
      TrimStartSkips(s[1..], u, cs);
    } else {
      assert s + u == u;
    }
  }

  /** One leading space disappears under `strip()` from text already trimmed. */
  lemma StripLeadingSpace(s: string)
    requires s == [] || (!IsSpace(s[0]) && !IsSpace(s[|s| - 1]))
    ensures Strip(" " + s) == s
  {
    var sp := " ";
    assert sp[0] == ' ' && IsSpace(' ');
    TrimStartSkips(sp, s, Whitespace);
    var t := TrimStart(sp + s, Whitespace);
    assert t == TrimStart(s, Whitespace);
    assert Strip(sp + s) == TrimEnd(t, Whitespace);
    assert Strip(s) == TrimEnd(TrimStart(s, Whitespace), Whitespace);
  }

  // ---------------------------------------------------------------------------
  // Searching
  // ---------------------------------------------------------------------------

  /** Python's `s.startswith(p)`. */
  predicate StartsWith(s: string, p: string) {
    |p| <= |s| && s[..|p|] == p
  }

  /** Python's `s.endswith(p)`. */
  predicate EndsWith(s: string, suffix: string) {
    |suffix| <= |s| && s[|s| - |suffix|..] == suffix
  }

  lemma EndsWithAppend(s: string, suffix: string)
    ensures EndsWith(s + suffix, suffix)
  {
    assert (s + suffix)[|s|..] == suffix;
  }

  /** Python's `sub in s`. */
  predicate Contains(s: string, sub: string)
    decreases |s|
  {
    StartsWith(s, sub) || (s != [] && Contains(s[1..], sub))
  }

  lemma {:induction false} ContainsWitness(s: string, sub: string, i: nat)
    requires i + |sub| <= |s| && s[i..i + |sub|] == sub
    ensures Contains(s, sub)
    decreases i
  {
    if i > 0 {
      assert s[1..][i - 1..i - 1 + |sub|] == sub;
      ContainsWitness(s[1..], sub, i - 1);
    }
  }

  /** A string that lacks the first character of `sub` does not contain `sub`. */
  lemma {:induction false} NotContainsWithoutHead(s: string, sub: string)
    requires sub != [] && sub[0] !in s
    ensures !Contains(s, sub)
    decreases |s|
  {
    if s != [] {
      assert s[0] in s;
      NotContainsWithoutHead(s[1..], sub);
    }
  }

  /** Index of the first occurrence of `c` in `s`, or `|s|` when there is none. */
  function IndexOf(s: string, c: char): (k: nat)
    ensures k <= |s|
    ensures k < |s| ==> s[k] == c
    ensures forall i :: 0 <= i < k ==> s[i] != c
    decreases |s|
  {
    if s == [] then 0 else if s[0] == c then 0 else 1 + IndexOf(s[1..], c)
  }

  // ---------------------------------------------------------------------------
  // Joining and mapping
  // ---------------------------------------------------------------------------

  /** Python's `sep.join(items)`. */
  function Join(items: seq<string>, sep: string): (r: string)
    ensures items == [] ==> r == ""
    ensures |items| == 1 ==> r == items[0]
    decreases |items|
  {
    if items == [] then ""
    else if |items| == 1 then items[0]
    else items[0] + sep + Join(items[1..], sep)
  }

  /** Appending an item to a non-empty join adds one separator and the item. */
  lemma {:induction false} JoinSnoc(items: seq<string>, x: string, sep: string)
    requires items != []
    ensures Join(items + [x], sep) == Join(items, sep) + sep + x
    decreases |items|
  {
    if |items| == 1 {
      assert (items + [x])[1..] == [x];
    } else {
      assert (items + [x])[1..] == items[1..] + [x];
      JoinSnoc(items[1..], x, sep);
    }
  }

  function LowerChar(c: char): char {
    if IsUpperAscii(c) then (c as int + 32) as char else c
  }

  function UpperChar(c: char): char {
    if IsLowerAscii(c) then (c as int - 32) as char else c
  }

  /** Python's `s.lower()`, on ASCII letters. */
  function Lower(s: string): (r: string)
    ensures |r| == |s|
    ensures forall i :: 0 <= i < |s| ==> r[i] == LowerChar(s[i])
  {
    seq(|s|, i requires 0 <= i < |s| => LowerChar(s[i]))
  }

  /** Python's `s.upper()`, on ASCII letters. */
  function Upper(s: string): (r: string)
    ensures |r| == |s|
    ensures forall i :: 0 <= i < |s| ==> r[i] == UpperChar(s[i])
  {
    seq(|s|, i requires 0 <= i < |s| => UpperChar(s[i]))
  }

  /** Upper-casing keeps text trimmed. */
  lemma UpperKeepsTrimmed(s: string)
    requires s == [] || (!IsSpace(s[0]) && !IsSpace(s[|s| - 1]))
    ensures var r := Upper(s); r == [] || (!IsSpace(r[0]) && !IsSpace(r[|r| - 1]))
  {
    if s != [] {
      assert Upper(s)[0] == UpperChar(s[0]);
      assert Upper(s)[|s| - 1] == UpperChar(s[|s| - 1]);
    }
  }

  /** Upper-casing leaves no lower-case letter and changes nothing but the case of
      letters, so lower-casing the result is lower-casing the input. */
  lemma UpperMeaning(s: string)
    ensures forall i :: 0 <= i < |s| ==> !IsLowerAscii(Upper(s)[i])
    ensures Lower(Upper(s)) == Lower(s)
  {
    var u := Upper(s);
    forall i | 0 <= i < |s|
      ensures !IsLowerAscii(u[i]) && LowerChar(u[i]) == LowerChar(s[i])
    {
      assert u[i] == UpperChar(s[i]);
    }
  }

  /** Python's `s.replace(c, "")` for a single character `c`. */
  function RemoveChar(s: string, c: char): (r: string)
    ensures c !in r
    ensures |r| <= |s|
    ensures c !in s ==> r == s
    ensures forall i :: 0 <= i < |r| ==> r[i] in s
    decreases |s|
  {
    if s == [] then []
    else if s[0] == c then RemoveChar(s[1..], c)
    else [s[0]] + RemoveChar(s[1..], c)
  }

  // ---------------------------------------------------------------------------
  // Integers as text
  // ---------------------------------------------------------------------------

  function DigitChar(d: nat): (c: char)
    requires d < 10
    ensures IsDigit(c)
  {
    "0123456789"[d]
  }

  function DigitValue(c: char): (d: nat)
    requires IsDigit(c)
    ensures d < 10
  {
    c as int - '0' as int
  }

  /** Python's `str(n)` for a non-negative integer: shortest decimal numeral. */
  function NatToString(n: nat): (r: string)
    ensures |r| >= 1 && AllDigits(r)
    ensures |r| > 1 ==> r[0] != '0'
    decreases n
  {
    if n < 10 then [DigitChar(n)] else NatToString(n / 10) + [DigitChar(n % 10)]
  }

  /** The value of a numeral (the inverse of `NatToString`). */
  function DigitsValue(s: string): nat
    requires AllDigits(s)
    decreases |s|
  {
    if s == [] then 0 else 10 * DigitsValue(s[..|s| - 1]) + DigitValue(s[|s| - 1])
  }

  lemma {:induction false} DigitsValueOfNatToString(n: nat)
    ensures DigitsValue(NatToString(n)) == n
    decreases n
  {
    var s := NatToString(n);
    if n < 10 {
      assert s[..|s| - 1] == [];
    } else {
      assert s[..|s| - 1] == NatToString(n / 10);
      DigitsValueOfNatToString(n / 10);
    }
  }

  /** Distinct numbers print differently. */
  lemma NatToStringInjective(m: nat, n: nat)
    requires NatToString(m) == NatToString(n)
    ensures m == n
  {
    DigitsValueOfNatToString(m);
    DigitsValueOfNatToString(n);
  }

  /** Python's `str(i)` for any integer. */
  function IntToString(i: int): (r: string)
    ensures |r| >= 1
    ensures i >= 0 ==> AllDigits(r)
    ensures i < 0 ==> r[0] == '-' && AllDigits(r[1..])
  {
    if i < 0 then "-" + NatToString(-i) else NatToString(i)
  }

  /** Python's `int(s)` on text: surrounding whitespace, an optional sign, then decimal
      digits, with single underscores allowed between digits. */
  function ParseInt(s: string): (r: Option<int>)
    ensures r.Some? ==> Strip(s) != ""
  {
    ParseSigned(Strip(s))
  }

  /** An optional sign followed by a numeral. */
  function ParseSigned(t: string): Option<int> {
    if t == [] then None
    else if t[0] == '-' || t[0] == '+' then
      if IsNumeral(t[1..]) then
        Some(if t[0] == '-' then 0 - NumeralValue(t[1..]) else NumeralValue(t[1..]))
      else None
    else if IsNumeral(t) then Some(NumeralValue(t))
    else None
  }

  /** Digits and underscores only. */
  predicate DigitsOrUnderscores(t: string) {
    forall i :: 0 <= i < |t| ==> IsDigit(t[i]) || t[i] == '_'
  }

  /** The digits of an integer as `int()` reads them: it starts and ends with a digit,
      and every underscore sits between two digits. */
  predicate IsNumeral(t: string) {
    && t != [] && IsDigit(t[0]) && IsDigit(t[|t| - 1])
    && DigitsOrUnderscores(t)
    && (forall i :: 0 <= i < |t| - 1 && t[i] == '_' ==> IsDigit(t[i + 1]))
  }

  /** The digits of `t`, in order, without its underscores. */
  function DropUnderscores(t: string): (r: string)
    requires DigitsOrUnderscores(t)
    ensures AllDigits(r) && |r| <= |t|
    ensures AllDigits(t) ==> r == t
    decreases |t|
  {
    if t == [] then []
    else
      assert DigitsOrUnderscores(t[1..]) by {
        forall i | 0 <= i < |t| - 1
          ensures IsDigit(t[1..][i]) || t[1..][i] == '_'
        {
          assert t[1..][i] == t[i + 1];
        }
      }
      var rest := DropUnderscores(t[1..]);
      if t[0] == '_' then rest else [t[0]] + rest
  }

  function NumeralValue(t: string): nat
    requires IsNumeral(t)
  {
    DigitsValue(DropUnderscores(t))
  }

  /** A plain run of digits is a numeral worth its digits. */
  lemma DigitsAreNumeral(u: string)
    requires u != [] && AllDigits(u)
    ensures IsNumeral(u) && NumeralValue(u) == DigitsValue(u)
  {
  }

  /** Text without surrounding whitespace is parsed as it stands. */
  lemma ParseIntUnpadded(t: string)
    requires t != [] && !IsSpace(t[0]) && !IsSpace(t[|t| - 1])
    ensures ParseInt(t) == ParseSigned(t)
  {
  }

  /** `int("1_0") == 10`: underscores only group digits. */
  lemma ParseIntGroupedDigits()
    ensures ParseInt("1_0") == Some(10)
  {
    var t := "1_0";
    ParseIntUnpadded(t);
    assert IsNumeral(t) by {
      assert IsDigit(t[0]) && t[1] == '_' && IsDigit(t[2]);
    }
    assert DropUnderscores(t) == "10" by {
      assert t[1..] == "_0" && t[1..][1..] == "0";
      assert DropUnderscores("0") == "0";
    }
    assert DigitsValue("10") == 10 by {
      assert "10"[..1] == "1";
    }
  }

  /** A doubled, leading or trailing underscore makes `int()` fail. */
  lemma ParseIntMisplacedUnderscore()
    ensures ParseInt("1__0").None?
    ensures ParseInt("_10").None?
    ensures ParseInt("10_").None?
  {
    var u := "1__0";
    ParseIntUnpadded(u);
    assert u[1] == '_' && !IsDigit(u[2]);
    var v := "_10";
    ParseIntUnpadded(v);
    assert !IsDigit(v[0]);
    var w := "10_";
    ParseIntUnpadded(w);
    assert !IsDigit(w[2]);
  }

  /** `int(str(i)) == i`. */
  lemma ParseIntToString(i: int)
    ensures ParseInt(IntToString(i)) == Some(i)
  {
    var s := IntToString(i);
    assert !IsSpace(s[0]) && !IsSpace(s[|s| - 1]);
    assert Strip(s) == s;
    ParseSignedOfIntToString(i);
  }

  lemma ParseSignedOfIntToString(i: int)
    ensures ParseSigned(IntToString(i)) == Some(i)
  {
    var u := NatToString(if i < 0 then -i else i);
    DigitsValueOfNatToString(if i < 0 then -i else i);
    if i < 0 {
      ParseSignedNegative(u);
    } else {
      ParseSignedDigits(u);
    }
  }

  lemma ParseSignedNegative(u: string)
    requires u != [] && AllDigits(u)
    ensures ParseSigned("-" + u) == Some(0 - DigitsValue(u))
  {
    assert ("-" + u)[1..] == u;
    DigitsAreNumeral(u);
  }

  lemma ParseSignedDigits(u: string)
    requires u != [] && AllDigits(u)
    ensures ParseSigned(u) == Some(DigitsValue(u))
  {
    assert IsDigit(u[0]);
    DigitsAreNumeral(u);
  }
}
