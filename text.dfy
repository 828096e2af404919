/**
 * Character-level string operations of the JavaScript code: white space (the `\s` class and
 * `String.prototype.trim`), ASCII case mapping, and the `escapeXml` replacement chain.
 */
module Text {

  /** White space as `\s` and `trim` see it, restricted to ASCII: space, tab, LF, VT, FF and CR. */
  predicate IsSpace(c: char) {
    c == ' ' || '\t' <= c <= '\r'
  }

  /** `trimStart`: drops the leading white space. */
  function TrimStart(s: string): (r: string)
    ensures |r| <= |s|
    ensures r == [] || !IsSpace(r[0])
  {
    if s != [] && IsSpace(s[0]) then TrimStart(s[1..]) else s
  }

  /** `trimStart` keeps a suffix and what it drops is white space. */
  lemma {:induction false} TrimStartDropsSpaces(s: string)
    ensures TrimStart(s) == s[|s| - |TrimStart(s)|..]
    ensures forall i :: 0 <= i < |s| - |TrimStart(s)| ==> IsSpace(s[i])
  {
    if s != [] && IsSpace(s[0]) {
      TrimStartDropsSpaces(s[1..]);
    }
  }

  /** `trimEnd`: drops the trailing white space. */
  function TrimEnd(s: string): (r: string)
    ensures |r| <= |s| && r == s[..|r|]
    ensures r == [] || !IsSpace(r[|r| - 1])
    ensures forall i :: |r| <= i < |s| ==> IsSpace(s[i])
  {
    if s != [] && IsSpace(s[|s| - 1]) then TrimEnd(s[..|s| - 1]) else s
  }

  /** `trim`: no white space at either end; empty exactly when `s` is all white space. */
  function Trim(s: string): (r: string)
    ensures |r| <= |s|
    ensures r == [] || (!IsSpace(r[0]) && !IsSpace(r[|r| - 1]))
    ensures r == [] <==> forall i :: 0 <= i < |s| ==> IsSpace(s[i])
  {
    var t := TrimStart(s);
    TrimStartDropsSpaces(s);
    assert forall i :: |s| - |t| <= i < |s| ==> s[i] == t[i - (|s| - |t|)];
    TrimEnd(t)
  }

  /** Trimming a string with no white space at its ends changes nothing. */
  lemma TrimTidy(s: string)
    requires s == [] || (!IsSpace(s[0]) && !IsSpace(s[|s| - 1]))
    ensures Trim(s) == s
  {
  }

  /** Trimming twice trims once. */
  lemma TrimIdempotent(s: string)
    ensures Trim(Trim(s)) == Trim(s)
  {
    TrimTidy(Trim(s));
  }

  /** `toUpperCase` on one character, ASCII letters only. */
  function ToUpper(c: char): char {
    if 'a' <= c <= 'z' then (c as int - 32) as char else c
  }

  /** `toLowerCase` on one character, ASCII letters only. */
  function ToLower(c: char): char {
    if 'A' <= c <= 'Z' then (c as int + 32) as char else c
  }

  function LowerAll(s: string): (r: string)
    ensures |r| == |s| && forall i :: 0 <= i < |s| ==> r[i] == ToLower(s[i])
  {
    seq(|s|, i requires 0 <= i < |s| => ToLower(s[i]))
  }

  /** Sentence case: the first character upper case and the rest lower case. */
  ghost predicate IsSentenceCase(s: string) {
    (s != [] ==> ToUpper(s[0]) == s[0]) && forall i :: 1 <= i < |s| ==> ToLower(s[i]) == s[i]
  }

  /**
   * `toSentenceCase`: "" for the empty string; otherwise the first character upper-cased
   * followed by the rest lower-cased.
   */
  function ToSentenceCase(s: string): (r: string)
    ensures |r| == |s|
    ensures IsSentenceCase(r)
    ensures forall i :: 0 <= i < |s| ==> ToLower(r[i]) == ToLower(s[i])
  {
    if s == [] then [] else [ToUpper(s[0])] + LowerAll(s[1..])
  }

  /** A string whose first character is already upper case: that character, then the rest lower-cased. */
  lemma SentenceCaseCons(t: string, u: string)
    requires t != [] && ToUpper(t[0]) == t[0] && LowerAll(t[1..]) == u
    ensures ToSentenceCase(t) == [t[0]] + u
  {
  }

  /** Sentence-casing a sentence-cased string changes nothing. */
  lemma {:induction false} SentenceCaseIdempotent(s: string)
    ensures ToSentenceCase(ToSentenceCase(s)) == ToSentenceCase(s)
  {
    var r := ToSentenceCase(s);
    if s != [] {
      assert ToSentenceCase(r)[0] == r[0];
      assert forall i :: 1 <= i < |r| ==> ToSentenceCase(r)[i] == r[i];
    }
  }

  /** Every occurrence of the single character `c` replaced by `rep`. */
  function ReplaceChar(s: string, c: char, rep: string): (r: string)
    ensures c !in rep ==> c !in r
    ensures forall x {:trigger x in r} :: x in r ==> x in rep || x in s
  {
    if s == [] then [] else (if s[0] == c then rep else [s[0]]) + ReplaceChar(s[1..], c, rep)
  }

  lemma {:induction false} ReplaceCharAppend(a: string, b: string, c: char, rep: string)
    ensures ReplaceChar(a + b, c, rep) == ReplaceChar(a, c, rep) + ReplaceChar(b, c, rep)
  {
    if a == [] {
      assert a + b == b;
    } else {
      assert (a + b)[0] == a[0];
      assert (a + b)[1..] == a[1..] + b;
      ReplaceCharAppend(a[1..], b, c, rep);
    }
  }

  lemma {:induction false} ReplaceCharAbsent(s: string, c: char, rep: string)
    requires c !in s
    ensures ReplaceChar(s, c, rep) == s
  {
    if s != [] {
      ReplaceCharAbsent(s[1..], c, rep);
    }
  }

  /**
   * `escapeXml` as written: `&` first, then `<` and `>` (each replaced by itself), then the
   * double quote and the apostrophe.
   */
  function EscapeChain(s: string): string {
    var amp := ReplaceChar(s, '&', "&amp;");
    var lt := ReplaceChar(amp, '<', "<");
    var gt := ReplaceChar(lt, '>', ">");
    var quot := ReplaceChar(gt, '"', "&quot;");
    ReplaceChar(quot, '\'', "&apos;")
  }

  /** What the replacement chain does to one character. */
  function EscapeChar(c: char): (r: string)
    ensures r != [] && '"' !in r && '\'' !in r
  {
    if c == '&' then "&amp;"
    else if c == '"' then "&quot;"
    else if c == '\'' then "&apos;"
    else [c]
  }

  /** `escapeXml`, one character at a time; `EscapeChainIsEscapeXml` shows it is the chain. */
  function EscapeXml(s: string): (r: string)
    ensures '"' !in r && '\'' !in r
    ensures |r| >= |s|
  {
    if s == [] then [] else EscapeChar(s[0]) + EscapeXml(s[1..])
  }

  lemma EscapeChainAppend(a: string, b: string)
    ensures EscapeChain(a + b) == EscapeChain(a) + EscapeChain(b)
  {
    var a1, b1 := ReplaceChar(a, '&', "&amp;"), ReplaceChar(b, '&', "&amp;");
    ReplaceCharAppend(a, b, '&', "&amp;");
    var a2, b2 := ReplaceChar(a1, '<', "<"), ReplaceChar(b1, '<', "<");
    ReplaceCharAppend(a1, b1, '<', "<");
    var a3, b3 := ReplaceChar(a2, '>', ">"), ReplaceChar(b2, '>', ">");
    ReplaceCharAppend(a2, b2, '>', ">");
    var a4, b4 := ReplaceChar(a3, '"', "&quot;"), ReplaceChar(b3, '"', "&quot;");
    ReplaceCharAppend(a3, b3, '"', "&quot;");
    ReplaceCharAppend(a4, b4, '\'', "&apos;");
  }

  lemma ReplaceCharOne(x: char, c: char, rep: string)
    ensures ReplaceChar([x], c, rep) == if x == c then rep else [x]
  {
    assert [x][1..] == [];
  }

  lemma EscapeChainOne(c: char)
    ensures EscapeChain([c]) == EscapeChar(c)
  {
    if c == '&' {
      EscapeAmpersand();
    } else if c == '"' {
      EscapeQuote();
    } else {
      ReplaceCharOne(c, '&', "&amp;");
      ReplaceCharOne(c, '<', "<");
      ReplaceCharOne(c, '>', ">");
      ReplaceCharOne(c, '"', "&quot;");
      ReplaceCharOne(c, '\'', "&apos;");
    }
  }

  lemma EscapeAmpersand()
    ensures EscapeChain("&") == "&amp;"
  {
    var amp := "&amp;";
    ReplaceCharOne('&', '&', amp);
    assert ReplaceChar("&", '&', amp) == amp;
    assert '<' !in amp && '>' !in amp && '"' !in amp && '\'' !in amp;
    ReplaceCharAbsent(amp, '<', "<");
    ReplaceCharAbsent(amp, '>', ">");
    ReplaceCharAbsent(amp, '"', "&quot;");
    ReplaceCharAbsent(amp, '\'', "&apos;");
  }

  lemma EscapeQuote()
    ensures EscapeChain("\"") == "&quot;"
  {
    var q := "\"";
    ReplaceCharOne('"', '&', "&amp;");
    ReplaceCharOne('"', '<', "<");
    ReplaceCharOne('"', '>', ">");
    assert ReplaceChar(ReplaceChar(ReplaceChar(q, '&', "&amp;"), '<', "<"), '>', ">") == q;
    ReplaceCharOne('"', '"', "&quot;");
    ReplaceCharAbsent("&quot;", '\'', "&apos;");
  }

  /** The five global replacements, applied in order, escape the text character by character. */
  lemma {:induction false} EscapeChainIsEscapeXml(s: string)
    ensures EscapeChain(s) == EscapeXml(s)
  {
    if s == [] {
      assert ReplaceChar([], '&', "&amp;") == [];
    } else {
      assert s == [s[0]] + s[1..];
      EscapeChainAppend([s[0]], s[1..]);
      EscapeChainOne(s[0]);
      EscapeChainIsEscapeXml(s[1..]);
    }
  }

  /**
   * Text without '&', '"' or '\'' is its own escape; in particular `<` and `>` pass through
   * unchanged, since the chain replaces each of them by itself.
   */
  lemma {:induction false} EscapePlain(s: string)
    requires '&' !in s && '"' !in s && '\'' !in s
    ensures EscapeXml(s) == s
  {
    if s != [] {
      var t := s[1..];
      assert s == [s[0]] + t;
      assert EscapeChar(s[0]) == [s[0]];
      EscapePlain(t);
    }
  }

  predicate StartsWith(t: string, p: string) {
    |p| <= |t| && t[..|p|] == p
  }

  /** Decoding of XML character data: the five predefined entities become their characters. */
  function UnescapeXml(t: string): string
    decreases |t|
  {
    if t == [] then []
    else if StartsWith(t, "&amp;") then "&" + UnescapeXml(t[5..])
    else if StartsWith(t, "&quot;") then "\"" + UnescapeXml(t[6..])
    else if StartsWith(t, "&apos;") then "'" + UnescapeXml(t[6..])
    else if StartsWith(t, "&lt;") then "<" + UnescapeXml(t[4..])
    else if StartsWith(t, "&gt;") then ">" + UnescapeXml(t[4..])
    else [t[0]] + UnescapeXml(t[1..])
  }

  lemma PrefixAppend(p: string, rest: string)
    ensures StartsWith(p + rest, p) && (p + rest)[|p|..] == rest
  {
    assert (p + rest)[..|p|] == p;
  }

  /** Text that does not start with '&' starts no entity. */
  lemma NoEntity(t: string)
    requires t != [] && t[0] != '&'
    ensures UnescapeXml(t) == [t[0]] + UnescapeXml(t[1..])
  {
    assert !StartsWith(t, "&amp;") by { assert "&amp;"[0] == '&'; }
    assert !StartsWith(t, "&quot;") by { assert "&quot;"[0] == '&'; }
    assert !StartsWith(t, "&apos;") by { assert "&apos;"[0] == '&'; }
    assert !StartsWith(t, "&lt;") by { assert "&lt;"[0] == '&'; }
    assert !StartsWith(t, "&gt;") by { assert "&gt;"[0] == '&'; }
  }

  /** Decoding reverses the escaping of one character. */
  lemma UnescapeEscapeChar(c: char, rest: string)
    ensures UnescapeXml(EscapeChar(c) + rest) == [c] + UnescapeXml(rest)
  {
    var t := EscapeChar(c) + rest;
    if c == '&' {
      PrefixAppend("&amp;", rest);
    } else if c == '"' {
      PrefixAppend("&quot;", rest);
      assert t[1] == 'q';
      assert !StartsWith(t, "&amp;");
    } else if c == '\'' {
      PrefixAppend("&apos;", rest);
      assert t[1] == 'a' && t[2] == 'p';
      assert !StartsWith(t, "&amp;");
      assert !StartsWith(t, "&quot;");
    } else {
      assert t == [c] + rest;
      assert t[1..] == rest;
      NoEntity(t);
    }
  }

  /** Decoding the escaped text gives back the original text. */
  lemma {:induction false} EscapeRoundTrip(s: string)
    ensures UnescapeXml(EscapeXml(s)) == s
  {
    if s == [] {
      assert EscapeXml(s) == [];
    } else {
      EscapeRoundTrip(s[1..]);
      UnescapeEscapeChar(s[0], EscapeXml(s[1..]));
      assert s == [s[0]] + s[1..];
    }
  }
}
