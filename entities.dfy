/** `decodeHtmlEntities` (src/index.ts:92-101): seven global replacements
    applied one after the other, each to the previous one's output. */
module Entities {
  import opened Wrappers
  import opened Text

  /** The two numeric entity forms, `&#xHH;` and `&#DD;`. */
  datatype Radix = Hex | Dec

  function Lead(radix: Radix): string {
    match radix
    case Hex => "&#x"
    case Dec => "&#"
  }

  function Base(radix: Radix): nat {
    match radix
    case Hex => 16
    case Dec => 10
  }

  /** `[0-9A-Fa-f]` for the hexadecimal form, `\d` for the decimal one. */
  predicate IsRadixDigit(radix: Radix, c: char) {
    match radix
    case Hex => IsHexDigit(c)
    case Dec => IsDigit(c)
  }

  /** How many digits the greedy `+` takes at the start of `s`. */
  function DigitRun(s: string, radix: Radix): (k: nat)
    ensures k <= |s|
    ensures forall i | 0 <= i < k :: IsRadixDigit(radix, s[i])
    ensures k < |s| ==> !IsRadixDigit(radix, s[k])
  {
    if s != [] && IsRadixDigit(radix, s[0]) then 1 + DigitRun(s[1..], radix) else 0
  }

  /** `String.fromCharCode(code)`: the code is reduced to a 16-bit code unit.
      A lone surrogate code unit has no `char` of its own and becomes U+FFFD. */
  function FromCharCode(code: nat): (c: char)
    ensures code < 0xD800 || 0xE000 <= code < 0x1_0000 ==> c as int == code
  {
    var unit := code % 0x1_0000;
    if 0xD800 <= unit < 0xE000 then '\U{FFFD}' else unit as char
  }

  /** A numeric entity recognised at the start of a string: the character it
      stands for and how many characters it spans. */
  datatype Hit = Hit(decoded: char, length: nat)

  /** Whether the pattern `&#x([0-9A-Fa-f]+);` (or `&#(\d+);`) matches at the
      start of `s`. The digit class excludes `;`, so the greedy digit run is
      the only candidate and no backtracking can produce another match. */
  function NumericAt(s: string, radix: Radix): (h: Option<Hit>)
    ensures h.Some? ==> |Lead(radix)| + 2 <= h.value.length <= |s|
    ensures h.Some? ==> s[0] == '&'
  {
    var lead := Lead(radix);
    if StartsWith(s, lead) then
      var body := s[|lead|..];
      var k := DigitRun(body, radix);
      if 0 < k < |body| && body[k] == ';' then
        Some(Hit(FromCharCode(DigitsValue(body[..k], Base(radix))), |lead| + k + 1))
      else None
    else None
  }

  /** One global numeric-entity replacement pass: scanning from the left,
      each match is replaced and the scan resumes after it. */
  function DecodeNumeric(s: string, radix: Radix): (r: string)
    ensures |r| <= |s|
    ensures '&' !in s ==> r == s
    decreases |s|
  {
    if s == [] then []
    else match NumericAt(s, radix)
      case Some(hit) => [hit.decoded] + DecodeNumeric(s[hit.length..], radix)
      case None => [s[0]] + DecodeNumeric(s[1..], radix)
  }

  /** `s.replace(/p/g, rep)` for a literal pattern `p`: leftmost,
      non-overlapping occurrences are replaced. */
  function ReplaceAll(s: string, p: string, rep: string): (r: string)
    requires p != []
    ensures |rep| <= |p| ==> |r| <= |s|
    ensures p[0] !in s ==> r == s
    decreases |s|
  {
    if s == [] then []
    else if StartsWith(s, p) then rep + ReplaceAll(s[|p|..], p, rep)
    else [s[0]] + ReplaceAll(s[1..], p, rep)
  }

  /** The five named-entity passes, `&amp;` first. */
  function DecodeNamed(s: string): (r: string)
    ensures '&' !in s ==> r == s
    ensures |r| <= |s|
  {
    var s3 := ReplaceAll(s, "&amp;", "&");
    var s4 := ReplaceAll(s3, "&lt;", "<");
    var s5 := ReplaceAll(s4, "&gt;", ">");
    var s6 := ReplaceAll(s5, "&quot;", "\"");
    ReplaceAll(s6, "&apos;", "'")
  }

  /** `decodeHtmlEntities(text)`: hexadecimal references, then decimal ones,
      then the named entities. Text without `&` is returned unchanged and
      no pass lengthens the text. */
  function DecodeHtmlEntities(text: string): (r: string)
    ensures '&' !in text ==> r == text
    ensures |r| <= |text|
  {
    DecodeNamed(DecodeNumeric(DecodeNumeric(text, Hex), Dec))
  }

  // ---------------------------------------------------------------------
  // Properties

  /** The named passes run on the output of the earlier ones, so an escaped
      ampersand followed by an entity name is decoded twice. */
  lemma DecodeEscapedLt()
    ensures DecodeHtmlEntities("&amp;lt;") == "<"
  {
    EscapedLtNumeric();
    EscapedLtNamed();
  }

  lemma EscapedLtNumeric()
    ensures DecodeNumeric(DecodeNumeric("&amp;lt;", Hex), Dec) == "&amp;lt;"
  {
    var s := "&amp;lt;";
    assert s[1..] == "amp;lt;" && s[..2] == "&a";
    NumericKeepsUnmatched(s, Hex);
    NumericKeepsUnmatched(s, Dec);
  }

  lemma EscapedLtNamed()
    ensures DecodeNamed("&amp;lt;") == "<"
  {
    var s := "&amp;lt;";
    assert ReplaceAll(s, "&amp;", "&") == "&lt;" by {
      assert StartsWith(s, "&amp;") && s[5..] == "lt;";
    }
    assert ReplaceAll("&lt;", "&lt;", "<") == "<" by {
      assert "&lt;"[4..] == "";
    }
  }

  /** Numeric references in both forms. */
  lemma DecodeNumericExamples()
    ensures DecodeHtmlEntities("&#x41;") == "A"
    ensures DecodeHtmlEntities("&#65;") == "A"
  {
    HexExample();
    DecExample();
  }

  /** The `x` of the hexadecimal form is matched in lower case only. */
  lemma DecodeUpperXKept()
    ensures DecodeHtmlEntities("&#X41;") == "&#X41;"
  {
    UpperXNumeric();
    UpperXNamed();
  }

  lemma UpperXNumeric()
    ensures DecodeNumeric(DecodeNumeric("&#X41;", Hex), Dec) == "&#X41;"
  {
    UpperXPass(Hex);
    UpperXPass(Dec);
  }

  lemma UpperXPass(radix: Radix)
    ensures DecodeNumeric("&#X41;", radix) == "&#X41;"
  {
    var u := "&#X41;";
    assert u[1..] == "#X41;" && u[..3] == "&#X" && u[2..] == "X41;";
    NumericKeepsUnmatched(u, radix);
  }

  lemma UpperXNamed()
    ensures DecodeNamed("&#X41;") == "&#X41;"
  {
    var u := "&#X41;";
    assert u[1..] == "#X41;" && u[..4] == "&#X4" && u[..5] == "&#X41" && u[..6] == u;
    NamedKeepsUnmatched(u);
  }

  lemma HexExample()
    ensures DecodeNumeric("&#x41;", Hex) == "A"
  {
    var h := "&#x41;";
    assert h[3..] == "41;" && h[3..][..2] == "41";
    assert DigitRun("41;", Hex) == 2;
    assert DigitsValue("41", 16) == 0x41 by { assert "41"[..1] == "4"; assert "4"[..0] == ""; }
    assert NumericAt(h, Hex) == Some(Hit('A', 6));
    assert h[6..] == "";
  }

  lemma DecExample()
    ensures DecodeNumeric("&#65;", Hex) == "&#65;"
    ensures DecodeNumeric("&#65;", Dec) == "A"
  {
    DecKeptByHexPass();
    DecDecoded();
  }

  lemma DecKeptByHexPass()
    ensures DecodeNumeric("&#65;", Hex) == "&#65;"
  {
    var d := "&#65;";
    assert d[1..] == "#65;" && d[..3] == "&#6";
    NumericKeepsUnmatched(d, Hex);
  }

  lemma DecDecoded()
    ensures DecodeNumeric("&#65;", Dec) == "A"
  {
    var d := "&#65;";
    DecEntityAt();
    assert d[5..] == "";
  }

  lemma DecEntityAt()
    ensures NumericAt("&#65;", Dec) == Some(Hit('A', 5))
  {
    var d := "&#65;";
    assert d[..2] == "&#" && d[2..] == "65;" && d[2..][..2] == "65";
    assert DigitRun("65;", Dec) == 2;
    assert DigitsValue("65", 10) == 65 by { assert "65"[..1] == "6"; assert "6"[..0] == ""; }
  }

  /** A string whose only `&` starts none of the five names. */
  lemma NamedKeepsUnmatched(s: string)
    requires s != [] && '&' !in s[1..]
    requires !StartsWith(s, "&amp;") && !StartsWith(s, "&lt;") && !StartsWith(s, "&gt;")
    requires !StartsWith(s, "&quot;") && !StartsWith(s, "&apos;")
    ensures DecodeNamed(s) == s
  {
  }

  /** A pass that does not match at the first `&` of a string whose only
      `&` is its first character leaves the string alone. */
  lemma NumericKeepsUnmatched(s: string, radix: Radix)
    requires s != [] && NumericAt(s, radix).None? && '&' !in s[1..]
    ensures DecodeNumeric(s, radix) == s
  {
  }

  /** `c` written as a decimal numeric character reference. */
  function DecimalEntity(c: char): string {
    "&#" + DecimalString(c as nat) + ";"
  }

  /** Every character of `s` written as a decimal reference. */
  function EncodeDecimal(s: string): string {
    if s == [] then "" else DecimalEntity(s[0]) + EncodeDecimal(s[1..])
  }

  /** A character `String.fromCharCode` can produce from its own code. */
  predicate InBmp(c: char) {
    c as int < 0x1_0000
  }

  /** A character other than `&` is copied and the pass goes on after it. */
  lemma DecodeNumericPlain(s: string, radix: Radix)
    requires s != [] && s[0] != '&'
    ensures DecodeNumeric(s, radix) == [s[0]] + DecodeNumeric(s[1..], radix)
  {
    assert NumericAt(s, radix).None?;
  }

  lemma {:induction false} NumericSkipsPlain(u: string, v: string, radix: Radix)
    requires '&' !in u
    ensures DecodeNumeric(u + v, radix) == u + DecodeNumeric(v, radix)
  {
    if u != [] {
      assert u[0] in u;
      assert (u + v)[0] == u[0] && (u + v)[1..] == u[1..] + v;
      DecodeNumericPlain(u + v, radix);
      NumericSkipsPlain(u[1..], v, radix);
      ConsAppend(u, DecodeNumeric(v, radix));
    } else {
      assert u + v == v && u + DecodeNumeric(v, radix) == DecodeNumeric(v, radix);
    }
  }

  lemma {:induction false} DigitRunOfNumeral(ds: string, t: string, radix: Radix)
    requires forall i | 0 <= i < |ds| :: IsRadixDigit(radix, ds[i])
    requires t != [] && !IsRadixDigit(radix, t[0])
    ensures DigitRun(ds + t, radix) == |ds|
  {
    if ds != [] {
      assert (ds + t)[1..] == ds[1..] + t;
      DigitRunOfNumeral(ds[1..], t, radix);
    } else {
      assert ds + t == t;
    }
  }

  lemma {:induction false} HexPassKeepsDecimal(s: string)
    ensures DecodeNumeric(EncodeDecimal(s), Hex) == EncodeDecimal(s)
  {
    if s != [] {
      var chunk := DecimalEntity(s[0]);
      var rest := EncodeDecimal(s[1..]);
      var ds := DecimalString(s[0] as nat);
      assert (chunk + rest)[2] == ds[0];
      assert NumericAt(chunk + rest, Hex).None?;
      assert (chunk + rest)[1..] == chunk[1..] + rest;
      assert chunk[1..] == "#" + ds + ";";
      assert '&' !in chunk[1..] by {
        forall i | 0 <= i < |ds| ensures ds[i] != '&' { assert IsDigit(ds[i]); }
      }
      NumericSkipsPlain(chunk[1..], rest, Hex);
      HexPassKeepsDecimal(s[1..]);
    }
  }

  lemma {:induction false} DecPassDecodes(s: string)
    requires forall i | 0 <= i < |s| :: InBmp(s[i])
    ensures DecodeNumeric(EncodeDecimal(s), Dec) == s
  {
    if s != [] {
      var chunk := DecimalEntity(s[0]);
      var rest := EncodeDecimal(s[1..]);
      var ds := DecimalString(s[0] as nat);
      var body := (chunk + rest)[2..];
      assert body == ds + (";" + rest);
      DigitRunOfNumeral(ds, ";" + rest, Dec);
      assert body[..|ds|] == ds;
      DecimalStringValue(s[0] as nat);
      assert NumericAt(chunk + rest, Dec) == Some(Hit(s[0], |chunk|));
      assert (chunk + rest)[|chunk|..] == rest;
      DecPassDecodes(s[1..]);
    }
  }

  /** Writing every character of an ampersand-free text as `&#N;` and
      decoding gives the text back. The text must be free of `&`: a decoded
      `&` followed by an entity name would be decoded again by the later
      named passes. */
  lemma DecodeEncodeDecimal(s: string)
    requires '&' !in s
    requires forall i | 0 <= i < |s| :: InBmp(s[i])
    ensures DecodeHtmlEntities(EncodeDecimal(s)) == s
  {
    HexPassKeepsDecimal(s);
    DecPassDecodes(s);
  }

  // ---------------------------------------------------------------------
  // Numeric references in general

  /** `&#x…;` (or `&#…;`) with a non-empty run of digits of its radix is
      recognised whole at the start of a string, and stands for the
      character whose code is the value of the digits. */
  lemma NumericEntityAt(ds: string, rest: string, radix: Radix)
    requires ds != [] && forall i | 0 <= i < |ds| :: IsRadixDigit(radix, ds[i])
    ensures NumericAt(Lead(radix) + ds + ";" + rest, radix)
      == Some(Hit(FromCharCode(DigitsValue(ds, Base(radix))), |Lead(radix)| + |ds| + 1))
  {
    NumeralAfterLead(Lead(radix), ds, rest, radix);
    NumericAtDigits(Lead(radix) + ds + ";" + rest, ds, radix);
  }

  /** A match whose digit run is `ds`. */
  lemma NumericAtDigits(s: string, ds: string, radix: Radix)
    requires ds != [] && StartsWith(s, Lead(radix))
    requires var body := s[|Lead(radix)|..];
      DigitRun(body, radix) == |ds| && |ds| < |body| && body[|ds|] == ';' && body[..|ds|] == ds
    ensures NumericAt(s, radix)
      == Some(Hit(FromCharCode(DigitsValue(ds, Base(radix))), |Lead(radix)| + |ds| + 1))
  {
  }

  /** The digits after the lead, then `;`. */
  lemma NumeralAfterLead(lead: string, ds: string, rest: string, radix: Radix)
    requires forall i | 0 <= i < |ds| :: IsRadixDigit(radix, ds[i])
    ensures StartsWith(lead + ds + ";" + rest, lead)
    ensures var body := (lead + ds + ";" + rest)[|lead|..];
      DigitRun(body, radix) == |ds| && |ds| < |body| && body[|ds|] == ';' && body[..|ds|] == ds
  {
    Regroup(lead, ds, ";", rest);
    DigitRunOfNumeral(ds, ";" + rest, radix);
  }

  /** A pass replaces such a reference by its character and goes on after
      the `;`. */
  lemma NumericEntityDecoded(ds: string, rest: string, radix: Radix)
    requires ds != [] && forall i | 0 <= i < |ds| :: IsRadixDigit(radix, ds[i])
    ensures DecodeNumeric(Lead(radix) + ds + ";" + rest, radix)
      == [FromCharCode(DigitsValue(ds, Base(radix)))] + DecodeNumeric(rest, radix)
  {
    var s := Lead(radix) + ds + ";" + rest;
    NumericEntityAt(ds, rest, radix);
    assert s[|Lead(radix)| + |ds| + 1..] == rest;
  }

  /** A numeric pass copies a piece that starts no reference and has no
      further `&`. */
  lemma NumericChunkKept(e: string, r: string, radix: Radix)
    requires e != [] && '&' !in e[1..] && NumericAt(e + r, radix).None?
    ensures DecodeNumeric(e + r, radix) == e + DecodeNumeric(r, radix)
  {
    assert (e + r)[0] == e[0] && (e + r)[1..] == e[1..] + r;
    NumericSkipsPlain(e[1..], r, radix);
    ConsAppend(e, DecodeNumeric(r, radix));
  }

  // ---------------------------------------------------------------------
  // Named references in general

  /** A replace pass copies a prefix without the pattern's first character. */
  lemma {:induction false} ReplaceSkipsPlain(u: string, v: string, p: string, rep: string)
    requires p != [] && p[0] !in u
    ensures ReplaceAll(u + v, p, rep) == u + ReplaceAll(v, p, rep)
  {
    if u != [] {
      assert u[0] in u;
      assert (u + v)[0] == u[0] && (u + v)[1..] == u[1..] + v;
      assert !StartsWith(u + v, p) by {
        if |p| <= |u + v| { assert (u + v)[..|p|][0] == u[0]; }
      }
      ReplaceSkipsPlain(u[1..], v, p, rep);
      ConsAppend(u, ReplaceAll(v, p, rep));
    } else {
      assert u + v == v && u + ReplaceAll(v, p, rep) == ReplaceAll(v, p, rep);
    }
  }

  /** `s.replace(/p/g, rep)` replaces the leftmost occurrence of `p` and
      goes on after it. */
  lemma ReplaceOccurrence(u: string, v: string, p: string, rep: string)
    requires p != [] && p[0] !in u
    ensures ReplaceAll(u + p + v, p, rep) == u + rep + ReplaceAll(v, p, rep)
  {
    assert u + p + v == u + (p + v);
    ReplaceSkipsPlain(u, p + v, p, rep);
    assert (p + v)[..|p|] == p && (p + v)[|p|..] == v;
  }

  /** A replace pass copies a piece that does not start the pattern and has
      no further occurrence of its first character. */
  lemma ReplaceChunkKept(e: string, r: string, p: string, rep: string)
    requires p != [] && e != [] && p[0] !in e[1..] && !StartsWith(e + r, p)
    ensures ReplaceAll(e + r, p, rep) == e + ReplaceAll(r, p, rep)
  {
    assert (e + r)[0] == e[0] && (e + r)[1..] == e[1..] + r;
    ReplaceSkipsPlain(e[1..], r, p, rep);
    ConsAppend(e, ReplaceAll(r, p, rep));
  }

  /** The entity the `k`-th pass after `&amp;` decodes, and its character. */
  function NamedEntity(k: nat): string
    requires k < 4
  {
    if k == 0 then "&lt;" else if k == 1 then "&gt;" else if k == 2 then "&quot;" else "&apos;"
  }

  function MarkupChar(k: nat): char
    requires k < 4
  {
    if k == 0 then '<' else if k == 1 then '>' else if k == 2 then '"' else '\''
  }

  /** `c` written as its named entity when it is the markup character of
      one of the passes from the `k`-th on. */
  function EscapeChar(c: char, k: nat): string {
    if k <= 0 && c == '<' then "&lt;"
    else if k <= 1 && c == '>' then "&gt;"
    else if k <= 2 && c == '"' then "&quot;"
    else if k <= 3 && c == '\'' then "&apos;"
    else [c]
  }

  function EscapeFrom(s: string, k: nat): string
    decreases |s|
  {
    if s == [] then "" else EscapeChar(s[0], k) + EscapeFrom(s[1..], k)
  }

  /** `<`, `>`, `"` and `'` written as `&lt;`, `&gt;`, `&quot;` and `&apos;`. */
  function EscapeMarkup(s: string): string {
    EscapeFrom(s, 0)
  }

  /** An escaped character starts with `&` only as an entity, whose second
      character names it. */
  lemma EscapeCharShape(c: char, k: nat)
    requires c != '&'
    ensures EscapeChar(c, k) != [] && '&' !in EscapeChar(c, k)[1..]
    ensures EscapeChar(c, k)[0] == '&' ==>
      |EscapeChar(c, k)| >= 4 && EscapeChar(c, k)[1] in "lgqa" && EscapeChar(c, k)[..2] != "&#"
    ensures EscapeChar(c, k)[0] == '&' ==> EscapeChar(c, k) != "&amp;" && EscapeChar(c, k)[..3] != "&am"
  {
  }

  lemma {:induction false} EscapeFromNone(s: string)
    ensures EscapeFrom(s, 4) == s
    decreases |s|
  {
    if s != [] {
      EscapeFromNone(s[1..]);
      assert s == [s[0]] + s[1..];
    }
  }

  /** The numeric passes leave escaped markup alone. */
  lemma {:induction false} NumericKeepsEscaped(s: string, radix: Radix)
    requires '&' !in s
    ensures DecodeNumeric(EscapeMarkup(s), radix) == EscapeMarkup(s)
    decreases |s|
  {
    if s != [] {
      var e := EscapeChar(s[0], 0);
      var r := EscapeFrom(s[1..], 0);
      assert s[0] in s;
      assert '&' !in s[1..] by { assert forall i | 0 <= i < |s| - 1 :: s[1..][i] == s[i + 1]; }
      EscapeCharShape(s[0], 0);
      assert NumericAt(e + r, radix).None? by {
        if e[0] == '&' { assert (e + r)[..2] == e[..2]; }
        else { assert (e + r)[0] == e[0]; }
      }
      NumericChunkKept(e, r, radix);
      NumericKeepsEscaped(s[1..], radix);
    }
  }

  /** The `&amp;` pass leaves escaped markup alone. */
  lemma {:induction false} AmpPassKeeps(s: string)
    requires '&' !in s
    ensures ReplaceAll(EscapeMarkup(s), "&amp;", "&") == EscapeMarkup(s)
    decreases |s|
  {
    if s != [] {
      var e := EscapeChar(s[0], 0);
      var r := EscapeFrom(s[1..], 0);
      assert s[0] in s;
      assert '&' !in s[1..] by { assert forall i | 0 <= i < |s| - 1 :: s[1..][i] == s[i + 1]; }
      EscapeCharShape(s[0], 0);
      assert !StartsWith(e + r, "&amp;") by {
        if e[0] == '&' { assert (e + r)[..3] == e[..3]; }
        else { assert (e + r)[0] == e[0]; }
      }
      ReplaceChunkKept(e, r, "&amp;", "&");
      AmpPassKeeps(s[1..]);
    }
  }

  /** The `k`-th pass after `&amp;` decodes its entity and leaves the other
      escaped characters alone. */
  lemma {:induction false} NamedPassStep(s: string, k: nat)
    requires k < 4 && '&' !in s
    ensures ReplaceAll(EscapeFrom(s, k), NamedEntity(k), [MarkupChar(k)]) == EscapeFrom(s, k + 1)
    decreases |s|
  {
    if s != [] {
      var p := NamedEntity(k);
      var e := EscapeChar(s[0], k);
      var r := EscapeFrom(s[1..], k);
      assert s[0] in s;
      assert '&' !in s[1..] by { assert forall i | 0 <= i < |s| - 1 :: s[1..][i] == s[i + 1]; }
      NamedPassStep(s[1..], k);
      if s[0] == MarkupChar(k) {
        assert e == p && EscapeChar(s[0], k + 1) == [MarkupChar(k)];
        assert (e + r)[..|p|] == p && (e + r)[|p|..] == r;
      } else {
        EscapeCharShape(s[0], k);
        assert EscapeChar(s[0], k + 1) == e;
        assert !StartsWith(e + r, p) by {
          if e[0] == '&' { assert (e + r)[..2] == e[..2]; }
          else { assert (e + r)[0] == e[0]; }
        }
        ReplaceChunkKept(e, r, p, [MarkupChar(k)]);
      }
    }
  }

  /** Round trip: decoding escaped markup gives the text back, for a text
      without `&`. */
  lemma DecodeEscapedMarkup(s: string)
    requires '&' !in s
    ensures DecodeHtmlEntities(EscapeMarkup(s)) == s
  {
    NumericKeepsEscaped(s, Hex);
    NumericKeepsEscaped(s, Dec);
    AmpPassKeeps(s);
    NamedPassStep(s, 0);
    NamedPassStep(s, 1);
    NamedPassStep(s, 2);
    NamedPassStep(s, 3);
    EscapeFromNone(s);
  }

  /** A single numeric reference of either radix, with any non-empty
      numeral, decodes to the character `String.fromCharCode` gives for the
      numeral's value; no later pass touches that one character. */
  lemma DecodeNumericEntity(ds: string, radix: Radix)
    requires ds != [] && forall i | 0 <= i < |ds| :: IsRadixDigit(radix, ds[i])
    ensures DecodeHtmlEntities(Lead(radix) + ds + ";") == [FromCharCode(DigitsValue(ds, Base(radix)))]
  {
    var e := Lead(radix) + ds + ";";
    var c := FromCharCode(DigitsValue(ds, Base(radix)));
    assert e + "" == e;
    NumericEntityDecoded(ds, "", radix);
    OneCharKept(c);
    if radix == Hex {
      assert DecodeNumeric(e, Hex) == [c];
    } else {
      HexPassKeepsDecRef(ds);
      assert DecodeNumeric(e, Hex) == e;
    }
  }

  /** A single character passes the decimal and the named passes unchanged. */
  lemma OneCharKept(c: char)
    ensures DecodeNumeric([c], Dec) == [c] && DecodeNamed([c]) == [c]
  {
    assert [c][1..] == [];
    NumericKeepsUnmatched([c], Dec);
    NamedKeepsUnmatched([c]);
  }

  /** The hexadecimal pass keeps a decimal reference. */
  lemma HexPassKeepsDecRef(ds: string)
    requires ds != [] && forall i | 0 <= i < |ds| :: IsDigit(ds[i])
    ensures DecodeNumeric("&#" + ds + ";", Hex) == "&#" + ds + ";"
  {
    DecRefShape(ds);
    NumericKeepsUnmatched("&#" + ds + ";", Hex);
  }

  /** A decimal reference is not a hexadecimal one and has a single `&`. */
  lemma DecRefShape(ds: string)
    requires ds != [] && forall i | 0 <= i < |ds| :: IsDigit(ds[i])
    ensures var e := "&#" + ds + ";"; e != [] && !StartsWith(e, Lead(Hex)) && '&' !in e[1..]
  {
    var e := "&#" + ds + ";";
    assert e[..3][2] == ds[0] != 'x';
    assert "&#" == "&" + "#";
    Regroup("&", "#", ds, ";");
    forall i | 0 <= i < |ds| ensures ds[i] != '&' { assert IsDigit(ds[i]); }
  }

  /** `&lt;` decodes to `<`. */
  lemma DecodeLt()
    ensures DecodeHtmlEntities("&lt;") == "<"
  {
    assert EscapeMarkup("<") == "&lt;" by {
      assert EscapeFrom("<", 0) == "&lt;" + EscapeFrom("", 0);
    }
    DecodeEscapedMarkup("<");
  }

  /** `&amp;` decodes to `&`. */
  lemma DecodeAmp()
    ensures DecodeHtmlEntities("&amp;") == "&"
  {
    var s := "&amp;";
    assert s[1..] == "amp;" && s[..2] == "&a";
    NumericKeepsUnmatched(s, Hex);
    NumericKeepsUnmatched(s, Dec);
    ReplaceOccurrence("", "", "&amp;", "&");
    assert "" + "&amp;" + "" == s && "" + "&" + ReplaceAll("", "&amp;", "&") == "&";
  }
}
