/** The JavaScript string primitives the scraper relies on, over `seq<char>`:
    `trim` and the regular-expression class `\s`, ASCII digits, `indexOf`,
    `includes`, `Array.prototype.join`, and the leftmost-position search that
    `String.prototype.match` performs with a non-global pattern. */
module Text {
  import opened Wrappers

  /** ECMAScript WhiteSpace and LineTerminator code points: the characters
      that `String.prototype.trim` removes and that `\s` matches. */
  predicate IsSpace(c: char) {
    || c == '\t' || c == '\n' || c == '\U{000B}' || c == '\U{000C}' || c == '\r'
    || c == ' ' || c == '\U{00A0}' || c == '\U{1680}'
    || ('\U{2000}' <= c <= '\U{200A}')
    || c == '\U{2028}' || c == '\U{2029}' || c == '\U{202F}' || c == '\U{205F}'
    || c == '\U{3000}' || c == '\U{FEFF}'
  }

  /** `s.trimStart()`: drops the leading white space and nothing else. */
  function TrimStart(s: string): (r: string)
    ensures |r| <= |s| && r == s[|s| - |r|..]
    ensures forall i | 0 <= i < |s| - |r| :: IsSpace(s[i])
    ensures r != [] ==> !IsSpace(r[0])
  {
    if s != [] && IsSpace(s[0]) then TrimStart(s[1..]) else s
  }

  /** `s.trimEnd()`: drops the trailing white space and nothing else. */
  function TrimEnd(s: string): (r: string)
    ensures |r| <= |s| && r == s[..|r|]
    ensures forall i | |r| <= i < |s| :: IsSpace(s[i])
    ensures r != [] ==> !IsSpace(r[|r| - 1])
  {
    if s != [] && IsSpace(s[|s| - 1]) then TrimEnd(s[..|s| - 1]) else s
  }

  /** `s.trim()`. */
  function Trim(s: string): string {
    TrimEnd(TrimStart(s))
  }

  /** A string `trim` leaves alone. */
  predicate Trimmed(s: string) {
    s == [] || (!IsSpace(s[0]) && !IsSpace(s[|s| - 1]))
  }

  lemma TrimIsTrimmed(s: string)
    ensures Trimmed(Trim(s))
    ensures exists a, b | 0 <= a <= b <= |s| :: Trim(s) == s[a..b]
  {
    var t := TrimStart(s);
    var r := TrimEnd(t);
    assert r == s[|s| - |t|..][..|r|] == s[|s| - |t|..|s| - |t| + |r|];
    if r != [] {
      assert r[0] == t[0];
    }
  }

  lemma TrimChars(s: string)
    ensures forall c | c in Trim(s) :: c in s
  {
    var t := TrimStart(s);
    var r := TrimEnd(t);
    forall c | c in r ensures c in s {
      var i :| 0 <= i < |r| && r[i] == c;
      assert t[i] == c;
      assert s[|s| - |t| + i] == c;
    }
  }

  /** Trimming a string that starts with a non-space character leaves that
      character in front. */
  lemma TrimKeepsFirst(s: string)
    requires s != [] && !IsSpace(s[0])
    ensures Trim(s) != [] && Trim(s)[0] == s[0]
  {
  }

  lemma {:induction false} TrimKeepsTrimmed(s: string)
    requires Trimmed(s)
    ensures Trim(s) == s
  {
  }

  predicate AllSpaces(ws: string) {
    forall i | 0 <= i < |ws| :: IsSpace(ws[i])
  }

  /** Leading white space does not change what `trim` returns. */
  lemma {:induction false} TrimSkipsSpaces(ws: string, t: string)
    requires AllSpaces(ws)
    ensures Trim(ws + t) == Trim(t)
    decreases |ws|
  {
    if ws == [] {
      assert ws + t == t;
    } else {
      assert (ws + t)[0] == ws[0];
      assert (ws + t)[1..] == ws[1..] + t;
      assert AllSpaces(ws[1..]) by {
        forall i | 0 <= i < |ws| - 1 ensures IsSpace(ws[1..][i]) {
          assert ws[1..][i] == ws[i + 1];
        }
      }
      TrimSkipsSpaces(ws[1..], t);
    }
  }

  /** `trimEnd` of a string that continues a piece ending in a non-space
      character only touches the continuation. */
  lemma {:induction false} TrimEndAppend(u: string, v: string)
    requires u != [] && !IsSpace(u[|u| - 1])
    ensures TrimEnd(u + v) == u + TrimEnd(v)
    decreases |v|
  {
    if v == [] {
      assert u + v == u;
    } else if IsSpace(v[|v| - 1]) {
      assert (u + v)[..|u + v| - 1] == u + v[..|v| - 1];
      TrimEndAppend(u, v[..|v| - 1]);
    }
  }

  /** `trim` of a piece with non-space ends followed by more text trims only
      the end of that text. */
  lemma TrimAppend(u: string, v: string)
    requires u != [] && !IsSpace(u[0]) && !IsSpace(u[|u| - 1])
    ensures Trim(u + v) == u + TrimEnd(v)
  {
    assert (u + v)[0] == u[0];
    TrimEndAppend(u, v);
  }

  /** The trimmed text before the first `c` of `u v`, when `u` has no `c`
      and no white space at its ends, is `u` followed by the end-trimmed
      text before the first `c` of `v`. */
  lemma TrimBeforeFirstAppend(u: string, v: string, c: char)
    requires u != [] && c !in u && !IsSpace(u[0]) && !IsSpace(u[|u| - 1])
    ensures Trim(BeforeFirst(u + v, c)) == u + TrimEnd(BeforeFirst(v, c))
  {
    BeforeFirstAppend(u, v, c);
    TrimAppend(u, BeforeFirst(v, c));
  }

  /** A string of white space trims to the empty string. */
  lemma TrimAllSpaces(ws: string)
    requires AllSpaces(ws)
    ensures Trim(ws) == []
  {
    TrimSkipsSpaces(ws, []);
    assert ws + [] == ws;
  }

  /** Position of the first `c` in `s`, or `|s|` when there is none:
      `indexOf` with "not found" mapped to the end of the string. */
  function Find(s: string, c: char): (k: nat)
    ensures k <= |s| && c !in s[..k]
    ensures k < |s| ==> s[k] == c
  {
    if s == [] then 0
    else if s[0] == c then 0
    else
      var k := 1 + Find(s[1..], c);
      assert s[..k] == [s[0]] + s[1..][..k - 1];
      k
  }

  /** The text before the first `c`: `s.split(c)[0]`. */
  function BeforeFirst(s: string, c: char): (r: string)
    ensures |r| <= |s| && c !in r && r == s[..|r|]
    ensures |r| < |s| ==> s[|r|] == c
  {
    s[..Find(s, c)]
  }

  /** The text after the first `c`, if `s` has one. */
  function AfterFirst(s: string, c: char): (r: Option<string>)
    ensures r.None? <==> c !in s
    ensures r.Some? ==> s == BeforeFirst(s, c) + [c] + r.value
  {
    var k := Find(s, c);
    if k < |s| then
      assert s == s[..k] + [c] + s[k + 1..];
      Some(s[k + 1..])
    else
      assert s[..k] == s;
      None
  }

  /** `BeforeFirst` is the one prefix without `c` that stops at a `c` or
      at the end. */
  lemma BeforeFirstUnique(s: string, c: char, r: string)
    requires |r| <= |s| && r == s[..|r|] && c !in r && (|r| < |s| ==> s[|r|] == c)
    ensures BeforeFirst(s, c) == r
  {
  }

  /** A prefix without `c` is kept whole in front of the part of the rest
      before its first `c`. */
  lemma BeforeFirstAppend(u: string, v: string, c: char)
    requires c !in u
    ensures BeforeFirst(u + v, c) == u + BeforeFirst(v, c)
  {
    var bv := BeforeFirst(v, c);
    var r := u + bv;
    assert (u + v)[..|r|] == r by { assert v[..|bv|] == bv; }
    assert |r| < |u + v| ==> (u + v)[|r|] == v[|bv|];
    BeforeFirstUnique(u + v, c, r);
  }

  predicate StartsWith(s: string, prefix: string) {
    |prefix| <= |s| && s[..|prefix|] == prefix
  }

  /** `sub` occurs in `s` starting at position `i`. */
  predicate OccursAt(s: string, sub: string, i: int) {
    0 <= i <= |s| - |sub| && s[i..i + |sub|] == sub
  }

  /** `s.includes(sub)`. */
  function Contains(s: string, sub: string): (b: bool)
    ensures b <==> exists i :: OccursAt(s, sub, i)
    decreases |s|
  {
    if StartsWith(s, sub) then
      assert OccursAt(s, sub, 0);
      true
    else if s == [] then
      assert forall i :: !OccursAt(s, sub, i);
      false
    else
      var b := Contains(s[1..], sub);
      assert b ==> exists i :: OccursAt(s, sub, i) by {
        if b {
          var i :| OccursAt(s[1..], sub, i);
          assert s[i + 1..i + 1 + |sub|] == s[1..][i..i + |sub|];
          assert OccursAt(s, sub, i + 1);
        }
      }
      assert forall i :: OccursAt(s, sub, i) ==> b by {
        forall i | OccursAt(s, sub, i) ensures b {
          assert i != 0;
          assert s[1..][i - 1..i - 1 + |sub|] == s[i..i + |sub|];
          assert OccursAt(s[1..], sub, i - 1);
        }
      }
      b
  }

  /** How many characters from position `k` on satisfy `p`: what a greedy
      repetition of a one-character class consumes there. */
  function RunLength(s: string, k: nat, p: char -> bool): (n: nat)
    requires k <= |s|
    ensures k + n <= |s|
    ensures forall i | k <= i < k + n :: p(s[i])
    ensures k + n < |s| ==> !p(s[k + n])
    decreases |s| - k
  {
    if k < |s| && p(s[k]) then 1 + RunLength(s, k + 1, p) else 0
  }

  lemma SliceSplit<T>(s: seq<T>, a: nat, b: nat, c: nat)
    requires a <= b <= c <= |s|
    ensures s[a..c] == s[a..b] + s[b..c]
  {
  }

  /** Putting the head back in front of the tail and a suffix. */
  lemma ConsAppend<T>(s: seq<T>, x: seq<T>)
    requires s != []
    ensures [s[0]] + (s[1..] + x) == s + x
  {
    assert s == [s[0]] + s[1..];
  }

  /** A string of four pieces, split after the first. */
  lemma Regroup<T>(a: seq<T>, b: seq<T>, c: seq<T>, d: seq<T>)
    ensures a + b + c + d == a + (b + (c + d))
    ensures (a + b + c + d)[..|a|] == a && (a + b + c + d)[|a|..] == b + (c + d)
  {
  }

  lemma RegroupFront<T>(a: seq<T>, b: seq<T>, c: seq<T>, d: seq<T>)
    ensures a + b + c + d == a + (b + c + d)
  {
  }

  /** A run that starts with `j - k` matching characters is that much longer
      than the run from `j`. */
  lemma {:induction false} RunLengthSkip(s: string, k: nat, j: nat, p: char -> bool)
    requires k <= j <= |s|
    requires forall i | k <= i < j :: p(s[i])
    ensures RunLength(s, k, p) == j - k + RunLength(s, j, p)
    decreases j - k
  {
    if k < j {
      RunLengthSkip(s, k + 1, j, p);
    }
  }

  /** ASCII case folding. Under the `i` flag without `u`, a character is
      compared by its upper-case form, and a non-ASCII character never folds
      onto an ASCII one; so for an ASCII pattern this is exactly the
      comparison the flag makes. */
  function Lower(c: char): char {
    if 'A' <= c <= 'Z' then (c as int - 'A' as int + 'a' as int) as char else c
  }

  /** `sub` occurs in `s` at position `i`, ignoring ASCII case. */
  predicate OccursAtIgnoreCase(s: string, sub: string, i: int) {
    0 <= i <= |s| - |sub| && forall k | 0 <= k < |sub| :: Lower(s[i + k]) == Lower(sub[k])
  }

  /** `parts.join(sep)`. */
  function Join(parts: seq<string>, sep: string): string {
    if parts == [] then ""
    else if |parts| == 1 then parts[0]
    else parts[0] + sep + Join(parts[1..], sep)
  }

  // ---------------------------------------------------------------------
  // Digits

  /** The regular-expression class `\d` (ASCII digits only). */
  predicate IsDigit(c: char) {
    '0' <= c <= '9'
  }

  predicate IsHexDigit(c: char) {
    IsDigit(c) || ('a' <= c <= 'f') || ('A' <= c <= 'F')
  }

  function DigitValue(c: char): (v: nat)
    ensures IsHexDigit(c) ==> v < 16
    ensures IsDigit(c) ==> v < 10
  {
    if IsDigit(c) then c as int - '0' as int
    else if 'a' <= c <= 'f' then c as int - 'a' as int + 10
    else if 'A' <= c <= 'F' then c as int - 'A' as int + 10
    else 0
  }

  /** `parseInt(ds, base)` of a string made only of digits of that base:
      the digits read most significant first. */
  function DigitsValue(ds: string, base: nat): nat {
    if ds == [] then 0
    else DigitsValue(ds[..|ds| - 1], base) * base + DigitValue(ds[|ds| - 1])
  }

  function DigitChar(d: nat): char
    requires d < 10
  {
    ('0' as int + d) as char
  }

  /** The decimal numeral of `n`, without leading zeros. */
  function DecimalString(n: nat): (ds: string)
    ensures ds != [] && forall i | 0 <= i < |ds| :: IsDigit(ds[i])
  {
    if n < 10 then [DigitChar(n)] else DecimalString(n / 10) + [DigitChar(n % 10)]
  }

  lemma {:induction false} DecimalStringValue(n: nat)
    ensures DigitsValue(DecimalString(n), 10) == n
  {
    var ds := DecimalString(n);
    if n < 10 {
      assert ds[..0] == [];
    } else {
      assert ds[..|ds| - 1] == DecimalString(n / 10);
      DecimalStringValue(n / 10);
    }
  }

  /** Only the digits of `s`, in order: `s.replace(/\D/g, '')`. */
  function KeepDigits(s: string): (r: string)
    ensures |r| <= |s|
    ensures forall i | 0 <= i < |r| :: IsDigit(r[i])
  {
    if s == [] then ""
    else (if IsDigit(s[0]) then [s[0]] else "") + KeepDigits(s[1..])
  }

  lemma {:induction false} KeepDigitsAppend(a: string, b: string)
    ensures KeepDigits(a + b) == KeepDigits(a) + KeepDigits(b)
  {
    if a != [] {
      assert (a + b)[1..] == a[1..] + b;
      KeepDigitsAppend(a[1..], b);
    } else {
      assert a + b == b;
    }
  }

  lemma {:induction false} KeepDigitsOfDigits(s: string)
    requires forall i | 0 <= i < |s| :: IsDigit(s[i])
    ensures KeepDigits(s) == s
  {
    if s != [] {
      KeepDigitsOfDigits(s[1..]);
    }
  }

  // ---------------------------------------------------------------------
  // Leftmost match

  /** The first position `k` in `i..n` at which `f` matches, and what it
      matched there: how a non-global regular expression is tried at every
      position from the left until one succeeds. */
  function FirstMatch<T>(f: nat -> Option<T>, i: nat, n: nat): Option<T>
    decreases n - i
  {
    if i >= n then None
    else if f(i).Some? then f(i)
    else FirstMatch(f, i + 1, n)
  }

  /** A match found is what `f` gives at some position with no match
      before it; no match is found iff there is none in `i..n`. */
  lemma {:induction false} FirstMatchSpec<T>(f: nat -> Option<T>, i: nat, n: nat)
    ensures FirstMatch(f, i, n).Some? ==>
      exists k | i <= k < n :: f(k) == FirstMatch(f, i, n) && forall j | i <= j < k :: f(j).None?
    ensures FirstMatch(f, i, n).None? <==> forall j | i <= j < n :: f(j).None?
    decreases n - i
  {
    if i < n {
      if f(i).None? {
        FirstMatchSpec(f, i + 1, n);
      }
    }
  }

  lemma {:induction false} FirstMatchAt<T>(f: nat -> Option<T>, i: nat, k: nat, n: nat)
    requires i <= k < n && f(k).Some?
    requires forall j | i <= j < k :: f(j).None?
    ensures FirstMatch(f, i, n) == f(k)
    decreases k - i
  {
    if i < k {
      FirstMatchAt(f, i + 1, k, n);
    }
  }
}
