/** `CookieManager` (src/index.ts:55-83): the per-scan table of cookies taken
    from the viewer page's `Set-Cookie` header and replayed, as one `Cookie`
    header, on the follow-up request. */
module Cookies {
  import opened Wrappers
  import opened Text

  const Localization := "localization"
  const DefaultLocale := "sr-Cyrl-RS"
  /** What `getCookieString` sends when the table is empty. */
  const DefaultCookie := "localization=sr-Cyrl-RS"

  datatype Cookie = Cookie(name: string, value: string)

  /** `response.headers['set-cookie']`: absent, one string, or an array. */
  datatype SetCookieHeader = Absent | One(line: string) | Many(lines: seq<string>)

  /** `!setCookieHeader`: `undefined` and the empty string are falsy; an
      array, even an empty one, is not. */
  predicate Falsy(h: SetCookieHeader) {
    h.Absent? || (h.One? && h.line == "")
  }

  /** The header as a list of cookie strings (`[setCookieHeader]` for one). */
  function Lines(h: SetCookieHeader): seq<string> {
    match h
    case Absent => []
    case One(line) => [line]
    case Many(lines) => lines
  }

  /** The contents of the JavaScript `Map`: its entries, and its keys in
      first-insertion order, which is the order `Map.forEach` visits them. */
  datatype Jar = Jar(values: map<string, string>, names: seq<string>)

  const EmptyJar := Jar(map[], [])

  /** The order lists every key exactly once. */
  ghost predicate WellFormed(j: Jar) {
    && (forall i, k | 0 <= i < k < |j.names| :: j.names[i] != j.names[k])
    && (forall n :: n in j.values <==> n in j.names)
  }

  /** `Map.prototype.set`: a new key goes to the end of the order, an
      existing one keeps its place and gets the new value. */
  function Put(j: Jar, name: string, value: string): Jar {
    Jar(j.values[name := value], if name in j.values then j.names else j.names + [name])
  }

  lemma PutWellFormed(j: Jar, name: string, value: string)
    requires WellFormed(j)
    ensures WellFormed(Put(j, name, value))
  {
  }

  /** How one `Set-Cookie` string is read (src/index.ts:64-68): the first
      `;`-segment, trimmed; the name is the text before the first `=`, the
      value the text between the first and second `=`; both must be
      non-empty before they are trimmed. */
  function ParseLine(s: string): Option<Cookie> {
    var parts := Trim(BeforeFirst(s, ';'));
    var name := BeforeFirst(parts, '=');
    match AfterFirst(parts, '=')
    case None => None
    case Some(rest) =>
      var value := BeforeFirst(rest, '=');
      if name != [] && value != [] then Some(Cookie(Trim(name), Trim(value))) else None
  }

  /** One iteration of the `forEach` over the cookie strings. */
  function Step(j: Jar, line: string): Jar {
    match ParseLine(line)
    case Some(c) => Put(j, c.name, c.value)
    case None => j
  }

  /** The table after the `forEach` has visited every string of `lines`. */
  function Absorb(j: Jar, lines: seq<string>): Jar
    decreases |lines|
  {
    if lines == [] then j
    else Step(Absorb(j, lines[..|lines| - 1]), lines[|lines| - 1])
  }

  /** The `forEach` visits the strings one at a time. */
  lemma AbsorbNext(j: Jar, lines: seq<string>, i: nat)
    requires i < |lines|
    ensures Absorb(j, lines[..i + 1]) == Step(Absorb(j, lines[..i]), lines[i])
  {
    assert lines[..i + 1][..i] == lines[..i];
  }

  lemma {:induction false} AbsorbWellFormed(j: Jar, lines: seq<string>)
    requires WellFormed(j)
    ensures WellFormed(Absorb(j, lines))
    decreases |lines|
  {
    if lines != [] {
      var prev := Absorb(j, lines[..|lines| - 1]);
      AbsorbWellFormed(j, lines[..|lines| - 1]);
      match ParseLine(lines[|lines| - 1])
      case Some(c) => PutWellFormed(prev, c.name, c.value);
      case None =>
    }
  }

  /** The default locale entry added after the loop when none is present. */
  function Finish(j: Jar): Jar {
    if Localization in j.values then j else Put(j, Localization, DefaultLocale)
  }

  /** `parseCookies(setCookieHeader)` as a function of the table before. */
  function ParseHeader(j: Jar, h: SetCookieHeader): (r: Jar)
    ensures Falsy(h) ==> r == j
    ensures !Falsy(h) ==> Localization in r.values
  {
    if Falsy(h) then j else Finish(Absorb(j, Lines(h)))
  }

  lemma ParseHeaderWellFormed(j: Jar, h: SetCookieHeader)
    requires WellFormed(j)
    ensures WellFormed(ParseHeader(j, h))
  {
    if !Falsy(h) {
      AbsorbWellFormed(j, Lines(h));
      PutWellFormed(Absorb(j, Lines(h)), Localization, DefaultLocale);
    }
  }

  /** `name=value` for every key, in first-insertion order. */
  function Entries(names: seq<string>, values: map<string, string>): (es: seq<string>)
    requires forall i | 0 <= i < |names| :: names[i] in values
    ensures |es| == |names|
  {
    if names == [] then []
    else Entries(names[..|names| - 1], values) + [names[|names| - 1] + "=" + values[names[|names| - 1]]]
  }

  /** The `i`-th entry is the `i`-th name, `=`, and its value. */
  lemma {:induction false} EntriesAt(names: seq<string>, values: map<string, string>, i: nat)
    requires forall k | 0 <= k < |names| :: names[k] in values
    requires i < |names|
    ensures Entries(names, values)[i] == names[i] + "=" + values[names[i]]
    decreases |names|
  {
    if i < |names| - 1 {
      EntriesAt(names[..|names| - 1], values, i);
    }
  }

  /** `getCookieString()` as a function of the table. */
  function Serialize(j: Jar): (s: string)
    requires WellFormed(j)
    ensures j.names == [] ==> s == DefaultCookie
  {
    if j.names == [] then DefaultCookie else Join(Entries(j.names, j.values), "; ")
  }

  // ---------------------------------------------------------------------
  // How one header string is read

  /** A name or value that survives `ParseLine` unchanged. */
  predicate Clean(x: string) {
    x != [] && Trimmed(x) && ';' !in x && '=' !in x
  }

  /** Every entry `ParseLine` produces has a non-empty name; neither part
      has white space at its ends or contains `;` or `=`. */
  lemma ParseLineShape(s: string)
    ensures ParseLine(s).Some? ==> Clean(ParseLine(s).value.name)
    ensures ParseLine(s).Some? ==> Trimmed(ParseLine(s).value.value)
    ensures ParseLine(s).Some? ==> ';' !in ParseLine(s).value.value && '=' !in ParseLine(s).value.value
  {
    var seg := BeforeFirst(s, ';');
    var parts := Trim(seg);
    TrimChars(seg);
    TrimIsTrimmed(seg);
    var name := BeforeFirst(parts, '=');
    match AfterFirst(parts, '=')
    case None =>
    case Some(rest) =>
      var value := BeforeFirst(rest, '=');
      if name != [] && value != [] {
        assert parts == name + "=" + rest;
        assert parts[0] == name[0];
        assert forall c | c in name :: c in parts;
        assert forall c | c in value :: c in rest;
        assert forall c | c in rest :: c in parts;
        TrimKeepsFirst(name);
        TrimChars(name);
        TrimIsTrimmed(name);
        TrimChars(value);
        TrimIsTrimmed(value);
      }
  }

  /** A `name=value` string, optionally followed by `;` and attributes such
      as `Path=/`, is read back as exactly that cookie. */
  lemma ParseLineOfEntry(name: string, value: string, attrs: string)
    requires Clean(name) && Clean(value)
    requires attrs == [] || attrs[0] == ';'
    ensures ParseLine(name + "=" + value + attrs) == Some(Cookie(name, value))
  {
    var entry := name + "=" + value;
    assert Trim(BeforeFirst(entry + attrs, ';')) == entry by {
      assert ';' !in entry;
      BeforeFirstStops(entry, attrs, ';');
      assert entry[0] == name[0] && entry[|entry| - 1] == value[|value| - 1];
      TrimKeepsTrimmed(entry);
    }
    assert BeforeFirst(value, '=') == value by {
      BeforeFirstStops(value, "", '=');
      assert value + "" == value;
    }
    ParseLineSplit(entry + attrs, name, value);
    TrimKeepsTrimmed(name);
    TrimKeepsTrimmed(value);
  }

  lemma BeforeFirstStops(u: string, v: string, c: char)
    requires c !in u && (v == [] || v[0] == c)
    ensures BeforeFirst(u + v, c) == u
  {
    assert (u + v)[..|u|] == u;
  }

  /** Splitting at the first `c` of `u c v` gives `u` and `v`. */
  lemma SplitAtFirst(u: string, c: char, v: string)
    requires c !in u
    ensures BeforeFirst(u + [c] + v, c) == u
    ensures AfterFirst(u + [c] + v, c) == Some(v)
  {
    assert u + [c] + v == u + ([c] + v);
    BeforeFirstStops(u, [c] + v, c);
    assert (u + [c] + v)[|u| + 1..] == v;
  }

  /** `ParseLine` once the trimmed first segment is known to be
      `name=rest`. */
  lemma ParseLineSplit(s: string, name: string, rest: string)
    requires Trim(BeforeFirst(s, ';')) == name + "=" + rest
    requires '=' !in name && name != [] && BeforeFirst(rest, '=') != []
    ensures ParseLine(s) == Some(Cookie(Trim(name), Trim(BeforeFirst(rest, '='))))
  {
    SplitAtFirst(name, '=', rest);
  }

  /** The value stops at the second `=`, whatever follows it: `a=b=c`
      gives `a` the value `b`. */
  lemma ParseLineSecondEquals(name: string, value: string, more: string)
    requires Clean(name) && Clean(value)
    ensures ParseLine(name + "=" + value + "=" + more) == Some(Cookie(name, value))
  {
    var u := name + "=" + value + "=";
    var s := u + more;
    var tail := TrimEnd(BeforeFirst(more, ';'));
    var rest := value + "=" + tail;
    assert ';' !in u && u[0] == name[0] && u[|u| - 1] == '=';
    TrimBeforeFirstAppend(u, more, ';');
    RegroupFront(name + "=", value, "=", tail);
    SplitAtFirst(value, '=', tail);
    ParseLineSplit(s, name, rest);
    TrimKeepsTrimmed(name);
    TrimKeepsTrimmed(value);
  }

  /** A string yields an entry iff its trimmed first segment has a non-empty
      name piece, an `=`, and a non-empty value piece; otherwise it is
      skipped. */
  lemma ParseLineWhen(s: string)
    ensures var parts := Trim(BeforeFirst(s, ';'));
      ParseLine(s).Some? <==>
        && BeforeFirst(parts, '=') != []
        && AfterFirst(parts, '=').Some?
        && BeforeFirst(AfterFirst(parts, '=').value, '=') != []
  {
  }

  lemma ParseLineSecondEqualsExample()
    ensures ParseLine("a=b=c") == Some(Cookie("a", "b"))
  {
    assert "a=b=c" == "a" + "=" + "b" + "=" + "c";
    ParseLineSecondEquals("a", "b", "c");
  }

  /** Attributes after the first `;` are ignored. */
  lemma ParseLineAttributes()
    ensures ParseLine("SESSION=xyz; Path=/") == Some(Cookie("SESSION", "xyz"))
  {
    assert "SESSION=xyz; Path=/" == "SESSION" + "=" + "xyz" + "; Path=/";
    ParseLineOfEntry("SESSION", "xyz", "; Path=/");
  }

  /** An empty name is skipped. */
  lemma ParseLineSkipsEmptyName()
    ensures ParseLine("=x") == None
  {
    assert BeforeFirst("=x", ';') == "=x" by { BeforeFirstStops("=x", "", ';'); assert "=x" + "" == "=x"; }
    assert Trim("=x") == "=x" by { TrimKeepsTrimmed("=x"); }
    assert BeforeFirst("=x", '=') == "";
  }

  /** A string without `=` has no value and is skipped. */
  lemma ParseLineSkipsMissingValue()
    ensures ParseLine("a") == None
  {
    assert BeforeFirst("a", ';') == "a" by { BeforeFirstStops("a", "", ';'); assert "a" + "" == "a"; }
    assert Trim("a") == "a" by { TrimKeepsTrimmed("a"); }
    assert AfterFirst("a", '=') == None;
  }

  /** An empty value is skipped. */
  lemma ParseLineSkipsEmptyValue()
    ensures ParseLine("a=") == None
  {
    assert BeforeFirst("a=", ';') == "a=" by { BeforeFirstStops("a=", "", ';'); assert "a=" + "" == "a="; }
    assert Trim("a=") == "a=" by { TrimKeepsTrimmed("a="); }
    assert BeforeFirst("a=", '=') == "a" by { BeforeFirstStops("a", "=", '='); assert "a" + "=" == "a="; }
    assert "a="[1] == '=' && "a="[2..] == "";
    assert AfterFirst("a=", '=') == Some("");
  }

  // ---------------------------------------------------------------------
  // What the table holds after a header

  /** The value that the last string of `lines` naming `n` carries: later
      strings overwrite earlier ones. */
  function LastValue(lines: seq<string>, n: string): Option<string>
    decreases |lines|
  {
    if lines == [] then None
    else match ParseLine(lines[|lines| - 1])
      case Some(c) => if c.name == n then Some(c.value) else LastValue(lines[..|lines| - 1], n)
      case None => LastValue(lines[..|lines| - 1], n)
  }

  /** A name is in the table afterwards iff it was there before or some
      string names it; its value is the one of the last string naming it,
      and otherwise the value it had. */
  lemma {:induction false} AbsorbLastWins(j: Jar, lines: seq<string>, n: string)
    ensures n in Absorb(j, lines).values <==> n in j.values || LastValue(lines, n).Some?
    ensures n in Absorb(j, lines).values ==>
      Absorb(j, lines).values[n] == (match LastValue(lines, n) case Some(v) => v case None => j.values[n])
    decreases |lines|
  {
    if lines != [] {
      AbsorbLastWins(j, lines[..|lines| - 1], n);
    }
  }

  /** After a header that is not falsy, `localization` holds the value the
      last server string gave it; failing that, the value the table had;
      and only failing both the default `sr-Cyrl-RS`. */
  lemma LocaleEntry(j: Jar, h: SetCookieHeader)
    requires !Falsy(h)
    ensures ParseHeader(j, h).values[Localization] ==
      match LastValue(Lines(h), Localization)
      case Some(v) => v
      case None => if Localization in j.values then j.values[Localization] else DefaultLocale
  {
    AbsorbLastWins(j, Lines(h), Localization);
  }

  /** The names of the strings that parse, in order. */
  function NamesOf(lines: seq<string>): seq<string>
    decreases |lines|
  {
    if lines == [] then []
    else NamesOf(lines[..|lines| - 1]) + match ParseLine(lines[|lines| - 1])
      case Some(c) => [c.name]
      case None => []
  }

  /** `ns` with the names in `known` and every repeat removed: each new
      name once, at its first occurrence. */
  function Fresh(known: set<string>, ns: seq<string>): seq<string>
    decreases |ns|
  {
    if ns == [] then []
    else
      var init := ns[..|ns| - 1];
      var last := ns[|ns| - 1];
      Fresh(known, init) + if last in known || last in init then [] else [last]
  }

  lemma {:induction false} LastValueNamed(lines: seq<string>, n: string)
    ensures LastValue(lines, n).Some? <==> n in NamesOf(lines)
    decreases |lines|
  {
    if lines != [] {
      LastValueNamed(lines[..|lines| - 1], n);
    }
  }

  /** Names already in the table keep their places, and each new name is
      added once, in the order of its first string. */
  lemma {:induction false} AbsorbOrder(j: Jar, lines: seq<string>)
    ensures Absorb(j, lines).names == j.names + Fresh(j.values.Keys, NamesOf(lines))
    decreases |lines|
  {
    if lines != [] {
      var init := lines[..|lines| - 1];
      var prev := Absorb(j, init);
      AbsorbOrder(j, init);
      match ParseLine(lines[|lines| - 1])
      case Some(c) =>
        assert NamesOf(lines) == NamesOf(init) + [c.name];
        AbsorbLastWins(j, init, c.name);
        LastValueNamed(init, c.name);
        FreshPut(j, prev, NamesOf(init), c.name, c.value);
      case None =>
        assert NamesOf(lines) == NamesOf(init);
    }
  }

  /** Putting a name keeps the order property when the name is in the table
      exactly if it was known or already seen. */
  lemma FreshPut(j: Jar, prev: Jar, seen: seq<string>, name: string, value: string)
    requires prev.names == j.names + Fresh(j.values.Keys, seen)
    requires (name in prev.values) == (name in j.values.Keys || name in seen)
    ensures Put(prev, name, value).names == j.names + Fresh(j.values.Keys, seen + [name])
  {
    var ns := seen + [name];
    assert ns[..|ns| - 1] == seen && ns[|ns| - 1] == name;
    var prior := Fresh(j.values.Keys, seen);
    if name in prev.values {
      assert prior + [] == prior;
    } else {
      assert j.names + (prior + [name]) == (j.names + prior) + [name];
    }
  }

  /** Setting an existing name keeps the order; a new name goes last. */
  lemma PutOrder(j: Jar, name: string, value: string)
    ensures name in j.values ==> Put(j, name, value).names == j.names
    ensures name !in j.values ==> Put(j, name, value).names == j.names + [name]
    ensures Put(j, name, value).values[name] == value
  {
  }

  // ---------------------------------------------------------------------
  // Replaying the table

  /** Every entry can be read back by `ParseLine`. */
  ghost predicate Replayable(j: Jar) {
    WellFormed(j) && forall n | n in j.values :: Clean(n) && Clean(j.values[n])
  }

  ghost predicate Distinct(ns: seq<string>) {
    forall i, k | 0 <= i < k < |ns| :: ns[i] != ns[k]
  }

  ghost predicate CleanEntries(ns: seq<string>, values: map<string, string>) {
    forall i | 0 <= i < |ns| :: ns[i] in values && Clean(ns[i]) && Clean(values[ns[i]])
  }

  /** The entries of `values` for the names `ns`, entered in order. */
  function Restrict(ns: seq<string>, values: map<string, string>): map<string, string>
    requires forall i | 0 <= i < |ns| :: ns[i] in values
    decreases |ns|
  {
    if ns == [] then map[] else Restrict(ns[..|ns| - 1], values)[ns[|ns| - 1] := values[ns[|ns| - 1]]]
  }

  lemma {:induction false} RestrictAgrees(ns: seq<string>, values: map<string, string>)
    requires forall i | 0 <= i < |ns| :: ns[i] in values
    ensures forall n :: n in Restrict(ns, values) <==> n in ns
    ensures forall n | n in Restrict(ns, values) :: Restrict(ns, values)[n] == values[n]
    decreases |ns|
  {
    if ns != [] {
      RestrictAgrees(ns[..|ns| - 1], values);
      Snoc(ns);
    }
  }

  lemma Snoc<T>(s: seq<T>)
    requires s != []
    ensures s == s[..|s| - 1] + [s[|s| - 1]]
  {
  }

  /** Reading the entries for distinct clean names back, in order, into an
      empty table gives exactly those names, in that order. */
  lemma {:induction false} ReplayNames(ns: seq<string>, values: map<string, string>)
    requires Distinct(ns) && CleanEntries(ns, values)
    ensures Absorb(EmptyJar, Entries(ns, values)) == Jar(Restrict(ns, values), ns)
    decreases |ns|
  {
    if ns != [] {
      var init := ns[..|ns| - 1];
      var n := ns[|ns| - 1];
      var v := values[n];
      assert Clean(n) && Clean(v);
      var es := Entries(init, values);
      var prev := Jar(Restrict(init, values), init);
      ReplayNames(init, values);
      assert n !in prev.values by {
        RestrictAgrees(init, values);
        assert forall i | 0 <= i < |init| :: init[i] != n;
      }
      AbsorbAppend(EmptyJar, es, n + "=" + v);
      StepEntry(prev, n, v);
      Snoc(ns);
    }
  }

  lemma AbsorbAppend(j: Jar, lines: seq<string>, line: string)
    ensures Absorb(j, lines + [line]) == Step(Absorb(j, lines), line)
  {
    assert (lines + [line])[..|lines|] == lines;
  }

  /** One table entry read back as a header string. */
  lemma StepEntry(j: Jar, n: string, v: string)
    requires Clean(n) && Clean(v)
    ensures Step(j, n + "=" + v) == Put(j, n, v)
  {
    ParseLineOfEntry(n, v, "");
    assert n + "=" + v + "" == n + "=" + v;
  }

  /** Reading the table's own `name=value` entries back as `Set-Cookie`
      strings, into an empty table, rebuilds the table. */
  lemma Replay(j: Jar)
    requires Replayable(j)
    ensures Absorb(EmptyJar, Entries(j.names, j.values)) == j
  {
    assert CleanEntries(j.names, j.values);
    ReplayNames(j.names, j.values);
    RestrictAll(j);
  }

  /** Entering every name of a well-formed table gives its whole map. */
  lemma RestrictAll(j: Jar)
    requires WellFormed(j)
    ensures Restrict(j.names, j.values) == j.values
  {
    RestrictAgrees(j.names, j.values);
  }

  class CookieManager {
    var cookies: map<string, string>
    /** The keys of `cookies` in the order the `Map` keeps them. */
    var names: seq<string>

    ghost predicate Valid()
      reads this
    {
      WellFormed(Jar(cookies, names))
    }

    function Contents(): Jar
      reads this
    {
      Jar(cookies, names)
    }

    constructor ()
      ensures Valid() && Contents() == EmptyJar
    {
      cookies := map[];
      names := [];
    }

    /** `this.cookies.set(name, value)`. */
    method Set(name: string, value: string)
      requires Valid()
      modifies this
      ensures Valid()
      ensures Contents() == Put(old(Contents()), name, value)
    {
      if name !in cookies {
        names := names + [name];
      }
      cookies := cookies[name := value];
    }

    /** The callback the `forEach` runs on each cookie string. */
    method Visit(line: string)
      requires Valid()
      modifies this
      ensures Valid()
      ensures Contents() == Step(old(Contents()), line)
    {
      var c := ParseLine(line);
      if c.Some? {
        Set(c.value.name, c.value.value);
      }
    }

    method ParseCookies(header: SetCookieHeader)
      requires Valid()
      modifies this
      ensures Valid()
      ensures Contents() == ParseHeader(old(Contents()), header)
    {
      if Falsy(header) {
        return;
      }
      ForEach(Lines(header));
      if Localization !in cookies {
        Set(Localization, DefaultLocale);
      }
    }

    /** `cookieHeaders.forEach(…)`: the callback on each string in turn. */
    method ForEach(lines: seq<string>)
      requires Valid()
      modifies this
      ensures Valid()
      ensures Contents() == Absorb(old(Contents()), lines)
    {
      for i := 0 to |lines|
        invariant Valid()
        invariant Contents() == Absorb(old(Contents()), lines[..i])
      {
        AbsorbNext(old(Contents()), lines, i);
        Visit(lines[i]);
      }
      assert lines[..|lines|] == lines;
    }

    method GetCookieString() returns (s: string)
      requires Valid()
      ensures s == Serialize(Contents())
    {
      var parts: seq<string> := [];
      for i := 0 to |names|
        invariant parts == Entries(names[..i], cookies)
      {
        assert names[..i + 1][..i] == names[..i];
        parts := parts + [names[i] + "=" + cookies[names[i]]];
      }
      assert names[..|names|] == names;
      s := if |parts| > 0 then Join(parts, "; ") else DefaultCookie;
    }
  }
}
