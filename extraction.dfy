/** What the scraper reads out of the receipt viewer page
    (src/index.ts:103-187): the two quoted call arguments
    `viewModel.InvoiceNumber('…')` and `viewModel.Token('…')`, and the text
    of sixteen `<span id="…">` labels. Each regular expression is modelled as
    the match it produces when tried at one position, and `match` as the
    leftmost position at which it succeeds. */
module Extraction {
  import opened Wrappers
  import opened Text
  import opened Entities
  import opened Cookies

  // ---------------------------------------------------------------------
  // The quoted call arguments (src/index.ts:169-176)

  const InvoiceCall := "viewModel.InvoiceNumber("
  const TokenCall := "viewModel.Token("

  /** The class `['"]`. */
  predicate IsQuote(c: char) {
    c == '\'' || c == '"'
  }

  /** The class `[^'"]`. */
  predicate NotQuote(c: char) {
    !IsQuote(c)
  }

  predicate QuoteFree(s: string) {
    forall i | 0 <= i < |s| :: !IsQuote(s[i])
  }

  /** `html` holds, at position `i`, the call, an opening quote, `arg`, a
      closing quote and `)`; the two quotes need not be of the same kind. */
  predicate ArgAt(html: string, call: string, i: nat, arg: string) {
    var open := i + |call|;
    var close := open + 1 + |arg|;
    && arg != [] && QuoteFree(arg)
    && OccursAt(html, call, i) && close + 1 < |html|
    && IsQuote(html[open]) && html[open + 1..close] == arg
    && IsQuote(html[close]) && html[close + 1] == ')'
  }

  /** Group 1 of `CALL['"]([^'"]+)['"]\)` when the pattern is tried at
      position `i`. The group's class excludes both quotes, so the greedy run
      up to the next quote is the only way the closing quote can match. */
  function QuotedArgAt(html: string, call: string, i: nat): (r: Option<string>)
    ensures r.Some? ==> r.value != [] && QuoteFree(r.value)
  {
    if !OccursAt(html, call, i) || i + |call| >= |html| || !IsQuote(html[i + |call|]) then None
    else
      var start := i + |call| + 1;
      var n := RunLength(html, start, NotQuote);
      var close := start + n;
      if 0 < n && close + 1 < |html| && html[close + 1] == ')' then Some(html[start..close])
      else None
  }

  /** The scanner finds exactly the arguments the pattern describes. */
  lemma QuotedArgAtMeans(html: string, call: string, i: nat, arg: string)
    ensures QuotedArgAt(html, call, i) == Some(arg) <==> ArgAt(html, call, i, arg)
  {
    if ArgAt(html, call, i, arg) {
      var start := i + |call| + 1;
      var close := start + |arg|;
      assert forall k | start <= k < close :: NotQuote(html[k]) by {
        forall k | start <= k < close ensures NotQuote(html[k]) {
          assert html[k] == arg[k - start];
        }
      }
      RunLengthSkip(html, start, close, NotQuote);
    }
  }

  /** `html.match(pattern)?.[1]`: the argument at the leftmost position where
      the pattern matches. */
  function FirstArg(html: string, call: string): (r: Option<string>)
    ensures r.Some? ==> r.value != [] && QuoteFree(r.value)
  {
    FirstMatchSpec((i: nat) => QuotedArgAt(html, call, i), 0, |html|);
    FirstMatch((i: nat) => QuotedArgAt(html, call, i), 0, |html|)
  }

  /** Whatever `FirstArg` finds is an argument the page holds. */
  lemma FirstArgSound(html: string, call: string)
    ensures FirstArg(html, call).Some? ==> exists k: nat :: ArgAt(html, call, k, FirstArg(html, call).value)
  {
    var f := (i: nat) => QuotedArgAt(html, call, i);
    FirstMatchSpec(f, 0, |html|);
    if FirstArg(html, call).Some? {
      var a := FirstArg(html, call).value;
      var k: nat :| k < |html| && f(k) == Some(a);
      QuotedArgAtMeans(html, call, k, a);
    }
  }

  /** An argument at a position before which the page holds none is the
      one `FirstArg` finds. */
  lemma FirstArgAt(html: string, call: string, k: nat, a: string)
    requires ArgAt(html, call, k, a)
    requires forall j: nat, b | j < k :: !ArgAt(html, call, j, b)
    ensures FirstArg(html, call) == Some(a)
  {
    var f := (i: nat) => QuotedArgAt(html, call, i);
    QuotedArgAtMeans(html, call, k, a);
    forall j: nat | j < k ensures f(j).None? {
      if f(j).Some? {
        QuotedArgAtMeans(html, call, j, f(j).value);
      }
    }
    FirstMatchAt(f, 0, k, |html|);
  }

  /** `FirstArg` finds nothing iff the page holds no argument anywhere. */
  lemma FirstArgNone(html: string, call: string)
    ensures FirstArg(html, call).None? <==> forall k: nat, a :: !ArgAt(html, call, k, a)
  {
    var f := (i: nat) => QuotedArgAt(html, call, i);
    FirstMatchSpec(f, 0, |html|);
    if FirstArg(html, call).None? {
      forall k: nat, a ensures !ArgAt(html, call, k, a) {
        QuotedArgAtMeans(html, call, k, a);
        if k < |html| {
          assert f(k).None?;
        }
      }
    } else {
      FirstArgSound(html, call);
    }
  }

  /** Which position holds an argument decides nothing but the result: the
      argument is followed by a quote, so the same position cannot hold two. */
  lemma ArgAtUnique(html: string, call: string, i: nat, a: string, b: string)
    requires ArgAt(html, call, i, a) && ArgAt(html, call, i, b)
    ensures a == b
  {
    QuotedArgAtMeans(html, call, i, a);
    QuotedArgAtMeans(html, call, i, b);
  }

  /** A page that starts with the call and a quoted argument yields that
      argument, whichever quote opens and whichever closes it. */
  lemma FirstArgLeading(call: string, q1: char, arg: string, q2: char, rest: string)
    requires IsQuote(q1) && IsQuote(q2) && arg != [] && QuoteFree(arg)
    ensures FirstArg(call + [q1] + arg + [q2] + ")" + rest, call) == Some(arg)
  {
    var html := call + [q1] + arg + [q2] + ")" + rest;
    var close := |call| + 1 + |arg|;
    assert html[..|call|] == call;
    assert html[|call|] == q1;
    assert html[|call| + 1..close] == arg;
    assert html[close] == q2 && html[close + 1] == ')';
    assert ArgAt(html, call, 0, arg);
    QuotedArgAtMeans(html, call, 0, arg);
    FirstMatchAt((i: nat) => QuotedArgAt(html, call, i), 0, 0, |html|);
  }

  /** An argument opened by `'` and closed by `"` still matches. */
  lemma MixedQuotesExample()
    ensures FirstArg(InvoiceCall + "'12AB\")", InvoiceCall) == Some("12AB")
  {
    assert InvoiceCall + "'12AB\")" == InvoiceCall + ['\''] + "12AB" + ['"'] + ")" + "";
    FirstArgLeading(InvoiceCall, '\'', "12AB", '"', "");
  }

  datatype ExtractedData = ExtractedData(invoiceNumber: string, token: string)

  /** Both arguments, when both are present and truthy (src/index.ts:172-178). */
  function ExtractTokens(html: string): Option<ExtractedData> {
    var invoice := FirstArg(html, InvoiceCall);
    var token := FirstArg(html, TokenCall);
    if invoice.Some? && invoice.value != [] && token.Some? && token.value != [] then
      Some(ExtractedData(invoice.value, token.value))
    else None
  }

  /** A captured argument is never empty, so the truthiness test only asks
      whether both patterns matched. */
  lemma ExtractTokensBoth(html: string)
    ensures ExtractTokens(html).Some? <==>
      FirstArg(html, InvoiceCall).Some? && FirstArg(html, TokenCall).Some?
    ensures ExtractTokens(html).Some? ==>
      && ExtractTokens(html).value.invoiceNumber == FirstArg(html, InvoiceCall).value
      && ExtractTokens(html).value.token == FirstArg(html, TokenCall).value
  {
  }

  // ---------------------------------------------------------------------
  // The span labels (src/index.ts:105-116)

  /** The literal part of `<span id="${id}"[^>]*>`. */
  function SpanTag(id: string): string {
    "<span id=\"" + id + "\""
  }

  /** The class `[^>]`. */
  predicate NotGt(c: char) {
    c != '>'
  }

  /** The class `[^<]`. */
  predicate NotLt(c: char) {
    c != '<'
  }

  /** Where the text after the opening tag starts when the tag matches at
      `i`, ignoring case. `[^>]*` excludes `>`, so the greedy run to the first
      `>` is the only way the `>` after it can match. */
  function TagEnd(html: string, id: string, i: nat): (r: Option<nat>)
    ensures r.Some? ==> i < r.value <= |html|
  {
    var tag := SpanTag(id);
    if !OccursAtIgnoreCase(html, tag, i) then None
    else
      var gt := i + |tag| + RunLength(html, i + |tag|, NotGt);
      if gt < |html| then Some(gt + 1) else None
  }

  /** The text from `t` up to the next `<`. */
  function TextFrom(html: string, t: nat): string
    requires t <= |html|
  {
    html[t..t + RunLength(html, t, NotLt)]
  }

  /** The text between the opening tag at `i` and the next `<`. */
  function TextAfterTag(html: string, id: string, i: nat): Option<string> {
    match TagEnd(html, id, i)
    case None => None
    case Some(t) => Some(TextFrom(html, t))
  }

  /** Group 1 of `\s*([^<]+)` tried at `t`. The greedy `\s*` takes the
      leading white space and `[^<]+` the rest up to `<`; when nothing but
      white space is left, `\s*` gives back its last character and the group
      holds that one character; with no text at all there is no match. */
  function GroupFrom(html: string, t: nat): Option<string>
    requires t <= |html|
  {
    var w := RunLength(html, t, IsSpace);
    var m := RunLength(html, t + w, NotLt);
    if m > 0 then Some(html[t + w..t + w + m])
    else if w > 0 then Some(html[t + w - 1..t + w])
    else None
  }

  /** Group 1 of `<span id="ID"[^>]*>\s*([^<]+)` when the pattern is tried
      at `i`. */
  function SpanCaptureAt(html: string, id: string, i: nat): Option<string> {
    match TagEnd(html, id, i)
    case None => None
    case Some(t) => GroupFrom(html, t)
  }

  /** The group matches iff there is text before the next `<`, and the
      trimmed group is that text, trimmed. */
  lemma GroupFromText(html: string, t: nat)
    requires t <= |html|
    ensures GroupFrom(html, t).Some? <==> TextFrom(html, t) != []
    ensures GroupFrom(html, t).Some? ==> Trim(GroupFrom(html, t).value) == Trim(TextFrom(html, t))
  {
    var w := RunLength(html, t, IsSpace);
    var m := RunLength(html, t + w, NotLt);
    GroupFromCases(html, t, w, m);
    SpacesBeforeText(html, t, w);
    var ws := html[t..t + w];
    var rest := html[t + w..t + w + m];
    SliceSplit(html, t, t + w, t + w + m);
    assert TextFrom(html, t) == ws + rest;
    if GroupFrom(html, t).Some? {
      GroupTrim(ws, rest, GroupFrom(html, t).value);
    }
  }

  /** What the group holds, trimmed, is the text after the tag, trimmed. */
  lemma GroupTrim(ws: string, rest: string, g: string)
    requires AllSpaces(ws)
    requires rest != [] ==> g == rest
    requires rest == [] ==> ws != [] && g == [ws[|ws| - 1]]
    ensures Trim(g) == Trim(ws + rest)
  {
    TrimSkipsSpaces(ws, rest);
    if rest == [] {
      assert AllSpaces(g);
      TrimAllSpaces(g);
      TrimAllSpaces(rest);
    }
  }

  lemma GroupFromCases(html: string, t: nat, w: nat, m: nat)
    requires t <= |html| && w == RunLength(html, t, IsSpace) && m == RunLength(html, t + w, NotLt)
    ensures m > 0 ==> GroupFrom(html, t) == Some(html[t + w..t + w + m])
    ensures m == 0 && w > 0 ==> GroupFrom(html, t) == Some([html[t..t + w][w - 1]])
    ensures m == 0 && w == 0 ==> GroupFrom(html, t) == None
  {
    if m == 0 && w > 0 {
      assert html[t + w - 1..t + w] == [html[t..t + w][w - 1]];
    }
  }

  /** White space is not `<`, so the text to the next `<` runs on past the
      leading white space. */
  lemma SpacesBeforeText(html: string, t: nat, w: nat)
    requires t <= |html| && w == RunLength(html, t, IsSpace)
    ensures AllSpaces(html[t..t + w])
    ensures RunLength(html, t, NotLt) == w + RunLength(html, t + w, NotLt)
  {
    assert forall k | t <= k < t + w :: NotLt(html[k]) by {
      forall k | t <= k < t + w ensures NotLt(html[k]) {
        assert IsSpace(html[k]);
      }
    }
    RunLengthSkip(html, t, t + w, NotLt);
    var ws := html[t..t + w];
    forall k | 0 <= k < |ws| ensures IsSpace(ws[k]) {
      assert ws[k] == html[t + k];
    }
  }

  /** The pattern matches at `i` iff a tag is there with some text after it,
      and the trimmed group is that text, trimmed. */
  lemma SpanCaptureText(html: string, id: string, i: nat)
    ensures SpanCaptureAt(html, id, i).Some? <==>
      TextAfterTag(html, id, i).Some? && TextAfterTag(html, id, i).value != []
    ensures SpanCaptureAt(html, id, i).Some? ==>
      Trim(SpanCaptureAt(html, id, i).value) == Trim(TextAfterTag(html, id, i).value)
  {
    if TagEnd(html, id, i).Some? {
      GroupFromText(html, TagEnd(html, id, i).value);
    }
  }

  /** Group 1 at the leftmost position where the pattern matches. */
  function FirstSpan(html: string, id: string): Option<string> {
    FirstMatch((i: nat) => SpanCaptureAt(html, id, i), 0, |html|)
  }

  /** `extractById(id)`: the trimmed group, or `''` when there is no match,
      then entity-decoded. */
  function ExtractById(html: string, id: string): string {
    var raw := match FirstSpan(html, id) case Some(c) => Trim(c) case None => "";
    DecodeHtmlEntities(raw)
  }

  /** A label whose tag does not occur in the page gives `''`. */
  lemma ExtractByIdAbsent(html: string, id: string)
    requires forall i :: !OccursAtIgnoreCase(html, SpanTag(id), i)
    ensures ExtractById(html, id) == ""
  {
    var f := (i: nat) => SpanCaptureAt(html, id, i);
    assert forall j: nat | 0 <= j < |html| :: f(j).None?;
    FirstMatchSpec(f, 0, |html|);
  }

  /** A page without any `<` has no labels. */
  lemma ExtractByIdNoTags(html: string, id: string)
    requires '<' !in html
    ensures ExtractById(html, id) == ""
  {
    forall i ensures !OccursAtIgnoreCase(html, SpanTag(id), i) {
      assert SpanTag(id)[0] == '<';
      if 0 <= i < |html| {
        assert html[i] in html;
        assert Lower(html[i]) != '<';
      }
    }
    ExtractByIdAbsent(html, id);
  }

  /** The leftmost tag with text after it is where the pattern matches. */
  lemma FirstSpanAt(html: string, id: string, k: nat)
    requires TextAfterTag(html, id, k).Some? && TextAfterTag(html, id, k).value != []
    requires forall j: nat | j < k :: TextAfterTag(html, id, j).None? || TextAfterTag(html, id, j).value == []
    ensures FirstSpan(html, id) == SpanCaptureAt(html, id, k)
    ensures FirstSpan(html, id).Some?
  {
    SpanCaptureText(html, id, k);
    forall j: nat | j < k ensures SpanCaptureAt(html, id, j).None? {
      SpanCaptureText(html, id, j);
    }
    assert TagEnd(html, id, k).Some?;
    FirstMatchAt((i: nat) => SpanCaptureAt(html, id, i), 0, k, |html|);
  }

  /** At the leftmost tag with text after it, the label is that text,
      trimmed and then decoded. */
  lemma ExtractByIdFirst(html: string, id: string, k: nat)
    requires TextAfterTag(html, id, k).Some? && TextAfterTag(html, id, k).value != []
    requires forall j: nat | j < k :: TextAfterTag(html, id, j).None? || TextAfterTag(html, id, j).value == []
    ensures ExtractById(html, id) == DecodeHtmlEntities(Trim(TextAfterTag(html, id, k).value))
  {
    FirstSpanAt(html, id, k);
    SpanCaptureText(html, id, k);
  }

  /** The tag at `i` ends at the first `>` after it. */
  lemma TagEndAt(html: string, id: string, i: nat, gt: nat)
    requires OccursAtIgnoreCase(html, SpanTag(id), i)
    requires i + |SpanTag(id)| <= gt < |html| && html[gt] == '>'
    requires forall k | i + |SpanTag(id)| <= k < gt :: NotGt(html[k])
    ensures TagEnd(html, id, i) == Some(gt + 1)
  {
    RunLengthSkip(html, i + |SpanTag(id)|, gt, NotGt);
  }

  /** The text from `t` ends at the first `<` or at the end of the page. */
  lemma TextFromAt(html: string, t: nat, e: nat)
    requires t <= e <= |html| && (e == |html| || html[e] == '<')
    requires forall k | t <= k < e :: NotLt(html[k])
    ensures TextFrom(html, t) == html[t..e]
  {
    RunLengthSkip(html, t, e, NotLt);
  }

  /** An opening tag in any letter case, attributes without `>`, and `>`
      end where the text begins. */
  lemma LeadingTagEnd(id: string, open: string, attrs: string, tail: string)
    requires |open| == |SpanTag(id)| && forall k | 0 <= k < |open| :: Lower(open[k]) == Lower(SpanTag(id)[k])
    requires '>' !in attrs
    ensures TagEnd(open + attrs + ">" + tail, id, 0) == Some(|open| + |attrs| + 1)
  {
    var html := open + attrs + ">" + tail;
    var gt := |open| + |attrs|;
    assert html[..|open|] == open && html[|open|..gt] == attrs && html[gt] == '>';
    assert OccursAtIgnoreCase(html, SpanTag(id), 0) by {
      forall k | 0 <= k < |open| ensures html[k] == open[k] {
        assert html[k] == html[..|open|][k];
      }
    }
    forall k | |open| <= k < gt ensures NotGt(html[k]) {
      assert html[k] == html[|open|..gt][k - |open|];
    }
    TagEndAt(html, id, 0, gt);
  }

  /** Text without `<` followed by `<` or the end is the text from its
      start. */
  lemma TextBeforeLt(before: string, text: string, rest: string)
    requires '<' !in text && (rest == [] || rest[0] == '<')
    ensures TextFrom(before + text + rest, |before|) == text
  {
    var html := before + text + rest;
    var t := |before|;
    forall k | t <= k < t + |text| ensures NotLt(html[k]) {
      assert html[k] == text[k - t];
    }
    assert t + |text| < |html| ==> html[t + |text|] == rest[0];
    TextFromAt(html, t, t + |text|);
    assert html[t..t + |text|] == text;
  }

  /** A page that starts with the opening tag, in any letter case, has the
      text up to the next `<` after its tag. */
  lemma LeadingTag(id: string, open: string, attrs: string, text: string, rest: string)
    requires |open| == |SpanTag(id)| && forall k | 0 <= k < |open| :: Lower(open[k]) == Lower(SpanTag(id)[k])
    requires '>' !in attrs && '<' !in text
    requires rest == [] || rest[0] == '<'
    ensures TextAfterTag(open + attrs + ">" + text + rest, id, 0) == Some(text)
  {
    var before := open + attrs + ">";
    assert open + attrs + ">" + text + rest == before + (text + rest);
    LeadingTagEnd(id, open, attrs, text + rest);
    TextBeforeLt(before, text, rest);
  }

  /** A page that starts with the opening tag, in any letter case, yields
      the text up to the next `<`, trimmed and decoded. */
  lemma ExtractByIdLeading(id: string, open: string, attrs: string, text: string, rest: string)
    requires |open| == |SpanTag(id)| && forall k | 0 <= k < |open| :: Lower(open[k]) == Lower(SpanTag(id)[k])
    requires '>' !in attrs && '<' !in text && text != []
    requires rest == [] || rest[0] == '<'
    ensures ExtractById(open + attrs + ">" + text + rest, id) == DecodeHtmlEntities(Trim(text))
  {
    LeadingTag(id, open, attrs, text, rest);
    ExtractByIdFirst(open + attrs + ">" + text + rest, id, 0);
  }

  /** The numeric labels: `parseInt` of the label's digits, and 0 when it
      has none (`parseInt('')` is `NaN`). */
  function Lenient(s: string): nat {
    var ds := KeepDigits(s);
    if ds == [] then 0 else DigitsValue(ds, 10)
  }

  /** `extractNumberById(id)`. */
  function ExtractNumberById(html: string, id: string): nat {
    Lenient(ExtractById(html, id))
  }

  lemma {:induction false} KeepDigitsNone(s: string)
    requires forall i | 0 <= i < |s| :: !IsDigit(s[i])
    ensures KeepDigits(s) == []
  {
    if s != [] {
      KeepDigitsNone(s[1..]);
    }
  }

  /** A label without digits reads as 0. */
  lemma LenientNoDigits(s: string)
    requires forall i | 0 <= i < |s| :: !IsDigit(s[i])
    ensures Lenient(s) == 0
  {
    KeepDigitsNone(s);
  }

  /** A decimal numeral reads as its value. */
  lemma LenientNumeral(n: nat)
    ensures Lenient(DecimalString(n)) == n
  {
    KeepDigitsOfDigits(DecimalString(n));
    DecimalStringValue(n);
  }

  /** A character that is not a digit, such as a thousands separator, is
      ignored wherever it stands. */
  lemma LenientSkips(a: string, c: char, b: string)
    requires !IsDigit(c)
    ensures Lenient(a + [c] + b) == Lenient(a + b)
  {
    KeepDigitsAppend(a + [c], b);
    KeepDigitsAppend(a, [c]);
    KeepDigitsAppend(a, b);
    assert [c][1..] == [];
    assert KeepDigits(a) + [] == KeepDigits(a);
  }

  // ---------------------------------------------------------------------
  // The metadata record (src/index.ts:103-139)

  datatype ReceiptMetadata = ReceiptMetadata(
    pib: string,
    shopFullName: string,
    address: string,
    city: string,
    municipality: string,
    buyerId: Option<string>,
    requestedBy: string,
    invoiceType: string,
    transactionType: string,
    totalAmount: string,
    transactionTypeCounter: nat,
    totalCounter: nat,
    invoiceCounterExtension: string,
    invoiceNumber: string,
    signedBy: string,
    sdcDateTime: string)

  /** `extractById('buyerIdLabel') || undefined`. */
  function Truthy(s: string): Option<string> {
    if s == "" then None else Some(s)
  }

  /** `extractReceiptMetadata(htmlContent)`: `extractById` of each label,
      `extractNumberById` of the two counters, and `buyerId` dropped when
      empty. Nothing in it can throw, so the `catch` that returns `null` is
      never taken and the record is total. */
  function ExtractMetadata(html: string): ReceiptMetadata {
    ReceiptMetadata(
      pib := ExtractById(html, "tinLabel"),
      shopFullName := ExtractById(html, "shopFullNameLabel"),
      address := ExtractById(html, "addressLabel"),
      city := ExtractById(html, "cityLabel"),
      municipality := ExtractById(html, "administrativeUnitLabel"),
      buyerId := Truthy(ExtractById(html, "buyerIdLabel")),
      requestedBy := ExtractById(html, "requestedByLabel"),
      invoiceType := ExtractById(html, "invoiceTypeId"),
      transactionType := ExtractById(html, "transactionTypeId"),
      totalAmount := ExtractById(html, "totalAmountLabel"),
      transactionTypeCounter := ExtractNumberById(html, "transactionTypeCounterLabel"),
      totalCounter := ExtractNumberById(html, "totalCounterLabel"),
      invoiceCounterExtension := ExtractById(html, "invoiceCounterExtensionLabel"),
      invoiceNumber := ExtractById(html, "invoiceNumberLabel"),
      signedBy := ExtractById(html, "signedByLabel"),
      sdcDateTime := ExtractById(html, "sdcDateTimeLabel"))
  }

  /** `buyerId` is absent exactly when its label is empty, and otherwise
      holds the label. */
  lemma BuyerIdAbsent(html: string)
    ensures ExtractMetadata(html).buyerId.None? <==> ExtractById(html, "buyerIdLabel") == ""
    ensures ExtractMetadata(html).buyerId.Some? ==>
      ExtractMetadata(html).buyerId.value == ExtractById(html, "buyerIdLabel")
  {
  }

  /** A page without tags gives empty text fields, zero counters and no
      buyer. */
  lemma MetadataOfUntaggedPage(html: string)
    requires '<' !in html
    ensures ExtractMetadata(html) ==
      ReceiptMetadata("", "", "", "", "", None, "", "", "", "", 0, 0, "", "", "", "")
  {
    ExtractByIdNoTags(html, "tinLabel");
    ExtractByIdNoTags(html, "shopFullNameLabel");
    ExtractByIdNoTags(html, "addressLabel");
    ExtractByIdNoTags(html, "cityLabel");
    ExtractByIdNoTags(html, "administrativeUnitLabel");
    ExtractByIdNoTags(html, "buyerIdLabel");
    ExtractByIdNoTags(html, "requestedByLabel");
    ExtractByIdNoTags(html, "invoiceTypeId");
    ExtractByIdNoTags(html, "transactionTypeId");
    ExtractByIdNoTags(html, "totalAmountLabel");
    ExtractByIdNoTags(html, "transactionTypeCounterLabel");
    ExtractByIdNoTags(html, "totalCounterLabel");
    ExtractByIdNoTags(html, "invoiceCounterExtensionLabel");
    ExtractByIdNoTags(html, "invoiceNumberLabel");
    ExtractByIdNoTags(html, "signedByLabel");
    ExtractByIdNoTags(html, "sdcDateTimeLabel");
    assert Lenient("") == 0;
  }

  // ---------------------------------------------------------------------
  // The viewer page request (src/index.ts:160-190)

  /** What `axiosInstance.get(refererUrl)` gives: a thrown error, or a
      response with its status, `Set-Cookie` header and body. */
  datatype PageReply = PageThrew(message: string) | Page(status: Accepted, setCookie: SetCookieHeader, html: string)

  /** A status the client hands back as a response: `validateStatus`
      (src/index.ts:88) makes axios reject 400 and above, so such a reply
      arrives as a thrown error instead. */
  type Accepted = s: int | s < 400

  datatype Extracted = Extracted(data: ExtractedData, metadata: ReceiptMetadata)

  const ExtractErrorPrefix := "Failed to extract invoice data: "

  /** What `extractInvoiceDataFromJS` returns (`Ok(Some(…))`), returns as
      `null` (`Ok(None)`) or throws (`Err`). */
  function ExtractOutcome(page: PageReply): Result<Option<Extracted>> {
    match page
    case PageThrew(msg) => Err(ExtractErrorPrefix + msg)
    case Page(status, _, html) =>
      if status != 200 then Ok(None)
      else match ExtractTokens(html)
        case Some(data) => Ok(Some(Extracted(data, ExtractMetadata(html))))
        case None => Ok(None)
  }

  /** The cookie table after the page request: only a 200 response is read. */
  function JarAfterPage(j: Jar, page: PageReply): Jar {
    if page.Page? && page.status == 200 then ParseHeader(j, page.setCookie) else j
  }

  lemma JarAfterPageWellFormed(j: Jar, page: PageReply)
    requires WellFormed(j)
    ensures WellFormed(JarAfterPage(j, page))
  {
    if page.Page? {
      ParseHeaderWellFormed(j, page.setCookie);
    }
  }

  /** A result is returned iff the page came back with status 200 and both
      arguments were found; then it carries them and the page's metadata. */
  lemma ExtractOutcomeSpec(page: PageReply)
    ensures ExtractOutcome(page).Err? <==> page.PageThrew?
    ensures ExtractOutcome(page).Ok? && ExtractOutcome(page).value.Some? <==>
      page.Page? && page.status == 200 && ExtractTokens(page.html).Some?
    ensures ExtractOutcome(page).Ok? && ExtractOutcome(page).value.Some? ==>
      && ExtractOutcome(page).value.value.data == ExtractTokens(page.html).value
      && ExtractOutcome(page).value.value.metadata == ExtractMetadata(page.html)
  {
  }

  /** `extractInvoiceDataFromJS(refererUrl, axiosInstance, cookieManager)`
      with the page request's outcome given. */
  method ExtractInvoiceData(page: PageReply, jar: CookieManager) returns (r: Result<Option<Extracted>>)
    requires jar.Valid()
    modifies jar
    ensures jar.Valid()
    ensures r == ExtractOutcome(page)
    ensures jar.Contents() == JarAfterPage(old(jar.Contents()), page)
  {
    match page
    case PageThrew(msg) =>
      r := Err(ExtractErrorPrefix + msg);
    case Page(status, setCookie, html) =>
      if status == 200 {
        jar.ParseCookies(setCookie);
        var tokens := ExtractTokens(html);
        if tokens.Some? {
          var metadata := ExtractMetadata(html);
          r := Ok(Some(Extracted(tokens.value, metadata)));
          return;
        }
      }
      r := Ok(None);
  }
}
