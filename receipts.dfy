/** The receipt returned by the specifications endpoint and what
    `fetchSpecifications` does with it (src/index.ts:193-245): on a 200
    response with a successful payload that lists its items, the total,
    the item count and the invoice number are recomputed from the items and
    from the extracted argument, whatever the server sent in those fields. */
module Receipts {
  import opened Wrappers
  import opened Cookies
  import opened Extraction

  /** Amounts are JSON numbers; they are modelled as exact reals. The
      JSON field `label` is `taxLabel` here, `label` being a Dafny keyword. */
  datatype ReceiptItem = ReceiptItem(
    gtin: string,
    name: string,
    quantity: real,
    total: real,
    unitPrice: real,
    taxLabel: string,
    labelRate: real,
    taxBaseAmount: real,
    vatAmount: real)

  /** The optional fields of the `Receipt` interface are `Option`s. */
  datatype Receipt = Receipt(
    success: bool,
    items: Option<seq<ReceiptItem>>,
    invoiceNumber: Option<string>,
    totalAmount: Option<real>,
    itemCount: Option<nat>,
    metadata: Option<ReceiptMetadata>)

  /** `items.reduce((sum, item) => sum + item.total, acc)`: the totals added
      to the accumulator from the first item to the last. */
  function Reduce(items: seq<ReceiptItem>, acc: real): real
    decreases |items|
  {
    if items == [] then acc else Reduce(items[1..], acc + items[0].total)
  }

  /** The sum of the item totals. */
  function Sum(items: seq<ReceiptItem>): real
    decreases |items|
  {
    if items == [] then 0.0 else Sum(items[..|items| - 1]) + items[|items| - 1].total
  }

  lemma {:induction false} SumAppend(a: seq<ReceiptItem>, b: seq<ReceiptItem>)
    ensures Sum(a + b) == Sum(a) + Sum(b)
    decreases |b|
  {
    if b == [] {
      assert a + b == a;
    } else {
      assert (a + b)[..|a + b| - 1] == a + b[..|b| - 1];
      SumAppend(a, b[..|b| - 1]);
    }
  }

  lemma SumFront(items: seq<ReceiptItem>)
    requires items != []
    ensures Sum(items) == items[0].total + Sum(items[1..])
  {
    assert items == [items[0]] + items[1..];
    SumAppend([items[0]], items[1..]);
    assert [items[0]][..0] == [];
  }

  /** The fold from the left adds up to the sum of the totals. */
  lemma {:induction false} ReduceIsSum(items: seq<ReceiptItem>, acc: real)
    ensures Reduce(items, acc) == acc + Sum(items)
    decreases |items|
  {
    if items != [] {
      ReduceIsSum(items[1..], acc + items[0].total);
      SumFront(items);
    }
  }

  /** The in-place updates of `parsedJson` (src/index.ts:233-237). `items`
      is truthy whenever it is present, so an empty list is normalised too. */
  function Normalize(r: Receipt, invoiceNumber: string): Receipt {
    if r.success && r.items.Some? then
      r.(invoiceNumber := Some(invoiceNumber),
         totalAmount := Some(Reduce(r.items.value, 0.0)),
         itemCount := Some(|r.items.value|))
    else r
  }

  /** A successful payload with items gets the sum of the item totals, their
      number and the extracted invoice number; nothing else changes. */
  lemma NormalizeTotals(r: Receipt, invoiceNumber: string)
    requires r.success && r.items.Some?
    ensures Normalize(r, invoiceNumber).totalAmount == Some(Sum(r.items.value))
    ensures Normalize(r, invoiceNumber).itemCount == Some(|r.items.value|)
    ensures Normalize(r, invoiceNumber).invoiceNumber == Some(invoiceNumber)
    ensures Normalize(r, invoiceNumber).success == r.success
    ensures Normalize(r, invoiceNumber).items == r.items
    ensures Normalize(r, invoiceNumber).metadata == r.metadata
  {
    ReduceIsSum(r.items.value, 0.0);
  }

  /** Any other payload is returned as it came. */
  lemma NormalizeSkips(r: Receipt, invoiceNumber: string)
    requires !r.success || r.items.None?
    ensures Normalize(r, invoiceNumber) == r
  {
  }

  /** What the server sent in the recomputed fields makes no difference. */
  lemma NormalizeIgnoresServer(r: Receipt, invoiceNumber: string,
                               sentNumber: Option<string>, sentTotal: Option<real>, sentCount: Option<nat>)
    requires r.success && r.items.Some?
    ensures Normalize(r.(invoiceNumber := sentNumber, totalAmount := sentTotal, itemCount := sentCount), invoiceNumber)
      == Normalize(r, invoiceNumber)
  {
  }

  /** Normalising twice is normalising once. */
  lemma NormalizeIdempotent(r: Receipt, invoiceNumber: string)
    ensures Normalize(Normalize(r, invoiceNumber), invoiceNumber) == Normalize(r, invoiceNumber)
  {
  }

  function Item(total: real): ReceiptItem {
    ReceiptItem("", "", 1.0, total, total, "", 0.0, total, 0.0)
  }

  /** Two items of 100 and 250 give a total of 350 and a count of 2, even
      if the server claimed otherwise. */
  lemma NormalizeExample()
    ensures Normalize(Receipt(true, Some([Item(100.0), Item(250.0)]), None, Some(1.0), Some(7), None), "X1")
      == Receipt(true, Some([Item(100.0), Item(250.0)]), Some("X1"), Some(350.0), Some(2), None)
  {
    var items := [Item(100.0), Item(250.0)];
    assert items[1..][1..] == [];
  }

  // ---------------------------------------------------------------------
  // The specifications request (src/index.ts:193-245)

  /** What the POST carries that the model tracks: the `Referer` header,
      the two form fields and the `Cookie` header. */
  datatype SpecRequest = SpecRequest(referer: string, invoiceNumber: string, token: string, cookie: string)

  /** The body of a 200 response: one `JSON.parse` (or the object axios
      already parsed) yields a receipt, or it fails with a message. */
  datatype Payload = Unparsable(message: string) | Parsed(receipt: Receipt)

  /** What `axiosInstance.post(specsUrl, formData, { headers })` gives. */
  datatype SpecReply = SpecThrew(message: string) | SpecResponse(status: Accepted, payload: Payload)

  const FetchErrorPrefix := "Failed to fetch receipt specifications: "

  /** What `fetchSpecifications` returns (`Ok(Some(…))`), returns as `null`
      (`Ok(None)`) or throws (`Err`), given the server's reply. */
  function FetchOutcome(reply: SpecReply, invoiceNumber: string): Result<Option<Receipt>> {
    match reply
    case SpecThrew(msg) => Err(FetchErrorPrefix + msg)
    case SpecResponse(status, payload) =>
      if status != 200 then Ok(None)
      else match payload
        case Unparsable(msg) => Err(FetchErrorPrefix + msg)
        case Parsed(r) => Ok(Some(Normalize(r, invoiceNumber)))
  }

  /** Only a 200 response yields a receipt, and it is the normalised
      payload; a failed request or an unreadable body is an error. */
  lemma FetchOutcomeSpec(reply: SpecReply, invoiceNumber: string)
    ensures FetchOutcome(reply, invoiceNumber).Err? <==>
      reply.SpecThrew? || (reply.status == 200 && reply.payload.Unparsable?)
    ensures FetchOutcome(reply, invoiceNumber).Ok? && FetchOutcome(reply, invoiceNumber).value.Some? <==>
      reply.SpecResponse? && reply.status == 200 && reply.payload.Parsed?
    ensures FetchOutcome(reply, invoiceNumber).Ok? && FetchOutcome(reply, invoiceNumber).value.Some? ==>
      FetchOutcome(reply, invoiceNumber).value.value == Normalize(reply.payload.receipt, invoiceNumber)
  {
  }

  /** `fetchSpecifications(refererUrl, invoiceNumber, token, axiosInstance,
      cookieManager)` with the server given as a function of the request;
      it also returns the request it sent. */
  method FetchSpecifications(referer: string, invoiceNumber: string, token: string,
                             server: SpecRequest -> SpecReply, jar: CookieManager)
    returns (r: Result<Option<Receipt>>, request: SpecRequest)
    requires jar.Valid()
    ensures request == SpecRequest(referer, invoiceNumber, token, Serialize(jar.Contents()))
    ensures r == FetchOutcome(server(request), invoiceNumber)
  {
    var cookie := jar.GetCookieString();
    request := SpecRequest(referer, invoiceNumber, token, cookie);
    var reply := server(request);
    match reply
    case SpecThrew(msg) =>
      r := Err(FetchErrorPrefix + msg);
    case SpecResponse(status, payload) =>
      if status != 200 {
        r := Ok(None);
        return;
      }
      match payload
      case Unparsable(msg) =>
        r := Err(FetchErrorPrefix + msg);
      case Parsed(parsed) =>
        var receipt := parsed;
        if receipt.success && receipt.items.Some? {
          var items := receipt.items.value;
          receipt := receipt.(invoiceNumber := Some(invoiceNumber));
          receipt := receipt.(totalAmount := Some(Reduce(items, 0.0)));
          receipt := receipt.(itemCount := Some(|items|));
        }
        r := Ok(Some(receipt));
  }
}
