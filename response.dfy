/**
 * Responses (server/response.rs).
 *
 * A response is a status, a header map and a body. `send_response` forces the
 * `Content-Length` header to the body length and lays the response out as a status
 * line, one `key: value` line per header, a blank line and the body. The header
 * map's iteration order is not fixed by the source, so it is an output here: the
 * layout is stated for the order the loop happened to take, which is some ordering of
 * the header keys.
 */
module Responses {
  import opened Wrappers
  import opened Text
  import Requests

  /** `ResponseStatus`. */
  datatype ResponseStatus =
    | Ok
    | NotFound
    | BadRequest
    | InternalServerError
    | MethodNotAllowed
    | Custom(raw: string)

  /** The numeric code of a built-in status. */
  function Code(s: ResponseStatus): nat
    requires !s.Custom?
  {
    match s
    case Ok => 200
    case NotFound => 404
    case BadRequest => 400
    case InternalServerError => 500
    case MethodNotAllowed => 405
  }

  /** The reason phrase of a built-in status. */
  function Reason(s: ResponseStatus): string
    requires !s.Custom?
  {
    match s
    case Ok => "OK"
    case NotFound => "Not Found"
    case BadRequest => "Bad Request"
    case InternalServerError => "Internal Server Error"
    case MethodNotAllowed => "Method Not Allowed"
  }

  /** The built-in status with a given code, as an independent table. */
  function StatusOfCode(code: nat): Option<ResponseStatus>
  {
    if code == 200 then Some(Ok)
    else if code == 404 then Some(NotFound)
    else if code == 400 then Some(BadRequest)
    else if code == 500 then Some(InternalServerError)
    else if code == 405 then Some(MethodNotAllowed)
    else None
  }

  /**
   * `ResponseStatus::as_raw` (response.rs:26-36): a built-in status is its code, a
   * space and its reason phrase; a custom one is its own text. The trailing `_` arm of
   * the source matches nothing, since the six arms above it cover every variant.
   */
  function AsRaw(s: ResponseStatus): (raw: string)
    ensures s.Custom? ==> raw == s.raw
  {
    match s
    case Ok => "200 OK"
    case NotFound => "404 Not Found"
    case BadRequest => "400 Bad Request"
    case InternalServerError => "500 Internal Server Error"
    case MethodNotAllowed => "405 Method Not Allowed"
    case Custom(text) => text
  }

  /** A three-digit number is written as its three digits. */
  lemma DecimalThree(n: nat)
    requires 100 <= n < 1000
    ensures Decimal(n) == [DigitChar(n / 100), DigitChar(n / 10 % 10), DigitChar(n % 10)]
  {
    assert Decimal(n / 10) == Decimal(n / 100) + [DigitChar(n / 10 % 10)];
  }

  lemma StatusLineOk()
    ensures AsRaw(Ok) == Decimal(Code(Ok)) + " " + Reason(Ok)
  {
    DecimalThree(200);
  }

  lemma StatusLineNotFound()
    ensures AsRaw(NotFound) == Decimal(Code(NotFound)) + " " + Reason(NotFound)
  {
    DecimalThree(404);
  }

  lemma StatusLineBadRequest()
    ensures AsRaw(BadRequest) == Decimal(Code(BadRequest)) + " " + Reason(BadRequest)
  {
    DecimalThree(400);
  }

  lemma StatusLineInternalServerError()
    ensures AsRaw(InternalServerError) == Decimal(Code(InternalServerError)) + " " + Reason(InternalServerError)
  {
    DecimalThree(500);
  }

  lemma StatusLineMethodNotAllowed()
    ensures AsRaw(MethodNotAllowed) == Decimal(Code(MethodNotAllowed)) + " " + Reason(MethodNotAllowed)
  {
    DecimalThree(405);
  }

  /** A built-in status is written as its code in decimal, a space and its reason phrase. */
  lemma AsRawParts(s: ResponseStatus)
    requires !s.Custom?
    ensures AsRaw(s) == Decimal(Code(s)) + " " + Reason(s)
  {
    match s
    case Ok => StatusLineOk();
    case NotFound => StatusLineNotFound();
    case BadRequest => StatusLineBadRequest();
    case InternalServerError => StatusLineInternalServerError();
    case MethodNotAllowed => StatusLineMethodNotAllowed();
  }

  /**
   * A built-in status line starts with a three-digit code that names the status
   * again, then a space: reading the code back recovers the variant.
   */
  lemma AsRawCodeRoundTrip(s: ResponseStatus)
    requires !s.Custom?
    ensures |AsRaw(s)| > 4 && AsRaw(s)[3] == ' '
    ensures ParseUsize(AsRaw(s)[..3]) == Some(Code(s))
    ensures StatusOfCode(Code(s)) == Some(s)
  {
    var code := Code(s);
    var digits := Decimal(code);
    AsRawParts(s);
    DecimalThree(code);
    assert |digits| == 3 && |Reason(s)| > 0;
    assert AsRaw(s) == digits + " " + Reason(s);
    assert AsRaw(s)[..3] == digits && AsRaw(s)[3] == ' ';
    ParseDecimal(code);
  }

  /** Distinct built-in statuses have distinct texts; a custom text can still copy one. */
  lemma AsRawInjectiveOnBuiltIn(s1: ResponseStatus, s2: ResponseStatus)
    requires !s1.Custom? && !s2.Custom? && s1 != s2
    ensures AsRaw(s1) != AsRaw(s2)
    ensures AsRaw(Custom(AsRaw(s1))) == AsRaw(s1)
  {
    AsRawCodeRoundTrip(s1);
    AsRawCodeRoundTrip(s2);
  }

  /** `Response`. */
  datatype Response = Response(status: ResponseStatus, headers: map<string, string>, body: seq<byte>)

  /** `Response::default` and `Response::new` (response.rs:39-52). */
  function Default(): (r: Response)
    ensures r.status == NotFound && r.headers == map[] && r.body == []
  {
    Response(NotFound, map[], [])
  }

  /** `with_status` (response.rs:54-57): only the status changes. */
  function WithStatus(r: Response, status: ResponseStatus): (out: Response)
    ensures out.status == status && out.headers == r.headers && out.body == r.body
  {
    r.(status := status)
  }

  /** `with_body` (response.rs:59-62): only the body changes. */
  function WithBody(r: Response, body: seq<byte>): (out: Response)
    ensures out.body == body && out.status == r.status && out.headers == r.headers
  {
    r.(body := body)
  }

  /** The two builders touch different fields: they commute, and a later call of either wins. */
  lemma BuildersCommute(r: Response, s1: ResponseStatus, s2: ResponseStatus, b1: seq<byte>, b2: seq<byte>)
    ensures WithBody(WithStatus(r, s1), b1) == WithStatus(WithBody(r, b1), s1)
    ensures WithStatus(WithStatus(r, s1), s2) == WithStatus(r, s2)
    ensures WithBody(WithBody(r, b1), b2) == WithBody(r, b2)
    ensures WithBody(WithStatus(r, r.status), r.body) == r
  {
  }

  // ---------------------------------------------------------------------------
  // IntoResponse / IntoResponseBody

  /** The `IntoResponseBody` types: `()`, `String`, `&'static str` and `Vec<u8>`. */
  datatype Body = UnitBody | StringBody(s: string) | StrBody(text: string) | BytesBody(bytes: seq<byte>)

  /** What a controller may return: a `Response`, or any `IntoResponseBody` value. */
  datatype Returned = ResponseValue(response: Response) | BodyValue(body: Body)

  /** `into_response_body` (response.rs:119-141). */
  function IntoResponseBody(b: Body): (bytes: seq<byte>)
    ensures b.UnitBody? ==> bytes == []
    ensures b.BytesBody? ==> bytes == b.bytes
    ensures b.StringBody? ==> Utf8Decode(bytes) == Some(b.s)
    ensures b.StrBody? ==> bytes == IntoResponseBody(StringBody(b.text))
    decreases if b.StrBody? then 1 else 0
  {
    match b
    case UnitBody => []
    case StringBody(s) =>
      Utf8RoundTrip(s);
      Utf8(s)
    case StrBody(text) => IntoResponseBody(StringBody(text))
    case BytesBody(bytes) => bytes
  }

  /** `into_response` (response.rs:99-113). */
  function IntoResponse(x: Returned): (r: Response)
    ensures x.ResponseValue? ==> r == x.response
    ensures x.BodyValue? ==> r.status == Ok && r.headers == map[] && r.body == IntoResponseBody(x.body)
  {
    match x
    case ResponseValue(response) => response
    case BodyValue(body) => Response(Ok, map[], IntoResponseBody(body))
  }

  /** A text given back as a body is sent as its UTF-8 bytes and decodes to itself; ASCII takes one byte per character. */
  lemma TextBodies(s: string)
    ensures IntoResponse(BodyValue(StrBody(s))) == IntoResponse(BodyValue(StringBody(s)))
    ensures Utf8Decode(IntoResponse(BodyValue(StringBody(s))).body) == Some(s)
    ensures (forall i :: 0 <= i < |s| ==> s[i] as int < 0x80) ==> |IntoResponse(BodyValue(StringBody(s))).body| == |s|
  {
    if forall i :: 0 <= i < |s| ==> s[i] as int < 0x80 {
      Utf8Ascii(s);
    }
  }

  // ---------------------------------------------------------------------------
  // send_response: the text layout

  /** `"{key}: {value}\r\n"`. */
  function HeaderLine(key: string, value: string): string
  {
    key + ": " + value + "\r\n"
  }

  /** The header lines for the keys in `order`, in that order. */
  function HeaderLines(headers: map<string, string>, order: seq<string>): (ls: seq<string>)
    requires forall i :: 0 <= i < |order| ==> order[i] in headers
    ensures |ls| == |order|
    ensures forall i :: 0 <= i < |order| ==> ls[i] == HeaderLine(order[i], headers[order[i]])
  {
    if |order| == 0 then []
    else HeaderLines(headers, order[..|order| - 1]) + [HeaderLine(order[|order| - 1], headers[order[|order| - 1]])]
  }

  /** The header block for the keys in `order`: their lines, one after another. */
  function HeaderText(headers: map<string, string>, order: seq<string>): string
    requires forall i :: 0 <= i < |order| ==> order[i] in headers
  {
    if |order| == 0 then ""
    else HeaderText(headers, order[..|order| - 1]) + HeaderLine(order[|order| - 1], headers[order[|order| - 1]])
  }

  /** The header block is the concatenation of the header lines. */
  lemma {:induction false} HeaderTextIsLines(headers: map<string, string>, order: seq<string>)
    requires forall i :: 0 <= i < |order| ==> order[i] in headers
    ensures HeaderText(headers, order) == Concat(HeaderLines(headers, order))
  {
    if |order| > 0 {
      HeaderTextIsLines(headers, order[..|order| - 1]);
      var ls := HeaderLines(headers, order);
      assert ls[..|ls| - 1] == HeaderLines(headers, order[..|order| - 1]);
    }
  }

  function Concat(ls: seq<string>): string
  {
    if |ls| == 0 then "" else Concat(ls[..|ls| - 1]) + ls[|ls| - 1]
  }

  /** `order` lists every header key once. */
  predicate IsOrdering(order: seq<string>, headers: map<string, string>)
  {
    && (forall i, j :: 0 <= i < j < |order| ==> order[i] != order[j])
    && (forall i :: 0 <= i < |order| ==> order[i] in headers)
    && (forall k :: k in headers ==> k in order)
  }

  /** The status line, the header lines in `order`, and the blank line before the body. */
  function Head(version: string, r: Response, order: seq<string>): string
    requires forall i :: 0 <= i < |order| ==> order[i] in r.headers
  {
    version + " " + AsRaw(r.status) + "\r\n" + HeaderText(r.headers, order) + "\r\n"
  }

  /**
   * `send_response` (response.rs:65-92) up to the write: sets `Content-Length`, then
   * appends the status line, each header line in the map's iteration order, the
   * blank line and the body. `sent` is the response afterwards, `order` the order the
   * loop visited the keys in, and `wire` the bytes handed to the socket.
   */
  method SendResponse(response: Response, version: string) returns (sent: Response, order: seq<string>, wire: seq<byte>)
    ensures sent == response.(headers := response.headers["Content-Length" := Decimal(|response.body|)])
    ensures IsOrdering(order, sent.headers)
    ensures wire == Utf8(Head(version, sent, order)) + sent.body
  {
    sent := response.(headers := response.headers["Content-Length" := Decimal(|response.body|)]);
    var text;
    text, order := AppendHeaderLines(version + " " + AsRaw(sent.status) + "\r\n", sent.headers);
    text := text + "\r\n";
    wire := Utf8(text) + sent.body;
  }

  /** Loop state of the header loop: `order` lists the visited keys once each, `pending` the rest. */
  predicate Visited(headers: map<string, string>, order: seq<string>, pending: set<string>)
  {
    && pending <= headers.Keys
    && (forall i, j :: 0 <= i < j < |order| ==> order[i] != order[j])
    && (forall i :: 0 <= i < |order| ==> order[i] in headers && order[i] !in pending)
    && (forall k :: k in headers ==> k in pending || k in order)
  }

  lemma VisitStep(headers: map<string, string>, order: seq<string>, pending: set<string>, key: string)
    requires Visited(headers, order, pending) && key in pending
    ensures Visited(headers, order + [key], pending - {key})
    ensures HeaderText(headers, order + [key]) == HeaderText(headers, order) + HeaderLine(key, headers[key])
  {
    assert (order + [key])[..|order|] == order;
  }

  /** The header loop of `send_response` (response.rs:75-77), visiting the keys in some order. */
  method AppendHeaderLines(start: string, headers: map<string, string>) returns (text: string, order: seq<string>)
    ensures IsOrdering(order, headers)
    ensures text == start + HeaderText(headers, order)
  {
    text := start;
    order := [];
    var pending := headers.Keys;
    while pending != {}
      invariant Visited(headers, order, pending)
      invariant text == start + HeaderText(headers, order)
      decreases pending
    {
      var key :| key in pending;
      VisitStep(headers, order, pending, key);
      text := text + HeaderLine(key, headers[key]);
      order := order + [key];
      pending := pending - {key};
    }
  }

  // ---------------------------------------------------------------------------
  // Reading the layout back with the request parser

  /** Header keys and values the request parser can read back: no `:`, no whitespace at the value's ends. */
  predicate CleanHeaders(headers: map<string, string>)
  {
    forall k :: k in headers ==>
      && ':' !in k && ':' !in headers[k]
      && (headers[k] != "" ==> !IsWhitespace(headers[k][0]) && !IsWhitespace(headers[k][|headers[k]| - 1]))
  }

  /** One header line, parsed as `from_stream` parses header lines, gives its key and value back. */
  lemma HeaderLineReadsBack(key: string, value: string)
    requires ':' !in key && ':' !in value
    requires value != "" ==> !IsWhitespace(value[0]) && !IsWhitespace(value[|value| - 1])
    ensures Requests.HeaderEntry(HeaderLine(key, value)) == Success((key, value))
  {
    var after := " " + value + "\r\n";
    assert ':' !in after by {
      assert forall i :: 0 <= i < |after| ==> after[i] == ' ' || after[i] == '\r' || after[i] == '\n' || after[i] in value;
    }
    assert HeaderLine(key, value) == key + [':'] + after;
    Requests.HeaderEntryParts(key, after, "");
    WhitespaceAround();
    TrimAround(" ", value, "\r\n");
  }

  lemma WhitespaceAround()
    ensures forall i :: 0 <= i < |" "| ==> IsWhitespace(" "[i])
    ensures forall i :: 0 <= i < |"\r\n"| ==> IsWhitespace("\r\n"[i])
  {
  }

  /**
   * The header lines `send_response` writes, fed to the request parser in the same
   * order, give back exactly the headers listed.
   */
  lemma {:induction false} HeaderLinesReadBack(headers: map<string, string>, order: seq<string>)
    requires CleanHeaders(headers)
    requires forall i :: 0 <= i < |order| ==> order[i] in headers
    ensures Requests.HeaderMap(HeaderLines(headers, order)).Success?
    ensures forall k :: k in Requests.HeaderMap(HeaderLines(headers, order)).value <==> k in order
    ensures forall k :: k in order ==> Requests.HeaderMap(HeaderLines(headers, order)).value[k] == headers[k]
  {
    if |order| > 0 {
      var init := order[..|order| - 1];
      var last := order[|order| - 1];
      HeaderLinesReadBack(headers, init);
      HeaderLineReadsBack(last, headers[last]);
      var ls := HeaderLines(headers, order);
      assert ls[..|ls| - 1] == HeaderLines(headers, init);
      assert ls[|ls| - 1] == HeaderLine(last, headers[last]);
      var m0 := Requests.HeaderMap(HeaderLines(headers, init)).value;
      assert Requests.HeaderMap(ls) == Success(m0[last := headers[last]]);
      forall k ensures k in order <==> k in init || k == last {
        if k in order {
          var i :| 0 <= i < |order| && order[i] == k;
          if i < |order| - 1 { assert init[i] == k; }
        }
      }
    }
  }

  /** Written in any ordering of its keys, a clean header map reads back as itself. */
  lemma SentHeadersReadBack(headers: map<string, string>, order: seq<string>)
    requires CleanHeaders(headers) && IsOrdering(order, headers)
    ensures Requests.HeaderMap(HeaderLines(headers, order)) == Success(headers)
  {
    HeaderLinesReadBack(headers, order);
    var m := Requests.HeaderMap(HeaderLines(headers, order)).value;
    assert m.Keys == headers.Keys;
    assert m == headers;
  }

  /**
   * The forced `Content-Length` is the body length in decimal, so a reader of the
   * sent headers takes exactly the body's bytes.
   */
  lemma ContentLengthReadsBack(response: Response)
    requires |response.body| <= UsizeMax
    ensures var h := response.headers["Content-Length" := Decimal(|response.body|)];
      && ParseUsize(h["Content-Length"]) == Some(|response.body|)
      && Requests.ContentLength(h) == |response.body|
  {
    ParseDecimal(|response.body|);
  }

  /** Forcing `Content-Length` keeps clean headers clean: a decimal has no `:` and no whitespace. */
  lemma DecimalIsClean(headers: map<string, string>, n: nat)
    requires CleanHeaders(headers)
    ensures CleanHeaders(headers["Content-Length" := Decimal(n)])
  {
    var d := Decimal(n);
    assert forall i :: 0 <= i < |d| ==> IsDigit(d[i]);
    assert ':' !in d;
  }
}
