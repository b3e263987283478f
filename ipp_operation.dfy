/**
 * `IppOperation`: builds the IPP request frame for an operation
 * (`getIppHeader`), normalises the printer URI written into it
 * (`stripPortNumber`), and composes the HTTP POST that carries the frame and
 * an optional document (`sendRequest`, `request`).  The HTTP exchange
 * itself and the decoding of the response are not part of this model.
 */
module IppOperation {

  import opened Wrappers
  import opened JavaLang
  import opened IppFrame

  type Short = x: int | -0x8000 <= x < 0x8000

  /** What a concrete operation fixes: its IPP operation id (a Java short)
      and the port requests are sent to. */
  datatype Operation = Operation(operationId: Short, ippPort: Int32)

  /** The parts of a java.net.URL the core reads (getProtocol, getHost,
      getPort, getPath, getQuery). */
  datatype Url = Url(protocol: string, host: string, port: int, path: string, query: string)

  /** The caller's parameter map.  `map.get` gives null both for an absent
      key and for a key mapped to null, so a null value is an absent key. */
  type Params = map<string, string>

  const PrinterUri: string := "printer-uri"
  const RequestingUserName: string := "requesting-user-name"
  const Limit: string := "limit"
  const RequestedAttributes: string := "requested-attributes"
  const IppMimeType: string := "application/ipp"

  /** The POST request handed to the HTTP client. */
  datatype HttpPost = HttpPost(uri: string, contentType: string, body: seq<byte>)

  /* ---------------------------------------------------------------------
   * stripPortNumber
   * ------------------------------------------------------------------- */

  /** The scheme written into printer-uri: `ipp` is sent as `http`, any
      other scheme as it is. */
  function PrinterScheme(protocol: string): (r: string)
    ensures r == "http" <==> protocol == "ipp" || protocol == "http"
    ensures protocol != "ipp" ==> r == protocol
  {
    if protocol == "ipp" then "http" else protocol
  }

  /** The printer URI without its port (and without its query). */
  function StripPortNumber(u: Url): string
  {
    PrinterScheme(u.protocol) + "://" + u.host + u.path
  }

  /* ---------------------------------------------------------------------
   * getIppHeader: the fields of the frame
   * ------------------------------------------------------------------- */

  function PrinterUriField(u: Url): Field
  {
    Attribute(Uri, Some(PrinterUri), Text(StripPortNumber(u)))
  }

  /** requesting-user-name is written whenever a map is given; its value is
      null when the map has none. */
  function UserNameField(params: Params): Field
  {
    Attribute(NameWithoutLanguage, Some(RequestingUserName),
              if RequestingUserName in params then Text(params[RequestingUserName]) else Missing)
  }

  /** One keyword per token: the first carries the name
      requested-attributes, every later one is an additional value. */
  function KeywordFields(tokens: seq<string>): (r: seq<Field>)
    requires |tokens| >= 1
    ensures |r| == |tokens|
    ensures forall k {:trigger r[k]} :: 0 <= k < |r| ==>
              r[k] == Attribute(Keyword, if k == 0 then Some(RequestedAttributes) else None, Text(tokens[k]))
  {
    if |tokens| == 1 then [Attribute(Keyword, Some(RequestedAttributes), Text(tokens[0]))]
    else KeywordFields(tokens[..|tokens| - 1]) + [Attribute(Keyword, None, Text(tokens[|tokens| - 1]))]
  }

  /** The limit field, present only when the map has a limit, or the
      NumberFormatException `parseInt` throws on it. */
  function LimitFields(params: Params): Outcome<seq<Field>>
  {
    if Limit !in params then Returned([])
    else match ParseInt(params[Limit])
      case None => Threw(NumberFormatException)
      case Some(v) => Returned([Attribute(Integer, Some(Limit), Number(v))])
  }

  /** The requested-attributes keywords, or the exception `sta[0]` throws
      when `split(" ")` gives no token. */
  function RequestedAttributeFields(params: Params): Outcome<seq<Field>>
  {
    if RequestedAttributes !in params then Returned([])
    else
      var tokens := Split(params[RequestedAttributes]);
      if |tokens| == 0 then Threw(ArrayIndexOutOfBoundsException)
      else Returned(KeywordFields(tokens))
  }

  /** The fields `getIppHeader(url, map)` leaves in the buffer, in order, or
      how it ends without a frame: null for a null URL, or an exception. */
  function FrameFor(op: Operation, url: Option<Url>, params: Option<Params>): Outcome<seq<Field>>
  {
    if url.None? then Null
    else
      var start := [OperationHeader(op.operationId), PrinterUriField(url.value)];
      if params.None? then Returned(start + [EndOfAttributes])
      else
        var m := params.value;
        match LimitFields(m)
        case Null => Null
        case Threw(e) => Threw(e)
        case Returned(limit) =>
          match RequestedAttributeFields(m)
          case Null => Null
          case Threw(e) => Threw(e)
          case Returned(keywords) =>
            Returned(start + [UserNameField(m)] + limit + keywords + [EndOfAttributes])
  }

  /** Proof helper: unfolds `FrameFor` for a map whose limit and
      requested-attributes both pass (the field order itself is stated by
      `IppOperationProperties.FieldOrder`). */
  lemma FrameForWithParams(op: Operation, u: Url, m: Params)
    requires LimitFields(m).Returned? && RequestedAttributeFields(m).Returned?
    ensures FrameFor(op, Some(u), Some(m))
            == Returned([OperationHeader(op.operationId), PrinterUriField(u)] + [UserNameField(m)]
                        + LimitFields(m).value + RequestedAttributeFields(m).value + [EndOfAttributes])
  {
  }

  /** What a call of getIppHeader left behind, read off the buffer it
      returned. */
  function Contents(r: Outcome<FrameBuffer>): Outcome<seq<Field>>
    reads if r.Returned? then {r.value} else {}
  {
    match r
    case Null => Null
    case Threw(e) => Threw(e)
    case Returned(b) => Returned(b.fields)
  }

  /** getIppHeader(url, map): appends the frame's fields one by one to a new
      buffer and flips it. */
  method GetIppHeader(op: Operation, url: Option<Url>, params: Option<Params>)
    returns (r: Outcome<FrameBuffer>)
    ensures Contents(r) == FrameFor(op, url, params)
    ensures r.Returned? ==> fresh(r.value) && r.value.Valid() && r.value.mode == Sealed
                            && r.value.position == 0 && r.value.Remaining() == r.value.fields
  {
    if url.None? {
      return Null;
    }
    var buf := new FrameBuffer();
    buf.Put(OperationHeader(op.operationId));
    buf.Put(PrinterUriField(url.value));
    if params.None? {
      buf.Put(EndOfAttributes);
      assert buf.fields == [OperationHeader(op.operationId), PrinterUriField(url.value)] + [EndOfAttributes];
      buf.Flip();
      return Returned(buf);
    }
    var m := params.value;
    buf.Put(UserNameField(m));
    if Limit in m {
      var value := ParseInt(m[Limit]);
      if value.None? {
        return Threw(NumberFormatException);
      }
      buf.Put(Attribute(Integer, Some(Limit), Number(value.value)));
    }
    assert LimitFields(m).Returned?;
    ghost var beforeKeywords := buf.fields;
    assert beforeKeywords == [OperationHeader(op.operationId), PrinterUriField(url.value)] + [UserNameField(m)]
                             + LimitFields(m).value;
    if RequestedAttributes in m {
      var sta := Split(m[RequestedAttributes]);
      if |sta| == 0 {
        return Threw(ArrayIndexOutOfBoundsException);
      }
      AppendKeywords(buf, sta);
    }
    assert RequestedAttributeFields(m).Returned?;
    assert buf.fields == beforeKeywords + RequestedAttributeFields(m).value;
    FrameForWithParams(op, url.value, m);
    buf.Put(EndOfAttributes);
    buf.Flip();
    return Returned(buf);
  }

  /** The token loop of getIppHeader: the first token under the name
      requested-attributes, then each later token as an additional value. */
  method AppendKeywords(buf: FrameBuffer, sta: seq<string>)
    requires |sta| >= 1
    requires buf.Valid() && buf.mode == Writing
    modifies buf
    ensures buf.Valid() && buf.mode == Writing
    ensures buf.fields == old(buf.fields) + KeywordFields(sta)
  {
    buf.Put(Attribute(Keyword, Some(RequestedAttributes), Text(sta[0])));
    var l := |sta|;
    var i := 1;
    while i < l
      invariant 1 <= i <= l
      invariant buf.Valid() && buf.mode == Writing
      invariant buf.fields == old(buf.fields) + KeywordFields(sta[..i])
    {
      assert sta[..i + 1][..i] == sta[..i];
      buf.Put(Attribute(Keyword, None, Text(sta[i])));
      i := i + 1;
    }
    assert sta[..l] == sta;
  }

  /** getIppHeader(url): the frame with no parameter map. */
  method GetIppHeaderWithoutParams(op: Operation, url: Option<Url>) returns (r: Outcome<FrameBuffer>)
    ensures Contents(r) == FrameFor(op, url, None)
    ensures r.Returned? ==> fresh(r.value) && r.value.Valid() && r.value.mode == Sealed
                            && r.value.position == 0 && r.value.Remaining() == r.value.fields
  {
    r := GetIppHeader(op, url, None);
  }

  /* ---------------------------------------------------------------------
   * sendRequest: target and body
   * ------------------------------------------------------------------- */

  /** The URI the POST goes to: always http, the URL's host and path, and
      the operation's port rather than the URL's. */
  function ConnectionUri(u: Url, ippPort: Int32): string
  {
    "http://" + u.host + ":" + Decimal(ippPort) + u.path
  }

  /** The HTTP body: the frame's bytes, then the document's when there is
      one. */
  function RequestBody(frame: seq<byte>, document: Option<seq<byte>>): (body: seq<byte>)
    ensures document.None? ==> body == frame
    ensures document.Some? ==> |body| == |frame| + |document.value|
                               && body[..|frame|] == frame && body[|frame|..] == document.value
  {
    match document
    case None => frame
    case Some(d) => frame + d
  }

  /** sendRequest(url, ippBuf, documentStream) up to the point where the
      request is handed to the HTTP client.  `wire` gives the bytes IppTag
      wrote for each field. */
  method SendRequest(op: Operation, url: Option<Url>, buf: FrameBuffer?, document: Option<seq<byte>>,
                     wire: Field -> seq<byte>)
    returns (r: Outcome<HttpPost>)
    requires buf != null ==> buf.Valid() && buf.mode == Sealed
    modifies buf
    ensures buf == null || url.None? ==> r == Null
    ensures buf != null && url.None? ==> buf.position == old(buf.position)
    ensures buf != null ==> buf.Valid() && buf.mode == Sealed && buf.fields == old(buf.fields)
    ensures buf != null && url.Some? && old(buf.position) == 0 ==>
              r == Returned(HttpPost(ConnectionUri(url.value, op.ippPort), IppMimeType,
                                     RequestBody(Encoded(old(buf.fields), wire), document)))
              && buf.position == buf.limit
    ensures buf != null && url.Some? && old(buf.position) != 0 ==>
              r == Threw(BufferUnderflowException) && buf.position == old(buf.position)
  {
    if buf == null || url.None? {
      return Null;
    }
    var uri := ConnectionUri(url.value, op.ippPort);
    var ok, frame := buf.Get(buf.limit);
    if !ok {
      return Threw(BufferUnderflowException);
    }
    assert frame == old(buf.fields);
    var body := RequestBody(Encoded(frame, wire), document);
    return Returned(HttpPost(uri, IppMimeType, body));
  }

  /** The request `request(url, map[, document])` hands to the HTTP client. */
  function RequestFor(op: Operation, url: Option<Url>, params: Option<Params>, document: Option<seq<byte>>,
                      wire: Field -> seq<byte>): Outcome<HttpPost>
  {
    if url.None? then Null
    else match FrameFor(op, url, params)
      case Null => Null
      case Threw(e) => Threw(e)
      case Returned(fs) =>
        Returned(HttpPost(ConnectionUri(url.value, op.ippPort), IppMimeType,
                          RequestBody(Encoded(fs, wire), document)))
  }

  /** request(url, map[, document]): builds the frame and sends it. */
  method Request(op: Operation, url: Option<Url>, params: Option<Params>, document: Option<seq<byte>>,
                 wire: Field -> seq<byte>)
    returns (r: Outcome<HttpPost>)
    ensures r == RequestFor(op, url, params, document, wire)
  {
    var header := GetIppHeader(op, url, params);
    match header
    case Null =>
      r := SendRequest(op, url, null, document, wire);
    case Threw(e) =>
      r := Threw(e);
    case Returned(buf) =>
      r := SendRequest(op, url, buf, document, wire);
  }
}
