/**
 * What the frame builder, the URI normalisation and the request composition
 * of `IppOperation` promise, stated over the specification functions of
 * module IppOperation.
 */
module IppOperationProperties {

  import opened Wrappers
  import opened JavaLang
  import opened IppFrame
  import opened IppOperation

  /* ---------------------------------------------------------------------
   * The frame
   * ------------------------------------------------------------------- */

  /** A null URL gives a null header and no frame. */
  lemma NullUrlGivesNoFrame(op: Operation, params: Option<Params>)
    ensures FrameFor(op, None, params) == Null
  {
  }

  /** Without a map the frame is exactly header, printer-uri, end marker. */
  lemma FrameWithoutParams(op: Operation, u: Url)
    ensures FrameFor(op, Some(u), None)
            == Returned([OperationHeader(op.operationId), PrinterUriField(u), EndOfAttributes])
  {
    assert [OperationHeader(op.operationId), PrinterUriField(u)] + [EndOfAttributes]
           == [OperationHeader(op.operationId), PrinterUriField(u), EndOfAttributes];
  }

  predicate IsNamed(f: Field, name: string)
  {
    f.Attribute? && f.name == Some(name)
  }

  /** Every frame starts with the operation header and printer-uri (holding
      the port-stripped URI), ends with the end marker, and has each of the
      three exactly once. */
  lemma FrameShape(op: Operation, url: Option<Url>, params: Option<Params>, fs: seq<Field>)
    requires FrameFor(op, url, params) == Returned(fs)
    ensures url.Some? && |fs| >= 3
    ensures fs[1] == Attribute(Uri, Some(PrinterUri), Text(StripPortNumber(url.value)))
    ensures forall i :: 0 <= i < |fs| ==> (fs[i].OperationHeader? <==> i == 0)
    ensures fs[0] == OperationHeader(op.operationId)
    ensures forall i :: 0 <= i < |fs| ==> (IsNamed(fs[i], PrinterUri) <==> i == 1)
    ensures forall i :: 0 <= i < |fs| ==> (fs[i].EndOfAttributes? <==> i == |fs| - 1)
  {
    var u := url.value;
    var middle: seq<Field> := [];
    if params.Some? {
      var m := params.value;
      middle := [UserNameField(m)] + LimitFields(m).value + RequestedAttributeFields(m).value;
      FrameForWithParams(op, u, m);
      MiddleFieldsAreOtherAttributes(m);
    }
    assert fs == [OperationHeader(op.operationId), PrinterUriField(u)] + middle + [EndOfAttributes];
    ShapeAround(OperationHeader(op.operationId), PrinterUriField(u), middle);
  }

  /** Proof helper for `EncodedFrame`: the frame split into its fixed start,
      its middle and the end marker (the shape itself is stated by
      `FrameShape`). */
  lemma FrameBounds(op: Operation, url: Option<Url>, params: Option<Params>, fs: seq<Field>)
    requires FrameFor(op, url, params) == Returned(fs)
    ensures url.Some? && |fs| >= 3
    ensures fs == [OperationHeader(op.operationId), PrinterUriField(url.value)] + fs[2..|fs| - 1] + [EndOfAttributes]
  {
    if params.Some? {
      FrameForWithParams(op, url.value, params.value);
    }
  }

  /** Between printer-uri and the end marker there are only attributes, and
      none of them is printer-uri. */
  lemma MiddleFieldsAreOtherAttributes(m: Params)
    requires LimitFields(m).Returned? && RequestedAttributeFields(m).Returned?
    ensures var middle := [UserNameField(m)] + LimitFields(m).value + RequestedAttributeFields(m).value;
            forall i :: 0 <= i < |middle| ==> middle[i].Attribute? && !IsNamed(middle[i], PrinterUri)
  {
    var lim := LimitFields(m).value;
    var kw := RequestedAttributeFields(m).value;
    var middle := [UserNameField(m)] + lim + kw;
    forall i | 0 <= i < |middle|
      ensures middle[i].Attribute? && !IsNamed(middle[i], PrinterUri)
    {
      if 1 + |lim| <= i {
        assert middle[i] == kw[i - 1 - |lim|];
      }
    }
  }

  lemma ShapeAround(header: Field, uri: Field, middle: seq<Field>)
    requires header.OperationHeader? && uri.Attribute? && uri.name == Some(PrinterUri)
    requires forall i :: 0 <= i < |middle| ==> middle[i].Attribute? && !IsNamed(middle[i], PrinterUri)
    ensures var fs := [header, uri] + middle + [EndOfAttributes];
            && (forall i :: 0 <= i < |fs| ==> (fs[i].OperationHeader? <==> i == 0))
            && (forall i :: 0 <= i < |fs| ==> (IsNamed(fs[i], PrinterUri) <==> i == 1))
            && (forall i :: 0 <= i < |fs| ==> (fs[i].EndOfAttributes? <==> i == |fs| - 1))
  {
    var fs := [header, uri] + middle + [EndOfAttributes];
    forall i | 0 <= i < |fs|
      ensures (fs[i].OperationHeader? <==> i == 0)
      ensures (IsNamed(fs[i], PrinterUri) <==> i == 1)
      ensures (fs[i].EndOfAttributes? <==> i == |fs| - 1)
    {
      if 2 <= i < |fs| - 1 {
        assert fs[i] == middle[i - 2];
      }
    }
  }

  /** With a map, the fields come in the fixed order header, printer-uri,
      requesting-user-name, limit (when given), requested-attributes (when
      given), end marker. */
  lemma FieldOrder(op: Operation, u: Url, m: Params, fs: seq<Field>)
    requires FrameFor(op, Some(u), Some(m)) == Returned(fs)
    ensures Limit in m ==> ParseInt(m[Limit]).Some?
    ensures RequestedAttributes in m ==> Split(m[RequestedAttributes]) != []
    ensures fs == [OperationHeader(op.operationId), PrinterUriField(u), UserNameField(m)]
                  + (if Limit in m then [Attribute(Integer, Some(Limit), Number(ParseInt(m[Limit]).value))] else [])
                  + (if RequestedAttributes in m then KeywordFields(Split(m[RequestedAttributes])) else [])
                  + [EndOfAttributes]
  {
    FrameForWithParams(op, u, m);
    var lim := LimitFields(m).value;
    var kw := RequestedAttributeFields(m).value;
    assert lim == if Limit in m then [Attribute(Integer, Some(Limit), Number(ParseInt(m[Limit]).value))] else [];
    assert kw == if RequestedAttributes in m then KeywordFields(Split(m[RequestedAttributes])) else [];
    assert [OperationHeader(op.operationId), PrinterUriField(u)] + [UserNameField(m)]
           == [OperationHeader(op.operationId), PrinterUriField(u), UserNameField(m)];
  }

  /** requesting-user-name is the third field whenever a map is given, null
      when the map has no user name. */
  lemma UserNameAlwaysWritten(op: Operation, u: Url, m: Params, fs: seq<Field>)
    requires FrameFor(op, Some(u), Some(m)) == Returned(fs)
    ensures |fs| >= 4
    ensures fs[2] == Attribute(NameWithoutLanguage, Some(RequestingUserName),
                               if RequestingUserName in m then Text(m[RequestingUserName]) else Missing)
  {
    FrameForWithParams(op, u, m);
  }

  /** A limit that parseInt rejects is the one way to get a
      NumberFormatException, and it leaves no frame. */
  lemma LimitFailsIff(op: Operation, u: Url, m: Params)
    ensures FrameFor(op, Some(u), Some(m)) == Threw(NumberFormatException)
            <==> Limit in m && ParseInt(m[Limit]).None?
  {
  }

  /** A limit reaches the frame, right after the user name, as the value of
      its signed digits (leading zeros allowed), in particular as the int
      whose Java text it is; without a limit there is no limit field. */
  lemma LimitField(op: Operation, u: Url, m: Params, fs: seq<Field>)
    requires FrameFor(op, Some(u), Some(m)) == Returned(fs)
    ensures |fs| >= 4
    ensures Limit in m ==> SignedDigits(m[Limit])
                           && fs[3] == Attribute(Integer, Some(Limit), Number(SignedValue(m[Limit])))
    ensures forall n: Int32 :: Limit in m && m[Limit] == Decimal(n) ==>
              fs[3] == Attribute(Integer, Some(Limit), Number(n))
    ensures Limit !in m ==> forall i :: 0 <= i < |fs| ==> !IsNamed(fs[i], Limit)
  {
    FrameForWithParams(op, u, m);
    if Limit in m {
      ParseIntAccepts(m[Limit]);
    }
    forall n: Int32 | Limit in m && m[Limit] == Decimal(n)
      ensures fs[3] == Attribute(Integer, Some(Limit), Number(n))
    {
      ParseIntDecimal(n);
    }
    if Limit !in m {
      FrameShape(op, Some(u), Some(m), fs);
      forall i | 0 <= i < |fs|
        ensures !IsNamed(fs[i], Limit)
      {
        if 3 <= i < |fs| - 1 {
          var tokens := Split(m[RequestedAttributes]);
          assert fs[i] == KeywordFields(tokens)[i - 3];
        }
      }
    }
  }

  /** `sta[0]` throws exactly when the limit is fine and requested-attributes
      is a non-empty run of spaces. */
  lemma RequestedAttributesFailIff(op: Operation, u: Url, m: Params)
    ensures FrameFor(op, Some(u), Some(m)) == Threw(ArrayIndexOutOfBoundsException)
            <==> (Limit !in m || ParseInt(m[Limit]).Some?) && RequestedAttributes in m
                 && m[RequestedAttributes] != []
                 && forall i :: 0 <= i < |m[RequestedAttributes]| ==> m[RequestedAttributes][i] == Space
  {
    if RequestedAttributes in m {
      SplitEmptyIff(m[RequestedAttributes]);
    }
  }

  /** One keyword field per token of split(" "), in the caller's order, just
      before the end marker; only the first carries the attribute name (the
      contract of KeywordFields). */
  lemma RequestedAttributesFields(op: Operation, u: Url, m: Params, fs: seq<Field>)
    requires FrameFor(op, Some(u), Some(m)) == Returned(fs)
    requires RequestedAttributes in m
    ensures var tokens := Split(m[RequestedAttributes]);
            |tokens| >= 1 && |fs| >= |tokens| + 4 &&
            fs[|fs| - 1 - |tokens|..|fs| - 1] == KeywordFields(tokens)
  {
    FrameForWithParams(op, u, m);
    var tokens := Split(m[RequestedAttributes]);
    var kw := KeywordFields(tokens);
    var prefix := [OperationHeader(op.operationId), PrinterUriField(u)] + [UserNameField(m)]
                  + LimitFields(m).value;
    assert fs == prefix + kw + [EndOfAttributes];
    assert |fs| - 1 - |tokens| == |prefix|;
    assert fs[|prefix|..|fs| - 1] == kw;
  }

  /** "a b c" gives three keywords a, b, c; only a is named. */
  lemma RequestedAttributesExample(op: Operation, u: Url)
    ensures var m := map[RequestedAttributes := "a b c"];
            FrameFor(op, Some(u), Some(m))
            == Returned([OperationHeader(op.operationId), PrinterUriField(u),
                         Attribute(NameWithoutLanguage, Some(RequestingUserName), Missing),
                         Attribute(Keyword, Some(RequestedAttributes), Text("a")),
                         Attribute(Keyword, None, Text("b")),
                         Attribute(Keyword, None, Text("c")),
                         EndOfAttributes])
  {
    var m := map[RequestedAttributes := "a b c"];
    SplitWords();
    FrameForWithParams(op, u, m);
    var kw := KeywordFields(["a", "b", "c"]);
    assert kw == [Attribute(Keyword, Some(RequestedAttributes), Text("a")),
                  Attribute(Keyword, None, Text("b")),
                  Attribute(Keyword, None, Text("c"))];
    assert LimitFields(m).value == [];
    assert UserNameField(m) == Attribute(NameWithoutLanguage, Some(RequestingUserName), Missing);
    assert [OperationHeader(op.operationId), PrinterUriField(u)] + [UserNameField(m)] + [] + kw + [EndOfAttributes]
           == [OperationHeader(op.operationId), PrinterUriField(u),
               Attribute(NameWithoutLanguage, Some(RequestingUserName), Missing),
               Attribute(Keyword, Some(RequestedAttributes), Text("a")),
               Attribute(Keyword, None, Text("b")),
               Attribute(Keyword, None, Text("c")),
               EndOfAttributes];
  }

  /* ---------------------------------------------------------------------
   * The printer URI
   * ------------------------------------------------------------------- */

  /** The URL's port and query never reach printer-uri. */
  lemma StripPortIgnoresPortAndQuery(u: Url, port: int, query: string)
    ensures StripPortNumber(u.(port := port, query := query)) == StripPortNumber(u)
  {
  }

  /** A URL as java.net.URL hands it out: a scheme without ':', a host
      without '/', and a path that is empty or starts with '/'. */
  predicate WellFormed(u: Url)
  {
    ':' !in u.protocol && '/' !in u.host && (u.path == [] || u.path[0] == '/')
  }

  /** Reads "scheme://host/path" back into its three parts. */
  function ParsePrinterUri(s: string): Option<(string, string, string)>
  {
    var i := IndexOf(s, ':');
    if i + 3 > |s| || s[i..i + 3] != "://" then None
    else
      var rest := s[i + 3..];
      var j := IndexOf(rest, '/');
      Some((s[..i], rest[..j], rest[j..]))
  }

  /** printer-uri holds the normalised scheme, the host and the path of the
      URL, and nothing else. */
  lemma PrinterUriParsesBack(u: Url)
    requires WellFormed(u)
    ensures ParsePrinterUri(StripPortNumber(u)) == Some((PrinterScheme(u.protocol), u.host, u.path))
  {
    var scheme := PrinterScheme(u.protocol);
    assert ':' !in scheme by {
      if u.protocol == "ipp" {
        assert scheme == ['h', 't', 't', 'p'];
      }
    }
    ParseSchemeHostPath(scheme, u.host, u.path);
  }

  lemma ParseSchemeHostPath(scheme: string, host: string, path: string)
    requires ':' !in scheme && '/' !in host && (path == [] || path[0] == '/')
    ensures ParsePrinterUri(scheme + "://" + host + path) == Some((scheme, host, path))
  {
    var s := scheme + "://" + host + path;
    var tail := "//" + host + path;
    assert s == scheme + [':'] + tail;
    IndexOfAfter(scheme, ':', tail);
    var rest := host + path;
    assert s[..|scheme|] == scheme && s[|scheme|..|scheme| + 3] == "://" && s[|scheme| + 3..] == rest;
    HostThenPath(host, path);
  }

  lemma HostThenPath(host: string, path: string)
    requires '/' !in host && (path == [] || path[0] == '/')
    ensures var rest := host + path;
            var j := IndexOf(rest, '/');
            rest[..j] == host && rest[j..] == path
  {
    var rest := host + path;
    if path == [] {
      IndexOfAbsent(rest, '/');
      assert rest == host;
    } else {
      assert rest == host + ['/'] + path[1..];
      IndexOfAfter(host, '/', path[1..]);
    }
  }

  /* ---------------------------------------------------------------------
   * The connection URI and the body
   * ------------------------------------------------------------------- */

  /** The connection URI depends on the URL's host and path only. */
  lemma ConnectionUriIgnoresUrlSchemeAndPort(u: Url, protocol: string, port: int, query: string, ippPort: Int32)
    ensures ConnectionUri(u.(protocol := protocol, port := port, query := query), ippPort)
            == ConnectionUri(u, ippPort)
  {
  }

  /** Reads "http://host:port/path" back: the port is the digits after the
      last ':' before the first '/'. */
  function ParseConnectionUri(s: string): Option<(string, Int32, string)>
  {
    if |s| < 7 || s[..7] != "http://" then None
    else
      var rest := s[7..];
      var j := IndexOf(rest, '/');
      var authority := rest[..j];
      var k := LastIndexOf(authority, ':');
      if k < 0 then None
      else match ParseInt(authority[k + 1..])
        case None => None
        case Some(port) => Some((authority[..k], port, rest[j..]))
  }

  /** The connection URI is http, and carries the URL's host, the
      operation's port and the URL's path. */
  lemma ConnectionUriParsesBack(u: Url, ippPort: Int32)
    requires '/' !in u.host && (u.path == [] || u.path[0] == '/')
    ensures ParseConnectionUri(ConnectionUri(u, ippPort)) == Some((u.host, ippPort, u.path))
  {
    var d := Decimal(ippPort);
    DecimalHasNoSeparators(ippPort);
    var authority := u.host + [':'] + d;
    assert '/' !in authority;
    var s := ConnectionUri(u, ippPort);
    assert s == "http://" + (authority + u.path);
    assert s[..7] == "http://" && s[7..] == authority + u.path;
    HostThenPath(authority, u.path);
    AuthorityParts(u.host, d);
    ParseIntDecimal(ippPort);
  }

  lemma DecimalHasNoSeparators(n: Int32)
    ensures '/' !in Decimal(n) && ':' !in Decimal(n)
  {
  }

  lemma AuthorityParts(host: string, d: string)
    requires ':' !in d
    ensures var a := host + [':'] + d;
            LastIndexOf(a, ':') == |host| && a[..|host|] == host && a[|host| + 1..] == d
  {
    LastIndexOfBefore(host, ':', d);
  }

  /* ---------------------------------------------------------------------
   * The request as a whole
   * ------------------------------------------------------------------- */

  /** A request that reaches the HTTP client goes to the http connection
      URI with the IPP media type, and its body is the frame's bytes, header
      first and end marker last, followed by the document. */
  lemma RequestCarriesFrameThenDocument(op: Operation, url: Option<Url>, params: Option<Params>,
                                        document: Option<seq<byte>>, wire: Field -> seq<byte>, post: HttpPost)
    requires RequestFor(op, url, params, document, wire) == Returned(post)
    ensures url.Some? && FrameFor(op, url, params).Returned?
    ensures post.uri == ConnectionUri(url.value, op.ippPort) && post.contentType == IppMimeType
    ensures var head := wire(OperationHeader(op.operationId)) + wire(PrinterUriField(url.value));
            var frame := Encoded(FrameFor(op, url, params).value, wire);
            |head| <= |frame| && frame[..|head|] == head
            && |wire(EndOfAttributes)| <= |frame| && frame[|frame| - |wire(EndOfAttributes)|..] == wire(EndOfAttributes)
            && post.body == RequestBody(frame, document)
  {
    var fs := FrameFor(op, url, params).value;
    FrameBounds(op, url, params, fs);
    var middle := fs[2..|fs| - 1];
    EncodedFrame(OperationHeader(op.operationId), PrinterUriField(url.value), middle, wire);
  }

  lemma EncodedFrame(header: Field, uri: Field, middle: seq<Field>, wire: Field -> seq<byte>)
    ensures Encoded([header, uri] + middle + [EndOfAttributes], wire)
            == wire(header) + wire(uri) + Encoded(middle, wire) + wire(EndOfAttributes)
  {
    var start := [header, uri];
    EncodedAppend(start + middle, [EndOfAttributes], wire);
    EncodedAppend(start, middle, wire);
    assert Encoded([EndOfAttributes], wire) == wire(EndOfAttributes) by {
      assert [EndOfAttributes][..0] == [];
    }
    assert Encoded(start, wire) == wire(header) + wire(uri) by {
      assert start[..1] == [header] && start[..1][..0] == [];
    }
  }

  /** `request` with a null URL yields null, whatever the map and the
      document. */
  lemma NullUrlGivesNoRequest(op: Operation, params: Option<Params>, document: Option<seq<byte>>,
                              wire: Field -> seq<byte>)
    ensures RequestFor(op, None, params, document, wire) == Null
  {
  }
}
