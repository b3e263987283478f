# cups4j `IppOperation`: the IPP request frame and the POST that carries it

This project models, in Dafny, the part of cups4j's `IppOperation` that decides
which bytes go on the wire for an Internet Printing Protocol request:

- `getIppHeader(url, map)` appends, in a fixed order, the operation header,
  `printer-uri`, `requesting-user-name`, `limit`, the `requested-attributes`
  keywords and the end-of-attributes marker to a buffer, then flips it.
- `stripPortNumber(url)` builds the `printer-uri` value. It rewrites the
  `ipp` scheme (RFC 3510, section 4) to `http` and drops the port and query.
- `sendRequest(url, buffer, document)` checks its inputs for null. It then
  composes the target `http://host:ippPort/path` and the body: the frame's
  readable bytes, then the document's bytes if a document is given.
- `request(url, map[, document])` chains the two.

Files and modules:

- `wrappers.dfy` (`Wrappers`): `Option`, which stands for a Java reference that may be null.
- `java_lang.dfy` (`JavaLang`): the Java library behaviour the core depends on.
  - `String.split(" ")`: leading and inner empty tokens are kept and trailing
    ones removed; `""` gives `[""]`; a run of spaces gives `[]`.
  - `Integer.parseInt`, and the decimal text of an `int` in a string concatenation.
  - `indexOf` / `lastIndexOf`, used to read URIs back.
  - Java's outcomes: return null, throw an exception, or return a value.
- `ipp_frame.dfy` (`IppFrame`): the abstract `Field` records the `IppTag`
  primitives append, and the class `FrameBuffer`.
  - `FrameBuffer` is a growable buffer with ByteBuffer's `position` and
    `limit`, and a state machine Writing → Sealed. `Flip` sets
    limit := position and position := 0.
  - `Encoded` is the byte form of a run of fields. It is given the byte form
    of each single field (`wire`).
- `ipp_operation.dfy` (`IppOperation`): the URL record, `StripPortNumber`,
  `FrameFor` (the specification of the frame) and the method `GetIppHeader`.
  - `GetIppHeader` appends field by field and loops over the tokens. It is
    proved to leave exactly `FrameFor`'s fields in a sealed buffer.
  - Also here: `ConnectionUri`, `RequestBody`, the methods `SendRequest` and
    `Request`, and the specification `RequestFor`.
- `ipp_operation_props.dfy` (`IppOperationProperties`): lemmas about the frame,
  the two URIs and the whole request.

What the code does at the edges, which the model keeps:

- `requesting-user-name` is written whenever a map is given (line 104). When
  the map has no user name, the value is null (`Missing` in the model). What
  `IppTag` then writes for a null is not part of this model.
- `requested-attributes` is split with `split(" ")` (line 112). `""` gives one
  empty keyword. A value made only of spaces gives no token, so `sta[0]`
  (line 114) throws ArrayIndexOutOfBoundsException and no frame is returned.
- A null URL makes `getIppHeader` return null (line 91), and the model keeps
  that null (`Outcome.Null`).

## Model

| member | source | states |
|---|---|---|
| IppOperation.FrameFor | cups4j/src/main/java/de/spqrinfo/cups4j/operations/IppOperation.java:88-125 | The fields `getIppHeader(url, map)` leaves, in order, or its null/exception outcome. `GetIppHeader` is proved equal to it; `NullUrlGivesNoFrame`, `FrameWithoutParams`, `FrameShape`, `FieldOrder`, `LimitFailsIff` and `RequestedAttributesFailIff` characterise it. |
| IppOperation.UserNameField | cups4j/src/main/java/de/spqrinfo/cups4j/operations/IppOperation.java:104 | The requesting-user-name field: the map's value, or null when there is none. Partner: `UserNameAlwaysWritten` places it third in every frame with a map. |
| IppOperation.LimitFields | cups4j/src/main/java/de/spqrinfo/cups4j/operations/IppOperation.java:106-109 | No field without a limit, the parsed `limit` field, or NumberFormatException. Partners: `LimitFailsIff` (both directions of the exception) and `LimitField` (the value written). |
| IppOperation.RequestedAttributeFields | cups4j/src/main/java/de/spqrinfo/cups4j/operations/IppOperation.java:111-119 | No field without requested-attributes, `KeywordFields` of the split value, or ArrayIndexOutOfBoundsException when the split is empty. Partners: `RequestedAttributesFailIff` and `RequestedAttributesFields`. |
| IppOperation.StripPortNumber | cups4j/src/main/java/de/spqrinfo/cups4j/operations/IppOperation.java:230-237 | printer-uri: the normalised scheme, `://`, the host and the path. Partners: `PrinterScheme` (the scheme), `StripPortIgnoresPortAndQuery` and `PrinterUriParsesBack` (it reads back into scheme, host and path). |
| IppOperation.ConnectionUri | cups4j/src/main/java/de/spqrinfo/cups4j/operations/IppOperation.java:171 | The POST target: `http://`, host, `:`, the operation's port, path. Partners: `ConnectionUriIgnoresUrlSchemeAndPort` and `ConnectionUriParsesBack`. |
| IppOperation.RequestFor | cups4j/src/main/java/de/spqrinfo/cups4j/operations/IppOperation.java:72-78 | What `request(url, map[, document])` hands to the HTTP client: null for a null URL, the builder's exception, or the POST of the encoded `FrameFor` fields. `Request` is proved equal to it; partners `RequestCarriesFrameThenDocument` and `NullUrlGivesNoRequest`. |
| JavaLang.Split | cups4j/src/main/java/de/spqrinfo/cups4j/operations/IppOperation.java:112 | `split(" ")`: the raw pieces with trailing empty ones dropped, or the whole string when it has no space. Partners: `SplitJoin`, `SplitLastNonEmpty`, `SplitEmptyIff`, and `JoinPieces`/`PiecesUnique` for the raw pieces. |
| JavaLang.ParseInt | cups4j/src/main/java/de/spqrinfo/cups4j/operations/IppOperation.java:107 | `Integer.parseInt` in radix 10, with None for NumberFormatException. Partners: `ParseIntAccepts` (both directions, against the reference reading `SignedDigits`/`SignedValue`) and `ParseIntDecimal` (it reads back every int's text). |
| IppOperation.GetIppHeader | cups4j/src/main/java/de/spqrinfo/cups4j/operations/IppOperation.java:88-125 | Appends, field by field, exactly the fields of `FrameFor`, or ends as it does: null for a null URL, or the exception thrown. The buffer returned is fresh and sealed, with position 0 and every field readable. |
| IppOperation.GetIppHeaderWithoutParams | cups4j/src/main/java/de/spqrinfo/cups4j/operations/IppOperation.java:68-70 | The one-argument overload is the two-argument one with a null map. |
| IppOperation.AppendKeywords | cups4j/src/main/java/de/spqrinfo/cups4j/operations/IppOperation.java:114-118 | The token loop appends exactly `KeywordFields(sta)` after what the buffer already held, and the buffer stays in write mode. |
| IppOperation.KeywordFields | cups4j/src/main/java/de/spqrinfo/cups4j/operations/IppOperation.java:114-118 | One keyword field per token, in the tokens' order. Field k holds token k. Only field 0 carries the name requested-attributes; every later one is a nameless additional value. |
| IppOperation.PrinterScheme | cups4j/src/main/java/de/spqrinfo/cups4j/operations/IppOperation.java:231-234 | The printer-uri scheme is `http` exactly when the URL's scheme is `ipp` or `http`. Every scheme other than `ipp` is kept unchanged. |
| IppOperation.RequestBody | cups4j/src/main/java/de/spqrinfo/cups4j/operations/IppOperation.java:177-184 | Without a document the body is the frame's bytes. With a document, the body is the frame's bytes followed by exactly the document's bytes, and its length is the sum of the two. |
| IppOperation.SendRequest | cups4j/src/main/java/de/spqrinfo/cups4j/operations/IppOperation.java:151-184 | A null buffer or URL gives null, and with a null URL a given buffer keeps its position, fields and sealed state. Otherwise the POST goes to `ConnectionUri` with type application/ipp, and its body is the encoded readable fields, then the document. Reading `limit` fields from a non-zero position throws BufferUnderflowException. |
| IppOperation.Request | cups4j/src/main/java/de/spqrinfo/cups4j/operations/IppOperation.java:72-78 | Building the frame and sending it yields `RequestFor`. A null URL gives null, an exception in the builder propagates, and otherwise the POST carries the encoded `FrameFor` fields. |
| IppFrame.FrameBuffer.constructor | cups4j/src/main/java/de/spqrinfo/cups4j/operations/IppOperation.java:94 | A new buffer is empty, in write mode, at position 0. |
| IppFrame.FrameBuffer.Put | cups4j/src/main/java/de/spqrinfo/cups4j/operations/IppOperation.java:95-122 | Each `IppTag` append adds one field at the end and advances the position by one. Nothing else changes. |
| IppFrame.FrameBuffer.Flip | cups4j/src/main/java/de/spqrinfo/cups4j/operations/IppOperation.java:100 | Writing → Sealed: limit becomes the old position, position becomes 0, and every written field is readable. |
| IppFrame.FrameBuffer.Get | cups4j/src/main/java/de/spqrinfo/cups4j/operations/IppOperation.java:177-178 | Reads the next n fields and advances the position when n do not exceed what remains. Otherwise it fails and reads nothing. |
| IppFrame.EncodedAppend | cups4j/src/main/java/de/spqrinfo/cups4j/operations/IppOperation.java:177-179 | The bytes of a frame are the bytes of its parts, concatenated in order. |
| JavaLang.DropTrailingEmpty | cups4j/src/main/java/de/spqrinfo/cups4j/operations/IppOperation.java:112 | The result is a prefix of the input that does not end in an empty token. Everything it removes is empty. |
| JavaLang.Pieces | cups4j/src/main/java/de/spqrinfo/cups4j/operations/IppOperation.java:112 | The raw split is never empty, and no piece contains a space. |
| JavaLang.JoinPieces | cups4j/src/main/java/de/spqrinfo/cups4j/operations/IppOperation.java:112 | Joining the raw pieces with single spaces gives back the string. |
| JavaLang.PiecesUnique | cups4j/src/main/java/de/spqrinfo/cups4j/operations/IppOperation.java:112 | Any space-free pieces that join to a string are its raw split, so the split is the unique one. |
| JavaLang.SplitJoin | cups4j/src/main/java/de/spqrinfo/cups4j/operations/IppOperation.java:112 | No token of `split(" ")` contains a space. Joined with single spaces, the tokens give back the string up to a run of trailing spaces. |
| JavaLang.SplitLastNonEmpty | cups4j/src/main/java/de/spqrinfo/cups4j/operations/IppOperation.java:112 | When the string contains a space, the last token is never empty. |
| JavaLang.SplitEmptyIff | cups4j/src/main/java/de/spqrinfo/cups4j/operations/IppOperation.java:112-114 | `split(" ")` returns no token exactly when the string is a non-empty run of spaces, which is when `sta[0]` throws. |
| JavaLang.SplitWords | cups4j/src/main/java/de/spqrinfo/cups4j/operations/IppOperation.java:112 | "a b c" splits into a, b, c. |
| JavaLang.SplitLeadingSpace | cups4j/src/main/java/de/spqrinfo/cups4j/operations/IppOperation.java:112 | A leading space gives a leading empty token. |
| JavaLang.SplitDoubleSpace | cups4j/src/main/java/de/spqrinfo/cups4j/operations/IppOperation.java:112 | Two spaces in a row give an inner empty token. |
| JavaLang.SplitTrailingSpaces | cups4j/src/main/java/de/spqrinfo/cups4j/operations/IppOperation.java:112 | Trailing spaces give no tokens. |
| JavaLang.SplitEmptyAndBlank | cups4j/src/main/java/de/spqrinfo/cups4j/operations/IppOperation.java:112 | "" gives one empty token, and "   " gives none. |
| JavaLang.NatDecimal | cups4j/src/main/java/de/spqrinfo/cups4j/operations/IppOperation.java:171 | The decimal form of a natural number is non-empty, made of digits only, and starts with '0' only for 0 (no leading zero). |
| JavaLang.Decimal | cups4j/src/main/java/de/spqrinfo/cups4j/operations/IppOperation.java:171 | The text of an int in a concatenation is non-empty and made of digits and '-' only. |
| JavaLang.NatDecimalValue | cups4j/src/main/java/de/spqrinfo/cups4j/operations/IppOperation.java:171 | The decimal form of n has value n. |
| JavaLang.ParseIntDecimal | cups4j/src/main/java/de/spqrinfo/cups4j/operations/IppOperation.java:107 | `parseInt` reads back the decimal text of every 32-bit int. |
| JavaLang.ParseIntAccepts | cups4j/src/main/java/de/spqrinfo/cups4j/operations/IppOperation.java:107 | `parseInt` succeeds exactly when the text is an optional sign followed by at least one digit whose value fits in 32 bits, and it then returns that signed value (leading zeros allowed). |
| JavaLang.ParseIntExamples | cups4j/src/main/java/de/spqrinfo/cups4j/operations/IppOperation.java:107 | "42", "+7", "-007" and "0042" parse. "", "-" and "12a" throw NumberFormatException. |
| JavaLang.ParseIntOverflowExample | cups4j/src/main/java/de/spqrinfo/cups4j/operations/IppOperation.java:107 | "2147483648" is out of range and throws. |
| IppOperationProperties.NullUrlGivesNoFrame | cups4j/src/main/java/de/spqrinfo/cups4j/operations/IppOperation.java:89-92 | A null URL gives a null header, whatever the map. |
| IppOperationProperties.FrameWithoutParams | cups4j/src/main/java/de/spqrinfo/cups4j/operations/IppOperation.java:94-101 | With no map, the frame is exactly header, printer-uri, end marker. |
| IppOperationProperties.FrameShape | cups4j/src/main/java/de/spqrinfo/cups4j/operations/IppOperation.java:94-124 | Every frame holds the operation header only at position 0 and printer-uri only at position 1. printer-uri carries `StripPortNumber(url)`, and the end marker is only the last field. |
| IppOperationProperties.FieldOrder | cups4j/src/main/java/de/spqrinfo/cups4j/operations/IppOperation.java:95-122 | With a map, the fields come in this order: header, printer-uri, requesting-user-name, the parsed limit if given, the requested-attributes keywords if given, end marker. |
| IppOperationProperties.UserNameAlwaysWritten | cups4j/src/main/java/de/spqrinfo/cups4j/operations/IppOperation.java:104 | With a map, requesting-user-name is always the third field. Its value is null when the map has none. |
| IppOperationProperties.LimitFailsIff | cups4j/src/main/java/de/spqrinfo/cups4j/operations/IppOperation.java:106-109 | NumberFormatException, with no frame, happens exactly when a limit is given and `parseInt` rejects it. |
| IppOperationProperties.LimitField | cups4j/src/main/java/de/spqrinfo/cups4j/operations/IppOperation.java:106-109 | A limit becomes the integer field `limit`, right after the user name, holding the signed value of its digits (so "0042" gives 42, and the decimal text of n gives n). With no limit, no field is named `limit`. |
| IppOperationProperties.RequestedAttributesFailIff | cups4j/src/main/java/de/spqrinfo/cups4j/operations/IppOperation.java:111-114 | ArrayIndexOutOfBoundsException, with no frame, happens exactly when the limit is absent or valid and requested-attributes is a non-empty run of spaces. |
| IppOperationProperties.RequestedAttributesFields | cups4j/src/main/java/de/spqrinfo/cups4j/operations/IppOperation.java:111-119 | The fields just before the end marker are exactly `KeywordFields(split(value))`: one per token, in order, only the first named. |
| IppOperationProperties.RequestedAttributesExample | cups4j/src/main/java/de/spqrinfo/cups4j/operations/IppOperation.java:104-123 | For requested-attributes "a b c", the frame is the header, printer-uri, a null user name, keyword a (named), b and c (nameless), then the end marker. |
| IppOperationProperties.StripPortIgnoresPortAndQuery | cups4j/src/main/java/de/spqrinfo/cups4j/operations/IppOperation.java:236 | printer-uri does not depend on the URL's port or query. |
| IppOperationProperties.PrinterUriParsesBack | cups4j/src/main/java/de/spqrinfo/cups4j/operations/IppOperation.java:230-237 | printer-uri reads back as the normalised scheme, the host and the path, and holds nothing else. |
| IppOperationProperties.ConnectionUriIgnoresUrlSchemeAndPort | cups4j/src/main/java/de/spqrinfo/cups4j/operations/IppOperation.java:171 | The connection URI does not depend on the URL's scheme, port or query. |
| IppOperationProperties.ConnectionUriParsesBack | cups4j/src/main/java/de/spqrinfo/cups4j/operations/IppOperation.java:171 | The connection URI is `http://` followed by the URL's host, the operation's `ippPort` and the URL's path, and reads back as those three. |
| IppOperationProperties.RequestCarriesFrameThenDocument | cups4j/src/main/java/de/spqrinfo/cups4j/operations/IppOperation.java:72-78 | A request that reaches the HTTP client goes to the connection URI as application/ipp. Its body is the frame's bytes, header and printer-uri first and the end marker last, followed by the document. |
| IppOperationProperties.NullUrlGivesNoRequest | cups4j/src/main/java/de/spqrinfo/cups4j/operations/IppOperation.java:153-155 | `request` with a null URL ends with null: the header is null, and `sendRequest` returns null for it. |

## Left out

- HTTP client configuration and execution (lines 158-168, 194, 212): the two 10-second timeouts, expect-continue and the POST itself are transport I/O behind Apache HttpClient. `SendRequest` stops at the request it would hand over.
- The response handler, the instance field `httpStatusLine` and `IppResponse.getResponse` (lines 59, 197-219): these are the HTTP exchange and a decoder that is not part of this model. This includes `ByteBuffer.wrap(null)` for a response without a body, and the race on `httpStatusLine` under concurrent reuse.
- The byte layout each `IppTag` primitive writes (RFC 8010): `IppTag` is not part of this model. Fields are abstract records, and their bytes are a parameter (`wire`), so the request id and the encoding of a null value are not invented.
- Position and limit count fields, not bytes. This is equivalent for what the core does, because it reads the whole frame from position 0.
- The 8192-byte direct buffer (lines 51, 94): the buffer is growable. Whether `IppTag` grows it is not visible.
- `getAttributeValue` (lines 239-241): a one-line accessor over JAXB schema types.
- SLF4J logging (line 90).
- `new URI(...)` (line 171) can throw URISyntaxException on illegal characters. The model treats the URI as plain text.
- The streaming of the body (`SequenceInputStream`): the model composes the body as one sequence. It does not capture that the document is read lazily, or read only once.
- Parsing a URL string into `java.net.URL`: the URL arrives as a record of its parts.
- The test `sta != null` (line 113) is always true, because `split` never returns null. It has no branch in the model.
- `FrameBuffer.Put` requires write mode and `FrameBuffer.Get` requires read mode. Java's ByteBuffer does not enforce this order, but this code never breaks it.
- JavaLang.ParseInt: accepts ASCII digits only. Java's `parseInt` also accepts other Unicode decimal digits (`Character.digit`).
- CupsClient.DEFAULT_PORT is not part of this model: `ippPort` is a field of `Operation`, given by the caller.
