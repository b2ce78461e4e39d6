/**
 * The per-item pipeline of the Kroki node: resolve and validate one item's
 * parameters, build the POST request to the Kroki server, turn the response
 * body into a base 64 attachment, and assemble the item's output record.
 * The HTTP call itself is a parameter: a function from request to outcome.
 */
module Kroki {
  import opened Wrappers
  import Text
  import Utf8
  import Base64

  const PublicServer := "https://kroki.io"
  const CustomServer := "custom"
  const DefaultTimeout := 30000
  const DefaultBinaryPropertyName := "data"

  const SourceRequired := "Diagram source is required"
  const CustomUrlRequired := "Custom server URL is required when using custom server option"
  const InvalidCustomUrl := "Invalid custom server URL format"
  const UnexpectedResponseType := "Unexpected response type: "

  /** getMimeType: a fixed map from output format to MIME type, total over all strings. */
  function MimeType(outputFormat: string): (m: string)
    ensures outputFormat == "png" <==> m == "image/png"
    ensures outputFormat == "svg" <==> m == "image/svg+xml"
    ensures outputFormat == "pdf" <==> m == "application/pdf"
    ensures outputFormat !in {"png", "svg", "pdf"} <==> m == "application/octet-stream"
  {
    match outputFormat
    case "png" => "image/png"
    case "svg" => "image/svg+xml"
    case "pdf" => "application/pdf"
    case _ => "application/octet-stream"
  }

  /** The `options` collection: each entry may be absent. */
  datatype Options = Options(timeout: Option<int>, binaryPropertyName: Option<string>)

  /** The node parameters of one input item; `customServerUrl` is "" when unset. */
  datatype ItemParameters = ItemParameters(
    diagramType: string,
    outputFormat: string,
    diagramSource: string,
    krokiServer: string,
    customServerUrl: string,
    options: Options)

  /** The request handed to the HTTP helper: method, URL, body, headers and timeout. */
  datatype Request = Request(
    httpMethod: string,
    url: string,
    body: string,
    headers: map<string, string>,
    timeout: int)

  /** What the item needs after validation: its request and the key for its attachment. */
  datatype Prepared = Prepared(request: Request, binaryPropertyName: string)

  /** `options.timeout || 30000`: an absent or zero (falsy) timeout gets the default; nothing is clamped. */
  function ResolveTimeout(timeout: Option<int>): (t: int)
    ensures t != 0
    ensures timeout.Some? && timeout.value != 0 ==> t == timeout.value
    ensures t == DefaultTimeout <==> timeout.None? || timeout.value in {0, DefaultTimeout}
  {
    if timeout.None? || timeout.value == 0 then DefaultTimeout else timeout.value
  }

  /** `options.binaryPropertyName || 'data'`: an absent or empty name gets the default. */
  function ResolveBinaryPropertyName(name: Option<string>): (n: string)
    ensures n != ""
    ensures name.Some? && name.value != "" ==> n == name.value
    ensures n == DefaultBinaryPropertyName <==> name.None? || name.value in {"", DefaultBinaryPropertyName}
  {
    if name.None? || name.value == "" then DefaultBinaryPropertyName else name.value
  }

  /** The server root: the public service, or the custom URL less one trailing slash. */
  function BaseUrl(krokiServer: string, customServerUrl: string): (base: string)
    ensures krokiServer != CustomServer ==> base == PublicServer
    ensures krokiServer == CustomServer ==>
      base == customServerUrl || base + "/" == customServerUrl
    ensures krokiServer == CustomServer && customServerUrl != [] && customServerUrl[|customServerUrl| - 1] == '/'
      ==> base + "/" == customServerUrl
  {
    if krokiServer == CustomServer then Text.StripTrailingSlash(customServerUrl) else PublicServer
  }

  /** `${baseUrl}/${diagramType}/${outputFormat}` */
  function RenderUrl(base: string, diagramType: string, outputFormat: string): string
  {
    base + "/" + diagramType + "/" + outputFormat
  }

  /**
   * Validation and request construction for one item, in the order the node
   * runs them: the diagram source, then (for a custom server) a blank URL,
   * then the URL's format. The first failing check decides the message.
   */
  function PrepareItem(p: ItemParameters): (r: Result<Prepared, string>)
    ensures Text.IsBlank(p.diagramSource) ==> r == Err(SourceRequired)
    ensures !Text.IsBlank(p.diagramSource) && p.krokiServer == CustomServer && Text.IsBlank(p.customServerUrl)
      ==> r == Err(CustomUrlRequired)
    ensures (!Text.IsBlank(p.diagramSource) && p.krokiServer == CustomServer && !Text.IsBlank(p.customServerUrl)
             && !Text.IsHttpUrl(p.customServerUrl)) ==> r == Err(InvalidCustomUrl)
    ensures r.Ok? <==> (!Text.IsBlank(p.diagramSource)
                        && (p.krokiServer == CustomServer ==> Text.IsHttpUrl(p.customServerUrl)))
    ensures r.Ok? ==>
      && r.value.request.httpMethod == "POST"
      && r.value.request.url == RenderUrl(BaseUrl(p.krokiServer, p.customServerUrl), p.diagramType, p.outputFormat)
      && r.value.request.body == p.diagramSource
      && r.value.request.headers == map["Content-Type" := "text/plain"]
      && r.value.request.timeout == ResolveTimeout(p.options.timeout)
      && r.value.binaryPropertyName == ResolveBinaryPropertyName(p.options.binaryPropertyName)
  {
    Text.HttpUrlIsNotBlank(p.customServerUrl);
    if Text.IsBlank(p.diagramSource) then Err(SourceRequired)
    else
      var base := BaseUrl(p.krokiServer, p.customServerUrl);
      if p.krokiServer == CustomServer && Text.IsBlank(p.customServerUrl) then Err(CustomUrlRequired)
      else if p.krokiServer == CustomServer && !Text.IsHttpUrl(p.customServerUrl) then Err(InvalidCustomUrl)
      else
        var request := Request(
          "POST",
          RenderUrl(base, p.diagramType, p.outputFormat),
          p.diagramSource,
          map["Content-Type" := "text/plain"],
          ResolveTimeout(p.options.timeout));
        Ok(Prepared(request, ResolveBinaryPropertyName(p.options.binaryPropertyName)))
  }

  /**
   * The response body as the HTTP helper returns it: a Buffer, a string, or a
   * value of some other JavaScript type (named by `typeof`).
   */
  datatype Body = Bytes(bytes: seq<uint8>) | Str(text: string) | Other(typeName: string)

  /** The HTTP call: it resolves with a body or rejects with an error message. */
  datatype Transport = Responded(body: Body) | Failed(message: string)

  /** The canonical bytes of a Buffer or string body: the Buffer itself, or the string's UTF-8 encoding. */
  function CanonicalBytes(body: Body): seq<uint8>
    requires !body.Other?
  {
    match body
    case Bytes(b) => b
    case Str(t) => Utf8.Encode(t)
  }

  /**
   * `responseBody.toString('base64')` for a Buffer, `Buffer.from(s, 'utf8').toString('base64')`
   * for a string, and the "Unexpected response type" error otherwise.
   */
  function BodyToBase64(body: Body): (r: Result<string, string>)
    ensures r.Ok? <==> !body.Other?
    ensures body.Other? ==> r == Err(UnexpectedResponseType + body.typeName)
  {
    match body
    case Bytes(b) => Ok(Base64.Encode(b))
    case Str(t) => Ok(Base64.Encode(Utf8.Encode(t)))
    case Other(name) => Err(UnexpectedResponseType + name)
  }

  /**
   * The base 64 text decodes to the canonical bytes (the Buffer's own bytes,
   * or the UTF-8 bytes of the string, from which the string is recovered),
   * and it is the only text that does.
   */
  lemma BodyToBase64Decodes(body: Body)
    requires !body.Other?
    ensures Base64.Decode(BodyToBase64(body).value) == Some(CanonicalBytes(body))
    ensures forall s :: Base64.Decode(s) == Some(CanonicalBytes(body)) ==> s == BodyToBase64(body).value
    ensures body.Str? ==> Utf8.Decode(CanonicalBytes(body)) == Some(body.text)
  {
    Base64.DecodeEncode(CanonicalBytes(body));
    forall s | Base64.Decode(s) == Some(CanonicalBytes(body))
      ensures s == BodyToBase64(body).value
    {
      Base64.DecodeIff(s, CanonicalBytes(body));
    }
    if body.Str? {
      Utf8.DecodeEncode(body.text);
    }
  }

  /** The stored attachment (IBinaryData). */
  datatype BinaryData = BinaryData(data: string, mimeType: string, fileName: string, fileExtension: string)

  /** The `json` part of an output record; `success` is true exactly for the first kind. */
  datatype ItemJson =
    | SuccessJson(diagramType: string, outputFormat: string, fileName: string, mimeType: string)
    | FailureJson(error: string)
  {
    predicate success() { SuccessJson? }
  }

  /** One entry of `returnData`: its json, its binary attachments by key, and `pairedItem`. */
  datatype OutputItem = OutputItem(json: ItemJson, binary: map<string, BinaryData>, pairedItem: nat)

  /** The record pushed when an item fails under continue-on-fail. */
  function FailureItem(message: string, itemIndex: nat): (o: OutputItem)
    ensures !o.json.success() && o.json.error == message
    ensures o.binary == map[] && o.pairedItem == itemIndex
  {
    OutputItem(FailureJson(message), map[], itemIndex)
  }

  /**
   * One item from parameters to output record: prepare the request, call the
   * server through `transport`, encode the body and build the success record.
   * Any step's error becomes the item's error message.
   */
  function ProcessItem(p: ItemParameters, itemIndex: nat, transport: Request -> Transport): (r: Result<OutputItem, string>)
    ensures r.Ok? ==> r.value.pairedItem == itemIndex && r.value.json.success()
  {
    match PrepareItem(p)
    case Err(m) => Err(m)
    case Ok(prepared) =>
      match transport(prepared.request)
      case Failed(m) => Err(m)
      case Responded(body) =>
        var mimeType := MimeType(p.outputFormat);
        match BodyToBase64(body)
        case Err(m) => Err(m)
        case Ok(data) =>
          var fileName := "diagram." + p.outputFormat;
          var binaryData := BinaryData(data, mimeType, fileName, p.outputFormat);
          var json := SuccessJson(p.diagramType, p.outputFormat, fileName, mimeType);
          Ok(OutputItem(json, map[prepared.binaryPropertyName := binaryData], itemIndex))
  }

  /**
   * What one item ends with: the first validation error, the transport's
   * error, the "Unexpected response type" error, or a success record whose
   * metadata follows the output format and whose attachment, stored under the
   * binary property name, decodes to exactly the bytes the server sent.
   */
  lemma ProcessItemOutcome(p: ItemParameters, itemIndex: nat, transport: Request -> Transport)
    ensures PrepareItem(p).Err? ==> ProcessItem(p, itemIndex, transport) == Err(PrepareItem(p).error)
    ensures PrepareItem(p).Ok? && transport(PrepareItem(p).value.request).Failed? ==>
      ProcessItem(p, itemIndex, transport) == Err(transport(PrepareItem(p).value.request).message)
    ensures PrepareItem(p).Ok? && transport(PrepareItem(p).value.request).Responded? ==>
      var body := transport(PrepareItem(p).value.request).body;
      (body.Other? ==> ProcessItem(p, itemIndex, transport) == Err(UnexpectedResponseType + body.typeName))
      && (!body.Other? ==>
          && ProcessItem(p, itemIndex, transport).Ok?
          && var name, o := PrepareItem(p).value.binaryPropertyName, ProcessItem(p, itemIndex, transport).value;
          && o.pairedItem == itemIndex
          && o.json == SuccessJson(p.diagramType, p.outputFormat, "diagram." + p.outputFormat, MimeType(p.outputFormat))
          && o.json.success()
          && o.binary.Keys == {name}
          && o.binary[name].mimeType == MimeType(p.outputFormat)
          && o.binary[name].fileName == "diagram." + p.outputFormat
          && o.binary[name].fileExtension == p.outputFormat
          && Base64.Decode(o.binary[name].data) == Some(CanonicalBytes(body)))
  {
    var prepared := PrepareItem(p);
    if prepared.Ok? && transport(prepared.value.request).Responded? && !transport(prepared.value.request).body.Other? {
      BodyToBase64Decodes(transport(prepared.value.request).body);
    }
  }

  /** A blank diagram source fails the item with "Diagram source is required", whatever its server settings and whatever the server would answer. */
  lemma BlankSourceFails(p: ItemParameters, itemIndex: nat, transport: Request -> Transport)
    requires Text.IsBlank(p.diagramSource)
    ensures ProcessItem(p, itemIndex, transport) == Err(SourceRequired)
  {
  }

  /** With any server choice but "custom", the request goes to the public service. */
  lemma PublicServerUrl(p: ItemParameters)
    requires p.krokiServer != CustomServer && !Text.IsBlank(p.diagramSource)
    ensures PrepareItem(p).Ok?
    ensures PrepareItem(p).value.request.url == PublicServer + "/" + p.diagramType + "/" + p.outputFormat
  {
  }

  /** With any server choice but "custom", the custom server URL is not looked at. */
  lemma PublicServerIgnoresCustomUrl(p: ItemParameters, otherUrl: string)
    requires p.krokiServer != CustomServer
    ensures PrepareItem(p.(customServerUrl := otherUrl)) == PrepareItem(p)
  {
    var q := p.(customServerUrl := otherUrl);
    assert BaseUrl(q.krokiServer, q.customServerUrl) == BaseUrl(p.krokiServer, p.customServerUrl);
  }

  /** With a custom server, the request URL is the custom URL (less one trailing slash) followed by the type and format. */
  lemma CustomServerUrl(p: ItemParameters)
    requires p.krokiServer == CustomServer && !Text.IsBlank(p.diagramSource) && Text.IsHttpUrl(p.customServerUrl)
    ensures PrepareItem(p).Ok?
    ensures var u := p.customServerUrl;
      exists base ::
        && PrepareItem(p).value.request.url == base + "/" + p.diagramType + "/" + p.outputFormat
        && (if u[|u| - 1] == '/' then base + "/" == u else base == u)
  {
    var base := BaseUrl(p.krokiServer, p.customServerUrl);
    assert PrepareItem(p).value.request.url == base + "/" + p.diagramType + "/" + p.outputFormat;
  }
}
