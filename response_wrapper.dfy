/**
 * `_Response`: a read-only view of a server response whose `xml` property
 * parses the body once, and only for an XML content type, then keeps the
 * document.
 */
module ResponseWrapper {
  import opened Wrappers
  import opened PyStr

  /** A response header map as `QgsBufferServerResponse.headers()` gives it, and its body bytes. */
  type Headers = map<string, string>
  type Bytes = seq<bv8>

  class Response<Doc, ParseError> {
    const headers: Headers
    const content: Bytes
    const statusCode: int
    /** UTF-8 decoding followed by `lxml.etree.fromstring`; either may raise. */
    const parse: Bytes -> Result<Doc, ParseError>
    /** `_xml`: the cached document. */
    var cache: Option<Doc>
    /** How many times the body has been parsed. */
    ghost var parses: nat

    constructor (headers: Headers, content: Bytes, statusCode: int, parse: Bytes -> Result<Doc, ParseError>)
      ensures this.headers == headers && this.content == content && this.statusCode == statusCode
      ensures this.parse == parse
      ensures cache == None && parses == 0
    {
      this.headers := headers;
      this.content := content;
      this.statusCode := statusCode;
      this.parse := parse;
      cache := None;
      parses := 0;
    }

    /** The `Content-Type` header, or the empty string when the response has none. */
    function ContentType(): string {
      if "Content-Type" in headers then headers["Content-Type"] else ""
    }

    /** The guard of the `xml` property: `text/xml` is found at index 0 of the content type, that is, the content type begins with it. */
    predicate IsXml()
      ensures IsXml() <==> "text/xml" <= ContentType()
    {
      Find(ContentType(), "text/xml") == 0
    }

    /**
     * The `xml` property. With nothing cached and an XML content type the
     * body is parsed; a successful parse is cached, a failing one raises
     * and leaves the cache empty. A cached document is returned as it is,
     * without parsing again, and a non-XML response gives None.
     */
    method Xml() returns (r: Result<Option<Doc>, ParseError>)
      modifies this
      ensures old(cache).Some? ==> r == Ok(old(cache)) && cache == old(cache) && parses == old(parses)
      ensures old(cache).None? && !IsXml() ==> r == Ok(None) && cache == None && parses == old(parses)
      ensures old(cache).None? && IsXml() ==>
        parses == old(parses) + 1 &&
        match parse(content)
        case Ok(doc) => r == Ok(Some(doc)) && cache == Some(doc)
        case Err(e) => r == Err(e) && cache == None
    {
      if cache.None? && IsXml() {
        parses := parses + 1;
        var parsed := parse(content);
        match parsed
        case Ok(doc) =>
          cache := Some(doc);
        case Err(e) =>
          return Err(e);
      }
      return Ok(cache);
    }
  }
}
