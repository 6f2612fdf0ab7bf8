/** The request entity shared by the document parser, the importer, the
    curl exporter and the webview, and the host services they call into. */
module Types {
  import opened Wrappers
  import opened Dicts

  datatype BodyType = Json | Text | UrlEncoded | Xml | Html | JavaScript

  datatype QueryParam = QueryParam(key: string, value: string, enabled: bool)

  /** The pre-auth settings the document parser attaches to a request
      marked `### @PRE-AUTH`. */
  datatype PreAuthConfig = PreAuthConfig(enabled: bool, curlCommand: string, responsePath: string)

  /** One saved HTTP call. An absent `variables` or `queryParams` field is
      the empty dictionary or list; an absent `isPreAuthRequest` is false. */
  datatype Request = Request(
    id: nat,
    name: string,
    httpMethod: string,
    url: string,
    headers: Dict,
    queryParams: seq<QueryParam>,
    body: string,
    bodyType: BodyType,
    variables: Dict,
    preAuth: Option<PreAuthConfig>,
    isPreAuthRequest: bool)

  const Methods: seq<string> := ["GET", "POST", "PUT", "DELETE", "PATCH", "HEAD", "OPTIONS"]

  /** The built-in services of the JavaScript host that the core calls:
      whether `JSON.parse` accepts a text, and `pathname + search` of
      `new URL(text)` (None when the constructor throws). */
  datatype Host = Host(isJson: string -> bool, urlPath: string -> Option<string>)
}
