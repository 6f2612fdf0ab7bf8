/** ImportParser: the importer object. Its one field, the request counter,
    numbers the requests of one `parse` call; `parse` dispatches on the
    trimmed payload to the Postman walk or to the curl parser. Each method
    is proved against the function that specifies it (Walk, RequestOf,
    CurlRequest, Imported). */
module ImportParser {
  import opened Wrappers
  import opened Strings
  import opened Dicts
  import opened Types
  import opened ImportText
  import opened CurlScan
  import opened CurlImport
  import opened Postman

  const InvalidJson := "Invalid JSON format"
  const Unsupported := "Unsupported format. Please provide a Postman collection (JSON) or cURL command."

  /** The requests of a collection, numbered from `counter + 1`. */
  function CollectionRequests(host: Host, collection: Collection, counter: nat): seq<Request> {
    if collection.items.Some? then Walk(host, collection.items.value, "", counter) else []
  }

  /** What `parse` returns or throws: `decode` is JSON.parse followed by
      reading the value as a collection (None when either throws). */
  function Imported(host: Host, decode: string -> Option<Collection>, content: string): Result<seq<Request>, string> {
    Dispatch(host, decode, Trim(content))
  }

  /** The dispatch on the trimmed payload. */
  function Dispatch(host: Host, decode: string -> Option<Collection>, trimmed: string): Result<seq<Request>, string> {
    if StartsWith(trimmed, "{") then
      match decode(trimmed)
      case None => Failure(InvalidJson)
      case Some(collection) => Success(CollectionRequests(host, collection, 0))
    else if StartsWith(ToLower(trimmed), "curl") then Success([CurlRequest(host, trimmed, 1)])
    else Failure(Unsupported)
  }

  class ImportParser {
    var requestCounter: nat

    constructor()
      ensures requestCounter == 0
    {
      requestCounter := 0;
    }

    /** parse: the counter restarts at 0, so the result depends on the
        content alone. */
    method Parse(content: string, host: Host, decode: string -> Option<Collection>)
      returns (r: Result<seq<Request>, string>)
      modifies this
      ensures r == Imported(host, decode, content)
    {
      requestCounter := 0;
      var trimmed := Trim(content);
      if StartsWith(trimmed, "{") {
        var json := decode(trimmed);
        if json.None? {
          InvalidJsonRefused(host, decode, content);
          return Failure(InvalidJson);
        }
        var requests := ParsePostmanCollection(json.value, host);
        JsonPath(host, decode, content, requests);
        return Success(requests);
      } else if StartsWith(ToLower(trimmed), "curl") {
        var request := ParseCurl(trimmed, host);
        CurlPath(host, decode, content, request);
        return Success([request]);
      } else {
        UnsupportedRefused(host, decode, content);
        return Failure(Unsupported);
      }
    }

    method ParsePostmanCollection(collection: Collection, host: Host) returns (requests: seq<Request>)
      modifies this
      ensures requests == CollectionRequests(host, collection, old(requestCounter))
      ensures requestCounter == old(requestCounter) + |requests|
    {
      requests := [];
      if collection.items.Some? {
        requests := ExtractRequestsFromItems(collection.items.value, requests, "", host);
      }
    }

    /** extractRequestsFromItems: the shared `requests` array is threaded
        through as `requests` in and `out` out. */
    method ExtractRequestsFromItems(items: seq<Item>, requests: seq<Request>, prefix: string, host: Host)
      returns (out: seq<Request>)
      modifies this
      ensures out == requests + Walk(host, items, prefix, old(requestCounter))
      ensures requestCounter == old(requestCounter) + |Walk(host, items, prefix, old(requestCounter))|
      decreases items, 1
    {
      out := requests;
      ghost var start := requestCounter;
      for i := 0 to |items|
        invariant out == requests + Walk(host, items[..i], prefix, start)
        invariant requestCounter == start + |Walk(host, items[..i], prefix, start)|
      {
        WalkAppend(host, items[..i], [items[i]], prefix, start);
        assert items[..i + 1] == items[..i] + [items[i]];
        out := ExtractItem(items[i], out, prefix, host);
      }
      assert items[..|items|] == items;
    }

    /** The callback extractRequestsFromItems runs on each item: a folder is
        walked under its prefix, a request item parsed, anything else
        skipped. */
    method ExtractItem(item: Item, requests: seq<Request>, prefix: string, host: Host)
      returns (out: seq<Request>)
      modifies this
      ensures out == requests + Walk(host, [item], prefix, old(requestCounter))
      ensures requestCounter == old(requestCounter) + |Walk(host, [item], prefix, old(requestCounter))|
      decreases item, 0
    {
      WalkOne(host, item, prefix, requestCounter);
      out := requests;
      if item.isFolder {
        var folderName := if item.name != [] then item.name else "Folder";
        out := ExtractRequestsFromItems(item.children, out,
          if prefix != [] then prefix + " / " + folderName else folderName, host);
      } else if item.request.Some? {
        var request := ParsePostmanRequest(item, prefix, host);
        out := out + [request];
      }
    }

    /** parsePostmanRequest */
    method ParsePostmanRequest(item: Item, prefix: string, host: Host) returns (r: Request)
      modifies this
      ensures requestCounter == old(requestCounter) + 1
      ensures r == RequestOf(host, item, prefix, requestCounter)
    {
      var req := item.request.GetOr(NoRequest);
      var name := ItemName(item, prefix);
      var verb := RequestMethod(req.httpMethod);
      var url := RequestUrl(req.url);
      var headers: Dict := [];
      if req.header.Some? {
        var hs := req.header.value;
        for i := 0 to |hs|
          invariant WriteHeaders(headers, hs[i..]) == WriteHeaders([], hs)
        {
          var h := hs[i];
          if h.key.Some? && h.key.value != [] && h.value.Some? && h.value.value != [] && !h.disabled {
            headers := Put(headers, h.key.value, h.value.value);
          }
          assert hs[i..][1..] == hs[i + 1..];
        }
      }
      var (body, bodyType) := RequestBody(host, req.body, headers);
      requestCounter := requestCounter + 1;
      r := Request(requestCounter, name, verb, url, headers, [], body, bodyType, [], None, false);
    }

    /** parseCurl: the header and data patterns are run as exec loops that
        write the headers and collect the data segments. */
    method ParseCurl(curlCommand: string, host: Host) returns (r: Request)
      modifies this
      ensures requestCounter == old(requestCounter) + 1
      ensures r == CurlRequest(host, curlCommand, requestCounter)
    {
      requestCounter := requestCounter + 1;
      var cmd := Command(curlCommand);

      var verb := "GET";
      var methodMatch := Search(MethodFlag, cmd, 0);
      if methodMatch.Some? {
        verb := ToUpper(Capture(cmd, methodMatch.value.1));
      }

      var url := "";
      var urlMatch := Search(UrlAfterMethod, cmd, 0);
      if urlMatch.None? {
        urlMatch := Search(BareUrl, cmd, 0);
        if urlMatch.None? {
          urlMatch := Search(LocationUrl, cmd, 0);
        }
      }
      if urlMatch.Some? {
        url := RemoveQuotes(Capture(cmd, urlMatch.value.1));
      }

      var headers := ReadHeaders(cmd);
      var segments := ReadDataSegments(cmd);

      var body := "";
      var bodyType := Text;
      if |segments| > 0 {
        var isUrlEncoded := UrlEncodedMode(segments, headers);
        var parts := Normalized(segments, isUrlEncoded);
        body := if isUrlEncoded then Join(parts, "&") else Join(parts, "\n");
        bodyType := DetectBodyType(host, body, ContentTypeOf(headers));
      }
      assert (body, bodyType) == CurlBody(host, segments, headers);
      r := Request(requestCounter, CurlRequestName, verb, url, headers, [], body, bodyType, [], None, false);
    }
  }

  /** The header loop of parseCurl: exec until null, each quoted header
      argument split at its first colon and written when its value is not
      empty. */
  method ReadHeaders(cmd: string) returns (headers: Dict)
    ensures headers == CurlHeaders(cmd)
  {
    headers := [];
    var lastIndex := 0;
    var headerMatch := Search(HeaderArg, cmd, 0);
    while headerMatch.Some?
      invariant lastIndex <= |cmd|
      invariant headerMatch == Search(HeaderArg, cmd, lastIndex)
      invariant ApplyHeaders(headers, HeaderLines(cmd, lastIndex)) == CurlHeaders(cmd)
      decreases |cmd| - lastIndex
    {
      var h := headerMatch.value.1;
      var headerLine := Capture(cmd, h);
      ghost var previous := headers;
      var colonIndex := IndexOfChar(headerLine, ':');
      if colonIndex > 0 {
        var key := Trim(headerLine[..colonIndex]);
        var value := Unquote(Trim(headerLine[colonIndex + 1..]));
        if value != [] {
          headers := Put(headers, key, value);
        }
      }
      assert headers == HeaderEntry(previous, headerLine);
      assert HeaderLines(cmd, lastIndex) == [headerLine] + HeaderLines(cmd, h.end);
      lastIndex := h.end;
      headerMatch := Search(HeaderArg, cmd, lastIndex);
    }
  }

  /** The data loop of parseCurl: exec until null, collecting each data
      argument's lower-cased flag and value in command order. */
  method ReadDataSegments(cmd: string) returns (segments: seq<Segment>)
    ensures segments == CurlSegments(cmd)
  {
    segments := [];
    var lastIndex := 0;
    var dataMatch := Search(DataArg, cmd, 0);
    while dataMatch.Some?
      invariant lastIndex <= |cmd|
      invariant dataMatch == Search(DataArg, cmd, lastIndex)
      invariant segments + DataSegments(cmd, lastIndex) == CurlSegments(cmd)
      decreases |cmd| - lastIndex
    {
      var (p, h) := dataMatch.value;
      var segment := Segment(ToLower(cmd[p..h.flagEnd]), Capture(cmd, h));
      assert DataSegments(cmd, lastIndex) == [segment] + DataSegments(cmd, h.end);
      segments := segments + [segment];
      lastIndex := h.end;
      dataMatch := Search(DataArg, cmd, lastIndex);
    }
  }

  // ---------------------------------------------------------------------
  // Properties

  /** A payload starting with `curl` in any case gives exactly one request,
      the parsed command with id 1. */
  lemma CurlGivesOne(host: Host, decode: string -> Option<Collection>, content: string)
    requires StartsWith(ToLower(Trim(content)), "curl")
    ensures Imported(host, decode, content) == Success([CurlRequest(host, Trim(content), 1)])
  {
    DispatchCurl(host, decode, Trim(content));
  }

  lemma CurlPath(host: Host, decode: string -> Option<Collection>, content: string, request: Request)
    requires StartsWith(ToLower(Trim(content)), "curl") && request == CurlRequest(host, Trim(content), 1)
    ensures Imported(host, decode, content) == Success([request])
  {
    DispatchCurl(host, decode, Trim(content));
  }

  lemma JsonPath(host: Host, decode: string -> Option<Collection>, content: string, requests: seq<Request>)
    requires StartsWith(Trim(content), "{") && decode(Trim(content)).Some?
    requires requests == CollectionRequests(host, decode(Trim(content)).value, 0)
    ensures Imported(host, decode, content) == Success(requests)
  {
  }

  lemma DispatchCurl(host: Host, decode: string -> Option<Collection>, t: string)
    requires StartsWith(ToLower(t), "curl")
    ensures Dispatch(host, decode, t) == Success([CurlRequest(host, t, 1)])
  {
    CurlIsNotJson(t);
  }

  lemma DispatchJson(host: Host, decode: string -> Option<Collection>, t: string)
    requires StartsWith(t, "{") && decode(t).Some?
    ensures Dispatch(host, decode, t) == Success(CollectionRequests(host, decode(t).value, 0))
  {
  }

  lemma CurlIsNotJson(t: string)
    requires StartsWith(ToLower(t), "curl")
    ensures !StartsWith(t, "{")
  {
    assert LowerChar(t[0]) == 'c';
  }

  /** Every successful import numbers its requests 1, 2, … whatever calls
      came before. */
  lemma ImportIds(host: Host, decode: string -> Option<Collection>, content: string)
    ensures var r := Imported(host, decode, content);
      r.Success? ==> forall k | 0 <= k < |r.value| :: r.value[k].id == k + 1
  {
    DispatchIds(host, decode, Trim(content));
  }

  lemma DispatchIds(host: Host, decode: string -> Option<Collection>, t: string)
    ensures var r := Dispatch(host, decode, t);
      r.Success? ==> forall k | 0 <= k < |r.value| :: r.value[k].id == k + 1
  {
    if StartsWith(t, "{") {
      if decode(t).Some? && decode(t).value.items.Some? {
        WalkIds(host, decode(t).value.items.value, "", 0);
      }
    } else if StartsWith(ToLower(t), "curl") {
      DispatchCurl(host, decode, t);
    }
  }

  /** A JSON-shaped payload that does not decode to a collection is
      refused as invalid JSON. */
  lemma InvalidJsonRefused(host: Host, decode: string -> Option<Collection>, content: string)
    requires StartsWith(Trim(content), "{") && decode(Trim(content)).None?
    ensures Imported(host, decode, content) == Failure(InvalidJson)
  {
  }

  /** A payload that is neither JSON-shaped nor a curl command is refused. */
  lemma UnsupportedRefused(host: Host, decode: string -> Option<Collection>, content: string)
    requires !StartsWith(Trim(content), "{") && !StartsWith(ToLower(Trim(content)), "curl")
    ensures Imported(host, decode, content) == Failure(Unsupported)
  {
  }
}
