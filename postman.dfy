/** A Postman collection (Collection Format v2.x) as the importer reads it,
    and the pure rules that turn one request item into a request: its name,
    method, URL, headers and body. A JSON field that is absent is `None` for
    objects and arrays, and "" for strings (the importer treats a missing
    and an empty string alike wherever it reads one). */
module Postman {
  import opened Wrappers
  import opened Strings
  import opened Dicts
  import opened Types
  import opened Uri
  import opened ImportText

  /** A `{ key, value, disabled }` entry of a header, query or form list. */
  datatype KeyValue = KeyValue(key: Option<string>, value: Option<string>, disabled: bool)

  /** A URL's host or path: a list of segments, or one text. */
  datatype UrlPart = Parts(items: seq<string>) | Whole(text: string)

  datatype PostmanUrl =
    | NoUrl
    | UrlText(text: string)
    | UrlObject(raw: string, protocol: string, host: Option<UrlPart>, port: string,
                path: Option<UrlPart>, query: Option<seq<KeyValue>>)

  datatype PostmanBody = PostmanBody(mode: string, raw: string, urlencoded: Option<seq<KeyValue>>)

  datatype PostmanRequest = PostmanRequest(
    httpMethod: string, url: PostmanUrl, header: Option<seq<KeyValue>>, body: Option<PostmanBody>)

  /** A folder when its `item` array is present (`isFolder`, with the
      array in `children`), else a request when `request` is present. */
  datatype Item = Item(name: string, isFolder: bool, children: seq<Item>, request: Option<PostmanRequest>)

  datatype Collection = Collection(items: Option<seq<Item>>)

  /** `item.request || {}` */
  const NoRequest := PostmanRequest("", NoUrl, None, None)

  /** String(x) of a key or value: an absent one prints as "undefined". */
  function JsString(o: Option<string>): string {
    o.GetOr("undefined")
  }

  /** A list is truthy even when empty; a text only when not empty. */
  predicate Present(p: Option<UrlPart>) {
    p.Some? && (p.value.Parts? || p.value.text != [])
  }

  function PartText(p: UrlPart, sep: string): string {
    match p
    case Parts(items) => Join(items, sep)
    case Whole(text) => text
  }

  /** The entries not marked disabled, in order. */
  function Enabled(entries: seq<KeyValue>): (r: seq<KeyValue>)
    ensures |r| <= |entries|
    ensures forall k | 0 <= k < |r| :: r[k] in entries && !r[k].disabled
    ensures r == [] <==> forall k | 0 <= k < |entries| :: entries[k].disabled
  {
    if entries == [] then []
    else
      var rest := Enabled(entries[1..]);
      assert (forall k | 0 <= k < |entries| :: entries[k].disabled) <==>
        entries[0].disabled && forall k | 0 <= k < |entries| - 1 :: entries[1..][k].disabled;
      if entries[0].disabled then rest else [entries[0]] + rest
  }

  /** `${encodeURIComponent(key)}=${encodeURIComponent(value)}`, with
      `missing` standing for an absent value. */
  function Pair(kv: KeyValue, missing: string): string {
    Encode(JsString(kv.key)) + "=" + Encode(kv.value.GetOr(missing))
  }

  /** `.filter(p => !p.disabled).map(pair).join("&")` */
  function FormText(entries: seq<KeyValue>, missing: string): string {
    var enabled := Enabled(entries);
    Join(seq(|enabled|, k requires 0 <= k < |enabled| => Pair(enabled[k], missing)), "&")
  }

  /** constructUrlFromObject without its query. */
  function UrlBase(protocol: string, host: Option<UrlPart>, port: string, path: Option<UrlPart>): string {
    (if protocol != [] then protocol + "://" else "")
    + (if Present(host) then PartText(host.value, ".") else "")
    + (if port != [] then ":" + port else "")
    + (if Present(path) then "/" + PartText(path.value, "/") else "")
  }

  /** The query of a URL object: the enabled parameters, an absent value
      written as "". */
  function QueryText(query: Option<seq<KeyValue>>): string {
    if query.Some? && |query.value| > 0 then FormText(query.value, "") else ""
  }

  /** constructUrlFromObject */
  function ConstructUrl(protocol: string, host: Option<UrlPart>, port: string,
                        path: Option<UrlPart>, query: Option<seq<KeyValue>>): string
  {
    var q := QueryText(query);
    UrlBase(protocol, host, port, path) + (if q != [] then "?" + q else "")
  }

  function RequestUrl(u: PostmanUrl): string {
    match u
    case NoUrl => ""
    case UrlText(t) => t
    case UrlObject(raw, protocol, host, port, path, query) =>
      if raw != [] then raw else ConstructUrl(protocol, host, port, path, query)
  }

  /** `(req.method || "GET").toUpperCase()` */
  function RequestMethod(m: string): string {
    ToUpper(if m != [] then m else "GET")
  }

  /** One header entry: written when it has a key and a value and is not
      disabled. */
  function HeaderWrite(d: Dict, h: KeyValue): Dict {
    if h.key.Some? && h.key.value != [] && h.value.Some? && h.value.value != [] && !h.disabled then
      Put(d, h.key.value, h.value.value)
    else d
  }

  /** The header entries written into `d` in order. */
  function WriteHeaders(d: Dict, hs: seq<KeyValue>): Dict
    decreases |hs|
  {
    if hs == [] then d else WriteHeaders(HeaderWrite(d, hs[0]), hs[1..])
  }

  /** The body and its type: a non-empty raw body with its type detected,
      a form body of the enabled pairs (an absent value written as
      "undefined"), else the empty text. */
  function RequestBody(host: Host, body: Option<PostmanBody>, headers: Dict): (string, BodyType) {
    if body.None? then ("", Text)
    else
      var b := body.value;
      if b.mode == "raw" && b.raw != [] then (b.raw, DetectBodyType(host, b.raw, ContentTypeOf(headers)))
      else if b.mode == "urlencoded" && b.urlencoded.Some? then (FormText(b.urlencoded.value, "undefined"), UrlEncoded)
      else ("", Text)
  }

  /** The name of a request item: `prefix / name`, with "Request" for an
      unnamed item under a folder and "Imported Request" at the top. */
  function ItemName(item: Item, prefix: string): string {
    if prefix != [] then prefix + " / " + (if item.name != [] then item.name else "Request")
    else if item.name != [] then item.name else "Imported Request"
  }

  /** The prefix for the items of a folder. */
  function FolderPrefix(item: Item, prefix: string): string {
    var folder := if item.name != [] then item.name else "Folder";
    if prefix != [] then prefix + " / " + folder else folder
  }

  /** parsePostmanRequest with the id counter at `id` after its increment. */
  function RequestOf(host: Host, item: Item, prefix: string, id: nat): Request {
    var req := item.request.GetOr(NoRequest);
    var headers := if req.header.Some? then WriteHeaders([], req.header.value) else [];
    var (body, bodyType) := RequestBody(host, req.body, headers);
    Request(id, ItemName(item, prefix), RequestMethod(req.httpMethod), RequestUrl(req.url),
            headers, [], body, bodyType, [], None, false)
  }

  /** A request item the walk meets, with the prefix it is named under. */
  datatype Slot = Slot(item: Item, prefix: string)

  /** The request items under `items`, depth-first in document order: a
      folder contributes its children under its own prefix, a request item
      itself, any other item nothing. */
  function Slots(items: seq<Item>, prefix: string): seq<Slot>
    decreases items
  {
    if items == [] then [] else ItemSlots(items[0], prefix) + Slots(items[1..], prefix)
  }

  function ItemSlots(item: Item, prefix: string): seq<Slot>
    decreases item
  {
    if item.isFolder then Slots(item.children, FolderPrefix(item, prefix))
    else if item.request.Some? then [Slot(item, prefix)]
    else []
  }

  /** The slots parsed in order, the ids counting on from `counter`. */
  function Parsed(host: Host, slots: seq<Slot>, counter: nat): (r: seq<Request>)
    ensures |r| == |slots|
  {
    seq(|slots|, k requires 0 <= k < |slots| => RequestOf(host, slots[k].item, slots[k].prefix, counter + 1 + k))
  }

  /** extractRequestsFromItems: the request items met depth-first, each
      parsed under its prefix, numbered from `counter + 1`. */
  function Walk(host: Host, items: seq<Item>, prefix: string, counter: nat): seq<Request> {
    Parsed(host, Slots(items, prefix), counter)
  }

  // ---------------------------------------------------------------------
  // Properties

  /** The walk numbers its requests `counter + 1, counter + 2, …`. */
  lemma WalkIds(host: Host, items: seq<Item>, prefix: string, counter: nat)
    ensures forall k | 0 <= k < |Walk(host, items, prefix, counter)| ::
      Walk(host, items, prefix, counter)[k].id == counter + 1 + k
  {
  }

  /** Each slot is named under `prefix` itself or under a folder below it. */
  predicate Under(slot: Slot, prefix: string) {
    slot.prefix == prefix || StartsWith(slot.prefix, prefix + " / ")
  }

  lemma {:induction false} SlotsUnder(items: seq<Item>, prefix: string)
    requires prefix != []
    ensures forall k | 0 <= k < |Slots(items, prefix)| :: Under(Slots(items, prefix)[k], prefix)
    decreases items
  {
    if items != [] {
      var first := ItemSlots(items[0], prefix);
      ItemSlotsUnder(items[0], prefix);
      SlotsUnder(items[1..], prefix);
      var all := Slots(items, prefix);
      assert all == first + Slots(items[1..], prefix);
      forall k | 0 <= k < |all| ensures Under(all[k], prefix) {
        if k >= |first| {
          assert all[k] == Slots(items[1..], prefix)[k - |first|];
        }
      }
    }
  }

  lemma {:induction false} ItemSlotsUnder(item: Item, prefix: string)
    requires prefix != []
    ensures forall k | 0 <= k < |ItemSlots(item, prefix)| :: Under(ItemSlots(item, prefix)[k], prefix)
    decreases item
  {
    if item.isFolder {
      var inner := FolderPrefix(item, prefix);
      var ss := Slots(item.children, inner);
      SlotsUnder(item.children, inner);
      assert StartsWith(inner, prefix + " / ") by {
        assert inner[..|prefix + " / "|] == prefix + " / ";
      }
      forall k | 0 <= k < |ss| ensures Under(ss[k], prefix) {
        if ss[k].prefix != inner {
          StartsWithLonger(ss[k].prefix, prefix + " / ", inner + " / ");
        }
      }
    }
  }

  /** Under a prefix, every request name starts with `prefix / `. */
  lemma WalkNames(host: Host, items: seq<Item>, prefix: string, counter: nat)
    requires prefix != []
    ensures forall k | 0 <= k < |Walk(host, items, prefix, counter)| ::
      StartsWith(Walk(host, items, prefix, counter)[k].name, prefix + " / ")
  {
    var ss := Slots(items, prefix);
    var rs := Walk(host, items, prefix, counter);
    SlotsUnder(items, prefix);
    forall k | 0 <= k < |rs| ensures StartsWith(rs[k].name, prefix + " / ") {
      var p := ss[k].prefix;
      var name := ItemName(ss[k].item, p);
      assert rs[k].name == name;
      assert name[..|p + " / "|] == p + " / ";
      if p != prefix {
        StartsWithLonger(name, prefix + " / ", p + " / ");
      }
    }
  }

  lemma StartsWithLonger(s: string, p: string, q: string)
    requires StartsWith(q, p) && StartsWith(s, q)
    ensures StartsWith(s, p)
  {
    assert s[..|p|] == s[..|q|][..|p|];
  }

  /** The slots of two lists one after the other are the slots of their
      concatenation. */
  lemma {:induction false} SlotsAppend(a: seq<Item>, b: seq<Item>, prefix: string)
    ensures Slots(a + b, prefix) == Slots(a, prefix) + Slots(b, prefix)
    decreases |a|
  {
    if a == [] {
      assert a + b == b;
    } else {
      assert (a + b)[0] == a[0] && (a + b)[1..] == a[1..] + b;
      SlotsAppend(a[1..], b, prefix);
    }
  }

  lemma ParsedAppend(host: Host, s: seq<Slot>, t: seq<Slot>, counter: nat)
    ensures Parsed(host, s + t, counter) == Parsed(host, s, counter) + Parsed(host, t, counter + |s|)
  {
  }

  /** Walking two lists one after the other is walking their
      concatenation: the requests keep document order and the numbering
      runs on. */
  lemma WalkAppend(host: Host, a: seq<Item>, b: seq<Item>, prefix: string, counter: nat)
    ensures Walk(host, a + b, prefix, counter) ==
      Walk(host, a, prefix, counter) + Walk(host, b, prefix, counter + |Walk(host, a, prefix, counter)|)
  {
    SlotsAppend(a, b, prefix);
    ParsedAppend(host, Slots(a, prefix), Slots(b, prefix), counter);
  }

  /** Walking one item: a folder walks its children under its prefix, a
      request item is parsed with the next id, anything else is skipped. */
  lemma WalkOne(host: Host, item: Item, prefix: string, counter: nat)
    ensures Walk(host, [item], prefix, counter) ==
      if item.isFolder then Walk(host, item.children, FolderPrefix(item, prefix), counter)
      else if item.request.Some? then [RequestOf(host, item, prefix, counter + 1)]
      else []
  {
    assert Slots([item], prefix) == ItemSlots(item, prefix) + Slots([], prefix);
  }

  /** An entry of `d`, or one an enabled header entry with a key and a
      value writes. */
  predicate Written(e: (string, string), d: Dict, hs: seq<KeyValue>) {
    e in d || (e.0 != [] && e.1 != [] && KeyValue(Some(e.0), Some(e.1), false) in hs)
  }

  /** Every header written comes from an enabled entry with a key and a
      value (or was there before). */
  lemma {:induction false} WriteHeadersEnabled(d: Dict, hs: seq<KeyValue>)
    ensures forall k | 0 <= k < |WriteHeaders(d, hs)| :: Written(WriteHeaders(d, hs)[k], d, hs)
    decreases |hs|
  {
    if hs != [] {
      var d' := HeaderWrite(d, hs[0]);
      WriteHeadersEnabled(d', hs[1..]);
      var r := WriteHeaders(d, hs);
      assert r == WriteHeaders(d', hs[1..]);
      assert forall x | x in hs[1..] :: x in hs;
      assert hs[0] in hs;
      forall k | 0 <= k < |r| ensures Written(r[k], d, hs) {
        assert Written(r[k], d', hs[1..]);
        if r[k] in d' && d' != d {
          PutEntry(d, hs[0].key.value, hs[0].value.value, IndexIn(d', r[k]));
        }
      }
    }
  }

  function IndexIn(d: Dict, e: (string, string)): (i: nat)
    requires e in d
    ensures i < |d| && d[i] == e
  {
    if d[0] == e then 0 else 1 + IndexIn(d[1..], e)
  }

  /** A form pair splits at its `=` into the encoded key and value, and
      decoding gives them back. */
  lemma PairRoundTrip(key: string, value: string)
    ensures var parts := Split(Encode(key) + "=" + Encode(value), '=');
      |parts| == 2 && Decode(parts[0]) == Some(key) && Decode(parts[1]) == Some(value)
  {
    EncodeAlphabet(key);
    EncodeAlphabet(value);
    var e1, e2 := Encode(key), Encode(value);
    assert '=' !in e1 && '=' !in e2;
    assert Join([e1, e2], "=") == e1 + "=" + e2;
    SplitJoin([e1, e2], '=');
    DecodeEncode(key);
    DecodeEncode(value);
  }

  lemma PairNoAmpersand(kv: KeyValue, missing: string)
    ensures '&' !in Pair(kv, missing) && '=' in Pair(kv, missing)
  {
    EncodeAlphabet(JsString(kv.key));
    EncodeAlphabet(kv.value.GetOr(missing));
    assert Pair(kv, missing)[|Encode(JsString(kv.key))|] == '=';
  }

  /** A form text splits at `&` into one pair per enabled entry, in order,
      and each pair decodes to that entry's key and value. */
  lemma FormRoundTrip(entries: seq<KeyValue>, missing: string)
    requires Enabled(entries) != []
    ensures var enabled := Enabled(entries);
      var parts := Split(FormText(entries, missing), '&');
      |parts| == |enabled| &&
      forall k | 0 <= k < |enabled| ::
        var kv := Split(parts[k], '=');
        |kv| == 2 && Decode(kv[0]) == Some(JsString(enabled[k].key)) &&
        Decode(kv[1]) == Some(enabled[k].value.GetOr(missing))
  {
    var enabled := Enabled(entries);
    var pairs := seq(|enabled|, k requires 0 <= k < |enabled| => Pair(enabled[k], missing));
    forall k | 0 <= k < |pairs| ensures '&' !in pairs[k] {
      PairNoAmpersand(enabled[k], missing);
    }
    SplitJoin(pairs, '&');
    forall k | 0 <= k < |enabled|
      ensures var kv := Split(pairs[k], '=');
        |kv| == 2 && Decode(kv[0]) == Some(JsString(enabled[k].key)) &&
        Decode(kv[1]) == Some(enabled[k].value.GetOr(missing))
    {
      PairRoundTrip(JsString(enabled[k].key), enabled[k].value.GetOr(missing));
    }
  }

  /** `?` and the query follow the base exactly when some query parameter
      is enabled. */
  lemma QueryMark(protocol: string, host: Option<UrlPart>, port: string,
                  path: Option<UrlPart>, query: Option<seq<KeyValue>>)
    ensures var base := UrlBase(protocol, host, port, path);
      var url := ConstructUrl(protocol, host, port, path, query);
      if query.Some? && Enabled(query.value) != [] then url == base + "?" + FormText(query.value, "")
      else url == base
  {
    if query.Some? && Enabled(query.value) != [] {
      var enabled := Enabled(query.value);
      PairNoAmpersand(enabled[0], "");
      assert |FormText(query.value, "")| >= |Pair(enabled[0], "")|;
    }
  }
}
