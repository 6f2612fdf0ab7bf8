/** The state of the webview script: the list of requests, the id of the
    current one and the session variables, with the operations that update
    them in place. The script's variable dictionaries are never mutated,
    only replaced, so sharing one between requests is modelled by copying
    its value. */
module WebviewSession {
  import opened Wrappers
  import opened Strings
  import opened Dicts
  import opened Types
  import opened WebviewPatterns
  import opened Webview

  /** The id of every request differs from the others'. */
  predicate UniqueIds(rs: seq<Request>) {
    forall i, j | 0 <= i < j < |rs| :: rs[i].id != rs[j].id
  }

  /** `requests.findIndex((r) => r.id === id)` */
  function IndexOfId(rs: seq<Request>, id: nat): (r: Option<nat>)
    ensures r.Some? ==> r.value < |rs| && rs[r.value].id == id && forall j | 0 <= j < r.value :: rs[j].id != id
    ensures r.None? ==> forall j | 0 <= j < |rs| :: rs[j].id != id
    decreases |rs|
  {
    if rs == [] then None
    else if rs[0].id == id then Some(0)
    else match IndexOfId(rs[1..], id)
      case Some(k) => Some(k + 1)
      case None => None
  }

  /** The position of the request whose id is `current`, if any. */
  function CurrentIndex(rs: seq<Request>, current: Option<nat>): (r: Option<nat>)
    ensures r.Some? ==> r.value < |rs| && current == Some(rs[r.value].id)
  {
    match current
    case None => None
    case Some(id) => IndexOfId(rs, id)
  }

  /** The largest id, 0 for no request. */
  function MaxId(rs: seq<Request>): (m: nat)
    ensures forall j | 0 <= j < |rs| :: rs[j].id <= m
    decreases |rs|
  {
    if rs == [] then 0
    else
      var m := MaxId(rs[..|rs| - 1]);
      assert forall j | 0 <= j < |rs| - 1 :: rs[j] == rs[..|rs| - 1][j];
      if rs[|rs| - 1].id > m then rs[|rs| - 1].id else m
  }

  /** An id no request has. */
  function FreshId(rs: seq<Request>): (id: nat)
    ensures forall j | 0 <= j < |rs| :: rs[j].id != id
  {
    MaxId(rs) + 1
  }

  /** The variables a new request starts with: the first request's. */
  function FirstVariables(rs: seq<Request>): Dict {
    if |rs| > 0 then rs[0].variables else []
  }

  /** The request addNewRequest creates. */
  function NewRequest(id: nat, variables: Dict): Request {
    Request(id, "New Request", "GET", "https://api.example.com", [], [], "", Text, variables, None, false)
  }

  /** The list without the request at `i`: `requests.splice(i, 1)`. */
  function RemovedAt(rs: seq<Request>, i: nat): seq<Request>
    requires i < |rs|
  {
    rs[..i] + rs[i + 1..]
  }

  /** Every request's variables replaced by the same dictionary. */
  function AllVariables(rs: seq<Request>, variables: Dict): (r: seq<Request>)
    ensures |r| == |rs|
  {
    seq(|rs|, j requires 0 <= j < |rs| => rs[j].(variables := variables))
  }

  /** Every request's variables with `incoming` written over them. */
  function VariablesUpdated(rs: seq<Request>, incoming: Dict): (r: seq<Request>)
    ensures |r| == |rs|
  {
    seq(|rs|, j requires 0 <= j < |rs| => rs[j].(variables := Assign(rs[j].variables, incoming)))
  }

  /** The list after ensureAuthVariableEmpty: when the current request's
      `auth` variable is missing or not empty, every request gets the
      current request's variables with `auth` set to the empty text. */
  function AuthEmptied(rs: seq<Request>, current: Option<nat>): seq<Request> {
    match CurrentIndex(rs, current)
    case None => rs
    case Some(i) =>
      var variables := rs[i].variables;
      if Get(variables, "auth") == Some("") then rs
      else AllVariables(rs, Put(variables, "auth", ""))
  }

  class Session {
    var requests: seq<Request>
    var currentRequestId: Option<nat>
    var sessionVariables: Dict

    /** The script's start: the initial requests, the first one current,
        no session variables. */
    constructor(initial: seq<Request>)
      ensures requests == initial
      ensures currentRequestId == (if |initial| > 0 then Some(initial[0].id) else None)
      ensures sessionVariables == []
    {
      requests := initial;
      currentRequestId := if |initial| > 0 then Some(initial[0].id) else None;
      sessionVariables := [];
    }

    /** addNewRequest: a default request with a fresh id and the first
        request's variables is appended and becomes current. */
    method AddNewRequest()
      modifies this
      ensures requests == old(requests) + [NewRequest(FreshId(old(requests)), FirstVariables(old(requests)))]
      ensures currentRequestId == Some(FreshId(old(requests)))
      ensures sessionVariables == old(sessionVariables)
    {
      var existingVariables := if |requests| > 0 then requests[0].variables else [];
      var newRequest := NewRequest(FreshId(requests), existingVariables);
      requests := requests + [newRequest];
      currentRequestId := Some(newRequest.id);
    }

    /** deleteRequest: nothing happens to the last request or to an
        unknown id; otherwise the request goes, and when it was current
        the first remaining one becomes current. */
    method DeleteRequest(id: nat)
      modifies this
      ensures |old(requests)| == 1 || IndexOfId(old(requests), id).None? ==>
        requests == old(requests) && currentRequestId == old(currentRequestId)
      ensures |old(requests)| != 1 && IndexOfId(old(requests), id).Some? ==>
        var i := IndexOfId(old(requests), id).value;
        requests == RemovedAt(old(requests), i) && |requests| > 0
        && currentRequestId == (if old(currentRequestId) == Some(id) then Some(requests[0].id) else old(currentRequestId))
      ensures sessionVariables == old(sessionVariables)
    {
      if |requests| == 1 {
        return;
      }
      var index := IndexOfId(requests, id);
      if index.Some? {
        requests := requests[..index.value] + requests[index.value + 1..];
        if currentRequestId == Some(id) {
          currentRequestId := Some(requests[0].id);
        }
      }
    }

    /** updateBodyType: the current request gets the new body type and,
        for a non-blank body, the matching Content-Type. */
    method UpdateBodyType(newBodyType: BodyType)
      modifies this
      ensures var i := CurrentIndex(old(requests), old(currentRequestId));
        requests == if i.None? then old(requests) else old(requests)[i.value := Retyped(old(requests)[i.value], newBodyType)]
      ensures currentRequestId == old(currentRequestId) && sessionVariables == old(sessionVariables)
    {
      var index := CurrentIndex(requests, currentRequestId);
      if index.None? {
        return;
      }
      var request := requests[index.value];
      requests := requests[index.value := Retyped(request, newBodyType)];
    }

    /** updateContentTypeHeader on the request at `i`. */
    method UpdateContentTypeHeader(i: nat)
      requires i < |requests|
      modifies this
      ensures requests == old(requests)[i := WithContentType(old(requests)[i])]
      ensures currentRequestId == old(currentRequestId) && sessionVariables == old(sessionVariables)
    {
      requests := requests[i := WithContentType(requests[i])];
    }

    /** handleVariablesUpdate: the incoming variables written over every
        request's. */
    method HandleVariablesUpdate(incoming: Dict)
      modifies this
      ensures requests == VariablesUpdated(old(requests), incoming)
      ensures currentRequestId == old(currentRequestId) && sessionVariables == old(sessionVariables)
    {
      ghost var before := requests;
      for j := 0 to |requests|
        invariant |requests| == |before|
        invariant forall k | 0 <= k < j :: requests[k] == before[k].(variables := Assign(before[k].variables, incoming))
        invariant forall k | j <= k < |requests| :: requests[k] == before[k]
        invariant currentRequestId == old(currentRequestId) && sessionVariables == old(sessionVariables)
      {
        var existing := requests[j].variables;
        requests := requests[j := requests[j].(variables := Assign(existing, incoming))];
      }
    }

    /** ensureAuthVariableEmpty */
    method EnsureAuthVariableEmpty()
      modifies this
      ensures requests == AuthEmptied(old(requests), old(currentRequestId))
      ensures currentRequestId == old(currentRequestId) && sessionVariables == old(sessionVariables)
    {
      var index := CurrentIndex(requests, currentRequestId);
      if index.None? {
        return;
      }
      var variables := requests[index.value].variables;
      var hadAuth := "auth" in Keys(variables);
      if !hadAuth || Get(variables, "auth") != Some("") {
        variables := Put(variables, "auth", "");
        ghost var before := requests;
        for j := 0 to |requests|
          invariant |requests| == |before|
          invariant forall k | 0 <= k < j :: requests[k] == before[k].(variables := variables)
          invariant forall k | j <= k < |requests| :: requests[k] == before[k]
          invariant currentRequestId == old(currentRequestId) && sessionVariables == old(sessionVariables)
        {
          requests := requests[j := requests[j].(variables := variables)];
        }
      }
    }

    /** replaceVariables: the request variables merged with the session
        variables, then substituted into the text. */
    method ReplaceVariables(text: string, variables: Dict) returns (result: string)
      ensures result == Substituted(text, Merged(variables, sessionVariables))
    {
      if text == [] {
        return text;
      }
      result := text;
      var mergedVariables := Assign(variables, sessionVariables);
      for j := 0 to |mergedVariables|
        invariant result == ApplyAll(text, mergedVariables[..j])
      {
        assert mergedVariables[..j + 1][..j] == mergedVariables[..j];
        var (name, value) := mergedVariables[j];
        result := Replace(Variable(name), result, _ => value);
      }
      assert mergedVariables[..|mergedVariables|] == mergedVariables;
    }
  }

  // ---------------------------------------------------------------------
  // Properties of the list operations

  /** A new request keeps the ids distinct and is found as the current
      one. */
  lemma AddKeepsIdsUnique(rs: seq<Request>)
    requires UniqueIds(rs)
    ensures var id := FreshId(rs);
      var rs' := rs + [NewRequest(id, FirstVariables(rs))];
      UniqueIds(rs') && CurrentIndex(rs', Some(id)) == Some(|rs|)
  {
    var id := FreshId(rs);
    var rs' := rs + [NewRequest(id, FirstVariables(rs))];
    assert forall j | 0 <= j < |rs| :: rs'[j] == rs[j];
    var k := IndexOfId(rs', id);
    assert rs'[|rs|].id == id;
  }

  /** With distinct ids, deleting removes exactly the requests with that
      id: one request, and no other. */
  lemma RemovedExactly(rs: seq<Request>, id: nat)
    requires UniqueIds(rs) && IndexOfId(rs, id).Some?
    ensures var r := RemovedAt(rs, IndexOfId(rs, id).value);
      |r| == |rs| - 1 && UniqueIds(r)
      && (forall j | 0 <= j < |r| :: r[j].id != id)
      && (forall x | x in rs && x.id != id :: x in r)
      && (forall x | x in r :: x in rs)
  {
    var i := IndexOfId(rs, id).value;
    var r := RemovedAt(rs, i);
    assert forall j | 0 <= j < i :: r[j] == rs[j];
    assert forall j | i <= j < |r| :: r[j] == rs[j + 1];
    forall x | x in rs && x.id != id ensures x in r {
      var k :| 0 <= k < |rs| && rs[k] == x;
      if k < i {
        assert r[k] == x;
      } else {
        assert k > i;
        assert r[k - 1] == x;
      }
    }
  }

  /** Ids are unchanged when only variables change. */
  lemma AllVariablesIds(rs: seq<Request>, variables: Dict, id: nat)
    ensures IndexOfId(AllVariables(rs, variables), id) == IndexOfId(rs, id)
    decreases |rs|
  {
    if rs != [] {
      assert AllVariables(rs, variables)[1..] == AllVariables(rs[1..], variables);
      AllVariablesIds(rs[1..], variables, id);
    }
  }

  /** After ensureAuthVariableEmpty the current request's `auth` is empty,
      and running it again changes nothing. */
  lemma AuthEmptiedIdempotent(rs: seq<Request>, current: Option<nat>)
    ensures var rs' := AuthEmptied(rs, current);
      CurrentIndex(rs', current) == CurrentIndex(rs, current)
      && (CurrentIndex(rs, current).Some? ==> Get(rs'[CurrentIndex(rs, current).value].variables, "auth") == Some(""))
      && AuthEmptied(rs', current) == rs'
  {
    match CurrentIndex(rs, current)
    case None =>
    case Some(i) =>
      var variables := rs[i].variables;
      if Get(variables, "auth") != Some("") {
        AllVariablesIds(rs, Put(variables, "auth", ""), current.value);
      }
  }

  /** Incoming variables win over a request's own; the others stay. */
  lemma IncomingWins(rs: seq<Request>, incoming: Dict, j: nat, name: string)
    requires j < |rs| && Unique(incoming)
    ensures Get(VariablesUpdated(rs, incoming)[j].variables, name) ==
      if name in Keys(incoming) then Get(incoming, name) else Get(rs[j].variables, name)
  {
    AssignGet(rs[j].variables, incoming, name);
  }
}
