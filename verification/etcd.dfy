/** `EtcdClient`: the key operations of the etcd v2 keys API over a cluster
    of hosts. Every request goes through `DoRequest`, which validates the
    method, dispatches to the cluster and wraps the raw answer in an
    `HttpResponse`; the read operations then interpret the decoded body. */
module Etcd {
  import opened Wrappers
  import opened Text
  import opened PhpArray
  import opened UrlEncoding
  import opened Json
  import opened Response
  import opened Errors
  import opened Hosts
  import opened Requests
  import opened Dispatch

  /** The client's state: the configured hosts, in the order they were
      added, and the port for entries that do not name one. */
  datatype Client = Client(hosts: seq<Host>, defaultPort: nat)

  /** PHP truthiness of the constructor's `hosts` argument: `null`, `""`,
      `"0"` and the empty array are falsy. */
  predicate HostsGiven(hosts: Option<HostsInput>) {
    match hosts
    case None => false
    case Some(HostString(text)) => text != "" && text != "0"
    case Some(HostArray(entries)) => |entries| > 0
  }

  /** The constructor: the hosts are added only when the argument is truthy. */
  function NewClient(hosts: Option<HostsInput>, defaultPort: nat): (c: Client)
    ensures c.defaultPort == defaultPort
    ensures !HostsGiven(hosts) ==> c.hosts == []
    ensures HostsGiven(hosts) ==> |c.hosts| == |Entries(hosts.value)|
    ensures HostsGiven(hosts) ==> forall i :: 0 <= i < |c.hosts| ==> c.hosts[i] == ParseEntry(Entries(hosts.value)[i], defaultPort)
  {
    var c := Client([], defaultPort);
    if HostsGiven(hosts) then SetHosts(c, hosts.value) else c
  }

  /** `setHosts`: the parsed entries are appended; the hosts already
      configured and the default port are kept. */
  function SetHosts(c: Client, input: HostsInput): (r: Client)
    ensures r.defaultPort == c.defaultPort
    ensures |r.hosts| == |c.hosts| + |Entries(input)|
    ensures r.hosts[..|c.hosts|] == c.hosts
    ensures forall i :: 0 <= i < |Entries(input)| ==> r.hosts[|c.hosts| + i] == ParseEntry(Entries(input)[i], c.defaultPort)
  {
    Client(AddHosts(c.hosts, input, c.defaultPort), c.defaultPort)
  }

  /** Adding hosts twice is adding both lists, first one first. */
  lemma SetHostsTwice(c: Client, a: HostsInput, b: HostsInput)
    ensures SetHosts(SetHosts(c, a), b).hosts == c.hosts + ParseHosts(a, c.defaultPort) + ParseHosts(b, c.defaultPort)
  {
  }

  /** A client built from a bare host name talks to that host on the
      default port. */
  lemma NewClientSingleHost(name: string, defaultPort: nat)
    requires name != "" && name != "0"
    requires WellFormedName(name)
    ensures NewClient(Some(HostString(name)), defaultPort).hosts == [Host(name, defaultPort)]
  {
    var c := NewClient(Some(HostString(name)), defaultPort);
    assert Entries(HostString(name)) == [name] by {
      assert ',' !in name;
      SplitFirstNone(name, ',');
    }
    assert ParseEntry(name, defaultPort) == Host(name, defaultPort) by {
      ParseEntryWithoutPort(name, defaultPort);
    }
    assert HostsGiven(Some(HostString(name)));
    assert |c.hosts| == 1;
    assert c.hosts[0] == ParseEntry(Entries(HostString(name))[0], defaultPort);
  }

  /** The test suite's client, `new EtcdClient('127.0.0.1')`, relies on the
      constructor's default port: it talks to 127.0.0.1 on port 2379. */
  lemma TestClientHost()
    ensures NewClient(Some(HostString("127.0.0.1")), DefaultPort).hosts == [Host("127.0.0.1", 2379)]
  {
    var name := "127.0.0.1";
    assert name[0] == '1' && name[|name| - 1] == '1';
    TrimClean(name);
    NewClientSingleHost(name, DefaultPort);
  }

  /** What the outside world contributes to one request: the shuffled host
      order, the answer of each transport call (None for curl's `false`),
      what curl reports about a call's status code and header size, and the
      JSON decoder. */
  datatype Transport = Transport(
    order: seq<Host>,
    exchange: Call -> Option<string>,
    statusOf: Call -> int,
    headerSizeOf: Call -> nat,
    decode: string -> Option<Body>)

  /** The order is a shuffle of the client's hosts. */
  predicate Shuffles(t: Transport, c: Client) {
    multiset(t.order) == multiset(c.hosts)
  }

  /** `substr(raw, 0, n)` and `substr(raw, n)`: the header block and the body. */
  function SplitRaw(raw: string, headerSize: nat): (parts: (string, string))
    ensures parts.0 + parts.1 == raw
    ensures |parts.0| == if headerSize < |raw| then headerSize else |raw|
  {
    var n := if headerSize < |raw| then headerSize else |raw|;
    (raw[..n], raw[n..])
  }

  /** The error raised when no host gives a truthy answer. */
  function ExhaustedError(verb: string, url: string): Error {
    Generic("Error performing etcd request: " + verb + " " + url)
  }

  /** `_doRequest`: an invalid method fails before anything is sent; a
      falsy dispatch fails with the method and url; otherwise the raw answer
      is split at the reported header size into a response. */
  function DoRequest(c: Client, t: Transport, verb: string, url: string, params: Params): (r: Result<HttpResponse, Error>)
    requires Shuffles(t, c)
    ensures PrepareRequest(verb, params).Failure? ==> r == Failure(PrepareRequest(verb, params).error)
    ensures PrepareRequest(verb, params).Success? ==>
      var d := ClusterRequest(t.order, url, PrepareRequest(verb, params).value, t.exchange);
      && (r.Success? <==> Truthy(d.raw))
      && (r.Failure? ==> r.error == ExhaustedError(NormalizeMethod(verb), url))
      && (r.Success? ==>
            && |d.trace| > 0
            && var last := d.trace[|d.trace| - 1];
               var n := if t.headerSizeOf(last) < |d.raw.value| then t.headerSizeOf(last) else |d.raw.value|;
               && GetStatusCode(r.value) == t.statusOf(last)
               && GetHeaders(r.value) == ParseHeaders(d.raw.value[..n])
               && GetRawBody(r.value) == d.raw.value[n..]
               && GetJsonBody(r.value) == t.decode(d.raw.value[n..]))
  {
    var prepared :- PrepareRequest(verb, params);
    var d := ClusterRequest(t.order, url, prepared, t.exchange);
    if !Truthy(d.raw) then Failure(ExhaustedError(prepared.verb, url))
    else
      var last := d.trace[|d.trace| - 1];
      var parts := SplitRaw(d.raw.value, t.headerSizeOf(last));
      Success(CreateFromRaw(t.statusOf(last), parts.0, parts.1, t.decode))
  }

  /** An invalid method is rejected whatever the transport would do: no
      call is made. */
  lemma InvalidMethodSendsNothing(c: Client, t1: Transport, t2: Transport, verb: string, url: string, params: Params)
    requires Shuffles(t1, c) && Shuffles(t2, c)
    requires NormalizeMethod(verb) !in ["GET", "PUT", "DELETE"]
    ensures DoRequest(c, t1, verb, url, params) == DoRequest(c, t2, verb, url, params)
    ensures DoRequest(c, t1, verb, url, params) == Failure(Generic("Invalid HTTP method: " + NormalizeMethod(verb)))
  {
  }

  /** A client without hosts fails every valid request with the exhaustion
      error. */
  lemma NoHostsAlwaysFails(c: Client, t: Transport, verb: string, url: string, params: Params)
    requires Shuffles(t, c) && c.hosts == []
    requires NormalizeMethod(verb) in ["GET", "PUT", "DELETE"]
    ensures DoRequest(c, t, verb, url, params) == Failure(ExhaustedError(NormalizeMethod(verb), url))
  {
    assert |t.order| == |multiset(t.order)| == 0;
    NoHostsNoCalls(url, PrepareRequest(verb, params).value, t.exchange);
  }

  /** The response's header block and body put back together are the raw
      answer. */
  lemma ResponseSplitsRaw(raw: string, headerSize: nat, statusCode: int, decode: string -> Option<Body>)
    ensures var parts := SplitRaw(raw, headerSize);
      var resp := CreateFromRaw(statusCode, parts.0, parts.1, decode);
      parts.0 + GetRawBody(resp) == raw && GetHeaders(resp) == ParseHeaders(parts.0)
  {
  }

  /** The request a write sends: a PUT whose form body carries the write's
      parameters. */
  function WriteRequest(value: string, ttl: int, prevExist: PrevExist): Prepared {
    Prepared("PUT", Some(EncodeForm(KeyWriteParams(value, ttl, prevExist))))
  }

  /** The method names the client itself uses are already normalised. */
  lemma FixedMethodsNormal()
    ensures NormalizeMethod("GET") == "GET"
    ensures NormalizeMethod("PUT") == "PUT"
    ensures NormalizeMethod("DELETE") == "DELETE"
  {
    TrimClean("GET");
    UpperClean("GET");
    TrimClean("PUT");
    UpperClean("PUT");
    TrimClean("DELETE");
    UpperClean("DELETE");
  }

  /** With one of the client's own methods the request is always prepared,
      and `_doRequest` fails exactly when the dispatch gets no truthy answer,
      with the exhaustion error for that method and url. */
  lemma FixedDoRequest(c: Client, t: Transport, verb: string, url: string, params: Params)
    requires Shuffles(t, c)
    requires verb == "GET" || verb == "PUT" || verb == "DELETE"
    ensures PrepareRequest(verb, params) == Success(Prepared(verb, if verb != "GET" && |params| > 0 then Some(EncodeForm(params)) else None))
    ensures DoRequest(c, t, verb, url, params).Success? <==>
      Truthy(ClusterRequest(t.order, url, PrepareRequest(verb, params).value, t.exchange).raw)
    ensures DoRequest(c, t, verb, url, params).Failure? ==> DoRequest(c, t, verb, url, params).error == ExhaustedError(verb, url)
  {
    FixedMethodsNormal();
  }

  /** `_doKeyWrite`: the outcome depends only on whether the dispatch got a
      truthy answer; the status and body of the answer are never looked at. */
  function KeyWrite(c: Client, t: Transport, key: string, value: string, ttl: int, prevExist: PrevExist): (r: Result<(), Error>)
    requires Shuffles(t, c)
    ensures r.Success? <==> Truthy(ClusterRequest(t.order, UrlPathForKey(key), WriteRequest(value, ttl, prevExist), t.exchange).raw)
    ensures r.Failure? ==> r.error == ExhaustedError("PUT", UrlPathForKey(key))
  {
    FixedDoRequest(c, t, "PUT", UrlPathForKey(key), KeyWriteParams(value, ttl, prevExist));
    var _ :- DoRequest(c, t, "PUT", UrlPathForKey(key), KeyWriteParams(value, ttl, prevExist));
    Success(())
  }

  /** `mk`: a write that requires the key to be absent. */
  function Mk(c: Client, t: Transport, key: string, value: string, ttl: int): (r: Result<(), Error>)
    requires Shuffles(t, c)
    ensures r.Success? <==> Truthy(ClusterRequest(t.order, UrlPathForKey(key), WriteRequest(value, ttl, MustNotExist), t.exchange).raw)
    ensures r.Failure? ==> r.error == ExhaustedError("PUT", UrlPathForKey(key))
  {
    KeyWrite(c, t, key, value, ttl, MustNotExist)
  }

  /** `set`: an unconditional write. */
  function Set(c: Client, t: Transport, key: string, value: string, ttl: int): (r: Result<(), Error>)
    requires Shuffles(t, c)
    ensures r.Success? <==> Truthy(ClusterRequest(t.order, UrlPathForKey(key), WriteRequest(value, ttl, Unconditional), t.exchange).raw)
    ensures r.Failure? ==> r.error == ExhaustedError("PUT", UrlPathForKey(key))
  {
    KeyWrite(c, t, key, value, ttl, Unconditional)
  }

  /** `update`: a write that requires the key to exist. */
  function Update(c: Client, t: Transport, key: string, value: string, ttl: int): (r: Result<(), Error>)
    requires Shuffles(t, c)
    ensures r.Success? <==> Truthy(ClusterRequest(t.order, UrlPathForKey(key), WriteRequest(value, ttl, MustExist), t.exchange).raw)
    ensures r.Failure? ==> r.error == ExhaustedError("PUT", UrlPathForKey(key))
  {
    KeyWrite(c, t, key, value, ttl, MustExist)
  }

  /** The condition each write sends: `prevExist` is `"false"` for `mk`,
      absent for `set` and `"true"` for `update`. */
  lemma WriteParameters(value: string, ttl: int)
    ensures Get(KeyWriteParams(value, ttl, MustNotExist), "prevExist") == Some("false")
    ensures Get(KeyWriteParams(value, ttl, Unconditional), "prevExist") == None
    ensures Get(KeyWriteParams(value, ttl, MustExist), "prevExist") == Some("true")
  {
  }

  /** The server reads a write's body back as its parameters, in order. */
  lemma WriteBodyRoundTrip(value: string, ttl: int, prevExist: PrevExist)
    ensures ParseForm(WriteRequest(value, ttl, prevExist).body.value) == Some(Utf8Pairs(KeyWriteParams(value, ttl, prevExist)))
  {
  }

  /** Writes never inspect the answer: two transports that agree on the
      shuffle and on which calls answer give the same outcome, whatever
      status codes and bodies they report. */
  lemma WriteIgnoresResponse(c: Client, t1: Transport, t2: Transport, key: string, value: string, ttl: int, prevExist: PrevExist)
    requires Shuffles(t1, c) && Shuffles(t2, c)
    requires t1.order == t2.order && t1.exchange == t2.exchange
    ensures KeyWrite(c, t1, key, value, ttl, prevExist) == KeyWrite(c, t2, key, value, ttl, prevExist)
  {
  }

  /** `rm`: a DELETE without a body; like the writes, it fails only when
      no host answers. */
  function Rm(c: Client, t: Transport, key: string): (r: Result<(), Error>)
    requires Shuffles(t, c)
    ensures r.Success? <==> Truthy(ClusterRequest(t.order, UrlPathForKey(key), Prepared("DELETE", None), t.exchange).raw)
    ensures r.Failure? ==> r.error == ExhaustedError("DELETE", UrlPathForKey(key))
  {
    FixedDoRequest(c, t, "DELETE", UrlPathForKey(key), []);
    var _ :- DoRequest(c, t, "DELETE", UrlPathForKey(key), []);
    Success(())
  }

  /** The decision ladder of `get` over a response, first match wins: a 404
      is not-found, a directory node is the wrong type, a node value is the
      result, and anything else is the generic error carrying the raw body. */
  function GetFrom(key: string, resp: HttpResponse): (r: Result<string, Error>)
    ensures r == Failure(NotFound(key)) <==> GetStatusCode(resp) == 404
    ensures r.Failure? && r.error.IncorrectType? <==>
      GetStatusCode(resp) != 404 && NodeOf(GetJsonBody(resp)).Some? && IsDir(NodeOf(GetJsonBody(resp)).value)
    ensures r.Success? <==>
      GetStatusCode(resp) != 404 && NodeOf(GetJsonBody(resp)).Some? && !IsDir(NodeOf(GetJsonBody(resp)).value)
      && NodeOf(GetJsonBody(resp)).value.value.Some?
    ensures r.Success? ==> r.value == NodeOf(GetJsonBody(resp)).value.value.value
    ensures r.Failure? && r.error.IncorrectType? ==> r.error.message == "Path is not an etcd file: " + key
    ensures r.Failure? && r.error.Generic? ==>
      r.error.message == "Unknown error getting key " + key + ". Full repsonse:\n" + GetRawBody(resp)
    ensures r.Failure? ==> !r.error.NotFound? || r.error.path == key
  {
    if GetStatusCode(resp) == 404 then Failure(NotFound(key))
    else
      var node := NodeOf(GetJsonBody(resp));
      if node.Some? && IsDir(node.value) then Failure(IncorrectType("Path is not an etcd file: " + key))
      else if node.Some? && node.value.value.Some? then Success(node.value.value.value)
      else Failure(Generic("Unknown error getting key " + key + ". Full repsonse:\n" + GetRawBody(resp)))
  }

  /** The rungs are tried in order: a 404 is not-found even when its body
      holds a value, and a directory is the wrong type even when it carries a
      value. */
  lemma GetLadderOrder(key: string, resp: HttpResponse)
    ensures GetStatusCode(resp) == 404 ==> GetFrom(key, resp) == Failure(NotFound(key))
    ensures GetStatusCode(resp) != 404 && NodeOf(GetJsonBody(resp)).Some? && IsDir(NodeOf(GetJsonBody(resp)).value)
      ==> GetFrom(key, resp) == Failure(IncorrectType("Path is not an etcd file: " + key))
  {
  }

  /** `get`. */
  function GetKey(c: Client, t: Transport, key: string): (r: Result<string, Error>)
    requires Shuffles(t, c)
    ensures DoRequest(c, t, "GET", UrlPathForKey(key), []).Failure? ==>
      r == Failure(ExhaustedError("GET", UrlPathForKey(key)))
    ensures DoRequest(c, t, "GET", UrlPathForKey(key), []).Success? ==>
      r == GetFrom(key, DoRequest(c, t, "GET", UrlPathForKey(key), []).value)
  {
    FixedDoRequest(c, t, "GET", UrlPathForKey(key), []);
    var resp :- DoRequest(c, t, "GET", UrlPathForKey(key), []);
    GetFrom(key, resp)
  }

  /** `tryGet`: a missing key gives the default; every other outcome of
      `get`, success or error, passes through unchanged. */
  function TryGet(c: Client, t: Transport, key: string, default: Option<string>): (r: Result<Option<string>, Error>)
    requires Shuffles(t, c)
    ensures GetKey(c, t, key).Success? ==> r == Success(Some(GetKey(c, t, key).value))
    ensures GetKey(c, t, key).Failure? && GetKey(c, t, key).error.NotFound? ==> r == Success(default)
    ensures GetKey(c, t, key).Failure? && !GetKey(c, t, key).error.NotFound? ==> r == Failure(GetKey(c, t, key).error)
  {
    match GetKey(c, t, key)
    case Success(v) => Success(Some(v))
    case Failure(NotFound(_)) => Success(default)
    case Failure(e) => Failure(e)
  }

  /** `tryGet` raises exactly when `get` raises something other than
      not-found, and never raises not-found itself. */
  lemma TryGetErrors(c: Client, t: Transport, key: string, default: Option<string>)
    requires Shuffles(t, c)
    ensures TryGet(c, t, key, default).Failure? <==> GetKey(c, t, key).Failure? && !GetKey(c, t, key).error.NotFound?
    ensures TryGet(c, t, key, default).Failure? ==> !TryGet(c, t, key, default).error.NotFound?
  {
  }

  /** One entry of a directory listing: a key's value, or a sub-listing. */
  datatype Entry = Value(value: string) | Listing(entries: seq<(string, Entry)>)

  type Listing = PhpArray.Array<Entry>

  /** The listing key of a node: PHP turns a missing key into `""`. */
  function ListingKey(n: Node): string {
    n.key.GetOr("")
  }

  /** `_parseLsNodes`: every node assigned in turn into an empty array. The
      listing names each key once, and its keys are exactly the keys of the
      nodes that contribute something. */
  function ParseLsNodes(ns: seq<Node>): (l: Listing)
    decreases ns, 0
    ensures UniqueKeys(l)
    ensures forall k :: k in Keys(l) <==> exists i :: 0 <= i < |ns| && NodeEntry(ns[i]).Some? && ListingKey(ns[i]) == k
  {
    if |ns| == 0 then []
    else
      var front := ns[..|ns| - 1];
      var last := ns[|ns| - 1];
      var init := ParseLsNodes(front);
      assert forall i :: 0 <= i < |front| ==> front[i] == ns[i];
      match NodeEntry(last)
      case Some(e) =>
        PutUnique(init, ListingKey(last), e);
        PutKeys(init, ListingKey(last), e);
        Put(init, ListingKey(last), e)
      case None => init
  }

  /** What a node contributes to a listing: a directory its own listing, or
      an empty one when it has no `nodes`; a leaf its value; anything else
      nothing. */
  function NodeEntry(n: Node): (e: Option<Entry>)
    decreases n, 1
    ensures e.None? <==> !IsDir(n) && n.value.None?
    ensures IsDir(n) && n.nodes.Present? ==> e == Some(Listing(ParseLsNodes(n.nodes.items)))
    ensures IsDir(n) && n.nodes.Absent? ==> e == Some(Listing([]))
    ensures !IsDir(n) && n.value.Some? ==> e == Some(Value(n.value.value))
  {
    if IsDir(n) then
      match n.nodes
      case Present(items) => Some(Listing(ParseLsNodes(items)))
      case Absent => Some(Listing([]))
    else if n.value.Some? then Some(Value(n.value.value))
    else None
  }

  /** The (key, entry) pairs the nodes contribute, in node order: one pair
      for every node that contributes, and nothing else. */
  function ListedPairs(ns: seq<Node>): (ps: seq<(string, Entry)>)
    ensures |ps| <= |ns|
    ensures forall i :: 0 <= i < |ns| && NodeEntry(ns[i]).Some? ==> (ListingKey(ns[i]), NodeEntry(ns[i]).value) in ps
    ensures forall p :: p in ps ==> exists i :: 0 <= i < |ns| && NodeEntry(ns[i]) == Some(p.1) && ListingKey(ns[i]) == p.0
  {
    if |ns| == 0 then []
    else
      var front := ns[..|ns| - 1];
      var init := ListedPairs(front);
      assert forall i :: 0 <= i < |front| ==> front[i] == ns[i];
      match NodeEntry(ns[|ns| - 1])
      case Some(e) => init + [(ListingKey(ns[|ns| - 1]), e)]
      case None => init
  }

  /** What one node adds to `ListedPairs`. */
  function Contribution(n: Node): Option<(string, Entry)> {
    match NodeEntry(n)
    case Some(e) => Some((ListingKey(n), e))
    case None => None
  }

  /** Every node's contribution, node by node. */
  function Contributions(ns: seq<Node>): (os: seq<Option<(string, Entry)>>)
    ensures |os| == |ns|
    ensures forall i :: 0 <= i < |ns| ==> os[i] == Contribution(ns[i])
  {
    if |ns| == 0 then [] else Contributions(ns[..|ns| - 1]) + [Contribution(ns[|ns| - 1])]
  }

  /** `ListedPairs` keeps the nodes' contributions that are present. */
  lemma {:induction false} ListedPairsSomes(ns: seq<Node>)
    ensures ListedPairs(ns) == Somes(Contributions(ns))
  {
    if |ns| > 0 {
      var front := ns[..|ns| - 1];
      ListedPairsSomes(front);
      assert Contributions(ns)[..|ns| - 1] == Contributions(front);
    }
  }

  /** The pairs keep the order of the nodes: `idx[j]` is the node the `j`-th
      pair comes from, the indices rise strictly, and every contributing node
      is among them. */
  lemma ListedPairsOrder(ns: seq<Node>) returns (idx: seq<nat>)
    ensures |idx| == |ListedPairs(ns)|
    ensures forall j :: 0 <= j < |idx| ==>
      idx[j] < |ns| && NodeEntry(ns[idx[j]]) == Some(ListedPairs(ns)[j].1) && ListingKey(ns[idx[j]]) == ListedPairs(ns)[j].0
    ensures forall j1, j2 :: 0 <= j1 < j2 < |idx| ==> idx[j1] < idx[j2]
    ensures forall i :: 0 <= i < |ns| && NodeEntry(ns[i]).Some? ==> i in idx
  {
    ListedPairsSomes(ns);
    var os := Contributions(ns);
    idx := SomesOrder(os);
  }

  /** The listing is the contributed pairs assigned one after the other. */
  lemma {:induction false} ParseLsNodesAssigns(ns: seq<Node>)
    ensures ParseLsNodes(ns) == PutAll([], ListedPairs(ns))
  {
    if |ns| > 0 {
      ParseLsNodesAssigns(ns[..|ns| - 1]);
    }
  }

  /** A listing is a PHP array; on a duplicate key the last node wins, and
      every key stays where it first appeared. */
  lemma LsFlattening(ns: seq<Node>, k: string)
    ensures UniqueKeys(ParseLsNodes(ns))
    ensures Get(ParseLsNodes(ns), k) == LastValue(ListedPairs(ns), k)
    ensures Keys(ParseLsNodes(ns)) == FirstOccurrences(Keys(ListedPairs(ns)))
  {
    ParseLsNodesAssigns(ns);
    PutAllUnique([], ListedPairs(ns));
    PutAllLastWins([], ListedPairs(ns), k);
    PutAllKeyOrder(ListedPairs(ns));
  }

  /** Every node that is a directory or carries a value is listed under its
      key, with what it contributes, unless a later node takes the key. */
  lemma {:induction false} LsListsEveryNode(ns: seq<Node>, i: int)
    requires 0 <= i < |ns| && NodeEntry(ns[i]).Some?
    requires forall j :: i < j < |ns| ==> NodeEntry(ns[j]).None? || ListingKey(ns[j]) != ListingKey(ns[i])
    ensures Get(ParseLsNodes(ns), ListingKey(ns[i])) == NodeEntry(ns[i])
  {
    var init := ns[..|ns| - 1];
    var last := ns[|ns| - 1];
    if NodeEntry(last).Some? {
      PutGet(ParseLsNodes(init), ListingKey(last), NodeEntry(last).value);
    }
    if i < |ns| - 1 {
      assert forall j :: i < j < |init| ==> init[j] == ns[j];
      LsListsEveryNode(init, i);
      assert init[i] == ns[i];
    }
  }

  /** `ls`'s URL: the key path, with `?recursive=true` for a recursive listing. */
  function LsUrl(path: string, recursive: bool): (u: string)
    ensures |UrlPathForKey(path)| <= |u| && u[..|UrlPathForKey(path)|] == UrlPathForKey(path)
    ensures u[|UrlPathForKey(path)|..] == if recursive then "?recursive=true" else ""
  {
    var p := UrlPathForKey(path);
    var u := if recursive then p + "?recursive=true" else p;
    assert u[|p|..] == if recursive then "?recursive=true" else "";
    u
  }

  /** The decision ladder of `ls` over a response, first match wins: a 404
      is not-found, no node is the unknown-key error, a node with `nodes` is
      listed, a node with a value is the wrong type, and anything else (a
      directory without `nodes`, such as an empty one) is the parse error. */
  function LsFrom(path: string, resp: HttpResponse): (r: Result<Listing, Error>)
    ensures r == Failure(NotFound(path)) <==> GetStatusCode(resp) == 404
    ensures r.Success? <==>
      GetStatusCode(resp) != 404 && NodeOf(GetJsonBody(resp)).Some? && NodeOf(GetJsonBody(resp)).value.nodes.Present?
    ensures r.Success? ==> r.value == ParseLsNodes(NodeOf(GetJsonBody(resp)).value.nodes.items)
    ensures r.Failure? && r.error.IncorrectType? <==>
      GetStatusCode(resp) != 404 && NodeOf(GetJsonBody(resp)).Some? && NodeOf(GetJsonBody(resp)).value.nodes.Absent?
      && NodeOf(GetJsonBody(resp)).value.value.Some?
    ensures r.Failure? && r.error.IncorrectType? ==> r.error.message == "Not an etcd directory: " + path
    ensures GetStatusCode(resp) != 404 && NodeOf(GetJsonBody(resp)).None? ==>
      r == Failure(Generic("Unknown error getting key " + path + ". Full repsonse:\n" + GetRawBody(resp)))
    ensures (GetStatusCode(resp) != 404 && NodeOf(GetJsonBody(resp)).Some? && NodeOf(GetJsonBody(resp)).value.nodes.Absent?
             && NodeOf(GetJsonBody(resp)).value.value.None?) ==>
      r == Failure(Generic("Unable to parse etcd response:\n" + GetRawBody(resp)))
  {
    if GetStatusCode(resp) == 404 then Failure(NotFound(path))
    else
      match NodeOf(GetJsonBody(resp))
      case None => Failure(Generic("Unknown error getting key " + path + ". Full repsonse:\n" + GetRawBody(resp)))
      case Some(node) =>
        match node.nodes
        case Present(items) => Success(ParseLsNodes(items))
        case Absent =>
          if node.value.Some? then Failure(IncorrectType("Not an etcd directory: " + path))
          else Failure(Generic("Unable to parse etcd response:\n" + GetRawBody(resp)))
  }

  /** Listing an empty directory, which the server reports as a directory
      node without `nodes`, is the generic parse error, not an empty listing. */
  lemma LsEmptyDirectoryFails(path: string, resp: HttpResponse, key: Option<string>)
    requires GetStatusCode(resp) != 404
    requires GetJsonBody(resp) == Some(Body(Some(Node(key, Some(true), None, Absent))))
    ensures LsFrom(path, resp) == Failure(Generic("Unable to parse etcd response:\n" + GetRawBody(resp)))
  {
  }

  /** `ls`. */
  function Ls(c: Client, t: Transport, path: string, recursive: bool): (r: Result<Listing, Error>)
    requires Shuffles(t, c)
    ensures DoRequest(c, t, "GET", LsUrl(path, recursive), []).Failure? ==>
      r == Failure(ExhaustedError("GET", LsUrl(path, recursive)))
    ensures DoRequest(c, t, "GET", LsUrl(path, recursive), []).Success? ==>
      r == LsFrom(path, DoRequest(c, t, "GET", LsUrl(path, recursive), []).value)
  {
    FixedDoRequest(c, t, "GET", LsUrl(path, recursive), []);
    var resp :- DoRequest(c, t, "GET", LsUrl(path, recursive), []);
    LsFrom(path, resp)
  }

  /** A leaf node with a key and a value. */
  function Leaf(key: string, value: string): Node {
    Node(Some(key), None, Some(value), Absent)
  }

  /** A directory node with a key and, optionally, its children. */
  function DirNode(key: string, nodes: Children): Node {
    Node(Some(key), Some(true), None, nodes)
  }

  /** One more node is assigned after the listing of the nodes before it. */
  lemma ParseLsNodesSnoc(ns: seq<Node>, n: Node)
    ensures ParseLsNodes(ns + [n])
         == if NodeEntry(n).Some? then Put(ParseLsNodes(ns), ListingKey(n), NodeEntry(n).value) else ParseLsNodes(ns)
  {
    assert (ns + [n])[..|ns|] == ns;
  }

  /** Listing two values under distinct keys: each is listed under its own
      key, in order. */
  lemma LsTwoValues(ka: string, va: string, kb: string, vb: string)
    requires ka != kb
    ensures ParseLsNodes([Leaf(ka, va), Leaf(kb, vb)]) == [(ka, Value(va)), (kb, Value(vb))]
  {
    ParseLsNodesSnoc([], Leaf(ka, va));
    assert [] + [Leaf(ka, va)] == [Leaf(ka, va)];
    ParseLsNodesSnoc([Leaf(ka, va)], Leaf(kb, vb));
    assert [Leaf(ka, va)] + [Leaf(kb, vb)] == [Leaf(ka, va), Leaf(kb, vb)];
  }

  /** Without recursion a sub-directory comes back as an empty listing after
      the values before it. */
  lemma LsSubdirWithoutRecursion(ka: string, va: string, kb: string, vb: string, ksub: string)
    requires ka != kb && ksub != ka && ksub != kb
    ensures ParseLsNodes([Leaf(ka, va), Leaf(kb, vb), DirNode(ksub, Absent)])
         == [(ka, Value(va)), (kb, Value(vb)), (ksub, Listing([]))]
  {
    var two := [Leaf(ka, va), Leaf(kb, vb)];
    var sub := DirNode(ksub, Absent);
    var listed := [(ka, Value(va)), (kb, Value(vb))];
    assert [Leaf(ka, va), Leaf(kb, vb), sub] == two + [sub];
    assert ParseLsNodes(two + [sub]) == Put(listed, ksub, Listing([])) by {
      LsTwoValues(ka, va, kb, vb);
      ParseLsNodesSnoc(two, sub);
    }
    assert Put(listed, ksub, Listing([])) == listed + [(ksub, Listing([]))] by {
      assert Keys(listed) == [ka, kb];
      PutKeys(listed, ksub, Listing([]));
    }
  }

  /** With recursion a sub-directory holds its own listing. */
  lemma LsSubdirWithRecursion(ka: string, va: string, ksub: string, kc: string, vc: string)
    requires ksub != ka
    ensures ParseLsNodes([Leaf(ka, va), DirNode(ksub, Present([Leaf(kc, vc)]))])
         == [(ka, Value(va)), (ksub, Listing([(kc, Value(vc))]))]
  {
    ParseLsNodesSnoc([], Leaf(kc, vc));
    assert [] + [Leaf(kc, vc)] == [Leaf(kc, vc)];
    ParseLsNodesSnoc([], Leaf(ka, va));
    assert [] + [Leaf(ka, va)] == [Leaf(ka, va)];
    var sub := DirNode(ksub, Present([Leaf(kc, vc)]));
    ParseLsNodesSnoc([Leaf(ka, va)], sub);
    assert [Leaf(ka, va)] + [sub] == [Leaf(ka, va), sub];
  }

  /** A url that starts with exactly one slash is appended to the origin
      as it is. */
  lemma HostUrlOfRooted(h: Host, url: string)
    requires |url| > 1 && url[0] == '/' && url[1] != '/'
    ensures HostUrl(h, url) == Origin(h) + url
  {
    var tail := url[1..];
    assert url == ['/'] + tail;
    TrimLeftCons('/', tail, Slashes);
    TrimLeftStop(tail, Slashes);
    var o := Origin(h);
    assert |o + "/" + tail| == |o + url|;
    forall i | 0 <= i < |o + url|
      ensures (o + "/" + tail)[i] == (o + url)[i]
    {
    }
  }

  /** The URL of a key request against a host is the origin followed by the
      key path: exactly one slash between the port and `v2/keys/`. */
  lemma KeyUrl(h: Host, key: string)
    ensures HostUrl(h, UrlPathForKey(key)) == Origin(h) + UrlPathForKey(key)
  {
    var p := UrlPathForKey(key);
    assert p[..|KeysPrefix|] == KeysPrefix;
    assert p[0] == KeysPrefix[0] == '/';
    assert p[1] == KeysPrefix[1] == 'v';
    HostUrlOfRooted(h, p);
  }
}
