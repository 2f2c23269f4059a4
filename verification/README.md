# etcd v2 PHP client — a Dafny model

This project models the core of the `Packaged\Etcd` PHP client for the etcd v2
keys API. The client talks to a cluster of hosts, shapes key requests, tries the
hosts in a shuffled order and interprets the JSON answers. The model covers:

- **Host-list parsing.** `setHosts` and the constructor read a comma string or
  an array of `host[:port]` entries. Each becomes a `(host, port)` record,
  appended after the hosts already configured (module `Hosts`, `Etcd.SetHosts`).
- **Request shaping.**
  - `_urlPathForKey` builds the key path.
  - `_doKeyWrite` and `_makeParams` build the write parameters: tri-state
    `prevExist`, and `ttl` only when positive.
  - `_doRequest` validates the method and builds the `rawurlencode`d form body.
  - Modules `Requests`, `UrlEncoding`, `PhpArray`.
- **Cluster dispatch.** `_performClusterRequest` makes two passes over a shuffled
  host order and stops at the first truthy transport result (module `Dispatch`).
  - The transport is an oracle from a call to its result; `None` stands for
    curl's `false`.
  - The shuffle is an input order with the same multiset as the hosts.
  - `PerformClusterRequest` is the loop itself, with its invariants.
  - `ClusterRequest` is the same dispatch as a function, and the loop is proved
    equal to it.
- **Responses.** `HttpResponse::createFromRaw`, `_setRawHeaders` and the getters
  (module `Response`).
- **Reads.** The decision ladders of `get`, `tryGet` and `ls`, and the recursive
  `_parseLsNodes` flattening (module `Etcd`). They run over a JSON node datatype
  (module `Json`) whose optional members are `None` when missing or null, as
  PHP's `isset` sees them.

The client's state is an immutable `Client` value. `SetHosts` returns a new
client, and a request never changes the stored host list: the shuffled order is
a separate input. Errors are values of `Errors.Error`: `NotFound(path)`,
`IncorrectType(message)` and `Generic(message)`. The messages are copied from
the code, including its spelling "repsonse".

Three behaviours of the code that a caller may not expect, which the model
follows:

- `mk`, `set`, `update` and `rm` never look at the response status. They fail
  only when no host answers, so a conflicting `mk` or an `update` of a missing
  key is not an error in the model (`Etcd.KeyWrite`, `Etcd.WriteIgnoresResponse`).
- Listing an empty directory raises the generic parse error, not an empty
  listing. The server sends a directory node without `nodes`, and `ls` only
  lists a node that has `nodes` (`Etcd.LsEmptyDirectoryFails`). Only
  sub-directories without `nodes` become empty listings.
- The dispatch stops at a *truthy* result, not at any non-empty one. A raw
  answer of exactly `"0"` counts as a failure and the next host is tried
  (`Dispatch.Truthy`).

## Model

| member | source | states |
|---|---|---|
| Hosts.Entries | src/EtcdClient.php:36-39 | a string argument is exploded on `,` into one more entry than it has commas, none holding a comma, that join back to the string; an array is taken as it is |
| Hosts.ParseEntry | src/EtcdClient.php:43-54 | the stored host name never contains a colon and carries no surrounding white space |
| Hosts.ParseEntryWithPort | src/EtcdClient.php:43-52 | an entry is split at its first colon only: the host is the trimmed part before it, and the port is the rest when numeric, else the default port |
| Hosts.ParseEntryWithoutPort | src/EtcdClient.php:43-54 | an entry without a colon is the trimmed entry on the default port |
| Hosts.ParseFormat | src/EtcdClient.php:43-54 | parsing the `host:port` text of a record with a well-formed name gives the record back |
| Hosts.ParseHosts | src/EtcdClient.php:36-55 | a string gives one record more than it has commas, an array one record per element; every stored host name is trimmed and colon-free |
| Hosts.AddHosts | src/EtcdClient.php:41-55 | the new records follow the existing ones, which are unchanged |
| Hosts.ParseFormatList | src/EtcdClient.php:36-55 | a comma-joined list of well-formed records parses back to the same list |
| Etcd.NewClient | src/EtcdClient.php:20-27 | the default port is kept; a falsy hosts argument (null, "", "0", empty array) adds no host, and otherwise every entry is parsed |
| Etcd.SetHosts | src/EtcdClient.php:34-56 | appends the parsed entries after the configured hosts, leaving them and the default port as they were |
| Etcd.SetHostsTwice | src/EtcdClient.php:34-56 | two calls add both lists, first one first: hosts are only ever appended |
| Etcd.NewClientSingleHost | tests/EtcdClientTest.php:8-11 | a client built from one bare host name talks to that host on the default port |
| Etcd.TestClientHost | tests/EtcdClientTest.php:8-11 | the test suite's client, built without a port, talks to 127.0.0.1 on the constructor's default port 2379 |
| Text.TrimLeft | src/EtcdClient.php:231 | `ltrim` removes exactly the longest prefix of the given characters: the result is a suffix and does not start with one of them |
| Text.TrimLeftCons | src/EtcdClient.php:231 | a leading stripped character makes no difference to `ltrim` |
| Text.Trim | src/EtcdClient.php:43 | `trim` returns the middle part of the text; everything it removes is white space, and the result neither starts nor ends with white space |
| Text.TrimClean | src/EtcdClient.php:43 | text without white space at either end is left as it is |
| Text.TrimIdempotent | src/EtcdClient.php:43-54 | trimming the already trimmed host again changes nothing |
| Text.TrimNoNewChars | src/EtcdClient.php:43-54 | trimming never introduces a character, so a colon-free part stays colon-free |
| Text.SplitFirst | src/EtcdClient.php:43 | `explode(':', s, 2)`: the head has no separator, and head, separator and tail put back together are the input |
| Text.SplitFirstAt | src/EtcdClient.php:43 | the split is at the first separator, so later separators stay in the tail |
| Text.Split | src/EtcdClient.php:38 | `explode` gives one more piece than the separator occurs, and no piece contains the separator |
| Text.JoinSplit | src/EtcdClient.php:38 | joining the pieces of a split gives back the string |
| Text.SplitJoin | src/EtcdClient.php:38 | splitting a join of separator-free pieces gives back the pieces |
| Text.Upper | src/EtcdClient.php:292 | `strtoupper` keeps the length, leaves no ASCII lower-case letter, turns each into its capital and keeps every other character |
| Text.UpperClean | src/EtcdClient.php:292 | `strtoupper` leaves a string without lower-case letters unchanged |
| Text.NatToString | src/EtcdClient.php:238 | the decimal text of an integer is a non-empty run of digits without leading zeros: it starts with `0` only when it is `0`, which is exactly the text of zero |
| Text.DigitsValueOfNatToString | src/EtcdClient.php:45-47 | reading back the decimal text of a port gives the port |
| Text.TrimTrailingCR | src/HttpResponse.php:56-59 | a carriage return at the end of a line never survives `trim` |
| Requests.UrlPathForKey | src/EtcdClient.php:229-232 | the path starts with `/v2/keys/`, the rest is a suffix of the key whose removed prefix is all slashes, and the rest never starts with a slash |
| Requests.UrlPathLeadingSlash | src/EtcdClient.php:229-232 | `k` and `/k` (and so `///k`) give the same path |
| Requests.UrlPathPlainKey | src/EtcdClient.php:229-232 | a key not starting with a slash is appended unchanged |
| Requests.MakeParams | src/EtcdClient.php:234-245 | `ttl` is set to the decimal text of a positive ttl and removed otherwise; every other parameter reads as before; a new `ttl` goes last; with ttl <= 0 the other keys keep their order, and on a PHP array exactly the one `ttl` pair is cut out |
| Requests.ConditionParams | src/EtcdClient.php:259-268 | the parameters before the ttl step are exactly `value`, then `prevExist` for a conditional write, carrying its wire text `"true"` or `"false"`; keys unique |
| Requests.KeyWriteParams | src/EtcdClient.php:257-274 | the write parameters are exactly `value`, then `prevExist` for a conditional write, then `ttl` when positive; `prevExist` carries the wire text and `ttl` is present iff ttl > 0 |
| Requests.NormalizeMethod | src/EtcdClient.php:292 | the method comes out without white space at either end and without ASCII lower-case letters, each character the trimmed method's own or its capital |
| Requests.PrepareRequest | src/EtcdClient.php:292-315 | succeeds iff the trimmed, upper-cased method is GET, PUT or DELETE, otherwise "Invalid HTTP method: " plus the method; a body is built iff the method is not GET and there are parameters; it is exactly the `rawurlencode`d `k=v` pairs joined with `&`, and it decodes back to the parameters in order |
| UrlEncoding.Utf8Char | src/EtcdClient.php:301 | each character becomes the shortest UTF-8 sequence for its code point: one byte below U+0080, two below U+0800, three below U+10000 and four above, with the lead and continuation bytes in range and spelling the code point |
| UrlEncoding.Utf8Ascii | src/EtcdClient.php:301 | ASCII text is its own byte string |
| UrlEncoding.EncodeByte | src/EtcdClient.php:301 | a byte stays one character, itself, exactly when it is an unreserved character; any other byte becomes `%` and two upper-case hexadecimal digits of its value |
| UrlEncoding.PercentEncodeAppend | src/EtcdClient.php:301 | bytes are encoded one at a time: the encoding of a concatenation is the concatenation of the encodings |
| UrlEncoding.PercentEncodeReserved | src/EtcdClient.php:301 | bytes none of which is unreserved are all escaped, three characters each |
| UrlEncoding.RawUrlEncodeAppend | src/EtcdClient.php:301 | `rawurlencode` of a concatenation is the concatenation of the encodings |
| UrlEncoding.RawUrlEncodeChar | src/EtcdClient.php:301 | an unreserved character is kept as it is, and any other character becomes three characters starting with `%` per UTF-8 byte |
| UrlEncoding.PercentEncode | src/EtcdClient.php:301 | the encoded text holds only unreserved characters and `%` |
| UrlEncoding.RawUrlEncode | src/EtcdClient.php:301 | an encoded key or value never contains `&` or `=` |
| UrlEncoding.PercentRoundTrip | src/EtcdClient.php:301 | percent-decoding the encoding gives back every byte |
| UrlEncoding.RawUrlEncodeUnreserved | src/EtcdClient.php:301 | text of unreserved characters (section 2.3 of RFC 3986) passes through unchanged |
| UrlEncoding.EncodeForm | src/EtcdClient.php:296-303 | no parameters give an empty body; otherwise the `i`-th `&`-separated item is `rawurlencode(k)=rawurlencode(v)` of the `i`-th parameter, and splitting on `&` and `=` and decoding recovers every parameter, in order |
| PhpArray.PutGet | src/EtcdClient.php:238 | after `$a[$k] = $v` the key reads `$v` and every other key reads as before |
| PhpArray.PutKeys | src/HttpResponse.php:63 | assigning to a present key keeps its place; assigning to a new key appends it |
| PhpArray.PutUnique | src/HttpResponse.php:63 | an assignment never duplicates a key |
| PhpArray.Unset | src/EtcdClient.php:240-243 | `unset` removes the key, leaves every other key's value and keeps keys unique; the result holds only pairs of the array; an absent key leaves the array unchanged |
| PhpArray.KeyOrderAfterUnset | src/EtcdClient.php:240-243 | `unset` keeps the remaining keys in their order |
| PhpArray.KeyIndex | src/EtcdClient.php:240-243 | the position of the pair `unset` removes: it holds the key, and no earlier pair does |
| PhpArray.CutByUnset | src/EtcdClient.php:240-243 | on a PHP array with the key present, `unset` cuts out exactly the pair at `KeyIndex`, everything before and after it staying in place |
| PhpArray.PutAllLastWins | src/HttpResponse.php:57-64 | after assignments in turn, a key reads its last assigned value, or its old value if never assigned |
| PhpArray.PutAllKeys | src/HttpResponse.php:57-64 | the keys after assignments in turn are the old keys and the assigned ones |
| PhpArray.PutAllUnique | src/HttpResponse.php:57-64 | assignments in turn never duplicate a key |
| PhpArray.PutAllKeyOrder | src/EtcdClient.php:207-226 | assignments into an empty array keep each key where it was first assigned |
| Dispatch.HostUrlParts | src/EtcdClient.php:362-367 | a host URL is `http://host:port`, one slash, and the url with all its leading slashes (and nothing else) removed |
| Dispatch.Schedule | src/EtcdClient.php:353-374 | the schedule is the first pass followed by the second: `2 * |hosts|` calls in attempt-major order |
| Dispatch.ScheduleShape | src/EtcdClient.php:353-367 | every scheduled call is to a host of the order, in a pass below 2, with fresh-connect iff pass > 0, the host URL and the request |
| Dispatch.RunCalls | src/EtcdClient.php:360-378 | the calls made are a prefix of the schedule; all but the last failed; the result is the last call's, or `false` when none was made; it is truthy or every call was made |
| Dispatch.ClusterRequest | src/EtcdClient.php:345-381 | the dispatch stops at the first truthy result of the two-pass schedule and makes at most `2 * |hosts|` calls |
| Dispatch.FirstSuccessUnique | src/EtcdClient.php:368-378 | that stopping rule has exactly one outcome |
| Dispatch.Pass | src/EtcdClient.php:360-374 | one inner loop either stops at a truthy answer with the final outcome, or makes the whole pass with every call failed |
| Dispatch.PerformClusterRequest | src/EtcdClient.php:345-381 | the loop stops at the first truthy result, makes at most `2 * |hosts|` calls and agrees with `ClusterRequest` |
| Dispatch.NoHostsNoCalls | src/EtcdClient.php:347-380 | with no hosts nothing is called and the result is `false` |
| Dispatch.OneLiveHostSuffices | src/EtcdClient.php:353-378 | one host answering truthily on the first pass makes the dispatch succeed, whatever the shuffle |
| Dispatch.AllFailExhausts | src/EtcdClient.php:353-380 | when every call fails, every host is tried on both passes |
| Etcd.HostUrlOfRooted | src/EtcdClient.php:362-367 | a url with exactly one leading slash is appended to `http://host:port` as it is |
| Etcd.KeyUrl | src/EtcdClient.php:362-367 | a key request goes to `http://host:port` followed by the key path, with exactly one slash before `v2` |
| Response.DropCR | src/HttpResponse.php:56 | a carriage return at the end of a piece is removed, and only then |
| Response.SplitLines | src/HttpResponse.php:56 | the header block splits at every line feed; a piece before a line feed loses its final carriage return exactly when it has one, and the last piece is kept whole |
| Response.ParseHeaderLine | src/HttpResponse.php:59-63 | a line gives a header iff its trimmed text has a colon, and the name has no colon |
| Response.ParseHeaderLineAt | src/HttpResponse.php:59-63 | the line is split at its first colon only, so further colons stay in the value; name and value are trimmed |
| Response.HeaderPairsFromLines | src/HttpResponse.php:57-64 | every stored header comes from a line of the block |
| Response.LineWithoutColonIgnored | src/HttpResponse.php:60 | a line without a colon, such as the status line, adds no header |
| Response.HeaderPairsByTrim | src/HttpResponse.php:59 | lines with the same trimmed text give the same headers |
| Response.HeadersIgnoreCR | src/HttpResponse.php:56-59 | splitting at CRLF or LF gives the same headers as splitting at bare LF |
| Response.ParseHeaders | src/HttpResponse.php:53-67 | the headers have unique names, exactly the names of the header lines |
| Response.CreateFromRaw | src/HttpResponse.php:18-51 | the status code and raw body read back unchanged, the JSON body is the decoding of the body, and the headers are the parsed block |
| Response.HeaderLastWins | src/HttpResponse.php:38-41 | `getHeader` gives the value of the last line naming the header (exact, case-sensitive) and the default, None for PHP's `null`, when none does |
| Wrappers.SomesFrom | src/HttpResponse.php:57-64 | every collected value comes from an entry holding it |
| Wrappers.SomesOrder | src/EtcdClient.php:208-225 | collecting the present values keeps their order and misses none: an index map into the entries that rises strictly and covers every present entry |
| Etcd.DoRequest | src/EtcdClient.php:285-334 | an invalid method fails before any call; otherwise success iff the dispatch is truthy; failure is "Error performing etcd request: " with the method and url; on success, with `n` the last call's header size capped at the answer's length, the status is the last call's, the headers are the parse of the first `n` characters, the body is the rest, and the JSON body its decoding |
| Etcd.InvalidMethodSendsNothing | src/EtcdClient.php:312-315 | an invalid method fails the same way whatever the transport does |
| Etcd.NoHostsAlwaysFails | src/EtcdClient.php:318-325 | with no hosts every valid request fails with the exhaustion error |
| Etcd.SplitRaw | src/EtcdClient.php:328-333 | the header part and the body put back together are the raw answer, with the header part as long as the header size allows |
| Etcd.ResponseSplitsRaw | src/EtcdClient.php:328-333 | the response's header block followed by its body is the raw answer |
| Etcd.FixedMethodsNormal | src/EtcdClient.php:292 | the method names the client passes are already trimmed and upper-case |
| Etcd.FixedDoRequest | src/EtcdClient.php:285-325 | for GET, PUT and DELETE the request is always prepared, with a body only for PUT/DELETE with parameters; `_doRequest` fails exactly when no host gives a truthy answer, with "Error performing etcd request" for that method and url |
| Etcd.KeyWrite | src/EtcdClient.php:257-275 | a write succeeds iff a host answers a PUT carrying the write parameters, and otherwise fails with the exhaustion error for the key path |
| Etcd.Mk | src/EtcdClient.php:65-68 | `mk` is a write with `prevExist=false`, failing only on exhaustion |
| Etcd.Set | src/EtcdClient.php:77-80 | `set` is an unconditional write, failing only on exhaustion |
| Etcd.Update | src/EtcdClient.php:89-92 | `update` is a write with `prevExist=true`, failing only on exhaustion |
| Etcd.WriteParameters | src/EtcdClient.php:259-268 | `prevExist` is "false" for `mk`, absent for `set` and "true" for `update` |
| Etcd.WriteBodyRoundTrip | src/EtcdClient.php:296-309 | the server reads a write's body back as its parameters, in order |
| Etcd.WriteIgnoresResponse | src/EtcdClient.php:270-274 | the outcome of a write does not depend on the status or body of the answer |
| Etcd.Rm | src/EtcdClient.php:153-156 | `rm` succeeds iff a host answers a body-less DELETE, and otherwise fails with the exhaustion error |
| Etcd.GetFrom | src/EtcdClient.php:125-143 | the `get` ladder as iffs: 404 is not-found; else a directory node is the wrong type; else a node value is returned; else the generic error with the raw body |
| Etcd.GetLadderOrder | src/EtcdClient.php:125-134 | a 404 is not-found even with a value in the body, and a directory is the wrong type even with a value |
| Etcd.GetKey | src/EtcdClient.php:122-144 | `get` fails with the exhaustion error when no host answers and otherwise applies the ladder to the response |
| Etcd.TryGet | src/EtcdClient.php:103-113 | `tryGet` returns the value, the default on not-found, and every other error unchanged |
| Etcd.TryGetErrors | src/EtcdClient.php:103-113 | `tryGet` fails iff `get` fails with something other than not-found, and never with not-found |
| Etcd.ParseLsNodes | src/EtcdClient.php:205-227 | a listing names each key once, and its keys are exactly those of the nodes that contribute something |
| Etcd.NodeEntry | src/EtcdClient.php:210-224 | a node contributes nothing iff it is neither a directory nor has a value; a directory with `nodes` contributes the listing of its children, one without an empty listing; a leaf contributes its value |
| Etcd.ListedPairs | src/EtcdClient.php:208-225 | every contributing node gives its (key, entry) pair, and every pair comes from a contributing node |
| Etcd.ListedPairsSomes | src/EtcdClient.php:208-225 | the pairs are the contributions of the nodes that contribute, taken in node order |
| Etcd.ListedPairsOrder | src/EtcdClient.php:208-225 | the `j`-th pair comes from node `idx[j]`, the node indices rise strictly with `j`, and every contributing node is among them: the pairs follow the `foreach` order |
| Etcd.ParseLsNodesAssigns | src/EtcdClient.php:205-227 | the listing is the contributed (key, entry) pairs assigned in node order |
| Etcd.LsFlattening | src/EtcdClient.php:205-227 | a listing has unique keys; on a duplicate key the last node wins; keys keep the order of their first node |
| Etcd.LsListsEveryNode | src/EtcdClient.php:208-225 | every contributing node is listed under its key with what it contributes, unless a later node takes the key |
| Etcd.LsUrl | src/EtcdClient.php:169-173 | the URL is the key path, followed by `?recursive=true` exactly when recursive |
| Etcd.LsFrom | src/EtcdClient.php:176-202 | the `ls` ladder: 404 is not-found; else no node is the unknown-key error; else a node with `nodes` is listed; else a node value is the wrong type; else the parse error |
| Etcd.LsEmptyDirectoryFails | src/EtcdClient.php:190-202 | a directory node without `nodes` is the parse error, not an empty listing |
| Etcd.Ls | src/EtcdClient.php:167-203 | `ls` fails with the exhaustion error when no host answers and otherwise applies the ladder to the response |
| Etcd.ParseLsNodesSnoc | src/EtcdClient.php:208-225 | one more node is assigned on top of the listing of the nodes before it |
| Etcd.LsTwoValues | tests/EtcdClientTest.php:23-32 | two values under distinct keys are listed under their keys, in order |
| Etcd.LsSubdirWithoutRecursion | tests/EtcdClientTest.php:23-32 | without recursion a sub-directory comes back as an empty listing after the values |
| Etcd.LsSubdirWithRecursion | tests/EtcdClientTest.php:34-47 | with recursion a sub-directory holds its own listing |

## Left out

- curl: `curl_init`, `curl_setopt`, `curl_exec`, `curl_getinfo`, the 10-second
  timeout and the CURLOPT flags are I/O.
  - Each transport call is a `Dispatch.Call` value. It records the pass, the
    host, the URL, the fresh-connect flag and the prepared request.
  - The answer, status code and header size of a call are functions supplied in
    an `Etcd.Transport`.
- The `Content-length` header array given to curl is a transport detail and is
  not modelled.
- The randomness of `shuffle` is not modelled. The shuffled order is an input,
  required to be a permutation of the configured hosts.
- `json_decode` is a foreign call and is a parameter of the model. A body that
  fails to decode and one that decodes to `null` both give no node.
  - Only the `key`, `dir`, `value` and `nodes` members are modelled.
  - `value` is a string and `dir` a boolean.
  - Other JSON types in those members are not modelled.
- Hosts.ParseEntry: a port is taken only when it is a non-empty run of ASCII
  digits. PHP `is_numeric` also accepts signs, decimals, exponents and leading
  white space, and `(int)` then truncates; those forms get the default port here.
  - Ports are unbounded naturals, so PHP's integer overflow is not modelled.
- Requests.MakeParams: `ttl` is an integer. PHP would also accept a numeric
  string or a float, which the model does not cover.
- PHP turns numeric-string array keys such as `"123"` into integer keys. This
  does not change lookups or order for the client's arrays, and integer keys are
  not modelled.
- Etcd.SplitRaw: the header size is counted in characters. curl counts bytes.
  The two agree when the header block is ASCII, as HTTP header blocks are.
- Text.Upper: only ASCII letters are upper-cased. That is PHP's `strtoupper`
  from PHP 8.2 on, and before that under the C locale; older PHP versions
  under another locale may also convert other bytes, which is not modelled.
- PHP strings are byte strings, and the model uses Unicode text: a byte string
  that is not valid UTF-8 (a key, value or header with such bytes) cannot be
  represented. Where bytes matter, as in `rawurlencode`, the model works on the
  UTF-8 encoding of the text.
- The exception class hierarchy is flattened into `Errors.Error`.
  - `NotFoundException`'s message is `Errors.Message`.
  - `tryGet` catching only `NotFoundException` becomes a match on the error value.
- Server-side semantics are not modelled: conflicts on `mk`, absence on
  `update`, TTL expiry, and reading back what was set. The client never checks
  them, and a `set`-then-`get` needs a server.
