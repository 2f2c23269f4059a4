/** `_performClusterRequest`: one logical request tried against the hosts in
    a shuffled order, twice over, stopping at the first truthy transport
    result. The transport is an oracle from a call to its raw result (None
    for curl's `false`); the shuffle is an input order. */
module Dispatch {
  import opened Wrappers
  import opened Text
  import opened Hosts
  import opened Requests

  /** How many passes over the host list are made. */
  const Attempts: nat := 2

  /** One transport call: the pass it belongs to, the host, the full URL,
      whether a fresh connection is forced, and the request being sent. */
  datatype Call = Call(attempt: nat, host: Host, url: string, freshConnect: bool, request: Prepared)

  /** The outcome of a dispatch: curl's last result and the calls made. */
  datatype Dispatched = Dispatched(raw: Option<string>, trace: seq<Call>)

  /** PHP truthiness of a transport result: `false`, `""` and `"0"` are falsy. */
  predicate Truthy(r: Option<string>) {
    r.Some? && r.value != "" && r.value != "0"
  }

  /** `http://host:port` of one host. */
  function Origin(h: Host): string {
    "http://" + h.host + ":" + NatToString(h.port)
  }

  /** The URL of a request against one host. */
  function HostUrl(h: Host, url: string): string {
    Origin(h) + "/" + TrimLeft(url, Slashes)
  }

  /** A host URL is the origin, one slash, and what is left of the url once
      all its leading slashes are dropped. */
  lemma HostUrlParts(h: Host, url: string)
    ensures var u := HostUrl(h, url);
      |Origin(h)| + 1 <= |u| && u[..|Origin(h)| + 1] == Origin(h) + "/"
    ensures var u := HostUrl(h, url);
      var path := u[|Origin(h)| + 1..];
      && |path| <= |url| && path == url[|url| - |path|..]
      && (forall k :: 0 <= k < |url| - |path| ==> url[k] == '/')
      && (|path| > 0 ==> path[0] != '/')
  {
    var o := Origin(h) + "/";
    var u := HostUrl(h, url);
    assert u[..|o|] == o && u[|o|..] == TrimLeft(url, Slashes);
  }

  /** One pass over the hosts in order. */
  function Round(order: seq<Host>, url: string, request: Prepared, a: nat): (calls: seq<Call>)
    ensures |calls| == |order|
    ensures forall j :: 0 <= j < |order| ==> calls[j] == Call(a, order[j], HostUrl(order[j], url), a > 0, request)
  {
    seq(|order|, j requires 0 <= j < |order| => Call(a, order[j], HostUrl(order[j], url), a > 0, request))
  }

  /** The first `n` passes, one after the other. */
  function Rounds(order: seq<Host>, url: string, request: Prepared, n: nat): seq<Call>
  {
    if n == 0 then [] else Rounds(order, url, request, n - 1) + Round(order, url, request, n - 1)
  }

  lemma {:induction false} RoundsLength(order: seq<Host>, url: string, request: Prepared, n: nat)
    ensures |Rounds(order, url, request, n)| == n * |order|
  {
    if n > 0 {
      RoundsLength(order, url, request, n - 1);
      assert (n - 1) * |order| + |order| == n * |order|;
    }
  }

  /** Every call the dispatch may make, in the order it makes them: each
      host of the order on the first pass, then each again on the second. */
  function Schedule(order: seq<Host>, url: string, request: Prepared): (calls: seq<Call>)
    ensures |calls| == Attempts * |order|
    ensures calls == Round(order, url, request, 0) + Round(order, url, request, 1)
  {
    RoundsLength(order, url, request, Attempts);
    assert Rounds(order, url, request, 1) == Round(order, url, request, 0);
    Rounds(order, url, request, Attempts)
  }

  /** Every scheduled call is to a host of the order, and forces a fresh
      connection exactly when it is not in the first pass. */
  lemma ScheduleShape(order: seq<Host>, url: string, request: Prepared)
    ensures forall k :: 0 <= k < |Schedule(order, url, request)| ==>
      var c := Schedule(order, url, request)[k];
      && c.host in order && c.attempt < Attempts && (c.freshConnect <==> c.attempt > 0)
      && c.url == HostUrl(c.host, url) && c.request == request
  {
    var first := Round(order, url, request, 0);
    var calls := Schedule(order, url, request);
    forall k | 0 <= k < |calls|
      ensures calls[k].host in order && calls[k].attempt < Attempts
      ensures calls[k].freshConnect <==> calls[k].attempt > 0
    {
      if k < |first| {
        assert calls[k] == first[k];
      } else {
        assert calls[k] == Round(order, url, request, 1)[k - |first|];
      }
    }
  }

  /** The first `i` passes are a prefix of the first `n`. */
  lemma {:induction false} RoundsGrow(order: seq<Host>, url: string, request: Prepared, i: nat, n: nat)
    requires i <= n
    ensures |Rounds(order, url, request, i)| <= |Rounds(order, url, request, n)|
    ensures Rounds(order, url, request, n)[..|Rounds(order, url, request, i)|] == Rounds(order, url, request, i)
  {
    if i < n {
      RoundsGrow(order, url, request, i, n - 1);
      var prev := Rounds(order, url, request, n - 1);
      assert Rounds(order, url, request, n)[..|prev|] == prev;
    }
  }

  /** `(raw, trace)` is what stopping at the first truthy result of `calls`
      gives: the calls made are a prefix of `calls`, all but the last failed,
      the result is the last call's (curl's initial `false` when no call was
      made), and either it is truthy or every call was made. */
  predicate FirstSuccess(calls: seq<Call>, exchange: Call -> Option<string>, raw: Option<string>, trace: seq<Call>) {
    && |trace| <= |calls| && trace == calls[..|trace|]
    && (forall k :: 0 <= k < |trace| - 1 ==> !Truthy(exchange(trace[k])))
    && (|trace| == 0 ==> raw == None)
    && (|trace| > 0 ==> raw == exchange(trace[|trace| - 1]))
    && (Truthy(raw) || trace == calls)
  }

  /** The calls made one by one until one is truthy. */
  function RunCalls(calls: seq<Call>, exchange: Call -> Option<string>): (d: Dispatched)
    ensures FirstSuccess(calls, exchange, d.raw, d.trace)
  {
    if |calls| == 0 then Dispatched(None, [])
    else
      var r := exchange(calls[0]);
      if Truthy(r) || |calls| == 1 then Dispatched(r, [calls[0]])
      else
        var rest := RunCalls(calls[1..], exchange);
        var d := Dispatched(rest.raw, [calls[0]] + rest.trace);
        assert forall k :: 1 <= k < |d.trace| ==> d.trace[k] == rest.trace[k - 1];
        d
  }

  /** First success pins the outcome down: there is only one. */
  lemma FirstSuccessUnique(calls: seq<Call>, exchange: Call -> Option<string>, raw: Option<string>, trace: seq<Call>)
    requires FirstSuccess(calls, exchange, raw, trace)
    ensures Dispatched(raw, trace) == RunCalls(calls, exchange)
  {
    var d := RunCalls(calls, exchange);
    assert forall k :: 0 <= k < |trace| - 1 ==> !Truthy(exchange(calls[k]));
    assert forall k :: 0 <= k < |d.trace| - 1 ==> !Truthy(exchange(calls[k]));
    assert |trace| > 0 ==> raw == exchange(calls[|trace| - 1]);
    assert |d.trace| > 0 ==> d.raw == exchange(calls[|d.trace| - 1]);
    assert |trace| == |d.trace|;
  }

  /** The dispatch as a function of the shuffled order and the transport: it
      stops at the first truthy result of the schedule, after at most two
      calls per host. */
  function ClusterRequest(order: seq<Host>, url: string, request: Prepared, exchange: Call -> Option<string>): (d: Dispatched)
    ensures FirstSuccess(Schedule(order, url, request), exchange, d.raw, d.trace)
    ensures |d.trace| <= Attempts * |order|
  {
    RunCalls(Schedule(order, url, request), exchange)
  }

  /** Every call of `trace` failed, and `raw` is the last call's result
      (curl's initial `false` when no call was made). */
  predicate AllFailed(trace: seq<Call>, exchange: Call -> Option<string>, raw: Option<string>) {
    && (forall k :: 0 <= k < |trace| ==> !Truthy(exchange(trace[k])))
    && (|trace| == 0 ==> raw == None)
    && (|trace| > 0 ==> raw == exchange(trace[|trace| - 1]))
  }

  /** The trace of pass `i` after its first `j` calls. */
  lemma InnerStep(order: seq<Host>, url: string, request: Prepared, i: nat, j: nat, done: seq<Call>, trace: seq<Call>)
    requires j < |order|
    requires trace == done + Round(order, url, request, i)[..j]
    ensures trace + [Round(order, url, request, i)[j]] == done + Round(order, url, request, i)[..j + 1]
  {
    var r := Round(order, url, request, i);
    assert r[..j + 1] == r[..j] + [r[j]];
  }

  /** One more failed call keeps every call failed. */
  lemma FailedStep(trace: seq<Call>, exchange: Call -> Option<string>, raw: Option<string>, call: Call)
    requires AllFailed(trace, exchange, raw) && !Truthy(exchange(call))
    ensures AllFailed(trace + [call], exchange, exchange(call))
  {
    var t := trace + [call];
    assert forall k :: 0 <= k < |trace| ==> t[k] == trace[k];
  }

  /** The calls up to call `j` of pass `i` are a prefix of the schedule. */
  lemma PassPrefix(order: seq<Host>, url: string, request: Prepared, i: nat, j: nat, before: seq<Call>)
    requires i < Attempts && j < |order|
    requires before == Rounds(order, url, request, i) + Round(order, url, request, i)[..j]
    ensures |before| + 1 <= |Schedule(order, url, request)|
    ensures before + [Round(order, url, request, i)[j]] == Schedule(order, url, request)[..|before| + 1]
  {
    var calls := Schedule(order, url, request);
    var round := Round(order, url, request, i);
    var done := Rounds(order, url, request, i);
    var next := Rounds(order, url, request, i + 1);
    var trace := before + [round[j]];
    assert trace == done + round[..j + 1] by {
      InnerStep(order, url, request, i, j, done, before);
    }
    assert |next| <= |calls| && calls[..|next|] == next by {
      RoundsGrow(order, url, request, i + 1, Attempts);
    }
    assert trace == next[..|done| + j + 1] by {
      assert next == done + round;
      PrefixOfAppend(done, round, j + 1);
    }
    PrefixOfPrefix(calls, next, |trace|);
  }

  /** A prefix of the second part extends the first part to a prefix of the
      whole. */
  lemma PrefixOfAppend<T>(a: seq<T>, b: seq<T>, m: nat)
    requires m <= |b|
    ensures a + b[..m] == (a + b)[..|a| + m]
  {
  }

  /** A prefix of a prefix is a prefix. */
  lemma PrefixOfPrefix<T>(s: seq<T>, p: seq<T>, n: nat)
    requires |p| <= |s| && s[..|p|] == p && n <= |p|
    ensures s[..n] == p[..n]
  {
    assert forall k :: 0 <= k < n ==> s[k] == s[..|p|][k];
  }

  /** The loop state when call `j` of pass `i` succeeds after every earlier
      call failed. */
  lemma StopEarly(order: seq<Host>, url: string, request: Prepared, exchange: Call -> Option<string>,
                  i: nat, j: nat, raw0: Option<string>, before: seq<Call>)
    requires i < Attempts && j < |order|
    requires before == Rounds(order, url, request, i) + Round(order, url, request, i)[..j]
    requires AllFailed(before, exchange, raw0)
    requires Truthy(exchange(Round(order, url, request, i)[j]))
    ensures FirstSuccess(Schedule(order, url, request), exchange, exchange(Round(order, url, request, i)[j]),
                         before + [Round(order, url, request, i)[j]])
  {
    PassPrefix(order, url, request, i, j, before);
    var trace := before + [Round(order, url, request, i)[j]];
    assert forall k :: 0 <= k < |trace| - 1 ==> trace[k] == before[k];
  }

  /** The loop state once both passes have failed. */
  lemma Exhausted(order: seq<Host>, url: string, request: Prepared, exchange: Call -> Option<string>,
                  raw: Option<string>, trace: seq<Call>)
    requires trace == Rounds(order, url, request, Attempts)
    requires AllFailed(trace, exchange, raw)
    ensures FirstSuccess(Schedule(order, url, request), exchange, raw, trace)
    ensures Dispatched(raw, trace) == ClusterRequest(order, url, request, exchange)
  {
    assert trace == Schedule(order, url, request);
    FirstSuccessUnique(Schedule(order, url, request), exchange, raw, trace);
  }

  /** One pass of `_performClusterRequest`'s inner loop, pass `i`: the hosts
      are called in order until one answers truthily (`stopped`), after
      which the outcome is final; otherwise every call of the pass was made
      and failed. */
  method Pass(order: seq<Host>, url: string, request: Prepared, exchange: Call -> Option<string>,
              i: nat, raw0: Option<string>, trace0: seq<Call>)
    returns (raw: Option<string>, trace: seq<Call>, stopped: bool)
    requires i < Attempts
    requires trace0 == Rounds(order, url, request, i)
    requires AllFailed(trace0, exchange, raw0)
    ensures stopped ==> FirstSuccess(Schedule(order, url, request), exchange, raw, trace) && Truthy(raw)
    ensures !stopped ==> trace == Rounds(order, url, request, i + 1) && AllFailed(trace, exchange, raw)
  {
    raw := raw0;
    trace := trace0;
    var round := Round(order, url, request, i);
    var j := 0;
    while j < |order|
      invariant 0 <= j <= |order|
      invariant trace == trace0 + round[..j]
      invariant AllFailed(trace, exchange, raw)
    {
      var call := round[j];
      if Truthy(exchange(call)) {
        StopEarly(order, url, request, exchange, i, j, raw, trace);
        return exchange(call), trace + [call], true;
      }
      InnerStep(order, url, request, i, j, trace0, trace);
      FailedStep(trace, exchange, raw, call);
      raw := exchange(call);
      trace := trace + [call];
      j := j + 1;
    }
    assert round[..j] == round;
    assert trace == Rounds(order, url, request, i + 1);
    stopped := false;
  }

  /** `_performClusterRequest`. The loops stop at the first truthy result
      and make at most `Attempts * |hosts|` calls. */
  method PerformClusterRequest(hosts: seq<Host>, order: seq<Host>, url: string, request: Prepared, exchange: Call -> Option<string>)
    returns (raw: Option<string>, trace: seq<Call>)
    requires multiset(order) == multiset(hosts)
    ensures FirstSuccess(Schedule(order, url, request), exchange, raw, trace)
    ensures |trace| <= Attempts * |hosts|
    ensures Dispatched(raw, trace) == ClusterRequest(order, url, request, exchange)
  {
    assert |order| == |multiset(order)| == |hosts|;
    raw := None;
    trace := [];
    var i := 0;
    while i < Attempts
      invariant 0 <= i <= Attempts
      invariant trace == Rounds(order, url, request, i)
      invariant AllFailed(trace, exchange, raw)
    {
      var stopped;
      raw, trace, stopped := Pass(order, url, request, exchange, i, raw, trace);
      if stopped {
        FirstSuccessUnique(Schedule(order, url, request), exchange, raw, trace);
        return;
      }
      i := i + 1;
    }
    Exhausted(order, url, request, exchange, raw, trace);
  }

  /** With no hosts configured nothing is called and the result is falsy. */
  lemma NoHostsNoCalls(url: string, request: Prepared, exchange: Call -> Option<string>)
    ensures ClusterRequest([], url, request, exchange) == Dispatched(None, [])
  {
  }

  /** One host answering on the first pass is enough: the dispatch succeeds
      however many other hosts refuse. */
  lemma OneLiveHostSuffices(hosts: seq<Host>, order: seq<Host>, url: string, request: Prepared, exchange: Call -> Option<string>, h: Host)
    requires multiset(order) == multiset(hosts)
    requires h in hosts
    requires Truthy(exchange(Call(0, h, HostUrl(h, url), false, request)))
    ensures Truthy(ClusterRequest(order, url, request, exchange).raw)
  {
    assert h in multiset(hosts);
    var j :| 0 <= j < |order| && order[j] == h;
    var calls := Schedule(order, url, request);
    var d := ClusterRequest(order, url, request, exchange);
    assert calls[j] == Call(0, h, HostUrl(h, url), false, request);
    assert j < |calls| - 1;
    assert Truthy(d.raw) || d.trace == calls;
  }

  /** When every call fails, every host is tried on every pass. */
  lemma AllFailExhausts(order: seq<Host>, url: string, request: Prepared, exchange: Call -> Option<string>)
    requires forall c :: !Truthy(exchange(c))
    ensures ClusterRequest(order, url, request, exchange).trace == Schedule(order, url, request)
    ensures |ClusterRequest(order, url, request, exchange).trace| == Attempts * |order|
  {
  }
}
