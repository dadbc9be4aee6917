/** The reachability probe (`is_connected`) and the choice of the local IPv6
    address (`get_local_ipv6`). The HTTP HEAD requests and the resolver are
    not modelled: their outcomes are inputs. */
module Probe {
  import opened Wrappers
  import Text

  /** The endpoints `is_connected` tries, in order. */
  const TestUrls: seq<string> :=
    ["https://www.baidu.com", "https://www.aliyun.com", "https://www.bing.com", "https://www.google.com"]

  /** What one HEAD request yields: a status code, or a request exception
      (timeout, refused connection, ...). */
  datatype ProbeOutcome = Status(code: int) | RequestFailed

  /** The outcomes one run of `is_connected` would meet: one per endpoint of
      `TestUrls`, in the same order. */
  type ProbeRound = r: seq<ProbeOutcome> | |r| == |TestUrls|
    witness [RequestFailed, RequestFailed, RequestFailed, RequestFailed]

  /** A probe passes on a 2xx status; an exception counts as a failed probe. */
  predicate Succeeded(o: ProbeOutcome) {
    o.Status? && 200 <= o.code < 300
  }

  /** Position of the first passing probe, or the number of probes when none
      passes. `results[i]` is the outcome for the i-th endpoint. */
  function FirstSuccess(results: seq<ProbeOutcome>): (k: nat)
    ensures k <= |results|
    ensures forall i :: 0 <= i < k ==> !Succeeded(results[i])
    ensures k < |results| ==> Succeeded(results[k])
  {
    if results == [] then 0
    else if Succeeded(results[0]) then 0
    else 1 + FirstSuccess(results[1..])
  }

  /** `is_connected`: scan the endpoints in order and answer true at the
      first 2xx status. */
  function IsConnected(results: seq<ProbeOutcome>): (up: bool)
    ensures up <==> exists i :: 0 <= i < |results| && Succeeded(results[i])
  {
    FirstSuccess(results) < |results|
  }

  /** How many HEAD requests `is_connected` sends: it stops right after the
      first passing probe. */
  function RequestsSent(results: seq<ProbeOutcome>): nat {
    var k := FirstSuccess(results);
    if k < |results| then k + 1 else |results|
  }

  /** In one run over the endpoints, the probe issues requests up to and
      including the first endpoint that answers 2xx and none after it; every
      request before that one failed; when none answers 2xx, every endpoint
      of `TestUrls` was tried. */
  lemma IsConnectedSpec(results: ProbeRound)
    ensures 1 <= RequestsSent(results) <= |TestUrls|
    ensures IsConnected(results) ==> Succeeded(results[RequestsSent(results) - 1])
    ensures forall i :: 0 <= i < RequestsSent(results) - 1 ==> !Succeeded(results[i])
    ensures !IsConnected(results) ==> RequestsSent(results) == |TestUrls|
  {
  }

  /** Outcomes after the first passing probe are never looked at. */
  lemma {:induction false} IsConnectedIgnoresLater(results: seq<ProbeOutcome>, later: seq<ProbeOutcome>)
    requires IsConnected(results)
    ensures IsConnected(results + later)
    ensures RequestsSent(results + later) == RequestsSent(results)
  {
    var k := FirstSuccess(results);
    var all := results + later;
    assert all[k] == results[k];
    assert forall i :: 0 <= i < k ==> all[i] == results[i];
    FirstSuccessIs(all, k);
  }

  /** The scan stops at the first passing probe, wherever it is. */
  lemma {:induction false} FirstSuccessIs(results: seq<ProbeOutcome>, k: nat)
    requires k < |results| && Succeeded(results[k])
    requires forall i :: 0 <= i < k ==> !Succeeded(results[i])
    ensures FirstSuccess(results) == k
  {
  }

  /** `get_local_ipv6` keeps an address unless it is link-local (`fe80::`
      prefix) or the loopback `::1`. */
  predicate Eligible(addr: string) {
    !Text.StartsWith(addr, "fe80::") && addr != "::1"
  }

  /** Position of the first eligible candidate, or the number of candidates. */
  function FirstEligible(candidates: seq<string>): (k: nat)
    ensures k <= |candidates|
    ensures forall i :: 0 <= i < k ==> !Eligible(candidates[i])
    ensures k < |candidates| ==> Eligible(candidates[k])
  {
    if candidates == [] then 0
    else if Eligible(candidates[0]) then 0
    else 1 + FirstEligible(candidates[1..])
  }

  /** `get_local_ipv6`: the resolver's IPv6 addresses for the host in the
      resolver's order (`None` when the lookup raised); the first eligible
      one, or the empty string. */
  function LocalIpv6(lookup: Option<seq<string>>): (r: string)
    ensures r == "" || Eligible(r)
    ensures lookup.None? ==> r == ""
  {
    match lookup
    case None => ""
    case Some(candidates) =>
      var k := FirstEligible(candidates);
      if k < |candidates| then candidates[k] else ""
  }

  /** A non-empty choice is a resolver result preceded only by ineligible
      ones; when some result is eligible the choice is; when none is, the
      choice is the empty string. */
  lemma LocalIpv6Spec(lookup: Option<seq<string>>)
    ensures var r := LocalIpv6(lookup);
      && (lookup.Some? && r != "" ==>
            exists k :: 0 <= k < |lookup.value| && lookup.value[k] == r
              && forall i :: 0 <= i < k ==> !Eligible(lookup.value[i]))
      && (lookup.Some? && (exists k :: 0 <= k < |lookup.value| && Eligible(lookup.value[k])) ==>
            Eligible(r))
      && (lookup.Some? && (forall k :: 0 <= k < |lookup.value| ==> !Eligible(lookup.value[k])) ==>
            r == "")
  {
    if lookup.Some? {
      var k := FirstEligible(lookup.value);
      if k < |lookup.value| {
        assert lookup.value[k] == LocalIpv6(lookup);
      }
    }
  }

  /** The two addresses the filter rejects. */
  lemma RejectsLinkLocalAndLoopback(rest: string)
    ensures !Eligible("fe80::" + rest)
    ensures !Eligible("::1")
    ensures LocalIpv6(Some(["::1", "fe80::" + rest])) == ""
  {
    assert ("fe80::" + rest)[..6] == "fe80::";
  }
}
