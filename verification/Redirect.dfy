/** sameHostRedirectPolicy, and the chase of an http.Client that consults it. */
module Redirect {
  import opened Paths

  datatype URL = URL(scheme: string, host: string, rest: string)

  const MAX_REDIRECTS: nat := 10

  predicate SameOrigin(a: URL, b: URL) {
    a.scheme == b.scheme && a.host == b.host
  }

  /** True when the policy returns no error. */
  predicate Allows(request: URL, via: seq<URL>)
    requires via != []
  {
    |via| < MAX_REDIRECTS && SameOrigin(request, via[0])
  }

  /** Where the servers send the client after a sequence of requests, if anywhere. */
  type Servers = seq<URL> -> Option<URL>

  /** The requests that were sent, each one where the servers sent the client, until they sent it
      nowhere or the policy refused. */
  ghost predicate IsChase(servers: Servers, first: URL, sent: seq<URL>) {
    && sent != [] && sent[0] == first
    && (forall i :: 1 <= i < |sent| ==> servers(sent[..i]) == Some(sent[i]) && Allows(sent[i], sent[..i]))
    && (servers(sent).None? || !Allows(servers(sent).value, sent))
  }

  /** http.Client.Do with CheckRedirect set to the policy: whatever the servers answer, the client sends
      at most ten requests, all to the scheme and host of the first, and then stops. */
  method Do(servers: Servers, first: URL) returns (sent: seq<URL>, refused: bool)
    ensures IsChase(servers, first, sent)
    ensures |sent| <= MAX_REDIRECTS
    ensures forall i :: 0 <= i < |sent| ==> SameOrigin(sent[i], first)
    ensures refused <==> servers(sent).Some?
    ensures Follows(servers, first, sent)
  {
    sent := [first];
    while true
      invariant 1 <= |sent| <= MAX_REDIRECTS && sent[0] == first
      invariant forall i :: 1 <= i < |sent| ==> servers(sent[..i]) == Some(sent[i]) && Allows(sent[i], sent[..i])
      invariant forall i :: 0 <= i < |sent| ==> SameOrigin(sent[i], first)
      decreases MAX_REDIRECTS - |sent|
    {
      var next := servers(sent);
      if next.None? {
        FollowsExactly(servers, first, sent);
        return sent, false;
      }
      if !Allows(next.value, sent) {
        FollowsExactly(servers, first, sent);
        return sent, true;
      }
      ghost var before := sent;
      sent := sent + [next.value];
      assert forall i :: 1 <= i <= |before| ==> sent[..i] == before[..i];
      assert before[..|before|] == before;
    }
  }

  /** Every request but the first is where the servers sent the client, at the scheme and host of the first;
      the client stops only where they send it nowhere, elsewhere, or for an eleventh request. */
  ghost predicate Follows(servers: Servers, first: URL, sent: seq<URL>) {
    && 1 <= |sent| <= 10 && sent[0] == first
    && (forall i :: 1 <= i < |sent| ==> servers(sent[..i]) == Some(sent[i]))
    && (forall i :: 0 <= i < |sent| ==> sent[i].scheme == first.scheme && sent[i].host == first.host)
    && var next := servers(sent);
       next.Some? && next.value.scheme == first.scheme && next.value.host == first.host ==> |sent| == 10
  }

  /** The chases are exactly these. */
  lemma FollowsExactly(servers: Servers, first: URL, sent: seq<URL>)
    ensures IsChase(servers, first, sent) <==> Follows(servers, first, sent)
  {
    if Follows(servers, first, sent) {
      forall i | 1 <= i < |sent| ensures servers(sent[..i]) == Some(sent[i]) && Allows(sent[i], sent[..i]) {
        assert sent[..i][0] == first;
      }
    }
    if IsChase(servers, first, sent) {
      forall i | 1 <= i < |sent| ensures sent[i].scheme == first.scheme && sent[i].host == first.host && i < 10 {
        assert Allows(sent[i], sent[..i]) && sent[..i][0] == first;
      }
      if |sent| > 1 {
        assert Allows(sent[|sent| - 1], sent[..|sent| - 1]);
      }
    }
  }

  lemma {:induction false} ChasePrefix(servers: Servers, first: URL, a: seq<URL>, b: seq<URL>, n: nat)
    requires IsChase(servers, first, a) && IsChase(servers, first, b) && n <= |a| && n <= |b|
    ensures a[..n] == b[..n]
  {
    if n > 0 {
      ChasePrefix(servers, first, a, b, n - 1);
      assert a[..n] == a[..n - 1] + [a[n - 1]] && b[..n] == b[..n - 1] + [b[n - 1]];
    }
  }

  /** The servers determine the chase: no request is skipped and none is added. */
  lemma ChaseUnique(servers: Servers, first: URL, a: seq<URL>, b: seq<URL>)
    requires IsChase(servers, first, a) && IsChase(servers, first, b)
    ensures a == b
  {
    var n := if |a| <= |b| then |a| else |b|;
    ChasePrefix(servers, first, a, b, n);
    assert a[..|a|] == a && b[..|b|] == b;
  }
}
