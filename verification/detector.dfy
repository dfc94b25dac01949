/** `XSStrikeEngine.test_parameter`: the simulated probe of one parameter.
    No request is made; the verdict depends only on the target URL text. */
module Detector {
  import opened Text
  import opened Payloads
  import opened Reports

  /** The demonstration heuristic: the lower-cased target mentions `test`,
      `demo` or `vulnweb`. */
  predicate LooksVulnerable(target: string)
  {
    var t := Lower(target);
    Contains(t, "test") || Contains(t, "demo") || Contains(t, "vulnweb")
  }

  /** The test ignores letter case: a target and its lower-cased form get
      the same verdict. */
  lemma LooksVulnerableIgnoresCase(target: string)
    ensures LooksVulnerable(Lower(target)) <==> LooksVulnerable(target)
  {
    LowerIdempotent(target);
  }

  /** `payload[:30]`, the excerpt shown in the log line. */
  function Preview(payload: string): (p: string)
    ensures |p| <= 30 && p <= payload
    ensures |payload| <= 30 ==> p == payload
    ensures |payload| > 30 ==> |p| == 30
  {
    if |payload| <= 30 then payload else payload[..30]
  }

  /** The excerpt is the longest prefix of at most 30 characters: every such
      prefix is a prefix of the excerpt. */
  lemma PreviewLongest(payload: string, q: string)
    requires q <= payload && |q| <= 30
    ensures q <= Preview(payload)
  {
    var p := Preview(payload);
    assert p == payload[..|p|];
    assert q == payload[..|q|];
    assert |q| <= |p|;
    assert q == p[..|q|];
  }

  /** The single finding the probe can report for a parameter. */
  function Finding(name: string, verb: Method): Vulnerability
  {
    Vulnerability(ReflectedXss, name, Catalog[0], verb, High)
  }

  /** What one probe returns, together with the log lines it emitted. */
  datatype Probe = Probe(findings: seq<Vulnerability>, events: seq<Event>)

  /** The log message announcing the try of the payload at index `i`,
      numbered from 1 out of the probed five. */
  function Trial(i: nat): Message
    requires i < |Probed|
  {
    TestingPayload(i + 1, |Probed|, Preview(Probed[i]))
  }

  /** The loop over `enumerate(payloads[:5])` from index `i` on: even indices
      are logged as tried, and on a suspicious target index 0 yields the
      finding and breaks out of the loop. */
  function ProbeFrom(target: string, name: string, verb: Method, i: nat): (r: Probe)
    ensures |r.findings| <= 1
    ensures r.findings != [] <==> i == 0 && LooksVulnerable(target)
    ensures r.findings != [] ==> r.findings[0] == Finding(name, verb)
    ensures CountLevel(r.events, Error) == |r.findings|
    decreases |Probed| - i
  {
    if i >= |Probed| then Probe([], [])
    else if i % 2 == 0 then
      var attempt := Event(Info, Trial(i));
      if LooksVulnerable(target) && i == 0 then
        Probe([Vulnerability(ReflectedXss, name, Probed[i], verb, High)],
              [attempt, Event(Error, VulnerabilityConfirmed)])
      else
        var rest := ProbeFrom(target, name, verb, i + 1);
        Probe(rest.findings, [attempt] + rest.events)
    else
      ProbeFrom(target, name, verb, i + 1)
  }

  /** `test_parameter(target, name, config, log, method=verb)`: at most one
      finding, present exactly on a suspicious target, built from the first
      catalog payload; one error-level line per finding. */
  function TestParameter(target: string, name: string, verb: Method): (r: Probe)
    ensures |r.findings| <= 1
    ensures r.findings != [] <==> LooksVulnerable(target)
    ensures r.findings != [] ==> r.findings == [Finding(name, verb)]
    ensures CountLevel(r.events, Error) == |r.findings|
  {
    ProbeFrom(target, name, verb, 0)
  }

  /** Number of payloads logged as tried. */
  function Attempts(events: seq<Event>): (n: nat)
    ensures n <= |events|
  {
    if |events| == 0 then 0
    else (if events[0].message.TestingPayload? then 1 else 0) + Attempts(events[1..])
  }

  /** The payload-trial messages of a log, in order; one per attempt. */
  function Tried(events: seq<Event>): (ms: seq<Message>)
    ensures |ms| == Attempts(events)
    ensures forall k :: 0 <= k < |ms| ==> ms[k].TestingPayload?
  {
    if |events| == 0 then []
    else (if events[0].message.TestingPayload? then [events[0].message] else []) + Tried(events[1..])
  }

  /** The log lines do not depend on the parameter name or the method, so the
      verdict and everything logged are the same for every parameter of a
      target. */
  lemma {:induction false} ProbeIgnoresParameter(target: string, a: string, va: Method, b: string, vb: Method, i: nat)
    ensures ProbeFrom(target, a, va, i).events == ProbeFrom(target, b, vb, i).events
    ensures |ProbeFrom(target, a, va, i).findings| == |ProbeFrom(target, b, vb, i).findings|
    decreases |Probed| - i
  {
    if i < |Probed| {
      ProbeIgnoresParameter(target, a, va, b, vb, i + 1);
    }
  }

  /** Only the payloads at indices 0, 2 and 4 are tried, in that order: the
      first alone on a suspicious target (the loop breaks), all three
      otherwise. */
  lemma TestParameterAttempts(target: string, name: string, verb: Method)
    ensures Tried(TestParameter(target, name, verb).events)
         == if LooksVulnerable(target) then [Trial(0)] else [Trial(0), Trial(2), Trial(4)]
    ensures Attempts(TestParameter(target, name, verb).events) == if LooksVulnerable(target) then 1 else 3
  {
    var p4 := ProbeFrom(target, name, verb, 4);
    assert ProbeFrom(target, name, verb, 5) == Probe([], []);
    assert p4.events == [Event(Info, Trial(4))];
    assert Tried(p4.events) == [Trial(4)];
    assert ProbeFrom(target, name, verb, 3) == p4;
    var p2 := ProbeFrom(target, name, verb, 2);
    assert p2.events == [Event(Info, Trial(2))] + p4.events;
    assert Tried(p2.events) == [Trial(2), Trial(4)] by {
      assert p2.events[1..] == p4.events;
    }
    assert ProbeFrom(target, name, verb, 1) == p2;
    var p0 := ProbeFrom(target, name, verb, 0);
    var first := Event(Info, Trial(0));
    if LooksVulnerable(target) {
      assert p0.events == [first, Event(Error, VulnerabilityConfirmed)];
      assert p0.events[1..] == [Event(Error, VulnerabilityConfirmed)];
      assert Tried(p0.events[1..]) == [];
    } else {
      assert p0.events == [first] + p2.events;
      assert p0.events[1..] == p2.events;
    }
  }
}
