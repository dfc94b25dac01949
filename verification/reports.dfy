/** The records the engine produces: vulnerability findings, the scan
    totals, and the leveled log lines it hands to its callback. */
module Reports {

  /** The `method` argument of `test_parameter`: `'GET'` by default, `'POST'`
      for body parameters. */
  datatype Method = GET | POST

  /** The `confidence` field; the engine only ever reports `'High'`. */
  datatype Confidence = High

  /** The `type` field; the engine only ever reports `'Reflected XSS'`. */
  datatype VulnKind = ReflectedXss

  datatype Vulnerability = Vulnerability(
    kind: VulnKind,
    parameter: string,
    payload: string,
    httpMethod: Method,
    confidence: Confidence)

  /** The `results` dictionary of `scan`. */
  datatype ScanResult = ScanResult(
    vulnerabilities: seq<Vulnerability>,
    tested: nat,
    reflected: nat)

  /** The tag passed to `log_callback`. */
  datatype Level = Info | Success | Warning | Error

  /** What each `log_callback` line reports, without its exact wording. */
  datatype Message =
    | StartingDetection
    | Blank
    | MissingScheme
    | TargetHost(netloc: string)
    | TargetPath(path: string)
    | QueryDetected(query: string)
    | NoQueryParameters
    | TestingPost
    | ParameterCount(count: nat, httpMethod: Method)
    | TestingParameter(name: string, httpMethod: Method)
    | TestingPayload(number: nat, total: nat, preview: string)
    | VulnerabilityConfirmed
    | VulnerableParameter(name: string, httpMethod: Method)
    | SafeParameter(name: string, httpMethod: Method)
    | Rule
    | SummaryTitle
    | TotalTested(count: nat)
    | ReflectionsDetected(count: nat)
    | VulnerabilitiesFound(count: nat)

  datatype Event = Event(level: Level, message: Message)

  /** Number of log lines at `level`. */
  function CountLevel(events: seq<Event>, level: Level): (n: nat)
    ensures n <= |events|
  {
    if |events| == 0 then 0
    else (if events[0].level == level then 1 else 0) + CountLevel(events[1..], level)
  }

  lemma {:induction false} CountLevelAppend(a: seq<Event>, b: seq<Event>, level: Level)
    ensures CountLevel(a + b, level) == CountLevel(a, level) + CountLevel(b, level)
  {
    if |a| > 0 {
      assert (a + b)[1..] == a[1..] + b;
      CountLevelAppend(a[1..], b, level);
    } else {
      assert a + b == b;
    }
  }

  lemma {:induction false} CountLevelAbsent(events: seq<Event>, level: Level)
    requires forall i :: 0 <= i < |events| ==> events[i].level != level
    ensures CountLevel(events, level) == 0
  {
    if |events| > 0 {
      CountLevelAbsent(events[1..], level);
    }
  }
}
